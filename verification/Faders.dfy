/** gfx_lib.c: the pixel faders.  Hue, saturation and value of every pixel move towards a target by
    a fixed step per tick; hue goes round a circle of 65536 and takes the shorter way. */
module Faders {
  import opened Integers

  const FADER_RATE := 20

  /** One faded quantity of one pixel. */
  datatype Channel = Channel(cur: u16, target: u16, step: i16, fade: u16)

  function Sign(x: int): int { if x < 0 then -1 else 1 }

  /** How many ticks a fade is spread over. */
  function FadeSteps(fade: u16): (n: nat)
    ensures n >= 2
  {
    if fade / FADER_RATE <= 1 then 2 else fade / FADER_RATE
  }

  /** The difference taken the shorter way round the circle. */
  function Shorter(diff: int): (r: int)
    requires -0x10000 < diff < 0x10000
    ensures -0x8000 <= r <= 0x8000 && (r == diff || r == diff - 0x10000 || r == diff + 0x10000)
  {
    if Abs(diff) <= 0x8000 then diff else if diff > 0 then diff - 0x10000 else diff + 0x10000
  }

  /** The way round is taken when it is more than half, so that exactly half way it is not. */
  lemma ShorterIs(diff: int)
    requires -0x10000 < diff < 0x10000
    ensures -32768 <= diff <= 32768 ==> Shorter(diff) == diff
    ensures diff > 32768 ==> Shorter(diff) == diff - 65536
    ensures diff < -32768 ==> Shorter(diff) == diff + 65536
  {
  }

  lemma QuotientBound(a: int, n: nat)
    requires n >= 2 && -0x10000 < a < 0x10000
    ensures Abs(Quotient(a, n)) <= Abs(a) / 2 && Abs(a) < n * Abs(Quotient(a, n)) + n
    ensures Quotient(a, n) != 0 ==> Sign(Quotient(a, n)) == Sign(a)
  {
    var b := Abs(a);
    var q := b / n;
    assert b == n * q + b % n;
    assert q >= 0 by {
      if q < 0 {
        MulAtMost(n, q, -1);
      }
    }
    MulAtMost(q, 2, n);
  }

  lemma MulAtMost(x: int, a: int, b: int)
    requires a <= b && x >= 0
    ensures x * a <= x * b
  {
  }

  /** The step of a new fade, clamped as the source does it. */
  function StepFor(diff: int, n: nat): (r: i16)
    requires n >= 2 && -0x10000 < diff < 0x10000
    ensures r != 0 && Abs(r) <= 0x7fff
  {
    QuotientBound(diff, n);
    var step := Quotient(diff, n);
    var clamped: int :=
      if step > 0x8000 then 0x8000
      else if step < -0x7fff then -0x7fff
      else if step == 0 then (if diff >= 0 then 1 else -1)
      else step;
    clamped
  }

  lemma StepForNone(n: nat)
    requires n >= 2
    ensures StepFor(0, n) == 1
  {
  }

  /** A new fade gets there in twice its number of ticks; the clamps never bite. */
  lemma StepReaches(diff: int, n: nat)
    requires n >= 2 && -0x10000 < diff < 0x10000
    ensures Sign(StepFor(diff, n)) == Sign(diff) && Abs(diff) < 2 * n * Abs(StepFor(diff, n))
    ensures Abs(StepFor(diff, n)) <= if Abs(diff) < 2 then 1 else Abs(diff) / 2
  {
    QuotientBound(diff, n);
    var s := Abs(StepFor(diff, n));
    MulAtMost(n, 1, s);
    assert 2 * n * s == n * s + n * s;
  }

  // ----- One tick -----

  /** A new fade starts when the step is zero and the target is elsewhere. */
  function Aimed(c: Channel, circular: bool): (r: Channel)
    ensures r.cur == c.cur && r.target == c.target && r.fade == c.fade
  {
    if c.step == 0 && c.target != c.cur then
      var diff := c.target - c.cur;
      c.(step := StepFor(if circular then Shorter(diff) else diff, FadeSteps(c.fade)))
    else c
  }

  /** x modulo 65536, which is what a 16-bit cell keeps. */
  function Wrapped(x: int): (r: u16)
    requires -0x10000 <= x < 0x20000
  {
    if x < 0 then x + 0x10000 else if x < 0x10000 then x else x - 0x10000
  }

  /** A running fade takes a step, as 16-bit arithmetic does it, or lands when the target is nearer
      than a step. */
  function Moved(c: Channel): (r: Channel)
    ensures r.target == c.target && r.fade == c.fade
  {
    if c.step == 0 then c
    else if Abs(c.target - c.cur) < Abs(c.step) then c.(cur := c.target, step := 0)
    else c.(cur := Wrapped(c.cur + c.step))
  }

  function Tick(c: Channel, circular: bool): Channel {
    Moved(Aimed(c, circular))
  }

  function Ticks(c: Channel, circular: bool, k: nat): (r: Channel)
    ensures r.target == c.target && r.fade == c.fade
  {
    if k == 0 then c else Tick(Ticks(c, circular, k - 1), circular)
  }

  predicate Settled(c: Channel) {
    c.cur == c.target && c.step == 0
  }

  lemma SettledStays(c: Channel, circular: bool)
    requires Settled(c)
    ensures Tick(c, circular) == c
  {
  }

  lemma {:induction false} TicksFrom(c: Channel, circular: bool, k: nat)
    requires k > 0
    ensures Ticks(c, circular, k) == Ticks(Tick(c, circular), circular, k - 1)
  {
    if k > 1 {
      TicksFrom(c, circular, k - 1);
    }
  }

  lemma {:induction false} SettledTicks(c: Channel, circular: bool, k: nat)
    requires Settled(c)
    ensures Ticks(c, circular, k) == c
  {
    if k > 0 {
      SettledTicks(c, circular, k - 1);
    }
  }

  // ----- Saturation, value and the dimmer -----

  /** The fade is under way in the right direction. */
  predicate Heading(c: Channel) {
    c.step != 0 && (c.target == c.cur || Sign(c.step) == Sign(c.target - c.cur))
  }

  /** A step goes towards the target and not past it. */
  lemma LevelStep(c: Channel)
    requires Heading(c)
    ensures var c' := Moved(c);
            && (Abs(c.target - c.cur) < Abs(c.step) ==> Settled(c'))
            && (Abs(c.target - c.cur) >= Abs(c.step) ==>
                  && Heading(c') && c'.step == c.step && c'.cur == c.cur + c.step
                  && Abs(c'.target - c'.cur) == Abs(c.target - c.cur) - Abs(c.step))
            && (if c.cur <= c.target then c.cur <= c'.cur <= c.target else c.target <= c'.cur <= c.cur)
  {
  }

  lemma MulOneLess(m: int, s: int)
    ensures (m - 1) * s == m * s - s
  {
  }

  /** A fade that has less than m steps to go is over after m ticks. */
  lemma {:induction false} LevelSettles(c: Channel, m: nat)
    requires Heading(c) && Abs(c.target - c.cur) < m * Abs(c.step)
    ensures Settled(Ticks(c, false, m))
    decreases m
  {
    if m > 0 {
      LevelStep(c);
      TicksFrom(c, false, m);
      if Abs(c.target - c.cur) < Abs(c.step) {
        SettledTicks(Moved(c), false, m - 1);
      } else {
        MulOneLess(m, Abs(c.step));
        LevelSettles(Moved(c), m - 1);
      }
    }
  }

  /** A new saturation or value is reached within twice the fade's number of ticks, and stays. */
  lemma LevelReaches(c: Channel, k: nat)
    requires c.step == 0 && k >= 2 * FadeSteps(c.fade)
    ensures Settled(Ticks(c, false, k))
  {
    if c.cur == c.target {
      SettledTicks(c, false, k);
    } else {
      var a := Aimed(c, false);
      StepReaches(c.target - c.cur, FadeSteps(c.fade));
      hide StepFor, FadeSteps, Moved, Ticks;
      MulAtMost(Abs(a.step), 2 * FadeSteps(c.fade), k);
      LevelSettles(a, k);
      TicksFrom(c, false, k);
      TicksFrom(a, false, k);
    }
  }

  lemma LevelTick(c: Channel)
    requires c.step == 0 || Heading(c)
    ensures var c' := Tick(c, false);
            && (Settled(c') || Heading(c'))
            && (if c.cur <= c.target then c.cur <= c'.cur <= c.target else c.target <= c'.cur <= c.cur)
  {
    var a := Aimed(c, false);
    if c.step == 0 && c.target != c.cur {
      StepReaches(c.target - c.cur, FadeSteps(c.fade));
    }
    hide StepFor;
    if a.step != 0 {
      LevelStep(a);
    }
  }

  /** On the way it only ever goes towards the target, and never past it. */
  lemma {:induction false} LevelMonotone(c: Channel, k: nat)
    requires c.step == 0
    ensures var x, y := Ticks(c, false, k), Ticks(c, false, k + 1);
            && (Settled(y) || Heading(y))
            && if c.cur <= c.target then c.cur <= x.cur <= y.cur <= c.target else c.target <= y.cur <= x.cur <= c.cur
  {
    hide Tick;
    if k > 0 {
      LevelMonotone(c, k - 1);
    }
    LevelTick(Ticks(c, false, k));
  }

  /** A fade that runs needs no aiming. */
  lemma RunningTick(c: Channel)
    requires Heading(c) || Settled(c)
    ensures Tick(c, false) == Moved(c) && (Heading(Moved(c)) || Settled(Moved(c)))
  {
    if Heading(c) {
      LevelStep(c);
    }
  }

  /** The dimmer, aimed even when it is there already, arrives in the same number of ticks. */
  lemma DimmerReaches(c: Channel, k: nat)
    requires c.step == StepFor(c.target - c.cur, FadeSteps(c.fade)) && k >= 2 * FadeSteps(c.fade)
    ensures Heading(c) && Settled(Ticks(c, false, k))
  {
    hide FadeSteps, Ticks, StepFor;
    StepReaches(c.target - c.cur, FadeSteps(c.fade));
    MulAtMost(Abs(c.step), 2 * FadeSteps(c.fade), k);
    LevelSettles(c, k);
  }

  // ----- How long a fade takes -----

  /** A step is at most its share of the way, if the way is longer than the fade has ticks. */
  lemma StepShare(diff: int, n: nat)
    requires n >= 2 && -0x10000 < diff < 0x10000
    ensures n * Abs(StepFor(diff, n)) <= if Abs(diff) < n then n else Abs(diff)
  {
    var q := Abs(diff) / n;
    assert Abs(diff) == n * q + Abs(diff) % n;
    QuotientSize(diff, n);
    QuotientBound(diff, n);
    if q == 0 {
      assert Abs(StepFor(diff, n)) == 1;
    }
  }

  lemma QuotientSize(a: int, n: nat)
    requires n >= 2
    ensures Abs(Quotient(a, n)) == Abs(a) / n
    ensures Abs(a) < n ==> Quotient(a, n) == 0
    ensures Abs(a) >= n ==> Quotient(a, n) != 0
  {
    var b := Abs(a);
    assert b == n * (b / n) + b % n;
  }

  /** While a fade runs it has gone k whole steps. */
  lemma GoneSteps(c: Channel, k: nat)
    requires Heading(c) && k * Abs(c.step) <= Abs(c.target - c.cur)
    ensures var x := Ticks(c, false, k);
            x.step == c.step && Heading(x) && Abs(x.cur - c.cur) == k * Abs(c.step)
            && Abs(x.target - x.cur) == Abs(c.target - c.cur) - k * Abs(c.step)
  {
    hide Heading, Ticks, Abs;
    WayIs(k, Abs(c.step));
    GoneWay(c, k);
  }

  /** The length of k steps. */
  function Way(k: nat, s: nat): nat {
    if k == 0 then 0 else Way(k - 1, s) + s
  }

  lemma {:induction false} WayIs(k: nat, s: nat)
    ensures Way(k, s) == k * s
  {
    if k > 0 {
      WayIs(k - 1, s);
      MulOneLess(k, s);
    }
  }

  lemma {:induction false} GoneWay(c: Channel, k: nat)
    requires Heading(c) && Way(k, Abs(c.step)) <= Abs(c.target - c.cur)
    ensures var x := Ticks(c, false, k);
            x.step == c.step && Heading(x) && Abs(x.cur - c.cur) == Way(k, Abs(c.step))
            && Abs(x.target - x.cur) == Abs(c.target - c.cur) - Way(k, Abs(c.step))
  {
    if k > 0 {
      hide Heading, Tick, Ticks, Abs;
      GoneWay(c, k - 1);
      TicksNext(c, k);
      Onwards(c, Ticks(c, false, k - 1), Way(k - 1, Abs(c.step)));
    }
  }

  lemma TicksNext(c: Channel, k: nat)
    requires k > 0
    ensures Ticks(c, false, k) == Tick(Ticks(c, false, k - 1), false)
  {
    hide Tick;
  }

  /** A step on from x, which is m on the way from c. */
  lemma Onwards(c: Channel, x: Channel, m: nat)
    requires Heading(c) && Heading(x) && x.step == c.step && x.target == c.target && Abs(x.cur - c.cur) == m
    requires Abs(x.target - x.cur) == Abs(c.target - c.cur) - m >= Abs(c.step)
    ensures var y := Tick(x, false);
            && y.step == c.step && Heading(y) && y.target == c.target && Abs(y.cur - c.cur) == m + Abs(c.step)
            && Abs(y.target - y.cur) == Abs(c.target - c.cur) - m - Abs(c.step)
  {
    hide Moved, Tick;
    LevelStep(x);
    RunningTick(x);
  }

  /** A fade of f milliseconds is over after f / 10 ticks, or four for the shortest fades. */
  lemma FadeDone(c: Channel, k: nat)
    requires c.step == 0 && k >= 4 && k >= c.fade / 10
    ensures Settled(Ticks(c, false, k))
  {
    FadeIs(c.fade);
    LevelReaches(c, k);
  }

  /** It is on its way for f / 20 ticks, if it has as far to go: after k it has gone at most k of f / 20
      parts. */
  lemma FadeTakes(c: Channel, k: nat)
    requires c.step == 0 && 2 <= c.fade / 20 <= Abs(c.target - c.cur) && k < c.fade / 20
    ensures Ticks(c, false, k).cur != c.target
    ensures Abs(Ticks(c, false, k).cur - c.cur) * (c.fade / 20) <= k * Abs(c.target - c.cur)
  {
    hide StepFor, Moved, Ticks, FadeSteps;
    FadeIs(c.fade);
    var n, diff, a := c.fade / 20, c.target - c.cur, Aimed(c, false);
    var s, way := Abs(a.step), Abs(diff);
    StepShare(diff, n);
    StepReaches(diff, n);
    ShareOfWay(n, s, k, way);
    SameStart(c, k);
    GoneSteps(a, k);
  }

  lemma SameStart(c: Channel, k: nat)
    requires c.step == 0 && c.target != c.cur
    ensures k > 0 ==> Ticks(c, false, k) == Ticks(Aimed(c, false), false, k)
    ensures Ticks(c, false, 0).cur == Ticks(Aimed(c, false), false, 0).cur == c.cur
    ensures Aimed(c, false).step == StepFor(c.target - c.cur, FadeSteps(c.fade))
  {
    hide StepFor, Moved, FadeSteps;
    var a := Aimed(c, false);
    if k > 0 {
      TicksFrom(c, false, k);
      TicksFrom(a, false, k);
    }
  }

  /** The number of ticks is a twentieth of the milliseconds, and at least two. */
  lemma FadeIs(fade: u16)
    ensures fade >= 40 ==> FadeSteps(fade) == fade / 20
    ensures fade < 40 ==> FadeSteps(fade) == 2
  {
  }

  lemma ShareOfWay(n: nat, s: int, k: nat, way: nat)
    requires s > 0 && n * s <= way && k < n
    ensures k * s < way && k * s * n <= k * way
  {
    MulAtMost(s, k + 1, n);
    MulAtMost(k, n * s, way);
  }

  // ----- Hue -----

  /** How far the target is ahead in the direction of the step, round the circle. */
  function Ahead(c: Channel): (r: nat)
    ensures r < 0x10000
  {
    var diff := Sign(c.step) * (c.target - c.cur);
    if diff >= 0 then diff else diff + 0x10000
  }

  /** On the shorter way to the target. */
  predicate Approaching(c: Channel) {
    c.step != 0 && Abs(c.step) <= 0x4000 && Ahead(c) <= 0x8000
  }

  /** Just past the target, by less than a step. */
  predicate Past(c: Channel) {
    c.step != 0 && 0 < Sign(c.step) * (c.cur - c.target) < Abs(c.step) <= 0x4000
  }

  /** A step of a hue: on along the arc; or home; or, when the way home leads across the wrap, past
      the target by less than a step. */
  lemma HueStep(c: Channel)
    requires Approaching(c)
    ensures HueMoves(c, Moved(c))
  {
    hide Moved, HueMoves, Ahead;
    if c.step > 0 {
      HueStepUp(c);
    } else {
      HueStepDown(c);
    }
  }

  predicate HueMoves(c: Channel, c': Channel) {
    if Ahead(c) >= Abs(c.step) then Approaching(c') && c'.step == c.step && Ahead(c') == Ahead(c) - Abs(c.step)
    else if Sign(c.step) * (c.target - c.cur) >= 0 then Settled(c')
    else Past(c') && c'.step == c.step
  }

  lemma HueStepUp(c: Channel)
    requires Approaching(c) && c.step > 0
    ensures HueMoves(c, Moved(c))
  {
    assert Ahead(c) == if c.target >= c.cur then c.target - c.cur else c.target - c.cur + 0x10000;
  }

  lemma HueStepDown(c: Channel)
    requires Approaching(c) && c.step < 0
    ensures HueMoves(c, Moved(c))
  {
    assert Ahead(c) == if c.target <= c.cur then c.cur - c.target else c.cur - c.target + 0x10000;
  }

  lemma PastSettles(c: Channel)
    requires Past(c)
    ensures Settled(Moved(c))
  {
  }

  lemma {:induction false} HueSettles(c: Channel, m: nat)
    requires Approaching(c) && Ahead(c) < m * Abs(c.step)
    ensures Settled(Ticks(c, true, m + 1))
    decreases m
  {
    hide Ahead, Moved, Wrapped;
    if m > 0 {
      HueStep(c);
      TicksFrom(c, true, m + 1);
      var c' := Moved(c);
      if Ahead(c) >= Abs(c.step) {
        MulOneLess(m, Abs(c.step));
        HueSettles(c', m - 1);
      } else if Settled(c') {
        SettledTicks(c', true, m);
      } else {
        PastSettles(c');
        TicksFrom(c', true, m);
        SettledTicks(Moved(c'), true, m - 1);
      }
    }
  }

  lemma HueAim(c: Channel)
    requires c.step == 0 && c.cur != c.target
    ensures var a := Aimed(c, true);
            && Going(c, 0, a) && Approaching(a) && Ahead(a) < 2 * FadeSteps(c.fade) * Abs(a.step)
  {
    var d := Shorter(c.target - c.cur);
    StepReaches(d, FadeSteps(c.fade));
  }

  /** A new hue is reached within one tick more than twice the fade's number, and stays. */
  lemma HueReaches(c: Channel, k: nat)
    requires c.step == 0 && k >= 2 * FadeSteps(c.fade) + 1
    ensures Settled(Ticks(c, true, k))
  {
    hide Ticks, Moved, Aimed, StepFor, FadeSteps, Going, Shorter, Approaching, Ahead;
    if c.cur == c.target {
      SettledTicks(c, true, k);
    } else {
      var a := Aimed(c, true);
      HueAim(c);
      AimedAlready(a);
      MulAtMost(Abs(a.step), 2 * FadeSteps(c.fade), k - 1);
      HueSettles(a, k - 1);
      TicksFrom(c, true, k);
      TicksFrom(a, true, k);
    }
  }

  /** Every state of a hue fade: approaching along the shorter arc, nearer with every tick; or past
      the target, once, on its last tick but one; or home. */
  lemma {:induction false} HuePath(c: Channel, k: nat)
    requires c.step == 0 && c.cur != c.target && k > 0
    ensures var w, x := Aimed(Ticks(c, true, k - 1), true), Ticks(c, true, k);
            && (Going(c, k, x) || Past(x) || Settled(x))
            && (Past(x) ==> Approaching(w) && Settled(Tick(x, true)))
  {
    hide Ahead, Aimed, Moved, Shorter, Going;
    var w := Ticks(c, true, k - 1);
    if k == 1 {
      HueAim(c);
      GoingOn(c, 0, Aimed(c, true));
    } else {
      HuePath(c, k - 1);
      AimedAlready(w);
      if Going(c, k - 1, w) {
        GoingOn(c, k - 1, w);
      } else if Past(w) {
        PastSettles(w);
      } else {
        SettledStays(w, true);
      }
    }
    AimedAlready(Ticks(c, true, k));
    if Past(Ticks(c, true, k)) {
      PastSettles(Ticks(c, true, k));
    }
  }

  lemma AimedAlready(c: Channel)
    ensures c.step != 0 || Settled(c) ==> Aimed(c, true) == c
  {
  }

  /** k steps of the fade from c done, the rest of the shorter arc ahead. */
  ghost predicate Going(c: Channel, k: nat, x: Channel) {
    && Approaching(x) && c.step == 0 && x.target == c.target
    && x.step == Aimed(c, true).step && Ahead(x) + k * Abs(x.step) == Abs(Shorter(c.target - c.cur))
  }

  lemma GoingOn(c: Channel, k: nat, x: Channel)
    requires Going(c, k, x)
    ensures Approaching(x) && var y := Moved(x); Going(c, k + 1, y) || Settled(y) || Past(y)
  {
    HueStep(x);
    MulOneLess(k + 1, Abs(x.step));
    hide Ahead, Aimed, Moved, Shorter;
  }

  /** What is left of the way when no whole step fits any more. */
  function LastPart(c: Channel): (r: nat)
    requires c.cur != c.target && c.step == 0
  {
    Abs(Shorter(c.target - c.cur)) % Abs(Aimed(c, true).step)
  }

  /** How far behind the wrap the target lies, in the direction of the fade. */
  function BehindWrap(c: Channel): nat
    requires c.cur != c.target && c.step == 0
  {
    if Aimed(c, true).step > 0 then c.target else 0xffff - c.target
  }

  /** As long as whole steps fit, the fade is on the arc. */
  lemma {:induction false} StillGoing(c: Channel, k: nat)
    requires c.step == 0 && c.cur != c.target && k * Abs(Aimed(c, true).step) <= Abs(Shorter(c.target - c.cur))
    ensures Going(c, k, Aimed(Ticks(c, true, k), true))
    ensures k > 0 ==> Ticks(c, true, k) == Aimed(Ticks(c, true, k), true)
  {
    if k == 0 {
      HueAim(c);
    } else {
      MulOneLess(k, Abs(Aimed(c, true).step));
      StillGoing(c, k - 1);
      TickOf(c, k);
      GoesOn(c, k, Aimed(Ticks(c, true, k - 1), true));
    }
  }

  lemma TickOf(c: Channel, k: nat)
    requires k > 0
    ensures Ticks(c, true, k) == Moved(Aimed(Ticks(c, true, k - 1), true))
  {
    hide Moved, Aimed;
  }

  /** A whole step that fits keeps the fade on the arc, and aimed. */
  lemma GoesOn(c: Channel, k: nat, x: Channel)
    requires k > 0 && Going(c, k - 1, x) && k * Abs(Aimed(c, true).step) <= Abs(Shorter(c.target - c.cur))
    ensures Going(c, k, Moved(x)) && Aimed(Moved(x), true) == Moved(x)
  {
    hide Aimed, Moved, Ahead, Shorter;
    MulOneLess(k, Abs(x.step));
    HueStep(x);
    AimedAlready(Moved(x));
  }

  /** With less than a step to go and the way ahead known, the next tick lands unless the wrap is
      still to be crossed. */
  lemma LastStep(c: Channel, x: Channel, r: nat)
    requires Approaching(x) && Ahead(x) == r < Abs(x.step) && x.target == c.target
    ensures if (if x.step > 0 then x.target else 0xffff - x.target) < r then Past(Moved(x)) else Settled(Moved(x))
  {
    HueStep(x);
  }

  lemma GoingNotPast(x: Channel)
    requires Approaching(x)
    ensures !Past(x)
  {
  }

  /** A hue overshoots exactly when its target lies less far behind the wrap than what remains of the
      way after all whole steps. */
  lemma OvershootIff(c: Channel)
    requires c.step == 0 && c.cur != c.target
    ensures (exists k: nat :: Past(Ticks(c, true, k))) <==> BehindWrap(c) < LastPart(c)
  {
    hide Ticks, Moved, Approaching, Past, Settled, Shorter, StepFor, LastPart, BehindWrap;
    var q := LastWholeStep(c);
    if BehindWrap(c) >= LastPart(c) {
      forall k: nat ensures !Past(Ticks(c, true, k)) {
        if k > q {
          SettledLater(c, q + 1, k);
          SettledNotPast(Ticks(c, true, k));
        }
      }
    }
  }

  lemma LastWholeStep(c: Channel) returns (q: nat)
    requires c.step == 0 && c.cur != c.target
    ensures if BehindWrap(c) < LastPart(c) then Past(Ticks(c, true, q + 1)) else Settled(Ticks(c, true, q + 1))
    ensures forall k: nat | k <= q :: !Past(Ticks(c, true, k))
  {
    WholeSteps(Abs(Shorter(c.target - c.cur)), Abs(Aimed(c, true).step));
    q := Abs(Shorter(c.target - c.cur)) / Abs(Aimed(c, true).step);
    hide Ticks, Moved, Approaching, Past, Settled, Shorter, StepFor, LastPart, BehindWrap;
    LastTick(c, q);
    forall k: nat | k <= q ensures !Past(Ticks(c, true, k)) {
      EarlierNotPast(c, q, k);
    }
  }

  lemma SettledNotPast(x: Channel)
    requires Settled(x)
    ensures !Past(x)
  {
  }

  lemma WholeSteps(d: nat, s: nat)
    requires s > 0
    ensures d / s >= 0 && (d / s) * s + d % s == d && d % s < s
  {
  }

  /** The tick after the last whole step lands or overshoots. */
  lemma LastTick(c: Channel, q: nat)
    requires c.step == 0 && c.cur != c.target && Aimed(c, true).step != 0
    requires q == Abs(Shorter(c.target - c.cur)) / Abs(Aimed(c, true).step)
    ensures if BehindWrap(c) < LastPart(c) then Past(Ticks(c, true, q + 1)) else Settled(Ticks(c, true, q + 1))
  {
    WholeSteps(Abs(Shorter(c.target - c.cur)), Abs(Aimed(c, true).step));
    hide Moved, Approaching, Past, Settled, Ahead, Shorter, StepFor;
    StillGoing(c, q);
    var x := Aimed(Ticks(c, true, q), true);
    GoingFacts(c, q, x);
    LastStep(c, x, LastPart(c));
    assert Ticks(c, true, q + 1) == Moved(x);
  }

  lemma GoingFacts(c: Channel, k: nat, x: Channel)
    requires Going(c, k, x)
    ensures Approaching(x) && x.target == c.target && x.step == Aimed(c, true).step
    ensures Ahead(x) == Abs(Shorter(c.target - c.cur)) - k * Abs(Aimed(c, true).step)
  {
  }

  lemma EarlierNotPast(c: Channel, q: nat, k: nat)
    requires c.step == 0 && c.cur != c.target && k <= q && Aimed(c, true).step != 0
    requires q == Abs(Shorter(c.target - c.cur)) / Abs(Aimed(c, true).step)
    ensures !Past(Ticks(c, true, k))
  {
    if k > 0 {
      WholeSteps(Abs(Shorter(c.target - c.cur)), Abs(Aimed(c, true).step));
      hide Moved, Approaching, Past, Ahead, Shorter, StepFor, Ticks;
      MulAtMost(Abs(Aimed(c, true).step), k, q);
      StillGoing(c, k);
      GoingFacts(c, k, Ticks(c, true, k));
      GoingNotPast(Ticks(c, true, k));
    }
  }

  lemma {:induction false} SettledLater(c: Channel, j: nat, k: nat)
    requires Settled(Ticks(c, true, j)) && j <= k
    ensures Settled(Ticks(c, true, k))
  {
    if j < k {
      SettledLater(c, j, k - 1);
    }
  }

  /** For one: from 65529 to 0 at the fastest fade, the third tick shows 2. */
  lemma HueOvershoots()
    ensures Ticks(Channel(65529, 0, 0, 0), true, 3).cur == 2
  {
    var c := Channel(65529, 0, 0, 0);
    assert Quotient(7, 2) == 3;
    assert Ticks(c, true, 1) == Channel(65532, 0, 3, 0);
    assert Ticks(c, true, 2) == Channel(65535, 0, 3, 0);
  }

  /** When the shorter way does not lead across the wrap, a hue fades like any other quantity. */
  lemma {:induction false} NoWrap(c: Channel, k: nat)
    requires c.step == 0 && Abs(c.target - c.cur) <= 0x8000
    ensures Ticks(c, true, k) == Ticks(c, false, k)
  {
    hide Moved, StepFor;
    if k > 0 {
      NoWrap(c, k - 1);
      LevelMonotone(c, k - 1);
    }
  }

  // ----- The pixel arrays -----

  /** The step of a fade that is about to start, or of one that is running. */
  method Aim(c: Channel, circular: bool) returns (step: i16)
    ensures c.(step := step) == Aimed(c, circular)
  {
    step := c.step;
    if step == 0 && c.target != c.cur {
      var fadeSteps: int := c.fade / FADER_RATE;
      if fadeSteps <= 1 {
        fadeSteps := 2;
      }
      var diff: int := c.target - c.cur;
      if circular && Abs(diff) > 0x8000 {
        diff := if diff > 0 then diff - 0x10000 else diff + 0x10000;
      }
      var newStep: int := Quotient(diff, fadeSteps);
      ghost var n: nat := FadeSteps(c.fade);
      assert fadeSteps == n && diff == if circular then Shorter(c.target - c.cur) else c.target - c.cur;
      QuotientBound(diff, n);
      if newStep > 0x8000 {
        newStep := 0x8000;
      } else if newStep < -0x7fff {
        newStep := -0x7fff;
      } else if newStep == 0 {
        newStep := if diff >= 0 then 1 else -1;
      }
      step := newStep;
    }
  }

  /** One tick of one quantity. */
  method FadeOne(c: Channel, circular: bool) returns (cur: u16, step: i16)
    ensures c.(cur := cur, step := step) == Tick(c, circular)
  {
    hide StepFor;
    cur := c.cur;
    step := Aim(c, circular);
    assert c.(step := step) == Aimed(c, circular);
    if step != 0 {
      var diff: int := c.target - cur;
      if Abs(diff) < Abs(step) {
        cur := c.target;
        step := 0;
      } else {
        cur := Wrapped(cur + step);
      }
    }
  }

  class Pixels {
    const hue: array<u16>
    const sat: array<u16>
    const val: array<u16>
    const targetHue: array<u16>
    const targetSat: array<u16>
    const targetVal: array<u16>
    const hsFade: array<u16>
    const vFade: array<u16>
    const hueStep: array<i16>
    const satStep: array<i16>
    const valStep: array<i16>
    var pixCount: nat
    var globalVFade: u16
    var masterDimmer: u16
    var subDimmer: u16
    var currentDimmer: u16
    var targetDimmer: u16
    var dimmerStep: i16

    constructor (maxPixels: nat, globalHsFade: u16, globalVFade: u16)
      ensures Valid() && pixCount == 0 && hue.Length == maxPixels
    {
      hue, sat, val := new u16[maxPixels](_ => 0), new u16[maxPixels](_ => 65535), new u16[maxPixels](_ => 0);
      targetHue, targetSat, targetVal :=
        new u16[maxPixels](_ => 0), new u16[maxPixels](_ => 65535), new u16[maxPixels](_ => 0);
      hsFade, vFade := new u16[maxPixels](_ => globalHsFade), new u16[maxPixels](_ => globalVFade);
      hueStep, satStep, valStep := new i16[maxPixels](_ => 0), new i16[maxPixels](_ => 0), new i16[maxPixels](_ => 0);
      pixCount := 0;
      this.globalVFade, masterDimmer, subDimmer := globalVFade, 65535, 65535;
      currentDimmer, targetDimmer, dimmerStep := 0, 0, 0;
    }

    ghost predicate Valid()
      reads this`pixCount
    {
      && pixCount <= hue.Length
      && hue.Length == sat.Length == val.Length == targetHue.Length == targetSat.Length == targetVal.Length
      && hue.Length == hsFade.Length == vFade.Length == hueStep.Length == satStep.Length == valStep.Length
      && hue !in {sat, val, targetHue, targetSat, targetVal, hsFade, vFade}
      && sat !in {val, targetHue, targetSat, targetVal, hsFade, vFade}
      && val !in {targetHue, targetSat, targetVal, hsFade, vFade}
      && targetHue !in {targetSat, targetVal, hsFade, vFade} && targetSat !in {targetVal, hsFade, vFade}
      && targetVal !in {hsFade, vFade} && hsFade != vFade && hueStep !in {satStep, valStep} && satStep != valStep
    }

    function Hue(i: nat): Channel
      requires Valid() && i < hue.Length
      reads this`pixCount, hue, targetHue, hueStep, hsFade
    {
      Channel(hue[i], targetHue[i], hueStep[i], hsFade[i])
    }

    function Sat(i: nat): Channel
      requires Valid() && i < hue.Length
      reads this`pixCount, sat, targetSat, satStep, hsFade
    {
      Channel(sat[i], targetSat[i], satStep[i], hsFade[i])
    }

    function Val(i: nat): Channel
      requires Valid() && i < hue.Length
      reads this`pixCount, val, targetVal, valStep, vFade
    {
      Channel(val[i], targetVal[i], valStep[i], vFade[i])
    }

    function Dimmer(): Channel
      reads this
    {
      Channel(currentDimmer, targetDimmer, dimmerStep, globalVFade)
    }

    /** The three quantities of one pixel. */
    method TickPixel(i: nat)
      requires Valid() && i < hue.Length
      modifies hue, sat, val, hueStep, satStep, valStep
      ensures Hue(i) == Tick(old(Hue(i)), true) && Sat(i) == Tick(old(Sat(i)), false)
              && Val(i) == Tick(old(Val(i)), false)
      ensures forall k: nat | k < hue.Length && k != i ::
                Hue(k) == old(Hue(k)) && Sat(k) == old(Sat(k)) && Val(k) == old(Val(k))
    {
      hide Tick;
      hue[i], hueStep[i] := FadeOne(Channel(hue[i], targetHue[i], hueStep[i], hsFade[i]), true);
      sat[i], satStep[i] := FadeOne(Channel(sat[i], targetSat[i], satStep[i], hsFade[i]), false);
      val[i], valStep[i] := FadeOne(Channel(val[i], targetVal[i], valStep[i], vFade[i]), false);
    }

    /** Every pixel in use takes a tick, and so does the dimmer if a fade of it is running. */
    method ProcessFaders()
      requires Valid()
      modifies this`currentDimmer, this`dimmerStep, hue, sat, val, hueStep, satStep, valStep
      ensures Dimmer() == Moved(old(Dimmer()))
      ensures forall i: nat | i < hue.Length ::
                if i < pixCount
                then Hue(i) == Tick(old(Hue(i)), true) && Sat(i) == Tick(old(Sat(i)), false)
                  && Val(i) == Tick(old(Val(i)), false)
                else Hue(i) == old(Hue(i)) && Sat(i) == old(Sat(i)) && Val(i) == old(Val(i))
    {
      hide Tick;
      if dimmerStep != 0 {
        var diff: int := targetDimmer - currentDimmer;
        if Abs(diff) < Abs(dimmerStep) {
          currentDimmer := targetDimmer;
          dimmerStep := 0;
        } else {
          currentDimmer := Wrapped(currentDimmer + dimmerStep);
        }
      }
      for i := 0 to pixCount
        invariant forall k: nat | k < hue.Length ::
                    if k < i
                    then Hue(k) == Tick(old(Hue(k)), true) && Sat(k) == Tick(old(Sat(k)), false)
                      && Val(k) == Tick(old(Val(k)), false)
                    else Hue(k) == old(Hue(k)) && Sat(k) == old(Sat(k)) && Val(k) == old(Val(k))
        modifies hue, sat, val, hueStep, satStep, valStep
      {
        TickPixel(i);
      }
    }

    /** k ticks in a row, with no setter in between. */
    method ProcessFor(k: nat)
      requires Valid()
      modifies this`currentDimmer, this`dimmerStep, hue, sat, val, hueStep, satStep, valStep
      ensures forall i: nat | i < pixCount ::
                Hue(i) == Ticks(old(Hue(i)), true, k) && Sat(i) == Ticks(old(Sat(i)), false, k)
                  && Val(i) == Ticks(old(Val(i)), false, k)
      ensures old(Heading(Dimmer()) || Settled(Dimmer())) ==> Dimmer() == Ticks(old(Dimmer()), false, k)
    {
      hide Tick, Moved, Heading, Settled;
      for t := 0 to k
        invariant forall i: nat | i < pixCount ::
                    && Hue(i) == Ticks(old(Hue(i)), true, t) && Sat(i) == Ticks(old(Sat(i)), false, t)
                    && Val(i) == Ticks(old(Val(i)), false, t)
        invariant old(Heading(Dimmer()) || Settled(Dimmer())) ==>
                    Dimmer() == Ticks(old(Dimmer()), false, t) && (Heading(Dimmer()) || Settled(Dimmer()))
      {
        if Heading(Dimmer()) || Settled(Dimmer()) {
          RunningTick(Dimmer());
        }
        ProcessFaders();
      }
    }

    // ----- Setters -----

    method SetHue(h: u16, index: nat)
      requires Valid()
      modifies targetHue, hueStep
      ensures forall i: nat | i < hue.Length ::
                Hue(i) == if i == index then old(Hue(i)).(target := h, step := 0) else old(Hue(i))
    {
      if index >= hue.Length {
        return;
      }
      targetHue[index] := h;
      hueStep[index] := 0;
    }

    method SetSat(s: u16, index: nat)
      requires Valid()
      modifies targetSat, satStep
      ensures forall i: nat | i < hue.Length ::
                Sat(i) == if i == index then old(Sat(i)).(target := s, step := 0) else old(Sat(i))
    {
      if index >= hue.Length {
        return;
      }
      targetSat[index] := s;
      satStep[index] := 0;
    }

    method SetVal(v: u16, index: nat)
      requires Valid()
      modifies targetVal, valStep
      ensures forall i: nat | i < hue.Length ::
                Val(i) == if i == index then old(Val(i)).(target := v, step := 0) else old(Val(i))
    {
      if index >= hue.Length {
        return;
      }
      targetVal[index] := v;
      valStep[index] := 0;
    }

    /** A new fade time restarts both fades it governs. */
    method SetHsFade(a: u16, index: nat)
      requires Valid()
      modifies hsFade, hueStep, satStep
      ensures forall i: nat | i < hue.Length ::
                && Hue(i) == (if i == index then old(Hue(i)).(fade := a, step := 0) else old(Hue(i)))
                && Sat(i) == (if i == index then old(Sat(i)).(fade := a, step := 0) else old(Sat(i)))
    {
      if index >= hue.Length {
        return;
      }
      hsFade[index] := a;
      hueStep[index] := 0;
      satStep[index] := 0;
    }

    method SetVFade(a: u16, index: nat)
      requires Valid()
      modifies vFade, valStep
      ensures forall i: nat | i < hue.Length ::
                Val(i) == if i == index then old(Val(i)).(fade := a, step := 0) else old(Val(i))
    {
      if index >= hue.Length {
        return;
      }
      vFade[index] := a;
      valStep[index] := 0;
    }

    /** Aims the dimmer at the product of its two settings. */
    method UpdateMasterFader()
      modifies this`targetDimmer, this`dimmerStep
      ensures Dimmer() == old(Dimmer()).(target := DimmerTarget(masterDimmer, subDimmer), step := dimmerStep)
      ensures dimmerStep == StepFor(targetDimmer - currentDimmer, FadeSteps(globalVFade))
    {
      hide DimmerTarget, StepFor, FadeSteps;
      targetDimmer := DimmerTarget(masterDimmer, subDimmer);
      StepForNone(FadeSteps(globalVFade));
      var d := Aim(Channel(currentDimmer, targetDimmer, 0, globalVFade), false);
      // unlike a pixel, the dimmer gets a step even when it is there already
      dimmerStep := if targetDimmer == currentDimmer then 1 else d;
    }
  }

  /** Set a pixel, wait long enough, and it shows what it was set to. */
  method FadePixel(p: Pixels, i: nat, h: u16, s: u16, v: u16, k: nat)
    requires p.Valid() && i < p.pixCount
    requires k > 2 * FadeSteps(p.hsFade[i]) && k >= 2 * FadeSteps(p.vFade[i])
    modifies p`currentDimmer, p`dimmerStep, p.hue, p.sat, p.val, p.targetHue, p.targetSat, p.targetVal, p.hueStep,
             p.satStep, p.valStep
    ensures p.hue[i] == h && p.sat[i] == s && p.val[i] == v
  {
    hide Ticks;
    p.SetHue(h, i);
    p.SetSat(s, i);
    p.SetVal(v, i);
    HueReaches(p.Hue(i), k);
    LevelReaches(p.Sat(i), k);
    LevelReaches(p.Val(i), k);
    p.ProcessFor(k);
  }

  /** Aim the dimmer, wait long enough, and it is at the product of its two settings, and stays. */
  method FadeDimmer(p: Pixels, k: nat)
    requires p.Valid() && k >= 2 * FadeSteps(p.globalVFade)
    modifies p`currentDimmer, p`targetDimmer, p`dimmerStep, p.hue, p.sat, p.val, p.hueStep, p.satStep, p.valStep
    ensures p.currentDimmer == p.targetDimmer == DimmerTarget(p.masterDimmer, p.subDimmer) && p.dimmerStep == 0
  {
    hide Ticks, DimmerTarget, StepFor, FadeSteps;
    p.UpdateMasterFader();
    DimmerReaches(p.Dimmer(), k);
    p.ProcessFor(k);
  }

  lemma ProductBound(a: int, b: int)
    requires 0 <= a < 0x10000 && 0 <= b < 0x10000
    ensures 0 <= a * b < 0x1_0000_0000
  {
    MulAtMost(a, 0, b);
    MulAtMost(a, b, 0xffff);
  }

  /** The product of two 16-bit fractions. */
  function DimmerTarget(master: u16, sub: u16): u16 {
    ProductBound(master, sub);
    var product: int := master * sub;
    product / 0x10000
  }

  /** The dimmer's target is the whole part of master * sub / 65536: with either setting at 0 it is
      dark, and full settings give all but one of 65536 steps. */
  lemma DimmerTargetIs(master: u16, sub: u16)
    ensures var x: int, m: int, s: int := DimmerTarget(master, sub), master, sub;
            0x10000 * x <= m * s < 0x10000 * (x + 1)
    ensures DimmerTarget(master, 0) == 0 && DimmerTarget(0, sub) == 0
    ensures DimmerTarget(65535, 65535) == 65534
  {
    ProductBound(master, sub);
    var m: int, s: int := master, sub;
    var p := m * s;
    assert p == 0x10000 * (p / 0x10000) + p % 0x10000;
  }
}
