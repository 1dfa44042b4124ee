/** crc.c: CRC-CCITT (polynomial 0x1021, initial value 0xffff, no reflection, two zero bytes
    shifted in at the end), as the bitwise register that the lookup table abbreviates. */
module Crc {
  import opened Bytes
  import opened Flash25

  const POLY16 := 0x1021

  function XorBits(a: nat, b: nat, n: nat): (r: nat)
    ensures r < Pow2(n)
    decreases n, a
  {
    if n == 0 then 0 else (a + b) % 2 + 2 * XorBits(a / 2, b / 2, n - 1)
  }

  /** Shifts the top `n` bits of `data` (a byte already shifted left) into the register. */
  function ShiftIn(crc: nat, data: nat, n: nat): nat
    decreases n, crc
  {
    if n == 0 then crc
    else
      var shifted := (2 * crc) % 0x10000 + (data / 0x80) % 2;
      ShiftIn(if (crc / 0x8000) % 2 == 1 then XorBits(shifted, POLY16, 16) else shifted, 2 * data, n - 1)
  }

  function Run(crc: nat, data: seq<byte>): nat
    decreases data
  {
    if data == [] then crc else Run(ShiftIn(crc, data[0], 8), data[1..])
  }

  /** The checksum's two bytes, low byte first as the page struct stores them. */
  function Crc16(data: seq<byte>): (r: seq<byte>)
    ensures |r| == 2
  {
    var c := Run(0xffff, data + [0, 0]);
    [c % 0x100, (c / 0x100) % 0x100]
  }

  // ----- What the checksum detects -----

  /** A bit of the result is set exactly when it is set in one of the two. */
  lemma {:induction false} XorBitsAt(a: nat, b: nat, n: nat, k: nat)
    requires k < n
    ensures Bit(XorBits(a, b, n), k) == (Bit(a, k) + Bit(b, k)) % 2
    decreases n
  {
    hide XorBits, Bit;
    XorHalf(a, b, n);
    if k == 0 {
      BitZero(XorBits(a, b, n));
      BitZero(a);
      BitZero(b);
      Parity(a, b, 0, a, b);
    } else {
      HalfPow2(XorBits(a, b, n), k);
      HalfPow2(a, k);
      HalfPow2(b, k);
      XorBitsAt(a / 2, b / 2, n - 1, k - 1);
    }
  }

  lemma XorHalf(a: nat, b: nat, n: nat)
    requires n > 0
    ensures XorBits(a, b, n) / 2 == XorBits(a / 2, b / 2, n - 1) && XorBits(a, b, n) % 2 == (a + b) % 2
  {
  }

  lemma XorNone(a: nat, b: nat)
    ensures XorBits(a, b, 0) == 0
  {
  }

  lemma Parity(a: nat, b: nat, p: nat, u: nat, v: nat)
    requires u % 2 == (a + p) % 2 && v % 2 == (b + p) % 2
    ensures (u + v) % 2 == (a + b) % 2
  {
  }

  lemma Halves(a: nat, b: nat)
    requires a / 2 == b / 2 && a % 2 == b % 2
    ensures a == b
  {
  }

  lemma {:induction false} XorSame(a: nat, b: nat, n: nat)
    requires a < Pow2(n) && b < Pow2(n)
    ensures XorBits(a, b, n) == 0 <==> a == b
    decreases n
  {
    if n > 0 {
      hide XorBits, Pow2;
      PowTwice(n - 1);
      XorHalf(a, b, n);
      XorSame(a / 2, b / 2, n - 1);
      SameHalves(a, b, XorBits(a, b, n));
    } else {
      XorNone(a, b);
      assert Pow2(0) == 1;
    }
  }

  lemma SameHalves(a: nat, b: nat, x: nat)
    requires x % 2 == (a + b) % 2 && (x / 2 == 0 <==> a / 2 == b / 2)
    ensures x == 0 <==> a == b
  {
    SameParity(a, b);
    if a % 2 == b % 2 && a / 2 == b / 2 {
      Halves(a, b);
      Halves(x, 0);
    }
  }

  lemma SameParity(a: nat, b: nat)
    ensures (a + b) % 2 == 0 <==> a % 2 == b % 2
  {
  }

  /** What both sides are combined with cancels out. */
  lemma {:induction false} XorCancel(a: nat, b: nat, p: nat, n: nat)
    ensures XorBits(XorBits(a, p, n), XorBits(b, p, n), n) == XorBits(a, b, n)
    decreases n
  {
    if n > 0 {
      hide XorBits;
      XorCancel(a / 2, b / 2, p / 2, n - 1);
      XorHalf(a, p, n);
      XorHalf(b, p, n);
      var u, v := XorBits(a, p, n), XorBits(b, p, n);
      XorHalf(u, v, n);
      XorHalf(a, b, n);
      Parity(a, b, p, u, v);
      Halves(XorBits(u, v, n), XorBits(a, b, n));
    } else {
      XorNone(a, b);
      XorNone(XorBits(a, p, 0), XorBits(b, p, 0));
    }
  }

  /** Where the top bits agree they do not show. */
  lemma {:induction false} XorTop(a: nat, b: nat, n: nat)
    requires n > 0 && a < Pow2(n) && b < Pow2(n) && XorBits(a, b, n) < Pow2(n - 1)
    ensures a / Pow2(n - 1) == b / Pow2(n - 1)
    ensures XorBits(a % Pow2(n - 1), b % Pow2(n - 1), n - 1) == XorBits(a, b, n)
    decreases n
  {
    if n == 1 {
      assert Pow2(0) == 1 && Pow2(1) == 2;
    } else {
      var p := Pow2(n - 2);
      hide XorBits;
      XorHalf(a, b, n);
      XorTop(a / 2, b / 2, n - 1);
      HalfMod(a, p);
      HalfMod(b, p);
      XorLow(a, b, p, n);
    }
  }

  lemma XorLow(a: nat, b: nat, p: nat, n: nat)
    requires n > 1 && p > 0 && XorBits(a / 2 % p, b / 2 % p, n - 2) == XorBits(a / 2, b / 2, n - 1)
    ensures XorBits(a % (2 * p), b % (2 * p), n - 1) == XorBits(a, b, n)
  {
    hide XorBits;
    HalfMod(a, p);
    HalfMod(b, p);
    var u, v, x, y := a % (2 * p), b % (2 * p), a / 2 % p, b / 2 % p;
    XorHalf(u, v, n - 1);
    XorHalf(a, b, n);
    Twice(u, x, a);
    Twice(v, y, b);
    Parity(a, b, 0, u, v);
    Halves(XorBits(u, v, n - 1), XorBits(a, b, n));
  }

  lemma Twice(u: nat, x: nat, a: nat)
    requires u == 2 * x + a % 2
    ensures u / 2 == x && u % 2 == a % 2 == (a + 0) % 2
  {
  }

  /** One bit shifted in. */
  function Step(crc: nat, bit: nat): nat {
    var shifted := (2 * crc) % 0x10000 + bit;
    if (crc / 0x8000) % 2 == 1 then XorBits(shifted, POLY16, 16) else shifted
  }

  lemma PowersOfTwo()
    ensures Pow2(8) == 0x100 && Pow2(15) == 0x8000 && Pow2(16) == 0x10000
  {
    assert Pow2(4) == 16 && Pow2(8) == 256 && Pow2(12) == 4096;
  }

  lemma StepFits(crc: nat, bit: nat)
    requires crc < 0x10000 && bit <= 1
    ensures Step(crc, bit) < 0x10000
  {
    PowersOfTwo();
  }

  lemma Shifted(x: nat, b: nat)
    requires x < 0x10000 && b <= 1
    ensures var u := (2 * x) % 0x10000 + b; u / 2 == x % 0x8000 && u % 2 == b && (x / 0x8000) % 2 == x / 0x8000
  {
  }

  lemma StepIs(x: nat, b: nat)
    requires x < 0x10000 && b <= 1
    ensures var u := 2 * (x % 0x8000) + b;
            && u < 0x10000 && u / 2 == x % 0x8000 && u % 2 == b && x / 0x8000 <= 1
            && Step(x, b) == if x / 0x8000 == 1 then XorBits(u, POLY16, 16) else u
  {
    hide XorBits;
    Shifted(x, b);
  }

  /** While two registers differ in low bits only, the difference just moves up. */
  lemma StepDiff(x: nat, y: nat, b: nat, c: nat)
    requires x < 0x10000 && y < 0x10000 && b <= 1 && c <= 1 && XorBits(x, y, 16) < 0x8000
    ensures XorBits(Step(x, b), Step(y, c), 16) == 2 * XorBits(x, y, 16) + (b + c) % 2
  {
    hide XorBits, Pow2, Step;
    PowersOfTwo();
    XorTop(x, y, 16);
    var u, v := 2 * (x % 0x8000) + b, 2 * (y % 0x8000) + c;
    StepIs(x, b);
    StepIs(y, c);
    XorHalf(u, v, 16);
    Parity(b, c, 0, u, v);
    XorCancel(u, v, POLY16, 16);
  }

  /** The same bits go in, as far as n of them. */
  predicate BitsAgree(d: nat, e: nat, n: nat)
    decreases n, d
  {
    n == 0 || ((d / 0x80) % 2 == (e / 0x80) % 2 && BitsAgree(2 * d, 2 * e, n - 1))
  }

  /** Registers that come out equal were equal, and so were the bits. */
  lemma {:induction false} ShiftBack(x: nat, y: nat, d: nat, e: nat, n: nat)
    requires x < 0x10000 && y < 0x10000 && n <= 8 && XorBits(x, y, 16) < Pow2(16 - n)
    requires ShiftIn(x, d, n) == ShiftIn(y, e, n)
    ensures x == y && BitsAgree(d, e, n)
    decreases n
  {
    PowersOfTwo();
    hide XorBits, Step;
    if n == 0 {
      XorSame(x, y, 16);
    } else {
      var b, c := (d / 0x80) % 2, (e / 0x80) % 2;
      StepFits(x, b);
      StepFits(y, c);
      PowersGrow(16 - n, 15);
      StepDiff(x, y, b, c);
      ShiftOne(x, d, n);
      ShiftOne(y, e, n);
      ShiftBack(Step(x, b), Step(y, c), 2 * d, 2 * e, n - 1);
      XorSame(Step(x, b), Step(y, c), 16);
      XorSame(x, y, 16);
    }
  }

  lemma ShiftOne(crc: nat, d: nat, n: nat)
    requires n > 0
    ensures ShiftIn(crc, d, n) == ShiftIn(Step(crc, (d / 0x80) % 2), 2 * d, n - 1)
  {
    hide XorBits;
  }

  lemma {:induction false} PowersGrow(m: nat, n: nat)
    requires m <= n
    ensures Pow2(m) <= Pow2(n)
  {
    if m < n {
      PowersGrow(m, n - 1);
    }
  }

  lemma ByteBits(d: byte, e: byte)
    requires BitsAgree(d, e, 8)
    ensures d == e
  {
    TopAgree(d, e, 8);
    TopBitsAll(d);
    TopBitsAll(e);
  }

  /** The top n bits of a byte that is being shifted out. */
  function TopBits(d: nat, n: nat): nat
    decreases n, d
  {
    if n == 0 then 0 else (d / 0x80) % 2 * Pow2(n - 1) + TopBits(2 * d, n - 1)
  }

  lemma {:induction false} TopAgree(d: nat, e: nat, n: nat)
    requires BitsAgree(d, e, n)
    ensures TopBits(d, n) == TopBits(e, n)
    decreases n
  {
    if n > 0 {
      TopAgree(2 * d, 2 * e, n - 1);
    }
  }

  lemma TopBitsAll(d: byte)
    ensures TopBits(d, 8) == d
  {
    PowersOfTwo();
    assert Pow2(0) * d == d;
    TopBitsIs(d, 8);
  }

  lemma {:induction false} TopBitsIs(d: nat, n: nat)
    requires n <= 8
    ensures TopBits(Pow2(8 - n) * d, n) == d % Pow2(n)
  {
    if n > 0 {
      hide TopBits, Pow2;
      var a, p := Pow2(8 - n), Pow2(n - 1);
      TopBitsIs(d, n - 1);
      PowTwice(8 - n);
      PowTwice(n - 1);
      PowersOfTwo();
      PowersMake(8 - n, n - 1);
      TwiceProduct(a, d);
      TopBit(a, p, d);
      LowBits(d, p);
      TopOne(a * d, n);
    }
  }

  lemma PowTwice(n: nat)
    ensures Pow2(n) > 0 && Pow2(n + 1) == 2 * Pow2(n)
  {
  }

  lemma TwiceProduct(a: nat, d: nat)
    ensures 2 * a * d == 2 * (a * d)
  {
  }

  lemma TopOne(d: nat, n: nat)
    requires n > 0
    ensures TopBits(d, n) == (d / 0x80) % 2 * Pow2(n - 1) + TopBits(2 * d, n - 1)
  {
  }

  lemma {:induction false} PowersMake(m: nat, n: nat)
    ensures Pow2(m) * Pow2(n) == Pow2(m + n)
  {
    if m > 0 {
      hide Pow2;
      PowersMake(m - 1, n);
      PowTwice(m - 1);
      PowTwice(m - 1 + n);
      TwiceProduct(Pow2(m - 1), Pow2(n));
    }
  }

  lemma TopBit(a: nat, p: nat, d: nat)
    requires a > 0 && p > 0
    ensures a * d / (a * p) == d / p
  {
    var q, r := d / p, d % p;
    assert d == p * q + r;
    Spread(a, p, q, r);
    Smaller(a, r, p);
    DivIs(a * d, a * p, q, a * r);
  }

  lemma Spread(a: nat, p: nat, q: nat, r: nat)
    ensures a * (p * q + r) == a * p * q + a * r
  {
  }

  lemma Smaller(a: nat, x: nat, y: nat)
    requires a > 0 && x < y
    ensures a * x < a * y
  {
  }

  lemma LowBits(d: nat, p: nat)
    requires p > 0
    ensures d % (2 * p) == (d / p) % 2 * p + d % p
  {
    var q, r := d / p, d % p;
    assert d == p * q + r;
    var h, b := q / 2, q % 2;
    assert q == 2 * h + b;
    assert d == 2 * p * h + (b * p + r);
    DivIs(d, 2 * p, h, b * p + r);
    assert d == 2 * p * (d / (2 * p)) + d % (2 * p);
  }

  /** A step can be undone when its bit is known. */
  lemma StepBack(x: nat, y: nat, b: nat)
    requires x < 0x10000 && y < 0x10000 && b <= 1 && Step(x, b) == Step(y, b)
    ensures x == y
  {
    hide XorBits, Pow2, Step;
    PowersOfTwo();
    StepIs(x, b);
    StepIs(y, b);
    StepLow(x, b);
    StepLow(y, b);
    var u, v := 2 * (x % 0x8000) + b, 2 * (y % 0x8000) + b;
    if x / 0x8000 == 1 {
      XorCancel(u, v, POLY16, 16);
      XorSame(XorBits(u, POLY16, 16), XorBits(v, POLY16, 16), 16);
      XorSame(u, v, 16);
    }
    assert u == v;
  }

  /** The lowest bit tells whether the top bit was fed back. */
  lemma StepLow(x: nat, b: nat)
    requires x < 0x10000 && b <= 1
    ensures Step(x, b) % 2 == (b + x / 0x8000) % 2
  {
    hide XorBits, Step;
    var u := 2 * (x % 0x8000) + b;
    StepIs(x, b);
    XorHalf(u, POLY16, 16);
    Parity(b, 1, 0, u, POLY16);
  }

  lemma {:induction false} ShiftFits(crc: nat, d: nat, n: nat)
    requires crc < 0x10000
    ensures ShiftIn(crc, d, n) < 0x10000
    decreases n
  {
    hide Step;
    if n > 0 {
      ShiftOne(crc, d, n);
      StepFits(crc, (d / 0x80) % 2);
      ShiftFits(Step(crc, (d / 0x80) % 2), 2 * d, n - 1);
    }
  }

  lemma {:induction false} SameShiftBack(x: nat, y: nat, d: nat, n: nat)
    requires x < 0x10000 && y < 0x10000 && ShiftIn(x, d, n) == ShiftIn(y, d, n)
    ensures x == y
    decreases n
  {
    hide Step;
    if n > 0 {
      var b := (d / 0x80) % 2;
      ShiftOne(x, d, n);
      ShiftOne(y, d, n);
      StepFits(x, b);
      StepFits(y, b);
      SameShiftBack(Step(x, b), Step(y, b), 2 * d, n - 1);
      StepBack(x, y, b);
    }
  }

  lemma {:induction false} RunFits(crc: nat, data: seq<byte>)
    requires crc < 0x10000
    ensures Run(crc, data) < 0x10000
    decreases data
  {
    hide ShiftIn;
    if data != [] {
      ShiftFits(crc, data[0], 8);
      RunFits(ShiftIn(crc, data[0], 8), data[1..]);
    }
  }

  /** A difference in the register never goes away while the data agree. */
  lemma {:induction false} RunBack(x: nat, y: nat, data: seq<byte>)
    requires x < 0x10000 && y < 0x10000 && Run(x, data) == Run(y, data)
    ensures x == y
    decreases data
  {
    hide ShiftIn;
    if data != [] {
      ShiftFits(x, data[0], 8);
      ShiftFits(y, data[0], 8);
      RunBack(ShiftIn(x, data[0], 8), ShiftIn(y, data[0], 8), data[1..]);
      SameShiftBack(x, y, data[0], 8);
    }
  }

  lemma {:induction false} RunSplit(crc: nat, a: seq<byte>, b: seq<byte>)
    ensures Run(crc, a + b) == Run(Run(crc, a), b)
    decreases a
  {
    hide ShiftIn;
    if a == [] {
      assert a + b == b;
    } else {
      assert (a + b)[1..] == a[1..] + b;
      RunSplit(ShiftIn(crc, a[0], 8), a[1..], b);
    }
  }

  /** A byte that differs shows in the low half of the register. */
  lemma {:induction false} ShiftDiff(x: nat, y: nat, d: nat, e: nat, m: nat, n: nat)
    requires x < 0x10000 && y < 0x10000 && m + n <= 16 && XorBits(x, y, 16) < Pow2(m)
    ensures XorBits(ShiftIn(x, d, n), ShiftIn(y, e, n), 16) < Pow2(m + n)
    decreases n
  {
    hide XorBits, Step;
    if n > 0 {
      var b, c := (d / 0x80) % 2, (e / 0x80) % 2;
      StepFits(x, b);
      StepFits(y, c);
      PowersOfTwo();
      PowersGrow(m, 15);
      StepDiff(x, y, b, c);
      ShiftOne(x, d, n);
      ShiftOne(y, e, n);
      ShiftDiff(Step(x, b), Step(y, c), 2 * d, 2 * e, m + 1, n - 1);
    }
  }

  /** Two neighbouring bytes in, and the register comes out the same: they were the same. */
  lemma TwoBytes(crc: nat, a: byte, b: byte, c: byte, d: byte)
    requires crc < 0x10000 && ShiftIn(ShiftIn(crc, a, 8), b, 8) == ShiftIn(ShiftIn(crc, c, 8), d, 8)
    ensures a == c && b == d
  {
    hide ShiftIn, XorBits, BitsAgree;
    PowersOfTwo();
    XorSame(crc, crc, 16);
    assert Pow2(0) == 1;
    ShiftDiff(crc, crc, a, c, 0, 8);
    ShiftFits(crc, a, 8);
    ShiftFits(crc, c, 8);
    ShiftBack(ShiftIn(crc, a, 8), ShiftIn(crc, c, 8), b, d, 8);
    ByteBits(b, d);
    ShiftBack(crc, crc, a, c, 8);
    ByteBits(a, c);
  }

  /** Whatever happens to two neighbouring bytes, the checksum tells. */
  lemma CrcDetects(front: seq<byte>, a: byte, b: byte, c: byte, d: byte, rest: seq<byte>)
    requires Crc16(front + [a, b] + rest) == Crc16(front + [c, d] + rest)
    ensures a == c && b == d
  {
    hide ShiftIn, Run;
    var tail := rest + [0, 0];
    var x, y := Run(0xffff, front + [a, b] + rest + [0, 0]), Run(0xffff, front + [c, d] + rest + [0, 0]);
    RunFits(0xffff, front + [a, b] + rest + [0, 0]);
    RunFits(0xffff, front + [c, d] + rest + [0, 0]);
    assert x == y;
    assert front + [a, b] + rest + [0, 0] == front + ([a, b] + tail);
    assert front + [c, d] + rest + [0, 0] == front + ([c, d] + tail);
    var crc := Run(0xffff, front);
    RunFits(0xffff, front);
    RunSplit(0xffff, front, [a, b] + tail);
    RunSplit(0xffff, front, [c, d] + tail);
    RunSplit(crc, [a, b], tail);
    RunSplit(crc, [c, d], tail);
    RunFits(crc, [a, b]);
    RunFits(crc, [c, d]);
    RunBack(Run(crc, [a, b]), Run(crc, [c, d]), tail);
    RunPair(crc, a, b);
    RunPair(crc, c, d);
    TwoBytes(crc, a, b, c, d);
  }

  lemma RunPair(crc: nat, a: byte, b: byte)
    ensures Run(crc, [a, b]) == ShiftIn(ShiftIn(crc, a, 8), b, 8)
  {
    assert [a, b] == [a] + [b] && [b] == [b] + [];
    RunCons(crc, a, [b]);
    RunCons(ShiftIn(crc, a, 8), b, []);
  }

  lemma RunCons(crc: nat, d: byte, rest: seq<byte>)
    ensures Run(crc, [d] + rest) == Run(ShiftIn(crc, d, 8), rest)
  {
    hide ShiftIn;
    assert ([d] + rest)[1..] == rest;
  }

  // ----- Which checksum it is -----

  /** Against zeros in its place, a byte shows as itself in the low half of the register. */
  lemma {:induction false} ShiftShows(x: nat, y: nat, d: nat, m: nat, n: nat)
    requires x < 0x10000 && y < 0x10000 && m + n <= 16 && XorBits(x, y, 16) < Pow2(m)
    ensures XorBits(ShiftIn(x, d, n), ShiftIn(y, 0, n), 16) == Pow2(n) * XorBits(x, y, 16) + TopBits(d, n)
    decreases n
  {
    hide XorBits, Step, TopBits, ShiftIn, Pow2;
    if n > 0 {
      var b := (d / 0x80) % 2;
      PowTwice(m);
      PowTwice(n - 1);
      StepFits(x, b);
      StepFits(y, 0);
      PowersOfTwo();
      PowersGrow(m, 15);
      StepDiff(x, y, b, 0);
      ShiftOne(x, d, n);
      ShiftOne(y, 0, n);
      ShiftShows(Step(x, b), Step(y, 0), 2 * d, m + 1, n - 1);
      TopOne(d, n);
      Combined(Pow2(n - 1), XorBits(x, y, 16), b);
    } else {
      ShowsNone(x, y, d);
    }
  }

  /** Data with their own checksum behind them, high byte first, leave nothing in the register. */
  lemma Residue(data: seq<byte>)
    ensures Run(0xffff, data + [Crc16(data)[1], Crc16(data)[0]]) == 0
  {
    hide ShiftIn, XorBits, TopBits, Run;
    PowersOfTwo();
    var crc, r := Run(0xffff, data), Run(0xffff, data + [0, 0]);
    RunFits(0xffff, data);
    RunFits(0xffff, data + [0, 0]);
    var lo, hi := Crc16(data)[0], Crc16(data)[1];
    WordOf(r, lo, hi);
    RunSplit(0xffff, data, [0, 0]);
    RunSplit(0xffff, data, [hi, lo]);
    RunPair(crc, 0, 0);
    RunPair(crc, hi, lo);
    XorSame(crc, crc, 16);
    ShiftFits(crc, hi, 8);
    ShiftFits(crc, 0, 8);
    assert Pow2(0) == 1;
    ShiftShows(crc, crc, hi, 0, 8);
    TopBitsAll(hi);
    ShiftShows(ShiftIn(crc, hi, 8), ShiftIn(crc, 0, 8), lo, 8, 8);
    TopBitsAll(lo);
    var out := ShiftIn(ShiftIn(crc, hi, 8), lo, 8);
    ShiftFits(ShiftIn(crc, hi, 8), lo, 8);
    XorZero(r, 16);
    XorCancel(out, 0, r, 16);
    XorSame(r, r, 16);
    XorSame(out, 0, 16);
  }

  lemma {:induction false} XorZero(a: nat, n: nat)
    requires a < Pow2(n)
    ensures XorBits(a, 0, n) == a && XorBits(0, a, n) == a
    decreases n
  {
    if n > 0 {
      XorZero(a / 2, n - 1);
    }
  }

  lemma Combined(p: nat, x: nat, b: nat)
    ensures p * (2 * x + b) == 2 * p * x + b * p
  {
  }

  lemma ShowsNone(x: nat, y: nat, d: nat)
    ensures XorBits(ShiftIn(x, d, 0), ShiftIn(y, 0, 0), 16) == Pow2(0) * XorBits(x, y, 16) + TopBits(d, 0)
  {
    hide XorBits;
    assert Pow2(0) == 1;
  }

  lemma WordOf(r: nat, lo: nat, hi: nat)
    requires r < 0x10000 && lo == r % 0x100 && hi == r / 0x100 % 0x100
    ensures r == 0x100 * hi + lo
  {
  }

  /** The register moves up one bit, the next bit of the data comes in below, and the top bit is fed
      back at 0, 5 and 12: the polynomial is x^16 + x^12 + x^5 + 1. */
  lemma StepBits(crc: nat, bit: nat, k: nat)
    requires crc < 0x10000 && bit <= 1 && k < 16
    ensures Bit(Step(crc, bit), k)
         == ((if k == 0 then bit else Bit(crc, k - 1)) + if k in {0, 5, 12} then crc / 0x8000 else 0) % 2
  {
    hide XorBits, Pow2, Bit, Step;
    PowersOfTwo();
    var u := 2 * (crc % 0x8000) + bit;
    StepIs(crc, bit);
    XorBitsAt(u, POLY16, 16, k);
    PolyBits(k);
    if k == 0 {
      BitZero(u);
    } else {
      HalfPow2(u, k);
      LowBit(crc, 15, k - 1);
    }
  }

  lemma BitZero(a: nat)
    ensures Bit(a, 0) == a % 2
  {
    assert Pow2(0) == 1;
  }

  lemma PolyBits(k: nat)
    requires k < 16
    ensures Bit(POLY16, k) == if k in {0, 5, 12} then 1 else 0
  {
    assert Pow2(0) == 1 && Pow2(1) == 2 && Pow2(2) == 4 && Pow2(3) == 8 && Pow2(4) == 16 && Pow2(5) == 32;
    assert Pow2(6) == 64 && Pow2(7) == 128 && Pow2(8) == 256 && Pow2(9) == 512 && Pow2(10) == 1024;
    assert Pow2(11) == 2048 && Pow2(12) == 4096 && Pow2(13) == 8192 && Pow2(14) == 16384 && Pow2(15) == 32768;
  }

  lemma {:induction false} LowBit(a: nat, n: nat, k: nat)
    requires k < n
    ensures Bit(a % Pow2(n), k) == Bit(a, k)
  {
    hide Bit, Pow2;
    var p := Pow2(n - 1);
    PowTwice(n - 1);
    HalfMod(a, p);
    if k == 0 {
      BitZero(a);
      BitZero(a % Pow2(n));
    } else {
      HalfPow2(a, k);
      HalfPow2(a % Pow2(n), k);
      LowBit(a / 2, n - 1, k - 1);
    }
  }
}
