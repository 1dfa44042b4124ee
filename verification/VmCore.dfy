/** vm_core.c: the bytecode interpreter.  A call runs the interpreter recursively, and all depths
    count against one budget of instructions, so that any bytecode whatever comes to an end.
    Memory is total: no instruction checks its addresses. */
module VmCore {
  import opened Bytes
  import opened Integers

  const MAX_CYCLES := 32768
  const STATUS_OK := 0
  const STATUS_HALT := 1
  const ERR_MAX_CYCLES := -30
  const STATUS_ASSERT := -99
  const STATUS_TRAP := -100
  const RETURN_VAL_ADDR := 0
  const ARRAY_OBJ_TYPE := 0

  type Code = nat -> byte
  type Data = int -> i32

  /** What the instructions that ask for pixels, the database, random numbers or a library function
      get: any number at all, at each count of cycles another one, as the random seed, the pixels and
      the database may by then have changed. */
  type Effects = (nat, byte, seq<byte>, Data) -> i32

  /** How a run ends: with a status, or never, in an array instruction that no number of turns leads
      out of; the data are then those it began with. */
  datatype End = Ended(status: int) | Hung

  datatype Result = Result(end: End, data: Data, cycles: nat)

  // ----- Instructions -----

  /** What one instruction does. */
  datatype Action =
    | Go(pc: nat, data: Data)
    | Stop(end: End, data: Data)
    | Call(target: nat, back: nat)

  function Wrap32(x: int): (r: i32)
  {
    (x + 0x8000_0000) % 0x1_0000_0000 - 0x8000_0000
  }

  function Set(data: Data, addr: int, value: int): Data {
    a => if a == addr then Wrap32(value) else data(a)
  }

  function Bit(b: bool): int { if b then 1 else 0 }

  /** The operand bytes behind an opcode. */
  function Operands(code: Code, pc: nat, n: nat): (r: seq<byte>)
    ensures |r| == n
  {
    seq(n, i requires 0 <= i < n => code(pc + 1 + i))
  }

  function Address(lo: byte, hi: byte): nat { lo + 0x100 * hi }

  /** Comparisons, logic and arithmetic: opcodes 2 to 14. */
  function Binary(op: byte, x: i32, y: i32): int
    requires 2 <= op <= 14
  {
    if op == 2 then Bit(x == y)
    else if op == 3 then Bit(x != y)
    else if op == 4 then Bit(x > y)
    else if op == 5 then Bit(x >= y)
    else if op == 6 then Bit(x < y)
    else if op == 7 then Bit(x <= y)
    else if op == 8 then Bit(x != 0 && y != 0)
    else if op == 9 then Bit(x != 0 || y != 0)
    else if op == 10 then x + y
    else if op == 11 then x - y
    else if op == 12 then x * y
    else if op == 13 then Quotient(x, y)
    else Remainder(x, y)
  }

  /** The array instructions, opcodes 34 to 39, on one element. */
  function Element(op: byte, x: i32, y: i32): int
    requires 34 <= op <= 39
  {
    if op == 34 then x + y
    else if op == 35 then x - y
    else if op == 36 then x * y
    else if op == 37 then Quotient(x, y)
    else if op == 38 then Remainder(x, y)
    else y
  }

  /** The branches: opcodes 15 to 20. */
  function Branch(code: Code, pc: nat, data: Data): Action
    requires 15 <= code(pc) <= 20
  {
    var op := code(pc);
    var b := Operands(code, pc, 4);
    if op == 15 then Go(Address(b[0], b[1]), data)
    else if op == 16 then Go(if data(b[0]) == 0 then Address(b[1], b[2]) else pc + 4, data)
    else if op == 17 then Go(if data(b[0]) != 0 then Address(b[1], b[2]) else pc + 4, data)
    else if op == 18 then
      if data(b[0]) == 0 then Go(Address(b[1], b[2]), data) else Go(pc + 4, Set(data, b[0], data(b[0]) - 1))
    else if op == 19 then Go(if data(b[0]) >= data(b[1]) then Address(b[2], b[3]) else pc + 5, data)
    else
      var d := Set(data, b[0], data(b[0]) + 1);
      Go(if d(b[0]) < d(b[1]) then Address(b[2], b[3]) else pc + 5, d)
  }

  /** Array accesses in one and two dimensions: opcodes 24 to 27. */
  function Access(code: Code, pc: nat, data: Data): Action
    requires 24 <= code(pc) <= 27
  {
    var op := code(pc);
    var b := Operands(code, pc, 6);
    var flat := Remainder(data(b[2]), data(b[3]));
    var at := Remainder(data(b[2]), data(b[4])) + Remainder(data(b[3]), data(b[5])) * data(b[4]);
    if op == 24 then Go(pc + 5, Set(data, b[0] + flat, data(b[1])))
    else if op == 25 then Go(pc + 5, Set(data, b[0], data(b[1] + flat)))
    else if op == 26 then Go(pc + 7, Set(data, b[0], data(b[1] + at)))
    else Go(pc + 7, Set(data, b[0] + at, data(b[1])))
  }

  /** Operand bytes of the instructions that act on the world outside; a library call says itself how
      many parameters follow.  Zero for any other opcode. */
  function OpenLength(code: Code, pc: nat): nat {
    var op := code(pc);
    if op == 21 then 1
    else if 28 <= op <= 33 || op == 43 || 49 <= op <= 52 || op == 54 || op == 55 then 4
    else if op == 40 then 3
    else if op == 57 || op == 58 then 5
    else if op == 44 then 6 + code(pc + 6)
    else 0
  }

  /** Which operand of such an instruction names the cell for what it gets, or -1: those that only set
      something outside change no cell. */
  function OpenResult(op: byte): (r: int)
    ensures -1 <= r <= 4
  {
    if 31 <= op <= 33 || op == 40 || op == 43 || op == 49 || op == 50 then 0
    else if op == 54 then 3
    else if op == 44 || op == 57 then 4
    else -1
  }

  /** One instruction without a loop of its own. */
  function Execute(code: Code, effects: Effects, pc: nat, data: Data, cycles: nat): Action
    requires !IsArray(code, pc)
  {
    var op := code(pc);
    var b := Operands(code, pc, 5);
    if op == 0 then Go(pc + 3, Set(data, b[0], data(b[1])))
    else if op == 1 then Go(pc + 2, Set(data, b[0], 0))
    else if 2 <= op <= 14 then Go(pc + 4, Set(data, b[0], Binary(op, data(b[1]), data(b[2]))))
    else if 15 <= op <= 20 then Branch(code, pc, data)
    else if op == 22 then Stop(Ended(STATUS_OK), Set(data, RETURN_VAL_ADDR, data(b[0])))
    else if op == 23 then Call(Address(b[0], b[1]), pc + 3)
    else if 24 <= op <= 27 then Access(code, pc, data)
    else if 34 <= op <= 39 then Go(pc + 6, data)
    else if op == 41 then if data(b[0]) == 0 then Stop(Ended(STATUS_ASSERT), data) else Go(pc + 2, data)
    else if op == 42 then Stop(Ended(STATUS_HALT), data)
    else if op == 56 then Go(pc + 3, Set(data, b[0], Bit(data(b[1]) == 0)))
    else if OpenLength(code, pc) > 0 then
      var n, k := OpenLength(code, pc), OpenResult(op);
      var operands := Operands(code, pc, n);
      Go(pc + 1 + n, if k < 0 then data else Set(data, operands[k], effects(cycles, op, operands, data)))
    else Stop(Ended(STATUS_TRAP), data)
  }

  // ----- Array instructions -----

  /** An array instruction, with its operands read. */
  datatype Array = Array(op: byte, dest: byte, y: i32, size: i32)

  /** Its loop: a 16-bit counter, and the data so far. */
  datatype Loop = Loop(i: u16, data: Data)

  predicate Left(a: Array, l: Loop) { l.i >= a.size }

  /** One turn, if the loop is not left: the next element, and the counter goes round. */
  function Turn(a: Array, l: Loop): Loop
    requires 34 <= a.op <= 39
  {
    if Left(a, l) then l
    else Loop((l.i + 1) % 0x10000, Set(l.data, a.dest + l.i, Element(a.op, l.data(a.dest + l.i), a.y)))
  }

  function Turns(a: Array, data: Data, n: nat): Loop
    requires 34 <= a.op <= 39
  {
    if n == 0 then Loop(0, data) else Turn(a, Turns(a, data, n - 1))
  }

  /** The data behind the loop, if any number of turns leads out of it. */
  ghost function Looped(a: Array, data: Data): Option<Data>
    requires 34 <= a.op <= 39
  {
    if exists n: nat :: Left(a, Turns(a, data, n)) then
      var n: nat :| Left(a, Turns(a, data, n));
      Some(Turns(a, data, n).data)
    else None
  }

  /** Up to its size the loop has done one element a turn. */
  lemma {:induction false} TurnsReach(a: Array, data: Data, n: nat)
    requires 34 <= a.op <= 39 && n <= 0xffff && (n == 0 || n <= a.size)
    ensures Turns(a, data, n).i == n
    ensures forall at :: Turns(a, data, n).data(at)
                         == if a.dest <= at < a.dest + n then Wrap32(Element(a.op, data(at), a.y)) else data(at)
  {
    hide Element;
    if n > 0 {
      TurnsReach(a, data, n - 1);
    }
  }

  /** A counter that cannot reach the size never gets out. */
  lemma {:induction false} TurnsOn(a: Array, data: Data, n: nat)
    requires 34 <= a.op <= 39 && a.size > 0xffff
    ensures !Left(a, Turns(a, data, n)) && Turns(a, data, n).i == n % 0x10000
  {
    hide Element, Set;
    if n > 0 {
      TurnsOn(a, data, n - 1);
    }
  }

  lemma {:induction false} TurnsStay(a: Array, data: Data, m: nat, n: nat)
    requires 34 <= a.op <= 39 && m <= n && Left(a, Turns(a, data, m))
    ensures Turns(a, data, n) == Turns(a, data, m)
  {
    hide Element, Set;
    if m < n {
      TurnsStay(a, data, m, n - 1);
    }
  }

  /** Any number of turns that leads out of the loop gives the same data. */
  lemma LoopedAfter(a: Array, data: Data, n: nat)
    requires 34 <= a.op <= 39 && Left(a, Turns(a, data, n))
    ensures Looped(a, data) == Some(Turns(a, data, n).data)
  {
    hide Turns, Left;
    var m: nat :| Left(a, Turns(a, data, m)) && Looped(a, data) == Some(Turns(a, data, m).data);
    if m <= n {
      TurnsStay(a, data, m, n);
    } else {
      TurnsStay(a, data, n, m);
    }
  }

  /** The loop ends exactly when the size fits the counter.  Then every element has been mapped, once,
      and nothing else has changed. */
  lemma LoopedIff(a: Array, data: Data)
    requires 34 <= a.op <= 39
    ensures Looped(a, data).None? <==> a.size > 0xffff
    ensures a.size <= 0xffff ==> forall at ::
              Looped(a, data).value(at)
              == if a.dest <= at < a.dest + a.size then Wrap32(Element(a.op, data(at), a.y)) else data(at)
  {
    hide Element;
    if a.size > 0xffff {
      forall n: nat ensures !Left(a, Turns(a, data, n)) {
        TurnsOn(a, data, n);
      }
    } else {
      var n := if a.size < 0 then 0 else a.size;
      TurnsReach(a, data, n);
      LoopedAfter(a, data, n);
    }
  }

  // ----- Running -----

  /** The instruction at `pc` works on an array in the data, element by element. */
  predicate IsArray(code: Code, pc: nat) {
    34 <= code(pc) <= 39 && code(pc + 1) == ARRAY_OBJ_TYPE
  }

  function ArrayAt(code: Code, pc: nat, data: Data): (a: Array)
    requires IsArray(code, pc)
    ensures 34 <= a.op <= 39
  {
    Array(code(pc), code(pc + 2), data(code(pc + 4)), data(code(pc + 5)))
  }

  /** One instruction, the loops of array instructions included. */
  ghost function Step(code: Code, effects: Effects, pc: nat, data: Data, cycles: nat): Action {
    if IsArray(code, pc) then
      match Looped(ArrayAt(code, pc, data), data)
      case Some(d) => Go(pc + 6, d)
      case None => Stop(Hung, data)
    else Execute(code, effects, pc, data, cycles)
  }

  /** Only a negative status, or no end at all, goes further than the run it came from. */
  predicate Failed(end: End) { end.Hung? || end.status < 0 }

  /** A run from `pc` to its end, calls and all.  Every dispatch counts, whatever the depth. */
  ghost function Run(code: Code, effects: Effects, pc: nat, data: Data, cycles: nat): (r: Result)
    requires cycles <= MAX_CYCLES
    ensures cycles < r.cycles <= MAX_CYCLES + 1
    ensures r.cycles == MAX_CYCLES + 1 <==> r.end == Ended(ERR_MAX_CYCLES)
    decreases MAX_CYCLES - cycles
  {
    if cycles == MAX_CYCLES then Result(Ended(ERR_MAX_CYCLES), data, cycles + 1)
    else
      match Step(code, effects, pc, data, cycles)
      case Go(next, d) => Run(code, effects, next, d, cycles + 1)
      case Stop(end, d) => Result(end, d, cycles + 1)
      case Call(target, back) =>
        var r := Run(code, effects, target, data, cycles + 1);
        if Failed(r.end) then r else Run(code, effects, back, r.data, r.cycles)
  }

  // ----- The same machine without recursion -----

  /** Calls kept on an explicit stack of program counters, the running one first. */
  datatype Machine = Running(stack: seq<nat>, data: Data, cycles: nat) | Over(result: Result)

  /** What becomes of the callers when a run has ended: a failure ends them all, and anything else,
      a halt included, goes back to the next one. */
  function Unwound(r: Result, callers: seq<nat>): Machine {
    if Failed(r.end) || callers == [] then Over(r) else Running(callers, r.data, r.cycles)
  }

  /** One dispatch. */
  ghost function Dispatch(code: Code, effects: Effects, m: Machine): Machine {
    if m.Over? || m.stack == [] then m
    else if m.cycles >= MAX_CYCLES then Over(Result(Ended(ERR_MAX_CYCLES), m.data, m.cycles + 1))
    else
      var callers := m.stack[1..];
      match Step(code, effects, m.stack[0], m.data, m.cycles)
      case Go(next, d) => Running([next] + callers, d, m.cycles + 1)
      case Stop(end, d) => Unwound(Result(end, d, m.cycles + 1), callers)
      case Call(target, back) => Running([target, back] + callers, m.data, m.cycles + 1)
  }

  ghost function Dispatches(code: Code, effects: Effects, m: Machine, k: nat): Machine
    decreases k
  {
    if k == 0 then m else Dispatches(code, effects, Dispatch(code, effects, m), k - 1)
  }

  lemma {:induction false} DispatchesSum(code: Code, effects: Effects, m: Machine, j: nat, k: nat)
    ensures Dispatches(code, effects, m, j + k) == Dispatches(code, effects, Dispatches(code, effects, m, j), k)
    decreases j
  {
    hide Dispatch;
    if j > 0 {
      DispatchesSum(code, effects, Dispatch(code, effects, m), j - 1, k);
    }
  }

  /** The recursive interpreter and the stack machine agree: the run of the topmost frame takes as
      many dispatches as it counts cycles, and leaves its callers as they were. */
  lemma {:induction false} RunIsDispatches(code: Code, effects: Effects, pc: nat, callers: seq<nat>, data: Data,
                                           cycles: nat)
    requires cycles <= MAX_CYCLES
    ensures var r := Run(code, effects, pc, data, cycles);
            Dispatches(code, effects, Running([pc] + callers, data, cycles), r.cycles - cycles) == Unwound(r, callers)
    decreases MAX_CYCLES - cycles
  {
    hide Step, Dispatch, Dispatches, Run, Unwound;
    var m := Running([pc] + callers, data, cycles);
    DispatchIs(code, effects, pc, callers, data, cycles);
    DispatchesOne(code, effects, m, Run(code, effects, pc, data, cycles).cycles - cycles);
    RunIs(code, effects, pc, data, cycles);
    if cycles == MAX_CYCLES {
      DispatchesNone(code, effects, Dispatch(code, effects, m));
    } else {
      match Step(code, effects, pc, data, cycles)
      case Go(next, d) =>
        RunIsDispatches(code, effects, next, callers, d, cycles + 1);
      case Stop(end, d) =>
        DispatchesNone(code, effects, Dispatch(code, effects, m));
      case Call(target, back) =>
        RunIsDispatches(code, effects, target, [back] + callers, data, cycles + 1);
        var r := Run(code, effects, target, data, cycles + 1);
        UnwoundIs(r, back, callers);
        if !Failed(r.end) {
          RunIsDispatches(code, effects, back, callers, r.data, r.cycles);
          DispatchesSum(code, effects, Dispatch(code, effects, m), r.cycles - cycles - 1,
                        Run(code, effects, back, r.data, r.cycles).cycles - r.cycles);
        }
    }
  }

  lemma RunIs(code: Code, effects: Effects, pc: nat, data: Data, cycles: nat)
    requires cycles <= MAX_CYCLES
    ensures Run(code, effects, pc, data, cycles)
            == if cycles == MAX_CYCLES then Result(Ended(ERR_MAX_CYCLES), data, cycles + 1)
               else
                 match Step(code, effects, pc, data, cycles)
                 case Go(next, d) => Run(code, effects, next, d, cycles + 1)
                 case Stop(end, d) => Result(end, d, cycles + 1)
                 case Call(target, back) =>
                   var r := Run(code, effects, target, data, cycles + 1);
                   if Failed(r.end) then r else Run(code, effects, back, r.data, r.cycles)
  {
    hide Step;
  }

  lemma DispatchesOne(code: Code, effects: Effects, m: Machine, k: nat)
    requires k > 0
    ensures Dispatches(code, effects, m, k) == Dispatches(code, effects, Dispatch(code, effects, m), k - 1)
  {
  }

  lemma DispatchesNone(code: Code, effects: Effects, m: Machine)
    ensures Dispatches(code, effects, m, 0) == m
  {
  }

  /** One dispatch of the topmost frame. */
  lemma DispatchIs(code: Code, effects: Effects, pc: nat, callers: seq<nat>, data: Data, cycles: nat)
    requires cycles <= MAX_CYCLES
    ensures Dispatch(code, effects, Running([pc] + callers, data, cycles))
            == if cycles == MAX_CYCLES then Unwound(Result(Ended(ERR_MAX_CYCLES), data, cycles + 1), callers)
               else
                 match Step(code, effects, pc, data, cycles)
                 case Go(next, d) => Running([next] + callers, d, cycles + 1)
                 case Stop(end, d) => Unwound(Result(end, d, cycles + 1), callers)
                 case Call(target, back) => Running([target] + ([back] + callers), data, cycles + 1)
  {
    hide Step;
    assert ([pc] + callers)[1..] == callers;
    assert forall target, back :: [target, back] + callers == [target] + ([back] + callers);
  }

  lemma UnwoundIs(r: Result, back: nat, callers: seq<nat>)
    ensures Failed(r.end) ==> Unwound(r, [back] + callers) == Unwound(r, callers) == Over(r)
    ensures !Failed(r.end) ==> Unwound(r, [back] + callers) == Running([back] + callers, r.data, r.cycles)
  {
  }

  lemma {:induction false} OverStays(code: Code, effects: Effects, r: Result, k: nat)
    ensures Dispatches(code, effects, Over(r), k) == Over(r)
    decreases k
  {
    if k > 0 {
      OverStays(code, effects, r, k - 1);
    }
  }

  /** An instruction that fails, at whatever depth of calls, decides how the outermost run ends. */
  lemma FailureIsFinal(code: Code, effects: Effects, pc: nat, data: Data, k: nat, end: End, d: Data)
    requires var m := Dispatches(code, effects, Running([pc], data, 0), k);
             && m.Running? && m.stack != [] && m.cycles < MAX_CYCLES
             && Step(code, effects, m.stack[0], m.data, m.cycles) == Stop(end, d) && Failed(end)
    ensures Run(code, effects, pc, data, 0).end == end && Run(code, effects, pc, data, 0).data == d
  {
    hide Step, Run, Dispatch, Dispatches, Failed;
    var r := Run(code, effects, pc, data, 0);
    var m0 := Running([pc], data, 0);
    var m := Dispatches(code, effects, m0, k);
    RunIsDispatches(code, effects, pc, [], data, 0);
    assert [pc] + [] == [pc];
    FailedDispatch(code, effects, m, end, d);
    if k >= r.cycles {
      DispatchesSum(code, effects, m0, r.cycles, k - r.cycles);
      OverStays(code, effects, r, k - r.cycles);
      assert false;
    }
    DispatchesSum(code, effects, m0, k, r.cycles - k);
    OverStays(code, effects, Result(end, d, m.cycles + 1), r.cycles - k - 1);
  }

  lemma FailedDispatch(code: Code, effects: Effects, m: Machine, end: End, d: Data)
    requires m.Running? && m.stack != [] && m.cycles < MAX_CYCLES
    requires Step(code, effects, m.stack[0], m.data, m.cycles) == Stop(end, d) && Failed(end)
    ensures Dispatch(code, effects, m) == Over(Result(end, d, m.cycles + 1))
    ensures forall k: nat | k > 0 ::
              Dispatches(code, effects, m, k) == Dispatches(code, effects, Over(Result(end, d, m.cycles + 1)), k - 1)
  {
    hide Step;
  }

  /** The next instruction is an array instruction on more elements than its 16-bit counter counts. */
  predicate AtEndlessArray(code: Code, m: Machine) {
    && m.Running? && m.stack != [] && m.cycles < MAX_CYCLES
    && IsArray(code, m.stack[0]) && ArrayAt(code, m.stack[0], m.data).size > 0xffff
  }

  lemma OnlyArrays(code: Code, effects: Effects, m: Machine)
    requires m.Running? && m.stack != [] && var e := Dispatch(code, effects, m); e.Over? && e.result.end == Hung
    ensures AtEndlessArray(code, m)
  {
    hide Looped;
    if IsArray(code, m.stack[0]) {
      LoopedIff(ArrayAt(code, m.stack[0], m.data), m.data);
    }
  }

  lemma {:induction false} HungAt(code: Code, effects: Effects, m: Machine, k: nat) returns (j: nat)
    requires m.Running? && m.stack != [] && var e := Dispatches(code, effects, m, k); e.Over? && e.result.end == Hung
    ensures AtEndlessArray(code, Dispatches(code, effects, m, j))
    decreases k
  {
    hide Looped, AtEndlessArray;
    var next := Dispatch(code, effects, m);
    if next.Over? {
      OverStays(code, effects, next.result, k - 1);
      j := 0;
      OnlyArrays(code, effects, m);
    } else {
      hide Step;
      var i := HungAt(code, effects, next, k - 1);
      j := i + 1;
    }
  }

  /** The interpreter fails to come back exactly when it gets to such an instruction. */
  lemma HangsIff(code: Code, effects: Effects, pc: nat, data: Data)
    ensures Run(code, effects, pc, data, 0).end == Hung
       <==> exists k: nat :: AtEndlessArray(code, Dispatches(code, effects, Running([pc], data, 0), k))
  {
    hide Run, Dispatches, Step, AtEndlessArray;
    var m0 := Running([pc], data, 0);
    RunIsDispatches(code, effects, pc, [], data, 0);
    assert [pc] + [] == [pc];
    if Run(code, effects, pc, data, 0).end == Hung {
      var j := HungAt(code, effects, m0, Run(code, effects, pc, data, 0).cycles);
    }
    if k: nat :| AtEndlessArray(code, Dispatches(code, effects, m0, k)) {
      Endless(code, effects, Dispatches(code, effects, m0, k));
      FailureIsFinal(code, effects, pc, data, k, Hung, Dispatches(code, effects, m0, k).data);
    }
  }

  lemma Endless(code: Code, effects: Effects, m: Machine)
    requires AtEndlessArray(code, m)
    ensures m.Running? && m.stack != [] && m.cycles < MAX_CYCLES
            && Step(code, effects, m.stack[0], m.data, m.cycles) == Stop(Hung, m.data)
  {
    hide Looped;
    LoopedIff(ArrayAt(code, m.stack[0], m.data), m.data);
  }

  /** Any bytecode is done after at most 32768 instructions in all, calls included, and within the
      16-bit counter, unless it gets to an array instruction that does not end. */
  lemma AlwaysEnds(code: Code, effects: Effects, pc: nat, data: Data)
    ensures var r := Run(code, effects, pc, data, 0);
            && r.cycles <= MAX_CYCLES + 1 < 0x10000
            && r.cycles <= 32769 && (r.end == Ended(-30) <==> r.cycles == 32769)
            && Dispatches(code, effects, Running([pc], data, 0), MAX_CYCLES + 1) == Over(r)
            && (r.end.Ended?
                <==> forall k: nat :: !AtEndlessArray(code, Dispatches(code, effects, Running([pc], data, 0), k)))
            && (r.end != Ended(ERR_MAX_CYCLES) ==>
                Dispatches(code, effects, Running([pc], data, 0), MAX_CYCLES) == Over(r))
  {
    hide Step, Run, Dispatch, AtEndlessArray;
    var r := Run(code, effects, pc, data, 0);
    HangsIff(code, effects, pc, data);
    RunIsDispatches(code, effects, pc, [], data, 0);
    assert [pc] + [] == [pc];
    OverStays(code, effects, r, MAX_CYCLES + 1 - r.cycles);
    DispatchesSum(code, effects, Running([pc], data, 0), r.cycles, MAX_CYCLES + 1 - r.cycles);
    if r.end != Ended(ERR_MAX_CYCLES) {
      OverStays(code, effects, r, MAX_CYCLES - r.cycles);
      DispatchesSum(code, effects, Running([pc], data, 0), r.cycles, MAX_CYCLES - r.cycles);
    }
  }

  /** Such a program: add a number to 65536 elements. */
  function EndlessCode(): Code {
    at => if at == 0 then 34 else if at == 5 then 7 else 0
  }

  /** It does not come back when cell 7 holds 65536, and goes on with the next instruction when it
      holds one less. */
  lemma Hangs(effects: Effects, data: Data)
    ensures data(7) == 0x1_0000 ==> Run(EndlessCode(), effects, 0, data, 0) == Result(Hung, data, 1)
    ensures data(7) == 0xffff ==>
              Step(EndlessCode(), effects, 0, data, 0).Go? && Step(EndlessCode(), effects, 0, data, 0).pc == 6
  {
    hide Looped;
    LoopedIff(ArrayAt(EndlessCode(), 0, data), data);
  }

  // ----- The interpreter -----

  class Vm {
    const code: Code
    var data: Data
    var cycles: u16
    var maxCycles: u16
    var frameNumber: u16

    constructor (code: Code, data: Data)
      ensures this.code == code && this.data == data && maxCycles == 0
    {
      this.code, this.data := code, data;
      cycles, maxCycles, frameNumber := 0, 0, 0;
    }

    method RunStream(effects: Effects, offset: nat) returns (end: End)
      requires cycles <= MAX_CYCLES
      modifies this`data, this`cycles
      ensures Result(end, data, cycles) == Run(code, effects, offset, old(data), old(cycles))
      decreases MAX_CYCLES - cycles
    {
      hide Execute, Looped, ArrayAt;
      var pc := offset;
      while true
        invariant old(cycles) <= cycles <= MAX_CYCLES
        invariant Run(code, effects, pc, data, cycles) == Run(code, effects, offset, old(data), old(cycles))
        decreases MAX_CYCLES - cycles
      {
        cycles := cycles + 1;
        if cycles > MAX_CYCLES {
          return Ended(ERR_MAX_CYCLES);
        }
        if IsArray(code, pc) {
          var back := RunArray(ArrayAt(code, pc, data));
          if !back {
            return Hung;
          }
          pc := pc + 6;
        } else {
          match Execute(code, effects, pc, data, cycles - 1)
          case Go(next, d) =>
            pc, data := next, d;
          case Stop(e, d) =>
            data := d;
            return e;
          case Call(target, back) =>
            end := RunStream(effects, target);
            if Failed(end) {
              return end;
            }
            pc := back;
        }
      }
    }

    /** The loop of an array instruction.  One that does not end is not begun, and `back` is false
        where the interpreter would never come back. */
    method RunArray(a: Array) returns (back: bool)
      requires 34 <= a.op <= 39
      modifies this`data
      ensures back <==> Looped(a, old(data)).Some?
      ensures data == if back then Looped(a, old(data)).value else old(data)
    {
      hide Looped, Element;
      LoopedIff(a, data);
      if a.size > 0xffff {
        return false;
      }
      var i: u16 := 0;
      while i < a.size
        invariant 0 <= i <= a.size || i == 0
        invariant Loop(i, data) == Turns(a, old(data), i)
        decreases a.size - i
      {
        data := Set(data, a.dest + i, Element(a.op, data(a.dest + i), a.y));
        i := (i + 1) % 0x10000;
      }
      LoopedAfter(a, old(data), i);
      back := true;
    }

    /** A frame of the program, and the record of the longest one. */
    method RunLoop(effects: Effects, loopStart: nat) returns (end: End)
      modifies this
      ensures Result(end, data, cycles) == Run(code, effects, loopStart, old(data), 0)
      ensures frameNumber == (old(frameNumber) + 1) % 0x10000
      ensures maxCycles == if cycles > old(maxCycles) then cycles else old(maxCycles)
    {
      hide Run, Execute;
      cycles := 0;
      frameNumber := (frameNumber + 1) % 0x10000;
      end := RunStream(effects, loopStart);
      if cycles > maxCycles {
        maxCycles := cycles;
      }
    }

    method RunInit(effects: Effects, initStart: nat) returns (end: End)
      modifies this
      ensures Result(end, data, cycles) == Run(code, effects, initStart, old(data), 0)
      ensures frameNumber == 0
      ensures maxCycles == if cycles > old(maxCycles) then cycles else old(maxCycles)
    {
      hide Run, Execute;
      cycles := 0;
      frameNumber := 0;
      end := RunStream(effects, initStart);
      if cycles > maxCycles {
        maxCycles := cycles;
      }
    }

    /** Runs a stream from its start and reads the return value. */
    method Eval(effects: Effects) returns (end: End, result: i32)
      modifies this`data, this`cycles
      ensures Result(end, data, cycles) == Run(code, effects, 0, old(data), 0) && result == data(RETURN_VAL_ADDR)
    {
      cycles := 0;
      end := RunStream(effects, 0);
      result := data(RETURN_VAL_ADDR);
    }
  }
}
