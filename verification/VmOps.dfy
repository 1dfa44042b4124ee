/** vm_core.c, opcode by opcode: what each instruction does, from the code bytes alone.  The operands
    are the bytes behind the opcode; an address in the code is two of them, the low byte first. */
module VmOps {
  import opened Bytes
  import opened Integers
  import opened Division
  import opened VmCore

  /** d' is d with v in cell `at`. */
  ghost predicate Stored(d: Data, d': Data, at: int, v: int) {
    forall a :: d'(a) == if a == at then v else d(a)
  }

  /** v is x as a 32-bit cell keeps it: the one number of that range with the same low 32 bits. */
  ghost predicate Kept(v: int, x: int) {
    -0x8000_0000 <= v < 0x8000_0000 && (v - x) % 0x1_0000_0000 == 0
  }

  lemma WrapKeeps(x: int)
    ensures Kept(Wrap32(x), x)
    ensures -0x8000_0000 <= x < 0x8000_0000 ==> Wrap32(x) == x
  {
  }

  // ----- Moving and logic -----

  /** mov, clr and not. */
  lemma Moves(code: Code, effects: Effects, pc: nat, d: Data, cycles: nat)
    ensures var s, a, b := Step(code, effects, pc, d, cycles), code(pc + 1), code(pc + 2);
            && (code(pc) == 0 ==> s.Go? && s.pc == pc + 3 && Stored(d, s.data, a, d(b)))
            && (code(pc) == 1 ==> s.Go? && s.pc == pc + 2 && Stored(d, s.data, a, 0))
            && (code(pc) == 56 ==> s.Go? && s.pc == pc + 3 && Stored(d, s.data, a, if d(b) == 0 then 1 else 0))
  {
    hide Wrap32;
    WrapKeeps(d(code(pc + 2)));
    WrapKeeps(0);
    WrapKeeps(1);
  }

  /** The six comparisons, and, or. */
  lemma Compares(code: Code, effects: Effects, pc: nat, d: Data, cycles: nat)
    requires 2 <= code(pc) <= 9
    ensures var s, op, x, y := Step(code, effects, pc, d, cycles), code(pc), d(code(pc + 2)), d(code(pc + 3));
            var holds := (op == 2 && x == y) || (op == 3 && x != y) || (op == 4 && x > y) || (op == 5 && x >= y)
                         || (op == 6 && x < y) || (op == 7 && x <= y) || (op == 8 && x != 0 && y != 0)
                         || (op == 9 && (x != 0 || y != 0));
            s.Go? && s.pc == pc + 4 && Stored(d, s.data, code(pc + 1), if holds then 1 else 0)
  {
    hide Wrap32;
    WrapKeeps(0);
    WrapKeeps(1);
  }

  /** add, sub and mul, with what a 32-bit cell keeps of the result. */
  lemma Arithmetic(code: Code, effects: Effects, pc: nat, d: Data, cycles: nat)
    requires 10 <= code(pc) <= 12
    ensures var s, op, x, y := Step(code, effects, pc, d, cycles), code(pc), d(code(pc + 2)), d(code(pc + 3));
            && s.Go? && s.pc == pc + 4 && Stored(d, s.data, code(pc + 1), s.data(code(pc + 1)))
            && Kept(s.data(code(pc + 1)), if op == 10 then x + y else if op == 11 then x - y else x * y)
  {
    hide Wrap32, Kept;
    var op: int, x: int, y: int := code(pc), d(code(pc + 2)), d(code(pc + 3));
    WrapKeeps(if op == 10 then x + y else if op == 11 then x - y else x * y);
  }

  /** div and mod: zero by zero, and otherwise what is left is what C's % leaves. */
  lemma Divides(code: Code, effects: Effects, pc: nat, d: Data, cycles: nat)
    requires 13 <= code(pc) <= 14
    ensures var s, op, x, y := Step(code, effects, pc, d, cycles), code(pc), d(code(pc + 2)), d(code(pc + 3));
            var v := s.data(code(pc + 1));
            && s.Go? && s.pc == pc + 4 && Stored(d, s.data, code(pc + 1), v)
            && (y == 0 ==> v == 0)
            && (y != 0 && op == 13 ==> exists q :: Kept(v, q) && IsRemainder(x - y * q, x, y))
            && (y != 0 && op == 14 ==> IsRemainder(v, x, y))
  {
    hide Wrap32, Quotient, Remainder, IsRemainder, Kept;
    var x, y := d(code(pc + 2)), d(code(pc + 3));
    if y == 0 {
      NoDivision(x);
    } else {
      Divided(x, y);
    }
  }

  /** What the cell holds after a division. */
  lemma Divided(x: i32, y: i32)
    requires y != 0
    ensures exists q :: Kept(Wrap32(Quotient(x, y)), q) && IsRemainder(x - y * q, x, y)
    ensures IsRemainder(Wrap32(Remainder(x, y)), x, y)
  {
    hide Wrap32, Quotient, Remainder, Kept, IsRemainder;
    var q: int, r: int := Quotient(x, y), Remainder(x, y);
    DivisionIs(x, y);
    assert x - y * q == r;
    RemainderFits(r, x, y);
    WrapKeeps(q);
    WrapKeeps(r);
  }

  lemma RemainderFits(r: int, x: int, y: i32)
    requires y != 0 && IsRemainder(r, x, y)
    ensures -0x8000_0000 < r < 0x8000_0000
  {
  }

  lemma NoDivision(x: i32)
    ensures Wrap32(Quotient(x, 0)) == 0 && Wrap32(Remainder(x, 0)) == 0
  {
  }

  // ----- Going elsewhere -----

  /** The address in two code bytes. */
  function Target(code: Code, at: nat): nat { code(at) + 0x100 * code(at + 1) }

  /** jmp, and the jumps on one cell: if zero, if not zero, and if zero else count down. */
  lemma Jumps(code: Code, effects: Effects, pc: nat, d: Data, cycles: nat)
    requires 15 <= code(pc) <= 18
    ensures var s, op, a := Step(code, effects, pc, d, cycles), code(pc), code(pc + 1);
            && s.Go?
            && (op == 15 ==> s.pc == Target(code, pc + 1) && s.data == d)
            && (op == 16 ==> s.pc == (if d(a) == 0 then Target(code, pc + 2) else pc + 4) && s.data == d)
            && (op == 17 ==> s.pc == (if d(a) != 0 then Target(code, pc + 2) else pc + 4) && s.data == d)
            && (op == 18 && d(a) == 0 ==> s.pc == Target(code, pc + 2) && s.data == d)
            && (op == 18 && d(a) != 0 ==>
                  s.pc == pc + 4 && Kept(s.data(a), d(a) - 1) && Stored(d, s.data, a, s.data(a)))
  {
    WrapKeeps(d(code(pc + 1)) - 1);
  }

  /** The jumps on two cells: if not less, and count up and jump if less. */
  lemma JumpsOnTwo(code: Code, effects: Effects, pc: nat, d: Data, cycles: nat)
    requires 19 <= code(pc) <= 20
    ensures var s, op, a, b := Step(code, effects, pc, d, cycles), code(pc), code(pc + 1), code(pc + 2);
            && s.Go?
            && (op == 19 ==> s.pc == (if d(a) >= d(b) then Target(code, pc + 3) else pc + 5) && s.data == d)
            && (op == 20 ==>
                  && Kept(s.data(a), d(a) + 1) && Stored(d, s.data, a, s.data(a))
                  && s.pc == if s.data(a) < s.data(b) then Target(code, pc + 3) else pc + 5)
  {
    WrapKeeps(d(code(pc + 1)) + 1);
  }

  /** ret, call, assert and halt. */
  lemma Leaves(code: Code, effects: Effects, pc: nat, d: Data, cycles: nat)
    ensures var s, a := Step(code, effects, pc, d, cycles), code(pc + 1);
            && (code(pc) == 22 ==> s.Stop? && s.end == Ended(0) && Stored(d, s.data, 0, d(a)))
            && (code(pc) == 23 ==> s == Call(Target(code, pc + 1), pc + 3))
            && (code(pc) == 41 ==> s == if d(a) == 0 then Stop(Ended(-99), d) else Go(pc + 2, d))
            && (code(pc) == 42 ==> s == Stop(Ended(1), d))
  {
    hide Wrap32;
    Same(d(code(pc + 1)));
  }

  /** What a call comes to: a callee that halts or returns goes back behind the call, and one that fails
      or never ends takes its caller along. */
  lemma Calls(code: Code, effects: Effects, pc: nat, d: Data, cycles: nat)
    requires code(pc) == 23 && cycles < 32768
    ensures var r, callee := Run(code, effects, pc, d, cycles), Run(code, effects, Target(code, pc + 1), d, cycles + 1);
            && (callee.end.Hung? || callee.end.status < 0 ==> r == callee)
            && (callee.end.Ended? && callee.end.status >= 0 ==>
                  callee.cycles <= 32768 && r == Run(code, effects, pc + 3, callee.data, callee.cycles))
  {
    hide Step;
    Leaves(code, effects, pc, d, cycles);
    RunIs(code, effects, pc, d, cycles);
  }

  // ----- Arrays -----

  /** Storing to and loading from an array: the index is reduced as C's % does it. */
  lemma Indexes(code: Code, effects: Effects, pc: nat, d: Data, cycles: nat, i: int)
    requires 24 <= code(pc) <= 25 && d(code(pc + 4)) != 0 && IsRemainder(i, d(code(pc + 3)), d(code(pc + 4)))
    ensures var s, op, a, b := Step(code, effects, pc, d, cycles), code(pc), code(pc + 1), code(pc + 2);
            && s.Go? && s.pc == pc + 5
            && (op == 24 ==> Stored(d, s.data, a + i, d(b)))
            && (op == 25 ==> Stored(d, s.data, a, d(b + i)))
  {
    hide Wrap32, Quotient, Remainder, IsRemainder;
    DivisionIs(d(code(pc + 3)), d(code(pc + 4)));
    Same(d(code(pc + 2) + i));
    Same(d(code(pc + 2)));
  }

  /** The same in two dimensions, rows of the first size one after the other. */
  lemma IndexesTwo(code: Code, effects: Effects, pc: nat, d: Data, cycles: nat, i: int, j: int)
    requires 26 <= code(pc) <= 27 && d(code(pc + 5)) != 0 && d(code(pc + 6)) != 0
    requires IsRemainder(i, d(code(pc + 3)), d(code(pc + 5))) && IsRemainder(j, d(code(pc + 4)), d(code(pc + 6)))
    ensures var s, op, a, b := Step(code, effects, pc, d, cycles), code(pc), code(pc + 1), code(pc + 2);
            var at := i + j * d(code(pc + 5));
            && s.Go? && s.pc == pc + 7
            && (op == 26 ==> Stored(d, s.data, a, d(b + at)))
            && (op == 27 ==> Stored(d, s.data, a + at, d(b)))
  {
    hide Wrap32, Quotient, Remainder, IsRemainder;
    DivisionIs(d(code(pc + 3)), d(code(pc + 5)));
    DivisionIs(d(code(pc + 4)), d(code(pc + 6)));
    var at := i + j * d(code(pc + 5));
    Same(d(code(pc + 2) + at));
    Same(d(code(pc + 2)));
  }

  /** The array instructions on an array in the data: each of `size` cells is changed by y, once, and
      nothing else. */
  lemma MapsArray(code: Code, effects: Effects, pc: nat, d: Data, cycles: nat, at: int)
    requires 34 <= code(pc) <= 39 && code(pc + 1) == 0 && d(code(pc + 5)) <= 0xffff
    ensures var s, op, a, y := Step(code, effects, pc, d, cycles), code(pc), code(pc + 2), d(code(pc + 4));
            && s.Go? && s.pc == pc + 6
            && (!(a <= at < a + d(code(pc + 5))) ==> s.data(at) == d(at))
            && (a <= at < a + d(code(pc + 5)) ==>
                  && (op == 34 ==> Kept(s.data(at), d(at) + y))
                  && (op == 35 ==> Kept(s.data(at), d(at) - y))
                  && (op == 36 ==> Kept(s.data(at), d(at) * y))
                  && (op == 37 && y != 0 ==> exists q :: Kept(s.data(at), q) && IsRemainder(d(at) - y * q, d(at), y))
                  && (op == 38 && y != 0 ==> IsRemainder(s.data(at), d(at), y))
                  && (op == 39 ==> s.data(at) == y))
  {
    hide Looped, Wrap32, Quotient, Remainder, IsRemainder, Kept;
    var x: int, y: int := d(at), d(code(pc + 4));
    LoopedIff(ArrayAt(code, pc, d), d);
    WrapKeeps(x + y);
    WrapKeeps(x - y);
    WrapKeeps(x * y);
    Same(y);
    if y != 0 {
      Divided(x, y);
    }
  }

  lemma Same(y: i32)
    ensures Wrap32(y) == y
  {
  }

  // ----- The others -----

  /** Setting pixels or the database, and printing: on behind the operands, and no cell changes. */
  lemma Sets(code: Code, effects: Effects, pc: nat, d: Data, cycles: nat)
    ensures var s, op := Step(code, effects, pc, d, cycles), code(pc);
            && (op == 21 ==> s == Go(pc + 2, d))
            && (op in {28, 29, 30, 51, 52, 55} ==> s == Go(pc + 5, d))
            && (op == 58 ==> s == Go(pc + 6, d))
            && (34 <= op <= 39 && code(pc + 1) != 0 ==> s == Go(pc + 6, d))
  {
  }

  /** Asking for pixels, random numbers, attributes, the database or a library function: one cell gets
      the answer, and no other changes. */
  lemma Asks(code: Code, effects: Effects, pc: nat, d: Data, cycles: nat)
    requires code(pc) in {31, 32, 33, 40, 43, 44, 49, 50, 54, 57}
    ensures var s, op := Step(code, effects, pc, d, cycles), code(pc);
            var a := if op == 54 then code(pc + 4) else if op in {44, 57} then code(pc + 5) else code(pc + 1);
            && s.Go? && Stored(d, s.data, a, s.data(a))
            && s.pc == pc + if op == 40 then 4 else if op == 57 then 6 else if op == 44 then 7 + code(pc + 6) else 5
  {
    hide Wrap32;
  }

  /** Any opcode that is not one of the machine's ends in a trap. */
  lemma Traps(code: Code, effects: Effects, pc: nat, d: Data, cycles: nat)
    requires code(pc) in {45, 46, 47, 48, 53} || code(pc) >= 59
    ensures Step(code, effects, pc, d, cycles) == Stop(Ended(-100), d)
  {
  }

  // ----- A program with two arms -----

  /** If cell 5 is zero, go to 6 and return cell 2; else return cell 1. */
  function TwoArmed(): Code {
    at => if 0 <= at < 8 then [16, 5, 6, 0, 22, 1, 22, 2][at] else 0
  }

  method EvalTwoArmed(vm: Vm, effects: Effects) returns (end: End, result: i32)
    requires vm.code == TwoArmed()
    modifies vm`data, vm`cycles
    ensures end == Ended(0) && result == if old(vm.data(5)) == 0 then old(vm.data(2)) else old(vm.data(1))
    ensures vm.cycles == 2
  {
    TwoArms(effects, vm.data);
    hide Run;
    end, result := vm.Eval(effects);
  }

  lemma TwoArms(effects: Effects, d: Data)
    ensures var r := Run(TwoArmed(), effects, 0, d, 0);
            r.end == Ended(0) && r.cycles == 2 && r.data(0) == if d(5) == 0 then d(2) else d(1)
  {
    hide Step, Run;
    var next := if d(5) == 0 then 6 else 4;
    Jumps(TwoArmed(), effects, 0, d, 0);
    Leaves(TwoArmed(), effects, next, d, 1);
    RunIs(TwoArmed(), effects, 0, d, 0);
    RunIs(TwoArmed(), effects, next, d, 1);
  }
}
