/** That `Quotient` and `Remainder` are C's / and %. */
module Division {
  import opened Integers

  /** r is what C's % gives: nearer to zero than b, of the sign of a, and a multiple of b away from a. */
  predicate IsRemainder(r: int, a: int, b: int)
    requires b != 0
  {
    Abs(r) < Abs(b) && (r == 0 || (r < 0 <==> a < 0)) && (a - r) % b == 0
  }

  /** The quotient and the remainder are C's, and C has no other. */
  lemma DivisionIs(a: int, b: int)
    requires b != 0
    ensures a == b * Quotient(a, b) + Remainder(a, b) && IsRemainder(Remainder(a, b), a, b)
    ensures forall r | IsRemainder(r, a, b) :: r == Remainder(a, b)
  {
    hide Quotient, Remainder;
    var q, r := Quotient(a, b), Remainder(a, b);
    TowardsZero(a, b);
    Multiple(a - r, b, q);
    forall s | IsRemainder(s, a, b) ensures s == r {
      OneRemainder(a, b, r, s);
    }
  }

  lemma TowardsZero(a: int, b: int)
    requires b != 0
    ensures var r := Remainder(a, b);
            a - r == b * Quotient(a, b) && Abs(r) < Abs(b) && (r == 0 || (r < 0 <==> a < 0))
  {
    var m: int, n: int := Abs(a), Abs(b);
    var k: int := m / n;
    assert m == n * k + m % n;
    Signs(b, k);
    assert b * Quotient(a, b) == if a >= 0 then n * k else -(n * k);
  }

  lemma Signs(b: int, k: int)
    ensures b * k == if b >= 0 then Abs(b) * k else -(Abs(b) * k)
    ensures b * -k == -(b * k)
  {
  }

  lemma Multiple(x: int, b: int, q: int)
    requires b != 0 && x == b * q
    ensures x % b == 0
  {
    var d := x / b - q;
    assert x == b * (x / b) + x % b;
    assert b * d == -(x % b);
    if d != 0 {
      Large(b, d);
    }
  }

  lemma Large(b: int, d: int)
    requires b != 0 && d != 0
    ensures Abs(b * d) >= Abs(b)
  {
    var p, e := Abs(b), Abs(d);
    Signs(b, d);
    Signs(p, d);
    Grows(p, e);
  }

  lemma Grows(p: nat, e: nat)
    requires e >= 1
    ensures p * e >= p
  {
  }

  lemma OneRemainder(a: int, b: int, r: int, s: int)
    requires b != 0 && IsRemainder(r, a, b) && IsRemainder(s, a, b)
    ensures s == r
  {
    Exact(a - r, b);
    Exact(a - s, b);
    var x, y := (a - r) / b, (a - s) / b;
    Apart(b, x, y);
    Near(a, b, r, s);
    hide IsRemainder;
    if x != y {
      Large(b, x - y);
    }
  }

  lemma Exact(x: int, b: int)
    requires b != 0 && x % b == 0
    ensures x == b * (x / b)
  {
  }

  lemma Apart(b: int, x: int, y: int)
    ensures b * x - b * y == b * (x - y)
  {
  }

  lemma Near(a: int, b: int, r: int, s: int)
    requires b != 0 && IsRemainder(r, a, b) && IsRemainder(s, a, b)
    ensures Abs(s - r) < Abs(b)
  {
  }
}
