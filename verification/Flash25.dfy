/** The NOR flash chip behind flash25.c: a byte array in which an erase sets a 4 KB block to
    all ones and a program can only clear bits.  Addresses are relative to the start of the
    file system partition, so block b occupies [4096*b, 4096*(b+1)). */
module Flash25 {
  import opened Bytes

  const ERASE_BLOCK_SIZE := 4096

  // ----- Programming a NOR cell -----

  /** Bitwise AND of the low `n` bits. */
  function AndBits(a: nat, b: nat, n: nat): (r: nat)
    ensures r <= a && r <= b
    decreases n, a
  {
    if n == 0 then 0
    else (if a % 2 == 1 && b % 2 == 1 then 1 else 0) + 2 * AndBits(a / 2, b / 2, n - 1)
  }

  /** What a cell holds after `b` is programmed over `a`. */
  function And8(a: byte, b: byte): (r: byte)
    ensures r <= a && r <= b
  {
    AndBits(a, b, 8)
  }

  function Pow2(n: nat): (r: nat)
    ensures r > 0
  {
    if n == 0 then 1 else 2 * Pow2(n - 1)
  }

  /** Bit k of a number. */
  function Bit(a: nat, k: nat): (r: nat)
    ensures r <= 1
  {
    (a / Pow2(k)) % 2
  }

  lemma HalfPow2(a: nat, k: nat)
    requires k > 0
    ensures Bit(a, k) == Bit(a / 2, k - 1)
  {
    HalfMod(a, Pow2(k - 1));
  }

  lemma DivIs(a: nat, d: nat, q: nat, r: nat)
    requires d > 0 && r < d && a == d * q + r
    ensures a / d == q
  {
    var x := a / d - q;
    assert a == d * (a / d) + a % d;
    assert d * x == r - a % d;
    if x >= 1 {
      AtLeast(d, x);
    } else if x <= -1 {
      AtLeast(d, -x);
    }
  }

  lemma AtLeast(d: int, x: int)
    requires d > 0 && x >= 1
    ensures d * x >= d
  {
  }

  /** Halving, and the remainder of what is left. */
  lemma HalfMod(a: nat, p: nat)
    requires p > 0
    ensures a / (2 * p) == a / 2 / p && a % (2 * p) == 2 * (a / 2 % p) + a % 2
  {
    var q, r := a / 2 / p, a / 2 % p;
    assert a / 2 == p * q + r;
    assert a == 2 * p * q + (2 * r + a % 2);
    DivIs(a, 2 * p, q, 2 * r + a % 2);
    assert a == 2 * p * (a / (2 * p)) + a % (2 * p);
  }

  /** A bit of the result is set exactly when it is set in both. */
  lemma {:induction false} AndBitsAt(a: nat, b: nat, n: nat, k: nat)
    ensures Bit(AndBits(a, b, n), k) == 1 <==> k < n && Bit(a, k) == 1 && Bit(b, k) == 1
    decreases n
  {
    if n == 0 {
      assert 0 / Pow2(k) == 0 by {
        DivIs(0, Pow2(k), 0, 0);
      }
    } else {
      var r := AndBits(a / 2, b / 2, n - 1);
      assert AndBits(a, b, n) / 2 == r && AndBits(a, b, n) % 2 == 1 <==> a % 2 == 1 && b % 2 == 1;
      if k == 0 {
        assert Pow2(0) == 1;
      } else {
        HalfPow2(AndBits(a, b, n), k);
        HalfPow2(a, k);
        HalfPow2(b, k);
        AndBitsAt(a / 2, b / 2, n - 1, k - 1);
      }
    }
  }

  /** Bits make the number. */
  lemma {:induction false} BitsUnique(a: nat, b: nat, n: nat)
    requires a < Pow2(n) && b < Pow2(n) && forall k: nat | k < n :: Bit(a, k) == Bit(b, k)
    ensures a == b
  {
    if n > 0 {
      assert Bit(a, 0) == Bit(b, 0) && Pow2(0) == 1;
      forall k: nat | k < n - 1 ensures Bit(a / 2, k) == Bit(b / 2, k) {
        HalfPow2(a, k + 1);
        HalfPow2(b, k + 1);
        assert Bit(a, k + 1) == Bit(b, k + 1);
      }
      BitsUnique(a / 2, b / 2, n - 1);
    }
  }

  /** Programming b over a cell that holds a can only clear bits, and clears those that b has clear. */
  lemma ProgramBits(a: byte, b: byte, k: nat)
    requires k < 8
    ensures Bit(And8(a, b), k) == 1 <==> Bit(a, k) == 1 && Bit(b, k) == 1
  {
    AndBitsAt(a, b, 8, k);
  }

  /** A mask of low ones keeps the low bits. */
  lemma {:induction false} AndMask(a: nat, n: nat, m: nat)
    requires n <= m
    ensures AndBits(a, Pow2(n) - 1, m) == a % Pow2(n)
    decreases m
  {
    if n == 0 {
      AndNone(a, m);
    } else {
      assert (Pow2(n) - 1) / 2 == Pow2(n - 1) - 1 && (Pow2(n) - 1) % 2 == 1;
      AndMask(a / 2, n - 1, m - 1);
      HalfMod(a, Pow2(n - 1));
    }
  }

  lemma {:induction false} AndNone(a: nat, m: nat)
    ensures AndBits(a, 0, m) == 0
    decreases m
  {
    if m > 0 {
      AndNone(a / 2, m - 1);
    }
  }

  lemma {:induction false} AndOnes(b: nat, n: nat)
    requires b < Pow2(n)
    ensures AndBits(Pow2(n) - 1, b, n) == b
  {
    if n == 0 {
    } else {
      assert (Pow2(n) - 1) / 2 == Pow2(n - 1) - 1 && (Pow2(n) - 1) % 2 == 1;
      AndOnes(b / 2, n - 1);
    }
  }

  /** Programming an erased cell stores the byte. */
  lemma ProgramErased(b: byte)
    ensures And8(0xff, b) == b
  {
    assert Pow2(8) == 256 by {
      assert Pow2(4) == 16;
    }
    AndOnes(b, 8);
  }

  lemma {:induction false} AndAssoc(a: nat, b: nat, n: nat)
    ensures AndBits(a, AndBits(a, b, n), n) == AndBits(a, b, n)
  {
    if n == 0 {
    } else {
      var r := AndBits(a / 2, b / 2, n - 1);
      assert AndBits(a, b, n) / 2 == r;
      AndAssoc(a / 2, b / 2, n - 1);
    }
  }

  /** Programming `a & b` over `a` leaves `a & b`. */
  lemma ProgramMasked(a: byte, b: byte)
    ensures And8(a, And8(a, b)) == And8(a, b)
  {
    AndAssoc(a, b, 8);
  }

  // ----- One erase block as a value -----

  /** A block image after `data` is programmed at offset `off`. */
  function Programmed(img: seq<byte>, off: nat, data: seq<byte>): (r: seq<byte>)
    requires off + |data| <= |img|
    ensures |r| == |img|
    ensures forall i :: 0 <= i < |img| ==>
                          r[i] == if off <= i < off + |data| then And8(img[i], data[i - off]) else img[i]
  {
    seq(|img|, i requires 0 <= i < |img| => if off <= i < off + |data| then And8(img[i], data[i - off]) else img[i])
  }

  // ----- The chip -----

  class Chip {
    const mem: array<byte>

    constructor (blocks: nat)
      ensures fresh(mem) && mem.Length == ERASE_BLOCK_SIZE * blocks
      ensures forall b: nat | b < blocks :: Image(b) == Ones(ERASE_BLOCK_SIZE)
    {
      mem := new byte[ERASE_BLOCK_SIZE * blocks](_ => 0xff);
    }

    function Image(b: nat): (img: seq<byte>)
      requires ERASE_BLOCK_SIZE * (b + 1) <= mem.Length
      reads mem
      ensures |img| == ERASE_BLOCK_SIZE
    {
      mem[ERASE_BLOCK_SIZE * b..ERASE_BLOCK_SIZE * (b + 1)]
    }

    method Read(addr: nat, len: nat) returns (data: seq<byte>)
      requires addr + len <= mem.Length
      ensures data == mem[addr..addr + len]
    {
      data := mem[addr..addr + len];
    }

    /** Programs `data`, wherever it falls. */
    method Write(addr: nat, data: seq<byte>)
      requires addr + |data| <= mem.Length
      modifies mem
      ensures mem[..] == Programmed(old(mem[..]), addr, data)
      ensures forall j, k: nat | 0 <= j < mem.Length && k < 8 ::
                Bit(mem[j], k) == 1
                <==> Bit(old(mem[j]), k) == 1 && (addr <= j < addr + |data| ==> Bit(data[j - addr], k) == 1)
    {
      hide And8, Bit;
      for i := 0 to |data|
        invariant forall j | 0 <= j < mem.Length ::
            mem[j] == if addr <= j < addr + i then And8(old(mem[j]), data[j - addr]) else old(mem[j])
      {
        mem[addr + i] := And8(mem[addr + i], data[i]);
      }
      forall j, k: nat | addr <= j < addr + |data| && k < 8
        ensures Bit(mem[j], k) == 1 <==> Bit(old(mem[j]), k) == 1 && Bit(data[j - addr], k) == 1
      {
        ProgramBits(old(mem[j]), data[j - addr], k);
      }
    }

    /** The same when all of it falls in block `b`: every other block keeps its image. */
    method WriteWithin(addr: nat, data: seq<byte>, ghost b: nat)
      requires ERASE_BLOCK_SIZE * b <= addr && addr + |data| <= ERASE_BLOCK_SIZE * (b + 1) <= mem.Length
      modifies mem
      ensures Image(b) == Programmed(old(Image(b)), addr - ERASE_BLOCK_SIZE * b, data)
      ensures forall c: nat | c != b && ERASE_BLOCK_SIZE * (c + 1) <= mem.Length :: Image(c) == old(Image(c))
    {
      ghost var mem0 := mem[..];
      Write(addr, data);
      assert forall j | 0 <= j < mem.Length ::
          mem[j] == mem[..][j] == if addr <= j < addr + |data| then And8(mem0[j], data[j - addr]) else mem0[j];
    }

    method Erase4k(b: nat)
      requires ERASE_BLOCK_SIZE * (b + 1) <= mem.Length
      modifies mem
      ensures Image(b) == Ones(ERASE_BLOCK_SIZE)
      ensures forall c: nat | c != b && ERASE_BLOCK_SIZE * (c + 1) <= mem.Length :: Image(c) == old(Image(c))
    {
      for i := 0 to ERASE_BLOCK_SIZE
        invariant forall j | 0 <= j < mem.Length ::
            mem[j] == if ERASE_BLOCK_SIZE * b <= j < ERASE_BLOCK_SIZE * b + i then 0xff else old(mem[j])
      {
        mem[ERASE_BLOCK_SIZE * b + i] := 0xff;
      }
    }
  }
}
