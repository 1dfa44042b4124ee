/** Bytes, and 32-bit words in memory, lowest byte first as the processor keeps them. */
module Bytes {
  type byte = x: int | 0 <= x < 256

  /** `n` erased bytes. */
  function Ones(n: nat): (r: seq<byte>)
    ensures |r| == n && forall i :: 0 <= i < n ==> r[i] == 0xff
  {
    seq(n, _ => 0xff)
  }

  function Word(w: seq<byte>): (r: nat)
    requires |w| == 4
    ensures r <= 0xffffffff
  {
    var b0: int, b1: int, b2: int, b3: int := w[0], w[1], w[2], w[3];
    b0 + 0x100 * b1 + 0x10000 * b2 + 0x1000000 * b3
  }

  function WordBytes(n: nat): (r: seq<byte>)
    requires n <= 0xffffffff
    ensures |r| == 4 && Word(r) == n
  {
    var n1 := n / 0x100;
    var n2 := n1 / 0x100;
    [n % 0x100, n1 % 0x100, n2 % 0x100, n2 / 0x100]
  }

  /** A word has one spelling. */
  lemma WordUnique(a: seq<byte>, b: seq<byte>)
    requires |a| == |b| == 4 && Word(a) == Word(b)
    ensures a == b
  {
    var a0: int, a1: int, a2: int, a3: int := a[0], a[1], a[2], a[3];
    var b0: int, b1: int, b2: int, b3: int := b[0], b[1], b[2], b[3];
    assert a3 == b3;
    assert a2 == b2;
    assert a1 == b1;
  }
}
