/** The append-only page index of a block: entry i says which logical page slot i holds, and
    0xff marks a free slot.  A later entry for the same logical page supersedes an earlier one. */
module FfsIndex {
  import opened Bytes
  import opened FfsLayout

  const INDEX_FREE: byte := 0xff

  /** A run of used entries, each naming one of the 51 logical pages, then free ones only. */
  ghost predicate AppendOnly(index: seq<byte>) {
    && |index| == SLOTS
    && (forall i :: 0 <= i < SLOTS ==> index[i] < DATA_PAGES || index[i] == INDEX_FREE)
    && (forall i, j :: 0 <= i < j < SLOTS && index[i] == INDEX_FREE ==> index[j] == INDEX_FREE)
  }

  /** The newest of the first n entries that names `logical`, or -1. */
  function NewestBelow(index: seq<byte>, logical: int, n: nat): (r: int)
    requires n <= |index|
    ensures -1 <= r < n
    ensures r >= 0 ==> index[r] == logical
    ensures forall i :: r < i < n ==> index[i] != logical
  {
    if n == 0 then -1
    else if index[n - 1] == logical then n - 1
    else NewestBelow(index, logical, n - 1)
  }

  /** The slot that holds the current version of a logical page, or -1. */
  function Newest(index: seq<byte>, logical: int): (r: int)
    ensures -1 <= r < |index|
    ensures r >= 0 ==> index[r] == logical
    ensures forall i :: r < i < |index| ==> index[i] != logical
  {
    NewestBelow(index, logical, |index|)
  }

  /** The first free slot, or -1 when the block has none. */
  function FirstFree(index: seq<byte>): (r: int)
    ensures -1 <= r < |index|
    ensures r >= 0 ==> index[r] == INDEX_FREE
    ensures forall i :: 0 <= i < (if r < 0 then |index| else r) ==> index[i] != INDEX_FREE
  {
    FirstFreeFrom(index, 0)
  }

  function FirstFreeFrom(index: seq<byte>, n: nat): (r: int)
    requires n <= |index|
    ensures r == -1 || n <= r < |index|
    ensures r >= 0 ==> index[r] == INDEX_FREE
    ensures forall i :: n <= i < (if r < 0 then |index| else r) ==> index[i] != INDEX_FREE
    decreases |index| - n
  {
    if n == |index| then -1
    else if index[n] == INDEX_FREE then n
    else FirstFreeFrom(index, n + 1)
  }

  /** How many of the first n entries are free. */
  function FreeBelow(index: seq<byte>, n: nat): (r: nat)
    requires n <= |index|
    ensures r <= n
  {
    if n == 0 then 0 else FreeBelow(index, n - 1) + if index[n - 1] == INDEX_FREE then 1 else 0
  }

  function FreeCount(index: seq<byte>): nat {
    FreeBelow(index, |index|)
  }

  /** The highest logical page among the first n entries, or -1. */
  function HighestBelow(index: seq<byte>, n: nat): (r: int)
    requires n <= |index|
    ensures r == -1 || exists i :: 0 <= i < n && index[i] == r && index[i] != INDEX_FREE
    ensures forall i :: 0 <= i < n && index[i] != INDEX_FREE ==> index[i] <= r
  {
    if n == 0 then -1
    else
      var h := HighestBelow(index, n - 1);
      if index[n - 1] != INDEX_FREE && index[n - 1] >= h then index[n - 1] else h
  }

  function Highest(index: seq<byte>): int {
    HighestBelow(index, |index|)
  }

  /** The newest entry is the one that no later entry repeats. */
  lemma NewestIs(index: seq<byte>, logical: int, r: int)
    requires -1 <= r < |index| && (r >= 0 ==> index[r] == logical)
    requires forall i :: r < i < |index| ==> index[i] != logical
    ensures Newest(index, logical) == r
  {
  }

  /** Writing the next entry makes it the newest for its page, leaves every other page's newest
      entry alone, and keeps the index append-only. */
  lemma AppendEntry(index: seq<byte>, logical: byte)
    requires AppendOnly(index) && FirstFree(index) >= 0 && logical < DATA_PAGES
    ensures var i := FirstFree(index); var index' := index[i := logical];
            && AppendOnly(index')
            && Newest(index', logical) == i
            && (forall p | p != logical && p != INDEX_FREE :: Newest(index', p) == Newest(index, p))
  {
    var i := FirstFree(index);
    var index' := index[i := logical];
    assert forall j :: i <= j < SLOTS ==> index[j] == INDEX_FREE;
    assert Newest(index', logical) == i by {
      assert index'[i] == logical;
    }
    assert AppendOnly(index');
    forall p | p != logical && p != INDEX_FREE ensures Newest(index', p) == Newest(index, p) {
      NewestIs(index', p, Newest(index, p));
    }
  }

  /** In an append-only index the free entries are exactly those from the first free one on. */
  lemma {:induction false} FreeCountIs(index: seq<byte>, n: nat)
    requires AppendOnly(index) && n <= SLOTS
    ensures FreeBelow(index, n) == if 0 <= FirstFree(index) < n then n - FirstFree(index) else 0
  {
    if n == 0 {
    } else {
      FreeCountIs(index, n - 1);
    }
  }

  /** Filling the first free slot leaves one fewer. */
  lemma OneSlotFewer(index: seq<byte>, logical: byte)
    requires AppendOnly(index) && FirstFree(index) >= 0 && logical < DATA_PAGES
    ensures FreeCount(index[FirstFree(index) := logical]) == FreeCount(index) - 1
  {
    var index' := index[FirstFree(index) := logical];
    AppendEntry(index, logical);
    FreeCountIs(index, SLOTS);
    FreeCountIs(index', SLOTS);
    var i := FirstFree(index);
    assert forall j :: 0 <= j < i ==> index'[j] == index[j];
    assert i + 1 < SLOTS ==> index'[i + 1] == index[i + 1] == INDEX_FREE;
    assert FirstFree(index') == if i + 1 < SLOTS then i + 1 else -1;
  }

  /** No slot is free just when none is counted. */
  lemma FullMeansNone(index: seq<byte>)
    requires AppendOnly(index)
    ensures FirstFree(index) < 0 <==> FreeCount(index) == 0
  {
    FreeCountIs(index, SLOTS);
  }
}
