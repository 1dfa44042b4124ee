/** The singly linked block lists threaded through the one shared next_block array of
    ffs_block.c, as values: `next` is the array's contents and `chains[i]` is the list of
    blocks that list i links together. */
module FfsLists {
  import FfsLayout

  const INVALID := 255
  const FREE := 0
  const DIRTY := 1
  const FIRST_FILE := 2
  const LISTS := FIRST_FILE + FfsLayout.MAX_FILES

  /** What a list head holds for the list `l`. */
  function HeadOf(l: seq<int>): int {
    if l == [] then INVALID else l[0]
  }

  /** The link of the k-th block of l points at the next one, or ends the list. */
  ghost predicate LinkAt(next: seq<int>, l: seq<int>, k: nat)
    requires k < |l|
  {
    0 <= l[k] < |next| && next[l[k]] == if k + 1 < |l| then l[k + 1] else INVALID
  }

  ghost predicate Linked(next: seq<int>, l: seq<int>) {
    forall k :: 0 <= k < |l| ==> LinkAt(next, l, k)
  }

  /** No block occurs twice, within one list or across two. */
  ghost predicate Disjoint(chains: seq<seq<int>>) {
    forall i, k, j, m {:trigger chains[i][k], chains[j][m]} |
      0 <= i < |chains| && 0 <= k < |chains[i]| && 0 <= j < |chains| && 0 <= m < |chains[j]| &&
      chains[i][k] == chains[j][m] :: i == j && k == m
  }

  ghost predicate ChainsOk(next: seq<int>, chains: seq<seq<int>>) {
    && |next| <= 254
    && (forall i :: 0 <= i < |chains| ==> Linked(next, chains[i]))
    && Disjoint(chains)
  }

  /** Block b is on some list. */
  ghost predicate Listed(chains: seq<seq<int>>, b: int) {
    exists i, k {:trigger chains[i][k]} :: 0 <= i < |chains| && 0 <= k < |chains[i]| && chains[i][k] == b
  }

  /** Every one of the n blocks is on some list. */
  ghost predicate Covering(chains: seq<seq<int>>, n: nat) {
    forall b | 0 <= b < n :: Listed(chains, b)
  }

  /** A head is INVALID only when its list is empty: no block has that number. */
  lemma HeadMeans(next: seq<int>, chains: seq<seq<int>>, id: nat)
    requires ChainsOk(next, chains) && id < |chains|
    ensures HeadOf(chains[id]) == INVALID <==> chains[id] == []
    ensures chains[id] != [] ==> 0 <= HeadOf(chains[id]) < |next|
  {
    if chains[id] != [] {
      assert Linked(next, chains[id]) && LinkAt(next, chains[id], 0);
    }
  }

  /** Following a link leads to the next block of the list, and INVALID ends it. */
  lemma LinkMeans(next: seq<int>, chains: seq<seq<int>>, id: nat, k: nat)
    requires ChainsOk(next, chains) && id < |chains| && k < |chains[id]|
    ensures var l := chains[id];
            && 0 <= l[k] < |next|
            && (k + 1 < |l| ==> next[l[k]] == l[k + 1] != INVALID)
            && (k + 1 == |l| ==> next[l[k]] == INVALID)
  {
    var l := chains[id];
    assert Linked(next, l) && LinkAt(next, l, k);
    if k + 1 < |l| {
      assert LinkAt(next, l, k + 1);
    }
  }

  /** The next array after b is linked in behind the last block of l. */
  function Appended(next: seq<int>, l: seq<int>, b: int): (r: seq<int>)
    requires 0 <= b < |next| && (l != [] ==> 0 <= l[|l| - 1] < |next|)
    ensures |r| == |next|
  {
    var n := next[b := INVALID];
    if l == [] then n else n[l[|l| - 1] := b]
  }

  lemma AppendKeeps(next: seq<int>, chains: seq<seq<int>>, id: nat, b: int)
    requires ChainsOk(next, chains) && id < |chains| && 0 <= b < |next| && !Listed(chains, b)
    ensures var l := chains[id];
            && (l != [] ==> 0 <= l[|l| - 1] < |next|)
            && ChainsOk(Appended(next, l, b), chains[id := l + [b]])
  {
    var l := chains[id];
    if l != [] {
      assert Linked(next, l);
      assert LinkAt(next, l, |l| - 1);
    }
    var n' := Appended(next, l, b);
    var c' := chains[id := l + [b]];
    forall i | 0 <= i < |c'| ensures Linked(n', c'[i]) {
      assert Linked(next, chains[i]);
      forall k | 0 <= k < |c'[i]| ensures LinkAt(n', c'[i], k) {
        if k < |chains[i]| {
          assert LinkAt(next, chains[i], k);
          assert c'[i][k] == chains[i][k] != b;
          if l != [] && chains[i][k] == chains[id][|l| - 1] {
            assert i == id && k == |l| - 1;
          }
        }
      }
    }
    forall i, k, j, m | 0 <= i < |c'| && 0 <= k < |c'[i]| && 0 <= j < |c'| && 0 <= m < |c'[j]| && c'[i][k] == c'[j][m]
      ensures i == j && k == m
    {
      if k < |chains[i]| {
        assert c'[i][k] == chains[i][k] != b;
      }
      if m < |chains[j]| {
        assert c'[j][m] == chains[j][m] != b;
      }
    }
  }

  /** Taking the first block off a list; whatever its own link then says does not matter. */
  lemma PopKeeps(next: seq<int>, chains: seq<seq<int>>, id: nat, v: int)
    requires ChainsOk(next, chains) && id < |chains| && chains[id] != []
    ensures var b := chains[id][0];
            && 0 <= b < |next|
            && ChainsOk(next[b := v], chains[id := chains[id][1..]])
            && !Listed(chains[id := chains[id][1..]], b)
            && HeadOf(chains[id][1..]) == next[b]
  {
    var b := chains[id][0];
    assert Linked(next, chains[id]) && LinkAt(next, chains[id], 0);
    var c' := chains[id := chains[id][1..]];
    var n' := next[b := v];
    forall i, k | 0 <= i < |c'| && 0 <= k < |c'[i]| ensures c'[i][k] != b {
      assert c'[i][k] == chains[i][if i == id then k + 1 else k];
    }
    forall i | 0 <= i < |c'| ensures Linked(n', c'[i]) {
      assert Linked(next, chains[i]);
      forall k | 0 <= k < |c'[i]| ensures LinkAt(n', c'[i], k) {
        assert LinkAt(next, chains[i], if i == id then k + 1 else k);
        assert c'[i][k] != b;
      }
    }
    forall i, k, j, m | 0 <= i < |c'| && 0 <= k < |c'[i]| && 0 <= j < |c'| && 0 <= m < |c'[j]| && c'[i][k] == c'[j][m]
      ensures i == j && k == m
    {
      assert c'[i][k] == chains[i][if i == id then k + 1 else k];
      assert c'[j][m] == chains[j][if j == id then m + 1 else m];
    }
  }

  /** Forgetting one list leaves the others linked. */
  lemma DropKeeps(next: seq<int>, chains: seq<seq<int>>, id: nat)
    requires ChainsOk(next, chains) && id < |chains|
    ensures ChainsOk(next, chains[id := []])
  {
  }

  /** The next array after nb takes the place of l[k]. */
  function Replaced(next: seq<int>, l: seq<int>, k: nat, nb: int): (r: seq<int>)
    requires k < |l| && 0 <= l[k] < |next| && 0 <= nb < |next| && (k > 0 ==> 0 <= l[k - 1] < |next|)
    ensures |r| == |next|
  {
    var n := if k == 0 then next else next[l[k - 1] := nb];
    n[nb := n[l[k]]]
  }

  lemma ReplaceKeeps(next: seq<int>, chains: seq<seq<int>>, id: nat, k: nat, nb: int)
    requires ChainsOk(next, chains) && id < |chains| && k < |chains[id]| && 0 <= nb < |next| && !Listed(chains, nb)
    ensures var l := chains[id];
            && 0 <= l[k] < |next| && (k > 0 ==> 0 <= l[k - 1] < |next|)
            && ChainsOk(Replaced(next, l, k, nb), chains[id := l[k := nb]])
            && !Listed(chains[id := l[k := nb]], l[k])
  {
    var l := chains[id];
    assert Linked(next, l) && LinkAt(next, l, k) && (k > 0 ==> LinkAt(next, l, k - 1));
    var c' := chains[id := l[k := nb]];
    var n' := Replaced(next, l, k, nb);
    forall i, m | 0 <= i < |c'| && 0 <= m < |c'[i]| ensures c'[i][m] != l[k] && (c'[i][m] == nb ==> i == id && m == k) {
      if !(i == id && m == k) {
        assert c'[i][m] == chains[i][m];
        assert chains[i][m] == chains[id][k] ==> i == id && m == k;
      } else {
        assert chains[id][k] == l[k];
      }
    }
    forall i | 0 <= i < |c'| ensures Linked(n', c'[i]) {
      assert Linked(next, chains[i]);
      forall m | 0 <= m < |c'[i]| ensures LinkAt(n', c'[i], m) {
        assert LinkAt(next, chains[i], m);
        if i == id && m == k {
          if k > 0 {
            assert chains[id][k - 1] != chains[id][k];
          }
        } else {
          assert c'[i][m] == chains[i][m];
          if k > 0 && chains[i][m] == chains[id][k - 1] {
            assert i == id && m == k - 1;
          }
        }
      }
    }
    forall i, m, j, p | 0 <= i < |c'| && 0 <= m < |c'[i]| && 0 <= j < |c'| && 0 <= p < |c'[j]| && c'[i][m] == c'[j][p]
      ensures i == j && m == p
    {
      if c'[i][m] != nb {
        assert c'[i][m] == chains[i][m] && c'[j][p] == chains[j][p];
      }
    }
  }

  function Below(n: nat): (s: set<int>)
    ensures |s| == n && forall b :: b in s <==> 0 <= b < n
  {
    if n == 0 then {} else Below(n - 1) + {n - 1}
  }

  /** A list is never longer than the number of blocks, so its length fits the byte counters. */
  lemma ChainBound(next: seq<int>, chains: seq<seq<int>>, id: nat)
    requires ChainsOk(next, chains) && id < |chains|
    ensures |chains[id]| <= |next| <= 254
  {
    var l := chains[id];
    assert Linked(next, l);
    forall k | 0 <= k < |l| ensures l[k] in Below(|next|) {
      assert LinkAt(next, l, k);
    }
    forall k, m | 0 <= k < m < |l| ensures l[k] != l[m] {
      assert chains[id][k] != chains[id][m];
    }
    DistinctFit(l, Below(|next|));
  }

  /** While some block is on no list, no list has all the blocks. */
  lemma UnlistedRoom(next: seq<int>, chains: seq<seq<int>>, id: nat, b: int)
    requires ChainsOk(next, chains) && id < |chains| && 0 <= b < |next| && !Listed(chains, b)
    ensures |chains[id]| < |next|
  {
    AppendKeeps(next, chains, id, b);
    ChainBound(Appended(next, chains[id], b), chains[id := chains[id] + [b]], id);
  }

  /** Pigeonhole: distinct elements of a set are no more than the set has. */
  lemma {:induction false} DistinctFit(l: seq<int>, s: set<int>)
    requires (forall k :: 0 <= k < |l| ==> l[k] in s) && forall k, m :: 0 <= k < m < |l| ==> l[k] != l[m]
    ensures |l| <= |s|
  {
    if l == [] {
    } else {
      var last := l[|l| - 1];
      DistinctFit(l[..|l| - 1], s - {last});
    }
  }

  // ----- Counting the blocks -----

  function Members(l: seq<int>): set<int> { set b | b in l }

  lemma {:induction false} MembersSize(l: seq<int>)
    requires forall i, j :: 0 <= i < j < |l| ==> l[i] != l[j]
    ensures |Members(l)| == |l|
  {
    if l != [] {
      var front, last := l[..|l| - 1], l[|l| - 1];
      MembersSize(front);
      assert Members(l) == Members(front) + {last} && last !in front;
    }
  }

  /** How many blocks some lists have together. */
  function Total(chains: seq<seq<int>>): nat {
    if chains == [] then 0 else Total(chains[..|chains| - 1]) + |chains[|chains| - 1]|
  }

  function AllMembers(chains: seq<seq<int>>): (r: set<int>)
    ensures forall i, k :: 0 <= i < |chains| && 0 <= k < |chains[i]| ==> chains[i][k] in r
    ensures forall b :: b in r ==> Listed(chains, b)
  {
    if chains == [] then {}
    else
      var last := |chains| - 1;
      assert forall b :: Listed(chains[..last], b) ==> Listed(chains, b) by {
        forall b | Listed(chains[..last], b) ensures Listed(chains, b) {
          var i, k :| 0 <= i < last && 0 <= k < |chains[..last][i]| && chains[..last][i][k] == b;
          assert chains[i][k] == b;
        }
      }
      assert forall k :: 0 <= k < |chains[last]| ==> Listed(chains, chains[last][k]);
      AllMembers(chains[..last]) + Members(chains[last])
  }

  lemma FrontDisjoint(chains: seq<seq<int>>)
    requires Disjoint(chains) && chains != []
    ensures Disjoint(chains[..|chains| - 1])
  {
    var front := chains[..|chains| - 1];
    forall i, k, j, m | 0 <= i < |front| && 0 <= k < |front[i]| && 0 <= j < |front| && 0 <= m < |front[j]|
      && front[i][k] == front[j][m]
      ensures i == j && k == m
    {
      assert chains[i][k] == chains[j][m];
    }
  }

  lemma {:induction false} TotalSize(chains: seq<seq<int>>)
    requires Disjoint(chains)
    ensures |AllMembers(chains)| == Total(chains)
  {
    if chains != [] {
      var last := |chains| - 1;
      var front := chains[..last];
      FrontDisjoint(chains);
      TotalSize(front);
      assert forall i, j :: 0 <= i < j < |chains[last]| ==> chains[last][i] != chains[last][j];
      MembersSize(chains[last]);
      forall b | b in AllMembers(front) ensures b !in Members(chains[last]) {
        var i, k :| 0 <= i < last && 0 <= k < |front[i]| && front[i][k] == b;
        assert chains[i][k] == b;
      }
    }
  }

  /** Lists that share no block and together have them all have as many as there are. */
  lemma Conservation(chains: seq<seq<int>>, total: nat)
    requires Disjoint(chains) && Covering(chains, total)
    requires forall i, k :: 0 <= i < |chains| && 0 <= k < |chains[i]| ==> 0 <= chains[i][k] < total
    ensures Total(chains) == total
  {
    TotalSize(chains);
    var all := AllMembers(chains);
    forall b ensures b in all <==> 0 <= b < total {
      if b in all {
        assert Listed(chains, b);
      }
      if 0 <= b < total {
        assert Listed(chains, b);
      }
    }
    assert all == Below(total);
  }

  /** Total counts depend on the lengths alone. */
  lemma {:induction false} TotalSame(a: seq<seq<int>>, b: seq<seq<int>>)
    requires |a| == |b| && forall i :: 0 <= i < |a| ==> |a[i]| == |b[i]|
    ensures Total(a) == Total(b)
  {
    if a != [] {
      TotalSame(a[..|a| - 1], b[..|b| - 1]);
    }
  }

  lemma {:induction false} TotalSplit(a: seq<seq<int>>, b: seq<seq<int>>)
    ensures Total(a + b) == Total(a) + Total(b)
  {
    if b == [] {
      assert a + b == a;
    } else {
      assert (a + b)[..|a + b| - 1] == a + b[..|b| - 1];
      TotalSplit(a, b[..|b| - 1]);
    }
  }
}
