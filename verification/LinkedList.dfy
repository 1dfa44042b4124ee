/** list.c: a doubly linked list of memory objects.  Nodes are handles into a memory pool that
    several lists and other users share. */
module LinkedList {
  import opened Bytes

  const NIL := -1

  /** The memory objects, part by part: links and data of each handle. */
  class Pool {
    var prev: map<int, int>
    var next: map<int, int>
    var data: map<int, seq<byte>>

    constructor ()
      ensures data == map[] && Valid()
    {
      prev, next, data := map[], map[], map[];
    }

    ghost predicate Valid()
      reads this
    {
      && prev.Keys == next.Keys == data.Keys
      && forall h | h in data :: h >= 0
    }

    method SetPrev(node: int, p: int)
      requires Valid() && node in data
      modifies this`prev
      ensures Valid() && prev == old(prev)[node := p]
    {
      prev := prev[node := p];
      assert prev.Keys == old(prev).Keys;
    }

    method SetNext(node: int, n: int)
      requires Valid() && node in data
      modifies this`next
      ensures Valid() && next == old(next)[node := n]
    {
      next := next[node := n];
      assert next.Keys == old(next).Keys;
    }

    /** Links a node in between another one and its successor, if that has one. */
    method LinkAfter(node: int, newNode: int) returns (after: int)
      requires Valid() && node in data && newNode in data && node != newNode && (next[node] >= 0 ==> next[node] in data)
      modifies this`prev, this`next
      ensures Valid() && after == old(next)[node]
      ensures prev == Put(old(prev)[newNode := node], after, newNode)
      ensures next == old(next)[newNode := after][node := newNode]
    {
      after := next[node];
      SetPrev(newNode, node);
      SetNext(newNode, after);
      if after >= 0 {
        SetPrev(after, newNode);
      }
      SetNext(node, newNode);
    }

    /** Tells the neighbours of a node of each other. */
    method Unlink(node: int) returns (before: int, after: int)
      requires Valid() && node in data
      requires (prev[node] >= 0 ==> prev[node] in data) && (next[node] >= 0 ==> next[node] in data)
      modifies this`prev, this`next
      ensures Valid() && before == old(prev)[node] && after == old(next)[node]
      ensures prev == Put(old(prev), after, before) && next == Put(old(next), before, after)
    {
      before, after := prev[node], next[node];
      if before >= 0 {
        SetNext(before, after);
      }
      if after >= 0 {
        SetPrev(after, before);
      }
    }
  }

  function Put(m: map<int, int>, h: int, v: int): map<int, int> {
    if h < 0 then m else m[h := v]
  }

  /** The data of the nodes, one after the other. */
  function Concat(data: map<int, seq<byte>>, nodes: seq<int>): (r: seq<byte>)
    requires forall i :: 0 <= i < |nodes| ==> nodes[i] in data
  {
    if nodes == [] then [] else data[nodes[0]] + Concat(data, nodes[1..])
  }

  lemma {:induction false} ConcatSplit(data: map<int, seq<byte>>, a: seq<int>, b: seq<int>)
    requires forall i :: 0 <= i < |a| ==> a[i] in data
    requires forall i :: 0 <= i < |b| ==> b[i] in data
    ensures Concat(data, a + b) == Concat(data, a) + Concat(data, b)
  {
    if a == [] {
      assert a + b == b;
    } else {
      assert (a + b)[1..] == a[1..] + b;
      ConcatSplit(data, a[1..], b);
    }
  }

  /** The handle at position i of a list, or NIL off either end. */
  function At(nodes: seq<int>, i: int): int {
    if 0 <= i < |nodes| then nodes[i] else NIL
  }

  /** Node i of the list knows its neighbours. */
  ghost predicate LinkedAt(prev: map<int, int>, next: map<int, int>, nodes: seq<int>, i: nat)
    requires i < |nodes|
  {
    && nodes[i] >= 0 && nodes[i] in prev && nodes[i] in next
    && prev[nodes[i]] == At(nodes, i - 1) && next[nodes[i]] == At(nodes, i + 1)
  }

  ghost predicate Chain(prev: map<int, int>, next: map<int, int>, nodes: seq<int>) {
    && (forall i, j :: 0 <= i < j < |nodes| ==> nodes[i] != nodes[j])
    && forall i :: 0 <= i < |nodes| ==> LinkedAt(prev, next, nodes, i)
  }

  /** The links of all objects but the touched ones are as they were. */
  ghost predicate SameBut(prev: map<int, int>, next: map<int, int>, prev': map<int, int>, next': map<int, int>,
                          touched: seq<int>)
  {
    && prev'.Keys == prev.Keys && next'.Keys == next.Keys
    && forall h | h in prev && h in next && h !in touched :: prev'[h] == prev[h] && next'[h] == next[h]
  }

  /** A new node between node i and the next one, both of which are told. */
  lemma InsertKeeps(prev: map<int, int>, next: map<int, int>, nodes: seq<int>, i: nat, x: int)
    requires Chain(prev, next, nodes) && i < |nodes| && x >= 0 && x !in nodes
    ensures var prev', next' :=
            Put(prev[x := nodes[i]], At(nodes, i + 1), x), next[x := At(nodes, i + 1)][nodes[i] := x];
            Chain(prev', next', nodes[..i + 1] + [x] + nodes[i + 1..])
  {
    var prev', next' := Put(prev[x := nodes[i]], At(nodes, i + 1), x), next[x := At(nodes, i + 1)][nodes[i] := x];
    var nodes' := nodes[..i + 1] + [x] + nodes[i + 1..];
    assert i + 1 < |nodes| ==> LinkedAt(prev, next, nodes, i + 1);
    forall j | 0 <= j < |nodes'| ensures LinkedAt(prev', next', nodes', j) {
      if j <= i {
        assert LinkedAt(prev, next, nodes, j);
      } else if j > i + 1 {
        assert LinkedAt(prev, next, nodes, j - 1);
      }
    }
  }

  /** Who is told is on the list then, and the ends are told. */
  lemma InsertTouches(prev: map<int, int>, next: map<int, int>, nodes: seq<int>, i: nat, x: int)
    requires Chain(prev, next, nodes) && i < |nodes| && x >= 0 && x !in nodes && x in prev && x in next
    ensures var prev', next' :=
            Put(prev[x := nodes[i]], At(nodes, i + 1), x), next[x := At(nodes, i + 1)][nodes[i] := x];
            SameBut(prev, next, prev', next', nodes[..i + 1] + [x] + nodes[i + 1..])
    ensures var nodes' := nodes[..i + 1] + [x] + nodes[i + 1..];
            && At(nodes', 0) == At(nodes, 0)
            && At(nodes', |nodes'| - 1) == (if i + 1 == |nodes| then x else At(nodes, |nodes| - 1))
  {
    var nodes' := nodes[..i + 1] + [x] + nodes[i + 1..];
    assert LinkedAt(prev, next, nodes, i);
    assert i + 1 < |nodes| ==> LinkedAt(prev, next, nodes, i + 1) && nodes'[i + 2] == nodes[i + 1];
    assert nodes'[i] == nodes[i] && nodes'[i + 1] == x;
  }

  /** A new node in front of a list that is not empty. */
  lemma PrependKeeps(prev: map<int, int>, next: map<int, int>, nodes: seq<int>, x: int)
    requires Chain(prev, next, nodes) && nodes != [] && x >= 0 && x !in nodes
    ensures Chain(prev[nodes[0] := x][x := NIL], next[x := nodes[0]], [x] + nodes)
  {
    var prev', next', nodes' := prev[nodes[0] := x][x := NIL], next[x := nodes[0]], [x] + nodes;
    forall j | 0 <= j < |nodes'| ensures LinkedAt(prev', next', nodes', j) {
      if j > 0 {
        assert LinkedAt(prev, next, nodes, j - 1);
      }
    }
  }

  /** Node i taken out, and its neighbours told. */
  lemma RemoveKeeps(prev: map<int, int>, next: map<int, int>, nodes: seq<int>, i: nat)
    requires Chain(prev, next, nodes) && i < |nodes|
    ensures var before, after := At(nodes, i - 1), At(nodes, i + 1);
            Chain(Put(prev, after, before), Put(next, before, after), nodes[..i] + nodes[i + 1..])
  {
    var before, after := At(nodes, i - 1), At(nodes, i + 1);
    var prev', next', nodes' := Put(prev, after, before), Put(next, before, after), nodes[..i] + nodes[i + 1..];
    forall j | 0 <= j < |nodes'| ensures LinkedAt(prev', next', nodes', j) {
      assert LinkedAt(prev, next, nodes, if j < i then j else j + 1);
    }
  }

  lemma RemoveTouches(prev: map<int, int>, next: map<int, int>, nodes: seq<int>, i: nat)
    requires Chain(prev, next, nodes) && i < |nodes|
    ensures var before, after := At(nodes, i - 1), At(nodes, i + 1);
            SameBut(prev, next, Put(prev, after, before), Put(next, before, after), nodes)
    ensures var nodes' := nodes[..i] + nodes[i + 1..];
            && At(nodes', 0) == (if i == 0 then At(nodes, 1) else At(nodes, 0))
            && At(nodes', |nodes'| - 1)
               == if i + 1 == |nodes| then At(nodes, i - 1) else At(nodes, |nodes| - 1)
  {
    assert i > 0 ==> LinkedAt(prev, next, nodes, i - 1);
    assert i + 1 < |nodes| ==> LinkedAt(prev, next, nodes, i + 1);
  }

  /** A list none of whose nodes is touched stays linked. */
  lemma OtherChain(prev: map<int, int>, next: map<int, int>, prev': map<int, int>, next': map<int, int>,
                   nodes: seq<int>, touched: seq<int>)
    requires Chain(prev, next, nodes) && forall i :: 0 <= i < |nodes| ==> nodes[i] !in touched
    requires SameBut(prev, next, prev', next', touched)
    ensures Chain(prev', next', nodes)
  {
    forall i | 0 <= i < |nodes| ensures LinkedAt(prev', next', nodes, i) {
      assert LinkedAt(prev, next, nodes, i);
    }
  }

  /** Bytes pos to pos + len of a text, as much of it as there is. */
  function Window(text: seq<byte>, pos: nat, len: nat): (r: seq<byte>)
    ensures |r| <= len
  {
    if pos >= |text| then [] else text[pos..if pos + len <= |text| then pos + len else |text|]
  }

  /** Windows that follow each other make one window. */
  lemma WindowsJoin(text: seq<byte>, pos: nat, a: nat, b: nat)
    ensures Window(text, pos, a) + Window(text, pos + a, b) == Window(text, pos, a + b)
  {
  }

  class List {
    const pool: Pool
    var head: int
    var tail: int
    ghost var nodes: seq<int>

    constructor (pool: Pool)
      requires pool.Valid()
      ensures this.pool == pool && Valid() && nodes == []
    {
      this.pool, head, tail, nodes := pool, NIL, NIL, [];
    }

    /** The list links `nodes`, in that order, both ways. */
    ghost predicate Valid()
      reads this, pool
    {
      && pool.Valid() && head == At(nodes, 0) && tail == At(nodes, |nodes| - 1)
      && Chain(pool.prev, pool.next, nodes)
    }

    ghost function Text(): seq<byte>
      requires Valid()
      reads this, pool
    {
      TextTo(|nodes|)
    }

    /** The data of the first i nodes. */
    ghost function TextTo(i: nat): seq<byte>
      requires Valid() && i <= |nodes|
      reads this, pool
    {
      InPool();
      Concat(pool.data, nodes[..i])
    }

    lemma InPool()
      requires Valid()
      ensures forall i :: 0 <= i < |nodes| ==> nodes[i] in pool.data && nodes[i] >= 0
    {
      forall i | 0 <= i < |nodes| ensures nodes[i] in pool.data && nodes[i] >= 0 {
        assert LinkedAt(pool.prev, pool.next, nodes, i);
      }
    }

    /** The links of objects on other lists are as they were. */
    twostate predicate OthersKept(touched: seq<int>)
      reads this, pool
    {
      SameBut(old(pool.prev), old(pool.next), pool.prev, pool.next, touched)
    }

    method InsertAfter(node: int, newNode: int, ghost i: nat)
      requires Valid() && i < |nodes| && node == nodes[i] && newNode in pool.data && newNode !in nodes
      modifies this, pool`prev, pool`next
      ensures Valid() && nodes == old(nodes)[..i + 1] + [newNode] + old(nodes)[i + 1..] && OthersKept(nodes)
    {
      hide Chain, SameBut;
      NodeLinks(i);
      InsertKeeps(pool.prev, pool.next, nodes, i, newNode);
      InsertTouches(pool.prev, pool.next, nodes, i, newNode);
      var next := pool.LinkAfter(node, newNode);
      if next < 0 {
        tail := newNode;
      }
      nodes := nodes[..i + 1] + [newNode] + nodes[i + 1..];
    }

    /** The links of node i lead to its neighbours. */
    lemma NodeLinks(i: nat)
      requires Valid() && i < |nodes|
      ensures nodes[i] in pool.data && nodes[i] >= 0
      ensures pool.prev[nodes[i]] == At(nodes, i - 1) && pool.next[nodes[i]] == At(nodes, i + 1)
      ensures if i == 0 then At(nodes, i - 1) == NIL else At(nodes, i - 1) >= 0 && At(nodes, i - 1) in pool.data
      ensures if i + 1 == |nodes| then At(nodes, i + 1) == NIL
              else At(nodes, i + 1) >= 0 && At(nodes, i + 1) in pool.data
    {
      InPool();
      assert LinkedAt(pool.prev, pool.next, nodes, i);
    }

    method InsertOnly(node: int)
      requires Valid() && nodes == [] && node in pool.data
      modifies this, pool`prev, pool`next
      ensures Valid() && nodes == [node] && OthersKept(nodes)
    {
      head := node;
      tail := node;
      pool.SetPrev(node, NIL);
      pool.SetNext(node, NIL);
      nodes := [node];
    }

    method InsertTail(node: int)
      requires Valid() && node in pool.data && node !in nodes
      modifies this, pool`prev, pool`next
      ensures Valid() && nodes == old(nodes) + [node] && OthersKept(nodes)
    {
      InPool();
      if tail < 0 {
        InsertOnly(node);
      } else {
        ghost var nodes0 := nodes;
        assert nodes0[..|nodes0|] == nodes0 && nodes0[|nodes0|..] == [];
        InsertAfter(tail, node, |nodes| - 1);
      }
    }

    method InsertHead(node: int)
      requires Valid() && node in pool.data && node !in nodes
      modifies this, pool`prev, pool`next
      ensures Valid() && nodes == [node] + old(nodes) && OthersKept(nodes)
    {
      InPool();
      if head < 0 {
        InsertOnly(node);
      } else {
        PrependKeeps(pool.prev, pool.next, nodes, node);
        pool.SetPrev(head, node);
        pool.SetPrev(node, NIL);
        pool.SetNext(node, head);
        head := node;
        nodes := [node] + nodes;
      }
    }

    method Remove(node: int, ghost i: nat)
      requires Valid() && i < |nodes| && node == nodes[i]
      modifies this, pool`prev, pool`next
      ensures Valid() && nodes == old(nodes)[..i] + old(nodes)[i + 1..] && OthersKept(old(nodes))
    {
      hide Chain, SameBut;
      NodeLinks(i);
      RemoveKeeps(pool.prev, pool.next, nodes, i);
      RemoveTouches(pool.prev, pool.next, nodes, i);
      var prev, next := pool.Unlink(node);
      if prev < 0 {
        head := next;
      }
      if next < 0 {
        tail := prev;
      }
      nodes := nodes[..i] + nodes[i + 1..];
    }

    method RemoveTail() returns (node: int)
      requires Valid()
      modifies this, pool`prev, pool`next
      ensures Valid() && OthersKept(old(nodes)) && node == At(old(nodes), |old(nodes)| - 1)
      ensures nodes == if old(nodes) == [] then [] else old(nodes)[..|old(nodes)| - 1]
    {
      InPool();
      node := tail;
      if node >= 0 {
        ghost var nodes0 := nodes;
        Remove(node, |nodes| - 1);
        assert nodes0[|nodes0|..] == [];
      }
    }

    method Next(node: int, ghost i: nat) returns (next: int)
      requires Valid() && i < |nodes| && node == nodes[i]
      ensures next == At(nodes, i + 1) && (next < 0 <==> i + 1 == |nodes|)
    {
      InPool();
      assert LinkedAt(pool.prev, pool.next, nodes, i);
      next := pool.next[node];
    }

    /** The node at a position, or NIL past the end. */
    method Index(index: nat) returns (node: int)
      requires Valid()
      ensures node == At(nodes, index)
    {
      InPool();
      node := head;
      var left := index;
      while node >= 0 && left > 0
        invariant 0 <= left <= index && node == At(nodes, index - left) && (node < 0 <==> index - left >= |nodes|)
        decreases left
      {
        node := Next(node, index - left);
        left := left - 1;
      }
    }

    /** The number of nodes, in 8 bits. */
    method Count() returns (count: nat)
      requires Valid()
      ensures count == |nodes| % 0x100
    {
      InPool();
      count := 0;
      var node := head;
      ghost var i := 0;
      while node >= 0
        invariant 0 <= i <= |nodes| && node == At(nodes, i) && (node < 0 <==> i == |nodes|) && count == i % 0x100
        decreases |nodes| - i
      {
        count := (count + 1) % 0x100;
        node := Next(node, i);
        i := i + 1;
      }
    }

    /** Copies a window of the nodes' data, clipped at the end. */
    method Flatten(pos0: nat, len0: nat) returns (dest: seq<byte>)
      requires Valid() && |Text()| < 0x10000
      ensures dest == Window(Text(), pos0, len0)
    {
      hide Concat, Window;
      InPool();
      dest := [];
      var node, currentPos, pos, len := head, 0, pos0, len0;
      ghost var i := 0;
      NoText(pos0, len0);
      while node >= 0 && len > 0
        invariant 0 <= i <= |nodes| && node == At(nodes, i) && (node < 0 <==> i == |nodes|)
        invariant currentPos == |TextTo(i)| && |dest| <= len0 && len == len0 - |dest| && pos == pos0 + |dest|
        invariant dest == Window(TextTo(i), pos0, len0)
        decreases |nodes| - i
      {
        TextNext(i);
        var data := pool.data[node];
        WindowGrows(TextTo(i), data, pos0, len0);
        if pos >= currentPos && pos < currentPos + |data| {
          var offset := pos - currentPos;
          var copyLen := |data| - offset;
          if copyLen > len {
            copyLen := len;
          }
          dest := dest + data[offset..offset + copyLen];
          pos := pos + copyLen;
          len := len - copyLen;
        }
        currentPos := currentPos + |data|;
        node := Next(node, i);
        i := i + 1;
      }
      TextPrefix(i);
      if len == 0 {
        WindowFull(TextTo(i), Text(), pos0, len0);
      }
    }

    lemma NoText(pos: nat, len: nat)
      requires Valid()
      ensures TextTo(0) == [] && Window([], pos, len) == []
    {
    }

    lemma TextNext(i: nat)
      requires Valid() && i < |nodes|
      ensures nodes[i] in pool.data && TextTo(i + 1) == TextTo(i) + pool.data[nodes[i]]
    {
      InPool();
      assert nodes[..i + 1] == nodes[..i] + [nodes[i]];
      ConcatSplit(pool.data, nodes[..i], [nodes[i]]);
    }

    lemma TextPrefix(i: nat)
      requires Valid() && i <= |nodes|
      ensures TextTo(i) <= Text()
    {
      InPool();
      assert nodes[..|nodes|] == nodes[..i] + nodes[i..];
      ConcatSplit(pool.data, nodes[..i], nodes[i..]);
    }
  }

  /** What another stretch of data adds to a window. */
  lemma WindowGrows(text: seq<byte>, data: seq<byte>, pos: nat, len: nat)
    ensures var got := Window(text, pos, len);
            var next := pos + |got|;
            var off := next - |text|;
            var more := if 0 <= off < |data|
              then data[off..if off + len - |got| <= |data| then off + len - |got| else |data|] else [];
            Window(text + data, pos, len) == got + more
    ensures pos + |Window(text, pos, len)| < |text| ==> |Window(text, pos, len)| == len
    ensures pos + |Window(text, pos, len)| <= |text| || Window(text, pos, len) == []
  {
  }

  /** A window that is full stays as it is. */
  lemma WindowFull(text: seq<byte>, all: seq<byte>, pos: nat, len: nat)
    requires text <= all && |Window(text, pos, len)| == len
    ensures Window(all, pos, len) == Window(text, pos, len)
  {
  }

  /** Reading a list in two windows reads it in one. */
  method FlattenTwice(l: List, pos: nat, a: nat, b: nat) returns (dest: seq<byte>)
    requires l.Valid() && |l.Text()| < 0x10000
    ensures dest == Window(l.Text(), pos, a + b)
  {
    var first := l.Flatten(pos, a);
    var second := l.Flatten(pos + a, b);
    WindowsJoin(l.Text(), pos, a, b);
    dest := first + second;
  }

  /** Reading window after window, up to the first that is not full, gives the whole text. */
  method FlattenAll(l: List, len: nat) returns (dest: seq<byte>)
    requires l.Valid() && |l.Text()| < 0x10000 && len > 0
    ensures dest == l.Text()
  {
    hide List.Text, Window;
    dest := [];
    var more := true;
    WindowStart(l.Text());
    while more
      invariant dest == Window(l.Text(), 0, |dest|) && |dest| <= |l.Text()| && (!more ==> dest == l.Text())
      decreases |l.Text()| - |dest|, more
    {
      var piece := l.Flatten(|dest|, len);
      WindowsJoin(l.Text(), 0, |dest|, len);
      WindowRest(l.Text(), |dest|, len);
      dest := dest + piece;
      more := |piece| == len;
    }
  }

  lemma WindowStart(text: seq<byte>)
    ensures Window(text, 0, 0) == []
  {
  }

  /** A window that is not full reaches the end. */
  lemma WindowRest(text: seq<byte>, pos: nat, len: nat)
    requires pos <= |text|
    ensures pos + |Window(text, pos, len)| <= |text|
    ensures Window(text, 0, pos + |Window(text, pos, len)|) == Window(text, 0, pos + len)
    ensures |Window(text, pos, len)| < len ==> Window(text, 0, pos + len) == text
  {
  }

  /** Takes the last node of one list to the head of another in the same pool: neither call disturbs
      the list that it is not about. */
  method MoveTail(from: List, to: List) returns (node: int)
    requires from != to && from.pool == to.pool && from.Valid() && to.Valid()
    requires forall i :: 0 <= i < |to.nodes| ==> to.nodes[i] !in from.nodes
    modifies from, to, from.pool`prev, from.pool`next
    ensures from.Valid() && to.Valid() && node == At(old(from.nodes), |old(from.nodes)| - 1)
    ensures if old(from.nodes) == [] then from.nodes == [] && to.nodes == old(to.nodes)
            else from.nodes == old(from.nodes)[..|old(from.nodes)| - 1] && to.nodes == [node] + old(to.nodes)
    ensures forall i :: 0 <= i < |to.nodes| ==> to.nodes[i] !in from.nodes
  {
    hide Chain, SameBut;
    ghost var pool, nodes0, to0 := from.pool, from.nodes, to.nodes;
    from.InPool();
    to.InPool();
    node := from.RemoveTail();
    OtherChain(old(pool.prev), old(pool.next), pool.prev, pool.next, to0, nodes0);
    if node >= 0 {
      ChainDistinct(old(pool.prev), old(pool.next), nodes0);
      ghost var prev1, next1 := pool.prev, pool.next;
      to.InsertHead(node);
      OtherChain(prev1, next1, pool.prev, pool.next, from.nodes, to.nodes);
    }
  }

  lemma ChainDistinct(prev: map<int, int>, next: map<int, int>, nodes: seq<int>)
    requires Chain(prev, next, nodes) && nodes != []
    ensures nodes[|nodes| - 1] !in nodes[..|nodes| - 1]
  {
  }
}
