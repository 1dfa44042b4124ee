/** What a write costs.  The free slots of a file's blocks and the number of its pages decide, before
    a write starts, how many free blocks it will take, and so whether it can be finished. */
module FfsCost {
  import opened FfsLayout

  /** The free slots of each block of a file, and how many pages the file has. */
  datatype Room = Room(slots: seq<nat>, pages: nat)

  /** A new file has its two meta pages in a block of its own. */
  function NewFileRoom(): (r: Room)
    ensures r.pages == 2 && |r.slots| == 1
  {
    Room([SLOTS - 2], 2)
  }

  /** How many of a file's pages block k holds. */
  function PagesHeld(pages: nat, k: nat): (r: nat)
    ensures r <= 51
  {
    if pages <= 51 * k then 0 else if pages <= 51 * k + 51 then pages - 51 * k else 51
  }

  function PageCount(size: nat): nat { (size + 63) / 64 }

  /** The block of a file that page p belongs to. */
  function BlockOf(p: nat): nat { p / 51 }

  /** Page p needs another block: the file's next one, or one to replace a full block. */
  predicate Needs(r: Room, p: nat) {
    BlockOf(p) >= |r.slots| || r.slots[BlockOf(p)] == 0
  }

  /** The free slots when there is one for page p.  A replacement keeps one version of each page that
      the block holds, and so frees the slots of all superseded ones. */
  function Made(r: Room, p: nat): (slots: seq<nat>)
    requires BlockOf(p) <= |r.slots|
    ensures BlockOf(p) < |slots| && slots[BlockOf(p)] > 0
  {
    if BlockOf(p) == |r.slots| then r.slots + [SLOTS]
    else if r.slots[BlockOf(p)] == 0 then r.slots[BlockOf(p) := SLOTS - PagesHeld(r.pages, BlockOf(p))]
    else r.slots
  }

  /** The room after page p is written. */
  function Used(r: Room, p: nat): (r': Room)
    requires BlockOf(p) <= |r.slots|
    ensures |r'.slots| >= |r.slots| && BlockOf(p) < |r'.slots|
  {
    var slots := Made(r, p);
    Room(slots[BlockOf(p) := slots[BlockOf(p)] - 1], if r.pages <= p then p + 1 else r.pages)
  }

  /** The room after m pages from p on are written. */
  function RoomAfter(r: Room, p: nat, m: nat): (r': Room)
    requires BlockOf(p) <= |r.slots|
    ensures BlockOf(p + m) <= |r'.slots|
  {
    if m == 0 then r else Used(RoomAfter(r, p, m - 1), p + m - 1)
  }

  /** How many free blocks it takes to write m pages from p on. */
  function Cost(r: Room, p: nat, m: nat): (c: nat)
    requires BlockOf(p) <= |r.slots|
    ensures c <= m
  {
    if m == 0 then 0
    else Cost(r, p, m - 1) + if Needs(RoomAfter(r, p, m - 1), p + m - 1) then 1 else 0
  }

  lemma CostStep(r: Room, p: nat, m: nat)
    requires BlockOf(p) <= |r.slots|
    ensures Cost(r, p, 0) == 0 && RoomAfter(r, p, 0) == r
    ensures Cost(r, p, m + 1) == Cost(r, p, m) + if Needs(RoomAfter(r, p, m), p + m) then 1 else 0
    ensures BlockOf(p + m) <= |RoomAfter(r, p, m).slots| && RoomAfter(r, p, m + 1) == Used(RoomAfter(r, p, m), p + m)
  {
    hide Needs, Used, BlockOf;
  }

  /** More pages never cost less. */
  lemma {:induction false} CostGrows(r: Room, p: nat, m: nat, n: nat)
    requires BlockOf(p) <= |r.slots| && m <= n
    ensures Cost(r, p, m) <= Cost(r, p, n)
  {
    hide Used, Needs, BlockOf;
    if m < n {
      CostGrows(r, p, m, n - 1);
    }
  }

  /** While the pages stay in one block that has slots for them, they cost nothing. */
  lemma {:induction false} CostWithin(r: Room, p: nat, m: nat)
    requires BlockOf(p) < |r.slots| && m <= r.slots[BlockOf(p)] && p % 51 + m <= 51
    ensures Cost(r, p, m) == 0
    ensures RoomAfter(r, p, m).slots == r.slots[BlockOf(p) := r.slots[BlockOf(p)] - m]
  {
    InBlock(r, p, m, BlockOf(p));
  }

  /** The same with the block and its slots named. */
  lemma {:induction false} InBlock(r: Room, p: nat, m: nat, b: nat)
    requires BlockOf(p) <= |r.slots| && b < |r.slots| && m <= r.slots[b]
    requires forall i: nat {:trigger BlockOf(i)} | p <= i < p + m :: BlockOf(i) == b
    ensures Cost(r, p, m) == 0 && RoomAfter(r, p, m).slots == r.slots[b := r.slots[b] - m]
  {
    hide BlockOf, Cost, RoomAfter, Needs, Used;
    if m == 0 {
      CostStep(r, p, 0);
    } else {
      InBlock(r, p, m - 1, b);
      CostStep(r, p, m - 1);
      UsedSlot(RoomAfter(r, p, m - 1), p + m - 1);
    }
  }

  /** A page whose block has a slot takes that one. */
  lemma UsedSlot(r: Room, p: nat)
    requires BlockOf(p) < |r.slots| && r.slots[BlockOf(p)] > 0
    ensures !Needs(r, p) && Used(r, p).slots == r.slots[BlockOf(p) := r.slots[BlockOf(p)] - 1]
  {
    hide BlockOf;
  }

  /** A file that has only its two meta pages takes a free block for every 51 pages more. */
  lemma {:induction false} CostOfNew(m: nat)
    ensures var r, after := NewFileRoom(), RoomAfter(NewFileRoom(), 2, m);
            && Cost(r, 2, m) == (m + 1) / 51 && NewRoom(after, (m + 1) / 51, (m + 1) % 51)
  {
    hide Needs, Used, NewRoom;
    CostStep(NewFileRoom(), 2, 0);
    if m == 0 {
      NewRoomStarts();
    } else {
      hide Cost, RoomAfter;
      var r, q, c := NewFileRoom(), m / 51, m % 51;
      CostOfNew(m - 1);
      CostStep(r, 2, m - 1);
      NewRoomNext(RoomAfter(r, 2, m - 1), q, c);
      assert if c < 50 then (m + 1) / 51 == q && (m + 1) % 51 == c + 1 else (m + 1) / 51 == q + 1 && (m + 1) % 51 == 0;
    }
  }

  /** The room of a file of 51q + c + 1 pages, each written once. */
  predicate NewRoom(r: Room, q: nat, c: nat) {
    c < 51 && r.pages == 51 * q + c + 1 && |r.slots| == q + 1 && r.slots[q] == SLOTS - 1 - c
  }

  lemma NewRoomStarts()
    ensures NewRoom(NewFileRoom(), 0, 1)
  {
  }

  lemma NewRoomNext(r: Room, q: nat, c: nat)
    requires NewRoom(r, q, c)
    ensures var p := 51 * q + c + 1;
            && BlockOf(p) <= |r.slots| && (Needs(r, p) <==> c == 50)
            && NewRoom(Used(r, p), if c < 50 then q else q + 1, if c < 50 then c + 1 else 0)
  {
    assert BlockOf(51 * q + c + 1) == if c < 50 then q else q + 1;
    hide BlockOf, PagesHeld;
  }
}
