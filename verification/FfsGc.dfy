/** ffs_gc.c: the garbage collector.  It erases the dirty blocks one by one and records each erase
    in a file of 32-bit counters; that write may itself leave a new dirty block behind.  Now and
    then the wear leveler replaces the file block that has been erased least. */
module FfsGc {
  import opened Bytes
  import opened Integers
  import opened FfsLayout
  import opened FfsLists
  import opened FfsFile
  import opened FfsCost
  import opened FfsStore
  import opened FfsBlock
  import opened FfsPage
  import opened FlashFs

  const DIRTY_THRESHOLD := 8
  const WEAR_CHECK_THRESHOLD := 64
  const WEAR_THRESHOLD := 1024

  /** Counter b of the file, little-endian. */
  function Count(counts: seq<byte>, b: nat): (r: nat)
    requires 4 * b + 4 <= |counts|
    ensures r <= 0xffffffff
  {
    Word(counts[4 * b..4 * b + 4])
  }

  /** Adding one to counter b, as a 32-bit word, and to no other. */
  ghost predicate Counted(counts: seq<byte>, counts': seq<byte>, recorded: seq<int>) {
    && |counts'| == |counts|
    && forall b: nat {:trigger Count(counts', b)} | 4 * b + 4 <= |counts| ::
         Count(counts', b) == (Count(counts, b) + multiset(recorded)[b]) % 0x1_0000_0000
  }

  /** A page of a file's first block costs a slot, or a block that brings at least seven. */
  lemma OnePageCost(room: Room, p: nat)
    requires p < 51 && |room.slots| > 0
    ensures Cost(room, p, 1) == if room.slots[0] == 0 then 1 else 0
    ensures var after := RoomAfter(room, p, 1).slots;
            after != [] && after[0] >= if room.slots[0] > 0 then room.slots[0] - 1 else SPARE_PAGES - 1
  {
    assert RoomAfter(room, p, 0) == room && Cost(room, p, 0) == 0;
  }

  /** Of the erased blocks those whose erase could be recorded, in order. */
  function Opened(erased: seq<nat>, opens: nat -> bool): (r: seq<int>) {
    if erased == [] then []
    else
      var before := Opened(erased[..|erased| - 1], opens);
      if opens(|erased| - 1) then before + [erased[|erased| - 1]] else before
  }

  lemma CountedNone(counts: seq<byte>, opens: nat -> bool)
    ensures Counted(counts, counts, Opened([], opens))
  {
  }

  lemma CountedNext(counts: seq<byte>, counts1: seq<byte>, recorded: seq<int>, b: nat, w: seq<byte>)
    requires Counted(counts, counts1, recorded) && 4 * b + 4 <= |counts| && |w| == 4
    requires Word(w) == (Count(counts1, b) + 1) % 0x1_0000_0000
    ensures Counted(counts, Splice(counts1, 4 * b, w), recorded + [b])
  {
    hide Word;
    var counts2 := Splice(counts1, 4 * b, w);
    forall c: nat | 4 * c + 4 <= |counts|
      ensures Count(counts2, c) == (Count(counts, c) + multiset(recorded + [b])[c]) % 0x1_0000_0000
    {
      assert Count(counts1, c) == (Count(counts, c) + multiset(recorded)[c]) % 0x1_0000_0000;
      if c == b {
        assert counts2[4 * c..4 * c + 4] == w;
      } else {
        assert counts2[4 * c..4 * c + 4] == counts1[4 * c..4 * c + 4];
      }
    }
  }

  /** One erase more, recorded or not. */
  lemma CountedStep(counts: seq<byte>, counts0: seq<byte>, counts1: seq<byte>, erased: seq<nat>, opens: nat -> bool,
                    b: nat)
    requires Counted(counts, counts0, Opened(erased, opens)) && 4 * b + 4 <= |counts| == |counts0|
    requires counts1
             == if opens(|erased|) then Splice(counts0, 4 * b, WordBytes((Count(counts0, b) + 1) % 0x1_0000_0000))
                else counts0
    ensures Counted(counts, counts1, Opened(erased + [b], opens))
  {
    hide Counted, Opened, WordBytes, Word, Splice;
    OpenedNext(erased, opens, b);
    if opens(|erased|) {
      CountedNext(counts, counts0, Opened(erased, opens), b, WordBytes((Count(counts0, b) + 1) % 0x1_0000_0000));
    }
  }

  /** The blocks dirty at the start are erased first. */
  lemma ErasedNext(dirty0: seq<int>, erased: seq<nat>, dirty: seq<int>, dirty': seq<int>)
    requires dirty0 <= erased + dirty && dirty != [] && dirty[1..] <= dirty' && dirty[0] >= 0
    ensures dirty0 <= erased + [dirty[0]] + dirty'
  {
    assert erased + dirty == erased + [dirty[0]] + dirty[1..];
  }

  /** Block b has the lowest count and is the first with it; the highest exceeds it by `spread`. */
  ghost predicate LeastWorn(counts: seq<byte>, total: nat, b: nat, spread: nat) {
    && |counts| == 4 * total && b < total
    && (forall c: nat | c < total :: Count(counts, b) <= Count(counts, c) <= Count(counts, b) + spread)
    && (forall c: nat | c < b :: Count(counts, c) != Count(counts, b))
    && (exists c: nat | c < total :: Count(counts, c) == Count(counts, b) + spread)
  }

  /** Block k of file f has been copied to a free one. */
  function Renewed(d: Disk, f: nat, k: nat): (d': Disk)
    requires d.Shaped() && f < MAX_FILES && k < |d.rooms[f].slots| && d.free > 0
    ensures d'.Shaped()
  {
    var r := d.rooms[f];
    d.(rooms := d.rooms[f := Room(r.slots[k := SLOTS - PagesHeld(r.pages, k)], r.pages)], free := d.free - 1)
  }

  /** The first free block has taken the place of block b in the list of some file. */
  ghost predicate Moved(c: Chains, c': Chains, b: int, d: Disk, d': Disk) {
    && |c| == LISTS && c[FREE] != [] && d.Shaped() && d.free > 0
    && exists f: nat, k: nat | f < MAX_FILES && k < |FileList(c, f)| && k < |d.rooms[f].slots| ::
         FileList(c, f)[k] == b && c' == AfterReplace(c, f, k) && d' == Renewed(d, f, k)
  }

  /** Nothing but file f has changed, and its meta pages have not. */
  ghost predicate OnlyFile(d: Disk, d': Disk, f: nat) {
    && d.Shaped() && d'.Shaped() && f < MAX_FILES
    && d'.files == d.files[f := d'.files[f]] && d'.metas == d.metas && d'.rooms == d.rooms[f := d'.rooms[f]]
  }

  // ----- The counters of a new file, written one by one -----

  function CountersRoom(r: Room, n: nat): (r': Room)
    requires n <= 784
  {
    if n == 0 then r else RoomAfter(CountersRoom(r, n - 1), FilePage(4 * (n - 1)), 1)
  }

  /** How many free blocks it takes to write n counters. */
  function CountersCost(r: Room, n: nat): nat
    requires n <= 784
  {
    if n == 0 then 0 else CountersCost(r, n - 1) + Cost(CountersRoom(r, n - 1), FilePage(4 * (n - 1)), 1)
  }

  lemma {:induction false} CountersGrow(r: Room, m: nat, n: nat)
    requires m <= n <= 784
    ensures CountersCost(r, m) <= CountersCost(r, n)
  {
    if m < n {
      CountersGrow(r, m, n - 1);
    }
  }

  function Zeros(n: nat): (r: seq<byte>)
    ensures |r| == n
  {
    seq(n, _ => 0)
  }

  /** The first n counters are in the file, all zero. */
  function Counters(d: Disk, f: nat, n: nat): (d': Disk)
    requires d.Shaped() && f < MAX_FILES && n <= 784 && CountersCost(d.rooms[f], n) <= d.free
    ensures d'.Shaped()
  {
    Disk(d.files[f := Some(Zeros(4 * n))], d.metas, d.rooms[f := CountersRoom(d.rooms[f], n)],
         d.free - CountersCost(d.rooms[f], n))
  }

  lemma NoCounters(d: Disk, f: nat)
    requires d.Shaped() && f < MAX_FILES && d.files[f] == Some([])
    ensures CountersCost(d.rooms[f], 0) == 0 && Counters(d, f, 0) == d
  {
    assert Zeros(0) == [];
  }

  /** One more: a write that touches one page. */
  lemma NextCounter(d: Disk, f: nat, n: nat, o: Outcome, d': Disk)
    requires d.Shaped() && f < MAX_FILES && n < 784 && CountersCost(d.rooms[f], n) <= d.free
    requires var c, p := Counters(d, f, n), FilePage(4 * n);
             && BlockOf(p) <= |c.rooms[f].slots| && PagesTouched(4 * n, 4) == 1
             && (o.Returned? <==> Cost(c.rooms[f], p, 1) <= c.free)
             && (o.Returned? ==> d' == Written(c, f, 4 * n, Zeros(4), 1))
             && (o.AssertFailed? ==>
                   exists m: nat | m < 1 && Stops(c.rooms[f], p, m, c.free) :: d' == Written(c, f, 4 * n, Zeros(4), m))
    ensures o.Returned? <==> CountersCost(d.rooms[f], n + 1) <= d.free
    ensures d' == Counters(d, f, if o.Returned? then n + 1 else n)
  {
    hide Cost, RoomAfter, Needs;
    var c, p := Counters(d, f, n), FilePage(4 * n);
    CostStep(c.rooms[f], p, 0);
    assert Splice(Zeros(4 * n), 4 * n, Zeros(4)[..0]) == Zeros(4 * n);
    assert Splice(Zeros(4 * n), 4 * n, Zeros(4)[..4]) == Zeros(4 * (n + 1));
  }

  lemma CountersFile(d: Disk, f: nat, n: nat)
    requires d.Shaped() && f < MAX_FILES && n < 784 && CountersCost(d.rooms[f], n) <= d.free
    ensures var c := Counters(d, f, n);
            c.files[f] == Some(Zeros(4 * n)) && PagesTouched(4 * n, 4) == 1
  {
    hide CountersCost, CountersRoom, Zeros;
  }

  /** An erase changes the number of free blocks only. */
  lemma FreedOnly(d: Disk, d': Disk, d'': Disk, f: nat)
    requires OnlyFile(d, d', f) && d'' == d'.(free := d'.free + 1)
    ensures OnlyFile(d, d'', f) && FirstSlots(d'', f) == FirstSlots(d', f)
  {
  }

  lemma OnlySelf(d: Disk, f: nat)
    requires d.Shaped() && f < MAX_FILES
    ensures OnlyFile(d, d, f)
  {
    assert d.files == d.files[f := d.files[f]] && d.rooms == d.rooms[f := d.rooms[f]];
  }

  lemma OnlySizes(d: Disk, d': Disk, f: nat)
    requires OnlyFile(d, d', f) && d.files[f].Some? && d'.files[f].Some? && |d'.files[f].value| == |d.files[f].value|
    ensures forall g: nat | g < MAX_FILES ::
              && (d'.files[g].Some? <==> d.files[g].Some?)
              && (d.files[g].Some? ==> |d'.files[g].value| == |d.files[g].value|)
  {
  }

  lemma OnlyThen(d: Disk, d': Disk, d'': Disk, f: nat)
    requires OnlyFile(d, d', f) && OnlyFile(d', d'', f)
    ensures OnlyFile(d, d'', f)
  {
  }

  lemma ZeroWord()
    ensures WordBytes(0) == Zeros(4)
  {
  }

  lemma FreeTaken(c: Chains, f: nat, k: nat)
    requires |c| == LISTS && f < MAX_FILES && k < |FileList(c, f)| && c[FREE] != []
    ensures |AfterReplace(c, f, k)[FREE]| == |c[FREE]| - 1
  {
  }

  lemma ZeroCounts(n: nat)
    ensures forall b: nat | b < n :: Count(Zeros(4 * n), b) == 0
  {
    forall b: nat | b < n ensures Count(Zeros(4 * n), b) == 0 {
      assert Zeros(4 * n)[4 * b..4 * b + 4] == Zeros(4);
    }
  }

  /** What bounds the erases still to come: eight for a dirty block, less the free slots that the
      counter file's block has, of which a replacement brings at least seven. */
  function Debt(dirty: nat, slots: nat): (r: int)
    ensures 8 * dirty <= r <= 8 * dirty + 7
  {
    8 * dirty + 7 - if slots < 7 then slots else 7
  }

  lemma OpenedNext(erased: seq<nat>, opens: nat -> bool, block: nat)
    ensures var before := Opened(erased, opens);
            Opened(erased + [block], opens) == if opens(|erased|) then before + [block] else before
  {
    assert (erased + [block])[..|erased|] == erased;
  }

  /** Files of the same lengths take the same number of blocks. */
  lemma SameFiles(c: Chains, c': Chains)
    requires |c| == |c'| == LISTS && forall f: nat | f < MAX_FILES :: |FileList(c, f)| == |FileList(c', f)|
    ensures Total(c[FIRST_FILE..]) == Total(c'[FIRST_FILE..])
  {
    var a, b := c[FIRST_FILE..], c'[FIRST_FILE..];
    forall i | 0 <= i < |a| ensures |a[i]| == |b[i]| {
      assert a[i] == FileList(c, i) && b[i] == FileList(c', i);
    }
    TotalSame(a, b);
  }

  lemma ErasedFirst(c: Chains)
    requires |c| == LISTS && c[DIRTY] != []
    ensures AfterErase(c)[DIRTY] == c[DIRTY][1..] && AfterErase(c)[FREE] == c[FREE] + [c[DIRTY][0]]
    ensures forall f: nat | f < MAX_FILES :: FileList(AfterErase(c), f) == FileList(c, f)
  {
  }

  /** How many slots are free in the first block of a file. */
  function FirstSlots(d: Disk, f: nat): nat {
    if f < |d.rooms| && d.rooms[f].slots != [] then d.rooms[f].slots[0] else 0
  }

  /** A counter is in the first block of its file. */
  lemma RecordCost(d: Disk, gc: nat, block: nat)
    requires d.Sized() && gc < MAX_FILES && d.files[gc].Some? && 4 * block + 4 <= |d.files[gc].value| && block < 784
    ensures FilePage(4 * block) / 51 == 0 && BlockOf(FilePage(4 * block)) == 0 < |d.rooms[gc].slots|
    ensures PagesTouched(4 * block, 4) == 1 && OnePage(4 * block, 4)
    ensures Cost(d.rooms[gc], FilePage(4 * block), 1) == if FirstSlots(d, gc) == 0 then 1 else 0
  {
    assert BlockCount(FILE_META_SIZE + |d.files[gc].value|) > 0;
    OnePageCost(d.rooms[gc], FilePage(4 * block));
  }

  lemma RecordWritten(d: Disk, gc: nat, block: nat, w: seq<byte>)
    requires d.Sized() && gc < MAX_FILES && d.files[gc].Some? && 4 * block + 4 <= |d.files[gc].value| && block < 784
    requires |w| == 4 && Cost(d.rooms[gc], FilePage(4 * block), 1) <= d.free
    ensures BlockOf(FilePage(4 * block)) <= |d.rooms[gc].slots|
    ensures var d', slots := Written(d, gc, 4 * block, w, 1), FirstSlots(d, gc);
            && OnlyFile(d, d', gc) && d'.rooms[gc] == RoomAfter(d.rooms[gc], FilePage(4 * block), 1)
            && d'.free == d.free - (if slots == 0 then 1 else 0)
            && FirstSlots(d', gc) >= (if slots > 0 then slots - 1 else SPARE_PAGES - 1)
            && d'.files[gc] == Some(Splice(d.files[gc].value, 4 * block, w))
  {
    RecordCost(d, gc, block);
    hide Cost, RoomAfter, Splice, Disk.Sized;
    OnePageCost(d.rooms[gc], FilePage(4 * block));
    assert w[..Reach(4 * block, 4, 1)] == w;
  }

  class GarbageCollector {
    const fs: FlashFs
    var passes: nat

    constructor (fs: FlashFs)
      ensures this.fs == fs && passes == 0
    {
      this.fs, passes := fs, 0;
    }

    /** File gc is the counter file, with one counter for every block. */
    ghost predicate Ready(gc: nat)
      reads fs.pages, fs.pages.files, fs.pages.blk, fs.pages.blk.next, fs.pages.blk.chip.mem
    {
      && fs.Valid() && gc < MAX_FILES && fs.Files()[gc].Some?
      && |fs.Files()[gc].value| == 4 * fs.pages.blk.total
    }

    /** Erases the first dirty block, which becomes the last free one. */
    method EraseOne() returns (block: nat)
      requires fs.Valid() && |fs.pages.blk.chains| == LISTS && fs.pages.blk.chains[DIRTY] != []
      modifies fs.pages.blk, fs.pages.blk.next, fs.pages.blk.chip.mem
      ensures fs.Valid() && |old(fs.pages.blk.chains)| == LISTS
      ensures block == old(fs.pages.blk.chains)[DIRTY][0] < fs.pages.blk.total
      ensures fs.pages.blk.chains == AfterErase(old(fs.pages.blk.chains))
      ensures fs.State() == old(fs.State()).(free := old(fs.State()).free + 1)
    {
      hide BlockDriver.FlashShown, BlockDriver.ListsHeld, BlockDriver.CacheCoherent, Stored, Coherent, Covering, Listed,
           AllFree, FreeSlots, RoomsOf, MetasOf, Visible;
      var pages := fs.pages;
      ghost var views0, chains0 := pages.blk.views, pages.blk.chains;
      pages.blk.Apart();
      pages.blk.InRange(DIRTY);
      EraseStored(views0, chains0, pages.sizes, pages.raws);
      CoherentErased(views0, chains0, pages.sizes, pages.raws, pages.cacheFile, pages.cacheNumber, pages.cachePage,
                     BlankBlock());
      EraseSlots(views0, chains0, BlankBlock());
      EraseKeeps(chains0);
      KeepsCovering(chains0, AfterErase(chains0), pages.blk.total);
      var b := pages.blk.GetDirty();
      pages.blk.Erase(b);
      assert pages.blk.chains == AfterErase(chains0);
      block := b;
    }

    /** Adds one to the erase counter of a block.  A free block is enough to be sure of it. */
    method Record(gc: nat, block: nat)
      requires Ready(gc) && block < fs.pages.blk.total && fs.pages.blk.chains[FREE] != []
      modifies fs.pages, fs.pages.files, fs.pages.blk, fs.pages.blk.next, fs.pages.blk.chip.mem
      ensures Ready(gc) && |old(fs.pages.blk.chains)| == LISTS
      ensures var count := (Count(old(fs.Files())[gc].value, block) + 1) % 0x1_0000_0000;
              fs.Files()[gc] == Some(Splice(old(fs.Files())[gc].value, 4 * block, WordBytes(count)))
      ensures OnlyFile(old(fs.State()), fs.State(), gc)
      ensures fs.State().rooms[gc] == RoomAfter(old(fs.State()).rooms[gc], FilePage(4 * block), 1)
      ensures var slots := FirstSlots(old(fs.State()), gc);
              && fs.State().free == old(fs.State()).free - (if slots == 0 then 1 else 0)
              && FirstSlots(fs.State(), gc) >= if slots > 0 then slots - 1 else SPARE_PAGES - 1
      ensures WriteStep(old(fs.pages.blk.chains), fs.pages.blk.chains, gc, 0)
      ensures fs.pages.blk.chains != old(fs.pages.blk.chains) <==> FirstSlots(old(fs.State()), gc) == 0
    {
      hide PageDriver.Valid, PageDriver.RoomOf, PageDriver.FreeOf, WriteStep, WordBytes, Word, Cost, RoomAfter,
           FlashFs.State, Visible, Stops, BlockOf, Written, Splice, FirstSlots, OnlyFile, FilePage;
      fs.pages.Facts();
      ghost var counts, d := fs.Files()[gc].value, fs.State();
      var o, data := fs.Read(gc, 4 * block, 4);
      var eraseCount := (Word(data) + 1) % 0x1_0000_0000;
      assert data == counts[4 * block..4 * block + 4];
      fs.StateSized();
      RecordCost(d, gc, block);
      ghost var chains0 := fs.pages.blk.chains;
      o := fs.Write(gc, 4 * block, WordBytes(eraseCount));
      RecordWritten(d, gc, block, WordBytes(eraseCount));
      StepCost(chains0, fs.pages.blk.chains, gc, 0);
    }

    /** Erases dirty blocks until none is left, recording the i-th erase when the counter file can
        be opened, which the caller's `opens(i)` stands for.  Every file keeps its size, and every
        file but the counters its bytes.  The write that records an erase can spoil a block of its
        own, but not often enough to go on forever: with d dirty blocks at the start there are at
        most (8 d + 7) / 7 erases. */
    method Drain(gc: nat, opens: nat -> bool) returns (ghost erased: seq<nat>)
      requires Ready(gc)
      modifies fs.pages, fs.pages.files, fs.pages.blk, fs.pages.blk.next, fs.pages.blk.chip.mem
      ensures Ready(gc) && |old(fs.pages.blk.chains)| == LISTS
      ensures fs.pages.blk.chains[DIRTY] == [] && OnlyFile(old(fs.State()), fs.State(), gc) && fs.State().Sized()
      ensures fs.State().free == old(fs.State()).free + |old(fs.pages.blk.chains)[DIRTY]|
      ensures Counted(old(fs.Files())[gc].value, fs.Files()[gc].value, Opened(erased, opens))
      ensures old(fs.pages.blk.chains)[DIRTY] <= erased
      ensures 7 * |erased| <= 8 * |old(fs.pages.blk.chains)[DIRTY]| + 7
      ensures 7 * |erased| <= Debt(|old(fs.pages.blk.chains)[DIRTY]|, FirstSlots(old(fs.State()), gc))
      ensures forall f: nat | f < MAX_FILES ::
                |FileList(fs.pages.blk.chains, f)| == |FileList(old(fs.pages.blk.chains), f)|
    {
      hide PageDriver.Valid, Counted, BlockCount, Opened, FlashFs.State, OnlyFile, Disk.Sized, Debt;
      ghost var chains0, d := fs.pages.blk.chains, fs.State();
      fs.BlockCounts();
      fs.pages.Conserved();
      erased := EraseAll(gc, opens);
      OnlySizes(d, fs.State(), gc);
      fs.BlockCounts();
      fs.StateSized();
      fs.pages.Conserved();
      SameFiles(chains0, fs.pages.blk.chains);
    }

    /** The loop. */
    method EraseAll(gc: nat, opens: nat -> bool) returns (ghost erased: seq<nat>)
      requires Ready(gc)
      modifies fs.pages, fs.pages.files, fs.pages.blk, fs.pages.blk.next, fs.pages.blk.chip.mem
      ensures Ready(gc) && |old(fs.pages.blk.chains)| == LISTS
      ensures fs.pages.blk.chains[DIRTY] == [] && OnlyFile(old(fs.State()), fs.State(), gc)
      ensures Counted(old(fs.Files())[gc].value, fs.Files()[gc].value, Opened(erased, opens))
      ensures old(fs.pages.blk.chains)[DIRTY] <= erased
      ensures 7 * |erased| <= Debt(|old(fs.pages.blk.chains)[DIRTY]|, FirstSlots(old(fs.State()), gc))
    {
      hide PageDriver.Valid, Counted, Opened, FirstSlots, FlashFs.State, FlashFs.Files, OnlyFile, Splice, WordBytes,
           Word, Debt;
      ghost var counts, d := fs.Files()[gc].value, fs.State();
      ghost var chains0 := fs.pages.blk.chains;
      CountedNone(counts, opens);
      OnlySelf(d, gc);
      erased := [];
      var n := 0;
      var blk := fs.pages.blk;
      fs.pages.ListFacts();
      while blk.dirtyBlocks > 0
        invariant n == |erased| && Ready(gc) && OnlyFile(d, fs.State(), gc)
        invariant Counted(counts, fs.Files()[gc].value, Opened(erased, opens))
        invariant chains0[DIRTY] <= erased + blk.chains[DIRTY] && blk.dirtyBlocks == |blk.chains[DIRTY]|
        invariant 7 * |erased| + Debt(|blk.chains[DIRTY]|, FirstSlots(fs.State(), gc))
                  <= Debt(|chains0[DIRTY]|, FirstSlots(d, gc))
        decreases Debt(|blk.chains[DIRTY]|, FirstSlots(fs.State(), gc))
      {
        ghost var dirty, d0, counts0 := blk.chains[DIRTY], fs.State(), fs.Files()[gc].value;
        var block := EraseAndRecord(gc, opens(n));
        OnlyThen(d, d0, fs.State(), gc);
        ErasedNext(chains0[DIRTY], erased, dirty, blk.chains[DIRTY]);
        CountedStep(counts, counts0, fs.Files()[gc].value, erased, opens, block);
        erased := erased + [block];
        n := n + 1;
      }
    }

    /** Erases the first dirty block and, if it can, records that.  Even if recording leaves another
        dirty block, less is owed. */
    method EraseAndRecord(gc: nat, open: bool) returns (block: nat)
      requires Ready(gc) && |fs.pages.blk.chains| == LISTS && fs.pages.blk.chains[DIRTY] != []
      modifies fs.pages, fs.pages.files, fs.pages.blk, fs.pages.blk.next, fs.pages.blk.chip.mem
      ensures Ready(gc) && OnlyFile(old(fs.State()), fs.State(), gc)
      ensures block == old(fs.pages.blk.chains)[DIRTY][0] < fs.pages.blk.total
      ensures old(fs.pages.blk.chains)[DIRTY][1..] <= fs.pages.blk.chains[DIRTY]
      ensures fs.pages.blk.dirtyBlocks == |fs.pages.blk.chains[DIRTY]|
      ensures var counts := old(fs.Files())[gc].value;
              fs.Files()[gc].value
              == if open then Splice(counts, 4 * block, WordBytes((Count(counts, block) + 1) % 0x1_0000_0000))
                else counts
      ensures 7 + Debt(|fs.pages.blk.chains[DIRTY]|, FirstSlots(fs.State(), gc))
              <= Debt(|old(fs.pages.blk.chains)[DIRTY]|, FirstSlots(old(fs.State()), gc))
    {
      hide PageDriver.Valid, Count, AfterErase, WriteStep, WordBytes, Splice, FirstSlots, FlashFs.State, OnlyFile,
           RoomAfter, PageDriver.RoomOf, PageDriver.FreeOf, FlashFs.Files, FilePage, Word;
      ghost var chains0, d := fs.pages.blk.chains, fs.State();
      block := EraseOne();
      OnlySelf(d, gc);
      FreedOnly(d, d, fs.State(), gc);
      ErasedFirst(chains0);
      if open {
        ghost var chains1, d1 := fs.pages.blk.chains, fs.State();
        Record(gc, block);
        OnlyThen(d, d1, fs.State(), gc);
        StepTakesOne(chains1, fs.pages.blk.chains, gc, 0);
      }
      fs.pages.ListFacts();
    }

    /** One counter per block, all zero, if the file is still empty.  What the counters cost is known
        beforehand; the system halts at the first for which no block is left. */
    method Prepare(gc: nat) returns (o: Outcome, ghost n: nat)
      requires fs.Valid() && gc < MAX_FILES && fs.Files()[gc].Some?
      modifies fs.pages, fs.pages.files, fs.pages.blk, fs.pages.blk.next, fs.pages.blk.chip.mem
      ensures fs.Valid() && |old(fs.pages.blk.chains)| == LISTS && fs.pages.blk.total < 784
      ensures o.Returned? ==> o.status == STATUS_OK
      ensures old(fs.Files())[gc].value != [] ==> o.Returned? && fs.State() == old(fs.State())
      ensures old(fs.Files())[gc].value == [] ==>
                var d, total := old(fs.State()), fs.pages.blk.total;
                && (o.Returned? <==> CountersCost(d.rooms[gc], total) <= d.free)
                && n <= total && CountersCost(d.rooms[gc], n) <= d.free && fs.State() == Counters(d, gc, n)
                && (o.Returned? ==>
                      n == total && Ready(gc) && forall b: nat | b < total :: Count(fs.Files()[gc].value, b) == 0)
                && (o.AssertFailed? ==> n < total && CountersCost(d.rooms[gc], n + 1) > d.free)
    {
      hide PageDriver.Valid, Word, WordBytes, Cost, RoomAfter, Needs, Stops, Reach, WriteStep, BlockOf, FilePage,
           PagesTouched, PageDriver.RoomOf, Counters, Written, CountersRoom, CountersCost, FlashFs.State, FlashFs.Files;
      o, n := Returned(STATUS_OK), 0;
      fs.pages.Facts();
      ghost var d := fs.State();
      var size := fs.GetFileSize(gc);
      if size == 0 {
        NoCounters(d, gc);
        var zero := WordBytes(0);
        ZeroWord();
        for i := 0 to fs.pages.blk.total
          invariant fs.Valid() && o == Returned(STATUS_OK) && n == i
          invariant CountersCost(d.rooms[gc], n) <= d.free && fs.State() == Counters(d, gc, n)
        {
          CountersFile(d, gc, n);
          o := fs.Write(gc, 4 * i, zero);
          NextCounter(d, gc, n, o, fs.State());
          if o.AssertFailed? {
            CountersGrow(d.rooms[gc], n + 1, fs.pages.blk.total);
            return;
          }
          o, n := Returned(STATUS_OK), n + 1;
        }
        CountersFile(d, gc, n);
        ZeroCounts(n);
      }
    }

    /** The least worn block, the first of them, and how far the most worn is ahead of it. */
    method Extremes(counts: seq<byte>) returns (lowest: nat, spread: nat)
      requires fs.pages.blk.total > 0 && |counts| == 4 * fs.pages.blk.total
      ensures LeastWorn(counts, fs.pages.blk.total, lowest, spread)
    {
      hide Word;
      var highestCount, lowestCount := 0, 0xffffffff;
      lowest := 0;
      ghost var top := 0;
      for i := 0 to fs.pages.blk.total
        invariant lowest <= i && lowest < fs.pages.blk.total && top < fs.pages.blk.total
        invariant forall b: nat | b < i :: lowestCount <= Count(counts, b) <= highestCount
        invariant forall b: nat | b < lowest :: lowestCount < Count(counts, b)
        invariant if lowestCount == 0xffffffff then lowest == 0 else Count(counts, lowest) == lowestCount
        invariant if i == 0 then highestCount == 0 == top else Count(counts, top) == highestCount
      {
        if Count(counts, i) > highestCount {
          highestCount := Count(counts, i);
          top := i;
        }
        if Count(counts, i) < lowestCount {
          lowestCount := Count(counts, i);
          lowest := i;
        }
      }
      assert Count(counts, lowest) == lowestCount;
      spread := highestCount - lowestCount;
    }

    /** What a look at the wear does to the lists c and the state d. */
    ghost predicate Leveled(c: Chains, c': Chains, d: Disk, d': Disk, gc: nat, lowest: nat, spread: nat) {
      && |c| == LISTS && d.Shaped() && gc < MAX_FILES && d.files[gc].Some?
      && LeastWorn(d.files[gc].value, fs.pages.blk.total, lowest, spread)
      && if spread > 1024 && lowest !in c[FREE] && lowest !in c[DIRTY] && c[FREE] != []
         then Moved(c, c', lowest, d, d')
         else c' == c && d' == d
    }

    lemma LeveledKeeps(c: Chains, c': Chains, d: Disk, d': Disk, gc: nat, lowest: nat, spread: nat)
      requires Leveled(c, c', d, d', gc, lowest, spread)
      ensures d'.files == d.files && d'.metas == d.metas
    {
    }

    /** When wear differs too much, moves the contents of the least worn block to a free block, so
        that it turns dirty and comes into use again.  No reader can tell.  Without memory for the
        counters, or when their file does not open, which `canLook` stands for, nothing happens. */
    method WearLevel(gc: nat, canLook: bool) returns (ghost lowest: nat, ghost spread: nat)
      requires Ready(gc)
      modifies fs.pages, fs.pages.files, fs.pages.blk, fs.pages.blk.next, fs.pages.blk.chip.mem
      ensures Ready(gc) && fs.Files() == old(fs.Files()) && |old(fs.pages.blk.chains)| == LISTS
      ensures if canLook
              then Leveled(old(fs.pages.blk.chains), fs.pages.blk.chains, old(fs.State()), fs.State(), gc, lowest,
                           spread)
              else fs.pages.blk.chains == old(fs.pages.blk.chains) && fs.State() == old(fs.State())
      ensures forall f: nat | f < MAX_FILES ::
                |FileList(fs.pages.blk.chains, f)| == |FileList(old(fs.pages.blk.chains), f)|
    {
      hide PageDriver.Valid, Count, Moved, PageDriver.RoomOf, RoomsOf, MetasOf, AllFree, FreeSlots;
      fs.pages.Facts();
      lowest, spread := 0, 0;
      if !canLook {
        return;
      }
      fs.BlockCounts();
      var o, counts := fs.Read(gc, 0, 4 * fs.pages.blk.total);
      assert counts == fs.Files()[gc].value;
      var low, diff := Extremes(counts);
      lowest, spread := low, diff;
      if diff > WEAR_THRESHOLD {
        Swap(low);
        fs.BlockCounts();
      }
    }

    /** Replaces a block unless it is free or dirty already. */
    method Swap(b: nat)
      requires fs.Valid() && b < fs.pages.blk.total
      modifies fs.pages, fs.pages.files, fs.pages.blk, fs.pages.blk.next, fs.pages.blk.chip.mem
      ensures fs.Valid() && fs.Files() == old(fs.Files()) && |old(fs.pages.blk.chains)| == LISTS
      ensures var c := old(fs.pages.blk.chains);
              if b !in c[FREE] && b !in c[DIRTY] && c[FREE] != []
              then Moved(c, fs.pages.blk.chains, b, old(fs.State()), fs.State())
              else fs.pages.blk.chains == c && fs.State() == old(fs.State())
    {
      hide BlockDriver.FlashShown, BlockDriver.ListsHeld, BlockDriver.CacheCoherent, Stored, Coherent, Covering,
           FlashFs.State, Moved, FlashFs.Files;
      var blk := fs.pages.blk;
      fs.pages.Facts();
      blk.Heads();
      var isFree := blk.IsInList(FREE, blk.freeList, b);
      var isDirty := blk.IsInList(DIRTY, blk.dirtyList, b);
      if isFree || isDirty {
        return;
      }
      ghost var f, k := fs.pages.Owner(b);
      var status, meta := blk.ReadMeta(b);
      if status < 0 {
        return;
      }
      Renew(meta[OFF_FILE_ID], meta[OFF_BLOCK], b);
    }

    /** Block k of file f, which is b, replaced by a copy if a block is free. */
    method Renew(f: nat, k: nat, ghost b: int)
      requires fs.Valid() && f < MAX_FILES && fs.pages.sizes[f] >= 0 && k < fs.pages.blk.total
      requires k < |FileList(fs.pages.blk.chains, f)| && FileList(fs.pages.blk.chains, f)[k] == b
      modifies fs.pages, fs.pages.files, fs.pages.blk, fs.pages.blk.next, fs.pages.blk.chip.mem
      ensures fs.Valid() && fs.Files() == old(fs.Files()) && |old(fs.pages.blk.chains)| == LISTS
      ensures var c := old(fs.pages.blk.chains);
              if c[FREE] != [] then Moved(c, fs.pages.blk.chains, b, old(fs.State()), fs.State())
              else fs.pages.blk.chains == c && fs.State() == old(fs.State())
    {
      hide BlockDriver.FlashShown, BlockDriver.ListsHeld, BlockDriver.CacheCoherent, Stored, Coherent, Covering,
           IsCopy, AfterReplace, FreeSlots, AllFree, Visible, MetasOf, RoomsOf, PagesHeld, PageCount, FlashFs.State,
           Snapshot.IsDisk, BlockDriver.Valid, PageDriver.Table;
      fs.pages.Facts();
      ghost var c, was, d := fs.pages.blk.chains, fs.Now(), fs.State();
      var _ := fs.pages.ReplaceBlock(f, k, -1);
      if c[FREE] == [] {
        fs.SameState(was, d);
      } else {
        ReplaceKeepsAll(c, f, k);
        KeepsCovering(c, fs.pages.blk.chains, fs.pages.blk.total);
        fs.RoomState(f, was, d);
        FreeTaken(c, f, k);
        assert Moved(c, fs.pages.blk.chains, b, d, fs.State());
      }
    }

    /** One turn of the collector's thread.  It waits until eight blocks are dirty; then it makes a
        pass over them, and every 64th time it looks at the wear, if it can.  `drained` are the lists
        in between, and `mid` is the state. */
    method Turn(gc: nat, opens: nat -> bool, canLook: bool)
      returns (ghost erased: seq<nat>, ghost drained: Chains, ghost mid: Disk)
      requires Ready(gc)
      modifies this, fs.pages, fs.pages.files, fs.pages.blk, fs.pages.blk.next, fs.pages.blk.chip.mem
      ensures Ready(gc) && |fs.pages.blk.chains| == |drained| == |old(fs.pages.blk.chains)| == LISTS
      ensures OnlyFile(old(fs.State()), mid, gc) && mid.Sized()
      ensures fs.Files() == mid.files && fs.State().metas == mid.metas
      ensures Counted(old(fs.Files())[gc].value, fs.Files()[gc].value, Opened(erased, opens))
      ensures |old(fs.pages.blk.chains)[DIRTY]| < 8 ==>
                && passes == old(passes) && erased == [] && fs.pages.blk.chains == drained == old(fs.pages.blk.chains)
                && fs.State() == mid == old(fs.State())
      ensures |old(fs.pages.blk.chains)[DIRTY]| >= 8 ==>
                && passes == (old(passes) + 1) % 0x10000 && old(fs.pages.blk.chains)[DIRTY] <= erased
                && drained[DIRTY] == [] && mid.free == old(fs.State()).free + |old(fs.pages.blk.chains)[DIRTY]|
                && if passes % 64 == 0 && canLook
                   then exists lowest: nat, spread: nat ::
                          Leveled(drained, fs.pages.blk.chains, mid, fs.State(), gc, lowest, spread)
                   else fs.pages.blk.chains == drained && fs.State() == mid
      ensures forall f: nat | f < MAX_FILES ::
                |FileList(fs.pages.blk.chains, f)| == |FileList(old(fs.pages.blk.chains), f)|
    {
      hide PageDriver.Valid, LeastWorn, Counted, Opened, PageDriver.RoomOf, FlashFs.State, OnlyFile, AfterReplace,
           Moved,
           Disk.Sized;
      fs.pages.ListFacts();
      fs.pages.Facts();
      erased, drained, mid := [], fs.pages.blk.chains, fs.State();
      OnlySelf(mid, gc);
      fs.StateSized();
      if fs.pages.blk.dirtyBlocks < DIRTY_THRESHOLD {
        CountedNone(fs.Files()[gc].value, opens);
        return;
      }
      passes := (passes + 1) % 0x10000;
      erased := Drain(gc, opens);
      drained, mid := fs.pages.blk.chains, fs.State();
      if passes % WEAR_CHECK_THRESHOLD == 0 {
        ghost var lowest, spread := WearLevel(gc, canLook);
        if canLook {
          LeveledKeeps(drained, fs.pages.blk.chains, mid, fs.State(), gc, lowest, spread);
        }
      }
    }
  }
}
