/** What the file system promises across calls and across a restart. */
module FfsSession {
  import opened Bytes
  import opened Integers
  import opened Flash25
  import opened FfsLayout
  import opened FfsLists
  import opened FfsFile
  import opened FfsCost
  import opened FfsStore
  import opened FfsBlock
  import opened FfsPage
  import opened FfsMount
  import opened FlashFs
  import opened FfsGc

  // ----- The flash alone decides what the files are -----

  lemma ListWithin(views: seq<Block>, c1: Chains, s1: seq<int>, r1: seq<seq<byte>>, c2: Chains, s2: seq<int>,
                   r2: seq<seq<byte>>, total: nat, f: nat)
    requires OnFlash(views, c1, s1, r1, total) && OnFlash(views, c2, s2, r2, total) && f < MAX_FILES
    ensures FileList(c1, f) <= FileList(c2, f)
  {
    hide Kind, Covering, Disjoint, Stored, FileHolds;
    var l1, l2 := FileList(c1, f), FileList(c2, f);
    forall k | 0 <= k < |l1| ensures k < |l2| && l1[k] == l2[k] {
      KindListed(views, c1, s1, r1, total, FIRST_FILE + f, k);
      ListedByKind(views, c2, s2, r2, total, l1[k]);
      var j :| 0 <= j < |l2| && l2[j] == l1[k];
      Numbered(views, c1, s1, r1, total, f, k);
      Numbered(views, c2, s2, r2, total, f, j);
    }
    if l1 != [] {
      var last := l1[|l1| - 1];
      assert |l1| - 1 < |l2|;
    }
  }

  /** Block k of a file says so in its header. */
  lemma Numbered(views: seq<Block>, c: Chains, s: seq<int>, r: seq<seq<byte>>, total: nat, f: nat, k: nat)
    requires OnFlash(views, c, s, r, total) && f < MAX_FILES && k < |FileList(c, f)|
    ensures s[f] >= 0 && 0 <= FileList(c, f)[k] < total && MetaIs(views[FileList(c, f)[k]].meta, f, k)
  {
    assert FileOk(views, FileList(c, f), f, s[f], r[f], false);
    assert BlockHolds(views[FileList(c, f)[k]], f, k, r[f]);
  }

  lemma NotLonger(a: seq<byte>, b: seq<byte>)
    requires forall p: nat :: (HasPage(a, p) <==> HasPage(b, p)) && PageBytes(a, p) == PageBytes(b, p)
    ensures |a| <= |b|
  {
    hide PageBytes;
    if |a| > |b| {
      var p := (|a| - 1) / 64;
      assert HasPage(a, p) <==> HasPage(b, p);
      PageLength(a, p);
      PageLength(b, p);
    }
  }

  /** Two byte sequences with the same pages are the same. */
  lemma SamePages(a: seq<byte>, b: seq<byte>)
    requires forall p: nat :: (HasPage(a, p) <==> HasPage(b, p)) && PageBytes(a, p) == PageBytes(b, p)
    ensures a == b
  {
    NotLonger(a, b);
    NotLonger(b, a);
    forall i | 0 <= i < |a| ensures a[i] == b[i] {
      InPage(a, i);
      InPage(b, i);
    }
  }

  lemma InPage(a: seq<byte>, i: nat)
    requires i < |a|
    ensures i % 64 < |PageBytes(a, i / 64)| && PageBytes(a, i / 64)[i % 64] == a[i]
  {
  }

  lemma SameBytes(views: seq<Block>, l: seq<int>, f: nat, a: seq<byte>, b: seq<byte>)
    requires FileHolds(views, l, f, a) && FileHolds(views, l, f, b)
    ensures a == b
  {
    forall p: nat ensures (HasPage(a, p) <==> HasPage(b, p)) && PageBytes(a, p) == PageBytes(b, p) {
      LocatedHolds(views, l, f, a, p);
      LocatedHolds(views, l, f, b, p);
      PageLength(a, p);
      PageLength(b, p);
    }
    SamePages(a, b);
  }

  /** One flash image cannot hold two different sets of files: which ids exist, each file's
      blocks in order, its size and its bytes all follow from the image. */
  lemma FlashDetermines(views: seq<Block>, c1: Chains, s1: seq<int>, r1: seq<seq<byte>>, c2: Chains, s2: seq<int>,
                        r2: seq<seq<byte>>, total: nat)
    requires OnFlash(views, c1, s1, r1, total) && OnFlash(views, c2, s2, r2, total)
    ensures s1 == s2 && r1 == r2 && forall f: nat | f < MAX_FILES :: FileList(c1, f) == FileList(c2, f)
    ensures forall b | 0 <= b < total :: (b in c1[FREE] <==> b in c2[FREE]) && (b in c1[DIRTY] <==> b in c2[DIRTY])
    ensures |c1[FREE]| == |c2[FREE]| && |c1[DIRTY]| == |c2[DIRTY]|
  {
    forall f: nat | f < MAX_FILES ensures FileList(c1, f) == FileList(c2, f) && s1[f] == s2[f] && r1[f] == r2[f] {
      ListWithin(views, c1, s1, r1, c2, s2, r2, total, f);
      ListWithin(views, c2, s2, r2, c1, s1, r1, total, f);
      assert FileOk(views, FileList(c1, f), f, s1[f], r1[f], false);
      assert FileOk(views, FileList(c2, f), f, s2[f], r2[f], false);
      if s1[f] >= 0 {
        SameBytes(views, FileList(c1, f), f, r1[f], r2[f]);
      }
    }
    forall b, id | 0 <= b < total && (id == FREE || id == DIRTY) ensures b in c1[id] <==> b in c2[id] {
      SameList(views, c1, s1, r1, total, b, id);
      SameList(views, c2, s2, r2, total, b, id);
    }
    SameCount(views, c1, s1, r1, c2, s2, r2, total, FREE);
    SameCount(views, c1, s1, r1, c2, s2, r2, total, DIRTY);
  }

  lemma SameCount(views: seq<Block>, c1: Chains, s1: seq<int>, r1: seq<seq<byte>>, c2: Chains, s2: seq<int>,
                  r2: seq<seq<byte>>, total: nat, id: nat)
    requires OnFlash(views, c1, s1, r1, total) && OnFlash(views, c2, s2, r2, total) && id < LISTS
    requires forall b | 0 <= b < total :: b in c1[id] <==> b in c2[id]
    ensures |c1[id]| == |c2[id]|
  {
    hide Kind, Stored, Covering;
    forall k | 0 <= k < |c1[id]| ensures 0 <= c1[id][k] < total {
      KindListed(views, c1, s1, r1, total, id, k);
    }
    forall k | 0 <= k < |c2[id]| ensures 0 <= c2[id][k] < total {
      KindListed(views, c2, s2, r2, total, id, k);
    }
    assert forall i, j | 0 <= i < j < |c1[id]| :: c1[id][i] != c1[id][j];
    assert forall i, j | 0 <= i < j < |c2[id]| :: c2[id][i] != c2[id][j];
    MembersSize(c1[id]);
    MembersSize(c2[id]);
    assert Members(c1[id]) == Members(c2[id]);
  }

  lemma SameList(views: seq<Block>, c: Chains, s: seq<int>, r: seq<seq<byte>>, total: nat, b: nat, id: nat)
    requires OnFlash(views, c, s, r, total) && b < total && id < LISTS
    ensures b in c[id] <==> Kind(views[b], total) == id
  {
    ListedByKind(views, c, s, r, total, b);
    if b in c[id] {
      var k :| 0 <= k < |c[id]| && c[id][k] == b;
      KindListed(views, c, s, r, total, id, k);
    }
  }

  // ----- Restarting -----

  /** Nothing but the chip was there before. */
  twostate predicate Unshared(new fs: FlashFs)
    reads fs
  {
    fresh(fs) && fresh(fs.pages) && fresh(fs.pages.files) && fresh(fs.pages.blk) && fresh(fs.pages.blk.next)
  }

  /** Throws the RAM away and mounts the flash again: fresh lists, file table and caches, and the
      files are as they were, block by block. */
  method Restart(fs: FlashFs) returns (again: FlashFs)
    requires fs.Valid()
    modifies fs.pages.blk.chip.mem
    ensures Unshared(again) && again.Valid() && again.pages.blk.chip == fs.pages.blk.chip
    ensures again.pages.blk.total == fs.pages.blk.total
    ensures |again.pages.blk.chains| == |old(fs.pages.blk.chains)| == LISTS && |old(fs.pages.raws)| == MAX_FILES
    ensures again.State() == old(fs.State())
    ensures again.pages.sizes == old(fs.pages.sizes) && again.pages.raws == old(fs.pages.raws)
    ensures forall f: nat | f < MAX_FILES ::
              FileList(again.pages.blk.chains, f) == FileList(old(fs.pages.blk.chains), f)
    ensures |again.pages.blk.chains[DIRTY]| == |old(fs.pages.blk.chains)[DIRTY]|
    ensures forall b | 0 <= b < fs.pages.blk.total ::
              && (b in again.pages.blk.chains[FREE] <==> b in old(fs.pages.blk.chains)[FREE])
              && (b in again.pages.blk.chains[DIRTY] <==> b in old(fs.pages.blk.chains)[DIRTY])
  {
    hide Stored, Covering, Disjoint, Kind, FileHolds, BlockDriver.ListsHeld, BlockDriver.CacheCoherent,
         PageDriver.CacheOk, PageDriver.Table, Doubled, View, FreeSlots, AllFree, FlashFs.State, Snapshot.IsDisk,
         Snapshot.RoomOf;
    ghost var was, d := fs.Now(), fs.State();
    var running := fs.pages;
    ghost var chains0, sizes0, raws0 := running.blk.chains, running.sizes, running.raws;
    ValidOnFlash(running);
    assert running.blk.FlashShown();
    var blk := new BlockDriver(running.blk.chip, running.blk.total);
    assert blk.views == running.blk.views;
    var pages := new PageDriver(blk);
    Mount(pages, chains0, sizes0, raws0);
    ValidOnFlash(pages);
    FlashDetermines(blk.views, chains0, sizes0, raws0, pages.blk.chains, pages.sizes, pages.raws, blk.total);
    SameFrees(blk.views, chains0, pages.blk.chains);
    again := new FlashFs(pages);
    again.SameState(was, d);
  }

  lemma SameFrees(views: seq<Block>, c: Chains, c': Chains)
    requires |c| == |c'| == LISTS && forall f: nat | f < MAX_FILES :: FileList(c', f) == FileList(c, f)
    ensures AllFree(views, c') == AllFree(views, c)
  {
    hide FreeSlots;
  }

  /** No file, and all blocks free. */
  function BlankDisk(total: nat): (d: Disk)
    ensures d.Shaped()
  {
    Disk(seq(MAX_FILES, _ => None), seq(MAX_FILES, _ => None), seq(MAX_FILES, _ => Room([], 0)), total)
  }

  lemma BlankIs(was: Snapshot, d: Disk, total: nat)
    requires was.IsDisk(d) && was.sizes == seq(MAX_FILES, _ => -1) && was.raws == seq(MAX_FILES, _ => [])
    requires |was.chains[FREE]| == total && forall f: nat | f < MAX_FILES :: was.frees[f] == []
    ensures d == BlankDisk(total)
  {
  }

  /** All blocks free, in physical order, and no file. */
  function NoFiles(total: nat): (r: Chains)
    ensures |r| == LISTS
  {
    seq(LISTS, i => if i == FREE then seq(total, b => b) else [])
  }

  lemma BlankIsEmpty(views: seq<Block>, total: nat)
    requires |views| == total && forall b :: 0 <= b < total ==> views[b] == BlankBlock()
    ensures OnFlash(views, NoFiles(total), seq(MAX_FILES, _ => -1), seq(MAX_FILES, _ => []), total)
  {
    forall b | 0 <= b < total ensures Listed(NoFiles(total), b) {
      assert NoFiles(total)[FREE][b] == b;
    }
  }

  /** A chip that has just been erased mounts as an empty file system. */
  method MountBlank(chip: Chip, total: nat) returns (fs: FlashFs)
    requires 0 < total <= 254 && chip.mem.Length == ERASE_BLOCK_SIZE * total
    requires forall i :: 0 <= i < chip.mem.Length ==> chip.mem[i] == 0xff
    modifies chip.mem
    ensures Unshared(fs) && fs.Valid() && fs.pages.blk.total == total && fs.pages.blk.chip == chip
    ensures |fs.pages.blk.chains| == LISTS && |fs.pages.raws| == MAX_FILES && fs.State() == BlankDisk(total)
    ensures fs.pages.blk.chains[DIRTY] == []
  {
    hide Stored, Covering, Disjoint, Kind, FileHolds, BlockDriver.ListsHeld, BlockDriver.CacheCoherent,
         PageDriver.CacheOk, PageDriver.Table, Doubled, View, OnFlash, FlashFs.State, Snapshot.IsDisk, Snapshot.RoomOf,
         BlankDisk;
    forall b: nat | b < total ensures Doubled(chip.Image(b)) && View(chip.Image(b)) == BlankBlock() {
      BlankImage();
      assert chip.Image(b) == Ones(ERASE_BLOCK_SIZE);
    }
    var blk := new BlockDriver(chip, total);
    BlankIsEmpty(blk.views, total);
    var pages := new PageDriver(blk);
    Mount(pages, NoFiles(total), seq(MAX_FILES, _ => -1), seq(MAX_FILES, _ => []));
    ValidOnFlash(pages);
    FlashDetermines(blk.views, pages.blk.chains, pages.sizes, pages.raws, NoFiles(total), seq(MAX_FILES, _ => -1),
                    seq(MAX_FILES, _ => []), total);
    fs := new FlashFs(pages);
    BlankIs(fs.Now(), fs.State(), total);
  }

  // ----- Reading back -----

  /** Inside the written window a file has the new bytes, outside it the old ones. */
  lemma SpliceWindow(file: seq<byte>, position: nat, data: seq<byte>, from: nat, len: nat)
    requires position <= |file| && from + len <= |Splice(file, position, data)|
    ensures var window := Splice(file, position, data)[from..from + len];
            && (position <= from && from + len <= position + |data| ==>
                window == data[from - position..from - position + len])
            && (from + len <= position ==> window == file[from..from + len])
            && (position + |data| <= from && len > 0 ==> from + len <= |file| && window == file[from..from + len])
  {
  }

  /** Whatever was written reads back, also after a restart; and it was written exactly when the free
      blocks suffice for what it costs. */
  method WriteRestartRead(fs: FlashFs, f: nat, position: nat, data: seq<byte>) returns (o: Outcome, back: seq<byte>)
    requires fs.Valid() && f < MAX_FILES && fs.Files()[f].Some? && position <= |fs.Files()[f].value| && data != []
    modifies fs.pages, fs.pages.files, fs.pages.blk, fs.pages.blk.next, fs.pages.blk.chip.mem
    ensures |old(fs.pages.raws)| == MAX_FILES && |old(fs.pages.blk.chains)| == LISTS
    ensures var room, first := old(fs.pages.RoomOf(f)), FilePage(position);
            && BlockOf(first) <= |room.slots|
            && (o.Returned? <==> Cost(room, first, PagesTouched(position, |data|)) <= |old(fs.pages.blk.chains)[FREE]|)
    ensures o.Returned? ==> back == data
  {
    hide PageDriver.Valid, PageDriver.RoomOf, Cost, RoomAfter, Needs, Stops, WriteStep;
    ghost var file := fs.Files()[f].value;
    o := fs.Write(f, position, data);
    if o.AssertFailed? {
      return o, [];
    }
    var again := Restart(fs);
    var status;
    status, back := again.Read(f, position, |data|);
    SpliceWindow(file, position, data, position, |data|);
  }

  /** A new file has its name in the flash, up to a zero byte or the 32nd, and a restart finds it there. */
  method CreateRestart(fs: FlashFs, name: seq<byte>) returns (file: int, again: FlashFs)
    requires fs.Valid()
    modifies fs.pages, fs.pages.files, fs.pages.blk, fs.pages.blk.next, fs.pages.blk.chip.mem
    ensures Unshared(again) && again.Valid() && |again.pages.blk.chains| == LISTS && |again.pages.raws| == MAX_FILES
    ensures file >= 0 ==>
              && file < MAX_FILES && again.Files()[file] == Some([]) && again.State().metas[file].Some?
              && |again.State().metas[file].value| == 128
              && forall i: nat | i < 128 ::
                   again.State().metas[file].value[i]
                   == if i >= 32 then 0xff else if i < |name| && 0 !in name[..i + 1] then name[i] else 0
  {
    hide PageDriver.Valid, PageDriver.RoomOf, FlashFs.State, AfterAlloc;
    file := fs.CreateFile(name);
    again := Restart(fs);
  }

  // ----- Sessions -----

  /** What can happen to a file system, pulling the plug between two operations included.  Prepare is
      the start of the collector's thread and Collect one turn of it, with its counters in file `gc`. */
  datatype Operation =
    | Create(name: seq<byte>)
    | Remove(file: int)
    | Put(file: int, position: nat, data: seq<byte>)
    | Get(file: int, position: nat, len: nat)
    | Prepare(gc: nat)
    | Collect(gc: nat, opens: nat -> bool, canLook: bool)
    | Reboot
  {
    predicate InRange() {
      match this
      case Remove(f) => f < MAX_FILES
      case Put(f, _, _) => f < MAX_FILES
      case Get(f, _, _) => f < MAX_FILES
      case Prepare(gc) => gc < MAX_FILES
      case Collect(gc, _, _) => gc < MAX_FILES
      case _ => true
    }
  }

  datatype Answer = Answer(o: Outcome, data: seq<byte>)

  /** A file is created under the lowest free id, unless no id or no block is free. */
  ghost predicate Creates(d: Disk, name: seq<byte>, o: Outcome, d': Disk)
    requires d.Shaped()
  {
    if forall g: nat | g < 23 :: d.files[g].Some? then o == Returned(-3) && d' == d
    else if d.free == 0 then o == Returned(-2) && d' == d
    else
      && o.Returned? && 0 <= o.status < 23 && d.files[o.status].None?
      && (forall g: nat | g < o.status :: d.files[g].Some?) && d' == Created(d, o.status, name)
  }

  /** A write gets to the end exactly when it can be paid for; if not, it halts where the free blocks
      run out. */
  ghost predicate Puts(d: Disk, f: int, position: nat, data: seq<byte>, o: Outcome, d': Disk)
    requires d.Shaped() && f < MAX_FILES
  {
    if f < 0 || d.files[f].None? then o == Returned(-4) && d' == d
    else if position > |d.files[f].value| then o == Returned(-5) && d' == d
    else
      var room, first, total := d.rooms[f], FilePage(position), PagesTouched(position, |data|);
      && BlockOf(first) <= |room.slots|
      && if Cost(room, first, total) <= d.free then o == Returned(|data|) && d' == Written(d, f, position, data, total)
         else
           && o == AssertFailed
           && exists m: nat | m < total && Stops(room, first, m, d.free) :: d' == Written(d, f, position, data, m)
  }

  ghost predicate Gets(d: Disk, total: nat, f: int, position: nat, len: nat, a: Answer)
    requires d.Shaped() && f < MAX_FILES
  {
    if f < 0 || d.files[f].None? then a.o == Returned(-4)
    else
      var file := d.files[f].value;
      if position >= |file| then a.o == Returned(-5)
      else if position + len <= |file| then a == Answer(Returned(len), file[position..position + len])
      else a.o == if FILE_META_SIZE + |file| == BLOCK_DATA_SIZE * total then AssertFailed else Returned(-6)
  }

  ghost predicate Removes(d: Disk, f: int, o: Outcome, d': Disk)
    requires d.Shaped() && f < MAX_FILES
  {
    if f < 0 then o == Returned(-4) && d' == d else o == Returned(0) && d' == Removed(d, f)
  }

  /** The counters of an empty file. */
  ghost predicate Prepares(d: Disk, total: nat, gc: nat, o: Outcome, d': Disk)
    requires d.Shaped() && gc < MAX_FILES && total < 784
  {
    if CountersCost(d.rooms[gc], total) <= d.free then o == Returned(STATUS_OK) && d' == Counters(d, gc, total)
    else
      o == AssertFailed && exists n: nat | n < total ::
        CountersCost(d.rooms[gc], n) <= d.free < CountersCost(d.rooms[gc], n + 1) && d' == Counters(d, gc, n)
  }

  /** All dirty blocks are free again if there are eight of them; counters grow by the recorded
      erases; and the wear leveler may then renew one block, for which it takes a free one. */
  ghost predicate Collects(d: Disk, total: nat, gc: nat, d': Disk)
    requires d.Shaped() && gc < MAX_FILES && d.files[gc].Some?
  {
    if d.Dirty(total) < 8 then d' == d
    else
      exists mid: Disk, recorded: seq<int> {:trigger Drained(d, mid, total, gc, recorded)} ::
        && Drained(d, mid, total, gc, recorded)
        && (d' == mid || exists f: nat, k: nat | CanRenew(mid, f, k) :: d' == Renewed(mid, f, k))
  }

  ghost predicate Drained(d: Disk, mid: Disk, total: nat, gc: nat, recorded: seq<int>)
    requires d.Shaped() && gc < MAX_FILES && d.files[gc].Some?
  {
    && OnlyFile(d, mid, gc) && mid.Sized() && mid.free == d.free + d.Dirty(total)
    && mid.files[gc].Some? && Counted(d.files[gc].value, mid.files[gc].value, recorded)
  }

  ghost predicate CanRenew(d: Disk, f: nat, k: nat) {
    d.Shaped() && f < MAX_FILES && k < |d.rooms[f].slots| && d.free > 0
  }

  /** What an operation answers and does, as the state before decides. */
  ghost predicate Follows(d: Disk, total: nat, op: Operation, a: Answer, d': Disk)
    requires d.Shaped() && op.InRange() && total < 784
  {
    match op
    case Create(name) => Creates(d, name, a.o, d')
    case Remove(f) =>
      Removes(d, f, a.o, d')
    case Put(f, position, data) =>
      Puts(d, f, position, data, a.o, d')
    case Get(f, position, len) =>
      Gets(d, total, f, position, len, a) && d' == d
    case Prepare(gc) =>
      if d.files[gc] != Some([]) then a.o == Returned(STATUS_OK) && d' == d else Prepares(d, total, gc, a.o, d')
    case Collect(gc, opens, canLook) =>
      && a.o == Returned(STATUS_OK)
      && if d.files[gc].None? || |d.files[gc].value| != 4 * total then d' == d else Collects(d, total, gc, d')
    case Reboot => a.o == Returned(STATUS_OK) && d' == d
  }

  method Creating(fs: FlashFs, name: seq<byte>) returns (o: Outcome)
    requires fs.Valid()
    modifies fs.pages, fs.pages.files, fs.pages.blk, fs.pages.blk.next, fs.pages.blk.chip.mem
    ensures fs.Valid() && |old(fs.pages.blk.chains)| == LISTS && |old(fs.pages.raws)| == MAX_FILES
    ensures Creates(old(fs.State()), name, o, fs.State())
  {
    hide PageDriver.Valid, PageDriver.RoomOf, FlashFs.State, Created;
    fs.pages.Facts();
    ghost var d := fs.State();
    var id := fs.CreateFile(name);
    o := Returned(id);
    assert d.free > 0 <==> old(fs.pages.blk.chains)[FREE] != [];
  }

  method Removing(fs: FlashFs, f: int) returns (o: Outcome)
    requires fs.Valid() && f < MAX_FILES
    modifies fs.pages.files, fs.pages`sizes, fs.pages`raws, fs.pages.blk, fs.pages.blk.next, fs.pages.blk.chip.mem
    ensures fs.Valid() && |old(fs.pages.blk.chains)| == LISTS && |old(fs.pages.raws)| == MAX_FILES
    ensures Removes(old(fs.State()), f, o, fs.State())
  {
    hide PageDriver.Valid, PageDriver.RoomOf, FlashFs.State, Removed, AfterDelete;
    fs.pages.Facts();
    var status := fs.DeleteFile(f);
    o := Returned(status);
  }

  method Getting(fs: FlashFs, f: int, position: nat, len: nat) returns (a: Answer)
    requires fs.Valid() && f < MAX_FILES
    modifies fs.pages`cachePage, fs.pages`cacheNumber, fs.pages`cacheFile, fs.pages.blk`cacheBlock,
             fs.pages.blk`cacheIndex
    ensures fs.Valid() && |old(fs.pages.blk.chains)| == LISTS && |old(fs.pages.raws)| == MAX_FILES
    ensures Gets(old(fs.State()), fs.pages.blk.total, f, position, len, a) && fs.State() == old(fs.State())
  {
    hide PageDriver.Valid, PageDriver.RoomOf, FlashFs.State;
    fs.pages.Facts();
    var o, data := fs.Read(f, position, len);
    a := Answer(o, data);
  }

  method Putting(fs: FlashFs, f: int, position: nat, data: seq<byte>) returns (o: Outcome)
    requires fs.Valid() && f < MAX_FILES
    modifies fs.pages, fs.pages.files, fs.pages.blk, fs.pages.blk.next, fs.pages.blk.chip.mem
    ensures fs.Valid() && |old(fs.pages.blk.chains)| == LISTS && |old(fs.pages.raws)| == MAX_FILES
    ensures Puts(old(fs.State()), f, position, data, o, fs.State())
  {
    hide PageDriver.Valid, PageDriver.RoomOf, FlashFs.State, Written, Cost, Stops, BlockOf, FilePage, PagesTouched;
    o := fs.Write(f, position, data);
  }

  method Preparing(collector: GarbageCollector, gc: nat) returns (o: Outcome)
    requires collector.fs.Valid() && gc < MAX_FILES && collector.fs.Files()[gc].Some?
    modifies collector.fs.pages, collector.fs.pages.files, collector.fs.pages.blk,
             collector.fs.pages.blk.next, collector.fs.pages.blk.chip.mem
    ensures collector.fs.Valid() && collector.fs.pages.blk.total < 784
    ensures |old(collector.fs.pages.blk.chains)| == LISTS && |old(collector.fs.pages.raws)| == MAX_FILES
    ensures if old(collector.fs.Files())[gc] == Some([])
            then Prepares(old(collector.fs.State()), collector.fs.pages.blk.total, gc, o, collector.fs.State())
            else o == Returned(STATUS_OK) && collector.fs.State() == old(collector.fs.State())
  {
    hide PageDriver.Valid, PageDriver.RoomOf, FlashFs.State, Counters, CountersCost;
    collector.fs.pages.Facts();
    ghost var n;
    o, n := collector.Prepare(gc);
  }

  method Collecting(collector: GarbageCollector, gc: nat, opens: nat -> bool, canLook: bool)
    requires collector.Ready(gc)
    modifies collector, collector.fs.pages, collector.fs.pages.files, collector.fs.pages.blk,
             collector.fs.pages.blk.next, collector.fs.pages.blk.chip.mem
    ensures collector.fs.Valid() && |old(collector.fs.pages.blk.chains)| == LISTS
    ensures |old(collector.fs.pages.raws)| == MAX_FILES
    ensures Collects(old(collector.fs.State()), collector.fs.pages.blk.total, gc, collector.fs.State())
  {
    hide PageDriver.Valid, PageDriver.RoomOf, FlashFs.State, Counted, Renewed, LeastWorn, AfterReplace, OnlyFile,
         Disk.Sized;
    var fs := collector.fs;
    ghost var d := fs.State();
    fs.Accounted();
    ghost var erased, drained, mid := collector.Turn(gc, opens, canLook);
    if d.Dirty(fs.pages.blk.total) >= 8 {
      DrainedIs(d, mid, fs.pages.blk.total, gc, Opened(erased, opens));
      if fs.State() != mid {
        ghost var lowest, spread :|
          collector.Leveled(drained, fs.pages.blk.chains, mid, fs.State(), gc, lowest, spread);
        ghost var f: nat, k: nat :| CanRenew(mid, f, k) && fs.State() == Renewed(mid, f, k);
      }
    }
  }

  lemma DrainedIs(d: Disk, mid: Disk, total: nat, gc: nat, recorded: seq<int>)
    requires OnlyFile(d, mid, gc) && mid.Sized() && mid.free == d.free + d.Dirty(total) && d.files[gc].Some?
             && mid.files[gc].Some?
    requires Counted(d.files[gc].value, mid.files[gc].value, recorded)
    ensures Drained(d, mid, total, gc, recorded)
  {
  }

  /** One operation, with the collector's own counter of passes in `c`; a system that an ASSERT has
      halted starts again. */
  method Perform(c: GarbageCollector, op: Operation) returns (a: Answer, after: GarbageCollector)
    requires c.fs.Valid() && op.InRange()
    modifies c, c.fs.pages, c.fs.pages.files, c.fs.pages.blk, c.fs.pages.blk.next, c.fs.pages.blk.chip.mem
    ensures after.fs.Valid() && (after == c || (fresh(after) && Unshared(after.fs)))
    ensures after.fs.pages.blk.chip == c.fs.pages.blk.chip && after.fs.pages.blk.total == c.fs.pages.blk.total < 784
    ensures |old(c.fs.pages.blk.chains)| == LISTS && |old(c.fs.pages.raws)| == MAX_FILES
    ensures |after.fs.pages.blk.chains| == LISTS && |after.fs.pages.raws| == MAX_FILES && after.fs.State().Sized()
    ensures Follows(old(c.fs.State()), c.fs.pages.blk.total, op, a, after.fs.State())
  {
    hide PageDriver.Valid, PageDriver.RoomOf, FlashFs.State, Creates, Puts, Removes, Gets, Prepares, Collects,
         Disk.Sized;
    var fs := c.fs;
    fs.pages.Facts();
    after, a := c, Answer(Returned(STATUS_OK), []);
    match op {
    case Create(name) =>
      var o := Creating(fs, name);
      a := Answer(o, []);
    case Remove(f) =>
      var o := Removing(fs, f);
      a := Answer(o, []);
    case Put(f, position, data) =>
      var o := Putting(fs, f, position, data);
      a := Answer(o, []);
    case Get(f, position, len) =>
      a := Getting(fs, f, position, len);
    case Prepare(gc) =>
      var size := fs.GetFileSize(gc);
      if size >= 0 {
        var o := Preparing(c, gc);
        a := Answer(o, []);
      }
    case Collect(gc, opens, canLook) =>
      var size := fs.GetFileSize(gc);
      if size == 4 * fs.pages.blk.total {
        Collecting(c, gc, opens, canLook);
      }
    case Reboot =>
    }
    if op.Reboot? || a.o.AssertFailed? {
      var again := Restart(fs);
      after := new GarbageCollector(again);
    }
    after.fs.StateSized();
  }

  /** Any session on an erased chip, with restarts wherever they come.  The state that a user sees goes
      from operation to operation as it should, and decides alone what each of them answers, whether
      there is room for it, and where it halts. */
  method Session(chip: Chip, total: nat, ops: seq<Operation>)
    returns (fs: FlashFs, answers: seq<Answer>, ghost states: seq<Disk>)
    requires 0 < total <= 254 && chip.mem.Length == ERASE_BLOCK_SIZE * total
    requires forall i :: 0 <= i < chip.mem.Length ==> chip.mem[i] == 0xff
    requires forall op | op in ops :: op.InRange()
    modifies chip.mem
    ensures fs.Valid() && |fs.pages.blk.chains| == LISTS && |fs.pages.raws| == MAX_FILES
    ensures |answers| == |ops| && |states| == |ops| + 1
    ensures states[0] == BlankDisk(total) && states[|ops|] == fs.State()
    ensures forall i | 0 <= i <= |ops| :: states[i].Shaped() && states[i].Sized()
    ensures forall i | 0 <= i < |ops| :: Follows(states[i], total, ops[i], answers[i], states[i + 1])
  {
    hide FlashFs.Valid, Follows, FlashFs.State, BlankDisk;
    fs := MountBlank(chip, total);
    var c := new GarbageCollector(fs);
    fs.StateSized();
    answers, states := [], [fs.State()];
    for k := 0 to |ops|
      invariant c.fs.Valid() && fresh(c) && Unshared(c.fs) && c.fs.pages.blk.chip == chip
                && c.fs.pages.blk.total == total
      invariant |c.fs.pages.blk.chains| == LISTS && |c.fs.pages.raws| == MAX_FILES
      invariant |answers| == k && |states| == k + 1
      invariant states[0] == BlankDisk(total) && states[k] == c.fs.State()
      invariant forall i | 0 <= i <= k :: states[i].Shaped() && states[i].Sized()
      invariant forall i | 0 <= i < k :: Follows(states[i], total, ops[i], answers[i], states[i + 1])
    {
      var a, after := Perform(c, ops[k]);
      c := after;
      answers, states := answers + [a], states + [c.fs.State()];
    }
    fs := c.fs;
  }

  // ----- A full chip -----

  /** What fits into the only file of a chip: all its blocks full, but for the two meta pages. */
  function Capacity(total: nat): int { 3264 * total - 128 }

  /** Writing n bytes to a new file costs a free block for every 51 pages after the first 49; with all
      but one block of a chip free, it stops only when all of them are full. */
  lemma NewFileCost(free: nat, n: nat)
    ensures FilePage(0) == 2 && BlockOf(2) == 0
    ensures Cost(NewFileRoom(), 2, PagesTouched(0, n)) <= free <==> n <= Capacity(free + 1)
    ensures forall m: nat | Stops(NewFileRoom(), 2, m, free) :: m == 51 * free + 49
    ensures n > Capacity(free + 1) ==> Reach(0, n, 51 * free + 49) == Capacity(free + 1)
  {
    hide Cost, PagesTouched, Reach, Stops;
    CostIs(PagesTouched(0, n), free);
    PagesWithin(n, 51 * free + 49);
    forall m: nat | Stops(NewFileRoom(), 2, m, free) ensures m == 51 * free + 49 {
      StopIs(m, free);
    }
  }

  lemma CostIs(m: nat, free: nat)
    ensures BlockOf(2) == 0 && (Cost(NewFileRoom(), 2, m) <= free <==> m <= 51 * free + 49)
  {
    CostOfNew(m);
  }

  lemma StopIs(m: nat, free: nat)
    requires Stops(NewFileRoom(), 2, m, free)
    ensures m == 51 * free + 49
  {
    hide Cost, RoomAfter, Needs;
    CostStep(NewFileRoom(), 2, m);
    CostIs(m, free);
    CostIs(m + 1, free);
  }

  /** n bytes take at most m pages exactly when that many hold them; if not, m of them are full. */
  lemma PagesWithin(n: nat, m: nat)
    ensures PagesTouched(0, n) <= m <==> n <= 64 * m
    ensures n >= 64 * m ==> Reach(0, n, m) == 64 * m
  {
  }

  /** A new file on an erased chip of any size holds as many bytes as all its blocks have pages for, but
      for the two meta pages.  One byte more, and the system halts with exactly those written. */
  method FillChip(chip: Chip, total: nat, name: seq<byte>, data: seq<byte>) returns (fs: FlashFs, o: Outcome)
    requires 0 < total <= 254 && chip.mem.Length == ERASE_BLOCK_SIZE * total
    requires forall i :: 0 <= i < chip.mem.Length ==> chip.mem[i] == 0xff
    modifies chip.mem
    ensures fs.Valid() && Capacity(total) > 0
    ensures o == if |data| <= Capacity(total) then Returned(|data|) else AssertFailed
    ensures fs.Files() == OneFile(if |data| <= Capacity(total) then data else data[..Capacity(total)])
  {
    hide PageDriver.Valid, PageDriver.RoomOf, Cost, RoomAfter, Needs, Stops, WriteStep, Reach, PagesTouched, FilePage,
         BlockOf, FlashFs.State, FlashFs.Files, Written, OneFile, Splice;
    fs := FirstFile(chip, total, name);
    ghost var d := fs.State();
    OneFileIs([]);
    NewFileCost(total - 1, |data|);
    o := fs.Write(0, 0, data);
    if o.Returned? {
      OneWritten(d, data, PagesTouched(0, |data|));
      ReachEnds(0, |data|);
      assert data[..|data|] == data;
    } else {
      CostIs(51 * (total - 1) + 49, total - 1);
      OneWritten(d, data, 51 * (total - 1) + 49);
    }
  }

  /** The contents of a file system with file 0 only. */
  function OneFile(file: seq<byte>): (files: seq<Option<seq<byte>>>)
    ensures |files| == MAX_FILES
  {
    seq(MAX_FILES, _ => None)[0 := Some(file)]
  }

  lemma OneFileIs(file: seq<byte>)
    ensures OneFile(file)[0] == Some(file)
  {
  }

  lemma OneWritten(d: Disk, data: seq<byte>, m: nat)
    requires d.Shaped() && d.files == OneFile([]) && d.rooms[0] == NewFileRoom() && Cost(d.rooms[0], 2, m) <= d.free
    ensures FilePage(0) == 2 && BlockOf(2) == 0 && d.files[0] == Some([])
    ensures Written(d, 0, 0, data, m).files == OneFile(data[..Reach(0, |data|, m)])
  {
    hide Cost, RoomAfter, Reach;
    var part := data[..Reach(0, |data|, m)];
    assert Splice([], 0, part) == part;
  }

  /** An erased chip with one file, which is empty. */
  method FirstFile(chip: Chip, total: nat, name: seq<byte>) returns (fs: FlashFs)
    requires 0 < total <= 254 && chip.mem.Length == ERASE_BLOCK_SIZE * total
    requires forall i :: 0 <= i < chip.mem.Length ==> chip.mem[i] == 0xff
    modifies chip.mem
    ensures Unshared(fs) && fs.Valid() && fs.pages.blk.chip == chip
    ensures |fs.pages.blk.chains| == LISTS && |fs.pages.raws| == MAX_FILES
    ensures fs.Files() == OneFile([])
    ensures fs.State().rooms[0] == NewFileRoom() && fs.State().free == total - 1
  {
    hide PageDriver.Valid, PageDriver.RoomOf, FlashFs.State, Visible;
    fs := MountBlank(chip, total);
    assert fs.Files()[0].None?;
    var f := fs.CreateFile(name);
    assert f == 0;
  }
}
