/** flash_fs.c: files as byte sequences.  A file's first two pages are meta data (the name, then
    a reserved page); reads and writes are cut into pages behind them. */
module FlashFs {
  import opened Bytes
  import opened Integers
  import opened FfsLayout
  import opened FfsLists
  import opened FfsFile
  import opened FfsCost
  import opened FfsStore
  import opened FfsBlock
  import opened FfsPage

  const FILENAME_LEN := 32
  const FILE_META_SIZE := 128
  const FILE_PAGE_DATA_0 := 2

  /** The first meta page: the name cut or zero-padded to 32 bytes, as strncpy leaves it. */
  function Meta0(name: seq<byte>): (r: seq<byte>)
    ensures |r| == PAGE_DATA_SIZE
  {
    Padded(name, FILENAME_LEN) + Ones(PAGE_DATA_SIZE - FILENAME_LEN)
  }

  function Padded(name: seq<byte>, n: nat): (r: seq<byte>)
    ensures |r| == n
  {
    if n == 0 then []
    else if name == [] || name[0] == 0 then seq(n, _ => 0)
    else [name[0]] + Padded(name[1..], n - 1)
  }

  /** What the page holds: the name up to its first zero byte and at most 32 bytes of it, zeros up to
      byte 31, and erased bytes behind. */
  lemma Meta0Holds(name: seq<byte>, i: nat)
    requires i < PAGE_DATA_SIZE
    ensures Meta0(name)[i]
            == if i >= 32 then 0xff else if i < |name| && 0 !in name[..i + 1] then name[i] else 0
  {
    if i < 32 {
      PaddedAt(name, FILENAME_LEN, i);
    }
  }

  lemma {:induction false} PaddedAt(name: seq<byte>, n: nat, i: nat)
    requires i < n
    ensures Padded(name, n)[i] == if i < |name| && 0 !in name[..i + 1] then name[i] else 0
    decreases n
  {
    if name == [] {
    } else if name[0] == 0 {
      assert 0 in name[..1] && (i < |name| ==> name[..i + 1][0] == 0);
    } else if i > 0 {
      PaddedAt(name[1..], n - 1, i - 1);
      if i < |name| {
        assert name[..i + 1] == [name[0]] + name[1..][..i];
      }
    } else {
      assert name[..1] == [name[0]];
    }
  }

  lemma LongerName(a: seq<byte>, b: seq<byte>)
    requires 0 !in a && 0 !in b && |a| < |b| <= 32
    ensures Meta0(a)[|a|] != Meta0(b)[|a|]
  {
    Meta0Holds(a, |a|);
    Meta0Holds(b, |a|);
    assert b[|a|] in b;
  }

  /** Two names without zero bytes that fit give different pages. */
  lemma NamesDiffer(a: seq<byte>, b: seq<byte>)
    requires 0 !in a && 0 !in b && |a| <= 32 && |b| <= 32 && Meta0(a) == Meta0(b)
    ensures a == b
  {
    forall i: nat | i < 32
      ensures Meta0(a)[i] == (if i < |a| then a[i] else 0) && Meta0(b)[i] == if i < |b| then b[i] else 0
    {
      Meta0Holds(a, i);
      Meta0Holds(b, i);
    }
    if |a| < |b| {
      LongerName(a, b);
    } else if |b| < |a| {
      LongerName(b, a);
    }
    hide Meta0;
    assert forall i | 0 <= i < |a| :: a[i] == Meta0(a)[i] == b[i];
  }

  /** For each file id the bytes of the file behind its meta pages, if there is one. */
  function Visible(sizes: seq<int>, raws: seq<seq<byte>>): (r: seq<Option<seq<byte>>>)
    ensures |r| == MAX_FILES
  {
    seq(MAX_FILES, f requires 0 <= f < MAX_FILES =>
      if f < |sizes| && sizes[f] >= 0 && f < |raws| && |raws[f]| >= FILE_META_SIZE
        then Some(raws[f][FILE_META_SIZE..]) else None)
  }

  /** All that decides what a user will see of the file system, now and later: for each file id the
      file's bytes, its two meta pages, and its blocks' free slots; and the number of free blocks. */
  datatype Disk = Disk(files: seq<Option<seq<byte>>>, metas: seq<Option<seq<byte>>>, rooms: seq<Room>, free: nat) {
    ghost predicate Shaped() { |files| == |metas| == |rooms| == MAX_FILES }

    /** How many blocks and pages a file has follows from how long it is. */
    ghost predicate Sized() {
      Shaped() && forall f: nat | f < MAX_FILES ::
        if files[f].None? then rooms[f].slots == [] && rooms[f].pages == 0
        else
          var size := FILE_META_SIZE + |files[f].value|;
          |rooms[f].slots| == BlockCount(size) && rooms[f].pages == PageCount(size)
    }

    /** How many blocks are dirty, of `total` in all. */
    function Dirty(total: nat): int { total - free - BlocksHeld(rooms) }
  }

  function BlocksHeld(rooms: seq<Room>): nat {
    if rooms == [] then 0 else BlocksHeld(rooms[..|rooms| - 1]) + |rooms[|rooms| - 1].slots|
  }

  function MetasOf(sizes: seq<int>, raws: seq<seq<byte>>): (r: seq<Option<seq<byte>>>)
    ensures |r| == MAX_FILES
  {
    seq(MAX_FILES, f requires 0 <= f < MAX_FILES =>
      if f < |sizes| && sizes[f] >= 0 && f < |raws| && |raws[f]| >= FILE_META_SIZE
        then Some(raws[f][..FILE_META_SIZE]) else None)
  }

  function RoomsOf(raws: seq<seq<byte>>, frees: seq<seq<nat>>): (r: seq<Room>)
    requires |raws| == |frees| == MAX_FILES
    ensures |r| == MAX_FILES && forall f: nat | f < MAX_FILES :: r[f] == Room(frees[f], PageCount(|raws[f]|))
  {
    seq(MAX_FILES, f requires 0 <= f < MAX_FILES => Room(frees[f], PageCount(|raws[f]|)))
  }

  /** A file with other bytes and other free slots. */
  lemma DiskUpdate(sizes: seq<int>, raws: seq<seq<byte>>, frees: seq<seq<nat>>, f: nat, raw: seq<byte>, slots: seq<nat>)
    requires f < MAX_FILES && |sizes| == |raws| == |frees| == MAX_FILES && |raw| >= FILE_META_SIZE
    ensures Visible(sizes[f := |raw|], raws[f := raw]) == Visible(sizes, raws)[f := Some(raw[FILE_META_SIZE..])]
    ensures MetasOf(sizes[f := |raw|], raws[f := raw]) == MetasOf(sizes, raws)[f := Some(raw[..FILE_META_SIZE])]
    ensures RoomsOf(raws[f := raw], frees[f := slots])
            == RoomsOf(raws, frees)[f := Room(slots, PageCount(|raw|))]
  {
  }

  lemma DiskRemove(sizes: seq<int>, raws: seq<seq<byte>>, frees: seq<seq<nat>>, f: nat)
    requires f < MAX_FILES && |sizes| == |raws| == |frees| == MAX_FILES
    ensures Visible(sizes[f := -1], raws[f := []]) == Visible(sizes, raws)[f := None]
    ensures MetasOf(sizes[f := -1], raws[f := []]) == MetasOf(sizes, raws)[f := None]
    ensures RoomsOf(raws[f := []], frees[f := []]) == RoomsOf(raws, frees)[f := Room([], 0)]
  {
  }

  /** A new file: empty, its name in the meta pages, in a block of its own. */
  function Created(d: Disk, f: nat, name: seq<byte>): (d': Disk)
    requires d.Shaped() && f < MAX_FILES && d.free > 0
    ensures d'.Shaped()
  {
    Disk(d.files[f := Some([])], d.metas[f := Some(Meta0(name) + Ones(PAGE_DATA_SIZE))],
         d.rooms[f := NewFileRoom()], d.free - 1)
  }

  function Removed(d: Disk, f: nat): (d': Disk)
    requires d.Shaped() && f < MAX_FILES
    ensures d'.Shaped()
  {
    Disk(d.files[f := None], d.metas[f := None], d.rooms[f := Room([], 0)], d.free)
  }

  /** The part of `data` that falls into the first m pages from `position` on is in the file, and
      paid for. */
  function Written(d: Disk, f: nat, position: nat, data: seq<byte>, m: nat): (d': Disk)
    requires d.Shaped() && f < MAX_FILES && d.files[f].Some? && position <= |d.files[f].value|
    requires BlockOf(FilePage(position)) <= |d.rooms[f].slots| && Cost(d.rooms[f], FilePage(position), m) <= d.free
    ensures d'.Shaped()
  {
    var first := FilePage(position);
    Disk(d.files[f := Some(Splice(d.files[f].value, position, data[..Reach(position, |data|, m)]))], d.metas,
         d.rooms[f := RoomAfter(d.rooms[f], first, m)], d.free - Cost(d.rooms[f], first, m))
  }

  /** The abstract state that an operation starts from, or has come to. */
  datatype Snapshot = Snapshot(raws: seq<seq<byte>>, sizes: seq<int>, chains: Chains, frees: seq<seq<nat>>) {
    /** What a user sees of it. */
    ghost predicate IsDisk(d: Disk) {
      && |raws| == |frees| == MAX_FILES && |chains| == LISTS
      && d == Disk(Visible(sizes, raws), MetasOf(sizes, raws), RoomsOf(raws, frees), |chains[FREE]|)
    }

    function RoomOf(f: nat): Room {
      if f < |raws| && f < |frees| then Room(frees[f], PageCount(|raws[f]|)) else Room([], 0)
    }

    /** m pages of the data have been written since `was`, at the cost that the room called for. */
    ghost predicate After(f: nat, position: nat, data: seq<byte>, was: Snapshot, m: nat) {
      && f < MAX_FILES && |chains| == |was.chains| == LISTS
      && |raws| == |sizes| == |frees| == |was.sizes| == |was.frees| == MAX_FILES
      && WroteSome(was.raws, raws, f, position, data, Reach(position, |data|, m))
      && was.sizes[f] >= 0 && sizes == was.sizes[f := |raws[f]|] && frees == was.frees[f := frees[f]]
      && BlockOf(FilePage(position)) <= |was.RoomOf(f).slots|
      && RoomOf(f) == RoomAfter(was.RoomOf(f), FilePage(position), m)
      && |chains[FREE]| == |was.chains[FREE]| - Cost(was.RoomOf(f), FilePage(position), m)
      && (m == 0 ==> chains == was.chains)
      && (m == 1 ==> WriteStep(was.chains, chains, f, FilePage(position) / 51))
    }

    lemma InFile(f: nat, position: nat, data: seq<byte>, was: Snapshot, m: nat)
      requires After(f, position, data, was, m)
      ensures |raws| == |sizes| == MAX_FILES && f < MAX_FILES
      ensures 0 <= FILE_META_SIZE + position + Reach(position, |data|, m) <= |raws[f]| == sizes[f]
    {
      hide WriteStep, Cost, RoomAfter;
      SpliceLength(was.raws[f], FILE_META_SIZE + position, data[..Reach(position, |data|, m)]);
    }

    /** One page more. */
    lemma Next(f: nat, position: nat, data: seq<byte>, was: Snapshot, m: nat, now: Snapshot, n: nat)
      requires After(f, position, data, was, m) && Reach(position, |data|, m) < |data| && |now.chains| == LISTS
      requires var pos := position + Reach(position, |data|, m);
               && n == Fitting(pos % 64, |data| - Reach(position, |data|, m)) && FILE_META_SIZE + pos <= |raws[f]|
               && FilePage(pos) == FilePage(position) + m && BlockOf(FilePage(pos)) <= |RoomOf(f).slots|
               && now.raws == raws[f := Splice(raws[f], FILE_META_SIZE + pos, data[pos - position..][..n])]
               && now.sizes == sizes[f := |now.raws[f]|] && |now.frees| == MAX_FILES
               && now.frees == frees[f := now.frees[f]] && now.RoomOf(f) == Used(RoomOf(f), FilePage(pos))
               && |now.chains[FREE]| == |chains[FREE]| - (if Needs(RoomOf(f), FilePage(pos)) then 1 else 0)
               && WriteStep(chains, now.chains, f, FilePage(pos) / 51)
      ensures now.After(f, position, data, was, m + 1)
    {
      hide WriteStep, Splice, Needs, Used, Reach, PagesTouched, FilePage, BlockOf, Cost, RoomAfter, Snapshot.RoomOf;
      var written := Reach(position, |data|, m);
      ReachNone(position, |data|);
      CostStep(was.RoomOf(f), FilePage(position), m);
      ReachNext(position, |data|, m, n);
      SpliceSplice(was.raws[f], FILE_META_SIZE + position, data[..written], data[written..][..n]);
      assert data[..written] + data[written..][..n] == data[..written + n];
    }

    lemma Stop(f: nat, position: nat, data: seq<byte>, was: Snapshot, m: nat)
      requires After(f, position, data, was, m) && chains[FREE] == []
      requires Needs(RoomOf(f), FilePage(position) + m)
      ensures Stops(was.RoomOf(f), FilePage(position), m, |was.chains[FREE]|)
    {
    }
  }

  /** How many bytes a turn of the read loop takes from a page of `len` bytes: none past its end, and
      no more than are asked for or left of the file. */
  function ReadLength(len: nat, offset: nat, left: nat, rest: nat): (n: nat)
    ensures n <= left && n <= rest && (n > 0 ==> offset + n <= len)
  {
    if offset > len then 0 else Least(Least(PAGE_DATA_SIZE, left), Least(len - offset, rest))
  }

  function Least(a: nat, b: nat): nat { if a < b then a else b }

  /** Where a position of a file is: on a page that has it, or at the end of the file. */
  lemma PageAt(raw: seq<byte>, pos: nat, left: nat, fileSize: nat, total: nat)
    requires |raw| == FILE_META_SIZE + fileSize <= 3264 * total && pos <= fileSize && left > 0
    ensures var p, offset := pos / 64 + FILE_PAGE_DATA_0, pos % 64;
            && 64 * p + offset == FILE_META_SIZE + pos
            && (p / 51 >= total <==> pos == fileSize && FILE_META_SIZE + fileSize == 3264 * total)
            && (pos < fileSize ==> HasPage(raw, p) && ReadLength(|PageBytes(raw, p)|, offset, left, fileSize - pos) > 0)
  {
  }

  lemma ReadJoins(raw: seq<byte>, skip: nat, from: nat, pos: nat, n: nat)
    requires from <= pos && skip + pos + n <= |raw|
    ensures raw[skip..][from..pos] + raw[skip + pos..skip + pos + n] == raw[skip..][from..pos + n]
  {
  }

  /** A full page at the end of a file. */
  lemma MetaPage(raws: seq<seq<byte>>, raws': seq<seq<byte>>, f: nat, page: nat, data: seq<byte>)
    requires PageWritten(raws, raws', f, page, 0, data) && |data| == PAGE_DATA_SIZE && |raws| == MAX_FILES
    requires f < MAX_FILES && |raws[f]| == 64 * page
    ensures raws' == raws[f := raws[f] + data]
  {
    assert Fitting(0, |data|) == |data| && data[..|data|] == data;
    assert Splice(raws[f], 64 * page, data) == raws[f] + data;
  }

  /** The meta pages take the first two slots. */
  lemma MetaSlots()
    ensures var r := Room([SLOTS], 0);
            && !Needs(r, 0) && Used(r, 0) == Room([SLOTS - 1], 1)
            && !Needs(Used(r, 0), 1) && Used(Used(r, 0), 1) == NewFileRoom()
  {
  }

  class FlashFs {
    const pages: PageDriver

    constructor (pages: PageDriver)
      requires pages.Valid() && pages.blk.total > 0
      requires forall f: nat :: f < MAX_FILES ==> pages.sizes[f] < 0 || pages.sizes[f] >= FILE_META_SIZE
      ensures this.pages == pages && Valid()
    {
      this.pages := pages;
      new;
      pages.Facts();
    }

    /** The page driver is consistent, its cache included, and every file has its meta pages. */
    ghost predicate Valid()
      reads pages, pages.files, pages.blk, pages.blk.next, pages.blk.chip.mem
    {
      && pages.Valid() && pages.blk.total > 0 && |pages.sizes| == MAX_FILES && |pages.raws| == MAX_FILES
         && |pages.blk.chains| == LISTS
      && forall f: nat :: f < MAX_FILES ==> pages.sizes[f] < 0 || pages.sizes[f] >= FILE_META_SIZE
    }

    /** The file system a user sees. */
    ghost function Files(): (r: seq<Option<seq<byte>>>)
      reads pages`sizes, pages`raws
      ensures |r| == MAX_FILES
    {
      Visible(pages.sizes, pages.raws)
    }

    ghost function State(): (d: Disk)
      requires |pages.blk.chains| == LISTS && |pages.raws| == MAX_FILES
      reads pages`sizes, pages`raws, pages.blk`chains, pages.blk`views
      ensures d.Shaped() && d.files == Files() && d.free == |pages.blk.chains[FREE]|
      ensures forall f: nat | f < MAX_FILES :: d.rooms[f] == pages.RoomOf(f)
    {
      Disk(Files(), MetasOf(pages.sizes, pages.raws), RoomsOf(pages.raws, pages.Frees()), |pages.blk.chains[FREE]|)
    }

    /** Free blocks, dirty blocks and those of the files make up the chip. */
    lemma Accounted()
      requires Valid()
      ensures State().Dirty(pages.blk.total) == |pages.blk.chains[DIRTY]|
    {
      pages.Conserved();
      HeldIs(MAX_FILES);
      assert State().rooms[..MAX_FILES] == State().rooms;
      assert pages.blk.chains[FIRST_FILE..][..MAX_FILES] == pages.blk.chains[FIRST_FILE..];
    }

    lemma {:induction false} HeldIs(n: nat)
      requires |pages.blk.chains| == LISTS && |pages.raws| == MAX_FILES && n <= MAX_FILES
      ensures BlocksHeld(State().rooms[..n]) == Total(pages.blk.chains[FIRST_FILE..][..n])
    {
      hide PageDriver.RoomOf, Visible, MetasOf, RoomsOf, AllFree;
      if n > 0 {
        HeldIs(n - 1);
        var rooms, lists := State().rooms[..n], pages.blk.chains[FIRST_FILE..][..n];
        assert rooms[..n - 1] == State().rooms[..n - 1];
        assert lists[..n - 1] == pages.blk.chains[FIRST_FILE..][..n - 1];
        assert lists[n - 1] == FileList(pages.blk.chains, n - 1);
      }
    }

    lemma StateSized()
      requires Valid()
      ensures State().Sized()
    {
      hide MetasOf, RoomsOf, AllFree, BlockCount, PageDriver.Valid;
      pages.Facts();
      pages.ListFacts();
    }

    /** How many blocks a file has follows from how long it is. */
    lemma BlockCounts()
      requires Valid()
      ensures forall f: nat | f < MAX_FILES ::
                |FileList(pages.blk.chains, f)|
                == if Files()[f].Some? then BlockCount(FILE_META_SIZE + |Files()[f].value|) else 0
    {
      pages.Facts();
      pages.ListFacts();
    }

    method GetFileSize(f: int) returns (size: int)
      requires Valid() && f < MAX_FILES
      ensures f < 0 ==> size == -4
      ensures f >= 0 ==> if Files()[f].Some? then size == |Files()[f].value| else size < 0
    {
      hide PageDriver.Valid;
      if f < 0 {
        return STATUS_INVALID_FILE;
      }
      pages.Facts();
      var rawSize := pages.files[f].size;
      if rawSize < 0 {
        return rawSize;
      }
      if rawSize < FILE_META_SIZE {
        return STATUS_ERROR;
      }
      size := rawSize - FILE_META_SIZE;
    }

    method DeleteFile(f: int) returns (status: int)
      requires Valid() && f < MAX_FILES
      modifies pages.files, pages`sizes, pages`raws, pages.blk, pages.blk.next, pages.blk.chip.mem
      ensures Valid()
      ensures f < 0 ==>
                status == STATUS_INVALID_FILE && State() == old(State()) && pages.blk.chains == old(pages.blk.chains)
      ensures f >= 0 ==>
                && status == 0 && State() == Removed(old(State()), f)
                && |old(pages.blk.chains)| == LISTS && pages.blk.chains == AfterDelete(old(pages.blk.chains), f)
    {
      hide PageDriver.Valid, Visible, MetasOf, RoomsOf;
      if f < 0 {
        return STATUS_INVALID_FILE;
      }
      DiskRemove(pages.sizes, pages.raws, pages.Frees(), f);
      status := pages.PageDelete(f);
    }

    /** Creates an empty file under the lowest free id, or reports why it cannot. */
    method CreateFile(name: seq<byte>) returns (file: int)
      requires Valid()
      modifies pages, pages.files, pages.blk, pages.blk.next, pages.blk.chip.mem
      ensures Valid() && |old(pages.blk.chains)| == LISTS
      ensures file >= 0
              <==> (exists g: nat :: g < MAX_FILES && old(Files())[g].None?) && old(pages.blk.chains)[FREE] != []
      ensures file >= 0 ==>
                && file < MAX_FILES && old(Files())[file].None? && (forall g: nat :: g < file ==> old(Files())[g].Some?)
                && State() == Created(old(State()), file, name)
                && State().metas[file].Some? && |State().metas[file].value| == FILE_META_SIZE
                && (forall i: nat | i < FILE_META_SIZE ::
                      State().metas[file].value[i]
                      == if i >= 32 then 0xff else if i < |name| && 0 !in name[..i + 1] then name[i] else 0)
                && pages.raws[file] == Meta0(name) + Ones(PAGE_DATA_SIZE)
                && pages.blk.chains == AfterAlloc(old(pages.blk.chains), file) && |pages.raws| == MAX_FILES
                && pages.RoomOf(file) == NewFileRoom()
      ensures file < 0 ==>
                && State() == old(State()) && pages.blk.chains == old(pages.blk.chains)
                && file
                   == if forall g: nat :: g < 23 ==> Files()[g].Some? then -3
                      else -2
    {
      hide PageDriver.Valid, Padded, AfterAlloc, PageDriver.Shape, Covering, PageDriver.CacheOk, PageDriver.RoomOf,
           MetasOf, RoomsOf, AllFree, FreeSlots, Created, FlashFs.State, Visible, Snapshot.IsDisk, Snapshot.RoomOf;
      ghost var was, d := Now(), State();
      pages.Facts();
      FilesThere();
      file := pages.PageCreate();
      if file < 0 {
        SameState(was, d);
        return;
      }
      WriteMetaPages(file, name);
      CreatedState(file, name, was, d);
      CreatedName(d, file, name);
    }

    lemma CreatedName(d: Disk, f: nat, name: seq<byte>)
      requires d.Shaped() && f < MAX_FILES && d.free > 0
      ensures var meta := Created(d, f, name).metas[f];
              && meta.Some? && |meta.value| == FILE_META_SIZE
              && forall i: nat | i < FILE_META_SIZE ::
                   meta.value[i]
                   == if i >= 32 then 0xff else if i < |name| && 0 !in name[..i + 1] then name[i] else 0
    {
      forall i: nat | i < PAGE_DATA_SIZE
        ensures Meta0(name)[i] == if i >= 32 then 0xff else if i < |name| && 0 !in name[..i + 1] then name[i] else 0
      {
        Meta0Holds(name, i);
      }
      hide Meta0;
    }

    lemma FilesThere()
      requires Valid()
      ensures forall f: nat | f < MAX_FILES :: Files()[f].Some? <==> pages.sizes[f] >= 0
    {
      pages.Facts();
    }

    lemma SameState(was: Snapshot, d: Disk)
      requires |pages.blk.chains| == LISTS && |pages.raws| == MAX_FILES && was.IsDisk(d)
      requires pages.raws == was.raws && pages.sizes == was.sizes && pages.Frees() == was.frees
      requires |pages.blk.chains[FREE]| == |was.chains[FREE]|
      ensures State() == d
    {
    }

    /** Only free blocks, and the free slots of file f, are different. */
    lemma RoomState(f: nat, was: Snapshot, d: Disk)
      requires |pages.blk.chains| == LISTS && |pages.raws| == MAX_FILES && was.IsDisk(d) && f < MAX_FILES
      requires pages.raws == was.raws && pages.sizes == was.sizes
      requires pages.Frees() == was.frees[f := pages.FreeOf(f)]
      ensures State() == d.(rooms := d.rooms[f := pages.RoomOf(f)], free := |pages.blk.chains[FREE]|)
    {
      hide AllFree, FreeSlots, Visible, MetasOf;
    }

    lemma CreatedState(f: nat, name: seq<byte>, was: Snapshot, d: Disk)
      requires f < MAX_FILES && |pages.raws| == |was.raws| == |was.sizes| == |was.frees| == MAX_FILES
      requires |pages.blk.chains| == |was.chains| == LISTS && was.chains[FREE] != [] && was.IsDisk(d)
      requires pages.raws == was.raws[f := Meta0(name) + Ones(PAGE_DATA_SIZE)]
      requires pages.sizes == was.sizes[f := FILE_META_SIZE] && pages.Frees() == was.frees[f := [SLOTS - 2]]
      requires pages.blk.chains == AfterAlloc(was.chains, f)
      ensures State() == Created(d, f, name)
    {
      hide AllFree, FreeSlots, Padded;
      assert pages.raws[f][FILE_META_SIZE..] == [];
      assert pages.raws[f][..FILE_META_SIZE] == pages.raws[f];
      DiskUpdate(was.sizes, was.raws, was.frees, f, pages.raws[f], [SLOTS - 2]);
    }

    /** The two page writes that give a new file its meta pages. */
    method WriteMetaPages(f: nat, name: seq<byte>)
      requires pages.Shape(-1) && Covering(pages.blk.chains, pages.blk.total) && f < MAX_FILES && pages.sizes[f] == 0
      requires pages.cacheFile != f ==> pages.CacheOk()
      modifies pages, pages.files, pages.blk, pages.blk.next, pages.blk.chip.mem
      ensures pages.Valid() && |old(pages.raws)| == MAX_FILES && |old(pages.sizes)| == MAX_FILES
              && |pages.blk.chains| == LISTS
      ensures pages.raws == old(pages.raws)[f := Meta0(name) + Ones(PAGE_DATA_SIZE)]
      ensures pages.sizes == old(pages.sizes)[f := FILE_META_SIZE] && pages.blk.chains == old(pages.blk.chains)
      ensures pages.RoomOf(f) == NewFileRoom() && pages.Frees() == old(pages.Frees())[f := [SLOTS - 2]]
    {
      hide PageDriver.Holding, Meta0, PageDriver.NeedsBlock, PageDriver.RoomOf, BlockDriver.Valid, PageDriver.Table,
           AllFree, FreeSlots, Covering, PageDriver.CacheOk, PageDriver.CacheShape, WriteStep, PageWritten, Needs, Used;
      ghost var raws0, frees0 := pages.raws, pages.Frees();
      pages.RoomOfEmpty(f);
      MetaSlots();
      var o := pages.PageWrite(f, 0, 0, Meta0(name));
      MetaPage(raws0, pages.raws, f, 0, Meta0(name));
      ghost var raws1 := pages.raws;
      o := pages.PageWrite(f, 1, 0, Ones(PAGE_DATA_SIZE));
      MetaPage(raws1, pages.raws, f, 1, Ones(PAGE_DATA_SIZE));
      assert raws0[f] + Meta0(name) == Meta0(name);
    }

    /** Reads `len` bytes from `position`.  A window inside the file gives exactly its bytes; one
        that reaches past the end is an error, or trips an ASSERT when the file fills the chip. */
    method Read(f: int, position: nat, len: nat) returns (o: Outcome, data: seq<byte>)
      requires Valid() && f < MAX_FILES
      modifies pages`cachePage, pages`cacheNumber, pages`cacheFile, pages.blk`cacheBlock, pages.blk`cacheIndex
      ensures Valid()
      ensures f < 0 || Files()[f].None? ==> o == Returned(-4)
      ensures f >= 0 && Files()[f].Some? && position >= |Files()[f].value| ==> o == Returned(-5)
      ensures f >= 0 && Files()[f].Some? && position < |Files()[f].value| ==>
                var file := Files()[f].value;
                if position + len <= |file| then o == Returned(len) && data == file[position..position + len]
                else o == if FILE_META_SIZE + |file| == BLOCK_DATA_SIZE * pages.blk.total then AssertFailed
                          else Returned(-6)
    {
      hide PageDriver.Valid;
      data := [];
      if f < 0 {
        return Returned(STATUS_INVALID_FILE), data;
      }
      pages.Facts();
      var fileSize := GetFileSize(f);
      if fileSize < 0 {
        return Returned(STATUS_INVALID_FILE), data;
      }
      if position >= fileSize {
        return Returned(STATUS_EOF), data;
      }
      ghost var file := pages.raws[f][FILE_META_SIZE..];
      var pos, left := position, len;
      while left > 0
        invariant 0 <= left <= len && pos == position + (len - left) <= fileSize && |data| == len - left
        invariant Valid() && data == file[position..pos]
        decreases left
      {
        var chunk;
        o, chunk := ReadChunk(f, pos, left, fileSize);
        if o != Returned(STATUS_OK) {
          return;
        }
        ReadJoins(pages.raws[f], FILE_META_SIZE, position, pos, |chunk|);
        data := data + chunk;
        left := left - |chunk|;
        pos := pos + |chunk|;
      }
      o := Returned(|data|);
    }

    /** One turn of the read loop: what the page at `pos` has to give. */
    method ReadChunk(f: nat, pos: nat, left: nat, fileSize: nat) returns (o: Outcome, data: seq<byte>)
      requires Valid() && f < MAX_FILES && pages.sizes[f] == |pages.raws[f]| == FILE_META_SIZE + fileSize
      requires pos <= fileSize && left > 0 && |pages.raws[f]| <= 3264 * pages.blk.total
      modifies pages`cachePage, pages`cacheNumber, pages`cacheFile, pages.blk`cacheBlock, pages.blk`cacheIndex
      ensures Valid()
      ensures pos < fileSize ==>
                && o == Returned(0) && 0 < |data| <= left && pos + |data| <= fileSize
                && data == pages.raws[f][FILE_META_SIZE + pos..FILE_META_SIZE + pos + |data|]
      ensures pos == fileSize ==>
                o == if FILE_META_SIZE + fileSize == 3264 * pages.blk.total then AssertFailed
                  else Returned(-6)
    {
      hide PageDriver.Base, PageDriver.Holding, PageDriver.Held, PageDriver.CacheOk, Covering, SlotHolds, Visible,
           PageBytes, HasPage, ReadLength;
      data := [];
      pages.Readable(f);
      PageAt(pages.raws[f], pos, left, fileSize, pages.blk.total);
      var filePage := pos / PAGE_DATA_SIZE + FILE_PAGE_DATA_0;
      var offset := pos % PAGE_DATA_SIZE;
      if filePage / DATA_PAGES >= pages.blk.total {
        return AssertFailed, data;
      }
      var status := pages.ReadCoherent(f, filePage);
      if status < 0 {
        return Returned(STATUS_ERROR), data;
      }
      var page := pages.cachePage;
      SlotChecked(page, PageBytes(pages.raws[f], filePage));
      var n := ReadLength(page[0], offset, left, fileSize - pos);
      if n == 0 {
        return Returned(STATUS_ERROR), data;
      }
      SlotWindow(page, pages.raws[f], filePage, offset, n);
      data := page[1 + offset..1 + offset + n];
      o := Returned(STATUS_OK);
    }

    /** One turn of the write loop: the part of `data` that falls into the page at `pos`.  It halts
        exactly when that page needs a block and none is free. */
    method WriteChunk(f: nat, pos: nat, data: seq<byte>) returns (o: Outcome, n: nat)
      requires Valid() && f < MAX_FILES && pages.sizes[f] >= 0 && FILE_META_SIZE + pos <= pages.sizes[f] && |data| > 0
      modifies pages, pages.files, pages.blk, pages.blk.next, pages.blk.chip.mem
      ensures Valid() && |old(pages.raws)| == |old(pages.sizes)| == MAX_FILES && |old(pages.blk.chains)| == LISTS
      ensures WriteStep(old(pages.blk.chains), pages.blk.chains, f, FilePage(pos) / 51)
      ensures BlockOf(FilePage(pos)) <= |old(pages.RoomOf(f)).slots|
      ensures o.AssertFailed? <==> Needs(old(pages.RoomOf(f)), FilePage(pos)) && old(pages.blk.chains)[FREE] == []
      ensures o.AssertFailed? ==>
                && pages.raws == old(pages.raws) && pages.sizes == old(pages.sizes)
                   && pages.blk.chains == old(pages.blk.chains)
                && pages.blk.views == old(pages.blk.views)
      ensures o.Returned? ==>
                && n == Fitting(pos % 64, |data|) && FILE_META_SIZE + pos <= |old(pages.raws)[f]|
                && pages.raws == old(pages.raws)[f := Splice(old(pages.raws)[f], FILE_META_SIZE + pos, data[..n])]
                && pages.sizes == old(pages.sizes)[f := |pages.raws[f]|]
                && pages.RoomOf(f) == Used(old(pages.RoomOf(f)), FilePage(pos))
                && pages.Frees() == old(pages.Frees())[f := pages.FreeOf(f)]
                && |pages.blk.chains[FREE]|
                   == |old(pages.blk.chains)[FREE]| - if Needs(old(pages.RoomOf(f)), FilePage(pos)) then 1 else 0
    {
      hide PageDriver.Shape, PageDriver.CacheOk, Covering, PageDriver.RoomOf, PageDriver.NeedsBlock, Used, Needs,
           WriteStep;
      pages.Facts();
      var filePage := pos / PAGE_DATA_SIZE + FILE_PAGE_DATA_0;
      var offset := pos % PAGE_DATA_SIZE;
      n := PAGE_DATA_SIZE;
      if n > |data| {
        n := |data|;
      }
      if n > PAGE_DATA_SIZE - offset {
        n := PAGE_DATA_SIZE - offset;
      }
      assert 64 * filePage + offset == FILE_META_SIZE + pos;
      pages.PagesReach(f, filePage);
      o := pages.PageWrite(f, filePage, offset, data[..n]);
      StepCost(old(pages.blk.chains), pages.blk.chains, f, filePage / DATA_PAGES);
      assert data[..n][..n] == data[..n];
    }

    /** Writes `data` at `position`, page by page.  The room the file has decides beforehand what the
        write costs: it gets to the end exactly when that many blocks are free.  If not, the system
        halts at the first page that needs a block when none is left, and what was written before
        stays. */
    method Write(f: int, position: nat, data: seq<byte>) returns (o: Outcome)
      requires Valid() && f < MAX_FILES
      modifies pages, pages.files, pages.blk, pages.blk.next, pages.blk.chip.mem
      ensures Valid() && |old(pages.blk.chains)| == LISTS && |old(pages.raws)| == MAX_FILES
      ensures f < 0 || old(Files())[f].None? ==>
                o == Returned(STATUS_INVALID_FILE) && State() == old(State())
                  && pages.blk.chains == old(pages.blk.chains)
      ensures f >= 0 && old(Files())[f].Some? && position > |old(Files())[f].value| ==>
                o == Returned(STATUS_EOF) && State() == old(State()) && pages.blk.chains == old(pages.blk.chains)
      ensures f >= 0 && old(Files())[f].Some? && position <= |old(Files())[f].value| ==>
                var first, total, d := FilePage(position), PagesTouched(position, |data|), old(State());
                && BlockOf(first) <= |d.rooms[f].slots| && (o.Returned? <==> Cost(d.rooms[f], first, total) <= d.free)
                && (o.Returned? ==>
                      && o.status == |data| && State() == Written(d, f, position, data, total)
                      && Files() == old(Files())[f := Some(Splice(old(Files())[f].value, position, data))]
                      && (OnePage(position, |data|) ==>
                          WriteStep(old(pages.blk.chains), pages.blk.chains, f, first / 51)))
                && (o.AssertFailed? ==>
                      exists m: nat | m < total && Stops(d.rooms[f], first, m, d.free) ::
                        State() == Written(d, f, position, data, m))
    {
      hide PageDriver.Valid, PageDriver.RoomOf, WriteStep, Cost, RoomAfter, Splice, Needs, Reach, BlockOf, MetasOf,
           RoomsOf;
      ReachNone(position, |data|);
      if f < 0 {
        return Returned(STATUS_INVALID_FILE);
      }
      var fileSize := GetFileSize(f);
      if fileSize < 0 {
        return Returned(STATUS_INVALID_FILE);
      }
      if position > fileSize {
        return Returned(STATUS_EOF);
      }
      pages.Facts();
      ghost var m;
      o, m := WriteLoop(f, position, data);
      ProgressState(f, position, data, old(Now()), old(State()), m);
      assert o.Returned? ==> data[..Reach(position, |data|, m)] == data;
    }

    /** The write loop; `m` counts the pages it writes. */
    method WriteLoop(f: nat, position: nat, data: seq<byte>) returns (o: Outcome, ghost m: nat)
      requires Valid() && f < MAX_FILES && pages.sizes[f] >= 0
               && FILE_META_SIZE + position <= pages.sizes[f] == |pages.raws[f]|
      modifies pages, pages.files, pages.blk, pages.blk.next, pages.blk.chip.mem
      ensures Valid() && |old(pages.raws)| == MAX_FILES && |old(pages.blk.chains)| == LISTS
      ensures m <= PagesTouched(position, |data|) && (o.Returned? <==> m == PagesTouched(position, |data|))
      ensures o.Returned? ==> o.status == |data| == Reach(position, |data|, m)
      ensures Progress(f, position, data, old(Now()), m)
      ensures o.Returned? <==> Cost(old(pages.RoomOf(f)), FilePage(position), PagesTouched(position, |data|))
                               <= |old(pages.blk.chains)[FREE]|
      ensures o.AssertFailed? ==> Stops(old(pages.RoomOf(f)), FilePage(position), m, |old(pages.blk.chains)[FREE]|)
    {
      hide PageDriver.Valid, PageDriver.RoomOf, Progress, Cost, Stops, Reach, PagesTouched, FilePage, BlockOf;
      ghost var was, room := Now(), pages.RoomOf(f);
      ghost var total := PagesTouched(position, |data|);
      m := 0;
      ReachNone(position, |data|);
      NoProgress(f, position, data);
      var pos, written := position, 0;
      while written < |data|
        invariant written == Reach(position, |data|, m) && pos == position + written
        invariant m <= total && (written == |data| <==> m == total)
        invariant written < |data| ==> FilePage(pos) == FilePage(position) + m
        invariant Valid() && BlockOf(FilePage(position)) <= |room.slots|
        invariant Progress(f, position, data, was, m)
        decreases |data| - written
      {
        var n;
        o, n := WriteTurn(f, position, pos, data, was, m);
        if o.AssertFailed? {
          StopsShort(room, FilePage(position), m, total, |was.chains[FREE]|);
          return;
        }
        ReachNext(position, |data|, m, n);
        written := written + n;
        pos := pos + n;
        m := m + 1;
      }
      ProgressCost(f, position, data, was, m);
      o := Returned(written);
    }

    /** One turn of the loop, in terms of what was there before the write. */
    method WriteTurn(f: nat, position: nat, pos: nat, data: seq<byte>, ghost was: Snapshot, ghost m: nat)
      returns (o: Outcome, n: nat)
      requires Valid() && Progress(f, position, data, was, m)
      requires position <= pos < position + |data| && pos - position == Reach(position, |data|, m)
      requires FilePage(pos) == FilePage(position) + m
      modifies pages, pages.files, pages.blk, pages.blk.next, pages.blk.chip.mem
      ensures Valid()
      ensures o.Returned? ==>
                && n == Fitting(pos % 64, |data| - (pos - position))
                && Progress(f, position, data, was, m + 1)
      ensures o.AssertFailed? ==>
                && Progress(f, position, data, was, m)
                && Stops(was.RoomOf(f), FilePage(position), m, |was.chains[FREE]|)
    {
      hide PageDriver.Valid, PageDriver.RoomOf, WriteStep, Splice, Needs, Used, Reach, PagesTouched, FilePage,
           BlockOf, Cost, RoomAfter, Snapshot.RoomOf, Snapshot.After;
      ghost var before := Now();
      before.InFile(f, position, data, was, m);
      pages.Facts();
      o, n := WriteChunk(f, pos, data[pos - position..]);
      if o.Returned? {
        before.Next(f, position, data, was, m, Now(), n);
      } else {
        before.Stop(f, position, data, was, m);
      }
    }

    ghost function Now(): (was: Snapshot)
      requires |pages.blk.chains| == LISTS && |pages.raws| == MAX_FILES
      reads pages`sizes, pages`raws, pages.blk`chains, pages.blk`views
      ensures |was.frees| == MAX_FILES && was.IsDisk(State())
      ensures forall f: nat | f < MAX_FILES :: was.frees[f] == pages.FreeOf(f) && was.RoomOf(f) == pages.RoomOf(f)
    {
      Snapshot(pages.raws, pages.sizes, pages.blk.chains, pages.Frees())
    }

    /** m pages of the data have been written. */
    ghost predicate Progress(f: nat, position: nat, data: seq<byte>, was: Snapshot, m: nat)
      reads pages`sizes, pages`raws, pages.blk`chains, pages.blk`views
    {
      |pages.blk.chains| == LISTS && |pages.raws| == MAX_FILES && Now().After(f, position, data, was, m)
    }

    lemma NoProgress(f: nat, position: nat, data: seq<byte>)
      requires Valid() && f < MAX_FILES && pages.sizes[f] >= 0
               && FILE_META_SIZE + position <= pages.sizes[f] == |pages.raws[f]|
      ensures BlockOf(FilePage(position)) <= |pages.RoomOf(f).slots|
      ensures Progress(f, position, data, Now(), 0)
    {
      hide PageDriver.Valid, PageDriver.RoomOf, BlockOf, PageDriver.NeedsBlock, WriteStep, Splice, Cost, RoomAfter,
           Reach;
      ReachNone(position, |data|);
      pages.PagesReach(f, FilePage(position));
      CostStep(pages.RoomOf(f), FilePage(position), 0);
      SpliceNothing(pages.raws[f], FILE_META_SIZE + position);
      assert pages.sizes == pages.sizes[f := |pages.raws[f]|];
    }

    lemma ProgressCost(f: nat, position: nat, data: seq<byte>, was: Snapshot, m: nat)
      requires Progress(f, position, data, was, m)
      ensures BlockOf(FilePage(position)) <= |was.RoomOf(f).slots|
      ensures Cost(was.RoomOf(f), FilePage(position), m) <= |was.chains[FREE]|
    {
    }

    /** What a user sees of it. */
    lemma ProgressState(f: nat, position: nat, data: seq<byte>, was: Snapshot, d: Disk, m: nat)
      requires Progress(f, position, data, was, m) && |pages.raws[f]| >= |was.raws[f]| >= FILE_META_SIZE
      requires was.sizes[f] == |was.raws[f]| && was.IsDisk(d)
      ensures d.files[f].Some? && position <= |d.files[f].value| && BlockOf(FilePage(position)) <= |d.rooms[f].slots|
      ensures Cost(d.rooms[f], FilePage(position), m) <= d.free && State() == Written(d, f, position, data, m)
    {
      hide Cost, RoomAfter, BlockOf, Splice, FilePage, WriteStep, Reach, PageCount;
      ghost var part := data[..Reach(position, |data|, m)];
      SpliceBehind(was.raws[f], FILE_META_SIZE, position, part);
      DiskUpdate(was.sizes, was.raws, was.frees, f, pages.raws[f], pages.FreeOf(f));
    }
  }

  /** The page of a file that a position falls into, behind the meta pages. */
  function FilePage(position: nat): nat { position / 64 + FILE_PAGE_DATA_0 }

  /** How many of `len` bytes from `position` on fall into the first m pages. */
  function Reach(position: nat, len: nat, m: nat): (r: nat)
    ensures r <= len
  {
    if m == 0 then 0 else if 64 * m - position % 64 < len then 64 * m - position % 64 else len
  }

  /** Stopping before the end means that the whole write costs more. */
  lemma StopsShort(room: Room, first: nat, m: nat, total: nat, free: nat)
    requires Stops(room, first, m, free) && m < total
    ensures Cost(room, first, total) > free
  {
    CostStep(room, first, m);
    CostGrows(room, first, m + 1, total);
  }

  lemma SpliceLength(raw: seq<byte>, pos: nat, data: seq<byte>)
    requires pos <= |raw|
    ensures |Splice(raw, pos, data)| >= pos + |data|
  {
  }

  lemma ReachNone(position: nat, len: nat)
    ensures Reach(position, len, 0) == 0 && (len == 0 <==> PagesTouched(position, len) == 0)
    ensures FilePage(position) == position / 64 + FILE_PAGE_DATA_0
    ensures OnePage(position, len) ==> PagesTouched(position, len) == 1
  {
  }

  lemma ReachEnds(position: nat, len: nat)
    ensures Reach(position, len, PagesTouched(position, len)) == len
  {
  }

  /** One page further. */
  lemma ReachNext(position: nat, len: nat, m: nat, n: nat)
    requires var done := Reach(position, len, m); done < len && n == Fitting((position + done) % 64, len - done)
    ensures var done := Reach(position, len, m);
            && done + n == Reach(position, len, m + 1) && m < PagesTouched(position, len)
            && (done + n == len <==> m + 1 == PagesTouched(position, len))
            && (done + n < len ==> FilePage(position + done + n) == FilePage(position) + m + 1)
  {
  }

  /** With `free` blocks a write gets m pages far: they take all of them, and the next needs one more. */
  predicate Stops(room: Room, first: nat, m: nat, free: nat) {
    BlockOf(first) <= |room.slots| && Cost(room, first, m) == free && Needs(RoomAfter(room, first, m), first + m)
  }

  /** How many pages the bytes from `position` on fall into. */
  function PagesTouched(position: nat, len: nat): nat {
    if len == 0 then 0 else (position + len - 1) / 64 - position / 64 + 1
  }

  /** The bytes fall into a single page. */
  predicate OnePage(position: nat, len: nat) {
    0 < len && position % 64 + len <= 64
  }

  /** The first n bytes of `data` have been written to the raw file f. */
  ghost predicate WroteSome(raws: seq<seq<byte>>, raws': seq<seq<byte>>, f: nat, position: nat, data: seq<byte>,
                            n: nat) {
    && f < |raws| && n <= |data| && FILE_META_SIZE + position <= |raws[f]|
    && raws' == raws[f := Splice(raws[f], FILE_META_SIZE + position, data[..n])]
  }

  lemma SpliceNothing(raw: seq<byte>, pos: nat)
    requires pos <= |raw|
    ensures Splice(raw, pos, []) == raw
  {
  }

  /** Writing on where the last write ended is writing the two pieces at once. */
  lemma SpliceSplice(raw: seq<byte>, pos: nat, a: seq<byte>, b: seq<byte>)
    requires pos <= |raw|
    ensures Splice(Splice(raw, pos, a), pos + |a|, b) == Splice(raw, pos, a + b)
  {
  }

  /** Splicing behind the meta pages. */
  lemma SpliceBehind(raw: seq<byte>, skip: nat, pos: nat, data: seq<byte>)
    requires skip + pos <= |raw|
    ensures |Splice(raw, skip + pos, data)| >= |raw|
    ensures Splice(raw, skip + pos, data)[skip..] == Splice(raw[skip..], pos, data)
    ensures Splice(raw, skip + pos, data)[..skip] == raw[..skip]
  {
  }
}
