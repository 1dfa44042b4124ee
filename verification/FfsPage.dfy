/** ffs_page.c: the page driver.  It maps a page of a file to a slot of one of the file's
    blocks, through a one-page cache, and replaces a block when its slots run out. */
module FfsPage {
  import opened Bytes
  import opened Integers
  import opened Crc
  import opened FfsLayout
  import opened FfsLists
  import opened FfsIndex
  import opened FfsFile
  import opened FfsCost
  import opened FfsStore
  import opened FfsBlock

  datatype FileInfo = FileInfo(start: int, size: int)

  /** What a call comes to: a status, or a failed ASSERT, which halts the system. */
  datatype Outcome = Returned(status: int) | AssertFailed

  /** Scans an index backwards for the current slot of a logical page. */
  method ScanIndex(index: seq<byte>, logical: int) returns (slot: int)
    ensures slot == Newest(index, logical)
  {
    slot := |index| - 1;
    while slot >= 0
      invariant -1 <= slot < |index|
      invariant forall j :: slot < j < |index| ==> index[j] != logical
    {
      if index[slot] == logical {
        break;
      }
      slot := slot - 1;
    }
    NewestIs(index, logical, slot);
  }

  class PageDriver {
    const blk: BlockDriver
    const files: array<FileInfo>
    var cachePage: seq<byte>
    var cacheNumber: nat
    var cacheFile: int
    ghost var sizes: seq<int>
    ghost var raws: seq<seq<byte>>

    constructor (blk: BlockDriver)
      requires blk.FlashShown()
      ensures this.blk == blk && fresh(files) && files.Length == MAX_FILES
      ensures |cachePage| == SLOT_SIZE
    {
      this.blk := blk;
      files := new FileInfo[MAX_FILES](_ => FileInfo(INVALID, -1));
      cachePage, cacheNumber, cacheFile := Ones(SLOT_SIZE), 0, -1;
      sizes := seq(MAX_FILES, _ => -1);
      raws := seq(MAX_FILES, _ => []);
    }

    // ----- Invariants -----

    /** The file table holds list heads and sizes. */
    ghost predicate Table()
      reads this`sizes, files, blk`chains
    {
      && |blk.chains| == LISTS && files.Length == MAX_FILES && |sizes| == MAX_FILES
      && forall f: nat :: f < MAX_FILES ==>
           files[f].start == HeadOf(FileList(blk.chains, f)) && files[f].size == sizes[f]
    }

    ghost predicate CacheShape()
      reads this`cachePage, this`cacheFile
    {
      |cachePage| == SLOT_SIZE && SlotLen(cachePage) <= PAGE_DATA_SIZE && -1 <= cacheFile < MAX_FILES
    }

    /** The lists hold the files `raws`; `loose` names a file with perhaps one spare block. */
    ghost predicate Holding(loose: int)
      reads this`sizes, this`raws, blk`views, blk`chains
    {
      Stored(blk.views, blk.chains, sizes, raws, loose)
    }

    ghost predicate Base()
      reads this, files, blk, blk.next, blk.chip.mem
    {
      && |raws| == MAX_FILES && |sizes| == MAX_FILES && |blk.chains| == LISTS && |blk.views| == blk.total
      && blk.Valid() && Table() && CacheShape()
    }

    ghost predicate Shape(loose: int)
      reads this, files, blk, blk.next, blk.chip.mem
    {
      Base() && Holding(loose)
    }

    /** The list of file f holds the bytes of file f. */
    ghost predicate Held(f: nat)
      requires f < MAX_FILES && |blk.chains| == LISTS && |raws| == MAX_FILES
      reads this`raws, blk`views, blk`chains
    {
      FileHolds(blk.views, FileList(blk.chains, f), f, raws[f])
    }

    lemma Start(f: nat)
      requires Base() && f < MAX_FILES
      ensures files.Length == MAX_FILES
      ensures files[f].start == HeadOf(FileList(blk.chains, f)) && files[f].size == sizes[f]
    {
    }

    lemma Holds(f: nat, loose: int)
      requires Shape(loose) && f < MAX_FILES && sizes[f] >= 0
      ensures Held(f)
    {
      assert FileOk(blk.views, FileList(blk.chains, f), f, sizes[f], raws[f], f == loose);
    }

    /** If the cache names a page of an existing file, it is the current version of that page. */
    ghost predicate CacheOk()
      reads this, blk`views, blk`chains
    {
      Coherent(blk.views, blk.chains, sizes, raws, cacheFile, cacheNumber, cachePage)
    }

    ghost predicate Valid()
      reads this, files, blk, blk.next, blk.chip.mem
    {
      Shape(-1) && CacheOk() && Covering(blk.chains, blk.total)
    }

    predicate Hit(f: nat, page: nat)
      reads this
    {
      cacheFile == f && cacheNumber == page
    }

    // ----- Reading a page -----

    method InvalidateCache()
      requires |cachePage| == SLOT_SIZE
      modifies this`cacheFile, this`cachePage
      ensures cacheFile == -1 && cachePage == old(cachePage)[0 := 0]
    {
      cacheFile := -1;
      cachePage := cachePage[0 := 0];
    }

    /** Slot `slot` of block `block` is where page `page` of file f is, and holds its bytes. */
    ghost predicate FoundAt(f: nat, page: nat, block: int, slot: int)
      requires f < |raws| && |blk.chains| == LISTS && f < MAX_FILES
      reads this`raws, blk`views, blk`chains
    {
      && 0 <= block < |blk.views| && blk.views[block].Shaped() && 0 <= slot < SLOTS
      && IsCurrent(blk.views, FileList(blk.chains, f), page, blk.views[block].slots[slot])
      && SlotHolds(blk.views[block].slots[slot], PageBytes(raws[f], page))
    }

    /** Every page of an existing file is found by its newest index entry, and no other page is. */
    lemma PageLocated(f: nat, page: nat)
      requires Base() && f < MAX_FILES && Held(f)
      ensures var l := FileList(blk.chains, f);
              var k := page / DATA_PAGES;
              if HasPage(raws[f], page)
              then && k < |l| && 0 <= l[k] < |blk.views|
                   && FoundAt(f, page, l[k], Newest(blk.views[l[k]].index, page % DATA_PAGES))
              else k < |l| ==> 0 <= l[k] < |blk.views| && Newest(blk.views[l[k]].index, page % DATA_PAGES) == -1
    {
      LocatedHolds(blk.views, FileList(blk.chains, f), f, raws[f], page);
    }

    /** A hit in a coherent cache is the page itself. */
    lemma HitHolds(f: nat, page: nat)
      requires Base() && CacheOk() && f < MAX_FILES && sizes[f] >= 0 && Held(f) && Hit(f, page)
      ensures HasPage(raws[f], page) && SlotHolds(cachePage, PageBytes(raws[f], page))
    {
      PageLocated(f, page);
    }

    /** The block and slot of the current version of a page, or EOF. */
    method SeekPage(f: nat, page: nat) returns (status: int, block: int, slot: int)
      requires Base() && f < MAX_FILES && Held(f) && page / DATA_PAGES < blk.total
      modifies blk`cacheBlock, blk`cacheIndex
      ensures Base()
      ensures if HasPage(raws[f], page) then status == STATUS_OK && FoundAt(f, page, block, slot)
              else status == STATUS_EOF
    {
      hide BlockDriver.FlashShown, BlockDriver.ListsHeld, BlockDriver.CacheCoherent, Stored, CacheShape, AppendOnly,
           FoundAt, LinkAt;
      PageLocated(f, page);
      slot := -1;
      block := blk.GetBlock(FIRST_FILE + f, files[f].start, page / DATA_PAGES);
      if block == INVALID {
        return STATUS_EOF, block, slot;
      }
      var index;
      status, index := blk.ReadIndex(block);
      slot := ScanIndex(index, page % DATA_PAGES);
      status := if slot >= 0 then STATUS_OK else STATUS_EOF;
    }

    /** Brings a page into the cache.  A hit is trusted; a miss reads the current version and
        checks it, or empties the cache at the end of the file. */
    method PageRead(f: nat, page: nat) returns (status: int)
      requires Base() && f < MAX_FILES && Held(f) && page / DATA_PAGES < blk.total
      modifies this`cachePage, this`cacheNumber, this`cacheFile, blk`cacheBlock, blk`cacheIndex
      ensures Base()
      ensures old(Hit(f, page)) ==> status == STATUS_OK && Hit(f, page) && cachePage == old(cachePage)
      ensures !old(Hit(f, page)) && HasPage(raws[f], page) ==>
                && status == STATUS_OK && Hit(f, page)
                && IsCurrent(blk.views, FileList(blk.chains, f), page, cachePage)
                && SlotHolds(cachePage, PageBytes(raws[f], page))
      ensures !old(Hit(f, page)) && !HasPage(raws[f], page) ==>
                status == STATUS_EOF && cacheFile == -1 && cachePage == old(cachePage)[0 := 0]
    {
      hide BlockDriver.FlashShown, BlockDriver.ListsHeld, BlockDriver.CacheCoherent, Stored, IsCurrent, Table,
           SlotHolds, Crc16;
      if cacheFile == f && cacheNumber == page {
        return STATUS_OK;
      }
      InvalidateCache();
      var block, slot;
      status, block, slot := SeekPage(f, page);
      if status == STATUS_EOF {
        return STATUS_EOF;
      }
      cachePage := blk.ReadSlot(block, slot);
      SlotChecked(cachePage, PageBytes(raws[f], page));
      if Crc16(cachePage[1..1 + cachePage[0]]) == cachePage[CRC_OFFSET..] {
        cacheNumber := page;
        cacheFile := f;
        return STATUS_OK;
      }
      return STATUS_ERROR;
    }

    /** Reading through a coherent cache gives the page, or EOF past the end of the file. */
    method ReadCoherent(f: nat, page: nat) returns (status: int)
      requires Base() && CacheOk() && f < MAX_FILES && sizes[f] >= 0 && Held(f) && page / DATA_PAGES < blk.total
      modifies this`cachePage, this`cacheNumber, this`cacheFile, blk`cacheBlock, blk`cacheIndex
      ensures Base() && CacheOk()
      ensures if HasPage(raws[f], page)
              then status == STATUS_OK && Hit(f, page) && SlotHolds(cachePage, PageBytes(raws[f], page))
              else status == STATUS_EOF && cacheFile == -1 && SlotLen(cachePage) == 0
    {
      hide Table, Stored, IsCurrent, SlotHolds, HasPage;
      if Hit(f, page) {
        HitHolds(f, page);
      }
      status := PageRead(f, page);
    }

    // ----- Blocks of a file -----

    /** Adds a free block at the end of a file, which need not have a size yet. */
    method AllocBlock(f: nat) returns (status: int)
      requires blk.Valid() && Table() && AllBlank(blk.views, blk.chains[FREE]) && f < MAX_FILES
      modifies files, blk`freeList, blk`dirtyList, blk`freeBlocks, blk`dirtyBlocks, blk`chains, blk`views, blk.next,
               blk.chip.mem
      ensures blk.Valid() && Table() && |old(blk.chains)| == LISTS
      ensures if old(blk.chains)[FREE] == []
              then status == STATUS_NO_FREE_SPACE && blk.chains == old(blk.chains) && blk.views == old(blk.views)
              else && status == STATUS_OK
                   && blk.chains == AfterAlloc(old(blk.chains), f)
                   && var b := old(blk.chains)[FREE][0];
                      && 0 <= b < |old(blk.views)|
                      && |blk.views| == |old(blk.views)|
                      && MetaIs(blk.views[b].meta, f, |FileList(old(blk.chains), f)|)
                      && blk.views[b].meta[OFF_SEQUENCE..] == [0, 0xff, 0xff, 0xff, 0xff]
                      && blk.views == old(blk.views)[b := old(blk.views)[b].(meta := blk.views[b].meta)]
    {
      hide BlockDriver.FlashShown, BlockDriver.ListsHeld, BlockDriver.CacheCoherent, Listed;
      var count := blk.ListSize(FIRST_FILE + f, files[f].start);
      var block := blk.Alloc();
      if block == INVALID {
        return STATUS_NO_FREE_SPACE;
      }
      blk.Room(block, FIRST_FILE + f);
      var meta := [f, FLAGS_VALID, count, 0, 0xff, 0xff, 0xff, 0xff];
      status := blk.WriteMeta(block, meta);
      if status != STATUS_OK {
        assert false;
      }
      var head := blk.AddToList(FIRST_FILE + f, files[f].start, block);
      files[f] := FileInfo(head, files[f].size);
    }

    /** After a read the cache holds the slot that the block's index names. */
    lemma CachedCurrent(f: nat, k: nat, i: nat, loose: int)
      requires Shape(loose) && CacheOk() && f < MAX_FILES && sizes[f] >= 0 && i < DATA_PAGES
               && Hit(f, DATA_PAGES * k + i)
      requires k < |FileList(blk.chains, f)| && 0 <= FileList(blk.chains, f)[k] < blk.total
      ensures blk.views[FileList(blk.chains, f)[k]].Shaped()
      ensures Current(blk.views[FileList(blk.chains, f)[k]], i) == Some(cachePage)
    {
      hide BlockDriver.Valid, Table, Stored, Coherent, Current;
      CoherentHit(blk.views, blk.chains, sizes, raws, f, k, i, cachePage);
    }

    /** Copies page i of block k into slot i of `dst` and reads it back (from the cache). */
    method CopyPage(f: nat, k: nat, dst: nat, i: nat, ghost src: Block, ghost loose: int) returns (status: int)
      requires Shape(loose) && CacheOk() && f < MAX_FILES && sizes[f] >= 0
      requires dst < blk.total && !Listed(blk.chains, dst) && i < DATA_PAGES && k < blk.total
      requires k < |FileList(blk.chains, f)| && 0 <= FileList(blk.chains, f)[k] < blk.total
      requires blk.views[FileList(blk.chains, f)[k]] == src && Copied(blk.views[dst], src, i)
      modifies this`cachePage, this`cacheNumber, this`cacheFile, blk`cacheBlock, blk`cacheIndex, blk`views, blk.chip.mem
      ensures Shape(loose) && CacheOk()
      ensures if HasPage(raws[f], DATA_PAGES * k + i)
              then && status == STATUS_OK && Copied(blk.views[dst], src, i + 1)
                   && blk.views == old(blk.views)[dst := blk.views[dst]]
              else status == STATUS_EOF && blk.views == old(blk.views)
    {
      hide BlockDriver.FlashShown, BlockDriver.ListsHeld, BlockDriver.CacheCoherent, Stored, SlotHolds, HasPage,
           Listed, Coherent, Newest, Current, Copied, Table;
      Holds(f, loose);
      status := ReadCoherent(f, DATA_PAGES * k + i);
      if status != STATUS_OK {
        return;
      }
      ghost var views0 := blk.views;
      CachedCurrent(f, k, i, loose);
      CopyNext(views0[dst], src, i, cachePage);
      status := blk.SetIndexEntry(dst, i, i);
      if status != STATUS_OK {
        assert false;
      }
      blk.WriteSlot(dst, i, cachePage);
      assert blk.views == views0[dst := blk.views[dst]];
      UnlistedFrame(views0, blk.chains, sizes, raws, loose, dst, blk.views[dst]);
      CoherentUnlisted(views0, blk.chains, sizes, raws, cacheFile, cacheNumber, cachePage, dst, blk.views[dst]);
      Holds(f, loose);
      status := ReadCoherent(f, DATA_PAGES * k + i);
    }

    /** Copies the current pages of a file's block into a blank block that is on no list. */
    method BlockCopy(src: nat, dst: nat, ghost f: nat, ghost k: nat, ghost loose: int) returns (status: int)
      requires Shape(loose) && CacheOk() && f < MAX_FILES && sizes[f] >= 0
      requires k < |FileList(blk.chains, f)| && src == FileList(blk.chains, f)[k]
      requires dst < blk.total && !Listed(blk.chains, dst) && blk.views[dst] == BlankBlock()
      modifies this`cachePage, this`cacheNumber, this`cacheFile, blk`cacheBlock, blk`cacheIndex, blk`views, blk.chip.mem
      ensures Shape(loose) && CacheOk() && status == STATUS_OK
      ensures blk.views == old(blk.views)[dst := blk.views[dst]]
      ensures src < blk.total && IsCopy(blk.views[dst], old(blk.views)[src], f, k, raws[f])
    {
      hide BlockDriver.FlashShown, BlockDriver.ListsHeld, BlockDriver.CacheCoherent, Stored, SlotHolds, HasPage,
           Listed, BodyHolds, Coherent, Newest;
      FileBlock(f, k, loose);
      var meta;
      status, meta := blk.ReadMeta(src);
      if status != STATUS_OK {
        return STATUS_ERROR;
      }
      ghost var v, views0 := blk.views[src], blk.views;
      var file, block := meta[OFF_FILE_ID], meta[OFF_BLOCK];
      var i := 0;
      while i < DATA_PAGES
        invariant 0 <= i <= DATA_PAGES
        invariant Shape(loose) && CacheOk() && Copied(blk.views[dst], v, i)
        invariant blk.views == views0[dst := blk.views[dst]]
      {
        status := CopyPage(file, block, dst, i, v, loose);
        if status == STATUS_EOF {
          break;
        }
        i := i + 1;
      }
      CopiedHolds(blk.views[dst], v, k, raws[f], i);
      var sequence: int := meta[OFF_SEQUENCE];
      meta := meta[OFF_SEQUENCE := (sequence + 1) % 0x100];
      ghost var views1 := blk.views;
      status := blk.WriteMeta(dst, meta);
      UnlistedFrame(views1, blk.chains, sizes, raws, loose, dst, blk.views[dst]);
      CoherentUnlisted(views1, blk.chains, sizes, raws, cacheFile, cacheNumber, cachePage, dst, blk.views[dst]);
      BodyKept(views1[dst], k, raws[f], meta);
      assert blk.views == views0[dst := blk.views[dst]];
    }

    /** Block k of an existing file is a block of that file. */
    lemma FileBlock(f: nat, k: nat, loose: int)
      requires Shape(loose) && f < MAX_FILES && sizes[f] >= 0 && k < |FileList(blk.chains, f)|
      ensures 0 <= FileList(blk.chains, f)[k] < blk.total
      ensures BlockHolds(blk.views[FileList(blk.chains, f)[k]], f, k, raws[f]) && k < blk.total
    {
      assert FileOk(blk.views, FileList(blk.chains, f), f, sizes[f], raws[f], f == loose);
      blk.Bounded(FIRST_FILE + f);
    }

    /** Takes a free block and copies block k of a file into it. */
    method CopyToFree(f: nat, k: nat, phy: nat, ghost loose: int) returns (nb: int)
      requires Shape(loose) && CacheOk() && f < MAX_FILES && sizes[f] >= 0
      requires k < |FileList(blk.chains, f)| && phy == FileList(blk.chains, f)[k]
      modifies this`cachePage, this`cacheNumber, this`cacheFile, blk, blk.next, blk.chip.mem
      ensures Shape(loose) && CacheOk() && |old(blk.chains)| == LISTS
      ensures if old(blk.chains)[FREE] == []
              then nb == INVALID && blk.chains == old(blk.chains) && blk.views == old(blk.views)
              else && nb == old(blk.chains)[FREE][0] && 0 <= nb < blk.total && nb != INVALID && phy < blk.total
                   && !Listed(blk.chains, nb)
                   && blk.chains == old(blk.chains)[FREE := old(blk.chains)[FREE][1..]]
                   && |old(blk.views)| == blk.total && blk.views == old(blk.views)[nb := blk.views[nb]]
                   && IsCopy(blk.views[nb], old(blk.views)[phy], f, k, raws[f])
    {
      hide BlockDriver.FlashShown, BlockDriver.ListsHeld, BlockDriver.CacheCoherent, Stored, Listed, Coherent, IsCopy;
      ghost var chains0, views0 := blk.chains, blk.views;
      nb := blk.Alloc();
      if nb == INVALID {
        return;
      }
      PopStored(views0, chains0, sizes, raws, loose);
      assert forall g: nat | g < MAX_FILES :: FileList(blk.chains, g) == FileList(chains0, g);
      assert Coherent(blk.views, blk.chains, sizes, raws, cacheFile, cacheNumber, cachePage);
      var status := BlockCopy(phy, nb, f, k, loose);
      if status != STATUS_OK {
        assert false;
      }
    }

    /** Replaces block k of a file by a fresh copy of it, or changes nothing when no block is free.
        The file's bytes, and what a reader finds for every page, stay the same. */
    method ReplaceBlock(f: nat, k: nat, ghost loose: int) returns (r: int)
      requires Shape(loose) && CacheOk() && f < MAX_FILES && sizes[f] >= 0 && k < |FileList(blk.chains, f)|
               && k < blk.total
      modifies this`cachePage, this`cacheNumber, this`cacheFile, files, blk, blk.next, blk.chip.mem
      ensures Shape(loose) && CacheOk() && |old(blk.chains)| == LISTS
      ensures if old(blk.chains)[FREE] == []
              then r == STATUS_NO_FREE_SPACE && blk.chains == old(blk.chains) && blk.views == old(blk.views)
              else && r == old(blk.chains)[FREE][0] && 0 <= r < blk.total
                   && blk.chains == AfterReplace(old(blk.chains), f, k)
                   && IsCopy(blk.views[r], old(blk.views[FileList(blk.chains, f)[k]]), f, k, raws[f])
                   && FreeOf(f) == old(FreeOf(f))[k := SLOTS - PagesHeld(PageCount(|raws[f]|), k)]
                   && Frees() == old(Frees())[f := FreeOf(f)]
    {
      hide BlockDriver.FlashShown, BlockDriver.ListsHeld, BlockDriver.CacheCoherent, Stored, Listed, Coherent,
           BlockHolds, Current, FirstFree, FreeCount, PagesHeld, PageCount, FreeSlots;
      ghost var chains0, views0 := blk.chains, blk.views;
      FileBlock(f, k, loose);
      blk.Apart();
      var phy := blk.GetBlock(FIRST_FILE + f, files[f].start, k);
      var nb := CopyToFree(f, k, phy, loose);
      if nb == INVALID {
        return STATUS_NO_FREE_SPACE;
      }
      ghost var v := blk.views[nb];
      ReplaceStored(views0, chains0, sizes, raws, loose, f, k, v);
      CoherentReplaced(views0, chains0, sizes, raws, loose, cacheFile, cacheNumber, cachePage, f, k, v);
      ReplaceSlots(views0, chains0, f, k, v);
      var head := blk.ReplaceInList(FIRST_FILE + f, files[f].start, phy, nb, k);
      files[f] := FileInfo(head, files[f].size);
      blk.SetDirty(phy);
      r := nb;
    }

    // ----- Writing a page -----

    /** A write to this page has to take a free block: the file's next one, or a replacement. */
    ghost predicate NeedsBlock(f: nat, page: nat)
      requires |blk.chains| == LISTS && f < MAX_FILES
      reads blk`chains, blk`views
    {
      var l := FileList(blk.chains, f);
      var k := page / DATA_PAGES;
      k >= |l| || !(0 <= l[k] < |blk.views|) || FirstFree(blk.views[l[k]].index) < 0
    }

    /** The free slots of each block of a file. */
    ghost function FreeOf(f: nat): (r: seq<nat>)
      requires |blk.chains| == LISTS && f < MAX_FILES
      reads blk`chains, blk`views
      ensures |r| == |FileList(blk.chains, f)|
    {
      FreeSlots(blk.views, FileList(blk.chains, f))
    }

    /** The same for every file. */
    ghost function Frees(): (r: seq<seq<nat>>)
      requires |blk.chains| == LISTS
      reads blk`chains, blk`views
      ensures |r| == MAX_FILES && forall f: nat | f < MAX_FILES :: r[f] == FreeOf(f)
    {
      AllFree(blk.views, blk.chains)
    }

    /** What decides how many blocks a write to the file costs. */
    ghost function RoomOf(f: nat): (r: Room)
      requires |blk.chains| == LISTS && |raws| == MAX_FILES && f < MAX_FILES
      reads this`raws, blk`chains, blk`views
      ensures r.slots == FreeOf(f)
    {
      Room(FreeOf(f), PageCount(|raws[f]|))
    }

    /** How many slots are free in block k of a file. */
    ghost function Slots(f: nat, k: nat): nat
      requires |blk.chains| == LISTS && f < MAX_FILES
      reads blk`chains, blk`views
    {
      if k < |FreeOf(f)| then FreeOf(f)[k] else 0
    }

    /** Appends a block to an existing file, if one is free. */
    method AppendBlock(f: nat) returns (status: int)
      requires Shape(-1) && Covering(blk.chains, blk.total) && f < MAX_FILES && sizes[f] >= 0
      modifies files, blk, blk.next, blk.chip.mem
      ensures Shape(f) && Covering(blk.chains, blk.total) && |old(blk.chains)| == LISTS
      ensures old(CacheOk()) ==> CacheOk()
      ensures if old(blk.chains)[FREE] == []
              then status != STATUS_OK && blk.chains == old(blk.chains) && blk.views == old(blk.views) && Shape(-1)
              else && status == STATUS_OK && blk.chains == AfterAlloc(old(blk.chains), f)
                   && FreeOf(f) == old(FreeOf(f)) + [SLOTS] && Frees() == old(Frees())[f := FreeOf(f)]
    {
      hide BlockDriver.FlashShown, BlockDriver.ListsHeld, BlockDriver.CacheCoherent, Coherent, Covering, MetaIs,
           FileOk, AllDirty, BlankBlock, AllBlank, FreeSlots;
      ghost var chains0, views0 := blk.chains, blk.views;
      blk.Apart();
      Settled(views0, chains0, sizes, raws, f);
      status := AllocBlock(f);
      if status == STATUS_OK {
        ghost var b := chains0[FREE][0];
        PopStored(views0, chains0, sizes, raws, -1);
        AllocSlots(views0, chains0, f, blk.views[b]);
        AllocStored(views0, chains0, sizes, raws, f, blk.views[b].meta);
        AllocKeeps(chains0, f);
        KeepsCovering(chains0, blk.chains, blk.total);
        if old(CacheOk()) {
          CoherentAlloc(views0, chains0, sizes, raws, cacheFile, cacheNumber, cachePage, f, blk.views[b]);
        }
      }
    }

    /** `phy` is the file's block for the page, and the list is as long as the file will need once
        the page is written. */
    ghost predicate BlockFor(f: nat, page: nat, phy: int)
      requires |blk.chains| == LISTS && |raws| == MAX_FILES && f < MAX_FILES
      reads this`raws, blk`chains, blk`views
    {
      var l := FileList(blk.chains, f);
      var k := page / DATA_PAGES;
      && k < |l| && phy == l[k] && 0 <= phy < |blk.views|
      && (|l| == BlockCount(|raws[f]|) || (|l| == BlockCount(|raws[f]|) + 1 == k + 1))
    }

    /** The file's list reaches the block for `page`, after appending one if it is the next, or
        the system halts because no block is free. */
    method GrowTo(f: nat, page: nat) returns (o: Outcome, phy: int)
      requires Shape(-1) && Covering(blk.chains, blk.total) && f < MAX_FILES && sizes[f] >= 0
               && PAGE_DATA_SIZE * page <= sizes[f]
      modifies files, blk, blk.next, blk.chip.mem
      ensures Shape(f) && Covering(blk.chains, blk.total) && |old(blk.chains)| == LISTS
      ensures old(CacheOk()) ==> CacheOk()
      ensures o.AssertFailed? ==>
                && blk.chains == old(blk.chains) && blk.views == old(blk.views) && Shape(-1)
                && blk.chains[FREE] == [] && page / DATA_PAGES >= |FileList(old(blk.chains), f)|
      ensures o.Returned? ==>
                && BlockFor(f, page, phy)
                && if blk.chains == old(blk.chains) then blk.views == old(blk.views)
                   else && old(blk.chains)[FREE] != [] && page / DATA_PAGES == |FileList(old(blk.chains), f)|
                        && blk.chains == AfterAlloc(old(blk.chains), f) && FreeOf(f) == old(FreeOf(f)) + [SLOTS]
                        && Frees() == old(Frees())[f := FreeOf(f)]
    {
      hide BlockDriver.FlashShown, BlockDriver.ListsHeld, BlockDriver.CacheCoherent, Covering, Stored, Coherent,
           CacheShape;
      PagesFit(f, page);
      var block := page / DATA_PAGES;
      var count := blk.ListSize(FIRST_FILE + f, files[f].start);
      var pageCount := if files[f].size > 0 then files[f].size / PAGE_DATA_SIZE + 1 else 0;
      assert page <= pageCount;
      if count == block {
        var status := AppendBlock(f);
        blk.Bounded(FIRST_FILE + f);
      }
      if block >= blk.total {
        return AssertFailed, INVALID;
      }
      phy := blk.GetBlock(FIRST_FILE + f, files[f].start, block);
      if phy == INVALID {
        return AssertFailed, phy;
      }
      o := Returned(STATUS_OK);
    }

    /** The page is in the file's last block or before it, or is the first of the next one. */
    lemma PagesFit(f: nat, page: nat)
      requires Shape(-1) && f < MAX_FILES && sizes[f] >= 0 && PAGE_DATA_SIZE * page <= sizes[f]
      ensures Shape(f) && |raws[f]| == sizes[f] && |FileList(blk.chains, f)| == BlockCount(sizes[f])
      ensures page / DATA_PAGES <= |FileList(blk.chains, f)| <= blk.total
    {
      assert FileOk(blk.views, FileList(blk.chains, f), f, sizes[f], raws[f], false);
      Settled(blk.views, blk.chains, sizes, raws, f);
      blk.Bounded(FIRST_FILE + f);
    }

    /** `phy` is the file's block for the page and `slot` its first free slot. */
    ghost predicate RoomAt(f: nat, page: nat, phy: int, slot: int)
      requires |blk.chains| == LISTS && |raws| == MAX_FILES && f < MAX_FILES
      reads this`raws, blk`chains, blk`views
    {
      BlockFor(f, page, phy) && slot == FirstFree(blk.views[phy].index) >= 0
    }

    /** A free slot in the page's block, after replacing the block by a copy if it is full, or the
        system halts because no block is free. */
    method FindSlot(f: nat, page: nat, block: int) returns (o: Outcome, phy: int, slot: int)
      requires Shape(f) && f < MAX_FILES && sizes[f] >= 0 && BlockFor(f, page, block) && Covering(blk.chains, blk.total)
      requires CacheOk() || FirstFree(blk.views[block].index) >= 0
      modifies this`cachePage, this`cacheNumber, this`cacheFile, files, blk, blk.next, blk.chip.mem
      ensures Shape(f) && Covering(blk.chains, blk.total) && |old(blk.chains)| == LISTS
      ensures old(CacheOk()) ==> CacheOk()
      ensures o.AssertFailed? ==>
                && blk.chains == old(blk.chains) && blk.views == old(blk.views)
                && blk.chains[FREE] == [] && FirstFree(blk.views[block].index) < 0
      ensures o.Returned? ==>
                && o.status == STATUS_OK && RoomAt(f, page, phy, slot)
                && if FirstFree(old(blk.views)[block].index) >= 0 then
                     && blk.chains == old(blk.chains) && blk.views == old(blk.views)
                     && cacheFile == old(cacheFile) && cacheNumber == old(cacheNumber) && cachePage == old(cachePage)
                   else
                     var k := page / DATA_PAGES;
                     && old(blk.chains)[FREE] != [] && blk.chains == AfterReplace(old(blk.chains), f, k)
                     && FreeOf(f) == old(FreeOf(f))[k := SLOTS - PagesHeld(PageCount(|raws[f]|), k)]
                     && Frees() == old(Frees())[f := FreeOf(f)]
    {
      hide BlockDriver.FlashShown, BlockDriver.ListsHeld, BlockDriver.CacheCoherent, Covering, Stored, Coherent,
           CacheShape, BodyHolds, AppendOnly, Newest, MetaIs, Current, Table, FreeCount, Highest, FirstFree,
           BlockCount, Listed, FreeSlots, PagesHeld, PageCount;
      ghost var chains0 := blk.chains;
      phy := block;
      FileBlock(f, page / DATA_PAGES, f);
      BodyIndex(blk.views[phy], page / DATA_PAGES, raws[f]);
      var status, info := blk.GetIndexInfo(phy);
      if info.phyNextFree < 0 {
        phy := ReplaceBlock(f, page / DATA_PAGES, f);
        // a negative status narrows to a block number past the last block, and the next ASSERT fails
        if phy < 0 {
          return AssertFailed, phy, -1;
        }
        ReplaceKeepsAll(chains0, f, page / DATA_PAGES);
        KeepsCovering(chains0, blk.chains, blk.total);
        BodyIndex(blk.views[phy], page / DATA_PAGES, raws[f]);
        status, info := blk.GetIndexInfo(phy);
      }
      o, slot := Returned(STATUS_OK), info.phyNextFree;
    }

    /** Programs a new version of a page into a free slot and then enters it in the index. */
    method ProgramPage(f: nat, page: nat, phy: int, slot: int, newPage: seq<byte>, ghost raw: seq<byte>)
      requires Shape(f) && f < MAX_FILES && sizes[f] >= 0 && RoomAt(f, page, phy, slot)
      requires |newPage| == SLOT_SIZE && OnlyPage(raws[f], raw, page) && SlotHolds(newPage, PageBytes(raw, page))
      modifies this`raws, blk`cacheIndex, blk`views, blk.chip.mem
      ensures Shape(f) && raws == old(raws)[f := raw]
      ensures SlotUsed(old(FreeOf(f)), FreeOf(f), page / DATA_PAGES) && Frees() == old(Frees())[f := FreeOf(f)]
    {
      hide BlockDriver.FlashShown, BlockDriver.ListsHeld, BlockDriver.CacheCoherent, Stored, PageBytes, SlotHolds,
           Listed, CacheShape, MetaIs, FirstFree;
      ghost var views0, k, l := blk.views, page / DATA_PAGES, FileList(blk.chains, f);
      ghost var v := views0[phy];
      FileBlock(f, k, f);
      blk.Apart();
      RoomIsErased(v, k, raws[f]);
      OneSlotFewer(v.index, page % DATA_PAGES);
      blk.WriteSlot(phy, slot, newPage);
      var status := blk.SetIndexEntry(phy, page % DATA_PAGES, slot);
      if status != STATUS_OK {
        assert false;
      }
      ghost var v' := WithPage(v, page % DATA_PAGES, newPage);
      assert blk.views == views0[phy := v'];
      UseSlots(views0, blk.chains, f, k, v');
      assert FreeSlots(views0, l)[k] == FreeCount(v.index);
      WithPageHolds(v, k, raws[f], raw, page % DATA_PAGES, newPage);
      forall j | 0 <= j < |l| && j != k ensures 0 <= l[j] < |views0| && BodyHolds(views0[l[j]], j, raw) {
        FileBlocks(views0, blk.chains, sizes, raws, f, f, j);
        OtherBlockHolds(views0[l[j]], j, raws[f], raw, page);
      }
      FileBlocks(views0, blk.chains, sizes, raws, f, f, k);
      OnlyPageFits(raws[f], raw, page, |l|);
      BlockChanged(views0, blk.chains, sizes, raws, f, f, k, v', raw);
      raws := raws[f := raw];
    }

    /** Rereads the page just written, checking it, and raises the file size to its end. */
    method FinishWrite(f: nat, page: nat) returns (status: int)
      requires Shape(f) && Covering(blk.chains, blk.total) && f < MAX_FILES && sizes[f] >= 0
               && page / DATA_PAGES < blk.total
      requires HasPage(raws[f], page) && cacheFile == -1 && |FileList(blk.chains, f)| == BlockCount(|raws[f]|)
      requires |raws[f]| == var end := 64 * page + |PageBytes(raws[f], page)|; if end > sizes[f] then end else sizes[f]
      modifies this`cachePage, this`cacheNumber, this`cacheFile, this`sizes, files, blk`cacheBlock, blk`cacheIndex
      ensures Valid() && status == STATUS_OK && sizes == old(sizes)[f := |raws[f]|]
    {
      hide BlockDriver.FlashShown, BlockDriver.ListsHeld, BlockDriver.CacheCoherent, Stored, SlotHolds, Covering,
           IsCurrent, BlockCount, PageBytes;
      Holds(f, f);
      status := PageRead(f, page);
      if status == STATUS_OK {
        SlotChecked(cachePage, PageBytes(raws[f], page));
        var length: int := PAGE_DATA_SIZE * page + cachePage[0];
        if length > files[f].size {
          files[f] := FileInfo(files[f].start, length);
        }
        Settled(blk.views, blk.chains, sizes, raws, f);
        sizes := sizes[f := |raws[f]|];
      }
    }

    /** Lays `data` over the page, programs the result into the free slot and rereads it. */
    method CommitPage(f: nat, page: nat, offset: nat, data: seq<byte>, phy: int, slot: int) returns (status: int)
      requires Shape(f) && Covering(blk.chains, blk.total) && f < MAX_FILES && RoomAt(f, page, phy, slot)
      requires sizes[f] == |raws[f]| && page / DATA_PAGES < blk.total
      requires 0 < |data| && offset + |data| <= PAGE_DATA_SIZE && 64 * page + offset <= |raws[f]|
      requires CacheOk() || (offset == 0 && |data| == PAGE_DATA_SIZE)
      modifies this, files, blk`cacheBlock, blk`cacheIndex, blk`views, blk.chip.mem
      ensures Valid() && status == STATUS_OK
      ensures raws == old(raws)[f := Splice(old(raws)[f], 64 * page + offset, data)]
      ensures sizes == old(sizes)[f := |raws[f]|]
      ensures SlotUsed(old(FreeOf(f)), FreeOf(f), page / DATA_PAGES) && Frees() == old(Frees())[f := FreeOf(f)]
    {
      hide BlockDriver.FlashShown, BlockDriver.ListsHeld, BlockDriver.CacheCoherent, Stored, SlotHolds, Listed,
           Covering, FirstFree, IsCurrent, BuiltPage, PageBytes, HasPage, Splice, AllFree, FreeSlots;
      ghost var raw := Splice(raws[f], 64 * page + offset, data);
      WriteFits(raws[f], page, offset, data);
      BlocksAfter(raws[f], page, offset, data, |FileList(blk.chains, f)|);
      var readStatus := ReadForWrite(f, page);
      BuiltHolds(cachePage, readStatus == STATUS_EOF, raws[f], page, offset, data);
      cachePage := BuiltPage(cachePage, readStatus == STATUS_EOF, offset, data);
      ProgramPage(f, page, phy, slot, cachePage, raw);
      InvalidateCache();
      status := FinishWrite(f, page);
    }

    /** The read before a write: the old page, EOF, or with a stale cache anything at all. */
    method ReadForWrite(f: nat, page: nat) returns (status: int)
      requires Shape(f) && f < MAX_FILES && sizes[f] >= 0 && page / DATA_PAGES < blk.total
      modifies this`cachePage, this`cacheNumber, this`cacheFile, blk`cacheBlock, blk`cacheIndex
      ensures Shape(f)
      ensures old(CacheOk()) ==>
                if HasPage(raws[f], page) then status == STATUS_OK && SlotHolds(cachePage, PageBytes(raws[f], page))
                else status == STATUS_EOF && SlotLen(cachePage) == 0
    {
      hide BlockDriver.FlashShown, BlockDriver.ListsHeld, BlockDriver.CacheCoherent, Stored, SlotHolds, HasPage,
           Coherent;
      Holds(f, f);
      if CacheOk() && Hit(f, page) {
        HitHolds(f, page);
      }
      status := PageRead(f, page);
    }

    /** A block is full exactly when it counts no free slot. */
    lemma FullIs(f: nat, k: nat, loose: int)
      requires Shape(loose) && f < MAX_FILES && sizes[f] >= 0 && k < |FileList(blk.chains, f)|
      ensures 0 <= FileList(blk.chains, f)[k] < |blk.views|
      ensures FreeOf(f)[k] == 0 <==> FirstFree(blk.views[FileList(blk.chains, f)[k]].index) < 0
    {
      FileBlock(f, k, loose);
      FullMeansNone(blk.views[FileList(blk.chains, f)[k]].index);
    }

    /** Whether a page needs a block is a matter of the room the file has. */
    lemma NeedsIs(f: nat, page: nat)
      requires Shape(-1) && f < MAX_FILES && sizes[f] >= 0
      ensures NeedsBlock(f, page) <==> Needs(RoomOf(f), page)
    {
      hide FirstFree;
      Holds(f, -1);
      if page / DATA_PAGES < |FileList(blk.chains, f)| {
        FullIs(f, page / DATA_PAGES, -1);
      }
    }

    /** The page at the end of a file, or before, is in a block that the file has or the next one. */
    lemma PagesReach(f: nat, page: nat)
      requires Valid() && |sizes| == MAX_FILES && f < MAX_FILES && sizes[f] >= 0 && 64 * page <= sizes[f]
      ensures |raws| == MAX_FILES && |blk.chains| == LISTS && BlockOf(page) <= |RoomOf(f).slots|
    {
      PagesFit(f, page);
    }

    /** A file without pages has room in the block for its first page. */
    lemma RoomInEmpty(f: nat, page: nat, block: int)
      requires Shape(f) && f < MAX_FILES && sizes[f] >= 0 && BlockFor(f, page, block)
      requires |raws[f]| <= BLOCK_DATA_SIZE * (page / DATA_PAGES)
      ensures FirstFree(blk.views[block].index) >= 0 && FreeCount(blk.views[block].index) == SLOTS
    {
      FileBlock(f, page / DATA_PAGES, f);
      EmptyBlockFree(blk.views[block], page / DATA_PAGES, raws[f]);
      FreeCountIs(blk.views[block].index, SLOTS);
    }

    /** In the file's list there is a block for `page` with a free slot, or the system halts. */
    method MakeRoom(f: nat, page: nat) returns (o: Outcome, phy: int, slot: int)
      requires Shape(-1) && Covering(blk.chains, blk.total) && f < MAX_FILES && sizes[f] >= 0 && 64 * page <= sizes[f]
      requires CacheOk() || sizes[f] == 0
      modifies this`cachePage, this`cacheNumber, this`cacheFile, files, blk, blk.next, blk.chip.mem
      ensures Shape(f) && Covering(blk.chains, blk.total)
              && WriteStep(old(blk.chains), blk.chains, f, page / DATA_PAGES)
      ensures o.Returned? ==> (blk.chains != old(blk.chains) <==> old(NeedsBlock(f, page)))
      ensures old(CacheOk()) ==> CacheOk()
      ensures o.AssertFailed? ==>
                && blk.chains == old(blk.chains) && blk.views == old(blk.views) && Shape(-1)
                && blk.chains[FREE] == [] && old(NeedsBlock(f, page))
      ensures o.Returned? ==>
                && RoomAt(f, page, phy, slot) && page / DATA_PAGES < blk.total
                && BlockOf(page) <= |old(RoomOf(f)).slots| && FreeOf(f) == Made(old(RoomOf(f)), page)
                && Frees() == old(Frees())[f := FreeOf(f)]
    {
      hide BlockDriver.FlashShown, BlockDriver.ListsHeld, BlockDriver.CacheCoherent, Stored, Covering, FirstFree,
           Coherent, CacheShape, Table, FreeCount, FreeSlots, PagesHeld, PageCount, AfterAlloc, AfterReplace;
      PagesFit(f, page);
      NeedsIs(f, page);
      o, phy := GrowTo(f, page);
      if o.AssertFailed? {
        return o, phy, -1;
      }
      blk.Bounded(FIRST_FILE + f);
      FullIs(f, page / DATA_PAGES, f);
      if |raws[f]| <= 3264 * (page / DATA_PAGES) {
        RoomInEmpty(f, page, phy);
      }
      if old(blk.chains)[FREE] != [] {
        StepsDiffer(old(blk.chains), f, page / DATA_PAGES);
      }
      o, phy, slot := FindSlot(f, page, phy);
    }

    /** Writes up to 64 bytes into one page of a file.  The position must not lie past the end of
        the file, and the page cache must be coherent unless a whole first page is written. */
    method PageWrite(f: nat, page: nat, offset: nat, data: seq<byte>) returns (o: Outcome)
      requires Shape(-1) && Covering(blk.chains, blk.total) && f < MAX_FILES && sizes[f] >= 0
      requires offset < PAGE_DATA_SIZE && 64 * page + offset <= sizes[f] && |data| > 0
      requires CacheOk() || (sizes[f] == 0 && |data| >= PAGE_DATA_SIZE)
      modifies this, files, blk, blk.next, blk.chip.mem
      ensures Shape(-1) && Covering(blk.chains, blk.total)
              && WriteStep(old(blk.chains), blk.chains, f, page / DATA_PAGES)
      ensures o.Returned? ==> (blk.chains != old(blk.chains) <==> old(NeedsBlock(f, page)))
      ensures o.AssertFailed? ==>
                && (old(CacheOk()) ==> Valid())
                && blk.chains == old(blk.chains) && blk.views == old(blk.views) && raws == old(raws)
                   && sizes == old(sizes)
                && blk.chains[FREE] == [] && old(NeedsBlock(f, page))
      ensures o.Returned? ==>
                && o.status == STATUS_OK && Valid() && PageWritten(old(raws), raws, f, page, offset, data)
                && sizes == old(sizes)[f := |raws[f]|]
                && BlockOf(page) <= |old(RoomOf(f)).slots| && RoomOf(f) == Used(old(RoomOf(f)), page)
                && Frees() == old(Frees())[f := FreeOf(f)]
      ensures o.AssertFailed? <==> Needs(old(RoomOf(f)), page) && old(blk.chains)[FREE] == []
      ensures blk.chains != old(blk.chains) <==> Needs(old(RoomOf(f)), page) && old(blk.chains)[FREE] != []
    {
      hide BlockDriver.FlashShown, BlockDriver.ListsHeld, BlockDriver.CacheCoherent, Stored, Covering, FirstFree,
           Splice, Coherent, CacheShape, Table, FreeCount, NeedsBlock, WriteStep, AllFree, FreeSlots,
           Needs, Made, Used, SlotUsed, PageCount, BlockCount;
      PagesFit(f, page);
      NeedsIs(f, page);
      var block, slot;
      o, block, slot := MakeRoom(f, page);
      if o.AssertFailed? {
        return;
      }
      StepNeedsFree(old(blk.chains), blk.chains, f, page / DATA_PAGES);
      var writeLen := PAGE_DATA_SIZE;
      if writeLen > |data| {
        writeLen := |data|;
      }
      if writeLen > PAGE_DATA_SIZE - offset {
        writeLen := PAGE_DATA_SIZE - offset;
      }
      ghost var room := old(RoomOf(f));
      PagesAfter(raws[f], page, offset, data[..writeLen]);
      var status := CommitPage(f, page, offset, data[..writeLen], block, slot);
      UsedIs(room, page, FreeOf(f), PageCount(|raws[f]|));
      o := Returned(status);
    }

    /** What a caller may know of a valid driver. */
    lemma Facts()
      requires Valid()
      ensures |sizes| == |raws| == MAX_FILES && |blk.chains| == LISTS && files.Length == MAX_FILES && blk.total <= 254
      ensures forall f: nat :: f < MAX_FILES ==>
                                 && files[f].size == sizes[f]
                                 && if sizes[f] >= 0 then sizes[f] == |raws[f]| && |raws[f]| <= 3264 * blk.total
                                    else sizes[f] == -1 && raws[f] == []
    {
      forall f: nat | f < MAX_FILES
        ensures if sizes[f] >= 0 then sizes[f] == |raws[f]| && |raws[f]| <= 3264 * blk.total
                else sizes[f] == -1 && raws[f] == []
      {
        assert FileOk(blk.views, FileList(blk.chains, f), f, sizes[f], raws[f], false);
        blk.Bounded(FIRST_FILE + f);
      }
    }

    /** The size of a file decides how many blocks it has, and the counter of dirty blocks is right. */
    lemma ListFacts()
      requires Valid()
      ensures |sizes| == MAX_FILES && |blk.chains| == LISTS && blk.dirtyBlocks == |blk.chains[DIRTY]|
      ensures forall f: nat | f < MAX_FILES ::
                |FileList(blk.chains, f)| == if sizes[f] >= 0 then BlockCount(sizes[f]) else 0
    {
      forall f: nat | f < MAX_FILES
        ensures |FileList(blk.chains, f)| == if sizes[f] >= 0 then BlockCount(sizes[f]) else 0
      {
        assert FileOk(blk.views, FileList(blk.chains, f), f, sizes[f], raws[f], false);
      }
    }

    /** Free blocks, dirty blocks and the blocks of all files add up to the blocks of the chip. */
    lemma Conserved()
      requires Valid()
      ensures |blk.chains| == LISTS
      ensures |blk.chains[FREE]| + |blk.chains[DIRTY]| + Total(blk.chains[FIRST_FILE..]) == blk.total
    {
      hide Table, Stored, Coherent, Covering, Disjoint, BlockDriver.FlashShown, BlockDriver.CacheCoherent;
      var c := blk.chains;
      blk.Apart();
      forall i, k | 0 <= i < |c| && 0 <= k < |c[i]| ensures 0 <= c[i][k] < blk.total {
        blk.InRange(i);
      }
      Conservation(c, blk.total);
      assert c == c[..FIRST_FILE] + c[FIRST_FILE..];
      TotalSplit(c[..FIRST_FILE], c[FIRST_FILE..]);
      assert c[..FIRST_FILE] == [c[FREE], c[DIRTY]] && [c[FREE], c[DIRTY]][..1] == [c[FREE]];
      assert Total([c[FREE]]) == |c[FREE]| && Total([c[FREE], c[DIRTY]]) == Total([c[FREE]]) + |c[DIRTY]|;
    }

    /** A block that is neither free nor dirty is some block of some file, and its header says which. */
    lemma Owner(b: nat) returns (f: nat, k: nat)
      requires Valid() && |blk.chains| == LISTS && b < blk.total && b !in blk.chains[FREE] && b !in blk.chains[DIRTY]
      ensures f < MAX_FILES && |sizes| == MAX_FILES && sizes[f] >= 0
      ensures k < |FileList(blk.chains, f)| && k < blk.total && FileList(blk.chains, f)[k] == b
      ensures |blk.views| == blk.total && MetaIs(blk.views[b].meta, f, k)
    {
      hide BlockDriver.Valid, Table, Stored, CacheShape, Coherent, BodyHolds;
      assert Listed(blk.chains, b);
      var i, j :| 0 <= i < |blk.chains| && 0 <= j < |blk.chains[i]| && blk.chains[i][j] == b;
      assert b in blk.chains[i];
      f, k := i - FIRST_FILE, j;
      Exists(f);
      FileBlock(f, k, -1);
    }

    /** Only a file that exists has blocks. */
    lemma Exists(f: nat)
      requires Valid() && f < MAX_FILES
      ensures |sizes| == MAX_FILES && |blk.chains| == LISTS && (FileList(blk.chains, f) != [] ==> sizes[f] >= 0)
    {
      assert FileOk(blk.views, FileList(blk.chains, f), f, sizes[f], raws[f], false);
    }

    /** A file that has just been created has all slots of its one block. */
    lemma RoomOfEmpty(f: nat)
      requires Shape(-1) && f < MAX_FILES && sizes[f] == 0
      ensures |blk.chains| == LISTS && |raws| == MAX_FILES && RoomOf(f) == Room([SLOTS], 0) && raws[f] == []
    {
      assert FileOk(blk.views, FileList(blk.chains, f), f, sizes[f], raws[f], false);
      FileBlock(f, 0, -1);
      EmptyBlockFree(blk.views[FileList(blk.chains, f)[0]], 0, raws[f]);
      FreeCountIs(blk.views[FileList(blk.chains, f)[0]].index, SLOTS);
    }

    /** A file of a valid driver can be read, and reading keeps the driver valid. */
    lemma Readable(f: nat)
      requires Valid() && f < MAX_FILES && |sizes| == MAX_FILES && sizes[f] >= 0
      ensures Base() && Holding(-1) && CacheOk() && Held(f)
    {
      Holds(f, -1);
    }

    // ----- Creating and deleting -----

    /** Takes the first free file id and gives it a block.  The page cache may still name a page
        of an older file with that id. */
    method PageCreate() returns (file: int)
      requires Valid()
      modifies files, this`sizes, blk, blk.next, blk.chip.mem
      ensures Shape(-1) && Covering(blk.chains, blk.total) && |old(blk.chains)| == LISTS
      ensures file >= 0 <==> (exists g: nat :: g < MAX_FILES && old(sizes)[g] < 0) && old(blk.chains)[FREE] != []
      ensures file >= 0 ==>
                && file < MAX_FILES && old(sizes)[file] < 0 && (forall g: nat :: g < file ==> old(sizes)[g] >= 0)
                && sizes == old(sizes)[file := 0] && blk.chains == AfterAlloc(old(blk.chains), file)
                && (cacheFile != file ==> CacheOk()) && Frees() == old(Frees())[file := [SLOTS]]
      ensures file < 0 ==>
                && Valid() && sizes == old(sizes) && blk.chains == old(blk.chains) && Frees() == old(Frees())
                && file
                   == if forall g: nat :: g < MAX_FILES ==> sizes[g] >= 0 then STATUS_NO_FREE_FILES
                      else STATUS_NO_FREE_SPACE
    {
      hide BlockDriver.FlashShown, BlockDriver.ListsHeld, BlockDriver.CacheCoherent, Listed, Covering, AllDirty,
           FileOk, AllBlank, MetaIs, FreeSlots, BlankBlock;
      file := -1;
      for i := 0 to MAX_FILES
        invariant forall g: nat :: g < i ==> sizes[g] >= 0
        invariant file == -1
      {
        if files[i].size < 0 {
          file := i;
          break;
        }
      }
      if file < 0 {
        return STATUS_NO_FREE_FILES;
      }
      ghost var chains0, views0 := blk.chains, blk.views;
      blk.Apart();
      NoBlocks(file);
      if chains0[FREE] != [] {
        PopStored(views0, chains0, sizes, raws, -1);
      }
      var status := AllocBlock(file);
      if status < 0 {
        return status;
      }
      files[file] := FileInfo(files[file].start, 0);
      sizes := sizes[file := 0];
      ghost var b := chains0[FREE][0];
      AllocSlots(views0, chains0, file, blk.views[b]);
      assert FreeSlots(views0, FileList(chains0, file)) + [SLOTS] == [SLOTS];
      AllocStored(views0, chains0, old(sizes), raws, file, blk.views[b].meta);
      AllocKeeps(chains0, file);
      KeepsCovering(chains0, blk.chains, blk.total);
      CoherentAlloc(views0, chains0, old(sizes), raws, cacheFile, cacheNumber, cachePage, file, blk.views[b]);
    }

    /** A file that does not exist has no blocks. */
    lemma NoBlocks(f: nat)
      requires Valid() && f < MAX_FILES && |sizes| == MAX_FILES && sizes[f] < 0
      ensures |blk.chains| == LISTS && FileList(blk.chains, f) == [] && FreeOf(f) == []
    {
      assert FileOk(blk.views, FileList(blk.chains, f), f, sizes[f], raws[f], false);
    }

    /** Moves all blocks of a file to the dirty list and frees its id. */
    method PageDelete(f: nat) returns (status: int)
      requires Valid() && f < MAX_FILES && blk.total > 0
      modifies files, this`sizes, this`raws, blk, blk.next, blk.chip.mem
      ensures Valid() && status == STATUS_OK
      ensures sizes == old(sizes)[f := -1] && raws == old(raws)[f := []]
      ensures |old(blk.chains)| == LISTS && blk.chains == AfterDelete(old(blk.chains), f)
      ensures Frees() == old(Frees())[f := []]
    {
      hide BlockDriver.FlashShown, BlockDriver.ListsHeld, BlockDriver.CacheCoherent, Covering, Stored, Coherent,
           DirtyMarked, Listed, AllBlank, AllDirty, AllFree;
      ghost var chains0, views0 := blk.chains, blk.views;
      blk.Apart();
      DirtyAll(f);
      files[f] := FileInfo(INVALID, -1);
      DeleteSlots(views0, blk.views, chains0, f);
      DeleteStored(views0, blk.views, chains0, sizes, raws, f);
      CoherentDeleted(views0, blk.views, chains0, sizes, raws, cacheFile, cacheNumber, cachePage, f);
      DeleteKeeps(chains0, f);
      KeepsCovering(chains0, blk.chains, blk.total);
      sizes := sizes[f := -1];
      raws := raws[f := []];
      status := STATUS_OK;
    }

    /** The loop of a delete: every block of the file's list goes to the dirty list, in order. */
    method DirtyAll(f: nat)
      requires blk.Valid() && Table() && f < MAX_FILES && blk.total > 0
      modifies blk, blk.next, blk.chip.mem
      ensures blk.Valid() && |old(blk.chains)| == LISTS && blk.chains == AfterDelete(old(blk.chains), f)
      ensures |blk.views| == |old(blk.views)|
      ensures forall b | 0 <= b < |blk.views| && b !in FileList(old(blk.chains), f) :: blk.views[b] == old(blk.views)[b]
      ensures forall b | 0 <= b < |blk.views| && b in FileList(old(blk.chains), f) :: DirtyMarked(blk.views[b])
    {
      hide BlockDriver.FlashShown, BlockDriver.ListsHeld, BlockDriver.CacheCoherent, Listed;
      ghost var chains0, views0, l := blk.chains, blk.views, FileList(blk.chains, f);
      blk.InRange(FIRST_FILE + f);
      DeletingSteps(chains0, f, 0);
      var block := blk.GetBlock(FIRST_FILE + f, files[f].start, 0);
      ghost var i := 0;
      while block != INVALID
        invariant 0 <= i <= |l| && block == HeadOf(l[i..])
        invariant blk.Valid() && |blk.views| == |views0| && |blk.chains| == LISTS
        invariant blk.chains == Deleting(chains0, f, i)
        invariant forall b | 0 <= b < |blk.views| && b !in l[..i] :: blk.views[b] == views0[b]
        invariant forall b | 0 <= b < |blk.views| && b in l[..i] :: DirtyMarked(blk.views[b])
        decreases |l| - i
      {
        var next := blk.Next(block);
        blk.Detach(FIRST_FILE + f);
        blk.InRange(DIRTY);
        DeletingSteps(chains0, f, i);
        blk.ViewShaped(block);
        DirtyViewMarked(blk.views[block]);
        blk.SetDirty(block);
        block := next;
        assert l[..i + 1] == l[..i] + [l[i]] && l[i..][1..] == l[i + 1..];
        i := i + 1;
      }
      assert l[..i] == l;
    }
  }

  /** Writing `data` into page p changes that page only and leaves the file ending where its
      last page ends. */
  lemma WriteFits(raw: seq<byte>, p: nat, off: nat, data: seq<byte>)
    requires 0 < |data| && off + |data| <= 64 && 64 * p + off <= |raw|
    ensures var raw' := Splice(raw, 64 * p + off, data);
            && OnlyPage(raw, raw', p)
            && |raw'| == if 64 * p + |PageBytes(raw', p)| > |raw| then 64 * p + |PageBytes(raw', p)| else |raw|
  {
    var raw' := Splice(raw, 64 * p + off, data);
    forall q: nat | q != p ensures (HasPage(raw', q) <==> HasPage(raw, q)) && PageBytes(raw', q) == PageBytes(raw, q) {
      SplicePages(raw, p, off, data, q);
    }
    SplicePages(raw, p, off, data, p);
  }

  /** The block count that MakeRoom provides is the one the longer file calls for. */
  lemma BlocksAfter(raw: seq<byte>, p: nat, off: nat, data: seq<byte>, blocks: nat)
    requires 0 < |data| && off + |data| <= 64 && 64 * p + off <= |raw| && p / 51 < blocks
    requires blocks == BlockCount(|raw|) || blocks == BlockCount(|raw|) + 1 == p / 51 + 1
    ensures blocks == BlockCount(|Splice(raw, 64 * p + off, data)|)
  {
  }

  /** How many pages a file has after a write to page p. */
  lemma PagesAfter(raw: seq<byte>, p: nat, off: nat, data: seq<byte>)
    requires 0 < |data| && off + |data| <= 64 && 64 * p + off <= |raw|
    ensures PageCount(|Splice(raw, 64 * p + off, data)|) == if PageCount(|raw|) <= p then p + 1 else PageCount(|raw|)
  {
  }

  /** The room after that. */
  lemma UsedIs(r: Room, p: nat, slots: seq<nat>, pages: nat)
    requires BlockOf(p) <= |r.slots| && SlotUsed(Made(r, p), slots, p / 51)
    requires pages == if r.pages <= p then p + 1 else r.pages
    ensures Room(slots, pages) == Used(r, p)
  {
  }

  /** One slot of block k has been used up. */
  ghost predicate SlotUsed(slots: seq<nat>, slots': seq<nat>, k: nat) {
    k < |slots| && slots[k] > 0 && slots' == slots[k := slots[k] - 1]
  }

  /** How much of `data` fits in a page from `offset` on. */
  function Fitting(offset: nat, len: nat): (r: nat)
    requires offset < 64
    ensures r <= len && offset + r <= 64 && (len > 0 ==> r > 0)
  {
    if len < 64 - offset then len else 64 - offset
  }

  /** The part of `data` that fits in the page has been written to file f, and nothing else. */
  ghost predicate PageWritten(raws: seq<seq<byte>>, raws': seq<seq<byte>>, f: nat, page: nat, offset: nat,
                              data: seq<byte>) {
    && f < |raws| && offset < 64 && 64 * page + offset <= |raws[f]|
    && raws' == raws[f := Splice(raws[f], 64 * page + offset, data[..Fitting(offset, |data|)])]
  }
}
