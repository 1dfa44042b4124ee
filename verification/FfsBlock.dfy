/** ffs_block.c: the block driver.  It owns the shared next_block array with the free and dirty
    lists and their counters, the doubled block headers, and a one-block cache of page indexes.
    The ghost fields say what the concrete state means: `views[b]` is the block that the bytes
    of erase block b spell out, and `chains` are the lists the next array links together
    (free, dirty, then one per file). */
module FfsBlock {
  import opened Bytes
  import opened Flash25
  import opened Crc
  import opened FfsLayout
  import opened FfsLists
  import opened FfsIndex

  datatype IndexInfo = IndexInfo(dataPages: int, freePages: nat, phyLastPage: int, logicalLastPage: int,
                                 phyNextFree: int)

  ghost predicate InfoOf(info: IndexInfo, index: seq<byte>) {
    && info.phyNextFree == FirstFree(index) && info.freePages == FreeCount(index)
    && info.logicalLastPage == Highest(index) && info.dataPages == Highest(index) + 1
    && (Highest(index) >= 0 ==> info.phyLastPage == Newest(index, Highest(index)))
  }

  /** One pass over an index. */
  method ScanInfo(index: seq<byte>) returns (info: IndexInfo)
    requires AppendOnly(index)
    ensures InfoOf(info, index)
  {
    var free, last, logical, nextFree := 0, -1, -1, -1;
    for i := 0 to SLOTS
      invariant free == FreeBelow(index, i) && logical == HighestBelow(index, i)
      invariant nextFree == if 0 <= FirstFree(index) < i then FirstFree(index) else -1
      invariant -1 <= last < i && (logical == -1 <==> last == -1)
      invariant last >= 0 ==> index[last] == logical < DATA_PAGES && forall j :: last < j < i ==> index[j] != logical
    {
      if index[i] == INDEX_FREE {
        free := free + 1;
        if nextFree < 0 {
          nextFree := i;
        }
      } else if index[i] >= logical {
        logical := index[i];
        last := i;
      }
    }
    info := IndexInfo(logical + 1, free, last, logical, nextFree);
    if last >= 0 {
      NewestIs(index, logical, last);
    }
  }

  class BlockDriver {
    const chip: Chip
    const total: nat
    const next: array<int>
    var freeList: int
    var dirtyList: int
    var freeBlocks: nat
    var dirtyBlocks: nat
    var cacheBlock: int
    var cacheIndex: seq<byte>
    ghost var chains: seq<seq<int>>
    ghost var views: seq<Block>

    /** A driver for a chip whose blocks all hold two equal headers; mounting fills the rest. */
    constructor (chip: Chip, total: nat)
      requires total <= 254 && chip.mem.Length == ERASE_BLOCK_SIZE * total
      requires forall b: nat | b < total :: Doubled(chip.Image(b))
      ensures this.chip == chip && this.total == total && fresh(next) && next.Length == total
      ensures FlashShown()
    {
      this.chip, this.total := chip, total;
      next := new int[total](_ => INVALID);
      freeList, dirtyList, freeBlocks, dirtyBlocks := INVALID, INVALID, 0, 0;
      cacheBlock, cacheIndex := INVALID, Ones(SLOTS);
      chains := [];
      views := seq(total, b requires 0 <= b < total reads chip.mem requires chip.mem.Length == ERASE_BLOCK_SIZE * total
                          => View(chip.Image(b)));
    }

    // ----- Invariants -----

    /** Every erase block holds two equal headers and reads as the block in `views`. */
    ghost predicate FlashShown()
      reads this`views, chip.mem
    {
      && total <= 254 && chip.mem.Length == ERASE_BLOCK_SIZE * total && |views| == total
      && forall b: nat | b < total :: Doubled(chip.Image(b)) && View(chip.Image(b)) == views[b]
    }

    ghost predicate ListsHeld()
      reads this`chains, this`freeList, this`dirtyList, this`freeBlocks, this`dirtyBlocks, next
    {
      && next.Length == total && |chains| == LISTS && ChainsOk(next[..], chains)
      && freeList == HeadOf(chains[FREE]) && freeBlocks == |chains[FREE]|
      && dirtyList == HeadOf(chains[DIRTY]) && dirtyBlocks == |chains[DIRTY]|
    }

    /** A cached index is the index in flash. */
    ghost predicate CacheCoherent()
      reads this`cacheBlock, this`cacheIndex, this`views
    {
      && |cacheIndex| == SLOTS
      && (cacheBlock != INVALID ==> 0 <= cacheBlock < |views| && cacheIndex == views[cacheBlock].index)
    }

    ghost predicate Valid()
      reads this, next, chip.mem
    {
      FlashShown() && ListsHeld() && CacheCoherent()
    }

    /** The link of a listed block leads to the next one of its list. */
    lemma Follow(id: nat, k: nat)
      requires Valid() && id < LISTS && |chains| == LISTS && k < |chains[id]|
      ensures 0 <= chains[id][k] < next.Length
      ensures next[chains[id][k]] == if k + 1 < |chains[id]| then chains[id][k + 1] else INVALID
    {
      LinkMeans(next[..], chains, id, k);
    }

    /** The heads and counters of the free and dirty lists. */
    lemma Heads()
      requires Valid()
      ensures |chains| == LISTS
      ensures freeList == HeadOf(chains[FREE]) && freeBlocks == |chains[FREE]|
      ensures dirtyList == HeadOf(chains[DIRTY]) && dirtyBlocks == |chains[DIRTY]|
    {
    }

    /** The blocks on a list are blocks of the chip. */
    lemma InRange(id: nat)
      requires Valid() && id < LISTS
      ensures |chains| == LISTS && |views| == total <= 254
      ensures forall k :: 0 <= k < |chains[id]| ==> 0 <= chains[id][k] < total && chains[id][k] != INVALID
    {
      forall k | 0 <= k < |chains[id]| ensures 0 <= chains[id][k] < total {
        LinkMeans(next[..], chains, id, k);
      }
    }

    lemma Bounded(id: nat)
      requires Valid() && id < LISTS
      ensures |chains[id]| <= total <= 254
    {
      ChainBound(next[..], chains, id);
    }

    lemma Apart()
      requires Valid()
      ensures Disjoint(chains)
    {
    }

    lemma ViewShaped(b: nat)
      requires FlashShown() && b < total
      ensures views[b].Shaped()
    {
      assert View(chip.Image(b)).Shaped();
    }

    // ----- Lists -----

    /** Takes the first free block, or answers INVALID when there is none. */
    method Alloc() returns (block: int)
      requires Valid()
      modifies this`freeList, this`freeBlocks, this`chains, next
      ensures Valid()
      ensures if old(chains)[FREE] == [] then block == INVALID && chains == old(chains)
              else && block == old(chains)[FREE][0] && 0 <= block < total && block != INVALID
                   && chains == old(chains)[FREE := old(chains)[FREE][1..]] && !Listed(chains, block)
    {
      if freeBlocks == 0 {
        return INVALID;
      }
      block := freeList;
      ghost var n := next[..];
      PopKeeps(n, chains, FREE, INVALID);
      freeList := next[block];
      next[block] := INVALID;
      freeBlocks := freeBlocks - 1;
      chains := chains[FREE := chains[FREE][1..]];
      assert next[..] == n[block := INVALID];
    }

    /** While a block is on no list, every list has fewer than all the blocks. */
    lemma Room(block: int, id: nat)
      requires Valid() && 0 <= block < total && !Listed(chains, block) && id < LISTS
      ensures |chains[id]| < total
    {
      UnlistedRoom(next[..], chains, id, block);
    }

    /** Takes the first dirty block, or answers INVALID when there is none. */
    method GetDirty() returns (block: int)
      requires Valid()
      modifies this`dirtyList, this`dirtyBlocks, this`chains, next
      ensures Valid()
      ensures if old(chains)[DIRTY] == [] then block == INVALID && chains == old(chains)
              else && block == old(chains)[DIRTY][0] && 0 <= block < total && block != INVALID
                   && chains == old(chains)[DIRTY := old(chains)[DIRTY][1..]] && !Listed(chains, block)
    {
      if dirtyBlocks == 0 {
        return INVALID;
      }
      block := dirtyList;
      ghost var n := next[..];
      PopKeeps(n, chains, DIRTY, INVALID);
      dirtyList := next[block];
      next[block] := INVALID;
      dirtyBlocks := dirtyBlocks - 1;
      chains := chains[DIRTY := chains[DIRTY][1..]];
      assert next[..] == n[block := INVALID];
    }

    /** Forgets the first block of a file list, whose head the caller is about to drop. */
    ghost method Detach(id: nat)
      requires Valid() && FIRST_FILE <= id < LISTS && chains[id] != []
      modifies this`chains
      ensures Valid()
      ensures var b := old(chains)[id][0];
              && 0 <= b < total && next[b] == HeadOf(old(chains)[id][1..])
              && chains == old(chains)[id := old(chains)[id][1..]] && !Listed(chains, b)
    {
      ghost var b := chains[id][0];
      ghost var n := next[..];
      assert Linked(n, chains[id]) && LinkAt(n, chains[id], 0);
      PopKeeps(n, chains, id, n[b]);
      assert n[b := n[b]] == n;
      chains := chains[id := chains[id][1..]];
    }

    /** Forgets a whole file list, whose head the caller has just dropped. */
    ghost method DropList(id: nat)
      requires Valid() && FIRST_FILE <= id < LISTS
      modifies this`chains
      ensures Valid() && |old(chains)| == LISTS && chains == old(chains)[id := []]
    {
      DropKeeps(next[..], chains, id);
      chains := chains[id := []];
    }

    /** Adds a block at the end of the list whose head is `head`; answers the new head. */
    method AddToList(id: nat, head: int, block: int) returns (head': int)
      requires Valid() && id < LISTS && head == HeadOf(chains[id])
      requires 0 <= block < total && !Listed(chains, block)
      modifies this`freeList, this`dirtyList, this`freeBlocks, this`dirtyBlocks, this`chains, next
      ensures Valid()
      ensures chains == old(chains)[id := old(chains)[id] + [block]]
      ensures head' == HeadOf(chains[id])
    {
      ghost var n, l := next[..], chains[id];
      AppendKeeps(n, chains, id, block);
      HeadMeans(n, chains, id);
      next[block] := INVALID;
      head' := head;
      if head == INVALID {
        head' := block;
      } else {
        var cur := head;
        ghost var k := 0;
        while true
          invariant 0 <= k < |l| && cur == l[k]
          invariant next[..] == n[block := INVALID]
          modifies next
          decreases |l| - k
        {
          LinkMeans(n, old(chains), id, k);
          assert cur != block by {
            assert old(chains)[id][k] != block;
          }
          if next[cur] == INVALID {
            next[cur] := block;
            break;
          }
          cur := next[cur];
          k := k + 1;
        }
      }
      if id == DIRTY {
        dirtyBlocks := dirtyBlocks + 1;
        dirtyList := head';
      } else if id == FREE {
        freeBlocks := freeBlocks + 1;
        freeList := head';
      }
      assert next[..] == Appended(n, l, block);
      chains := chains[id := l + [block]];
    }

    /** Puts new_block in the place of old_block, the k-th block of the list whose head is `head`. */
    method ReplaceInList(id: nat, head: int, oldBlock: int, newBlock: int, ghost k: nat) returns (head': int)
      requires Valid() && FIRST_FILE <= id < LISTS && head == HeadOf(chains[id])
      requires k < |chains[id]| && oldBlock == chains[id][k]
      requires 0 <= newBlock < total && !Listed(chains, newBlock)
      modifies this`chains, next
      ensures Valid()
      ensures chains == old(chains)[id := old(chains)[id][k := newBlock]]
      ensures head' == HeadOf(chains[id]) && !Listed(chains, oldBlock)
    {
      ghost var n, l := next[..], chains[id];
      ReplaceKeeps(n, chains, id, k, newBlock);
      head' := head;
      if head == oldBlock {
        assert chains[id][0] == chains[id][k];
        head' := newBlock;
      } else {
        var prev := head;
        ghost var j := 0;
        LinkMeans(n, chains, id, 0);
        while next[prev] != oldBlock
          invariant 0 <= j < k && prev == l[j] && 0 <= prev < total
          modifies {}
          decreases k - j
        {
          LinkMeans(n, chains, id, j);
          prev := next[prev];
          j := j + 1;
          LinkMeans(n, chains, id, j);
        }
        LinkMeans(n, chains, id, j);
        assert chains[id][j + 1] == chains[id][k];
        next[prev] := newBlock;
      }
      next[newBlock] := next[oldBlock];
      assert next[..] == Replaced(n, l, k, newBlock);
      chains := chains[id := l[k := newBlock]];
    }

    method ListSize(id: nat, head: int) returns (count: nat)
      requires Valid() && id < LISTS && head == HeadOf(chains[id])
      ensures count == |chains[id]| <= 254
    {
      HeadMeans(next[..], chains, id);
      ChainBound(next[..], chains, id);
      var cur := head;
      count := 0;
      while cur != INVALID
        invariant 0 <= count <= |chains[id]|
        invariant cur == if count < |chains[id]| then chains[id][count] else INVALID
        decreases |chains[id]| - count
      {
        LinkMeans(next[..], chains, id, count);
        cur := next[cur];
        count := count + 1;
      }
      if count < |chains[id]| {
        LinkMeans(next[..], chains, id, count);
        assert false;
      }
    }

    /** The index-th block of a list, or INVALID past its end. */
    method GetBlock(id: nat, head: int, index: nat) returns (block: int)
      requires Valid() && id < LISTS && head == HeadOf(chains[id]) && index < total
      ensures block == if index < |chains[id]| then chains[id][index] else INVALID
      ensures index < |chains[id]| ==> 0 <= block < total && block != INVALID
    {
      HeadMeans(next[..], chains, id);
      var i := index;
      block := head;
      while i > 0 && block != INVALID
        invariant 0 <= i <= index
        invariant block == if index - i < |chains[id]| then chains[id][index - i] else INVALID
        invariant block != INVALID ==> 0 <= block < total
        invariant block == INVALID ==> |chains[id]| <= index - i
        decreases i
      {
        LinkMeans(next[..], chains, id, index - i);
        block := next[block];
        i := i - 1;
        if index - i < |chains[id]| {
          LinkMeans(next[..], chains, id, index - i);
        }
      }
    }

    method Next(block: nat) returns (r: int)
      requires Valid() && block < total
      ensures r == next[block]
    {
      r := next[block];
    }

    method IsInList(id: nat, head: int, block: int) returns (found: bool)
      requires Valid() && id < LISTS && head == HeadOf(chains[id])
      ensures found <==> block in chains[id]
    {
      HeadMeans(next[..], chains, id);
      var cur := head;
      ghost var k := 0;
      while cur != INVALID
        invariant 0 <= k <= |chains[id]|
        invariant cur == if k < |chains[id]| then chains[id][k] else INVALID
        invariant cur == INVALID ==> k == |chains[id]|
        invariant forall j :: 0 <= j < k ==> chains[id][j] != block
        decreases |chains[id]| - k
      {
        if cur == block {
          return true;
        }
        LinkMeans(next[..], chains, id, k);
        cur := next[cur];
        k := k + 1;
        if k < |chains[id]| {
          LinkMeans(next[..], chains, id, k);
        }
      }
      return false;
    }

    // ----- Headers -----

    /** A header byte reads the same from both copies. */
    lemma HeaderByte(block: nat, k: nat)
      requires FlashShown() && block < total && k < HEADER_SIZE
      ensures ERASE_BLOCK_SIZE * block + HEADER_SIZE + k < chip.mem.Length && views[block].Shaped()
      ensures chip.mem[ERASE_BLOCK_SIZE * block + k] == chip.mem[ERASE_BLOCK_SIZE * block + HEADER_SIZE + k]
              == if k < META_SIZE then views[block].meta[k] else views[block].index[k - META_SIZE]
    {
      var img := chip.Image(block);
      DoubledAt(img, k);
      assert View(img) == views[block];
      assert chip.mem[ERASE_BLOCK_SIZE * block + k] == img[k];
      assert chip.mem[ERASE_BLOCK_SIZE * block + HEADER_SIZE + k] == img[HEADER_SIZE + k];
    }

    /** Reads one byte from each header copy. */
    method ReadBoth(block: nat, k: nat) returns (b0: byte, b1: byte)
      requires FlashShown() && block < total && k < HEADER_SIZE
      ensures views[block].Shaped()
      ensures b0 == b1 == if k < META_SIZE then views[block].meta[k] else views[block].index[k - META_SIZE]
    {
      HeaderByte(block, k);
      var d0 := chip.Read(ERASE_BLOCK_SIZE * block + k, 1);
      var d1 := chip.Read(ERASE_BLOCK_SIZE * block + HEADER_SIZE + k, 1);
      b0, b1 := d0[0], d1[0];
    }

    /** The flags byte when both copies agree, or 0. */
    method ReadFlags(block: nat) returns (flags: byte)
      requires FlashShown() && block < total
      ensures views[block].Shaped() && flags == views[block].meta[OFF_FLAGS]
    {
      var flags0, flags1 := ReadBoth(block, OFF_FLAGS);
      flags := if flags0 == flags1 then flags0 else 0;
    }

    /** Programs the same bytes at the same place in both header copies. */
    method WriteBoth(block: nat, off: nat, data: seq<byte>)
      requires block < total && chip.mem.Length == ERASE_BLOCK_SIZE * total && off + |data| <= HEADER_SIZE
      modifies chip.mem
      ensures chip.Image(block) == Programmed(Programmed(old(chip.Image(block)), off, data), HEADER_SIZE + off, data)
      ensures forall c: nat | c != block && c < total :: chip.Image(c) == old(chip.Image(c))
    {
      chip.WriteWithin(ERASE_BLOCK_SIZE * block + off, data, block);
      chip.WriteWithin(ERASE_BLOCK_SIZE * block + HEADER_SIZE + off, data, block);
    }

    /** Moves a block that is on no list to the dirty list and clears its "not dirty" flag. */
    method SetDirty(block: nat)
      requires Valid() && block < total && !Listed(chains, block)
      modifies this`freeList, this`dirtyList, this`freeBlocks, this`dirtyBlocks, this`chains, this`views, next, chip.mem
      ensures Valid()
      ensures chains == old(chains)[DIRTY := old(chains)[DIRTY] + [block]]
      ensures views == old(views)[block := DirtyView(old(views)[block])]
      ensures old(views)[block].Shaped() && views[block].Shaped()
      ensures views[block].meta[OFF_FLAGS] == old(views)[block].meta[OFF_FLAGS] % 0x80
    {
      var flags := ReadFlags(block);
      MaskDirty(flags);
      flags := And8(flags, NOT_DIRTY_MASK);
      ghost var img := chip.Image(block);
      ProgramFlags(img, NOT_DIRTY_MASK);
      WriteBoth(block, OFF_FLAGS, [flags]);
      views := views[block := DirtyView(views[block])];
      var flags0, flags1 := ReadBoth(block, OFF_FLAGS);
      if flags0 != flags && flags1 != flags {
        assert false;
      }
      var _ := AddToList(DIRTY, dirtyList, block);
    }

    /** Erases a block that is on no list and adds it to the free list. */
    method Erase(block: nat)
      requires Valid() && block < total && !Listed(chains, block)
      modifies this`freeList, this`dirtyList, this`freeBlocks, this`dirtyBlocks, this`cacheBlock, this`chains,
               this`views,
               next, chip.mem
      ensures Valid()
      ensures chains == old(chains)[FREE := old(chains)[FREE] + [block]]
      ensures views == old(views)[block := BlankBlock()]
    {
      if cacheBlock == block {
        cacheBlock := INVALID;
      }
      chip.Erase4k(block);
      BlankImage();
      views := views[block := BlankBlock()];
      var _ := AddToList(FREE, freeList, block);
    }

    /** Reads the meta header when both copies agree and name a possible file and block. */
    method ReadMeta(block: nat) returns (status: int, meta: seq<byte>)
      requires FlashShown() && block < total
      ensures views[block].Shaped() && meta == views[block].meta
      ensures status == if meta[OFF_FILE_ID] < MAX_FILES && meta[OFF_BLOCK] < total then STATUS_OK else STATUS_ERROR
    {
      MetaReadable(block);
      meta := chip.Read(ERASE_BLOCK_SIZE * block, META_SIZE);
      var check := chip.Read(ERASE_BLOCK_SIZE * block + HEADER_SIZE, META_SIZE);
      status := if meta != check then STATUS_ERROR
                else if meta[OFF_FILE_ID] >= MAX_FILES || meta[OFF_BLOCK] >= total then STATUS_ERROR
                else STATUS_OK;
    }

    lemma MetaReadable(block: nat)
      requires FlashShown() && block < total
      ensures var a := ERASE_BLOCK_SIZE * block;
              && a + HEADER_SIZE + META_SIZE <= chip.mem.Length
              && chip.mem[a..a + META_SIZE] == views[block].meta
              && chip.mem[a + HEADER_SIZE..a + HEADER_SIZE + META_SIZE] == views[block].meta
      ensures views[block].Shaped()
    {
      forall k | 0 <= k < META_SIZE
        ensures chip.mem[ERASE_BLOCK_SIZE * block + k] == chip.mem[ERASE_BLOCK_SIZE * block + HEADER_SIZE + k]
                == views[block].meta[k]
      {
        HeaderByte(block, k);
      }
      HeaderByte(block, 0);
    }

    method WriteMeta(block: nat, meta: seq<byte>) returns (status: int)
      requires Valid() && block < total && views[block].meta == Ones(META_SIZE)
      requires |meta| == META_SIZE && meta[OFF_FILE_ID] < MAX_FILES && meta[OFF_BLOCK] < total
      modifies this`views, chip.mem
      ensures Valid() && status == STATUS_OK
      ensures views == old(views)[block := old(views)[block].(meta := meta)]
    {
      ProgramMeta(chip.Image(block), meta);
      WriteBoth(block, 0, meta);
      views := views[block := views[block].(meta := meta)];
      var readBack;
      status, readBack := ReadMeta(block);
    }

    // ----- Indexes -----

    method ReadIndex(block: nat) returns (status: int, index: seq<byte>)
      requires Valid() && block < total
      modifies this`cacheBlock, this`cacheIndex
      ensures Valid() && status == STATUS_OK && index == views[block].index
    {
      if block == cacheBlock {
        return STATUS_OK, cacheIndex;
      }
      IndexReadable(block);
      cacheIndex := chip.Read(ERASE_BLOCK_SIZE * block + META_SIZE, SLOTS);
      var crc0 := Crc16(cacheIndex);
      cacheIndex := chip.Read(ERASE_BLOCK_SIZE * block + HEADER_SIZE + META_SIZE, SLOTS);
      var crc1 := Crc16(cacheIndex);
      if crc0 != crc1 {
        assert false;
      }
      cacheBlock := block;
      return STATUS_OK, cacheIndex;
    }

    lemma IndexReadable(block: nat)
      requires FlashShown() && block < total
      ensures var a := ERASE_BLOCK_SIZE * block + META_SIZE;
              && a + HEADER_SIZE + SLOTS <= chip.mem.Length
              && chip.mem[a..a + SLOTS] == views[block].index == chip.mem[a + HEADER_SIZE..a + HEADER_SIZE + SLOTS]
    {
      var a := ERASE_BLOCK_SIZE * block + META_SIZE;
      forall k | 0 <= k < SLOTS ensures chip.mem[a + k] == views[block].index[k] == chip.mem[a + HEADER_SIZE + k] {
        HeaderByte(block, META_SIZE + k);
      }
      HeaderByte(block, 0);
    }

    /** Records in both index copies, and in the cache, that a slot holds a logical page. */
    method SetIndexEntry(block: nat, logical: byte, phy: nat) returns (status: int)
      requires Valid() && block < total && logical < DATA_PAGES && phy < SLOTS
      requires |views[block].index| == SLOTS && views[block].index[phy] == INDEX_FREE
      modifies this`cacheIndex, this`views, chip.mem
      ensures Valid() && status == STATUS_OK
      ensures views == old(views)[block := old(views)[block].(index := old(views)[block].index[phy := logical])]
    {
      hide ListsHeld, Doubled, View, Programmed;
      if block == cacheBlock {
        cacheIndex := cacheIndex[phy := logical];
      }
      ProgramIndex(chip.Image(block), phy, logical);
      WriteBoth(block, META_SIZE + phy, [logical]);
      views := views[block := views[block].(index := views[block].index[phy := logical])];
      var b0, b1 := ReadBoth(block, META_SIZE + phy);
      status := if b0 != logical || b1 != logical then STATUS_ERROR else STATUS_OK;
    }

    /** Free slots and last page of a block. */
    method GetIndexInfo(block: nat) returns (status: int, info: IndexInfo)
      requires Valid() && block < total && AppendOnly(views[block].index)
      modifies this`cacheBlock, this`cacheIndex
      ensures Valid() && status == STATUS_OK
      ensures InfoOf(info, views[block].index)
    {
      var index;
      status, index := ReadIndex(block);
      info := ScanInfo(index);
    }

    // ----- Page slots -----

    method ReadSlot(block: nat, slot: nat) returns (page: seq<byte>)
      requires Valid() && block < total && slot < SLOTS
      ensures |views[block].slots| == SLOTS && page == views[block].slots[slot] && |page| == SLOT_SIZE
    {
      page := chip.Read(ERASE_BLOCK_SIZE * block + SlotOffset(slot), SLOT_SIZE);
      ghost var img := chip.Image(block);
      assert View(img) == views[block];
      forall k | 0 <= k < SLOT_SIZE ensures page[k] == SlotOf(img, slot)[k] {
        assert img[SlotOffset(slot) + k] == chip.mem[ERASE_BLOCK_SIZE * block + SlotOffset(slot) + k];
      }
      assert page == SlotOf(img, slot);
    }

    /** Programs an erased slot. */
    method WriteSlot(block: nat, slot: nat, page: seq<byte>)
      requires Valid() && block < total && slot < SLOTS && |page| == SLOT_SIZE
      requires |views[block].slots| == SLOTS && views[block].slots[slot] == Ones(SLOT_SIZE)
      modifies this`views, chip.mem
      ensures Valid()
      ensures views == old(views)[block := old(views)[block].(slots := old(views)[block].slots[slot := page])]
    {
      ghost var img := chip.Image(block);
      assert View(img) == views[block];
      ProgramSlot(img, slot, page);
      chip.WriteWithin(ERASE_BLOCK_SIZE * block + SlotOffset(slot), page, block);
      views := views[block := views[block].(slots := views[block].slots[slot := page])];
    }
  }
}
