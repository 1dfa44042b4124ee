/** What it means for a list of blocks to hold a file.  A file is a byte sequence cut into 64
    byte pages; block k of the file holds pages 51k..51k+50, each in the newest slot its index
    names.  Everything here is about values: `views` are the decoded erase blocks, `l` is the
    file's block list, `raw` its bytes including the two meta pages. */
module FfsFile {
  import opened Bytes
  import opened Integers
  import opened Crc
  import opened FfsLayout
  import opened FfsIndex
  import opened FfsCost

  const BLOCK_DATA_SIZE := PAGE_DATA_SIZE * DATA_PAGES

  // ----- Pages of a byte sequence -----

  /** The bytes of page p, fewer than 64 on the last page and none past it. */
  function PageBytes(raw: seq<byte>, p: nat): (r: seq<byte>)
    ensures |r| <= PAGE_DATA_SIZE
  {
    if |raw| <= 64 * p then [] else raw[64 * p..if |raw| <= 64 * p + 64 then |raw| else 64 * p + 64]
  }

  lemma PageLength(raw: seq<byte>, p: nat)
    ensures |PageBytes(raw, p)| == if |raw| <= 64 * p then 0 else if |raw| <= 64 * p + 64 then |raw| - 64 * p else 64
  {
  }

  predicate HasPage(raw: seq<byte>, p: nat) {
    64 * p < |raw|
  }

  /** raw with `data` written at `pos`, growing at the end if need be. */
  function Splice(raw: seq<byte>, pos: nat, data: seq<byte>): (r: seq<byte>)
    requires pos <= |raw|
    ensures |r| == if pos + |data| < |raw| then |raw| else pos + |data|
    ensures forall i :: 0 <= i < |r| ==> r[i] == if pos <= i < pos + |data| then data[i - pos] else raw[i]
  {
    raw[..pos] + data + if pos + |data| < |raw| then raw[pos + |data|..] else []
  }

  /** Writing within page p changes page p only. */
  lemma SplicePages(raw: seq<byte>, p: nat, off: nat, data: seq<byte>, q: nat)
    requires off + |data| <= 64 && |data| > 0 && 64 * p + off <= |raw|
    ensures var raw' := Splice(raw, 64 * p + off, data);
            && HasPage(raw', p)
            && (q != p ==> (HasPage(raw', q) <==> HasPage(raw, q)) && PageBytes(raw', q) == PageBytes(raw, q))
  {
  }

  /** Page p after the write is page p before it with the data laid over, as the page cache does it. */
  lemma SplicePage(raw: seq<byte>, p: nat, off: nat, data: seq<byte>)
    requires off + |data| <= 64 && |data| > 0 && 64 * p + off <= |raw|
    ensures var raw' := Splice(raw, 64 * p + off, data);
            var was := PageBytes(raw, p);
            var now := PageBytes(raw', p);
            && off <= |was|
            && |now| == (if |was| < off + |data| then off + |data| else |was|)
            && forall i :: 0 <= i < |now| ==> now[i] == if off <= i < off + |data| then data[i - off] else was[i]
  {
    var raw' := Splice(raw, 64 * p + off, data);
    var was, now := PageBytes(raw, p), PageBytes(raw', p);
    forall i | 0 <= i < |now| ensures now[i] == if off <= i < off + |data| then data[i - off] else was[i] {
      assert now[i] == raw'[64 * p + i];
    }
  }

  // ----- A page slot -----

  function SlotLen(slot: seq<byte>): byte
    requires |slot| == SLOT_SIZE
  {
    slot[0]
  }

  /** The slot carries the checksum of its first `len` data bytes. */
  predicate CrcOk(slot: seq<byte>)
    requires |slot| == SLOT_SIZE && SlotLen(slot) <= PAGE_DATA_SIZE
  {
    Crc16(slot[1..1 + SlotLen(slot)]) == slot[CRC_OFFSET..]
  }

  ghost predicate SlotHolds(slot: seq<byte>, bytes: seq<byte>) {
    |slot| == SLOT_SIZE && SlotLen(slot) == |bytes| && |bytes| <= PAGE_DATA_SIZE && slot[1..1 + |bytes|] == bytes
      && CrcOk(slot)
  }

  /** A window of a page slot is that window of the file. */
  lemma SlotWindow(slot: seq<byte>, raw: seq<byte>, p: nat, off: nat, n: nat)
    requires SlotHolds(slot, PageBytes(raw, p)) && off + n <= SlotLen(slot) && HasPage(raw, p)
    ensures 64 * p + off + n <= |raw| && slot[1 + off..1 + off + n] == raw[64 * p + off..64 * p + off + n]
  {
    hide CrcOk;
    var bytes := PageBytes(raw, p);
    assert bytes == raw[64 * p..64 * p + |bytes|];
    var x, y := slot[1 + off..1 + off + n], raw[64 * p + off..64 * p + off + n];
    forall i | 0 <= i < n ensures x[i] == y[i] {
      assert slot[1..1 + |bytes|][off + i] == bytes[off + i];
    }
  }

  lemma SlotChecked(slot: seq<byte>, bytes: seq<byte>)
    requires SlotHolds(slot, bytes)
    ensures |slot| == SLOT_SIZE && SlotLen(slot) == |bytes| <= PAGE_DATA_SIZE && CrcOk(slot)
  {
  }

  // ----- A file block -----

  /** The slot that a backward scan of the index finds for a logical page. */
  ghost function Current(v: Block, logical: nat): Option<seq<byte>>
    requires v.Shaped()
  {
    var s := Newest(v.index, logical);
    if s < 0 then None else Some(v.slots[s])
  }

  /** Block k of the file holds its page `logical` as `raw` has it: page 51k + logical. */
  ghost predicate PageHeld(v: Block, k: nat, logical: nat, raw: seq<byte>)
    requires v.Shaped()
  {
    var c := Current(v, logical);
    var p := 51 * k + logical;
    if HasPage(raw, p) then c.Some? && SlotHolds(c.value, PageBytes(raw, p)) else c.None?
  }

  /** Free slots of the block are erased. */
  ghost predicate FreeSlotsErased(v: Block)
    requires v.Shaped()
  {
    forall i :: 0 <= i < SLOTS && v.index[i] == INDEX_FREE ==> v.slots[i] == Ones(SLOT_SIZE)
  }

  ghost predicate MetaIs(meta: seq<byte>, f: nat, k: nat) {
    |meta| == META_SIZE && meta[OFF_FILE_ID] == f && meta[OFF_FLAGS] == FLAGS_VALID && meta[OFF_BLOCK] == k
  }

  /** The index is append-only, free slots are erased, and the pages are those of `raw`. */
  ghost predicate BodyHolds(v: Block, k: nat, raw: seq<byte>) {
    && v.Shaped() && AppendOnly(v.index) && FreeSlotsErased(v)
    && forall i: nat :: i < DATA_PAGES ==> PageHeld(v, k, i, raw)
  }

  /** Block k of file f. */
  ghost predicate BlockHolds(v: Block, f: nat, k: nat, raw: seq<byte>) {
    MetaIs(v.meta, f, k) && BodyHolds(v, k, raw)
  }

  // ----- A file -----

  /** How many blocks a file of `size` bytes has; an empty one keeps its first block. */
  function BlockCount(size: nat): nat {
    if size == 0 then 1 else (size - 1) / BLOCK_DATA_SIZE + 1
  }

  ghost predicate FileHolds(views: seq<Block>, l: seq<int>, f: nat, raw: seq<byte>) {
    && |raw| <= 3264 * |l|
    && forall k :: 0 <= k < |l| ==> 0 <= l[k] < |views| && BlockHolds(views[l[k]], f, k, raw)
  }

  /** The slot that holds page p of the file with block list l. */
  ghost function Located(views: seq<Block>, l: seq<int>, p: nat): Option<seq<byte>>
    requires forall k :: 0 <= k < |l| ==> 0 <= l[k] < |views| && views[l[k]].Shaped()
  {
    if p / 51 < |l| then Current(views[l[p / 51]], p % 51) else None
  }

  /** Looking a page up finds the page's bytes, or nothing past the end of the file. */
  lemma LocatedHolds(views: seq<Block>, l: seq<int>, f: nat, raw: seq<byte>, p: nat)
    requires FileHolds(views, l, f, raw)
    ensures forall k :: 0 <= k < |l| ==> 0 <= l[k] < |views| && views[l[k]].Shaped()
    ensures var c := Located(views, l, p);
            if HasPage(raw, p) then c.Some? && SlotHolds(c.value, PageBytes(raw, p)) else c.None?
  {
    var k, i := p / 51, p % 51;
    if k < |l| {
      assert BlockHolds(views[l[k]], f, k, raw);
      assert PageHeld(views[l[k]], k, i, raw);
    }
  }

  // ----- Effects on a file block -----

  /** A block with a fresh version of one page appended. */
  function WithPage(v: Block, logical: byte, slot: seq<byte>): Block
    requires v.Shaped() && FirstFree(v.index) >= 0
  {
    var i := FirstFree(v.index);
    v.(slots := v.slots[i := slot], index := v.index[i := logical])
  }

  /** Appending the new version of page p to its block makes the block hold the new bytes. */
  lemma WithPageHolds(v: Block, k: nat, raw: seq<byte>, raw': seq<byte>, logical: nat, slot: seq<byte>)
    requires BodyHolds(v, k, raw) && FirstFree(v.index) >= 0 && logical < DATA_PAGES
    requires HasPage(raw', 51 * k + logical) && SlotHolds(slot, PageBytes(raw', 51 * k + logical))
    requires forall q: nat :: q != 51 * k + logical ==>
                                (HasPage(raw', q) <==> HasPage(raw, q)) && PageBytes(raw', q) == PageBytes(raw, q)
    ensures BodyHolds(WithPage(v, logical, slot), k, raw')
  {
    var v' := WithPage(v, logical, slot);
    AppendEntry(v.index, logical);
    var s := FirstFree(v.index);
    forall i: nat | i < DATA_PAGES ensures PageHeld(v', k, i, raw') {
      assert PageHeld(v, k, i, raw);
      if i != logical {
        assert Newest(v'.index, i) == Newest(v.index, i) != s;
        PageStays(v, v', k, i, raw, raw');
      }
    }
  }

  lemma PageStays(v: Block, v': Block, k: nat, i: nat, raw: seq<byte>, raw': seq<byte>)
    requires v.Shaped() && v'.Shaped() && PageHeld(v, k, i, raw)
    requires var n := Newest(v.index, i); Newest(v'.index, i) == n && (n >= 0 ==> v'.slots[n] == v.slots[n])
    requires (HasPage(raw', 51 * k + i) <==> HasPage(raw, 51 * k + i))
             && PageBytes(raw', 51 * k + i) == PageBytes(raw, 51 * k + i)
    ensures PageHeld(v', k, i, raw')
  {
    hide Newest, PageBytes, HasPage, SlotHolds;
  }

  /** A write to another page leaves what a block holds alone. */
  lemma OtherBlockHolds(v: Block, k: nat, raw: seq<byte>, raw': seq<byte>, p: nat)
    requires BodyHolds(v, k, raw) && p / 51 != k
    requires forall q: nat :: q != p ==>
               (HasPage(raw', q) <==> HasPage(raw, q)) && PageBytes(raw', q) == PageBytes(raw, q)
    ensures BodyHolds(v, k, raw')
  {
    forall i: nat | i < DATA_PAGES ensures PageHeld(v, k, i, raw') {
      assert PageHeld(v, k, i, raw);
      assert (51 * k + i) / DATA_PAGES == k;
    }
  }

  /** A block with no page in it holds the part of a file past its end. */
  lemma BlankHolds(v: Block, k: nat, raw: seq<byte>)
    requires v.Shaped() && v.index == BlankBlock().index && v.slots == BlankBlock().slots
    requires |raw| <= 3264 * k
    ensures BodyHolds(v, k, raw)
  {
    forall i: nat | i < DATA_PAGES ensures PageHeld(v, k, i, raw) {
    }
  }

  /** The current versions of the first i pages of `src` are in slots 0..i-1 of a blank block. */
  ghost predicate Copied(v: Block, src: Block, i: nat) {
    && v.Shaped() && src.Shaped() && v.meta == Ones(META_SIZE) && i <= DATA_PAGES
    && (forall j: nat :: j < SLOTS ==> v.index[j] == if j < i then j else INDEX_FREE)
    && (forall j: nat :: i <= j < SLOTS ==> v.slots[j] == Ones(SLOT_SIZE))
    && (forall j: nat :: j < i ==> Current(src, j) == Some(v.slots[j]))
  }

  /** Copying one more page. */
  lemma CopyNext(v: Block, src: Block, i: nat, page: seq<byte>)
    requires Copied(v, src, i) && i < DATA_PAGES && Current(src, i) == Some(page)
    ensures v.Shaped() && v.index[i] == INDEX_FREE && v.slots[i] == Ones(SLOT_SIZE)
    ensures |page| == SLOT_SIZE && Copied(v.(index := v.index[i := i], slots := v.slots[i := page]), src, i + 1)
  {
  }

  /** The pages of a byte sequence are those below its page count. */
  lemma PagesCounted(raw: seq<byte>, p: nat)
    ensures HasPage(raw, p) <==> p < PageCount(|raw|)
  {
  }

  /** A copy that stopped at the end of the file has all pages of the block. */
  lemma CopiedCount(v: Block, src: Block, k: nat, raw: seq<byte>, i: nat)
    requires BodyHolds(src, k, raw) && Copied(v, src, i) && (i == DATA_PAGES || !HasPage(raw, 51 * k + i))
    ensures i == PagesHeld(PageCount(|raw|), k)
  {
    hide SlotHolds, AppendOnly, FreeSlotsErased, PageBytes;
    if i > 0 {
      assert PageHeld(src, k, i - 1, raw);
      PagesCounted(raw, 51 * k + i - 1);
    }
    PagesCounted(raw, 51 * k + i);
  }

  /** A finished copy has the very slots a reader finds in the source, so it holds the same
      pages; all slots but those of the pages are free. */
  lemma CopiedHolds(v: Block, src: Block, k: nat, raw: seq<byte>, i: nat)
    requires BodyHolds(src, k, raw) && Copied(v, src, i) && (i == DATA_PAGES || !HasPage(raw, 51 * k + i))
    ensures BodyHolds(v, k, raw) && FirstFree(v.index) == i == PagesHeld(PageCount(|raw|), k)
    ensures FreeCount(v.index) == SLOTS - i >= SPARE_PAGES
    ensures forall j: nat :: j < DATA_PAGES ==> Current(v, j) == Current(src, j)
  {
    hide SlotHolds, PageBytes, PagesHeld, PageCount;
    forall j: nat | j < DATA_PAGES ensures Current(v, j) == Current(src, j) && PageHeld(v, k, j, raw) {
      NewestIs(v.index, j, if j < i then j else -1);
      assert PageHeld(src, k, j, raw);
    }
    CopiedCount(v, src, k, raw, i);
    assert v.index[i] == INDEX_FREE && forall j :: 0 <= j < i ==> v.index[j] != INDEX_FREE;
    FreeCountIs(v.index, SLOTS);
  }

  /** The meta header plays no part in what the pages of a block are. */
  lemma BodyKept(v: Block, k: nat, raw: seq<byte>, meta: seq<byte>)
    requires BodyHolds(v, k, raw) && |meta| == META_SIZE
    ensures BodyHolds(v.(meta := meta), k, raw)
    ensures forall j: nat :: j < DATA_PAGES ==> Current(v.(meta := meta), j) == Current(v, j)
  {
    forall j: nat | j < DATA_PAGES ensures PageHeld(v.(meta := meta), k, j, raw) {
      assert PageHeld(v, k, j, raw);
    }
  }

  lemma BodyIndex(v: Block, k: nat, raw: seq<byte>)
    requires BodyHolds(v, k, raw)
    ensures v.Shaped() && AppendOnly(v.index)
  {
  }

  /** The page image a write builds in the cache: `data` laid over the cached page, or over an
      erased one when the page is new, with the length raised and the checksum redone. */
  function BuiltPage(base: seq<byte>, isNew: bool, off: nat, data: seq<byte>): (r: seq<byte>)
    requires |base| == SLOT_SIZE && SlotLen(base) <= PAGE_DATA_SIZE && off + |data| <= PAGE_DATA_SIZE
    ensures |r| == SLOT_SIZE && SlotLen(r) <= PAGE_DATA_SIZE
  {
    var body := if isNew then Ones(PAGE_DATA_SIZE) else base[1..CRC_OFFSET];
    var laid := body[..off] + data + body[off + |data|..];
    var len := if SlotLen(base) < off + |data| then off + |data| else SlotLen(base);
    [len] + laid + Crc16(laid[..len])
  }

  /** The built page holds the page's new bytes, if the cached page held the old ones or the
      write covers the whole page. */
  lemma BuiltHolds(base: seq<byte>, isNew: bool, raw: seq<byte>, p: nat, off: nat, data: seq<byte>)
    requires |base| == SLOT_SIZE && SlotLen(base) <= PAGE_DATA_SIZE
    requires off + |data| <= 64 && |data| > 0 && 64 * p + off <= |raw|
    requires || (HasPage(raw, p) && !isNew && SlotHolds(base, PageBytes(raw, p)))
             || (!HasPage(raw, p) && isNew && SlotLen(base) == 0)
             || (off == 0 && |data| == PAGE_DATA_SIZE)
    ensures SlotHolds(BuiltPage(base, isNew, off, data), PageBytes(Splice(raw, 64 * p + off, data), p))
  {
    hide BuiltPage, Splice, Crc16;
    var r := BuiltPage(base, isNew, off, data);
    BuiltIs(base, isNew, off, data);
    SplicePage(raw, p, off, data);
    var was := PageBytes(raw, p);
    var now := PageBytes(Splice(raw, 64 * p + off, data), p);
    forall i | 0 <= i < |now| ensures r[1..CRC_OFFSET][i] == now[i] {
      if !(off <= i < off + |data|) {
        assert was[i] == base[1..1 + |was|][i];
      }
    }
    forall i | 0 <= i < |now| ensures r[1..1 + |now|][i] == now[i] {
      assert r[1..CRC_OFFSET][i] == r[1 + i];
    }
    assert r[1..1 + |now|] == now;
  }

  lemma BuiltIs(base: seq<byte>, isNew: bool, off: nat, data: seq<byte>)
    requires |base| == SLOT_SIZE && SlotLen(base) <= PAGE_DATA_SIZE && off + |data| <= PAGE_DATA_SIZE
    ensures var r := BuiltPage(base, isNew, off, data);
            && SlotLen(r) == (if SlotLen(base) < off + |data| then off + |data| else SlotLen(base)) && CrcOk(r)
            && var body, was := r[1..CRC_OFFSET], base[1..CRC_OFFSET];
               forall i :: 0 <= i < PAGE_DATA_SIZE ==>
                             body[i]
                              == if off <= i < off + |data| then data[i - off] else if isNew then 0xff else was[i]
  {
    hide Crc16;
    var body := if isNew then Ones(PAGE_DATA_SIZE) else base[1..CRC_OFFSET];
    var laid := body[..off] + data + body[off + |data|..];
    var r := BuiltPage(base, isNew, off, data);
    var len := SlotLen(r);
    forall i | 0 <= i < PAGE_DATA_SIZE ensures r[1 + i] == laid[i] {
    }
    forall i | 0 <= i < len ensures r[1..1 + len][i] == laid[..len][i] {
    }
    assert r[1..1 + len] == laid[..len];
  }

  /** The first free slot of a block is erased, so a program there stores what it is given. */
  lemma RoomIsErased(v: Block, k: nat, raw: seq<byte>)
    requires BodyHolds(v, k, raw) && FirstFree(v.index) >= 0
    ensures v.Shaped() && v.index[FirstFree(v.index)] == INDEX_FREE && v.slots[FirstFree(v.index)] == Ones(SLOT_SIZE)
  {
  }

  /** Page p is the only one in which the two files may differ; the second has it. */
  ghost predicate OnlyPage(raw: seq<byte>, raw': seq<byte>, p: nat) {
    && HasPage(raw', p)
    && forall q: nat :: q != p ==> (HasPage(raw', q) <==> HasPage(raw, q)) && PageBytes(raw', q) == PageBytes(raw, q)
  }

  lemma OnlyPageFits(raw: seq<byte>, raw': seq<byte>, p: nat, blocks: nat)
    requires OnlyPage(raw, raw', p) && |raw| <= 3264 * blocks && p / 51 < blocks
    ensures |raw'| <= 3264 * blocks
  {
    assert HasPage(raw', 51 * blocks) <==> HasPage(raw, 51 * blocks);
  }

  /** An index entry names a page that the file has. */
  lemma UsedEntryHasPage(v: Block, k: nat, raw: seq<byte>, i: nat)
    requires BodyHolds(v, k, raw) && i < SLOTS && v.index[i] != INDEX_FREE
    ensures v.index[i] < DATA_PAGES && HasPage(raw, 51 * k + v.index[i])
  {
    assert PageHeld(v, k, v.index[i], raw);
  }

  /** The highest page in the index of a file's last block is the file's last page. */
  lemma HighestIsLast(v: Block, k: nat, raw: seq<byte>)
    requires BodyHolds(v, k, raw) && 3264 * k < |raw| <= 3264 * k + 3264
    ensures Highest(v.index) == (|raw| - 1) / 64 - 51 * k
  {
    var t := (|raw| - 1) / 64 - 51 * k;
    assert PageHeld(v, k, t, raw);
    var n := Newest(v.index, t);
    assert v.index[n] == t != INDEX_FREE;
    var i :| 0 <= i < |v.index| && v.index[i] == Highest(v.index) && v.index[i] != INDEX_FREE;
    UsedEntryHasPage(v, k, raw, i);
  }

  /** No page, no entry. */
  lemma HighestOfEmpty(v: Block, k: nat, raw: seq<byte>)
    requires BodyHolds(v, k, raw) && |raw| <= 3264 * k
    ensures Highest(v.index) == -1
  {
    forall i | 0 <= i < SLOTS ensures v.index[i] == INDEX_FREE {
      if v.index[i] != INDEX_FREE {
        UsedEntryHasPage(v, k, raw, i);
      }
    }
  }

  /** A block that holds no page has every slot free. */
  lemma EmptyBlockFree(v: Block, k: nat, raw: seq<byte>)
    requires BodyHolds(v, k, raw) && |raw| <= 3264 * k
    ensures FirstFree(v.index) == 0
  {
    if v.index[0] != INDEX_FREE {
      UsedEntryHasPage(v, k, raw, 0);
    }
  }
}
