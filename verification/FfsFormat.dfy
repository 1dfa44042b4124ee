/** The format on the chip, in numbers: what the bytes of the flash are when the driver is in a valid
    state.  Block b has the 4096 bytes from 4096 b on: a header of 67 bytes twice, then 59 page slots of
    67 bytes each. */
module FfsFormat {
  import opened Bytes
  import opened Crc
  import opened Flash25
  import opened FfsLayout
  import opened FfsLists
  import opened FfsIndex
  import opened FfsFile
  import opened FfsStore
  import opened FfsBlock
  import opened FfsPage

  /** What the view of a block shows of its bytes. */
  lemma ImageBytes(img: Image)
    requires Doubled(img)
    ensures forall k: nat | k < 67 :: img[67 + k] == img[k]
    ensures forall k: nat | k < 8 :: View(img).meta[k] == img[k]
    ensures forall s: nat | s < 59 :: View(img).index[s] == img[8 + s]
    ensures forall s: nat, k: nat | s < 59 && k < 67 :: View(img).slots[s][k] == img[134 + 67 * s + k]
  {
    forall k: nat | k < 67 ensures img[67 + k] == img[k] {
      DoubledAt(img, k);
    }
    forall s: nat, k: nat | s < 59 && k < 67 ensures View(img).slots[s][k] == img[134 + 67 * s + k] {
      assert View(img).slots[s] == SlotOf(img, s);
    }
  }

  lemma ImageOf(blk: BlockDriver, b: nat)
    requires blk.FlashShown() && b < blk.total
    ensures 4096 * b + 4096 <= blk.chip.mem.Length
    ensures Doubled(blk.chip.Image(b)) && View(blk.chip.Image(b)) == blk.views[b]
    ensures forall k: nat | k < 4096 :: blk.chip.Image(b)[k] == blk.chip.mem[4096 * b + k]
  {
  }

  /** A free block is erased throughout. */
  lemma FreeOnFlash(pd: PageDriver, i: nat, k: nat)
    requires pd.Valid() && |pd.blk.chains| == LISTS && i < |pd.blk.chains[FREE]| && k < 4096
    ensures var b := pd.blk.chains[FREE][i];
            0 <= b < pd.blk.total && 4096 * b + k < pd.blk.chip.mem.Length && pd.blk.chip.mem[4096 * b + k] == 0xff
  {
    hide BlockDriver.ListsHeld, BlockDriver.CacheCoherent, Coherent, Covering, Doubled, View;
    var b := pd.blk.chains[FREE][i];
    ImageOf(pd.blk, b);
    BlankIsErased(pd.blk.chip.Image(b));
  }

  /** A dirty block has the top bit of its flags clear, in both headers. */
  lemma DirtyOnFlash(pd: PageDriver, i: nat)
    requires pd.Valid() && |pd.blk.chains| == LISTS && i < |pd.blk.chains[DIRTY]|
    ensures var b := pd.blk.chains[DIRTY][i];
            && 0 <= b < pd.blk.total && 4096 * b + 4096 <= pd.blk.chip.mem.Length
            && pd.blk.chip.mem[4096 * b + 1] < 0x80 && pd.blk.chip.mem[4096 * b + 68] == pd.blk.chip.mem[4096 * b + 1]
  {
    hide BlockDriver.ListsHeld, BlockDriver.CacheCoherent, Coherent, Covering, Doubled, View;
    var b := pd.blk.chains[DIRTY][i];
    ImageOf(pd.blk, b);
    ImageBytes(pd.blk.chip.Image(b));
  }

  /** An erase block that shows block k of file f: its header says so, twice; the index names page p
      last at s; and slot s is the length of the page, its bytes and their checksum. */
  ghost predicate ShowsPage(img: seq<byte>, f: nat, k: nat, p: nat, s: nat, bytes: seq<byte>) {
    && |img| == 4096 && s < 59 && |bytes| <= 64
    && img[0] == f && img[1] == 0xbf && img[2] == k && img[67..134] == img[..67]
    && img[8 + s] == p % 51 && p % 51 !in img[9 + s..67]
    && var slot := img[134 + 67 * s..201 + 67 * s];
       slot[0] == |bytes| && slot[1..1 + |bytes|] == bytes && slot[65..] == Crc16(bytes)
  }

  lemma BlockShows(img: Image, f: nat, k: nat, raw: seq<byte>, p: nat) returns (s: nat)
    requires Doubled(img) && BlockHolds(View(img), f, k, raw) && p / 51 == k && 64 * p < |raw|
    ensures ShowsPage(img, f, k, p, s, raw[64 * p..if |raw| < 64 * p + 64 then |raw| else 64 * p + 64])
  {
    hide Crc16, BodyHolds, View, Doubled, SlotHolds, Newest, PageBytes;
    var v := View(img);
    HeaderIs(img, f, k);
    PageIn(v, k, raw, p);
    s := Newest(v.index, p % 51);
    IndexIs(img, p % 51);
    SlotIs(img, s);
    SlotInBytes(v.slots[s], raw, p);
  }

  lemma HeaderIs(img: Image, f: nat, k: nat)
    requires Doubled(img) && MetaIs(View(img).meta, f, k)
    ensures img[0] == f && img[1] == 0xbf && img[2] == k && img[67..134] == img[..67]
  {
  }

  lemma IndexIs(img: Image, i: nat)
    requires Newest(View(img).index, i) >= 0
    ensures var s := Newest(View(img).index, i);
            s < 59 && img[8 + s] == i && i !in img[9 + s..67]
  {
    var s, index := Newest(View(img).index, i), View(img).index;
    assert index == img[8..67];
    var rest := img[9 + s..67];
    forall t | 0 <= t < |rest| ensures rest[t] != i {
      assert index[s + 1 + t] == rest[t];
    }
  }

  lemma PageIn(v: Block, k: nat, raw: seq<byte>, p: nat)
    requires BodyHolds(v, k, raw) && p / 51 == k && 64 * p < |raw|
    ensures var s := Newest(v.index, p % 51);
            v.Shaped() && |v.index| == 59 && 0 <= s < 59 && SlotHolds(v.slots[s], PageBytes(raw, p))
  {
    hide SlotHolds, AppendOnly;
    assert PageHeld(v, k, p % 51, raw) && 51 * k + p % 51 == p;
  }

  lemma SlotIs(img: Image, s: nat)
    requires s < 59
    ensures img[134 + 67 * s..201 + 67 * s] == View(img).slots[s]
  {
  }

  /** Where a page of a file is: in block p / 51 of the file. */
  lemma PageOnFlash(pd: PageDriver, f: nat, p: nat) returns (s: nat)
    requires pd.Valid() && f < 23 && |pd.sizes| == |pd.raws| == 23 && pd.sizes[f] >= 0 && 64 * p < |pd.raws[f]|
    requires |pd.blk.chains| == LISTS
    ensures p / 51 < |FileList(pd.blk.chains, f)|
    ensures var b, raw := FileList(pd.blk.chains, f)[p / 51], pd.raws[f];
            && 0 <= b < pd.blk.total && 4096 * b + 4096 <= pd.blk.chip.mem.Length
            && ShowsPage(pd.blk.chip.mem[4096 * b..4096 * b + 4096], f, p / 51, p, s,
                         raw[64 * p..if |raw| < 64 * p + 64 then |raw| else 64 * p + 64])
  {
    hide BlockDriver.ListsHeld, BlockDriver.CacheCoherent, Coherent, Covering, Doubled, View, BlockHolds, ShowsPage;
    pd.Holds(f, -1);
    PageInRange(pd.raws[f], p, |FileList(pd.blk.chains, f)|);
    pd.FileBlock(f, p / 51, -1);
    var b := FileList(pd.blk.chains, f)[p / 51];
    ImageOf(pd.blk, b);
    s := BlockShows(pd.blk.chip.Image(b), f, p / 51, pd.raws[f], p);
  }

  lemma PageInRange(raw: seq<byte>, p: nat, blocks: nat)
    requires |raw| <= 3264 * blocks && 64 * p < |raw|
    ensures p / 51 < blocks
  {
  }

  lemma SlotInBytes(slot: seq<byte>, raw: seq<byte>, p: nat)
    requires SlotHolds(slot, PageBytes(raw, p)) && 64 * p < |raw|
    ensures var bytes := raw[64 * p..if |raw| < 64 * p + 64 then |raw| else 64 * p + 64];
            |slot| == 67 && slot[0] == |bytes| <= 64 && slot[1..1 + |bytes|] == bytes && slot[65..] == Crc16(bytes)
  {
    hide Crc16;
    assert PageBytes(raw, p) == raw[64 * p..if |raw| < 64 * p + 64 then |raw| else 64 * p + 64];
  }
}
