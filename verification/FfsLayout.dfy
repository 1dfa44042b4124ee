/** How a 4 KB erase block is laid out (ffs_global.h, ffs_block.h, ffs_page.h, AVR packing):
    two copies of an 8 byte meta header and a 59 byte page index, then 59 page slots of 67
    bytes (length, 64 data bytes, 16 bit CRC), then 9 unused bytes. */
module FfsLayout {
  import opened Bytes
  import opened Flash25

  // In products and quotients the proofs write 64, 51 and 64 * 51 == 3264 as numbers, which keeps the
  // arithmetic linear for the solver.
  const PAGE_DATA_SIZE := 64
  const DATA_PAGES := 51
  const SPARE_PAGES := 8
  const SLOTS := DATA_PAGES + SPARE_PAGES
  const META_SIZE := 8
  const HEADER_SIZE := 67
  const SLOT_SIZE := 67
  const CRC_OFFSET := 65
  const FIRST_SLOT := 134
  const TAIL := 4087

  const OFF_FILE_ID := 0
  const OFF_FLAGS := 1
  const OFF_BLOCK := 2
  const OFF_SEQUENCE := 3

  const MAX_FILES := 23

  const STATUS_OK := 0
  const STATUS_NO_FREE_SPACE := -2
  const STATUS_NO_FREE_FILES := -3
  const STATUS_INVALID_FILE := -4
  const STATUS_EOF := -5
  const STATUS_ERROR := -6

  const FLAGS_FREE: byte := 0xff
  const FLAGS_VALID: byte := 0xbf
  const NOT_DIRTY_MASK: byte := 0x7f

  /** A block whose two header copies agree. */
  datatype Block = Block(meta: seq<byte>, index: seq<byte>, slots: seq<seq<byte>>, tail: seq<byte>) {
    predicate Shaped() {
      && |meta| == META_SIZE && |index| == SLOTS && |slots| == SLOTS && |tail| == ERASE_BLOCK_SIZE - TAIL
      && forall i :: 0 <= i < SLOTS ==> |slots[i]| == SLOT_SIZE
    }
  }

  type Image = s: seq<byte> | |s| == ERASE_BLOCK_SIZE witness Ones(ERASE_BLOCK_SIZE)

  function SlotOffset(i: nat): nat {
    FIRST_SLOT + SLOT_SIZE * i
  }

  function SlotOf(img: Image, i: nat): (s: seq<byte>)
    requires i < SLOTS
    ensures |s| == SLOT_SIZE
  {
    img[SlotOffset(i)..SlotOffset(i) + SLOT_SIZE]
  }

  /** The block an image stands for, read from the first header copy. */
  function View(img: Image): (v: Block)
    ensures v.Shaped()
  {
    Block(img[..META_SIZE], img[META_SIZE..HEADER_SIZE],
          seq(SLOTS, i requires 0 <= i < SLOTS => SlotOf(img, i)), img[TAIL..])
  }

  /** Both header copies hold the same bytes. */
  predicate Doubled(img: Image) {
    img[..HEADER_SIZE] == img[HEADER_SIZE..FIRST_SLOT]
  }

  /** The two header copies agree byte for byte, and the view shows them. */
  lemma DoubledAt(img: Image, k: nat)
    requires Doubled(img) && k < HEADER_SIZE
    ensures img[k] == img[HEADER_SIZE + k]
    ensures img[k] == if k < META_SIZE then View(img).meta[k] else View(img).index[k - META_SIZE]
  {
    assert img[HEADER_SIZE + k] == img[HEADER_SIZE..FIRST_SLOT][k] == img[..HEADER_SIZE][k];
  }

  function BlankBlock(): (v: Block)
    ensures v.Shaped()
  {
    Block(Ones(META_SIZE), Ones(SLOTS), seq(SLOTS, _ => Ones(SLOT_SIZE)), Ones(ERASE_BLOCK_SIZE - TAIL))
  }

  lemma BlankImage()
    ensures Doubled(Ones(ERASE_BLOCK_SIZE)) && View(Ones(ERASE_BLOCK_SIZE)) == BlankBlock()
  {
    var img: Image := Ones(ERASE_BLOCK_SIZE);
    forall i | 0 <= i < SLOTS ensures SlotOf(img, i) == Ones(SLOT_SIZE) {}
    assert View(img).slots == BlankBlock().slots;
  }

  /** A block reads as blank only when every one of its 4096 bytes is erased. */
  lemma BlankIsErased(img: Image)
    requires Doubled(img) && View(img) == BlankBlock()
    ensures forall j | 0 <= j < ERASE_BLOCK_SIZE :: img[j] == 0xff
  {
    forall j | 0 <= j < ERASE_BLOCK_SIZE ensures img[j] == 0xff {
      if j < META_SIZE {
        assert img[j] == View(img).meta[j];
      } else if j < HEADER_SIZE {
        assert img[j] == View(img).index[j - META_SIZE];
      } else if j < FIRST_SLOT {
        assert img[j] == img[HEADER_SIZE..FIRST_SLOT][j - HEADER_SIZE] == img[..HEADER_SIZE][j - HEADER_SIZE];
        var k := j - HEADER_SIZE;
        if k < META_SIZE {
          assert img[k] == View(img).meta[k];
        } else {
          assert img[k] == View(img).index[k - META_SIZE];
        }
      } else if j < TAIL {
        var i := (j - FIRST_SLOT) / SLOT_SIZE;
        assert SlotOf(img, i)[j - SlotOffset(i)] == img[j];
        assert View(img).slots[i] == SlotOf(img, i) == Ones(SLOT_SIZE);
      } else {
        assert img[j] == View(img).tail[j - TAIL];
      }
    }
  }

  /** A block after set_dirty has cleared its flag. */
  /** The mask clears the top bit of the flags, so that a file block's bf becomes 3f. */
  lemma MaskDirty(flags: byte)
    ensures And8(flags, NOT_DIRTY_MASK) == flags % 0x80
  {
    assert Pow2(7) == 128 by {
      assert Pow2(4) == 16;
    }
    AndMask(flags, 7, 8);
  }

  function DirtyView(v: Block): Block
    requires |v.meta| == META_SIZE
  {
    v.(meta := v.meta[OFF_FLAGS := And8(v.meta[OFF_FLAGS], NOT_DIRTY_MASK)])
  }

  // ----- What each kind of program does to the view -----

  lemma SlotByte(img: Image, i: nat, k: nat)
    requires i < SLOTS && k < SLOT_SIZE
    ensures SlotOffset(i) + SLOT_SIZE <= |img| && SlotOf(img, i)[k] == img[SlotOffset(i) + k]
  {
  }

  lemma ProgramOneSlot(img: Image, i: nat, data: seq<byte>)
    requires i < SLOTS && |data| == SLOT_SIZE && SlotOf(img, i) == Ones(SLOT_SIZE)
    ensures SlotOf(Programmed(img, SlotOffset(i), data), i) == data
  {
    var off := SlotOffset(i);
    var r: Image := Programmed(img, off, data);
    hide Programmed, And8, SlotOf, SlotOffset;
    forall k | 0 <= k < SLOT_SIZE ensures SlotOf(r, i)[k] == data[k] {
      SlotByte(r, i, k);
      SlotByte(img, i, k);
      ProgramErased(data[k]);
    }
  }

  /** Bytes programmed outside a slot do not show in it. */
  lemma ProgramElsewhere(img: Image, off: nat, data: seq<byte>, j: nat)
    requires j < SLOTS && off + |data| <= |img|
    requires SlotOffset(j) + SLOT_SIZE <= off || off + |data| <= SlotOffset(j)
    ensures SlotOf(Programmed(img, off, data), j) == SlotOf(img, j)
  {
    var r: Image := Programmed(img, off, data);
    hide Programmed, And8;
    forall k | 0 <= k < SLOT_SIZE ensures SlotOf(r, j)[k] == SlotOf(img, j)[k] {
      assert r[SlotOffset(j) + k] == img[SlotOffset(j) + k];
    }
  }

  /** Programming bytes past the headers leaves the headers doubled and every other slot alone. */
  lemma ProgramSlot(img: Image, i: nat, data: seq<byte>)
    requires Doubled(img) && i < SLOTS && |data| == SLOT_SIZE && SlotOf(img, i) == Ones(SLOT_SIZE)
    ensures var r := Programmed(img, SlotOffset(i), data);
            Doubled(r) && View(r) == View(img).(slots := View(img).slots[i := data])
  {
    var off := SlotOffset(i);
    var r: Image := Programmed(img, off, data);
    hide Programmed;
    ProgramOneSlot(img, i, data);
    forall j | 0 <= j < SLOTS && j != i ensures SlotOf(r, j) == SlotOf(img, j) {
      ProgramElsewhere(img, off, data, j);
    }
    assert View(r).slots == View(img).slots[i := data];
    assert r[..FIRST_SLOT] == img[..FIRST_SLOT];
    assert r[..HEADER_SIZE] == r[..FIRST_SLOT][..HEADER_SIZE] && img[..HEADER_SIZE] == img[..FIRST_SLOT][..HEADER_SIZE];
    assert r[HEADER_SIZE..FIRST_SLOT] == r[..FIRST_SLOT][HEADER_SIZE..];
    assert img[HEADER_SIZE..FIRST_SLOT] == img[..FIRST_SLOT][HEADER_SIZE..];
    assert View(r).meta == View(img).meta && View(r).index == View(img).index;
    assert View(r).tail == View(img).tail;
  }

  /** Programming the same bytes into both header copies keeps them equal and touches no slot. */
  lemma ProgramHeaders(img: Image, off: nat, data: seq<byte>)
    requires Doubled(img) && off + |data| <= HEADER_SIZE
    ensures var r := Programmed(Programmed(img, off, data), HEADER_SIZE + off, data);
            && Doubled(r)
            && (forall k | 0 <= k < HEADER_SIZE ::
                  r[k] == if off <= k < off + |data| then And8(img[k], data[k - off]) else img[k])
            && View(r).slots == View(img).slots && View(r).tail == View(img).tail
  {
    var r: Image := Programmed(Programmed(img, off, data), HEADER_SIZE + off, data);
    var h := img[..HEADER_SIZE];
    forall k | 0 <= k < HEADER_SIZE
      ensures r[k] == Programmed(h, off, data)[k] && r[HEADER_SIZE + k] == Programmed(h, off, data)[k]
    {
      assert img[HEADER_SIZE + k] == img[HEADER_SIZE..FIRST_SLOT][k] == img[..HEADER_SIZE][k];
    }
    assert r[HEADER_SIZE..FIRST_SLOT] == r[..HEADER_SIZE];
    assert forall k | 0 <= k < HEADER_SIZE :: r[k] == Programmed(h, off, data)[k];
    assert r[FIRST_SLOT..] == img[FIRST_SLOT..];
    forall j | 0 <= j < SLOTS ensures SlotOf(r, j) == SlotOf(img, j) {
      assert SlotOf(r, j) == r[FIRST_SLOT..][SLOT_SIZE * j..SLOT_SIZE * j + SLOT_SIZE];
      assert SlotOf(img, j) == img[FIRST_SLOT..][SLOT_SIZE * j..SLOT_SIZE * j + SLOT_SIZE];
    }
    assert View(r).slots == View(img).slots;
  }

  /** Setting one index entry in both copies. */
  lemma ProgramIndex(img: Image, phy: nat, logical: byte)
    requires Doubled(img) && phy < SLOTS && View(img).index[phy] == 0xff
    ensures var r := Programmed(Programmed(img, META_SIZE + phy, [logical]), HEADER_SIZE + META_SIZE + phy, [logical]);
            Doubled(r) && View(r) == View(img).(index := View(img).index[phy := logical])
  {
    var r: Image := Programmed(Programmed(img, META_SIZE + phy, [logical]), HEADER_SIZE + META_SIZE + phy, [logical]);
    ProgramHeaders(img, META_SIZE + phy, [logical]);
    ProgramErased(logical);
    assert img[META_SIZE + phy] == View(img).index[phy];
    assert View(r).meta == View(img).meta;
    assert View(r).index == View(img).index[phy := logical];
  }

  /** Writing a whole meta header into both copies of an erased one. */
  lemma ProgramMeta(img: Image, meta: seq<byte>)
    requires Doubled(img) && |meta| == META_SIZE && View(img).meta == Ones(META_SIZE)
    ensures var r := Programmed(Programmed(img, 0, meta), HEADER_SIZE, meta);
            Doubled(r) && View(r) == View(img).(meta := meta)
  {
    hide And8, Programmed, Doubled;
    var r: Image := Programmed(Programmed(img, 0, meta), HEADER_SIZE, meta);
    ProgramHeaders(img, 0, meta);
    forall k | 0 <= k < META_SIZE ensures View(r).meta[k] == meta[k] {
      assert img[k] == View(img).meta[k] == 0xff;
      ProgramErased(meta[k]);
      assert View(r).meta[k] == r[k];
    }
    forall k | 0 <= k < SLOTS ensures View(r).index[k] == View(img).index[k] {
      assert View(r).index[k] == r[META_SIZE + k] && View(img).index[k] == img[META_SIZE + k];
    }
  }

  /** Clearing bits of the flags byte in both copies. */
  lemma ProgramFlags(img: Image, mask: byte)
    requires Doubled(img)
    ensures var flags := And8(View(img).meta[OFF_FLAGS], mask);
            var r := Programmed(Programmed(img, OFF_FLAGS, [flags]), HEADER_SIZE + OFF_FLAGS, [flags]);
            Doubled(r) && View(r) == View(img).(meta := View(img).meta[OFF_FLAGS := flags])
  {
    var flags := And8(View(img).meta[OFF_FLAGS], mask);
    var r: Image := Programmed(Programmed(img, OFF_FLAGS, [flags]), HEADER_SIZE + OFF_FLAGS, [flags]);
    ProgramHeaders(img, OFF_FLAGS, [flags]);
    ProgramMasked(View(img).meta[OFF_FLAGS], mask);
    var m := View(img).meta;
    forall k | 0 <= k < META_SIZE ensures View(r).meta[k] == m[OFF_FLAGS := flags][k] {
      assert m[k] == img[k] && View(r).meta[k] == r[k];
    }
    forall k | 0 <= k < SLOTS ensures View(r).index[k] == View(img).index[k] {
      assert View(r).index[k] == r[META_SIZE + k] && View(img).index[k] == img[META_SIZE + k];
    }
  }
}
