/** hal_eeprom.c and config.c: the EEPROM, byte by byte, and the parameter store in it.  The
    supply may fail: `power` says how many more bytes it lasts for, and a byte write after that
    does nothing, so that the image a method leaves is the image at the moment of the cut. */
module Config {
  import opened Bytes
  import opened Integers
  import opened ConfigSlots

  const MAIN_START := 16

  /** `mem` with `data` in it from `at` on. */
  function Patched(mem: seq<byte>, at: nat, data: seq<byte>): (r: seq<byte>)
    requires at + |data| <= |mem|
    ensures |r| == |mem|
    ensures forall i :: 0 <= i < |r| ==> r[i] == if at <= i < at + |data| then data[i - at] else mem[i]
  {
    mem[..at] + data + mem[at + |data|..]
  }

  lemma PatchNext(mem: seq<byte>, at: nat, data: seq<byte>, k: nat)
    requires at + |data| <= |mem| && k < |data|
    ensures Patched(mem, at, data[..k])[at + k := data[k]] == Patched(mem, at, data[..k + 1])
    ensures Patched(mem, at, []) == mem
  {
  }

  class Eeprom {
    const mem: array<byte>
    var power: nat

    constructor (mem: array<byte>, power: nat)
      ensures this.mem == mem && this.power == power
    {
      this.mem, this.power := mem, power;
    }

    method WriteByte(addr: nat, data: byte)
      requires addr < mem.Length
      modifies this, mem
      ensures mem[..] == (if old(power) == 0 then old(mem[..]) else old(mem[..])[addr := data])
      ensures power == if old(power) == 0 then 0 else old(power) - 1
    {
      if power > 0 {
        mem[addr] := data;
        power := power - 1;
      }
    }

    /** Writes in ascending order; `k` bytes get there. */
    method WriteBlock(addr: nat, data: seq<byte>) returns (ghost k: nat)
      requires addr + |data| <= mem.Length
      modifies this, mem
      ensures k == (if old(power) < |data| then old(power) else |data|) && power == old(power) - k
      ensures mem[..] == Patched(old(mem[..]), addr, data[..k])
    {
      k := 0;
      ghost var mem0 := mem[..];
      PatchedNothing(mem0, addr, data);
      for i := 0 to |data|
        invariant k == (if old(power) < i then old(power) else i) && power == old(power) - k
        invariant mem[..] == Patched(mem0, addr, data[..k])
      {
        if power > 0 {
          PatchNext(mem0, addr, data, k);
          k := k + 1;
        }
        WriteByte(addr + i, data[i]);
      }
    }

    method EraseBlock(addr: nat, len: nat) returns (ghost k: nat)
      requires addr + len <= mem.Length
      modifies this, mem
      ensures k == (if old(power) < len then old(power) else len) && power == old(power) - k
      ensures mem[..] == Patched(old(mem[..]), addr, Ones(k))
    {
      k := 0;
      ghost var mem0 := mem[..];
      PatchedNothing(mem0, addr, Ones(len));
      for i := 0 to len
        invariant k == (if old(power) < i then old(power) else i) && power == old(power) - k
        invariant mem[..] == Patched(mem0, addr, Ones(k))
      {
        if power > 0 {
          PatchNext(mem0, addr, Ones(len), k);
          assert Ones(len)[..k] == Ones(k) && Ones(len)[..k + 1] == Ones(k + 1);
          k := k + 1;
        }
        WriteByte(addr + i, 0xff);
      }
    }

    method ReadBlock(addr: nat, len: nat) returns (data: seq<byte>)
      requires addr + len <= mem.Length
      ensures data == mem[addr..addr + len]
    {
      data := [];
      for i := 0 to len
        invariant data == mem[addr..addr + i]
      {
        data := data + [mem[addr + i]];
      }
    }
  }

  lemma PatchedNothing(mem: seq<byte>, at: nat, data: seq<byte>)
    requires at + |data| <= |mem|
    ensures Patched(mem, at, data[..0]) == mem && Patched(mem, at, Ones(0)) == mem
  {
  }

  // ----- Slots in the EEPROM -----

  function SlotsOf(mem: seq<byte>, total: nat): (r: seq<Slot>)
    requires MAIN_START + SLOT_BYTES * total <= |mem|
    ensures |r| == total
  {
    seq(total, i requires 0 <= i < total => mem[MAIN_START + SLOT_BYTES * i..MAIN_START + SLOT_BYTES * i + SLOT_BYTES])
  }

  /** The bytes of the EEPROM before and behind the slots, which belong to others. */
  function RestOf(mem: seq<byte>, total: nat): (seq<byte>, seq<byte>)
    requires MAIN_START + SLOT_BYTES * total <= |mem|
  {
    (mem[..MAIN_START], mem[MAIN_START + SLOT_BYTES * total..])
  }

  /** Bytes written within slot i change slot i alone. */
  lemma SlotPatched(mem: seq<byte>, total: nat, i: nat, off: nat, data: seq<byte>)
    requires MAIN_START + SLOT_BYTES * total <= |mem| && i < total && off + |data| <= SLOT_BYTES
    ensures MAIN_START + SLOT_BYTES * i + off + |data| <= |mem|
    ensures SlotsOf(Patched(mem, MAIN_START + SLOT_BYTES * i + off, data), total)
            == SlotsOf(mem, total)[i := Patched(SlotsOf(mem, total)[i], off, data)]
  {
    var mem' := Patched(mem, MAIN_START + SLOT_BYTES * i + off, data);
    forall j | 0 <= j < total
      ensures SlotsOf(mem', total)[j] == if j == i then Patched(SlotsOf(mem, total)[i], off, data)
              else SlotsOf(mem, total)[j]
    {
      if j < i {
        assert SLOT_BYTES * j + SLOT_BYTES <= SLOT_BYTES * i;
      } else if j > i {
        assert SLOT_BYTES * i + SLOT_BYTES <= SLOT_BYTES * j;
      }
    }
  }

  lemma RestPatched(mem: seq<byte>, total: nat, i: nat, off: nat, data: seq<byte>)
    requires MAIN_START + SLOT_BYTES * total <= |mem| && i < total && off + |data| <= SLOT_BYTES
    ensures MAIN_START + SLOT_BYTES * i + off + |data| <= |mem|
    ensures RestOf(Patched(mem, MAIN_START + SLOT_BYTES * i + off, data), total) == RestOf(mem, total)
  {
    var at := MAIN_START + SLOT_BYTES * i + off;
    var mem' := Patched(mem, at, data);
    assert MAIN_START <= at && at + |data| <= MAIN_START + SLOT_BYTES * total;
    assert mem'[..MAIN_START] == mem[..MAIN_START];
    var end := MAIN_START + SLOT_BYTES * total;
    assert mem'[end..] == mem[end..];
  }

  lemma PatchedByte(mem: seq<byte>, at: nat, b: byte)
    requires at < |mem|
    ensures Patched(mem, at, [b]) == mem[at := b]
  {
  }

  /** The body of a slot goes first, then its first byte. */
  lemma WritingBody(s: Slot, p: Slot, k: nat)
    requires k < SLOT_BYTES
    ensures Patched(s, 1, p[1..][..k]) == Writing(s, p, k)
  {
  }

  lemma WritingHead(s: Slot, p: Slot)
    ensures Patched(Writing(s, p, SLOT_BYTES - 1), 0, [p[0]]) == p == Writing(s, p, SLOT_BYTES)
  {
  }

  lemma WritingEnds(s: Slot, p: Slot)
    ensures Writing(s, p, 0) == s && Writing(s, p, SLOT_BYTES) == p
  {
  }

  lemma ErasingEnds(s: Slot)
    ensures Erasing(s, 0) == s && Erasing(s, SLOT_BYTES) == Erased()
  {
  }

  lemma StartClean(reg: Registry, slots: seq<Slot>)
    ensures HalfClean(reg, slots, slots, 0, 0) && Resumable(reg, slots, slots)
  {
  }

  lemma TakeMore(slots: seq<Slot>, id: nat, i: nat, len: nat, data: seq<byte>)
    requires i < 32 && |data| == CHUNK && Chunks(slots, id, i + 1) == Chunks(slots, id, i) + data
    ensures Chunks(slots, id, i + 1)[..Min(len, CHUNK * (i + 1))]
            == Chunks(slots, id, i)[..Min(len, CHUNK * i)] + data[..Min(len - Min(len, CHUNK * i), CHUNK)]
  {
    hide Chunks;
  }

  datatype WriteResult = Unregistered | Done | Full | WriteFailed

  function Min(a: nat, b: nat): nat { if a < b then a else b }

  class ConfigStore {
    const ee: Eeprom
    const total: nat
    const reg: Registry

    constructor (ee: Eeprom, total: nat, reg: Registry)
      ensures this.ee == ee && this.total == total && this.reg == reg
    {
      this.ee, this.total, this.reg := ee, total, reg;
    }

    ghost predicate Valid() {
      total < 256 && MAIN_START + SLOT_BYTES * total <= ee.mem.Length && reg.kind(EMPTY_ID).None?
    }

    ghost function Slots(): (r: seq<Slot>)
      requires Valid()
      reads ee.mem
      ensures |r| == total
    {
      SlotsOf(ee.mem[..], total)
    }

    /** The rest of the EEPROM. */
    ghost function Rest(): (seq<byte>, seq<byte>)
      requires Valid()
      reads ee.mem
    {
      RestOf(ee.mem[..], total)
    }

    /** Where the bytes of a slot lie. */
    lemma SlotsAt(i: nat, k: nat)
      requires Valid() && i < total && k < 16
      ensures 16 + 16 * i + k < ee.mem.Length && Slots()[i][k] == ee.mem[16 + 16 * i + k]
    {
    }

    // ----- One slot -----

    method ReadSlot(i: nat) returns (s: Slot)
      requires Valid() && i < total
      ensures s == Slots()[i]
    {
      s := ee.ReadBlock(MAIN_START + SLOT_BYTES * i, SLOT_BYTES);
    }

    method ReadId(i: nat) returns (id: nat)
      requires Valid() && i < total
      ensures id == IdOf(Slots()[i])
    {
      var bytes := ee.ReadBlock(MAIN_START + SLOT_BYTES * i, 4);
      assert bytes == Slots()[i][..4];
      id := Word(bytes);
    }

    method ReadNumber(i: nat) returns (n: byte)
      requires Valid() && i < total
      ensures n == NumberOf(Slots()[i])
    {
      var bytes := ee.ReadBlock(MAIN_START + SLOT_BYTES * i + 5, 1);
      n := bytes[0];
    }

    /** Erases a slot from its first byte on; `k` bytes get done. */
    method EraseSlot(i: nat) returns (ghost k: nat)
      requires Valid() && i < total
      modifies ee, ee.mem
      ensures Rest() == old(Rest())
      ensures k == Min(old(ee.power), SLOT_BYTES) && ee.power == old(ee.power) - k
      ensures Slots() == old(Slots())[i := Erasing(old(Slots())[i], k)]
    {
      ghost var s := Slots()[i];
      k := ee.EraseBlock(MAIN_START + SLOT_BYTES * i, SLOT_BYTES);
      SlotPatched(old(ee.mem[..]), total, i, 0, Ones(k));
      RestPatched(old(ee.mem[..]), total, i, 0, Ones(k));
      assert Patched(s, 0, Ones(k)) == Erasing(s, k);
    }

    /** Writes everything but the first byte, and that one last; `k` bytes get done. */
    method WriteSlot(i: nat, p: Slot) returns (ghost k: nat)
      requires Valid() && i < total
      modifies ee, ee.mem
      ensures Rest() == old(Rest())
      ensures k == Min(old(ee.power), SLOT_BYTES) && ee.power == old(ee.power) - k
      ensures Slots() == old(Slots())[i := Writing(old(Slots())[i], p, k)]
    {
      hide Writing, Patched, RestOf;
      ghost var s := Slots()[i];
      k := ee.WriteBlock(MAIN_START + SLOT_BYTES * i + 1, p[1..]);
      SlotPatched(old(ee.mem[..]), total, i, 1, p[1..][..k]);
      RestPatched(old(ee.mem[..]), total, i, 1, p[1..][..k]);
      WritingBody(s, p, k);
      if ee.power > 0 {
        SlotPatched(ee.mem[..], total, i, 0, [p[0]]);
        RestPatched(ee.mem[..], total, i, 0, [p[0]]);
        PatchedByte(ee.mem[..], MAIN_START + SLOT_BYTES * i, p[0]);
        WritingHead(s, p);
        k := k + 1;
      }
      ee.WriteByte(MAIN_START + SLOT_BYTES * i, p[0]);
    }

    // ----- Searches -----

    method SeekBlock(id: nat, n: byte) returns (r: int)
      requires Valid()
      ensures r == Seek(Slots(), id, n)
    {
      hide IdOf, NumberOf;
      for i := 0 to total
        invariant forall j :: 0 <= j < i ==> !Named(Slots()[j], id, n)
      {
        var slotId := ReadId(i);
        if slotId == id {
          var number := ReadNumber(i);
          if number == n {
            return i;
          }
        }
      }
      r := -1;
    }

    method GetFree() returns (r: int)
      requires Valid()
      ensures r == FirstEmpty(Slots())
    {
      hide IdOf;
      for i := 0 to total
        invariant forall j :: 0 <= j < i ==> IdOf(Slots()[j]) != EMPTY_ID
      {
        var id := ReadId(i);
        if id == EMPTY_ID {
          return i;
        }
      }
      r := -1;
    }

    method FreeBlocks() returns (r: nat)
      requires Valid()
      ensures r == Free(Slots())
    {
      hide IdOf;
      r := 0;
      for i := 0 to total
        invariant r == Free(Slots()[..i])
      {
        var id := ReadId(i);
        assert Slots()[..i + 1][..i] == Slots()[..i];
        if id == EMPTY_ID {
          r := r + 1;
        }
      }
      assert Slots()[..total] == Slots();
    }

    // ----- Parameters -----

    /** Writes one chunk into a free slot, checks it, and then erases the old copy at `o`. */
    method WritePiece(p: Slot, o: int) returns (r: WriteResult)
      requires Valid() && o == Seek(Slots(), IdOf(p), NumberOf(p)) && IdOf(p) != EMPTY_ID
      modifies ee, ee.mem
      ensures Rest() == old(Rest())
      ensures ee.power <= old(ee.power) && Between(old(Slots()), Slots(), p)
      ensures FirstEmpty(old(Slots())) < 0 ==> r == Full && Slots() == old(Slots()) && ee.power == old(ee.power)
      ensures FirstEmpty(old(Slots())) >= 0 && ee.power > 0 ==> r == Done && Slots() == WithPiece(old(Slots()), p)
      ensures old(ee.power) == 0 ==> Slots() == old(Slots())
    {
      hide Word, FirstEmpty, Seek, Writing, Erasing;
      ghost var slots0 := Slots();
      var e := GetFree();
      if e < 0 {
        return Full;
      }
      assert e != o;
      var k := WriteSlot(e, p);
      WritingEnds(slots0[e], p);
      assert Slots() == slots0[e := Writing(slots0[e], p, k)];
      var check := ReadSlot(e);
      if check != p {
        ghost var _ := EraseSlot(e);
        ErasingEnds(Writing(slots0[e], p, k));
        return WriteFailed;
      }
      if o >= 0 {
        var j := EraseSlot(o);
        ErasingEnds(slots0[o]);
        assert Slots() == slots0[e := p][o := Erasing(slots0[o], j)];
      }
      r := Done;
    }

    /** Stores a value chunk by chunk.  `at` is the image after the last chunk that was finished,
        and m the one that was being written when the supply failed or that found no free slot. */
    method WriteParam(id: nat, value: seq<byte>) returns (r: WriteResult, ghost m: nat, ghost at: seq<Slot>)
      requires Valid() && id <= 0xffffffff && Unique(Slots())
      requires reg.kind(id).Some? ==> |value| == reg.size(reg.kind(id).value)
      modifies ee, ee.mem
      ensures Rest() == old(Rest())
      ensures reg.kind(id).None? ==> r == Unregistered && Slots() == old(Slots())
      ensures reg.kind(id).Some? ==>
                var kind, n := reg.kind(id).value, BlocksFor(|value|);
                && id < EMPTY_ID && m <= n && Reached(old(Slots()), at, id, kind, value, m)
                && (Slots() == at || (ee.power == 0 && m < n && Between(at, Slots(), Piece(id, kind, value, m))))
                && (ee.power > 0 ==>
                      && Slots() == at && (r == Done || r == Full) && (r == Done ==> m == n)
                      && (r == Done <==> Fits(old(Slots()), id, kind, value, n)))
    {
      hide Reached, Between, Unique, Lookup, Word, WithPiece, Fits, Free, Missing, SlotsOf, RestOf, Chunk, Param,
           FirstEmpty;
      ghost var slots0 := Slots();
      m, at := 0, slots0;
      if reg.kind(id).None? {
        return Unregistered, 0, at;
      }
      var kind := reg.kind(id).value;
      ReachedNone(slots0, id, kind, value);
      FitsNone(slots0, id, kind, value);
      for i := 0 to BlocksFor(|value|)
        invariant Rest() == old(Rest()) && m <= i && Reached(slots0, at, id, kind, value, m)
        invariant Slots() == at
                  || (ee.power == 0 && m < BlocksFor(|value|) && Between(at, Slots(), Piece(id, kind, value, m)))
        invariant ee.power > 0 ==> m == i && Fits(slots0, id, kind, value, i)
      {
        var p := Piece(id, kind, value, i);
        var o := SeekBlock(id, i);
        SeekLookup(Slots(), id, i);
        if ee.power > 0 {
          FitsNext(slots0, at, id, kind, value, i);
        }
        if o >= 0 {
          var stored := ReadSlot(o);
          if stored == p {
            if ee.power > 0 {
              SameReached(slots0, at, id, kind, value, i);
              m := i + 1;
            }
            continue;
          }
        }
        r := WritePiece(p, o);
        if r != Done {
          return;
        }
        if ee.power > 0 {
          PieceReached(slots0, at, id, kind, value, i);
          at := WithPiece(at, p);
          m := i + 1;
        }
      }
      r := Done;
    }

    /** The boot cleaner.  With the supply holding out it does what `Cleaned` says; cut anywhere, it
        leaves an image that a later run still makes the same chunks of. */
    method CleanBlocks()
      requires Valid()
      modifies ee, ee.mem
      ensures Rest() == old(Rest())
      ensures ee.power > 0 ==> Slots() == Cleaned(reg, old(Slots()))
      ensures ee.power > 0 ==>
                forall i: nat | i < total ::
                  Slots()[i] == if Stays(reg, old(Slots()), i) then old(Slots())[i] else seq(16, _ => 0xff)
      ensures AllSafe(reg, old(Slots())) ==> Resumable(reg, old(Slots()), Slots()) && AllSafe(reg, Slots())
    {
      hide Word, Resumable, AllSafe, Cleaned, Seek, Good, HalfClean, Survives, Stays;
      ghost var slots0 := Slots();
      StartClean(reg, slots0);
      for i := 0 to total
        invariant Rest() == old(Rest())
        invariant ee.power > 0 ==> HalfClean(reg, slots0, Slots(), i, 0)
        invariant AllSafe(reg, slots0) ==> Resumable(reg, slots0, Slots()) && AllSafe(reg, Slots())
      {
        var block := ReadSlot(i);
        if IdOf(block) == EMPTY_ID {
          if ee.power > 0 {
            HalfwayEmpty(reg, slots0, Slots(), i);
          }
          continue;
        }
        for j := 0 to total
          invariant Rest() == old(Rest())
          invariant ee.power > 0 ==> HalfClean(reg, slots0, Slots(), i, j) && Slots()[i] == block
          invariant AllSafe(reg, slots0) ==> Resumable(reg, slots0, Slots()) && AllSafe(reg, Slots())
        {
          if ee.power > 0 {
            HalfwayCopy(reg, slots0, Slots(), i, j);
          }
          if j == i {
            continue;
          }
          var block2 := ReadSlot(j);
          if IdOf(block2) == IdOf(block) && NumberOf(block2) == NumberOf(block) {
            EraseFound(j, slots0);
          }
        }
        if ee.power > 0 {
          HalfwayDone(reg, slots0, Slots(), i);
        }
        if !Good(reg, block) {
          EraseFound(i, slots0);
        }
      }
      if ee.power > 0 {
        HalfwayEnd(reg, slots0, Slots());
        forall i: nat | i < total
          ensures Slots()[i] == if Stays(reg, slots0, i) then slots0[i] else seq(16, _ => 0xff)
        {
          CleanedAt(reg, slots0, i);
        }
      }
    }

    /** Erases a slot that the cleaner of `slots0` has no more use for. */
    method EraseFound(x: nat, ghost slots0: seq<Slot>)
      requires Valid() && x < total && |slots0| == total
      requires ee.power > 0 ==> Slots()[x] == slots0[x] && !Survives(reg, slots0, x)
      requires ee.power > 0 && Seek(slots0, IdOf(slots0[x]), NumberOf(slots0[x])) == x ==>
                 forall j :: 0 <= j < total && j != x && Named(slots0[j], IdOf(slots0[x]), NumberOf(slots0[x])) ==>
                               Slots()[j] != slots0[j]
      requires AllSafe(reg, slots0) ==> Resumable(reg, slots0, Slots()) && AllSafe(reg, Slots())
      modifies ee, ee.mem
      ensures Rest() == old(Rest())
      ensures ee.power > 0 ==> Slots() == old(Slots())[x := Erased()]
      ensures old(ee.power) == 0 ==> ee.power == 0
      ensures AllSafe(reg, slots0) ==> Resumable(reg, slots0, Slots()) && AllSafe(reg, Slots())
    {
      hide Word, Resumable, Seek, Survives, TornSafe;
      ghost var was := Slots();
      ghost var k := EraseSlot(x);
      ErasingEnds(was[x]);
      if k == 0 {
        assert Slots() == was;
      } else if AllSafe(reg, slots0) {
        EraseResumable(reg, slots0, was, x, k);
        ErasingSafe(reg, was[x], k);
      }
    }

    /** Reads a value into a buffer of the parameter's length; zeros stand for missing chunks, and
        for everything when the first chunk is missing. */
    method ReadParam(id: nat) returns (status: int, value: seq<byte>)
      requires Valid()
      ensures reg.kind(id).None? ==> status == -1
      ensures reg.kind(id).Some? ==>
                var len := reg.size(reg.kind(id).value);
                && value == ReadBack(Slots(), id, len) && status == ReadStatus(Slots(), id)
                && status in {0, -1} && (status == 0 <==> Seek(Slots(), id, 0) >= 0)
    {
      hide Word, Seek, Chunks;
      var block := SeekBlock(id, 0);
      if reg.kind(id).None? {
        return -1, [];
      }
      var len := reg.size(reg.kind(id).value);
      if block < 0 {
        return -1, seq(len, _ => 0);
      }
      value := [];
      var left := len;
      for i := 0 to BlocksFor(len)
        invariant left == len - Min(len, CHUNK * i)
        invariant value == Chunks(Slots(), id, i)[..Min(len, CHUNK * i)]
        invariant i == 0 ==> block == Seek(Slots(), id, 0)
      {
        if i != 0 {
          block := SeekBlock(id, i);
        }
        var data := ReadChunk(id, i, block);
        var copyLen := Min(left, CHUNK);
        TakeMore(Slots(), id, i, len, data);
        value := value + data[..copyLen];
        left := left - copyLen;
      }
      status := 0;
    }

    /** The data of chunk n, found in slot `block`, or zeros for a missing one. */
    method ReadChunk(id: nat, n: byte, block: int) returns (data: seq<byte>)
      requires Valid() && block == Seek(Slots(), id, n)
      ensures |data| == CHUNK && (n < 32 ==> Chunks(Slots(), id, n + 1) == Chunks(Slots(), id, n) + data)
    {
      hide Word, Seek;
      data := seq(CHUNK, _ => 0);
      if block >= 0 {
        var param := ReadSlot(block);
        data := DataOf(param);
      }
    }

    /** Erases every chunk of a parameter; cut anywhere, it has touched no other. */
    method EraseParam(id: nat)
      requires Valid() && id < EMPTY_ID
      modifies ee, ee.mem
      ensures Rest() == old(Rest())
      ensures ee.power > 0 ==>
                forall i :: 0 <= i < total ==>
                              Slots()[i] == if IdOf(old(Slots())[i]) == id then Erased() else old(Slots())[i]
      ensures PartErased(old(Slots()), Slots(), id)
    {
      hide Word, Erasing;
      ghost var slots0 := Slots();
      for i := 0 to total
        invariant Rest() == old(Rest())
        invariant ee.power > 0 ==>
                    forall k :: 0 <= k < total ==>
                                  Slots()[k] == if k < i && IdOf(slots0[k]) == id then Erased() else slots0[k]
        invariant PartErased(slots0, Slots(), id) && forall k :: i <= k < total ==> Slots()[k] == slots0[k]
      {
        var slotId := ReadId(i);
        if slotId == id {
          ghost var was := Slots()[i];
          ghost var n := EraseSlot(i);
          ErasingEnds(was);
          assert Slots()[i] == Erasing(slots0[i], n);
        }
      }
    }
  }

  // ----- What the store promises -----

  /** Setting a parameter and getting it, with the supply up: the value comes back, whole if it is
      at most 255 bytes long, when and only when there were free slots for the chunks that had to
      be written, and otherwise its first m chunks are new; every other parameter reads as before;
      and only missing chunks took slots. */
  method SetAndGet(store: ConfigStore, id: nat, value: seq<byte>)
    returns (status: int, back: seq<byte>, done: bool, ghost m: nat)
    requires store.Valid() && Unique(store.Slots()) && id < EMPTY_ID && store.reg.kind(id).Some?
    requires |value| == store.reg.size(store.reg.kind(id).value)
    modifies store.ee, store.ee.mem
    ensures store.Rest() == old(store.Rest())
    ensures store.ee.power > 0 ==>
              && Unique(store.Slots()) && |old(store.Slots())| == |store.Slots()|
              && (done <==> Fits(old(store.Slots()), id, store.reg.kind(id).value, value, BlocksFor(|value|)))
              && m <= BlocksFor(|value|) && PartNew(old(store.Slots()), id, value, m, back)
              && status == (if m > 0 then 0 else ReadStatus(old(store.Slots()), id))
              && Free(store.Slots()) + Missing(old(store.Slots()), id, m) == Free(old(store.Slots()))
              && (done ==> m == BlocksFor(|value|))
              && (done && |value| <= 255 ==> back == value)
              && (done && |value| > 255 ==> back != value || value == seq(|value|, _ => 0))
              && (done && m > 0 ==> back == value[..Min(|value|, CHUNK * m)])
              && forall other: nat | other != id && other != EMPTY_ID ::
                   ReadsSame(old(store.Slots()), store.Slots(), other)
  {
    hide Lookup, Free, Missing, Unique, Fits, Between, Chunks, ReadBack, ReadStatus, ReadsSame, PartNew, Prefix;
    ghost var slots0 := store.Slots();
    ghost var kind := store.reg.kind(id).value;
    ghost var at;
    var r;
    r, m, at := store.WriteParam(id, value);
    status, back := store.ReadParam(id);
    done := r == Done;
    if store.ee.power > 0 {
      OthersReadSame(slots0, at, id, kind, value, m);
      PartReads(slots0, at, id, kind, value, m);
      if done {
        StoredReads(slots0, at, id, kind, value);
      }
    }
  }

  /** Setting a parameter on a clean store with a supply that may fail at any byte, followed by any
      number of boots whose cleaning may be cut short as well: once a cleaning runs through, the
      store is clean, and the first m chunks are new and the others old. */
  method SetThroughCuts(store: ConfigStore, id: nat, value: seq<byte>, boots: seq<nat>) returns (ghost m: nat)
    requires store.Valid() && Clean(store.reg, store.Slots()) && id < EMPTY_ID && store.reg.kind(id).Some?
    requires |value| == store.reg.size(store.reg.kind(id).value)
    requires AllSafe(store.reg, store.Slots()) && TornSafe(store.reg, WordBytes(id)) && boots != []
    modifies store.ee, store.ee.mem
    ensures store.Rest() == old(store.Rest())
    ensures m <= BlocksFor(|value|)
    ensures store.ee.power > 0 ==>
              && Clean(store.reg, store.Slots())
              && Prefix(old(store.Slots()), store.Slots(), id, store.reg.kind(id).value, value, m)
  {
    hide AllSafe, TornSafe, WordBytes, Prefix, Clean, Between, Reached, Cleaned, Resumable, BlocksFor, Piece;
    ghost var slots0 := store.Slots();
    ghost var kind := store.reg.kind(id).value;
    CleanUnique(store.reg, slots0);
    var r, mm, at := store.WriteParam(id, value);
    m := AfterCut(store.reg, slots0, at, store.Slots(), id, kind, value, mm);
    for b := 0 to |boots|
      invariant store.Rest() == old(store.Rest()) && AllSafe(store.reg, store.Slots())
      invariant Prefix(slots0, Cleaned(store.reg, store.Slots()), id, kind, value, m)
      invariant b > 0 && store.ee.power > 0 ==>
                  && Clean(store.reg, store.Slots()) && Prefix(slots0, store.Slots(), id, kind, value, m)
    {
      ghost var was := store.Slots();
      store.ee.power := boots[b];
      store.CleanBlocks();
      CleanedIsClean(store.reg, was);
      forall id': nat, n: byte | id' != EMPTY_ID
        ensures Lookup(Cleaned(store.reg, store.Slots()), id', n) == Lookup(Cleaned(store.reg, was), id', n)
      {
        ResumedSame(store.reg, was, store.Slots(), id', n);
      }
      PrefixSame(slots0, Cleaned(store.reg, was), Cleaned(store.reg, store.Slots()), id, kind, value, m);
    }
  }

  /** The same, read back at the end: the new value as far as the first m chunks reach, then the old
      one; if it is a single chunk, the one or the other.  Every other parameter reads as before. */
  method SetCutGet(store: ConfigStore, id: nat, value: seq<byte>, boots: seq<nat>)
    returns (status: int, back: seq<byte>, ghost m: nat)
    requires store.Valid() && Clean(store.reg, store.Slots()) && id < EMPTY_ID && store.reg.kind(id).Some?
    requires |value| == store.reg.size(store.reg.kind(id).value)
    requires AllSafe(store.reg, store.Slots()) && TornSafe(store.reg, WordBytes(id)) && boots != []
    modifies store.ee, store.ee.mem
    ensures store.Rest() == old(store.Rest())
    ensures store.ee.power > 0 ==>
              && m <= BlocksFor(|value|) && PartNew(old(store.Slots()), id, value, m, back)
              && status == (if m > 0 then 0 else ReadStatus(old(store.Slots()), id))
              && forall other: nat | other != id && other != EMPTY_ID ::
                   ReadsSame(old(store.Slots()), store.Slots(), other)
  {
    hide Prefix, AllSafe, TornSafe, WordBytes, Clean, BlocksFor, Chunks, Lookup, ReadBack, ReadStatus, ReadsSame,
         PartNew;
    ghost var slots0, kind := store.Slots(), store.reg.kind(id).value;
    m := SetThroughCuts(store, id, value, boots);
    status, back := store.ReadParam(id);
    if store.ee.power > 0 {
      PartReads(slots0, store.Slots(), id, kind, value, m);
      OthersReadSame(slots0, store.Slots(), id, kind, value, m);
    }
  }

  lemma CleanUnique(reg: Registry, slots: seq<Slot>)
    requires Clean(reg, slots)
    ensures Unique(slots)
  {
  }

  /** How many chunks of the new value a cleaning will find, wherever the write was cut. */
  lemma AfterCut(reg: Registry, slots0: seq<Slot>, at: seq<Slot>, s: seq<Slot>, id: nat, kind: KvType,
                 value: seq<byte>, m: nat)
    returns (m': nat)
    requires Clean(reg, slots0) && Reached(slots0, at, id, kind, value, m) && reg.kind(id) == Some(kind)
             && |value| == reg.size(kind)
    requires AllSafe(reg, slots0) && TornSafe(reg, WordBytes(id)) && reg.kind(EMPTY_ID).None? && m <= BlocksFor(|value|)
    requires s == at || (m < BlocksFor(|value|) && Between(at, s, Piece(id, kind, value, m)))
    ensures m' <= BlocksFor(|value|) && AllSafe(reg, s) && Prefix(slots0, Cleaned(reg, s), id, kind, value, m')
  {
    assert Piece(id, kind, value, m)[..4] == WordBytes(id);
    hide AllSafe, TornSafe, WordBytes, Prefix, Clean, Between, Cleaned, BlocksFor, Free, Missing, Piece;
    ReachedClean(reg, slots0, at, id, kind, value, m);
    ReachedSafe(reg, slots0, at, id, kind, value, m);
    if s == at {
      CleanStays(reg, at);
      m' := m;
    } else {
      BetweenSafe(reg, at, s, Piece(id, kind, value, m));
      CutPrefix(reg, slots0, at, s, id, kind, value, m);
      m' := if Prefix(slots0, Cleaned(reg, s), id, kind, value, m) then m else m + 1;
    }
  }
}
