/** The configuration store of config.c as values: an EEPROM of 16-byte slots, each empty or
    holding one 8-byte chunk of one parameter, in no order.  What a slot sequence means, what the
    boot cleaner makes of it, and what is left when the supply fails half-way through a write. */
module ConfigSlots {
  import opened Bytes
  import opened Integers

  const SLOT_BYTES := 16
  const CHUNK := 8
  const EMPTY_ID := 0xffffffff

  type Slot = s: seq<byte> | |s| == SLOT_BYTES witness Ones(SLOT_BYTES)
  type KvType = t: int | 0 <= t < 128 witness 0

  /** The key-value system: the type of each registered key, and the size of a type's values. */
  datatype Registry = Registry(kind: nat -> Option<KvType>, size: KvType -> nat)

  // ----- A slot: id (4 bytes), type, block number, two reserved bytes, data -----

  function IdOf(s: Slot): nat { Word(s[..4]) }

  function TypeOf(s: Slot): byte { s[4] }

  function NumberOf(s: Slot): byte { s[5] }

  function DataOf(s: Slot): seq<byte> { s[8..] }

  function Erased(): Slot { Ones(SLOT_BYTES) }

  function Param(id: nat, kind: KvType, n: byte, data: seq<byte>): (r: Slot)
    requires id <= 0xffffffff && |data| == CHUNK
    ensures IdOf(r) == id && TypeOf(r) == kind && NumberOf(r) == n && DataOf(r) == data
  {
    var r := WordBytes(id) + [kind, n, 0xff, 0xff] + data;
    assert r[..4] == WordBytes(id);
    r
  }

  /** How many chunks a value takes.  The length is narrowed to 8 bits on the way in. */
  function BlocksFor(len: nat): (r: nat)
    ensures r <= 32
  {
    (len % 0x100) / 8 + if (len % 0x100) % 8 > 0 then 1 else 0
  }

  /** The chunks reach to the end of the value exactly when the length survives the narrowing. */
  lemma ChunksReach(len: nat)
    ensures CHUNK * BlocksFor(len) >= len <==> len <= 255
  {
  }

  /** One chunk fewer would not reach, and a length that the narrowing leaves nothing of takes none. */
  lemma ChunksNeeded(len: nat)
    ensures BlocksFor(len) > 0 ==> 8 * (BlocksFor(len) - 1) < len % 0x100 <= 8 * BlocksFor(len)
    ensures len % 0x100 == 0 <==> BlocksFor(len) == 0
  {
  }

  /** The sixteen bytes of a slot in the EEPROM: id with its lowest byte first, type, number, two
      erased bytes and the data. */
  lemma SlotBytes(id: nat, kind: KvType, n: byte, data: seq<byte>)
    requires id <= 0xffffffff && |data| == 8
    ensures Param(id, kind, n, data)
         == [id % 0x100, id / 0x100 % 0x100, id / 0x10000 % 0x100, id / 0x1000000, kind, n, 0xff, 0xff] + data
  {
  }

  /** Which byte of a slot means what. */
  lemma SlotFields(s: Slot)
    ensures var b0: int, b1: int, b2: int, b3: int := s[0], s[1], s[2], s[3];
            IdOf(s) == b0 + 0x100 * b1 + 0x10000 * b2 + 0x1000000 * b3
    ensures TypeOf(s) == s[4] && NumberOf(s) == s[5] && |DataOf(s)| == 8
    ensures forall k :: 0 <= k < 8 ==> DataOf(s)[k] == s[8 + k]
  {
    assert s[..4] == [s[0], s[1], s[2], s[3]];
  }

  // ----- Looking things up -----

  predicate Named(s: Slot, id: nat, n: byte) {
    IdOf(s) == id && NumberOf(s) == n
  }

  /** The lowest slot from i on that holds chunk n of parameter id, or -1. */
  function SeekFrom(slots: seq<Slot>, id: nat, n: byte, i: nat): (r: int)
    requires i <= |slots|
    ensures r == -1 || i <= r < |slots|
    ensures r >= 0 ==> Named(slots[r], id, n)
    ensures forall j :: i <= j < (if r < 0 then |slots| else r) ==> !Named(slots[j], id, n)
    decreases |slots| - i
  {
    if i == |slots| then -1 else if Named(slots[i], id, n) then i else SeekFrom(slots, id, n, i + 1)
  }

  function Seek(slots: seq<Slot>, id: nat, n: byte): (r: int)
    ensures -1 <= r < |slots|
    ensures r >= 0 ==> Named(slots[r], id, n)
    ensures forall j :: 0 <= j < (if r < 0 then |slots| else r) ==> !Named(slots[j], id, n)
  {
    SeekFrom(slots, id, n, 0)
  }

  function FirstEmptyFrom(slots: seq<Slot>, i: nat): (r: int)
    requires i <= |slots|
    ensures r == -1 || i <= r < |slots|
    ensures r >= 0 ==> IdOf(slots[r]) == EMPTY_ID
    ensures forall j :: i <= j < (if r < 0 then |slots| else r) ==> IdOf(slots[j]) != EMPTY_ID
    decreases |slots| - i
  {
    if i == |slots| then -1 else if IdOf(slots[i]) == EMPTY_ID then i else FirstEmptyFrom(slots, i + 1)
  }

  function FirstEmpty(slots: seq<Slot>): (r: int)
    ensures -1 <= r < |slots|
    ensures r >= 0 ==> IdOf(slots[r]) == EMPTY_ID
    ensures forall j :: 0 <= j < (if r < 0 then |slots| else r) ==> IdOf(slots[j]) != EMPTY_ID
  {
    FirstEmptyFrom(slots, 0)
  }

  function Lookup(slots: seq<Slot>, id: nat, n: byte): Option<Slot> {
    var i := Seek(slots, id, n);
    if i < 0 then None else Some(slots[i])
  }

  // ----- The cleaner -----

  predicate Good(reg: Registry, s: Slot) {
    var kind := reg.kind(IdOf(s));
    kind.Some? && kind.value == TypeOf(s) && NumberOf(s) < BlocksFor(reg.size(kind.value))
  }

  ghost predicate Unique(slots: seq<Slot>) {
    forall i, j | 0 <= i < |slots| && 0 <= j < |slots| && Named(slots[j], IdOf(slots[i]), NumberOf(slots[i])) ::
      IdOf(slots[i]) == EMPTY_ID || i == j
  }

  /** No chunk is stored twice and every one is registered, of the right type and in range. */
  ghost predicate Clean(reg: Registry, slots: seq<Slot>) {
    && Unique(slots)
    && forall i :: 0 <= i < |slots| && IdOf(slots[i]) != EMPTY_ID ==> Good(reg, slots[i])
  }

  /** The cleaner keeps slot i: it is the lowest one with its name, and good. */
  predicate Survives(reg: Registry, slots: seq<Slot>, i: nat)
    requires i < |slots|
  {
    IdOf(slots[i]) != EMPTY_ID && Seek(slots, IdOf(slots[i]), NumberOf(slots[i])) == i && Good(reg, slots[i])
  }

  function Cleaned(reg: Registry, slots: seq<Slot>): (r: seq<Slot>)
    ensures |r| == |slots|
    ensures forall i :: 0 <= i < |r| ==>
                          r[i] == if IdOf(slots[i]) == EMPTY_ID || Survives(reg, slots, i) then slots[i] else Erased()
  {
    seq(|slots|, i requires 0 <= i < |slots| =>
      if IdOf(slots[i]) == EMPTY_ID || Survives(reg, slots, i) then slots[i] else Erased())
  }

  /** Slot i is empty, or its id is registered, with the type stored, its number is that of a chunk of
      the value's length narrowed to 8 bits, and no lower slot has its id and number. */
  ghost predicate Stays(reg: Registry, slots: seq<Slot>, i: nat)
    requires i < |slots|
  {
    var s, kind := slots[i], reg.kind(IdOf(slots[i]));
    || IdOf(s) == 0xffffffff
    || (&& kind.Some? && kind.value == TypeOf(s) && 8 * NumberOf(s) < reg.size(kind.value) % 0x100
        && forall j :: 0 <= j < i ==> IdOf(slots[j]) != IdOf(s) || NumberOf(slots[j]) != NumberOf(s))
  }

  /** The cleaner leaves just these slots and erases all others. */
  lemma CleanedAt(reg: Registry, slots: seq<Slot>, i: nat)
    requires i < |slots|
    ensures Cleaned(reg, slots)[i] == if Stays(reg, slots, i) then slots[i] else seq(16, _ => 0xff)
  {
    var s := slots[i];
    var kind := reg.kind(IdOf(s));
    assert Erased() == seq(16, _ => 0xff);
    if kind.Some? {
      RangeIs(reg.size(kind.value), NumberOf(s));
    }
    var k := Seek(slots, IdOf(s), NumberOf(s));
    assert Named(s, IdOf(s), NumberOf(s));
    hide Word, BlocksFor;
  }

  lemma RangeIs(len: nat, n: byte)
    ensures n < BlocksFor(len) <==> 8 * n < len % 0x100
  {
  }

  lemma ErasedIsEmpty()
    ensures IdOf(Erased()) == EMPTY_ID
  {
  }

  /** From any image whatever the cleaner makes a clean one. */
  lemma CleanedIsClean(reg: Registry, slots: seq<Slot>)
    ensures Clean(reg, Cleaned(reg, slots))
  {
    hide Word, Good;
    ErasedIsEmpty();
  }

  /** A clean image is left alone. */
  lemma CleanStays(reg: Registry, slots: seq<Slot>)
    requires Clean(reg, slots)
    ensures Cleaned(reg, slots) == slots
  {
    hide Word, Good;
    forall i | 0 <= i < |slots| && IdOf(slots[i]) != EMPTY_ID ensures Survives(reg, slots, i) {
      assert Named(slots[i], IdOf(slots[i]), NumberOf(slots[i]));
    }
  }

  /** Cleaning twice is cleaning once. */
  lemma CleanedTwice(reg: Registry, slots: seq<Slot>)
    ensures Cleaned(reg, Cleaned(reg, slots)) == Cleaned(reg, slots)
  {
    CleanedIsClean(reg, slots);
    CleanStays(reg, Cleaned(reg, slots));
  }

  /** What the cleaner leaves of a chunk: its lowest copy, if that one is good, and otherwise
      nothing, even where a higher copy was good. */
  lemma CleanedLookup(reg: Registry, slots: seq<Slot>, id: nat, n: byte)
    requires id != EMPTY_ID
    ensures Lookup(Cleaned(reg, slots), id, n)
         == if Lookup(slots, id, n).Some? && Good(reg, Lookup(slots, id, n).value) then Lookup(slots, id, n) else None
  {
    hide Word, Good;
    ErasedIsEmpty();
    var c := Cleaned(reg, slots);
    var i := Seek(slots, id, n);
    if i >= 0 && Good(reg, slots[i]) {
      assert Survives(reg, slots, i);
      assert Named(c[i], id, n);
    }
    var k := Seek(c, id, n);
    if k >= 0 {
      assert c[k] == slots[k] && Named(slots[k], id, n);
    }
  }

  /** Two copies of one chunk, the lower of the wrong type: the cleaner loses the good one with it. */
  lemma GoodCopyLost(id: nat, data: seq<byte>)
    requires id < EMPTY_ID && |data| == CHUNK
    ensures var reg := Registry(k => if k == id then Some(1) else None, _ => CHUNK);
            var slots := [Param(id, 2, 0, data), Param(id, 1, 0, data)];
            && reg.kind(EMPTY_ID).None? && Good(reg, slots[1]) && Named(slots[1], id, 0)
            && Lookup(Cleaned(reg, slots), id, 0) == None
  {
    var slots := [Param(id, 2, 0, data), Param(id, 1, 0, data)];
    CleanedLookup(Registry(k => if k == id then Some(1) else None, _ => CHUNK), slots, id, 0);
    hide Param, Cleaned;
    assert Named(slots[0], id, 0) && Seek(slots, id, 0) == 0;
  }

  // ----- Writing a value, chunk by chunk -----

  /** Bytes 8n..8n+7 of a value, zero-padded at its end. */
  function Chunk(value: seq<byte>, n: nat): (r: seq<byte>)
    ensures |r| == CHUNK
  {
    seq(CHUNK, k requires 0 <= k < CHUNK => if 8 * n + k < |value| then value[8 * n + k] else 0)
  }

  /** The slot that chunk n of the value is written as. */
  function Piece(id: nat, kind: KvType, value: seq<byte>, n: byte): (r: Slot)
    requires id <= 0xffffffff
    ensures Named(r, id, n) && TypeOf(r) == kind && DataOf(r) == Chunk(value, n)
  {
    Param(id, kind, n, Chunk(value, n))
  }

  function Free(slots: seq<Slot>): nat {
    if slots == [] then 0
    else Free(slots[..|slots| - 1]) + if IdOf(slots[|slots| - 1]) == EMPTY_ID then 1 else 0
  }

  /** How many of the first m chunks of a parameter are not stored. */
  function Missing(slots: seq<Slot>, id: nat, m: nat): nat
    requires m <= 32
  {
    if m == 0 then 0 else Missing(slots, id, m - 1) + if Lookup(slots, id, m - 1).None? then 1 else 0
  }

  /** The first m chunks of parameter id are those of `value`, and every other chunk, of this or
      any other parameter, is as it was in `slots0`. */
  ghost predicate Prefix(slots0: seq<Slot>, slots: seq<Slot>, id: nat, kind: KvType, value: seq<byte>, m: nat) {
    && id < EMPTY_ID && m <= 32
    && forall id': nat, n: byte {:trigger Lookup(slots, id', n)} | id' != EMPTY_ID ::
         Lookup(slots, id', n) == if id' == id && n < m then Some(Piece(id, kind, value, n)) else Lookup(slots0, id', n)
  }

  /** The same, with no chunk stored twice and only the missing ones having taken a slot. */
  ghost predicate Reached(slots0: seq<Slot>, slots: seq<Slot>, id: nat, kind: KvType, value: seq<byte>, m: nat) {
    && Prefix(slots0, slots, id, kind, value, m) && |slots| == |slots0| && Unique(slots)
    && Free(slots) + Missing(slots0, id, m) == Free(slots0)
  }

  /** The slots after one chunk: the new slot is filled first, then the old one is erased. */
  function WithPiece(slots: seq<Slot>, p: Slot): (r: seq<Slot>)
    requires FirstEmpty(slots) >= 0
    ensures |r| == |slots|
  {
    var o := Seek(slots, IdOf(p), NumberOf(p));
    var added := slots[FirstEmpty(slots) := p];
    if o < 0 then added else added[o := Erased()]
  }

  lemma {:induction false} FreeUpdate(slots: seq<Slot>, i: nat, s: Slot)
    requires i < |slots|
    ensures Free(slots[i := s])
            == Free(slots) - (if IdOf(slots[i]) == EMPTY_ID then 1 else 0) + if IdOf(s) == EMPTY_ID then 1 else 0
  {
    hide Word;
    var u := slots[i := s];
    if i == |slots| - 1 {
      assert u[..i] == slots[..i];
    } else {
      assert u[..|u| - 1] == slots[..|slots| - 1][i := s];
      FreeUpdate(slots[..|slots| - 1], i, s);
    }
  }

  lemma FreeNone(slots: seq<Slot>)
    ensures Free(slots) == 0 <==> FirstEmpty(slots) < 0
  {
    hide Word;
    var i := FirstEmpty(slots);
    if i >= 0 {
      FreePositive(slots, i);
    } else {
      FreeZero(slots);
    }
  }

  lemma {:induction false} FreePositive(slots: seq<Slot>, i: nat)
    requires i < |slots| && IdOf(slots[i]) == EMPTY_ID
    ensures Free(slots) > 0
  {
    hide Word;
    if i < |slots| - 1 {
      FreePositive(slots[..|slots| - 1], i);
    }
  }

  lemma {:induction false} FreeZero(slots: seq<Slot>)
    requires forall i :: 0 <= i < |slots| ==> IdOf(slots[i]) != EMPTY_ID
    ensures Free(slots) == 0
  {
    hide Word;
    if slots != [] {
      FreeZero(slots[..|slots| - 1]);
    }
  }

  /** A slot whose old and new contents go by other names does not matter to a lookup. */
  lemma LookupFrame(slots: seq<Slot>, i: nat, s: Slot, id: nat, n: byte)
    requires i < |slots| && !Named(slots[i], id, n) && !Named(s, id, n)
    ensures Seek(slots[i := s], id, n) == Seek(slots, id, n)
  {
    hide Named, Word;
    var a, b := Seek(slots, id, n), Seek(slots[i := s], id, n);
    if a >= 0 {
      assert Named(slots[i := s][a], id, n);
    }
    if b >= 0 {
      assert Named(slots[b], id, n);
    }
  }

  /** Where a name occurs in a unique image. */
  lemma OnlyAt(slots: seq<Slot>, id: nat, n: byte, i: nat)
    requires Unique(slots) && i < |slots| && id != EMPTY_ID && Named(slots[i], id, n)
    ensures Seek(slots, id, n) == i
  {
    hide Word;
    assert Named(slots[Seek(slots, id, n)], IdOf(slots[i]), NumberOf(slots[i]));
  }

  lemma NotElsewhere(slots: seq<Slot>, id: nat, n: byte, j: nat)
    requires Unique(slots) && j < |slots| && id != EMPTY_ID && j != Seek(slots, id, n)
    ensures !Named(slots[j], id, n)
  {
    hide Word;
  }

  lemma WithPieceUnique(slots: seq<Slot>, p: Slot)
    requires Unique(slots) && FirstEmpty(slots) >= 0 && IdOf(p) != EMPTY_ID
    ensures Unique(WithPiece(slots, p))
  {
    hide Word;
    ErasedIsEmpty();
    var e, o, r := FirstEmpty(slots), Seek(slots, IdOf(p), NumberOf(p)), WithPiece(slots, p);
    forall j | 0 <= j < |slots| && j != e && j != o ensures !Named(r[j], IdOf(p), NumberOf(p)) {
      NotElsewhere(slots, IdOf(p), NumberOf(p), j);
    }
  }

  lemma WithPieceLookup(slots: seq<Slot>, p: Slot, id: nat, n: byte)
    requires Unique(slots) && FirstEmpty(slots) >= 0 && IdOf(p) != EMPTY_ID && id != EMPTY_ID
    ensures Lookup(WithPiece(slots, p), id, n) == if Named(p, id, n) then Some(p) else Lookup(slots, id, n)
  {
    hide Word;
    ErasedIsEmpty();
    WithPieceUnique(slots, p);
    var e, o, r := FirstEmpty(slots), Seek(slots, IdOf(p), NumberOf(p)), WithPiece(slots, p);
    if Named(p, id, n) {
      OnlyAt(r, id, n, e);
    } else {
      LookupFrame(slots, e, p, id, n);
      if o >= 0 {
        LookupFrame(slots[e := p], o, Erased(), id, n);
      }
    }
  }

  /** One more chunk, whether it was stored before or not. */
  lemma PieceReached(slots0: seq<Slot>, slots: seq<Slot>, id: nat, kind: KvType, value: seq<byte>, m: nat)
    requires Reached(slots0, slots, id, kind, value, m) && m < 32 && FirstEmpty(slots) >= 0
    ensures Reached(slots0, WithPiece(slots, Piece(id, kind, value, m)), id, kind, value, m + 1)
  {
    hide Word, Unique, Free, Param, Lookup;
    var p := Piece(id, kind, value, m);
    var e, o, r := FirstEmpty(slots), Seek(slots, id, m), WithPiece(slots, p);
    WithPieceUnique(slots, p);
    forall id': nat, n: byte | id' != EMPTY_ID
      ensures Lookup(r, id', n) == if id' == id && n < m + 1 then Some(Piece(id, kind, value, n))
              else Lookup(slots0, id', n)
    {
      WithPieceLookup(slots, p, id', n);
      assert Lookup(slots, id', n) == if id' == id && n < m then Some(Piece(id, kind, value, n))
             else Lookup(slots0, id', n);
    }
    ErasedIsEmpty();
    FreeUpdate(slots, e, p);
    if o >= 0 {
      FreeUpdate(slots[e := p], o, Erased());
    }
    SeekLookup(slots, id, m);
    assert Lookup(slots, id, m) == Lookup(slots0, id, m);
  }

  lemma SeekLookup(slots: seq<Slot>, id: nat, n: byte)
    ensures Lookup(slots, id, n).None? <==> Seek(slots, id, n) < 0
    ensures Seek(slots, id, n) >= 0 ==> Lookup(slots, id, n).value == slots[Seek(slots, id, n)]
  {
  }

  /** A chunk that is stored already costs nothing. */
  lemma SameReached(slots0: seq<Slot>, slots: seq<Slot>, id: nat, kind: KvType, value: seq<byte>, m: nat)
    requires Reached(slots0, slots, id, kind, value, m) && m < 32
             && Lookup(slots, id, m) == Some(Piece(id, kind, value, m))
    ensures Reached(slots0, slots, id, kind, value, m + 1)
  {
    hide Word, Unique, Free, Param, Lookup, Piece;
    assert Lookup(slots, id, m) == Lookup(slots0, id, m);
    forall id': nat, n: byte | id' != EMPTY_ID
      ensures Lookup(slots, id', n) == if id' == id && n < m + 1 then Some(Piece(id, kind, value, n))
              else Lookup(slots0, id', n)
    {
    }
  }

  /** There is a free slot for each of the first n chunks that has to be written. */
  ghost predicate Fits(slots: seq<Slot>, id: nat, kind: KvType, value: seq<byte>, n: nat)
    requires id < EMPTY_ID && n <= 32
  {
    forall j: nat {:trigger Missing(slots, id, j)} | j < n && Lookup(slots, id, j) != Some(Piece(id, kind, value, j)) ::
      Free(slots) > Missing(slots, id, j)
  }

  lemma FitsNone(slots: seq<Slot>, id: nat, kind: KvType, value: seq<byte>)
    requires id < EMPTY_ID
    ensures Fits(slots, id, kind, value, 0)
  {
  }

  lemma ReachedNone(slots: seq<Slot>, id: nat, kind: KvType, value: seq<byte>)
    requires Unique(slots) && id < EMPTY_ID
    ensures Reached(slots, slots, id, kind, value, 0)
  {
  }

  /** A chunk that had to be written found a free slot if it fitted, and otherwise not. */
  lemma FitsFound(slots0: seq<Slot>, slots: seq<Slot>, id: nat, kind: KvType, value: seq<byte>, m: nat)
    requires Reached(slots0, slots, id, kind, value, m) && m < 32
    ensures Lookup(slots, id, m) == Lookup(slots0, id, m)
    ensures FirstEmpty(slots) >= 0 <==> Free(slots0) > Missing(slots0, id, m)
  {
    hide Word;
    FreeNone(slots);
    assert Lookup(slots, id, m) == Lookup(slots0, id, m);
  }

  /** The next chunk fits when it is stored already or a slot is free; if not, nothing longer fits. */
  lemma FitsNext(slots0: seq<Slot>, slots: seq<Slot>, id: nat, kind: KvType, value: seq<byte>, m: nat)
    requires Reached(slots0, slots, id, kind, value, m) && m < 32 && Fits(slots0, id, kind, value, m)
    ensures var fits := Lookup(slots, id, m) == Some(Piece(id, kind, value, m)) || FirstEmpty(slots) >= 0;
            && (fits ==> Fits(slots0, id, kind, value, m + 1))
            && (!fits ==> forall n: nat | m < n <= 32 :: !Fits(slots0, id, kind, value, n))
  {
    FitsFound(slots0, slots, id, kind, value, m);
    hide Reached, Lookup, Missing, Free, Piece, FirstEmpty;
    if Lookup(slots, id, m) != Some(Piece(id, kind, value, m)) && FirstEmpty(slots) < 0 {
      assert !(Free(slots0) > Missing(slots0, id, m));
    }
  }

  // ----- Power cuts -----

  /** A slot whose erase, from the front, has got as far as k bytes. */
  function Erasing(s: Slot, k: nat): (r: Slot)
    requires k <= SLOT_BYTES
  {
    Ones(k) + s[k..]
  }

  /** A slot that p is being written over: bytes 1 to k are done, and byte 0 comes last. */
  function Writing(s: Slot, p: Slot, k: nat): (r: Slot)
    requires k <= SLOT_BYTES
  {
    if k == SLOT_BYTES then p else [s[0]] + p[1..k + 1] + s[k + 1..]
  }

  /** No registered key is spelled like this id half-written: its first byte, which is written
      last and erased first, still or already 0xff, and any of the others too. */
  ghost predicate TornSafe(reg: Registry, id: seq<byte>)
    requires |id| == 4
  {
    forall w: seq<byte> {:trigger Word(w)} |
      |w| == 4 && w[0] == 0xff && (forall k :: 1 <= k < 4 ==> w[k] == 0xff || w[k] == id[k]) :: reg.kind(Word(w)).None?
  }

  lemma ErasingTorn(reg: Registry, s: Slot, k: nat)
    requires 0 < k <= SLOT_BYTES && TornSafe(reg, s[..4])
    ensures reg.kind(IdOf(Erasing(s, k))).None?
  {
    hide Word;
    assert Erasing(s, k)[..4][0] == 0xff;
  }

  lemma WritingTorn(reg: Registry, s: Slot, p: Slot, k: nat)
    requires k < SLOT_BYTES && TornSafe(reg, p[..4]) && IdOf(s) == EMPTY_ID
    ensures reg.kind(IdOf(Writing(s, p, k))).None?
  {
    assert Word(Ones(4)) == EMPTY_ID;
    WordUnique(s[..4], Ones(4));
    hide Word;
    var w, id := Writing(s, p, k)[..4], p[..4];
    forall j | 0 <= j < 4 ensures w[j] == 0xff || (j > 0 && w[j] == id[j]) {
      assert s[j] == s[..4][j] == 0xff;
    }
    assert Word(w) == IdOf(Writing(s, p, k));
  }

  /** Somewhere between `slots` and the same with p written: nothing done yet, the new slot torn,
      or the new slot complete and the old one, if there is one, torn. */
  ghost predicate Between(slots: seq<Slot>, s: seq<Slot>, p: Slot) {
    var e, o := FirstEmpty(slots), Seek(slots, IdOf(p), NumberOf(p));
    || s == slots
    || (e >= 0 && exists k {:trigger Writing(slots[e], p, k)} ::
        0 <= k <= SLOT_BYTES && s == slots[e := Writing(slots[e], p, k)])
    || (e >= 0 && o >= 0 && exists k {:trigger Erasing(slots[o], k)} ::
          0 < k <= SLOT_BYTES && s == slots[e := p][o := Erasing(slots[o], k)])
  }

  /** A slot that no registered key has makes no difference to what the cleaner leaves. */
  lemma CleanedTorn(reg: Registry, slots: seq<Slot>, i: nat, t: Slot, id: nat, n: byte)
    requires i < |slots| && id != EMPTY_ID && !Named(slots[i], id, n) && reg.kind(IdOf(t)).None?
    ensures Lookup(Cleaned(reg, slots[i := t]), id, n) == Lookup(Cleaned(reg, slots), id, n)
  {
    hide Word, Cleaned;
    CleanedLookup(reg, slots, id, n);
    CleanedLookup(reg, slots[i := t], id, n);
    if reg.kind(id).Some? {
      LookupFrame(slots, i, t, id, n);
    }
  }

  /** Cut anywhere in the writing of one chunk and clean: that chunk is the new one or as it was
      before, and all others are as they were. */
  lemma CutLookup(reg: Registry, slots: seq<Slot>, s: seq<Slot>, p: Slot, id: nat, n: byte)
    requires Clean(reg, slots) && Good(reg, p) && TornSafe(reg, p[..4]) && Between(slots, s, p)
             && reg.kind(EMPTY_ID).None?
    requires id != EMPTY_ID
    ensures var l := Lookup(Cleaned(reg, s), id, n);
            l == Lookup(slots, id, n) || (Named(p, id, n) && l == Some(p))
  {
    assert IdOf(p) != EMPTY_ID;
    hide Word, Clean, Cleaned, Good, Seek;
    CleanStays(reg, slots);
    var e, o := FirstEmpty(slots), Seek(slots, IdOf(p), NumberOf(p));
    if s == slots {
    } else if k :| e >= 0 && 0 <= k <= SLOT_BYTES && s == slots[e := Writing(slots[e], p, k)] {
      if k < SLOT_BYTES {
        WritingTorn(reg, slots[e], p, k);
        CleanedTorn(reg, slots, e, s[e], id, n);
      } else {
        CutBoth(reg, slots, p, id, n);
      }
    } else {
      var k :| 0 < k <= SLOT_BYTES && s == slots[e := p][o := Erasing(slots[o], k)];
      CutErase(reg, slots, p, k, id, n);
    }
  }

  /** Why the half-written ids matter: with the first byte of 0x04030201 still erased, the slot goes
      by 0x040302ff, and if that is a registered key too, it gets a value nobody has stored. */
  lemma TornAppears(data: seq<byte>)
    requires |data| == CHUNK
    ensures var id, other := 0x04030201, 0x040302ff;
            var reg := Registry(k => if k == id || k == other then Some(1) else None, _ => CHUNK);
            var p, slots := Param(id, 1, 0, data), [Erased()];
            var s := [Writing(Erased(), p, SLOT_BYTES - 1)];
            && Clean(reg, slots) && Between(slots, s, p) && Lookup(slots, other, 0) == None
            && Lookup(Cleaned(reg, s), other, 0) == Some(Param(other, 1, 0, data))
  {
    var id, other := 0x04030201, 0x040302ff;
    var reg := Registry(k => if k == id || k == other then Some(1) else None, _ => CHUNK);
    var p, slots, torn := Param(id, 1, 0, data), [Erased()], Writing(Erased(), Param(id, 1, 0, data), SLOT_BYTES - 1);
    ErasedIsEmpty();
    assert WordBytes(id) == [1, 2, 3, 4] && WordBytes(other) == [0xff, 2, 3, 4];
    assert torn == Param(other, 1, 0, data);
    hide Word, WordBytes, Param, Writing;
    assert FirstEmpty(slots) == 0;
    assert slots[0 := torn] == [torn];
    assert Named(torn, other, 0) && Seek([torn], other, 0) == 0;
    CleanedLookup(reg, [torn], other, 0);
  }

  /** New and old copy are both there: the cleaner keeps the lower one. */
  lemma CutBoth(reg: Registry, slots: seq<Slot>, p: Slot, id: nat, n: byte)
    requires Clean(reg, slots) && Good(reg, p) && FirstEmpty(slots) >= 0 && id != EMPTY_ID && IdOf(p) != EMPTY_ID
    ensures var l := Lookup(Cleaned(reg, slots[FirstEmpty(slots) := p]), id, n);
            l == Lookup(slots, id, n) || (Named(p, id, n) && l == Some(p))
  {
    hide Word, Cleaned, Good;
    var e := FirstEmpty(slots);
    var s := slots[e := p];
    CleanedLookup(reg, s, id, n);
    if Named(p, id, n) {
      assert Named(s[e], id, n);
      var i := Seek(s, id, n);
      if i != e {
        assert Named(slots[i], id, n);
        OnlyAt(slots, id, n, i);
      }
    } else {
      LookupFrame(slots, e, p, id, n);
    }
  }

  /** The new copy is there and the old one is on its way out. */
  lemma CutErase(reg: Registry, slots: seq<Slot>, p: Slot, k: nat, id: nat, n: byte)
    requires Clean(reg, slots) && Good(reg, p) && TornSafe(reg, p[..4]) && id != EMPTY_ID && IdOf(p) != EMPTY_ID
    requires FirstEmpty(slots) >= 0 && Seek(slots, IdOf(p), NumberOf(p)) >= 0 && 0 < k <= SLOT_BYTES
    ensures var o := Seek(slots, IdOf(p), NumberOf(p));
            Lookup(Cleaned(reg, slots[FirstEmpty(slots) := p][o := Erasing(slots[o], k)]), id, n)
            == if Named(p, id, n) then Some(p) else Lookup(slots, id, n)
  {
    var e, o := FirstEmpty(slots), Seek(slots, IdOf(p), NumberOf(p));
    var t := Erasing(slots[o], k);
    var s := slots[e := p][o := t];
    WordUnique(slots[o][..4], p[..4]);
    ErasingTorn(reg, slots[o], k);
    hide Word, Cleaned, BlocksFor;
    CleanedLookup(reg, s, id, n);
    if Named(p, id, n) {
      assert Named(s[e], id, n);
      forall j | 0 <= j < |s| && j != e && j != o ensures !Named(s[j], id, n) {
        NotElsewhere(slots, id, n, j);
      }
    } else if reg.kind(id).Some? {
      LookupFrame(slots, e, p, id, n);
      LookupFrame(slots[e := p], o, t, id, n);
    }
  }

  lemma PieceGood(reg: Registry, id: nat, kind: KvType, value: seq<byte>, n: byte)
    requires id < EMPTY_ID && reg.kind(id) == Some(kind) && n < BlocksFor(reg.size(kind))
    ensures Good(reg, Piece(id, kind, value, n))
  {
  }

  lemma ReachedClean(reg: Registry, slots0: seq<Slot>, slots: seq<Slot>, id: nat, kind: KvType, value: seq<byte>,
                     m: nat)
    requires Clean(reg, slots0) && Reached(slots0, slots, id, kind, value, m)
    requires reg.kind(id) == Some(kind) && m <= BlocksFor(reg.size(kind))
    ensures Clean(reg, slots)
  {
    hide Word, Good, Free, Missing, Piece;
    forall i | 0 <= i < |slots| && IdOf(slots[i]) != EMPTY_ID ensures Good(reg, slots[i]) {
      var id', n := IdOf(slots[i]), NumberOf(slots[i]);
      OnlyAt(slots, id', n, i);
      assert Lookup(slots, id', n) == Some(slots[i]);
      if id' == id && n < m {
        PieceGood(reg, id, kind, value, n);
      } else {
        assert slots0[Seek(slots0, id', n)] == slots[i];
      }
    }
  }

  /** The supply fails anywhere in the writing of chunk m; the cleaner runs at the next boot.  The
      first m or the first m + 1 chunks are new, the rest are old, and nothing else is different. */
  lemma CutPrefix(reg: Registry, slots0: seq<Slot>, slots: seq<Slot>, s: seq<Slot>, id: nat, kind: KvType,
                  value: seq<byte>, m: nat)
    requires Clean(reg, slots0) && Reached(slots0, slots, id, kind, value, m) && reg.kind(EMPTY_ID).None?
    requires reg.kind(id) == Some(kind) && m < BlocksFor(reg.size(kind)) && TornSafe(reg, WordBytes(id))
    requires Between(slots, s, Piece(id, kind, value, m))
    ensures Clean(reg, Cleaned(reg, s))
    ensures Prefix(slots0, Cleaned(reg, s), id, kind, value, m)
            || Prefix(slots0, Cleaned(reg, s), id, kind, value, m + 1)
  {
    var p := Piece(id, kind, value, m);
    assert p[..4] == WordBytes(id);
    hide Word, WordBytes, Good, Free, Missing, Piece, Lookup, Cleaned, Clean, Between, TornSafe;
    ReachedClean(reg, slots0, slots, id, kind, value, m);
    PieceGood(reg, id, kind, value, m);
    CleanedIsClean(reg, s);
    var c := Cleaned(reg, s);
    var m' := if Lookup(c, id, m) == Some(p) then m + 1 else m;
    forall id': nat, n: byte | id' != EMPTY_ID
      ensures Lookup(c, id', n) == if id' == id && n < m' then Some(Piece(id, kind, value, n))
              else Lookup(slots0, id', n)
    {
      CutLookup(reg, slots, s, p, id', n);
      assert Lookup(slots, id', n) == if id' == id && n < m then Some(Piece(id, kind, value, n))
             else Lookup(slots0, id', n);
    }
  }

  // ----- Interrupting the cleaner -----

  /** An image on the way from `slots` to what the cleaner makes of it: some slots that do not
      survive are erased or torn, the lowest of a name only when all its other copies are gone. */
  ghost predicate Resumable(reg: Registry, slots: seq<Slot>, cur: seq<Slot>) {
    && |cur| == |slots|
    && (forall k :: 0 <= k < |slots| ==>
        cur[k] == slots[k] || (!Survives(reg, slots, k) && reg.kind(IdOf(cur[k])).None?))
    && forall k, j | 0 <= k < |slots| && 0 <= j < |slots| && cur[k] != slots[k] && IdOf(slots[k]) != EMPTY_ID
         && Seek(slots, IdOf(slots[k]), NumberOf(slots[k])) == k
            && Named(slots[j], IdOf(slots[k]), NumberOf(slots[k])) ::
         cur[j] != slots[j]
  }

  lemma ResumableSurvives(reg: Registry, slots: seq<Slot>, cur: seq<Slot>, k: nat)
    requires Resumable(reg, slots, cur) && k < |slots|
    ensures Survives(reg, cur, k) <==> Survives(reg, slots, k)
    ensures Survives(reg, cur, k) ==> cur[k] == slots[k]
  {
    hide Word, BlocksFor;
    if Survives(reg, cur, k) {
      var id, n := IdOf(cur[k]), NumberOf(cur[k]);
      var k0 := Seek(slots, id, n);
      assert Named(slots[k], id, n);
      if k0 < k {
        assert false;
      }
    }
    if Survives(reg, slots, k) {
      var id, n := IdOf(slots[k]), NumberOf(slots[k]);
      assert Named(cur[k], id, n);
      var j := Seek(cur, id, n);
      assert cur[j] == slots[j];
    }
  }

  lemma SameWhereUsed(a: seq<Slot>, b: seq<Slot>, id: nat, n: byte)
    requires |a| == |b| && id != EMPTY_ID
    requires forall k :: 0 <= k < |a| ==> a[k] == b[k] || IdOf(a[k]) == IdOf(b[k]) == EMPTY_ID
    ensures Lookup(a, id, n) == Lookup(b, id, n)
  {
    hide Word;
    var i, j := Seek(a, id, n), Seek(b, id, n);
    if i >= 0 {
      assert Named(b[i], id, n);
    }
    if j >= 0 {
      assert Named(a[j], id, n);
    }
  }

  /** Cleaning an interrupted cleaning ends up with the same chunks. */
  lemma ResumedSame(reg: Registry, slots: seq<Slot>, cur: seq<Slot>, id: nat, n: byte)
    requires Resumable(reg, slots, cur) && id != EMPTY_ID
    ensures Lookup(Cleaned(reg, cur), id, n) == Lookup(Cleaned(reg, slots), id, n)
  {
    ErasedIsEmpty();
    forall k | 0 <= k < |slots|
      ensures || Cleaned(reg, cur)[k] == Cleaned(reg, slots)[k]
              || IdOf(Cleaned(reg, cur)[k]) == IdOf(Cleaned(reg, slots)[k]) == EMPTY_ID
    {
      hide Word, Named, Good;
      ResumableSurvives(reg, slots, cur, k);
    }
    hide Word;
    SameWhereUsed(Cleaned(reg, cur), Cleaned(reg, slots), id, n);
  }

  /** Erasing one more slot, as far as it gets: one that does not survive, and that is the lowest of
      its name only if the others are gone. */
  lemma EraseResumable(reg: Registry, slots: seq<Slot>, cur: seq<Slot>, x: nat, k: nat)
    requires Resumable(reg, slots, cur) && x < |slots| && k <= SLOT_BYTES
    requires cur[x] == slots[x] && !Survives(reg, slots, x) && TornSafe(reg, slots[x][..4])
    requires Seek(slots, IdOf(slots[x]), NumberOf(slots[x])) == x ==>
               forall j :: 0 <= j < |slots| && j != x && Named(slots[j], IdOf(slots[x]), NumberOf(slots[x])) ==>
                   cur[j] != slots[j]
    ensures Resumable(reg, slots, cur[x := Erasing(cur[x], k)])
  {
    hide Word, Survives, Seek, TornSafe;
    if k == 0 {
      assert Erasing(cur[x], k) == cur[x];
    } else {
      ErasingTorn(reg, slots[x], k);
    }
  }

  ghost predicate AllSafe(reg: Registry, slots: seq<Slot>) {
    forall i :: 0 <= i < |slots| ==> TornSafe(reg, slots[i][..4])
  }

  lemma ErasingSafe(reg: Registry, s: Slot, k: nat)
    requires TornSafe(reg, s[..4]) && k <= SLOT_BYTES
    ensures TornSafe(reg, Erasing(s, k)[..4])
  {
    hide Word;
  }

  /** Slot k when the cleaner has done slots below i and looks for copies of slot i below j. */
  function Halfway(reg: Registry, slots: seq<Slot>, i: nat, j: nat, k: nat): Slot
    requires k < |slots|
  {
    var first := Seek(slots, IdOf(slots[k]), NumberOf(slots[k]));
    if IdOf(slots[k]) == EMPTY_ID then slots[k]
    else if k < i then Cleaned(reg, slots)[k]
    else if first < i || (first == i && k != i && k < j) then Erased()
    else slots[k]
  }

  ghost predicate HalfClean(reg: Registry, slots: seq<Slot>, cur: seq<Slot>, i: nat, j: nat) {
    |cur| == |slots| && forall k :: 0 <= k < |slots| ==> cur[k] == Halfway(reg, slots, i, j, k)
  }

  /** The slot the cleaner has come to, if it still holds anything, is the lowest of its name. */
  lemma HalfwayLowest(reg: Registry, slots: seq<Slot>, cur: seq<Slot>, i: nat, j: nat)
    requires HalfClean(reg, slots, cur, i, j) && i < |slots| && IdOf(cur[i]) != EMPTY_ID
    ensures cur[i] == slots[i] && Seek(slots, IdOf(cur[i]), NumberOf(cur[i])) == i
  {
    hide Word, Good;
    ErasedIsEmpty();
    assert cur[i] == Halfway(reg, slots, i, j, i);
    assert Named(slots[i], IdOf(slots[i]), NumberOf(slots[i]));
  }

  lemma HalfwayEmpty(reg: Registry, slots: seq<Slot>, cur: seq<Slot>, i: nat)
    requires HalfClean(reg, slots, cur, i, 0) && i < |slots| && IdOf(cur[i]) == EMPTY_ID
    ensures HalfClean(reg, slots, cur, i + 1, 0)
  {
    hide Word, Good;
    ErasedIsEmpty();
    assert cur[i] == Halfway(reg, slots, i, 0, i);
    forall k | 0 <= k < |slots| ensures cur[k] == Halfway(reg, slots, i + 1, 0, k) {
      assert cur[k] == Halfway(reg, slots, i, 0, k);
      if k > i && Seek(slots, IdOf(slots[k]), NumberOf(slots[k])) == i {
        assert Named(slots[i], IdOf(slots[k]), NumberOf(slots[k]));
      }
    }
  }

  /** A look at slot j: a copy of slot i is erased, and anything else left. */
  lemma HalfwayCopy(reg: Registry, slots: seq<Slot>, cur: seq<Slot>, i: nat, j: nat)
    requires HalfClean(reg, slots, cur, i, j) && i < |slots| && IdOf(cur[i]) != EMPTY_ID && j < |slots|
    ensures j == i ==> HalfClean(reg, slots, cur, i, j + 1)
    ensures j != i && !Named(cur[j], IdOf(cur[i]), NumberOf(cur[i])) ==> HalfClean(reg, slots, cur, i, j + 1)
    ensures j != i && Named(cur[j], IdOf(cur[i]), NumberOf(cur[i])) ==>
              && HalfClean(reg, slots, cur[j := Erased()], i, j + 1)
              && cur[j] == slots[j] && !Survives(reg, slots, j) && Seek(slots, IdOf(slots[j]), NumberOf(slots[j])) != j
  {
    hide Word, Good;
    ErasedIsEmpty();
    HalfwayLowest(reg, slots, cur, i, j);
    assert cur[j] == Halfway(reg, slots, i, j, j);
    forall k | 0 <= k < |slots| && k != j ensures cur[k] == Halfway(reg, slots, i, j + 1, k) {
      assert cur[k] == Halfway(reg, slots, i, j, k);
    }
  }

  /** Slot i itself goes unless it is good; by then it is the only one of its name. */
  lemma HalfwayDone(reg: Registry, slots: seq<Slot>, cur: seq<Slot>, i: nat)
    requires HalfClean(reg, slots, cur, i, |slots|) && i < |slots| && IdOf(cur[i]) != EMPTY_ID
    ensures Good(reg, cur[i]) ==> HalfClean(reg, slots, cur, i + 1, 0)
    ensures !Good(reg, cur[i]) ==>
              && HalfClean(reg, slots, cur[i := Erased()], i + 1, 0) && cur[i] == slots[i] && !Survives(reg, slots, i)
              && forall k :: 0 <= k < |slots| && k != i && Named(slots[k], IdOf(slots[i]), NumberOf(slots[i])) ==>
                   cur[k] != slots[k]
  {
    hide Word, Good;
    ErasedIsEmpty();
    HalfwayLowest(reg, slots, cur, i, |slots|);
    var cur' := if Good(reg, cur[i]) then cur else cur[i := Erased()];
    forall k | 0 <= k < |slots| ensures cur'[k] == Halfway(reg, slots, i + 1, 0, k) {
      assert cur[k] == Halfway(reg, slots, i, |slots|, k);
    }
    forall k | 0 <= k < |slots| && k != i && Named(slots[k], IdOf(slots[i]), NumberOf(slots[i]))
      ensures cur[k] != slots[k] {
      assert cur[k] == Halfway(reg, slots, i, |slots|, k);
    }
  }

  lemma HalfwayEnd(reg: Registry, slots: seq<Slot>, cur: seq<Slot>)
    requires HalfClean(reg, slots, cur, |slots|, 0)
    ensures cur == Cleaned(reg, slots)
  {
    forall k | 0 <= k < |slots| ensures cur[k] == Cleaned(reg, slots)[k] {
      assert cur[k] == Halfway(reg, slots, |slots|, 0, k);
    }
  }

  // ----- Reading a value back -----

  /** The first n chunks as a read assembles them, zeros where one is missing. */
  function Chunks(slots: seq<Slot>, id: nat, n: nat): (r: seq<byte>)
    requires n <= 32
    ensures |r| == CHUNK * n
  {
    if n == 0 then []
    else
      var c := Lookup(slots, id, n - 1);
      Chunks(slots, id, n - 1) + if c.None? then seq(CHUNK, _ => 0) else DataOf(c.value)
  }

  /** What a read gives for a parameter of `len` bytes: zeros when its first chunk is missing, and
      otherwise as far as the chunks reach. */
  function ReadBack(slots: seq<Slot>, id: nat, len: nat): (r: seq<byte>)
    ensures len <= 255 ==> |r| == len
  {
    ChunksReach(len);
    if Lookup(slots, id, 0).None? then seq(len, _ => 0)
    else Chunks(slots, id, BlocksFor(len))[..if len < CHUNK * BlocksFor(len) then len else CHUNK * BlocksFor(len)]
  }

  /** The status that comes with it. */
  function ReadStatus(slots: seq<Slot>, id: nat): int {
    if Lookup(slots, id, 0).None? then -1 else 0
  }

  lemma {:induction false} ChunksStored(slots: seq<Slot>, id: nat, kind: KvType, value: seq<byte>, n: nat)
    requires id < EMPTY_ID && n <= 32 && forall k: nat | k < n ::
               Lookup(slots, id, k) == Some(Piece(id, kind, value, k))
    ensures Chunks(slots, id, n) == seq(CHUNK * n, k requires 0 <= k < CHUNK * n => if k < |value| then value[k] else 0)
  {
    hide Lookup, Param;
    if n > 0 {
      ChunksStored(slots, id, kind, value, n - 1);
      assert Lookup(slots, id, n - 1) == Some(Piece(id, kind, value, n - 1));
    }
  }

  /** A fully stored value reads back exactly when it has at most 255 bytes; of a longer one, as many
      bytes as its chunks reach. */
  lemma StoredReads(slots0: seq<Slot>, slots: seq<Slot>, id: nat, kind: KvType, value: seq<byte>)
    requires Prefix(slots0, slots, id, kind, value, BlocksFor(|value|))
    ensures ReadBack(slots, id, |value|) == value
       <==> |value| <= 255 || (BlocksFor(|value|) == 0 && Lookup(slots0, id, 0).None? && value == seq(|value|, _ => 0))
    ensures BlocksFor(|value|) > 0 ==>
              var n := CHUNK * BlocksFor(|value|);
              Lookup(slots, id, 0).Some? && ReadBack(slots, id, |value|) == if |value| < n then value else value[..n]
  {
    hide Lookup, Param;
    ChunksStored(slots, id, kind, value, BlocksFor(|value|));
    ChunksReach(|value|);
    if BlocksFor(|value|) > 0 {
      assert Lookup(slots, id, 0) == Some(Piece(id, kind, value, 0));
    } else {
      assert Lookup(slots, id, 0) == Lookup(slots0, id, 0);
    }
  }

  /** 512 erased bytes: none of them is stored, and whatever the image, they do not read back. */
  lemma LongIsLost(slots: seq<Slot>, id: nat, kind: KvType)
    requires id < EMPTY_ID
    ensures Prefix(slots, slots, id, kind, Ones(512), BlocksFor(512)) && ReadBack(slots, id, 512) != Ones(512)
  {
    StoredReads(slots, slots, id, kind, Ones(512));
    assert Ones(512)[0] == 0xff;
  }

  /** Another parameter reads as before. */
  lemma {:induction false} OthersRead(slots0: seq<Slot>, slots: seq<Slot>, id: nat, kind: KvType, value: seq<byte>,
                                      m: nat, id': nat, n: nat)
    requires Prefix(slots0, slots, id, kind, value, m) && id' != id && id' != EMPTY_ID && n <= 32
    ensures Chunks(slots, id', n) == Chunks(slots0, id', n) && Lookup(slots, id', 0) == Lookup(slots0, id', 0)
  {
    hide Lookup, Piece;
    if n > 0 {
      OthersRead(slots0, slots, id, kind, value, m, id', n - 1);
    }
  }

  /** A read of parameter id gives the same in both images, whatever its length. */
  ghost predicate ReadsSame(slots0: seq<Slot>, slots: seq<Slot>, id: nat) {
    && ReadStatus(slots, id) == ReadStatus(slots0, id)
    && forall len: nat :: ReadBack(slots, id, len) == ReadBack(slots0, id, len)
  }

  lemma OthersReadSame(slots0: seq<Slot>, slots: seq<Slot>, id: nat, kind: KvType, value: seq<byte>, m: nat)
    requires Prefix(slots0, slots, id, kind, value, m)
    ensures forall other: nat | other != id && other != EMPTY_ID :: ReadsSame(slots0, slots, other)
  {
    hide Prefix, Lookup, Chunks;
    forall other: nat | other != id && other != EMPTY_ID ensures ReadsSame(slots0, slots, other) {
      OthersRead(slots0, slots, id, kind, value, m, other, 0);
      forall len: nat ensures ReadBack(slots, other, len) == ReadBack(slots0, other, len) {
        OthersRead(slots0, slots, id, kind, value, m, other, BlocksFor(len));
      }
    }
  }

  /** After m new chunks a value reads as the new one up to byte 8m and as the old one from there. */
  lemma {:induction false} PrefixReads(slots0: seq<Slot>, slots: seq<Slot>, id: nat, kind: KvType, value: seq<byte>,
                                       m: nat, n: nat)
    requires Prefix(slots0, slots, id, kind, value, m) && n <= 32
    ensures forall k :: 0 <= k < CHUNK * n ==>
                          Chunks(slots, id, n)[k]
                          == if k >= CHUNK * m then Chunks(slots0, id, n)[k] else if k < |value| then value[k] else 0
  {
    hide Lookup, Param;
    if n > 0 {
      PrefixReads(slots0, slots, id, kind, value, m, n - 1);
      assert Lookup(slots, id, n - 1) == if n - 1 < m then Some(Piece(id, kind, value, n - 1))
             else Lookup(slots0, id, n - 1);
    }
  }

  /** `back` is the new value up to byte 8m and from there the old chunks, which are what was read
      before unless the first chunk was missing then.  With no chunk new it is the old value, and with
      all of them the new one; a value of one chunk is one of these. */
  ghost predicate PartNew(slots0: seq<Slot>, id: nat, value: seq<byte>, m: nat, back: seq<byte>) {
    var was, n := ReadBack(slots0, id, |value|), BlocksFor(|value|);
    && (m == 0 ==> back == was)
    && (m > 0 ==> |back| == if |value| < CHUNK * n then |value| else CHUNK * n)
    && (m > 0 ==> forall k :: 0 <= k < |back| ==>
          back[k] == if k < CHUNK * m then value[k] else Chunks(slots0, id, n)[k])
    && (Lookup(slots0, id, 0).Some? ==> |back| == |was| && forall k :: CHUNK * m <= k < |back| ==> back[k] == was[k])
    && (m == n && |value| <= 255 ==> back == value)
    && (|value| <= CHUNK ==> back == was || back == value)
  }

  lemma PartReads(slots0: seq<Slot>, slots: seq<Slot>, id: nat, kind: KvType, value: seq<byte>, m: nat)
    requires Prefix(slots0, slots, id, kind, value, m) && m <= BlocksFor(|value|)
    ensures PartNew(slots0, id, value, m, ReadBack(slots, id, |value|))
    ensures ReadStatus(slots, id) == if m > 0 then 0 else ReadStatus(slots0, id)
  {
    hide Lookup, Param;
    ChunksReach(|value|);
    PrefixReads(slots0, slots, id, kind, value, m, BlocksFor(|value|));
    assert Lookup(slots, id, 0) == if 0 < m then Some(Piece(id, kind, value, 0)) else Lookup(slots0, id, 0);
  }

  // ----- Erasing a parameter -----

  /** The chunks of parameter id may be erased, or torn, and nothing else is different. */
  ghost predicate PartErased(slots0: seq<Slot>, slots: seq<Slot>, id: nat) {
    && |slots| == |slots0|
    && forall i :: 0 <= i < |slots| ==>
                     || slots[i] == slots0[i]
                     || (IdOf(slots0[i]) == id && exists k {:trigger Erasing(slots0[i], k)} ::
                           0 <= k <= SLOT_BYTES && slots[i] == Erasing(slots0[i], k))
  }

  /** A parameter whose erasing was cut, after a cleaning: each of its chunks is whole or gone, and
      those of all others are as before. */
  lemma CutEraseReads(reg: Registry, slots0: seq<Slot>, slots: seq<Slot>, id: nat, id': nat, n: byte)
    requires Clean(reg, slots0) && AllSafe(reg, slots0) && PartErased(slots0, slots, id) && id' != EMPTY_ID
    ensures var l := Lookup(Cleaned(reg, slots), id', n);
            l == Lookup(slots0, id', n) || (id' == id && l == None)
  {
    hide Word, BlocksFor, Erasing, TornSafe, Cleaned;
    forall i | 0 <= i < |slots| && slots[i] != slots0[i] ensures reg.kind(IdOf(slots[i])).None? {
      var k :| 0 <= k <= SLOT_BYTES && slots[i] == Erasing(slots0[i], k);
      ErasingNone(slots0[i]);
      ErasingTorn(reg, slots0[i], k);
    }
    CleanedLookup(reg, slots, id', n);
    var o, i := Seek(slots0, id', n), Seek(slots, id', n);
    if i >= 0 && Good(reg, slots[i]) {
      assert slots[i] == slots0[i];
      OnlyAt(slots0, id', n, i);
    }
  }

  lemma ErasingNone(s: Slot)
    ensures Erasing(s, 0) == s
  {
  }

  // ----- Images that stay harmless when they are torn again -----

  lemma WritingSafe(reg: Registry, s: Slot, p: Slot, k: nat)
    requires TornSafe(reg, p[..4]) && IdOf(s) == EMPTY_ID && k <= SLOT_BYTES
    ensures TornSafe(reg, Writing(s, p, k)[..4])
  {
    assert Word(Ones(4)) == EMPTY_ID;
    WordUnique(s[..4], Ones(4));
    hide Word;
    assert forall j | 0 <= j < 4 :: s[j] == s[..4][j] == 0xff;
  }

  lemma EmptySafe(reg: Registry, s: Slot)
    requires IdOf(s) == EMPTY_ID && reg.kind(EMPTY_ID).None?
    ensures TornSafe(reg, s[..4])
  {
    assert Word(Ones(4)) == EMPTY_ID;
    WordUnique(s[..4], Ones(4));
    hide Word;
    forall w: seq<byte> | |w| == 4 && w[0] == 0xff && (forall k :: 1 <= k < 4 ==> w[k] == 0xff || w[k] == s[..4][k])
      ensures reg.kind(Word(w)).None?
    {
      assert w == Ones(4);
    }
  }

  lemma ReachedSafe(reg: Registry, slots0: seq<Slot>, slots: seq<Slot>, id: nat, kind: KvType, value: seq<byte>, m: nat)
    requires Reached(slots0, slots, id, kind, value, m) && AllSafe(reg, slots0) && TornSafe(reg, WordBytes(id))
    requires reg.kind(EMPTY_ID).None?
    ensures AllSafe(reg, slots)
  {
    hide Free, Missing, TornSafe, Word, WordBytes, Piece;
    forall i | 0 <= i < |slots| ensures TornSafe(reg, slots[i][..4]) {
      var id', n := IdOf(slots[i]), NumberOf(slots[i]);
      if id' == EMPTY_ID {
        EmptySafe(reg, slots[i]);
      } else {
        OnlyAt(slots, id', n, i);
        assert Lookup(slots, id', n) == Some(slots[i]);
        if id' == id && n < m {
          WordUnique(slots[i][..4], WordBytes(id));
        } else {
          assert slots0[Seek(slots0, id', n)] == slots[i];
        }
      }
    }
  }

  lemma BetweenSafe(reg: Registry, slots: seq<Slot>, s: seq<Slot>, p: Slot)
    requires AllSafe(reg, slots) && TornSafe(reg, p[..4]) && Between(slots, s, p)
    ensures AllSafe(reg, s)
  {
    hide TornSafe, Word, Seek, FirstEmpty, Erasing, Writing;
    var e, o := FirstEmpty(slots), Seek(slots, IdOf(p), NumberOf(p));
    if s == slots {
    } else if k :| e >= 0 && 0 <= k <= SLOT_BYTES && s == slots[e := Writing(slots[e], p, k)] {
      WritingSafe(reg, slots[e], p, k);
    } else {
      var k :| 0 < k <= SLOT_BYTES && s == slots[e := p][o := Erasing(slots[o], k)];
      ErasingSafe(reg, slots[o], k);
    }
  }

  /** Carrying the prefix over to an image with the same chunks. */
  lemma PrefixSame(slots0: seq<Slot>, a: seq<Slot>, b: seq<Slot>, id: nat, kind: KvType, value: seq<byte>, m: nat)
    requires Prefix(slots0, a, id, kind, value, m)
    requires forall id': nat, n: byte {:trigger Lookup(b, id', n)} | id' != EMPTY_ID ::
               Lookup(b, id', n) == Lookup(a, id', n)
    ensures Prefix(slots0, b, id, kind, value, m)
  {
    hide Lookup, Piece;
    forall id': nat, n: byte | id' != EMPTY_ID
      ensures Lookup(b, id', n) == if id' == id && n < m then Some(Piece(id, kind, value, n))
              else Lookup(slots0, id', n)
    {
      assert Lookup(b, id', n) == Lookup(a, id', n);
    }
  }
}
