/** The invariant of the whole store, over values: every file list holds its file, every free
    block is blank, every dirty block is marked so, and no block is lost.  Each lemma says that
    one kind of step keeps it. */
module FfsStore {
  import opened Bytes
  import opened Integers
  import opened FfsLayout
  import opened FfsLists
  import opened FfsIndex
  import opened FfsFile
  import opened FfsCost

  type Chains = seq<seq<int>>

  function FileList(chains: Chains, f: nat): seq<int>
    requires |chains| == LISTS && f < MAX_FILES
  {
    chains[FIRST_FILE + f]
  }

  predicate DirtyMarked(v: Block) {
    |v.meta| == META_SIZE && v.meta[OFF_FLAGS] < 0x80
  }

  /** File f: `size` is -1 when it does not exist.  While a file is `loose`, in the middle of a
      write, its list may have a block more than its bytes call for and its size may lag behind. */
  ghost predicate FileOk(views: seq<Block>, l: seq<int>, f: nat, size: int, raw: seq<byte>, loose: bool) {
    if size >= 0 then FileHolds(views, l, f, raw) && (loose || (size == |raw| && |l| == BlockCount(size)))
    else size == -1 && l == [] && raw == []
  }

  ghost predicate AllBlank(views: seq<Block>, l: seq<int>) {
    forall k :: 0 <= k < |l| ==> 0 <= l[k] < |views| && views[l[k]] == BlankBlock()
  }

  ghost predicate AllDirty(views: seq<Block>, l: seq<int>) {
    forall k :: 0 <= k < |l| ==> 0 <= l[k] < |views| && DirtyMarked(views[l[k]])
  }

  ghost predicate Stored(views: seq<Block>, chains: Chains, sizes: seq<int>, raws: seq<seq<byte>>, loose: int) {
    && |chains| == LISTS && |sizes| == MAX_FILES && |raws| == MAX_FILES
    && (forall f: nat :: f < MAX_FILES ==> FileOk(views, FileList(chains, f), f, sizes[f], raws[f], f == loose))
    && AllBlank(views, chains[FREE]) && AllDirty(views, chains[DIRTY])
  }

  /** Changing a block that is on none of these lists changes nothing about them. */
  lemma FrameBlock(views: seq<Block>, l: seq<int>, b: int, v: Block, f: nat, size: int, raw: seq<byte>, loose: bool)
    requires 0 <= b < |views| && b !in l
    ensures FileOk(views, l, f, size, raw, loose) ==> FileOk(views[b := v], l, f, size, raw, loose)
    ensures AllBlank(views, l) ==> AllBlank(views[b := v], l)
    ensures AllDirty(views, l) ==> AllDirty(views[b := v], l)
  {
  }

  /** A block on list i is on no other list. */
  lemma OnlyOn(chains: Chains, i: nat, k: nat, j: nat)
    requires Disjoint(chains) && i < |chains| && k < |chains[i]| && j < |chains| && j != i
    ensures chains[i][k] !in chains[j]
  {
    forall m | 0 <= m < |chains[j]| ensures chains[j][m] != chains[i][k] {
    }
  }

  /** `page` is the version of page p that a backward scan of the index finds. */
  ghost predicate IsCurrent(views: seq<Block>, l: seq<int>, p: nat, page: seq<byte>) {
    && p / DATA_PAGES < |l| && 0 <= l[p / DATA_PAGES] < |views|
    && views[l[p / DATA_PAGES]].Shaped()
    && Current(views[l[p / DATA_PAGES]], p % DATA_PAGES) == Some(page)
  }

  /** If the page cache names a page of an existing file, it is the current version of that page. */
  ghost predicate Coherent(views: seq<Block>, chains: Chains, sizes: seq<int>, raws: seq<seq<byte>>,
                           file: int, number: nat, page: seq<byte>) {
    0 <= file < |sizes| && |sizes| == |raws| == MAX_FILES && |chains| == LISTS && sizes[file] >= 0 ==>
      HasPage(raws[file], number) && IsCurrent(views, FileList(chains, file), number, page)
  }

  /** What the cache holds of page i of block k. */
  lemma CoherentHit(views: seq<Block>, chains: Chains, sizes: seq<int>, raws: seq<seq<byte>>, f: nat, k: nat, i: nat,
                    page: seq<byte>)
    requires Coherent(views, chains, sizes, raws, f, DATA_PAGES * k + i, page) && i < DATA_PAGES
    requires f < |sizes| == |raws| == MAX_FILES && |chains| == LISTS && sizes[f] >= 0
    ensures k < |FileList(chains, f)| && 0 <= FileList(chains, f)[k] < |views|
    ensures views[FileList(chains, f)[k]].Shaped() && Current(views[FileList(chains, f)[k]], i) == Some(page)
  {
    assert (DATA_PAGES * k + i) / DATA_PAGES == k && (DATA_PAGES * k + i) % DATA_PAGES == i;
    hide Current, HasPage;
  }

  /** A block on no list changes; a coherent page cache stays so. */
  lemma CoherentUnlisted(views: seq<Block>, chains: Chains, sizes: seq<int>, raws: seq<seq<byte>>,
                         file: int, number: nat, page: seq<byte>, b: int, v: Block)
    requires Coherent(views, chains, sizes, raws, file, number, page) && 0 <= b < |views| && !Listed(chains, b)
    ensures Coherent(views[b := v], chains, sizes, raws, file, number, page)
  {
    if 0 <= file < |sizes| && |sizes| == |raws| == MAX_FILES && |chains| == LISTS && sizes[file] >= 0 {
      assert chains[FIRST_FILE + file][number / DATA_PAGES] != b;
    }
  }

  /** A block that is on no list may change freely. */
  lemma UnlistedFrame(views: seq<Block>, chains: Chains, sizes: seq<int>, raws: seq<seq<byte>>, loose: int, b: int,
                      v: Block)
    requires Stored(views, chains, sizes, raws, loose) && 0 <= b < |views| && !Listed(chains, b)
    ensures Stored(views[b := v], chains, sizes, raws, loose)
  {
    forall i | 0 <= i < LISTS ensures b !in chains[i] {
      forall k | 0 <= k < |chains[i]| ensures chains[i][k] != b {
      }
    }
    forall f: nat | f < MAX_FILES
      ensures FileOk(views[b := v], FileList(chains, f), f, sizes[f], raws[f], f == loose)
    {
      FrameBlock(views, FileList(chains, f), b, v, f, sizes[f], raws[f], f == loose);
    }
    FrameBlock(views, chains[FREE], b, v, 0, 0, [], false);
    FrameBlock(views, chains[DIRTY], b, v, 0, 0, [], false);
  }

  /** A fresh block behind the last one of a file holds nothing of it yet. */
  lemma FileExtended(views: seq<Block>, l: seq<int>, f: nat, raw: seq<byte>, b: int, v: Block)
    requires FileHolds(views, l, f, raw) && 0 <= b < |views| && b !in l
    requires MetaIs(v.meta, f, |l|) && v.Shaped() && v.index == BlankBlock().index && v.slots == BlankBlock().slots
    ensures FileHolds(views[b := v], l + [b], f, raw)
  {
    BlankHolds(v, |l|, raw);
    var l', views' := l + [b], views[b := v];
    forall k | 0 <= k < |l'| ensures 0 <= l'[k] < |views'| && BlockHolds(views'[l'[k]], f, k, raw) {
      if k < |l| {
        assert l[k] != b && BlockHolds(views[l[k]], f, k, raw);
      }
    }
  }

  /** The first free block joins file f as its next block. */
  lemma AllocStored(views: seq<Block>, chains: Chains, sizes: seq<int>, raws: seq<seq<byte>>, f: nat, meta: seq<byte>)
    requires Stored(views, chains, sizes, raws, -1) && Disjoint(chains) && f < MAX_FILES && chains[FREE] != []
    requires MetaIs(meta, f, |FileList(chains, f)|)
    ensures var b := chains[FREE][0];
            && 0 <= b < |views|
            && var views' := views[b := views[b].(meta := meta)];
               var chains' := AfterAlloc(chains, f);
               && (sizes[f] >= 0 ==> Stored(views', chains', sizes, raws, f))
               && (sizes[f] < 0 ==> Stored(views', chains', sizes[f := 0], raws, -1))
  {
    var b := chains[FREE][0];
    var l := FileList(chains, f);
    var v := views[b].(meta := meta);
    var views' := views[b := v];
    var chains' := AfterAlloc(chains, f);
    var sizes' := if sizes[f] < 0 then sizes[f := 0] else sizes;
    var loose := if sizes[f] < 0 then -1 else f;
    forall g: nat | g < MAX_FILES
      ensures FileOk(views', FileList(chains', g), g, sizes'[g], raws[g], g == loose)
    {
      OnlyOn(chains, FREE, 0, FIRST_FILE + g);
      assert FileOk(views, FileList(chains, g), g, sizes[g], raws[g], false);
      if g == f {
        FileExtended(views, l, f, raws[f], b, v);
      } else {
        FrameBlock(views, FileList(chains, g), b, v, g, sizes[g], raws[g], false);
      }
    }
    AllocLists(views, chains, v);
  }

  /** A file that grows by a blank block keeps its current pages. */
  lemma CoherentAlloc(views: seq<Block>, chains: Chains, sizes: seq<int>, raws: seq<seq<byte>>,
                      file: int, number: nat, page: seq<byte>, f: nat, v: Block)
    requires |chains| == LISTS && Disjoint(chains) && f < MAX_FILES && chains[FREE] != []
             && 0 <= chains[FREE][0] < |views|
    requires Coherent(views, chains, sizes, raws, file, number, page)
    ensures Coherent(views[chains[FREE][0] := v], AfterAlloc(chains, f), sizes, raws, file, number, page)
  {
    if 0 <= file < |sizes| && |sizes| == |raws| == MAX_FILES && sizes[file] >= 0 {
      var j := number / DATA_PAGES;
      OnlyOn(chains, FREE, 0, FIRST_FILE + file);
      assert chains[FIRST_FILE + file][j] == FileList(AfterAlloc(chains, f), file)[j];
    }
  }

  lemma AllocLists(views: seq<Block>, chains: Chains, v: Block)
    requires |chains| == LISTS && Disjoint(chains) && chains[FREE] != []
    requires AllBlank(views, chains[FREE]) && AllDirty(views, chains[DIRTY])
    ensures AllBlank(views[chains[FREE][0] := v], chains[FREE][1..])
            && AllDirty(views[chains[FREE][0] := v], chains[DIRTY])
  {
    var views' := views[chains[FREE][0] := v];
    OnlyOn(chains, FREE, 0, DIRTY);
    forall k | 0 <= k < |chains[FREE][1..]|
      ensures 0 <= chains[FREE][1..][k] < |views'| && views'[chains[FREE][1..][k]] == BlankBlock()
    {
      assert chains[FREE][k + 1] != chains[FREE][0];
    }
  }

  lemma FileBlocks(views: seq<Block>, chains: Chains, sizes: seq<int>, raws: seq<seq<byte>>, loose: int, f: nat, k: nat)
    requires Stored(views, chains, sizes, raws, loose) && f < MAX_FILES && sizes[f] >= 0 && k < |FileList(chains, f)|
    ensures 0 <= FileList(chains, f)[k] < |views| && BlockHolds(views[FileList(chains, f)[k]], f, k, raws[f])
    ensures |raws[f]| <= BLOCK_DATA_SIZE * |FileList(chains, f)|
  {
    assert FileOk(views, FileList(chains, f), f, sizes[f], raws[f], f == loose);
  }

  /** Block k of file f changes, and with it perhaps what the file holds. */
  lemma BlockChanged(views: seq<Block>, chains: Chains, sizes: seq<int>, raws: seq<seq<byte>>, loose: int,
                     f: nat, k: nat, v: Block, raw: seq<byte>)
    requires Stored(views, chains, sizes, raws, loose) && Disjoint(chains) && f < MAX_FILES
    requires k < |FileList(chains, f)| && sizes[f] >= 0
    requires loose == f && |raw| <= BLOCK_DATA_SIZE * |FileList(chains, f)|
    requires forall j | 0 <= j < |FileList(chains, f)| && j != k ::
               BodyHolds(views[FileList(chains, f)[j]], j, raw)
    requires BlockHolds(v, f, k, raw)
    ensures Stored(views[FileList(chains, f)[k] := v], chains, sizes, raws[f := raw], loose)
  {
    var l := FileList(chains, f);
    assert FileOk(views, l, f, sizes[f], raws[f], f == loose);
    var b := l[k];
    var views' := views[b := v];
    forall g: nat | g < MAX_FILES
      ensures FileOk(views', FileList(chains, g), g, sizes[g], raws[f := raw][g], g == loose)
    {
      if g != f {
        OnlyOn(chains, FIRST_FILE + f, k, FIRST_FILE + g);
        FrameBlock(views, FileList(chains, g), b, v, g, sizes[g], raws[g], false);
      } else {
        forall j | 0 <= j < |l| ensures BlockHolds(views'[l[j]], f, j, raw) {
          if j != k {
            assert chains[FIRST_FILE + f][j] != chains[FIRST_FILE + f][k];
            assert BlockHolds(views[l[j]], f, j, raws[f]);
          }
        }
      }
    }
    OnlyOn(chains, FIRST_FILE + f, k, FREE);
    OnlyOn(chains, FIRST_FILE + f, k, DIRTY);
    FrameBlock(views, chains[FREE], b, v, 0, 0, [], false);
    FrameBlock(views, chains[DIRTY], b, v, 0, 0, [], false);
  }

  /** A file may be taken for loose, and stops being so once its size and block count agree. */
  lemma Settled(views: seq<Block>, chains: Chains, sizes: seq<int>, raws: seq<seq<byte>>, f: nat)
    requires f < MAX_FILES
    ensures Stored(views, chains, sizes, raws, -1) && sizes[f] >= 0 ==> Stored(views, chains, sizes, raws, f)
    ensures Stored(views, chains, sizes, raws, f) && sizes[f] >= 0 && |FileList(chains, f)| == BlockCount(|raws[f]|) ==>
              Stored(views, chains, sizes[f := |raws[f]|], raws, -1)
  {
    if Stored(views, chains, sizes, raws, -1) && sizes[f] >= 0 {
      forall g: nat | g < MAX_FILES ensures FileOk(views, FileList(chains, g), g, sizes[g], raws[g], g == f) {
        assert FileOk(views, FileList(chains, g), g, sizes[g], raws[g], false);
      }
    }
    if Stored(views, chains, sizes, raws, f) && sizes[f] >= 0 && |FileList(chains, f)| == BlockCount(|raws[f]|) {
      var sizes' := sizes[f := |raws[f]|];
      forall g: nat | g < MAX_FILES ensures FileOk(views, FileList(chains, g), g, sizes'[g], raws[g], false) {
        assert FileOk(views, FileList(chains, g), g, sizes[g], raws[g], g == f);
      }
    }
  }

  /** A fresh block with the same pages takes the place of block k of file f, which turns dirty. */
  lemma ReplaceStored(views: seq<Block>, chains: Chains, sizes: seq<int>, raws: seq<seq<byte>>, loose: int,
                      f: nat, k: nat, v: Block)
    requires Stored(views, chains, sizes, raws, loose) && Disjoint(chains) && f < MAX_FILES && sizes[f] >= 0
    requires k < |FileList(chains, f)| && chains[FREE] != [] && BlockHolds(v, f, k, raws[f])
    ensures var nb := chains[FREE][0];
            var ob := FileList(chains, f)[k];
            && 0 <= nb < |views| && 0 <= ob < |views| && nb != ob && |views[ob].meta| == META_SIZE
            && Stored(views[nb := v][ob := DirtyView(views[ob])], AfterReplace(chains, f, k), sizes, raws, loose)
  {
    var nb, ob := chains[FREE][0], FileList(chains, f)[k];
    assert FileOk(views, FileList(chains, f), f, sizes[f], raws[f], f == loose);
    assert BlockHolds(views[ob], f, k, raws[f]);
    OnlyOn(chains, FREE, 0, FIRST_FILE + f);
    assert nb != ob;
    hide BlockHolds, FileOk, Disjoint, DirtyView, DirtyMarked;
    forall g: nat | g < MAX_FILES
      ensures FileOk(views[nb := v][ob := DirtyView(views[ob])], FileList(AfterReplace(chains, f, k), g), g, sizes[g],
                     raws[g], g == loose)
    {
      ReplacedFiles(views, chains, sizes, raws, loose, f, k, v, g);
    }
    ReplaceLists(views, chains, f, k, v);
  }

  lemma ReplacedFiles(views: seq<Block>, chains: Chains, sizes: seq<int>, raws: seq<seq<byte>>, loose: int,
                      f: nat, k: nat, v: Block, g: nat)
    requires Stored(views, chains, sizes, raws, loose) && Disjoint(chains) && f < MAX_FILES && sizes[f] >= 0
    requires k < |FileList(chains, f)| && chains[FREE] != [] && BlockHolds(v, f, k, raws[f]) && g < MAX_FILES
    requires 0 <= chains[FREE][0] < |views| && 0 <= FileList(chains, f)[k] < |views|
    requires |views[FileList(chains, f)[k]].meta| == META_SIZE && chains[FREE][0] != FileList(chains, f)[k]
    ensures var nb, ob := chains[FREE][0], FileList(chains, f)[k];
            FileOk(views[nb := v][ob := DirtyView(views[ob])], FileList(AfterReplace(chains, f, k), g), g, sizes[g],
                   raws[g], g == loose)
  {
    hide BlockHolds, DirtyView, FileOk, DirtyMarked;
    var l, nb, ob := FileList(chains, f), chains[FREE][0], FileList(chains, f)[k];
    assert FileOk(views, FileList(chains, g), g, sizes[g], raws[g], g == loose);
    OnlyOn(chains, FREE, 0, FIRST_FILE + g);
    if g != f {
      OnlyOn(chains, FIRST_FILE + f, k, FIRST_FILE + g);
      FrameBlock(views, FileList(chains, g), nb, v, g, sizes[g], raws[g], g == loose);
      FrameBlock(views[nb := v], FileList(chains, g), ob, DirtyView(views[ob]), g, sizes[g], raws[g], g == loose);
    } else {
      forall j | 0 <= j < |l| && j != k ensures l[j] != l[k] {
        assert chains[FIRST_FILE + f][j] != chains[FIRST_FILE + f][k];
      }
      ReplacedFile(views, l, f, k, nb, v, DirtyView(views[ob]), sizes[f], raws[f], f == loose);
    }
  }

  /** The file whose block k has been replaced. */
  lemma ReplacedFile(views: seq<Block>, l: seq<int>, f: nat, k: nat, nb: int, v: Block, old': Block, size: int,
                     raw: seq<byte>, loose: bool)
    requires FileOk(views, l, f, size, raw, loose) && size >= 0 && k < |l| && nb !in l && BlockHolds(v, f, k, raw)
    requires 0 <= nb < |views| && 0 <= l[k] < |views| && forall j | 0 <= j < |l| && j != k :: l[j] != l[k]
    ensures FileOk(views[nb := v][l[k] := old'], l[k := nb], f, size, raw, loose)
  {
    hide BlockHolds;
    var l', views' := l[k := nb], views[nb := v][l[k] := old'];
    forall j | 0 <= j < |l'| ensures 0 <= l'[j] < |views'| && BlockHolds(views'[l'[j]], f, j, raw) {
      assert BlockHolds(views[l[j]], f, j, raw) && l[j] in l;
    }
  }

  /** Every reader finds the same slots after a block is replaced by a copy of itself. */
  lemma CoherentReplaced(views: seq<Block>, chains: Chains, sizes: seq<int>, raws: seq<seq<byte>>, loose: int,
                         file: int, number: nat, page: seq<byte>, f: nat, k: nat, v: Block)
    requires Stored(views, chains, sizes, raws, loose) && Disjoint(chains) && f < MAX_FILES && sizes[f] >= 0
    requires k < |FileList(chains, f)| && chains[FREE] != [] && 0 <= chains[FREE][0] < |views|
    requires Coherent(views[chains[FREE][0] := v], chains[FREE := chains[FREE][1..]], sizes, raws, file, number, page)
    requires 0 <= FileList(chains, f)[k] < |views| && IsCopy(v, views[FileList(chains, f)[k]], f, k, raws[f])
    ensures var nb := chains[FREE][0];
            var ob := FileList(chains, f)[k];
            |views[ob].meta| == META_SIZE
            && Coherent(views[nb := v][ob := DirtyView(views[ob])], AfterReplace(chains, f, k), sizes, raws, file,
                        number, page)
  {
    if 0 <= file < |sizes| && sizes[file] >= 0 {
      hide FileOk, HasPage, BodyHolds, AllDirty, AllBlank, MetaIs;
      var j := number / DATA_PAGES;
      OnlyOn(chains, FREE, 0, FIRST_FILE + file);
      assert FileList(chains[FREE := chains[FREE][1..]], file) == FileList(chains, file);
      assert chains[FIRST_FILE + file][j] == FileList(chains, file)[j];
      assert chains[FIRST_FILE + file][j] == chains[FIRST_FILE + f][k] ==> file == f && j == k;
    }
  }

  /** v is a fresh copy of block k of file f: a reader finds the same slots, and every slot that no
      page needs is free. */
  ghost predicate IsCopy(v: Block, src: Block, f: nat, k: nat, raw: seq<byte>) {
    && src.Shaped() && BlockHolds(v, f, k, raw) && v.meta == NextCopy(src.meta)
    && (forall j: nat :: j < DATA_PAGES ==> Current(v, j) == Current(src, j))
    && 0 <= FirstFree(v.index) <= DATA_PAGES && FreeCount(v.index) == SLOTS - PagesHeld(PageCount(|raw|), k)
  }

  /** The header of a copy: the sequence number, its fourth byte, counts on, round from 255 to 0. */
  function NextCopy(meta: seq<byte>): seq<byte>
    requires |meta| == META_SIZE
  {
    meta[OFF_SEQUENCE := if meta[OFF_SEQUENCE] == 255 then 0 else meta[OFF_SEQUENCE] + 1]
  }

  /** The free slots of each block of a list. */
  function FreeSlots(views: seq<Block>, l: seq<int>): (r: seq<nat>)
    ensures |r| == |l|
  {
    seq(|l|, k requires 0 <= k < |l| => if 0 <= l[k] < |views| then FreeCount(views[l[k]].index) else 0)
  }

  /** The free slots of the blocks of every file. */
  function AllFree(views: seq<Block>, chains: Chains): (r: seq<seq<nat>>)
    requires |chains| == LISTS
    ensures |r| == MAX_FILES && forall f: nat | f < MAX_FILES :: r[f] == FreeSlots(views, FileList(chains, f))
  {
    seq(MAX_FILES, f requires 0 <= f < MAX_FILES => FreeSlots(views, FileList(chains, f)))
  }

  /** A step that leaves the lists of the other files and their blocks alone leaves their free slots. */
  lemma FreeElsewhere(views: seq<Block>, chains: Chains, views': seq<Block>, chains': Chains, f: nat)
    requires |chains| == |chains'| == LISTS && f < MAX_FILES && |views'| == |views|
    requires forall g: nat | g < MAX_FILES && g != f :: FileList(chains', g) == FileList(chains, g)
    requires forall b | 0 <= b < |views| && views'[b] != views[b] ::
               forall g: nat | g < MAX_FILES && g != f :: b !in FileList(chains, g)
    ensures AllFree(views', chains') == AllFree(views, chains)[f := FreeSlots(views', FileList(chains', f))]
  {
    hide FreeCount;
    forall g: nat | g < MAX_FILES && g != f
      ensures FreeSlots(views', FileList(chains', g)) == FreeSlots(views, FileList(chains, g))
    {
      var l := FileList(chains, g);
      forall k | 0 <= k < |l| ensures FreeSlots(views', l)[k] == FreeSlots(views, l)[k] {
        assert l[k] in l;
      }
    }
  }

  /** A blank block at the end of a file brings all its slots. */
  lemma AllocSlots(views: seq<Block>, chains: Chains, f: nat, v: Block)
    requires |chains| == LISTS && Disjoint(chains) && f < MAX_FILES && chains[FREE] != []
             && 0 <= chains[FREE][0] < |views|
    requires v.index == BlankBlock().index
    ensures FreeSlots(views[chains[FREE][0] := v], FileList(AfterAlloc(chains, f), f))
            == FreeSlots(views, FileList(chains, f)) + [SLOTS]
    ensures AllFree(views[chains[FREE][0] := v], AfterAlloc(chains, f))
            == AllFree(views, chains)[f := FreeSlots(views, FileList(chains, f)) + [SLOTS]]
  {
    FreeCountIs(v.index, SLOTS);
    OnlyOn(chains, FREE, 0, FIRST_FILE + f);
    hide FreeCount;
    forall g: nat | g < MAX_FILES ensures chains[FREE][0] !in FileList(chains, g) {
      OnlyOn(chains, FREE, 0, FIRST_FILE + g);
    }
    FreeElsewhere(views, chains, views[chains[FREE][0] := v], AfterAlloc(chains, f), f);
  }

  /** A replacement changes the free slots of the block replaced and of no other. */
  lemma ReplaceSlots(views: seq<Block>, chains: Chains, f: nat, k: nat, v: Block)
    requires |chains| == LISTS && Disjoint(chains) && f < MAX_FILES && chains[FREE] != []
             && 0 <= chains[FREE][0] < |views|
    requires k < |FileList(chains, f)| && 0 <= FileList(chains, f)[k] < |views|
             && |views[FileList(chains, f)[k]].meta| == META_SIZE
    ensures var nb, ob := chains[FREE][0], FileList(chains, f)[k];
            FreeSlots(views[nb := v][ob := DirtyView(views[ob])], FileList(AfterReplace(chains, f, k), f))
            == FreeSlots(views, FileList(chains, f))[k := FreeCount(v.index)]
    ensures var nb, ob := chains[FREE][0], FileList(chains, f)[k];
            AllFree(views[nb := v][ob := DirtyView(views[ob])], AfterReplace(chains, f, k))
            == AllFree(views, chains)[f := FreeSlots(views, FileList(chains, f))[k := FreeCount(v.index)]]
  {
    var l := FileList(chains, f);
    OnlyOn(chains, FREE, 0, FIRST_FILE + f);
    forall g: nat | g < MAX_FILES && g != f
      ensures chains[FREE][0] !in FileList(chains, g) && l[k] !in FileList(chains, g)
    {
      OnlyOn(chains, FREE, 0, FIRST_FILE + g);
      OnlyOn(chains, FIRST_FILE + f, k, FIRST_FILE + g);
    }
    FreeElsewhere(views, chains, views[chains[FREE][0] := v][l[k] := DirtyView(views[l[k]])],
                  AfterReplace(chains, f, k), f);
    assert forall j | 0 <= j < |l| :: l[j] == chains[FIRST_FILE + f][j];
    assert chains[FREE][0] != l[k];
  }

  /** A slot used up in block k of a file. */
  lemma UseSlots(views: seq<Block>, chains: Chains, f: nat, k: nat, v: Block)
    requires |chains| == LISTS && Disjoint(chains) && f < MAX_FILES && k < |FileList(chains, f)|
    requires 0 <= FileList(chains, f)[k] < |views|
    ensures FreeSlots(views[FileList(chains, f)[k] := v], FileList(chains, f))
         == FreeSlots(views, FileList(chains, f))[k := FreeCount(v.index)]
    ensures AllFree(views[FileList(chains, f)[k] := v], chains)
         == AllFree(views, chains)[f := FreeSlots(views, FileList(chains, f))[k := FreeCount(v.index)]]
  {
    var l := FileList(chains, f);
    forall g: nat | g < MAX_FILES && g != f ensures l[k] !in FileList(chains, g) {
      OnlyOn(chains, FIRST_FILE + f, k, FIRST_FILE + g);
    }
    FreeElsewhere(views, chains, views[l[k] := v], chains, f);
    assert forall j | 0 <= j < |l| :: l[j] == chains[FIRST_FILE + f][j];
  }

  /** A deleted file has no slots, and the others keep theirs. */
  lemma DeleteSlots(views: seq<Block>, views': seq<Block>, chains: Chains, f: nat)
    requires |chains| == LISTS && Disjoint(chains) && f < MAX_FILES && |views'| == |views|
    requires forall b | 0 <= b < |views| && b !in FileList(chains, f) :: views'[b] == views[b]
    ensures AllFree(views', AfterDelete(chains, f)) == AllFree(views, chains)[f := []]
  {
    forall b, g: nat | 0 <= b < |views| && views'[b] != views[b] && g < MAX_FILES && g != f
      ensures b !in FileList(chains, g)
    {
      var k :| 0 <= k < |FileList(chains, f)| && FileList(chains, f)[k] == b;
      OnlyOn(chains, FIRST_FILE + f, k, FIRST_FILE + g);
    }
    FreeElsewhere(views, chains, views', AfterDelete(chains, f), f);
  }

  /** An erased block was no file's. */
  lemma EraseSlots(views: seq<Block>, chains: Chains, v: Block)
    requires |chains| == LISTS && Disjoint(chains) && chains[DIRTY] != [] && 0 <= chains[DIRTY][0] < |views|
    ensures AllFree(views[chains[DIRTY][0] := v], AfterErase(chains)) == AllFree(views, chains)
  {
    var views' := views[chains[DIRTY][0] := v];
    forall g: nat | g < MAX_FILES ensures chains[DIRTY][0] !in FileList(chains, g) {
      OnlyOn(chains, DIRTY, 0, FIRST_FILE + g);
    }
    FreeElsewhere(views, chains, views', AfterErase(chains), 0);
    forall k | 0 <= k < |FileList(chains, 0)|
      ensures FreeSlots(views', FileList(chains, 0))[k] == FreeSlots(views, FileList(chains, 0))[k]
    {
      assert FileList(chains, 0)[k] in FileList(chains, 0);
    }
    var was := AllFree(views, chains);
    assert FileList(AfterErase(chains), 0) == FileList(chains, 0) && was[0] == FreeSlots(views', FileList(chains, 0));
    assert was[0 := was[0]] == was;
  }

  /** Taking a block off the free list leaves the rest as it was. */
  lemma PopStored(views: seq<Block>, chains: Chains, sizes: seq<int>, raws: seq<seq<byte>>, loose: int)
    requires Stored(views, chains, sizes, raws, loose) && chains[FREE] != []
    ensures Stored(views, chains[FREE := chains[FREE][1..]], sizes, raws, loose)
    ensures 0 <= chains[FREE][0] < |views| && views[chains[FREE][0]] == BlankBlock()
    ensures forall file, number: nat, page {:trigger Coherent(views, chains, sizes, raws, file, number, page)} |
              Coherent(views, chains, sizes, raws, file, number, page) ::
              Coherent(views, chains[FREE := chains[FREE][1..]], sizes, raws, file, number, page)
  {
    var chains' := chains[FREE := chains[FREE][1..]];
    forall f: nat | f < MAX_FILES ensures FileOk(views, FileList(chains', f), f, sizes[f], raws[f], f == loose) {
      assert FileList(chains', f) == FileList(chains, f);
    }
  }

  /** The lists after the first free block replaces block k of file f. */
  function AfterReplace(chains: Chains, f: nat, k: nat): (r: Chains)
    requires |chains| == LISTS && f < MAX_FILES && k < |FileList(chains, f)| && chains[FREE] != []
    ensures |r| == LISTS
  {
    var l := FileList(chains, f);
    chains[FREE := chains[FREE][1..]][FIRST_FILE + f := l[k := chains[FREE][0]]][DIRTY := chains[DIRTY] + [l[k]]]
  }

  lemma ReplaceLists(views: seq<Block>, chains: Chains, f: nat, k: nat, v: Block)
    requires |chains| == LISTS && Disjoint(chains) && f < MAX_FILES && k < |FileList(chains, f)| && chains[FREE] != []
    requires AllBlank(views, chains[FREE]) && AllDirty(views, chains[DIRTY])
    requires 0 <= FileList(chains, f)[k] < |views| && |views[FileList(chains, f)[k]].meta| == META_SIZE
    ensures var nb, ob := chains[FREE][0], FileList(chains, f)[k];
            var views' := views[nb := v][ob := DirtyView(views[ob])];
            AllBlank(views', chains[FREE][1..]) && AllDirty(views', chains[DIRTY] + [ob])
  {
    var nb, ob := chains[FREE][0], FileList(chains, f)[k];
    var views' := views[nb := v][ob := DirtyView(views[ob])];
    OnlyOn(chains, FREE, 0, DIRTY);
    OnlyOn(chains, FIRST_FILE + f, k, FREE);
    OnlyOn(chains, FIRST_FILE + f, k, DIRTY);
    forall j | 0 <= j < |chains[FREE][1..]|
      ensures 0 <= chains[FREE][1..][j] < |views'| && views'[chains[FREE][1..][j]] == BlankBlock()
    {
      assert chains[FREE][j + 1] != chains[FREE][0] && chains[FREE][j + 1] in chains[FREE];
    }
    forall j | 0 <= j < |chains[DIRTY] + [ob]|
      ensures 0 <= (chains[DIRTY] + [ob])[j] < |views'| && DirtyMarked(views'[(chains[DIRTY] + [ob])[j]])
    {
      if j < |chains[DIRTY]| {
        assert chains[DIRTY][j] in chains[DIRTY];
      }
    }
  }

  /** An erased block moves from the head of the dirty list to the end of the free list. */
  lemma EraseStored(views: seq<Block>, chains: Chains, sizes: seq<int>, raws: seq<seq<byte>>)
    requires Stored(views, chains, sizes, raws, -1) && Disjoint(chains) && chains[DIRTY] != []
    ensures var b := chains[DIRTY][0];
            && 0 <= b < |views|
            && Stored(views[b := BlankBlock()], AfterErase(chains), sizes, raws, -1)
  {
    var b := chains[DIRTY][0];
    var views' := views[b := BlankBlock()];
    var chains' := AfterErase(chains);
    forall g: nat | g < MAX_FILES
      ensures FileOk(views', FileList(chains', g), g, sizes[g], raws[g], false)
    {
      OnlyOn(chains, DIRTY, 0, FIRST_FILE + g);
      FrameBlock(views, FileList(chains, g), b, BlankBlock(), g, sizes[g], raws[g], false);
      assert FileOk(views, FileList(chains, g), g, sizes[g], raws[g], false);
    }
    OnlyOn(chains, DIRTY, 0, FREE);
    forall j | 0 <= j < |chains'[DIRTY]|
      ensures 0 <= chains'[DIRTY][j] < |views'| && DirtyMarked(views'[chains'[DIRTY][j]]) {
      assert chains[DIRTY][j + 1] != chains[DIRTY][0];
    }
  }

  function AfterErase(chains: Chains): (r: Chains)
    requires |chains| == LISTS && chains[DIRTY] != []
    ensures |r| == LISTS
  {
    chains[DIRTY := chains[DIRTY][1..]][FREE := chains[FREE] + [chains[DIRTY][0]]]
  }

  /** All blocks of a deleted file turn dirty. */
  lemma DeleteStored(views: seq<Block>, views': seq<Block>, chains: Chains, sizes: seq<int>, raws: seq<seq<byte>>,
                     f: nat)
    requires Stored(views, chains, sizes, raws, -1) && Disjoint(chains) && f < MAX_FILES
    requires |views'| == |views|
    requires forall b | 0 <= b < |views| && b !in FileList(chains, f) :: views'[b] == views[b]
    requires forall b | 0 <= b < |views| && b in FileList(chains, f) :: DirtyMarked(views'[b])
    ensures Stored(views', AfterDelete(chains, f), sizes[f := -1], raws[f := []], -1)
  {
    var l := FileList(chains, f);
    var chains' := AfterDelete(chains, f);
    assert FileOk(views, l, f, sizes[f], raws[f], false);
    forall g: nat | g < MAX_FILES
      ensures FileOk(views', FileList(chains', g), g, sizes[f := -1][g], raws[f := []][g], false)
    {
      if g != f {
        assert FileOk(views, FileList(chains, g), g, sizes[g], raws[g], false);
        forall j | 0 <= j < |FileList(chains, g)| ensures FileList(chains, g)[j] !in l {
          OnlyOn(chains, FIRST_FILE + g, j, FIRST_FILE + f);
        }
      }
    }
    forall j | 0 <= j < |chains[FREE]| ensures chains[FREE][j] !in l {
      OnlyOn(chains, FREE, j, FIRST_FILE + f);
    }
    forall j | 0 <= j < |chains[DIRTY]| ensures chains[DIRTY][j] !in l {
      OnlyOn(chains, DIRTY, j, FIRST_FILE + f);
    }
    forall j | 0 <= j < |chains'[DIRTY]|
      ensures 0 <= chains'[DIRTY][j] < |views'| && DirtyMarked(views'[chains'[DIRTY][j]]) {
      if j >= |chains[DIRTY]| {
        assert chains'[DIRTY][j] == l[j - |chains[DIRTY]|];
        assert BlockHolds(views[l[j - |chains[DIRTY]|]], f, j - |chains[DIRTY]|, raws[f]);
      }
    }
  }

  function AfterDelete(chains: Chains, f: nat): (r: Chains)
    requires |chains| == LISTS && f < MAX_FILES
    ensures |r| == LISTS
  {
    chains[FIRST_FILE + f := []][DIRTY := chains[DIRTY] + FileList(chains, f)]
  }

  // ----- No step loses a block -----

  /** Every block on a list of c is on a list of c'. */
  ghost predicate Keeps(c: Chains, c': Chains) {
    forall i, k {:trigger c[i][k]} | 0 <= i < |c| && 0 <= k < |c[i]| :: Listed(c', c[i][k])
  }

  lemma KeepsCovering(c: Chains, c': Chains, n: nat)
    requires Keeps(c, c') && Covering(c, n)
    ensures Covering(c', n)
  {
    forall b | 0 <= b < n ensures Listed(c', b) {
      assert Listed(c, b);
      var i, k :| 0 <= i < |c| && 0 <= k < |c[i]| && c[i][k] == b;
      assert Listed(c', c[i][k]);
    }
  }

  function AfterAlloc(chains: Chains, f: nat): (r: Chains)
    requires |chains| == LISTS && f < MAX_FILES && chains[FREE] != []
    ensures |r| == LISTS
  {
    chains[FREE := chains[FREE][1..]][FIRST_FILE + f := FileList(chains, f) + [chains[FREE][0]]]
  }

  lemma AllocKeeps(c: Chains, f: nat)
    requires |c| == LISTS && f < MAX_FILES && c[FREE] != []
    ensures Keeps(c, AfterAlloc(c, f))
  {
    var c' := AfterAlloc(c, f);
    forall i, k | 0 <= i < |c| && 0 <= k < |c[i]| ensures Listed(c', c[i][k]) {
      if i == FREE && k == 0 {
        assert c'[FIRST_FILE + f][|FileList(c, f)|] == c[i][k];
      } else {
        assert c'[i][if i == FREE then k - 1 else k] == c[i][k];
      }
    }
  }

  lemma ReplaceKeepsAll(c: Chains, f: nat, m: nat)
    requires |c| == LISTS && f < MAX_FILES && m < |FileList(c, f)| && c[FREE] != []
    ensures Keeps(c, AfterReplace(c, f, m))
  {
    var c' := AfterReplace(c, f, m);
    forall i, k | 0 <= i < |c| && 0 <= k < |c[i]| ensures Listed(c', c[i][k]) {
      if i == FREE && k == 0 {
        assert c'[FIRST_FILE + f][m] == c[i][k];
      } else if i == FIRST_FILE + f && k == m {
        assert c'[DIRTY][|c[DIRTY]|] == c[i][k];
      } else {
        assert c'[i][if i == FREE then k - 1 else k] == c[i][k];
      }
    }
  }

  lemma EraseKeeps(c: Chains)
    requires |c| == LISTS && c[DIRTY] != []
    ensures Keeps(c, AfterErase(c))
  {
    var c' := AfterErase(c);
    forall i, k | 0 <= i < |c| && 0 <= k < |c[i]| ensures Listed(c', c[i][k]) {
      if i == DIRTY && k == 0 {
        assert c'[FREE][|c[FREE]|] == c[i][k];
      } else {
        assert c'[i][if i == DIRTY then k - 1 else k] == c[i][k];
      }
    }
  }

  lemma DeleteKeeps(c: Chains, f: nat)
    requires |c| == LISTS && f < MAX_FILES
    ensures Keeps(c, AfterDelete(c, f))
  {
    var c' := AfterDelete(c, f);
    forall i, k | 0 <= i < |c| && 0 <= k < |c[i]| ensures Listed(c', c[i][k]) {
      if i == FIRST_FILE + f {
        assert c'[DIRTY][|c[DIRTY]| + k] == c[i][k];
      } else {
        assert c'[i][k] == c[i][k];
      }
    }
  }

  /** What a page write may do to the lists: nothing, move the first free block to the end of the
      file, or put it in the place of the file's block k, which turns dirty. */
  ghost predicate WriteStep(c: Chains, c': Chains, f: nat, k: nat) {
    && |c| == LISTS && f < MAX_FILES
    && (|| c' == c
        || (c[FREE] != [] && k == |FileList(c, f)| && c' == AfterAlloc(c, f))
        || (c[FREE] != [] && k < |FileList(c, f)| && c' == AfterReplace(c, f, k)))
  }

  /** Deleting file f leaves the current pages of the other files where they were. */
  lemma CoherentDeleted(views: seq<Block>, views': seq<Block>, chains: Chains, sizes: seq<int>, raws: seq<seq<byte>>,
                        file: int, number: nat, page: seq<byte>, f: nat)
    requires |chains| == LISTS && Disjoint(chains) && f < MAX_FILES && |views'| == |views|
             && |sizes| == |raws| == MAX_FILES
    requires Coherent(views, chains, sizes, raws, file, number, page)
    requires forall b | 0 <= b < |views| && b !in FileList(chains, f) :: views'[b] == views[b]
    ensures Coherent(views', AfterDelete(chains, f), sizes[f := -1], raws[f := []], file, number, page)
  {
    if 0 <= file < |sizes| && file != f && sizes[file] >= 0 {
      OnlyOn(chains, FIRST_FILE + file, number / DATA_PAGES, FIRST_FILE + f);
    }
  }

  /** The lists when the first i blocks of file f have gone to the dirty list. */
  function Deleting(chains: Chains, f: nat, i: nat): (r: Chains)
    requires |chains| == LISTS && f < MAX_FILES && i <= |FileList(chains, f)|
    ensures |r| == LISTS
  {
    chains[FIRST_FILE + f := FileList(chains, f)[i..]][DIRTY := chains[DIRTY] + FileList(chains, f)[..i]]
  }

  lemma DeletingSteps(chains: Chains, f: nat, i: nat)
    requires |chains| == LISTS && f < MAX_FILES && i <= |FileList(chains, f)|
    ensures Deleting(chains, f, 0) == chains && Deleting(chains, f, |FileList(chains, f)|) == AfterDelete(chains, f)
    ensures i < |FileList(chains, f)| ==>
              var c := Deleting(chains, f, i);
              c[FIRST_FILE + f := FileList(c, f)[1..]][DIRTY := c[DIRTY] + [FileList(chains, f)[i]]]
                == Deleting(chains, f, i + 1)
  {
    var l := FileList(chains, f);
    assert l[0..] == l && l[|l|..] == [] && l[..0] == [] && l[..|l|] == l && chains[DIRTY] + [] == chains[DIRTY];
    assert Deleting(chains, f, 0) == chains;
    if i < |l| {
      assert l[..i + 1] == l[..i] + [l[i]] && l[i..][1..] == l[i + 1..];
      assert chains[DIRTY] + l[..i] + [l[i]] == chains[DIRTY] + l[..i + 1];
    }
  }

  lemma DirtyViewMarked(v: Block)
    requires |v.meta| == META_SIZE
    ensures DirtyMarked(DirtyView(v))
  {
  }

  /** A page write takes at most one block off the free list. */
  lemma StepTakesOne(c: Chains, c': Chains, f: nat, k: nat)
    requires WriteStep(c, c', f, k)
    ensures |c'| == LISTS && |c'[FREE]| >= |c[FREE]| - 1 && |c[DIRTY]| <= |c'[DIRTY]| <= |c[DIRTY]| + 1
    ensures |c'[FREE]| + |c'[DIRTY]| >= |c[FREE]| + |c[DIRTY]| - 1 && c[DIRTY] <= c'[DIRTY]
  {
  }

  /** A page write that changes the lists takes exactly one free block. */
  lemma StepCost(c: Chains, c': Chains, f: nat, k: nat)
    requires WriteStep(c, c', f, k)
    ensures |c'| == LISTS && |c'[FREE]| == if c' == c then |c[FREE]| else |c[FREE]| - 1
  {
    if c[FREE] != [] {
      StepsDiffer(c, f, k);
    }
  }

  lemma StepNeedsFree(c: Chains, c': Chains, f: nat, k: nat)
    requires WriteStep(c, c', f, k)
    ensures c' != c ==> c[FREE] != []
  {
  }

  lemma StepsDiffer(c: Chains, f: nat, k: nat)
    requires |c| == LISTS && f < MAX_FILES && c[FREE] != []
    ensures AfterAlloc(c, f) != c && (k < |FileList(c, f)| ==> AfterReplace(c, f, k) != c)
  {
    assert |AfterAlloc(c, f)[FREE]| == |c[FREE]| - 1;
    assert k < |FileList(c, f)| ==> |AfterReplace(c, f, k)[FREE]| == |c[FREE]| - 1;
  }

  /** An erased block was no file's. */
  lemma CoherentErased(views: seq<Block>, chains: Chains, sizes: seq<int>, raws: seq<seq<byte>>,
                       file: int, number: nat, page: seq<byte>, v: Block)
    requires |chains| == LISTS && Disjoint(chains) && chains[DIRTY] != [] && 0 <= chains[DIRTY][0] < |views|
    requires Coherent(views, chains, sizes, raws, file, number, page)
    ensures Coherent(views[chains[DIRTY][0] := v], AfterErase(chains), sizes, raws, file, number, page)
  {
    if 0 <= file < |sizes| && |sizes| == |raws| == MAX_FILES && sizes[file] >= 0 {
      OnlyOn(chains, DIRTY, 0, FIRST_FILE + file);
      assert FileList(AfterErase(chains), file) == FileList(chains, file);
    }
  }
}
