/** Mounting: ffs_block_v_init and ffs_page_v_init rebuild the lists and the file table from the
    flash alone.  The scan meets blocks in physical order; each file's own order comes back from
    the block numbers in the headers. */
module FfsMount {
  import opened Bytes
  import opened Flash25
  import opened FfsLayout
  import opened FfsLists
  import opened FfsIndex
  import opened FfsFile
  import opened FfsStore
  import opened FfsBlock
  import opened FfsPage

  const BAD := -1

  /** Which list the scan puts a block on: free, dirty, the list of its file, or none. */
  function Kind(v: Block, total: nat): (r: int)
    requires v.Shaped()
    ensures r == BAD || 0 <= r < LISTS
  {
    if v.meta[OFF_FLAGS] == FLAGS_FREE then FREE
    else if v.meta[OFF_FLAGS] < 0x80 then DIRTY
    else if v.meta[OFF_FLAGS] == FLAGS_VALID && v.meta[OFF_FILE_ID] < MAX_FILES && v.meta[OFF_BLOCK] < total then
      FIRST_FILE + v.meta[OFF_FILE_ID]
    else BAD
  }

  /** The blocks below n of one kind, in physical order. */
  function OfKind(views: seq<Block>, n: nat, kind: int, total: nat): (r: seq<int>)
    requires n <= |views| && forall b :: 0 <= b < n ==> views[b].Shaped()
    ensures forall k :: 0 <= k < |r| ==> 0 <= r[k] < n && Kind(views[r[k]], total) == kind
    ensures forall j, k :: 0 <= j < k < |r| ==> r[j] < r[k]
  {
    if n == 0 then []
    else
      var below := OfKind(views, n - 1, kind, total);
      if Kind(views[n - 1], total) == kind then below + [n - 1] else below
  }

  /** Every block of the kind is there. */
  lemma {:induction false} OfKindHas(views: seq<Block>, n: nat, kind: int, total: nat, b: nat)
    requires b < n <= |views| && (forall c :: 0 <= c < n ==> views[c].Shaped()) && Kind(views[b], total) == kind
    ensures b in OfKind(views, n, kind, total)
  {
    hide Kind;
    if b < n - 1 {
      OfKindHas(views, n - 1, kind, total, b);
    }
  }

  lemma {:induction false} OfKindSame(views: seq<Block>, views': seq<Block>, n: nat, kind: int, total: nat)
    requires n <= |views| && n <= |views'| && forall b :: 0 <= b < n ==> views[b].Shaped() && views'[b] == views[b]
    ensures OfKind(views, n, kind, total) == OfKind(views', n, kind, total)
  {
    if n > 0 {
      OfKindSame(views, views', n - 1, kind, total);
    }
  }

  /** A block the scan cannot make sense of is marked dirty. */
  function AfterScan(v: Block, total: nat): Block
    requires v.Shaped()
  {
    if Kind(v, total) == BAD then DirtyView(v) else v
  }

  lemma AfterScanKind(v: Block, total: nat)
    requires v.Shaped()
    ensures AfterScan(v, total).Shaped()
    ensures Kind(AfterScan(v, total), total) == if Kind(v, total) == BAD then DIRTY else Kind(v, total)
  {
  }

  /** The lists during the block scan: free and dirty blocks below n, no file blocks yet. */
  ghost predicate Scanned(views: seq<Block>, chains: Chains, n: nat, total: nat)
    requires n <= |views| && forall b :: 0 <= b < n ==> views[b].Shaped()
  {
    && |chains| == LISTS
    && chains[FREE] == OfKind(views, n, FREE, total) && chains[DIRTY] == OfKind(views, n, DIRTY, total)
    && forall id :: FIRST_FILE <= id < LISTS ==> chains[id] == []
  }

  lemma ScannedUnlisted(views: seq<Block>, chains: Chains, n: nat, total: nat)
    requires n <= |views| && (forall b :: 0 <= b < n ==> views[b].Shaped()) && Scanned(views, chains, n, total)
    ensures !Listed(chains, n)
  {
    forall i, k | 0 <= i < |chains| && 0 <= k < |chains[i]| ensures chains[i][k] != n {
      assert i == FREE || i == DIRTY;
    }
  }

  /** One more block is scanned: it joins the list of its kind if that is free or dirty. */
  lemma ScannedNext(views: seq<Block>, views': seq<Block>, chains: Chains, n: nat, total: nat)
    requires n < |views| == |views'| && (forall b :: 0 <= b < |views| ==> views[b].Shaped())
             && Scanned(views, chains, n, total)
    requires views' == views[n := AfterScan(views[n], total)]
    ensures forall b :: 0 <= b < |views'| ==> views'[b].Shaped()
    ensures var kind := Kind(views'[n], total);
            Scanned(views', if kind == FREE || kind == DIRTY then chains[kind := chains[kind] + [n]]
                    else chains, n + 1, total)
  {
    AfterScanKind(views[n], total);
    OfKindSame(views, views', n, FREE, total);
    OfKindSame(views, views', n, DIRTY, total);
  }

  /** Forgets all lists. */
  method ResetLists(blk: BlockDriver)
    requires blk.FlashShown() && blk.next.Length == blk.total
    modifies blk`freeList, blk`dirtyList, blk`freeBlocks, blk`dirtyBlocks, blk`cacheBlock, blk`cacheIndex, blk`chains,
             blk.next
    ensures blk.Valid() && blk.chains == seq(LISTS, _ => [])
  {
    blk.cacheBlock, blk.cacheIndex := INVALID, Ones(SLOTS);
    blk.freeList, blk.dirtyList := INVALID, INVALID;
    blk.freeBlocks, blk.dirtyBlocks := 0, 0;
    for i := 0 to blk.total
      modifies blk.next
      invariant blk.FlashShown()
    {
      blk.next[i] := INVALID;
    }
    blk.chains := seq(LISTS, _ => []);
  }

  /** The first loop of ffs_block_v_init, over any flash whose headers are doubled: free and dirty
      blocks are linked in physical order and blocks that make no sense are marked dirty. */
  method ScanBlocks(blk: BlockDriver)
    requires blk.FlashShown() && blk.next.Length == blk.total
    modifies blk, blk.next, blk.chip.mem
    ensures blk.Valid() && |blk.views| == |old(blk.views)| == blk.total
    ensures forall b :: 0 <= b < blk.total ==>
                          old(blk.views)[b].Shaped() && blk.views[b].Shaped()
                            && blk.views[b] == AfterScan(old(blk.views)[b], blk.total)
    ensures Scanned(blk.views, blk.chains, blk.total, blk.total)
  {
    hide BlockDriver.ListsHeld, BlockDriver.CacheCoherent, Listed, BlockDriver.FlashShown;
    ghost var views0 := blk.views;
    AllShaped(blk);
    ResetLists(blk);
    for i := 0 to blk.total
      invariant blk.Valid() && |blk.views| == |views0| == blk.total
      invariant forall b :: 0 <= b < blk.total ==> views0[b].Shaped() && blk.views[b].Shaped()
      invariant forall b :: 0 <= b < blk.total ==>
                  blk.views[b] == if b < i then AfterScan(views0[b], blk.total) else views0[b]
      invariant Scanned(blk.views, blk.chains, i, blk.total)
    {
      ghost var views1, chains1 := blk.views, blk.chains;
      ScannedUnlisted(views1, chains1, i, blk.total);
      ScannedNext(views1, views1[i := AfterScan(views1[i], blk.total)], chains1, i, blk.total);
      ScanOne(blk, i);
    }
  }

  /** Looks at the flags of one block, which is on no list yet, and deals with it. */
  method ScanOne(blk: BlockDriver, i: nat)
    requires blk.Valid() && i < blk.total && !Listed(blk.chains, i) && |blk.views| == blk.total && blk.views[i].Shaped()
    modifies blk, blk.next, blk.chip.mem
    ensures blk.Valid() && old(blk.views)[i].Shaped()
    ensures blk.views == old(blk.views)[i := AfterScan(old(blk.views)[i], blk.total)]
    ensures AfterScan(old(blk.views)[i], blk.total).Shaped() && |old(blk.chains)| == LISTS
    ensures var kind := Kind(AfterScan(old(blk.views)[i], blk.total), blk.total);
            blk.chains == if kind == FREE || kind == DIRTY then old(blk.chains)[kind := old(blk.chains)[kind] + [i]]
              else old(blk.chains)
  {
    hide BlockDriver.ListsHeld, BlockDriver.CacheCoherent, Listed, BlockDriver.FlashShown;
    AfterScanKind(blk.views[i], blk.total);
    blk.Heads();
    var flags := blk.ReadFlags(i);
    if flags == FLAGS_FREE {
      var _ := blk.AddToList(FREE, blk.freeList, i);
    } else if flags < 0x80 {
      var _ := blk.AddToList(DIRTY, blk.dirtyList, i);
    } else if flags == FLAGS_VALID {
      var status, meta := blk.ReadMeta(i);
      if status < 0 {
        blk.SetDirty(i);
      }
    } else {
      blk.SetDirty(i);
    }
  }

  lemma AllShaped(blk: BlockDriver)
    requires blk.FlashShown()
    ensures |blk.views| == blk.total <= 254 && forall b :: 0 <= b < blk.total ==> blk.views[b].Shaped()
  {
    forall b: nat | b < blk.total ensures blk.views[b].Shaped() {
      blk.ViewShaped(b);
    }
  }

  // ----- Free space -----

  ghost predicate AllErased(img: seq<byte>) {
    forall j :: 0 <= j < |img| ==> img[j] == 0xff
  }

  /** Reads a whole block, 256 bytes at a time, looking for a byte that is not erased. */
  method BlockErased(blk: BlockDriver, block: nat) returns (erased: bool)
    requires blk.FlashShown() && block < blk.total
    ensures erased <==> AllErased(blk.chip.Image(block))
  {
    ghost var img: seq<byte> := blk.chip.Image(block);
    for j := 0 to ERASE_BLOCK_SIZE / 256
      invariant forall i :: 0 <= i < 256 * j ==> img[i] == 0xff
    {
      var data := blk.chip.Read(ERASE_BLOCK_SIZE * block + 256 * j, 256);
      for h := 0 to 256
        invariant forall i :: 0 <= i < 256 * j + h ==> img[i] == 0xff
      {
        assert data[h] == img[256 * j + h];
        if data[h] != 0xff {
          assert img[256 * j + h] != 0xff && !AllErased(img);
          return false;
        }
      }
    }
    erased := true;
  }

  /** ffs_block_i8_verify_free_space: when every free block is erased it finds nothing to do. */
  method VerifyFreeSpace(blk: BlockDriver) returns (status: int)
    requires blk.Valid() && |blk.chains| == LISTS && AllBlank(blk.views, blk.chains[FREE])
    ensures status == STATUS_OK
  {
    ghost var l := blk.chains[FREE];
    blk.Heads();
    blk.InRange(FREE);
    var block := blk.freeList;
    ghost var k := 0;
    status := STATUS_OK;
    while block != INVALID
      invariant 0 <= k <= |l| && block == if k < |l| then l[k] else INVALID
      invariant status == STATUS_OK
      decreases |l| - k
    {
      var erased := BlockErased(blk, block);
      BlankIsErased(blk.chip.Image(block));
      if !erased {
        assert false;
      }
      blk.Follow(FREE, k);
      block := blk.Next(block);
      k := k + 1;
    }
  }

  /** ffs_block_v_init.  Blocks whose flags say free must be erased. */
  method BlockInit(blk: BlockDriver)
    requires blk.FlashShown() && blk.next.Length == blk.total
    requires forall b :: 0 <= b < blk.total && blk.views[b].Shaped() && Kind(blk.views[b], blk.total) == FREE ==>
                           blk.views[b] == BlankBlock()
    modifies blk, blk.next, blk.chip.mem
    ensures blk.Valid() && |blk.views| == |old(blk.views)| == blk.total
    ensures forall b :: 0 <= b < blk.total ==>
                          old(blk.views)[b].Shaped() && blk.views[b].Shaped()
                            && blk.views[b] == AfterScan(old(blk.views)[b], blk.total)
    ensures Scanned(blk.views, blk.chains, blk.total, blk.total)
  {
    hide BlockDriver.ListsHeld, BlockDriver.CacheCoherent, BlockDriver.FlashShown;
    ScanBlocks(blk);
    forall k | 0 <= k < |blk.chains[FREE]|
      ensures 0 <= blk.chains[FREE][k] < |blk.views| && blk.views[blk.chains[FREE][k]] == BlankBlock()
    {
      var b := blk.chains[FREE][k];
      AfterScanKind(old(blk.views)[b], blk.total);
    }
    var status := VerifyFreeSpace(blk);
  }

  // ----- What is on the flash -----

  /** The blocks hold these files: what a mount has to find.  Nothing here speaks of RAM. */
  ghost predicate OnFlash(views: seq<Block>, chains: Chains, sizes: seq<int>, raws: seq<seq<byte>>, total: nat) {
    && |views| == total && (forall b :: 0 <= b < total ==> views[b].Shaped())
    && |chains| == LISTS && |sizes| == MAX_FILES && |raws| == MAX_FILES
    && Stored(views, chains, sizes, raws, -1) && Disjoint(chains) && Covering(chains, total)
    && forall id :: 0 <= id < LISTS ==> |chains[id]| <= total
  }

  /** The header of a block tells the list it is on. */
  lemma KindListed(views: seq<Block>, chains: Chains, sizes: seq<int>, raws: seq<seq<byte>>, total: nat, i: nat, k: nat)
    requires OnFlash(views, chains, sizes, raws, total) && i < LISTS && k < |chains[i]|
    ensures 0 <= chains[i][k] < total && Kind(views[chains[i][k]], total) == i
  {
    if i >= FIRST_FILE {
      var f := i - FIRST_FILE;
      assert FileOk(views, FileList(chains, f), f, sizes[f], raws[f], false);
      FileBlocks(views, chains, sizes, raws, -1, f, k);
    }
  }

  /** A block is on the list its header tells. */
  lemma ListedByKind(views: seq<Block>, chains: Chains, sizes: seq<int>, raws: seq<seq<byte>>, total: nat, b: nat)
    requires OnFlash(views, chains, sizes, raws, total) && b < total
    ensures 0 <= Kind(views[b], total) < LISTS && b in chains[Kind(views[b], total)]
    ensures AfterScan(views[b], total) == views[b]
  {
    assert Listed(chains, b);
    var i, k :| 0 <= i < |chains| && 0 <= k < |chains[i]| && chains[i][k] == b;
    KindListed(views, chains, sizes, raws, total, i, k);
  }

  // ----- Collecting the blocks of each file -----

  /** All free and dirty blocks are listed, and of the file blocks those below n. */
  ghost predicate Collected(views: seq<Block>, chains: Chains, n: nat, total: nat)
    requires n <= |views| == total && forall b :: 0 <= b < total ==> views[b].Shaped()
  {
    && |chains| == LISTS
    && chains[FREE] == OfKind(views, total, FREE, total) && chains[DIRTY] == OfKind(views, total, DIRTY, total)
    && forall id :: FIRST_FILE <= id < LISTS ==> chains[id] == OfKind(views, n, id, total)
  }

  lemma CollectedUnlisted(views: seq<Block>, chains: Chains, n: nat, total: nat)
    requires n < |views| == total && (forall b :: 0 <= b < total ==> views[b].Shaped())
             && Collected(views, chains, n, total)
    requires Kind(views[n], total) >= FIRST_FILE
    ensures !Listed(chains, n)
  {
    forall i, k | 0 <= i < |chains| && 0 <= k < |chains[i]| ensures chains[i][k] != n {
      if i == FREE || i == DIRTY {
        assert Kind(views[chains[i][k]], total) == i;
      } else {
        assert chains[i] == OfKind(views, n, i, total);
      }
    }
  }

  lemma CollectedNext(views: seq<Block>, chains: Chains, n: nat, total: nat)
    requires n < |views| == total && (forall b :: 0 <= b < total ==> views[b].Shaped())
             && Collected(views, chains, n, total)
    requires Kind(views[n], total) >= 0
    ensures var kind := Kind(views[n], total);
            Collected(views, if kind >= FIRST_FILE then chains[kind := chains[kind] + [n]] else chains, n + 1, total)
  {
  }

  /** The first loop of ffs_page_v_init: every file block joins its file's list, in physical order. */
  method CollectFiles(pd: PageDriver, ghost chains0: Chains, ghost sizes0: seq<int>, ghost raws0: seq<seq<byte>>)
    requires pd.Base() && OnFlash(pd.blk.views, chains0, sizes0, raws0, pd.blk.total)
    requires Collected(pd.blk.views, pd.blk.chains, 0, pd.blk.total) && pd.sizes == seq(MAX_FILES, _ => -1)
    modifies pd.files, pd.blk`freeList, pd.blk`dirtyList, pd.blk`freeBlocks, pd.blk`dirtyBlocks, pd.blk`chains,
             pd.blk.next
    ensures pd.Base() && Collected(pd.blk.views, pd.blk.chains, pd.blk.total, pd.blk.total)
  {
    hide BlockDriver.ListsHeld, BlockDriver.CacheCoherent, BlockDriver.FlashShown, Listed, Stored, Covering, OfKind,
         Kind, Collected, PageDriver.Table, PageDriver.CacheShape, Disjoint, AfterScan;
    var blk := pd.blk;
    for i := 0 to blk.total
      invariant pd.Base() && Collected(blk.views, blk.chains, i, blk.total)
    {
      ListedByKind(blk.views, chains0, sizes0, raws0, blk.total, i);
      CollectedNext(blk.views, blk.chains, i, blk.total);
      if Kind(blk.views[i], blk.total) >= FIRST_FILE {
        CollectedUnlisted(blk.views, blk.chains, i, blk.total);
      }
      CollectOne(pd, i);
    }
  }

  method CollectOne(pd: PageDriver, i: nat)
    requires pd.Base() && i < pd.blk.total && pd.blk.views[i].Shaped() && Kind(pd.blk.views[i], pd.blk.total) >= 0
    requires Kind(pd.blk.views[i], pd.blk.total) >= FIRST_FILE ==> !Listed(pd.blk.chains, i)
    modifies pd.files, pd.blk`freeList, pd.blk`dirtyList, pd.blk`freeBlocks, pd.blk`dirtyBlocks, pd.blk`chains,
             pd.blk.next
    ensures pd.Base() && |old(pd.blk.chains)| == LISTS
    ensures var kind := Kind(pd.blk.views[i], pd.blk.total);
            pd.blk.chains == if kind >= FIRST_FILE then old(pd.blk.chains)[kind := old(pd.blk.chains)[kind] + [i]]
                             else old(pd.blk.chains)
  {
    hide BlockDriver.ListsHeld, BlockDriver.CacheCoherent, BlockDriver.FlashShown, Listed;
    var blk := pd.blk;
    var flags := blk.ReadFlags(i);
    if flags == FLAGS_VALID {
      var status, meta := blk.ReadMeta(i);
      if status < 0 {
        assert false;
      }
      var f := meta[OFF_FILE_ID];
      var head := blk.AddToList(FIRST_FILE + f, pd.files[f].start, i);
      pd.files[f] := FileInfo(head, pd.files[f].size);
    }
  }

  // ----- Putting one file in order -----

  /** Block b of the collected list is the block of the file that its header numbers. */
  lemma CollectedBlock(views: seq<Block>, chains0: Chains, sizes: seq<int>, raws: seq<seq<byte>>, total: nat, f: nat,
                       k: nat)
    requires OnFlash(views, chains0, sizes, raws, total) && f < MAX_FILES
    requires k < |OfKind(views, total, FIRST_FILE + f, total)|
    ensures var b := OfKind(views, total, FIRST_FILE + f, total)[k];
            var l := FileList(chains0, f);
            && 0 <= b < total && views[b].Shaped() && views[b].meta[OFF_FILE_ID] < MAX_FILES
            && views[b].meta[OFF_BLOCK] < |l| <= total && l[views[b].meta[OFF_BLOCK]] == b
  {
    var b := OfKind(views, total, FIRST_FILE + f, total)[k];
    ListedByKind(views, chains0, sizes, raws, total, b);
    var l := FileList(chains0, f);
    var j :| 0 <= j < |l| && l[j] == b;
    assert FileOk(views, l, f, sizes[f], raws[f], false);
    FileBlocks(views, chains0, sizes, raws, -1, f, j);
  }

  /** Every block of the file has been collected. */
  lemma FileCollected(views: seq<Block>, chains0: Chains, sizes: seq<int>, raws: seq<seq<byte>>, total: nat, f: nat,
                      j: nat)
    requires OnFlash(views, chains0, sizes, raws, total) && f < MAX_FILES && j < |FileList(chains0, f)|
    ensures 0 <= FileList(chains0, f)[j] < total
    ensures FileList(chains0, f)[j] in OfKind(views, total, FIRST_FILE + f, total)
  {
    KindListed(views, chains0, sizes, raws, total, FIRST_FILE + f, j);
    OfKindHas(views, total, FIRST_FILE + f, total, FileList(chains0, f)[j]);
  }

  /** The map after the first k collected blocks: entry j holds block j of the file if that is
      among them. */
  ghost predicate MapOf(fileMap: seq<int>, l: seq<int>, collected: seq<int>, k: nat)
    requires k <= |collected|
  {
    && |l| <= |fileMap|
    && forall j :: 0 <= j < |fileMap| ==>
                     fileMap[j] == if j < |l| && l[j] in collected[..k] then l[j] else INVALID
  }

  ghost predicate Ascending(s: seq<int>) {
    forall i, j :: 0 <= i < j < |s| ==> s[i] < s[j]
  }

  ghost predicate NoRepeat(s: seq<int>) {
    forall i, j :: 0 <= i < j < |s| ==> s[i] != s[j]
  }

  ghost predicate AllIn(s: seq<int>, t: seq<int>) {
    forall i :: 0 <= i < |s| ==> s[i] in t
  }

  lemma MapNext(fileMap: seq<int>, l: seq<int>, collected: seq<int>, k: nat, m: nat)
    requires k < |collected| && MapOf(fileMap, l, collected, k) && m < |l| && l[m] == collected[k] != INVALID
    requires Ascending(collected) && NoRepeat(l)
    ensures |l| <= |fileMap| && fileMap[m] == INVALID && MapOf(fileMap[m := collected[k]], l, collected, k + 1)
  {
    assert l[m] !in collected[..k];
    assert collected[..k + 1] == collected[..k] + [collected[k]];
  }

  lemma MapDone(fileMap: seq<int>, l: seq<int>, collected: seq<int>)
    requires MapOf(fileMap, l, collected, |collected|) && AllIn(l, collected)
    ensures |l| <= |fileMap| && forall j :: 0 <= j < |fileMap| ==> fileMap[j] == if j < |l| then l[j] else INVALID
  {
    assert collected[..|collected|] == collected;
  }

  lemma MapStart(total: nat, l: seq<int>, collected: seq<int>)
    requires |l| <= total
    ensures MapOf(seq(total, _ => INVALID), l, collected, 0)
  {
  }

  /** ffs_page.c:162-222: walks the collected list and enters each block under its number. */
  method MapFile(pd: PageDriver, f: nat, ghost chains0: Chains, ghost sizes0: seq<int>, ghost raws0: seq<seq<byte>>)
    returns (fileMap: array<int>)
    requires pd.Base() && f < MAX_FILES && |chains0| == LISTS
             && OnFlash(pd.blk.views, chains0, sizes0, raws0, pd.blk.total)
    requires FileList(pd.blk.chains, f) == OfKind(pd.blk.views, pd.blk.total, FIRST_FILE + f, pd.blk.total)
    ensures fresh(fileMap) && fileMap.Length == pd.blk.total
    ensures var l := FileList(chains0, f);
            && |l| <= fileMap.Length
            && forall j :: 0 <= j < fileMap.Length ==> fileMap[j] == if j < |l| then l[j] else INVALID
  {
    hide BlockDriver.ListsHeld, BlockDriver.CacheCoherent, BlockDriver.FlashShown, OfKind, Kind, OnFlash, MapOf,
         PageDriver.Table, PageDriver.CacheShape, Ascending, NoRepeat, AllIn;
    var blk := pd.blk;
    ghost var views, l, collected := blk.views, FileList(chains0, f), FileList(blk.chains, f);
    fileMap := new int[blk.total](_ => INVALID);
    blk.InRange(FIRST_FILE + f);
    MapFacts(views, chains0, sizes0, raws0, blk.total, f);
    MapStart(blk.total, l, collected);
    assert fileMap[..] == seq(blk.total, _ => INVALID);
    pd.Start(f);
    var block := pd.files[f].start;
    ghost var k := 0;
    while block != INVALID
      invariant 0 <= k <= |collected| && block == if k < |collected| then collected[k] else INVALID
      invariant fileMap.Length == blk.total && MapOf(fileMap[..], l, collected, k)
      modifies fileMap
      decreases |collected| - k
    {
      CollectedBlock(views, chains0, sizes0, raws0, blk.total, f, k);
      MapBlock(blk, fileMap, block, l, collected, k);
      blk.Follow(FIRST_FILE + f, k);
      block := blk.Next(block);
      k := k + 1;
    }
    MapDone(fileMap[..], l, collected);
  }

  /** Enters one block under its number. */
  method MapBlock(blk: BlockDriver, fileMap: array<int>, block: nat, ghost l: seq<int>, ghost collected: seq<int>,
                  ghost k: nat)
    requires blk.FlashShown() && block < blk.total && blk.views[block].Shaped()
    requires k < |collected| && block == collected[k] != INVALID && MapOf(fileMap[..], l, collected, k)
    requires Ascending(collected) && NoRepeat(l)
    requires var n := blk.views[block].meta[OFF_BLOCK]; n < |l| && l[n] == block
    modifies fileMap
    ensures MapOf(fileMap[..], l, collected, k + 1)
  {
    hide BlockDriver.FlashShown, MapOf, Ascending, NoRepeat;
    var status, meta := blk.ReadMeta(block);
    MapNext(fileMap[..], l, collected, k, meta[OFF_BLOCK]);
    if fileMap[meta[OFF_BLOCK]] != INVALID {
      // two blocks with one number: not on a flash that was left clean
      assert false;
    }
    ghost var before := fileMap[..];
    fileMap[meta[OFF_BLOCK]] := block;
    assert fileMap[..] == before[meta[OFF_BLOCK] := block];
  }

  lemma MapFacts(views: seq<Block>, chains0: Chains, sizes: seq<int>, raws: seq<seq<byte>>, total: nat, f: nat)
    requires OnFlash(views, chains0, sizes, raws, total) && f < MAX_FILES
    ensures var l := FileList(chains0, f);
            var collected := OfKind(views, total, FIRST_FILE + f, total);
            && |l| <= total && Ascending(collected) && NoRepeat(l) && AllIn(l, collected)
  {
    Distinct(chains0, FIRST_FILE + f);
    forall j | 0 <= j < |FileList(chains0, f)|
      ensures FileList(chains0, f)[j] in OfKind(views, total, FIRST_FILE + f, total) {
      FileCollected(views, chains0, sizes, raws, total, f, j);
    }
  }

  lemma Distinct(chains: Chains, id: nat)
    requires Disjoint(chains) && id < |chains|
    ensures forall i, j :: 0 <= i < j < |chains[id]| ==> chains[id][i] != chains[id][j]
  {
  }

  /** A file's block that is not relinked yet is on no list. */
  lemma RelinkUnlisted(chains: Chains, id: nat, l: seq<int>, i: nat)
    requires Disjoint(chains) && id < |chains| && i < |l| && l[i] in chains[id]
    requires forall j, k :: 0 <= j < k < |l| ==> l[j] != l[k]
    ensures !Listed(chains[id := l[..i]], l[i])
  {
    var c := chains[id := l[..i]];
    var m :| 0 <= m < |chains[id]| && chains[id][m] == l[i];
    forall j, k | 0 <= j < |c| && 0 <= k < |c[j]| ensures c[j][k] != l[i] {
      if j != id {
        assert c[j][k] == chains[j][k];
        assert chains[j][k] == chains[id][m] ==> j == id;
      }
    }
  }

  /** ffs_page.c:224-237: links the mapped blocks in the order of their numbers. */
  method RelinkFile(pd: PageDriver, f: nat, fileMap: array<int>, ghost l: seq<int>)
    requires pd.Base() && f < MAX_FILES && fileMap.Length == pd.blk.total && |l| <= fileMap.Length
    requires fileMap != pd.blk.next
    requires forall j :: 0 <= j < fileMap.Length ==> fileMap[j] == if j < |l| then l[j] else INVALID
    requires forall j, k :: 0 <= j < k < |l| ==> l[j] != l[k]
    requires forall j :: 0 <= j < |l| ==> l[j] in FileList(pd.blk.chains, f)
    modifies pd.files, pd.blk`freeList, pd.blk`dirtyList, pd.blk`freeBlocks, pd.blk`dirtyBlocks, pd.blk`chains,
             pd.blk.next
    ensures pd.Base() && |old(pd.blk.chains)| == LISTS && pd.blk.chains == old(pd.blk.chains)[FIRST_FILE + f := l]
  {
    hide BlockDriver.ListsHeld, BlockDriver.CacheCoherent, BlockDriver.FlashShown, Listed, PageDriver.CacheShape;
    var blk := pd.blk;
    ghost var chains1 := blk.chains;
    blk.InRange(FIRST_FILE + f);
    blk.Apart();
    pd.files[f] := FileInfo(INVALID, pd.files[f].size);
    blk.DropList(FIRST_FILE + f);
    var i := 0;
    while i < blk.total && fileMap[i] != INVALID
      invariant 0 <= i <= |l|
      invariant pd.Base() && blk.chains == chains1[FIRST_FILE + f := l[..i]]
      invariant forall j :: 0 <= j < fileMap.Length ==> fileMap[j] == if j < |l| then l[j] else INVALID
    {
      RelinkUnlisted(chains1, FIRST_FILE + f, l, i);
      var head := blk.AddToList(FIRST_FILE + f, pd.files[f].start, fileMap[i]);
      pd.files[f] := FileInfo(head, pd.files[f].size);
      assert l[..i + 1] == l[..i] + [l[i]];
      i := i + 1;
    }
    assert l[..i] == l;
  }

  // ----- The size of a file -----

  /** ffs_page_i32_scan_file_size: finds the last page of the last block and where it ends. */
  method ScanFileSize(pd: PageDriver, f: nat) returns (size: int)
    requires pd.Base() && f < MAX_FILES && pd.Held(f) && |FileList(pd.blk.chains, f)| == BlockCount(|pd.raws[f]|)
    requires pd.cacheFile != f
    modifies pd`cachePage, pd`cacheNumber, pd`cacheFile, pd.blk`cacheBlock, pd.blk`cacheIndex
    ensures pd.Base() && size == |pd.raws[f]|
    ensures if pd.raws[f] == [] then pd.cacheFile == old(pd.cacheFile) && pd.cacheNumber == old(pd.cacheNumber)
            && pd.cachePage == old(pd.cachePage)
            else && pd.cacheFile == f && HasPage(pd.raws[f], pd.cacheNumber)
                 && IsCurrent(pd.blk.views, FileList(pd.blk.chains, f), pd.cacheNumber, pd.cachePage)
  {
    hide BlockDriver.ListsHeld, BlockDriver.CacheCoherent, BlockDriver.FlashShown, PageDriver.Table, BodyHolds,
         AppendOnly, Highest, MetaIs, IsCurrent, Newest, SlotHolds;
    var blk := pd.blk;
    pd.Start(f);
    blk.Bounded(FIRST_FILE + f);
    var blockCount := blk.ListSize(FIRST_FILE + f, pd.files[f].start);
    var k := blockCount - 1;
    var block := blk.GetBlock(FIRST_FILE + f, pd.files[f].start, k);
    if block == INVALID {
      return 0;
    }
    ghost var raw, v := pd.raws[f], blk.views[block];
    assert BlockHolds(v, f, k, raw);
    LastPage(v, f, k, raw);
    var status, info := blk.GetIndexInfo(block);
    if info.dataPages == 0 && k > 0 {
      // the last block of a longer file is not empty
      assert false;
    }
    if info.logicalLastPage < 0 {
      return 0;
    }
    var lastPage := k * DATA_PAGES + info.logicalLastPage;
    assert lastPage == (|raw| - 1) / 64 && lastPage / DATA_PAGES == k;
    status := pd.PageRead(f, lastPage);
    SlotChecked(pd.cachePage, PageBytes(raw, lastPage));
    size := lastPage * PAGE_DATA_SIZE + pd.cachePage[0];
  }

  lemma LastPage(v: Block, f: nat, k: nat, raw: seq<byte>)
    requires BlockHolds(v, f, k, raw) && k + 1 == BlockCount(|raw|)
    ensures v.Shaped() && AppendOnly(v.index)
    ensures Highest(v.index) == if raw == [] then -1 else (|raw| - 1) / 64 - 51 * k
    ensures raw != [] ==> 0 <= (|raw| - 1) / 64 - 51 * k < 51
  {
    if raw == [] {
      HighestOfEmpty(v, k, raw);
    } else {
      HighestIsLast(v, k, raw);
    }
  }

  /** ffs_page_i8_file_scan: every page reads back, and all but the last are full. */
  method FileScan(pd: PageDriver, f: nat) returns (status: int)
    requires pd.Base() && pd.CacheOk() && f < MAX_FILES && pd.Held(f)
    requires pd.sizes[f] == |pd.raws[f]| && |FileList(pd.blk.chains, f)| == BlockCount(|pd.raws[f]|)
    modifies pd`cachePage, pd`cacheNumber, pd`cacheFile, pd.blk`cacheBlock, pd.blk`cacheIndex
    ensures pd.Base() && pd.CacheOk() && status == STATUS_OK
    ensures pd.cacheFile == old(pd.cacheFile) || pd.cacheFile == f || pd.cacheFile == -1
  {
    hide BlockDriver.ListsHeld, BlockDriver.CacheCoherent, BlockDriver.FlashShown, PageDriver.Table, BodyHolds,
         SlotHolds, Coherent, FileHolds;
    pd.Start(f);
    pd.blk.Bounded(FIRST_FILE + f);
    var size := pd.files[f].size;
    var pages := size / PAGE_DATA_SIZE;
    if size % PAGE_DATA_SIZE > 0 {
      pages := pages + 1;
    }
    if size == 0 {
      var seek, block, slot := pd.SeekPage(f, 0);
      return if seek != STATUS_EOF then STATUS_ERROR else STATUS_OK;
    }
    status := STATUS_OK;
    for i := 0 to pages
      invariant pd.Base() && pd.CacheOk() && status == STATUS_OK
      invariant pd.cacheFile == old(pd.cacheFile) || pd.cacheFile == f || pd.cacheFile == -1
      modifies pd`cachePage, pd`cacheNumber, pd`cacheFile, pd.blk`cacheBlock, pd.blk`cacheIndex
    {
      status := pd.ReadCoherent(f, i);
      SlotChecked(pd.cachePage, PageBytes(pd.raws[f], i));
      if status < 0 || (i < pages - 1 && pd.cachePage[0] != PAGE_DATA_SIZE) {
        // a page is missing or short: not on a flash that was left clean
        assert false;
      }
    }
  }

  // ----- Mounting -----

  /** The mount has put the files below `file` in order; the blocks of the others are collected. */
  ghost predicate Mounting(pd: PageDriver, chains0: Chains, sizes0: seq<int>, raws0: seq<seq<byte>>, file: nat)
    reads pd, pd.files, pd.blk, pd.blk.next, pd.blk.chip.mem
  {
    && pd.Base() && pd.CacheOk() && pd.cacheFile < file && pd.raws == raws0
    && OnFlash(pd.blk.views, chains0, sizes0, raws0, pd.blk.total)
    && PartlyInOrder(pd.blk.views, pd.blk.chains, pd.sizes, chains0, sizes0, file, pd.blk.total)
  }

  ghost predicate PartlyInOrder(views: seq<Block>, chains: Chains, sizes: seq<int>, chains0: Chains, sizes0: seq<int>,
                                file: nat, total: nat)
    requires |views| == total && forall b :: 0 <= b < total ==> views[b].Shaped()
  {
    && |chains| == LISTS && |chains0| == LISTS && |sizes| == MAX_FILES && |sizes0| == MAX_FILES
    && chains[FREE] == OfKind(views, total, FREE, total) && chains[DIRTY] == OfKind(views, total, DIRTY, total)
    && forall g: nat :: g < MAX_FILES ==>
                          if g < file then FileList(chains, g) == FileList(chains0, g) && sizes[g] == sizes0[g]
                          else FileList(chains, g) == OfKind(views, total, FIRST_FILE + g, total) && sizes[g] == -1
  }

  /** The next file is in order once its list and size are those on the flash. */
  lemma OneMoreInOrder(views: seq<Block>, chains: Chains, sizes: seq<int>, chains0: Chains, sizes0: seq<int>,
                       file: nat, total: nat)
    requires |views| == total && (forall b :: 0 <= b < total ==> views[b].Shaped()) && file < MAX_FILES
    requires PartlyInOrder(views, chains, sizes, chains0, sizes0, file, total)
    ensures PartlyInOrder(views, chains[FIRST_FILE + file := FileList(chains0, file)], sizes[file := sizes0[file]],
                          chains0, sizes0, file + 1, total)
  {
    var chains' := chains[FIRST_FILE + file := FileList(chains0, file)];
    var sizes' := sizes[file := sizes0[file]];
    forall g: nat | g < MAX_FILES
      ensures if g < file + 1 then FileList(chains', g) == FileList(chains0, g) && sizes'[g] == sizes0[g]
              else FileList(chains', g) == OfKind(views, total, FIRST_FILE + g, total) && sizes'[g] == -1
    {
      assert g != file ==> FileList(chains', g) == FileList(chains, g) && sizes'[g] == sizes[g];
    }
  }

  /** A file with no collected blocks does not exist; one with blocks does. */
  lemma FileExists(views: seq<Block>, chains0: Chains, sizes0: seq<int>, raws0: seq<seq<byte>>, total: nat, f: nat)
    requires OnFlash(views, chains0, sizes0, raws0, total) && f < MAX_FILES
    ensures if OfKind(views, total, FIRST_FILE + f, total) == [] then FileList(chains0, f) == [] && sizes0[f] == -1
            else && sizes0[f] == |raws0[f]| && |FileList(chains0, f)| == BlockCount(|raws0[f]|)
                 && FileHolds(views, FileList(chains0, f), f, raws0[f])
  {
    assert FileOk(views, FileList(chains0, f), f, sizes0[f], raws0[f], false);
    if FileList(chains0, f) != [] {
      FileCollected(views, chains0, sizes0, raws0, total, f, 0);
    }
    if OfKind(views, total, FIRST_FILE + f, total) != [] {
      CollectedBlock(views, chains0, sizes0, raws0, total, f, 0);
    }
  }

  /** The list is in order: the size is read off the last page and every page is checked. */
  method SettleFile(pd: PageDriver, f: nat)
    requires pd.Base() && pd.CacheOk() && pd.cacheFile < f < MAX_FILES && pd.Held(f)
    requires |FileList(pd.blk.chains, f)| == BlockCount(|pd.raws[f]|)
    modifies pd`cachePage, pd`cacheNumber, pd`cacheFile, pd`sizes, pd.files, pd.blk`cacheBlock, pd.blk`cacheIndex
    ensures pd.Base() && pd.CacheOk() && pd.cacheFile <= f && pd.sizes == old(pd.sizes)[f := |pd.raws[f]|]
  {
    hide BlockDriver.ListsHeld, BlockDriver.CacheCoherent, BlockDriver.FlashShown, FileHolds, IsCurrent;
    var size := ScanFileSize(pd, f);
    pd.files[f] := FileInfo(pd.files[f].start, size);
    pd.sizes := pd.sizes[f := |pd.raws[f]|];
    var status := FileScan(pd, f);
    if size < 0 || status < 0 {
      // the file would be deleted: not on a flash that was left clean
      assert false;
    }
  }

  /** ffs_page_v_init for one file. */
  method MountFile(pd: PageDriver, f: nat, ghost chains0: Chains, ghost sizes0: seq<int>, ghost raws0: seq<seq<byte>>)
    requires f < MAX_FILES && Mounting(pd, chains0, sizes0, raws0, f)
    modifies pd`cachePage, pd`cacheNumber, pd`cacheFile, pd`sizes, pd.files, pd.blk`cacheBlock, pd.blk`cacheIndex,
             pd.blk`freeList, pd.blk`dirtyList, pd.blk`freeBlocks, pd.blk`dirtyBlocks, pd.blk`chains, pd.blk.next
    ensures Mounting(pd, chains0, sizes0, raws0, f + 1)
  {
    hide BlockDriver.ListsHeld, BlockDriver.CacheCoherent, BlockDriver.FlashShown, PageDriver.Table,
         PageDriver.CacheShape, FileHolds, OfKind, Kind, Stored, Coherent, Covering, Disjoint, BlockCount;
    var blk := pd.blk;
    ghost var l, chains1, sizes1 := FileList(chains0, f), blk.chains, pd.sizes;
    pd.Start(f);
    blk.InRange(FIRST_FILE + f);
    FileExists(blk.views, chains0, sizes0, raws0, blk.total, f);
    OneMoreInOrder(blk.views, chains1, sizes1, chains0, sizes0, f, blk.total);
    if pd.files[f].start == INVALID {
      assert chains1[FIRST_FILE + f := l] == chains1 && sizes1[f := sizes0[f]] == sizes1;
      return;
    }
    var fileMap := MapFile(pd, f, chains0, sizes0, raws0);
    for i := 0 to blk.total - 1 {
      if fileMap[i] == INVALID && fileMap[i + 1] != INVALID {
        // a block is missing: not on a flash that was left clean
        assert false;
      }
    }
    MapFacts(blk.views, chains0, sizes0, raws0, blk.total, f);
    RelinkFile(pd, f, fileMap, l);
    CoherentOthers(pd.blk.views, chains1, blk.chains, pd.sizes, pd.raws, pd.cacheFile, pd.cacheNumber, pd.cachePage,
                   f, l);
    SettleFile(pd, f);
  }

  /** Reordering one file's list does not concern a cache that names another file. */
  lemma CoherentOthers(views: seq<Block>, chains: Chains, chains': Chains, sizes: seq<int>, raws: seq<seq<byte>>,
                       file: int, number: nat, page: seq<byte>, f: nat, l: seq<int>)
    requires Coherent(views, chains, sizes, raws, file, number, page) && file < f < MAX_FILES && |chains| == LISTS
    requires chains' == chains[FIRST_FILE + f := l]
    ensures Coherent(views, chains', sizes, raws, file, number, page)
  {
    if 0 <= file {
      assert FileList(chains', file) == FileList(chains, file);
    }
  }

  /** When every file is in order the store is whole again. */
  lemma MountedStore(views: seq<Block>, chains: Chains, sizes: seq<int>, chains0: Chains, sizes0: seq<int>,
                     raws0: seq<seq<byte>>, total: nat)
    requires OnFlash(views, chains0, sizes0, raws0, total)
    requires PartlyInOrder(views, chains, sizes, chains0, sizes0, MAX_FILES, total)
    ensures sizes == sizes0 && Stored(views, chains, sizes, raws0, -1) && Covering(chains, total)
    ensures forall f: nat :: f < MAX_FILES ==> FileList(chains, f) == FileList(chains0, f)
  {
    forall f: nat | f < MAX_FILES
      ensures FileOk(views, FileList(chains, f), f, sizes[f], raws0[f], false) && sizes[f] == sizes0[f] {
      assert FileOk(views, FileList(chains0, f), f, sizes0[f], raws0[f], false);
    }
    forall k | 0 <= k < |chains[FREE]|
      ensures 0 <= chains[FREE][k] < |views| && views[chains[FREE][k]] == BlankBlock() {
      ListedByKind(views, chains0, sizes0, raws0, total, chains[FREE][k]);
    }
    forall b | 0 <= b < total ensures Listed(chains, b) {
      ListedByKind(views, chains0, sizes0, raws0, total, b);
      var id := Kind(views[b], total);
      OfKindHas(views, total, id, total, b);
      assert id >= FIRST_FILE ==> chains[id] == FileList(chains, id - FIRST_FILE);
      assert b in chains[id];
      var k :| 0 <= k < |chains[id]| && chains[id][k] == b;
    }
  }

  /** ffs_page_v_init, after the block driver has mounted. */
  method PageInit(pd: PageDriver, ghost chains0: Chains, ghost sizes0: seq<int>, ghost raws0: seq<seq<byte>>)
    requires pd.blk.Valid() && pd.files.Length == MAX_FILES && |pd.cachePage| == SLOT_SIZE
             && |pd.blk.views| == pd.blk.total
    requires OnFlash(pd.blk.views, chains0, sizes0, raws0, pd.blk.total)
    requires Scanned(pd.blk.views, pd.blk.chains, pd.blk.total, pd.blk.total)
    modifies pd, pd.files, pd.blk`cacheBlock, pd.blk`cacheIndex,
             pd.blk`freeList, pd.blk`dirtyList, pd.blk`freeBlocks, pd.blk`dirtyBlocks, pd.blk`chains, pd.blk.next
    ensures pd.Valid() && pd.sizes == sizes0 && pd.raws == raws0 && |pd.blk.chains| == |chains0| == LISTS
    ensures forall f: nat :: f < MAX_FILES ==> FileList(pd.blk.chains, f) == FileList(chains0, f)
    ensures pd.blk.chains[FREE] == OfKind(pd.blk.views, pd.blk.total, FREE, pd.blk.total)
    ensures pd.blk.chains[DIRTY] == OfKind(pd.blk.views, pd.blk.total, DIRTY, pd.blk.total)
  {
    hide BlockDriver.ListsHeld, BlockDriver.CacheCoherent, BlockDriver.FlashShown, Kind, Stored, Covering, Disjoint;
    pd.InvalidateCache();
    for i := 0 to MAX_FILES
      modifies pd.files
      invariant forall j :: 0 <= j < i ==> pd.files[j] == FileInfo(INVALID, -1)
    {
      pd.files[i] := FileInfo(INVALID, -1);
    }
    pd.sizes := seq(MAX_FILES, _ => -1);
    pd.raws := raws0;
    CollectFiles(pd, chains0, sizes0, raws0);
    for f := 0 to MAX_FILES
      modifies pd, pd.files, pd.blk`cacheBlock, pd.blk`cacheIndex,
               pd.blk`freeList, pd.blk`dirtyList, pd.blk`freeBlocks, pd.blk`dirtyBlocks, pd.blk`chains, pd.blk.next
      invariant Mounting(pd, chains0, sizes0, raws0, f)
    {
      MountFile(pd, f, chains0, sizes0, raws0);
    }
    MountedStore(pd.blk.views, pd.blk.chains, pd.sizes, chains0, sizes0, raws0, pd.blk.total);
  }

  /** ffs_v_mount.  Whatever RAM held, the files on a flash that was left clean come back: the
      same ids, each with the same blocks in the same order, the same size and the same bytes. */
  method Mount(pd: PageDriver, ghost chains0: Chains, ghost sizes0: seq<int>, ghost raws0: seq<seq<byte>>)
    requires pd.blk.FlashShown() && pd.blk.next.Length == pd.blk.total && pd.files.Length == MAX_FILES
    requires |pd.cachePage| == SLOT_SIZE && OnFlash(pd.blk.views, chains0, sizes0, raws0, pd.blk.total)
    modifies pd, pd.files, pd.blk, pd.blk.next, pd.blk.chip.mem
    ensures pd.Valid() && pd.sizes == sizes0 && pd.raws == raws0 && |pd.blk.chains| == |chains0| == LISTS
    ensures forall f: nat :: f < MAX_FILES ==> FileList(pd.blk.chains, f) == FileList(chains0, f)
    ensures pd.blk.views == old(pd.blk.views)
  {
    hide BlockDriver.ListsHeld, BlockDriver.CacheCoherent, BlockDriver.FlashShown, Kind, Stored, Covering, Disjoint,
         OfKind;
    forall b: nat | b < pd.blk.total
      ensures 0 <= Kind(pd.blk.views[b], pd.blk.total)
      ensures Kind(pd.blk.views[b], pd.blk.total) == FREE ==> pd.blk.views[b] == BlankBlock()
      ensures AfterScan(pd.blk.views[b], pd.blk.total) == pd.blk.views[b]
    {
      ListedByKind(pd.blk.views, chains0, sizes0, raws0, pd.blk.total, b);
      if Kind(pd.blk.views[b], pd.blk.total) == FREE {
        FreeIsBlank(pd.blk.views, chains0, sizes0, raws0, pd.blk.total, b);
      }
    }
    BlockInit(pd.blk);
    assert pd.blk.views == old(pd.blk.views);
    PageInit(pd, chains0, sizes0, raws0);
  }

  lemma FreeIsBlank(views: seq<Block>, chains: Chains, sizes: seq<int>, raws: seq<seq<byte>>, total: nat, b: nat)
    requires OnFlash(views, chains, sizes, raws, total) && b < total && Kind(views[b], total) == FREE
    ensures views[b] == BlankBlock()
  {
    ListedByKind(views, chains, sizes, raws, total, b);
  }

  /** Every state between operations is one a mount can start from. */
  lemma ValidOnFlash(pd: PageDriver)
    requires pd.Valid()
    ensures OnFlash(pd.blk.views, pd.blk.chains, pd.sizes, pd.raws, pd.blk.total)
  {
    AllShaped(pd.blk);
    forall id: nat | id < LISTS ensures |pd.blk.chains[id]| <= pd.blk.total {
      pd.blk.Bounded(id);
    }
  }
}
