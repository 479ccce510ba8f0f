/** Content-COW write-back of a file's dirty pages (src/file_inode/file_inode.c): the pages go to
    fresh LPAs in runs and batches, and only then is the block index switched over. */
module FileWriteback {
  import opened Wrappers
  import opened Bytes
  import opened BlockIndex
  import opened PageCaching
  import opened FileObjects
  import BlockDevice
  import RedoLog

  type Image = RedoLog.Image

  /** A data page that has moved. */
  datatype Relocation = Relocation(block: U32, oldLpa: U32, newLpa: U32)

  // ---- The dirty pages in order ----

  ghost predicate Increasing(s: seq<U32>) {
    forall i, j :: 0 <= i < j < |s| ==> s[i] < s[j]
  }

  ghost predicate AtMost(k: U32, s: set<U32>) {
    forall j :: j in s ==> k <= j
  }

  lemma {:induction false} SmallestExists(s: set<U32>)
    requires s != {}
    ensures exists k :: k in s && AtMost(k, s)
  {
    var x :| x in s;
    var rest := s - {x};
    if rest == {} {
      assert s == {x};
      assert x in s && AtMost(x, s);
    } else {
      SmallestExists(rest);
      var k :| k in rest && AtMost(k, rest);
      assert s == rest + {x};
      assert AtMost(if x < k then x else k, s);
    }
  }

  /** The first key of the dirty tree. */
  method First(pages: set<U32>) returns (k: U32)
    requires pages != {}
    ensures k in pages && AtMost(k, pages)
  {
    SmallestExists(pages);
    k :| k in pages && forall j :: j in pages ==> k <= j;
  }

  /** blocks lists, in order, the pages that come before those still to do. */
  ghost predicate Listed(pages: set<U32>, blocks: seq<U32>, todo: set<U32>) {
    && Increasing(blocks) && todo <= pages && Elements(blocks) == pages - todo
    && forall k :: k in blocks ==> k !in todo && AtMost(k, todo)
  }

  lemma ListedMore(pages: set<U32>, blocks: seq<U32>, todo: set<U32>, k: U32)
    requires Listed(pages, blocks, todo) && k in todo && AtMost(k, todo)
    ensures Listed(pages, blocks + [k], todo - {k})
  {
    var r := blocks + [k];
    assert forall x :: x in r <==> x in blocks || x == k;
    assert Elements(r) == Elements(blocks) + {k};
    forall i, j | 0 <= i < j < |r| ensures r[i] < r[j] {
      assert r[i] == blocks[i] && blocks[i] in blocks;
    }
  }

  lemma ListedBounds(pages: set<U32>)
    ensures Listed(pages, [], pages)
    ensures forall blocks: seq<U32> :: Listed(pages, blocks, {}) ==> Increasing(blocks) && Elements(blocks) == pages
  {
  }

  /** The walk over the dirty tree, in key order. */
  method InOrder(pages: set<U32>) returns (blocks: seq<U32>)
    ensures Increasing(blocks) && Elements(blocks) == pages
  {
    hide Listed, Increasing, Elements;
    ListedBounds(pages);
    blocks := [];
    var todo := pages;
    while todo != {}
      invariant Listed(pages, blocks, todo)
      decreases |todo|
    {
      var k := First(todo);
      ListedMore(pages, blocks, todo, k);
      blocks, todo := blocks + [k], todo - {k};
    }
  }

  // ---- Fresh LPAs for runs of consecutive blocks ----

  function Consecutive(first: U32, n: nat): (s: seq<U32>)
    requires first + n <= 0x1_0000_0000
    ensures |s| == n && forall i :: 0 <= i < n ==> s[i] == first + i
  {
    if n == 0 then [] else Consecutive(first, n - 1) + [first + n - 1]
  }

  /** As long as more blocks than these are free, the allocator has some to give: only the rest of the
      segment that is open for the other kind of blocks is free but cannot be had. */
  const NODE_RESERVE: nat := 512

  /** What superManagerAllocDataLpaRange may answer: some of the free LPAs, one after the other, at
      most as many as are wanted; or none, if no more than the reserve is left. */
  method AllocRange(free: set<U32>, wanted: nat) returns (run: seq<U32>, free': set<U32>)
    ensures |run| <= wanted && Distinct(run) && Elements(run) <= free && free' == free - Elements(run)
    ensures forall i :: 0 <= i < |run| ==> run[i] == run[0] + i
    ensures run == [] && wanted > 0 ==> |free| <= NODE_RESERVE
  {
    var first: U32, n: nat := *, *;
    run, free' := [], free;
    if n <= wanted && first + n <= 0x1_0000_0000 && Elements(Consecutive(first, n)) <= free {
      run := Consecutive(first, n);
    }
    if run == [] && wanted > 0 && |free| > NODE_RESERVE {
      var l :| l in free;
      run := [l];
    }
    free' := free - Elements(run);
  }

  /** The end of the run of consecutive block numbers that starts at i. */
  function RunEnd(blocks: seq<U32>, i: nat): (e: nat)
    requires i < |blocks|
    ensures i < e <= |blocks|
    decreases |blocks| - i
  {
    if i + 1 < |blocks| && blocks[i + 1] as int == blocks[i] as int + 1 then RunEnd(blocks, i + 1) else i + 1
  }

  ghost predicate Taken(free: set<U32>, free': set<U32>, lpas: seq<U32>) {
    Distinct(lpas) && Elements(lpas) <= free && free' == free - Elements(lpas)
  }

  lemma TakenMore(free: set<U32>, now: set<U32>, lpas: seq<U32>, run: seq<U32>)
    requires Taken(free, now, lpas) && Distinct(run) && Elements(run) <= now
    ensures Taken(free, now - Elements(run), lpas + run)
  {
    var all := lpas + run;
    assert forall l :: l in all <==> l in lpas || l in run;
    assert Elements(all) == Elements(lpas) + Elements(run);
    forall i, j | 0 <= i < j < |all| ensures all[i] != all[j] {
      if i < |lpas| <= j { assert all[i] in Elements(lpas) && all[j] in Elements(run); }
    }
  }

  /** Every page gets an LPA of its own; a run takes consecutive LPAs as far as they last. */
  method AssignLpas(blocks: seq<U32>, free: set<U32>) returns (ok: bool, lpas: seq<U32>, free': set<U32>)
    ensures Taken(free, free', lpas) && (ok ==> |lpas| == |blocks|)
    ensures !ok ==> |free| < |blocks| + NODE_RESERVE
  {
    hide Taken;
    lpas, free', ok := [], free, true;
    assert Taken(free, free', lpas) by { TakenNone(free); }
    var i := 0;
    while i < |blocks|
      invariant i == |lpas| <= |blocks| && Taken(free, free', lpas) && ok
    {
      var end := RunEnd(blocks, i);
      var remaining: nat := end - i;
      while remaining > 0
        invariant |lpas| + remaining == end <= |blocks| && Taken(free, free', lpas) && ok
      {
        var run, rest := AllocRange(free', remaining);
        if run == [] {
          TakenSize(free, free', lpas);
          return false, lpas, free';
        }
        TakenMore(free, free', lpas, run);
        lpas, free', remaining := lpas + run, rest, remaining - |run|;
      }
      i := end;
    }
  }

  lemma TakenSize(free: set<U32>, free': set<U32>, lpas: seq<U32>)
    requires Taken(free, free', lpas)
    ensures |free| == |free'| + |lpas| && free' <= free && Elements(lpas) <= free && Distinct(lpas)
  {
    DistinctSize(lpas);
    assert free == free' + Elements(lpas) && free' !! Elements(lpas);
  }

  lemma TakenNone(free: set<U32>)
    ensures Taken(free, free, [])
  {
  }

  // ---- Writing the pages out in batches ----

  const BATCH_PAGES: nat := 32

  /** The device after the first n blocks have been written to their LPAs. */
  ghost predicate Placed(before: Image, after: Image, lpas: seq<U32>, data: seq<Block>, n: nat)
    requires n <= |lpas| == |data|
  {
    && |after| == |before|
    && (forall i :: 0 <= i < n && lpas[i] < |before| ==> after[lpas[i]] == data[i])
    && forall l: nat :: l < |before| && (forall i :: 0 <= i < n ==> lpas[i] != l) ==> after[l] == before[l]
  }

  lemma PlacedMore(before: Image, now: Image, lpas: seq<U32>, data: seq<Block>, n: nat)
    requires n < |lpas| == |data| && Distinct(lpas) && lpas[n] < |before| && Placed(before, now, lpas, data, n)
    ensures Placed(before, now[lpas[n] := data[n]], lpas, data, n + 1)
  {
    var after := now[lpas[n] := data[n]];
    forall l: nat | l < |before| && (forall i :: 0 <= i < n + 1 ==> lpas[i] != l) ensures after[l] == before[l] {
      assert lpas[n] != l;
      assert forall i :: 0 <= i < n ==> lpas[i] != l;
    }
  }

  lemma PlacedNone(before: Image, lpas: seq<U32>, data: seq<Block>)
    requires |lpas| == |data|
    ensures Placed(before, before, lpas, data, 0)
  {
  }

  /** How many pages from i on go out with one request: consecutive blocks at consecutive LPAs. */
  function BatchEnd(blocks: seq<U32>, lpas: seq<U32>, i: nat, j: nat): (e: nat)
    requires |blocks| == |lpas| && i < j <= |blocks| && j <= i + BATCH_PAGES
    ensures j <= e <= |blocks| && e <= i + BATCH_PAGES
    decreases |blocks| - j
  {
    if j < |blocks| && j < i + BATCH_PAGES && blocks[j] == blocks[i] + (j - i) && lpas[j] == lpas[i] + (j - i)
    then BatchEnd(blocks, lpas, i, j + 1) else j
  }

  lemma {:induction false} BatchIsConsecutive(blocks: seq<U32>, lpas: seq<U32>, i: nat, j: nat)
    requires |blocks| == |lpas| && i < j <= |blocks| && j <= i + BATCH_PAGES
    requires forall k :: i <= k < j ==> lpas[k] == lpas[i] + (k - i)
    ensures forall k :: i <= k < BatchEnd(blocks, lpas, i, j) ==> lpas[k] == lpas[i] + (k - i)
    decreases |blocks| - j
  {
    if j < |blocks| && j < i + BATCH_PAGES && blocks[j] == blocks[i] + (j - i) && lpas[j] == lpas[i] + (j - i) {
      BatchIsConsecutive(blocks, lpas, i, j + 1);
    }
  }

  /** One request: the blocks of a batch go to consecutive LPAs. The request may fail half-way. */
  method WriteBatch(dev: BlockDevice.Device, start: U32, batch: seq<Block>,
                    ghost before: Image, ghost lpas: seq<U32>, ghost data: seq<Block>, ghost n: nat)
    returns (ok: bool, ghost done: nat)
    requires n + |batch| <= |lpas| == |data| && Distinct(lpas) && Placed(before, dev.disk, lpas, data, n)
    requires forall k :: 0 <= k < |batch| ==> lpas[n + k] == start + k && data[n + k] == batch[k]
    requires forall l :: l in lpas ==> l < |dev.disk|
    modifies dev`disk, dev`history
    ensures n <= done <= n + |batch| && Placed(before, dev.disk, lpas, data, done)
    ensures (ok ==> done == n + |batch|) && (!ok ==> dev.faulty)
    ensures BlockDevice.OnlyTo(old(dev.history), dev.history, Elements(lpas))
  {
    hide Placed;
    var k := 0;
    assert |dev.disk| == |before| by { PlacedSize(before, dev.disk, lpas, data, n); }
    while k < |batch|
      invariant k <= |batch| && |dev.disk| == |before| && Placed(before, dev.disk, lpas, data, n + k)
      invariant BlockDevice.OnlyTo(old(dev.history), dev.history, Elements(lpas))
    {
      assert lpas[n + k] in Elements(lpas);
      var failed: bool := *;
      if dev.faulty && failed { return false, n + k; }
      PlacedMore(before, dev.disk, lpas, data, n + k);
      ok := dev.WriteBlock(start + k, batch[k]);
      k := k + 1;
    }
    ok, done := true, n + |batch|;
  }

  lemma PlacedSize(before: Image, after: Image, lpas: seq<U32>, data: seq<Block>, n: nat)
    requires n <= |lpas| == |data| && Placed(before, after, lpas, data, n)
    ensures |after| == |before|
  {
  }

  /** The batch loop: every page reaches its LPA, and no other block is touched. */
  method WriteBatches(dev: BlockDevice.Device, blocks: seq<U32>, lpas: seq<U32>, data: seq<Block>)
    returns (ok: bool, ghost done: nat)
    requires |blocks| == |lpas| == |data| && Distinct(lpas) && forall l :: l in lpas ==> l < |dev.disk|
    modifies dev`disk, dev`history
    ensures done <= |lpas| && Placed(old(dev.disk), dev.disk, lpas, data, done)
    ensures (ok ==> done == |lpas|) && (!ok ==> dev.faulty)
    ensures BlockDevice.OnlyTo(old(dev.history), dev.history, Elements(lpas))
  {
    hide Placed;
    ghost var before := dev.disk;
    PlacedNone(before, lpas, data);
    var i := 0;
    while i < |blocks|
      invariant i <= |blocks| && |dev.disk| == |before| && Placed(before, dev.disk, lpas, data, i)
      invariant BlockDevice.OnlyTo(old(dev.history), dev.history, Elements(lpas))
    {
      var end := BatchEnd(blocks, lpas, i, i + 1);
      BatchIsConsecutive(blocks, lpas, i, i + 1);
      ok, done := WriteBatch(dev, lpas[i], data[i..end], before, lpas, data, i);
      PlacedSize(before, dev.disk, lpas, data, done);
      if !ok { return; }
      i := end;
    }
    ok, done := true, i;
  }

  // ---- The pages of the file ----

  /** The LPAs can take data of the file: they are on the device, and no block is mapped to them. */
  ghost predicate Free(s: FileState, free: set<U32>) {
    && (forall l :: l in free ==> l != INVALID_LPA && l < |s.disk|)
    && forall k: nat :: LpaAt(s, k) !in free
  }

  /** Writing to free LPAs shows nothing else. */
  lemma PlacedIsInvisible(s: FileState, disk': Image, lpas: seq<U32>, data: seq<Block>, n: nat, free: set<U32>,
                          size: nat)
    requires Coherent(s) && Tidy(s, size) && Free(s, free) && n <= |lpas| == |data|
    requires Placed(s.disk, disk', lpas, data, n) && forall l :: l in lpas ==> l in free
    ensures var t := s.(disk := disk'); Coherent(t) && Tidy(t, size) && SameBlocks(s, t)
  {
    var t := s.(disk := disk');
    forall k: nat ensures LpaAt(t, k) == LpaAt(s, k) && Stored(t, k) == Stored(s, k) {
      var l := LpaAt(s, k);
      assert l !in free;
      assert forall i :: 0 <= i < n ==> lpas[i] in lpas && lpas[i] != l;
    }
    forall k | k in t.index ensures PageCoherent(t, k) { assert PageCoherent(s, k); }
    forall k: nat ensures BlockOf(t, k) == BlockOf(s, k) { assert Stored(t, k) == Stored(s, k); }
    SameBlocksSameBytes(s, t);
  }

  /** The dirty pages have been written to new LPAs, and the block index does not know yet. */
  ghost predicate Pending(s: FileState, relocs: seq<Relocation>) {
    && (forall i, j :: 0 <= i < j < |relocs| ==> relocs[i].block != relocs[j].block)
    && (forall k :: k in s.index && s.index[k].dirty ==> exists i :: 0 <= i < |relocs| && relocs[i].block == k)
    && forall i :: 0 <= i < |relocs| ==> PendingAt(s, relocs[i])
  }

  ghost predicate PendingAt(s: FileState, r: Relocation) {
    && r.block in s.index && s.index[r.block].dirty
    && r.newLpa != INVALID_LPA && r.newLpa < |s.disk| && s.disk[r.newLpa] == s.index[r.block].data
    && r.oldLpa == LpaAt(s, r.block)
  }

  function Relocations(blocks: seq<U32>, olds: seq<U32>, lpas: seq<U32>): (r: seq<Relocation>)
    requires |blocks| == |olds| == |lpas|
    ensures |r| == |blocks| && forall i :: 0 <= i < |r| ==> r[i] == Relocation(blocks[i], olds[i], lpas[i])
  {
    seq(|blocks|, i requires 0 <= i < |blocks| => Relocation(blocks[i], olds[i], lpas[i]))
  }

  /** One relocation for every page. */
  ghost predicate RelocatesAll(relocs: seq<Relocation>, pages: set<U32>) {
    && |relocs| == |pages| && (forall x :: x in relocs ==> x.block in pages)
    && forall k :: k in pages ==> exists i :: 0 <= i < |relocs| && relocs[i].block == k
  }

  lemma RelocatesBlocks(relocs: seq<Relocation>, blocks: seq<U32>)
    requires |relocs| == |blocks| == |Elements(blocks)| && forall i :: 0 <= i < |relocs| ==>
      relocs[i].block == blocks[i]
    ensures RelocatesAll(relocs, Elements(blocks))
  {
    forall k | k in Elements(blocks) ensures exists i :: 0 <= i < |relocs| && relocs[i].block == k {
      var i :| 0 <= i < |blocks| && blocks[i] == k;
      assert relocs[i].block == k;
    }
  }

  lemma IncreasingSize(blocks: seq<U32>)
    requires Increasing(blocks)
    ensures |Elements(blocks)| == |blocks|
  {
    DistinctSize(blocks);
  }

  ghost predicate Collected(s: FileState, blocks: seq<U32>, data: seq<Block>, olds: seq<U32>)
    requires |data| == |olds| == |blocks|
  {
    forall i :: 0 <= i < |blocks| ==>
      blocks[i] in s.index && data[i] == s.index[blocks[i]].data && olds[i] == LpaAt(s, blocks[i])
  }

  /** The contents and old LPAs of the dirty pages. */
  method CollectPages(f: FileObject, blocks: seq<U32>) returns (data: seq<Block>, olds: seq<U32>)
    requires f.Valid() && Flagged(f.cache.manager.index, blocks)
    ensures |data| == |olds| == |blocks| && Collected(f.State(), blocks, data, olds)
  {
    hide LpaAt, Books, Tidy;
    data, olds := [], [];
    while |data| < |blocks|
      invariant |data| == |olds| <= |blocks|
      invariant forall i :: 0 <= i < |data| ==> data[i] == f.cache.manager.index[blocks[i]].data
      invariant forall i :: 0 <= i < |data| ==> olds[i] == LpaAt(f.State(), blocks[i])
    {
      var k := blocks[|data|];
      var p := f.cache.manager.index[k];
      assert PageCoherent(f.State(), k);
      data, olds := data + [p.data], olds + [p.lpa];
    }
  }

  /** Only the given blocks differ. */
  ghost predicate Outside(before: Image, after: Image, lpas: set<U32>) {
    |after| == |before| && forall l: nat :: l < |before| && l !in lpas ==> after[l] == before[l]
  }

  /** The data goes to its LPAs, which were free: the file does not notice. */
  method PutPages(f: FileObject, blocks: seq<U32>, lpas: seq<U32>, data: seq<Block>, free: set<U32>) returns (ok: bool)
    requires f.Valid() && Free(f.State(), free) && |blocks| == |lpas| == |data| && Distinct(lpas) &&
      Elements(lpas) <= free
    modifies f.dev`disk, f.dev`history
    ensures f.Valid() && SameBlocks(old(f.State()), f.State()) && Outside(old(f.dev.disk), f.dev.disk, free)
    ensures BlockDevice.OnlyTo(old(f.dev.history), f.dev.history, free)
    ensures ok ==> Placed(old(f.dev.disk), f.dev.disk, lpas, data, |lpas|)
    ensures !ok ==> f.dev.faulty
  {
    ghost var s := f.State();
    hide Coherent, Tidy, SameBlocks, Placed, LpaAt, Books, Free, Distinct, Elements, BlockDevice.OnlyTo, Outside;
    FreeOnDisk(s, free, lpas);
    ghost var done;
    ok, done := WriteBatches(f.dev, blocks, lpas, data);
    PlacedIsInvisible(s, f.dev.disk, lpas, data, done, free, f.size);
    PlacedOutside(s.disk, f.dev.disk, lpas, data, done, free);
    OnlyToFewer(old(f.dev.history), f.dev.history, Elements(lpas), free);
  }

  /** The part of rtfsFileInodeWriteDirtyPagesCow behind the walk over the dirty tree. */
  method PlacePages(f: FileObject, blocks: seq<U32>, free: set<U32>)
    returns (r: Result, relocs: seq<Relocation>, free': set<U32>)
    requires f.Valid() && Free(f.State(), free) && Increasing(blocks) && Elements(blocks) == f.cache.dirtyPages
    modifies f.dev`disk, f.dev`history
    ensures f.Valid() && SameBlocks(old(f.State()), f.State()) && f.State().nodes == old(f.State()).nodes
    ensures Outside(old(f.dev.disk), f.dev.disk, free) && BlockDevice.OnlyTo(old(f.dev.history), f.dev.history, free)
    ensures free' <= free && (r.Done? ==> Pending(f.State(), relocs) && FromTo(relocs, free, free'))
    ensures r in {Done, Failed(EIO), Failed(ENOSPC)} && (r == Failed(EIO) ==> f.dev.faulty)
    ensures r == Failed(ENOSPC) ==> |free| < |blocks| + NODE_RESERVE
    ensures r.Done? ==> |relocs| == |blocks| && |free| == |free'| + |relocs|
    ensures r.Done? ==> forall i :: 0 <= i < |relocs| ==> relocs[i].block == blocks[i]
  {
    hide FileObject.Valid, SameBlocks, Placed, Pending, Free, Increasing, Distinct, Taken, Elements, Flagged, Collected;
    hide Outside, BlockDevice.OnlyTo, FromTo;
    ghost var s := f.State();
    Unplaced(s, f.dev.history, free);
    DirtyListed(f, blocks);
    var data, olds := CollectPages(f, blocks);
    var ok, lpas;
    ok, lpas, free' := AssignLpas(blocks, free);
    relocs := [];
    TakenSize(free, free', lpas);
    if !ok { return Failed(ENOSPC), [], free'; }
    ok := PutPages(f, blocks, lpas, data, free);
    if !ok { return Failed(EIO), [], free'; }
    relocs := Relocations(blocks, olds, lpas);
    NowPending(s, f.State(), blocks, olds, lpas, data, free, free');
    r := Done;
  }

  lemma Unplaced(s: FileState, history: seq<BlockDevice.Write>, free: set<U32>)
    ensures SameBlocks(s, s) && Outside(s.disk, s.disk, free) && BlockDevice.OnlyTo(history, history, free)
  {
  }

  /** The relocations go to LPAs that were free and are no more. */
  ghost predicate FromTo(relocs: seq<Relocation>, free: set<U32>, free': set<U32>) {
    forall x :: x in relocs ==> x.newLpa in free && x.newLpa !in free'
  }

  lemma OnlyToFewer(a: seq<BlockDevice.Write>, b: seq<BlockDevice.Write>, lpas: set<U32>, free: set<U32>)
    requires BlockDevice.OnlyTo(a, b, lpas) && lpas <= free
    ensures BlockDevice.OnlyTo(a, b, free)
  {
  }

  /** The dirty pages are those of the list. */
  ghost predicate Flagged(index: Index, blocks: seq<U32>) {
    && (forall k :: k in index && index[k].dirty ==> k in Elements(blocks))
    && forall k :: k in blocks ==> k in index && index[k].dirty
  }

  lemma DirtyListed(f: FileObject, blocks: seq<U32>)
    requires f.Valid() && Elements(blocks) == f.cache.dirtyPages
    ensures Flagged(f.State().index, blocks)
  {
    DirtyBelow(f.cache.manager.index, f.cache.manager.Pinned(), f.cache.dirtyPages, f.cache.handles);
    DirtySet(f.cache.manager.index, f.cache.manager.Pinned(), f.cache.dirtyPages, f.cache.handles);
    forall k | k in blocks
      ensures k in f.cache.manager.index && f.cache.manager.index[k].dirty { assert k in Elements(blocks); }
  }

  /** rtfsFileInodeWriteDirtyPagesCow: the dirty pages are written to free LPAs. Whatever fails, the
      file shows what it showed. */
  method WriteDirtyPagesCow(f: FileObject, free: set<U32>) returns (r: Result, relocs: seq<Relocation>, free': set<U32>)
    requires f.Valid() && Free(f.State(), free)
    modifies f.dev`disk, f.dev`history
    ensures f.Valid() && SameBlocks(old(f.State()), f.State()) && f.State().nodes == old(f.State()).nodes
    ensures Outside(old(f.dev.disk), f.dev.disk, free) && BlockDevice.OnlyTo(old(f.dev.history), f.dev.history, free)
    ensures free' <= free && (r.Done? ==> Pending(f.State(), relocs) && FromTo(relocs, free, free'))
    ensures r in {Done, Failed(EIO), Failed(ENOSPC)} && (r == Failed(EIO) ==> f.dev.faulty)
    ensures r == Failed(ENOSPC) ==> |free| < |f.cache.dirtyPages| + NODE_RESERVE
    ensures r.Done? ==> RelocatesAll(relocs, f.cache.dirtyPages) && |free| == |free'| + |relocs|
  {
    hide FileObject.Valid, SameBlocks, Pending, Free, RelocatesAll, Increasing, Elements, BlockDevice.OnlyTo, Outside,
      FromTo;
    var blocks := InOrder(f.cache.dirtyPages);
    IncreasingSize(blocks);
    r, relocs, free' := PlacePages(f, blocks, free);
    if r.Done? { RelocatesBlocks(relocs, blocks); }
  }

  /** The pages in the dirty set are in the cache and flagged. */
  lemma DirtySet(index: Index, pinned: set<U32>, dirty: set<U32>, handles: multiset<U32>)
    requires Books(index, pinned, dirty, handles)
    ensures forall k :: k in dirty ==> k in index && index[k].dirty
  {
    forall k | k in dirty ensures k in index && index[k].dirty { assert Counted(index[k], k, pinned, dirty, handles); }
  }

  lemma FreeOnDisk(s: FileState, free: set<U32>, lpas: seq<U32>)
    requires Free(s, free) && Elements(lpas) <= free
    ensures forall l :: l in lpas ==> l in free && l < |s.disk|
  {
    forall l | l in lpas ensures l in free { assert l in Elements(lpas); }
  }

  lemma PlacedOutside(before: Image, after: Image, lpas: seq<U32>, data: seq<Block>, n: nat, free: set<U32>)
    requires n <= |lpas| == |data| && Placed(before, after, lpas, data, n) && forall l :: l in lpas ==> l in free
    ensures Outside(before, after, free)
  {
    forall l: nat | l < |before| && l !in free ensures after[l] == before[l] {
      assert forall i :: 0 <= i < n ==> lpas[i] in lpas && lpas[i] != l;
    }
  }

  lemma FromFree(free: set<U32>, free': set<U32>, lpas: seq<U32>, i: nat)
    requires Taken(free, free', lpas) && i < |lpas|
    ensures lpas[i] in free && lpas[i] !in free'
  {
    assert lpas[i] in Elements(lpas);
  }

  lemma NowPending(s: FileState, t: FileState, blocks: seq<U32>, olds: seq<U32>, lpas: seq<U32>, data: seq<Block>,
                   free: set<U32>, free': set<U32>)
    requires |blocks| == |olds| == |lpas| == |data| && t == s.(disk := t.disk) && Free(s, free) &&
      Taken(free, free', lpas)
    requires Placed(s.disk, t.disk, lpas, data, |lpas|) && Increasing(blocks)
    requires Flagged(s.index, blocks)
    requires Collected(s, blocks, data, olds)
    ensures Pending(t, Relocations(blocks, olds, lpas))
    ensures FromTo(Relocations(blocks, olds, lpas), free, free')
  {
    SameMap(s, t);
    forall i, j | 0 <= i < j < |blocks| ensures blocks[i] != blocks[j] {}
    hide LpaAt, Increasing, Distinct, Taken, Free;
    var relocs := Relocations(blocks, olds, lpas);
    forall i | 0 <= i < |relocs|
      ensures PendingAt(t, relocs[i]) && relocs[i].newLpa in free && relocs[i].newLpa !in free' {
      hide Elements;
      FromFree(free, free', lpas, i);
      assert LpaAt(t, blocks[i]) == LpaAt(s, blocks[i]);
    }
    forall k | k in t.index && t.index[k].dirty ensures exists i :: 0 <= i < |relocs| && relocs[i].block == k {
      var i :| 0 <= i < |blocks| && blocks[i] == k;
      assert relocs[i].block == k;
    }
  }

  // ---- Switching the block index over ----

  /** One relocation is applied: the block index and the page know the new LPA. */
  lemma RelocateOne(s: FileState, t: FileState, k: U32, lpa: U32, size: nat)
    requires Coherent(s) && Tidy(s, size) && k in s.index && s.index[k].dirty && k < MAX_BLOCKS
    requires lpa != INVALID_LPA && lpa < |s.disk| && t.disk == s.disk
    requires t.index == s.index[k := s.index[k].(lpa := lpa, ready := true)]
    requires forall j: nat :: LpaAt(t, j) == if j == k then lpa else LpaAt(s, j)
    ensures Coherent(t) && Tidy(t, size) && SameBlocks(s, t)
  {
    assert PageCoherent(s, k);
    hide LpaOf;
    forall j | j in t.index ensures PageCoherent(t, j) {
      assert PageCoherent(s, j) && (LpaAt(t, j) == if j == k then lpa else LpaAt(s, j));
    }
    forall j | 0 <= j < MAX_BLOCKS
      ensures LpaOf(t.nodes, t.ino, j) < |t.disk| || LpaOf(t.nodes, t.ino, j) == INVALID_LPA {
      assert LpaAt(t, j) == (if j == k then lpa else LpaAt(s, j));
      assert LpaAt(s, j) == LpaOf(s.nodes, s.ino, j);
    }
    forall j: nat ensures BlockOf(t, j) == BlockOf(s, j) {
      assert LpaAt(t, j) == (if j == k then lpa else LpaAt(s, j));
    }
    SameBlocksSameBytes(s, t);
    forall j: nat | j >= SizeToBlock(size) ensures LpaAt(t, j) == INVALID_LPA {
      assert LpaAt(t, j) == (if j == k then lpa else LpaAt(s, j));
    }
  }

  /** The blocks of the first n relocations stand at their new LPAs, all others where they stood. */
  ghost predicate Moved(s: FileState, t: FileState, relocs: seq<Relocation>, n: nat)
    requires n <= |relocs|
  {
    && t.disk == s.disk && t.ino == s.ino && t.index.Keys == s.index.Keys
    && (forall k :: k in s.index ==> t.index[k] == s.index[k].(lpa := t.index[k].lpa))
    && (forall i :: 0 <= i < n ==> LpaAt(t, relocs[i].block) == relocs[i].newLpa)
    && forall k: nat :: (forall i :: 0 <= i < n ==> relocs[i].block != k) ==> LpaAt(t, k) == LpaAt(s, k)
  }

  lemma MovedMore(s: FileState, t: FileState, u: FileState, relocs: seq<Relocation>, n: nat)
    requires n < |relocs| && Pending(s, relocs) && Moved(s, t, relocs, n)
    requires relocs[n].block in t.index && u.disk == t.disk && u.ino == t.ino
    requires u.index == t.index[relocs[n].block := t.index[relocs[n].block].(lpa := relocs[n].newLpa, ready := true)]
    requires t.index[relocs[n].block].ready
    requires forall j: nat :: LpaAt(u, j) == if j == relocs[n].block then relocs[n].newLpa else LpaAt(t, j)
    ensures Moved(s, u, relocs, n + 1)
  {
    hide LpaAt;
    forall k: nat | forall i :: 0 <= i < n + 1 ==> relocs[i].block != k ensures LpaAt(u, k) == LpaAt(s, k) {
      assert relocs[n].block != k;
      assert forall i :: 0 <= i < n ==> relocs[i].block != k;
    }
  }

  lemma MovedNone(s: FileState, relocs: seq<Relocation>)
    ensures Moved(s, s, relocs, 0)
  {
  }

  lemma NextToMove(s: FileState, t: FileState, relocs: seq<Relocation>, n: nat)
    requires Coherent(t) && Pending(s, relocs) && n < |relocs| && Moved(s, t, relocs, n)
    ensures var r := relocs[n];
      && r.block in t.index && t.index[r.block].dirty && t.index[r.block].ready
      && r.newLpa != INVALID_LPA && r.newLpa < |t.disk| && LpaAt(t, r.block) == r.oldLpa
  {
    hide LpaAt;
    var r := relocs[n];
    assert PendingAt(s, r);
    assert t.index[r.block] == s.index[r.block].(lpa := t.index[r.block].lpa);
    assert PageCoherent(t, r.block);
    assert forall i :: 0 <= i < n ==> relocs[i].block != r.block;
  }

  /** One turn of rtfsFileInodeApplyPendingDataRelocations. */
  method ApplyRelocation(f: FileObject, ghost s: FileState, relocs: seq<Relocation>, n: nat) returns (r: Result)
    requires f.Valid() && n < |relocs| && Pending(s, relocs) && Moved(s, f.State(), relocs, n) &&
      SameBlocks(s, f.State())
    modifies f.nodes, f.cache.manager`index
    ensures f.Valid() && SameBlocks(s, f.State()) && (r.Done? ==> Moved(s, f.State(), relocs, n + 1))
    ensures Touched(old(f.nodes.Book()), f.nodes.Book(), 3)
    ensures r in {Done, Failed(EIO), Failed(ENOSPC), Failed(ENOSYS)} &&
      (r == Failed(ENOSYS) <==> relocs[n].block >= MAX_BLOCKS)
    ensures (r == Failed(EIO) ==> f.nodes.faulty) && (r == Failed(ENOSPC) ==> f.nodes.supply == [])
  {
    ghost var t := f.State();
    NextToMove(s, t, relocs, n);
    hide Coherent, Tidy, SameBlocks, Pending, Moved, LpaAt, Books, Touched, Stocked;
    var reloc := relocs[n];
    var err, oldLpa := f.RemapBlock(reloc.block, reloc.newLpa, true);
    if err != Ok {
      SameMapSameFile(t, f.State(), f.size);
      SameBlocksChain(s, t, f.State());
      return Failed(err);
    }
    SwitchPage(f, s, t, relocs, n);
    r := Done;
  }

  /** The page learns the LPA that the block index has just been given. */
  method SwitchPage(f: FileObject, ghost s: FileState, ghost t: FileState, relocs: seq<Relocation>, n: nat)
    requires f.nodes.Valid() && f.cache.Valid() && n < |relocs| && Coherent(t) && Tidy(t, f.size)
    requires Pending(s, relocs) && Moved(s, t, relocs, n) && SameBlocks(s, t) && relocs[n].block < MAX_BLOCKS
    requires f.State() == t.(nodes := f.nodes.nodes)
    requires forall j: nat :: LpaAt(f.State(), j) == if j == relocs[n].block then relocs[n].newLpa else LpaAt(t, j)
    modifies f.cache.manager`index
    ensures f.Valid() && SameBlocks(s, f.State()) && Moved(s, f.State(), relocs, n + 1)
  {
    NextToMove(s, t, relocs, n);
    hide Coherent, Tidy, SameBlocks, Pending, Moved, LpaAt, Books;
    var k, lpa := relocs[n].block, relocs[n].newLpa;
    ghost var mid := f.State();
    f.cache.Fill(k, lpa, true, f.cache.manager.index[k].data);
    SameMap(mid, f.State());
    assert f.State().index == t.index[k := t.index[k].(lpa := lpa, ready := true)];
    RelocateOne(t, f.State(), k, lpa, f.size);
    MovedMore(s, t, f.State(), relocs, n);
    SameBlocksChain(s, t, f.State());
  }

  lemma SameMap(s: FileState, t: FileState)
    requires t.nodes == s.nodes && t.ino == s.ino
    ensures forall j: nat :: LpaAt(t, j) == LpaAt(s, j)
  {
  }

  /** A tree that maps every block as before shows nothing else. */
  lemma SameMapSameFile(s: FileState, t: FileState, size: nat)
    requires Coherent(s) && Tidy(s, size) && t.index == s.index && t.disk == s.disk
    requires forall j: nat :: LpaAt(t, j) == LpaAt(s, j)
    ensures Coherent(t) && Tidy(t, size) && SameBlocks(s, t)
  {
    hide LpaOf;
    forall j | j in t.index ensures PageCoherent(t, j) { assert PageCoherent(s, j) && LpaAt(t, j) == LpaAt(s, j); }
    forall j | 0 <= j < MAX_BLOCKS
      ensures LpaOf(t.nodes, t.ino, j) < |t.disk| || LpaOf(t.nodes, t.ino, j) == INVALID_LPA {
      assert LpaAt(t, j) == LpaAt(s, j) == LpaOf(s.nodes, s.ino, j);
    }
    forall j: nat ensures BlockOf(t, j) == BlockOf(s, j) { assert LpaAt(t, j) == LpaAt(s, j); }
    SameBlocksSameBytes(s, t);
    forall j: nat | j >= SizeToBlock(size) ensures LpaAt(t, j) == INVALID_LPA { assert LpaAt(t, j) == LpaAt(s, j); }
  }

  /** No page is dirty, so the device holds everything the file shows. */
  ghost predicate Stable(s: FileState) {
    && (forall k :: k in s.index ==> !s.index[k].dirty)
    && forall k: nat :: Stored(s, k) == BlockOf(s, k)
  }

  /** Once all relocations are applied the dirty pages are in fact clean. */
  lemma CleanedShows(s: FileState, t: FileState, u: FileState, relocs: seq<Relocation>, dirty: set<U32>, size: nat)
    requires Pending(s, relocs) && Moved(s, t, relocs, |relocs|) && Coherent(t) && Tidy(t, size)
    requires u == t.(index := u.index) && Cleaned(t.index, u.index, dirty, true)
    requires forall k :: k in t.index ==> (t.index[k].dirty <==> k in dirty)
    ensures Coherent(u) && Tidy(u, size) && SameBlocks(t, u) && Stable(u)
  {
    SameMap(t, u);
    hide LpaAt;
    forall k | k in u.index ensures PageCoherent(u, k) && !u.index[k].dirty {
      assert PageCoherent(t, k) && LpaAt(u, k) == LpaAt(t, k);
      if k in dirty { DirtyIsStored(s, t, relocs, k); }
    }
    forall k: nat ensures BlockOf(u, k) == BlockOf(t, k) && Stored(u, k) == BlockOf(u, k) {
      assert LpaAt(u, k) == LpaAt(t, k);
      if k <= MAX_U32 && k in u.index { assert PageCoherent(u, k); }
    }
    SameBlocksSameBytes(t, u);
    forall j: nat | j >= SizeToBlock(size) ensures LpaAt(u, j) == INVALID_LPA { assert LpaAt(u, j) == LpaAt(t, j); }
  }

  lemma DirtyIsStored(s: FileState, t: FileState, relocs: seq<Relocation>, k: U32)
    requires Pending(s, relocs) && Moved(s, t, relocs, |relocs|) && k in t.index && t.index[k].dirty
    ensures t.index[k].data == Stored(t, k) && k < MAX_BLOCKS
  {
    assert t.index[k] == s.index[k].(lpa := t.index[k].lpa);
    var i :| 0 <= i < |relocs| && relocs[i].block == k;
    assert PendingAt(s, relocs[i]) && LpaAt(t, relocs[i].block) == relocs[i].newLpa;
  }

  /** rtfsFileInodeApplyPendingDataRelocations: the block index is switched to the new LPAs and the
      dirty set is emptied. It stops with ENOSYS at the first page beyond the limit of the tree. */
  method ApplyPendingDataRelocations(f: FileObject, relocs: seq<Relocation>) returns (r: Result)
    requires f.Valid() && Pending(f.State(), relocs)
    modifies f.nodes, f.cache`dirtyPages, f.cache.manager, f.cache.manager.replacer
    ensures f.Valid() && SameBlocks(old(f.State()), f.State())
    ensures r.Done? ==> Stable(f.State()) && MapMoved(old(f.State()), f.State(), relocs)
    ensures Touched(old(f.nodes.Book()), f.nodes.Book(), 3 * |relocs|)
    ensures r in {Done, Failed(EIO), Failed(ENOSPC), Failed(ENOSYS)} && (r == Failed(EIO) ==> f.nodes.faulty)
    ensures r == Failed(ENOSPC) ==> f.nodes.supply == []
    ensures r.Done? ==> forall x :: x in relocs ==> x.block < MAX_BLOCKS
    ensures r == Failed(ENOSYS) ==> exists x :: x in relocs && x.block >= MAX_BLOCKS
  {
    hide Coherent, Tidy, SameBlocks, Pending, Moved, LpaAt, Books, Cleaned, Stable, Touched, Stocked;
    ghost var s, book := f.State(), f.nodes.Book();
    SameBlocksSelf(s);
    MovedNone(s, relocs);
    TouchedSame(book, 0);
    var n := 0;
    while n < |relocs|
      invariant n <= |relocs| && f.Valid() && Moved(s, f.State(), relocs, n) && SameBlocks(s, f.State())
      invariant Touched(book, f.nodes.Book(), 3 * n) && forall i :: 0 <= i < n ==> relocs[i].block < MAX_BLOCKS
    {
      ghost var now := f.nodes.Book();
      r := ApplyRelocation(f, s, relocs, n);
      TouchedChain(book, now, f.nodes.Book(), 3 * n, 3);
      TouchedMore(book, f.nodes.Book(), 3 * n + 3, 3 * |relocs|);
      if r.Failed? {
        assert relocs[n] in relocs;
        return;
      }
      n := n + 1;
    }
    ghost var t, dirty := f.State(), f.cache.dirtyPages;
    DirtyFlags(f.cache.manager.index, f.cache.manager.Pinned(), f.cache.dirtyPages, f.cache.handles);
    f.cache.ClearDirtyPages();
    CleanedShows(s, t, f.State(), relocs, dirty, f.size);
    SameBlocksChain(s, t, f.State());
    MovedMap(s, t, f.State(), relocs);
    r := Done;
  }

  lemma DirtyFlags(index: Index, pinned: set<U32>, dirty: set<U32>, handles: multiset<U32>)
    requires Books(index, pinned, dirty, handles)
    ensures forall k :: k in index ==> (index[k].dirty <==> k in dirty)
  {
    forall k | k in index
      ensures index[k].dirty <==> k in dirty { assert Counted(index[k], k, pinned, dirty, handles); }
  }

  /** Exactly the relocated blocks have moved. */
  ghost predicate MapMoved(s: FileState, t: FileState, relocs: seq<Relocation>) {
    && (forall i :: 0 <= i < |relocs| ==> LpaAt(t, relocs[i].block) == relocs[i].newLpa)
    && (forall i :: 0 <= i < |relocs| ==> LpaAt(s, relocs[i].block) == relocs[i].oldLpa)
    && forall k: nat :: (forall i :: 0 <= i < |relocs| ==> relocs[i].block != k) ==> LpaAt(t, k) == LpaAt(s, k)
  }

  lemma MovedMap(s: FileState, t: FileState, u: FileState, relocs: seq<Relocation>)
    requires Pending(s, relocs) && Moved(s, t, relocs, |relocs|) && u.nodes == t.nodes && u.ino == t.ino
    ensures MapMoved(s, u, relocs)
  {
    SameMap(t, u);
    hide LpaAt;
    forall i | 0 <= i < |relocs|
      ensures LpaAt(s, relocs[i].block) == relocs[i].oldLpa { assert PendingAt(s, relocs[i]); }
  }

  /** The tree can map all of these blocks. */
  ghost predicate BelowLimit(pages: set<U32>) {
    forall k :: k in pages ==> k < MAX_BLOCKS
  }

  lemma RelocatesBelow(relocs: seq<Relocation>, pages: set<U32>)
    requires RelocatesAll(relocs, pages)
    ensures BelowLimit(pages) <==> forall x :: x in relocs ==> x.block < MAX_BLOCKS
  {
    if forall x :: x in relocs ==> x.block < MAX_BLOCKS {
      forall k | k in pages ensures k < MAX_BLOCKS {
        var i :| 0 <= i < |relocs| && relocs[i].block == k;
        assert relocs[i] in relocs;
      }
    }
  }

  /** The data part of a commit: every dirty page is written to a free LPA and the block index is
      switched over. The file shows what it showed, and all of it is on the device. If anything
      fails the file still shows what it showed. Unless it runs out of blocks or nids, or a fault
      occurs, it succeeds exactly if the tree can map all dirty pages, and fails with ENOSYS if not. */
  method CommitData(f: FileObject, free: set<U32>) returns (r: Result, relocs: seq<Relocation>, free': set<U32>)
    requires f.Valid() && Free(f.State(), free)
    modifies f.dev`disk, f.dev`history, f.nodes, f.cache`dirtyPages, f.cache.manager, f.cache.manager.replacer
    ensures f.Valid() && SameBlocks(old(f.State()), f.State()) && free' <= free
    ensures r.Done? ==> Stable(f.State()) && MapMoved(old(f.State()), f.State(), relocs)
    ensures r.Done? ==> FromTo(relocs, free, free')
    ensures Outside(old(f.dev.disk), f.dev.disk, free) && BlockDevice.OnlyTo(old(f.dev.history), f.dev.history, free)
    ensures Touched(old(f.nodes.Book()), f.nodes.Book(), 3 * |old(f.cache.dirtyPages)|)
    ensures r in {Done, Failed(EIO), Failed(ENOSPC), Failed(ENOSYS)} && (r == Failed(EIO) ==> f.Faulty())
    ensures r == Failed(ENOSPC) ==> f.nodes.supply == [] || |free| < |old(f.cache.dirtyPages)| + NODE_RESERVE
    ensures r.Done? ==> BelowLimit(old(f.cache.dirtyPages)) && |free| == |free'| + |old(f.cache.dirtyPages)|
    ensures r == Failed(ENOSYS) ==> !BelowLimit(old(f.cache.dirtyPages))
  {
    hide FileObject.Valid, SameBlocks, Pending, LpaAt, Stable, MapMoved, RelocatesAll, BelowLimit, Touched;
    ghost var s0, pages := f.State(), f.cache.dirtyPages;
    TouchedSame(f.nodes.Book(), 3 * |pages|);
    r, relocs, free' := WriteDirtyPagesCow(f, free);
    if r.Failed? { return; }
    RelocatesBelow(relocs, pages);
    assert |relocs| == |pages| by { RelocatesSize(relocs, pages); }
    ghost var s1 := f.State();
    r := ApplyPendingDataRelocations(f, relocs);
    SameBlocksChain(s0, s1, f.State());
    if r.Done? { MapMovedFrom(s0, s1, f.State(), relocs); }
  }

  lemma RelocatesSize(relocs: seq<Relocation>, pages: set<U32>)
    requires RelocatesAll(relocs, pages)
    ensures |relocs| == |pages|
  {
  }

  // ---- What a commit gives back ----

  function NonZero(lpas: seq<U32>): (r: seq<U32>)
    ensures forall l :: l in r <==> l in lpas && l != INVALID_LPA
  {
    if lpas == [] then []
    else NonZero(lpas[..|lpas| - 1]) + (if lpas[|lpas| - 1] == INVALID_LPA then [] else [lpas[|lpas| - 1]])
  }

  function OldLpas(relocs: seq<Relocation>): (r: seq<U32>)
    ensures |r| == |relocs| && forall i :: 0 <= i < |r| ==> r[i] == relocs[i].oldLpa
  {
    seq(|relocs|, i requires 0 <= i < |relocs| => relocs[i].oldLpa)
  }

  /** rtfsFileInodeCollectPendingDataCowOldLpas: the LPAs that moved pages stood at, and those that
      truncations have given up. */
  method CollectOldLpas(relocs: seq<Relocation>, truncated: seq<U32>) returns (out: seq<U32>)
    ensures out == NonZero(OldLpas(relocs)) + NonZero(truncated)
  {
    out := [];
    ghost var lpas := OldLpas(relocs);
    var i := 0;
    while i < |relocs|
      invariant i <= |relocs| && out == NonZero(lpas[..i])
    {
      assert lpas[..i + 1][..i] == lpas[..i];
      if relocs[i].oldLpa != INVALID_LPA { out := out + [relocs[i].oldLpa]; }
      i := i + 1;
    }
    assert lpas[..i] == lpas;
    i := 0;
    while i < |truncated|
      invariant i <= |truncated| && out == NonZero(lpas) + NonZero(truncated[..i])
    {
      assert truncated[..i + 1][..i] == truncated[..i];
      if truncated[i] != INVALID_LPA { out := out + [truncated[i]]; }
      i := i + 1;
    }
    assert truncated[..i] == truncated;
  }

  /** What is given back once the commit is complete: every LPA that a block of the file had and has no
      more, and all that truncations had given up; and nothing else. */
  ghost predicate Reclaims(s: FileState, t: FileState, truncated: seq<U32>, out: seq<U32>, free: set<U32>) {
    && (forall k: nat :: LpaAt(s, k) != INVALID_LPA && LpaAt(t, k) != LpaAt(s, k) ==> LpaAt(s, k) in out)
    && (forall l :: l in truncated && l != INVALID_LPA ==> l in out)
    && (forall l :: l in out ==> l != INVALID_LPA)
    && (forall l :: l in out ==> l in truncated || exists k: nat :: LpaAt(s, k) == l && LpaAt(t, k) in free)
  }

  lemma CollectedReclaims(s: FileState, t: FileState, relocs: seq<Relocation>, truncated: seq<U32>, free: set<U32>,
                          free': set<U32>)
    requires MapMoved(s, t, relocs) && FromTo(relocs, free, free')
    ensures Reclaims(s, t, truncated, NonZero(OldLpas(relocs)) + NonZero(truncated), free)
  {
    hide LpaAt;
    var lpas := OldLpas(relocs);
    forall k: nat | LpaAt(s, k) != INVALID_LPA && LpaAt(t, k) != LpaAt(s, k)
      ensures LpaAt(s, k) in NonZero(lpas)
    {
      var i :| 0 <= i < |relocs| && relocs[i].block == k;
      assert LpaAt(s, relocs[i].block) == relocs[i].oldLpa == lpas[i];
    }
    forall l | l in NonZero(lpas) ensures exists k: nat :: LpaAt(s, k) == l && LpaAt(t, k) in free {
      var i :| 0 <= i < |lpas| && lpas[i] == l;
      assert LpaAt(t, relocs[i].block) == relocs[i].newLpa && relocs[i] in relocs;
      assert LpaAt(s, relocs[i].block) == relocs[i].oldLpa == lpas[i];
    }
  }

  lemma ReclaimsThen(s: FileState, t: FileState, u: FileState, truncated: seq<U32>, out: seq<U32>, free: set<U32>)
    requires Reclaims(s, t, truncated, out, free) && forall k: nat :: LpaAt(u, k) == LpaAt(t, k)
    ensures Reclaims(s, u, truncated, out, free)
  {
    hide LpaAt;
    forall l | l in out && l !in truncated ensures exists k: nat :: LpaAt(s, k) == l && LpaAt(u, k) in free {
      var k: nat :| LpaAt(s, k) == l && LpaAt(t, k) in free;
      assert LpaAt(u, k) == LpaAt(t, k);
    }
  }

  lemma MapMovedFrom(s0: FileState, s1: FileState, t: FileState, relocs: seq<Relocation>)
    requires s1.nodes == s0.nodes && s1.ino == s0.ino && MapMoved(s1, t, relocs)
    ensures MapMoved(s0, t, relocs)
  {
    SameMap(s0, s1);
    hide LpaAt;
    forall k: nat | forall i :: 0 <= i < |relocs| ==> relocs[i].block != k ensures LpaAt(t, k) == LpaAt(s0, k) {
      assert LpaAt(s1, k) == LpaAt(s0, k);
    }
  }
}
