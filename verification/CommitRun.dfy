/** The steps of a commit (src/file_inode/file_inode.c, src/cache/node_block_cache.c): data pages, then
    the inode's size, then every dirty node, then the NAT entries; and why they make the file ready to
    switch over. */
module CommitRun {
  import opened Wrappers
  import opened Bytes
  import opened JournalFormat
  import opened JournalDedup
  import opened KeyTree
  import opened RedoLog
  import opened LogRecovery
  import opened DiskFiles
  import opened FileCommit
  import opened FileWriteback
  import B = BlockIndex
  import F = FileObjects
  import BlockDevice
  import PageCaching

  // ---- A node as bytes ----

  function NodeBlock(w: B.Node): Block {
    WordBytes(w)
  }

  lemma NodeRoundTrip(w: B.Node)
    ensures WordsOf(NodeBlock(w)) == w
  {
    forall i | 0 <= i < B.NODE_WORDS ensures WordsOf(NodeBlock(w))[i] == w[i] { WordBytesAt(w, i); }
  }

  // ---- The inode's size ----

  /** rtfsFileInodeSyncMetadataToDisk, as far as the size goes. */
  method SyncMetadata(f: F.FileObject)
    requires f.Valid() && f.size <= F.MAX_U64
    modifies f.nodes
    ensures f.Valid() && F.SameBlocks(old(f.State()), f.State()) && SizeIn(f.nodes.nodes, f.nodes.ino) == f.size
    ensures forall j: nat :: F.LpaAt(f.State(), j) == F.LpaAt(old(f.State()), j)
    ensures f.nodes.nodes.Keys == old(f.nodes.nodes).Keys && f.nodes.dirty == old(f.nodes.dirty) + {f.nodes.ino}
    ensures forall n :: n in f.nodes.nodes && n != f.nodes.ino ==> f.nodes.nodes[n] == old(f.nodes.nodes)[n]
    ensures f.nodes.supply == old(f.nodes.supply)
  {
    ghost var s := f.State();
    hide F.Coherent, F.Tidy, F.SameBlocks, B.LpaOf;
    SetWord(f, WORD_SIZE, f.size % 0x1_0000_0000);
    ghost var s1 := f.State();
    SetWord(f, WORD_SIZE + 1, f.size / 0x1_0000_0000);
    F.SameBlocksChain(s, s1, f.State());
  }

  method SetWord(f: F.FileObject, word: nat, v: U32)
    requires f.Valid() && word < B.WORD_ADDR
    modifies f.nodes
    ensures f.Valid() && F.SameBlocks(old(f.State()), f.State())
    ensures forall j: nat :: F.LpaAt(f.State(), j) == F.LpaAt(old(f.State()), j)
    ensures f.nodes.ino in old(f.nodes.nodes) && f.nodes.nodes == B.Put(old(f.nodes.nodes), f.nodes.ino, word, v)
    ensures f.nodes.dirty == old(f.nodes.dirty) + {f.nodes.ino} && f.nodes.supply == old(f.nodes.supply)
  {
    ghost var s := f.State();
    hide F.Coherent, F.Tidy, F.SameBlocks, B.LpaOf;
    assert forall j | 0 <= j < B.MAX_BLOCKS :: F.LpaAt(s, j) == f.nodes.Map(j);
    label before:
    f.nodes.SetMetadata(word, v);
    forall j: nat ensures F.LpaAt(f.State(), j) == F.LpaAt(s, j) {
      if j < B.MAX_BLOCKS { assert f.nodes.Map(j) == old@before(f.nodes.Map(j)); }
    }
    SameMapSameFile(s, f.State(), f.size);
  }

  // ---- The nodes ----

  /** A node that has moved. */
  datatype NodeMove = NodeMove(nid: U32, newLpa: U32)

  /** Every node of done has been written to a free block of its own. */
  ghost predicate NodesWritten(disk: Image, nodes: map<U32, B.Node>, moves: seq<NodeMove>, done: set<U32>,
                               free: set<U32>, left: set<U32>) {
    && (forall i :: 0 <= i < |moves| ==>
          && moves[i].nid in nodes && moves[i].nid in done && moves[i].newLpa in free && moves[i].newLpa !in left
          && moves[i].newLpa < |disk| && disk[moves[i].newLpa] == NodeBlock(nodes[moves[i].nid]))
    && (forall nid :: nid in done ==> exists i :: 0 <= i < |moves| && moves[i].nid == nid)
    && (forall i, j :: 0 <= i < j < |moves| ==> moves[i].nid != moves[j].nid)
    && left <= free
  }

  lemma WrittenMore(disk: Image, nodes: map<U32, B.Node>, moves: seq<NodeMove>, done: set<U32>, free: set<U32>,
                    left: set<U32>,
                    nid: U32, lpa: U32, left': set<U32>)
    requires NodesWritten(disk, nodes, moves, done, free, left) && nid in nodes && nid !in done
    requires lpa in left && left' == left - {lpa} && lpa < |disk|
    ensures NodesWritten(disk[lpa := NodeBlock(nodes[nid])], nodes, moves + [NodeMove(nid, lpa)], done + {nid}, free,
      left')
  {
    var moves' := moves + [NodeMove(nid, lpa)];
    forall n | n in done + {nid} ensures exists i :: 0 <= i < |moves'| && moves'[i].nid == n {
      if n in done {
        var i :| 0 <= i < |moves| && moves[i].nid == n;
        assert moves'[i].nid == n;
      } else {
        assert moves'[|moves|].nid == n;
      }
    }
  }

  lemma WrittenNone(disk: Image, nodes: map<U32, B.Node>, free: set<U32>, left: set<U32>)
    requires left <= free
    ensures NodesWritten(disk, nodes, [], {}, free, left)
  {
  }

  /** One node goes to a free block. */
  method WriteNode(dev: BlockDevice.Device, w: B.Node, left: set<U32>) returns (r: F.Result, lpa: U32, left': set<U32>)
    requires forall l :: l in left ==> l < |dev.disk|
    modifies dev`disk, dev`history
    ensures r.Done? ==> lpa in left && left' == left - {lpa} && dev.disk == old(dev.disk)[lpa := NodeBlock(w)]
    ensures r.Failed? ==> dev.disk == old(dev.disk)
    ensures BlockDevice.OnlyTo(old(dev.history), dev.history, left)
    ensures r in {F.Done, F.Failed(B.EIO), F.Failed(B.ENOSPC)} && (r == F.Failed(B.EIO) ==> dev.faulty)
    ensures r == F.Failed(B.ENOSPC) ==> |left| <= NODE_RESERVE
  {
    var run;
    run, left' := AllocRange(left, 1);
    if run == [] { return F.Failed(B.ENOSPC), 0, left; }
    lpa := run[0];
    assert Elements(run) == {lpa} by { assert run == [lpa]; }
    assert lpa in left;
    var ok: bool := *;
    if ok || !dev.faulty { ok := dev.WriteBlock(lpa, NodeBlock(w)); }
    r := if ok then F.Done else F.Failed(B.EIO);
  }

  /** Where the write-back stands: which nodes are done, and that only free blocks were touched. */
  ghost predicate Progress(before: Image, disk: Image, nodes: map<U32, B.Node>, moves: seq<NodeMove>, done: set<U32>,
                           todo: set<U32>, dirty: set<U32>, free: set<U32>, avail: set<U32>, left: set<U32>) {
    && done + todo == dirty && done !! todo && left <= avail && |disk| == |before|
    && NodesWritten(disk, nodes, moves, done, free, left)
    && forall l: nat :: l < |before| && l !in avail ==> disk[l] == before[l]
  }

  lemma ProgressMore(before: Image, disk: Image, nodes: map<U32, B.Node>, moves: seq<NodeMove>, done: set<U32>,
                     todo: set<U32>, dirty: set<U32>, free: set<U32>, avail: set<U32>, left: set<U32>, nid: U32,
                       lpa: U32)
    requires Progress(before, disk, nodes, moves, done, todo, dirty, free, avail, left)
    requires nid in todo && nid in nodes && lpa in left && lpa < |disk|
    ensures Progress(before, disk[lpa := NodeBlock(nodes[nid])], nodes, moves + [NodeMove(nid, lpa)], done + {nid},
                     todo - {nid}, dirty, free, avail, left - {lpa})
  {
    WrittenMore(disk, nodes, moves, done, free, left, nid, lpa, left - {lpa});
    hide NodesWritten;
  }

  lemma ProgressBounds(before: Image, disk: Image, nodes: map<U32, B.Node>, moves: seq<NodeMove>, done: set<U32>,
                       dirty: set<U32>, free: set<U32>, avail: set<U32>, left: set<U32>)
    requires Progress(before, disk, nodes, moves, done, {}, dirty, free, avail, left)
    ensures NodesWritten(disk, nodes, moves, dirty, free, {})
  {
    assert done == dirty;
    WrittenAll(disk, nodes, moves, done, free, left);
  }

  /** nodeBlockCacheWritebackDirtyContentCow: every dirty node goes to a free block of its own. */
  method WritebackNodes(dev: BlockDevice.Device, nodes: map<U32, B.Node>, dirty: set<U32>, free: set<U32>,
                        avail: set<U32>)
    returns (r: F.Result, moves: seq<NodeMove>)
    requires avail <= free && dirty <= nodes.Keys && forall l :: l in avail ==> l < |dev.disk|
    modifies dev`disk, dev`history
    ensures |dev.disk| == |old(dev.disk)| && BlockDevice.OnlyTo(old(dev.history), dev.history, avail)
    ensures forall l: nat :: l < |dev.disk| && l !in avail ==> dev.disk[l] == old(dev.disk)[l]
    ensures r.Done? ==> NodesWritten(dev.disk, nodes, moves, dirty, free, {})
    ensures r in {F.Done, F.Failed(B.EIO), F.Failed(B.ENOSPC)} && (r == F.Failed(B.EIO) ==> dev.faulty)
    ensures r == F.Failed(B.ENOSPC) ==> |avail| < |dirty| + NODE_RESERVE
  {
    hide NodesWritten;
    ghost var before := dev.disk;
    moves, r := [], F.Done;
    var todo, left := dirty, avail;
    ghost var done: set<U32> := {};
    WrittenNone(dev.disk, nodes, free, left);
    while todo != {}
      invariant todo <= dirty && left <= avail && |dev.disk| == |before| && r.Done?
      invariant BlockDevice.OnlyTo(old(dev.history), dev.history, avail)
      invariant Progress(before, dev.disk, nodes, moves, done, todo, dirty, free, avail, left)
      invariant |avail| + |todo| == |left| + |dirty|
      decreases |todo|
    {
      var nid :| nid in todo;
      ghost var disk := dev.disk;
      var lpa, left';
      r, lpa, left' := WriteNode(dev, nodes[nid], left);
      if r.Failed? { return; }
      ProgressMore(before, disk, nodes, moves, done, todo, dirty, free, avail, left, nid, lpa);
      moves, left, todo, done := moves + [NodeMove(nid, lpa)], left', todo - {nid}, done + {nid};
    }
    ProgressBounds(before, dev.disk, nodes, moves, done, dirty, free, avail, left);
  }

  lemma WrittenAll(disk: Image, nodes: map<U32, B.Node>, moves: seq<NodeMove>, done: set<U32>, free: set<U32>,
                   left: set<U32>)
    requires NodesWritten(disk, nodes, moves, done, free, left)
    ensures NodesWritten(disk, nodes, moves, done, free, {})
  {
  }

  lemma FreeBounds(s: F.FileState, free: set<U32>)
    requires Free(s, free)
    ensures forall l :: l in free ==> l < |s.disk|
  {
  }

  /** nodeBlockCacheApplyPendingCowRelocations: one NAT entry for every node that moved. */
  function NatEntries(moves: seq<NodeMove>, ino: U32): (es: seq<Entry>)
    ensures |es| == |moves| && AllOfKind(Nats, es)
    ensures forall i :: 0 <= i < |moves| ==> es[i] == NatEntry(moves[i].nid, ino, moves[i].newLpa)
  {
    seq(|moves|, i requires 0 <= i < |moves| => NatEntry(moves[i].nid, ino, moves[i].newLpa))
  }

  /** The NAT entries have distinct keys, and each names its node's new block. */
  lemma EntryOfNode(disk: Image, nodes: map<U32, B.Node>, moves: seq<NodeMove>, done: set<U32>, free: set<U32>,
                    ino: U32, nid: U32)
    requires NodesWritten(disk, nodes, moves, done, free, {}) && nid in nodes
    ensures var last := LastOf(NatEntries(moves, ino), nid);
      if nid in done then
        && last.Some? && last.value.NatEntry? && last.value.ino == ino && last.value.addr in free
        && last.value.addr < |disk| && disk[last.value.addr] == NodeBlock(nodes[nid])
      else last == None
  {
    var es := NatEntries(moves, ino);
    if nid in done {
      var i :| 0 <= i < |moves| && moves[i].nid == nid;
      forall j | i < j < |es| ensures KeyOf(es[j]) != KeyOf(es[i]) { assert moves[i].nid != moves[j].nid; }
      IndexIsLast(es, i);
    } else {
      forall e | e in es ensures KeyOf(e) != nid { var i :| 0 <= i < |es| && es[i] == e; assert moves[i].nid in done; }
      NoKey(es, nid);
    }
  }

  /** The entries name nodes of this file only, each once, at blocks that were free. */
  ghost predicate OwnEntries(nats: seq<Entry>, nodes: map<U32, B.Node>, ino: U32, free: set<U32>) {
    && (forall e :: e in nats ==> e.NatEntry? && e.nid in nodes && e.ino == ino && e.addr in free)
    && forall i, j :: 0 <= i < j < |nats| ==> KeyOf(nats[i]) != KeyOf(nats[j])
  }

  lemma MovesAreOwn(disk: Image, nodes: map<U32, B.Node>, moves: seq<NodeMove>, done: set<U32>, free: set<U32>,
                    ino: U32)
    requires NodesWritten(disk, nodes, moves, done, free, {})
    ensures OwnEntries(NatEntries(moves, ino), nodes, ino, free)
  {
    var es := NatEntries(moves, ino);
    forall e | e in es ensures e.NatEntry? && e.nid in nodes && e.ino == ino && e.addr in free {
      var i :| 0 <= i < |es| && es[i] == e;
      assert moves[i].nid in nodes;
    }
    forall i, j | 0 <= i < j < |es| ensures KeyOf(es[i]) != KeyOf(es[j]) { assert moves[i].nid != moves[j].nid; }
  }

  // ---- The commit ----

  /** What the file may rely on before a commit: its clean nodes are in the NAT table as recovered, its
      data and nodes stand in main blocks, and its dirty nodes are known. */
  ghost predicate Committed(D: Image, g: Geometry, ino: U32, nodes: map<U32, B.Node>, dirty: set<U32>)
    requires NatOnDisk(D, g.lay)
  {
    && dirty <= nodes.Keys && (forall nid :: nid in nodes ==> InNat(g.lay, nid))
    && forall nid :: nid in nodes && nid !in dirty ==>
         HasNode(D, g.lay, nid) && MainBlock(g, NatLpa(D, g.lay, nid)) &&
           WordsOf(D[NatLpa(D, g.lay, nid)]) == nodes[nid]
         && B.Reached(NodesOf(D, g.lay), ino, nid)
  }

  /** The effect of a commit's content and node writes: only free blocks changed, all the file shows is
      stored, and the NAT entries name the new place of every node that is not as it was. */
  ghost predicate ContentsWritten(s: F.FileState, t: F.FileState, dirty0: set<U32>, nats: seq<Entry>, free: set<U32>,
                                  size: nat) {
    && |t.disk| == |s.disk| && (forall l: nat :: l < |s.disk| && l !in free ==> t.disk[l] == s.disk[l])
    && t.ino == s.ino && F.SameBlocks(s, t) && (forall k: nat :: F.Stored(t, k) == F.BlockOf(t, k))
    && (forall k: nat :: F.LpaAt(t, k) == F.LpaAt(s, k) || F.LpaAt(t, k) in free)
    && B.Tree(t.nodes, t.ino) && SizeIn(t.nodes, t.ino) == size && AllOfKind(Nats, nats)
    && forall nid :: nid in t.nodes ==> NodeAccounted(s, t, dirty0, LastOf(nats, nid), nid, free)
  }

  ghost predicate NodeAccounted(s: F.FileState, t: F.FileState, dirty0: set<U32>, last: Option<Entry>, nid: U32,
                                free: set<U32>)
    requires nid in t.nodes
  {
    if last.Some? then
      && last.value.NatEntry? && last.value.ino != 0 && last.value.addr in free && last.value.addr < |t.disk|
      && WordsOf(t.disk[last.value.addr]) == t.nodes[nid]
    else nid !in dirty0 && nid in s.nodes && t.nodes[nid] == s.nodes[nid]
  }

  /** Everything is then ready: the device is one that a crash before the journal may leave, and a
      complete journal image switches the file over. */
  lemma ReadyAfterWriting(d: Image, txs: seq<seq<Entry>>, s: F.FileState, t: F.FileState, dirty0: set<U32>,
                          nats: seq<Entry>,
                          o: Output, free: set<U32>, size: nat)
    requires Replayable(d, txs) && NatOnDisk(Recovered(d, txs), LayoutOf(d[0])) && TablesApart(LayoutOf(d[0])) &&
      s.disk == d
    requires Committed(Recovered(d, txs), GeometryOf(d[0]), s.ino, s.nodes, dirty0) && DataPlaced(s, GeometryOf(d[0]))
    requires forall l :: l in free ==> l < |d| && FreshBlock(d, txs, s.ino, l)
    requires ContentsWritten(s, t, dirty0, nats, free, size)
    requires AllOfKind(Super, o.supers) && AllOfKind(Nats, o.nats) && AllOfKind(Sits, o.sits) && SameLast(o.nats, nats)
    requires forall nid :: nid in t.nodes ==> InNat(LayoutOf(d[0]), nid)
    ensures Writing(d, t.disk, txs, s.ino)
    ensures Replayable(t.disk, txs) && NatOnDisk(Recovered(t.disk, txs), LayoutOf(t.disk[0]))
    ensures ReadyToSwitch(t.disk, txs, o, t, size)
  {
    var g, D, d1 := GeometryOf(d[0]), Recovered(d, txs), t.disk;
    forall l: nat | l < |d| ensures d1[l] == d[l] || FreshBlock(d, txs, s.ino, l) {}
    WritingKeepsLog(d, d1, txs, s.ino);
    NatStaysOnDisk(d1, txs);
    var D1 := Recovered(d1, txs);
    forall k: nat | F.LpaAt(t, k) != 0 ensures F.LpaAt(t, k) < |d1| && MainBlock(g, F.LpaAt(t, k)) {
      if F.LpaAt(t, k) !in free { assert F.LpaAt(s, k) == F.LpaAt(t, k); }
    }
    forall nid | nid in t.nodes ensures NodePlaced(d1, D1, g, LastOf(o.nats, nid), nid, t.nodes[nid]) {
      NodeStaysPlaced(d, txs, s, t, dirty0, LastOf(o.nats, nid), nid, free);
    }
  }

  lemma NodeStaysPlaced(d: Image, txs: seq<seq<Entry>>, s: F.FileState, t: F.FileState, dirty0: set<U32>,
                        last: Option<Entry>, nid: U32, free: set<U32>)
    requires Replayable(d, txs) && NatOnDisk(Recovered(d, txs), LayoutOf(d[0])) && s.disk == d
    requires Writing(d, t.disk, txs, s.ino) && (forall l: nat :: l < |d| && l !in free ==> t.disk[l] == d[l])
    requires Committed(Recovered(d, txs), GeometryOf(d[0]), s.ino, s.nodes, dirty0)
    requires forall l :: l in free ==> l < |d| && FreshBlock(d, txs, s.ino, l)
    requires nid in t.nodes && InNat(LayoutOf(d[0]), nid) && NodeAccounted(s, t, dirty0, last, nid, free)
    ensures Replayable(t.disk, txs) && NatOnDisk(Recovered(t.disk, txs), LayoutOf(t.disk[0])) &&
      GeometryOf(t.disk[0]) == GeometryOf(d[0])
    ensures NodePlaced(t.disk, Recovered(t.disk, txs), GeometryOf(d[0]), last, nid, t.nodes[nid])
  {
    var g, D, d1 := GeometryOf(d[0]), Recovered(d, txs), t.disk;
    WritingKeepsLog(d, d1, txs, s.ino);
    NatStaysOnDisk(d1, txs);
    var D1 := Recovered(d1, txs);
    if last.Some? {
      assert FreshBlock(d, txs, s.ino, last.value.addr);
    } else {
      var addr := NatLpa(D, g.lay, nid);
      NatUntouched(d, d1, txs, s.ino, nid);
      assert addr !in free by {
        if addr in free {
          var h :| B.Position(h) && B.Walk(NodesOf(D, g.lay), s.ino, h) == Some(nid);
          assert FreshBlock(d, txs, s.ino, addr) && NodeStandsIn(D, g.lay, s.ino, h, addr);
        }
      }
      RecoveredMain(d, txs, addr);
    }
  }

  /** The content and node writes do not touch the NAT table. */
  lemma NatUntouched(d: Image, d1: Image, txs: seq<seq<Entry>>, ino: U32, nid: U32)
    requires Replayable(d, txs) && Writing(d, d1, txs, ino) && InNat(LayoutOf(d[0]), nid)
    ensures Replayable(d1, txs) && NatOnDisk(Recovered(d1, txs), LayoutOf(d[0])) &&
      NatOnDisk(Recovered(d, txs), LayoutOf(d[0]))
    ensures NatLpa(Recovered(d1, txs), LayoutOf(d[0]), nid) == NatLpa(Recovered(d, txs), LayoutOf(d[0]), nid)
    ensures NatOwner(Recovered(d1, txs), LayoutOf(d[0]), nid) == NatOwner(Recovered(d, txs), LayoutOf(d[0]), nid)
  {
    var lay := LayoutOf(d[0]);
    WritingKeepsLog(d, d1, txs, ino);
    NatStaysOnDisk(d, txs);
    NatStaysOnDisk(d1, txs);
    forall l: nat | l < |d| && NatBlock(lay, l) ensures Recovered(d1, txs)[l] == Recovered(d, txs)[l] {
      assert !FreshBlock(d, txs, ino, l);
      RecoveredSameAt(d, d1, txs, l);
    }
    hide Replayable, Recovered;
    SameTableSameNat(Recovered(d, txs), Recovered(d1, txs), lay, nid);
  }

  ghost predicate SameStored(s: F.FileState, t: F.FileState) {
    forall k: nat :: F.Stored(t, k) == F.Stored(s, k)
  }

  /** Blocks that no part of the file stands in may change. */
  lemma DiskInvisible(s: F.FileState, t: F.FileState, avail: set<U32>, size: nat)
    requires F.Coherent(s) && F.Tidy(s, size) && Free(s, avail) && t == s.(disk := t.disk) && |t.disk| == |s.disk|
    requires forall l: nat :: l < |s.disk| && l !in avail ==> t.disk[l] == s.disk[l]
    ensures F.Coherent(t) && F.Tidy(t, size) && F.SameBlocks(s, t) && SameStored(s, t)
  {
    SameMap(s, t);
    hide F.LpaAt;
    forall k: nat ensures F.Stored(t, k) == F.Stored(s, k) { assert F.LpaAt(t, k) == F.LpaAt(s, k); }
    forall k | k in t.index
      ensures F.PageCoherent(t, k) { assert F.PageCoherent(s, k) && F.LpaAt(t, k) == F.LpaAt(s, k); }
    forall k | 0 <= k < B.MAX_BLOCKS ensures B.LpaOf(t.nodes, t.ino, k) < |t.disk| || B.LpaOf(t.nodes, t.ino, k) == 0 {
      assert B.LpaOf(s.nodes, s.ino, k) < |s.disk| || B.LpaOf(s.nodes, s.ino, k) == 0;
    }
    forall k: nat ensures F.BlockOf(t, k) == F.BlockOf(s, k) { assert F.Stored(t, k) == F.Stored(s, k); }
    F.SameBlocksSameBytes(s, t);
    forall k: nat | k >= F.SizeToBlock(size) ensures F.LpaAt(t, k) == 0 { assert F.LpaAt(t, k) == F.LpaAt(s, k); }
  }

  /** What the data part leaves free is still free for the nodes. */
  lemma StillFree(s: F.FileState, t: F.FileState, relocs: seq<Relocation>, free: set<U32>, avail: set<U32>)
    requires Free(s, free) && avail <= free && |t.disk| == |s.disk| && MapMoved(s, t, relocs)
    requires FromTo(relocs, free, avail)
    ensures Free(t, avail) && forall k: nat :: F.LpaAt(t, k) == F.LpaAt(s, k) || F.LpaAt(t, k) in free
  {
    hide F.LpaAt;
    forall k: nat ensures F.LpaAt(t, k) !in avail && (F.LpaAt(t, k) == F.LpaAt(s, k) || F.LpaAt(t, k) in free) {
      if i :| 0 <= i < |relocs| && relocs[i].block == k {
        assert F.LpaAt(t, relocs[i].block) == relocs[i].newLpa && relocs[i] in relocs;
      } else {
        assert F.LpaAt(t, k) == F.LpaAt(s, k);
      }
    }
  }

  /** The data and the size of the file, before its nodes are written. */
  method CommitContents(f: F.FileObject, free: set<U32>)
    returns (r: F.Result, avail: set<U32>, given: seq<U32>)
    requires f.Valid() && Free(f.State(), free) && f.size <= F.MAX_U64
    modifies f.dev`disk, f.dev`history, f.nodes, f.cache`dirtyPages, f.cache.manager, f.cache.manager.replacer
    ensures f.Valid() && avail <= free && |f.dev.disk| == |old(f.dev.disk)|
    ensures BlockDevice.OnlyTo(old(f.dev.history), f.dev.history, free)
    ensures forall l: nat :: l < |f.dev.disk| && l !in free ==> f.dev.disk[l] == old(f.dev.disk)[l]
    ensures F.SameBlocks(old(f.State()), f.State())
    ensures r.Done? ==> ContentsDone(old(f.State()), f.State(), old(f.nodes.dirty), f.nodes.dirty, free, avail, f.size)
    ensures B.Touched(old(f.nodes.Book()), f.nodes.Book(), 3 * |old(f.cache.dirtyPages)|)
    ensures r in {F.Done, F.Failed(B.EIO), F.Failed(B.ENOSPC), F.Failed(B.ENOSYS)} &&
      (r == F.Failed(B.EIO) ==> f.Faulty())
    ensures r == F.Failed(B.ENOSPC) ==> f.nodes.supply == [] || |free| < |old(f.cache.dirtyPages)| + NODE_RESERVE
    ensures r.Done? ==> BelowLimit(old(f.cache.dirtyPages)) && |free| == |avail| + |old(f.cache.dirtyPages)|
    ensures r == F.Failed(B.ENOSYS) ==> !BelowLimit(old(f.cache.dirtyPages))
    ensures r.Done? ==> Reclaims(old(f.State()), f.State(), f.truncated, given, free)
  {
    hide F.FileObject.Valid, F.SameBlocks, F.LpaAt, Stable, MapMoved, Free, BelowLimit, B.Drawn, Reclaims;
    ghost var s, book, pages := f.State(), f.nodes.Book(), f.cache.dirtyPages;
    given := [];
    var relocs;
    r, relocs, avail := CommitData(f, free);
    if r.Failed? { return; }
    given := CollectOldLpas(relocs, f.truncated);
    ghost var s1, now := f.State(), f.nodes.Book();
    StillFree(s, s1, relocs, free, avail);
    CollectedReclaims(s, s1, relocs, f.truncated, free, avail);
    SyncMetadata(f);
    ReclaimsThen(s, s1, f.State(), f.truncated, given, free);
    F.SameBlocksChain(s, s1, f.State());
    MetadataKeeps(s1, f.State(), avail);
    TouchedInode(book, now, f.nodes.Book(), f.nodes.ino, 3 * |pages|);
  }

  lemma TouchedInode(a: B.NodeBook, b: B.NodeBook, c: B.NodeBook, ino: U32, most: nat)
    requires B.Touched(a, b, most) && c.nodes.Keys == b.nodes.Keys && c.supply == b.supply && c.dirty == b.dirty + {ino}
    requires forall n :: n in c.nodes && n != ino ==> c.nodes[n] == b.nodes[n]
    ensures B.Touched(a, c, most)
  {
    B.DrawnSame(b, c, 0);
    B.DrawnChain(a, b, c, most, 0);
    hide B.Drawn;
  }

  lemma MetadataKeeps(s: F.FileState, t: F.FileState, avail: set<U32>)
    requires Stable(s) && Free(s, avail) && t == s.(nodes := t.nodes) && forall j: nat :: F.LpaAt(t, j) == F.LpaAt(s, j)
    ensures Stable(t) && Free(t, avail)
  {
    hide B.LpaOf;
    forall k: nat ensures F.Stored(t, k) == F.BlockOf(t, k) && F.LpaAt(t, k) !in avail {
      assert F.LpaAt(t, k) == F.LpaAt(s, k) && F.Stored(s, k) == F.BlockOf(s, k);
    }
  }

  /** What holds between the data part of a commit and its node part: t shows what s showed, all of it is
      stored, and only free blocks were used. */
  ghost predicate ContentsDone(s: F.FileState, t: F.FileState, dirty0: set<U32>, dirty1: set<U32>, free: set<U32>,
                               avail: set<U32>, size: nat) {
    && |t.disk| == |s.disk| && (forall l: nat :: l < |s.disk| && l !in free ==> t.disk[l] == s.disk[l])
    && t.ino == s.ino && F.SameBlocks(s, t) && Stable(t) && avail <= free && Free(t, avail)
    && (forall k: nat :: F.LpaAt(t, k) == F.LpaAt(s, k) || F.LpaAt(t, k) in free)
    && SizeIn(t.nodes, t.ino) == size && dirty0 <= dirty1
    && forall m :: m in t.nodes && m !in dirty1 ==> m in s.nodes && t.nodes[m] == s.nodes[m]
  }

  lemma DoneLeaves(s: F.FileState, t: F.FileState, dirty0: set<U32>, dirty1: set<U32>, free: set<U32>, avail: set<U32>,
                   size: nat)
    requires ContentsDone(s, t, dirty0, dirty1, free, avail, size)
    ensures Free(t, avail) && avail <= free && F.SameBlocks(s, t)
  {
  }

  lemma DirtyNodes(b: B.NodeBook)
    requires B.Stocked(b)
    ensures b.dirty <= b.nodes.Keys && |b.dirty| <= |b.nodes|
    ensures B.Stocked(b.(dirty := {}))
  {
    SubsetSize(b.dirty, b.nodes.Keys);
  }

  /** Every dirty node goes to a free block. */
  method PlaceNodes(f: F.FileObject, free: set<U32>, avail: set<U32>) returns (r: F.Result, moves: seq<NodeMove>)
    requires f.Valid() && Free(f.State(), avail) && avail <= free
    modifies f.dev`disk, f.dev`history
    ensures f.Valid() && F.SameBlocks(old(f.State()), f.State()) && SameStored(old(f.State()), f.State())
    ensures Outside(old(f.dev.disk), f.dev.disk, avail) && BlockDevice.OnlyTo(old(f.dev.history), f.dev.history, avail)
    ensures r.Done? ==> NodesWritten(f.dev.disk, f.nodes.nodes, moves, f.nodes.dirty, free, {})
    ensures r in {F.Done, F.Failed(B.EIO), F.Failed(B.ENOSPC)} && (r == F.Failed(B.EIO) ==> f.dev.faulty)
    ensures r == F.Failed(B.ENOSPC) ==> |avail| < |f.nodes.nodes| + NODE_RESERVE
  {
    ghost var t := f.State();
    DirtyNodes(f.nodes.Book());
    hide B.Stocked, F.SameBlocks, F.LpaAt, SameStored, B.Tree, Free, NodesWritten, F.Coherent, F.Tidy,
      BlockDevice.OnlyTo;
    FreeBounds(t, avail);
    r, moves := WritebackNodes(f.dev, f.nodes.nodes, f.nodes.dirty, free, avail);
    DiskInvisible(t, f.State(), avail, f.size);
  }

  /** The node part: every dirty node goes to a free block, and its NAT entry is journalled. */
  method CommitNodes(f: F.FileObject, free: set<U32>, avail: set<U32>, ghost s: F.FileState, ghost dirty0: set<U32>)
    returns (r: F.Result, nats: seq<Entry>)
    requires f.Valid() && ContentsDone(s, f.State(), dirty0, f.nodes.dirty, free, avail, f.size)
    modifies f.dev`disk, f.dev`history, f.nodes`dirty
    ensures f.Valid() && F.SameBlocks(old(f.State()), f.State())
    ensures Outside(old(f.dev.disk), f.dev.disk, avail) && BlockDevice.OnlyTo(old(f.dev.history), f.dev.history, avail)
    ensures r.Done? ==> f.nodes.dirty == {} && ContentsWritten(s, f.State(), dirty0, nats, free, f.size)
    ensures r.Done? ==> OwnEntries(nats, f.nodes.nodes, f.nodes.ino, free)
    ensures r in {F.Done, F.Failed(B.EIO), F.Failed(B.ENOSPC)} && (r == F.Failed(B.EIO) ==> f.dev.faulty)
    ensures r == F.Failed(B.ENOSPC) ==> |avail| < |f.nodes.nodes| + NODE_RESERVE
  {
    ghost var t, dirty1 := f.State(), f.nodes.dirty;
    hide Outside, ContentsDone, F.SameBlocks, F.LpaAt, SameStored, NatEntries, Stable, Free, NodesWritten, F.Coherent;
    hide F.FileObject.Valid, F.Tidy, ContentsWritten, BlockDevice.OnlyTo, SizeIn, OwnEntries;
    DoneLeaves(s, t, dirty0, dirty1, free, avail, f.size);
    nats := [];
    var moves;
    r, moves := PlaceNodes(f, free, avail);
    if r.Failed? { return; }
    Finished(s, t, f.State(), dirty0, dirty1, moves, free, avail, f);
    MovesAreOwn(f.dev.disk, f.nodes.nodes, moves, dirty1, free, f.nodes.ino);
    nats := NatEntries(moves, f.nodes.ino);
    ClearDirtyNodes(f);
  }

  method ClearDirtyNodes(f: F.FileObject)
    requires f.Valid()
    modifies f.nodes`dirty
    ensures f.Valid() && f.State() == old(f.State()) && f.nodes.dirty == {}
  {
    hide F.Coherent, F.Tidy, B.FileNodes.Valid, PageCaching.PageCache.Valid;
    f.nodes.ClearDirty();
  }

  lemma Finished(s: F.FileState, t: F.FileState, u: F.FileState, dirty0: set<U32>, dirty1: set<U32>,
                 moves: seq<NodeMove>,
                 free: set<U32>, avail: set<U32>, f: F.FileObject)
    requires f.Valid() && u == f.State() && dirty1 == f.nodes.dirty
    requires ContentsDone(s, t, dirty0, dirty1, free, avail, f.size) && u == t.(disk := u.disk) &&
      Outside(t.disk, u.disk, avail)
    requires F.SameBlocks(t, u) && SameStored(t, u) && NodesWritten(u.disk, u.nodes, moves, dirty1, free, {})
    ensures ContentsWritten(s, u, dirty0, NatEntries(moves, u.ino), free, f.size)
  {
    hide Outside, ContentsWritten, F.SameBlocks, SameStored, NodesWritten, Stable, F.LpaAt, Free, NatEntries,
      F.Coherent, F.Tidy;
    DirtyNodes(f.nodes.Book());
    F.SameBlocksChain(s, t, u);
    Accounted(s, t, u, dirty0, dirty1, moves, free, avail, f.size);
  }

  /** Enough nids and blocks for a commit of so many dirty pages of a file with so many nodes: a page may
      need three new nodes, and every node may have to move. */
  ghost predicate Enough(nids: nat, blocks: nat, pages: nat, nodes: nat) {
    nids > 3 * pages && blocks >= 4 * pages + nodes + NODE_RESERVE
  }

  lemma EnoughNids(a: B.NodeBook, b: B.NodeBook, pages: nat)
    requires B.Touched(a, b, 3 * pages)
    ensures b.supply == [] ==> |a.supply| <= 3 * pages
    ensures |b.nodes| <= |a.nodes| + 3 * pages
  {
    B.TouchedSize(a, b, 3 * pages);
  }

  /** The content side of rtfsFileInodeCommitCowWritebackInternal: afterwards the file shows what it
      showed, everything is stored in blocks that were free, and nats are the NAT entries to journal: of
      this file's own nodes only.
      given are the data LPAs to give back once the transaction has completed, those of truncations
      among them. Without faults, and with Enough blocks and nids, it succeeds exactly if the block index can map
      all dirty pages, and fails with ENOSYS otherwise. */
  method CommitFile(f: F.FileObject, free: set<U32>) returns (r: F.Result, nats: seq<Entry>, given: seq<U32>)
    requires f.Valid() && Free(f.State(), free) && f.size <= F.MAX_U64
    modifies f`truncated, f.dev`disk, f.dev`history, f.nodes, f.cache`dirtyPages, f.cache.manager,
      f.cache.manager.replacer
    ensures |f.dev.disk| == |old(f.dev.disk)| && BlockDevice.OnlyTo(old(f.dev.history), f.dev.history, free)
    ensures forall l: nat :: l < |f.dev.disk| && l !in free ==> f.dev.disk[l] == old(f.dev.disk)[l]
    ensures f.Valid() && F.SameBlocks(old(f.State()), f.State())
    ensures r.Done? ==>
      f.nodes.dirty == {} && ContentsWritten(old(f.State()), f.State(), old(f.nodes.dirty), nats, free, f.size)
    ensures r.Done? ==> OwnEntries(nats, f.nodes.nodes, f.nodes.ino, free)
    ensures r.Done? ==> f.truncated == [] && Reclaims(old(f.State()), f.State(), old(f.truncated), given, free)
    ensures r.Failed? ==> f.truncated == old(f.truncated)
    ensures f.nodes.nodes.Keys <= old(f.nodes.nodes).Keys + Elements(old(f.nodes.supply))
    ensures r in {F.Done, F.Failed(B.EIO), F.Failed(B.ENOSPC), F.Failed(B.ENOSYS)} &&
      (r == F.Failed(B.EIO) ==> f.Faulty())
    ensures r == F.Failed(B.ENOSPC) ==>
      !Enough(|old(f.nodes.supply)|, |free|, |old(f.cache.dirtyPages)|, |old(f.nodes.nodes)|)
    ensures r.Done? ==> BelowLimit(old(f.cache.dirtyPages))
    ensures r == F.Failed(B.ENOSYS) ==> !BelowLimit(old(f.cache.dirtyPages))
  {
    hide F.FileObject.Valid, F.SameBlocks, F.LpaAt, Stable, Free, ContentsWritten, BlockDevice.OnlyTo, SizeIn,
      BelowLimit, B.Touched, OwnEntries, Reclaims;
    ghost var s, dirty0, book, pages := f.State(), f.nodes.dirty, f.nodes.Book(), f.cache.dirtyPages;
    nats := [];
    var avail;
    r, avail, given := CommitContents(f, free);
    EnoughNids(book, f.nodes.Book(), |pages|);
    NodesFromSupply(book, f.nodes.Book(), 3 * |pages|);
    if r.Failed? { return; }
    ghost var t, history1 := f.State(), f.dev.history;
    r, nats := CommitNodes(f, free, avail, s, dirty0);
    F.SameBlocksChain(s, t, f.State());
    BlockDevice.OnlyToThen(old(f.dev.history), history1, f.dev.history, free, avail);
    if r.Failed? { return; }
    SameMap(t, f.State());
    ReclaimsThen(s, t, f.State(), f.truncated, given, free);
    ClearGivenUp(f);
  }

  /** rtfsFileInodeClearPendingCowState */
  method ClearGivenUp(f: F.FileObject)
    requires f.Valid()
    modifies f`truncated
    ensures f.Valid() && f.State() == old(f.State()) && f.truncated == []
  {
    f.truncated := [];
  }

  lemma NodesFromSupply(a: B.NodeBook, b: B.NodeBook, most: nat)
    requires B.Touched(a, b, most)
    ensures b.nodes.Keys <= a.nodes.Keys + Elements(a.supply)
  {
    var n := |a.supply| - |b.supply|;
    forall k | k in Elements(a.supply[..n]) ensures k in Elements(a.supply) {}
  }

  /** The failing commit: a whole block written behind the limit of the tree is accepted, but a commit
      of it never succeeds; without faults and with Enough blocks and nids it fails with ENOSYS. */
  method CommitPastTheLimitFails(f: F.FileObject, block: Block, free: set<U32>) returns (w: F.Result, r: F.Result)
    requires f.Valid() && Free(f.State(), free) && f.size <= BLOCK_SIZE * B.MAX_BLOCKS
    modifies f`size, f`truncated, f.dev`disk, f.dev`history, f.nodes, f.cache, f.cache.manager, f.cache.manager.replacer
    ensures w.Done? && f.Valid() && f.size == BLOCK_SIZE * (B.MAX_BLOCKS + 1)
    ensures r.Failed? && r.error in {B.EIO, B.ENOSPC, B.ENOSYS} && (r.error == B.EIO ==> f.Faulty())
  {
    hide F.FileObject.Valid, F.SameBlocks, F.LpaAt, Free, ContentsWritten, BlockDevice.OnlyTo, F.Writes;
    hide F.Storable, F.Appended, F.AllStorable, F.AllInReach, F.InReach, BelowLimit, F.WriteFails, Enough, Reclaims;
    ghost var s, size0 := f.State(), f.size;
    var offset := BLOCK_SIZE * B.MAX_BLOCKS;
    var written;
    w, written := f.Write(offset, block);
    LimitIsAppended(s, size0, written);
    FreeSame(s, f.State(), free);
    F.FirstInReach(f.State(), offset, written);
    assert offset / BLOCK_SIZE == B.MAX_BLOCKS;
    BeyondLimit(f);
    var nats, given;
    r, nats, given := CommitFile(f, free);
  }

  lemma LimitIsAppended(s: F.FileState, size: nat, written: nat)
    requires size <= BLOCK_SIZE * B.MAX_BLOCKS
    ensures var offset := BLOCK_SIZE * B.MAX_BLOCKS; var k := (offset + written) / BLOCK_SIZE;
      written < BLOCK_SIZE ==> F.Storable(s, size, offset, BLOCK_SIZE, k) && F.Appended(size, offset, BLOCK_SIZE, k)
  {
    if written < BLOCK_SIZE { assert (BLOCK_SIZE * B.MAX_BLOCKS + written) / BLOCK_SIZE == B.MAX_BLOCKS; }
  }

  lemma FreeSame(s: F.FileState, t: F.FileState, free: set<U32>)
    requires Free(s, free) && t.nodes == s.nodes && t.ino == s.ino && |t.disk| == |s.disk|
    ensures Free(t, free)
  {
    SameMap(s, t);
    hide F.LpaAt;
    forall k: nat ensures F.LpaAt(t, k) !in free { assert F.LpaAt(t, k) == F.LpaAt(s, k); }
  }

  lemma BeyondLimit(f: F.FileObject)
    requires f.Valid() && F.InReach(f.State(), B.MAX_BLOCKS)
    ensures !BelowLimit(f.cache.dirtyPages)
  {
    BeyondIsDirty(f.State(), f.cache.dirtyPages, f.cache.manager.Pinned(), f.cache.handles, B.MAX_BLOCKS);
  }

  /** Beyond the limit of the tree a page can only be dirty. */
  lemma BeyondIsDirty(s: F.FileState, cache: set<U32>, pinned: set<U32>, handles: multiset<U32>, k: nat)
    requires F.Coherent(s) && PageCaching.Books(s.index, pinned, cache, handles) && F.InReach(s, k) && k >= B.MAX_BLOCKS
    ensures !BelowLimit(cache)
  {
    assert F.PageCoherent(s, k);
    DirtyFlags(s.index, pinned, cache, handles);
  }

  lemma Accounted(s: F.FileState, t: F.FileState, u: F.FileState, dirty0: set<U32>, dirty1: set<U32>,
                  moves: seq<NodeMove>,
                  free: set<U32>, avail: set<U32>, size: nat)
    requires ContentsDone(s, t, dirty0, dirty1, free, avail, size) && u == t.(disk := u.disk) &&
      Outside(t.disk, u.disk, avail)
    requires F.SameBlocks(s, u) && F.SameBlocks(t, u) && B.Tree(u.nodes, u.ino)
    requires SameStored(t, u)
    requires NodesWritten(u.disk, u.nodes, moves, dirty1, free, {})
    ensures ContentsWritten(s, u, dirty0, NatEntries(moves, u.ino), free, size)
  {
    SameMap(t, u);
    hide F.LpaAt, F.Stored, NodesWritten, B.Tree;
    forall k: nat
      ensures F.Stored(u, k) == F.BlockOf(u, k) && (F.LpaAt(u, k) == F.LpaAt(s, k) || F.LpaAt(u, k) in free) {
      assert F.BlockOf(u, k) == F.BlockOf(t, k) && F.LpaAt(u, k) == F.LpaAt(t, k);
      assert F.Stored(t, k) == F.BlockOf(t, k);
    }
    forall nid | nid in u.nodes ensures NodeAccounted(s, u, dirty0, LastOf(NatEntries(moves, u.ino), nid), nid, free) {
      EntryOfNode(u.disk, u.nodes, moves, dirty1 * u.nodes.Keys, free, u.ino, nid);
      NodeRoundTrip(u.nodes[nid]);
    }
  }

  /** Every crash point among writes that go to fresh blocks leaves a device the commit's crash theorem
      speaks of. */
  lemma {:induction false} PrefixIsWriting(d: Image, txs: seq<seq<Entry>>, ino: U32, ws: seq<BlockDevice.Write>)
    requires Replayable(d, txs) && NatOnDisk(Recovered(d, txs), LayoutOf(d[0])) && BlockDevice.WritesFit(|d|, ws)
    requires forall w :: w in ws ==> FreshBlock(d, txs, ino, w.lpa)
    ensures Writing(d, BlockDevice.ApplyWrites(d, ws), txs, ino)
  {
    if ws != [] {
      var init, last := ws[..|ws| - 1], ws[|ws| - 1];
      assert forall w :: w in init ==> w in ws;
      assert last in ws;
      PrefixIsWriting(d, txs, ino, init);
    }
  }
}
