/** Commits one after another: what holds between two commits makes the next one crash-atomic, and the
    commit brings it about again. */
module CommitChain {
  import opened Wrappers
  import opened Bytes
  import opened JournalFormat
  import opened JournalScan
  import opened JournalDedup
  import opened RedoLog
  import opened LogRecovery
  import opened JournalCommit
  import opened DiskFiles
  import opened FileCommit
  import opened CommitRun
  import B = BlockIndex
  import F = FileObjects

  /** All that the file occupies on the device has been handed out. */
  ghost predicate Within(D: Image, lay: Layout, ino: U32, handed: set<U32>)
    requires NatOnDisk(D, lay)
  {
    forall l: nat :: Occupies(D, lay, ino, l) ==> l in handed
  }

  ghost predicate MainOnly(g: Geometry, n: nat, blocks: set<U32>) {
    forall l :: l in blocks ==> MainBlock(g, l) && l < n
  }

  /** Between commits: the clean nodes of the file s are as the device would recover them, and all
      blocks of the file, on the device and in memory, are among those handed out. */
  ghost predicate Settled(d: Image, txs: seq<seq<Entry>>, s: F.FileState, dirty: set<U32>, handed: set<U32>) {
    && Replayable(d, txs) && NatOnDisk(Recovered(d, txs), LayoutOf(d[0])) && TablesApart(LayoutOf(d[0])) && s.disk == d
    && Committed(Recovered(d, txs), GeometryOf(d[0]), s.ino, s.nodes, dirty)
    && MainOnly(GeometryOf(d[0]), |d|, handed) && Within(Recovered(d, txs), LayoutOf(d[0]), s.ino, handed)
    && forall k: nat :: F.LpaAt(s, k) != 0 ==> F.LpaAt(s, k) in handed
  }

  /** Blocks of the main area that were never handed out. */
  ghost predicate NeverHanded(g: Geometry, n: nat, handed: set<U32>, free: set<U32>) {
    MainOnly(g, n, free) && free !! handed
  }

  /** What has been handed out covers the file ino as recovered, and free was never handed out. */
  ghost predicate Guarded(d: Image, txs: seq<seq<Entry>>, ino: U32, handed: set<U32>, free: set<U32>) {
    && Replayable(d, txs) && NatOnDisk(Recovered(d, txs), LayoutOf(d[0])) && MainOnly(GeometryOf(d[0]), |d|, handed)
    && Within(Recovered(d, txs), LayoutOf(d[0]), ino, handed) && NeverHanded(GeometryOf(d[0]), |d|, handed, free)
  }

  /** The file does not occupy the ring, and whatever was never handed out is fresh for it. */
  lemma GuardedIsFresh(d: Image, txs: seq<seq<Entry>>, ino: U32, handed: set<U32>, free: set<U32>)
    requires Guarded(d, txs, ino, handed, free)
    ensures ClearOfRing(GeometryOf(d[0]), Recovered(d, txs), ino)
    ensures forall l :: l in free ==> l < |d| && FreshBlock(d, txs, ino, l)
  {
    var g, D := GeometryOf(d[0]), Recovered(d, txs);
    assert Mountable(d);
    hide Replayable, Recovered, Occupies;
    forall l: nat | InRing(g, l) ensures Unused(D, g.lay, ino, l) {
      RingIsNoTable(g, |d|, l);
      NotOccupied(D, g.lay, ino, handed, l);
    }
    forall l | l in free ensures l < |d| && FreshBlock(d, txs, ino, l) {
      NotOccupied(D, g.lay, ino, handed, l);
    }
  }

  lemma NeverHandedIsFresh(d: Image, txs: seq<seq<Entry>>, s: F.FileState, dirty: set<U32>, handed: set<U32>,
                           free: set<U32>)
    requires Settled(d, txs, s, dirty, handed) && NeverHanded(GeometryOf(d[0]), |d|, handed, free)
    ensures ClearOfRing(GeometryOf(d[0]), Recovered(d, txs), s.ino) && DataPlaced(s, GeometryOf(d[0]))
    ensures forall l :: l in free ==> l < |d| && FreshBlock(d, txs, s.ino, l)
  {
    hide Committed, Replayable, Recovered, Within, F.LpaAt;
    GuardedIsFresh(d, txs, s.ino, handed, free);
  }

  lemma NotOccupied(D: Image, lay: Layout, ino: U32, handed: set<U32>, l: nat)
    requires NatOnDisk(D, lay) && Within(D, lay, ino, handed)
    ensures Occupies(D, lay, ino, l) ==> l in handed
  {
  }

  lemma RingIsNoTable(g: Geometry, n: nat, l: nat)
    requires GeometryOk(g, n) && InRing(g, l)
    ensures !NatBlock(g.lay, l)
  {
  }

  /** The device of one complete commit, and the entries it adds to the log. */
  ghost predicate CommitOf(d: Image, txs: seq<seq<Entry>>, s: F.FileState, t: F.FileState, dirty: set<U32>,
                           nats: seq<Entry>,
                           o: Output, image: seq<Block>, free: set<U32>, size: nat)
    requires Replayable(d, txs)
  {
    && ContentsWritten(s, t, dirty, nats, free, size) && (forall nid :: nid in t.nodes ==> InNat(LayoutOf(d[0]), nid))
    && OwnEntries(nats, t.nodes, t.ino, free)
    && AllOfKind(Super, o.supers) && AllOfKind(Nats, o.nats) && AllOfKind(Sits, o.sits) && SameLast(o.nats, nats)
    && CanCommit(t.disk, txs, image, EntriesOf(o))
  }

  /** After a complete commit a node of the file is recovered where it was written, or stays where it was. */
  lemma NodeAfterCommit(d: Image, txs: seq<seq<Entry>>, s: F.FileState, t: F.FileState, dirty: set<U32>,
                        nats: seq<Entry>,
                        o: Output, image: seq<Block>, handed: set<U32>, free: set<U32>, size: nat, nid: U32)
    requires Settled(d, txs, s, dirty, handed) && NeverHanded(GeometryOf(d[0]), |d|, handed, free)
    requires CommitOf(d, txs, s, t, dirty, nats, o, image, free, size) && nid in t.nodes
    ensures var d2, txs2, lay := Committing(t.disk, txs, image), txs + [EntriesOf(o)], LayoutOf(d[0]);
      && Replayable(d2, txs2) && NatOnDisk(Recovered(d2, txs2), lay)
      && nid in NodesOf(Recovered(d2, txs2), lay) && NodesOf(Recovered(d2, txs2), lay)[nid] == t.nodes[nid]
      && MainBlock(GeometryOf(d[0]), NatLpa(Recovered(d2, txs2), lay, nid)) &&
        NatLpa(Recovered(d2, txs2), lay, nid) in handed + free
  {
    hide *;
    CommitHappens(d, txs, s, t, dirty, nats, o, image, handed, free, size);
    NodePlacedNow(d, txs, s, t, dirty, nats, o, image, handed, free, size, nid);
    CommittedNode(t.disk, txs, image, o, nid, t.nodes[nid]);
  }

  /** Before the journal is written it stands in a main block that was free or handed out before. */
  lemma NodePlacedNow(d: Image, txs: seq<seq<Entry>>, s: F.FileState, t: F.FileState, dirty: set<U32>,
                      nats: seq<Entry>,
                      o: Output, image: seq<Block>, handed: set<U32>, free: set<U32>, size: nat, nid: U32)
    requires Settled(d, txs, s, dirty, handed) && NeverHanded(GeometryOf(d[0]), |d|, handed, free)
    requires CommitOf(d, txs, s, t, dirty, nats, o, image, free, size) && nid in t.nodes
    ensures InNat(LayoutOf(d[0]), nid) && Replayable(t.disk, txs) && |Recovered(t.disk, txs)| == |t.disk|
    ensures LayoutOf(d[0]) == GeometryOf(d[0]).lay && NatOnDisk(Recovered(t.disk, txs), LayoutOf(d[0]))
    ensures NodePlaced(t.disk, Recovered(t.disk, txs), GeometryOf(d[0]), LastOf(o.nats, nid), nid, t.nodes[nid])
    ensures var addr := NatLpaWith(Recovered(t.disk, txs), LayoutOf(d[0]), LastOf(o.nats, nid), nid);
      MainBlock(GeometryOf(d[0]), addr) && addr in handed + free
  {
    hide *;
    CommitHappens(d, txs, s, t, dirty, nats, o, image, handed, free, size);
    NeverHandedIsFresh(d, txs, s, dirty, handed, free);
    AccountedParts(d, txs, s, t, dirty, nats, o, image, handed, free, size, nid);
    NodeStaysPlaced(d, txs, s, t, dirty, LastOf(nats, nid), nid, free);
    NatUntouched(d, t.disk, txs, s.ino, nid);
    PlaceIsMain(d, txs, s, t, dirty, LastOf(nats, nid), handed, free, nid);
  }

  lemma AccountedParts(d: Image, txs: seq<seq<Entry>>, s: F.FileState, t: F.FileState, dirty: set<U32>,
                       nats: seq<Entry>,
                       o: Output, image: seq<Block>, handed: set<U32>, free: set<U32>, size: nat, nid: U32)
    requires Settled(d, txs, s, dirty, handed) && NeverHanded(GeometryOf(d[0]), |d|, handed, free)
    requires CommitOf(d, txs, s, t, dirty, nats, o, image, free, size) && nid in t.nodes
    ensures s.disk == d && Committed(Recovered(d, txs), GeometryOf(d[0]), s.ino, s.nodes, dirty)
    ensures InNat(LayoutOf(d[0]), nid) && NodeAccounted(s, t, dirty, LastOf(nats, nid), nid, free)
    ensures LastOf(o.nats, nid) == LastOf(nats, nid) && Within(Recovered(d, txs), LayoutOf(d[0]), s.ino, handed)
    ensures forall l: nat :: l < |d| && l !in free ==> t.disk[l] == d[l]
  {
    hide F.LpaAt, Committed, Within, Replayable, Recovered, NodeAccounted, CanCommit, LastOf;
  }

  lemma PlaceIsMain(d: Image, txs: seq<seq<Entry>>, s: F.FileState, t: F.FileState, dirty: set<U32>,
                    last: Option<Entry>, handed: set<U32>, free: set<U32>, nid: U32)
    requires Replayable(d, txs) && NatOnDisk(Recovered(d, txs), LayoutOf(d[0])) && InNat(LayoutOf(d[0]), nid)
    requires Committed(Recovered(d, txs), GeometryOf(d[0]), s.ino, s.nodes, dirty) && nid in t.nodes
    requires Within(Recovered(d, txs), LayoutOf(d[0]), s.ino, handed) && NodeAccounted(s, t, dirty, last, nid, free)
    requires Replayable(t.disk, txs) && NatOnDisk(Recovered(t.disk, txs), LayoutOf(d[0])) && |t.disk| == |d|
    requires NodePlaced(t.disk, Recovered(t.disk, txs), GeometryOf(d[0]), last, nid, t.nodes[nid])
    requires NatLpa(Recovered(t.disk, txs), LayoutOf(d[0]), nid) == NatLpa(Recovered(d, txs), LayoutOf(d[0]), nid)
    ensures var addr := NatLpaWith(Recovered(t.disk, txs), LayoutOf(d[0]), last, nid);
      MainBlock(GeometryOf(d[0]), addr) && addr in handed + free
  {
    hide Recovered, Replayable, Within, Committed, MainBlock;
    if last.None? { CleanNodeIsWithin(Recovered(d, txs), GeometryOf(d[0]), s, dirty, handed, nid); }
  }

  lemma CleanNodeIsWithin(D: Image, g: Geometry, s: F.FileState, dirty: set<U32>, handed: set<U32>, nid: U32)
    requires NatOnDisk(D, g.lay) && Committed(D, g, s.ino, s.nodes, dirty) && Within(D, g.lay, s.ino, handed)
    requires nid in s.nodes && nid !in dirty
    ensures NatLpa(D, g.lay, nid) in handed
  {
    var h :| B.Position(h) && B.Walk(NodesOf(D, g.lay), s.ino, h) == Some(nid);
    assert NodeStandsIn(D, g.lay, s.ino, h, NatLpa(D, g.lay, nid));
    assert Occupies(D, g.lay, s.ino, NatLpa(D, g.lay, nid));
  }

  /** A device that has all nodes of the tree t holds the file t and nothing more. */
  lemma WithinTree(D: Image, lay: Layout, t: F.FileState, handed: set<U32>)
    requires NatOnDisk(D, lay) && B.Tree(t.nodes, t.ino)
    requires forall nid :: nid in t.nodes ==>
      nid in NodesOf(D, lay) && NodesOf(D, lay)[nid] == t.nodes[nid] && NatLpa(D, lay, nid) in handed
    requires forall k: nat :: F.LpaAt(t, k) != 0 ==> F.LpaAt(t, k) in handed
    ensures Within(D, lay, t.ino, handed) && forall nid :: nid in t.nodes ==> B.Reached(NodesOf(D, lay), t.ino, nid)
  {
    var nodes := NodesOf(D, lay);
    hide NodesOf, B.LpaOf;
    forall l: nat | Occupies(D, lay, t.ino, l) ensures l in handed {
      if h :| NodeStandsIn(D, lay, t.ino, h, l) {
        WalkWithin(t.nodes, nodes, t.ino, h);
        B.NodeExists(t.nodes, t.ino, h);
      } else {
        var k: nat :| F.LpaAt(OnDisk(D, lay, t.ino), k) == l;
        if k < B.MAX_BLOCKS { TreeWithin(t.nodes, nodes, t.ino, k); }
        assert F.LpaAt(t, k) == l;
      }
    }
    forall nid | nid in t.nodes ensures B.Reached(nodes, t.ino, nid) {
      assert B.Reached(t.nodes, t.ino, nid);
      var h :| B.Position(h) && B.Walk(t.nodes, t.ino, h) == Some(nid);
      WalkWithin(t.nodes, nodes, t.ino, h);
    }
  }

  /** The committed device has the geometry of the one before, and its log one transaction more. */
  lemma DeviceAfterCommit(d: Image, txs: seq<seq<Entry>>, s: F.FileState, t: F.FileState, dirty: set<U32>,
                          nats: seq<Entry>,
                          o: Output, image: seq<Block>, handed: set<U32>, free: set<U32>, size: nat)
    requires Settled(d, txs, s, dirty, handed) && NeverHanded(GeometryOf(d[0]), |d|, handed, free)
    requires CommitOf(d, txs, s, t, dirty, nats, o, image, free, size)
    ensures var d2, txs2 := Committing(t.disk, txs, image), txs + [EntriesOf(o)];
      && |d| > 0 && |d2| > 0 && LayoutOf(d2[0]) == LayoutOf(d[0]) == GeometryOf(d[0]).lay
      && Replayable(d2, txs2) && GeometryOf(d2[0]) == GeometryOf(d[0]) && |d2| == |d| &&
        NatOnDisk(Recovered(d2, txs2), LayoutOf(d2[0]))
  {
    NeverHandedIsFresh(d, txs, s, dirty, handed, free);
    assert Writing(d, t.disk, txs, s.ino) by { hide FreshBlock, Replayable, Recovered; }
    WritingKeepsLog(d, t.disk, txs, s.ino);
    JournalRoundTrip(t.disk, txs, image, EntriesOf(o), image);
    CommittingMounts(t.disk, txs, image);
    NatStaysOnDisk(Committing(t.disk, txs, image), txs + [EntriesOf(o)]);
  }

  lemma SettledAgain(d: Image, txs: seq<seq<Entry>>, s: F.FileState, t: F.FileState, dirty: set<U32>, nats: seq<Entry>,
                     o: Output, image: seq<Block>, handed: set<U32>, free: set<U32>, size: nat)
    requires Replayable(d, txs) && Settled(d, txs, s, dirty, handed) && NeverHanded(GeometryOf(d[0]), |d|, handed, free)
    requires CommitOf(d, txs, s, t, dirty, nats, o, image, free, size) && Replayable(t.disk, txs) &&
      |image| <= JournalSizeOf(t.disk[0])
    ensures var d2 := Committing(t.disk, txs, image);
      Settled(d2, txs + [EntriesOf(o)], t.(disk := d2), {}, handed + free)
  {
    var g, d2, txs2 := GeometryOf(d[0]), Committing(t.disk, txs, image), txs + [EntriesOf(o)];
    hide *;
    DeviceAfterCommit(d, txs, s, t, dirty, nats, o, image, handed, free, size);
    DataWithin(d, txs, s, t, dirty, nats, o, image, handed, free, size);
    var D2 := Recovered(d2, txs2);
    forall nid | nid in t.nodes ensures nid in NodesOf(D2, g.lay) && NodesOf(D2, g.lay)[nid] == t.nodes[nid]
      ensures MainBlock(g, NatLpa(D2, g.lay, nid)) && NatLpa(D2, g.lay, nid) in handed + free
    {
      NodeAfterCommit(d, txs, s, t, dirty, nats, o, image, handed, free, size, nid);
    }
    WithinTree(D2, g.lay, t, handed + free);
    CommittedIf(D2, g, t);
    SettledWith(d2, txs2, t, {}, handed + free);
  }

  lemma DataWithin(d: Image, txs: seq<seq<Entry>>, s: F.FileState, t: F.FileState, dirty: set<U32>, nats: seq<Entry>,
                   o: Output, image: seq<Block>, handed: set<U32>, free: set<U32>, size: nat)
    requires Settled(d, txs, s, dirty, handed) && CommitOf(d, txs, s, t, dirty, nats, o, image, free, size)
    requires NeverHanded(GeometryOf(d[0]), |d|, handed, free)
    ensures forall k: nat :: F.LpaAt(t, k) != 0 ==> F.LpaAt(t, k) in handed + free
    ensures TablesApart(LayoutOf(d[0])) && B.Tree(t.nodes, t.ino) && MainOnly(GeometryOf(d[0]), |d|, handed + free)
    ensures forall nid :: nid in t.nodes ==> InNat(LayoutOf(d[0]), nid)
  {
    hide F.LpaAt, Committed, Within, Replayable, Recovered, CanCommit, NodeAccounted, NatOnDisk, F.SameBlocks, F.Tidy,
      B.Tree;
    LpasWithin(s, t, dirty, nats, handed, free, size);
  }

  lemma LpasWithin(s: F.FileState, t: F.FileState, dirty: set<U32>, nats: seq<Entry>, handed: set<U32>, free: set<U32>,
                   size: nat)
    requires ContentsWritten(s, t, dirty, nats, free, size) && forall k: nat :: F.LpaAt(s, k) != 0 ==>
      F.LpaAt(s, k) in handed
    ensures forall k: nat :: F.LpaAt(t, k) != 0 ==> F.LpaAt(t, k) in handed + free
  {
    hide F.LpaAt, F.Stored, F.BlockOf, NodeAccounted, F.SameBlocks, B.Tree;
    forall k: nat | F.LpaAt(t, k) != 0 ensures F.LpaAt(t, k) in handed + free {
      assert F.LpaAt(t, k) == F.LpaAt(s, k) || F.LpaAt(t, k) in free;
    }
  }

  lemma SettledWith(d: Image, txs: seq<seq<Entry>>, t: F.FileState, dirty: set<U32>, handed: set<U32>)
    requires Replayable(d, txs) && NatOnDisk(Recovered(d, txs), LayoutOf(d[0])) && TablesApart(LayoutOf(d[0]))
    requires Committed(Recovered(d, txs), GeometryOf(d[0]), t.ino, t.nodes, dirty)
    requires MainOnly(GeometryOf(d[0]), |d|, handed) && Within(Recovered(d, txs), LayoutOf(d[0]), t.ino, handed)
    requires forall k: nat :: F.LpaAt(t, k) != 0 ==> F.LpaAt(t, k) in handed
    ensures Settled(d, txs, t.(disk := d), dirty, handed)
  {
    forall k: nat ensures F.LpaAt(t.(disk := d), k) == F.LpaAt(t, k) {}
  }

  lemma CommittedIf(D: Image, g: Geometry, t: F.FileState)
    requires NatOnDisk(D, g.lay)
    requires forall nid :: nid in t.nodes ==>
      && InNat(g.lay, nid) && nid in NodesOf(D, g.lay) && NodesOf(D, g.lay)[nid] == t.nodes[nid]
      && MainBlock(g, NatLpa(D, g.lay, nid)) && B.Reached(NodesOf(D, g.lay), t.ino, nid)
    ensures Committed(D, g, t.ino, t.nodes, {})
  {
  }

  /** Between two commits the file is settled; a commit is crash-atomic, and afterwards the file is
      settled again, with no dirty nodes and with the blocks of the commit handed out. So the same holds
      of every later commit. */
  lemma CommitsAreAtomic(d: Image, txs: seq<seq<Entry>>, s: F.FileState, t: F.FileState, dirty: set<U32>,
                         nats: seq<Entry>,
                         o: Output, image: seq<Block>, left: seq<Block>, handed: set<U32>, free: set<U32>, size: nat)
    requires Settled(d, txs, s, dirty, handed) && NeverHanded(GeometryOf(d[0]), |d|, handed, free)
    requires CommitOf(d, txs, s, t, dirty, nats, o, image, free, size) && Survives(image, left)
    ensures left != image ==>
      var d2 := Committing(t.disk, txs, left);
      && Replayable(d2, txs) && NatOnDisk(Recovered(d2, txs), LayoutOf(d[0]))
      && SameFile(Recovered(d, txs), Recovered(d2, txs), LayoutOf(d[0]), s.ino)
    ensures left == image ==>
      var d2, txs2 := Committing(t.disk, txs, image), txs + [EntriesOf(o)];
      && Settled(d2, txs2, t.(disk := d2), {}, handed + free)
      && SizeOnDisk(Recovered(d2, txs2), LayoutOf(d[0]), s.ino) == size
      && F.SameBlocks(s, OnDisk(Recovered(d2, txs2), LayoutOf(d[0]), s.ino))
  {
    var g := GeometryOf(d[0]);
    NeverHandedIsFresh(d, txs, s, dirty, handed, free);
    ReadyAfterWriting(d, txs, s, t, dirty, nats, o, free, size);
    assert LayoutOf(t.disk[0]) == LayoutOf(d[0]) by { WritingKeepsLog(d, t.disk, txs, s.ino); }
    assert s.ino == t.ino && NatOnDisk(Recovered(d, txs), LayoutOf(d[0])) && F.SameBlocks(s, t);
    assert CanCommit(t.disk, txs, image, EntriesOf(o));
    hide *;
    CommitIsCrashAtomic(d, t.disk, txs, image, o, left, t, size);
    if left == image {
      SettledAgain(d, txs, s, t, dirty, nats, o, image, handed, free, size);
      F.SameBlocksChain(s, t, OnDisk(Recovered(Committing(t.disk, txs, image), txs + [EntriesOf(o)]), LayoutOf(d[0]),
        s.ino));
    }
  }

  /** A node that is loaded again after a commit names itself and its inode in its footer: the assertions
      of the source hold. */
  lemma LoadedNodeIsFooted(d: Image, txs: seq<seq<Entry>>, s: F.FileState, dirty: set<U32>, handed: set<U32>, nid: U32)
    requires Settled(d, txs, s, dirty, handed) && B.Tree(s.nodes, s.ino) && nid in s.nodes && nid !in dirty
    ensures var D, lay := Recovered(d, txs), LayoutOf(d[0]);
      && InNat(lay, nid) && NatLpa(D, lay, nid) < |D|
      && var w := WordsOf(D[NatLpa(D, lay, nid)]); w[B.WORD_FOOTER] == nid && w[B.WORD_FOOTER + 1] == s.ino
  {
    hide Within, Replayable, Recovered, F.LpaAt, MainOnly;
    assert HasNode(Recovered(d, txs), LayoutOf(d[0]), nid) && B.Footed(s.nodes, s.ino);
  }

  // ---- The other files ----

  /** None of the nodes is a node of the file ino, as the device has it. */
  ghost predicate Apart(D: Image, lay: Layout, ino: U32, nids: set<U32>)
    requires NatOnDisk(D, lay)
  {
    forall n :: B.Reached(NodesOf(D, lay), ino, n) ==> n !in nids
  }

  /** A commit journals nothing for a node that is not its own. */
  lemma NoForeignEntry(nats: seq<Entry>, out: seq<Entry>, nodes: map<U32, B.Node>, ino: U32, free: set<U32>, nid: U32)
    requires OwnEntries(nats, nodes, ino, free) && SameLast(out, nats) && nid !in nodes
    ensures LastOf(out, nid) == None
  {
    NoKey(nats, nid);
    assert LastOf(out, nid) == LastOf(nats, nid);
  }

  /** After a complete commit the table entry of every other node is as it was, */
  lemma ForeignEntryStays(d: Image, txs: seq<seq<Entry>>, s: F.FileState, t: F.FileState, dirty: set<U32>,
                          nats: seq<Entry>,
                          o: Output, image: seq<Block>, handed: set<U32>, free: set<U32>, size: nat, nid: U32)
    requires Settled(d, txs, s, dirty, handed) && NeverHanded(GeometryOf(d[0]), |d|, handed, free)
    requires CommitOf(d, txs, s, t, dirty, nats, o, image, free, size) && nid !in t.nodes
    ensures var d2, txs2, lay := Committing(t.disk, txs, image), txs + [EntriesOf(o)], LayoutOf(d[0]);
      && Replayable(d2, txs2) && NatOnDisk(Recovered(d2, txs2), lay)
      && SameEntry(Recovered(d, txs), Recovered(d2, txs2), lay, nid)
  {
    var lay, es := LayoutOf(d[0]), EntriesOf(o);
    DeviceAfterCommit(d, txs, s, t, dirty, nats, o, image, handed, free, size);
    CommitHappens(d, txs, s, t, dirty, nats, o, image, handed, free, size);
    NoForeignEntry(nats, o.nats, t.nodes, t.ino, free, nid);
    hide *;
    if InNat(lay, nid) {
      NatUntouched(d, t.disk, txs, s.ino, nid);
      CommittedNat(t.disk, txs, image, o, nid);
      NoEntryNoChange(Recovered(t.disk, txs), lay, LastOf(o.nats, nid), nid);
    }
    SameEntryIf(Recovered(d, txs), Recovered(Committing(t.disk, txs, image), txs + [es]), lay, nid);
  }

  lemma NoEntryNoChange(D: Image, lay: Layout, last: Option<Entry>, nid: U32)
    requires NatOnDisk(D, lay) && InNat(lay, nid) && last.None?
    ensures NatLpaWith(D, lay, last, nid) == NatLpa(D, lay, nid)
    ensures OwnerAfter(last, NatOwner(D, lay, nid)) == NatOwner(D, lay, nid)
  {
  }

  lemma SameEntryIf(D: Image, D2: Image, lay: Layout, nid: U32)
    requires NatOnDisk(D, lay) && |D2| == |D|
    requires InNat(lay, nid) ==>
      NatOnDisk(D2, lay) && NatLpa(D2, lay, nid) == NatLpa(D, lay, nid) &&
        NatOwner(D2, lay, nid) == NatOwner(D, lay, nid)
    ensures SameEntry(D, D2, lay, nid)
  {
  }

  /** What a commit of a settled file amounts to on the device. */
  lemma CommitHappens(d: Image, txs: seq<seq<Entry>>, s: F.FileState, t: F.FileState, dirty: set<U32>,
                      nats: seq<Entry>,
                      o: Output, image: seq<Block>, handed: set<U32>, free: set<U32>, size: nat)
    requires Settled(d, txs, s, dirty, handed) && NeverHanded(GeometryOf(d[0]), |d|, handed, free)
    requires CommitOf(d, txs, s, t, dirty, nats, o, image, free, size)
    ensures |d| > 0 && |t.disk| == |d| && Replayable(d, txs) && Writing(d, t.disk, txs, s.ino)
    ensures CanCommit(t.disk, txs, image, EntriesOf(o)) && Replayable(t.disk, txs)
    ensures GeometryOf(t.disk[0]) == GeometryOf(d[0]) && LayoutOf(t.disk[0]) == LayoutOf(d[0]) == GeometryOf(d[0]).lay
    ensures TablesApart(LayoutOf(d[0])) && NatOnDisk(Recovered(t.disk, txs), LayoutOf(d[0]))
    ensures NatOnDisk(Recovered(d, txs), LayoutOf(d[0])) && AllOfKind(Super, o.supers) && AllOfKind(Nats, o.nats)
    ensures AllOfKind(Sits, o.sits) && SameLast(o.nats, nats) && OwnEntries(nats, t.nodes, t.ino, free)
    ensures ContentsWritten(s, t, dirty, nats, free, size)
  {
    NeverHandedIsFresh(d, txs, s, dirty, handed, free);
    assert Writing(d, t.disk, txs, s.ino) by { hide FreshBlock, Replayable, Recovered; }
    hide FreshBlock, Recovered, Committed, Within, NodeAccounted, F.LpaAt;
    WritingKeepsLog(d, t.disk, txs, s.ino);
    NatStaysOnDisk(t.disk, txs);
  }

  /** and so is every block that had been handed out. */
  lemma HandedBlockStays(d: Image, txs: seq<seq<Entry>>, s: F.FileState, t: F.FileState, dirty: set<U32>,
                         nats: seq<Entry>,
                         o: Output, image: seq<Block>, handed: set<U32>, free: set<U32>, size: nat, l: U32)
    requires Settled(d, txs, s, dirty, handed) && NeverHanded(GeometryOf(d[0]), |d|, handed, free)
    requires CommitOf(d, txs, s, t, dirty, nats, o, image, free, size) && l in handed
    ensures var d2, txs2 := Committing(t.disk, txs, image), txs + [EntriesOf(o)];
      l < |d| == |d2| && Replayable(d2, txs2) && Recovered(d2, txs2)[l] == Recovered(d, txs)[l]
  {
    hide *;
    DeviceAfterCommit(d, txs, s, t, dirty, nats, o, image, handed, free, size);
    CommitHappens(d, txs, s, t, dirty, nats, o, image, handed, free, size);
    HandedIsMain(d, txs, s, t, dirty, nats, handed, free, size, l);
    MainAfterCommit(t.disk, txs, image, EntriesOf(o), l);
    RecoveredMain(d, txs, l);
  }

  lemma HandedIsMain(d: Image, txs: seq<seq<Entry>>, s: F.FileState, t: F.FileState, dirty: set<U32>,
                     nats: seq<Entry>, handed: set<U32>, free: set<U32>, size: nat, l: U32)
    requires Settled(d, txs, s, dirty, handed) && NeverHanded(GeometryOf(d[0]), |d|, handed, free)
    requires ContentsWritten(s, t, dirty, nats, free, size) && l in handed
    ensures |t.disk| == |d| && l < |d| && MainBlock(GeometryOf(d[0]), l) && t.disk[l] == d[l]
  {
    hide F.LpaAt, Committed, Within, Replayable, Recovered;
  }

  /** So nothing of a file that is apart from the committed one is lost. */
  lemma OthersAreKept(d: Image, txs: seq<seq<Entry>>, s: F.FileState, t: F.FileState, dirty: set<U32>,
                      nats: seq<Entry>,
                      o: Output, image: seq<Block>, handed: set<U32>, free: set<U32>, size: nat, other: U32)
    requires Settled(d, txs, s, dirty, handed) && NeverHanded(GeometryOf(d[0]), |d|, handed, free)
    requires CommitOf(d, txs, s, t, dirty, nats, o, image, free, size)
    requires Within(Recovered(d, txs), LayoutOf(d[0]), other, handed)
    requires Apart(Recovered(d, txs), LayoutOf(d[0]), other, t.nodes.Keys)
    ensures var d2, txs2, lay := Committing(t.disk, txs, image), txs + [EntriesOf(o)], LayoutOf(d[0]);
      && Replayable(d2, txs2) && NatOnDisk(Recovered(d2, txs2), lay)
      && KeepsFile(Recovered(d, txs), Recovered(d2, txs2), lay, other)
  {
    var d2, txs2, lay := Committing(t.disk, txs, image), txs + [EntriesOf(o)], LayoutOf(d[0]);
    hide *;
    DeviceAfterCommit(d, txs, s, t, dirty, nats, o, image, handed, free, size);
    var D, D2 := Recovered(d, txs), Recovered(d2, txs2);
    forall l: nat | l < |D| && Occupies(D, lay, other, l) ensures D2[l] == D[l] {
      NotOccupied(D, lay, other, handed, l);
      HandedBlockStays(d, txs, s, t, dirty, nats, o, image, handed, free, size, l);
    }
    forall n | B.Reached(NodesOf(D, lay), other, n) ensures SameEntry(D, D2, lay, n) {
      NotApart(D, lay, other, t.nodes.Keys, n);
      ForeignEntryStays(d, txs, s, t, dirty, nats, o, image, handed, free, size, n);
    }
    KeepsIf(D, D2, lay, other);
  }

  lemma NotApart(D: Image, lay: Layout, ino: U32, nids: set<U32>, n: U32)
    requires NatOnDisk(D, lay) && Apart(D, lay, ino, nids) && B.Reached(NodesOf(D, lay), ino, n)
    ensures n !in nids
  {
  }

  lemma KeepsIf(d: Image, d': Image, lay: Layout, ino: U32)
    requires NatOnDisk(d, lay) && |d'| == |d| && forall l: nat :: l < |d| && Occupies(d, lay, ino, l) ==> d'[l] == d[l]
    requires forall n :: B.Reached(NodesOf(d, lay), ino, n) ==> SameEntry(d, d', lay, n)
    ensures KeepsFile(d, d', lay, ino)
  {
  }

  /** The commit of one file leaves every other file alone whose nodes and blocks are not its own: at any
      part of the content and node writes, at any loss of journal blocks, and when it is complete,
      recovery brings back the other file as it was; and it stays apart and within what was handed out. */
  lemma OthersAreUntouched(d: Image, txs: seq<seq<Entry>>, s: F.FileState, t: F.FileState, dirty: set<U32>,
                           nats: seq<Entry>, o: Output, image: seq<Block>, part: Image, left: seq<Block>,
                           handed: set<U32>, free: set<U32>, size: nat, other: U32)
    requires Settled(d, txs, s, dirty, handed) && NeverHanded(GeometryOf(d[0]), |d|, handed, free)
    requires CommitOf(d, txs, s, t, dirty, nats, o, image, free, size) && Survives(image, left)
    requires |part| == |d| && forall l: nat :: l < |d| && l !in free ==> part[l] == d[l]
    requires Within(Recovered(d, txs), LayoutOf(d[0]), other, handed)
    requires Apart(Recovered(d, txs), LayoutOf(d[0]), other, t.nodes.Keys)
    ensures Replayable(part, txs) && NatOnDisk(Recovered(part, txs), LayoutOf(d[0])) &&
      SameFile(Recovered(d, txs), Recovered(part, txs), LayoutOf(d[0]), other)
    ensures left != image ==>
      var d2 := Committing(t.disk, txs, left);
      && Replayable(d2, txs) && NatOnDisk(Recovered(d2, txs), LayoutOf(d[0]))
      && SameFile(Recovered(d, txs), Recovered(d2, txs), LayoutOf(d[0]), other)
    ensures left == image ==>
      var d2, txs2, lay := Committing(t.disk, txs, image), txs + [EntriesOf(o)], LayoutOf(d[0]);
      && Replayable(d2, txs2) && NatOnDisk(Recovered(d2, txs2), lay)
      && SameFile(Recovered(d, txs), Recovered(d2, txs2), lay, other)
      && Within(Recovered(d2, txs2), lay, other, handed + free)
      && Apart(Recovered(d2, txs2), lay, other, t.nodes.Keys)
  {
    var lay := LayoutOf(d[0]);
    hide *;
    CommitHappens(d, txs, s, t, dirty, nats, o, image, handed, free, size);
    OthersGuarded(d, txs, s, t, dirty, nats, free, size, handed, other);
    OnlyFreshWritten(d, txs, other, handed, free, part);
    OnlyFreshWritten(d, txs, other, handed, free, t.disk);
    CrashBeforeJournal(d, part, txs, other);
    if left != image {
      OthersAfterTorn(d, txs, t.disk, image, EntriesOf(o), left, other);
    } else {
      OthersAreKept(d, txs, s, t, dirty, nats, o, image, handed, free, size, other);
      var D, D2 := Recovered(d, txs), Recovered(Committing(t.disk, txs, image), txs + [EntriesOf(o)]);
      KeptFileIsSame(D, D2, lay, other);
      StillWithin(D, D2, lay, other, handed, handed + free);
      StillApart(D, D2, lay, other, t.nodes.Keys);
    }
  }

  lemma OthersGuarded(d: Image, txs: seq<seq<Entry>>, s: F.FileState, t: F.FileState, dirty: set<U32>,
                      nats: seq<Entry>, free: set<U32>, size: nat, handed: set<U32>, other: U32)
    requires Settled(d, txs, s, dirty, handed) && NeverHanded(GeometryOf(d[0]), |d|, handed, free)
    requires Within(Recovered(d, txs), LayoutOf(d[0]), other, handed)
    ensures Guarded(d, txs, other, handed, free)
    ensures ContentsWritten(s, t, dirty, nats, free, size) ==>
      |t.disk| == |d| && forall l: nat :: l < |d| && l !in free ==> t.disk[l] == d[l]
  {
    hide F.LpaAt, Committed, Within, Replayable, Recovered;
  }

  lemma OnlyFreshWritten(d: Image, txs: seq<seq<Entry>>, ino: U32, handed: set<U32>, free: set<U32>, part: Image)
    requires Guarded(d, txs, ino, handed, free)
    requires |part| == |d| && forall l: nat :: l < |d| && l !in free ==> part[l] == d[l]
    ensures Writing(d, part, txs, ino) && ClearOfRing(GeometryOf(d[0]), Recovered(d, txs), ino)
  {
    GuardedIsFresh(d, txs, ino, handed, free);
    hide FreshBlock, Recovered, Replayable, ClearOfRing;
  }

  lemma OthersAfterTorn(d: Image, txs: seq<seq<Entry>>, d1: Image, image: seq<Block>, es: seq<Entry>,
                        left: seq<Block>, other: U32)
    requires Replayable(d, txs) && Writing(d, d1, txs, other) && NatOnDisk(Recovered(d, txs), LayoutOf(d[0]))
    requires ClearOfRing(GeometryOf(d[0]), Recovered(d, txs), other)
    requires CanCommit(d1, txs, image, es) && Survives(image, left) && left != image
    ensures var d2 := Committing(d1, txs, left);
      && Replayable(d2, txs) && NatOnDisk(Recovered(d2, txs), LayoutOf(d[0]))
      && SameFile(Recovered(d, txs), Recovered(d2, txs), LayoutOf(d[0]), other)
  {
    WritingKeepsLog(d, d1, txs, other);
    CrashBeforeJournal(d, d1, txs, other);
    StillClearOfRing(d, d1, txs, other);
    CrashWithinJournal(d1, txs, image, es, left, other);
    NatStaysOnDisk(Committing(d1, txs, left), txs);
    CommittingMounts(d1, txs, left);
    SameFileTrans(Recovered(d, txs), Recovered(d1, txs), Recovered(Committing(d1, txs, left), txs), LayoutOf(d[0]),
      other);
  }

  lemma StillWithin(D: Image, D2: Image, lay: Layout, ino: U32, handed: set<U32>, more: set<U32>)
    requires NatOnDisk(D, lay) && KeepsFile(D, D2, lay, ino) && Within(D, lay, ino, handed) && handed <= more
    ensures Within(D2, lay, ino, more)
  {
    forall l: nat | Occupies(D2, lay, ino, l) ensures l in more { SameUse(D, D2, lay, ino, l); }
  }

  lemma SameReach(D: Image, D2: Image, lay: Layout, ino: U32, n: U32)
    requires NatOnDisk(D, lay) && KeepsFile(D, D2, lay, ino)
    ensures B.Reached(NodesOf(D2, lay), ino, n) <==> B.Reached(NodesOf(D, lay), ino, n)
  {
    forall h | B.Position(h) ensures B.Walk(NodesOf(D2, lay), ino, h) == B.Walk(NodesOf(D, lay), ino, h) {
      SameWalk(D, D2, lay, ino, h);
    }
  }

  lemma StillApart(D: Image, D2: Image, lay: Layout, ino: U32, nids: set<U32>)
    requires NatOnDisk(D, lay) && KeepsFile(D, D2, lay, ino) && Apart(D, lay, ino, nids)
    ensures Apart(D2, lay, ino, nids)
  {
    forall n | B.Reached(NodesOf(D2, lay), ino, n) ensures n !in nids { SameReach(D, D2, lay, ino, n); }
  }

  /** A file open beside the committed one stays settled, so its own commits remain crash-atomic; and the
      two files can change roles, the device having no nodes of the committed one but its own. */
  lemma OthersStaySettled(d: Image, txs: seq<seq<Entry>>, s: F.FileState, t: F.FileState, dirty: set<U32>,
                          nats: seq<Entry>, o: Output, image: seq<Block>,
                          handed: set<U32>, free: set<U32>, size: nat, u: F.FileState, dirtyU: set<U32>)
    requires Settled(d, txs, s, dirty, handed) && NeverHanded(GeometryOf(d[0]), |d|, handed, free)
    requires CommitOf(d, txs, s, t, dirty, nats, o, image, free, size)
    requires Settled(d, txs, u, dirtyU, handed) && Apart(Recovered(d, txs), LayoutOf(d[0]), u.ino, t.nodes.Keys)
    ensures Replayable(t.disk, txs) && |image| <= JournalSizeOf(t.disk[0])
    ensures var d2, txs2, lay := Committing(t.disk, txs, image), txs + [EntriesOf(o)], LayoutOf(d[0]);
      && Settled(d2, txs2, u.(disk := d2), dirtyU, handed + free)
      && NatOnDisk(Recovered(d2, txs2), lay) && Apart(Recovered(d2, txs2), lay, u.ino, t.nodes.Keys)
      && forall nids :: nids !! t.nodes.Keys ==> Apart(Recovered(d2, txs2), lay, s.ino, nids)
  {
    var d2, txs2, lay := Committing(t.disk, txs, image), txs + [EntriesOf(o)], LayoutOf(d[0]);
    hide *;
    OthersParts(d, txs, u, dirtyU, handed, free);
    DeviceAfterCommit(d, txs, s, t, dirty, nats, o, image, handed, free, size);
    CommitHappens(d, txs, s, t, dirty, nats, o, image, handed, free, size);
    OthersAreKept(d, txs, s, t, dirty, nats, o, image, handed, free, size, u.ino);
    CanCommitFits(t.disk, txs, image, EntriesOf(o));
    StillWithin(Recovered(d, txs), Recovered(d2, txs2), lay, u.ino, handed, handed + free);
    StillCommitted(Recovered(d, txs), Recovered(d2, txs2), GeometryOf(d[0]), u.ino, u.nodes, dirtyU);
    SettledWith(d2, txs2, u, dirtyU, handed + free);
    StillApart(Recovered(d, txs), Recovered(d2, txs2), lay, u.ino, t.nodes.Keys);
    OwnNodesOnly(d, txs, s, t, dirty, nats, o, image, handed, free, size);
  }

  /** On the committed device a node is reached from the inode only if it is a node of the file. */
  lemma OwnNodesOnly(d: Image, txs: seq<seq<Entry>>, s: F.FileState, t: F.FileState, dirty: set<U32>,
                     nats: seq<Entry>, o: Output, image: seq<Block>, handed: set<U32>, free: set<U32>, size: nat)
    requires Settled(d, txs, s, dirty, handed) && NeverHanded(GeometryOf(d[0]), |d|, handed, free)
    requires CommitOf(d, txs, s, t, dirty, nats, o, image, free, size)
    ensures var d2, txs2, lay := Committing(t.disk, txs, image), txs + [EntriesOf(o)], LayoutOf(d[0]);
      && Replayable(d2, txs2) && NatOnDisk(Recovered(d2, txs2), lay)
      && forall nids :: nids !! t.nodes.Keys ==> Apart(Recovered(d2, txs2), lay, s.ino, nids)
  {
    var d2, txs2, lay := Committing(t.disk, txs, image), txs + [EntriesOf(o)], LayoutOf(d[0]);
    assert t.ino == s.ino && B.Tree(t.nodes, t.ino);
    hide *;
    DeviceAfterCommit(d, txs, s, t, dirty, nats, o, image, handed, free, size);
    var D2 := Recovered(d2, txs2);
    forall nid | nid in t.nodes ensures nid in NodesOf(D2, lay) && NodesOf(D2, lay)[nid] == t.nodes[nid] {
      NodeAfterCommit(d, txs, s, t, dirty, nats, o, image, handed, free, size, nid);
    }
    forall nids | nids !! t.nodes.Keys ensures Apart(D2, lay, t.ino, nids) { ApartFromTree(D2, lay, t, nids); }
  }

  lemma ApartFromTree(D: Image, lay: Layout, t: F.FileState, nids: set<U32>)
    requires NatOnDisk(D, lay) && B.Tree(t.nodes, t.ino) && nids !! t.nodes.Keys
    requires forall nid :: nid in t.nodes ==> nid in NodesOf(D, lay) && NodesOf(D, lay)[nid] == t.nodes[nid]
    ensures Apart(D, lay, t.ino, nids)
  {
    hide NodesOf;
    forall n | B.Reached(NodesOf(D, lay), t.ino, n) ensures n !in nids {
      var h :| B.Position(h) && B.Walk(NodesOf(D, lay), t.ino, h) == Some(n);
      WalkWithin(t.nodes, NodesOf(D, lay), t.ino, h);
      B.NodeExists(t.nodes, t.ino, h);
    }
  }

  lemma OthersParts(d: Image, txs: seq<seq<Entry>>, u: F.FileState, dirty: set<U32>, handed: set<U32>, free: set<U32>)
    requires Settled(d, txs, u, dirty, handed) && NeverHanded(GeometryOf(d[0]), |d|, handed, free)
    ensures NatOnDisk(Recovered(d, txs), LayoutOf(d[0])) && TablesApart(LayoutOf(d[0])) && u.disk == d
    ensures MainOnly(GeometryOf(d[0]), |d|, handed + free) && Within(Recovered(d, txs), LayoutOf(d[0]), u.ino, handed)
    ensures Committed(Recovered(d, txs), GeometryOf(d[0]), u.ino, u.nodes, dirty)
    ensures forall k: nat :: F.LpaAt(u, k) != 0 ==> F.LpaAt(u, k) in handed + free
  {
    hide F.LpaAt, Committed, Within, Replayable, Recovered;
  }

  lemma CanCommitFits(d: Image, txs: seq<seq<Entry>>, image: seq<Block>, es: seq<Entry>)
    requires CanCommit(d, txs, image, es)
    ensures |image| <= JournalSizeOf(d[0])
  {
  }

  lemma StillCommitted(D: Image, D2: Image, g: Geometry, ino: U32, nodes: map<U32, B.Node>, dirty: set<U32>)
    requires NatOnDisk(D, g.lay) && KeepsFile(D, D2, g.lay, ino) && Committed(D, g, ino, nodes, dirty)
    ensures NatOnDisk(D2, g.lay) && Committed(D2, g, ino, nodes, dirty)
  {
    forall nid | nid in nodes && nid !in dirty
      ensures && HasNode(D2, g.lay, nid) && MainBlock(g, NatLpa(D2, g.lay, nid))
        && WordsOf(D2[NatLpa(D2, g.lay, nid)]) == nodes[nid] && B.Reached(NodesOf(D2, g.lay), ino, nid)
    {
      SameReach(D, D2, g.lay, ino, nid);
      var h :| B.Position(h) && B.Walk(NodesOf(D, g.lay), ino, h) == Some(nid);
      SameNodeAt(D, D2, g.lay, ino, h, nid);
      assert SameEntry(D, D2, g.lay, nid);
    }
  }

  // ---- Between two commits ----

  /** A file whose nodes changed without any new node or LPA is still settled. */
  lemma StillSettled(d: Image, txs: seq<seq<Entry>>, s: F.FileState, t: F.FileState, a: B.NodeBook, b: B.NodeBook,
                     handed: set<U32>)
    requires Settled(d, txs, s, a.dirty, handed) && a.nodes == s.nodes && b.nodes == t.nodes
    requires B.Touched(a, b, 0) && B.Stocked(b) && F.OnlyUnmapped(s, t)
    ensures Settled(d, txs, t, b.dirty, handed)
  {
    SameKeys(a, b);
    hide F.LpaAt, Replayable, Recovered, Within, HasNode, NatLpa;
    forall k: nat | F.LpaAt(t, k) != 0 ensures F.LpaAt(t, k) in handed { assert F.LpaAt(t, k) == F.LpaAt(s, k); }
  }

  lemma SameKeys(a: B.NodeBook, b: B.NodeBook)
    requires B.Touched(a, b, 0)
    ensures b.nodes.Keys == a.nodes.Keys
  {
    assert a.supply[..0] == [];
  }

  /** A truncation between two commits, whether it succeeds or not, leaves the file settled. */
  method SettledAfterTruncate(f: F.FileObject, target: nat, ghost txs: seq<seq<Entry>>, ghost handed: set<U32>)
    returns (r: F.Result)
    requires f.Valid() && Settled(f.dev.disk, txs, f.State(), f.nodes.dirty, handed)
    modifies f`size, f`truncated, f.nodes, f.cache, f.cache.manager, f.cache.manager.replacer
    ensures Settled(f.dev.disk, txs, f.State(), f.nodes.dirty, handed) && (r.Done? ==> f.Valid() && f.size == target)
  {
    ghost var s, a := f.State(), f.nodes.Book();
    hide Settled, B.Touched, F.OnlyUnmapped, F.CutShort, F.ByteOf;
    ghost var stop;
    r, stop := f.Truncate(target);
    StillSettled(f.dev.disk, txs, s, f.State(), a, f.nodes.Book(), handed);
  }

  /** So does a write, */
  method SettledAfterWrite(f: F.FileObject, offset: int, data: seq<Byte>, ghost txs: seq<seq<Entry>>,
                           ghost handed: set<U32>)
    returns (r: F.Result, written: nat)
    requires f.Valid() && Settled(f.dev.disk, txs, f.State(), f.nodes.dirty, handed)
    modifies f`size, f.cache, f.cache.manager, f.cache.manager.replacer
    ensures f.Valid() && Settled(f.dev.disk, txs, f.State(), f.nodes.dirty, handed)
  {
    ghost var s := f.State();
    hide Settled, F.Writes;
    r, written := f.Write(offset, data);
    CacheIsNoMatter(f.dev.disk, txs, s, f.State(), f.nodes.dirty, handed);
  }

  /** and a read. */
  method SettledAfterRead(f: F.FileObject, offset: int, count: nat, ghost txs: seq<seq<Entry>>, ghost handed: set<U32>)
    returns (r: F.Result, bytes: seq<Byte>)
    requires f.Valid() && Settled(f.dev.disk, txs, f.State(), f.nodes.dirty, handed)
    modifies f.cache, f.cache.manager, f.cache.manager.replacer
    ensures f.Valid() && Settled(f.dev.disk, txs, f.State(), f.nodes.dirty, handed)
  {
    ghost var s := f.State();
    hide Settled, F.Reads, F.SameBlocks;
    r, bytes := f.Read(offset, count);
    CacheIsNoMatter(f.dev.disk, txs, s, f.State(), f.nodes.dirty, handed);
  }

  lemma CacheIsNoMatter(d: Image, txs: seq<seq<Entry>>, s: F.FileState, t: F.FileState, dirty: set<U32>,
                        handed: set<U32>)
    requires Settled(d, txs, s, dirty, handed) && t == s.(index := t.index)
    ensures Settled(d, txs, t, dirty, handed)
  {
    hide Replayable, Recovered, Committed, Within, MainOnly;
    forall k: nat ensures F.LpaAt(t, k) == F.LpaAt(s, k) {}
  }
}
