/** Commit of one file: contents and nodes go to unused blocks, and the file switches over only when
    recovery finds the journal transaction with the new NAT entries. */
module FileCommit {
  import opened Wrappers
  import opened Bytes
  import opened JournalFormat
  import opened JournalScan
  import opened JournalDedup
  import opened RedoLog
  import opened Recovery
  import opened LogRecovery
  import opened JournalCommit
  import opened DiskFiles
  import B = BlockIndex
  import F = FileObjects

  // ---- Which blocks recovery writes ----

  ghost predicate InRing(g: Geometry, l: nat) {
    g.start <= l < g.start + g.size
  }

  ghost predicate SitBlock(lay: Layout, l: nat) {
    lay.sitStart <= l < lay.sitStart + lay.sitBlocks
  }

  /** Block l is none of the blocks that recovery or the journal writes. */
  ghost predicate MainBlock(g: Geometry, l: nat) {
    l != 0 && !InRing(g, l) && !NatBlock(g.lay, l) && !SitBlock(g.lay, l)
  }

  /** The NAT and SIT tables do not overlap. */
  ghost predicate TablesApart(lay: Layout) {
    lay.natStart + lay.natBlocks <= lay.sitStart || lay.sitStart + lay.sitBlocks <= lay.natStart
  }

  lemma {:induction false} UpdatesStayInTables(g: Geometry, n: nat, es: seq<Entry>, l: nat)
    requires GeometryOk(g, n) && AllInRange(g.lay, es) && MainBlock(g, l)
    ensures forall u :: u in UpdatesOf(g.lay, es) ==> u.slot != l + 1
  {
    if es != [] {
      EntryIsSafe(g, n, es[0]);
      UpdatesStayInTables(g, n, es[1..], l);
      var u := UpdateOf(g.lay, es[0]).value;
      assert u.slot == 0 || NatBlock(g.lay, u.slot - 1) || SitBlock(g.lay, u.slot - 1);
    }
  }

  /** Recovery leaves main blocks alone. */
  lemma RecoveredMain(d: Image, txs: seq<seq<Entry>>, l: nat)
    requires Replayable(d, txs) && MainBlock(GeometryOf(d[0]), l) && l < |d|
    ensures Recovered(d, txs)[l] == d[l]
  {
    LogInRange(LayoutOf(d[0]), RingOf(d), ScanPosOf(d[0]), txs);
    UpdatesStayInTables(GeometryOf(d[0]), |d|, Concat(txs), l);
    hide Log, LogBlocks;
    RedoElsewhere(Memory(d[0], d), LogUpdates(d, txs), l + 1);
  }

  // ---- Before the journal is written ----

  /** What the commit may overwrite on d before it is journalled: main blocks that the file does not
      depend on once the log is recovered. */
  ghost predicate FreshBlock(d: Image, txs: seq<seq<Entry>>, ino: U32, l: nat)
    requires Replayable(d, txs)
  {
    MainBlock(GeometryOf(d[0]), l) && Unused(Recovered(d, txs), LayoutOf(d[0]), ino, l)
  }

  /** The device while the commit writes contents and nodes: any of the fresh blocks may have changed. */
  ghost predicate Writing(d: Image, d1: Image, txs: seq<seq<Entry>>, ino: U32)
    requires Replayable(d, txs)
  {
    |d1| == |d| && forall l: nat :: l < |d| ==> d1[l] == d[l] || FreshBlock(d, txs, ino, l)
  }

  lemma NatStaysOnDisk(d: Image, txs: seq<seq<Entry>>)
    requires Replayable(d, txs)
    ensures NatOnDisk(Recovered(d, txs), LayoutOf(d[0]))
  {
  }

  lemma WritingKeepsLog(d: Image, d1: Image, txs: seq<seq<Entry>>, ino: U32)
    requires Replayable(d, txs) && Writing(d, d1, txs, ino)
    ensures d1[0] == d[0] && Mountable(d1) && RingOf(d1) == RingOf(d) && Replayable(d1, txs)
    ensures EndPos(d1, txs) == EndPos(d, txs) && LogUpdates(d1, txs) == LogUpdates(d, txs)
  {
    var g := GeometryOf(d[0]);
    assert d1[0] == d[0] by { assert !FreshBlock(d, txs, ino, 0); }
    forall l: nat | InRing(g, l) ensures d1[l] == d[l] { assert !FreshBlock(d, txs, ino, l); }
    assert RingOf(d1) == RingOf(d);
  }

  /** Recovery makes the same of a block that is the same, given the same log. */
  lemma RecoveredSameAt(d: Image, d1: Image, txs: seq<seq<Entry>>, l: nat)
    requires Replayable(d, txs) && Replayable(d1, txs) && |d1| == |d| && l < |d| && d1[l] == d[l] && d1[0] == d[0]
    requires EndPos(d1, txs) == EndPos(d, txs) && LogUpdates(d1, txs) == LogUpdates(d, txs)
    ensures Recovered(d1, txs)[l] == Recovered(d, txs)[l]
  {
    RedoAtSlot(Memory(d[0], d), Memory(d1[0], d1), LogUpdates(d, txs), l + 1);
    RedoAtSlot(Memory(d[0], d), Memory(d1[0], d1), LogUpdates(d, txs), 0);
    hide Replayable, LogUpdates, EndPos, Redo, WithOffsets;
  }

  /** At any crash point before the journal is written, recovery brings back the file as it was. */
  lemma CrashBeforeJournal(d: Image, d1: Image, txs: seq<seq<Entry>>, ino: U32)
    requires Replayable(d, txs) && Writing(d, d1, txs, ino)
    ensures Replayable(d1, txs) && NatOnDisk(Recovered(d, txs), LayoutOf(d[0])) &&
      NatOnDisk(Recovered(d1, txs), LayoutOf(d[0]))
    ensures SameFile(Recovered(d, txs), Recovered(d1, txs), LayoutOf(d[0]), ino)
  {
    WritingKeepsLog(d, d1, txs, ino);
    NatStaysOnDisk(d, txs);
    NatStaysOnDisk(d1, txs);
    var D, D1, lay := Recovered(d, txs), Recovered(d1, txs), LayoutOf(d[0]);
    assert |D1| == |D| == |d|;
    hide *;
    forall l: nat | l < |d| ensures D1[l] == D[l] || Unused(D, lay, ino, l) {
      FreshOrSame(d, d1, txs, ino, l);
    }
    DifferUnusedIf(D, D1, lay, ino);
    UnusedBlocksDoNotMatter(D, D1, lay, ino);
  }

  lemma DifferUnusedIf(d: Image, d': Image, lay: Layout, ino: U32)
    requires NatOnDisk(d, lay) && |d'| == |d| && forall l: nat :: l < |d| ==> d'[l] == d[l] || Unused(d, lay, ino, l)
    ensures DifferUnused(d, d', lay, ino)
  {
  }

  lemma FreshOrSame(d: Image, d1: Image, txs: seq<seq<Entry>>, ino: U32, l: nat)
    requires Replayable(d, txs) && Writing(d, d1, txs, ino) && l < |d| && NatOnDisk(Recovered(d, txs), LayoutOf(d[0]))
    ensures Replayable(d1, txs)
    ensures Recovered(d1, txs)[l] == Recovered(d, txs)[l] || Unused(Recovered(d, txs), LayoutOf(d[0]), ino, l)
  {
    WritingKeepsLog(d, d1, txs, ino);
    if d1[l] == d[l] {
      RecoveredSameAt(d, d1, txs, l);
    } else {
      assert FreshBlock(d, txs, ino, l);
      hide Replayable, Recovered, Unused;
    }
  }

  // ---- While the journal is written ----

  /** No part of the file stands in the journal ring. */
  ghost predicate ClearOfRing(g: Geometry, D: Image, ino: U32)
    requires NatOnDisk(D, g.lay)
  {
    forall l: nat :: InRing(g, l) ==> Unused(D, g.lay, ino, l)
  }

  lemma SameFileTrans(a: Image, b: Image, c: Image, lay: Layout, ino: U32)
    requires NatOnDisk(a, lay) && NatOnDisk(b, lay) && NatOnDisk(c, lay)
    requires SameFile(a, b, lay, ino) && SameFile(b, c, lay, ino)
    ensures SameFile(a, c, lay, ino)
  {
    F.SameBlocksChain(OnDisk(a, lay, ino), OnDisk(b, lay, ino), OnDisk(c, lay, ino));
  }

  /** A crash that loses any block of the journal image: recovery brings back the file as it was. */
  lemma CrashWithinJournal(d1: Image, txs: seq<seq<Entry>>, image: seq<Block>, es: seq<Entry>, left: seq<Block>,
                           ino: U32)
    requires CanCommit(d1, txs, image, es) && Survives(image, left) && left != image
    requires NatOnDisk(Recovered(d1, txs), LayoutOf(d1[0])) && ClearOfRing(GeometryOf(d1[0]), Recovered(d1, txs), ino)
    ensures Replayable(Committing(d1, txs, left), txs)
    ensures SameFile(Recovered(d1, txs), Recovered(Committing(d1, txs, left), txs), LayoutOf(d1[0]), ino)
  {
    var g, D, d2 := GeometryOf(d1[0]), Recovered(d1, txs), Committing(d1, txs, left);
    JournalRoundTrip(d1, txs, image, es, left);
    forall l: nat | l < |D| ensures Recovered(d2, txs)[l] == D[l] || Unused(D, g.lay, ino, l) {
      if !InRing(g, l) { TornCommitLeavesNoTrace(d1, txs, image, es, left, l); }
    }
    hide Replayable;
    UnusedBlocksDoNotMatter(D, Recovered(d2, txs), g.lay, ino);
  }

  // ---- When the journal is complete ----

  lemma {:induction false} CoverAppend(us: seq<Update>, vs: seq<Update>, l: nat, i: nat)
    ensures LastCover(us + vs, l, i) == if LastCover(vs, l, i).Some? then LastCover(vs, l, i) else LastCover(us, l, i)
  {
    if us == [] {
      assert us + vs == vs;
    } else {
      assert (us + vs)[1..] == us[1..] + vs;
      CoverAppend(us[1..], vs, l, i);
    }
  }

  /** Where the NAT entry of nid stands. */
  ghost function NatSlot(lay: Layout, nid: U32): nat {
    1 + lay.natStart + Locate(NAT_ENTRIES_PER_BLOCK, nid).block
  }

  ghost function NatOffset(nid: U32): nat {
    NAT_ENTRY_BYTES * Locate(NAT_ENTRIES_PER_BLOCK, nid).index
  }

  /** Only NAT entries write the NAT table. */
  lemma OnlyNatsCover(g: Geometry, n: nat, es: seq<Entry>, k: Kind, nid: U32, i: nat)
    requires GeometryOk(g, n) && TablesApart(g.lay) && InNat(g.lay, nid) && k != Nats && AllOfKind(k, es) &&
      AllInRange(g.lay, es)
    ensures LastCover(UpdatesOf(g.lay, es), NatSlot(g.lay, nid), i) == None
  {
    forall e | e in es ensures UpdateOf(g.lay, e).Some? && !Covers(UpdateOf(g.lay, e).value, NatSlot(g.lay, nid), i) {
      assert KindOf(e) == k && EntryInRange(g.lay, e);
    }
    NobodyCovers(g.lay, es, NatSlot(g.lay, nid), i);
  }

  /** What the NAT entries of a transaction write at one entry's place: its last value, or nothing. */
  lemma NatsCover(g: Geometry, n: nat, nats: seq<Entry>, nid: U32, i: nat)
    requires GeometryOk(g, n) && InNat(g.lay, nid) && AllOfKind(Nats, nats) && AllInRange(g.lay, nats)
    requires NatOffset(nid) <= i < NatOffset(nid) + NAT_ENTRY_BYTES
    ensures LastCover(UpdatesOf(g.lay, nats), NatSlot(g.lay, nid), i) ==
      match LastOf(nats, nid)
      case None => None
      case Some(e) => if e.NatEntry? then Some((Le32(e.ino) + Le32(e.addr))[i - NatOffset(nid)]) else None
  {
    var probe := NatEntry(nid, 0, 0);
    assert AllOfKind(Nats, nats + [probe]) && AllInRange(g.lay, nats + [probe]);
    TableEntriesSpread(g, n, Nats, nats + [probe]);
    forall e | e in nats ensures Separate(g.lay, e, probe) { assert e in nats + [probe] && probe in nats + [probe]; }
    assert UpdateOf(g.lay, probe) == Some(Update(NatSlot(g.lay, nid), NatOffset(nid), Le32(0) + Le32(0)));
    LastDecides(g.lay, nats, probe, NatSlot(g.lay, nid), i);
    if LastOf(nats, nid).Some? {
      var e := LastOf(nats, nid).value;
      assert e in Of(nats, nid) && KindOf(e) == Nats;
      assert UpdateOf(g.lay, e) == Some(Update(NatSlot(g.lay, nid), NatOffset(nid), Le32(e.ino) + Le32(e.addr)));
    }
  }

  /** After a transaction the NAT table gives the last address journalled for a nid, if there is one. */
  lemma NatAfter(g: Geometry, m: Image, o: Output, nid: U32)
    requires |m| > 0 && GeometryOk(g, |m| - 1) && TablesApart(g.lay) && InNat(g.lay, nid) &&
      AllInRange(g.lay, EntriesOf(o))
    requires AllOfKind(Super, o.supers) && AllOfKind(Nats, o.nats) && AllOfKind(Sits, o.sits)
    ensures AllInImage(|m|, UpdatesOf(g.lay, EntriesOf(o))) && NatSlot(g.lay, nid) < |m| &&
      NatOffset(nid) + 8 <= BLOCK_SIZE
    ensures Get32(Redo(m, UpdatesOf(g.lay, EntriesOf(o)))[NatSlot(g.lay, nid)], NatOffset(nid) + 4) ==
              AddressAfter(LastOf(o.nats, nid), Get32(m[NatSlot(g.lay, nid)], NatOffset(nid) + 4))
    ensures Get32(Redo(m, UpdatesOf(g.lay, EntriesOf(o)))[NatSlot(g.lay, nid)], NatOffset(nid)) ==
              OwnerAfter(LastOf(o.nats, nid), Get32(m[NatSlot(g.lay, nid)], NatOffset(nid)))
  {
    hide *;
    var slot, off, us := NatSlot(g.lay, nid), NatOffset(nid), UpdatesOf(g.lay, EntriesOf(o));
    UpdatesAreSafe(g, |m| - 1, EntriesOf(o));
    NatPlace(g, |m| - 1, nid);
    var b, last := Redo(m, us)[slot], LastOf(o.nats, nid);
    forall i | off <= i < off + 8 ensures b[i] == EntryByteAfter(last, m[slot][i], i - off) {
      NatByte(g, m, o, nid, i);
    }
    FirstWord(b, m[slot], off, last);
    SecondWord(b, m[slot], off, last);
  }

  /** The address of a NAT entry once the last entry journalled for it, if any, has been applied. */
  ghost function AddressAfter(last: Option<Entry>, addr: U32): U32 {
    if last.Some? && last.value.NatEntry? then last.value.addr else addr
  }

  /** ... and its owner. */
  ghost function OwnerAfter(last: Option<Entry>, owner: U32): U32 {
    if last.Some? && last.value.NatEntry? then last.value.ino else owner
  }

  ghost function EntryByteAfter(last: Option<Entry>, old': Byte, j: nat): Byte
    requires j < 8
  {
    if last.Some? && last.value.NatEntry? then (Le32(last.value.ino) + Le32(last.value.addr))[j] else old'
  }

  lemma NatPlace(g: Geometry, n: nat, nid: U32)
    requires GeometryOk(g, n) && InNat(g.lay, nid)
    ensures NatSlot(g.lay, nid) < n + 1 && NatOffset(nid) + 8 <= BLOCK_SIZE && NAT_ENTRY_BYTES == 8
  {
  }

  lemma FirstWord(b: Block, b': Block, off: nat, last: Option<Entry>)
    requires off + 8 <= BLOCK_SIZE && forall i :: off <= i < off + 8 ==> b[i] == EntryByteAfter(last, b'[i], i - off)
    ensures Get32(b, off) == OwnerAfter(last, Get32(b', off))
  {
    if last.Some? && last.value.NatEntry? {
      var owner := Le32(last.value.ino);
      assert b[off..off + 4] == owner == owner[0..4];
      SameBytesSameValue(b, off, owner, 0, 4);
    } else {
      assert b[off..off + 4] == b'[off..off + 4];
      SameBytesSameValue(b, off, b', off, 4);
    }
  }

  lemma SecondWord(b: Block, b': Block, off: nat, last: Option<Entry>)
    requires off + 8 <= BLOCK_SIZE && forall i :: off <= i < off + 8 ==> b[i] == EntryByteAfter(last, b'[i], i - off)
    ensures Get32(b, off + 4) == AddressAfter(last, Get32(b', off + 4))
  {
    if last.Some? && last.value.NatEntry? {
      var addr := Le32(last.value.addr);
      assert b[off + 4..off + 8] == addr == addr[0..4];
      SameBytesSameValue(b, off + 4, addr, 0, 4);
    } else {
      assert b[off + 4..off + 8] == b'[off + 4..off + 8];
      SameBytesSameValue(b, off + 4, b', off + 4, 4);
    }
  }

  lemma NatByte(g: Geometry, m: Image, o: Output, nid: U32, i: nat)
    requires |m| > 0 && GeometryOk(g, |m| - 1) && TablesApart(g.lay) && InNat(g.lay, nid) &&
      AllInRange(g.lay, EntriesOf(o))
    requires AllOfKind(Super, o.supers) && AllOfKind(Nats, o.nats) && AllOfKind(Sits, o.sits)
    requires NatOffset(nid) <= i < NatOffset(nid) + NAT_ENTRY_BYTES && i < BLOCK_SIZE && NatSlot(g.lay, nid) < |m|
    requires AllInImage(|m|, UpdatesOf(g.lay, EntriesOf(o)))
    ensures Redo(m, UpdatesOf(g.lay, EntriesOf(o)))[NatSlot(g.lay, nid)][i] ==
              EntryByteAfter(LastOf(o.nats, nid), m[NatSlot(g.lay, nid)][i], i - NatOffset(nid))
  {
    var slot, n := NatSlot(g.lay, nid), |m| - 1;
    var a, b, c := UpdatesOf(g.lay, o.supers), UpdatesOf(g.lay, o.nats), UpdatesOf(g.lay, o.sits);
    assert AllInRange(g.lay, o.supers) && AllInRange(g.lay, o.nats) && AllInRange(g.lay, o.sits);
    OnlyNatsCover(g, n, o.supers, Super, nid, i);
    OnlyNatsCover(g, n, o.sits, Sits, nid, i);
    NatsCover(g, n, o.nats, nid, i);
    UpdatesAppend(g.lay, o.supers, o.nats);
    UpdatesAppend(g.lay, o.supers + o.nats, o.sits);
    CoverAppend(a, b, slot, i);
    CoverAppend(a + b, c, slot, i);
    RedoAt(m, UpdatesOf(g.lay, EntriesOf(o)), slot, i);
  }

  /** The nodes n are where the NAT table and the transaction's NAT entries say: a node with an entry
      stands at its new address, any other is found through the table as recovered so far. */
  ghost predicate NodesPlaced(d1: Image, D: Image, g: Geometry, nats: seq<Entry>, n: map<U32, B.Node>)
    requires NatOnDisk(D, g.lay) && |D| == |d1|
  {
    forall nid :: nid in n ==> InNat(g.lay, nid) && NodePlaced(d1, D, g, LastOf(nats, nid), nid, n[nid])
  }

  ghost predicate NodePlaced(d1: Image, D: Image, g: Geometry, last: Option<Entry>, nid: U32, w: B.Node)
    requires NatOnDisk(D, g.lay) && |D| == |d1| && InNat(g.lay, nid)
  {
    var addr := NatLpaWith(D, g.lay, last, nid);
    addr < |d1| && MainBlock(g, addr) && WordsOf(d1[addr]) == w && OwnerAfter(last, NatOwner(D, g.lay, nid)) != 0
  }

  /** The address that a nid has once its last NAT entry has been applied. */
  ghost function NatLpaWith(D: Image, lay: Layout, last: Option<Entry>, nid: U32): U32
    requires NatOnDisk(D, lay) && InNat(lay, nid)
  {
    AddressAfter(last, NatLpa(D, lay, nid))
  }

  /** The data of the file stands in main blocks. */
  ghost predicate DataPlaced(s: F.FileState, g: Geometry) {
    forall k: nat | F.LpaAt(s, k) != 0 :: F.LpaAt(s, k) < |s.disk| && MainBlock(g, F.LpaAt(s, k))
  }

  /** What recovery of a complete commit makes of a NAT block. */
  lemma CommittedNatBlock(d1: Image, txs: seq<seq<Entry>>, image: seq<Block>, es: seq<Entry>, l: nat)
    requires CanCommit(d1, txs, image, es) && NatBlock(LayoutOf(d1[0]), l)
    ensures var d2, lay, m := Committing(d1, txs, image), LayoutOf(d1[0]), Redo(Memory(d1[0], d1), LogUpdates(d1, txs));
      && Replayable(d2, txs + [es]) && NatOnDisk(Recovered(d2, txs + [es]), lay)
      && |m| > 0 && GeometryOk(GeometryOf(d1[0]), |m| - 1) && l + 1 < |m|
      && AllInImage(|m|, UpdatesOf(lay, es))
      && Recovered(d2, txs + [es])[l] == Redo(m, UpdatesOf(lay, es))[l + 1] && Recovered(d1, txs)[l] == m[l + 1]
  {
    CommitIsRecovered(d1, txs, image, es, l);
    NatStaysOnDisk(d1, txs);
    JournalRoundTrip(d1, txs, image, es, image);
  }

  /** After recovery of a complete commit the NAT table leads to every node. */
  lemma CommittedNat(d1: Image, txs: seq<seq<Entry>>, image: seq<Block>, o: Output, nid: U32)
    requires CanCommit(d1, txs, image, EntriesOf(o)) && TablesApart(LayoutOf(d1[0])) && InNat(LayoutOf(d1[0]), nid)
    requires AllOfKind(Super, o.supers) && AllOfKind(Nats, o.nats) && AllOfKind(Sits, o.sits)
    requires NatOnDisk(Recovered(d1, txs), LayoutOf(d1[0]))
    ensures var d2, es, lay := Committing(d1, txs, image), EntriesOf(o), LayoutOf(d1[0]);
      && Replayable(d2, txs + [es]) && NatOnDisk(Recovered(d2, txs + [es]), lay)
      && NatLpa(Recovered(d2, txs + [es]), lay, nid) == NatLpaWith(Recovered(d1, txs), lay, LastOf(o.nats, nid), nid)
      && NatOwner(Recovered(d2, txs + [es]), lay, nid) ==
        OwnerAfter(LastOf(o.nats, nid), NatOwner(Recovered(d1, txs), lay, nid))
  {
    var g, l, es := GeometryOf(d1[0]), NatSlot(LayoutOf(d1[0]), nid) - 1, EntriesOf(o);
    CommittedNatBlock(d1, txs, image, es, l);
    var D, D2 := Recovered(d1, txs), Recovered(Committing(d1, txs, image), txs + [es]);
    var m, last := Redo(Memory(d1[0], d1), LogUpdates(d1, txs)), LastOf(o.nats, nid);
    assert AllInRange(g.lay, es);
    NatLpaIs(D, g.lay, nid);
    NatLpaIs(D2, g.lay, nid);
    assert NatLpaWith(D, g.lay, last, nid) == AddressAfter(last, NatLpa(D, g.lay, nid));
    hide *;
    NatAfter(g, m, o, nid);
  }

  lemma NatLpaIs(D: Image, lay: Layout, nid: U32)
    requires NatOnDisk(D, lay) && InNat(lay, nid)
    ensures 0 < NatSlot(lay, nid) <= |D| && NatOffset(nid) + 8 <= BLOCK_SIZE
    ensures NatLpa(D, lay, nid) == Get32(D[NatSlot(lay, nid) - 1], NatOffset(nid) + 4)
    ensures NatOwner(D, lay, nid) == Get32(D[NatSlot(lay, nid) - 1], NatOffset(nid))
  {
  }

  lemma MainAfterCommit(d1: Image, txs: seq<seq<Entry>>, image: seq<Block>, es: seq<Entry>, l: nat)
    requires CanCommit(d1, txs, image, es) && MainBlock(GeometryOf(d1[0]), l) && l < |d1|
    ensures var d2 := Committing(d1, txs, image);
      Replayable(d2, txs + [es]) && Recovered(d2, txs + [es])[l] == d1[l]
  {
    var d2 := Committing(d1, txs, image);
    JournalRoundTrip(d1, txs, image, es, image);
    CommittingMounts(d1, txs, image);
    RecoveredMain(d2, txs + [es], l);
  }

  /** After recovery of a complete commit every node of the file is found through the NAT table. */
  lemma CommittedNode(d1: Image, txs: seq<seq<Entry>>, image: seq<Block>, o: Output, nid: U32, w: B.Node)
    requires CanCommit(d1, txs, image, EntriesOf(o)) && TablesApart(LayoutOf(d1[0])) && InNat(LayoutOf(d1[0]), nid)
    requires AllOfKind(Super, o.supers) && AllOfKind(Nats, o.nats) && AllOfKind(Sits, o.sits)
    requires NatOnDisk(Recovered(d1, txs), LayoutOf(d1[0]))
    requires NodePlaced(d1, Recovered(d1, txs), GeometryOf(d1[0]), LastOf(o.nats, nid), nid, w)
    ensures var d2, es, lay := Committing(d1, txs, image), EntriesOf(o), LayoutOf(d1[0]);
      && Replayable(d2, txs + [es]) && NatOnDisk(Recovered(d2, txs + [es]), lay)
      && nid in NodesOf(Recovered(d2, txs + [es]), lay) && NodesOf(Recovered(d2, txs + [es]), lay)[nid] == w
      && NatLpa(Recovered(d2, txs + [es]), lay, nid) == NatLpaWith(Recovered(d1, txs), lay, LastOf(o.nats, nid), nid)
  {
    var g, es := GeometryOf(d1[0]), EntriesOf(o);
    var addr := NatLpaWith(Recovered(d1, txs), g.lay, LastOf(o.nats, nid), nid);
    CommittedNat(d1, txs, image, o, nid);
    MainAfterCommit(d1, txs, image, es, addr);
    var D2 := Recovered(Committing(d1, txs, image), txs + [es]);
    assert addr != 0 && |D2| == |d1|;
    assert 0 < NatLpa(D2, g.lay, nid) < |D2| && D2[NatLpa(D2, g.lay, nid)] == d1[addr] && WordsOf(d1[addr]) == w;
    hide Replayable, Recovered, Committing, CanCommit, NatLpaWith, NatLpa, NatOwner, InNat;
  }

  /** Everything the file shows is on the device d1, in main blocks, and its nodes are where the NAT
      table and the transaction say. */
  ghost predicate ReadyToSwitch(d1: Image, txs: seq<seq<Entry>>, o: Output, s: F.FileState, size: nat)
    requires Replayable(d1, txs) && NatOnDisk(Recovered(d1, txs), LayoutOf(d1[0]))
  {
    && AllOfKind(Super, o.supers) && AllOfKind(Nats, o.nats) && AllOfKind(Sits, o.sits) && TablesApart(LayoutOf(d1[0]))
    && B.Tree(s.nodes, s.ino) && s.disk == d1 && SizeIn(s.nodes, s.ino) == size
    && (forall k: nat :: F.Stored(s, k) == F.BlockOf(s, k)) && DataPlaced(s, GeometryOf(d1[0]))
    && NodesPlaced(d1, Recovered(d1, txs), GeometryOf(d1[0]), o.nats, s.nodes)
  }

  /** A complete commit leaves the nodes and the data of the file where recovery finds them. */
  lemma CommittedTree(d1: Image, txs: seq<seq<Entry>>, image: seq<Block>, o: Output, s: F.FileState, size: nat)
    requires CanCommit(d1, txs, image, EntriesOf(o)) && NatOnDisk(Recovered(d1, txs), LayoutOf(d1[0]))
    requires ReadyToSwitch(d1, txs, o, s, size)
    ensures var d2, es, lay := Committing(d1, txs, image), EntriesOf(o), LayoutOf(d1[0]);
      && Replayable(d2, txs + [es]) && NatOnDisk(Recovered(d2, txs + [es]), lay) && |Recovered(d2, txs + [es])| == |d1|
      && forall nid :: nid in s.nodes ==>
           nid in NodesOf(Recovered(d2, txs + [es]), lay) &&
             NodesOf(Recovered(d2, txs + [es]), lay)[nid] == s.nodes[nid]
  {
    JournalRoundTrip(d1, txs, image, EntriesOf(o), image);
    NatStaysOnDisk(Committing(d1, txs, image), txs + [EntriesOf(o)]);
    hide Replayable, Recovered, Committing, CanCommit, NodesOf, DataPlaced, B.Tree;
    var lay, D2 := LayoutOf(d1[0]), Recovered(Committing(d1, txs, image), txs + [EntriesOf(o)]);
    forall nid | nid in s.nodes ensures nid in NodesOf(D2, lay) && NodesOf(D2, lay)[nid] == s.nodes[nid] {
      CommittedNode(d1, txs, image, o, nid, s.nodes[nid]);
    }
  }

  lemma CommittedData(d1: Image, txs: seq<seq<Entry>>, image: seq<Block>, es: seq<Entry>, s: F.FileState)
    requires CanCommit(d1, txs, image, es) && s.disk == d1 && DataPlaced(s, GeometryOf(d1[0]))
    ensures Replayable(Committing(d1, txs, image), txs + [es])
    ensures forall k: nat | F.LpaAt(s, k) != 0 ::
      F.LpaAt(s, k) < |d1| && Recovered(Committing(d1, txs, image), txs + [es])[F.LpaAt(s, k)] == d1[F.LpaAt(s, k)]
  {
    JournalRoundTrip(d1, txs, image, es, image);
    hide Replayable, Recovered, Committing, CanCommit, F.LpaAt, MainBlock;
    forall k: nat | F.LpaAt(s, k) != 0
      ensures F.LpaAt(s, k) < |d1| && Recovered(Committing(d1, txs, image), txs + [es])[F.LpaAt(s, k)] ==
        d1[F.LpaAt(s, k)]
    {
      MainAfterCommit(d1, txs, image, es, F.LpaAt(s, k));
    }
  }

  /** Once all journal blocks are there, recovery brings back the file exactly as it was shown when it
      was committed. */
  lemma CommitSwitches(d1: Image, txs: seq<seq<Entry>>, image: seq<Block>, o: Output, s: F.FileState, size: nat)
    requires CanCommit(d1, txs, image, EntriesOf(o)) && NatOnDisk(Recovered(d1, txs), LayoutOf(d1[0]))
    requires ReadyToSwitch(d1, txs, o, s, size)
    ensures var d2, es, lay := Committing(d1, txs, image), EntriesOf(o), LayoutOf(d1[0]);
      && Replayable(d2, txs + [es]) && NatOnDisk(Recovered(d2, txs + [es]), lay)
      && SizeOnDisk(Recovered(d2, txs + [es]), lay, s.ino) == size
      && F.SameBlocks(s, OnDisk(Recovered(d2, txs + [es]), lay, s.ino))
  {
    ReadyParts(d1, txs, o, s, size);
    hide Replayable, Recovered, Committing, CanCommit, ReadyToSwitch, DataPlaced, NodesOf, F.LpaAt, F.Stored, F.BlockOf,
      B.Tree, Log, LogBlocks;
    CommittedTree(d1, txs, image, o, s, size);
    CommittedData(d1, txs, image, EntriesOf(o), s);
    SameBlocksThroughNodes(s, Recovered(Committing(d1, txs, image), txs + [EntriesOf(o)]), LayoutOf(d1[0]));
  }

  lemma ReadyParts(d1: Image, txs: seq<seq<Entry>>, o: Output, s: F.FileState, size: nat)
    requires Replayable(d1, txs) && NatOnDisk(Recovered(d1, txs), LayoutOf(d1[0])) &&
      ReadyToSwitch(d1, txs, o, s, size)
    ensures s.disk == d1 && DataPlaced(s, GeometryOf(d1[0])) && B.Tree(s.nodes, s.ino) && s.ino in s.nodes
    ensures SizeIn(s.nodes, s.ino) == size && forall k: nat :: F.Stored(s, k) == F.BlockOf(s, k)
  {
    hide F.Stored, F.BlockOf, F.LpaAt, NodesPlaced, Replayable, Recovered;
  }

  lemma SameBlocksThroughNodes(s: F.FileState, D2: Image, lay: Layout)
    requires NatOnDisk(D2, lay) && B.Tree(s.nodes, s.ino) && |D2| == |s.disk|
    requires forall nid :: nid in s.nodes ==> nid in NodesOf(D2, lay) && NodesOf(D2, lay)[nid] == s.nodes[nid]
    requires forall k: nat :: F.Stored(s, k) == F.BlockOf(s, k)
    requires forall k: nat | F.LpaAt(s, k) != 0 ::
      F.LpaAt(s, k) < |s.disk| && D2[F.LpaAt(s, k)] == s.disk[F.LpaAt(s, k)]
    ensures F.SameBlocks(s, OnDisk(D2, lay, s.ino))
  {
    var t := OnDisk(D2, lay, s.ino);
    hide B.LpaOf, NodesOf;
    forall k: nat ensures F.BlockOf(t, k) == F.BlockOf(s, k) {
      if k < B.MAX_BLOCKS { TreeWithin(s.nodes, t.nodes, s.ino, k); }
      assert F.LpaAt(t, k) == F.LpaAt(s, k) && F.Stored(s, k) == F.BlockOf(s, k);
    }
  }

  // ---- The whole commit ----

  /** Crash-atomic commit. d is the device before the commit, d1 after any part of the content and node
      writes, and left is any part of the journal image written over zeroed blocks. At every crash
      point recovery brings back exactly the old file, or exactly the file as committed; the latter
      if and only if all contents, nodes and journal blocks are there. */
  lemma CommitIsCrashAtomic(d: Image, d1: Image, txs: seq<seq<Entry>>, image: seq<Block>, o: Output, left: seq<Block>,
                            s: F.FileState, size: nat)
    requires Replayable(d, txs) && Writing(d, d1, txs, s.ino)
    requires NatOnDisk(Recovered(d, txs), LayoutOf(d[0])) && ClearOfRing(GeometryOf(d[0]), Recovered(d, txs), s.ino)
    ensures Replayable(d1, txs) && NatOnDisk(Recovered(d1, txs), LayoutOf(d[0])) && LayoutOf(d1[0]) == LayoutOf(d[0])
    ensures SameFile(Recovered(d, txs), Recovered(d1, txs), LayoutOf(d[0]), s.ino)
    ensures CanCommit(d1, txs, image, EntriesOf(o)) && Survives(image, left) && left != image ==>
      && Replayable(Committing(d1, txs, left), txs) &&
        NatOnDisk(Recovered(Committing(d1, txs, left), txs), LayoutOf(d[0]))
      && SameFile(Recovered(d, txs), Recovered(Committing(d1, txs, left), txs), LayoutOf(d[0]), s.ino)
    ensures CanCommit(d1, txs, image, EntriesOf(o)) && ReadyToSwitch(d1, txs, o, s, size) ==>
      && Replayable(Committing(d1, txs, image), txs + [EntriesOf(o)])
      && NatOnDisk(Recovered(Committing(d1, txs, image), txs + [EntriesOf(o)]), LayoutOf(d[0]))
      && SizeOnDisk(Recovered(Committing(d1, txs, image), txs + [EntriesOf(o)]), LayoutOf(d[0]), s.ino) == size
      && F.SameBlocks(s, OnDisk(Recovered(Committing(d1, txs, image), txs + [EntriesOf(o)]), LayoutOf(d[0]), s.ino))
  {
    var lay, es := LayoutOf(d[0]), EntriesOf(o);
    CrashBeforeJournal(d, d1, txs, s.ino);
    WritingKeepsLog(d, d1, txs, s.ino);
    if CanCommit(d1, txs, image, es) && Survives(image, left) && left != image {
      StillClearOfRing(d, d1, txs, s.ino);
      CrashWithinJournal(d1, txs, image, es, left, s.ino);
      NatStaysOnDisk(Committing(d1, txs, left), txs);
      SameFileTrans(Recovered(d, txs), Recovered(d1, txs), Recovered(Committing(d1, txs, left), txs), lay, s.ino);
    }
    if CanCommit(d1, txs, image, es) && ReadyToSwitch(d1, txs, o, s, size) {
      CommitSwitches(d1, txs, image, o, s, size);
    }
  }

  lemma StillClearOfRing(d: Image, d1: Image, txs: seq<seq<Entry>>, ino: U32)
    requires Replayable(d, txs) && Writing(d, d1, txs, ino) && NatOnDisk(Recovered(d, txs), LayoutOf(d[0]))
    requires ClearOfRing(GeometryOf(d[0]), Recovered(d, txs), ino)
    ensures Replayable(d1, txs) && GeometryOf(d1[0]) == GeometryOf(d[0]) &&
      NatOnDisk(Recovered(d1, txs), LayoutOf(d[0]))
    ensures ClearOfRing(GeometryOf(d[0]), Recovered(d1, txs), ino)
  {
    var D, lay := Recovered(d, txs), LayoutOf(d[0]);
    WritingKeepsLog(d, d1, txs, ino);
    NatStaysOnDisk(d1, txs);
    var D1 := Recovered(d1, txs);
    assert |D1| == |D| == |d|;
    hide *;
    forall l: nat | l < |d| ensures D1[l] == D[l] || Unused(D, lay, ino, l) { FreshOrSame(d, d1, txs, ino, l); }
    DifferUnusedIf(D, D1, lay, ino);
    UnusedAlike(GeometryOf(d[0]), D, D1, ino);
  }

  lemma UnusedAlike(g: Geometry, D: Image, D1: Image, ino: U32)
    requires NatOnDisk(D, g.lay) && DifferUnused(D, D1, g.lay, ino) && ClearOfRing(g, D, ino)
    ensures ClearOfRing(g, D1, ino)
  {
    assert NatOnDisk(D1, g.lay);
    DifferKeeps(D, D1, g.lay, ino);
    hide Occupies, DifferUnused, KeepsFile;
    forall l: nat | InRing(g, l) ensures Unused(D1, g.lay, ino, l) {
      assert Unused(D, g.lay, ino, l);
      SameUse(D, D1, g.lay, ino, l);
    }
  }
}
