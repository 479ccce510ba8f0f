/** Recovery of a whole journal: what the log holds, what recovery makes of it, and why a crash
    during recovery does no harm. */
module LogRecovery {
  import opened Wrappers
  import opened Bytes
  import opened JournalFormat
  import opened JournalScan
  import opened RedoLog
  import opened BlockDevice
  import opened Recovery

  const MAGIC: U32 := 0x336699cc

  function JournalStartOf(sb: Block): nat {
    Get32(sb, OFF_JOURNAL_ADDR)
  }

  function JournalSizeOf(sb: Block): nat {
    Get32(sb, OFF_SEGS_JOURNAL) * BLOCKS_PER_SEGMENT
  }

  /** The position recovery starts to scan from: the stored end offset. */
  function ScanPosOf(sb: Block): nat
    requires JournalSizeOf(sb) > 0
  {
    Get16(sb, OFF_JOURNAL_END) % JournalSizeOf(sb)
  }

  // ---- Formatted devices ----

  /** Where the tables and the journal stand. */
  datatype Geometry = Geometry(lay: Layout, start: nat, size: nat)

  ghost function GeometryOf(sb: Block): Geometry {
    Geometry(LayoutOf(sb), JournalStartOf(sb), JournalSizeOf(sb))
  }

  /** A table area lies on the device, behind block 0 and clear of the journal. */
  ghost predicate TableClear(g: Geometry, start: nat, blocks: nat, n: nat) {
    1 <= start && start + blocks <= n && (start + blocks <= g.start || g.start + g.size <= start)
  }

  ghost predicate GeometryOk(g: Geometry, n: nat) {
    && 1 <= g.start && 0 < g.size <= 0x1_0000 && g.start + g.size <= n <= 0x1_0000_0000
    && TableClear(g, g.lay.natStart, g.lay.natBlocks, n)
    && TableClear(g, g.lay.sitStart, g.lay.sitBlocks, n)
  }

  ghost predicate Mountable(disk: Image) {
    |disk| > 0 && Get32(disk[0], OFF_MAGIC) == MAGIC && GeometryOk(GeometryOf(disk[0]), |disk|)
  }

  ghost function RingOf(disk: Image): (ring: seq<Block>)
    requires Mountable(disk)
    ensures |ring| == JournalSizeOf(disk[0])
  {
    disk[JournalStartOf(disk[0])..JournalStartOf(disk[0]) + JournalSizeOf(disk[0])]
  }

  /** The entry addresses an existing table entry, or a super-block field that may change. */
  ghost predicate EntryInRange(lay: Layout, e: Entry) {
    match e
    case NatEntry(nid, _, _) => Locate(NAT_ENTRIES_PER_BLOCK, nid).block < lay.natBlocks
    case SitEntry(seg, _) => Locate(SIT_ENTRIES_PER_BLOCK, seg).block < lay.sitBlocks
    case SuperEntry(off, _) => OFF_CHANGING <= off && off + 4 <= BLOCK_SIZE
  }

  ghost predicate AllInRange(lay: Layout, es: seq<Entry>) {
    forall e :: e in es ==> EntryInRange(lay, e)
  }

  /** The update leaves alone the read-only super-block fields, device block 0 and the journal. */
  ghost predicate SafeUpdate(u: Update, g: Geometry, n: nat) {
    && InImage(n + 1, u) && u.slot != 1
    && (u.slot == 0 ==> u.off >= OFF_CHANGING)
    && !(g.start + 1 <= u.slot < g.start + g.size + 1)
  }

  ghost predicate AllSafe(us: seq<Update>, g: Geometry, n: nat) {
    forall u :: u in us ==> SafeUpdate(u, g, n)
  }

  lemma EntryIsSafe(g: Geometry, n: nat, e: Entry)
    requires GeometryOk(g, n) && EntryInRange(g.lay, e)
    ensures UpdateOf(g.lay, e).Some? && SafeUpdate(UpdateOf(g.lay, e).value, g, n)
  {
  }

  /** The updates of a list of in-range entries. */
  ghost function UpdatesOf(lay: Layout, es: seq<Entry>): (us: seq<Update>)
  {
    if es == [] then []
    else
      match UpdateOf(lay, es[0])
      case None => UpdatesOf(lay, es[1..])
      case Some(u) => [u] + UpdatesOf(lay, es[1..])
  }

  lemma {:induction false} UpdatesAppend(lay: Layout, xs: seq<Entry>, ys: seq<Entry>)
    ensures UpdatesOf(lay, xs + ys) == UpdatesOf(lay, xs) + UpdatesOf(lay, ys)
  {
    if xs == [] {
      assert xs + ys == ys;
    } else {
      assert (xs + ys)[1..] == xs[1..] + ys;
      UpdatesAppend(lay, xs[1..], ys);
    }
  }

  lemma {:induction false} UpdatesAreSafe(g: Geometry, n: nat, es: seq<Entry>)
    requires GeometryOk(g, n) && AllInRange(g.lay, es)
    ensures AllSafe(UpdatesOf(g.lay, es), g, n) && AllInImage(n + 1, UpdatesOf(g.lay, es))
  {
    if es != [] {
      EntryIsSafe(g, n, es[0]);
      UpdatesAreSafe(g, n, es[1..]);
    }
  }

  /** The read-only fields fix everything recovery needs to know about the device. */
  lemma HeadDetermines(sb: Block, sb': Block)
    requires sb[..OFF_CHANGING] == sb'[..OFF_CHANGING]
    ensures GeometryOf(sb) == GeometryOf(sb') && Get32(sb, OFF_MAGIC) == Get32(sb', OFF_MAGIC)
  {
    SameField(sb, sb', OFF_NAT_ADDR);
    SameField(sb, sb', OFF_SEGS_NAT);
    SameField(sb, sb', OFF_SIT_ADDR);
    SameField(sb, sb', OFF_SEGS_SIT);
    SameField(sb, sb', OFF_JOURNAL_ADDR);
    SameField(sb, sb', OFF_SEGS_JOURNAL);
    SameField(sb, sb', OFF_MAGIC);
  }

  lemma SameField(sb: Block, sb': Block, off: nat)
    requires sb[..OFF_CHANGING] == sb'[..OFF_CHANGING] && off + 4 <= OFF_CHANGING
    ensures Get32(sb, off) == Get32(sb', off)
  {
    assert sb[off..off + 4] == sb[..OFF_CHANGING][off..off + 4];
    assert sb'[off..off + 4] == sb'[..OFF_CHANGING][off..off + 4];
    SameBytesSameValue(sb, off, sb', off, 4);
  }

  /** What safe updates keep. */
  ghost predicate Kept(g: Geometry, m: Image, m': Image) {
    && |m| == |m'| && 1 < |m| && g.start + g.size < |m|
    && m[0][..OFF_CHANGING] == m'[0][..OFF_CHANGING] && m[1] == m'[1]
    && forall l :: g.start + 1 <= l < g.start + g.size + 1 ==> m[l] == m'[l]
  }

  lemma ApplyKeeps(g: Geometry, m: Image, u: Update)
    requires 1 < |m| && g.start + g.size < |m| && SafeUpdate(u, g, |m| - 1)
    ensures Kept(g, m, ApplyUpdate(m, u))
  {
  }

  /** Applying in-range entries one by one is redoing their updates. */
  lemma {:induction false} ApplyIsRedo(g: Geometry, m: Image, es: seq<Entry>)
    requires |m| > 0 && GeometryOk(g, |m| - 1) && LayoutOf(m[0]) == g.lay && AllInRange(g.lay, es)
    ensures AllInImage(|m|, UpdatesOf(g.lay, es))
    ensures ApplyEntries(m, es) == Some(Redo(m, UpdatesOf(g.lay, es)))
    ensures Kept(g, m, Redo(m, UpdatesOf(g.lay, es)))
    decreases |es|
  {
    if es != [] {
      EntryIsSafe(g, |m| - 1, es[0]);
      var u := UpdateOf(g.lay, es[0]).value;
      var m' := ApplyUpdate(m, u);
      ApplyKeeps(g, m, u);
      HeadDetermines(m[0], m'[0]);
      ApplyIsRedo(g, m', es[1..]);
      assert UpdatesOf(g.lay, es)[1..] == UpdatesOf(g.lay, es[1..]);
    }
  }

  // ---- The log ----

  /** From pos the ring holds exactly the committed transactions txs; what follows them is not
      committed. Everything that can be read is in range. */
  ghost predicate Log(lay: Layout, ring: seq<Block>, pos: nat, txs: seq<seq<Entry>>)
    requires pos < |ring|
    decreases |txs|
  {
    var scan := ScanTx(Rotate(ring, pos));
    && AllInRange(lay, scan.entries)
    && if txs == [] then !scan.committed
       else scan.committed && scan.entries == txs[0]
            && Log(lay, ring, Forward(pos, scan.blocks, |ring|), txs[1..])
  }

  /** The number of ring blocks the transactions take. */
  ghost function LogBlocks(lay: Layout, ring: seq<Block>, pos: nat, txs: seq<seq<Entry>>): nat
    requires pos < |ring| && Log(lay, ring, pos, txs)
    decreases |txs|
  {
    if txs == [] then 0
    else
      var scan := ScanTx(Rotate(ring, pos));
      scan.blocks + LogBlocks(lay, ring, Forward(pos, scan.blocks, |ring|), txs[1..])
  }

  ghost function Concat(txs: seq<seq<Entry>>): seq<Entry> {
    if txs == [] then [] else txs[0] + Concat(txs[1..])
  }

  lemma {:induction false} LogInRange(lay: Layout, ring: seq<Block>, pos: nat, txs: seq<seq<Entry>>)
    requires pos < |ring| && Log(lay, ring, pos, txs)
    ensures AllInRange(lay, Concat(txs))
    decreases |txs|
  {
    if txs != [] {
      LogInRange(lay, ring, Forward(pos, ScanTx(Rotate(ring, pos)).blocks, |ring|), txs[1..]);
    }
  }

  /** The device holds a log that recovery can replay: shorter than the ring, offsets in 16 bits. */
  ghost predicate Replayable(disk: Image, txs: seq<seq<Entry>>) {
    && Mountable(disk)
    && var lay, ring, pos := LayoutOf(disk[0]), RingOf(disk), ScanPosOf(disk[0]);
       Log(lay, ring, pos, txs) && LogBlocks(lay, ring, pos, txs) < |ring|
  }

  /** The ring position behind the last committed transaction. */
  ghost function EndPos(disk: Image, txs: seq<seq<Entry>>): (r: nat)
    requires Replayable(disk, txs)
    ensures r < JournalSizeOf(disk[0])
  {
    var ring, pos := RingOf(disk), ScanPosOf(disk[0]);
    Forward(pos, LogBlocks(LayoutOf(disk[0]), ring, pos, txs), |ring|)
  }

  /** The super block with both stored journal offsets set. */
  function WithOffsets(sb: Block, off: nat): (r: Block)
    ensures r[..OFF_JOURNAL_START] == sb[..OFF_JOURNAL_START]
    ensures r[OFF_JOURNAL_START + 4..] == sb[OFF_JOURNAL_START + 4..]
  {
    Splice(Splice(sb, OFF_JOURNAL_START, Le16(off % 0x1_0000)), OFF_JOURNAL_END, Le16(off % 0x1_0000))
  }

  ghost function LogUpdates(disk: Image, txs: seq<seq<Entry>>): (us: seq<Update>)
    requires Replayable(disk, txs)
    ensures AllInImage(|disk| + 1, us)
  {
    LogInRange(LayoutOf(disk[0]), RingOf(disk), ScanPosOf(disk[0]), txs);
    UpdatesAreSafe(GeometryOf(disk[0]), |disk|, Concat(txs));
    UpdatesOf(LayoutOf(disk[0]), Concat(txs))
  }

  /** The device after recovery: the tables and the super block are the left fold of all
      committed entries, and both stored offsets point behind the last transaction. */
  ghost function Recovered(disk: Image, txs: seq<seq<Entry>>): (r: Image)
    requires Replayable(disk, txs)
    ensures |r| == |disk|
  {
    var m := Redo(Memory(disk[0], disk), LogUpdates(disk, txs));
    m[1..][0 := WithOffsets(m[0], EndPos(disk, txs))]
  }

  // ---- A crash during recovery ----

  /** disk' is what a crash can leave of disk while recovery redoes the updates us: block 0 and the
      journal are as before, other blocks differ at most where us writes. */
  ghost predicate Interrupted(disk: Image, disk': Image, us: seq<Update>)
    requires Mountable(disk)
  {
    && |disk'| == |disk| && disk'[0] == disk[0] && RingSame(disk, disk')
    && AgreeOutside(Memory(disk[0], disk), Memory(disk[0], disk'), us)
  }

  ghost predicate RingSame(disk: Image, disk': Image)
    requires Mountable(disk) && |disk'| == |disk|
  {
    forall l :: JournalStartOf(disk[0]) <= l < JournalStartOf(disk[0]) + JournalSizeOf(disk[0]) ==> disk'[l] == disk[l]
  }

  /** After a crash during recovery the same log is there, and recovering it gives the same device
      as an uninterrupted recovery would have given. */
  lemma CrashDuringRecovery(disk: Image, disk': Image, txs: seq<seq<Entry>>)
    requires Replayable(disk, txs) && Interrupted(disk, disk', LogUpdates(disk, txs))
    ensures Replayable(disk', txs)
    ensures Recovered(disk', txs) == Recovered(disk, txs)
  {
    assert RingOf(disk') == RingOf(disk);
    RedoConverges(Memory(disk[0], disk), Memory(disk[0], disk'), LogUpdates(disk, txs));
  }

  /** Crashes may repeat: a crash in a recovery that runs after a crash is again covered. */
  lemma CrashesCompose(disk: Image, disk': Image, disk'': Image, txs: seq<seq<Entry>>)
    requires Replayable(disk, txs) && Interrupted(disk, disk', LogUpdates(disk, txs))
    requires Replayable(disk', txs) && Interrupted(disk', disk'', LogUpdates(disk', txs))
    ensures Interrupted(disk, disk'', LogUpdates(disk, txs))
  {
    var us, m, m', m'' := LogUpdates(disk, txs), Memory(disk[0], disk), Memory(disk[0], disk'), Memory(disk[0], disk'');
    forall l, i | 0 <= l < |m| && 0 <= i < BLOCK_SIZE && !Covered(us, l, i) ensures m[l][i] == m''[l][i] {
      assert m[l][i] == m'[l][i] == m''[l][i];
    }
  }

  // ---- Recovering twice ----

  lemma ForwardTwice(pos: nat, a: nat, b: nat, size: nat)
    requires pos < size && a + b <= size
    ensures Forward(pos, a, size) < size
    ensures b < size ==> Forward(Forward(pos, a, size), b, size) == Forward(pos, a + b, size)
  {
  }

  /** Behind the last transaction there is nothing committed. */
  lemma {:induction false} LogTail(lay: Layout, ring: seq<Block>, pos: nat, txs: seq<seq<Entry>>)
    requires pos < |ring| && Log(lay, ring, pos, txs) && LogBlocks(lay, ring, pos, txs) < |ring|
    ensures Log(lay, ring, Forward(pos, LogBlocks(lay, ring, pos, txs), |ring|), [])
    decreases |txs|
  {
    if txs != [] {
      var a := ScanTx(Rotate(ring, pos)).blocks;
      var next := Forward(pos, a, |ring|);
      LogTail(lay, ring, next, txs[1..]);
      ForwardTwice(pos, a, LogBlocks(lay, ring, next, txs[1..]), |ring|);
    }
  }

  lemma OffsetsReadBack(sb: Block, off: nat)
    requires off < 0x1_0000
    ensures Get16(WithOffsets(sb, off), OFF_JOURNAL_START) == off
    ensures Get16(WithOffsets(sb, off), OFF_JOURNAL_END) == off
    ensures WithOffsets(WithOffsets(sb, off), off) == WithOffsets(sb, off)
  {
    var r := WithOffsets(sb, off);
    assert r[OFF_JOURNAL_START..OFF_JOURNAL_START + 2] == Le16(off) == Le16(off)[0..2];
    SameBytesSameValue(r, OFF_JOURNAL_START, Le16(off), 0, 2);
    assert r[OFF_JOURNAL_END..OFF_JOURNAL_END + 2] == Le16(off) == Le16(off)[0..2];
    SameBytesSameValue(r, OFF_JOURNAL_END, Le16(off), 0, 2);
  }

  /** The memory after all updates keeps the read-only fields, block 0 and the journal. */
  lemma LogKeeps(disk: Image, txs: seq<seq<Entry>>)
    requires Replayable(disk, txs)
    ensures Kept(GeometryOf(disk[0]), Memory(disk[0], disk), Redo(Memory(disk[0], disk), LogUpdates(disk, txs)))
  {
    LogInRange(LayoutOf(disk[0]), RingOf(disk), ScanPosOf(disk[0]), txs);
    ApplyIsRedo(GeometryOf(disk[0]), Memory(disk[0], disk), Concat(txs));
  }

  /** A device with the same read-only fields and the same journal is mounted the same way. */
  lemma SameHead(disk: Image, d: Image)
    requires Mountable(disk) && |d| == |disk| && d[0][..OFF_CHANGING] == disk[0][..OFF_CHANGING] && RingSame(disk, d)
    ensures Mountable(d) && RingOf(d) == RingOf(disk) && LayoutOf(d[0]) == LayoutOf(disk[0])
    ensures JournalStartOf(d[0]) == JournalStartOf(disk[0])
  {
    HeadDetermines(d[0], disk[0]);
  }

  lemma OffsetsKeepHead(sb: Block, off: nat)
    ensures WithOffsets(sb, off)[..OFF_CHANGING] == sb[..OFF_CHANGING]
  {
    var r := WithOffsets(sb, off);
    assert r[..OFF_CHANGING] == r[..OFF_JOURNAL_START][..OFF_CHANGING];
    assert sb[..OFF_CHANGING] == sb[..OFF_JOURNAL_START][..OFF_CHANGING];
  }

  lemma SmallModulo(a: nat, n: nat)
    requires a < n
    ensures a % n == a
  {
  }

  lemma RecoveredKeeps(disk: Image, txs: seq<seq<Entry>>)
    requires Replayable(disk, txs)
    ensures Mountable(Recovered(disk, txs)) && RingOf(Recovered(disk, txs)) == RingOf(disk)
    ensures LayoutOf(Recovered(disk, txs)[0]) == LayoutOf(disk[0])
    ensures ScanPosOf(Recovered(disk, txs)[0]) == EndPos(disk, txs)
  {
    var m, d, end := Redo(Memory(disk[0], disk), LogUpdates(disk, txs)), Recovered(disk, txs), EndPos(disk, txs);
    LogKeeps(disk, txs);
    OffsetsKeepHead(m[0], end);
    assert RingSame(disk, d) by {
      forall l | JournalStartOf(disk[0]) <= l < JournalStartOf(disk[0]) + JournalSizeOf(disk[0])
        ensures d[l] == disk[l] {
        assert m[l + 1] == Memory(disk[0], disk)[l + 1];
      }
    }
    SameHead(disk, d);
    OffsetsReadBack(m[0], end);
    SmallModulo(end, JournalSizeOf(d[0]));
  }

  /** Recovering a recovered device changes nothing. */
  lemma RecoveryIsIdempotent(disk: Image, txs: seq<seq<Entry>>)
    requires Replayable(disk, txs)
    ensures Replayable(Recovered(disk, txs), [])
    ensures Recovered(Recovered(disk, txs), []) == Recovered(disk, txs)
  {
    var d, lay := Recovered(disk, txs), LayoutOf(disk[0]);
    RecoveredKeeps(disk, txs);
    LogTail(lay, RingOf(disk), ScanPosOf(disk[0]), txs);
    OffsetsReadBack(Redo(Memory(disk[0], disk), LogUpdates(disk, txs))[0], EndPos(disk, txs));
    assert Memory(d[0], d)[1..] == d;
  }

  // ---- The outer loop ----

  /** Memory m is the device's: it has the geometry, and the ring stands where it says. */
  ghost predicate Belongs(g: Geometry, ring: seq<Block>, m: Image) {
    && |m| > 0 && GeometryOk(g, |m| - 1) && LayoutOf(m[0]) == g.lay
    && |ring| == g.size && forall k :: 0 <= k < g.size ==> m[1 + g.start + k] == ring[k]
  }

  lemma MountedBelongs(disk: Image)
    requires Mountable(disk)
    ensures Belongs(GeometryOf(disk[0]), RingOf(disk), Memory(disk[0], disk))
  {
  }

  lemma ApplyBelongs(g: Geometry, ring: seq<Block>, m: Image, es: seq<Entry>)
    requires Belongs(g, ring, m) && AllInRange(g.lay, es)
    ensures ApplyEntries(m, es).Some? && Belongs(g, ring, ApplyEntries(m, es).value)
  {
    ApplyIsRedo(g, m, es);
    var m' := ApplyEntries(m, es).value;
    HeadDetermines(m[0], m'[0]);
    forall k | 0 <= k < g.size ensures m'[1 + g.start + k] == ring[k] {
      assert m[1 + g.start + k] == ring[k];
    }
  }

  lemma BelongsRing(g: Geometry, ring: seq<Block>, sb: Block, disk: Image, pos: nat)
    requires Belongs(g, ring, Memory(sb, disk)) && pos < g.size
    ensures RingHolds(disk, g.start, g.size, pos, Rotate(ring, pos))
  {
    forall k | 0 <= k < g.size ensures Rotate(ring, pos)[k] == disk[g.start + Forward(pos, k, g.size)] {
      RotateAt(ring, pos, k);
      assert Memory(sb, disk)[1 + g.start + Forward(pos, k, g.size)] == ring[Forward(pos, k, g.size)];
    }
  }

  lemma LogNext(g: Geometry, ring: seq<Block>, pos: nat, rest: seq<seq<Entry>>, next: nat)
    requires pos < |ring| && Log(g.lay, ring, pos, rest) && rest != []
    requires next == Forward(pos, ScanTx(Rotate(ring, pos)).blocks, |ring|)
    ensures next < |ring| && Log(g.lay, ring, next, rest[1..]) && 0 < ScanTx(Rotate(ring, pos)).blocks
    ensures LogBlocks(g.lay, ring, pos, rest) ==
              ScanTx(Rotate(ring, pos)).blocks + LogBlocks(g.lay, ring, next, rest[1..])
  {
  }

  /** Replaying where the log stands: the next transaction commits, or nothing is left. */
  lemma LogFate(g: Geometry, ring: seq<Block>, m: Image, pos: nat, rest: seq<seq<Entry>>)
    requires Belongs(g, ring, m) && pos < g.size && Log(g.lay, ring, pos, rest)
    ensures var f := FateOf(m, Rotate(ring, pos), 0);
      && f.memory.Some? && (f.committed <==> rest != [])
      && (rest != [] ==> f.memory == ApplyEntries(m, rest[0]) && f.blocks == ScanTx(Rotate(ring, pos)).blocks)
      && Belongs(g, ring, f.memory.value)
  {
    var rot := Rotate(ring, pos);
    FateIsScan(m, rot, 0);
    assert rot[0..] == rot;
    ApplyBelongs(g, ring, m, ScanTx(rot).entries);
  }

  // ---- The writes recovery issues ----

  /** The writes of one commit turn a into b, each block getting its final contents at once. */
  ghost predicate Batch(a: Image, ws: seq<Write>, b: Image) {
    && |a| == |b| && WritesFit(|a|, ws) && ApplyWrites(a, ws) == b
    && forall w :: w in ws ==> w.block == b[w.lpa]
  }

  /** Committing the entries es turns memory m into m' with the writes ws. */
  ghost predicate Link(m: Image, es: seq<Entry>, ws: seq<Write>, m': Image) {
    |m| > 0 && ApplyEntries(m, es) == Some(m') && Batch(m[1..], ws, m'[1..])
  }

  ghost predicate Chain(ms: seq<Image>, txs: seq<seq<Entry>>, batches: seq<seq<Write>>) {
    && |ms| == |batches| + 1 && |batches| <= |txs|
    && forall j :: 0 <= j < |batches| ==> Link(ms[j], txs[j], batches[j], ms[j + 1])
  }

  ghost function Flatten(batches: seq<seq<Write>>): seq<Write> {
    if batches == [] then [] else Flatten(batches[..|batches| - 1]) + batches[|batches| - 1]
  }

  /** Every crash point while the writes ws are issued leaves an interrupted recovery. */
  ghost predicate CrashSafe(disk: Image, ws: seq<Write>, us: seq<Update>)
    requires Mountable(disk) && WritesFit(|disk|, ws)
  {
    forall j :: 0 <= j <= |ws| ==> WritesFit(|disk|, ws[..j]) && Interrupted(disk, ApplyWrites(disk, ws[..j]), us)
  }

  /** At any crash point within a commit every block is as before or as after it. */
  lemma {:induction false} PrefixMixes(a: Image, b: Image, ws: seq<Write>, l: nat)
    requires |b| == |a| && WritesFit(|a|, ws) && l < |a|
    requires forall w :: w in ws ==> w.block == b[w.lpa]
    ensures ApplyWrites(a, ws)[l] == a[l] || ApplyWrites(a, ws)[l] == b[l]
  {
    if ws != [] {
      var init, last := ws[..|ws| - 1], ws[|ws| - 1];
      assert last in ws;
      assert forall w :: w in init ==> w in ws;
      PrefixMixes(a, b, init, l);
    }
  }

  lemma InterruptedMix(disk: Image, a: Image, b: Image, d: Image, us: seq<Update>)
    requires Mountable(disk) && Interrupted(disk, a, us) && Interrupted(disk, b, us)
    requires |d| == |disk| && forall l :: 0 <= l < |d| ==> d[l] == a[l] || d[l] == b[l]
    ensures Interrupted(disk, d, us)
  {
    var m0, ma, mb, md := Memory(disk[0], disk), Memory(disk[0], a), Memory(disk[0], b), Memory(disk[0], d);
    forall l, i | 0 <= l < |m0| && 0 <= i < BLOCK_SIZE && !Covered(us, l, i) ensures m0[l][i] == md[l][i] {
      assert m0[l][i] == ma[l][i] == mb[l][i];
      assert md[l] == ma[l] || md[l] == mb[l] by {
        if l > 0 { assert d[l - 1] == a[l - 1] || d[l - 1] == b[l - 1]; }
      }
    }
  }

  lemma CrashSafeExtend(disk: Image, ws: seq<Write>, more: seq<Write>, a: Image, b: Image, us: seq<Update>)
    requires Mountable(disk) && WritesFit(|disk|, ws) && CrashSafe(disk, ws, us)
    requires a == ApplyWrites(disk, ws) && Batch(a, more, b) && Interrupted(disk, b, us)
    ensures WritesFit(|disk|, ws + more) && ApplyWrites(disk, ws + more) == b && CrashSafe(disk, ws + more, us)
  {
    ApplyWritesAppend(disk, ws, more);
    assert Interrupted(disk, a, us) by { assert ws[..|ws|] == ws; }
    forall j | 0 <= j <= |ws + more|
      ensures WritesFit(|disk|, (ws + more)[..j]) && Interrupted(disk, ApplyWrites(disk, (ws + more)[..j]), us)
    {
      if j <= |ws| {
        assert (ws + more)[..j] == ws[..j];
      } else {
        var part := more[..j - |ws|];
        assert (ws + more)[..j] == ws + part;
        assert forall w :: w in part ==> w in more;
        ApplyWritesAppend(disk, ws, part);
        forall l | 0 <= l < |disk| ensures ApplyWrites(a, part)[l] == a[l] || ApplyWrites(a, part)[l] == b[l] {
          PrefixMixes(a, b, part, l);
        }
        InterruptedMix(disk, a, b, ApplyWrites(a, part), us);
      }
    }
  }

  lemma {:induction false} ConcatAppend(xs: seq<seq<Entry>>, ys: seq<seq<Entry>>)
    ensures Concat(xs + ys) == Concat(xs) + Concat(ys)
  {
    if xs == [] {
      assert xs + ys == ys;
    } else {
      assert (xs + ys)[1..] == xs[1..] + ys;
      ConcatAppend(xs[1..], ys);
    }
  }

  lemma ConcatSplit(txs: seq<seq<Entry>>, k: nat)
    requires k <= |txs|
    ensures Concat(txs) == Concat(txs[..k]) + Concat(txs[k..])
    ensures k < |txs| ==> Concat(txs[..k + 1]) == Concat(txs[..k]) + txs[k]
  {
    assert txs == txs[..k] + txs[k..];
    ConcatAppend(txs[..k], txs[k..]);
    if k < |txs| {
      assert txs[..k + 1] == txs[..k] + [txs[k]];
      ConcatAppend(txs[..k], [txs[k]]);
      assert Concat([txs[k]]) == txs[k];
    }
  }

  /** The memories of a chain are redone prefixes of the log. */
  lemma {:induction false} ChainIsRedo(g: Geometry, ms: seq<Image>, txs: seq<seq<Entry>>, batches: seq<seq<Write>>,
                                       k: nat)
    requires Chain(ms, txs, batches) && k <= |batches| && AllInRange(g.lay, Concat(txs))
    requires |ms[0]| > 0 && GeometryOk(g, |ms[0]| - 1) && LayoutOf(ms[0][0]) == g.lay
    ensures AllInImage(|ms[0]|, UpdatesOf(g.lay, Concat(txs[..k])))
    ensures ms[k] == Redo(ms[0], UpdatesOf(g.lay, Concat(txs[..k])))
    ensures Kept(g, ms[0], ms[k])
  {
    ConcatSplit(txs, k);
    if k == 0 {
      assert txs[..0] == [];
    } else {
      ConcatSplit(txs, k - 1);
      ChainIsRedo(g, ms, txs, batches, k - 1);
      var us, vs := UpdatesOf(g.lay, Concat(txs[..k - 1])), UpdatesOf(g.lay, txs[k - 1]);
      assert Link(ms[k - 1], txs[k - 1], batches[k - 1], ms[k]);
      assert AllInRange(g.lay, txs[k - 1]);
      HeadDetermines(ms[0][0], ms[k - 1][0]);
      ApplyIsRedo(g, ms[k - 1], txs[k - 1]);
      UpdatesAppend(g.lay, Concat(txs[..k - 1]), txs[k - 1]);
      RedoAppend(ms[0], us, vs);
    }
  }

  /** The device between two transactions is an interrupted recovery of the whole log. */
  lemma PrefixIsInterrupted(disk: Image, txs: seq<seq<Entry>>, k: nat, m: Image)
    requires Replayable(disk, txs) && k <= |txs|
    requires AllInImage(|disk| + 1, UpdatesOf(LayoutOf(disk[0]), Concat(txs[..k])))
    requires m == Redo(Memory(disk[0], disk), UpdatesOf(LayoutOf(disk[0]), Concat(txs[..k])))
    requires Kept(GeometryOf(disk[0]), Memory(disk[0], disk), m)
    ensures Interrupted(disk, m[1..], LogUpdates(disk, txs))
  {
    var lay, us, m0, cur := LayoutOf(disk[0]), LogUpdates(disk, txs), Memory(disk[0], disk), m[1..];
    assert RingSame(disk, cur) by {
      forall l | JournalStartOf(disk[0]) <= l < JournalStartOf(disk[0]) + JournalSizeOf(disk[0])
        ensures cur[l] == disk[l] {
        assert m[l + 1] == m0[l + 1];
      }
    }
    ConcatSplit(txs, k);
    UpdatesAppend(lay, Concat(txs[..k]), Concat(txs[k..]));
    var part := UpdatesOf(lay, Concat(txs[..k]));
    RedoAgrees(m0, part);
    var md := Memory(disk[0], cur);
    forall l, i | 0 <= l < |m0| && 0 <= i < BLOCK_SIZE && !Covered(us, l, i) ensures m0[l][i] == md[l][i] {
      if l > 0 {
        assert md[l] == m[l];
        assert !Covered(part, l, i);
      }
    }
  }

  /** Every crash point while the log is replayed, batch after batch, can be repaired. */
  lemma {:induction false} ChainIsCrashSafe(disk: Image, txs: seq<seq<Entry>>, ms: seq<Image>, batches: seq<seq<Write>>)
    requires Replayable(disk, txs) && Chain(ms, txs, batches) && ms[0] == Memory(disk[0], disk)
    ensures WritesFit(|disk|, Flatten(batches))
    ensures |ms[|batches|]| == |disk| + 1 && ApplyWrites(disk, Flatten(batches)) == ms[|batches|][1..]
    ensures CrashSafe(disk, Flatten(batches), LogUpdates(disk, txs))
    decreases |batches|
  {
    hide Log, UpdatesOf, Redo, AgreeOutside, ApplyEntries;
    var g, us, k := GeometryOf(disk[0]), LogUpdates(disk, txs), |batches|;
    LogInRange(g.lay, RingOf(disk), ScanPosOf(disk[0]), txs);
    ChainIsRedo(g, ms, txs, batches, k);
    PrefixIsInterrupted(disk, txs, k, ms[k]);
    if k == 0 {
      assert ms[0][1..] == disk;
    } else {
      var init, last := batches[..k - 1], batches[k - 1];
      assert Chain(ms[..k], txs, init);
      ChainIsCrashSafe(disk, txs, ms[..k], init);
      assert Link(ms[k - 1], txs[k - 1], last, ms[k]);
      CrashSafeExtend(disk, Flatten(init), last, ms[k - 1][1..], ms[k][1..], us);
    }
  }

  /** When the whole log has been replayed, setting the offsets completes the recovery. */
  lemma ChainEnd(disk: Image, txs: seq<seq<Entry>>, ms: seq<Image>, batches: seq<seq<Write>>, sb: Block, cur: Image)
    requires Replayable(disk, txs) && Chain(ms, txs, batches) && |batches| == |txs|
    requires ms[0] == Memory(disk[0], disk) && ms[|txs|] == Memory(sb, cur)
    ensures |cur| == |disk| && cur[0 := WithOffsets(sb, EndPos(disk, txs))] == Recovered(disk, txs)
  {
    var g := GeometryOf(disk[0]);
    LogInRange(g.lay, RingOf(disk), ScanPosOf(disk[0]), txs);
    ChainIsRedo(g, ms, txs, batches, |txs|);
    assert txs[..|txs|] == txs;
    assert Memory(sb, cur)[0] == sb && Memory(sb, cur)[1..] == cur;
  }
}
