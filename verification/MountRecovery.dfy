/** Recovery at mount time: the loops of comm_submit_fs_recover_from_db_request. */
module MountRecovery {
  import opened Bytes
  import opened JournalFormat
  import opened JournalScan
  import opened RedoLog
  import opened BlockDevice
  import opened Recovery
  import opened LogRecovery

  /** The super block carries the magic number and names a journal. */
  predicate Formatted(disk: Image) {
    |disk| > 0 && Get32(disk[0], OFF_MAGIC) == MAGIC && JournalSizeOf(disk[0]) > 0
  }

  lemma MemoryTail(sb: Block, disk: Image)
    ensures Memory(sb, disk)[1..] == disk
  {
  }

  /** One turn of the outer loop: the next transaction of the log is committed to the device, or
      none is left and nothing changes. */
  method ReplayNext(dev: Device, sb: Block, lpa: nat, journalStart: nat, journalEnd: nat,
                    ghost g: Geometry, ghost ring: seq<Block>, ghost rest: seq<seq<Entry>>)
    returns (ok: bool, committed: bool, next: nat, sb': Block, ghost more: seq<Write>)
    requires journalStart == g.start && journalEnd == g.start + g.size && journalStart <= lpa < journalEnd
    requires Belongs(g, ring, Memory(sb, dev.disk)) && Log(g.lay, ring, lpa - journalStart, rest)
    modifies dev`disk, dev`history
    ensures ok && (committed <==> rest != [])
    ensures !committed ==> dev.disk == old(dev.disk) && dev.history == old(dev.history)
    ensures committed ==>
      && Link(Memory(sb, old(dev.disk)), rest[0], more, Memory(sb', dev.disk))
      && Belongs(g, ring, Memory(sb', dev.disk))
      && next == g.start + Forward(lpa - g.start, ScanTx(Rotate(ring, lpa - g.start)).blocks, g.size)
      && dev.history == old(dev.history) + more
  {
    hide Log, RingHolds, FateOf, ApplyEntries, ScanTx;
    ghost var pos, before := lpa - journalStart, dev.disk;
    ghost var rot := Rotate(ring, pos);
    ghost var fate := FateOf(Memory(sb, dev.disk), rot, 0);
    BelongsRing(g, ring, sb, dev.disk, pos);
    LogFate(g, ring, Memory(sb, dev.disk), pos, rest);
    ok, committed, next, sb', more := ReplayOneTransaction(dev, sb, lpa, journalStart, journalEnd, rot, fate);
    MemoryTail(sb, before);
    MemoryTail(sb', dev.disk);
  }

  /** The outer loop: replay every committed transaction, one after the other. It ends because the
      log is shorter than the ring. */
  method ReplayAll(dev: Device, base: Block, scanStart: nat, journalStart: nat, journalEnd: nat,
                   ghost g: Geometry, ghost ring: seq<Block>, ghost txs: seq<seq<Entry>>)
    returns (ok: bool, committedEnd: nat, sb: Block, ghost ms: seq<Image>, ghost batches: seq<seq<Write>>)
    requires journalStart == g.start && journalEnd == g.start + g.size && journalStart <= scanStart < journalEnd
    requires Belongs(g, ring, Memory(base, dev.disk)) && Log(g.lay, ring, scanStart - g.start, txs)
    requires LogBlocks(g.lay, ring, scanStart - g.start, txs) < g.size
    modifies dev`disk, dev`history
    ensures ok
    ensures committedEnd == g.start + Forward(scanStart - g.start, LogBlocks(g.lay, ring, scanStart - g.start, txs),
      g.size)
    ensures Chain(ms, txs, batches) && |batches| == |txs|
    ensures ms[0] == Memory(base, old(dev.disk)) && ms[|txs|] == Memory(sb, dev.disk)
    ensures dev.history == old(dev.history) + Flatten(batches)
  {
    hide Log, LogBlocks, Belongs, Chain, Forward, ScanTx, Flatten;
    ghost var pos0 := scanStart - g.start;
    ChainStart(g, ring, Memory(base, dev.disk), pos0, txs);
    ghost var total := LogBlocks(g.lay, ring, pos0, txs);
    ghost var rest, pos: nat, used: nat := txs, pos0, 0;
    batches, ms, sb, committedEnd := [], [Memory(base, dev.disk)], base, scanStart;
    while true
      invariant |batches| <= |txs| && rest == txs[|batches|..]
      invariant used <= total && committedEnd == g.start + pos && pos < g.size
      invariant pos == Forward(pos0, used, g.size)
      invariant Belongs(g, ring, Memory(sb, dev.disk)) && Log(g.lay, ring, pos, rest)
      invariant used + LogBlocks(g.lay, ring, pos, rest) == total < g.size
      invariant |ms| == |batches| + 1 && Chain(ms, txs, batches)
      invariant ms[0] == Memory(base, old(dev.disk)) && ms[|batches|] == Memory(sb, dev.disk)
      invariant dev.history == old(dev.history) + Flatten(batches)
      decreases |rest|
    {
      ghost var blocks := ScanTx(Rotate(ring, pos)).blocks;
      var committed, next, sb';
      ghost var more;
      ok, committed, next, sb', more := ReplayNext(dev, sb, committedEnd, journalStart, journalEnd, g, ring, rest);
      if !committed {
        LogAtEnd(g, ring, pos);
        break;
      }
      LogNext(g, ring, pos, rest, next - g.start);
      ForwardTwice(pos0, used, blocks, g.size);
      ChainExtend(ms, txs, batches, more, Memory(sb', dev.disk));
      batches, ms := batches + [more], ms + [Memory(sb', dev.disk)];
      sb, committedEnd, pos := sb', next, next - g.start;
      rest, used := rest[1..], used + blocks;
      ForwardMoves(pos0, used, g.size);
      if committedEnd == scanStart { break; }
    }
  }

  lemma ChainStart(g: Geometry, ring: seq<Block>, m: Image, pos: nat, txs: seq<seq<Entry>>)
    requires Belongs(g, ring, m) && pos < g.size
    ensures |ring| == g.size && Forward(pos, 0, g.size) == pos
    ensures Chain([m], txs, []) && Flatten([]) == []
  {
  }

  /** The scan comes back to its start only by going all the way round. */
  lemma ForwardMoves(pos: nat, k: nat, size: nat)
    requires pos < size && 0 < k < size
    ensures Forward(pos, k, size) != pos
  {
  }

  lemma LogAtEnd(g: Geometry, ring: seq<Block>, pos: nat)
    requires pos < |ring| && Log(g.lay, ring, pos, [])
    ensures LogBlocks(g.lay, ring, pos, []) == 0
  {
  }

  lemma ChainExtend(ms: seq<Image>, txs: seq<seq<Entry>>, batches: seq<seq<Write>>, more: seq<Write>, m: Image)
    requires Chain(ms, txs, batches) && |batches| < |txs|
    requires Link(ms[|batches|], txs[|batches|], more, m)
    ensures Chain(ms + [m], txs, batches + [more])
    ensures Flatten(batches + [more]) == Flatten(batches) + more
  {
    assert (batches + [more])[..|batches|] == batches;
    forall j | 0 <= j < |batches + [more]|
      ensures Link((ms + [m])[j], txs[j], (batches + [more])[j], (ms + [m])[j + 1])
    {
      if j < |batches| { assert Link(ms[j], txs[j], batches[j], ms[j + 1]); }
    }
  }

  /** Recovery at mount (comm_submit_fs_recover_from_db_request). On a formatted device it needs a
      replayable log to terminate; it leaves the recovered image and the ring empty behind the log,
      and every crash point before its last write is one that recovery repairs. */
  method RecoverFromDb(dev: Device, ghost txs: seq<seq<Entry>>) returns (ok: bool, ghost ws: seq<Write>)
    requires Formatted(dev.disk) ==> Replayable(dev.disk, txs)
    modifies dev
    ensures ok <==> Formatted(old(dev.disk))
    ensures !ok ==> dev.disk == old(dev.disk) && ws == []
    ensures ok ==>
      && dev.disk == Recovered(old(dev.disk), txs)
      && dev.journalStart == JournalStartOf(old(dev.disk)[0])
      && dev.journalEnd == dev.journalStart + JournalSizeOf(old(dev.disk)[0])
      && dev.journalHead == dev.journalTail == dev.journalStart + EndPos(old(dev.disk), txs)
      && ws != [] && WritesFit(|old(dev.disk)|, ws) && ApplyWrites(old(dev.disk), ws) == dev.disk
      && WritesFit(|old(dev.disk)|, ws[..|ws| - 1])
      && CrashSafe(old(dev.disk), ws[..|ws| - 1], LogUpdates(old(dev.disk), txs))
    ensures dev.history == old(dev.history) + ws
  {
    hide Log, LogBlocks, Belongs, Chain, Flatten, CrashSafe, LogUpdates, WithOffsets, GeometryOk, TableClear;
    ws := [];
    var base;
    ok, base := dev.ReadBlock(0);
    if !ok { return; }
    if Get32(base, OFF_MAGIC) != MAGIC { ok := false; return; }
    var journalStart, size := JournalStartOf(base), JournalSizeOf(base);
    if size == 0 { ok := false; return; }
    var scanStart := journalStart + Get16(base, OFF_JOURNAL_END) % size;
    ghost var disk, g := dev.disk, GeometryOf(base);
    MountedBelongs(disk);
    var end, sb;
    ghost var ms, batches;
    ok, end, sb, ms, batches := ReplayAll(dev, base, scanStart, journalStart, journalStart + size, g, RingOf(disk),
      txs);
    ws := Flatten(batches);
    ChainIsCrashSafe(disk, txs, ms, batches);
    ChainEnd(disk, txs, ms, batches, sb, dev.disk);
    MemoryTail(sb, dev.disk);
    SmallModulo(end - journalStart, size);
    var last := WithOffsets(sb, (end - journalStart) % size);
    ok := dev.WriteBlock(0, last);
    assert (ws + [Write(0, last)])[..|ws|] == ws;
    ws := ws + [Write(0, last)];
    dev.journalStart, dev.journalEnd := journalStart, journalStart + size;
    dev.journalHead, dev.journalTail := end, end;
  }
}
