/** Journal recovery (src/communication/comm_api.c): a transaction is read from the ring into an
    overlay of table blocks and reaches the device only when its END mark is met. */
module Recovery {
  import opened Wrappers
  import opened Bytes
  import opened JournalFormat
  import opened JournalScan
  import opened RedoLog
  import opened BlockDevice

  datatype OverlayBlock = OverlayBlock(lpa: nat, dirty: bool, data: Block)

  /** No overlay block is kept for LPA l. */
  ghost predicate NotKept(blocks: seq<OverlayBlock>, l: nat) {
    forall i :: 0 <= i < |blocks| ==> blocks[i].lpa != l
  }

  /** The overlay over the disk, with the super block in slot 0, amounts to memory m. */
  ghost predicate Overlays(sb: Block, blocks: seq<OverlayBlock>, disk: Image, m: Image) {
    && |m| == |disk| + 1 && m[0] == sb
    && (forall i :: 0 <= i < |blocks| ==> blocks[i].lpa < |disk| && m[blocks[i].lpa + 1] == blocks[i].data)
    && (forall i :: 0 <= i < |blocks| && !blocks[i].dirty ==> blocks[i].data == disk[blocks[i].lpa])
    && (forall i, j :: 0 <= i < j < |blocks| ==> blocks[i].lpa != blocks[j].lpa)
    && (forall l :: 0 <= l < |disk| && NotKept(blocks, l) ==> m[l + 1] == disk[l])
  }

  lemma OverlayUpdate(sb: Block, blocks: seq<OverlayBlock>, disk: Image, m: Image, idx: nat, off: nat, data: seq<Byte>)
    requires Overlays(sb, blocks, disk, m) && idx < |blocks| && off + |data| <= BLOCK_SIZE
    ensures var b := blocks[idx];
      Overlays(sb, blocks[idx := OverlayBlock(b.lpa, true, Splice(b.data, off, data))], disk,
               ApplyUpdate(m, Update(b.lpa + 1, off, data)))
  {
    var b := blocks[idx];
    var blocks' := blocks[idx := OverlayBlock(b.lpa, true, Splice(b.data, off, data))];
    var m' := ApplyUpdate(m, Update(b.lpa + 1, off, data));
    forall i | 0 <= i < |blocks'| ensures blocks'[i].lpa < |disk| && m'[blocks'[i].lpa + 1] == blocks'[i].data {
      assert blocks'[i].lpa == blocks[i].lpa;
    }
    forall l | 0 <= l < |disk| && NotKept(blocks', l) ensures m'[l + 1] == disk[l] {
      assert blocks'[idx].lpa != l;
      assert NotKept(blocks, l) by {
        forall i | 0 <= i < |blocks| ensures blocks[i].lpa != l { assert blocks'[i].lpa == blocks[i].lpa; }
      }
    }
  }

  lemma OverlayInsert(sb: Block, blocks: seq<OverlayBlock>, disk: Image, m: Image, lpa: nat)
    requires Overlays(sb, blocks, disk, m) && lpa < |disk| && NotKept(blocks, lpa)
    ensures Overlays(sb, [OverlayBlock(lpa, false, disk[lpa])] + blocks, disk, m)
  {
    var blocks' := [OverlayBlock(lpa, false, disk[lpa])] + blocks;
    forall l | 0 <= l < |disk| && NotKept(blocks', l) ensures m[l + 1] == disk[l] {
      assert NotKept(blocks, l) by {
        forall i | 0 <= i < |blocks| ensures blocks[i].lpa != l { assert blocks'[i + 1] == blocks[i]; }
      }
    }
  }

  /** Applying what is left of a block is applying its next record and then the rest. */
  lemma RecordStep(m: Image, b: Block, off: nat, k: Kind, len: nat, es: seq<Entry>, applied: Option<Image>)
    requires |m| > 0 && GoodLength(off, len) && len == Get16(b, off) && b[off + 2] == TypeByte(k)
    requires WholeEntries(k, len - HEADER_LEN) && es == PayloadEntries(b, off, k, len)
    requires applied == ApplyEntries(m, es)
    ensures ScanBlock(b, off).status == ScanBlock(b, off + len).status
    ensures applied.None? ==> ApplyEntries(m, ScanBlock(b, off).entries).None?
    ensures applied.Some? ==>
              ApplyEntries(m, ScanBlock(b, off).entries) == ApplyEntries(applied.value, ScanBlock(b, off + len).entries)
  {
    ScanStep(b, off, k, len);
    ApplyAppend(m, es, ScanBlock(b, off + len).entries);
  }

  /** Where the scan of a block ends without another record. */
  lemma RecordsEnd(m: Image, b: Block, off: nat)
    requires |m| > 0 && off <= BLOCK_SIZE
    ensures ApplyEntries(m, []) == Some(m)
    ensures off + HEADER_LEN > BLOCK_SIZE ==> ScanBlock(b, off) == BlockScan(More, [])
    ensures off + HEADER_LEN <= BLOCK_SIZE ==> var len, ty := Get16(b, off), b[off + 2];
      && (!GoodLength(off, len) ==> ScanBlock(b, off) == BlockScan(Stop, []))
      && (GoodLength(off, len) ==>
            && (ty <= 2 && !WholeEntries(KindOfType(ty), len - HEADER_LEN) ==> ScanBlock(b, off) == BlockScan(Stop, []))
            && (ty > 2 ==>
              ScanBlock(b, off) == BlockScan(if ty == TYPE_NOP then More
                else if ty == TYPE_END && len == HEADER_LEN then Commit else Stop, [])))
  {
  }

  /** Where the write-back of an overlay stands: its first i blocks are on the device now, and the writes
      ws, all of them blocks of m, led from disk to here. */
  ghost predicate Flushed(blocks: seq<OverlayBlock>, m: Image, disk: Image, now: Image, i: nat, ws: seq<Write>) {
    && i <= |blocks| && FlushedBlocks(blocks, disk, now, i) && FlushedWrites(m, disk, now, ws)
  }

  ghost predicate FlushedBlocks(blocks: seq<OverlayBlock>, disk: Image, now: Image, i: nat)
    requires i <= |blocks|
  {
    && |now| == |disk|
    && (forall j :: 0 <= j < i ==> blocks[j].lpa < |now| && now[blocks[j].lpa] == blocks[j].data)
    && (forall l :: 0 <= l < |disk| && NotKept(blocks[..i], l) ==> now[l] == disk[l])
  }

  ghost predicate FlushedWrites(m: Image, disk: Image, now: Image, ws: seq<Write>) {
    && |m| == |disk| + 1 && WritesFit(|disk|, ws) && ApplyWrites(disk, ws) == now
    && forall w :: w in ws ==> w.block == m[w.lpa + 1]
  }

  lemma FlushedBlocksNext(sb: Block, blocks: seq<OverlayBlock>, disk: Image, m: Image, now: Image, i: nat)
    requires Overlays(sb, blocks, disk, m) && i < |blocks| && FlushedBlocks(blocks, disk, now, i)
    ensures blocks[i].lpa < |disk| == |now|
    ensures FlushedBlocks(blocks, disk, if blocks[i].dirty then now[blocks[i].lpa := blocks[i].data] else now, i + 1)
  {
    var b := blocks[i];
    assert blocks[..i + 1] == blocks[..i] + [b];
    assert NotKept(blocks[..i], b.lpa);
    forall l | 0 <= l < |disk| && NotKept(blocks[..i + 1], l) ensures NotKept(blocks[..i], l) && l != b.lpa {
      assert blocks[..i + 1][i] == b;
      forall j | 0 <= j < i ensures blocks[..i][j].lpa != l { assert blocks[..i + 1][j] == blocks[..i][j]; }
    }
  }

  lemma FlushedWritesNext(m: Image, disk: Image, now: Image, ws: seq<Write>, lpa: nat)
    requires FlushedWrites(m, disk, now, ws) && lpa < |disk|
    ensures |now| == |disk| && FlushedWrites(m, disk, now[lpa := m[lpa + 1]], ws + [Write(lpa, m[lpa + 1])])
  {
    var ws' := ws + [Write(lpa, m[lpa + 1])];
    assert ws'[..|ws|] == ws;
    forall w | w in ws' ensures w.lpa < |disk| && w.block == m[w.lpa + 1] {
      if w !in ws { assert w == Write(lpa, m[lpa + 1]); }
    }
  }

  lemma FlushedNext(sb: Block, blocks: seq<OverlayBlock>, m: Image, disk: Image, now: Image, i: nat, ws: seq<Write>)
    requires Overlays(sb, blocks, disk, m) && i < |blocks| && Flushed(blocks, m, disk, now, i, ws)
    ensures blocks[i].lpa < |disk| == |now|
    ensures if blocks[i].dirty
            then Flushed(blocks, m, disk, now[blocks[i].lpa := blocks[i].data], i + 1,
              ws + [Write(blocks[i].lpa, blocks[i].data)])
            else Flushed(blocks, m, disk, now, i + 1, ws)
  {
    FlushedBlocksNext(sb, blocks, disk, m, now, i);
    assert m[blocks[i].lpa + 1] == blocks[i].data;
    hide FlushedBlocks, FlushedWrites, Overlays;
    FlushedWritesNext(m, disk, now, ws, blocks[i].lpa);
  }

  lemma FlushedAll(sb: Block, blocks: seq<OverlayBlock>, m: Image, disk: Image, now: Image, ws: seq<Write>)
    requires Overlays(sb, blocks, disk, m) && Flushed(blocks, m, disk, now, |blocks|, ws)
    ensures now == m[1..] && |now| == |disk| && WritesFit(|disk|, ws) && ApplyWrites(disk, ws) == now
    ensures forall w :: w in ws ==> w.block == now[w.lpa]
  {
    assert blocks[..|blocks|] == blocks;
    forall l | 0 <= l < |disk| ensures now[l] == m[1..][l] {
      if !NotKept(blocks, l) {
        var j :| 0 <= j < |blocks| && blocks[j].lpa == l;
      }
    }
  }

  lemma FlushedNone(sb: Block, blocks: seq<OverlayBlock>, m: Image, disk: Image)
    requires Overlays(sb, blocks, disk, m)
    ensures Flushed(blocks, m, disk, disk, 0, [])
  {
  }

  /** The transaction being replayed: its super block and the table blocks it has touched. */
  class TxState {
    var superBlock: Block
    var blocks: seq<OverlayBlock>

    ghost predicate Shows(m: Image, disk: Image)
      reads this
    {
      Overlays(superBlock, blocks, disk, m)
    }

    constructor (base: Block, ghost disk: Image)
      ensures Shows(Memory(base, disk), disk) && blocks == []
    {
      superBlock, blocks := base, [];
    }

    /** Find a block in the overlay, or read it in at the front of the list. */
    method GetBlock(dev: Device, lpa: nat, ghost m: Image) returns (ok: bool, idx: nat)
      requires Shows(m, dev.disk)
      modifies this`blocks
      ensures ok <==> lpa < |dev.disk|
      ensures Shows(m, dev.disk)
      ensures ok ==> idx < |blocks| && blocks[idx].lpa == lpa
    {
      idx := 0;
      while idx < |blocks|
        invariant idx <= |blocks| && forall i :: 0 <= i < idx ==> blocks[i].lpa != lpa
      {
        if blocks[idx].lpa == lpa { return true, idx; }
        idx := idx + 1;
      }
      var data;
      ok, data := dev.ReadBlock(lpa);
      idx := 0;
      if ok {
        OverlayInsert(superBlock, blocks, dev.disk, m, lpa);
        blocks := [OverlayBlock(lpa, false, data)] + blocks;
      }
    }

    /** Overwrite one table entry in the overlay. */
    method UpdateTable(dev: Device, lpa: nat, off: nat, data: seq<Byte>, ghost m: Image) returns (ok: bool)
      requires Shows(m, dev.disk) && off + |data| <= BLOCK_SIZE
      modifies this`blocks
      ensures ok <==> lpa < |dev.disk|
      ensures ok ==> Shows(ApplyUpdate(m, Update(lpa + 1, off, data)), dev.disk)
    {
      var idx;
      ok, idx := GetBlock(dev, lpa, m);
      if ok {
        OverlayUpdate(superBlock, blocks, dev.disk, m, idx, off, data);
        blocks := blocks[idx := OverlayBlock(lpa, true, Splice(blocks[idx].data, off, data))];
      }
    }

    /** Apply one journal entry to the overlay; not ok where the source answers EIO. */
    method ApplyOne(dev: Device, e: Entry, ghost m: Image) returns (ok: bool)
      requires Shows(m, dev.disk)
      modifies this
      ensures ok <==> ApplyEntry(m, e).Some?
      ensures ok ==> Shows(ApplyEntry(m, e).value, dev.disk)
    {
      match UpdateOf(LayoutOf(superBlock), e)
      case None =>
        ok := false;
      case Some(u) =>
        if u.slot == 0 {
          superBlock := Splice(superBlock, u.off, u.data);
          ok := true;
        } else {
          ok := UpdateTable(dev, u.slot - 1, u.off, u.data, m);
        }
    }

    /** Apply the entries of one record in order. */
    method ApplyRecord(dev: Device, es: seq<Entry>, ghost m: Image, ghost applied: Option<Image>) returns (ok: bool)
      requires Shows(m, dev.disk) && applied == ApplyEntries(m, es)
      modifies this
      ensures ok <==> applied.Some?
      ensures ok ==> Shows(applied.value, dev.disk)
    {
      var i := 0;
      ghost var cur := m;
      while i < |es|
        invariant i <= |es| && Shows(cur, dev.disk)
        invariant applied == ApplyEntries(cur, es[i..])
      {
        ok := ApplyOne(dev, es[i], cur);
        if !ok { return; }
        cur := ApplyEntry(cur, es[i]).value;
        i := i + 1;
      }
      ok := true;
    }

    /** The record at off: it is applied, or it ends the block. */
    method ReplayRecord(dev: Device, b: Block, off: nat, ghost cur: Image)
      returns (ok: bool, done: bool, status: Status, off': nat, ghost cur': Image)
      requires Shows(cur, dev.disk) && off + HEADER_LEN <= BLOCK_SIZE
      modifies this
      ensures !ok ==> ApplyEntries(cur, ScanBlock(b, off).entries).None?
      ensures ok && done ==> ScanBlock(b, off) == BlockScan(status, []) && Shows(cur, dev.disk)
      ensures ok && !done ==>
        && off < off' <= BLOCK_SIZE && |cur'| == |cur| && Shows(cur', dev.disk) &&
          ScanBlock(b, off').status == ScanBlock(b, off).status
        && ApplyEntries(cur', ScanBlock(b, off').entries) == ApplyEntries(cur, ScanBlock(b, off).entries)
    {
      assert |cur| > 0;
      RecordsEnd(cur, b, off);
      hide TxState.Shows, ScanBlock, ApplyEntries, PayloadEntries;
      ok, done, status, off', cur' := true, true, Stop, off, cur;
      var len, ty := Get16(b, off), b[off + 2];
      if !GoodLength(off, len) { return; }
      if ty <= 2 {
        var k := KindOfType(ty);
        if !WholeEntries(k, len - HEADER_LEN) { return; }
        var es := PayloadEntries(b, off, k, len);
        ghost var applied := ApplyEntries(cur, es);
        RecordStep(cur, b, off, k, len, es, applied);
        ok := ApplyRecord(dev, es, cur, applied);
        if ok { done, off', cur' := false, off + len, applied.value; }
      } else if ty == TYPE_NOP {
        status := More;
      } else if ty == TYPE_END && len == HEADER_LEN {
        status := Commit;
      }
    }

    /** Read one journal block, applying every record as it is met. */
    method ReplayBlock(dev: Device, b: Block, ghost m: Image, ghost scan: BlockScan) returns (ok: bool, status: Status)
      requires Shows(m, dev.disk) && scan == ScanBlock(b, 0)
      modifies this
      ensures ok <==> ApplyEntries(m, scan.entries).Some?
      ensures ok ==> status == scan.status
      ensures ok ==> Shows(ApplyEntries(m, scan.entries).value, dev.disk)
    {
      assert |m| > 0;
      hide *;
      var off := 0;
      ok := true;
      ghost var cur := m;
      ghost var goal := ApplyEntries(m, scan.entries);
      while off + HEADER_LEN <= BLOCK_SIZE
        invariant off <= BLOCK_SIZE && |cur| == |m| && Shows(cur, dev.disk) && ok
        invariant goal == ApplyEntries(cur, ScanBlock(b, off).entries)
        invariant scan.status == ScanBlock(b, off).status
        decreases BLOCK_SIZE - off
      {
        var done, next;
        RecordsEnd(cur, b, off);
        ok, done, status, next, cur := ReplayRecord(dev, b, off, cur);
        if !ok || done { return; }
        off := next;
      }
      RecordsEnd(cur, b, off);
      status := More;
    }

    /** Write the dirty overlay blocks to the device. */
    method CommitTx(dev: Device, ghost m: Image) returns (ghost ws: seq<Write>)
      requires Shows(m, dev.disk)
      modifies dev`disk, dev`history
      ensures dev.disk == m[1..]
      ensures WritesFit(|dev.disk|, ws) && dev.history == old(dev.history) + ws
      ensures ApplyWrites(old(dev.disk), ws) == dev.disk
      ensures forall w :: w in ws ==> w.block == dev.disk[w.lpa]
    {
      ws := [];
      ghost var disk := dev.disk;
      FlushedNone(superBlock, blocks, m, disk);
      assert Overlays(superBlock, blocks, disk, m);
      hide *;
      var i := 0;
      while i < |blocks|
        invariant i <= |blocks| && |dev.disk| == |disk| && Flushed(blocks, m, disk, dev.disk, i, ws)
        invariant dev.history == old(dev.history) + ws
      {
        FlushedNext(superBlock, blocks, m, disk, dev.disk, i, ws);
        if blocks[i].dirty {
          var _ := dev.WriteBlock(blocks[i].lpa, blocks[i].data);
          ws := ws + [Write(blocks[i].lpa, blocks[i].data)];
        }
        i := i + 1;
      }
      FlushedAll(superBlock, blocks, m, disk, dev.disk, ws);
    }
  }

  // ---- Reading the ring ----

  /** The ring read from position pos on. */
  ghost function Rotate(ring: seq<Block>, pos: nat): (r: seq<Block>)
    requires pos <= |ring|
    ensures |r| == |ring|
  {
    ring[pos..] + ring[..pos]
  }

  /** Position pos moved forward by k blocks. */
  function Forward(pos: nat, k: nat, size: nat): nat
    requires pos < size && k <= size
  {
    if pos + k < size then pos + k else pos + k - size
  }

  /** The k-th block in reading order stands at the forwarded position. */
  lemma RotateAt(ring: seq<Block>, pos: nat, k: nat)
    requires pos < |ring| && k < |ring|
    ensures Rotate(ring, pos)[k] == ring[Forward(pos, k, |ring|)]
  {
  }

  /** How a replay ends: with which memory (None: an entry was out of range), whether it
      commits, and after how many blocks. */
  datatype Fate = Fate(memory: Option<Image>, committed: bool, blocks: nat)

  /** The fate of replaying bs from its k-th block on, starting from memory m. */
  ghost function FateOf(m: Image, bs: seq<Block>, k: nat): (f: Fate)
    requires |m| > 0 && k <= |bs|
    ensures f.memory.Some? ==> |f.memory.value| == |m|
    ensures f.committed ==> f.memory.Some? && k < f.blocks <= |bs|
    decreases |bs| - k
  {
    if k == |bs| then Fate(Some(m), false, k)
    else
      var scan := ScanBlock(bs[k], 0);
      var applied := ApplyEntries(m, scan.entries);
      if applied.None? then Fate(None, false, k)
      else if scan.status == More then FateOf(applied.value, bs, k + 1)
      else Fate(applied, scan.status == Commit, k + 1)
  }

  /** Applying records as they are met is the same as reading the whole transaction first. */
  lemma {:induction false} FateIsScan(m: Image, bs: seq<Block>, k: nat)
    requires |m| > 0 && k <= |bs|
    ensures var f, scan := FateOf(m, bs, k), ScanTx(bs[k..]);
      && f.memory == ApplyEntries(m, scan.entries)
      && (f.committed <==> f.memory.Some? && scan.committed)
      && (f.committed ==> f.blocks == k + scan.blocks)
    decreases |bs| - k
  {
    if k < |bs| {
      var es := ScanBlock(bs[k], 0).entries;
      var applied := ApplyEntries(m, es);
      assert bs[k..][0] == bs[k] && bs[k..][1..] == bs[k + 1..];
      ApplyAppend(m, es, ScanTx(bs[k + 1..]).entries);
      if applied.Some? { FateIsScan(applied.value, bs, k + 1); }
    }
  }

  lemma MemoryOf(m: Image)
    requires |m| > 0
    ensures Memory(m[0], m[1..]) == m
  {
  }

  /** The device holds the blocks bs in ring order from position pos. */
  ghost predicate RingHolds(disk: Image, journalStart: nat, size: nat, pos: nat, bs: seq<Block>) {
    && pos < size && journalStart + size <= |disk| && |bs| == size
    && forall k :: 0 <= k < size ==> bs[k] == disk[journalStart + Forward(pos, k, size)]
  }

  lemma RingAt(disk: Image, journalStart: nat, size: nat, pos: nat, bs: seq<Block>, k: nat)
    requires RingHolds(disk, journalStart, size, pos, bs) && k < size
    ensures journalStart + Forward(pos, k, size) < |disk|
    ensures disk[journalStart + Forward(pos, k, size)] == bs[k]
  {
  }

  /** One step of a replay: what reading block k settles. */
  lemma FateStep(m: Image, bs: seq<Block>, k: nat, scan: BlockScan, applied: Option<Image>)
    requires |m| > 0 && k < |bs| && scan == ScanBlock(bs[k], 0) && applied == ApplyEntries(m, scan.entries)
    ensures applied.None? ==> FateOf(m, bs, k) == Fate(None, false, k)
    ensures applied.Some? && scan.status == More ==> FateOf(m, bs, k) == FateOf(applied.value, bs, k + 1)
    ensures applied.Some? && scan.status != More ==> FateOf(m, bs, k) == Fate(applied, scan.status == Commit, k + 1)
  {
  }

  lemma FateAtEnd(m: Image, bs: seq<Block>)
    requires |m| > 0
    ensures FateOf(m, bs, |bs|) == Fate(Some(m), false, |bs|)
  {
  }

  /** Read and replay the k-th block of a transaction. */
  method ReadJournalBlock(dev: Device, tx: TxState, lpa: nat, ghost m: Image, ghost bs: seq<Block>, ghost k: nat)
    returns (ok: bool, status: Status, ghost m': Image)
    requires tx.Shows(m, dev.disk) && k < |bs| && lpa < |dev.disk| && dev.disk[lpa] == bs[k]
    modifies tx
    ensures !ok ==> FateOf(m, bs, k) == Fate(None, false, k)
    ensures |m'| == |m| && (ok ==> tx.Shows(m', dev.disk))
    ensures ok && status == More ==> FateOf(m, bs, k) == FateOf(m', bs, k + 1)
    ensures ok && status != More ==> FateOf(m, bs, k) == Fate(Some(m'), status == Commit, k + 1)
  {
    var b;
    ok, b := dev.ReadBlock(lpa);
    ghost var scan := ScanBlock(b, 0);
    ghost var applied := ApplyEntries(m, scan.entries);
    FateStep(m, bs, k, scan, applied);
    ok, status := tx.ReplayBlock(dev, b, m, scan);
    m' := if ok then applied.value else m;
  }

  function NextLpa(lpa: nat, journalStart: nat, journalEnd: nat): nat {
    if lpa + 1 >= journalEnd then journalStart else lpa + 1
  }

  lemma ForwardStart(pos: nat, size: nat)
    requires pos < size
    ensures Forward(pos, 0, size) == pos
  {
  }

  lemma NextIsForward(journalStart: nat, journalEnd: nat, pos: nat, k: nat)
    requires journalStart + pos < journalEnd && k < journalEnd - journalStart
    ensures NextLpa(journalStart + Forward(pos, k, journalEnd - journalStart), journalStart, journalEnd)
         == journalStart + Forward(pos, k + 1, journalEnd - journalStart)
  {
  }

  /** One turn of the scan: the k-th block from pos on, and the step round the ring. */
  method ReadNext(dev: Device, tx: TxState, cur: nat, journalStart: nat, journalEnd: nat, ghost pos: nat,
                  ghost m: Image, ghost bs: seq<Block>, ghost k: nat)
    returns (ok: bool, status: Status, next: nat, ghost m': Image)
    requires journalStart < journalEnd && pos < journalEnd - journalStart == |bs| && k < |bs| && tx.Shows(m, dev.disk)
    requires RingHolds(dev.disk, journalStart, journalEnd - journalStart, pos, bs)
    requires cur == journalStart + Forward(pos, k, journalEnd - journalStart)
    modifies tx
    ensures next == journalStart + Forward(pos, k + 1, journalEnd - journalStart)
    ensures !ok ==> FateOf(m, bs, k) == Fate(None, false, k)
    ensures |m'| == |m| && (ok ==> tx.Shows(m', dev.disk))
    ensures ok && status == More ==> FateOf(m, bs, k) == FateOf(m', bs, k + 1)
    ensures ok && status != More ==> FateOf(m, bs, k) == Fate(Some(m'), status == Commit, k + 1)
  {
    hide *;
    RingAt(dev.disk, journalStart, journalEnd - journalStart, pos, bs, k);
    NextIsForward(journalStart, journalEnd, pos, k);
    ok, status, m' := ReadJournalBlock(dev, tx, cur, m, bs, k);
    next := NextLpa(cur, journalStart, journalEnd);
  }

  /** The scan of comm_recovery_replay_one_transaction: read blocks from startLpa into tx until the
      transaction ends, fails, or the whole ring has been read. */
  method ReadTransaction(dev: Device, tx: TxState, startLpa: nat, journalStart: nat, journalEnd: nat,
                         ghost m0: Image, ghost bs: seq<Block>, ghost fate: Fate)
    returns (ok: bool, committed: bool, endLpa: nat)
    requires journalStart <= startLpa < journalEnd && tx.Shows(m0, dev.disk)
    requires RingHolds(dev.disk, journalStart, journalEnd - journalStart, startLpa - journalStart, bs)
    requires fate == FateOf(m0, bs, 0)
    modifies tx
    ensures (ok <==> fate.memory.Some?) && committed == fate.committed
    ensures committed ==> tx.Shows(fate.memory.value, dev.disk)
    ensures committed ==> fate.blocks <= journalEnd - journalStart
    ensures committed ==> endLpa - journalStart ==
                            Forward(startLpa - journalStart, fate.blocks, journalEnd - journalStart)
  {
    hide FateOf, ScanBlock, ApplyEntries, NotKept;
    var size := journalEnd - journalStart;
    assert |m0| > 0 && |bs| == size;
    ForwardStart(startLpa - journalStart, size);
    hide *;
    ghost var pos, m := startLpa - journalStart, m0;
    var scanned, cur := 0, startLpa;
    while scanned < size
      invariant scanned <= size == |bs| && |m| == |m0| && tx.Shows(m, dev.disk)
      invariant cur == journalStart + Forward(pos, scanned, size)
      invariant fate == FateOf(m, bs, scanned)
    {
      var status;
      ok, status, cur, m := ReadNext(dev, tx, cur, journalStart, journalEnd, pos, m, bs, scanned);
      scanned := scanned + 1;
      if !ok || status != More {
        return ok, ok && status == Commit, cur;
      }
    }
    FateAtEnd(m, bs);
    ok, committed, endLpa := true, false, startLpa;
  }

  /** Replay of one transaction from startLpa. Nothing reaches the device unless an END mark is met. */
  method ReplayOneTransaction(dev: Device, base: Block, startLpa: nat, journalStart: nat, journalEnd: nat,
                              ghost bs: seq<Block>, ghost fate: Fate)
    returns (ok: bool, committed: bool, endLpa: nat, sb: Block, ghost ws: seq<Write>)
    requires journalStart <= startLpa < journalEnd
    requires RingHolds(dev.disk, journalStart, journalEnd - journalStart, startLpa - journalStart, bs)
    requires fate == FateOf(Memory(base, dev.disk), bs, 0)
    modifies dev`disk, dev`history
    ensures (ok <==> fate.memory.Some?) && committed == fate.committed
    ensures committed ==> Memory(sb, dev.disk) == fate.memory.value
    ensures committed ==> fate.blocks <= journalEnd - journalStart
    ensures committed ==> endLpa - journalStart ==
                            Forward(startLpa - journalStart, fate.blocks, journalEnd - journalStart)
    ensures !committed ==> dev.disk == old(dev.disk) && ws == []
    ensures WritesFit(|old(dev.disk)|, ws) && dev.history == old(dev.history) + ws
    ensures ApplyWrites(old(dev.disk), ws) == dev.disk
    ensures forall w :: w in ws ==> w.block == dev.disk[w.lpa]
  {
    var tx := new TxState(base, dev.disk);
    ok, committed, endLpa := ReadTransaction(dev, tx, startLpa, journalStart, journalEnd, Memory(base, dev.disk), bs,
      fate);
    sb, ws := tx.superBlock, [];
    if committed {
      MemoryOf(fate.memory.value);
      ws := tx.CommitTx(dev, fate.memory.value);
    }
  }
}
