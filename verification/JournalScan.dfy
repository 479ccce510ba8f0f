/** What recovery reads out of the journal ring: the grammar that
    comm_recovery_replay_one_transaction accepts, as a function of the bytes. */
module JournalScan {
  import opened Bytes
  import opened JournalFormat

  /** How reading a block ends: the scan gives up, an END mark was met, or the block is exhausted. */
  datatype Status = Stop | Commit | More

  /** What one block contributes to the transaction being read. */
  datatype BlockScan = BlockScan(status: Status, entries: seq<Entry>)

  function Prepend(es: seq<Entry>, r: BlockScan): BlockScan {
    BlockScan(r.status, es + r.entries)
  }

  lemma PrependLaws(xs: seq<Entry>, ys: seq<Entry>, r: BlockScan)
    ensures Prepend([], r) == r
    ensures Prepend(xs, Prepend(ys, r)) == Prepend(xs + ys, r)
  {
    assert [] + r.entries == r.entries;
    assert xs + (ys + r.entries) == xs + ys + r.entries;
  }

  function KindOfType(ty: Byte): (k: Kind)
    requires ty <= 2
    ensures TypeByte(k) == ty
  {
    if ty == 0 then Nats else if ty == 1 then Sits else Super
  }

  predicate GoodLength(off: nat, len: nat) {
    HEADER_LEN <= len && off + len <= BLOCK_SIZE
  }

  /** The inner loop of the replay, from byte off of block b. */
  function ScanBlock(b: Block, off: nat): BlockScan
    requires off <= BLOCK_SIZE
    decreases BLOCK_SIZE - off
  {
    if off + HEADER_LEN > BLOCK_SIZE then BlockScan(More, [])
    else
      var len, ty := Get16(b, off), b[off + 2];
      if !GoodLength(off, len) then BlockScan(Stop, [])
      else if ty <= 2 then
        var k := KindOfType(ty);
        if !WholeEntries(k, len - HEADER_LEN) then BlockScan(Stop, [])
        else Prepend(PayloadEntries(b, off, k, len), ScanBlock(b, off + len))
      else if ty == TYPE_NOP then BlockScan(More, [])
      else if ty == TYPE_END && len == HEADER_LEN then BlockScan(Commit, [])
      else BlockScan(Stop, [])
  }

  /** The entries of the record of length len at off. */
  function PayloadEntries(b: Block, off: nat, k: Kind, len: nat): seq<Entry>
    requires GoodLength(off, len) && WholeEntries(k, len - HEADER_LEN)
  {
    DecodeAll(k, b[off + HEADER_LEN..off + len], PackedCount(k, len - HEADER_LEN))
  }

  /** The outcome of reading one transaction from a run of blocks. */
  datatype TxScan = TxScan(committed: bool, entries: seq<Entry>, blocks: nat)

  /** The outer loop of the replay over the blocks in ring order. blocks counts what was read
      up to and including the block with the END mark. */
  function ScanTx(bs: seq<Block>): (r: TxScan)
    ensures r.committed ==> 0 < r.blocks <= |bs|
  {
    if bs == [] then TxScan(false, [], 0)
    else
      match ScanBlock(bs[0], 0)
      case BlockScan(Stop, es) => TxScan(false, es, 0)
      case BlockScan(Commit, es) => TxScan(true, es, 1)
      case BlockScan(More, es) =>
        var r := ScanTx(bs[1..]);
        TxScan(r.committed, es + r.entries, r.blocks + 1)
  }

  /** A transaction image: the whole of bs is read before the END mark is met. */
  ghost predicate IsImage(bs: seq<Block>, es: seq<Entry>) {
    bs != [] && ScanTx(bs) == TxScan(true, es, |bs|)
  }

  // ---- A data record is read back as its entries ----

  lemma ScanStep(b: Block, off: nat, k: Kind, len: nat)
    requires GoodLength(off, len) && Get16(b, off) == len && b[off + 2] == TypeByte(k)
    requires WholeEntries(k, len - HEADER_LEN)
    ensures ScanBlock(b, off) == Prepend(PayloadEntries(b, off, k, len), ScanBlock(b, off + len))
  {
    assert KindOfType(b[off + 2]) == k;
  }

  lemma ScanRecord(b: Block, off: nat, k: Kind, es: seq<Entry>)
    requires Fits(k, es) && off + |RecordBytes(k, es)| <= BLOCK_SIZE
    requires b[off..off + |RecordBytes(k, es)|] == RecordBytes(k, es)
    ensures ScanBlock(b, off) == Prepend(es, ScanBlock(b, off + |RecordBytes(k, es)|))
  {
    RecordHeader(b, off, k, es);
    RecordPayload(b, off, k, es);
    ScanStep(b, off, k, |RecordBytes(k, es)|);
  }

  lemma RecordHeader(b: Block, off: nat, k: Kind, es: seq<Entry>)
    requires Fits(k, es) && off + |RecordBytes(k, es)| <= BLOCK_SIZE
    requires b[off..off + |RecordBytes(k, es)|] == RecordBytes(k, es)
    ensures Get16(b, off) == |RecordBytes(k, es)| && b[off + 2] == TypeByte(k)
  {
    var rec := RecordBytes(k, es);
    assert b[off + 2] == b[off..off + |rec|][2];
    assert b[off..off + 2] == b[off..off + |rec|][..2] == Le16(|rec|) == Le16(|rec|)[0..2];
    SameBytesSameValue(b, off, Le16(|rec|), 0, 2);
  }

  lemma RecordPayload(b: Block, off: nat, k: Kind, es: seq<Entry>)
    requires Fits(k, es) && off + |RecordBytes(k, es)| <= BLOCK_SIZE
    requires b[off..off + |RecordBytes(k, es)|] == RecordBytes(k, es)
    ensures WholeEntries(k, |RecordBytes(k, es)| - HEADER_LEN)
    ensures PayloadEntries(b, off, k, |RecordBytes(k, es)|) == es
  {
    CountOfPacked(k, |es|);
    DecodeEncodeAll(k, es);
    TailOfSlice(b, off, HEADER_LEN, RecordBytes(k, es));
    assert RecordBytes(k, es)[HEADER_LEN..] == EncodeAll(k, es);
  }

  lemma TailOfSlice(b: seq<Byte>, off: nat, skip: nat, s: seq<Byte>)
    requires skip <= |s| && off + |s| <= |b| && b[off..off + |s|] == s
    ensures b[off + skip..off + |s|] == s[skip..]
  {
  }

  /** A header alone, as NOP and END use it. */
  lemma MarkHeader(b: Block, off: nat, len: U16, ty: Byte)
    requires off + HEADER_LEN <= BLOCK_SIZE
    requires b[off..off + HEADER_LEN] == Header(len, ty)
    ensures Get16(b, off) == len && b[off + 2] == ty
  {
    assert b[off + 2] == b[off..off + HEADER_LEN][2];
    assert b[off..off + 2] == b[off..off + HEADER_LEN][..2] == Le16(len) == Le16(len)[0..2];
    SameBytesSameValue(b, off, Le16(len), 0, 2);
  }

  /** Whatever follows a NOP header is skipped. */
  lemma ScanNop(b: Block, off: nat)
    requires off + HEADER_LEN <= BLOCK_SIZE
    requires b[off..off + HEADER_LEN] == Header(BLOCK_SIZE - off, TYPE_NOP)
    ensures ScanBlock(b, off) == BlockScan(More, [])
  {
    MarkHeader(b, off, BLOCK_SIZE - off, TYPE_NOP);
  }

  lemma ScanEnd(b: Block, off: nat)
    requires off + HEADER_LEN <= BLOCK_SIZE
    requires b[off..off + HEADER_LEN] == Header(HEADER_LEN, TYPE_END)
    ensures ScanBlock(b, off) == BlockScan(Commit, [])
  {
    MarkHeader(b, off, HEADER_LEN, TYPE_END);
  }

  // ---- Whole transactions ----

  /** Blocks after the image are never looked at. */
  lemma {:induction false} ImageThenAnything(bs: seq<Block>, es: seq<Entry>, rest: seq<Block>)
    requires IsImage(bs, es)
    ensures ScanTx(bs + rest) == TxScan(true, es, |bs|)
  {
    assert (bs + rest)[0] == bs[0] && (bs + rest)[1..] == bs[1..] + rest;
    if |bs| > 1 {
      ImageThenAnything(bs[1..], ScanTx(bs[1..]).entries, rest);
    }
  }

  /** What a crash can leave of an image in a zeroed part of the ring: each block is there or still zero. */
  ghost predicate Survives(bs: seq<Block>, left: seq<Block>) {
    |left| == |bs| && forall i :: 0 <= i < |bs| ==> left[i] == bs[i] || left[i] == ZeroBlock()
  }

  lemma ZeroBlockStops()
    ensures ScanBlock(ZeroBlock(), 0) == BlockScan(Stop, [])
  {
    assert LeValue(ZeroBlock(), 2, 0) == 0 && LeValue(ZeroBlock(), 1, 1) == 0;
  }

  /** A torn transaction is never committed: if any block of the image is missing, the scan gives up. */
  lemma {:induction false} TornImageStops(bs: seq<Block>, es: seq<Entry>, left: seq<Block>, rest: seq<Block>)
    requires IsImage(bs, es) && Survives(bs, left) && left != bs
    ensures !ScanTx(left + rest).committed
    ensures ScanTx(left + rest).entries <= es
  {
    var all := left + rest;
    assert all[0] == left[0] && all[1..] == left[1..] + rest;
    ZeroBlockStops();
    if left[0] == bs[0] {
      assert left == [left[0]] + left[1..] && bs == [bs[0]] + bs[1..];
      assert left[1..] != bs[1..];
      TornImageStops(bs[1..], ScanTx(bs[1..]).entries, left[1..], rest);
    }
  }
}
