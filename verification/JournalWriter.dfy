/** Packing a transaction into 4 KB journal blocks (src/journal/journal_writer.c). */
module JournalPacking {
  import opened Bytes
  import opened JournalFormat
  import opened JournalScan

  /** c entries either fill the buffer exactly or leave at least a header's worth of room. */
  predicate LeavesRoom(bufferSize: nat, entrySize: nat, c: nat) {
    || HEADER_LEN + c * entrySize == bufferSize
    || HEADER_LEN + c * entrySize + HEADER_LEN <= bufferSize
  }

  /** How many of the expected entries to write now. The termination measure is 1 or 0, so the
      recursion is at most one deep. */
  function WritableEntryNum(bufferSize: nat, entrySize: nat, expected: nat): (r: nat)
    requires entrySize > 0
    ensures r <= expected
    decreases if HEADER_LEN + expected * entrySize > bufferSize then 1 else 0
  {
    var expectedLen := HEADER_LEN + expected * entrySize;
    if expectedLen < bufferSize then
      if bufferSize - expectedLen >= HEADER_LEN then expected
      else if bufferSize > 2 * HEADER_LEN then
        QuotientBound(bufferSize - 2 * HEADER_LEN, entrySize, expected);
        (bufferSize - 2 * HEADER_LEN) / entrySize
      else 0
    else if expectedLen == bufferSize then expected
    else if bufferSize < HEADER_LEN then 0
    else
      QuotientBound(bufferSize - HEADER_LEN, entrySize, expected);
      WritableEntryNum(bufferSize, entrySize, (bufferSize - HEADER_LEN) / entrySize)
  }

  /** a / d is the largest q with q * d <= a. */
  lemma QuotientBound(a: nat, d: nat, c: nat)
    requires d > 0
    ensures (a / d) * d <= a
    ensures c * d <= a <==> c <= a / d
  {
    var q := a / d;
    assert a == q * d + a % d;
    if c <= q {
      assert c * d <= q * d;
    } else {
      assert c * d >= (q + 1) * d == q * d + d;
    }
  }

  /** The count is the largest that fills the buffer exactly or leaves room for a header; it is
      zero only when not even one entry does. */
  lemma WritableEntryNumIsLargest(bufferSize: nat, entrySize: nat, expected: nat)
    requires entrySize > 0
    ensures var r := WritableEntryNum(bufferSize, entrySize, expected);
      && (r > 0 ==> LeavesRoom(bufferSize, entrySize, r))
      && forall c :: r < c <= expected ==> !LeavesRoom(bufferSize, entrySize, c)
    decreases if HEADER_LEN + expected * entrySize > bufferSize then 1 else 0
  {
    var r := WritableEntryNum(bufferSize, entrySize, expected);
    var expectedLen := HEADER_LEN + expected * entrySize;
    if expectedLen > bufferSize && bufferSize >= HEADER_LEN {
      QuotientBound(bufferSize - HEADER_LEN, entrySize, expected);
      WritableEntryNumIsLargest(bufferSize, entrySize, (bufferSize - HEADER_LEN) / entrySize);
    }
    forall c: nat | r < c <= expected ensures !LeavesRoom(bufferSize, entrySize, c) {
      MulMonotone(c, expected, entrySize);
      if expectedLen > bufferSize && bufferSize >= HEADER_LEN {
        QuotientBound(bufferSize - HEADER_LEN, entrySize, c);
      } else if bufferSize >= 2 * HEADER_LEN {
        QuotientBound(bufferSize - 2 * HEADER_LEN, entrySize, c);
        if c < expected { MulMonotone(c + 1, expected, entrySize); }
      }
    }
    if bufferSize > 2 * HEADER_LEN {
      QuotientBound(bufferSize - 2 * HEADER_LEN, entrySize, r);
    }
  }

  lemma MulMonotone(a: nat, b: nat, d: nat)
    requires a <= b
    ensures a * d <= b * d
  {
  }

  // ---- The bytes of an open block ----

  datatype Record = Record(kind: Kind, entries: seq<Entry>)

  ghost predicate AllFit(recs: seq<Record>) {
    forall r :: r in recs ==> Fits(r.kind, r.entries)
  }

  ghost function Serial(recs: seq<Record>): seq<Byte>
    requires AllFit(recs)
  {
    if recs == [] then []
    else
      var last := recs[|recs| - 1];
      Serial(recs[..|recs| - 1]) + RecordBytes(last.kind, last.entries)
  }

  ghost function Flat(recs: seq<Record>): seq<Entry> {
    if recs == [] then [] else Flat(recs[..|recs| - 1]) + recs[|recs| - 1].entries
  }

  lemma SerialAppend(recs: seq<Record>, r: Record)
    requires AllFit(recs) && Fits(r.kind, r.entries)
    ensures AllFit(recs + [r])
    ensures Serial(recs + [r]) == Serial(recs) + RecordBytes(r.kind, r.entries)
    ensures Flat(recs + [r]) == Flat(recs) + r.entries
  {
    assert (recs + [r])[..|recs|] == recs;
  }

  /** A block that starts with serialized records reads as their entries and then whatever follows. */
  lemma {:induction false} ScanSerial(b: Block, recs: seq<Record>)
    requires AllFit(recs) && |Serial(recs)| <= BLOCK_SIZE && b[..|Serial(recs)|] == Serial(recs)
    ensures ScanBlock(b, 0) == Prepend(Flat(recs), ScanBlock(b, |Serial(recs)|))
  {
    hide ScanBlock;
    if recs == [] {
      PrependLaws([], [], ScanBlock(b, 0));
    } else {
      var init, last := recs[..|recs| - 1], recs[|recs| - 1];
      var o, bytes := |Serial(init)|, RecordBytes(last.kind, last.entries);
      assert b[..o] == Serial(init) && b[o..o + |bytes|] == bytes by {
        assert b[..o] == b[..|Serial(recs)|][..o];
        assert b[o..o + |bytes|] == b[..|Serial(recs)|][o..];
      }
      ScanSerial(b, init);
      ScanRecord(b, o, last.kind, last.entries);
      PrependLaws(Flat(init), last.entries, ScanBlock(b, o + |bytes|));
    }
  }

  // ---- A run of full blocks ----

  ghost predicate AllMore(bs: seq<Block>) {
    forall i :: 0 <= i < |bs| ==> ScanBlock(bs[i], 0).status == More
  }

  ghost function RunEntries(bs: seq<Block>): seq<Entry> {
    if bs == [] then [] else RunEntries(bs[..|bs| - 1]) + ScanBlock(bs[|bs| - 1], 0).entries
  }

  lemma RunGrows(bs: seq<Block>, idx: nat, es: seq<Entry>)
    requires idx < |bs| && AllMore(bs[..idx]) && ScanBlock(bs[idx], 0) == BlockScan(More, es)
    ensures AllMore(bs[..idx + 1]) && RunEntries(bs[..idx + 1]) == RunEntries(bs[..idx]) + es
  {
    assert bs[..idx + 1][..idx] == bs[..idx];
  }

  /** Full blocks hand their entries to the transaction that continues after them. */
  lemma {:induction false} ScanRun(bs: seq<Block>, rest: seq<Block>)
    requires AllMore(bs)
    ensures var r := ScanTx(rest);
      ScanTx(bs + rest) == TxScan(r.committed, RunEntries(bs) + r.entries, |bs| + r.blocks)
  {
    if bs == [] {
      assert bs + rest == rest;
    } else {
      var init, last := bs[..|bs| - 1], bs[|bs| - 1];
      assert bs + rest == init + ([last] + rest);
      assert ([last] + rest)[1..] == rest;
      ScanRun(init, [last] + rest);
      Assoc(RunEntries(init), ScanBlock(last, 0).entries, ScanTx(rest).entries);
    }
  }

  /** Full blocks followed by a block with an END mark form a transaction image. */
  lemma ImageOfRun(bs: seq<Block>, last: Block, es: seq<Entry>)
    requires AllMore(bs) && ScanBlock(last, 0) == BlockScan(Commit, es)
    ensures IsImage(bs + [last], RunEntries(bs) + es)
  {
    ScanRun(bs, [last]);
  }

  /** The first off bytes of b are serialized records that carry exactly es. */
  ghost predicate Open(b: Block, off: nat, es: seq<Entry>) {
    exists recs :: Written(b, off, es, recs)
  }

  ghost predicate Written(b: Block, off: nat, es: seq<Entry>, recs: seq<Record>) {
    AllFit(recs) && |Serial(recs)| == off <= BLOCK_SIZE && b[..off] == Serial(recs) && Flat(recs) == es
  }

  lemma OpenEmpty(b: Block)
    ensures Open(b, 0, [])
  {
    assert Written(b, 0, [], []);
  }

  /** Writing at or after off does not disturb the records before it. */
  lemma OpenKept(b: Block, b': Block, off: nat, es: seq<Entry>)
    requires Open(b, off, es) && off <= BLOCK_SIZE && b'[..off] == b[..off]
    ensures Open(b', off, es)
  {
    var recs :| Written(b, off, es, recs);
    assert Written(b', off, es, recs);
  }

  lemma PrefixGrows(b: seq<Byte>, pre: seq<Byte>, more: seq<Byte>)
    requires |pre| + |more| <= |b| && b[..|pre|] == pre && b[|pre|..|pre| + |more|] == more
    ensures b[..|pre| + |more|] == pre + more
  {
  }

  lemma OpenAppend(b: Block, off: nat, es: seq<Entry>, k: Kind, more: seq<Entry>)
    requires Open(b, off, es) && Fits(k, more) && off + |RecordBytes(k, more)| <= BLOCK_SIZE
    requires b[off..off + |RecordBytes(k, more)|] == RecordBytes(k, more)
    ensures Open(b, off + |RecordBytes(k, more)|, es + more)
  {
    var recs :| Written(b, off, es, recs);
    SerialAppend(recs, Record(k, more));
    PrefixGrows(b, Serial(recs), RecordBytes(k, more));
    assert Written(b, off + |RecordBytes(k, more)|, es + more, recs + [Record(k, more)]);
  }

  lemma OpenScan(b: Block, off: nat, es: seq<Entry>)
    requires Open(b, off, es) && off <= BLOCK_SIZE
    ensures ScanBlock(b, 0) == Prepend(es, ScanBlock(b, off))
  {
    var recs :| Written(b, off, es, recs);
    ScanSerial(b, recs);
  }

  /** The three ways in which a block is completed: full, padded with NOP, ended by END. */
  lemma FullBlock(b: Block, es: seq<Entry>)
    requires Open(b, BLOCK_SIZE, es)
    ensures ScanBlock(b, 0) == BlockScan(More, es)
  {
    OpenScan(b, BLOCK_SIZE, es);
    assert es + [] == es;
  }

  lemma NopBlock(b: Block, off: nat, es: seq<Entry>)
    requires Open(b, off, es) && off + HEADER_LEN <= BLOCK_SIZE
    requires b[off..off + HEADER_LEN] == Header(BLOCK_SIZE - off, TYPE_NOP)
    ensures ScanBlock(b, 0) == BlockScan(More, es)
  {
    OpenScan(b, off, es);
    ScanNop(b, off);
    assert es + [] == es;
  }

  lemma EndBlock(b: Block, off: nat, es: seq<Entry>)
    requires Open(b, off, es) && off + HEADER_LEN <= BLOCK_SIZE
    requires b[off..off + HEADER_LEN] == Header(HEADER_LEN, TYPE_END)
    ensures ScanBlock(b, 0) == BlockScan(Commit, es)
  {
    OpenScan(b, off, es);
    ScanEnd(b, off);
    assert es + [] == es;
  }

  lemma TakeNext(bs: seq<Block>, idx: nat)
    requires idx < |bs|
    ensures bs[..idx + 1] == bs[..idx] + [bs[idx]]
  {
  }

  /** The END mark turns the blocks written so far into a transaction image. */
  lemma EndImage(buffers: seq<Block>, idx: nat, off: nat, es: seq<Entry>)
    requires idx < |buffers| && AllMore(buffers[..idx])
    requires Open(buffers[idx], off, es) && off + HEADER_LEN <= BLOCK_SIZE
    requires buffers[idx][off..off + HEADER_LEN] == Header(HEADER_LEN, TYPE_END)
    ensures IsImage(buffers[..idx + 1], RunEntries(buffers[..idx]) + es)
  {
    TakeNext(buffers, idx);
    EndBlock(buffers[idx], off, es);
    ImageOfRun(buffers[..idx], buffers[idx], es);
  }

  /** In a journal block the count leaves the tail inside the block; it is positive in a fresh one. */
  lemma WritableFits(off: nat, k: Kind, expected: nat)
    requires off < BLOCK_SIZE && 0 < expected
    ensures var n := WritableEntryNum(BLOCK_SIZE - off, EntrySize(k), expected);
      && (n > 0 ==> off + HEADER_LEN + PackedSize(k, n) <= BLOCK_SIZE)
      && (off == 0 ==> n > 0)
  {
    var n := WritableEntryNum(BLOCK_SIZE - off, EntrySize(k), expected);
    WritableEntryNumIsLargest(BLOCK_SIZE - off, EntrySize(k), expected);
    PackedSizeIsProduct(k, n);
    assert off == 0 ==> LeavesRoom(BLOCK_SIZE - off, EntrySize(k), 1);
  }

  lemma Assoc(x: seq<Entry>, y: seq<Entry>, z: seq<Entry>)
    ensures x + y + z == x + (y + z)
  {
  }

  // ---- The writer ----

  datatype OutputState = OutputOk | NoEnoughBuffer | ReachEnd

  class JournalWriter {
    var buffers: seq<Block>   // the buffer blocks, reused from one transaction to the next without clearing
    var tailIdx: nat
    var tailOff: nat
    ghost var words: nat             // tailOff in 32-bit words
    ghost var open: seq<Entry>       // the entries already in block tailIdx
    ghost var closed: seq<Entry>     // the entries in the blocks before it

    ghost predicate Valid()
      reads this
    {
      && tailIdx <= |buffers| && tailOff < BLOCK_SIZE && tailOff == 4 * words
      && (tailIdx == |buffers| ==> tailOff == 0 && open == [])
      && (tailIdx < |buffers| ==> Open(buffers[tailIdx], tailOff, open))
      && AllMore(buffers[..tailIdx])
      && closed == RunEntries(buffers[..tailIdx])
    }

    constructor ()
      ensures Valid() && buffers == []
    {
      buffers, tailIdx, tailOff := [], 0, 0;
      words, open, closed := 0, [], [];
    }

    /** Make block tailIdx exist; a fresh buffer has unspecified contents. */
    method EnsureBuffer()
      requires Valid()
      modifies this`buffers
      ensures Valid() && tailIdx < |buffers|
    {
      if tailIdx == |buffers| {
        var raw: Block := *;
        OpenEmpty(raw);
        assert (buffers + [raw])[..tailIdx] == buffers[..tailIdx];
        buffers := buffers + [raw];
      }
    }

    /** Overwrite bytes of the tail block at or after tailOff. */
    method Put(data: seq<Byte>)
      requires Valid() && tailIdx < |buffers| && tailOff + |data| <= BLOCK_SIZE
      modifies this`buffers
      ensures Valid() && |buffers| == |old(buffers)|
      ensures buffers[tailIdx][tailOff..tailOff + |data|] == data
    {
      var b := Splice(buffers[tailIdx], tailOff, data);
      OpenKept(buffers[tailIdx], b, tailOff, open);
      assert buffers[tailIdx := b][..tailIdx] == buffers[..tailIdx];
      buffers := buffers[tailIdx := b];
    }

    /** Write as many of the remaining entries as fit into the tail block. */
    method OutputToBuffer(k: Kind, rest: seq<Entry>) returns (state: OutputState, n: nat)
      requires Valid() && tailIdx < |buffers| && AllOfKind(k, rest)
      modifies this`buffers
      ensures Valid() && tailIdx < |buffers|
      ensures state == ReachEnd <==> rest == []
      ensures state == NoEnoughBuffer ==> tailOff > 0
      ensures state == OutputOk ==> 0 < n <= |rest| && Fits(k, rest[..n]) && Holds(k, rest[..n])
    {
      hide Open, AllMore, RunEntries, RecordBytes, WritableEntryNum;
      n := 0;
      if rest == [] { return ReachEnd, 0; }
      n := WritableEntryNum(BLOCK_SIZE - tailOff, EntrySize(k), |rest|);
      WritableFits(tailOff, k, |rest|);
      if n == 0 { return NoEnoughBuffer, 0; }
      assert AllOfKind(k, rest[..n]);
      Put(RecordBytes(k, rest[..n]));
      state := OutputOk;
    }

    /** The record stands at the tail of the open block. */
    ghost predicate Holds(k: Kind, es: seq<Entry>)
      requires Fits(k, es)
      reads this
    {
      var bytes := RecordBytes(k, es);
      && tailIdx < |buffers| && tailOff + |bytes| <= BLOCK_SIZE
      && buffers[tailIdx][tailOff..tailOff + |bytes|] == bytes
    }

    /** Account for a record that OutputToBuffer has written; move on when the block is full. */
    method Advance(k: Kind, es: seq<Entry>)
      requires Valid() && Fits(k, es) && Holds(k, es)
      modifies this`tailIdx, this`tailOff, this`words, this`open, this`closed
      ensures Valid() && closed + open == old(closed + open) + es
    {
      hide Open, AllMore, RunEntries, RecordBytes, ScanBlock;
      OpenAppend(buffers[tailIdx], tailOff, open, k, es);
      Assoc(closed, open, es);
      tailOff, words := tailOff + HEADER_LEN + PackedSize(k, |es|), words + 1 + PackedWords(k, |es|);
      open := open + es;
      if tailOff == BLOCK_SIZE {
        FullBlock(buffers[tailIdx], open);
        CloseBlock();
      }
    }

    /** The tail block is complete: continue in the next one. */
    method CloseBlock()
      requires tailIdx < |buffers|
      requires AllMore(buffers[..tailIdx]) && closed == RunEntries(buffers[..tailIdx])
      requires ScanBlock(buffers[tailIdx], 0) == BlockScan(More, open)
      modifies this`tailIdx, this`tailOff, this`words, this`open, this`closed
      ensures Valid() && tailOff == 0 && closed + open == old(closed + open)
    {
      RunGrows(buffers, tailIdx, open);
      tailIdx, tailOff := tailIdx + 1, 0;
      words, open, closed := 0, [], closed + open;
      if tailIdx < |buffers| { OpenEmpty(buffers[tailIdx]); }
    }

    /** No entry fits any more: pad the block with a NOP header; there is always room for one. */
    method FillWithNop()
      requires Valid() && tailIdx < |buffers|
      modifies this`buffers, this`tailIdx, this`tailOff, this`words, this`open, this`closed
      ensures Valid() && tailOff == 0 && closed + open == old(closed + open)
    {
      hide Open, AllMore, RunEntries, ScanBlock;
      var header := Header(BLOCK_SIZE - tailOff, TYPE_NOP);
      Put(header);
      assert |header| == HEADER_LEN;
      NopBlock(buffers[tailIdx], tailOff, open);
      CloseBlock();
    }

    /** The collection loop for one journal type. It terminates because a fresh block always
        takes at least one entry. */
    method CollectSection(k: Kind, es: seq<Entry>)
      requires Valid() && AllOfKind(k, es)
      modifies this
      ensures Valid() && closed + open == old(closed + open) + es
    {
      var rest := es;
      var complete := false;
      while !complete
        invariant Valid() && AllOfKind(k, rest)
        invariant closed + open + rest == old(closed + open) + es
        invariant complete ==> rest == []
        decreases !complete, |rest|, tailOff > 0
      {
        EnsureBuffer();
        var state, n := OutputToBuffer(k, rest);
        match state {
          case OutputOk =>
            ghost var soFar := closed + open;
            Advance(k, rest[..n]);
            assert rest == rest[..n] + rest[n..];
            Assoc(soFar, rest[..n], rest[n..]);
            rest := rest[n..];
          case NoEnoughBuffer =>
            FillWithNop();
          case ReachEnd =>
            complete := true;
        }
      }
    }

    /** Put the END mark; there is always room for it. */
    method AppendEnd()
      requires Valid() && tailIdx < |buffers|
      modifies this`buffers
      ensures |buffers| == |old(buffers)|
      ensures IsImage(buffers[..tailIdx + 1], closed + open)
    {
      Put(Header(HEADER_LEN, TYPE_END));
      EndImage(buffers, tailIdx, tailOff, open);
    }

    /** Collect a whole transaction: the blocks written are an image of exactly the given entries
        in super, NAT, SIT order, whatever the buffers held before. */
    method CollectPendingJournal(supers: seq<Entry>, nats: seq<Entry>, sits: seq<Entry>) returns (blockNum: nat)
      requires AllOfKind(Super, supers) && AllOfKind(Nats, nats) && AllOfKind(Sits, sits)
      modifies this
      ensures 0 < blockNum <= |buffers|
      ensures IsImage(buffers[..blockNum], supers + nats + sits)
    {
      tailIdx, tailOff := 0, 0;
      words, open, closed := 0, [], [];
      if buffers != [] { OpenEmpty(buffers[0]); }
      CollectSection(Super, supers);
      assert closed + open == [] + [] + supers == supers;
      CollectSection(Nats, nats);
      assert closed + open == supers + nats;
      CollectSection(Sits, sits);
      EnsureBuffer();
      AppendEnd();
      blockNum := 1 + tailIdx;
    }
  }
}
