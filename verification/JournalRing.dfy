/** The journal thread's ring (src/journal/journal_processor.c): space accounting, transaction
    records and the completion test. */
module JournalRing {
  import opened Bytes
  import opened JournalFormat
  import opened JournalScan
  import opened JournalPacking
  import opened JournalDedup
  import KeyTree
  import opened RedoLog
  import opened BlockDevice
  import opened Recovery
  import opened LogRecovery
  import opened JournalCommit

  /** Where a transaction's blocks stand in the ring; the end may have wrapped round. */
  datatype TxRecord = TxRecord(txId: nat, startLpa: nat, endLpa: nat)

  /** transactionJournalRecordIsApplied: has the device passed the record's blocks? */
  predicate IsApplied(r: TxRecord, curHead: nat, curTail: nat) {
    if r.startLpa < r.endLpa then
      if curHead <= curTail then curHead >= r.endLpa || curTail < r.startLpa
      else curHead >= r.endLpa
    else curHead <= curTail && curHead >= r.endLpa
  }

  /** The record that occupies ring positions s to e, counted from position 0 without wrapping. */
  function RecordAt(txId: nat, start: nat, pos: nat, s: nat, e: nat, n: nat): TxRecord
    requires pos < n && s <= n && e <= n
  {
    TxRecord(txId, start + Forward(pos, s, n), start + Forward(pos, e, n))
  }

  /** The completion test is exact while less than one round of the ring lies between the start of
      the record and the tail. Distances are counted from any position not behind the record. */
  lemma CompletionIsExact(r: TxRecord, start: nat, n: nat, pos: nat, s: nat, e: nat, head: nat, tail: nat)
    requires pos < n && s < e <= tail < n && s <= head <= tail
    requires r == RecordAt(r.txId, start, pos, s, e, n)
    ensures IsApplied(r, start + Forward(pos, head, n), start + Forward(pos, tail, n)) <==> head >= e
  {
  }

  /** The ring position of the u-th block ever written. */
  function Wrap(u: nat, n: nat): (r: nat)
    requires n > 0
    ensures r < n
  {
    if u < n then u else Wrap(u - n, n)
  }

  lemma {:induction false} WrapAdd(u: nat, d: nat, n: nat)
    requires n > 0 && d < 2 * n
    ensures var x := Wrap(u, n) + d;
      Wrap(u + d, n) == if x < n then x else if x < 2 * n then x - n else x - 2 * n
  {
    if u < n {
      if u + d >= 2 * n { assert Wrap(u + d, n) == Wrap(u + d - n, n) == Wrap(u + d - 2 * n, n); }
      else if u + d >= n { assert Wrap(u + d, n) == Wrap(u + d - n, n); }
    } else {
      WrapAdd(u - n, d, n);
    }
  }

  /** Wherever the head stands in the ring, even inside a record: a record is never reported early. */
  lemma CompletionIsNeverEarly(txId: nat, start: nat, n: nat, s: nat, e: nat, head: nat, tail: nat)
    requires 0 < n && s < e <= tail && e - s < n && s <= head <= tail && tail - head < n
    requires IsApplied(TxRecord(txId, start + Wrap(s, n), start + Wrap(e, n)), start + Wrap(head, n),
      start + Wrap(tail, n))
    ensures head >= e
  {
    hide Wrap;
    if head < e {
      WrapAdd(s, e - s, n);
      WrapAdd(s, head - s, n);
      WrapAdd(s, tail - s, n);
      assert false;
    }
  }

  /** A record that has been passed is missed only after the tail has come round to its first block. That
      cannot happen while the head stops only between records: a block of the ring is written anew only
      when the head has passed it, and then it has passed the whole record. */
  lemma MissedOnlyIfLapped(txId: nat, start: nat, n: nat, s: nat, e: nat, head: nat, tail: nat)
    requires 0 < n && s < e <= head <= tail && e - s < n && tail - head < n
    requires !IsApplied(TxRecord(txId, start + Wrap(s, n), start + Wrap(e, n)), start + Wrap(head, n),
      start + Wrap(tail, n))
    ensures tail >= s + n
  {
    hide Wrap;
    if tail < s + n {
      WrapAdd(s, e - s, n);
      WrapAdd(s, head - s, n);
      WrapAdd(s, tail - s, n);
      assert false;
    }
  }

  /** With a head that could stop inside a record the test would not be exact: in a ring of ten
      blocks the record at 0 to 5 has been passed when the head is at 12 and the tail at 13, but the
      test says no. */
  lemma HeadInsideARecordIsMissed(txId: nat)
    ensures !IsApplied(TxRecord(txId, Wrap(0, 10), Wrap(5, 10)), Wrap(12, 10), Wrap(13, 10))
  {
    assert Wrap(12, 10) == Wrap(2, 10) && Wrap(13, 10) == Wrap(3, 10);
  }

  // ---- Images in the ring ----

  ghost function Blocks(images: seq<seq<Block>>): nat {
    if images == [] then 0 else |images[0]| + Blocks(images[1..])
  }

  ghost function Joined(images: seq<seq<Block>>): (r: seq<Block>)
    ensures |r| == Blocks(images)
  {
    if images == [] then [] else images[0] + Joined(images[1..])
  }

  lemma {:induction false} JoinedAppend(images: seq<seq<Block>>, image: seq<Block>)
    ensures Joined(images + [image]) == Joined(images) + image
    ensures Blocks(images + [image]) == Blocks(images) + |image|
  {
    if images == [] {
      assert images + [image] == [image] && [image][1..] == [];
    } else {
      assert (images + [image])[1..] == images[1..] + [image];
      JoinedAppend(images[1..], image);
    }
  }

  lemma {:induction false} BlocksOfPrefix(images: seq<seq<Block>>, i: nat)
    requires i <= |images|
    ensures Blocks(images[..i]) <= Blocks(images) && Blocks(images[..0]) == 0
    ensures i < |images| ==> Blocks(images[..i + 1]) == Blocks(images[..i]) + |images[i]|
    ensures i > 0 ==> Blocks(images[..i]) == |images[0]| + Blocks(images[1..][..i - 1])
  {
    if images != [] {
      if i > 0 {
        assert images[..i][1..] == images[1..][..i - 1];
        BlocksOfPrefix(images[1..], i - 1);
      }
      if i < |images| {
        assert images[..i + 1][1..] == images[1..][..i];
        if i == 0 { assert images[..1] == [images[0]]; }
      }
    }
  }

  /** The records lie end to end from position pos, each as long as its image. */
  ghost predicate Tiles(records: seq<TxRecord>, start: nat, n: nat, pos: nat, images: seq<seq<Block>>)
    requires pos < n && Blocks(images) <= n
    decreases |images|
  {
    && |records| == |images|
    && (images == [] || (
          && images[0] != [] && Blocks(images) < n
          && records[0] == RecordAt(records[0].txId, start, pos, 0, |images[0]|, n)
          && Tiles(records[1..], start, n, Forward(pos, |images[0]|, n), images[1..])))
  }

  lemma {:induction false} TilesAppend(records: seq<TxRecord>, start: nat, n: nat, pos: nat, images: seq<seq<Block>>,
                                       txId: nat, image: seq<Block>)
    requires pos < n && Blocks(images) + |image| < n && image != [] && Tiles(records, start, n, pos, images)
    ensures Blocks(images + [image]) < n
    ensures Tiles(records + [RecordAt(txId, start, pos, Blocks(images), Blocks(images) + |image|, n)],
                  start, n, pos, images + [image])
    decreases |images|
  {
    JoinedAppend(images, image);
    var r := RecordAt(txId, start, pos, Blocks(images), Blocks(images) + |image|, n);
    if images == [] {
      assert ([r] + [])[1..] == [] && [image][1..] == [];
      assert images + [image] == [image] && records + [r] == [r];
    } else {
      var a, b := |images[0]|, Blocks(images[1..]);
      ForwardTwice(pos, a, b, n);
      ForwardTwice(pos, a, b + |image|, n);
      TilesAppend(records[1..], start, n, Forward(pos, a, n), images[1..], txId, image);
      assert (images + [image])[1..] == images[1..] + [image];
      assert (records + [r])[1..] == records[1..] + [r];
    }
  }

  /** The ring shows the blocks live from pos on. */
  ghost predicate Shows(ring: seq<Block>, pos: nat, live: seq<Block>)
    requires pos < |ring|
  {
    |live| < |ring| && forall k :: 0 <= k < |live| ==> ring[Forward(pos, k, |ring|)] == live[k]
  }

  /** A write behind the live blocks that leaves one block free overwrites none of them. */
  lemma WriteKeepsLive(ring: seq<Block>, pos: nat, live: seq<Block>, image: seq<Block>)
    requires pos < |ring| && Shows(ring, pos, live) && |live| + |image| < |ring|
    ensures Shows(Overwrite(ring, Forward(pos, |live|, |ring|), image), pos, live + image)
  {
    var tail := Forward(pos, |live|, |ring|);
    var ring' := Overwrite(ring, tail, image);
    OverwriteBehind(ring, pos, |live|, image);
    forall k | 0 <= k < |live + image| ensures ring'[Forward(pos, k, |ring|)] == (live + image)[k] {
      if k >= |live| {
        OverwriteAt(ring, tail, image, k - |live|);
        ForwardTwice(pos, |live|, k - |live|, |ring|);
      }
    }
  }

  lemma ShowsLater(ring: seq<Block>, pos: nat, first: seq<Block>, rest: seq<Block>)
    requires pos < |ring| && Shows(ring, pos, first + rest)
    ensures Shows(ring, Forward(pos, |first|, |ring|), rest)
  {
    forall k | 0 <= k < |rest| ensures ring[Forward(Forward(pos, |first|, |ring|), k, |ring|)] == rest[k] {
      ForwardTwice(pos, |first|, k, |ring|);
      assert (first + rest)[|first| + k] == rest[k];
    }
  }

  ghost function TxIds(records: seq<TxRecord>): seq<nat> {
    if records == [] then [] else [records[0].txId] + TxIds(records[1..])
  }

  lemma {:induction false} TxIdsAppend(records: seq<TxRecord>, r: TxRecord)
    ensures TxIds(records + [r]) == TxIds(records) + [r.txId]
  {
    if records == [] {
      assert records + [r] == [r] && [r][1..] == [];
    } else {
      assert (records + [r])[1..] == records[1..] + [r];
      TxIdsAppend(records[1..], r);
    }
  }

  ghost function JournalIds(js: seq<Journal>): seq<nat> {
    if js == [] then [] else [js[0].txId] + JournalIds(js[1..])
  }

  lemma {:induction false} JournalIdsAppend(xs: seq<Journal>, ys: seq<Journal>)
    ensures JournalIds(xs + ys) == JournalIds(xs) + JournalIds(ys)
  {
    if xs == [] {
      assert xs + ys == ys;
    } else {
      assert (xs + ys)[1..] == xs[1..] + ys;
      JournalIdsAppend(xs[1..], ys);
    }
  }

  // ---- The processor ----

  datatype Current = Idle | Fetched(journal: Journal) | Buffered(journal: Journal)

  ghost function CurrentIds(c: Current): seq<nat> {
    match c
    case Idle => []
    case Fetched(j) => [j.txId]
    case Buffered(j) => [j.txId]
  }

  /** The three output vectors of a transaction. */
  method OutputOf(j: Journal) returns (o: Output)
    requires Typed(j)
    ensures Emitted(j, o)
    ensures AllOfKind(Super, o.supers) && AllOfKind(Nats, o.nats) && AllOfKind(Sits, o.sits)
  {
    var supers := SuperOutput(j.supers);
    var nats := KeyTree.TreeOutput(j.nats);
    var sits := KeyTree.TreeOutput(j.sits);
    o := Output(supers, nats, sits);
    EmittedTyped(j, o);
  }

  /** The sums over the pending images, with positions counted from the start of the ring: the head, as
      the processor knows it and as the device does, has passed the first images, the tail all of them,
      and the available blocks are those between tail and head but one. */
  ghost predicate Sums(images: seq<seq<Block>>, n: nat, front: nat, synced: nat, consumed: nat,
                       head: int, devHead: int, tail: int, avail: int) {
    && front < n && Blocks(images) < n && synced <= consumed <= |images|
    && Blocks(images[..synced]) <= Blocks(images[..consumed]) <= Blocks(images)
    && head == Forward(front, Blocks(images[..synced]), n)
    && devHead == Forward(front, Blocks(images[..consumed]), n)
    && tail == Forward(front, Blocks(images), n)
    && avail + Blocks(images) - Blocks(images[..synced]) == n - 1
  }

  /** The sums still hold when counted from behind the front image. */
  lemma SumsPop(images: seq<seq<Block>>, n: nat, front: nat, synced: nat, consumed: nat,
                head: int, devHead: int, tail: int, avail: int)
    requires Sums(images, n, front, synced, consumed, head, devHead, tail, avail) && synced > 0
    ensures images != [] && Forward(front, |images[0]|, n) < n
    ensures Sums(images[1..], n, Forward(front, |images[0]|, n), synced - 1, consumed - 1, head, devHead, tail, avail)
  {
    var a, rest := |images[0]|, images[1..];
    BlocksOfPrefix(images, synced);
    BlocksOfPrefix(images, consumed);
    ForwardTwice(front, a, Blocks(rest), n);
    ForwardTwice(front, a, Blocks(rest[..synced - 1]), n);
    ForwardTwice(front, a, Blocks(rest[..consumed - 1]), n);
  }

  lemma SumsTail(images: seq<seq<Block>>, n: nat, front: nat, synced: nat, consumed: nat,
                 head: int, devHead: int, tail: int, avail: int)
    requires Sums(images, n, front, synced, consumed, head, devHead, tail, avail)
    ensures front < n && Blocks(images) < n && tail == Forward(front, Blocks(images), n)
  {
  }

  /** A new image behind the others moves the tail and takes its blocks from what is available; the
      head moves only if the device counts the image as applied at once. */
  lemma SumsPush(images: seq<seq<Block>>, n: nat, front: nat, consumed: nat, head: int, devHead: int, tail: int,
                 avail: int,
                 image: seq<Block>, eager: bool)
    requires Sums(images, n, front, 0, consumed, head, devHead, tail, avail) && Blocks(images) + |image| < n
    ensures var tail' := Forward(front, Blocks(images) + |image|, n);
      Sums(images + [image], n, front, 0, if eager then |images| + 1 else consumed, head, if eager then tail'
        else devHead, tail', avail - |image|)
  {
    hide *;
    SumsMean(images, n, front, consumed, head, devHead, tail, avail);
    BlocksPush(images, image, consumed);
    var more := images + [image];
    assert |more| == |images| + 1;
    var b0, b := Blocks(images[..0]), Blocks(images) + |image|;
    var tail' := Forward(front, b, n);
    if eager {
      SumsAre(more, n, front, |more|, head, tail', tail', avail - |image|, b0, b, b);
    } else {
      SumsAre(more, n, front, consumed, head, devHead, tail', avail - |image|, b0, Blocks(images[..consumed]), b);
    }
  }

  lemma SumsMean(images: seq<seq<Block>>, n: nat, front: nat, consumed: nat, head: int, devHead: int, tail: int,
                 avail: int)
    requires Sums(images, n, front, 0, consumed, head, devHead, tail, avail)
    ensures front < n && consumed <= |images| && Blocks(images) < n
    ensures Blocks(images[..0]) <= Blocks(images[..consumed]) <= Blocks(images)
    ensures avail + Blocks(images) - Blocks(images[..0]) == n - 1
    ensures head == Forward(front, Blocks(images[..0]), n) && devHead == Forward(front, Blocks(images[..consumed]), n)
  {
    hide Blocks, Forward;
  }

  lemma SumsAre(images: seq<seq<Block>>, n: nat, front: nat, consumed: nat, head: int, devHead: int, tail: int,
                avail: int, b0: nat, bc: nat, b: nat)
    requires consumed <= |images| && b0 == Blocks(images[..0]) && bc == Blocks(images[..consumed]) &&
      b == Blocks(images)
    requires front < n && b < n && b0 <= bc <= b && avail + b - b0 == n - 1
    requires head == Forward(front, b0, n) && devHead == Forward(front, bc, n) && tail == Forward(front, b, n)
    ensures Sums(images, n, front, 0, consumed, head, devHead, tail, avail)
  {
    hide Blocks, Forward;
  }

  lemma BlocksPush(images: seq<seq<Block>>, image: seq<Block>, consumed: nat)
    requires consumed <= |images|
    ensures var more := images + [image];
      && Blocks(more) == Blocks(images) + |image| && Blocks(images[..0]) == 0
      && more[..0] == images[..0] && more[..consumed] == images[..consumed] && more[..|more|] == more
      && Blocks(images[..consumed]) <= Blocks(images)
  {
    hide Blocks, Joined;
    JoinedAppend(images, image);
    PrefixesKept(images, image, consumed);
  }

  lemma FrontTile(records: seq<TxRecord>, startLpa: nat, n: nat, front: nat, images: seq<seq<Block>>, synced: nat,
                  consumed: nat,
                  head: int, devHead: int, tail: int, avail: int)
    requires front < n && Blocks(images) <= n && Tiles(records, startLpa, n, front, images) && synced > 0
    requires Sums(images, n, front, synced, consumed, head, devHead, tail, avail)
    ensures images != [] && records != [] && |images[0]| <= n && Forward(front, |images[0]|, n) < n &&
      Blocks(images[1..]) <= Blocks(images)
    ensures Tiles(records[1..], startLpa, n, Forward(front, |images[0]|, n), images[1..])
  {
    BlocksOfPrefix(images, synced);
  }

  class JournalProcessor {
    const dev: Device
    const writer: JournalWriter
    const startLpa: nat
    const endLpa: nat
    var headLpa: nat
    var tailLpa: nat
    var curAvailLpa: nat
    var totalAvailLpa: nat
    var pending: seq<Journal>
    var current: Current
    var curJournalBlockNum: nat
    var txRecords: seq<TxRecord>
    var completed: seq<nat>          // the transactions the completion hook was called for
    ghost var accepted: seq<nat>     // the transactions taken from the commit queue, in order
    ghost var images: seq<seq<Block>>  // the blocks of the pending records
    ghost var front: nat             // ring position of the first pending record
    ghost var synced: nat            // records that headLpa has passed
    ghost var consumed: nat          // records that the device's head has passed
    ghost var output: Output         // what was collected for the current journal

    ghost function Size(): nat
      reads this
    {
      if startLpa < endLpa then endLpa - startLpa else 0
    }

    /** The address behind the i-th pending record. */
    ghost function Behind(i: nat): nat
      requires front < Size() && i <= |images| && Blocks(images[..i]) <= Size()
      reads this
    {
      startLpa + Forward(front, Blocks(images[..i]), Size())
    }

    ghost predicate Accounts()
      reads this, dev
    {
      && front < Size() && endLpa <= |dev.disk| && dev.journalStart == startLpa && dev.journalEnd == endLpa
      && Blocks(images) < Size() && Tiles(txRecords, startLpa, Size(), front, images)
      && tailLpa == dev.journalTail && totalAvailLpa == Size() - 1
      && Sums(images, Size(), front, synced, consumed,
              headLpa - startLpa, dev.journalHead - startLpa, tailLpa - startLpa, curAvailLpa)
    }

    ghost predicate KeepsImages()
      requires startLpa < endLpa <= |dev.disk| && front < Size()
      reads this, dev
    {
      Shows(dev.disk[startLpa..endLpa], front, Joined(images))
    }

    ghost predicate KeepsOrder()
      reads this
    {
      completed + TxIds(txRecords) + CurrentIds(current) + JournalIds(pending) == accepted
    }

    ghost predicate HoldsCurrent()
      reads this`pending, this`current, this`curJournalBlockNum, this`output, writer
    {
      && (forall j :: j in pending ==> Typed(j)) && (current.Fetched? || current.Buffered? ==> Typed(current.journal))
      && (current.Buffered? ==>
            && 0 < curJournalBlockNum <= |writer.buffers| && Emitted(current.journal, output)
            && IsImage(writer.buffers[..curJournalBlockNum], EntriesOf(output)))
    }

    /** What holds between the steps of the journal thread. */
    ghost predicate Valid()
      reads this, dev, writer
    {
      Accounts() && KeepsImages() && KeepsOrder() && HoldsCurrent() && synced == 0
    }

    constructor (dev: Device, writer: JournalWriter, journalStart: nat, journalEnd: nat, fifoPos: nat)
      requires journalStart <= fifoPos < journalEnd <= |dev.disk|
      requires dev.journalStart == journalStart && dev.journalEnd == journalEnd
      requires dev.journalHead == dev.journalTail == fifoPos
      ensures Valid() && this.dev == dev && accepted == [] && completed == []
    {
      this.dev, this.writer, startLpa, endLpa := dev, writer, journalStart, journalEnd;
      curAvailLpa, totalAvailLpa := journalEnd - journalStart - 1, journalEnd - journalStart - 1;
      headLpa, tailLpa := fifoPos, fifoPos;
      pending, current, curJournalBlockNum, txRecords, completed := [], Idle, 0, [], [];
      accepted, images, front, synced, consumed := [], [], fifoPos - journalStart, 0, 0;
      output := Output([], [], []);
    }

    /** journalProcessorFetchNewJournal: take over the whole commit queue. */
    method FetchNewJournal(queue: seq<Journal>)
      requires Valid() && forall j :: j in queue ==> Typed(j)
      modifies this`pending, this`accepted
      ensures Valid() && accepted == old(accepted) + JournalIds(queue)
    {
      hide Tiles, Shows, Joined, Blocks, TxIds, JournalIds, Typed, Emitted, IsImage;
      JournalIdsAppend(pending, queue);
      ghost var before := completed + TxIds(txRecords) + CurrentIds(current);
      assert before + (JournalIds(pending) + JournalIds(queue)) == before + JournalIds(pending) + JournalIds(queue);
      pending, accepted := pending + queue, accepted + JournalIds(queue);
    }

    /** The device's own progress: its head passes k more records. */
    method DeviceConsumes(newHead: nat, ghost k: nat)
      requires Valid() && consumed + k <= |images| && Blocks(images[..consumed + k]) < Size() &&
        newHead == Behind(consumed + k)
      modifies this`consumed, dev`journalHead
      ensures Valid() && consumed == old(consumed) + k
    {
      BlocksOfPrefix(images, consumed + k);
      PrefixesOrdered(images, consumed, consumed + k);
      consumed, dev.journalHead := consumed + k, newHead;
    }

    /** The thread may sleep or exit exactly when every accepted transaction has been completed. */
    predicate IsWorking()
      reads this
    {
      !(curAvailLpa == totalAvailLpa && pending == [] && current == Idle)
    }

    lemma IdleMeansAllCompleted()
      requires Valid()
      ensures !IsWorking() <==> completed == accepted
    {
      TilesLength(txRecords, startLpa, Size(), front, images);
      BlocksOfPrefix(images, 0);
      var rest := TxIds(txRecords) + CurrentIds(current) + JournalIds(pending);
      assert completed + rest == accepted;
      assert completed == accepted <==> rest == [] by {
        if completed == accepted { assert |completed + rest| == |completed|; }
      }
    }

    /** journalProcessorWriteJournalToBuffer: deduplicate and collect the current transaction. */
    method WriteJournalToBuffer()
      requires Valid() && current.Fetched?
      modifies this`current, this`curJournalBlockNum, this`output, writer
      ensures Valid() && current == Buffered(old(current).journal)
    {
      hide Tiles, Shows, Joined, Blocks, TxIds, JournalIds, Typed, Emitted, IsImage;
      var j := current.journal;
      var o := OutputOf(j);
      output := o;
      curJournalBlockNum := writer.CollectPendingJournal(o.supers, o.nats, o.sits);
      current := Buffered(j);
    }

    /** journalProcessorWriteJournalToSsd: write the image at the tail if there is room. The device
        accepts the new tail. */
    method WriteJournalToSsd() returns (written: bool)
      requires Accounts() && synced == 0
      requires 0 < curJournalBlockNum <= |writer.buffers|
      modifies this`tailLpa, this`curAvailLpa, dev`disk, dev`history, dev`journalHead, dev`journalTail
      ensures written <==> Blocks(images) + curJournalBlockNum < Size()
      ensures !written ==> dev.disk == old(dev.disk) && Accounts()
      ensures written ==>
        && tailLpa == dev.journalTail == startLpa + Forward(front, Blocks(images) + curJournalBlockNum, Size())
        && dev.journalHead == (if dev.eager then tailLpa else old(dev.journalHead))
        && curAvailLpa == old(curAvailLpa) - curJournalBlockNum
        && dev.disk == WithRing(old(dev.disk), startLpa,
          Overwrite(old(dev.disk)[startLpa..endLpa], old(tailLpa) - startLpa,
                                                                   writer.buffers[..curJournalBlockNum]))
    {
      hide Tiles, Blocks, WithRing, Overwrite;
      BlocksOfPrefix(images, 0);
      if curJournalBlockNum > curAvailLpa { return false; }
      var start := tailLpa;
      WriteToSsd(dev, writer.buffers[..curJournalBlockNum], start, startLpa, endLpa, dev.disk[startLpa..endLpa]);
      var ok := dev.UpdateTail(start, curJournalBlockNum);
      assert ok;
      tailLpa := start + curJournalBlockNum;
      if tailLpa >= endLpa { tailLpa := tailLpa - endLpa + startLpa; }
      curAvailLpa := curAvailLpa - curJournalBlockNum;
      ForwardTwice(front, Blocks(images), curJournalBlockNum, Size());
      written := true;
    }

    /** The step of journalProcessorProcessPendingJournal for a transaction that has been collected:
        if there is room it is written behind the pending blocks, none of which is overwritten, and
        joins the records; otherwise nothing changes. */
    method ProcessBuffered()
      requires Valid() && current.Buffered?
      modifies this`current, this`tailLpa, this`curAvailLpa, this`txRecords, this`images, this`consumed
      modifies dev`disk, dev`history, dev`journalHead, dev`journalTail
      ensures Valid()
      ensures var image := writer.buffers[..curJournalBlockNum];
        if Blocks(old(images)) + |image| < Size() then
          && current == Idle && images == old(images) + [image]
          && dev.disk == WithRing(old(dev.disk), startLpa,
                                  Overwrite(old(dev.disk)[startLpa..endLpa], old(tailLpa) - startLpa, image))
        else current == old(current) && images == old(images) && dev.disk == old(dev.disk)
    {
      hide TxIds, JournalIds, Typed, Emitted, IsImage, Tiles, Shows, Joined, Blocks, Overwrite, Sums, Forward, WithRing;
      assert current.Buffered? && synced == 0;
      ghost var image, n := writer.buffers[..curJournalBlockNum], endLpa - startLpa;
      ghost var ring := dev.disk[startLpa..endLpa];
      ghost var head0, avail0 := dev.journalHead, curAvailLpa;
      SumsTail(images, n, front, synced, consumed, headLpa - startLpa, dev.journalHead - startLpa, tailLpa - startLpa,
        curAvailLpa);
      var start := tailLpa;
      var written := WriteJournalToSsd();
      if !written { return; }
      SumsPush(images, n, front, consumed, headLpa - startLpa, head0 - startLpa, start - startLpa, avail0, image,
        dev.eager);
      WriteKeepsLive(ring, front, Joined(images), image);
      JoinedAppend(images, image);
      var r := TxRecord(current.journal.txId, start, tailLpa);
      TilesAppend(txRecords, startLpa, n, front, images, r.txId, image);
      TxIdsAppend(txRecords, r);
      txRecords, current := txRecords + [r], Idle;
      images := images + [image];
      if dev.eager { consumed := |images|; }
    }

    /** journalProcessorProcessPendingJournal: take the next transaction, if none is in hand, collect
        it, and write it if there is room. */
    method ProcessPendingJournal()
      requires Valid()
      modifies this`current, this`pending, this`curJournalBlockNum, this`output
      modifies this`tailLpa, this`curAvailLpa, this`txRecords, this`images, this`consumed
      modifies writer, dev`disk, dev`history, dev`journalHead, dev`journalTail
      ensures Valid()
      ensures pending == if old(current).Idle? && old(pending) != [] then old(pending)[1..] else old(pending)
      ensures current.Idle? ==>
        if old(current).Idle? && old(pending) == [] then images == old(images)
        else old(images) <= images && |images| == |old(images)| + 1
      ensures !current.Idle? ==>
        current.Buffered? && images == old(images) && Blocks(images) + curJournalBlockNum >= Size()
    {
      hide Tiles, Shows, Joined, Blocks, TxIds, Typed, Emitted, IsImage;
      if current.Idle? {
        if pending == [] { return; }
        ghost var done := completed + TxIds(txRecords);
        assert done + [] + ([pending[0].txId] + JournalIds(pending[1..])) ==
          done + [pending[0].txId] + JournalIds(pending[1..]);
        current, pending := Fetched(pending[0]), pending[1..];
      }
      if current.Fetched? { WriteJournalToBuffer(); }
      ProcessBuffered();
    }

    /** journalProcessorSyncWithSsdJournalPos: take over the device's head and count the freed blocks. */
    method SyncWithSsdJournalPos() returns (progress: bool)
      requires Valid()
      modifies this`headLpa, this`curAvailLpa, this`synced
      ensures Accounts() && KeepsImages() && KeepsOrder() && HoldsCurrent() && synced == consumed
      ensures progress <==> consumed > 0
    {
      hide Tiles, Shows, Joined, TxIds, JournalIds, Typed, Emitted, IsImage;
      var newHead := dev.journalHead;
      var newAvail := if newHead >= headLpa then newHead - headLpa else newHead + endLpa - startLpa - headLpa;
      PassedBlocks(txRecords, startLpa, Size(), front, images, consumed);
      headLpa, curAvailLpa, synced := newHead, curAvailLpa + newAvail, consumed;
      progress := newAvail != 0;
    }

    /** The front record passes the completion test exactly if the head has passed it. */
    lemma FrontIsApplied()
      requires Accounts() && txRecords != []
      ensures IsApplied(txRecords[0], headLpa, tailLpa) <==> synced > 0
    {
      BlocksOfPrefix(images, synced);
      BlocksOfPrefix(images, 1);
      if synced > 0 { PrefixesOrdered(images, 1, synced); }
      assert images[..1] == [images[0]] && images[..1][1..] == [];
      CompletionIsExact(txRecords[0], startLpa, Size(), front, 0, |images[0]|, Blocks(images[..synced]),
        Blocks(images));
    }

    /** The completion hook runs for the front record, which then leaves the list. */
    method CompleteFront()
      requires Accounts() && KeepsImages() && KeepsOrder() && HoldsCurrent() && synced > 0
      modifies this`completed, this`txRecords, this`images, this`front, this`synced, this`consumed
      ensures Accounts() && KeepsImages() && KeepsOrder() && HoldsCurrent()
      ensures synced == old(synced) - 1 && consumed == old(consumed) - 1
      ensures old(txRecords) != [] && txRecords == old(txRecords)[1..]
      ensures completed == old(completed) + [old(txRecords)[0].txId]
    {
      hide Tiles, Shows, Joined, TxIds, JournalIds, Sums, Forward, Blocks, JournalProcessor.HoldsCurrent;
      FrontTile(txRecords, startLpa, Size(), front, images, synced, consumed,
                headLpa - startLpa, dev.journalHead - startLpa, tailLpa - startLpa, curAvailLpa);
      SumsPop(images, Size(), front, synced, consumed,
              headLpa - startLpa, dev.journalHead - startLpa, tailLpa - startLpa, curAvailLpa);
      PopKeeps();
      var r := txRecords[0];
      completed, txRecords := completed + [r.txId], txRecords[1..];
      front, images := Forward(front, |images[0]|, Size()), images[1..];
      synced, consumed := synced - 1, consumed - 1;
    }

    lemma PopKeeps()
      requires Accounts() && KeepsImages() && KeepsOrder() && images != [] && txRecords != []
      ensures Shows(dev.disk[startLpa..endLpa], Forward(front, |images[0]|, Size()), Joined(images[1..]))
      ensures completed + [txRecords[0].txId] + TxIds(txRecords[1..]) + CurrentIds(current) + JournalIds(pending) ==
        accepted
    {
      ShowsLater(dev.disk[startLpa..endLpa], front, images[0], Joined(images[1..]));
      var id, later := txRecords[0].txId, TxIds(txRecords[1..]);
      assert completed + ([id] + later) == completed + [id] + later;
    }

    /** journalProcessorProcessTxRecord: call the hook for every record the head has passed, oldest
        first, and for no other. */
    method ProcessTxRecord()
      requires Accounts() && KeepsImages() && KeepsOrder() && HoldsCurrent()
      modifies this`completed, this`txRecords, this`images, this`front, this`synced, this`consumed
      ensures Valid() && consumed == old(consumed) - old(synced)
      ensures old(synced) <= |old(txRecords)| && txRecords == old(txRecords)[old(synced)..]
      ensures completed == old(completed) + TxIds(old(txRecords)[..old(synced)])
    {
      hide Shows, Joined, Blocks, JournalIds, Typed, Emitted, IsImage, KeepsOrder;
      TilesCount(txRecords, startLpa, Size(), front, images);
      ghost var i: nat, records := 0, txRecords;
      assert records[..0] == [] && records[0..] == records;
      while txRecords != []
        invariant Accounts() && KeepsImages() && KeepsOrder() && HoldsCurrent()
        invariant i <= old(synced) <= |records| && txRecords == records[i..]
        invariant synced == old(synced) - i && consumed == old(consumed) - i
        invariant completed == old(completed) + TxIds(records[..i])
        decreases |txRecords|
      {
        FrontIsApplied();
        if !IsApplied(txRecords[0], headLpa, tailLpa) { break; }
        CompleteFront();
        assert records[..i + 1] == records[..i] + [records[i]];
        TxIdsAppend(records[..i], records[i]);
        i := i + 1;
      }
    }

    /** journalProcessorProcessCpltJournal (the poll timer aside): what the device has passed by now
        is completed, and nothing else. */
    method ProcessCpltJournal()
      requires Valid()
      modifies this`headLpa, this`curAvailLpa, this`synced
      modifies this`completed, this`txRecords, this`images, this`front, this`consumed
      ensures Valid() && consumed == 0
      ensures old(consumed) <= |old(txRecords)| && txRecords == old(txRecords)[old(consumed)..]
      ensures completed == old(completed) + TxIds(old(txRecords)[..old(consumed)])
    {
      hide Accounts, KeepsImages, KeepsOrder, HoldsCurrent;
      NothingToComplete();
      if curAvailLpa == totalAvailLpa { return; }
      var progress := SyncWithSsdJournalPos();
      if progress { ProcessTxRecord(); }
    }

    lemma NothingToComplete()
      requires Valid()
      ensures curAvailLpa == totalAvailLpa ==> consumed == 0
      ensures consumed <= |txRecords| && txRecords[0..] == txRecords && TxIds(txRecords[..0]) == []
    {
      BlocksOfPrefix(images, 0);
      TilesCount(txRecords, startLpa, Size(), front, images);
      TilesLength(txRecords, startLpa, Size(), front, images);
    }
  }

  lemma TilesCount(records: seq<TxRecord>, start: nat, n: nat, pos: nat, images: seq<seq<Block>>)
    requires pos < n && Blocks(images) <= n && Tiles(records, start, n, pos, images)
    ensures |records| == |images|
  {
  }

  /** Having passed k records is having passed their blocks. */
  lemma PassedBlocks(records: seq<TxRecord>, start: nat, n: nat, pos: nat, images: seq<seq<Block>>, k: nat)
    requires pos < n && Blocks(images) <= n && Tiles(records, start, n, pos, images) && k <= |images|
    ensures Blocks(images[..0]) == 0 && (Blocks(images[..k]) > 0 <==> k > 0)
  {
    if k > 0 {
      PrefixesOrdered(images, 1, k);
      assert images[..1] == [images[0]] && images[..1][1..] == [];
    }
  }

  lemma PrefixesOrdered(images: seq<seq<Block>>, i: nat, j: nat)
    requires i <= j <= |images|
    ensures Blocks(images[..i]) <= Blocks(images[..j])
  {
    BlocksOfPrefix(images[..j], i);
    assert images[..j][..i] == images[..i];
  }

  lemma PrefixesKept(images: seq<seq<Block>>, image: seq<Block>, i: nat)
    requires i <= |images|
    ensures (images + [image])[..i] == images[..i]
    ensures (images + [image])[..|images| + 1] == images + [image]
    ensures Blocks(images[..i]) <= Blocks(images) && Blocks(images[..0]) == 0
  {
    BlocksOfPrefix(images, i);
  }

  lemma TilesLength(records: seq<TxRecord>, start: nat, n: nat, pos: nat, images: seq<seq<Block>>)
    requires pos < n && Blocks(images) <= n && Tiles(records, start, n, pos, images)
    ensures |TxIds(records)| == 0 <==> images == []
    ensures Blocks(images) == 0 <==> images == []
  {
  }
}
