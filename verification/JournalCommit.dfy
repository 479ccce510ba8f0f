/** Writing a transaction into the journal ring (src/journal/journal_writer.c) and reading it back
    after a crash that kept any subset of its blocks. */
module JournalCommit {
  import opened Bytes
  import opened JournalFormat
  import opened JournalScan
  import opened JournalPacking
  import opened RedoLog
  import opened BlockDevice
  import opened Recovery
  import opened LogRecovery

  // ---- Blocks written round the ring ----

  /** The ring after the blocks bs have been written from position pos on. */
  ghost function Overwrite(ring: seq<Block>, pos: nat, bs: seq<Block>): (r: seq<Block>)
    requires pos < |ring| && |bs| <= |ring|
    ensures |r| == |ring|
  {
    if bs == [] then ring
    else Overwrite(ring, pos, bs[..|bs| - 1])[Forward(pos, |bs| - 1, |ring|) := bs[|bs| - 1]]
  }

  lemma {:induction false} OverwriteAt(ring: seq<Block>, pos: nat, bs: seq<Block>, k: nat)
    requires pos < |ring| && |bs| <= |ring| && k < |ring|
    ensures Overwrite(ring, pos, bs)[Forward(pos, k, |ring|)] ==
              if k < |bs| then bs[k] else ring[Forward(pos, k, |ring|)]
  {
    if bs != [] { OverwriteAt(ring, pos, bs[..|bs| - 1], k); }
  }

  /** Read from pos on, the ring shows the new blocks and then what it showed before. */
  lemma RotateOverwrite(ring: seq<Block>, pos: nat, bs: seq<Block>)
    requires pos < |ring| && |bs| <= |ring|
    ensures Rotate(Overwrite(ring, pos, bs), pos) == bs + Rotate(ring, pos)[|bs|..]
  {
    var ring' := Overwrite(ring, pos, bs);
    forall k | 0 <= k < |ring| ensures Rotate(ring', pos)[k] == (bs + Rotate(ring, pos)[|bs|..])[k] {
      RotateAt(ring', pos, k);
      RotateAt(ring, pos, k);
      OverwriteAt(ring, pos, bs, k);
    }
  }

  /** The device with another ring in its journal area. */
  ghost function WithRing(disk: Image, start: nat, ring: seq<Block>): (d: Image)
    requires start + |ring| <= |disk|
    ensures |d| == |disk| && d[start..start + |ring|] == ring
    ensures forall l :: 0 <= l < start || start + |ring| <= l < |disk| ==> d[l] == disk[l]
  {
    disk[..start] + ring + disk[start + |ring|..]
  }

  lemma WithRingWrite(disk: Image, start: nat, ring: seq<Block>, p: nat, b: Block)
    requires start + |ring| <= |disk| && p < |ring|
    ensures WithRing(disk, start, ring)[start + p := b] == WithRing(disk, start, ring[p := b])
  {
  }

  /** journalWriterWriteToSsd: write the image at the tail, continuing at the start of the area
      when its end is reached. */
  method WriteToSsd(dev: Device, image: seq<Block>, tail: nat, journalStart: nat, journalEnd: nat,
                    ghost ring: seq<Block>)
    requires journalStart <= tail < journalEnd <= |dev.disk| && |image| <= journalEnd - journalStart
    requires ring == dev.disk[journalStart..journalEnd]
    modifies dev`disk, dev`history
    ensures dev.disk == WithRing(old(dev.disk), journalStart, Overwrite(ring, tail - journalStart, image))
  {
    ghost var disk, pos := dev.disk, tail - journalStart;
    var i, cur := 0, tail;
    assert WithRing(disk, journalStart, ring) == disk;
    while i < |image|
      invariant i <= |image| && |dev.disk| == |disk|
      invariant cur == if pos + i <= |ring| then tail + i else tail + i - |ring|
      invariant dev.disk == WithRing(disk, journalStart, Overwrite(ring, pos, image[..i]))
    {
      if cur == journalEnd { cur := journalStart; }
      assert image[..i + 1][..i] == image[..i];
      WithRingWrite(disk, journalStart, Overwrite(ring, pos, image[..i]), Forward(pos, i, |ring|), image[i]);
      var _ := dev.WriteBlock(cur, image[i]);
      i, cur := i + 1, cur + 1;
    }
    assert image[..i] == image;
  }

  // ---- The log grows at its end ----

  /** What a scan has read up to the END mark is a transaction image. */
  lemma {:induction false} CommittedIsImage(bs: seq<Block>)
    requires ScanTx(bs).committed
    ensures IsImage(bs[..ScanTx(bs).blocks], ScanTx(bs).entries)
  {
    var n := ScanTx(bs).blocks;
    assert bs[..n][0] == bs[0] && bs[..n][1..] == bs[1..][..n - 1];
    if ScanBlock(bs[0], 0).status == More { CommittedIsImage(bs[1..]); }
  }

  /** A committed scan depends only on the blocks it has read. */
  lemma SameScan(bs: seq<Block>, bs': seq<Block>)
    requires ScanTx(bs).committed && |bs'| == |bs|
    requires forall k :: 0 <= k < ScanTx(bs).blocks ==> bs'[k] == bs[k]
    ensures ScanTx(bs') == ScanTx(bs)
  {
    var n := ScanTx(bs).blocks;
    CommittedIsImage(bs);
    assert bs' == bs[..n] + bs'[n..];
    ImageThenAnything(bs[..n], ScanTx(bs).entries, bs'[n..]);
  }

  /** The two rings agree on the first n blocks from pos on. */
  ghost predicate SameFrom(ring: seq<Block>, ring': seq<Block>, pos: nat, n: nat)
    requires pos < |ring| == |ring'| && n <= |ring|
  {
    forall k :: 0 <= k < n ==> ring'[Forward(pos, k, |ring|)] == ring[Forward(pos, k, |ring|)]
  }

  lemma SameFromLater(ring: seq<Block>, ring': seq<Block>, pos: nat, a: nat, n: nat)
    requires pos < |ring| == |ring'| && a + n < |ring| && SameFrom(ring, ring', pos, a + n)
    ensures SameFrom(ring, ring', Forward(pos, a, |ring|), n)
  {
    forall k | 0 <= k < n
      ensures var p := Forward(Forward(pos, a, |ring|), k, |ring|); ring'[p] == ring[p]
    {
      ForwardTwice(pos, a, k, |ring|);
    }
  }

  /** The first transaction of a log, and the log behind it. */
  lemma LogHead(lay: Layout, ring: seq<Block>, pos: nat, txs: seq<seq<Entry>>)
    requires pos < |ring| && Log(lay, ring, pos, txs) && txs != []
    ensures var scan := ScanTx(Rotate(ring, pos));
      && AllInRange(lay, scan.entries) && scan.committed && scan.entries == txs[0]
      && var next := Forward(pos, scan.blocks, |ring|);
         next < |ring| && Log(lay, ring, next, txs[1..])
         && LogBlocks(lay, ring, pos, txs) == scan.blocks + LogBlocks(lay, ring, next, txs[1..])
  {
  }

  lemma EmptyLog(lay: Layout, ring: seq<Block>, pos: nat)
    requires pos < |ring| && Log(lay, ring, pos, [])
    ensures LogBlocks(lay, ring, pos, []) == 0 && Forward(pos, 0, |ring|) == pos
  {
  }

  lemma LogCons(lay: Layout, ring: seq<Block>, pos: nat, tx: seq<Entry>, rest: seq<seq<Entry>>)
    requires pos < |ring|
    requires var scan := ScanTx(Rotate(ring, pos));
      && AllInRange(lay, scan.entries) && scan.committed && scan.entries == tx
      && var next := Forward(pos, scan.blocks, |ring|); next < |ring| && Log(lay, ring, next, rest)
    ensures var scan := ScanTx(Rotate(ring, pos));
      && Log(lay, ring, pos, [tx] + rest)
      && LogBlocks(lay, ring, pos, [tx] + rest) ==
        scan.blocks + LogBlocks(lay, ring, Forward(pos, scan.blocks, |ring|), rest)
  {
    assert ([tx] + rest)[1..] == rest;
  }

  /** A ring that agrees on the blocks of the log, and carries on behind it with more transactions,
      holds the log followed by those transactions. */
  lemma {:induction false} LogExtends(lay: Layout, ring: seq<Block>, ring': seq<Block>, pos: nat, n: nat,
                                      txs: seq<seq<Entry>>, more: seq<seq<Entry>>)
    requires pos < |ring| == |ring'| && Log(lay, ring, pos, txs) && n == LogBlocks(lay, ring, pos, txs) < |ring|
    requires SameFrom(ring, ring', pos, n) && Log(lay, ring', Forward(pos, n, |ring|), more)
    ensures Log(lay, ring', pos, txs + more)
    ensures LogBlocks(lay, ring', pos, txs + more) == n + LogBlocks(lay, ring', Forward(pos, n, |ring|), more)
    decreases |txs|
  {
    hide *;
    if txs == [] {
      EmptyLog(lay, ring, pos);
      assert txs + more == more;
    } else {
      LogHead(lay, ring, pos, txs);
      var bs, bs' := Rotate(ring, pos), Rotate(ring', pos);
      var a := ScanTx(bs).blocks;
      SameRotation(ring, ring', pos, n);
      SameScan(bs, bs');
      ForwardTwice(pos, a, n - a, |ring|);
      SameFromLater(ring, ring', pos, a, n - a);
      LogExtends(lay, ring, ring', Forward(pos, a, |ring|), n - a, txs[1..], more);
      LogCons(lay, ring', pos, txs[0], txs[1..] + more);
      assert txs + more == [txs[0]] + (txs[1..] + more);
    }
  }

  lemma SameRotation(ring: seq<Block>, ring': seq<Block>, pos: nat, n: nat)
    requires pos < |ring| == |ring'| && n <= |ring| && SameFrom(ring, ring', pos, n)
    ensures forall k :: 0 <= k < n ==> Rotate(ring', pos)[k] == Rotate(ring, pos)[k]
  {
    forall k | 0 <= k < n ensures Rotate(ring', pos)[k] == Rotate(ring, pos)[k] {
      RotateAt(ring, pos, k);
      RotateAt(ring', pos, k);
    }
  }

  /** n blocks from pos on were never written. */
  ghost predicate ZeroAhead(ring: seq<Block>, pos: nat, n: nat)
    requires pos < |ring| && n <= |ring|
  {
    forall k :: 0 <= k < n ==> Rotate(ring, pos)[k] == ZeroBlock()
  }

  /** What can be read at the place where an image was written over zeroed blocks: the transaction
      if all its blocks are there, and otherwise nothing that commits. */
  lemma NewTxLog(lay: Layout, ring: seq<Block>, pos: nat, image: seq<Block>, es: seq<Entry>, left: seq<Block>)
    requires pos < |ring| && IsImage(image, es) && |image| < |ring| && Survives(image, left)
    requires AllInRange(lay, es) && ZeroAhead(ring, pos, |image| + 1)
    ensures var ring', more := Overwrite(ring, pos, left), if left == image then [es] else [];
      Log(lay, ring', pos, more) && LogBlocks(lay, ring', pos, more) == if left == image then |image| else 0
  {
    var ring', rest := Overwrite(ring, pos, left), Rotate(ring, pos)[|left|..];
    RotateOverwrite(ring, pos, left);
    if left == image {
      ImageThenAnything(image, es, rest);
      var next := Forward(pos, |image|, |ring|);
      NextIsZero(ring, pos, left);
      ZeroBlockStops();
      assert Log(lay, ring', next, []);
    } else {
      TornImageStops(image, es, left, rest);
    }
  }

  /** The block behind the image is still zero. */
  lemma NextIsZero(ring: seq<Block>, pos: nat, left: seq<Block>)
    requires pos < |ring| && |left| < |ring| && ZeroAhead(ring, pos, |left| + 1)
    ensures var next := Forward(pos, |left|, |ring|);
      next < |ring| && Rotate(Overwrite(ring, pos, left), next)[0] == ZeroBlock()
  {
    var next := Forward(pos, |left|, |ring|);
    OverwriteAt(ring, pos, left, |left|);
    RotateAt(ring, pos, |left|);
    RotateAt(Overwrite(ring, pos, left), next, 0);
    assert Rotate(ring, pos)[|left|] == ZeroBlock();
  }

  /** Writing at the end of a log leaves its own blocks alone. */
  lemma OverwriteBehind(ring: seq<Block>, pos: nat, n: nat, left: seq<Block>)
    requires pos < |ring| && n + |left| <= |ring| && n < |ring|
    ensures SameFrom(ring, Overwrite(ring, Forward(pos, n, |ring|), left), pos, n)
  {
    ForwardInside(pos, n, |ring|);
    hide Forward, Overwrite;
    var end := Forward(pos, n, |ring|);
    forall k | 0 <= k < n
      ensures Overwrite(ring, end, left)[Forward(pos, k, |ring|)] == ring[Forward(pos, k, |ring|)]
    {
      OverwriteAt(ring, end, left, |ring| - n + k);
      ForwardAround(pos, n, k, |ring|);
    }
  }

  lemma ForwardInside(pos: nat, n: nat, size: nat)
    requires pos < size && n < size
    ensures forall k :: 0 <= k <= n ==> Forward(pos, k, size) < size
  {
  }

  lemma ForwardAround(pos: nat, n: nat, k: nat, size: nat)
    requires pos < size && k < n < size
    ensures Forward(Forward(pos, n, size), size - n + k, size) == Forward(pos, k, size)
  {
  }

  // ---- The journal round trip ----

  /** The device can take the image behind its log: enough room, zeroed blocks, entries in range. */
  ghost predicate CanCommit(disk: Image, txs: seq<seq<Entry>>, image: seq<Block>, es: seq<Entry>) {
    && Replayable(disk, txs) && IsImage(image, es) && AllInRange(LayoutOf(disk[0]), es)
    && LogBlocks(LayoutOf(disk[0]), RingOf(disk), ScanPosOf(disk[0]), txs) + |image| < JournalSizeOf(disk[0])
    && ZeroAhead(RingOf(disk), EndPos(disk, txs), |image| + 1)
  }

  /** The device when the blocks left are what a crash kept of an image written behind the log. */
  ghost function Committing(disk: Image, txs: seq<seq<Entry>>, left: seq<Block>): (d: Image)
    requires Replayable(disk, txs) && |left| <= JournalSizeOf(disk[0])
    ensures |d| == |disk|
  {
    WithRing(disk, JournalStartOf(disk[0]), Overwrite(RingOf(disk), EndPos(disk, txs), left))
  }

  lemma CommittingMounts(disk: Image, txs: seq<seq<Entry>>, left: seq<Block>)
    requires Replayable(disk, txs) && |left| <= JournalSizeOf(disk[0])
    ensures var d := Committing(disk, txs, left);
      && Mountable(d) && d[0] == disk[0] && RingOf(d) == Overwrite(RingOf(disk), EndPos(disk, txs), left)
      && forall l :: 0 <= l < JournalStartOf(disk[0]) || JournalStartOf(disk[0]) + JournalSizeOf(disk[0]) <= l < |disk|
           ==> d[l] == disk[l]
  {
  }

  /** Journal round trip. A transaction is written behind the log of a mountable device, at any ring
      position, and any subset of its blocks reaches the device: recovery then finds the
      transaction if and only if all of them did, and the earlier log in every case. */
  lemma JournalRoundTrip(disk: Image, txs: seq<seq<Entry>>, image: seq<Block>, es: seq<Entry>, left: seq<Block>)
    requires CanCommit(disk, txs, image, es) && Survives(image, left)
    ensures Replayable(Committing(disk, txs, left), if left == image then txs + [es] else txs)
    ensures left != image ==> EndPos(Committing(disk, txs, left), txs) == EndPos(disk, txs)
    ensures left == image ==>
      EndPos(Committing(disk, txs, left), txs + [es]) == Forward(EndPos(disk, txs), |image|, JournalSizeOf(disk[0]))
  {
    CommittingMounts(disk, txs, left);
    hide Log, LogBlocks, Overwrite, Rotate, Committing, ZeroAhead, IsImage, AllInRange;
    var lay, ring, pos := LayoutOf(disk[0]), RingOf(disk), ScanPosOf(disk[0]);
    var n, more := LogBlocks(lay, ring, pos, txs), if left == image then [es] else [];
    NewTxLog(lay, ring, Forward(pos, n, |ring|), image, es, left);
    OverwriteBehind(ring, pos, n, left);
    LogExtends(lay, ring, Overwrite(ring, Forward(pos, n, |ring|), left), pos, n, txs, more);
    assert txs + [] == txs;
    ForwardTwice(pos, n, |image|, |ring|);
  }

  /** Redoing updates acts on every block by itself. */
  lemma {:induction false} RedoAtSlot(m: Image, m': Image, us: seq<Update>, l: nat)
    requires |m| == |m'| && AllInImage(|m|, us) && l < |m| && m[l] == m'[l]
    ensures Redo(m, us)[l] == Redo(m', us)[l]
    decreases |us|
  {
    if us != [] {
      RedoAtSlot(ApplyUpdate(m, us[0]), ApplyUpdate(m', us[0]), us[1..], l);
    }
  }

  /** A transaction whose blocks did not all arrive leaves no trace outside the ring: every other
      block is recovered as if it had never been written. */
  lemma TornCommitLeavesNoTrace(disk: Image, txs: seq<seq<Entry>>, image: seq<Block>, es: seq<Entry>,
                                left: seq<Block>, l: nat)
    requires CanCommit(disk, txs, image, es) && Survives(image, left) && left != image
    requires l < JournalStartOf(disk[0]) || JournalStartOf(disk[0]) + JournalSizeOf(disk[0]) <= l < |disk|
    ensures Replayable(Committing(disk, txs, left), txs)
    ensures Recovered(Committing(disk, txs, left), txs)[l] == Recovered(disk, txs)[l]
  {
    var d := Committing(disk, txs, left);
    JournalRoundTrip(disk, txs, image, es, left);
    CommittingMounts(disk, txs, left);
    hide Log, LogBlocks;
    RedoAtSlot(Memory(disk[0], disk), Memory(d[0], d), LogUpdates(disk, txs), l + 1);
    RedoAtSlot(Memory(disk[0], disk), Memory(d[0], d), LogUpdates(disk, txs), 0);
  }

  lemma {:induction false} ConcatSnoc(txs: seq<seq<Entry>>, es: seq<Entry>)
    ensures Concat(txs + [es]) == Concat(txs) + es
  {
    if txs == [] {
      assert txs + [es] == [es] && [es][1..] == [];
    } else {
      assert (txs + [es])[1..] == txs[1..] + [es];
      ConcatSnoc(txs[1..], es);
    }
  }

  /** A transaction whose blocks all arrived is recovered: every table block becomes what the earlier
      log makes of it, followed by exactly the updates of the new entries in order. */
  lemma CommitIsRecovered(disk: Image, txs: seq<seq<Entry>>, image: seq<Block>, es: seq<Entry>, l: nat)
    requires CanCommit(disk, txs, image, es)
    requires l < JournalStartOf(disk[0]) || JournalStartOf(disk[0]) + JournalSizeOf(disk[0]) <= l < |disk|
    ensures Replayable(Committing(disk, txs, image), txs + [es])
    ensures AllInImage(|disk| + 1, UpdatesOf(LayoutOf(disk[0]), es))
    ensures var m := Redo(Redo(Memory(disk[0], disk), LogUpdates(disk, txs)), UpdatesOf(LayoutOf(disk[0]), es));
      Recovered(Committing(disk, txs, image), txs + [es])[l] ==
        if l == 0 then WithOffsets(m[0], Forward(EndPos(disk, txs), |image|, JournalSizeOf(disk[0]))) else m[l + 1]
  {
    var d, lay := Committing(disk, txs, image), LayoutOf(disk[0]);
    JournalRoundTrip(disk, txs, image, es, image);
    CommittingMounts(disk, txs, image);
    UpdatesAreSafe(GeometryOf(disk[0]), |disk|, es);
    hide Log, LogBlocks;
    ConcatSnoc(txs, es);
    UpdatesAppend(lay, Concat(txs), es);
    var us := LogUpdates(d, txs + [es]);
    assert us == LogUpdates(disk, txs) + UpdatesOf(lay, es);
    RedoAtSlot(Memory(disk[0], disk), Memory(d[0], d), us, l + 1);
    RedoAtSlot(Memory(disk[0], disk), Memory(d[0], d), us, 0);
    RedoAppend(Memory(disk[0], disk), LogUpdates(disk, txs), UpdatesOf(lay, es));
  }
}
