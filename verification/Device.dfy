/** The block device: blocks addressed by LPA, written whole and atomically, with a history of writes. */
module BlockDevice {
  import opened Bytes
  import opened RedoLog

  datatype Write = Write(lpa: nat, block: Block)

  ghost predicate WritesFit(n: nat, ws: seq<Write>) {
    forall w :: w in ws ==> w.lpa < n
  }

  /** The device after the writes, oldest first. */
  ghost function ApplyWrites(disk: Image, ws: seq<Write>): (r: Image)
    requires WritesFit(|disk|, ws)
    ensures |r| == |disk|
  {
    if ws == [] then disk
    else
      var last := ws[|ws| - 1];
      ApplyWrites(disk, ws[..|ws| - 1])[last.lpa := last.block]
  }

  lemma {:induction false} ApplyWritesAppend(disk: Image, xs: seq<Write>, ys: seq<Write>)
    requires WritesFit(|disk|, xs) && WritesFit(|disk|, ys)
    ensures WritesFit(|disk|, xs + ys)
    ensures ApplyWrites(disk, xs + ys) == ApplyWrites(ApplyWrites(disk, xs), ys)
  {
    if ys == [] {
      assert xs + ys == xs;
    } else {
      assert (xs + ys)[..|xs + ys| - 1] == xs + ys[..|ys| - 1];
      ApplyWritesAppend(disk, xs, ys[..|ys| - 1]);
    }
  }

  /** Between the two histories only the given blocks were written. */
  ghost predicate OnlyTo(before: seq<Write>, after: seq<Write>, lpas: set<U32>) {
    before <= after && forall i :: |before| <= i < |after| ==> after[i].lpa in lpas
  }

  /** Writes to fewer blocks go on writes to more. */
  lemma OnlyToThen(a: seq<Write>, b: seq<Write>, c: seq<Write>, lpas: set<U32>, fewer: set<U32>)
    requires OnlyTo(a, b, lpas) && OnlyTo(b, c, fewer) && fewer <= lpas
    ensures OnlyTo(a, c, lpas)
  {
  }

  class Device {
    // The shipped device counts a journal block as applied as soon as the tail has passed it.
    const eager: bool
    // Whether requests for a file's data and nodes may fail.
    const faulty: bool
    var disk: Image
    ghost var history: seq<Write>
    // The journal ring as the device knows it (src/communication/dev.h).
    var journalStart: nat
    var journalEnd: nat
    var journalHead: nat
    var journalTail: nat

    constructor (image: Image, eager: bool, faulty: bool)
      ensures disk == image && history == [] && this.eager == eager && this.faulty == faulty
    {
      this.eager, this.faulty := eager, faulty;
      disk, history := image, [];
      journalStart, journalEnd, journalHead, journalTail := 0, 0, 0, 0;
    }

    method ReadBlock(lpa: nat) returns (ok: bool, b: Block)
      ensures ok <==> lpa < |disk|
      ensures ok ==> b == disk[lpa]
    {
      if lpa >= |disk| {
        ok, b := false, ZeroBlock();
      } else {
        ok, b := true, disk[lpa];
      }
    }

    method WriteBlock(lpa: nat, b: Block) returns (ok: bool)
      modifies this`disk, this`history
      ensures ok <==> lpa < |old(disk)|
      ensures ok ==> disk == old(disk)[lpa := b] && history == old(history) + [Write(lpa, b)]
      ensures !ok ==> disk == old(disk) && history == old(history)
    {
      ok := lpa < |disk|;
      if ok {
        disk, history := disk[lpa := b], history + [Write(lpa, b)];
      }
    }

    /** comm_submit_sync_update_metajournal_tail_request: the blocks must follow the current tail. */
    method UpdateTail(originLpa: nat, writeBlockNum: nat) returns (ok: bool)
      modifies this`journalHead, this`journalTail
      ensures ok <==> writeBlockNum == 0 ||
                      (journalStart < journalEnd && originLpa == old(journalTail) &&
                        journalStart <= originLpa < journalEnd)
      ensures ok && 0 < writeBlockNum < journalEnd - journalStart ==> (
                journalTail == if originLpa + writeBlockNum < journalEnd then originLpa + writeBlockNum
                               else originLpa + writeBlockNum - (journalEnd - journalStart))
      ensures !ok || writeBlockNum == 0 ==> journalTail == old(journalTail)
      ensures journalHead == if ok && writeBlockNum > 0 && eager then journalTail else old(journalHead)
    {
      if writeBlockNum == 0 { return true; }
      if journalEnd <= journalStart { return false; }
      if originLpa < journalStart || originLpa >= journalEnd { return false; }
      if originLpa != journalTail { return false; }
      var size := journalEnd - journalStart;
      var newOffset := originLpa - journalStart + writeBlockNum % size;
      if newOffset >= size { newOffset := newOffset - size; }
      journalTail := journalStart + newOffset;
      if eager { journalHead := journalTail; }
      ok := true;
    }
  }
}
