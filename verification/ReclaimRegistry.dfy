/** Deferred reclaim (src/fs/cow_reclaim_registry.c): what a transaction replaced is given back only
    after the transaction has completed. */
module ReclaimRegistry {
  import opened Bytes

  /** A registration; regId tells two registrations with the same contents apart. */
  datatype Record = Record(regId: nat, txId: nat, data: seq<U32>, nodes: seq<U32>, deleted: seq<U32>)

  function WithTx(rs: seq<Record>, tx: nat): (r: seq<Record>)
    ensures forall x :: x in r <==> x in rs && x.txId == tx
  {
    if rs == [] then []
    else if rs[|rs| - 1].txId == tx then WithTx(rs[..|rs| - 1], tx) + [rs[|rs| - 1]]
    else WithTx(rs[..|rs| - 1], tx)
  }

  function WithoutTx(rs: seq<Record>, tx: nat): (r: seq<Record>)
    ensures forall x :: x in r <==> x in rs && x.txId != tx
  {
    if rs == [] then []
    else if rs[|rs| - 1].txId == tx then WithoutTx(rs[..|rs| - 1], tx)
    else WithoutTx(rs[..|rs| - 1], tx) + [rs[|rs| - 1]]
  }

  lemma {:induction false} SplitByTx(rs: seq<Record>, tx: nat)
    ensures multiset(WithTx(rs, tx)) + multiset(WithoutTx(rs, tx)) == multiset(rs)
  {
    if rs != [] {
      SplitByTx(rs[..|rs| - 1], tx);
      assert rs == rs[..|rs| - 1] + [rs[|rs| - 1]];
    }
  }

  /** The LPAs a drained record gives back, data first. */
  function Lpas(rs: seq<Record>): seq<U32> {
    if rs == [] then [] else Lpas(rs[..|rs| - 1]) + (rs[|rs| - 1].data + rs[|rs| - 1].nodes)
  }

  function DeletedNodes(rs: seq<Record>): seq<U32> {
    if rs == [] then [] else DeletedNodes(rs[..|rs| - 1]) + rs[|rs| - 1].deleted
  }

  lemma Snoc(rs: seq<Record>, r: Record)
    ensures Lpas(rs + [r]) == Lpas(rs) + (r.data + r.nodes) && DeletedNodes(rs + [r]) == DeletedNodes(rs) + r.deleted
    ensures WithTx(rs + [r], r.txId) == WithTx(rs, r.txId) + [r]
  {
    assert (rs + [r])[..|rs|] == rs;
  }

  /** Every registration is in exactly one of the three places. */
  ghost predicate Ledger(pending: seq<Record>, completed: seq<Record>, drained: seq<Record>, registered: seq<Record>,
                         nextId: nat) {
    && multiset(pending) + multiset(completed) + multiset(drained) == multiset(registered)
    && (forall i, j :: 0 <= i < j < |registered| ==> registered[i].regId != registered[j].regId)
    && forall r :: r in registered ==> r.regId < nextId
  }

  /** Only records of finished transactions have left the pending list. */
  ghost predicate Released(rs: seq<Record>, finished: set<nat>, immediate: set<nat>) {
    forall r :: r in rs ==> r.txId in finished || r.regId in immediate
  }

  lemma LedgerAdd(pending: seq<Record>, completed: seq<Record>, drained: seq<Record>, registered: seq<Record>,
                  nextId: nat, r: Record)
    requires Ledger(pending, completed, drained, registered, nextId) && r.regId == nextId
    ensures Ledger(pending + [r], completed, drained, registered + [r], nextId + 1)
    ensures Ledger(pending, completed + [r], drained, registered + [r], nextId + 1)
  {
    NewRecord(registered, r, nextId);
  }

  lemma LedgerMove(pending: seq<Record>, completed: seq<Record>, drained: seq<Record>, registered: seq<Record>,
                   nextId: nat, tx: nat)
    requires Ledger(pending, completed, drained, registered, nextId)
    ensures Ledger(WithoutTx(pending, tx), completed + WithTx(pending, tx), drained, registered, nextId)
  {
    SplitByTx(pending, tx);
    hide WithTx, WithoutTx;
  }

  lemma LedgerDrain(pending: seq<Record>, completed: seq<Record>, drained: seq<Record>, registered: seq<Record>,
                    nextId: nat)
    requires Ledger(pending, completed, drained, registered, nextId) && completed != []
    ensures Ledger(pending, completed[1..], drained + [completed[0]], registered, nextId)
  {
    assert completed == [completed[0]] + completed[1..];
  }

  lemma ReleasedMore(xs: seq<Record>, ys: seq<Record>, finished: set<nat>, immediate: set<nat>)
    requires Released(xs, finished, immediate) && Released(ys, finished, immediate)
    ensures Released(xs + ys, finished, immediate)
  {
  }

  lemma ReleasedPop(drained: seq<Record>, completed: seq<Record>, finished: set<nat>, immediate: set<nat>)
    requires completed != [] && Released(completed, finished, immediate) && Released(drained, finished, immediate)
    ensures Released(completed[1..], finished, immediate) && Released(drained + [completed[0]], finished, immediate)
    ensures drained + [completed[0]] + completed[1..] == drained + completed
  {
  }

  lemma ReleasedTx(rs: seq<Record>, tx: nat, finished: set<nat>, immediate: set<nat>)
    ensures Released(WithTx(rs, tx), finished + {tx}, immediate)
  {
  }

  lemma ReleasedGrows(rs: seq<Record>, finished: set<nat>, immediate: set<nat>, tx: nat, id: nat)
    requires Released(rs, finished, immediate)
    ensures Released(rs, finished + {tx}, immediate) && Released(rs, finished, immediate + {id})
  {
  }

  /** A record that is registered as completed. */
  lemma AtOnce(pending: seq<Record>, completed: seq<Record>, drained: seq<Record>, registered: seq<Record>, nextId: nat,
               finished: set<nat>, immediate: set<nat>, r: Record)
    requires Ledger(pending, completed, drained, registered, nextId) && r.regId == nextId
    requires Released(completed, finished, immediate) && Released(drained, finished, immediate)
    ensures Ledger(pending, completed + [r], drained, registered + [r], nextId + 1)
    ensures Released(completed + [r], finished, immediate + {r.regId}) &&
      Released(drained, finished, immediate + {r.regId})
  {
    assert Released([r], finished, immediate + {r.regId});
    hide Ledger, Released;
    LedgerAdd(pending, completed, drained, registered, nextId, r);
    ReleasedGrows(completed, finished, immediate, 0, r.regId);
    ReleasedGrows(drained, finished, immediate, 0, r.regId);
    ReleasedMore(completed, [r], finished, immediate + {r.regId});
  }

  /** A record is late if its transaction had been reported before the record came. Of the pending
      records exactly the late ones belong to a reported transaction, and as long as it is reported
      only once they stay there. */
  ghost predicate Punctual(pending: seq<Record>, registered: seq<Record>, finished: set<nat>, late: set<nat>,
                           repeated: set<nat>, nextId: nat) {
    && (forall x :: x in pending ==> (x.txId in finished <==> x.regId in late))
    && (forall x :: x in registered && x.regId in late ==> x.txId in finished && (x.txId in repeated || x in pending))
    && forall id :: id in late ==> id < nextId
  }

  lemma LedgerHas(pending: seq<Record>, completed: seq<Record>, drained: seq<Record>, registered: seq<Record>,
                  nextId: nat)
    requires Ledger(pending, completed, drained, registered, nextId)
    ensures forall x :: x in registered ==> x.regId < nextId
    ensures forall x :: x in registered <==> x in pending || x in completed || x in drained
  {
    forall x ensures x in registered <==> x in pending || x in completed || x in drained {
      assert x in multiset(registered) <==> x in multiset(pending) + multiset(completed) + multiset(drained);
    }
  }

  lemma PunctualAdd(pending: seq<Record>, completed: seq<Record>, drained: seq<Record>, registered: seq<Record>,
                    finished: set<nat>, late: set<nat>, repeated: set<nat>, nextId: nat, r: Record)
    requires Ledger(pending, completed, drained, registered, nextId)
    requires Punctual(pending, registered, finished, late, repeated, nextId) && r.regId == nextId
    ensures Punctual(pending + [r], registered + [r], finished, LateWith(late, finished, r), repeated, nextId + 1)
    ensures Punctual(pending, registered + [r], finished, late, repeated, nextId + 1)
  {
    LedgerHas(pending, completed, drained, registered, nextId);
    hide Ledger;
  }

  ghost function LateWith(late: set<nat>, finished: set<nat>, r: Record): set<nat> {
    if r.txId in finished then late + {r.regId} else late
  }

  lemma PunctualReport(pending: seq<Record>, registered: seq<Record>, finished: set<nat>, late: set<nat>,
                       repeated: set<nat>,
                       nextId: nat, tx: nat)
    requires Punctual(pending, registered, finished, late, repeated, nextId)
    ensures Punctual(WithoutTx(pending, tx), registered, finished + {tx}, late,
                     if tx in finished then repeated + {tx} else repeated, nextId)
  {
  }

  class Registry {
    var active: bool                 // the file system manager is set
    var pending: seq<Record>
    var completed: seq<Record>
    var nextId: nat
    var invalidated: seq<U32>        // the LPAs marked invalid, in order
    var deleted: seq<U32>            // the nodes deleted and released, in order
    ghost var finished: set<nat>     // the transactions whose completion was reported
    ghost var repeated: set<nat>     // the transactions reported more than once
    ghost var immediate: set<nat>    // the records registered as already completed
    ghost var late: set<nat>         // the records registered after the report of their transaction
    ghost var registered: seq<Record>
    ghost var drained: seq<Record>

    ghost predicate Valid()
      reads this
    {
      && Ledger(pending, completed, drained, registered, nextId)
      && Released(completed, finished, immediate) && Released(drained, finished, immediate)
      && invalidated == Lpas(drained) && deleted == DeletedNodes(drained)
      && Punctual(pending, registered, finished, late, repeated, nextId)
    }

    constructor ()
      ensures Valid() && active && pending == [] && completed == [] && finished == repeated == late == {}
    {
      active, pending, completed, nextId, invalidated, deleted := true, [], [], 0, [], [];
      finished, repeated, immediate, late, registered, drained := {}, {}, {}, {}, [], [];
    }

    /** cowReclaimRegistryRegister: nothing is given back yet. */
    method Register(txId: nat, data: seq<U32>, nodes: seq<U32>, deletedNodes: seq<U32>)
      requires Valid()
      modifies this`pending, this`nextId, this`registered, this`late
      ensures Valid()
      ensures if !active || (data == [] && nodes == [] && deletedNodes == [])
              then pending == old(pending) && registered == old(registered) && late == old(late)
              else pending == old(pending) + [Record(old(nextId), txId, data, nodes, deletedNodes)] &&
                   registered == old(registered) + [Record(old(nextId), txId, data, nodes, deletedNodes)] &&
                   late == if txId in finished then old(late) + {old(nextId)} else old(late)
    {
      if !active || (|data| == 0 && |nodes| == 0 && |deletedNodes| == 0) { return; }
      hide Ledger, Released, Lpas, DeletedNodes, Punctual;
      var r := Record(nextId, txId, data, nodes, deletedNodes);
      LedgerAdd(pending, completed, drained, registered, nextId, r);
      PunctualAdd(pending, completed, drained, registered, finished, late, repeated, nextId, r);
      late := LateWith(late, finished, r);
      pending, registered, nextId := pending + [r], registered + [r], nextId + 1;
    }

    /** cowReclaimRegistryRegisterCompleted, as recovery uses it for transactions it has replayed. */
    method RegisterCompleted(data: seq<U32>, nodes: seq<U32>, deletedNodes: seq<U32>)
      requires Valid()
      modifies this`completed, this`nextId, this`registered, this`immediate
      ensures Valid()
      ensures if !active || (data == [] && nodes == [] && deletedNodes == [])
              then completed == old(completed) && registered == old(registered)
              else completed == old(completed) + [Record(old(nextId), 0, data, nodes, deletedNodes)]
    {
      if !active || (|data| == 0 && |nodes| == 0 && |deletedNodes| == 0) { return; }
      var r := Record(nextId, 0, data, nodes, deletedNodes);
      hide Ledger, Released, Lpas, DeletedNodes, Punctual;
      PunctualAdd(pending, completed, drained, registered, finished, late, repeated, nextId, r);
      AtOnce(pending, completed, drained, registered, nextId, finished, immediate, r);
      completed, registered, nextId := completed + [r], registered + [r], nextId + 1;
      immediate := immediate + {r.regId};
    }

    /** cowReclaimRegistryOnTxComplete: the records of the transaction move over, in order; no other
        record moves. */
    method OnTxComplete(txId: nat)
      requires Valid()
      modifies this`pending, this`completed, this`finished, this`repeated
      ensures Valid() && finished == old(finished) + {txId}
      ensures repeated == if txId in old(finished) then old(repeated) + {txId} else old(repeated)
      ensures pending == WithoutTx(old(pending), txId)
      ensures completed == old(completed) + WithTx(old(pending), txId)
    {
      hide Ledger, Released, Lpas, DeletedNodes, Punctual;
      var all, i := pending, 0;
      var stay: seq<Record>, move: seq<Record> := [], [];
      while i < |all|
        invariant i <= |all| && stay == WithoutTx(all[..i], txId) && move == WithTx(all[..i], txId)
      {
        assert all[..i + 1][..i] == all[..i];
        if all[i].txId == txId { move := move + [all[i]]; } else { stay := stay + [all[i]]; }
        i := i + 1;
      }
      assert all[..i] == all;
      LedgerMove(pending, completed, drained, registered, nextId, txId);
      ReleasedGrows(completed, finished, immediate, txId, 0);
      ReleasedGrows(drained, finished, immediate, txId, 0);
      ReleasedTx(all, txId, finished, immediate);
      ReleasedMore(completed, move, finished + {txId}, immediate);
      PunctualReport(pending, registered, finished, late, repeated, nextId, txId);
      if txId in finished { repeated := repeated + {txId}; }
      pending, completed, finished := stay, completed + move, finished + {txId};
    }

    /** cowReclaimRegistryDrainCompleted: every completed record is given back once, in order. */
    method DrainCompleted()
      requires Valid()
      modifies this`completed, this`invalidated, this`deleted, this`drained
      ensures Valid()
      ensures !active ==> completed == old(completed) && invalidated == old(invalidated)
      ensures active ==> completed == [] && drained == old(drained) + old(completed)
    {
      if !active { return; }
      ghost var d0, c0 := drained, completed;
      while completed != []
        invariant Valid() && drained + completed == d0 + c0
        decreases |completed|
      {
        DrainOne();
      }
    }

    /** The oldest completed record is given back. */
    method DrainOne()
      requires Valid() && completed != []
      modifies this`completed, this`invalidated, this`deleted, this`drained
      ensures Valid() && completed == old(completed)[1..] && drained == old(drained) + [old(completed)[0]]
      ensures drained + completed == old(drained) + old(completed)
    {
      hide Ledger, Released, Lpas, DeletedNodes, Punctual;
      var r := completed[0];
      LedgerDrain(pending, completed, drained, registered, nextId);
      ReleasedPop(drained, completed, finished, immediate);
      Snoc(drained, r);
      invalidated, deleted := invalidated + (r.data + r.nodes), deleted + r.deleted;
      completed, drained := completed[1..], drained + [r];
    }

    /** An LPA given back belongs to a registration whose transaction had completed by then. */
    lemma GivenBackAfterCompletion(l: U32)
      requires Valid() && l in invalidated
      ensures exists r :: r in drained && l in r.data + r.nodes && (r.txId in finished || r.regId in immediate)
    {
      LpaFrom(drained, l);
    }

    /** Over any run: of the records whose transaction was reported once, exactly those that came after
        the report are stranded. Every other one is given back, at the latest by the next drain. */
    lemma StrandedIffLate(r: Record)
      requires Valid() && r in registered && r.txId in finished && r.txId !in repeated && r.regId !in immediate
      ensures r in pending <==> r.regId in late
      ensures r.regId !in late ==> r in completed || r in drained
      ensures r.regId in late ==> r !in completed && r !in drained
    {
      LedgerHas(pending, completed, drained, registered, nextId);
      OnceRegistered(registered, r);
      assert multiset(pending)[r] + multiset(completed)[r] + multiset(drained)[r] == multiset(registered)[r];
    }

    /** No registration is given back twice: a drained record is nowhere else, and once among the drained. */
    lemma GivenBackOnce(r: Record)
      requires Valid() && r in drained
      ensures multiset(drained)[r] == 1 && r !in pending && r !in completed
    {
      OnceRegistered(registered, r);
      assert multiset(pending)[r] + multiset(completed)[r] + multiset(drained)[r] == multiset(registered)[r];
      assert r in multiset(drained);
    }
  }

  lemma NewRecord(rs: seq<Record>, r: Record, nextId: nat)
    requires (forall i, j :: 0 <= i < j < |rs| ==> rs[i].regId != rs[j].regId) &&
      (forall x :: x in rs ==> x.regId < nextId)
    requires r.regId == nextId
    ensures forall i, j :: 0 <= i < j < |rs + [r]| ==> (rs + [r])[i].regId != (rs + [r])[j].regId
    ensures multiset(rs + [r]) == multiset(rs) + multiset{r}
  {
    forall i, j | 0 <= i < j < |rs + [r]| ensures (rs + [r])[i].regId != (rs + [r])[j].regId {
      assert rs[i] in rs;
    }
  }

  lemma {:induction false} OnceRegistered(rs: seq<Record>, r: Record)
    requires forall i, j :: 0 <= i < j < |rs| ==> rs[i].regId != rs[j].regId
    ensures multiset(rs)[r] <= 1
  {
    if rs != [] {
      var init := rs[..|rs| - 1];
      OnceRegistered(init, r);
      assert rs == init + [rs[|rs| - 1]];
      forall x | x in init ensures x != rs[|rs| - 1] { var i :| 0 <= i < |init| && init[i] == x; }
    }
  }

  lemma {:induction false} LpaFrom(rs: seq<Record>, l: U32)
    requires l in Lpas(rs)
    ensures exists r :: r in rs && l in r.data + r.nodes
  {
    if l in rs[|rs| - 1].data + rs[|rs| - 1].nodes {
      assert rs[|rs| - 1] in rs;
    } else {
      LpaFrom(rs[..|rs| - 1], l);
      var r :| r in rs[..|rs| - 1] && l in r.data + r.nodes;
      assert r in rs;
    }
  }

  /** A completion that comes before its registration strands the record. */
  method EarlyCompletionStrands(reg: Registry, txId: nat, data: seq<U32>)
    requires reg.Valid() && reg.active && data != []
    modifies reg
    ensures reg.Valid() && reg.pending != [] && reg.pending[|reg.pending| - 1].data == data
    ensures reg.pending[|reg.pending| - 1].txId == txId && txId in reg.finished && reg.completed == []
    ensures reg.pending[|reg.pending| - 1].regId in reg.late
  {
    hide Registry.Valid, WithTx, WithoutTx;
    reg.OnTxComplete(txId);
    reg.Register(txId, data, [], []);
    reg.DrainCompleted();
  }
}
