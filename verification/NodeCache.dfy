/** The node block cache (src/cache/node_block_cache.c): reference counts that form a tree of cached
    parents and children, replacement, and deletion that cascades upwards. */
module NodeCaching {
  import opened Wrappers
  import opened Bytes
  import LruCache

  datatype State = UpToDate | Dirty | Deleted

  datatype Entry = Entry(parent: U32, lpa: U32, state: State, refCount: nat)

  type Index = map<U32, Entry>

  const INVALID_NID: U32 := 0
  const INVALID_LPA: U32 := 0

  ghost function Plus(handles: multiset<U32>, n: U32): multiset<U32> {
    handles + multiset{n}
  }

  ghost function Minus(handles: multiset<U32>, n: U32): multiset<U32> {
    handles - multiset{n}
  }

  ghost function Children(index: Index, n: U32): set<U32> {
    set k | k in index && index[k].parent == n
  }

  /** A node is referenced by its handles and by its cached children; it is pinned exactly while it is
      referenced; its parent is cached; a deleted node is still referenced. */
  ghost predicate Counted(index: Index, pinned: set<U32>, handles: multiset<U32>, n: U32)
    requires n in index
  {
    var e := index[n];
    && e.refCount == handles[n] + |Children(index, n)|
    && (n in pinned <==> e.refCount > 0)
    && (e.parent != INVALID_NID ==> e.parent in index)
    && (e.state == Deleted ==> e.refCount > 0)
  }

  ghost predicate Books(index: Index, pinned: set<U32>, handles: multiset<U32>) {
    && INVALID_NID !in index && (forall n :: n in index ==> Counted(index, pinned, handles, n))
    && forall n :: n in handles ==> n in index
  }

  // ---- Small steps ----

  lemma ChildrenSame(index: Index, n: U32, e: Entry, k: U32)
    requires n in index && e.parent == index[n].parent
    ensures Children(index[n := e], k) == Children(index, k)
  {
  }

  lemma KeysUpdate(index: Index, n: U32, e: Entry)
    ensures |index[n := e]| == |index| + if n in index then 0 else 1
  {
    assert index[n := e].Keys == index.Keys + {n};
  }

  lemma KeysMinus(index: Index, n: U32)
    requires n in index
    ensures |index - {n}| == |index| - 1
  {
    assert (index - {n}).Keys == index.Keys - {n};
  }

  /** One reference more. */
  lemma BooksAddRef(index: Index, pinned: set<U32>, handles: multiset<U32>, n: U32)
    requires Books(index, pinned, handles) && n in index
    ensures var e := index[n].(refCount := index[n].refCount + 1);
      Books(index[n := e], pinned + {n}, Plus(handles, n)) && |index[n := e]| == |index|
    ensures index[n].refCount > 0 ==> n in pinned
  {
    var index' := index[n := index[n].(refCount := index[n].refCount + 1)];
    assert Counted(index, pinned, handles, n);
    KeysUpdate(index, n, index'[n]);
    forall k | k in index' ensures Counted(index', pinned + {n}, Plus(handles, n), k) {
      assert Counted(index, pinned, handles, k);
      ChildrenSame(index, n, index'[n], k);
    }
  }

  /** One reference less, and the node stays. */
  lemma BooksSubRef(index: Index, pinned: set<U32>, handles: multiset<U32>, n: U32)
    requires Books(index, pinned, handles) && NoSelfParent(index) && n in handles
    ensures n in index && index[n].refCount > 0
    ensures index[n].refCount > 1 || index[n].state != Deleted ==>
      var e := index[n].(refCount := index[n].refCount - 1);
      && Books(index[n := e], if index[n].refCount == 1 then pinned - {n} else pinned, Minus(handles, n))
      && NoSelfParent(index[n := e]) && |index[n := e]| == |index|
  {
    assert Counted(index, pinned, handles, n);
    if index[n].refCount > 1 || index[n].state != Deleted {
      var index' := index[n := index[n].(refCount := index[n].refCount - 1)];
      KeysUpdate(index, n, index'[n]);
      var pinned' := if index[n].refCount == 1 then pinned - {n} else pinned;
      forall k | k in index' ensures Counted(index', pinned', Minus(handles, n), k) {
        assert Counted(index, pinned, handles, k);
        ChildrenSame(index, n, index'[n], k);
      }
    }
  }

  /** The reference that a leaving child held on its parent, turned into a handle. */
  ghost function Inherit(handles: multiset<U32>, parent: U32): multiset<U32> {
    if parent == INVALID_NID then handles else Plus(handles, parent)
  }

  /** A handle on the parent, turned into the reference of an entering child. */
  ghost function Consume(handles: multiset<U32>, parent: U32): multiset<U32> {
    if parent == INVALID_NID then handles else Minus(handles, parent)
  }

  lemma InheritThenMinus(handles: multiset<U32>, parent: U32)
    ensures parent != INVALID_NID ==>
      parent in Inherit(handles, parent) && Minus(Inherit(handles, parent), parent) == handles
    ensures parent == INVALID_NID ==> Inherit(handles, parent) == handles
  {
  }

  /** A node without any reference leaves; what it held on its parent is now to be released. */
  lemma BooksLeave(index: Index, pinned: set<U32>, handles: multiset<U32>, n: U32)
    requires INVALID_NID !in index && n in index && index[n].refCount == handles[n] + |Children(index, n)|
    requires forall k :: k in index && k != n ==> Counted(index, pinned, handles, k)
    requires (forall k :: k in handles ==> k in index) &&
      (index[n].parent != INVALID_NID ==> index[n].parent in index && index[n].parent != n)
    requires index[n].refCount == 0
    ensures Books(index - {n}, pinned - {n}, Inherit(handles, index[n].parent)) && |index - {n}| == |index| - 1
  {
    var index', p := index - {n}, index[n].parent;
    KeysMinus(index, n);
    assert Children(index, n) == {};
    forall k | k in index' ensures Counted(index', pinned - {n}, Inherit(handles, p), k) {
      assert Counted(index, pinned, handles, k);
      assert Children(index', k) == Children(index, k) - (if k == p then {n} else {});
      assert k !in Children(index, n);
    }
  }

  /** No node is its own parent. */
  ghost predicate NoSelfParent(index: Index) {
    forall n :: n in index ==> index[n].parent != n
  }

  /** An unreferenced node may be replaced. */
  lemma BooksEvict(index: Index, pinned: set<U32>, handles: multiset<U32>, n: U32)
    requires Books(index, pinned, handles) && NoSelfParent(index) && n in index && n !in pinned
    ensures Books(index - {n}, pinned, Inherit(handles, index[n].parent)) && NoSelfParent(index - {n})
    ensures |index - {n}| == |index| - 1 && n !in handles && Children(index, n) == {}
  {
    assert Counted(index, pinned, handles, n);
    BooksLeave(index, pinned, handles, n);
    assert pinned - {n} == pinned;
  }

  /** A deleted node leaves with its last reference. */
  lemma BooksDelete(index: Index, pinned: set<U32>, handles: multiset<U32>, n: U32)
    requires Books(index, pinned, handles) && NoSelfParent(index) && n in handles && n in index &&
      index[n].refCount == 1
    ensures Books(index - {n}, pinned - {n}, Inherit(Minus(handles, n), index[n].parent))
    ensures NoSelfParent(index - {n}) && |index - {n}| == |index| - 1 && Children(index, n) == {}
  {
    var e := index[n].(refCount := 0);
    var mid := index[n := e];
    assert Counted(index, pinned, handles, n);
    ChildrenSame(index, n, e, n);
    forall k | k in mid && k != n ensures Counted(mid, pinned, Minus(handles, n), k) {
      assert Counted(index, pinned, handles, k);
      ChildrenSame(index, n, e, k);
    }
    BooksLeave(mid, pinned, Minus(handles, n), n);
    KeysUpdate(index, n, e);
    assert mid - {n} == index - {n};
  }

  /** A new node enters with one handle, and holds a reference on its parent. */
  lemma BooksEnter(index: Index, pinned: set<U32>, handles: multiset<U32>, n: U32, parent: U32, lpa: U32)
    requires Books(index, pinned, handles) && NoSelfParent(index) && n !in index && n != INVALID_NID && n !in pinned
    requires parent != INVALID_NID ==> parent in handles
    ensures parent != INVALID_NID ==> parent in index
    ensures var index' := index[n := Entry(parent, lpa, UpToDate, 0)];
      && Books(index', pinned, Consume(handles, parent)) && NoSelfParent(index') && |index'| == |index| + 1
  {
    var e := Entry(parent, lpa, UpToDate, 0);
    var index' := index[n := e];
    KeysUpdate(index, n, e);
    forall c | c in index ensures index[c].parent != n { assert Counted(index, pinned, handles, c); }
    EnterCounted(index, index', pinned, handles, n, e);
    hide Counted;
  }

  lemma EnterCounted(index: Index, index': Index, pinned: set<U32>, handles: multiset<U32>, n: U32, e: Entry)
    requires Books(index, pinned, handles) && n !in index && n !in pinned && e.refCount == 0 && e.state != Deleted &&
      e.parent != n
    requires (e.parent != INVALID_NID ==> e.parent in handles) && forall c :: c in index ==> index[c].parent != n
    requires index' == index[n := e]
    ensures forall k :: k in index' ==> Counted(index', pinned, Consume(handles, e.parent), k)
  {
    forall k | k in index' ensures Counted(index', pinned, Consume(handles, e.parent), k) {
      EnterChildren(index, n, e, k);
      if k != n { assert Counted(index, pinned, handles, k); }
    }
  }

  lemma EnterChildren(index: Index, n: U32, e: Entry, k: U32)
    requires n !in index && e.parent != n && forall c :: c in index ==> index[c].parent != n
    ensures |Children(index[n := e], k)| == |Children(index, k)| + (if k == e.parent then 1 else 0)
    ensures k == n ==> Children(index[n := e], k) == {}
  {
    assert Children(index[n := e], k) == Children(index, k) + (if k == e.parent then {n} else {});
  }

  // ---- The cascade as a function ----

  /** What dropping one reference does: the deleted nodes that leave, children first. */
  ghost function Dropped(index: Index, n: U32): (r: (Index, seq<U32>))
    decreases |index|
  {
    if n !in index || index[n].refCount == 0 then (index, [])
    else if index[n].refCount > 1 || index[n].state != Deleted then
      (index[n := index[n].(refCount := index[n].refCount - 1)], [])
    else
      KeysMinus(index, n);
      if index[n].parent == INVALID_NID then (index - {n}, [n])
      else
        var rest := Dropped(index - {n}, index[n].parent);
        (rest.0, [n] + rest.1)
  }

  /** Exactly the nodes that leave are freed, each once, and all of them were deleted. */
  lemma {:induction false} DroppedFrees(index: Index, n: U32)
    ensures var (after, freed) := Dropped(index, n);
      && (forall i, j :: 0 <= i < j < |freed| ==> freed[i] != freed[j])
      && (forall k :: k in freed <==> k in index && k !in after)
      && (forall k :: k in freed ==> index[k].state == Deleted)
      && (forall k :: k in after ==>
        k in index && after[k].state == index[k].state && after[k].parent == index[k].parent &&
          after[k].lpa == index[k].lpa)
    decreases |index|
  {
    if n in index && index[n].refCount == 1 && index[n].state == Deleted && index[n].parent != INVALID_NID {
      KeysMinus(index, n);
      DroppedFrees(index - {n}, index[n].parent);
      var freed := Dropped(index, n).1;
      assert freed == [n] + Dropped(index - {n}, index[n].parent).1;
    }
  }

  /** The nodes still cached stand as they stood, but for their reference counts. */
  ghost predicate Kept(before: Index, after: Index) {
    forall k :: k in after ==>
      && k in before && after[k].state == before[k].state && after[k].parent == before[k].parent
      && after[k].lpa == before[k].lpa
  }

  lemma KeptItself(a: Index)
    ensures Kept(a, a)
  {
  }

  lemma KeptWithout(a: Index, n: U32)
    ensures Kept(a, a - {n})
  {
  }

  lemma KeptEntered(a: Index, b: Index, n: U32, parent: U32, lpa: U32)
    requires n !in a && parent != n
    requires b == (if parent in a && parent != INVALID_NID then a[parent := a[parent].(refCount := a[parent].refCount +
      1)] else a)
                  [n := Entry(parent, lpa, UpToDate, 1)]
    ensures Kept(a[n := Entry(parent, lpa, UpToDate, 1)], b)
  {
  }

  lemma KeptChain(a: Index, b: Index, c: Index)
    requires Kept(a, b) && Kept(b, c)
    ensures Kept(a, c)
  {
  }

  // ---- What a change of the cache gives back ----

  /** Between the two states exactly the deleted nodes that have left the cache gave back their nids,
      each once, and with them their LPAs; nothing else was given back. */
  ghost predicate Frees(given: (seq<U32>, seq<U32>), now: (seq<U32>, seq<U32>), before: Index, after: Index) {
    && given.0 <= now.0 && Distinct(now.0[|given.0|..])
    && (forall k :: k in now.0[|given.0|..] <==> k in before && before[k].state == Deleted && k !in after)
    && now.1 == given.1 + Lpas(before, now.0[|given.0|..])
  }

  lemma FreesNothing(given: (seq<U32>, seq<U32>), index: Index)
    ensures Frees(given, given, index, index)
  {
    assert given.0[|given.0|..] == [] && Lpas(index, []) == [];
  }

  lemma EvictedIsNotDeleted(index: Index, pinned: set<U32>, handles: multiset<U32>, n: U32)
    requires Books(index, pinned, handles) && n in index && n !in pinned
    ensures index[n].state != Deleted && index[n].refCount == 0
  {
    assert Counted(index, pinned, handles, n);
  }

  lemma EvictingFreesNothing(given: (seq<U32>, seq<U32>), index: Index, n: U32)
    requires n in index && index[n].state != Deleted
    ensures Frees(given, given, index, index - {n})
  {
    FreesNothing(given, index);
  }

  /** One unreferenced node has left, and with it a reference on its parent. */
  ghost predicate Evicted(before: Index, after: Index, n: U32) {
    && n in before && before[n].refCount == 0
    && after == if before[n].parent == INVALID_NID then before - {n} else Dropped(before - {n}, before[n].parent).0
  }

  lemma {:induction false} LpasAppend(index: Index, a: seq<U32>, b: seq<U32>)
    ensures Lpas(index, a + b) == Lpas(index, a) + Lpas(index, b)
  {
    if a == [] {
      assert a + b == b;
    } else {
      assert (a + b)[1..] == a[1..] + b;
      LpasAppend(index, a[1..], b);
    }
  }

  lemma {:induction false} LpasAlike(a: Index, b: Index, freed: seq<U32>)
    requires forall k :: k in freed ==> k in a && k in b && a[k].lpa == b[k].lpa
    ensures Lpas(a, freed) == Lpas(b, freed)
  {
    if freed != [] {
      assert freed[0] in freed && forall k :: k in freed[1..] ==> k in freed;
      LpasAlike(a, b, freed[1..]);
    }
  }

  lemma FreesChain(x: (seq<U32>, seq<U32>), y: (seq<U32>, seq<U32>), z: (seq<U32>, seq<U32>), a: Index, b: Index,
                   c: Index)
    requires Frees(x, y, a, b) && Frees(y, z, b, c) && Kept(a, b) && Kept(b, c)
    ensures Frees(x, z, a, c)
  {
    var m, n := y.0[|x.0|..], z.0[|y.0|..];
    assert z.0[|x.0|..] == m + n;
    LpasAppend(a, m, n);
    LpasAlike(a, b, n);
    Assoc(x.1, Lpas(a, m), Lpas(a, n));
    forall k ensures k in m + n <==> k in a && a[k].state == Deleted && k !in c {
      assert k in n <==> k in b && b[k].state == Deleted && k !in c;
      assert k in m <==> k in a && a[k].state == Deleted && k !in b;
    }
    forall i, j | 0 <= i < j < |m + n| ensures (m + n)[i] != (m + n)[j] {
      if i < |m| && j >= |m| { assert m[i] in m && n[j - |m|] in n; }
    }
  }

  /** Only keys, states and LPAs of the earlier index matter. */
  lemma FreesSameStates(given: (seq<U32>, seq<U32>), now: (seq<U32>, seq<U32>), a: Index, b: Index, after: Index)
    requires Frees(given, now, b, after) && a.Keys == b.Keys && Kept(a, b)
    ensures Frees(given, now, a, after)
  {
    var more := now.0[|given.0|..];
    forall k | k in more ensures k in a && k in b && a[k].lpa == b[k].lpa {}
    LpasAlike(a, b, more);
  }

  /** So a node that leaves in any other state gives back neither its nid nor its LPA. */
  lemma EvictionKeepsNid(given: (seq<U32>, seq<U32>), now: (seq<U32>, seq<U32>), before: Index, after: Index, n: U32)
    requires Frees(given, now, before, after) && n in before && before[n].state != Deleted
    requires forall k :: k in before && k != n ==> before[k].lpa != before[n].lpa
    ensures n !in now.0[|given.0|..] && (before[n].lpa != INVALID_LPA ==> before[n].lpa !in now.1[|given.1|..])
  {
    var more := now.0[|given.0|..];
    assert now.1[|given.1|..] == Lpas(before, more);
    LpasFrom(before, more, before[n].lpa);
  }

  lemma {:induction false} LpasFrom(index: Index, freed: seq<U32>, l: U32)
    ensures l in Lpas(index, freed) <==>
      l != INVALID_LPA && exists k :: k in freed && k in index && index[k].lpa == l
  {
    if freed != [] {
      LpasFrom(index, freed[1..], l);
      var first := if freed[0] in index then LpaOf(index[freed[0]]) else [];
      assert Lpas(index, freed) == first + Lpas(index, freed[1..]);
      assert forall k :: k in freed <==> k == freed[0] || k in freed[1..];
    }
  }

  lemma DoneFrees(n: U32, s: Books4, t: Books4)
    requires SubRefDone(n, s, t)
    ensures Frees((s.freed, s.invalidated), (t.freed, t.invalidated), s.index, t.index)
  {
    DroppedFrees(s.index, n);
    assert t.freed[|s.freed|..] == Dropped(s.index, n).1;
  }

  lemma DoneIndex(n: U32, s: Books4, t: Books4)
    requires SubRefDone(n, s, t)
    ensures t.index == Dropped(s.index, n).0
  {
  }

  // ---- The cache ----

  class NodeCache {
    const manager: LruCache.CacheManager<Entry>
    const expectSize: nat
    var curSize: nat
    var freedNids: seq<U32>       // the nids given back (superManagerFreeNid)
    var invalidated: seq<U32>     // the LPAs given back (sitInvalidateLpa)
    ghost var handles: multiset<U32>

    /** What has been given back so far: nids and LPAs. */
    ghost function Returned(): (seq<U32>, seq<U32>)
      reads this`freedNids, this`invalidated
    {
      (freedNids, invalidated)
    }

    ghost predicate Valid()
      reads this, manager, manager.replacer
    {
      && manager.Valid() && curSize == |manager.index| && NoSelfParent(manager.index)
      && Books(manager.index, manager.Pinned(), handles)
    }

    constructor (expectSize: nat)
      ensures Valid() && manager.index == map[] && handles == multiset{} && freedNids == [] && invalidated == []
    {
      this.expectSize, curSize, freedNids, invalidated, handles := expectSize, 0, [], [], multiset{};
      manager := new LruCache.CacheManager<Entry>();
    }

    /** nodeBlockCacheAddRefCount */
    method AddRef(n: U32)
      requires Valid() && n in manager.index
      modifies this`handles, manager`index, manager.replacer
      ensures Valid() && handles == Plus(old(handles), n)
      ensures var e := old(manager.index)[n]; manager.index == old(manager.index)[n := e.(refCount := e.refCount + 1)]
    {
      hide Books;
      var e := manager.index[n];
      BooksAddRef(manager.index, manager.Pinned(), handles, n);
      ghost var pinned := manager.Pinned();
      manager.Set(n, e.(refCount := e.refCount + 1));
      handles := Plus(handles, n);
      if e.refCount == 0 { manager.Pin(n); } else { assert pinned + {n} == pinned; }
    }

    /** A deleted node gives up its last reference: its nid and LPA are freed and it leaves the cache.
        The reference it held on its parent becomes a handle that is still to be released. */
    method RemoveDeleted(n: U32)
      requires Valid() && n in handles && n in manager.index
      requires manager.index[n].refCount == 1 && manager.index[n].state == Deleted
      modifies this`handles, this`curSize, this`freedNids, this`invalidated, manager`index, manager.replacer
      ensures Valid() && handles == Inherit(Minus(old(handles), n), old(manager.index)[n].parent)
      ensures manager.index == old(manager.index) - {n} && |manager.index| == |old(manager.index)| - 1
      ensures freedNids == old(freedNids) + [n]
      ensures invalidated == old(invalidated) + LpaOf(old(manager.index)[n])
    {
      hide Books, NoSelfParent, Minus, Inherit, LruCache.CacheManager.Pinned, LruCache.CacheManager.Valid;
      var e := manager.index[n];
      ghost var before, pinned := manager.index, manager.Pinned();
      BooksDelete(before, pinned, handles, n);
      manager.Unpin(n);
      assert manager.Pinned() == pinned - {n};
      freedNids := freedNids + [n];
      if e.lpa != INVALID_LPA { invalidated := invalidated + [e.lpa]; }
      manager.Remove(n);
      assert manager.Pinned() == pinned - {n};
      curSize, handles := curSize - 1, Inherit(Minus(handles, n), e.parent);
    }

    /** A reference goes, and the node stays. */
    method DropOne(n: U32)
      requires Valid() && n in handles && n in manager.index && manager.index[n].refCount > 0
      requires manager.index[n].refCount > 1 || manager.index[n].state != Deleted
      modifies this`handles, manager`index, manager.replacer
      ensures Valid() && handles == Minus(old(handles), n)
      ensures var e := old(manager.index)[n]; manager.index == old(manager.index)[n := e.(refCount := e.refCount - 1)]
    {
      hide Books, NoSelfParent, Minus;
      var e := manager.index[n];
      ghost var pinned := manager.Pinned();
      BooksSubRef(manager.index, pinned, handles, n);
      if e.refCount == 1 {
        manager.Unpin(n);
        assert manager.Pinned() == pinned - {n};
      }
      manager.Set(n, e.(refCount := e.refCount - 1));
      handles := Minus(handles, n);
    }

    /** nodeBlockCacheSubRefCount: the cascade up the chain of deleted parents ends because each turn
        removes a node. Exactly the nodes of the cascade are freed. */
    method SubRef(n: U32)
      requires Valid() && n in handles
      modifies this`handles, this`curSize, this`freedNids, this`invalidated, manager`index, manager.replacer
      ensures Valid()
      ensures SubRefDone(n, Books4(old(manager.index), old(handles), old(freedNids), old(invalidated)),
                         Books4(manager.index, handles, freedNids, invalidated))
      decreases |manager.index|
    {
      BooksSubRef(manager.index, manager.Pinned(), handles, n);
      hide Books, NoSelfParent, Minus, Inherit, SubRefDone;
      var e := manager.index[n];
      ghost var s := Books4(manager.index, handles, freedNids, invalidated);
      if e.refCount > 1 || e.state != Deleted {
        DropOne(n);
        DonePlain(n, s);
        return;
      }
      InheritThenMinus(Minus(handles, n), e.parent);
      RemoveDeleted(n);
      ghost var t := Books4(manager.index, handles, freedNids, invalidated);
      if e.parent != INVALID_NID { SubRef(e.parent); }
      DoneCascade(n, s, t, Books4(manager.index, handles, freedNids, invalidated));
    }

    /** nodeBlockCacheGet: a handle on a cached node. */
    method Get(n: U32) returns (found: bool)
      requires Valid()
      modifies this`handles, manager`index, manager.replacer
      ensures Valid() && (found <==> n in old(manager.index))
      ensures found ==> n in old(manager.index) && handles == Plus(old(handles), n)
      ensures found ==>
        var e := old(manager.index)[n]; manager.index == old(manager.index)[n := e.(refCount := e.refCount + 1)]
      ensures !found ==> handles == old(handles) && manager.index == old(manager.index)
    {
      hide Books, NoSelfParent;
      var entry := manager.Get(n, true);
      found := entry.Some?;
      if found { AddRef(n); }
    }

    /** The entry of a node the caller holds changes its state or its LPA. */
    method SetEntry(n: U32, state: State, lpa: U32)
      requires Valid() && n in handles && n in manager.index
      modifies manager`index
      ensures Valid() && manager.index == old(manager.index)[n := old(manager.index)[n].(state := state, lpa := lpa)]
    {
      var e := manager.index[n].(state := state, lpa := lpa);
      BooksSetEntry(manager.index, manager.Pinned(), handles, n, e);
      hide Books, NoSelfParent;
      manager.Set(n, e);
    }

    /** The parts of nodeBlockCacheDoReplace for one victim: it leaves, and so does its reference on
        its parent, with the cascade that may follow. */
    method ReplaceOne() returns (done: bool)
      requires Valid()
      modifies this`handles, this`curSize, this`freedNids, this`invalidated, manager`index, manager.replacer
      ensures Valid() && handles == old(handles)
      ensures Kept(old(manager.index), manager.index) && (done ==> |manager.index| < |old(manager.index)|)
      ensures !done ==> manager.index == old(manager.index) && forall n :: n in manager.index ==> n in manager.Pinned()
      ensures done ==> exists n :: Evicted(old(manager.index), manager.index, n)
      ensures Frees(old(Returned()), Returned(), old(manager.index), manager.index)
    {
      hide Books, NoSelfParent, Inherit, Minus, SubRefDone, Kept, Frees, LruCache.CacheManager.Valid,
        LruCache.CacheManager.Pinned;
      ghost var before, given := manager.index, Returned();
      KeptItself(before);
      FreesNothing(given, before);
      var victim := manager.ReplaceOne();
      if victim.None? { return false; }
      var n, e := victim.value.0, victim.value.1;
      BooksEvict(before, manager.Pinned(), handles, n);
      EvictedIsNotDeleted(before, manager.Pinned(), handles, n);
      EvictingFreesNothing(given, before, n);
      InheritThenMinus(handles, e.parent);
      ghost var s := Books4(manager.index, Inherit(handles, e.parent), freedNids, invalidated);
      curSize, handles := curSize - 1, Inherit(handles, e.parent);
      KeptWithout(before, n);
      if e.parent != INVALID_NID {
        SubRef(e.parent);
        DoneShrinks(e.parent, s, Books4(manager.index, handles, freedNids, invalidated));
        KeptChain(before, s.index, manager.index);
        DoneFrees(e.parent, s, Books4(manager.index, handles, freedNids, invalidated));
        FreesChain(given, given, Returned(), before, s.index, manager.index);
        DoneIndex(e.parent, s, Books4(manager.index, handles, freedNids, invalidated));
      }
      assert Evicted(before, manager.index, n);
      done := true;
    }

    /** nodeBlockCacheDoReplace: nodes leave until the cache has its expected size or all are
        referenced. No referenced node leaves, and nid and LPA are given back for exactly the deleted
        nodes that leave: not for one that is merely evicted. */
    method DoReplace()
      requires Valid()
      modifies this`handles, this`curSize, this`freedNids, this`invalidated, manager`index, manager.replacer
      ensures Valid() && handles == old(handles) && Kept(old(manager.index), manager.index)
      ensures curSize <= expectSize || forall n :: n in manager.index ==> n in manager.Pinned()
      ensures Frees(old(Returned()), Returned(), old(manager.index), manager.index)
      ensures old(curSize) <= expectSize ==> manager.index == old(manager.index)
    {
      hide Books, NoSelfParent, Kept, Frees, Evicted;
      ghost var before, given := manager.index, Returned();
      KeptItself(before);
      FreesNothing(given, before);
      var done := curSize <= expectSize;
      while !done
        invariant Valid() && handles == old(handles) && Kept(before, manager.index)
        invariant Frees(given, Returned(), before, manager.index)
        invariant old(curSize) <= expectSize ==> done && manager.index == before
        invariant done ==> curSize <= expectSize || forall n :: n in manager.index ==> n in manager.Pinned()
        decreases |manager.index|, !done
      {
        ghost var now, so := manager.index, Returned();
        var replaced := ReplaceOne();
        FreesChain(given, so, Returned(), before, now, manager.index);
        KeptChain(before, now, manager.index);
        done := !replaced || curSize <= expectSize;
      }
    }

    /** The part of nodeBlockCacheAdd before the replacement. */
    method Enter(n: U32, parent: U32, lpa: U32)
      requires Valid() && n !in manager.index && n != INVALID_NID && (parent != INVALID_NID ==> parent in manager.index)
      modifies this`handles, this`curSize, manager`index, manager.replacer
      ensures Valid() && handles == Plus(old(handles), n) && curSize == old(curSize) + 1
      ensures Kept(old(manager.index)[n := Entry(parent, lpa, UpToDate, 1)], manager.index)
      ensures manager.index.Keys == old(manager.index).Keys + {n}
    {
      hide Books, NoSelfParent, Plus, Consume, Kept, LruCache.CacheManager.Valid, LruCache.CacheManager.Pinned;
      ghost var before := manager.index;
      if parent != INVALID_NID { AddRef(parent); }
      ConsumeBack(old(handles), parent);
      manager.PinnedAreCached();
      BooksEnter(manager.index, manager.Pinned(), handles, n, parent, lpa);
      manager.Add(n, Entry(parent, lpa, UpToDate, 0));
      handles, curSize := Consume(handles, parent), curSize + 1;
      AddRef(n);
      KeptEntered(before, manager.index, n, parent, lpa);
    }

    /** nodeBlockCacheAdd: the new node takes a reference on its cached parent, and the caller a handle
        on the node. */
    method Add(n: U32, parent: U32, lpa: U32)
      requires Valid() && n !in manager.index && n != INVALID_NID && (parent != INVALID_NID ==> parent in manager.index)
      modifies this`handles, this`curSize, this`freedNids, this`invalidated, manager`index, manager.replacer
      ensures Valid() && handles == Plus(old(handles), n) && n in manager.index
      ensures Kept(old(manager.index)[n := Entry(parent, lpa, UpToDate, 1)], manager.index)
      ensures Frees(old(Returned()), Returned(), old(manager.index)[n := Entry(parent, lpa, UpToDate, 1)],
                    manager.index)
      ensures curSize <= expectSize || forall m :: m in manager.index ==> m in manager.Pinned()
      ensures old(curSize) < expectSize ==> manager.index.Keys == old(manager.index).Keys + {n}
    {
      hide Books, NoSelfParent, Plus, Consume, Kept, Frees, LruCache.CacheManager.Valid, LruCache.CacheManager.Pinned;
      ghost var wanted, given := manager.index[n := Entry(parent, lpa, UpToDate, 1)], Returned();
      Enter(n, parent, lpa);
      ghost var full := manager.index;
      DoReplace();
      FreesSameStates(given, Returned(), wanted, full, manager.index);
      KeptChain(wanted, full, manager.index);
      HeldIsCached(manager.index, manager.Pinned(), handles, old(handles), n);
    }
  }

  lemma ConsumeBack(handles: multiset<U32>, parent: U32)
    ensures parent != INVALID_NID ==>
      parent in Plus(handles, parent) && Consume(Plus(handles, parent), parent) == handles
    ensures parent == INVALID_NID ==> Consume(handles, parent) == handles
  {
  }

  /** Whoever holds a handle finds the node in the cache. */
  lemma HeldIsCached(index: Index, pinned: set<U32>, handles: multiset<U32>, before: multiset<U32>, n: U32)
    requires Books(index, pinned, handles) && handles == Plus(before, n)
    ensures n in index
  {
  }

  lemma BooksSetEntry(index: Index, pinned: set<U32>, handles: multiset<U32>, n: U32, e: Entry)
    requires Books(index, pinned, handles) && NoSelfParent(index) && n in handles && n in index
    requires e.parent == index[n].parent && e.refCount == index[n].refCount
    ensures Books(index[n := e], pinned, handles) && NoSelfParent(index[n := e]) && |index[n := e]| == |index|
  {
    var index' := index[n := e];
    KeysUpdate(index, n, e);
    assert Counted(index, pinned, handles, n);
    forall k | k in index' ensures Counted(index', pinned, handles, k) {
      assert Counted(index, pinned, handles, k);
      ChildrenSame(index, n, e, k);
    }
  }

  /** A release never adds a node. */
  lemma DoneShrinks(n: U32, s: Books4, t: Books4)
    requires SubRefDone(n, s, t)
    ensures |t.index| <= |s.index| && t.handles == Minus(s.handles, n) && Kept(s.index, t.index)
  {
    DroppedFrees(s.index, n);
    SubsetKeys(t.index, s.index);
  }

  lemma SubsetKeys(a: Index, b: Index)
    requires forall k :: k in a ==> k in b
    ensures |a| <= |b|
  {
    SubsetSize(a.Keys, b.Keys);
  }

  /** The state that a release changes. */
  datatype Books4 = Books4(index: Index, handles: multiset<U32>, freed: seq<U32>, invalidated: seq<U32>)

  /** One reference on n has been released, with everything that follows from it. */
  ghost predicate SubRefDone(n: U32, s: Books4, t: Books4) {
    && t.handles == Minus(s.handles, n) && t.index == Dropped(s.index, n).0
    && t.freed == s.freed + Dropped(s.index, n).1
    && t.invalidated == s.invalidated + Lpas(s.index, Dropped(s.index, n).1)
  }

  lemma DonePlain(n: U32, s: Books4)
    requires n in s.index && s.index[n].refCount > 0 && (s.index[n].refCount > 1 || s.index[n].state != Deleted)
    ensures SubRefDone(n, s, Books4(s.index[n := s.index[n].(refCount := s.index[n].refCount - 1)],
      Minus(s.handles, n), s.freed, s.invalidated))
  {
    DroppedStep(s.index, n);
  }

  lemma DoneCascade(n: U32, s: Books4, t: Books4, u: Books4)
    requires n in s.index && s.index[n].refCount == 1 && s.index[n].state == Deleted
    requires t == Books4(s.index - {n}, Inherit(Minus(s.handles, n), s.index[n].parent), s.freed + [n],
      s.invalidated + LpaOf(s.index[n]))
    requires if s.index[n].parent == INVALID_NID then u == t else SubRefDone(s.index[n].parent, t, u)
    ensures SubRefDone(n, s, u)
  {
    var p := s.index[n].parent;
    InheritThenMinus(Minus(s.handles, n), p);
    if p == INVALID_NID {
      DroppedStep(s.index, n);
    } else {
      DoneFurther(n, s, u, Dropped(s.index - {n}, p).0, Dropped(s.index - {n}, p).1);
    }
  }

  /** The cascade goes on at the parent, and frees more there. */
  lemma DoneFurther(n: U32, s: Books4, u: Books4, after: Index, more: seq<U32>)
    requires n in s.index && s.index[n].refCount == 1 && s.index[n].state == Deleted && s.index[n].parent != INVALID_NID
    requires Dropped(s.index - {n}, s.index[n].parent) == (after, more) && u.index == after &&
      u.handles == Minus(s.handles, n)
    requires u.freed == s.freed + [n] + more &&
      u.invalidated == s.invalidated + LpaOf(s.index[n]) + Lpas(s.index - {n}, more)
    ensures SubRefDone(n, s, u)
  {
    DroppedStep(s.index, n);
    hide Dropped, Lpas, LpaOf, Minus;
    assert s.freed + [n] + more == s.freed + ([n] + more);
    Assoc(s.invalidated, LpaOf(s.index[n]), Lpas(s.index - {n}, more));
  }

  lemma Assoc(a: seq<U32>, b: seq<U32>, c: seq<U32>)
    ensures a + b + c == a + (b + c)
  {
  }

  ghost function LpaOf(e: Entry): seq<U32> {
    if e.lpa == INVALID_LPA then [] else [e.lpa]
  }

  /** The LPAs of the freed nodes, in order. */
  ghost function Lpas(index: Index, freed: seq<U32>): seq<U32> {
    if freed == [] then []
    else (if freed[0] in index then LpaOf(index[freed[0]]) else []) + Lpas(index, freed[1..])
  }

  /** One turn of the cascade. */
  lemma DroppedStep(index: Index, n: U32)
    requires n in index && index[n].refCount > 0
    ensures if index[n].refCount > 1 || index[n].state != Deleted then
        && Dropped(index, n) == (index[n := index[n].(refCount := index[n].refCount - 1)], [])
        && Lpas(index, []) == []
      else if index[n].parent == INVALID_NID then Dropped(index, n) == (index - {n}, [n]) &&
        Lpas(index, [n]) == LpaOf(index[n])
      else
        var rest := Dropped(index - {n}, index[n].parent);
        && Dropped(index, n) == (rest.0, [n] + rest.1)
        && Lpas(index, [n] + rest.1) == LpaOf(index[n]) + Lpas(index - {n}, rest.1)
  {
    if !(index[n].refCount > 1 || index[n].state != Deleted) {
      if index[n].parent == INVALID_NID {
        assert [n][1..] == [];
      } else {
        var rest := Dropped(index - {n}, index[n].parent);
        assert ([n] + rest.1)[1..] == rest.1;
        DroppedFrees(index - {n}, index[n].parent);
        LpasWithout(index, n, rest.1);
      }
    }
  }

  lemma {:induction false} LpasWithout(index: Index, n: U32, freed: seq<U32>)
    requires forall k :: k in freed ==> k in index && k != n
    ensures Lpas(index - {n}, freed) == Lpas(index, freed)
  {
    if freed != [] {
      assert freed[0] in freed && forall k :: k in freed[1..] ==> k in freed;
      LpasWithout(index, n, freed[1..]);
    }
  }
}
