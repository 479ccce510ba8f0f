/** Deleting the nodes of a removed file (src/fs/fs_handler.c, src/fs/cow_reclaim_registry.c): the handles
    of the reclaim plan are marked deleted and released one after another. */
module FileRemoval {
  import opened Wrappers
  import opened Bytes
  import B = BlockIndex
  import N = NodeCaching
  import P = ReclaimPlan

  /** The family is closed: the children of its members belong to it, and so do their parents, if they
      have one; parents rank lower than their children. */
  ghost predicate Family(index: N.Index, members: set<U32>, rank: map<U32, nat>) {
    && members <= index.Keys && N.INVALID_NID !in members && members <= rank.Keys
    && (forall c :: c in index && index[c].parent in members ==> c in members)
    && forall c :: c in members ==>
      index[c].parent == N.INVALID_NID || (index[c].parent in members && rank[index[c].parent] < rank[c])
  }

  /** No node is freed before a child of it. */
  ghost predicate ChildrenFirst(index: N.Index, freed: seq<U32>) {
    forall a, b :: 0 <= a < |freed| && 0 <= b < |freed| && freed[a] in index && index[freed[a]].parent == freed[b] ==>
      a < b
  }

  /** Since index0 only the nodes in freed have left, each once and children first; the marked ones of the
      family are deleted. */
  ghost predicate Deleting(index0: N.Index, index: N.Index, marked: set<U32>, freed: seq<U32>) {
    && (forall k :: k in index ==> k in index0 && index[k].parent == index0[k].parent && index[k].lpa == index0[k].lpa)
    && (forall k :: k in index && k in marked ==> index[k].state == N.Deleted)
    && (forall k :: k in index && k !in marked ==> index[k].state == index0[k].state)
    && Distinct(freed) && (forall k :: k in freed <==> k in index0 && k !in index) &&
      (forall k :: k in freed ==> k in marked)
    && ChildrenFirst(index0, freed)
  }

  // ---- One release ----

  /** The nodes of a cascade are a chain from child to parent. */
  lemma {:induction false} DroppedChain(index: N.Index, n: U32)
    ensures var freed := N.Dropped(index, n).1;
      && (freed != [] ==> freed[0] == n)
      && forall k :: 0 <= k < |freed| - 1 ==> freed[k] in index && index[freed[k]].parent == freed[k + 1]
    decreases |index|
  {
    if n in index && index[n].refCount == 1 && index[n].state == N.Deleted && index[n].parent != N.INVALID_NID {
      N.KeysMinus(index, n);
      DroppedChain(index - {n}, index[n].parent);
      var rest := N.Dropped(index - {n}, index[n].parent).1;
      assert N.Dropped(index, n).1 == [n] + rest;
    }
  }

  /** Ranks fall along a chain. */
  lemma {:induction false} RanksFall(index: N.Index, rank: map<U32, nat>, chain: seq<U32>, i: nat, j: nat)
    requires i < j < |chain| && forall k :: k in chain ==> k in index && k in rank
    requires forall k :: 0 <= k < |chain| - 1 ==> index[chain[k]].parent == chain[k + 1]
    requires forall k :: k in chain && index[k].parent in chain ==> rank[index[k].parent] < rank[k]
    ensures rank[chain[j]] < rank[chain[i]]
    decreases j
  {
    assert chain[j] in chain && chain[j - 1] in chain;
    assert index[chain[j - 1]].parent == chain[j];
    if i < j - 1 { RanksFall(index, rank, chain, i, j - 1); }
  }

  lemma ChainChildrenFirst(index0: N.Index, index: N.Index, rank: map<U32, nat>, freed: seq<U32>, more: seq<U32>)
    requires ChildrenFirst(index0, freed) && (forall k :: k in freed ==> k !in more) && forall k :: k in more ==>
      k in index && k in rank
    requires forall k :: k in index ==> k in index0 && index[k].parent == index0[k].parent && index[k].parent !in freed
    requires forall k :: 0 <= k < |more| - 1 ==> index[more[k]].parent == more[k + 1]
    requires forall k :: k in more && index[k].parent in more ==> rank[index[k].parent] < rank[k]
    ensures ChildrenFirst(index0, freed + more)
  {
    var all, n := freed + more, |freed|;
    forall a, b | 0 <= a < |all| && 0 <= b < |all| && all[a] in index0 && index0[all[a]].parent == all[b]
      ensures a < b {
      if a >= n {
        assert more[a - n] in more;
        assert all[b] !in freed;
        if n <= b < a {
          assert more[b - n] in more;
          RanksFall(index, rank, more, b - n, a - n);
        }
      }
    }
  }

  // ---- Deleting a family ----

  /** The handles that are still to be released, besides those of others. */
  ghost function Held(rest: multiset<U32>, order: seq<U32>): multiset<U32> {
    rest + multiset(order)
  }

  lemma HeldNext(rest: multiset<U32>, order: seq<U32>)
    requires order != []
    ensures order[0] in Held(rest, order) && N.Minus(Held(rest, order), order[0]) == Held(rest, order[1..])
  {
    assert order == [order[0]] + order[1..];
  }

  /** Marking a node deleted. */
  lemma DeletingMark(index0: N.Index, index: N.Index, members: set<U32>, marked: set<U32>, freed: seq<U32>, n: U32)
    requires Deleting(index0, index, marked, freed) && n in index
    ensures Deleting(index0, index[n := index[n].(state := N.Deleted)], marked + {n}, freed)
  {
  }

  lemma FreedOnce(index0: N.Index, index: N.Index, after: N.Index, freed: seq<U32>, more: seq<U32>)
    requires Distinct(freed) && (forall k :: k in freed <==> k in index0 && k !in index)
    requires Distinct(more) && (forall k :: k in more <==> k in index && k !in after)
    requires (forall k :: k in index ==> k in index0) && forall k :: k in after ==> k in index
    ensures Distinct(freed + more) && forall k :: k in freed + more <==> k in index0 && k !in after
  {
    forall i, j | 0 <= i < j < |freed + more| ensures (freed + more)[i] != (freed + more)[j] {
      if i < |freed| <= j { assert freed[i] in freed && more[j - |freed|] in more; }
    }
  }

  /** Releasing a handle. */
  lemma DeletingDrop(index0: N.Index, index: N.Index, members: set<U32>, rank: map<U32, nat>, marked: set<U32>,
                     freed: seq<U32>, n: U32)
    requires Deleting(index0, index, marked, freed) && Family(index0, members, rank) && marked <= members
    requires NoneDeleted(index0)
    requires forall k :: k in index && index[k].parent != N.INVALID_NID ==> index[k].parent in index
    requires N.INVALID_NID !in index0
    ensures var (after, more) := N.Dropped(index, n); Deleting(index0, after, marked, freed + more)
  {
    var (after, more) := N.Dropped(index, n);
    N.DroppedFrees(index, n);
    DroppedChain(index, n);
    hide N.Dropped;
    FreedOnce(index0, index, after, freed, more);
    ChainInFamily(index0, index, members, rank, marked, freed, more);
    hide Distinct;
    assert Distinct(freed + more);
    ChainChildrenFirst(index0, index, rank, freed, more);
    hide ChildrenFirst, Family;
  }

  ghost predicate NoneDeleted(index: N.Index) {
    forall k :: k in index ==> index[k].state != N.Deleted
  }

  /** Only marked nodes are freed, so a cascade stays in the family. */
  lemma ChainInFamily(index0: N.Index, index: N.Index, members: set<U32>, rank: map<U32, nat>, marked: set<U32>,
                      freed: seq<U32>, more: seq<U32>)
    requires Deleting(index0, index, marked, freed) && Family(index0, members, rank) && marked <= members &&
      NoneDeleted(index0)
    requires forall k :: k in index && index[k].parent != N.INVALID_NID ==> index[k].parent in index
    requires N.INVALID_NID !in index0
    requires forall k :: k in more ==> k in index && index[k].state == N.Deleted
    ensures forall k :: k in more ==> k in index && k in rank && k !in freed && k in marked
    ensures forall k :: k in more && index[k].parent in more ==> rank[index[k].parent] < rank[k]
    ensures forall k :: k in index ==> index[k].parent !in freed
  {
    forall k | k in more ensures k in members && k in rank && k !in freed {}
    forall k | k in index ensures index[k].parent !in freed {}
  }

  /** Once every member is marked and no handle on any is left, none is left in the cache: the last of them
      would still be referenced by a child. */
  lemma NotLeft(index0: N.Index, index: N.Index, members: set<U32>, rank: map<U32, nat>, freed: seq<U32>,
                pinned: set<U32>,
                handles: multiset<U32>, height: nat, k: U32)
    requires Deleting(index0, index, members, freed) && Family(index0, members, rank) && N.Books(index, pinned, handles)
    requires (forall n :: n in members ==> handles[n] == 0 && rank[n] <= height) && k in members
    ensures k !in index
    decreases height - rank[k]
  {
    if k in index { StillReferenced(index, pinned, handles, k); }
    forall c ensures !(c in index && index[c].parent == k) {
      if c in index && index[c].parent == k
        { NotLeft(index0, index, members, rank, freed, pinned, handles, height, c); }
    }
    assert N.Children(index, k) == {};
  }

  lemma StillReferenced(index: N.Index, pinned: set<U32>, handles: multiset<U32>, k: U32)
    requires N.Books(index, pinned, handles) && k in index && index[k].state == N.Deleted && handles[k] == 0
    ensures N.Children(index, k) != {}
  {
    assert N.Counted(index, pinned, handles, k);
  }

  lemma {:induction false} LpasAlike(a: N.Index, b: N.Index, freed: seq<U32>)
    requires forall k :: k in freed ==> k in a && k in b && a[k].lpa == b[k].lpa
    ensures N.Lpas(a, freed) == N.Lpas(b, freed)
  {
    if freed != [] {
      assert freed[0] in freed && forall k :: k in freed[1..] ==> k in freed;
      LpasAlike(a, b, freed[1..]);
    }
  }

  lemma {:induction false} LpasAppend(index: N.Index, xs: seq<U32>, ys: seq<U32>)
    ensures N.Lpas(index, xs + ys) == N.Lpas(index, xs) + N.Lpas(index, ys)
  {
    if xs == [] {
      assert xs + ys == ys;
    } else {
      assert (xs + ys)[1..] == xs[1..] + ys;
      LpasAppend(index, xs[1..], ys);
    }
  }

  /** nodeBlockCacheEntryHandleDeleteNode and nodeBlockCacheEntryHandleDestroy for one handle. */
  method DeleteNode(cache: N.NodeCache, n: U32, ghost index0: N.Index, ghost members: set<U32>,
                    ghost rank: map<U32, nat>,
                    ghost marked: set<U32>, ghost freed: seq<U32>)
    returns (ghost more: seq<U32>)
    requires cache.Valid() && n in cache.handles && n in members && marked <= members
    requires Deleting(index0, cache.manager.index, marked, freed) && Family(index0, members, rank)
    requires NoneDeleted(index0) && N.INVALID_NID !in index0
    modifies cache`handles, cache`curSize, cache`freedNids, cache`invalidated, cache.manager`index,
      cache.manager.replacer
    ensures cache.Valid() && cache.handles == N.Minus(old(cache.handles), n)
    ensures Deleting(index0, cache.manager.index, marked + {n}, freed + more)
    ensures cache.freedNids == old(cache.freedNids) + more
    ensures cache.invalidated == old(cache.invalidated) + N.Lpas(index0, more)
  {
    HandlesAreCached(cache.manager.index, cache.manager.Pinned(), cache.handles, n);
    hide N.NodeCache.Valid, Deleting, Family, NoneDeleted, N.Minus;
    DeletingMark(index0, cache.manager.index, members, marked, freed, n);
    cache.SetEntry(n, N.Deleted, cache.manager.index[n].lpa);
    ghost var index := cache.manager.index;
    ParentsCached(cache);
    DeletingDrop(index0, index, members, rank, marked + {n}, freed, n);
    cache.SubRef(n);
    more := N.Dropped(index, n).1;
    LpasOfDropped(index0, index, members, marked + {n}, freed, n);
  }

  lemma HandlesAreCached(index: N.Index, pinned: set<U32>, handles: multiset<U32>, n: U32)
    requires N.Books(index, pinned, handles) && n in handles
    ensures n in index
  {
  }

  lemma ParentsCached(cache: N.NodeCache)
    requires cache.Valid()
    ensures forall k :: k in cache.manager.index && cache.manager.index[k].parent != N.INVALID_NID ==>
              cache.manager.index[k].parent in cache.manager.index
  {
    forall k | k in cache.manager.index
      ensures N.Counted(cache.manager.index, cache.manager.Pinned(), cache.handles, k) {}
  }

  lemma LpasOfDropped(index0: N.Index, index: N.Index, members: set<U32>, marked: set<U32>, freed: seq<U32>, n: U32)
    requires Deleting(index0, index, marked, freed)
    ensures N.Lpas(index, N.Dropped(index, n).1) == N.Lpas(index0, N.Dropped(index, n).1)
  {
    N.DroppedFrees(index, n);
    hide N.Dropped;
    LpasAlike(index, index0, N.Dropped(index, n).1);
  }

  /** Where the deletion of a list of handles stands: the first i are gone. */
  ghost predicate DeletedTo(index0: N.Index, start: N.Books4, rest: multiset<U32>, order: seq<U32>, i: nat,
                            freed: seq<U32>, now: N.Books4) {
    && i <= |order| && now.handles == Held(rest, order[i..]) && Deleting(index0, now.index, Elements(order[..i]), freed)
    && now.freed == start.freed + freed && now.invalidated == start.invalidated + N.Lpas(index0, freed)
  }

  lemma DeletedNext(index0: N.Index, start: N.Books4, rest: multiset<U32>, order: seq<U32>, i: nat, freed: seq<U32>,
                    now: N.Books4, more: seq<U32>, next: N.Books4)
    requires DeletedTo(index0, start, rest, order, i, freed, now) && i < |order|
    requires next.handles == N.Minus(now.handles, order[i]) && next.freed == now.freed + more
    requires next.invalidated == now.invalidated + N.Lpas(index0, more)
    requires Deleting(index0, next.index, Elements(order[..i]) + {order[i]}, freed + more)
    ensures DeletedTo(index0, start, rest, order, i + 1, freed + more, next)
  {
    HeldNext(rest, order[i..]);
    MarkedNext(order, i);
    hide Elements, Held, N.Minus, N.Lpas, Deleting;
    LpasAppend(index0, freed, more);
    N.Assoc(start.freed, freed, more);
    N.Assoc(start.invalidated, N.Lpas(index0, freed), N.Lpas(index0, more));
  }

  lemma HoldsNext(index0: N.Index, start: N.Books4, rest: multiset<U32>, order: seq<U32>, i: nat, freed: seq<U32>,
                  now: N.Books4)
    requires DeletedTo(index0, start, rest, order, i, freed, now) && i < |order|
    ensures order[i] in now.handles && order[i] in Elements(order) && Elements(order[..i]) <= Elements(order)
    ensures Deleting(index0, now.index, Elements(order[..i]), freed)
  {
    HeldNext(rest, order[i..]);
    MarkedNext(order, i);
  }

  ghost function BooksOf(cache: N.NodeCache): N.Books4
    reads cache, cache.manager
  {
    N.Books4(cache.manager.index, cache.handles, cache.freedNids, cache.invalidated)
  }

  /** The handles of the list are deleted one after another, in whatever order the list has them: every
      member of the family leaves the cache, its nid and its LPA are freed exactly once, and no node is
      freed before its children. */
  method DeleteAll(cache: N.NodeCache, order: seq<U32>, ghost members: set<U32>, ghost rank: map<U32, nat>,
                   ghost rest: multiset<U32>)
    returns (ghost freed: seq<U32>)
    requires cache.Valid() && Elements(order) == members && Family(cache.manager.index, members, rank)
    requires NoneDeleted(cache.manager.index) && cache.handles == Held(rest, order) && forall n :: n in members ==>
      rest[n] == 0
    modifies cache`handles, cache`curSize, cache`freedNids, cache`invalidated, cache.manager`index,
      cache.manager.replacer
    ensures cache.Valid() && cache.handles == rest
    ensures Deleting(old(cache.manager.index), cache.manager.index, members, freed)
    ensures forall k :: k in freed <==> k in members
    ensures cache.freedNids == old(cache.freedNids) + freed
    ensures cache.invalidated == old(cache.invalidated) + N.Lpas(old(cache.manager.index), freed)
  {
    ghost var index0, start := cache.manager.index, BooksOf(cache);
    freed := [];
    StartDeleting(cache, rest, order);
    var i := 0;
    hide N.NodeCache.Valid, Deleting, DeletedTo, Family, NoneDeleted, Held, Elements, N.Lpas;
    while i < |order|
      invariant i <= |order| && cache.Valid() && DeletedTo(index0, start, rest, order, i, freed, BooksOf(cache))
    {
      ghost var now := BooksOf(cache);
      HoldsNext(index0, start, rest, order, i, freed, now);
      ghost var more := DeleteNode(cache, order[i], index0, members, rank, Elements(order[..i]), freed);
      DeletedNext(index0, start, rest, order, i, freed, now, more, BooksOf(cache));
      freed, i := freed + more, i + 1;
    }
    AllGone(cache, index0, start, members, rank, order, freed, rest);
  }

  lemma StartDeleting(cache: N.NodeCache, rest: multiset<U32>, order: seq<U32>)
    requires cache.Valid() && cache.handles == Held(rest, order)
    ensures DeletedTo(cache.manager.index, BooksOf(cache), rest, order, 0, [], BooksOf(cache)) &&
      N.INVALID_NID !in cache.manager.index
  {
    assert order[0..] == order;
  }

  lemma MarkedNext(order: seq<U32>, i: nat)
    requires i < |order|
    ensures Elements(order[..i + 1]) == Elements(order[..i]) + {order[i]} && order[i] in Elements(order)
    ensures Elements(order[..i]) <= Elements(order) && order[i..][0] == order[i] && order[i..][1..] == order[i + 1..]
  {
    assert order[..i + 1] == order[..i] + [order[i]];
  }

  lemma AllGone(cache: N.NodeCache, index0: N.Index, start: N.Books4, members: set<U32>, rank: map<U32, nat>,
                order: seq<U32>,
                freed: seq<U32>, rest: multiset<U32>)
    requires cache.Valid() && Elements(order) == members && (forall n :: n in members ==> rest[n] == 0)
    requires DeletedTo(index0, start, rest, order, |order|, freed, BooksOf(cache)) && Family(index0, members, rank) &&
      NoneDeleted(index0)
    ensures cache.handles == rest && Deleting(index0, cache.manager.index, members, freed) && forall k ::
      k in freed <==> k in members
    ensures cache.freedNids == start.freed + freed && cache.invalidated == start.invalidated + N.Lpas(index0, freed)
  {
    assert order[..|order|] == order && order[|order|..] == [];
    var height := Highest(members, rank);
    forall k | k in members ensures k !in cache.manager.index {
      NotLeft(index0, cache.manager.index, members, rank, freed, cache.manager.Pinned(), cache.handles, height, k);
    }
  }

  ghost function Highest(members: set<U32>, rank: map<U32, nat>): (h: nat)
    requires members <= rank.Keys
    ensures forall n :: n in members ==> rank[n] <= h
  {
    if members == {} then 0
    else
      var n :| n in members;
      var h := Highest(members - {n}, rank);
      if rank[n] > h then rank[n] else h
  }

  // ---- Deleting a planned file ----

  /** The cache holds the file's tree, each node under its parent, and nothing else hangs below it. */
  ghost predicate CachedTree(index: N.Index, nodes: map<U32, B.Node>, ino: U32) {
    && nodes.Keys <= index.Keys && (forall c :: c in index && index[c].parent in nodes ==> c in nodes)
    && forall h, n :: B.Position(h) && B.Walk(nodes, ino, h) == Some(n) ==>
      n in index && index[n].parent == ParentAt(nodes, ino, h)
  }

  ghost function ParentAt(nodes: map<U32, B.Node>, ino: U32, h: seq<nat>): U32 {
    if h == [] then N.INVALID_NID
    else match B.Walk(nodes, ino, h[..|h| - 1]) case None => N.INVALID_NID case Some(p) => p
  }

  /** How deep a node stands. */
  ghost function DepthOf(nodes: map<U32, B.Node>, ino: U32, n: U32): nat
    requires B.Tree(nodes, ino) && n in nodes
  {
    assert B.Reached(nodes, ino, n);
    var h :| B.Position(h) && B.Walk(nodes, ino, h) == Some(n);
    |h|
  }

  lemma DepthIs(nodes: map<U32, B.Node>, ino: U32, h: seq<nat>, n: U32)
    requires B.Tree(nodes, ino) && B.Position(h) && B.Walk(nodes, ino, h) == Some(n)
    ensures n in nodes && DepthOf(nodes, ino, n) == |h|
  {
    B.NodeExists(nodes, ino, h);
    assert B.Reached(nodes, ino, n);
    var g :| B.Position(g) && B.Walk(nodes, ino, g) == Some(n) && |g| == DepthOf(nodes, ino, n);
    B.SamePlace(nodes, ino, g, h);
  }

  /** The parent of a node of the tree is a node of the tree, and stands less deep. */
  lemma ParentInTree(index: N.Index, nodes: map<U32, B.Node>, ino: U32, n: U32)
    requires B.Tree(nodes, ino) && CachedTree(index, nodes, ino) && n in nodes
    ensures n in index && (index[n].parent == N.INVALID_NID <==> n == ino)
    ensures n != ino ==> index[n].parent in nodes && DepthOf(nodes, ino, index[n].parent) < DepthOf(nodes, ino, n)
  {
    assert B.Reached(nodes, ino, n);
    var h :| B.Position(h) && B.Walk(nodes, ino, h) == Some(n);
    DepthIs(nodes, ino, h, n);
    if h == [] {
    } else {
      B.PositionPrefix(h);
      var init := h[..|h| - 1];
      assert B.Walk(nodes, ino, init).Some?;
      DepthIs(nodes, ino, init, B.Walk(nodes, ino, init).value);
      if n == ino { B.SamePlace(nodes, ino, h, []); }
      NotInvalid(nodes, ino, init);
    }
  }

  lemma NotInvalid(nodes: map<U32, B.Node>, ino: U32, h: seq<nat>)
    requires B.Tree(nodes, ino) && B.Position(h) && B.Walk(nodes, ino, h).Some?
    ensures B.Walk(nodes, ino, h).value != N.INVALID_NID
  {
  }

  lemma TreeIsFamily(index: N.Index, nodes: map<U32, B.Node>, ino: U32)
    requires B.Tree(nodes, ino) && CachedTree(index, nodes, ino) && N.INVALID_NID !in index
    ensures Family(index, nodes.Keys, map n | n in nodes :: DepthOf(nodes, ino, n))
  {
    var rank := map n | n in nodes :: DepthOf(nodes, ino, n);
    hide B.Tree;
    forall c | c in nodes
      ensures index[c].parent == N.INVALID_NID || (index[c].parent in nodes && rank[index[c].parent] < rank[c])
    {
      ParentInTree(index, nodes, ino, c);
    }
  }

  function Reverse(s: seq<U32>): (r: seq<U32>)
    ensures |r| == |s| && forall i :: 0 <= i < |s| ==> r[i] == s[|s| - 1 - i]
  {
    seq(|s|, i requires 0 <= i < |s| => s[|s| - 1 - i])
  }

  /** The handles of a removal: those of the plan, reversed if the deletion is deferred, then the inode's. */
  function RemovalOrder(nids: seq<U32>, ino: U32, deferred: bool): seq<U32> {
    (if deferred then Reverse(nids) else nids) + [ino]
  }

  /** The planned nodes and the inode are all nodes of the tree. */
  lemma OrderIsTree(nodes: map<U32, B.Node>, ino: U32, p: P.Plan, deferred: bool)
    requires B.Tree(nodes, ino) && P.Exact(nodes, ino, p)
    ensures Elements(RemovalOrder(p.nids, ino, deferred)) == nodes.Keys
  {
    forall n ensures n in RemovalOrder(p.nids, ino, deferred) <==> n in nodes {
      assert n in RemovalOrder(p.nids, ino, deferred) <==> n in p.nids || n == ino by {
        assert forall i :: 0 <= i < |p.nids| ==> Reverse(p.nids)[|p.nids| - 1 - i] == p.nids[i];
      }
      if n in nodes {
        assert B.Reached(nodes, ino, n);
        var h :| B.Position(h) && B.Walk(nodes, ino, h) == Some(n);
        if h != [] { assert P.At(nodes, ino, h, n); }
      }
      if n in p.nids {
        var g :| P.At(nodes, ino, g, n);
        B.NodeExists(nodes, ino, g);
      }
    }
  }

  /** In a list that has each node once and children first the inode is last. */
  lemma InodeLast(index: N.Index, nodes: map<U32, B.Node>, ino: U32, freed: seq<U32>)
    requires B.Tree(nodes, ino) && CachedTree(index, nodes, ino)
    requires ChildrenFirst(index, freed) && forall k :: k in freed <==> k in nodes
    ensures freed != [] && freed[|freed| - 1] == ino
  {
    assert ino in freed;
    var last := |freed| - 1;
    assert freed[last] in freed;
    ParentInTree(index, nodes, ino, freed[last]);
  }

  /** The end of a removed file. The nodes of its plan are deleted in the order of the plan or, if the
      deletion was deferred, in the reverse order, and the inode comes last in the list. Either way every
      node of the file leaves the cache, each nid is freed exactly once, children before parents and the
      inode last, and the LPA of each node is given back once. */
  method DeleteFile(cache: N.NodeCache, ghost nodes: map<U32, B.Node>, ino: U32, p: P.Plan, deferred: bool,
                    ghost rest: multiset<U32>)
    returns (ghost freed: seq<U32>)
    requires B.Tree(nodes, ino) && P.Exact(nodes, ino, p) && cache.Valid()
    requires CachedTree(cache.manager.index, nodes, ino) && NoneDeleted(cache.manager.index)
    requires cache.handles == Held(rest, RemovalOrder(p.nids, ino, deferred)) && forall n :: n in nodes ==> rest[n] == 0
    modifies cache`handles, cache`curSize, cache`freedNids, cache`invalidated, cache.manager`index,
      cache.manager.replacer
    ensures cache.Valid() && cache.handles == rest &&
      cache.manager.index.Keys == old(cache.manager.index).Keys - nodes.Keys
    ensures Distinct(freed) && Elements(freed) == nodes.Keys && ChildrenFirst(old(cache.manager.index), freed)
    ensures freed != [] && freed[|freed| - 1] == ino
    ensures cache.freedNids == old(cache.freedNids) + freed
    ensures cache.invalidated == old(cache.invalidated) + N.Lpas(old(cache.manager.index), freed)
  {
    OrderIsTree(nodes, ino, p, deferred);
    NoInvalid(cache);
    TreeIsFamily(cache.manager.index, nodes, ino);
    ghost var index := cache.manager.index;
    ghost var rank := map n | n in nodes :: DepthOf(nodes, ino, n);
    hide N.NodeCache.Valid, B.Tree, CachedTree, Family, NoneDeleted, Held, N.Lpas, P.Exact, RemovalOrder, ChildrenFirst;
    freed := DeleteAll(cache, RemovalOrder(p.nids, ino, deferred), nodes.Keys, rank, rest);
    InodeLastAfter(index, cache.manager.index, nodes, ino, freed);
  }

  lemma NoInvalid(cache: N.NodeCache)
    requires cache.Valid()
    ensures N.INVALID_NID !in cache.manager.index
  {
  }

  lemma InodeLastAfter(index0: N.Index, index: N.Index, nodes: map<U32, B.Node>, ino: U32, freed: seq<U32>)
    requires B.Tree(nodes, ino) && CachedTree(index0, nodes, ino)
    requires Deleting(index0, index, nodes.Keys, freed) && forall k :: k in freed <==> k in nodes.Keys
    ensures index.Keys == index0.Keys - nodes.Keys && Distinct(freed) && Elements(freed) == nodes.Keys
    ensures ChildrenFirst(index0, freed) && freed != [] && freed[|freed| - 1] == ino
  {
    InodeLast(index0, nodes, ino, freed);
  }
}
