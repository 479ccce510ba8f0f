/** A file's page cache (src/cache/page_cache.c), as serialised by the lock of its file: references,
    the dirty set and eviction. */
module PageCaching {
  import opened Wrappers
  import opened Bytes
  import LruCache

  datatype Page = Page(lpa: U32, ready: bool, dirty: bool, refCount: nat, data: Block)

  type Index = map<U32, Page>

  /** The cache lost only unreferenced pages; all others are as they were. */
  ghost predicate Evicted(before: Index, after: Index) {
    && (forall k :: k in after ==> k in before && after[k] == before[k])
    && forall k :: k in before && k !in after ==> before[k].refCount == 0
  }

  lemma MinusOne(m: Index, k: U32)
    requires k in m
    ensures |m - {k}| == |m| - 1
  {
    assert (m - {k}).Keys == m.Keys - {k};
  }

  lemma PlusOne(m: Index, k: U32, p: Page)
    ensures |m[k := p]| == |m| + (if k in m then 0 else 1)
  {
    assert m[k := p].Keys == m.Keys + {k};
  }

  /** The references of a page: its handles, and one for being in the dirty set. */
  ghost predicate Counted(p: Page, k: U32, pinned: set<U32>, dirty: set<U32>, handles: multiset<U32>) {
    && p.refCount == handles[k] + (if k in dirty then 1 else 0)
    && (p.dirty <==> k in dirty) && (k in pinned <==> p.refCount > 0)
  }

  /** The books of the cache: a page is pinned exactly while it is referenced. */
  ghost predicate Books(index: Index, pinned: set<U32>, dirty: set<U32>, handles: multiset<U32>) {
    && (forall k :: k in index ==> Counted(index[k], k, pinned, dirty, handles))
    && dirty <= index.Keys && forall k :: k in handles ==> k in index
  }

  lemma BooksLoseUnreferenced(index: Index, pinned: set<U32>, dirty: set<U32>, handles: multiset<U32>, k: U32)
    requires Books(index, pinned, dirty, handles) && k in index && k !in pinned
    ensures Books(index - {k}, pinned, dirty, handles) && index[k].refCount == 0 && |index - {k}| == |index| - 1
  {
    MinusOne(index, k);
    assert Counted(index[k], k, pinned, dirty, handles);
  }

  lemma BooksAddRef(index: Index, pinned: set<U32>, dirty: set<U32>, handles: multiset<U32>, k: U32)
    requires Books(index, pinned, dirty, handles) && k in index
    ensures Books(index[k := index[k].(refCount := index[k].refCount + 1)], pinned + {k}, dirty, handles + multiset{k})
    ensures index[k].refCount > 0 ==> k in pinned
    ensures |index[k := index[k].(refCount := index[k].refCount + 1)]| == |index|
  {
    PlusOne(index, k, index[k].(refCount := index[k].refCount + 1));
    assert Counted(index[k], k, pinned, dirty, handles);
    forall j | j in index && j != k ensures Counted(index[j], j, pinned + {k}, dirty, handles + multiset{k}) {
      assert Counted(index[j], j, pinned, dirty, handles);
    }
  }

  lemma BooksSubRef(index: Index, pinned: set<U32>, dirty: set<U32>, handles: multiset<U32>, k: U32)
    requires Books(index, pinned, dirty, handles) && k in handles
    ensures k in index && index[k].refCount > 0
    ensures Books(index[k := index[k].(refCount := index[k].refCount - 1)],
                  if index[k].refCount == 1 then pinned - {k} else pinned, dirty, handles - multiset{k})
    ensures |index[k := index[k].(refCount := index[k].refCount - 1)]| == |index|
  {
    assert Counted(index[k], k, pinned, dirty, handles);
    PlusOne(index, k, index[k].(refCount := index[k].refCount - 1));
    forall j | j in index && j != k
      ensures Counted(index[j], j, if index[k].refCount == 1 then pinned - {k}
        else pinned, dirty, handles - multiset{k})
    {
      assert Counted(index[j], j, pinned, dirty, handles);
    }
  }

  lemma BooksDirty(index: Index, pinned: set<U32>, dirty: set<U32>, handles: multiset<U32>, k: U32)
    requires Books(index, pinned, dirty, handles) && k in handles && k !in dirty
    ensures k in index && !index[k].dirty
    ensures var index' := index[k := index[k].(dirty := true, refCount := index[k].refCount + 1)];
      Books(index', pinned, dirty + {k}, handles) && |index'| == |index|
  {
    assert Counted(index[k], k, pinned, dirty, handles);
    PlusOne(index, k, index[k].(dirty := true, refCount := index[k].refCount + 1));
    forall j | j in index && j != k ensures Counted(index[j], j, pinned, dirty + {k}, handles) {
      assert Counted(index[j], j, pinned, dirty, handles);
    }
  }

  lemma BooksClean(index: Index, pinned: set<U32>, dirty: set<U32>, handles: multiset<U32>, k: U32, ready: bool)
    requires Books(index, pinned, dirty, handles) && k in dirty
    ensures k in index && index[k].dirty && index[k].refCount > 0
    ensures var index' := index[k := index[k].(dirty := false, ready := ready, refCount := index[k].refCount - 1)];
      && Books(index', if index[k].refCount == 1 then pinned - {k} else pinned, dirty - {k}, handles)
      && |index'| == |index|
  {
    assert Counted(index[k], k, pinned, dirty, handles);
    PlusOne(index, k, index[k].(dirty := false, ready := ready, refCount := index[k].refCount - 1));
    forall j | j in index && j != k
      ensures Counted(index[j], j, if index[k].refCount == 1 then pinned - {k} else pinned, dirty - {k}, handles)
    {
      assert Counted(index[j], j, pinned, dirty, handles);
    }
  }

  lemma BooksContent(index: Index, pinned: set<U32>, dirty: set<U32>, handles: multiset<U32>, k: U32, p: Page)
    requires Books(index, pinned, dirty, handles) && k in index
    requires p.refCount == index[k].refCount && p.dirty == index[k].dirty
    ensures Books(index[k := p], pinned, dirty, handles) && |index[k := p]| == |index|
  {
    PlusOne(index, k, p);
    var index' := index[k := p];
    forall j | j in index' ensures Counted(index'[j], j, pinned, dirty, handles) {
      assert Counted(index[j], j, pinned, dirty, handles);
    }
  }

  lemma BooksAdd(index: Index, pinned: set<U32>, dirty: set<U32>, handles: multiset<U32>, k: U32, p: Page)
    requires Books(index, pinned, dirty, handles) && k !in index && k !in pinned && p.refCount == 0 && !p.dirty
    ensures Books(index[k := p], pinned, dirty, handles) && |index[k := p]| == |index| + 1
  {
    PlusOne(index, k, p);
    var index' := index[k := p];
    forall j | j in index' ensures Counted(index'[j], j, pinned, dirty, handles) {
      if j != k { assert Counted(index[j], j, pinned, dirty, handles); }
    }
  }

  /** What pageCacheGet does: page k gets one more reference, a page that was not there comes without
      contents, and unreferenced pages may have left. */
  ghost predicate Got(before: Index, after: Index, k: U32) {
    && k in after && (forall j :: j in after && j != k ==> j in before && after[j] == before[j])
    && (forall j :: j in before && j !in after ==> before[j].refCount == 0)
    && (if k in before then after[k] == before[k].(refCount := before[k].refCount + 1)
        else after[k].refCount == 1 && !after[k].ready && !after[k].dirty && after[k].lpa == 0)
  }

  lemma EvictedNone(index: Index)
    ensures Evicted(index, index)
  {
  }

  lemma EvictedOne(before: Index, k: U32)
    requires k in before && before[k].refCount == 0
    ensures Evicted(before, before - {k})
  {
  }

  lemma EvictedTwice(a: Index, b: Index, c: Index)
    requires Evicted(a, b) && Evicted(b, c)
    ensures Evicted(a, c)
  {
  }

  lemma GotHit(before: Index, k: U32)
    requires k in before
    ensures Got(before, before[k := before[k].(refCount := before[k].refCount + 1)], k)
  {
  }

  lemma GotEntered(before: Index, rest: Index, after: Index, k: U32, data: Block)
    requires k !in before && Evicted(before, rest) && k in after
    requires Evicted(rest[k := Page(0, false, false, 1, data)], after) ||
      after == rest[k := Page(0, false, false, 1, data)]
    ensures Got(before, after, k)
  {
  }

  ghost function InvalidatedFrom(index: Index, first: nat): (r: Index)
    ensures r.Keys == index.Keys
  {
    map k | k in index :: if k >= first then index[k].(lpa := 0, ready := false) else index[k]
  }

  /** Of the pages from first on, all but those still to do have forgotten their contents. */
  ghost predicate Forgotten(before: Index, after: Index, first: nat, todo: set<U32>) {
    && after.Keys == before.Keys && (forall k :: k in todo ==> k >= first)
    && forall k :: k in after ==>
         after[k] == (if k >= first && k !in todo then before[k].(lpa := 0, ready := false) else before[k])
  }

  lemma ForgottenBounds(index: Index, first: nat)
    ensures Forgotten(index, index, first, set k | k in index && k >= first)
  {
  }

  lemma ForgottenMore(before: Index, now: Index, first: nat, todo: set<U32>, k: U32)
    requires Forgotten(before, now, first, todo) && k in todo && k in now
    ensures Forgotten(before, now[k := now[k].(lpa := 0, ready := false)], first, todo - {k})
  {
  }

  lemma ForgottenAll(before: Index, after: Index, first: nat)
    requires Forgotten(before, after, first, {})
    ensures after == InvalidatedFrom(before, first)
  {
  }

  class PageCache {
    const manager: LruCache.CacheManager<Page>
    const expectSize: nat
    var curSize: nat
    var dirtyPages: set<U32>
    ghost var handles: multiset<U32>   // the references held by handles

    ghost predicate Valid()
      reads this, manager, manager.replacer
    {
      && manager.Valid() && curSize == |manager.index|
      && Books(manager.index, manager.Pinned(), dirtyPages, handles)
    }

    constructor (expectSize: nat)
      ensures Valid() && manager.index == map[] && handles == multiset{} && dirtyPages == {} &&
        this.expectSize == expectSize
      ensures fresh(manager) && fresh(manager.replacer)
    {
      this.expectSize, curSize, dirtyPages, handles := expectSize, 0, {}, multiset{};
      manager := new LruCache.CacheManager<Page>();
    }

    /** pageCacheAddRefCount */
    method AddRef(k: U32)
      requires Valid() && k in manager.index
      modifies this`handles, manager`index, manager.replacer
      ensures Valid() && handles == old(handles) + multiset{k}
      ensures var p := old(manager.index)[k];
        manager.index == old(manager.index)[k := p.(refCount := p.refCount + 1)]
    {
      hide Books;
      var p := manager.index[k];
      BooksAddRef(manager.index, manager.Pinned(), dirtyPages, handles, k);
      ghost var pinned := manager.Pinned();
      manager.Set(k, p.(refCount := p.refCount + 1));
      handles := handles + multiset{k};
      if p.refCount == 0 { manager.Pin(k); } else { assert pinned + {k} == pinned; }
    }

    /** pageCacheDoReplace: shrink to the expected size as far as there are unreferenced pages. */
    method DoReplace()
      requires Valid()
      modifies this`curSize, manager`index, manager.replacer
      ensures Valid() && Evicted(old(manager.index), manager.index) && curSize <= old(curSize)
      ensures curSize == old(curSize) || curSize >= expectSize
      ensures curSize <= expectSize || forall k :: k in manager.index ==> k in manager.Pinned()
    {
      hide Books, Evicted;
      EvictedNone(manager.index);
      if curSize <= expectSize { return; }
      var done := false;
      while !done
        invariant Valid() && Evicted(old(manager.index), manager.index) && manager.Pinned() == old(manager.Pinned())
        invariant curSize <= old(curSize) && curSize >= expectSize && (!done ==> curSize > expectSize)
        invariant done ==> curSize <= expectSize || forall k :: k in manager.index ==> k in manager.Pinned()
        decreases |manager.index|, !done
      {
        ghost var before := manager.index;
        var victim := manager.ReplaceOne();
        if victim.Some? {
          BooksLoseUnreferenced(before, manager.Pinned(), dirtyPages, handles, victim.value.0);
          EvictedOne(before, victim.value.0);
          EvictedTwice(old(manager.index), before, manager.index);
          curSize := curSize - 1;
        }
        if victim.None? || curSize <= expectSize { done := true; }
      }
    }

    /** A page enters the cache with its first reference. */
    method Enter(k: U32, data: Block)
      requires Valid() && k !in manager.index
      modifies this`handles, this`curSize, manager`index, manager.replacer
      ensures Valid() && handles == old(handles) + multiset{k} && curSize == old(curSize) + 1
      ensures manager.index == old(manager.index)[k := Page(0, false, false, 1, data)]
    {
      hide Books;
      BooksAdd(manager.index, manager.Pinned(), dirtyPages, handles, k, Page(0, false, false, 0, data));
      manager.Add(k, Page(0, false, false, 0, data));
      curSize := curSize + 1;
      AddRef(k);
    }

    /** pageCacheGet: a full cache reuses the buffer of an unreferenced page, if there is one; it grows
        beyond its expected size only, and then by one page, if all pages are referenced. */
    method Get(k: U32)
      requires Valid()
      modifies this`handles, this`curSize, manager`index, manager.replacer
      ensures Valid() && handles == old(handles) + multiset{k} && Got(old(manager.index), manager.index, k)
      ensures curSize <= old(curSize) + 1 && (k in old(manager.index) ==> curSize == old(curSize))
      ensures curSize > old(curSize) && curSize > expectSize ==>
        forall j :: j in old(manager.index) ==> j in old(manager.Pinned())
    {
      hide Books, Got;
      ghost var before := manager.index;
      var entry := manager.Get(k, true);
      if entry.Some? {
        AddRef(k);
        GotHit(before, k);
        return;
      }
      var done := false;
      if curSize >= expectSize { done := ReuseVictim(k); }
      if !done {
        var unspecified: Block := *;
        Enter(k, unspecified);
        EvictedNone(before);
        GotEntered(before, before, manager.index, k, unspecified);
      }
    }

    /** Page k takes over the buffer of an unreferenced page. */
    method ReuseVictim(k: U32) returns (done: bool)
      requires Valid() && k !in manager.index
      modifies this`handles, this`curSize, manager`index, manager.replacer
      ensures Valid() && (!done ==> handles == old(handles) && manager.index == old(manager.index))
      ensures if done then curSize <= old(curSize) else
        curSize == old(curSize) && forall j :: j in old(manager.index) ==> j in old(manager.Pinned())
      ensures done ==> handles == old(handles) + multiset{k} && Got(old(manager.index), manager.index, k)
    {
      hide Books, Got, Evicted;
      ghost var before := manager.index;
      var victim := manager.ReplaceOne();
      if victim.None? { return false; }
      BooksLoseUnreferenced(before, manager.Pinned(), dirtyPages, handles, victim.value.0);
      curSize := curSize - 1;
      ghost var rest := manager.index;
      EvictedOne(before, victim.value.0);
      Enter(k, victim.value.1.data);
      DoReplace();
      KeepsReferenced(manager.index, manager.Pinned(), dirtyPages, handles, k);
      GotEntered(before, rest, manager.index, k, victim.value.1.data);
      done := true;
    }

    /** pageEntryHandleDestroy */
    method Release(k: U32)
      requires Valid() && k in handles
      modifies this`handles, manager`index, manager.replacer
      ensures Valid() && handles == old(handles) - multiset{k}
      ensures k in old(manager.index) && old(manager.index)[k].refCount > 0 && var p := old(manager.index)[k];
        manager.index == old(manager.index)[k := p.(refCount := p.refCount - 1)]
    {
      hide Books;
      BooksSubRef(manager.index, manager.Pinned(), dirtyPages, handles, k);
      var p := manager.index[k];
      manager.Set(k, p.(refCount := p.refCount - 1));
      handles := handles - multiset{k};
      if p.refCount == 1 { manager.Unpin(k); }
    }

    /** The contents of a page that the caller holds. */
    method Fill(k: U32, lpa: U32, ready: bool, data: Block)
      requires Valid() && k in manager.index
      modifies manager`index
      ensures Valid() && manager.index == old(manager.index)[k := old(manager.index)[k].(lpa := lpa, ready := ready,
        data := data)]
    {
      hide Books;
      var p := manager.index[k].(lpa := lpa, ready := ready, data := data);
      BooksContent(manager.index, manager.Pinned(), dirtyPages, handles, k, p);
      manager.Set(k, p);
    }

    /** pageEntryHandleMakeDirty: the first to set the flag puts the page into the dirty set. */
    method MakeDirty(k: U32)
      requires Valid() && k in handles && k in manager.index
      modifies this`dirtyPages, manager`index
      ensures Valid() && dirtyPages == old(dirtyPages) + {k}
      ensures var p := old(manager.index)[k];
        manager.index == if k in old(dirtyPages) then old(manager.index)
                         else old(manager.index)[k := p.(dirty := true, refCount := p.refCount + 1)]
    {
      var p := manager.index[k];
      assert Counted(p, k, manager.Pinned(), dirtyPages, handles);
      hide Books;
      if !p.dirty {
        BooksDirty(manager.index, manager.Pinned(), dirtyPages, handles, k);
        manager.Set(k, p.(dirty := true, refCount := p.refCount + 1));
      }
      dirtyPages := dirtyPages + {k};
    }

    /** One page leaves the dirty set and gives up the reference the set held. */
    method Clean(k: U32, ready: bool)
      requires Valid() && k in dirtyPages
      modifies this`dirtyPages, manager`index, manager.replacer
      ensures Valid() && dirtyPages == old(dirtyPages) - {k}
      ensures k in old(manager.index) && old(manager.index)[k].refCount > 0 && var p := old(manager.index)[k];
        manager.index == old(manager.index)[k := p.(dirty := false, ready := ready, refCount := p.refCount - 1)]
    {
      hide Books;
      BooksClean(manager.index, manager.Pinned(), dirtyPages, handles, k, ready);
      var p := manager.index[k];
      manager.Set(k, p.(dirty := false, ready := ready, refCount := p.refCount - 1));
      dirtyPages := dirtyPages - {k};
      if p.refCount == 1 { manager.Unpin(k); }
    }

    /** pageCacheTruncate: dirty pages behind maxBlkoff lose their contents and leave the dirty set. */
    method Truncate(maxBlkoff: U32)
      requires Valid()
      modifies this`dirtyPages, manager`index, manager.replacer
      ensures Valid() && dirtyPages == set k | k in old(dirtyPages) && k <= maxBlkoff
      ensures Cleaned(old(manager.index), manager.index, set k | k in old(dirtyPages) && k > maxBlkoff, false)
    {
      ghost var before := manager.index;
      var behind := set k | k in dirtyPages && k > maxBlkoff;
      CleanAll(behind, false);
    }

    /** pageCacheClearDirtyPages: the dirty set is emptied, the contents stay. */
    method ClearDirtyPages()
      requires Valid()
      modifies this`dirtyPages, manager`index, manager.replacer
      ensures Valid() && dirtyPages == {}
      ensures Cleaned(old(manager.index), manager.index, old(dirtyPages), true)
    {
      CleanAll(dirtyPages, true);
    }

    /** The pages from a block number on forget their contents (rtfsFileInodeInvalidateCachedPagesFrom). */
    method InvalidateFrom(first: nat)
      requires Valid() && forall k :: k in dirtyPages ==> k < first
      modifies manager`index
      ensures Valid() && manager.index == InvalidatedFrom(old(manager.index), first)
    {
      hide Books, Forgotten;
      ForgottenBounds(manager.index, first);
      var todo := set k | k in manager.index && k >= first;
      while todo != {}
        invariant Valid() && todo <= manager.index.Keys && Forgotten(old(manager.index), manager.index, first, todo)
        decreases |todo|
      {
        var k :| k in todo;
        var p := manager.index[k].(lpa := 0, ready := false);
        BooksContent(manager.index, manager.Pinned(), dirtyPages, handles, k, p);
        ForgottenMore(old(manager.index), manager.index, first, todo, k);
        manager.Set(k, p);
        todo := todo - {k};
      }
      ForgottenAll(old(manager.index), manager.index, first);
    }

    /** The loops over the dirty set; a page that keeps its contents stays ready if it was. */
    method CleanAll(which: set<U32>, keep: bool)
      requires Valid() && which <= dirtyPages
      modifies this`dirtyPages, manager`index, manager.replacer
      ensures Valid() && dirtyPages == old(dirtyPages) - which
      ensures Cleaned(old(manager.index), manager.index, which, keep)
    {
      hide Books, Cleaned;
      CleanedNone(manager.index, keep);
      assert which - which == {};
      var todo := which;
      while todo != {}
        invariant Valid() && todo <= which && dirtyPages == old(dirtyPages) - (which - todo)
        invariant Cleaned(old(manager.index), manager.index, which - todo, keep)
        decreases |todo|
      {
        var k :| k in todo;
        BooksHave(manager.index, manager.Pinned(), dirtyPages, handles, k);
        CleanedMore(old(manager.index), manager.index, which - todo, keep, k);
        Clean(k, keep && manager.index[k].ready);
        assert which - todo + {k} == which - (todo - {k});
        todo := todo - {k};
      }
      assert which - todo == which;
    }
  }

  lemma BooksHave(index: Index, pinned: set<U32>, dirty: set<U32>, handles: multiset<U32>, k: U32)
    requires Books(index, pinned, dirty, handles) && k in dirty
    ensures k in index && index[k].dirty && index[k].refCount > 0
  {
    assert Counted(index[k], k, pinned, dirty, handles);
  }

  lemma KeepsReferenced(index: Index, pinned: set<U32>, dirty: set<U32>, handles: multiset<U32>, k: U32)
    requires Books(index, pinned, dirty, handles) && k in handles
    ensures k in index
  {
  }

  /** The pages done are clean and hold one reference less; they keep their contents or lose them. */
  ghost predicate Cleaned(before: Index, after: Index, done: set<U32>, keep: bool) {
    && after.Keys == before.Keys
    && forall k :: k in before ==>
         if k in done then
           before[k].refCount > 0 &&
           after[k] == before[k].(dirty := false, ready := keep && before[k].ready, refCount := before[k].refCount - 1)
         else after[k] == before[k]
  }

  lemma CleanedNone(index: Index, keep: bool)
    ensures Cleaned(index, index, {}, keep)
  {
  }

  lemma CleanedMore(before: Index, now: Index, done: set<U32>, keep: bool, k: U32)
    requires Cleaned(before, now, done, keep) && k in now && k !in done && now[k].refCount > 0
    ensures Cleaned(before, now[k := now[k].(dirty := false, ready := keep &&
      now[k].ready, refCount := now[k].refCount - 1)],
                    done + {k}, keep)
  {
  }
}
