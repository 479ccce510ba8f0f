/** The LRU replacer with pinning (src/cache/cache_lru_replacer.c) and the cache manager that keeps an
    index in step with it (src/cache/generic_cache_manager.c). */
module LruCache {
  import opened Wrappers
  import opened Bytes

  /** s without its element k. */
  function Without(s: seq<U32>, k: U32): (r: seq<U32>)
    ensures k !in r && forall x :: x in r <==> x in s && x != k
  {
    if s == [] then [] else if s[0] == k then Without(s[1..], k) else [s[0]] + Without(s[1..], k)
  }

  /** The keys of s in the order of their stamps, oldest first. */
  ghost predicate Ascending(s: seq<U32>, stamp: map<U32, nat>) {
    && (forall k :: k in s ==> k in stamp)
    && forall i, j :: 0 <= i < j < |s| ==> stamp[s[i]] < stamp[s[j]]
  }

  lemma {:induction false} WithoutDistinct(s: seq<U32>, k: U32)
    requires Distinct(s)
    ensures Distinct(Without(s, k)) && |Without(s, k)| == |s| - (if k in s then 1 else 0)
  {
    if s != [] {
      var r := Without(s[1..], k);
      WithoutDistinct(s[1..], k);
      assert s == [s[0]] + s[1..];
      assert s[0] !in s[1..];
      forall i, j | 0 <= i < j < |[s[0]] + r| ensures ([s[0]] + r)[i] != ([s[0]] + r)[j] {
        assert ([s[0]] + r)[j] == r[j - 1] && r[j - 1] in r;
      }
    }
  }

  lemma {:induction false} WithoutAscends(s: seq<U32>, k: U32, stamp: map<U32, nat>)
    requires Ascending(s, stamp)
    ensures Ascending(Without(s, k), stamp)
  {
    if s != [] {
      var r := Without(s[1..], k);
      WithoutAscends(s[1..], k, stamp);
      forall x | x in s[1..] ensures stamp[s[0]] < stamp[x] {
        var i :| 0 <= i < |s[1..]| && s[1..][i] == x;
        assert s[i + 1] == x;
      }
      forall i, j | 0 <= i < j < |[s[0]] + r| ensures stamp[([s[0]] + r)[i]] < stamp[([s[0]] + r)[j]] {
        assert ([s[0]] + r)[j] == r[j - 1] && r[j - 1] in r;
      }
    }
  }

  lemma WithoutKeepsOrder(s: seq<U32>, k: U32, stamp: map<U32, nat>)
    requires Distinct(s)
    ensures Distinct(Without(s, k)) && |Without(s, k)| == |s| - (if k in s then 1 else 0)
    ensures Ascending(s, stamp) ==> Ascending(Without(s, k), stamp)
  {
    WithoutDistinct(s, k);
    if Ascending(s, stamp) { WithoutAscends(s, k, stamp); }
  }

  lemma AppendKeepsOrder(s: seq<U32>, k: U32, stamp: map<U32, nat>, clock: nat)
    requires Distinct(s) && Ascending(s, stamp) && k !in s && forall x :: x in s ==> stamp[x] < clock
    ensures Distinct(s + [k]) && Ascending(s + [k], stamp[k := clock])
  {
  }

  class LruReplacer {
    var lru: seq<U32>       // the keys that may be replaced, next victim first
    var pinned: seq<U32>
    var size: nat
    ghost var stamp: map<U32, nat>   // when a key was last added, accessed or unpinned
    ghost var clock: nat

    ghost predicate Valid()
      reads this
    {
      && Distinct(lru) && Distinct(pinned) && (forall k :: k in lru ==> k !in pinned)
      && size == |lru| && Ascending(lru, stamp) && forall k :: k in stamp ==> stamp[k] < clock
    }

    ghost function Keys(): set<U32>
      reads this
    {
      set k | k in lru + pinned
    }

    constructor ()
      ensures Valid() && lru == [] && pinned == []
    {
      lru, pinned, size, stamp, clock := [], [], 0, map[], 0;
    }

    method Add(key: U32)
      requires Valid() && key !in lru && key !in pinned
      modifies this
      ensures Valid() && lru == old(lru) + [key] && pinned == old(pinned)
      ensures stamp == old(stamp)[key := old(clock)]
    {
      AppendKeepsOrder(lru, key, stamp, clock);
      lru, size := lru + [key], size + 1;
      stamp, clock := stamp[key := clock], clock + 1;
    }

    /** A key becomes the most recent of its list. */
    method Access(key: U32)
      requires Valid() && (key in lru || key in pinned)
      modifies this
      ensures Valid()
      ensures lru == if key in old(lru) then Without(old(lru), key) + [key] else old(lru)
      ensures pinned == if key in old(lru) then old(pinned) else Without(old(pinned), key) + [key]
      ensures stamp == if key in old(lru) then old(stamp)[key := old(clock)] else old(stamp)
    {
      if key in pinned {
        WithoutKeepsOrder(pinned, key, map[]);
        pinned := Without(pinned, key) + [key];
      } else {
        WithoutKeepsOrder(lru, key, stamp);
        AppendKeepsOrder(Without(lru, key), key, stamp, clock);
        lru := Without(lru, key) + [key];
        stamp, clock := stamp[key := clock], clock + 1;
      }
    }

    predicate CanReplace()
      reads this
    {
      size > 0
    }

    /** The victim is the unpinned key that was used least recently. */
    method Pop() returns (key: U32)
      requires Valid() && CanReplace()
      modifies this
      ensures Valid() && old(lru) == [key] + lru && pinned == old(pinned) && stamp == old(stamp)
      ensures key in old(lru) && key !in lru && forall k :: k in old(lru) && k != key ==> stamp[key] < stamp[k]
    {
      key := lru[0];
      ghost var before := lru;
      forall k | k in before && k != key ensures stamp[key] < stamp[k] {
        var i :| 0 <= i < |before| && before[i] == k;
        assert before[0] == key;
      }
      lru, size := lru[1..], size - 1;
    }

    method Remove(key: U32)
      requires Valid() && (key in lru || key in pinned)
      modifies this
      ensures Valid() && lru == Without(old(lru), key) && pinned == Without(old(pinned), key) && stamp == old(stamp)
    {
      WithoutKeepsOrder(pinned, key, map[]);
      WithoutKeepsOrder(lru, key, stamp);
      NotThere(lru, key);
      NotThere(pinned, key);
      if key in pinned {
        pinned := Without(pinned, key);
      } else {
        lru, size := Without(lru, key), size - 1;
      }
    }

    /** Pinning takes a key out of the victims; pinning twice or pinning an unknown key does nothing. */
    method Pin(key: U32)
      requires Valid()
      modifies this
      ensures Valid() && stamp == old(stamp)
      ensures lru == if key in old(lru) then Without(old(lru), key) else old(lru)
      ensures pinned == if key in old(lru) then old(pinned) + [key] else old(pinned)
    {
      if key !in lru { return; }
      WithoutKeepsOrder(lru, key, stamp);
      lru, pinned, size := Without(lru, key), pinned + [key], size - 1;
    }

    /** An unpinned key becomes the last victim. */
    method Unpin(key: U32)
      requires Valid()
      modifies this
      ensures Valid()
      ensures lru == if key in old(pinned) then old(lru) + [key] else old(lru)
      ensures pinned == if key in old(pinned) then Without(old(pinned), key) else old(pinned)
      ensures stamp == if key in old(pinned) then old(stamp)[key := old(clock)] else old(stamp)
    {
      if key !in pinned { return; }
      WithoutKeepsOrder(pinned, key, map[]);
      AppendKeepsOrder(lru, key, stamp, clock);
      lru, pinned, size := lru + [key], Without(pinned, key), size + 1;
      stamp, clock := stamp[key := clock], clock + 1;
    }
  }

  lemma {:induction false} NotThere(s: seq<U32>, k: U32)
    ensures k !in s ==> Without(s, k) == s
  {
    if s != [] { NotThere(s[1..], k); }
  }

  /** An index of entries and a replacer over the same keys. */
  class CacheManager<V> {
    var index: map<U32, V>
    const replacer: LruReplacer

    ghost predicate Valid()
      reads this, replacer
    {
      replacer.Valid() && forall k: U32 :: k in index <==> k in replacer.lru || k in replacer.pinned
    }

    /** The keys that cannot be replaced. */
    ghost function Pinned(): set<U32>
      reads replacer
    {
      set k | k in replacer.pinned
    }

    lemma PinnedAreCached()
      requires Valid()
      ensures Pinned() <= index.Keys
    {
    }

    constructor ()
      ensures Valid() && index == map[] && Pinned() == {} && fresh(replacer)
    {
      index := map[];
      replacer := new LruReplacer();
    }

    /** A new entry is unpinned. */
    method Add(key: U32, entry: V)
      requires Valid() && key !in index
      modifies this`index, replacer
      ensures Valid() && index == old(index)[key := entry] && Pinned() == old(Pinned())
    {
      index := index[key := entry];
      replacer.Add(key);
    }

    method Get(key: U32, isAccess: bool) returns (r: Option<V>)
      requires Valid()
      modifies replacer
      ensures Valid() && Pinned() == old(Pinned())
      ensures r == if key in index then Some(index[key]) else None
    {
      r := None;
      if key in index {
        r := Some(index[key]);
        if isAccess { replacer.Access(key); }
      }
    }

    /** The entry behind a key changes in place. */
    method Set(key: U32, entry: V)
      requires Valid() && key in index
      modifies this`index
      ensures Valid() && index == old(index)[key := entry]
    {
      index := index[key := entry];
    }

    /** An unpinned entry leaves the cache, unless all are pinned. */
    method ReplaceOne() returns (r: Option<(U32, V)>)
      requires Valid()
      modifies this`index, replacer
      ensures Valid() && Pinned() == old(Pinned())
      ensures r.None? <==> forall k :: k in old(index) ==> k in Pinned()
      ensures r.None? ==> index == old(index)
      ensures r.Some? ==>
        && r.value.0 in old(index) && r.value.1 == old(index)[r.value.0] && r.value.0 !in Pinned()
        && index == old(index) - {r.value.0}
    {
      if !replacer.CanReplace() { return None; }
      ghost var victims := replacer.lru;
      var key := replacer.Pop();
      assert forall k :: k in victims <==> k == key || k in replacer.lru;
      r := Some((key, index[key]));
      index := index - {key};
    }

    method Remove(key: U32)
      requires Valid() && key in index
      modifies this`index, replacer
      ensures Valid() && index == old(index) - {key} && Pinned() == old(Pinned()) - {key}
    {
      replacer.Remove(key);
      index := index - {key};
    }

    method Pin(key: U32)
      requires Valid() && key in index
      modifies replacer
      ensures Valid() && Pinned() == old(Pinned()) + {key}
    {
      replacer.Pin(key);
    }

    method Unpin(key: U32)
      requires Valid()
      modifies replacer
      ensures Valid() && Pinned() == old(Pinned()) - {key}
    {
      replacer.Unpin(key);
    }
  }
}
