/** Deduplication of a transaction's entries before they are written (src/journal/journal_writer.c),
    and what it means for replay: the last entry of a key decides. */
module JournalDedup {
  import opened Wrappers
  import opened Bytes
  import opened JournalFormat
  import opened KeyTree
  import opened RedoLog
  import opened LogRecovery

  function Of(es: seq<Entry>, k: U32): (r: seq<Entry>)
    ensures forall e :: e in r ==> KeyOf(e) == k && e in es
  {
    if es == [] then []
    else if KeyOf(es[0]) == k then [es[0]] + Of(es[1..], k)
    else Of(es[1..], k)
  }

  function LastOf(es: seq<Entry>, k: U32): Option<Entry> {
    var s := Of(es, k);
    if s == [] then None else Some(s[|s| - 1])
  }

  ghost predicate SameLast(xs: seq<Entry>, ys: seq<Entry>) {
    forall k: U32 :: LastOf(xs, k) == LastOf(ys, k)
  }

  lemma {:induction false} OfAppend(xs: seq<Entry>, ys: seq<Entry>, k: U32)
    ensures Of(xs + ys, k) == Of(xs, k) + Of(ys, k)
  {
    if xs == [] {
      assert xs + ys == ys;
    } else {
      assert (xs + ys)[1..] == xs[1..] + ys;
      OfAppend(xs[1..], ys, k);
    }
  }

  lemma {:induction false} OfHas(es: seq<Entry>, e: Entry)
    requires e in es
    ensures e in Of(es, KeyOf(e))
  {
    if e != es[0] { OfHas(es[1..], e); }
  }

  // ---- Replay is decided by the last entry of every key ----

  /** The byte that the updates leave at (l, i), if they write it. */
  function LastCover(us: seq<Update>, l: nat, i: nat): Option<Byte> {
    if us == [] then None
    else
      match LastCover(us[1..], l, i)
      case Some(b) => Some(b)
      case None => if Covers(us[0], l, i) then Some(us[0].data[i - us[0].off]) else None
  }

  lemma {:induction false} RedoAt(m: Image, us: seq<Update>, l: nat, i: nat)
    requires AllInImage(|m|, us) && l < |m| && i < BLOCK_SIZE
    ensures Redo(m, us)[l][i] == match LastCover(us, l, i) { case Some(b) => b case None => m[l][i] }
    decreases |us|
  {
    if us != [] {
      ByteAfter(m, us[0], l, i);
      RedoAt(ApplyUpdate(m, us[0]), us[1..], l, i);
    }
  }

  /** Entries of different keys write different bytes, and entries of one key the same bytes. */
  ghost predicate Spread(lay: Layout, es: seq<Entry>) {
    forall e, e' :: e in es && e' in es ==> Separate(lay, e, e')
  }

  ghost predicate Separate(lay: Layout, e: Entry, e': Entry) {
    && EntryInRange(lay, e) && EntryInRange(lay, e')
    && UpdateOf(lay, e).Some? && UpdateOf(lay, e').Some?
    && var u, u' := UpdateOf(lay, e).value, UpdateOf(lay, e').value;
       if KeyOf(e) == KeyOf(e') then u.slot == u'.slot && u.off == u'.off && |u.data| == |u'.data|
       else u.slot != u'.slot || u.off + |u.data| <= u'.off || u'.off + |u'.data| <= u.off
  }

  /** The byte of entry e's update that lands at i. */
  ghost function ByteOf(lay: Layout, e: Entry, i: nat): Byte
    requires UpdateOf(lay, e).Some?
    requires var u := UpdateOf(lay, e).value; u.off <= i < u.off + |u.data|
  {
    var u := UpdateOf(lay, e).value;
    u.data[i - u.off]
  }

  /** Where an entry d writes, the last entry with its key decides. */
  lemma {:induction false} LastDecides(lay: Layout, es: seq<Entry>, d: Entry, l: nat, i: nat)
    requires UpdateOf(lay, d).Some? && Covers(UpdateOf(lay, d).value, l, i)
    requires forall e :: e in es ==> Separate(lay, e, d)
    ensures match LastOf(es, KeyOf(d))
      case None => LastCover(UpdatesOf(lay, es), l, i) == None
      case Some(e) => Separate(lay, e, d) && LastCover(UpdatesOf(lay, es), l, i) == Some(ByteOf(lay, e, i))
  {
    hide UpdateOf, KeyOf;
    if es != [] {
      LastDecides(lay, es[1..], d, l, i);
      assert Separate(lay, es[0], d);
      assert UpdatesOf(lay, es)[1..] == UpdatesOf(lay, es[1..]);
    }
  }

  lemma {:induction false} NobodyCovers(lay: Layout, es: seq<Entry>, l: nat, i: nat)
    requires forall e :: e in es ==> UpdateOf(lay, e).Some? && !Covers(UpdateOf(lay, e).value, l, i)
    ensures LastCover(UpdatesOf(lay, es), l, i) == None
  {
    if es != [] {
      assert es[0] in es;
      NobodyCovers(lay, es[1..], l, i);
      assert UpdatesOf(lay, es)[1..] == UpdatesOf(lay, es[1..]);
    }
  }

  lemma SameLastSameByte(lay: Layout, xs: seq<Entry>, ys: seq<Entry>, l: nat, i: nat)
    requires Spread(lay, xs + ys) && SameLast(xs, ys)
    ensures LastCover(UpdatesOf(lay, xs), l, i) == LastCover(UpdatesOf(lay, ys), l, i)
  {
    forall e, e' | e in xs + ys && e' in xs + ys ensures Separate(lay, e, e') {}
    if d :| d in xs + ys && Covers(UpdateOf(lay, d).value, l, i) {
      LastDecides(lay, xs, d, l, i);
      LastDecides(lay, ys, d, l, i);
      assert LastOf(xs, KeyOf(d)) == LastOf(ys, KeyOf(d));
    } else {
      forall e | e in xs + ys ensures UpdateOf(lay, e).Some? { assert Separate(lay, e, e); }
      NobodyCovers(lay, xs, l, i);
      NobodyCovers(lay, ys, l, i);
    }
  }

  /** Two lists of entries replay to the same memory if every key ends with the same entry. */
  lemma ReplayByLast(lay: Layout, m: Image, xs: seq<Entry>, ys: seq<Entry>)
    requires Spread(lay, xs + ys) && SameLast(xs, ys)
    requires AllInImage(|m|, UpdatesOf(lay, xs)) && AllInImage(|m|, UpdatesOf(lay, ys))
    ensures Redo(m, UpdatesOf(lay, xs)) == Redo(m, UpdatesOf(lay, ys))
  {
    var a, b := Redo(m, UpdatesOf(lay, xs)), Redo(m, UpdatesOf(lay, ys));
    forall l | 0 <= l < |m| ensures a[l] == b[l] {
      forall i | 0 <= i < BLOCK_SIZE ensures a[l][i] == b[l][i] {
        SameLastSameByte(lay, xs, ys, l, i);
        RedoAt(m, UpdatesOf(lay, xs), l, i);
        RedoAt(m, UpdatesOf(lay, ys), l, i);
      }
    }
  }

  /** Conversely a key that ends differently shows in every memory. */
  lemma LastShows(lay: Layout, m: Image, xs: seq<Entry>, ys: seq<Entry>, k: U32)
    requires Spread(lay, xs + ys) && LastOf(xs, k).Some? && LastOf(ys, k).Some?
    requires KindOf(LastOf(xs, k).value) == KindOf(LastOf(ys, k).value) && LastOf(xs, k) != LastOf(ys, k)
    requires AllInImage(|m|, UpdatesOf(lay, xs)) && AllInImage(|m|, UpdatesOf(lay, ys))
    ensures Redo(m, UpdatesOf(lay, xs)) != Redo(m, UpdatesOf(lay, ys))
  {
    hide UpdateOf, UpdatesOf, Redo, Of, Spread, LastOf;
    var x, y := LastOf(xs, k).value, LastOf(ys, k).value;
    LastPair(lay, xs, ys, k);
    DataDiffers(lay, x, y);
    var u := UpdateOf(lay, x).value;
    UpdatesHave(lay, xs, x);
    var j :| 0 <= j < |u.data| && u.data[j] != UpdateOf(lay, y).value.data[j];
    assert InImage(|m|, u);
    ReplayedByte(lay, m, xs, x, x, u.slot, u.off + j);
    ReplayedByte(lay, m, ys, x, y, u.slot, u.off + j);
  }

  lemma LastPair(lay: Layout, xs: seq<Entry>, ys: seq<Entry>, k: U32)
    requires Spread(lay, xs + ys) && LastOf(xs, k).Some? && LastOf(ys, k).Some?
    ensures var x, y := LastOf(xs, k).value, LastOf(ys, k).value;
      && x in xs && KeyOf(x) == KeyOf(y) == k && Separate(lay, x, x) && Separate(lay, y, x)
      && forall e :: e in xs || e in ys ==> Separate(lay, e, x)
  {
    var x, y := LastOf(xs, k).value, LastOf(ys, k).value;
    assert x in Of(xs, k) && y in Of(ys, k);
    assert x in xs + ys && y in xs + ys;
    forall e | e in xs || e in ys ensures Separate(lay, e, x) { assert e in xs + ys; }
  }

  lemma ReplayedByte(lay: Layout, m: Image, es: seq<Entry>, d: Entry, e: Entry, l: nat, i: nat)
    requires UpdateOf(lay, d).Some? && Covers(UpdateOf(lay, d).value, l, i) && l < |m| && i < BLOCK_SIZE
    requires LastOf(es, KeyOf(d)) == Some(e) && forall x :: x in es ==> Separate(lay, x, d)
    requires AllInImage(|m|, UpdatesOf(lay, es))
    ensures Separate(lay, e, d) && Redo(m, UpdatesOf(lay, es))[l][i] == ByteOf(lay, e, i)
  {
    hide UpdatesOf, Redo;
    LastDecides(lay, es, d, l, i);
    RedoAt(m, UpdatesOf(lay, es), l, i);
  }

  lemma {:induction false} UpdatesHave(lay: Layout, es: seq<Entry>, e: Entry)
    requires e in es && UpdateOf(lay, e).Some?
    ensures UpdateOf(lay, e).value in UpdatesOf(lay, es)
  {
    if e != es[0] { UpdatesHave(lay, es[1..], e); }
  }

  /** Different entries with the same key write different bytes. */
  lemma DataDiffers(lay: Layout, x: Entry, y: Entry)
    requires x != y && KindOf(x) == KindOf(y) && KeyOf(x) == KeyOf(y)
    requires UpdateOf(lay, x).Some? && UpdateOf(lay, y).Some?
    requires |UpdateOf(lay, x).value.data| == |UpdateOf(lay, y).value.data|
    ensures exists j :: 0 <= j < |UpdateOf(lay, x).value.data| &&
                        UpdateOf(lay, x).value.data[j] != UpdateOf(lay, y).value.data[j]
  {
    if UpdateOf(lay, x).value.data == UpdateOf(lay, y).value.data { SameDataSameEntry(lay, x, y); }
  }

  lemma SameDataSameEntry(lay: Layout, x: Entry, y: Entry)
    requires KindOf(x) == KindOf(y) && KeyOf(x) == KeyOf(y)
    requires UpdateOf(lay, x).Some? && UpdateOf(lay, y).Some?
    requires UpdateOf(lay, x).value.data == UpdateOf(lay, y).value.data
    ensures x == y
  {
    match x
    case NatEntry(_, ino, addr) => TwoWords(ino, addr, y.ino, y.addr);
    case SitEntry(_, _) =>
    case SuperEntry(_, val) => TwoWords(val, 0, y.val, 0);
  }

  lemma TwoWords(a: U32, b: U32, c: U32, d: U32)
    requires Le32(a) + Le32(b) == Le32(c) + Le32(d)
    ensures a == c && b == d
  {
    Get32Of([], a, Le32(b));
    Get32Of([], c, Le32(d));
    Get32Of(Le32(a), b, []);
    Get32Of(Le32(c), d, []);
    assert [] + Le32(a) + Le32(b) == Le32(a) + Le32(b) == Le32(a) + Le32(b) + [];
    assert [] + Le32(c) + Le32(d) == Le32(c) + Le32(d) == Le32(c) + Le32(d) + [];
  }

  // ---- Table entries never overlap ----

  lemma {:induction false} LocateSplits(perBlock: nat, a: nat, b: nat)
    requires perBlock > 0 && a != b
    ensures Locate(perBlock, a) != Locate(perBlock, b)
    decreases a + b
  {
    if a >= perBlock && b >= perBlock { LocateSplits(perBlock, a - perBlock, b - perBlock); }
  }

  lemma TableEntriesSpread(g: Geometry, n: nat, k: Kind, es: seq<Entry>)
    requires GeometryOk(g, n) && k != Super && AllOfKind(k, es) && AllInRange(g.lay, es)
    ensures Spread(g.lay, es)
  {
    forall e, e' | e in es && e' in es ensures Separate(g.lay, e, e') {
      assert KindOf(e) == KindOf(e') == k;
      EntryIsSafe(g, n, e);
      EntryIsSafe(g, n, e');
      if KeyOf(e) != KeyOf(e') {
        LocateSplits(if k == Nats then NAT_ENTRIES_PER_BLOCK else SIT_ENTRIES_PER_BLOCK, KeyOf(e), KeyOf(e'));
      }
    }
  }

  /** Every super-block journal entry addresses a 32-bit field. */
  ghost predicate FieldAligned(es: seq<Entry>) {
    forall e :: e in es ==> KeyOf(e) % 4 == 0
  }

  lemma SuperEntriesSpread(g: Geometry, n: nat, es: seq<Entry>)
    requires GeometryOk(g, n) && AllOfKind(Super, es) && AllInRange(g.lay, es) && FieldAligned(es)
    ensures Spread(g.lay, es)
  {
    forall e, e' | e in es && e' in es ensures Separate(g.lay, e, e') {
      assert KindOf(e) == KindOf(e') == Super && KeyOf(e) % 4 == 0 && KeyOf(e') % 4 == 0;
    }
  }

  // ---- Super-block entries: a hash map from offset to the last index ----

  /** Every key occurs once, and ends as in the journal. */
  ghost predicate Deduplicates(out: seq<Entry>, journal: seq<Entry>) {
    && SameLast(out, journal) && (forall e :: e in out ==> e in journal)
    && forall i, j :: 0 <= i < j < |out| ==> KeyOf(out[i]) != KeyOf(out[j])
  }

  lemma {:induction false} IndexIsLast(es: seq<Entry>, i: nat)
    requires i < |es| && forall j :: i < j < |es| ==> KeyOf(es[j]) != KeyOf(es[i])
    ensures LastOf(es, KeyOf(es[i])) == Some(es[i])
  {
    var k := KeyOf(es[i]);
    assert es == es[..i] + ([es[i]] + es[i + 1..]);
    OfAppend(es[..i], [es[i]] + es[i + 1..], k);
    OfAppend([es[i]], es[i + 1..], k);
    NoKey(es[i + 1..], k);
  }

  lemma {:induction false} NoKey(es: seq<Entry>, k: U32)
    requires forall e :: e in es ==> KeyOf(e) != k
    ensures Of(es, k) == []
  {
    if es != [] { assert es[0] in es; NoKey(es[1..], k); }
  }

  /** The index holds the last position of every key. */
  ghost predicate LastIndex(index: map<U32, nat>, journal: seq<Entry>, n: nat)
    requires n <= |journal|
  {
    && (forall k :: k in index ==> index[k] < n && KeyOf(journal[index[k]]) == k)
    && forall j :: 0 <= j < n ==> KeyOf(journal[j]) in index && j <= index[KeyOf(journal[j])]
  }

  /** superJournalOutputVectorGenerateOutputVector: a later entry overwrites an earlier index. */
  method IndexByOffset(journal: seq<Entry>) returns (index: map<U32, nat>)
    ensures LastIndex(index, journal, |journal|) && Lists([], journal, index, {})
  {
    index := map[];
    var i := 0;
    while i < |journal|
      invariant i <= |journal| && LastIndex(index, journal, i)
    {
      index := index[KeyOf(journal[i]) := i];
      i := i + 1;
    }
  }

  /** out lists the indexed entries with the keys done, each once. */
  ghost predicate Lists(out: seq<Entry>, journal: seq<Entry>, index: map<U32, nat>, done: set<U32>)
    requires LastIndex(index, journal, |journal|)
  {
    && (forall j :: 0 <= j < |out| ==>
          KeyOf(out[j]) in index && KeyOf(out[j]) in done && out[j] == journal[index[KeyOf(out[j])]])
    && (forall i, j :: 0 <= i < j < |out| ==> KeyOf(out[i]) != KeyOf(out[j]))
    && forall k :: k in done && k in index ==> journal[index[k]] in out
  }

  /** The walk over the hash table, whose order is arbitrary: each offset is written once, with its
      last value. */
  method SuperOutput(journal: seq<Entry>) returns (out: seq<Entry>)
    ensures Deduplicates(out, journal)
  {
    var index := IndexByOffset(journal);
    hide LastIndex, Lists, Deduplicates, KeyOf;
    out := [];
    var todo := index.Keys;
    ghost var done: set<U32> := {};
    while todo != {}
      invariant done + todo == index.Keys && done !! todo && Lists(out, journal, index, done)
      decreases |todo|
    {
      var k :| k in todo;
      ListsExtend(out, journal, index, done, k);
      out, todo, done := out + [journal[index[k]]], todo - {k}, done + {k};
    }
    ListsDeduplicate(out, journal, index);
  }

  lemma ListsExtend(out: seq<Entry>, journal: seq<Entry>, index: map<U32, nat>, done: set<U32>, k: U32)
    requires LastIndex(index, journal, |journal|) && Lists(out, journal, index, done)
    requires k in index && k !in done
    ensures Lists(out + [journal[index[k]]], journal, index, done + {k})
  {
    hide KeyOf;
    var out' := out + [journal[index[k]]];
    assert out'[|out|] == journal[index[k]];
    forall j | 0 <= j < |out'|
      ensures KeyOf(out'[j]) in index && KeyOf(out'[j]) in done + {k} && out'[j] == journal[index[KeyOf(out'[j])]]
    {
      if j < |out| { assert out'[j] == out[j]; }
    }
    forall i, j | 0 <= i < j < |out'| ensures KeyOf(out'[i]) != KeyOf(out'[j]) {
      assert out'[i] == out[i];
      if j < |out| { assert out'[j] == out[j]; }
    }
  }

  lemma ListsDeduplicate(out: seq<Entry>, journal: seq<Entry>, index: map<U32, nat>)
    requires LastIndex(index, journal, |journal|) && Lists(out, journal, index, index.Keys)
    ensures Deduplicates(out, journal)
  {
    forall k: U32 ensures LastOf(out, k) == LastOf(journal, k) {
      if k in index {
        IndexIsLast(journal, index[k]);
        var j :| 0 <= j < |out| && out[j] == journal[index[k]];
        IndexIsLast(out, j);
      } else {
        NoKey(journal, k);
        NoKey(out, k);
      }
    }
  }

  // ---- NAT and SIT entries: a B-tree that keeps equal keys ----

  /** With distinct keys no key loses its last entry. */
  lemma DistinctKeysAreExact(journal: seq<Entry>)
    requires forall i, j :: 0 <= i < j < |journal| ==> KeyOf(journal[i]) != KeyOf(journal[j])
    ensures SameLast(Walk(Built(journal)), journal)
  {
    var out := Walk(Built(journal));
    BuiltIsOrdered(journal);
    hide Walk, Built;
    forall k: U32 ensures LastOf(out, k) == LastOf(journal, k) {
      OnlyOne(journal, k);
      SameMultisets(out, journal, k);
      var a, b := Of(out, k), Of(journal, k);
      assert |a| == |multiset(a)| == |multiset(b)| == |b|;
      if |b| == 1 { assert a[0] in multiset(a); }
    }
  }

  lemma {:induction false} OnlyOne(es: seq<Entry>, k: U32)
    requires forall i, j :: 0 <= i < j < |es| ==> KeyOf(es[i]) != KeyOf(es[j])
    ensures |Of(es, k)| <= 1
  {
    if es != [] {
      if KeyOf(es[0]) == k {
        forall e | e in es[1..] ensures KeyOf(e) != k {
          var j :| 0 < j < |es| && es[j] == e;
          assert KeyOf(es[0]) != KeyOf(es[j]);
        }
        NoKey(es[1..], k);
      } else {
        OnlyOne(es[1..], k);
      }
    }
  }

  lemma {:induction false} OfCount(es: seq<Entry>, k: U32, e: Entry)
    ensures multiset(Of(es, k))[e] == if KeyOf(e) == k then multiset(es)[e] else 0
  {
    if es != [] {
      assert es == [es[0]] + es[1..];
      OfCount(es[1..], k, e);
    }
  }

  lemma SameMultisets(xs: seq<Entry>, ys: seq<Entry>, k: U32)
    requires multiset(xs) == multiset(ys)
    ensures multiset(Of(xs, k)) == multiset(Of(ys, k))
  {
    forall e: Entry ensures multiset(Of(xs, k))[e] == multiset(Of(ys, k))[e] {
      OfCount(xs, k, e);
      OfCount(ys, k, e);
    }
  }

  function Reversed(s: seq<Entry>): (r: seq<Entry>)
    ensures |r| == |s|
    ensures s != [] ==> r[|s| - 1] == s[0] && r[0] == s[|s| - 1]
  {
    if s == [] then [] else Reversed(s[1..]) + [s[0]]
  }

  lemma {:induction false} ReversedSnoc(s: seq<Entry>, e: Entry)
    ensures Reversed(s + [e]) == [e] + Reversed(s)
  {
    if s != [] {
      assert (s + [e])[1..] == s[1..] + [e];
      ReversedSnoc(s[1..], e);
    }
  }

  /** The order in which one key's entries come out of a leaf: the first, then the rest backwards. */
  function FirstThenBackwards(s: seq<Entry>): seq<Entry> {
    if s == [] then [] else [s[0]] + Reversed(s[1..])
  }

  lemma BackwardsSnoc(s: seq<Entry>, e: Entry)
    ensures FirstThenBackwards(s + [e]) ==
      if s == [] then [e] else [FirstThenBackwards(s)[0], e] + FirstThenBackwards(s)[1..]
  {
    hide Reversed;
    if s == [] {
      assert Reversed([]) == [] by { ReversedEmpty(); }
      assert (s + [e])[1..] == [];
    } else {
      assert (s + [e])[1..] == s[1..] + [e] && (s + [e])[0] == s[0];
      ReversedSnoc(s[1..], e);
      SecondPlace(s[0], e, Reversed(s[1..]));
    }
  }

  lemma ReversedEmpty()
    ensures Reversed([]) == []
  {
  }

  lemma SecondPlace(a: Entry, b: Entry, r: seq<Entry>)
    ensures [a] + ([b] + r) == [([a] + r)[0], b] + ([a] + r)[1..]
  {
  }

  lemma {:induction false} LeafOrderSorted(journal: seq<Entry>)
    ensures Sorted(LeafOrder(journal))
  {
    if journal != [] {
      hide *;
      var s, e := LeafOrder(journal[..|journal| - 1]), journal[|journal| - 1];
      LeafOrderSorted(journal[..|journal| - 1]);
      LeafInserts(s, e);
      InsertedKeeps(s, e, LeafInsert(s, e));
      LeafOrderSnoc(journal);
    } else {
      assert LeafOrder([]) == [];
    }
  }

  lemma LeafOrderSnoc(journal: seq<Entry>)
    requires journal != []
    ensures LeafOrder(journal) == LeafInsert(LeafOrder(journal[..|journal| - 1]), journal[|journal| - 1])
  {
  }

  /** Inserting into a sorted leaf puts the entry second among those with its key. */
  lemma LeafInsertOf(s: seq<Entry>, e: Entry, k: U32)
    requires Sorted(s)
    ensures Of(LeafInsert(s, e), k) ==
      if KeyOf(e) != k then Of(s, k)
      else if Of(s, k) == [] then [e]
      else [Of(s, k)[0], e] + Of(s, k)[1..]
  {
    hide KeyOf, Smaller, Of, Sorted, InsertAt;
    InsertOf(s, Spot(s, KeyOf(e)), e, k);
    OneOf(e, k);
    if KeyOf(e) == k { LeafHead(s, k); }
  }

  lemma InsertOf(s: seq<Entry>, q: nat, e: Entry, k: U32)
    requires q <= |s|
    ensures Of(s, k) == Of(s[..q], k) + Of(s[q..], k)
    ensures Of(InsertAt(s, q, e), k) == Of(s[..q], k) + Of([e], k) + Of(s[q..], k)
  {
    hide Of;
    assert s == s[..q] + s[q..];
    OfAppend(s[..q], s[q..], k);
    OfAppend(s[..q] + [e], s[q..], k);
    OfAppend(s[..q], [e], k);
  }

  lemma OneOf(e: Entry, k: U32)
    ensures Of([e], k) == if KeyOf(e) == k then [e] else []
  {
    assert [e][1..] == [];
  }

  /** The keys of a sorted leaf up to the insertion point. */
  lemma LeafHead(s: seq<Entry>, k: U32)
    requires Sorted(s)
    ensures var p := Smaller(s, k);
      if p < |s| && KeyOf(s[p]) == k then Of(s[..p + 1], k) == [s[p]]
      else Of(s[..p], k) == [] && Of(s[p..], k) == []
  {
    var p := Smaller(s, k);
    NoKey(s[..p], k);
    if p < |s| && KeyOf(s[p]) == k {
      assert s[..p + 1] == s[..p] + [s[p]];
      OfAppend(s[..p], [s[p]], k);
      OneOf(s[p], k);
    } else {
      forall x | x in s[p..] ensures KeyOf(x) != k {
        var j :| p <= j < |s| && s[j] == x;
        assert KeyOf(s[p]) <= KeyOf(s[j]);
      }
      NoKey(s[p..], k);
    }
  }

  lemma {:induction false} LeafOrderOf(journal: seq<Entry>, k: U32)
    ensures Of(LeafOrder(journal), k) == FirstThenBackwards(Of(journal, k))
  {
    hide KeyOf, Of, LeafInsert, Smaller;
    if journal == [] {
      assert Of([], k) == [] by { NoKey([], k); }
    } else {
      var init, e := journal[..|journal| - 1], journal[|journal| - 1];
      LeafOrderOf(init, k);
      LeafOrderSorted(init);
      LeafInsertOf(LeafOrder(init), e, k);
      assert journal == init + [e];
      OfAppend(init, [e], k);
      OneOf(e, k);
      var s := Of(init, k);
      if KeyOf(e) == k {
        BackwardsSnoc(s, e);
      } else {
        assert s + [] == s;
      }
    }
  }

  /** A key's entries survive a leaf in effect: at most two of them, or the second like the last. */
  ghost predicate SecondIsLast(journal: seq<Entry>, k: U32) {
    var s := Of(journal, k);
    |s| <= 2 || s[1] == s[|s| - 1]
  }

  /** Where the writer's comment promises the newest entry of a key, a leaf leaves the SECOND one
      last: the outcome is that of the journal exactly if every key has at most two entries, or its
      second entry equals its last. */
  lemma LeafOrderIsExactIff(journal: seq<Entry>)
    ensures SameLast(LeafOrder(journal), journal) <==> forall k: U32 :: SecondIsLast(journal, k)
  {
    forall k: U32 ensures LastOf(LeafOrder(journal), k) == LastOf(journal, k) <==> SecondIsLast(journal, k) {
      LeafOrderOf(journal, k);
      var s := Of(journal, k);
      if |s| >= 2 {
        var r := Reversed(s[1..]);
        assert r[|r| - 1] == s[1];
      }
    }
  }

  /** Three updates of one segment in one transaction: replay ends with the second, not the newest. */
  lemma ThreeUpdatesLoseTheNewest(seg: U32, a: SitImage, b: SitImage, c: SitImage)
    requires b != c
    ensures var j := [SitEntry(seg, a), SitEntry(seg, b), SitEntry(seg, c)];
      LastOf(LeafOrder(j), seg) == Some(SitEntry(seg, b)) && LastOf(j, seg) == Some(SitEntry(seg, c))
  {
    hide LeafOrder;
    var x, y, z := SitEntry(seg, a), SitEntry(seg, b), SitEntry(seg, c);
    LeafOrderOf([x, y, z], seg);
    assert [x, y, z] == [x] + ([y] + [z]);
    OneOf(x, seg);
    OneOf(y, seg);
    OneOf(z, seg);
    OfAppend([y], [z], seg);
    OfAppend([x], [y] + [z], seg);
    assert Of([x, y, z], seg) == [x, y, z] && [x, y, z][1..] == [y, z];
    assert Reversed([y, z])[1] == y;
  }

  // ---- Trees of any size ----

  /** Whether a second entry with key k is put before the first one: somewhere on the way down, the split
      that makes room has moved the first one up, and the way turns off to its left. */
  ghost predicate Overtakes(x: Tree, k: U32)
    requires Shaped(x) && !Full(x)
    decreases Height(x)
  {
    x.Node? && (
      var (s, i) := Descend(x, k);
      if i < |s.keys| && KeyOf(s.keys[i]) == k then true
      else if i > 0 && KeyOf(s.keys[i - 1]) == k then false
      else Overtakes(s.kids[i], k))
  }

  lemma InsertedOf(s: seq<Entry>, e: Entry, r: seq<Entry>, k: U32)
    requires Inserted(s, e, r)
    ensures KeyOf(e) != k ==> Of(r, k) == Of(s, k)
    ensures KeyOf(e) == k && Of(s, k) == [] ==> Of(r, k) == [e]
  {
    var a, b :| InsertedAt(s, e, r, a, b);
    OneOf(e, k);
    hide Of, KeyOf;
    OfAppend(a, b, k);
    OfAppend(a + [e], b, k);
    OfAppend(a, [e], k);
    assert Of(a, k) + [] == Of(a, k);
    if Of(s, k) == [] { assert Of(a, k) == [] && Of(b, k) == [] && [] + [e] + [] == [e]; }
  }

  /** What a walk visits outside the child i has key k exactly if the next key there is k. */
  lemma OutsideOf(keys: seq<Entry>, w: seq<seq<Entry>>, i: nat, k: U32)
    requires |w| == |keys| + 1 && i <= |keys| && Sorted(Join(keys, w))
    requires AtMost(keys[..i], k) && AtLeast(keys[i..], k)
    ensures Of(Before(keys, w, i), k) == [] <==> i == 0 || KeyOf(keys[i - 1]) != k
    ensures Of(After(keys[i..], w[i + 1..]), k) == [] <==> i == |keys| || KeyOf(keys[i]) != k
  {
    Bounds(keys, w, i, k);
    Around(keys, w, i);
    SortedMiddle(Before(keys, w, i), w[i], After(keys[i..], w[i + 1..]));
    BeforeOf(keys, w, i, k);
    AfterOf(keys[i..], w[i + 1..], k);
  }

  lemma BeforeOf(keys: seq<Entry>, w: seq<seq<Entry>>, i: nat, k: U32)
    requires |w| == |keys| + 1 && i <= |keys| && Sorted(Before(keys, w, i)) && AtMost(keys[..i], k)
    ensures Of(Before(keys, w, i), k) == [] <==> i == 0 || KeyOf(keys[i - 1]) != k
  {
    if i > 0 {
      var a, m := Before(keys, w, i), keys[i - 1];
      assert a[|a| - 1] == m && m in keys[..i];
      if KeyOf(m) == k {
        OfHas(a, m);
      } else {
        AtMostBy(a, KeyOf(m));
        NoKey(a, k);
      }
    }
  }

  lemma AfterOf(keys: seq<Entry>, w: seq<seq<Entry>>, k: U32)
    requires Sorted(After(keys, w)) && AtLeast(keys, k)
    ensures Of(After(keys, w), k) == [] <==> keys == [] || KeyOf(keys[0]) != k
  {
    if keys != [] {
      var b, m := After(keys, w), keys[0];
      assert b[0] == m && m in keys;
      if KeyOf(m) == k {
        OfHas(b, m);
      } else {
        AtLeastBy(b, KeyOf(m));
        NoKey(b, k);
      }
    }
  }

  /** The second entry of a key lands before the first exactly if it Overtakes it. */
  lemma {:induction false} PutSecond(x: Tree, e: Entry)
    requires Shaped(x) && !Full(x) && Sorted(Walk(x)) && |Of(Walk(x), KeyOf(e))| == 1
    ensures Of(Walk(Put(x, e)), KeyOf(e)) ==
      if Overtakes(x, KeyOf(e)) then [e] + Of(Walk(x), KeyOf(e)) else Of(Walk(x), KeyOf(e)) + [e]
    decreases Height(x), 1
  {
    if x.Leaf? {
      LeafInsertOf(x.keys, e, KeyOf(e));
    } else {
      DescendKeeps(x, KeyOf(e));
      var (s, i) := Descend(x, KeyOf(e));
      PutSecondBelow(s, i, e);
    }
  }

  lemma {:induction false} PutSecondBelow(s: Tree, i: nat, e: Entry)
    requires s.Node? && Shaped(s) && i < |s.kids| && !Full(s.kids[i]) && Sorted(Walk(s)) && |Of(Walk(s), KeyOf(e))| == 1
    requires AtMost(s.keys[..i], KeyOf(e)) && AtLeast(s.keys[i..], KeyOf(e))
    ensures Shaped(s.kids[i])
    ensures Of(Walk(Node(s.keys, s.kids[i := Put(s.kids[i], e)])), KeyOf(e)) ==
      if i < |s.keys| && KeyOf(s.keys[i]) == KeyOf(e) then [e] + Of(Walk(s), KeyOf(e))
      else if i > 0 && KeyOf(s.keys[i - 1]) == KeyOf(e) then Of(Walk(s), KeyOf(e)) + [e]
      else if Overtakes(s.kids[i], KeyOf(e)) then [e] + Of(Walk(s), KeyOf(e))
      else Of(Walk(s), KeyOf(e)) + [e]
    decreases Height(s.kids[i]), 2
  {
    hide Join, Before, After, Inserted, AtMost, AtLeast, Sorted, KeyOf, Put, Walk, Of, Overtakes;
    var k, w := KeyOf(e), Walks(s.kids);
    WalkNode(s.keys, s.kids);
    Bounds(s.keys, w, i, k);
    OutsideOf(s.keys, w, i, k);
    var y := Put(s.kids[i], e);
    var w' := Walks(s.kids[i := y]);
    WalkNode(s.keys, s.kids[i := y]);
    Around(s.keys, w, i);
    Around(s.keys, w', i);
    assert w[..i] == w'[..i] && w[i + 1..] == w'[i + 1..];
    SameBefore(s.keys, w, s.keys, w', i);
    var p, q := Before(s.keys, w, i), After(s.keys[i..], w[i + 1..]);
    OfThree(p, w[i], q, k);
    OfThree(p, w'[i], q, k);
    PutInserts(s.kids[i], e);
    InsertedOf(w[i], e, w'[i], k);
    if Of(w[i], k) != [] { PutSecond(s.kids[i], e); }
    Lined(Of(p, k), Of(w[i], k), Of(q, k), Of(w'[i], k), e);
  }

  lemma OfThree(a: seq<Entry>, b: seq<Entry>, c: seq<Entry>, k: U32)
    ensures Of(a + b + c, k) == Of(a, k) + Of(b, k) + Of(c, k)
  {
    hide Of;
    OfAppend(a + b, c, k);
    OfAppend(a, b, k);
  }

  /** Three lists with one element in all, and what becomes of their sum. */
  lemma Lined(p: seq<Entry>, w: seq<Entry>, q: seq<Entry>, w': seq<Entry>, e: Entry)
    requires |p + w + q| == 1 && (w == [] ==> w' == [e])
    ensures q != [] ==> p + w' + q == [e] + (p + w + q)
    ensures p != [] ==> p + w' + q == (p + w + q) + [e]
    ensures w != [] ==> p == [] && q == [] && p + w' + q == w' && p + w + q == w
    ensures p == [] && q == [] ==> w != []
  {
  }

  /** Whether the second entry with key k overtook the first when it was put. */
  ghost predicate Swapped(journal: seq<Entry>, k: U32) {
    journal != [] && (
      var init, e := journal[..|journal| - 1], journal[|journal| - 1];
      if KeyOf(e) == k && |Of(init, k)| == 1 then Overtakes(Grown(Built(init)), k) else Swapped(init, k))
  }

  lemma {:induction false} TwiceOf(journal: seq<Entry>, k: U32)
    requires |Of(journal, k)| <= 2
    ensures var s := Of(journal, k);
      Of(Walk(Built(journal)), k) == if |s| == 2 && Swapped(journal, k) then [s[1], s[0]] else s
  {
    if journal != [] {
      var init, e := journal[..|journal| - 1], journal[|journal| - 1];
      assert journal == init + [e];
      OfAppend(init, [e], k);
      OneOf(e, k);
      TwiceOf(init, k);
      TwiceStep(init, e, k);
    }
  }

  lemma TwiceStep(init: seq<Entry>, e: Entry, k: U32)
    requires |Of(init, k)| <= (if KeyOf(e) == k then 1 else 2) &&
      (|Of(init, k)| <= 1 ==> Of(Walk(Built(init)), k) == Of(init, k))
    ensures KeyOf(e) != k ==> Of(Walk(Built(init + [e])), k) == Of(Walk(Built(init)), k)
    ensures KeyOf(e) == k && Of(init, k) == [] ==> Of(Walk(Built(init + [e])), k) == [e]
    ensures KeyOf(e) == k && Of(init, k) != [] ==>
      Of(Walk(Built(init + [e])), k) == if Overtakes(Grown(Built(init)), k) then [e] + Of(init, k)
        else Of(init, k) + [e]
  {
    var t := Built(init);
    BuiltIsOrdered(init);
    BuiltSnoc(init, e);
    GrownKeepsWalk(t);
    hide Walk, Of, Built, Put, Grown, Shaped, Sorted, Inserted, Overtakes;
    PutInserts(Grown(t), e);
    InsertedOf(Walk(t), e, Walk(Put(Grown(t), e)), k);
    if KeyOf(e) == k && Of(init, k) != [] { PutSecond(Grown(t), e); }
  }

  /** The two entries of a key come out in order, or are alike. */
  ghost predicate Unswapped(journal: seq<Entry>, k: U32) {
    |Of(journal, k)| == 2 && Swapped(journal, k) ==> Of(journal, k)[0] == Of(journal, k)[1]
  }

  lemma TwiceLast(journal: seq<Entry>, k: U32)
    requires |Of(journal, k)| <= 2
    ensures LastOf(Walk(Built(journal)), k) == LastOf(journal, k) <==> Unswapped(journal, k)
  {
    hide Walk, Built, Swapped, Of, KeyOf;
    TwiceOf(journal, k);
  }

  /** For a tree of any size: if every key has at most two entries, what it writes ends every key as the
      journal does exactly if no second entry overtakes a first one that differs from it. */
  lemma TwiceIsExactIff(journal: seq<Entry>)
    requires forall k: U32 :: |Of(journal, k)| <= 2
    ensures SameLast(Walk(Built(journal)), journal) <==> forall k: U32 :: Unswapped(journal, k)
  {
    hide Unswapped, LastOf, Walk, Built;
    forall k: U32 ensures LastOf(Walk(Built(journal)), k) == LastOf(journal, k) <==> Unswapped(journal, k) {
      TwiceLast(journal, k);
    }
  }

  /** In a tree of more than one leaf two updates can be enough. Twenty-nine entries in ascending key
      order, then a second one with the twentieth key: replay ends with the FIRST of the two. */
  lemma TwoUpdatesLoseTheNewest(es: seq<Entry>, e: Entry)
    requires Ascending(es) && |es| == 3 * HALF - 1 && KeyOf(e) == KeyOf(es[2 * HALF - 1])
    ensures Of(es + [e], KeyOf(e)) == [es[2 * HALF - 1], e]
    ensures LastOf(Walk(Built(es + [e])), KeyOf(e)) == Some(es[2 * HALF - 1])
    ensures LastOf(es + [e], KeyOf(e)) == Some(e)
  {
    var i, k := 2 * HALF - 1, KeyOf(e);
    SecondBeforeFirst(es, e);
    assert es[..i] + [e] + es[i..] == InsertAt(es, i, e);
    OfInserted(es, i, e);
    hide Of, KeyOf, Ascending, InsertAt, Walk, Built;
    assert Of(Walk(Built(es + [e])), k) == [e, es[i]];
  }

  lemma OfInserted(es: seq<Entry>, i: nat, e: Entry)
    requires Ascending(es) && i < |es| && KeyOf(e) == KeyOf(es[i])
    ensures Of(InsertAt(es, i, e), KeyOf(e)) == [e, es[i]] && Of(es + [e], KeyOf(e)) == [es[i], e]
  {
    var k := KeyOf(e);
    OnlyMiddle(es, i);
    OneOf(e, k);
    hide *;
    InsertOf(es, i, e, k);
    OfAppend(es, [e], k);
    assert [] + [e] + [es[i]] == [e, es[i]] && [es[i]] + [e] == [es[i], e];
  }

  lemma OnlyMiddle(es: seq<Entry>, i: nat)
    requires Ascending(es) && i < |es|
    ensures Of(es, KeyOf(es[i])) == Of(es[i..], KeyOf(es[i])) == [es[i]] && Of(es[..i], KeyOf(es[i])) == []
  {
    var k := KeyOf(es[i]);
    NoKey(es[..i], k);
    forall e | e in es[i + 1..] ensures KeyOf(e) != k {
      var j :| i < j < |es| && es[j] == e;
      assert KeyOf(es[i]) < KeyOf(es[j]);
    }
    NoKey(es[i + 1..], k);
    OneOf(es[i], k);
    assert es == es[..i] + es[i..] && es[i..] == [es[i]] + es[i + 1..];
    OfAppend(es[..i], es[i..], k);
    OfAppend([es[i]], es[i + 1..], k);
  }

  /** What the writer makes of a table journal replays like the journal itself, if and only if no key
      loses its last entry; LeafOrderIsExactIff and TwiceIsExactIff say when that is. */
  lemma TreeReplay(g: Geometry, m: Image, k: Kind, journal: seq<Entry>)
    requires |m| > 0 && GeometryOk(g, |m| - 1) && k != Super && AllOfKind(k, journal) && AllInRange(g.lay, journal)
    ensures var out := Walk(Built(journal));
      && AllOfKind(k, out) && AllInRange(g.lay, out)
      && AllInImage(|m|, UpdatesOf(g.lay, journal)) && AllInImage(|m|, UpdatesOf(g.lay, out))
      && (Redo(m, UpdatesOf(g.lay, out)) == Redo(m, UpdatesOf(g.lay, journal)) <==> SameLast(out, journal))
      && (|journal| <= CAPACITY ==> (SameLast(out, journal) <==> forall key: U32 :: SecondIsLast(journal, key)))
  {
    BuiltIsOrdered(journal);
    SmallTreeIsExactIff(journal);
    hide *;
    ReplayIff(g, m, k, Walk(Built(journal)), journal);
  }

  lemma SmallTreeIsExactIff(journal: seq<Entry>)
    ensures |journal| <= CAPACITY ==>
      (SameLast(Walk(Built(journal)), journal) <==> forall key: U32 :: SecondIsLast(journal, key))
  {
    if |journal| <= CAPACITY {
      SmallTreeIsLeaf(journal);
      LeafOrderIsExactIff(journal);
    }
  }

  /** Two orders of the same table entries replay alike if and only if every key ends alike. */
  lemma ReplayIff(g: Geometry, m: Image, k: Kind, out: seq<Entry>, journal: seq<Entry>)
    requires |m| > 0 && GeometryOk(g, |m| - 1) && k != Super && AllOfKind(k, journal) && AllInRange(g.lay, journal)
    requires multiset(out) == multiset(journal)
    ensures AllOfKind(k, out) && AllInRange(g.lay, out)
    ensures AllInImage(|m|, UpdatesOf(g.lay, journal)) && AllInImage(|m|, UpdatesOf(g.lay, out))
    ensures Redo(m, UpdatesOf(g.lay, out)) == Redo(m, UpdatesOf(g.lay, journal)) <==> SameLast(out, journal)
  {
    forall e | e in out ensures e in journal { assert e in multiset(journal); }
    UpdatesAreSafe(g, |m| - 1, journal);
    UpdatesAreSafe(g, |m| - 1, out);
    TableEntriesSpread(g, |m| - 1, k, out + journal);
    hide LastOf, AllOfKind, AllInRange, Spread;
    if SameLast(out, journal) {
      ReplayByLast(g.lay, m, out, journal);
    } else {
      var key: U32 :| LastOf(out, key) != LastOf(journal, key);
      BothHave(out, journal, key);
      LastShows(g.lay, m, out, journal, key);
    }
  }

  lemma BothHave(xs: seq<Entry>, ys: seq<Entry>, k: U32)
    requires multiset(xs) == multiset(ys) && LastOf(xs, k) != LastOf(ys, k)
    ensures LastOf(xs, k).Some? && LastOf(ys, k).Some?
  {
    SameMultisets(xs, ys, k);
    var a, b := Of(xs, k), Of(ys, k);
    assert |a| == |multiset(a)| == |multiset(b)| == |b|;
  }

  // ---- A whole transaction ----

  /** The entries a transaction has collected, kind by kind, in the order they were made. */
  datatype Journal = Journal(txId: nat, supers: seq<Entry>, nats: seq<Entry>, sits: seq<Entry>)

  ghost predicate Typed(j: Journal) {
    AllOfKind(Super, j.supers) && AllOfKind(Nats, j.nats) && AllOfKind(Sits, j.sits)
  }

  /** The entries the writer emits for a transaction. */
  datatype Output = Output(supers: seq<Entry>, nats: seq<Entry>, sits: seq<Entry>)

  function EntriesOf(o: Output): seq<Entry> {
    o.supers + o.nats + o.sits
  }

  ghost predicate Emitted(j: Journal, o: Output) {
    Deduplicates(o.supers, j.supers) && o.nats == Walk(Built(j.nats)) && o.sits == Walk(Built(j.sits))
  }

  lemma EmittedTyped(j: Journal, o: Output)
    requires Typed(j) && Emitted(j, o)
    ensures AllOfKind(Super, o.supers) && AllOfKind(Nats, o.nats) && AllOfKind(Sits, o.sits)
    ensures forall e :: e in EntriesOf(o) ==> e in j.supers + j.nats + j.sits
  {
    BuiltIsOrdered(j.nats);
    BuiltIsOrdered(j.sits);
    forall e | e in o.nats ensures e in j.nats { assert e in multiset(j.nats); }
    forall e | e in o.sits ensures e in j.sits { assert e in multiset(j.sits); }
  }

  /** Unless a table key loses its last entry, what the writer emits replays like the transaction as it
      was collected: super-block fields may repeat, their last value counts. */
  lemma EmittedReplays(g: Geometry, m: Image, j: Journal, o: Output)
    requires |m| > 0 && GeometryOk(g, |m| - 1) && Typed(j) && Emitted(j, o)
    requires AllInRange(g.lay, j.supers + j.nats + j.sits) && FieldAligned(j.supers)
    requires SameLast(o.nats, j.nats) && SameLast(o.sits, j.sits)
    ensures AllInImage(|m|, UpdatesOf(g.lay, j.supers + j.nats + j.sits)) &&
      AllInImage(|m|, UpdatesOf(g.lay, EntriesOf(o)))
    ensures Redo(m, UpdatesOf(g.lay, EntriesOf(o))) == Redo(m, UpdatesOf(g.lay, j.supers + j.nats + j.sits))
  {
    var n := |m| - 1;
    EmittedTyped(j, o);
    assert AllOfKind(Super, o.supers + j.supers) && AllOfKind(Nats, o.nats + j.nats) &&
      AllOfKind(Sits, o.sits + j.sits);
    assert AllInRange(g.lay, o.supers + j.supers) && AllInRange(g.lay, o.nats + j.nats) &&
      AllInRange(g.lay, o.sits + j.sits);
    assert FieldAligned(o.supers + j.supers);
    SuperEntriesSpread(g, n, o.supers + j.supers);
    TableEntriesSpread(g, n, Nats, o.nats + j.nats);
    TableEntriesSpread(g, n, Sits, o.sits + j.sits);
    SectionReplays(g, m, o.supers, j.supers);
    var m1 := Redo(m, UpdatesOf(g.lay, j.supers));
    SectionReplays(g, m1, o.nats, j.nats);
    SectionReplays(g, Redo(m1, UpdatesOf(g.lay, j.nats)), o.sits, j.sits);
    SectionsReplay(g, m, o.supers, o.nats, o.sits);
    SectionsReplay(g, m, j.supers, j.nats, j.sits);
  }

  lemma SectionReplays(g: Geometry, m: Image, xs: seq<Entry>, ys: seq<Entry>)
    requires |m| > 0 && GeometryOk(g, |m| - 1) && AllInRange(g.lay, xs) && AllInRange(g.lay, ys)
    requires Spread(g.lay, xs + ys) && SameLast(xs, ys)
    ensures AllInImage(|m|, UpdatesOf(g.lay, xs)) && AllInImage(|m|, UpdatesOf(g.lay, ys))
    ensures Redo(m, UpdatesOf(g.lay, xs)) == Redo(m, UpdatesOf(g.lay, ys))
  {
    UpdatesAreSafe(g, |m| - 1, xs);
    UpdatesAreSafe(g, |m| - 1, ys);
    ReplayByLast(g.lay, m, xs, ys);
  }

  lemma SectionsReplay(g: Geometry, m: Image, a: seq<Entry>, b: seq<Entry>, c: seq<Entry>)
    requires |m| > 0 && GeometryOk(g, |m| - 1)
    requires AllInRange(g.lay, a) && AllInRange(g.lay, b) && AllInRange(g.lay, c)
    ensures AllInImage(|m|, UpdatesOf(g.lay, a)) && AllInImage(|m|, UpdatesOf(g.lay, b)) &&
      AllInImage(|m|, UpdatesOf(g.lay, c))
    ensures AllInImage(|m|, UpdatesOf(g.lay, a + b + c))
    ensures Redo(m, UpdatesOf(g.lay, a + b + c)) ==
              Redo(Redo(Redo(m, UpdatesOf(g.lay, a)), UpdatesOf(g.lay, b)), UpdatesOf(g.lay, c))
  {
    UpdatesAreSafe(g, |m| - 1, a);
    UpdatesAreSafe(g, |m| - 1, b);
    UpdatesAreSafe(g, |m| - 1, c);
    UpdatesAppend(g.lay, a, b);
    UpdatesAppend(g.lay, a + b, c);
    RedoAppend(m, UpdatesOf(g.lay, a), UpdatesOf(g.lay, b));
    RedoAppend(m, UpdatesOf(g.lay, a + b), UpdatesOf(g.lay, c));
  }
}
