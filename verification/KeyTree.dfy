/** The B-tree in which the writer collects a table's entries (third_party/klib/kbtree.h). kb_put
    neither replaces nor refuses an entry whose key is already there: it inserts beside it. */
module KeyTree {
  import opened Bytes
  import opened JournalFormat

  function KeyOf(e: Entry): U32 {
    match e
    case NatEntry(nid, _, _) => nid
    case SitEntry(seg, _) => seg
    case SuperEntry(off, _) => off
  }

  /** The minimum degree that kb_init derives from KB_DEFAULT_SIZE for 16-byte keys. */
  const HALF: nat := 10

  /** The most keys a node holds. */
  const CAPACITY: nat := 2 * HALF - 1

  // ---- Sorted lists ----

  ghost predicate Sorted(s: seq<Entry>) {
    forall i, j :: 0 <= i < j < |s| ==> KeyOf(s[i]) <= KeyOf(s[j])
  }

  ghost predicate AtMost(s: seq<Entry>, k: U32) {
    forall e :: e in s ==> KeyOf(e) <= k
  }

  ghost predicate AtLeast(s: seq<Entry>, k: U32) {
    forall e :: e in s ==> k <= KeyOf(e)
  }

  lemma SortedAround(a: seq<Entry>, m: Entry, b: seq<Entry>)
    ensures Sorted(a + [m] + b) <==> Sorted(a) && Sorted(b) && AtMost(a, KeyOf(m)) && AtLeast(b, KeyOf(m))
  {
    var s := a + [m] + b;
    if Sorted(s) {
      hide KeyOf;
      forall i | 0 <= i < |a| ensures s[i] == a[i] && KeyOf(a[i]) <= KeyOf(m) { assert s[|a|] == m; }
      forall i | 0 <= i < |b| ensures s[|a| + 1 + i] == b[i] && KeyOf(m) <= KeyOf(b[i]) { assert s[|a|] == m; }
      forall i, j | 0 <= i < j < |b| ensures KeyOf(b[i]) <= KeyOf(b[j]) {
        assert s[|a| + 1 + i] == b[i] && s[|a| + 1 + j] == b[j];
      }
    }
  }

  /** e, inserted into s somewhere behind all smaller and before all greater keys, gives r. */
  ghost predicate Inserted(s: seq<Entry>, e: Entry, r: seq<Entry>) {
    exists a, b :: InsertedAt(s, e, r, a, b)
  }

  ghost predicate InsertedAt(s: seq<Entry>, e: Entry, r: seq<Entry>, a: seq<Entry>, b: seq<Entry>) {
    && s == a + b && r == a + [e] + b
    && AtMost(a, KeyOf(e)) && AtLeast(b, KeyOf(e))
  }

  lemma InsertedWithin(x: seq<Entry>, s: seq<Entry>, y: seq<Entry>, e: Entry, r: seq<Entry>)
    requires Inserted(s, e, r) && AtMost(x, KeyOf(e)) && AtLeast(y, KeyOf(e))
    ensures Inserted(x + s + y, e, x + r + y)
  {
    var a, b :| InsertedAt(s, e, r, a, b);
    assert x + s + y == (x + a) + (b + y) && x + r + y == (x + a) + [e] + (b + y);
    assert InsertedAt(x + s + y, e, x + r + y, x + a, b + y);
  }

  lemma InsertedKeeps(s: seq<Entry>, e: Entry, r: seq<Entry>)
    requires Sorted(s) && Inserted(s, e, r)
    ensures Sorted(r) && multiset(r) == multiset(s) + multiset{e}
  {
    var a, b :| InsertedAt(s, e, r, a, b);
    assert Sorted(a) by { assert forall i :: 0 <= i < |a| ==> s[i] == a[i]; }
    assert Sorted(b) by { assert forall i :: 0 <= i < |b| ==> s[|a| + i] == b[i]; }
    SortedAround(a, e, b);
  }

  // ---- The spot of a key in a node ----

  /** The number of keys at the front of s that are smaller than k. */
  function Smaller(s: seq<Entry>, k: U32): (n: nat)
    ensures n <= |s|
    ensures forall j :: 0 <= j < n ==> KeyOf(s[j]) < k
    ensures n < |s| ==> KeyOf(s[n]) >= k
  {
    if s == [] || KeyOf(s[0]) >= k then 0 else 1 + Smaller(s[1..], k)
  }

  lemma {:induction false} SmallerIs(s: seq<Entry>, k: U32, n: nat)
    requires n <= |s| && (forall j :: 0 <= j < n ==> KeyOf(s[j]) < k)
    requires n < |s| ==> KeyOf(s[n]) >= k
    ensures Smaller(s, k) == n
  {
    hide KeyOf;
    if n > 0 { SmallerIs(s[1..], k, n - 1); }
  }

  /** Where a node puts k or descends for it: behind the first equal key, if there is one, else
      before the first greater one. */
  function Spot(s: seq<Entry>, k: U32): (p: nat)
    ensures p <= |s|
  {
    var p := Smaller(s, k);
    if p < |s| && KeyOf(s[p]) == k then p + 1 else p
  }

  /** __kb_getp_aux plus one: a binary search. */
  method FindSpot(s: seq<Entry>, k: U32) returns (p: nat)
    requires Sorted(s)
    ensures p == Spot(s, k)
  {
    var begin, end := 0, |s|;
    while begin < end
      invariant begin <= end <= |s|
      invariant forall j :: 0 <= j < begin ==> KeyOf(s[j]) < k
      invariant forall j :: end <= j < |s| ==> KeyOf(s[j]) >= k
    {
      var mid := (begin + end) / 2;
      if KeyOf(s[mid]) < k { begin := mid + 1; } else { end := mid; }
    }
    SmallerIs(s, k, begin);
    p := if begin < |s| && KeyOf(s[begin]) == k then begin + 1 else begin;
  }

  lemma SpotSplits(s: seq<Entry>, k: U32)
    requires Sorted(s)
    ensures AtMost(s[..Spot(s, k)], k) && AtLeast(s[Spot(s, k)..], k)
  {
    var q, p := Smaller(s, k), Spot(s, k);
    forall e | e in s[p..] ensures k <= KeyOf(e) {
      var j :| p <= j < |s| && s[j] == e;
      if q < j { assert KeyOf(s[q]) <= KeyOf(s[j]); }
    }
  }

  function InsertAt(s: seq<Entry>, p: nat, e: Entry): (r: seq<Entry>)
    requires p <= |s|
    ensures |r| == |s| + 1 && r[p] == e
  {
    s[..p] + [e] + s[p..]
  }

  function LeafInsert(s: seq<Entry>, e: Entry): seq<Entry> {
    InsertAt(s, Spot(s, KeyOf(e)), e)
  }

  lemma LeafInserts(s: seq<Entry>, e: Entry)
    requires Sorted(s)
    ensures Inserted(s, e, LeafInsert(s, e))
  {
    var p := Spot(s, KeyOf(e));
    SpotSplits(s, KeyOf(e));
    assert s == s[..p] + s[p..];
    assert InsertedAt(s, e, LeafInsert(s, e), s[..p], s[p..]);
  }

  // ---- The tree ----

  datatype Tree = Leaf(keys: seq<Entry>) | Node(keys: seq<Entry>, kids: seq<Tree>)

  function Height(t: Tree): nat {
    match t
    case Leaf(_) => 0
    case Node(_, kids) => if kids == [] then 1 else 1 + Height(kids[0])
  }

  /** No node overflows, inner nodes have a child on both sides of every key, and all leaves are
      equally deep. */
  ghost predicate Shaped(t: Tree) {
    && |t.keys| <= CAPACITY
    && (t.Node? ==>
          && |t.kids| == |t.keys| + 1
          && forall i :: 0 <= i < |t.kids| ==> Shaped(t.kids[i]) && Height(t.kids[i]) == Height(t.kids[0]))
  }

  predicate Full(t: Tree) {
    |t.keys| == CAPACITY
  }

  /** Keys and the walks of the children between them, in turn. */
  function Join(keys: seq<Entry>, walks: seq<seq<Entry>>): seq<Entry> {
    if walks == [] then []
    else if keys == [] then walks[0]
    else walks[0] + [keys[0]] + Join(keys[1..], walks[1..])
  }

  /** The entries in the order of the iterator: a walk in key order. */
  function Walk(t: Tree): seq<Entry> {
    match t
    case Leaf(keys) => keys
    case Node(keys, kids) => Join(keys, seq(|kids|, i requires 0 <= i < |kids| => Walk(kids[i])))
  }

  function Walks(kids: seq<Tree>): (w: seq<seq<Entry>>)
    ensures |w| == |kids| && forall i :: 0 <= i < |w| ==> w[i] == Walk(kids[i])
  {
    seq(|kids|, i requires 0 <= i < |kids| => Walk(kids[i]))
  }

  lemma WalkNode(keys: seq<Entry>, kids: seq<Tree>)
    ensures Walk(Node(keys, kids)) == Join(keys, Walks(kids))
  {
    assert seq(|kids|, i requires 0 <= i < |kids| => Walk(kids[i])) == Walks(kids);
  }

  lemma {:induction false} JoinAround(k: seq<Entry>, w: seq<seq<Entry>>, m: Entry, k': seq<Entry>, w': seq<seq<Entry>>)
    requires |w| == |k| + 1 && |w'| == |k'| + 1
    ensures Join(k + [m] + k', w + w') == Join(k, w) + [m] + Join(k', w')
  {
    var keys, walks := k + [m] + k', w + w';
    if k == [] {
      assert keys[1..] == k' && walks[1..] == w';
    } else {
      assert keys[1..] == k[1..] + [m] + k' && walks[1..] == w[1..] + w';
      JoinAround(k[1..], w[1..], m, k', w');
    }
  }

  /** What a walk visits before and after the child i. */
  ghost function Before(keys: seq<Entry>, w: seq<seq<Entry>>, i: nat): seq<Entry>
    requires |w| == |keys| + 1 && i <= |keys|
  {
    if i == 0 then [] else Join(keys[..i - 1], w[..i]) + [keys[i - 1]]
  }

  ghost function After(keys: seq<Entry>, w: seq<seq<Entry>>): seq<Entry> {
    if keys == [] then [] else [keys[0]] + Join(keys[1..], w)
  }

  lemma JoinHead(keys: seq<Entry>, x: seq<Entry>, w: seq<seq<Entry>>)
    requires |w| == |keys|
    ensures Join(keys, [x] + w) == x + After(keys, w)
  {
    assert ([x] + w)[1..] == w;
  }

  lemma JoinFrom(keys: seq<Entry>, w: seq<seq<Entry>>, i: nat)
    requires |w| == |keys| + 1 && i <= |keys|
    ensures Join(keys, w) == Before(keys, w, i) + Join(keys[i..], w[i..])
  {
    hide Join;
    if i == 0 {
      assert keys[0..] == keys && w[0..] == w;
    } else {
      assert keys == keys[..i - 1] + [keys[i - 1]] + keys[i..] && w == w[..i] + w[i..];
      JoinAround(keys[..i - 1], w[..i], keys[i - 1], keys[i..], w[i..]);
    }
  }

  lemma Around(keys: seq<Entry>, w: seq<seq<Entry>>, i: nat)
    requires |w| == |keys| + 1 && i <= |keys|
    ensures Join(keys, w) == Before(keys, w, i) + w[i] + After(keys[i..], w[i + 1..])
  {
    hide Join, Before, After;
    JoinFrom(keys, w, i);
    JoinHead(keys[i..], w[i], w[i + 1..]);
    assert w[i..] == [w[i]] + w[i + 1..];
  }

  // ---- Splitting ----

  function Lower(t: Tree): Tree
    requires Full(t) && (t.Node? ==> |t.kids| == |t.keys| + 1)
  {
    if t.Leaf? then Leaf(t.keys[..HALF - 1]) else Node(t.keys[..HALF - 1], t.kids[..HALF])
  }

  function Upper(t: Tree): Tree
    requires Full(t) && (t.Node? ==> |t.kids| == |t.keys| + 1)
  {
    if t.Leaf? then Leaf(t.keys[HALF..]) else Node(t.keys[HALF..], t.kids[HALF..])
  }

  lemma Halves(t: Tree)
    requires Full(t) && Shaped(t)
    ensures Shaped(Lower(t)) && Height(Lower(t)) == Height(t) && |Lower(t).keys| == HALF - 1
    ensures Shaped(Upper(t)) && Height(Upper(t)) == Height(t) && |Upper(t).keys| == HALF - 1
    ensures Walk(t) == Walk(Lower(t)) + [t.keys[HALF - 1]] + Walk(Upper(t))
  {
    var m := t.keys[HALF - 1];
    assert t.keys == t.keys[..HALF - 1] + [m] + t.keys[HALF..];
    if t.Node? {
      var w := Walks(t.kids);
      assert w == w[..HALF] + w[HALF..];
      assert Walks(t.kids[..HALF]) == w[..HALF] && Walks(t.kids[HALF..]) == w[HALF..];
      WalkNode(t.keys, t.kids);
      WalkNode(t.keys[..HALF - 1], t.kids[..HALF]);
      WalkNode(t.keys[HALF..], t.kids[HALF..]);
      JoinAround(t.keys[..HALF - 1], w[..HALF], m, t.keys[HALF..], w[HALF..]);
    }
  }

  /** An inner node that can take another key. */
  ghost predicate Roomy(x: Tree) {
    x.Node? && |x.keys| < CAPACITY && Shaped(x)
  }

  /** __kb_split: the full child i becomes two, its middle key moves up between them. */
  function SplitKid(x: Tree, i: nat): (r: Tree)
    requires Roomy(x) && i < |x.kids| && Full(x.kids[i])
    ensures r.Node? && Shaped(r) && Height(r) == Height(x) && Shaped(x.kids[i])
    ensures r.keys == InsertAt(x.keys, i, x.kids[i].keys[HALF - 1])
    ensures r.kids == x.kids[..i] + [Lower(x.kids[i]), Upper(x.kids[i])] + x.kids[i + 1..]
  {
    var y := x.kids[i];
    assert Shaped(y);
    Halves(y);
    Node(InsertAt(x.keys, i, y.keys[HALF - 1]), x.kids[..i] + [Lower(y), Upper(y)] + x.kids[i + 1..])
  }

  lemma JoinSplit(keys: seq<Entry>, w: seq<seq<Entry>>, i: nat, a: seq<Entry>, m: Entry, b: seq<Entry>)
    requires |w| == |keys| + 1 && i <= |keys| && w[i] == a + [m] + b
    ensures Join(InsertAt(keys, i, m), w[..i] + [a, b] + w[i + 1..]) == Join(keys, w)
  {
    var keys', w' := InsertAt(keys, i, m), w[..i] + [a, b] + w[i + 1..];
    SplitParts(keys, w, i, a, m, b);
    hide *;
    SameBefore(keys, w, keys', w', i);
    JoinFrom(keys', w', i);
    JoinPair(keys[i..], a, m, b, w[i + 1..]);
    Around(keys, w, i);
  }

  lemma SplitParts(keys: seq<Entry>, w: seq<seq<Entry>>, i: nat, a: seq<Entry>, m: Entry, b: seq<Entry>)
    requires |w| == |keys| + 1 && i <= |keys|
    ensures var keys', w' := InsertAt(keys, i, m), w[..i] + [a, b] + w[i + 1..];
      && |w'| == |keys'| + 1 && keys'[..i] == keys[..i] && w'[..i] == w[..i]
      && keys'[i..] == [m] + keys[i..] && w'[i..] == [a] + ([b] + w[i + 1..])
  {
  }

  lemma JoinPair(k: seq<Entry>, a: seq<Entry>, m: Entry, b: seq<Entry>, v: seq<seq<Entry>>)
    requires |v| == |k|
    ensures Join([m] + k, [a] + ([b] + v)) == a + [m] + b + After(k, v)
  {
    JoinHead([m] + k, a, [b] + v);
    assert ([m] + k)[1..] == k;
    JoinHead(k, b, v);
  }

  lemma SameBefore(keys: seq<Entry>, w: seq<seq<Entry>>, keys': seq<Entry>, w': seq<seq<Entry>>, i: nat)
    requires |w| == |keys| + 1 && |w'| == |keys'| + 1 && i <= |keys| && i <= |keys'|
    requires keys[..i] == keys'[..i] && w[..i] == w'[..i]
    ensures Before(keys, w, i) == Before(keys', w', i)
  {
    if i > 0 { assert keys[..i - 1] == keys[..i][..i - 1] && keys'[..i - 1] == keys'[..i][..i - 1]; }
    if i > 0 { assert keys[i - 1] == keys[..i][i - 1] && keys'[i - 1] == keys'[..i][i - 1]; }
  }

  lemma SplitKeepsWalk(x: Tree, i: nat)
    requires Roomy(x) && i < |x.kids| && Full(x.kids[i])
    ensures Walk(SplitKid(x, i)) == Walk(x)
  {
    hide Join;
    var y, r := x.kids[i], SplitKid(x, i);
    assert Shaped(y);
    Halves(y);
    WalkNode(x.keys, x.kids);
    WalkNode(r.keys, r.kids);
    var w := Walks(x.kids);
    assert Walks(r.kids) == w[..i] + [Walk(Lower(y)), Walk(Upper(y))] + w[i + 1..];
    JoinSplit(x.keys, w, i, Walk(Lower(y)), y.keys[HALF - 1], Walk(Upper(y)));
  }

  // ---- Insertion ----

  /** The inner node, and the child of it that takes k: a full child is split first. */
  function Descend(x: Tree, k: U32): (r: (Tree, nat))
    requires Roomy(x)
    ensures r.0.Node? && Shaped(r.0) && Height(r.0) == Height(x)
    ensures r.1 < |r.0.kids| && !Full(r.0.kids[r.1]) && Height(r.0.kids[r.1]) < Height(x)
  {
    var i := Spot(x.keys, k);
    if Full(x.kids[i]) then
      Halves(x.kids[i]);
      var s := SplitKid(x, i);
      (s, if k > KeyOf(s.keys[i]) then i + 1 else i)
    else (x, i)
  }

  /** __kb_putp_aux. */
  function Put(x: Tree, e: Entry): (r: Tree)
    requires Shaped(x) && !Full(x)
    ensures Shaped(r) && Height(r) == Height(x)
    decreases Height(x)
  {
    if x.Leaf? then Leaf(LeafInsert(x.keys, e))
    else
      var (s, i) := Descend(x, KeyOf(e));
      Node(s.keys, s.kids[i := Put(s.kids[i], e)])
  }

  /** A full root becomes the only child of a new one and is split. */
  function Grown(root: Tree): (r: Tree)
    requires Shaped(root)
    ensures Shaped(r) && !Full(r)
  {
    if Full(root) then SplitKid(Node([], [root]), 0) else root
  }

  /** kb_put. */
  function PutRoot(root: Tree, e: Entry): (r: Tree)
    requires Shaped(root)
    ensures Shaped(r)
  {
    Put(Grown(root), e)
  }

  /** The tree of a journal, put entry by entry. */
  function Built(journal: seq<Entry>): (t: Tree)
    ensures Shaped(t)
  {
    if journal == [] then Leaf([])
    else PutRoot(Built(journal[..|journal| - 1]), journal[|journal| - 1])
  }

  // ---- A put inserts once, in order ----

  lemma {:induction false} KeysSorted(keys: seq<Entry>, w: seq<seq<Entry>>)
    requires |w| == |keys| + 1 && Sorted(Join(keys, w))
    ensures Sorted(keys)
  {
    if keys != [] {
      var rest := Join(keys[1..], w[1..]);
      SortedAround(w[0], keys[0], rest);
      KeysSorted(keys[1..], w[1..]);
      KeysVisited(keys[1..], w[1..]);
      assert keys == [] + [keys[0]] + keys[1..];
      SortedAround([], keys[0], keys[1..]);
    }
  }

  lemma {:induction false} KeysVisited(keys: seq<Entry>, w: seq<seq<Entry>>)
    requires |w| == |keys| + 1
    ensures forall e :: e in keys ==> e in Join(keys, w)
  {
    if keys != [] { KeysVisited(keys[1..], w[1..]); }
  }

  /** Around the child between the keys up to k and those from k on, a sorted walk is bounded by k. */
  lemma Bounds(keys: seq<Entry>, w: seq<seq<Entry>>, i: nat, k: U32)
    requires |w| == |keys| + 1 && i <= |keys| && Sorted(Join(keys, w))
    requires AtMost(keys[..i], k) && AtLeast(keys[i..], k)
    ensures AtMost(Before(keys, w, i), k) && AtLeast(After(keys[i..], w[i + 1..]), k) && Sorted(w[i])
  {
    hide Join, KeyOf;
    Around(keys, w, i);
    var a, b := Before(keys, w, i), After(keys[i..], w[i + 1..]);
    hide Before, After;
    SortedMiddle(a, w[i], b);
    if i > 0 { LastBefore(keys, w, i); AtMostBy(a, k); }
    if i < |keys| { FirstAfter(keys[i..], w[i + 1..]); AtLeastBy(b, k); }
    if i == 0 { assert a == [] by { EmptyEnds(keys, w, i); } }
    if i == |keys| { assert b == [] by { EmptyEnds(keys, w, i); } }
  }

  lemma SortedMiddle(a: seq<Entry>, s: seq<Entry>, b: seq<Entry>)
    requires Sorted(a + s + b)
    ensures Sorted(a) && Sorted(s) && Sorted(b)
  {
    hide KeyOf;
    var r := a + s + b;
    assert forall i :: 0 <= i < |a| ==> r[i] == a[i];
    assert forall i :: 0 <= i < |s| ==> r[|a| + i] == s[i];
    assert forall i :: 0 <= i < |b| ==> r[|a| + |s| + i] == b[i];
  }

  lemma LastBefore(keys: seq<Entry>, w: seq<seq<Entry>>, i: nat)
    requires |w| == |keys| + 1 && 0 < i <= |keys|
    ensures var a := Before(keys, w, i); a != [] && a[|a| - 1] in keys[..i]
  {
    assert keys[..i][i - 1] == keys[i - 1];
  }

  lemma FirstAfter(keys: seq<Entry>, w: seq<seq<Entry>>)
    requires keys != []
    ensures var b := After(keys, w); b != [] && b[0] in keys
  {
  }

  lemma EmptyEnds(keys: seq<Entry>, w: seq<seq<Entry>>, i: nat)
    requires |w| == |keys| + 1 && i <= |keys|
    ensures i == 0 ==> Before(keys, w, i) == []
    ensures i == |keys| ==> After(keys[i..], w[i + 1..]) == []
  {
  }

  lemma AtMostBy(s: seq<Entry>, k: U32)
    requires Sorted(s) && s != [] && KeyOf(s[|s| - 1]) <= k
    ensures AtMost(s, k)
  {
    forall e | e in s ensures KeyOf(e) <= k {
      var j :| 0 <= j < |s| && s[j] == e;
      if j < |s| - 1 { assert KeyOf(s[j]) <= KeyOf(s[|s| - 1]); }
    }
  }

  lemma AtLeastBy(s: seq<Entry>, k: U32)
    requires Sorted(s) && s != [] && k <= KeyOf(s[0])
    ensures AtLeast(s, k)
  {
    forall e | e in s ensures k <= KeyOf(e) {
      var j :| 0 <= j < |s| && s[j] == e;
      if 0 < j { assert KeyOf(s[0]) <= KeyOf(s[j]); }
    }
  }

  /** The way down keeps the walk, and turns off at the right child. */
  lemma DescendKeeps(x: Tree, k: U32)
    requires Roomy(x) && Sorted(Walk(x))
    ensures var (s, i) := Descend(x, k);
      Walk(s) == Walk(x) && AtMost(s.keys[..i], k) && AtLeast(s.keys[i..], k)
  {
    hide Sorted, KeyOf, Join, Smaller, Spot;
    var i := Spot(x.keys, k);
    WalkNode(x.keys, x.kids);
    KeysSorted(x.keys, Walks(x.kids));
    SpotSplits(x.keys, k);
    if Full(x.kids[i]) {
      SplitKeepsWalk(x, i);
      var m := x.kids[i].keys[HALF - 1];
      var keys := SplitKid(x, i).keys;
      assert keys[..i] == x.keys[..i] && keys[..i + 1] == x.keys[..i] + [m];
      assert keys[i..] == [m] + x.keys[i..] && keys[i + 1..] == x.keys[i..];
    }
  }

  lemma {:induction false} PutInserts(x: Tree, e: Entry)
    requires Shaped(x) && !Full(x) && Sorted(Walk(x))
    ensures Inserted(Walk(x), e, Walk(Put(x, e)))
    decreases Height(x), 0
  {
    if x.Leaf? {
      LeafInserts(x.keys, e);
    } else {
      var (s, i) := Descend(x, KeyOf(e));
      DescendKeeps(x, KeyOf(e));
      PutBelow(s, i, e);
    }
  }

  /** One step of the descent. */
  lemma {:induction false} PutBelow(s: Tree, i: nat, e: Entry)
    requires s.Node? && Shaped(s) && i < |s.kids| && !Full(s.kids[i]) && Sorted(Walk(s))
    requires AtMost(s.keys[..i], KeyOf(e)) && AtLeast(s.keys[i..], KeyOf(e))
    ensures Shaped(s.kids[i])
    ensures Inserted(Walk(s), e, Walk(Node(s.keys, s.kids[i := Put(s.kids[i], e)])))
    decreases Height(s.kids[i]), 1
  {
    hide Join, Before, After, Inserted, AtMost, AtLeast, Sorted, KeyOf, Put, Walk;
    var w := Walks(s.kids);
    WalkNode(s.keys, s.kids);
    Bounds(s.keys, w, i, KeyOf(e));
    PutInserts(s.kids[i], e);
    var y := Put(s.kids[i], e);
    var w' := Walks(s.kids[i := y]);
    WalkNode(s.keys, s.kids[i := y]);
    Around(s.keys, w, i);
    Around(s.keys, w', i);
    assert w[..i] == w'[..i] && w[i + 1..] == w'[i + 1..];
    SameBefore(s.keys, w, s.keys, w', i);
    InsertedWithin(Before(s.keys, w, i), w[i], After(s.keys[i..], w[i + 1..]), e, w'[i]);
  }

  lemma GrownKeepsWalk(root: Tree)
    requires Shaped(root)
    ensures Walk(Grown(root)) == Walk(root)
  {
    if Full(root) {
      SplitKeepsWalk(Node([], [root]), 0);
      WalkNode([], [root]);
    }
  }

  /** However large the tree: it holds exactly the entries put, duplicates included, in key order. */
  lemma {:induction false} BuiltIsOrdered(journal: seq<Entry>)
    ensures Sorted(Walk(Built(journal))) && multiset(Walk(Built(journal))) == multiset(journal)
  {
    if journal != [] {
      var init, e := journal[..|journal| - 1], journal[|journal| - 1];
      BuiltIsOrdered(init);
      var t := Built(init);
      hide Walk, Sorted, Put, Grown, Shaped, Inserted;
      GrownKeepsWalk(t);
      PutInserts(Grown(t), e);
      InsertedKeeps(Walk(t), e, Walk(PutRoot(t, e)));
      assert journal == init + [e];
    }
  }

  lemma BuiltSnoc(es: seq<Entry>, e: Entry)
    ensures Built(es + [e]) == Put(Grown(Built(es)), e)
  {
    assert (es + [e])[..|es|] == es;
  }

  // ---- The loops ----

  /** One kb_put below a node that has room. */
  method PutNode(x: Tree, e: Entry) returns (r: Tree)
    requires Shaped(x) && !Full(x) && Sorted(Walk(x))
    ensures r == Put(x, e)
    decreases Height(x)
  {
    hide Join, Before, After, AtMost, AtLeast, Sorted, Smaller;
    if x.Leaf? {
      var p := FindSpot(x.keys, KeyOf(e));
      r := Leaf(InsertAt(x.keys, p, e));
    } else {
      WalkNode(x.keys, x.kids);
      KeysSorted(x.keys, Walks(x.kids));
      DescendKeeps(x, KeyOf(e));
      var i := FindSpot(x.keys, KeyOf(e));
      var s := x;
      if Full(x.kids[i]) {
        Halves(x.kids[i]);
        s := SplitKid(x, i);
        if KeyOf(e) > KeyOf(s.keys[i]) { i := i + 1; }
      }
      assert (s, i) == Descend(x, KeyOf(e));
      WalkNode(s.keys, s.kids);
      Bounds(s.keys, Walks(s.kids), i, KeyOf(e));
      var kid := PutNode(s.kids[i], e);
      r := Node(s.keys, s.kids[i := kid]);
    }
  }

  /** What the writer emits for a table journal: all entries put, then a walk. */
  method TreeOutput(journal: seq<Entry>) returns (out: seq<Entry>)
    ensures out == Walk(Built(journal))
  {
    hide Walk, Sorted, Grown, Put, Shaped;
    var t := Leaf([]);
    for i := 0 to |journal|
      invariant t == Built(journal[..i])
    {
      assert journal[..i + 1] == journal[..i] + [journal[i]];
      BuiltIsOrdered(journal[..i]);
      GrownKeepsWalk(t);
      BuiltSnoc(journal[..i], journal[i]);
      var g := Grown(t);
      t := PutNode(g, journal[i]);
    }
    assert journal[..|journal|] == journal;
    out := Walk(t);
  }

  // ---- Trees of one leaf ----

  function LeafOrder(journal: seq<Entry>): (s: seq<Entry>)
    ensures |s| == |journal|
  {
    if journal == [] then []
    else LeafInsert(LeafOrder(journal[..|journal| - 1]), journal[|journal| - 1])
  }

  lemma {:induction false} SmallTreeIsLeaf(journal: seq<Entry>)
    requires |journal| <= CAPACITY
    ensures Built(journal) == Leaf(LeafOrder(journal))
  {
    if journal != [] {
      hide LeafInsert;
      SmallTreeIsLeaf(journal[..|journal| - 1]);
    }
  }

  // ---- Keys put in ascending order ----

  ghost predicate Ascending(s: seq<Entry>) {
    forall i, j :: 0 <= i < j < |s| ==> KeyOf(s[i]) < KeyOf(s[j])
  }

  lemma SpotBehind(s: seq<Entry>, k: U32)
    requires forall j :: 0 <= j < |s| ==> KeyOf(s[j]) < k
    ensures Spot(s, k) == |s|
  {
    SmallerIs(s, k, |s|);
  }

  lemma AppendsToLeaf(s: seq<Entry>, e: Entry)
    requires forall j :: 0 <= j < |s| ==> KeyOf(s[j]) < KeyOf(e)
    ensures LeafInsert(s, e) == s + [e]
  {
    SpotBehind(s, KeyOf(e));
  }

  lemma {:induction false} AscendingLeaf(es: seq<Entry>)
    requires Ascending(es) && |es| <= CAPACITY
    ensures Built(es) == Leaf(es)
  {
    if es != [] {
      var init, e := es[..|es| - 1], es[|es| - 1];
      AscendingLeaf(init);
      AppendsToLeaf(init, e);
      assert es == init + [e];
    }
  }

  /** The tree of up to three half leaves of ascending keys: the right leaf takes all that follow. */
  ghost function TwoLeaves(es: seq<Entry>): Tree
    requires |es| >= CAPACITY
  {
    Node([es[HALF - 1]], [Leaf(es[..HALF - 1]), Leaf(es[HALF..])])
  }

  lemma {:induction false} AscendingTwoLeaves(es: seq<Entry>)
    requires Ascending(es) && CAPACITY < |es| < 3 * HALF
    ensures Built(es) == TwoLeaves(es)
  {
    var init, e := es[..|es| - 1], es[|es| - 1];
    assert es == init + [e];
    if |init| == CAPACITY { AscendingLeaf(init); } else { AscendingTwoLeaves(init); }
    hide KeyOf, Built, Put, Grown, Shaped, Full;
    GrownTwoLeaves(init);
    PutRight(init, e);
    BuiltSnoc(init, e);
  }

  lemma GrownTwoLeaves(es: seq<Entry>)
    requires CAPACITY <= |es| < 3 * HALF
    requires Built(es) == if |es| == CAPACITY then Leaf(es) else TwoLeaves(es)
    ensures Grown(Built(es)) == TwoLeaves(es)
  {
  }

  lemma TwoLeavesShaped(es: seq<Entry>)
    requires CAPACITY <= |es| < 3 * HALF
    ensures Shaped(TwoLeaves(es)) && !Full(TwoLeaves(es)) && Height(TwoLeaves(es)) == 1
  {
    var t := TwoLeaves(es);
    forall i | 0 <= i < |t.kids| ensures Shaped(t.kids[i]) && Height(t.kids[i]) == Height(t.kids[0]) {
      assert t.kids[i].Leaf?;
    }
  }

  lemma PutRight(es: seq<Entry>, e: Entry)
    requires CAPACITY <= |es| < 3 * HALF - 1 && Ascending(es + [e])
    ensures Shaped(TwoLeaves(es)) && !Full(TwoLeaves(es)) && Put(TwoLeaves(es), e) == TwoLeaves(es + [e])
  {
    TwoLeavesShaped(es);
    var t, all := TwoLeaves(es), es + [e];
    assert forall j :: 0 <= j < |es| ==> all[j] == es[j] && KeyOf(all[j]) < KeyOf(all[|es|]);
    SpotBehind(t.keys, KeyOf(e));
    AppendsToLeaf(es[HALF..], e);
    assert all[..HALF - 1] == es[..HALF - 1] && all[HALF..] == es[HALF..] + [e];
  }

  lemma WalkThreeLeaves(a: seq<Entry>, m: Entry, b: seq<Entry>, n: Entry, c: seq<Entry>)
    ensures Walk(Node([m, n], [Leaf(a), Leaf(b), Leaf(c)])) == a + [m] + b + [n] + c
  {
    WalkNode([m, n], [Leaf(a), Leaf(b), Leaf(c)]);
    var w := Walks([Leaf(a), Leaf(b), Leaf(c)]);
    JoinAround([], [a], m, [n], [b, c]);
    JoinAround([], [b], n, [], [c]);
    assert w == [a] + [b, c] && [b, c] == [b] + [c];
    assert [m, n] == [] + [m] + [n] && [n] == [] + [n] + [];
  }

  /** The split that makes room for a second entry with the middle key of the right leaf. */
  lemma SplitsRight(es: seq<Entry>, k: U32)
    requires Ascending(es) && |es| == 3 * HALF - 1 && k == KeyOf(es[2 * HALF - 1])
    ensures Roomy(TwoLeaves(es))
    ensures Descend(TwoLeaves(es), k) ==
      (Node([es[HALF - 1], es[2 * HALF - 1]],
            [Leaf(es[..HALF - 1]), Leaf(es[HALF..2 * HALF - 1]), Leaf(es[2 * HALF..])]), 1)
  {
    TwoLeavesShaped(es);
    var t := TwoLeaves(es);
    SpotBehind(t.keys, k);
    var y := t.kids[1];
    assert y.keys[HALF - 1] == es[2 * HALF - 1] && y.keys[HALF..] == es[2 * HALF..] &&
      y.keys[..HALF - 1] == es[HALF..2 * HALF - 1];
    assert Full(y);
    var r := SplitKid(t, 1);
    assert r.keys == [es[HALF - 1], es[2 * HALF - 1]];
    assert r.kids == [t.kids[0], Lower(y), Upper(y)];
    assert Spot(t.keys, k) == 1 && KeyOf(r.keys[1]) == k;
    assert Descend(t, k) == (r, 1);
  }

  lemma PutMiddle(es: seq<Entry>, e: Entry)
    requires Ascending(es) && |es| == 3 * HALF - 1 && KeyOf(e) == KeyOf(es[2 * HALF - 1])
    ensures Shaped(TwoLeaves(es)) && !Full(TwoLeaves(es))
    ensures Put(TwoLeaves(es), e) ==
      Node([es[HALF - 1], es[2 * HALF - 1]],
           [Leaf(es[..HALF - 1]), Leaf(es[HALF..2 * HALF - 1] + [e]), Leaf(es[2 * HALF..])])
  {
    TwoLeavesShaped(es);
    var b := es[HALF..2 * HALF - 1];
    AppendsToLeaf(b, e);
    SplitsRight(es, KeyOf(e));
    hide Descend, Ascending, KeyOf, LeafInsert;
    assert Put(Leaf(b), e) == Leaf(b + [e]);
  }

  /** A second entry with the middle key of the full right leaf lands BEFORE the first one: the
      split has moved that one up, and an equal key stays on its left. */
  lemma SecondBeforeFirst(es: seq<Entry>, e: Entry)
    requires Ascending(es) && |es| == 3 * HALF - 1 && KeyOf(e) == KeyOf(es[2 * HALF - 1])
    ensures Walk(Built(es + [e])) == es[..2 * HALF - 1] + [e] + es[2 * HALF - 1..]
  {
    AscendingTwoLeaves(es);
    GrownTwoLeaves(es);
    BuiltSnoc(es, e);
    PutMiddle(es, e);
    hide *;
    WalkThreeLeaves(es[..HALF - 1], es[HALF - 1], es[HALF..2 * HALF - 1] + [e], es[2 * HALF - 1], es[2 * HALF..]);
    MiddleCut(es, HALF - 1, 2 * HALF - 1, e);
  }

  lemma MiddleCut(es: seq<Entry>, i: nat, j: nat, e: Entry)
    requires i < j < |es|
    ensures es[..i] + [es[i]] + (es[i + 1..j] + [e]) + [es[j]] + es[j + 1..] == es[..j] + [e] + es[j..]
  {
  }
}
