/** The reclaim plan of a removed file (src/fs/fs_handler.c): all its data LPAs and all its index nodes. */
module ReclaimPlan {
  import opened Wrappers
  import opened Bytes
  import opened BlockIndex

  const LPA_LIMIT: nat := 0x8000_0000

  predicate Plannable(v: U32) {
    v != 0 && v < LPA_LIMIT
  }

  function UniqueAppend(s: seq<U32>, v: U32): seq<U32> {
    if !Plannable(v) || v in s then s else s + [v]
  }

  /** rtfsAppendUniqueUint32 */
  method AppendUnique(s: seq<U32>, v: U32) returns (r: seq<U32>)
    ensures r == UniqueAppend(s, v)
  {
    if v == 0 || v >= LPA_LIMIT { return s; }
    var i := 0;
    while i < |s|
      invariant i <= |s| && v !in s[..i]
    {
      if s[i] == v { return s; }
      i := i + 1;
    }
    r := s + [v];
  }

  /** The word leaf of the node at g is an address that belongs into the plan. */
  ghost predicate Holds(nodes: map<U32, Node>, ino: U32, g: seq<nat>, leaf: nat, l: U32) {
    && Position(g) && LeafWord(g, leaf) && leaf < NODE_WORDS && Plannable(l)
    && Walk(nodes, ino, g).Some? && Walk(nodes, ino, g).value in nodes && nodes[Walk(nodes, ino, g).value][leaf] == l
  }

  /** What the plan contains once the positions in v and the address words in w have been seen. */
  ghost predicate Covers(nodes: map<U32, Node>, ino: U32, v: iset<seq<nat>>, w: iset<(seq<nat>, nat)>,
                         lpas: seq<U32>, nids: seq<U32>) {
    && Distinct(lpas) && Distinct(nids)
    && (forall n :: n in nids ==> exists g :: g in v && At(nodes, ino, g, n))
    && (forall g, n :: g in v && At(nodes, ino, g, n) ==> n in nids)
    && (forall l :: l in lpas ==> exists g, leaf :: (g, leaf) in w && Holds(nodes, ino, g, leaf, l))
    && (forall g, leaf, l :: (g, leaf) in w && Holds(nodes, ino, g, leaf, l) ==> l in lpas)
    && forall i :: 0 <= i < |nids| ==> AfterParent(nodes, ino, nids, i)
  }

  /** Node n stands at position g, and is not the inode's. */
  ghost predicate At(nodes: map<U32, Node>, ino: U32, g: seq<nat>, n: U32) {
    Position(g) && g != [] && Walk(nodes, ino, g) == Some(n)
  }

  /** The parent of the i-th node, unless it is the inode, stands earlier in the list. */
  ghost predicate AfterParent(nodes: map<U32, Node>, ino: U32, nids: seq<U32>, i: nat)
    requires i < |nids|
  {
    forall g :: At(nodes, ino, g, nids[i]) && |g| >= 2 ==>
      Walk(nodes, ino, g[..|g| - 1]).Some? && Walk(nodes, ino, g[..|g| - 1]).value in nids[..i]
  }

  lemma CoversNode(nodes: map<U32, Node>, ino: U32, v: iset<seq<nat>>, w: iset<(seq<nat>, nat)>, lpas: seq<U32>,
                   nids: seq<U32>,
                   h: seq<nat>, n: U32)
    requires Tree(nodes, ino) && Covers(nodes, ino, v, w, lpas, nids) && At(nodes, ino, h, n) && h !in v
    requires |h| >= 2 ==> h[..|h| - 1] in v
    ensures n !in nids && Covers(nodes, ino, v + iset{h}, w, lpas, nids + [n])
  {
    forall g | g in v ensures !At(nodes, ino, g, n) {
      if At(nodes, ino, g, n) { SamePlace(nodes, ino, g, h); }
    }
    var nids' := nids + [n];
    forall m | m in nids' ensures exists g :: g in v + iset{h} && At(nodes, ino, g, m) {
      if m in nids {
        var g :| g in v && At(nodes, ino, g, m);
        assert g in v + iset{h};
      } else {
        assert h in v + iset{h};
      }
    }
    forall i | 0 <= i < |nids'| ensures AfterParent(nodes, ino, nids', i) {
      if i < |nids| {
        assert AfterParent(nodes, ino, nids, i);
        assert nids'[..i] == nids[..i] && nids'[i] == nids[i];
      } else {
        assert nids'[..i] == nids;
        forall g | At(nodes, ino, g, n) && |g| >= 2
          ensures Walk(nodes, ino, g[..|g| - 1]).Some? && Walk(nodes, ino, g[..|g| - 1]).value in nids
        {
          SamePlace(nodes, ino, g, h);
          ParentAt(nodes, ino, h);
          assert At(nodes, ino, h[..|h| - 1], Walk(nodes, ino, h[..|h| - 1]).value);
        }
      }
    }
  }

  lemma ParentAt(nodes: map<U32, Node>, ino: U32, h: seq<nat>)
    requires Position(h) && |h| >= 2 && Walk(nodes, ino, h).Some?
    ensures Position(h[..|h| - 1]) && h[..|h| - 1] != [] && Walk(nodes, ino, h[..|h| - 1]).Some?
  {
    PositionPrefix(h);
  }

  lemma CoversLeaf(nodes: map<U32, Node>, ino: U32, v: iset<seq<nat>>, w: iset<(seq<nat>, nat)>, lpas: seq<U32>,
                   nids: seq<U32>,
                   h: seq<nat>, n: U32, leaf: nat)
    requires Covers(nodes, ino, v, w, lpas, nids) && Position(h) && LeafWord(h, leaf) && leaf < NODE_WORDS
    requires Walk(nodes, ino, h) == Some(n) && n in nodes
    ensures Covers(nodes, ino, v, w + iset{(h, leaf)}, UniqueAppend(lpas, nodes[n][leaf]), nids)
  {
    var l := nodes[n][leaf];
    var w', lpas' := w + iset{(h, leaf)}, UniqueAppend(lpas, l);
    forall x | x in lpas' ensures exists g, k :: (g, k) in w' && Holds(nodes, ino, g, k, x) {
      if x in lpas {
        var g, k :| (g, k) in w && Holds(nodes, ino, g, k, x);
        assert (g, k) in w';
      } else {
        assert (h, leaf) in w' && Holds(nodes, ino, h, leaf, x);
      }
    }
  }

  /** Positions and words that lead nowhere add nothing. */
  lemma CoversNothing(nodes: map<U32, Node>, ino: U32, v: iset<seq<nat>>, w: iset<(seq<nat>, nat)>, lpas: seq<U32>,
                      nids: seq<U32>,
                      v': iset<seq<nat>>, w': iset<(seq<nat>, nat)>)
    requires Covers(nodes, ino, v, w, lpas, nids) && v <= v' && w <= w'
    requires forall g :: g in v' && g !in v ==> forall n :: !At(nodes, ino, g, n)
    requires forall g, leaf :: (g, leaf) in w' && (g, leaf) !in w ==> forall l :: !Holds(nodes, ino, g, leaf, l)
    ensures Covers(nodes, ino, v', w', lpas, nids)
  {
    forall n | n in nids ensures exists g :: g in v' && At(nodes, ino, g, n) {
      var g :| g in v && At(nodes, ino, g, n);
      assert g in v';
    }
    forall l | l in lpas ensures exists g, leaf :: (g, leaf) in w' && Holds(nodes, ino, g, leaf, l) {
      var g, leaf :| (g, leaf) in w && Holds(nodes, ino, g, leaf, l);
      assert (g, leaf) in w';
    }
  }

  // ---- The walk over the tree ----

  ghost predicate Below(h: seq<nat>, g: seq<nat>) {
    Position(g) && |g| >= |h| && g[..|h|] == h
  }

  /** The positions at and below h; with a bound, only those through a word below it. */
  ghost function Subtree(h: seq<nat>): iset<seq<nat>> {
    iset g | Below(h, g)
  }

  ghost function SubtreeTo(h: seq<nat>, k: nat): iset<seq<nat>> {
    iset g | Below(h, g) && (|g| > |h| ==> g[|h|] < k)
  }

  ghost function Leaves(h: seq<nat>): iset<(seq<nat>, nat)> {
    iset p: (seq<nat>, nat) | Below(h, p.0) && LeafWord(p.0, p.1)
  }

  ghost function LeavesTo(h: seq<nat>, k: nat): iset<(seq<nat>, nat)> {
    iset p: (seq<nat>, nat) | Below(h, p.0) && LeafWord(p.0, p.1) && (if |p.0| > |h| then p.0[|h|] < k else p.1 < k)
  }

  lemma BelowStep(h: seq<nat>, k: nat, g: seq<nat>)
    ensures Below(h + [k], g) <==> Below(h, g) && |g| > |h| && g[|h|] == k
  {
    if |g| > |h| { assert g[..|h| + 1] == g[..|h|] + [g[|h|]]; }
  }

  /** Past a leaf word only that word is new. */
  lemma PastLeaf(h: seq<nat>, k: nat)
    requires Position(h) && LeafWord(h, k)
    ensures SubtreeTo(h, k + 1) == SubtreeTo(h, k) && LeavesTo(h, k + 1) == LeavesTo(h, k) + iset{(h, k)}
  {
    forall g | Below(h, g) && |g| > |h| ensures g[|h|] != k {
      BeyondLeaf(h, k, g);
    }
    forall p: (seq<nat>, nat) ensures p in LeavesTo(h, k + 1) <==> p in LeavesTo(h, k) + iset{(h, k)} {
      if Below(h, p.0) && |p.0| == |h| { assert p.0 == h; }
    }
  }

  /** Past a hop word the subtree behind it is new. */
  lemma PastHop(h: seq<nat>, k: nat)
    requires Position(h) && Position(h + [k])
    ensures SubtreeTo(h, k + 1) == SubtreeTo(h, k) + Subtree(h + [k]) &&
      LeavesTo(h, k + 1) == LeavesTo(h, k) + Leaves(h + [k])
    ensures Subtree(h + [k]) !! SubtreeTo(h, k)
  {
    forall g ensures g in SubtreeTo(h, k + 1) <==> g in SubtreeTo(h, k) + Subtree(h + [k]) { BelowStep(h, k, g); }
    forall g ensures !(g in Subtree(h + [k]) && g in SubtreeTo(h, k)) { BelowStep(h, k, g); }
    forall p: (seq<nat>, nat) ensures p in LeavesTo(h, k + 1) <==> p in LeavesTo(h, k) + Leaves(h + [k]) {
      BelowStep(h, k, p.0);
      if Below(h, p.0) && |p.0| == |h| {
        assert p.0 == h;
        if p.1 == k && LeafWord(h, k) { LeafIsNoHop(h, k); }
      }
    }
  }

  lemma AllWords(h: seq<nat>)
    requires Position(h)
    ensures SubtreeTo(h, WORD_FOOTER) == Subtree(h) && LeavesTo(h, WORD_FOOTER) == Leaves(h)
  {
    forall g | Below(h, g) && |g| > |h| ensures g[|h|] < WORD_FOOTER {}
    forall p: (seq<nat>, nat) | Below(h, p.0) && LeafWord(p.0, p.1) && |p.0| == |h|
      ensures p.1 < WORD_FOOTER { assert p.0 == h; }
  }

  /** Before its first word a node covers only itself. */
  lemma NoWords(h: seq<nat>, k: nat)
    requires Position(h) && (k == 0 || (h == [] && k == WORD_ADDR))
    ensures SubtreeTo(h, k) == iset{h} && LeavesTo(h, k) == iset{}
  {
    forall g ensures g in SubtreeTo(h, k) <==> g == h { if Below(h, g) && |g| == |h| { assert g == h; } }
    forall p: (seq<nat>, nat) ensures p !in LeavesTo(h, k) { if Below(h, p.0) && |p.0| == |h| { assert p.0 == h; } }
  }

  /** Behind an empty nid word nothing can be reached. */
  lemma NothingBehind(nodes: map<U32, Node>, ino: U32, h: seq<nat>, n: U32, k: nat)
    requires Position(h) && Position(h + [k]) && Walk(nodes, ino, h) == Some(n) && n in nodes && k < NODE_WORDS &&
      nodes[n][k] == INVALID_NID
    ensures forall g, m :: g in Subtree(h + [k]) ==> !At(nodes, ino, g, m)
    ensures forall g, leaf, l :: (g, leaf) in Leaves(h + [k]) ==> !Holds(nodes, ino, g, leaf, l)
  {
    forall g | Below(h + [k], g) ensures Walk(nodes, ino, g) == None {
      BelowStep(h, k, g);
      NoFurther(nodes, ino, g, |h|);
    }
  }

  datatype Plan = Plan(lpas: seq<U32>, nids: seq<U32>)

  /** The plan covers everything that was covered before and h up to word k. */
  ghost predicate CoversTo(nodes: map<U32, Node>, ino: U32, v: iset<seq<nat>>, w: iset<(seq<nat>, nat)>, h: seq<nat>,
                           k: nat, p: Plan) {
    Covers(nodes, ino, v + SubtreeTo(h, k), w + LeavesTo(h, k), p.lpas, p.nids)
  }

  lemma LeafStep(nodes: map<U32, Node>, ino: U32, v: iset<seq<nat>>, w: iset<(seq<nat>, nat)>, h: seq<nat>, k: nat,
                 p: Plan, n: U32)
    requires CoversTo(nodes, ino, v, w, h, k, p) && Position(h) && LeafWord(h, k) && k < NODE_WORDS
    requires Walk(nodes, ino, h) == Some(n) && n in nodes
    ensures CoversTo(nodes, ino, v, w, h, k + 1, Plan(UniqueAppend(p.lpas, nodes[n][k]), p.nids))
  {
    PastLeaf(h, k);
    CoversLeaf(nodes, ino, v + SubtreeTo(h, k), w + LeavesTo(h, k), p.lpas, p.nids, h, n, k);
    assert w + LeavesTo(h, k) + iset{(h, k)} == w + LeavesTo(h, k + 1);
  }

  lemma EmptyStep(nodes: map<U32, Node>, ino: U32, v: iset<seq<nat>>, w: iset<(seq<nat>, nat)>, h: seq<nat>, k: nat,
                  p: Plan, n: U32)
    requires CoversTo(nodes, ino, v, w, h, k, p) && Position(h) && Position(h + [k]) && k < NODE_WORDS
    requires Walk(nodes, ino, h) == Some(n) && n in nodes && nodes[n][k] == INVALID_NID
    ensures CoversTo(nodes, ino, v, w, h, k + 1, p)
  {
    PastHop(h, k);
    NothingBehind(nodes, ino, h, n, k);
    hide Covers, At, Holds, SubtreeTo, LeavesTo, Subtree, Leaves;
    CoversNothing(nodes, ino, v + SubtreeTo(h, k), w + LeavesTo(h, k), p.lpas, p.nids, v + SubtreeTo(h, k + 1),
      w + LeavesTo(h, k + 1));
  }

  lemma ChildStep(nodes: map<U32, Node>, ino: U32, v: iset<seq<nat>>, w: iset<(seq<nat>, nat)>, h: seq<nat>, k: nat,
                  p: Plan)
    requires Position(h) && Position(h + [k])
    requires Covers(nodes, ino, v + SubtreeTo(h, k) + Subtree(h + [k]), w + LeavesTo(h, k) + Leaves(h + [k]), p.lpas,
      p.nids)
    ensures CoversTo(nodes, ino, v, w, h, k + 1, p)
  {
    PastHop(h, k);
    assert v + SubtreeTo(h, k) + Subtree(h + [k]) == v + SubtreeTo(h, k + 1);
    assert w + LeavesTo(h, k) + Leaves(h + [k]) == w + LeavesTo(h, k + 1);
  }

  /** A node enters the plan before its words are looked at. */
  lemma EnterNode(nodes: map<U32, Node>, ino: U32, v: iset<seq<nat>>, w: iset<(seq<nat>, nat)>, h: seq<nat>, n: U32,
                  p: Plan)
    requires Tree(nodes, ino) && Covers(nodes, ino, v, w, p.lpas, p.nids) && At(nodes, ino, h, n) && h !in v
    requires |h| >= 2 ==> h[..|h| - 1] in v
    ensures n !in p.nids && CoversTo(nodes, ino, v, w, h, 0, Plan(p.lpas, p.nids + [n]))
  {
    CoversNode(nodes, ino, v, w, p.lpas, p.nids, h, n);
    NoWords(h, 0);
    assert w + iset{} == w;
  }

  /** The parent of a child of h is covered, and the child's subtree is not yet. */
  lemma ChildReady(nodes: map<U32, Node>, ino: U32, v: iset<seq<nat>>, h: seq<nat>, n: U32, k: nat)
    requires Tree(nodes, ino) && Position(h) && Position(h + [k]) && Walk(nodes, ino, h) == Some(n) && n in nodes &&
      k < NODE_WORDS
    requires nodes[n][k] != INVALID_NID && Subtree(h) !! v
    ensures At(nodes, ino, h + [k], nodes[n][k]) && nodes[n][k] in nodes
    ensures (h + [k])[..|h + [k]| - 1] in v + SubtreeTo(h, k)
    ensures Subtree(h + [k]) !! v + SubtreeTo(h, k)
  {
    assert (h + [k])[..|h|] == h;
    NodeExists(nodes, ino, h + [k]);
    PastHop(h, k);
    forall g | g in Subtree(h + [k]) ensures g !in v {
      BelowStep(h, k, g);
      assert g in Subtree(h);
    }
  }

  function Height(h: seq<nat>): nat
    requires Position(h)
  {
    if h == [] then 4 else Depth(h[0]) - |h|
  }

  /** rtfsCollectDirectNodeReclaimPlan, rtfsCollectIndirectNodeReclaimPlan and
      rtfsCollectDoubleIndirectNodeReclaimPlan, by the depth of the node: the node, and then all that
      hangs below it, enters the plan. */
  method CollectNode(nodes: map<U32, Node>, ino: U32, h: seq<nat>, n: U32, p: Plan,
                     ghost v: iset<seq<nat>>, ghost w: iset<(seq<nat>, nat)>) returns (r: Plan)
    requires Tree(nodes, ino) && At(nodes, ino, h, n) && n in nodes
    requires Covers(nodes, ino, v, w, p.lpas, p.nids) && Subtree(h) !! v
    requires |h| >= 2 ==> h[..|h| - 1] in v
    ensures Covers(nodes, ino, v + Subtree(h), w + Leaves(h), r.lpas, r.nids)
    decreases Height(h), 1
  {
    assert h in Subtree(h);
    EnterNode(nodes, ino, v, w, h, n, p);
    AllWords(h);
    hide Tree, Covers, SubtreeTo, LeavesTo, Subtree, Leaves;
    r := if n in p.nids then p else Plan(p.lpas, p.nids + [n]);
    var k := 0;
    while k < WORDS_PER_NODE
      invariant k <= WORDS_PER_NODE && CoversTo(nodes, ino, v, w, h, k, r)
    {
      r := CollectWord(nodes, ino, h, n, k, r, v, w);
      k := k + 1;
    }
  }

  /** One word of the node at h: an address enters the plan, a nid with all that hangs below it. */
  method CollectWord(nodes: map<U32, Node>, ino: U32, h: seq<nat>, n: U32, k: nat, p: Plan,
                     ghost v: iset<seq<nat>>, ghost w: iset<(seq<nat>, nat)>) returns (r: Plan)
    requires Tree(nodes, ino) && Position(h) && Walk(nodes, ino, h) == Some(n) && n in nodes
    requires if h == [] then WORD_ADDR <= k < WORD_FOOTER else k < WORDS_PER_NODE
    requires CoversTo(nodes, ino, v, w, h, k, p) && Subtree(h) !! v
    ensures CoversTo(nodes, ino, v, w, h, k + 1, r)
    decreases Height(h), 0
  {
    assert h != [] ==> WORD_NID <= h[0] < WORD_FOOTER;
    hide Tree, Covers, CoversTo, SubtreeTo, LeavesTo, Subtree, Leaves, Walk, Position, Height, Depth, At;
    var word := nodes[n][k];
    if if h == [] then k < WORD_NID else |h| == Depth(h[0]) {
      LeafStep(nodes, ino, v, w, h, k, p, n);
      var lpas := AppendUnique(p.lpas, word);
      r := Plan(lpas, p.nids);
    } else if word == INVALID_NID {
      ChildPlace(h, k);
      EmptyStep(nodes, ino, v, w, h, k, p, n);
      r := p;
    } else {
      ChildPlace(h, k);
      ChildReady(nodes, ino, v, h, n, k);
      OpenCoversTo(nodes, ino, v, w, h, k, p);
      r := CollectNode(nodes, ino, h + [k], word, p, v + SubtreeTo(h, k), w + LeavesTo(h, k));
      ChildStep(nodes, ino, v, w, h, k, r);
    }
  }

  /** The position of a child lies one level lower. */
  lemma ChildPlace(h: seq<nat>, k: nat)
    requires Position(h) && if h == [] then WORD_NID <= k < WORD_FOOTER else k < WORDS_PER_NODE && |h| != Depth(h[0])
    ensures Position(h + [k]) && Height(h + [k]) < Height(h) && |h + [k]| == |h| + 1
  {
  }

  lemma OpenCoversTo(nodes: map<U32, Node>, ino: U32, v: iset<seq<nat>>, w: iset<(seq<nat>, nat)>, h: seq<nat>, k: nat,
                     p: Plan)
    requires CoversTo(nodes, ino, v, w, h, k, p)
    ensures Covers(nodes, ino, v + SubtreeTo(h, k), w + LeavesTo(h, k), p.lpas, p.nids)
  {
  }

  // ---- The whole file ----

  lemma TwoDigits(a: nat, b: nat)
    requires b < WORDS_PER_NODE
    ensures (a * WORDS_PER_NODE + b) / WORDS_PER_NODE == a && (a * WORDS_PER_NODE + b) % WORDS_PER_NODE == b
  {
  }

  lemma ThreeDigits(a: nat, b: nat, c: nat)
    requires b < WORDS_PER_NODE && c < WORDS_PER_NODE
    ensures var n := a * SUBTREE + b * WORDS_PER_NODE + c;
      n / SUBTREE == a && n % SUBTREE == b * WORDS_PER_NODE + c
  {
  }

  /** Every address word of the tree belongs to exactly one block number. */
  lemma LeafHasIndex(h: seq<nat>, leaf: nat)
    requires Position(h) && LeafWord(h, leaf)
    ensures 0 <= IndexOf(Path(h, leaf)) < MAX_BLOCKS && PathOf(IndexOf(Path(h, leaf))) == Path(h, leaf)
  {
    if |h| == 1 {
      assert h == [h[0]];
      TwoDigits(h[0] - WORD_NID, leaf);
    } else if |h| == 2 {
      IndirectHasIndex(h, leaf);
    } else if |h| == 3 {
      DoubleHasIndex(h, leaf);
    }
  }

  lemma IndirectHasIndex(h: seq<nat>, leaf: nat)
    requires Position(h) && LeafWord(h, leaf) && |h| == 2
    ensures 0 <= IndexOf(Path(h, leaf)) < MAX_BLOCKS && PathOf(IndexOf(Path(h, leaf))) == Path(h, leaf)
  {
    assert h == [h[0], h[1]];
    ThreeDigits(h[0] - WORD_NID - 2, h[1], leaf);
    TwoDigits(h[1], leaf);
  }

  lemma DoubleHasIndex(h: seq<nat>, leaf: nat)
    requires Position(h) && LeafWord(h, leaf) && |h| == 3
    ensures 0 <= IndexOf(Path(h, leaf)) < MAX_BLOCKS && PathOf(IndexOf(Path(h, leaf))) == Path(h, leaf)
  {
    assert h == [h[0], h[1], h[2]];
    ThreeDigits(h[1], h[2], leaf);
    TwoDigits(h[2], leaf);
  }

  /** What the plan of a removed file is: each index node but the inode once, parents before children,
      and each LPA of the file that can be given back once. */
  ghost predicate Exact(nodes: map<U32, Node>, ino: U32, p: Plan) {
    && Distinct(p.lpas) && Distinct(p.nids)
    && (forall n :: n in p.nids <==> exists g :: At(nodes, ino, g, n))
    && (forall l :: l in p.lpas <==>
      Plannable(l) && exists index | 0 <= index < MAX_BLOCKS :: LpaOf(nodes, ino, index) == l)
    && forall i :: 0 <= i < |p.nids| ==> AfterParent(nodes, ino, p.nids, i)
  }

  lemma HoldsIsMapped(nodes: map<U32, Node>, ino: U32, l: U32)
    ensures (exists g, leaf :: (g, leaf) in Leaves([]) && Holds(nodes, ino, g, leaf, l))
      <==> Plannable(l) && exists index | 0 <= index < MAX_BLOCKS :: LpaOf(nodes, ino, index) == l
  {
    if g, leaf :| (g, leaf) in Leaves([]) && Holds(nodes, ino, g, leaf, l) {
      LeafHasIndex(g, leaf);
      hide PathOf, IndexOf;
      assert LpaOf(nodes, ino, IndexOf(Path(g, leaf))) == l;
    }
    if index: nat :| Plannable(l) && index < MAX_BLOCKS && LpaOf(nodes, ino, index) == l {
      PathShape(index, 0);
      hide PathOf, IndexOf;
      var p := PathOf(index);
      assert (p.hops, p.leaf) in Leaves([]) && Holds(nodes, ino, p.hops, p.leaf, l);
    }
  }

  lemma ExactFromCovers(nodes: map<U32, Node>, ino: U32, p: Plan)
    requires CoversTo(nodes, ino, iset{}, iset{}, [], WORD_FOOTER, p)
    ensures Exact(nodes, ino, p)
  {
    AllWords([]);
    assert iset{} + Subtree([]) == Subtree([]) && iset{} + Leaves([]) == Leaves([]);
    forall g, n | At(nodes, ino, g, n) ensures g in Subtree([]) {}
    hide PathOf, Leaves;
    forall l
      ensures l in p.lpas <==> Plannable(l) && exists index | 0 <= index < MAX_BLOCKS :: LpaOf(nodes, ino, index) == l {
      HoldsIsMapped(nodes, ino, l);
    }
  }

  lemma StartOfFile(nodes: map<U32, Node>, ino: U32)
    ensures CoversTo(nodes, ino, iset{}, iset{}, [], WORD_ADDR, Plan([], []))
  {
    NoWords([], WORD_ADDR);
  }

  /** rtfsCollectRegularFileReclaimPlan: the addresses in the inode first, then its five subtrees. */
  method CollectRegularFile(nodes: map<U32, Node>, ino: U32) returns (r: Plan)
    requires Tree(nodes, ino)
    ensures Exact(nodes, ino, r)
  {
    StartOfFile(nodes, ino);
    assert ino in nodes;
    hide Tree, Covers, CoversTo, SubtreeTo, LeavesTo, Subtree, Leaves, Exact;
    r := Plan([], []);
    var k := WORD_ADDR;
    while k < WORD_FOOTER
      invariant WORD_ADDR <= k <= WORD_FOOTER && CoversTo(nodes, ino, iset{}, iset{}, [], k, r)
    {
      r := CollectWord(nodes, ino, [], ino, k, r, iset{}, iset{});
      k := k + 1;
    }
    ExactFromCovers(nodes, ino, r);
  }
}
