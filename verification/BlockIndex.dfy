/** The block index tree of a file (src/file_inode/file_inode.c): an inode, direct, indirect and
    double-indirect node blocks together map block numbers to LPAs. */
module BlockIndex {
  import opened Wrappers
  import opened Bytes

  // A node block as the 1024 little-endian words it consists of (src/fs/fs.h).
  const NODE_WORDS: nat := 1024
  const ADDRS_PER_INODE: nat := 932
  const WORDS_PER_NODE: nat := 1020     // addresses in a direct block, nids in an indirect block
  const WORD_ADDR: nat := 83            // i_addr[0]
  const WORD_NID: nat := 1015           // i_nid[0]
  const WORD_FOOTER: nat := 1020

  type Node = w: seq<U32> | |w| == NODE_WORDS witness seq(NODE_WORDS, _ => 0)

  const INVALID_LPA: U32 := 0
  const INVALID_NID: U32 := 0

  // ---- Where a block number leads ----

  /** The words that hold the nids on the way, and the word of the last node that holds the address. */
  datatype Path = Path(hops: seq<nat>, leaf: nat)

  const DIRECT_SPAN: nat := 2_040              // two direct nodes
  const SUBTREE: nat := 1_040_400              // 1020 * 1020
  const INDIRECT_SPAN: nat := 2_080_800        // two indirect nodes
  const MAX_BLOCKS: nat := 1_063_291_772       // 932 + 2 * 1020 + 2 * 1020 * 1020 + 1020 * 1020 * 1020

  function PathOf(index: nat): (p: Path)
    requires index < MAX_BLOCKS
    ensures p.leaf < NODE_WORDS
  {
    if index < ADDRS_PER_INODE then Path([], WORD_ADDR + index)
    else
      var direct := index - ADDRS_PER_INODE;
      if direct < DIRECT_SPAN then
        Path([WORD_NID + direct / WORDS_PER_NODE], direct % WORDS_PER_NODE)
      else
        var indirect := direct - DIRECT_SPAN;
        if indirect < INDIRECT_SPAN then
          var rest := indirect % SUBTREE;
          Path([WORD_NID + 2 + indirect / SUBTREE, rest / WORDS_PER_NODE], rest % WORDS_PER_NODE)
        else
          var double := indirect - INDIRECT_SPAN;
          var rest := double % SUBTREE;
          Path([WORD_NID + 4, double / SUBTREE, rest / WORDS_PER_NODE], rest % WORDS_PER_NODE)
  }

  /** The block number a path stands for. */
  function IndexOf(p: Path): int {
    if |p.hops| == 0 then p.leaf - WORD_ADDR
    else if |p.hops| == 1 then
      ADDRS_PER_INODE + (p.hops[0] - WORD_NID) * WORDS_PER_NODE + p.leaf
    else if |p.hops| == 2 then
      ADDRS_PER_INODE + DIRECT_SPAN + (p.hops[0] - WORD_NID - 2) * SUBTREE + p.hops[1] * WORDS_PER_NODE + p.leaf
    else
      ADDRS_PER_INODE + DIRECT_SPAN + INDIRECT_SPAN + p.hops[1] * SUBTREE +
        (if |p.hops| > 2 then p.hops[2] else 0) * WORDS_PER_NODE + p.leaf
  }

  /** No two block numbers share a path, and together the tiers cover every number below the limit. */
  lemma PathRoundTrip(index: nat)
    requires index < MAX_BLOCKS
    ensures IndexOf(PathOf(index)) == index
  {
  }

  /** How many hops lead on from a nid word of the inode to a direct node. */
  function Depth(slot: nat): nat
    requires WORD_NID <= slot < WORD_FOOTER
  {
    if slot < WORD_NID + 2 then 1 else if slot < WORD_NID + 4 then 2 else 3
  }

  /** The hops lead to a node of the tree. */
  ghost predicate Position(h: seq<nat>) {
    h == [] || (
      && WORD_NID <= h[0] < WORD_FOOTER && |h| <= Depth(h[0])
      && forall k :: 1 <= k < |h| ==> h[k] < WORDS_PER_NODE)
  }

  /** The word holds a block address in the node at h. */
  ghost predicate LeafWord(h: seq<nat>, leaf: nat)
    requires Position(h)
  {
    if h == [] then WORD_ADDR <= leaf < WORD_NID
    else |h| == Depth(h[0]) && leaf < WORDS_PER_NODE
  }

  lemma PathShape(index: nat, k: nat)
    requires index < MAX_BLOCKS && k <= |PathOf(index).hops|
    ensures Position(PathOf(index).hops[..k])
    ensures Position(PathOf(index).hops) && LeafWord(PathOf(index).hops, PathOf(index).leaf)
    ensures forall x :: x in PathOf(index).hops ==> x < WORD_FOOTER
  {
    assert PathOf(index).hops[..|PathOf(index).hops|] == PathOf(index).hops;
  }

  /** Below a leaf word there is no further node. */
  lemma LeafIsNoHop(h: seq<nat>, leaf: nat)
    requires Position(h) && LeafWord(h, leaf)
    ensures !Position(h + [leaf])
  {
    if h != [] { assert (h + [leaf])[0] == h[0]; }
  }

  lemma PositionPrefix(h: seq<nat>)
    requires Position(h) && h != []
    ensures Position(h[..|h| - 1]) && h[|h| - 1] < WORD_FOOTER
  {
  }

  // ---- Walking the tree ----

  /** One hop on: the nid in the given word of a node. */
  function Step(nodes: map<U32, Node>, at: Option<U32>, word: nat): Option<U32> {
    match at
    case None => None
    case Some(p) =>
      if p !in nodes || word >= NODE_WORDS || nodes[p][word] == INVALID_NID then None else Some(nodes[p][word])
  }

  /** The nid of the node at h. */
  function Walk(nodes: map<U32, Node>, ino: U32, h: seq<nat>): Option<U32>
    decreases |h|
  {
    if h == [] then Some(ino) else Step(nodes, Walk(nodes, ino, h[..|h| - 1]), h[|h| - 1])
  }

  /** The address that the tree gives for a path; a missing node is a hole. */
  function AddressAt(nodes: map<U32, Node>, ino: U32, p: Path): U32
    requires p.leaf < NODE_WORDS
  {
    match Walk(nodes, ino, p.hops)
    case None => INVALID_LPA
    case Some(n) => if n in nodes then nodes[n][p.leaf] else INVALID_LPA
  }

  /** The mapping the tree stands for. */
  function LpaOf(nodes: map<U32, Node>, ino: U32, index: nat): U32
    requires index < MAX_BLOCKS
  {
    AddressAt(nodes, ino, PathOf(index))
  }

  /** Every node that is referred to exists. */
  ghost predicate Closed(nodes: map<U32, Node>, ino: U32) {
    forall h :: Position(h) && Walk(nodes, ino, h).Some? ==> Walk(nodes, ino, h).value in nodes
  }

  predicate Same(a: Option<U32>, b: Option<U32>) {
    a.Some? && a == b
  }

  /** No node is referred to twice. */
  ghost predicate Unshared(nodes: map<U32, Node>, ino: U32) {
    forall h, h' :: Position(h) && Position(h') && Same(Walk(nodes, ino, h), Walk(nodes, ino, h')) ==> h == h'
  }

  ghost predicate Reached(nodes: map<U32, Node>, ino: U32, n: U32) {
    exists h :: Position(h) && Walk(nodes, ino, h) == Some(n)
  }

  /** Every node is referred to from the inode down. */
  ghost predicate NoOrphans(nodes: map<U32, Node>, ino: U32) {
    forall n {:trigger Reached(nodes, ino, n)} :: n in nodes ==> Reached(nodes, ino, n)
  }

  /** Every node names itself and its inode in its footer, as the source asserts when it loads one. */
  ghost predicate Footed(nodes: map<U32, Node>, ino: U32) {
    forall n :: n in nodes ==> nodes[n][WORD_FOOTER] == n && nodes[n][WORD_FOOTER + 1] == ino
  }

  ghost predicate Tree(nodes: map<U32, Node>, ino: U32) {
    && ino != INVALID_NID && ino in nodes && Closed(nodes, ino) && Unshared(nodes, ino) && NoOrphans(nodes, ino)
    && Footed(nodes, ino)
  }

  lemma SameWalksSameTree(nodes: map<U32, Node>, nodes': map<U32, Node>, ino: U32)
    requires Tree(nodes, ino) && nodes'.Keys == nodes.Keys && forall h :: Position(h) ==>
      Walk(nodes', ino, h) == Walk(nodes, ino, h)
    requires Footed(nodes', ino)
    ensures Tree(nodes', ino)
  {
    forall n | n in nodes' ensures Reached(nodes', ino, n) {
      assert Reached(nodes, ino, n);
      var h :| Position(h) && Walk(nodes, ino, h) == Some(n);
      assert Walk(nodes', ino, h) == Some(n);
    }
  }

  // ---- Changing one word ----

  function Put(nodes: map<U32, Node>, n: U32, word: nat, v: U32): map<U32, Node>
    requires n in nodes && word < NODE_WORDS
  {
    nodes[n := nodes[n][word := v]]
  }

  /** The way to h leads through the given word of the node at g. */
  ghost predicate Through(g: seq<nat>, word: nat, h: seq<nat>) {
    |h| > |g| && h[..|g|] == g && h[|g|] == word
  }

  lemma ThroughStep(g: seq<nat>, word: nat, h: seq<nat>)
    requires h != []
    ensures var init, last := h[..|h| - 1], h[|h| - 1];
      && (Through(g, word, h) <==> Through(g, word, init) || (init == g && last == word))
      && (h == g + [word] <==> init == g && last == word)
  {
    var init := h[..|h| - 1];
    assert h == init + [h[|h| - 1]];
    if |g| < |init| { assert init[..|g|] == h[..|g|]; }
  }

  /** A word of the node at g matters only to positions that go through it. */
  lemma {:induction false} WalkAfterPut(nodes: map<U32, Node>, ino: U32, g: seq<nat>, n: U32, word: nat, v: U32,
                                        h: seq<nat>)
    requires Tree(nodes, ino) && Position(g) && Walk(nodes, ino, g) == Some(n) && n in nodes && word < NODE_WORDS
    requires Position(h) && !Through(g, word, h)
    ensures Walk(Put(nodes, n, word, v), ino, h) == Walk(nodes, ino, h)
    decreases |h|
  {
    if h != [] {
      var init := h[..|h| - 1];
      PositionPrefix(h);
      ThroughStep(g, word, h);
      WalkAfterPut(nodes, ino, g, n, word, v, init);
      if Walk(nodes, ino, init) == Some(n) { SamePlace(nodes, ino, init, g); }
    }
  }

  lemma SamePlace(nodes: map<U32, Node>, ino: U32, h: seq<nat>, g: seq<nat>)
    requires Tree(nodes, ino) && Position(h) && Position(g)
    requires Walk(nodes, ino, h).Some? && Walk(nodes, ino, h) == Walk(nodes, ino, g)
    ensures h == g
  {
    assert Same(Walk(nodes, ino, h), Walk(nodes, ino, g));
  }

  /** Writing an address: the tree stays a tree and exactly one block number is remapped. */
  lemma PutAddress(nodes: map<U32, Node>, ino: U32, index: nat, n: U32, v: U32)
    requires Tree(nodes, ino) && index < MAX_BLOCKS
    requires Walk(nodes, ino, PathOf(index).hops) == Some(n)
    ensures PathOf(index).leaf < NODE_WORDS && n in nodes
    ensures var nodes' := Put(nodes, n, PathOf(index).leaf, v);
      && Tree(nodes', ino)
      && forall j | 0 <= j < MAX_BLOCKS :: LpaOf(nodes', ino, j) == if j == index then v else LpaOf(nodes, ino, j)
  {
    hide PathOf, IndexOf;
    var p := PathOf(index);
    PathShape(index, 0);
    NodeExists(nodes, ino, p.hops);
    var nodes' := Put(nodes, n, p.leaf, v);
    forall h | Position(h) ensures Walk(nodes', ino, h) == Walk(nodes, ino, h) {
      BeyondLeaf(p.hops, p.leaf, h);
      WalkAfterPut(nodes, ino, p.hops, n, p.leaf, v, h);
    }
    FooterKept(nodes, ino, n, p.leaf, v);
    SameWalksSameTree(nodes, nodes', ino);
    hide Tree, Position, Walk, LeafWord, LpaOf;
    forall j | 0 <= j < MAX_BLOCKS
      ensures LpaOf(nodes', ino, j) == if j == index then v else LpaOf(nodes, ino, j)
    {
      PutElsewhere(nodes, ino, index, n, v, j);
    }
  }

  lemma FooterKept(nodes: map<U32, Node>, ino: U32, n: U32, word: nat, v: U32)
    requires Tree(nodes, ino) && n in nodes && word < WORD_FOOTER
    ensures Footed(Put(nodes, n, word, v), ino)
  {
  }

  lemma PutElsewhere(nodes: map<U32, Node>, ino: U32, index: nat, n: U32, v: U32, j: nat)
    requires Tree(nodes, ino) && index < MAX_BLOCKS && j < MAX_BLOCKS
    requires Walk(nodes, ino, PathOf(index).hops) == Some(n) && n in nodes
    requires Position(PathOf(j).hops) ==>
      Walk(Put(nodes, n, PathOf(index).leaf, v), ino, PathOf(j).hops) == Walk(nodes, ino, PathOf(j).hops)
    ensures LpaOf(Put(nodes, n, PathOf(index).leaf, v), ino, j) == if j == index then v else LpaOf(nodes, ino, j)
  {
    hide PathOf, IndexOf, Closed, NoOrphans, Walk;
    PathShape(index, 0);
    PathShape(j, 0);
    if j != index && Walk(nodes, ino, PathOf(j).hops) == Some(n) {
      SamePlace(nodes, ino, PathOf(j).hops, PathOf(index).hops);
      PathRoundTrip(j);
      PathRoundTrip(index);
      assert PathOf(j).leaf != PathOf(index).leaf;
    }
  }

  /** The words before the addresses of the inode are no part of the tree. */
  lemma PutMetadata(nodes: map<U32, Node>, ino: U32, word: nat, v: U32)
    requires Tree(nodes, ino) && word < WORD_ADDR
    ensures Tree(Put(nodes, ino, word, v), ino)
    ensures forall j | 0 <= j < MAX_BLOCKS :: LpaOf(Put(nodes, ino, word, v), ino, j) == LpaOf(nodes, ino, j)
  {
    hide PathOf;
    var nodes' := Put(nodes, ino, word, v);
    forall h | Position(h) ensures Walk(nodes', ino, h) == Walk(nodes, ino, h) {
      WalkAfterPut(nodes, ino, [], ino, word, v, h);
    }
    FooterKept(nodes, ino, ino, word, v);
    SameWalksSameTree(nodes, nodes', ino);
    forall j | 0 <= j < MAX_BLOCKS ensures LpaOf(nodes', ino, j) == LpaOf(nodes, ino, j) {
      PathShape(j, 0);
      if Walk(nodes, ino, PathOf(j).hops) == Some(ino) { SamePlace(nodes, ino, PathOf(j).hops, []); }
    }
  }

  /** No position continues through a leaf word. */
  lemma BeyondLeaf(g: seq<nat>, leaf: nat, h: seq<nat>)
    requires Position(g) && LeafWord(g, leaf) && Position(h)
    ensures !Through(g, leaf, h)
  {
    if g != [] && |h| >= |g| && h[..|g|] == g { assert h[0] == h[..|g|][0]; }
  }

  /** A new, empty node can be hung into a free nid word of the node n at g. */
  ghost predicate CanHang(nodes: map<U32, Node>, ino: U32, g: seq<nat>, n: U32, word: nat, nid: U32, empty: Node) {
    && Tree(nodes, ino) && Position(g) && Walk(nodes, ino, g) == Some(n) && n in nodes
    && word < WORDS_PER_NODE && Position(g + [word]) && nodes[n][word] == INVALID_NID
    && nid !in nodes && nid != INVALID_NID && (forall k :: 0 <= k < WORDS_PER_NODE ==> empty[k] == 0)
    && empty[WORD_FOOTER] == nid && empty[WORD_FOOTER + 1] == ino
  }

  function Hang(nodes: map<U32, Node>, n: U32, word: nat, nid: U32, empty: Node): map<U32, Node>
    requires n in nodes && word < NODE_WORDS
  {
    Put(nodes, n, word, nid)[nid := empty]
  }

  lemma HangUnshared(nodes: map<U32, Node>, ino: U32, g: seq<nat>, n: U32, word: nat, nid: U32, empty: Node,
                     h: seq<nat>, h': seq<nat>)
    requires CanHang(nodes, ino, g, n, word, nid, empty) && Position(h) && Position(h')
    requires Same(Walk(Hang(nodes, n, word, nid, empty), ino, h), Walk(Hang(nodes, n, word, nid, empty), ino, h'))
    ensures h == h'
  {
    WalkAfterHang(nodes, ino, g, n, word, nid, empty, h);
    WalkAfterHang(nodes, ino, g, n, word, nid, empty, h');
    hide Walk, Position;
    if h != g + [word] && h' != g + [word] { SamePlace(nodes, ino, h, h'); }
  }

  /** Hanging in a new, empty node: the tree stays a tree. */
  lemma HangKeepsTree(nodes: map<U32, Node>, ino: U32, g: seq<nat>, n: U32, word: nat, nid: U32, empty: Node)
    requires CanHang(nodes, ino, g, n, word, nid, empty)
    ensures Tree(Hang(nodes, n, word, nid, empty), ino)
    ensures Walk(Hang(nodes, n, word, nid, empty), ino, g + [word]) == Some(nid)
  {
    var nodes' := Hang(nodes, n, word, nid, empty);
    WalkAfterHang(nodes, ino, g, n, word, nid, empty, g + [word]);
    assert Footed(nodes', ino);
    hide Walk, Position, NoOrphans, Footed;
    forall h | Position(h) && Walk(nodes', ino, h).Some? ensures Walk(nodes', ino, h).value in nodes' {
      WalkAfterHang(nodes, ino, g, n, word, nid, empty, h);
    }
    forall h, h' | Position(h) && Position(h') && Same(Walk(nodes', ino, h), Walk(nodes', ino, h')) ensures h == h' {
      HangUnshared(nodes, ino, g, n, word, nid, empty, h, h');
    }
    HangNoOrphans(nodes, ino, g, n, word, nid, empty);
  }

  lemma HangNoOrphans(nodes: map<U32, Node>, ino: U32, g: seq<nat>, n: U32, word: nat, nid: U32, empty: Node)
    requires CanHang(nodes, ino, g, n, word, nid, empty)
    ensures NoOrphans(Hang(nodes, n, word, nid, empty), ino)
  {
    var nodes' := Hang(nodes, n, word, nid, empty);
    hide Hang, CanHang, Reached;
    forall m | m in nodes' ensures Reached(nodes', ino, m) {
      HangReached(nodes, ino, g, n, word, nid, empty, m);
    }
  }

  /** All that the caller of a hang needs to know. */
  lemma HangFacts(nodes: map<U32, Node>, ino: U32, g: seq<nat>, n: U32, word: nat, nid: U32, empty: Node)
    requires CanHang(nodes, ino, g, n, word, nid, empty)
    ensures var nodes' := Hang(nodes, n, word, nid, empty);
      && Tree(nodes', ino) && Walk(nodes', ino, g + [word]) == Some(nid) && nodes'.Keys == nodes.Keys + {nid}
      && (forall m :: m in nodes && m != n ==> nodes'[m] == nodes[m])
      && forall j | 0 <= j < MAX_BLOCKS :: LpaOf(nodes', ino, j) == LpaOf(nodes, ino, j)
  {
    hide Tree, Walk, LpaOf, Position;
    HangKeepsTree(nodes, ino, g, n, word, nid, empty);
    var nodes' := Hang(nodes, n, word, nid, empty);
    assert nodes'.Keys == nodes.Keys + {nid};
    assert forall m :: m in nodes && m != n ==> nodes'[m] == nodes[m];
    hide CanHang, Hang;
    forall j | 0 <= j < MAX_BLOCKS ensures LpaOf(nodes', ino, j) == LpaOf(nodes, ino, j) {
      HangKeepsMap(nodes, ino, g, n, word, nid, empty, j);
    }
  }

  lemma HangReached(nodes: map<U32, Node>, ino: U32, g: seq<nat>, n: U32, word: nat, nid: U32, empty: Node, m: U32)
    requires CanHang(nodes, ino, g, n, word, nid, empty) && m in Hang(nodes, n, word, nid, empty)
    ensures Reached(Hang(nodes, n, word, nid, empty), ino, m)
  {
    if m == nid {
      WalkAfterHang(nodes, ino, g, n, word, nid, empty, g + [word]);
    } else {
      assert Reached(nodes, ino, m);
      var h :| Position(h) && Walk(nodes, ino, h) == Some(m);
      WalkAfterHang(nodes, ino, g, n, word, nid, empty, h);
      WalkAfterHang(nodes, ino, g, n, word, nid, empty, g + [word]);
    }
  }

  /** ... and no block number is remapped. */
  lemma HangKeepsMap(nodes: map<U32, Node>, ino: U32, g: seq<nat>, n: U32, word: nat, nid: U32, empty: Node, index: nat)
    requires CanHang(nodes, ino, g, n, word, nid, empty) && index < MAX_BLOCKS
    ensures LpaOf(Hang(nodes, n, word, nid, empty), ino, index) == LpaOf(nodes, ino, index)
  {
    hide PathOf, Tree, Position, Walk, LeafWord;
    var p := PathOf(index);
    PathShape(index, 0);
    LeafIsNoHop(p.hops, p.leaf);
    WalkAfterHang(nodes, ino, g, n, word, nid, empty, p.hops);
    if p.hops == g + [word] {
      LeafBelow(p.hops, p.leaf);
      ThroughStep(g, word, p.hops);
    } else if Walk(nodes, ino, p.hops).Some? {
      NodeExists(nodes, ino, p.hops);
      if Walk(nodes, ino, p.hops) == Some(n) { SamePlace(nodes, ino, p.hops, g); }
    }
  }

  lemma LeafBelow(h: seq<nat>, leaf: nat)
    requires Position(h) && LeafWord(h, leaf) && h != []
    ensures leaf < WORDS_PER_NODE
  {
  }

  lemma NodeExists(nodes: map<U32, Node>, ino: U32, h: seq<nat>)
    requires Tree(nodes, ino) && Position(h) && Walk(nodes, ino, h).Some?
    ensures Walk(nodes, ino, h).value in nodes
  {
  }

  lemma HangStep(nodes: map<U32, Node>, n: U32, word: nat, nid: U32, empty: Node, at: Option<U32>, w: nat)
    requires n in nodes && word < WORDS_PER_NODE && nodes[n][word] == INVALID_NID && nid !in nodes && nid != INVALID_NID
    requires forall k :: 0 <= k < WORDS_PER_NODE ==> empty[k] == 0
    ensures at == Some(nid) && w < WORDS_PER_NODE ==> Step(Hang(nodes, n, word, nid, empty), at, w) == None
    ensures at != Some(nid) ==>
              Step(Hang(nodes, n, word, nid, empty), at, w) == if at == Some(n) && w == word then Some(nid)
                else Step(nodes, at, w)
    ensures Step(nodes, Some(n), word) == None && Step(nodes, None, w) == None
  {
  }

  lemma {:induction false} WalkAfterHang(nodes: map<U32, Node>, ino: U32, g: seq<nat>, n: U32, word: nat, nid: U32,
                                         empty: Node, h: seq<nat>)
    requires CanHang(nodes, ino, g, n, word, nid, empty) && Position(h)
    ensures Walk(Hang(nodes, n, word, nid, empty), ino, h) == if h == g + [word] then Some(nid) else Walk(nodes, ino, h)
    ensures Through(g, word, h) ==> Walk(nodes, ino, h) == None
    decreases |h|
  {
    if h != [] {
      var init := h[..|h| - 1];
      PositionPrefix(h);
      ThroughStep(g, word, h);
      WalkAfterHang(nodes, ino, g, n, word, nid, empty, init);
      HangStep(nodes, n, word, nid, empty, Walk(nodes, ino, init), h[|h| - 1]);
      HangStep(nodes, n, word, nid, empty, Some(nid), h[|h| - 1]);
      if init == g + [word] { assert h[|h| - 1] < WORDS_PER_NODE; }
      hide Tree, Step, Hang, Position;
      if Walk(nodes, ino, init) == Some(n) { SamePlace(nodes, ino, init, g); }
      if Walk(nodes, ino, init).Some? { NodeExists(nodes, ino, init); }
    }
  }

  // ---- The operations ----

  datatype Errno = Ok | ENOENT | ENOSPC | EIO | ENOSYS | EINVAL | EFBIG

  function EmptyNode(): (w: Node)
    ensures forall k :: 0 <= k < WORDS_PER_NODE ==> w[k] == 0
  {
    seq(NODE_WORDS, _ => 0)
  }

  function FooterOf(w: Node, nid: U32, ino: U32, offset: U32): (r: Node)
    ensures forall k :: 0 <= k < WORDS_PER_NODE ==> r[k] == w[k]
    ensures r[WORD_FOOTER] == nid && r[WORD_FOOTER + 1] == ino && r[WORD_FOOTER + 2] == offset
  {
    w[WORD_FOOTER := nid][WORD_FOOTER + 1 := ino][WORD_FOOTER + 2 := offset]
  }

  /** The offset field of a created node: its place among the inode's nodes, or 0 further down. */
  function FooterOffset(h: seq<nat>): U32
    requires Position(h) && h != []
  {
    if |h| == 1 then ADDRS_PER_INODE + 1 + (h[0] - WORD_NID) else 0
  }

  /** Nodes may have been added and changed, and are dirty then; no block number was remapped. */
  ghost predicate Grown(a: map<U32, Node>, dirtyA: set<U32>, b: map<U32, Node>, dirtyB: set<U32>, ino: U32) {
    && a.Keys <= b.Keys && dirtyA <= dirtyB && (forall m :: m in b && m !in dirtyB ==> m in a && b[m] == a[m])
    && forall j | 0 <= j < MAX_BLOCKS :: LpaOf(b, ino, j) == LpaOf(a, ino, j)
  }

  lemma GrownMeans(a: map<U32, Node>, dirtyA: set<U32>, b: map<U32, Node>, dirtyB: set<U32>, ino: U32)
    requires Grown(a, dirtyA, b, dirtyB, ino)
    ensures forall j | 0 <= j < MAX_BLOCKS :: LpaOf(b, ino, j) == LpaOf(a, ino, j)
  {
  }

  lemma GrownChain(a: map<U32, Node>, dirtyA: set<U32>, b: map<U32, Node>, dirtyB: set<U32>, c: map<U32, Node>,
                   dirtyC: set<U32>, ino: U32)
    requires Grown(a, dirtyA, b, dirtyB, ino) && Grown(b, dirtyB, c, dirtyC, ino)
    ensures Grown(a, dirtyA, c, dirtyC, ino)
  {
    hide LpaOf;
  }

  lemma GrownBy(a: map<U32, Node>, dirtyA: set<U32>, b: map<U32, Node>, dirtyB: set<U32>, ino: U32, n: U32, nid: U32)
    requires (b == a && dirtyB == dirtyA) || (b.Keys == a.Keys + {nid} && dirtyB == dirtyA + {n, nid} && forall m ::
      m in a && m != n && m != nid ==> b[m] == a[m])
    requires forall j | 0 <= j < MAX_BLOCKS :: LpaOf(b, ino, j) == LpaOf(a, ino, j)
    ensures Grown(a, dirtyA, b, dirtyB, ino)
  {
    hide LpaOf;
  }

  lemma RootIsThere(nodes: map<U32, Node>, ino: U32)
    requires Tree(nodes, ino)
    ensures ino in nodes && ino != INVALID_NID
  {
  }

  lemma WalkNone(nodes: map<U32, Node>, ino: U32, h: seq<nat>)
    ensures Walk(nodes, ino, h[..0]) == Some(ino)
  {
  }

  lemma WalkOn(nodes: map<U32, Node>, ino: U32, h: seq<nat>, n: U32, word: nat)
    requires Tree(nodes, ino) && Walk(nodes, ino, h) == Some(n) && n in nodes && word < NODE_WORDS &&
      nodes[n][word] != INVALID_NID
    requires Position(h + [word])
    ensures Walk(nodes, ino, h + [word]) == Some(nodes[n][word]) && nodes[n][word] in nodes
  {
    assert (h + [word])[..|h|] == h;
  }

  lemma HoleBehind(nodes: map<U32, Node>, ino: U32, index: nat, k: nat, n: U32)
    requires index < MAX_BLOCKS && k < |PathOf(index).hops| && Walk(nodes, ino, PathOf(index).hops[..k]) == Some(n) &&
      n in nodes
    requires PathOf(index).hops[k] < NODE_WORDS ==> nodes[n][PathOf(index).hops[k]] == INVALID_NID
    ensures LpaOf(nodes, ino, index) == INVALID_LPA
  {
    hide PathOf;
    NoFurther(nodes, ino, PathOf(index).hops, k);
  }

  lemma AddressIs(nodes: map<U32, Node>, ino: U32, index: nat, n: U32)
    requires index < MAX_BLOCKS && Walk(nodes, ino, PathOf(index).hops) == Some(n) && n in nodes
    ensures LpaOf(nodes, ino, index) == nodes[n][PathOf(index).leaf]
  {
  }

  /** The nodes of a file as values: the nids in supply are those the allocator hands out next. */
  datatype NodeBook = NodeBook(nodes: map<U32, Node>, dirty: set<U32>, supply: seq<U32>)

  ghost predicate Stocked(b: NodeBook) {
    && b.dirty <= b.nodes.Keys && Distinct(b.supply) && INVALID_NID !in b.supply
    && forall n :: n in b.supply ==> n !in b.nodes
  }

  /** The new nodes are those with the next nids, at most so many. */
  ghost predicate Drawn(a: NodeBook, b: NodeBook, most: nat) {
    && |b.supply| <= |a.supply| <= |b.supply| + most
    && b.supply == a.supply[|a.supply| - |b.supply|..]
    && b.nodes.Keys == a.nodes.Keys + Elements(a.supply[..|a.supply| - |b.supply|])
  }

  /** What remapping blocks does to the nodes: the clean ones are as they were, and new ones, at most so
      many, took the next nids. */
  ghost predicate Touched(a: NodeBook, b: NodeBook, most: nat) {
    && Drawn(a, b, most) && a.nodes.Keys <= b.nodes.Keys && a.dirty <= b.dirty
    && forall n :: n in b.nodes && n !in b.dirty ==> n in a.nodes && b.nodes[n] == a.nodes[n]
  }

  lemma DrawnSame(a: NodeBook, b: NodeBook, most: nat)
    requires b.nodes.Keys == a.nodes.Keys && b.supply == a.supply
    ensures Drawn(a, b, most)
  {
    assert a.supply[0..] == a.supply && a.supply[..0] == [];
  }

  lemma DrawnChain(a: NodeBook, b: NodeBook, c: NodeBook, m: nat, n: nat)
    requires Drawn(a, b, m) && Drawn(b, c, n)
    ensures Drawn(a, c, m + n)
  {
    var i, j := |a.supply| - |b.supply|, |b.supply| - |c.supply|;
    assert a.supply[i..][j..] == a.supply[i + j..];
    assert a.supply[..i + j] == a.supply[..i] + a.supply[i..][..j];
    assert Elements(a.supply[..i + j]) == Elements(a.supply[..i]) + Elements(b.supply[..j]);
  }

  lemma TouchedChain(a: NodeBook, b: NodeBook, c: NodeBook, m: nat, n: nat)
    requires Touched(a, b, m) && Touched(b, c, n)
    ensures Touched(a, c, m + n)
  {
    DrawnChain(a, b, c, m, n);
    hide Drawn;
  }

  lemma DrawnMore(a: NodeBook, b: NodeBook, m: nat, n: nat)
    requires Drawn(a, b, m) && m <= n
    ensures Drawn(a, b, n)
  {
  }

  lemma ThreeHops(index: nat)
    requires index < MAX_BLOCKS
    ensures |PathOf(index).hops| <= 3
  {
  }

  lemma TouchedSame(a: NodeBook, most: nat)
    ensures Touched(a, a, most)
  {
    DrawnSame(a, a, most);
  }

  /** The way to a leaf may have added nodes, at most so many, but remapped nothing. */
  ghost predicate Extended(a: NodeBook, b: NodeBook, ino: U32, most: nat) {
    Grown(a.nodes, a.dirty, b.nodes, b.dirty, ino) && Drawn(a, b, most)
  }

  lemma ExtendedSame(a: NodeBook, ino: U32, most: nat)
    ensures Extended(a, a, ino, most)
  {
    DrawnSame(a, a, most);
  }

  lemma ExtendedChain(a: NodeBook, b: NodeBook, c: NodeBook, ino: U32, m: nat, n: nat, most: nat)
    requires Extended(a, b, ino, m) && Extended(b, c, ino, n) && m + n <= most
    ensures Extended(a, c, ino, most)
  {
    GrownChain(a.nodes, a.dirty, b.nodes, b.dirty, c.nodes, c.dirty, ino);
    hide Grown;
    DrawnChain(a, b, c, m, n);
    DrawnMore(a, c, m + n, most);
  }

  lemma ExtendedMore(a: NodeBook, b: NodeBook, ino: U32, m: nat, n: nat)
    requires Extended(a, b, ino, m) && m <= n
    ensures Extended(a, b, ino, n)
  {
  }

  lemma ExtendedAt(a: NodeBook, b: NodeBook, ino: U32, most: nat, index: nat)
    requires Extended(a, b, ino, most) && index < MAX_BLOCKS
    ensures LpaOf(b.nodes, ino, index) == LpaOf(a.nodes, ino, index)
  {
    hide Drawn, LpaOf;
  }

  lemma GrownTouched(a: NodeBook, b: NodeBook, ino: U32, most: nat)
    requires Grown(a.nodes, a.dirty, b.nodes, b.dirty, ino) && Drawn(a, b, most)
    ensures Touched(a, b, most)
  {
    hide Drawn, LpaOf;
  }

  lemma TouchedPut(a: NodeBook, b: NodeBook, n: U32, word: nat, v: U32, most: nat)
    requires Touched(a, b, most) && n in b.nodes && word < NODE_WORDS
    ensures Touched(a, NodeBook(Put(b.nodes, n, word, v), b.dirty + {n}, b.supply), most)
  {
    var c := NodeBook(Put(b.nodes, n, word, v), b.dirty + {n}, b.supply);
    DrawnSame(b, c, 0);
    DrawnChain(a, b, c, most, 0);
    hide Drawn;
  }

  lemma StockedPut(b: NodeBook, n: U32, word: nat, v: U32)
    requires Stocked(b) && n in b.nodes && word < NODE_WORDS
    ensures Stocked(NodeBook(Put(b.nodes, n, word, v), b.dirty + {n}, b.supply))
  {
  }

  lemma TouchedMore(a: NodeBook, b: NodeBook, m: nat, n: nat)
    requires Touched(a, b, m) && m <= n
    ensures Touched(a, b, n)
  {
  }

  lemma TouchedNone(a: NodeBook, b: NodeBook, most: nat)
    requires Touched(a, b, most) && b.nodes.Keys == a.nodes.Keys && b.supply == a.supply
    ensures Touched(a, b, 0)
  {
    DrawnSame(a, b, 0);
  }

  /** Each new node costs one nid. */
  lemma TouchedSize(a: NodeBook, b: NodeBook, most: nat)
    requires Touched(a, b, most)
    ensures |b.nodes| <= |a.nodes| + most
  {
    var s := a.supply[..|a.supply| - |b.supply|];
    assert b.nodes.Keys == a.nodes.Keys + Elements(s) && |s| <= most;
    hide *;
    ElementsSize(s);
    UnionSize(a.nodes.Keys, Elements(s));
  }

  lemma UnionSize(a: set<U32>, b: set<U32>)
    ensures |a + b| <= |a| + |b|
  {
    assert |a + b| + |a * b| == |a| + |b|;
  }

  lemma DrawOne(a: NodeBook, b: NodeBook)
    requires Stocked(a) && a.supply != [] && b.supply == a.supply[1..]
    requires b.nodes.Keys == a.nodes.Keys + {a.supply[0]} && b.dirty <= b.nodes.Keys
    ensures Stocked(b) && Drawn(a, b, 1)
  {
    assert Elements(a.supply[..1]) == {a.supply[0]};
    forall n | n in b.supply ensures n !in b.nodes && n != INVALID_NID {
      var i :| 0 <= i < |b.supply| && b.supply[i] == n;
      assert a.supply[i + 1] == n && a.supply[0] != a.supply[i + 1];
    }
  }

  /** The node blocks of one file as the node cache shows them. */
  class FileNodes {
    const ino: U32
    // Whether a node may fail to load.
    const faulty: bool
    var nodes: map<U32, Node>
    var dirty: set<U32>
    // What superManagerAllocNid hands out next; the last nid of its chain never is.
    var supply: seq<U32>

    ghost function Book(): NodeBook
      reads this
    {
      NodeBook(nodes, dirty, supply)
    }

    ghost predicate Valid()
      reads this
    {
      Tree(nodes, ino) && Stocked(Book())
    }

    ghost function Map(index: nat): U32
      requires index < MAX_BLOCKS
      reads this
    {
      LpaOf(nodes, ino, index)
    }

    constructor (ino: U32, nodes: map<U32, Node>, supply: seq<U32>, faulty: bool)
      requires Tree(nodes, ino) && Stocked(NodeBook(nodes, {}, supply))
      ensures Valid() && this.ino == ino && Book() == NodeBook(nodes, {}, supply) && this.faulty == faulty
    {
      this.ino, this.nodes, dirty, this.supply, this.faulty := ino, nodes, {}, supply, faulty;
    }

    /** rtfsFileResolveDataLpaByBlockIndex. Loading a node may fail. */
    method ResolveDataLpa(index: nat) returns (err: Errno, lpa: U32)
      requires Valid()
      ensures err == Ok && index < MAX_BLOCKS ==> lpa == Map(index)
      ensures err in {Ok, EIO, ENOSYS} && (err == ENOSYS <==> index >= MAX_BLOCKS) && (err == EIO ==> faulty)
    {
      if index >= MAX_BLOCKS { return ENOSYS, INVALID_LPA; }
      hide PathOf;
      var path, k, n := PathOf(index), 0, ino;
      while k < |path.hops|
        invariant k <= |path.hops| && n in nodes && Walk(nodes, ino, path.hops[..k]) == Some(n)
        invariant path == PathOf(index)
      {
        PathShape(index, k + 1);
        assert path.hops[..k + 1][..k] == path.hops[..k];
        if nodes[n][path.hops[k]] == INVALID_NID {
          NoFurther(nodes, ino, path.hops, k);
          return Ok, INVALID_LPA;
        }
        var readable: bool := *;
        if faulty && !readable { return EIO, INVALID_LPA; }
        n, k := nodes[n][path.hops[k]], k + 1;
      }
      assert path.hops[..k] == path.hops;
      err, lpa := Ok, nodes[n][path.leaf];
    }

    /** One hop on the way to a block number's leaf: the node behind the hop word, which is created if
        need be, or none if the way ends in a hole. */
    method Hop(index: nat, k: nat, n: U32, newLpa: U32, create: bool) returns (err: Errno, next: U32)
      requires Valid() && index < MAX_BLOCKS && k < |PathOf(index).hops|
      requires n in nodes && Walk(nodes, ino, PathOf(index).hops[..k]) == Some(n)
      modifies this
      ensures Valid() && Extended(old(Book()), Book(), ino, 1)
      ensures err in {Ok, ENOENT, ENOSPC, EIO} && (newLpa == INVALID_LPA ==> err in {Ok, EIO})
      ensures (err == EIO ==> faulty) && (err == ENOSPC ==> supply == [])
      ensures err == Ok && next != INVALID_NID ==>
        next in nodes && Walk(nodes, ino, PathOf(index).hops[..k + 1]) == Some(next)
      ensures err == Ok && next == INVALID_NID ==> newLpa == INVALID_LPA && Map(index) == INVALID_LPA
      ensures err == ENOENT ==> !create && newLpa != INVALID_LPA && old(Map(index)) == INVALID_LPA
      ensures newLpa == INVALID_LPA ==> Book() == old(Book())
    {
      hide PathOf, Tree, Position, LeafWord, Grown, LpaOf, Drawn, Stocked;
      ExtendedSame(Book(), ino, 1);
      var hops := PathOf(index).hops;
      PathShape(index, k);
      PathShape(index, k + 1);
      var word := hops[k];
      assert hops[..k + 1] == hops[..k] + [word];
      if nodes[n][word] == INVALID_NID {
        HoleBehind(nodes, ino, index, k, n);
        if newLpa == INVALID_LPA { return Ok, INVALID_NID; }
        if !create { return ENOENT, INVALID_NID; }
        ghost var nodes0, dirty0 := nodes, dirty;
        err, next := CreateNode(hops[..k], n, word);
        assert forall j | 0 <= j < MAX_BLOCKS :: Map(j) == LpaOf(nodes, ino, j) && old(Map(j)) == LpaOf(nodes0, ino, j);
        GrownBy(nodes0, dirty0, nodes, dirty, ino, n, next);
      } else {
        var readable: bool := *;
        if faulty && !readable { return EIO, INVALID_NID; }
        WalkOn(nodes, ino, hops[..k], n, word);
        err, next := Ok, nodes[n][word];
      }
    }

    /** The way to a block number's leaf, hop by hop: its last node, or none if the way ends in a hole. */
    method LeafNode(index: nat, newLpa: U32, create: bool) returns (err: Errno, n: U32)
      requires Valid() && index < MAX_BLOCKS
      modifies this
      ensures Valid() && Extended(old(Book()), Book(), ino, 3)
      ensures err in {Ok, ENOENT, ENOSPC, EIO} && (newLpa == INVALID_LPA ==> err in {Ok, EIO})
      ensures (err == EIO ==> faulty) && (err == ENOSPC ==> supply == [])
      ensures err == Ok && n != INVALID_NID ==> n in nodes && Walk(nodes, ino, PathOf(index).hops) == Some(n)
      ensures err == Ok && n == INVALID_NID ==> newLpa == INVALID_LPA && old(Map(index)) == INVALID_LPA
      ensures err == ENOENT ==> !create && newLpa != INVALID_LPA && old(Map(index)) == INVALID_LPA
      ensures newLpa == INVALID_LPA ==> Book() == old(Book())
    {
      RootIsThere(nodes, ino);
      ThreeHops(index);
      hide PathOf, Tree, Position, LeafWord, LpaOf, Walk, FileNodes.Valid, Extended;
      WalkNone(nodes, ino, PathOf(index).hops);
      ghost var book := Book();
      ExtendedSame(book, ino, 0);
      var path, k := PathOf(index), 0;
      err, n := Ok, ino;
      while k < |path.hops|
        invariant k <= |path.hops| && path == PathOf(index) && err == Ok && n != INVALID_NID
        invariant Valid() && n in nodes && Walk(nodes, ino, path.hops[..k]) == Some(n)
        invariant Extended(book, Book(), ino, k) && (newLpa == INVALID_LPA ==> Book() == book)
      {
        ghost var now := Book();
        ExtendedAt(book, now, ino, k, index);
        err, n := Hop(index, k, n, newLpa, create);
        ExtendedChain(book, now, Book(), ino, k, 1, k + 1);
        ExtendedMore(book, Book(), ino, k + 1, 3);
        if err != Ok || n == INVALID_NID { return; }
        k := k + 1;
      }
      assert path.hops[..k] == path.hops;
      ExtendedMore(book, Book(), ino, k, 3);
    }

    /** rtfsFileSetDataLpaByBlockIndex, its four tiers taken hop by hop. Exactly one block number is
        remapped, and none if the call fails, though nodes created on the way stay in the tree. */
    method SetDataLpa(index: nat, newLpa: U32, create: bool) returns (err: Errno, oldLpa: U32)
      requires Valid()
      modifies this
      ensures Valid() && Touched(old(Book()), Book(), 3)
      ensures err in {Ok, EIO, ENOSPC, ENOSYS, ENOENT} && (index >= MAX_BLOCKS <==> err == ENOSYS)
      ensures (err == EIO ==> faulty) && (err == ENOSPC ==> newLpa != INVALID_LPA && supply == [])
      ensures err == ENOENT ==> !create && newLpa != INVALID_LPA && old(Map(index)) == INVALID_LPA
      ensures err == Ok ==> oldLpa == old(Map(index)) && Map(index) == newLpa
      ensures forall j :: 0 <= j < MAX_BLOCKS && (j != index || err != Ok) ==> Map(j) == old(Map(j))
      ensures err == Ok && oldLpa == newLpa == INVALID_LPA ==> nodes == old(nodes) && dirty == old(dirty)
      ensures newLpa == INVALID_LPA ==> nodes.Keys == old(nodes).Keys && supply == old(supply)
    {
      TouchedSame(Book(), 3);
      if index >= MAX_BLOCKS { return ENOSYS, INVALID_LPA; }
      hide PathOf, Tree, Position, LeafWord, LpaOf, Grown, Walk, Drawn, Touched, Stocked;
      var n;
      err, n := LeafNode(index, newLpa, create);
      GrownMeans(old(nodes), old(dirty), nodes, dirty, ino);
      GrownTouched(old(Book()), Book(), ino, 3);
      if err != Ok || n == INVALID_NID { return err, INVALID_LPA; }
      PathShape(index, 0);
      AddressIs(nodes, ino, index, n);
      oldLpa := nodes[n][PathOf(index).leaf];
      if oldLpa != newLpa {
        PutAddress(nodes, ino, index, n, newLpa);
        TouchedPut(old(Book()), Book(), n, PathOf(index).leaf, newLpa, 3);
        StockedPut(Book(), n, PathOf(index).leaf, newLpa);
        nodes, dirty := Put(nodes, n, PathOf(index).leaf, newLpa), dirty + {n};
      }
    }

    /** nodeBlockCacheGetAndClearDirtyList, once the nodes have been written. */
    method ClearDirty()
      requires Valid()
      modifies this`dirty
      ensures Valid() && dirty == {}
    {
      dirty := {};
    }

    /** A metadata word of the inode changes. */
    method SetMetadata(word: nat, v: U32)
      requires Valid() && word < WORD_ADDR
      modifies this
      ensures Valid() && nodes == Put(old(nodes), ino, word, v) && dirty == old(dirty) + {ino} && supply == old(supply)
      ensures forall j :: 0 <= j < MAX_BLOCKS ==> Map(j) == old(Map(j))
    {
      PutMetadata(nodes, ino, word, v);
      nodes, dirty := Put(nodes, ino, word, v), dirty + {ino};
    }

    /** nodeBlockCacheHelperCreateNodeEntry: a node with the next nid is hung into the free word; it
        fails exactly if the allocator has no more nids to hand out. */
    method CreateNode(at: seq<nat>, n: U32, word: nat) returns (err: Errno, nid: U32)
      requires Valid() && Position(at) && Walk(nodes, ino, at) == Some(n) && n in nodes
      requires word < WORDS_PER_NODE && Position(at + [word]) && nodes[n][word] == INVALID_NID
      modifies this
      ensures Valid() && (err == Ok || err == ENOSPC) && (err == ENOSPC <==> old(supply) == [])
      ensures Drawn(old(Book()), Book(), 1) && (err != Ok ==> Book() == old(Book()))
      ensures err == Ok ==>
        && nid == old(supply)[0] && supply == old(supply)[1..]
        && nid !in old(nodes) && nid in nodes && Walk(nodes, ino, at + [word]) == Some(nid)
        && nodes.Keys == old(nodes).Keys + {nid} && dirty == old(dirty) + {n, nid}
        && forall m :: m in old(nodes) && m != n ==> nodes[m] == old(nodes)[m]
      ensures forall j :: 0 <= j < MAX_BLOCKS ==> Map(j) == old(Map(j))
    {
      DrawnSame(Book(), Book(), 1);
      if supply == [] { return ENOSPC, INVALID_NID; }
      nid := supply[0];
      ghost var book := Book();
      assert nid in supply;
      RootIsThere(nodes, ino);
      hide PathOf, Tree, Position, Walk, LpaOf, FooterOffset, Hang, Drawn;
      var empty := FooterOf(EmptyNode(), nid, ino, FooterOffset(at + [word]));
      HangFacts(nodes, ino, at, n, word, nid, empty);
      nodes, dirty, supply := Hang(nodes, n, word, nid, empty), dirty + {n, nid}, supply[1..];
      DrawOne(book, Book());
      err := Ok;
    }
  }

  /** Where a hop leads nowhere the whole subtree is a hole. */
  lemma {:induction false} NoFurther(nodes: map<U32, Node>, ino: U32, h: seq<nat>, k: nat)
    requires k < |h| && (Walk(nodes, ino, h[..k]).None? || (
               var n := Walk(nodes, ino, h[..k]).value;
                 n in nodes && (h[k] < NODE_WORDS ==> nodes[n][h[k]] == INVALID_NID)))
    ensures Walk(nodes, ino, h) == None
    decreases |h|
  {
    if k == |h| - 1 {
    } else {
      assert h[..|h| - 1][..k] == h[..k];
      NoFurther(nodes, ino, h[..|h| - 1], k);
    }
  }
}
