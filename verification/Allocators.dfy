/** The allocators of the super manager (src/fs/super_manager.c): LPAs by bump allocation in segments
    taken from a chain through the SIT, and nids from a chain through the NAT. */
module Allocators {
  import opened Wrappers
  import opened Bytes
  import opened SegmentInfo

  // ---- Segments and LPAs ----

  /** chain lists count segments, first first, each leading to the next through its SIT word. */
  ghost predicate Chain(cells: seq<Cell>, first: nat, chain: seq<nat>)
    decreases |chain|
  {
    chain == [] || (
      && chain[0] == first && first < |cells| && first !in chain[1..]
      && Chain(cells, Next(cells[first].word), chain[1..]))
  }

  lemma {:induction false} ChainKept(cells: seq<Cell>, cells': seq<Cell>, first: nat, chain: seq<nat>)
    requires Chain(cells, first, chain) && |cells'| == |cells|
    requires forall s :: 0 <= s < |cells| ==> Next(cells'[s].word) == Next(cells[s].word)
    ensures Chain(cells', first, chain)
    decreases |chain|
  {
    if chain != [] { ChainKept(cells, cells', Next(cells[first].word), chain[1..]); }
  }

  /** Where one kind of block (node or data) is allocated next. */
  datatype Cursor = Cursor(seg: nat, off: nat)

  /** Block l may still be handed out: it lies in a free segment or ahead of a cursor. */
  ghost predicate Ahead(chain: seq<nat>, node: Cursor, data: Cursor, l: nat) {
    var seg, off := l / BLOCKS_PER_SEGMENT, l % BLOCKS_PER_SEGMENT;
    seg in chain || (seg == node.seg && off >= node.off) || (seg == data.seg && off >= data.off)
  }

  /** The free segments and the two open segments are different segments of the main area. */
  ghost predicate Apart(segments: nat, mainSegment: nat, chain: seq<nat>, node: Cursor, data: Cursor) {
    && 0 < mainSegment && (forall s :: s in chain ==> mainSegment <= s < segments && s != node.seg && s != data.seg)
    && mainSegment <= node.seg < segments && mainSegment <= data.seg < segments && node.seg != data.seg
    && node.off <= BLOCKS_PER_SEGMENT && data.off <= BLOCKS_PER_SEGMENT
  }

  /** What may still be handed out is marked invalid and was not handed out before. */
  ghost predicate Unspent(cells: seq<Cell>, chain: seq<nat>, node: Cursor, data: Cursor, handed: set<nat>) {
    forall l: nat :: Ahead(chain, node, data, l) ==> !Valid(cells, l) && l !in handed
  }

  /** Of what could be handed out before, exactly the given blocks no longer can. */
  ghost predicate Given(chain: seq<nat>, node: Cursor, data: Cursor, chain': seq<nat>, node': Cursor, data': Cursor,
                        given: set<nat>) {
    && (forall l :: l in given ==> Ahead(chain, node, data, l))
    && forall l: nat :: Ahead(chain', node', data', l) <==> Ahead(chain, node, data, l) && l !in given
  }

  /** How many of the requested blocks the open segment can take from off on. */
  function Room(off: nat, requested: nat): nat
    requires off <= BLOCKS_PER_SEGMENT
  {
    if BLOCKS_PER_SEGMENT - off > requested then requested else BLOCKS_PER_SEGMENT - off
  }

  function Range(start: nat, count: nat): (r: set<nat>)
    ensures forall l :: l in r <==> start <= l < start + count
    decreases count
  {
    if count == 0 then {} else Range(start, count - 1) + {start + count - 1}
  }

  class LpaAllocator {
    const sit: SitTable
    const segments: nat          // the segments of the device
    const mainSegment: nat       // the first segment of the main area
    var firstFree: nat
    var freeCount: nat
    var node: Cursor
    var data: Cursor
    ghost var chain: seq<nat>    // the free segments
    ghost var handed: set<nat>   // every LPA handed out so far

    ghost predicate Ok()
      reads this, sit
    {
      && sit.Ok() && |chain| == freeCount && Chain(sit.cells, firstFree, chain)
      && segments <= |sit.cells| && Apart(segments, mainSegment, chain, node, data)
      && Unspent(sit.cells, chain, node, data, handed)
      && forall l :: l in handed ==> mainSegment <= l / BLOCKS_PER_SEGMENT < segments
    }

    constructor (sit: SitTable, segments: nat, mainSegment: nat, firstFree: nat, freeCount: nat, node: Cursor,
                 data: Cursor,
                 ghost chain: seq<nat>, ghost handed: set<nat>)
      requires sit.Ok() && |chain| == freeCount && Chain(sit.cells, firstFree, chain)
      requires segments <= |sit.cells| && Apart(segments, mainSegment, chain, node, data) &&
        Unspent(sit.cells, chain, node, data, handed)
      requires forall l :: l in handed ==> mainSegment <= l / BLOCKS_PER_SEGMENT < segments
      ensures Ok() && this.sit == sit && this.chain == chain && this.handed == handed && this.mainSegment == mainSegment
      ensures this.node == node && this.data == data && this.segments == segments
    {
      this.sit, this.segments, this.mainSegment, this.firstFree, this.freeCount := sit, segments, mainSegment,
        firstFree, freeCount;
      this.node, this.data, this.chain, this.handed := node, data, chain, handed;
    }

    /** superManagerAllocSegment and the switch of a full cursor to the new segment. */
    method OpenSegment(isNode: bool) returns (ok: bool)
      requires Ok() && (if isNode then node.off else data.off) == BLOCKS_PER_SEGMENT
      modifies this`firstFree, this`freeCount, this`chain, this`node, this`data
      ensures Ok() && (ok <==> old(freeCount) > 0)
      ensures !ok ==> freeCount == 0 && node == old(node) && data == old(data)
      ensures ok ==> freeCount == old(freeCount) - 1 && (if isNode then node else data) == Cursor(old(firstFree), 0)
      ensures Given(old(chain), old(node), old(data), chain, node, data, {})
    {
      NothingGiven(chain, node, data);
      if freeCount == 0 { return false; }
      var seg := firstFree;
      ghost var chain0, node0, data0 := chain, node, data;
      firstFree, freeCount, chain := Next(sit.cells[seg].word), freeCount - 1, chain[1..];
      OpeningKeepsAhead(sit.cells, segments, mainSegment, seg, chain0, node0, data0, isNode);
      if isNode { node := Cursor(seg, 0); } else { data := Cursor(seg, 0); }
      ok := true;
    }

    /** The cursor has room: take the next blocks of its segment. */
    method AllocFromCursor(isNode: bool, requested: nat) returns (lpa: nat, count: nat)
      requires Ok() && requested > 0 && (if isNode then node.off else data.off) < BLOCKS_PER_SEGMENT
      modifies this`node, this`data, this`handed, sit
      ensures Ok() && 0 < count <= requested && handed == old(handed) + Range(lpa, count)
      ensures var cur := if isNode then old(node) else old(data);
        lpa == cur.seg * BLOCKS_PER_SEGMENT + cur.off && count == Room(cur.off, requested)
      ensures lpa % BLOCKS_PER_SEGMENT + count <= BLOCKS_PER_SEGMENT &&
        mainSegment <= lpa / BLOCKS_PER_SEGMENT < segments
      ensures forall l: nat :: lpa <= l < lpa + count ==> !Valid(old(sit.cells), l) && l !in old(handed)
      ensures Marked(old(sit.cells), sit.cells, lpa, lpa + count, true)
      ensures Given(old(chain), old(node), old(data), chain, node, data, Range(lpa, count))
    {
      hide Chain, Apart, Unspent, Marked, Valid, Ahead, Range, Given;
      var cur := if isNode then node else data;
      CursorInside(segments, mainSegment, chain, node, data, isNode);
      count := Room(cur.off, requested);
      lpa := cur.seg * BLOCKS_PER_SEGMENT + cur.off;
      RunIsAhead(chain, node, data, isNode, count);
      UnspentAt(sit.cells, chain, node, data, handed);
      ghost var cells, node0, data0 := sit.cells, node, data;
      if isNode { node := Cursor(cur.seg, cur.off + count); } else { data := Cursor(cur.seg, cur.off + count); }
      sit.ChangeRange(lpa, count, true);
      SpendKeeps(cells, sit.cells, segments, mainSegment, firstFree, chain, node0, data0, handed, isNode, count);
      HandedInside(lpa, count, handed, mainSegment, segments);
      SameSize(cells, sit.cells, lpa, lpa + count, true);
      RunIsGiven(segments, mainSegment, chain, node0, data0, isNode, count);
      handed := handed + Range(lpa, count);
    }

    /** superManagerAllocLpaRangeInner: the blocks lie in one segment of the main area, were marked
        invalid, and none of them was ever handed out before; they are the next of the open segment, or
        the first of the first free one if that is full, as many as requested or as it has. It fails only
        when the open segment is full and no segment is free. */
    method AllocRange(isNode: bool, requested: nat) returns (lpa: nat, count: nat)
      requires Ok()
      modifies this, sit
      ensures Ok() && count <= requested && handed == old(handed) + Range(lpa, count)
      ensures count == 0 <==>
        requested == 0 || ((if isNode then old(node).off else old(data).off) == BLOCKS_PER_SEGMENT &&
          old(freeCount) == 0)
      ensures count == 0 ==> lpa == 0 && sit.cells == old(sit.cells)
      ensures count > 0 ==>
        var cur := if isNode then old(node) else old(data);
        var from := if cur.off == BLOCKS_PER_SEGMENT then Cursor(old(firstFree), 0) else cur;
        lpa == from.seg * BLOCKS_PER_SEGMENT + from.off && count == Room(from.off, requested)
      ensures count > 0 ==>
        && lpa % BLOCKS_PER_SEGMENT + count <= BLOCKS_PER_SEGMENT && mainSegment <= lpa / BLOCKS_PER_SEGMENT < segments
        && (forall l: nat :: lpa <= l < lpa + count ==> !Valid(old(sit.cells), l) && l !in old(handed))
        && Marked(old(sit.cells), sit.cells, lpa, lpa + count, true)
      ensures Given(old(chain), old(node), old(data), chain, node, data, Range(lpa, count))
    {
      hide Chain, Unspent, Marked, Valid, Given, Ahead;
      NothingGiven(chain, node, data);
      lpa, count := 0, 0;
      if requested == 0 { return; }
      if (if isNode then node.off else data.off) >= BLOCKS_PER_SEGMENT {
        var ok := OpenSegment(isNode);
        if !ok { return; }
      }
      ghost var chain1, node1, data1 := chain, node, data;
      lpa, count := AllocFromCursor(isNode, requested);
      GivenChain(old(chain), old(node), old(data), chain1, node1, data1, chain, node, data, Range(lpa, count));
    }

    /** A reclaimed block is marked invalid; it is not handed out again. */
    method Invalidate(lpa: nat)
      requires Ok() && lpa in handed && lpa != 0 && Valid(sit.cells, lpa)
      modifies sit
      ensures Ok() && Marked(old(sit.cells), sit.cells, lpa, lpa + 1, false)
    {
      ghost var cells := sit.cells;
      hide Chain, Apart, Unspent;
      sit.ChangeRange(lpa, 1, false);
      ChainKept(cells, sit.cells, firstFree, chain);
      InvalidateKeeps(cells, sit.cells, chain, node, data, handed, lpa, mainSegment);
    }
  }

  /** Opening the first free segment only moves its blocks from the chain to a cursor. */
  lemma OpeningKeepsAhead(cells: seq<Cell>, segments: nat, mainSegment: nat, firstFree: nat, chain: seq<nat>,
                          node: Cursor, data: Cursor, isNode: bool)
    requires chain != [] && Chain(cells, firstFree, chain) && Apart(segments, mainSegment, chain, node, data)
    requires (if isNode then node.off else data.off) == BLOCKS_PER_SEGMENT
    ensures firstFree < |cells| && Chain(cells, Next(cells[firstFree].word), chain[1..])
    ensures var node', data' := if isNode then Cursor(firstFree, 0) else node, if isNode then data
      else Cursor(firstFree, 0);
      && Apart(segments, mainSegment, chain[1..], node', data')
      && Given(chain, node, data, chain[1..], node', data', {})
  {
    assert chain == [firstFree] + chain[1..];
    assert chain[0] in chain;
    assert forall s :: s in chain[1..] ==> s in chain;
  }

  lemma SameSize(before: seq<Cell>, after: seq<Cell>, start: nat, end: nat, valid: bool)
    requires Marked(before, after, start, end, valid)
    ensures |after| == |before|
  {
  }

  lemma CursorInside(segments: nat, mainSegment: nat, chain: seq<nat>, node: Cursor, data: Cursor, isNode: bool)
    requires Apart(segments, mainSegment, chain, node, data)
    ensures var cur := if isNode then node else data;
      0 < mainSegment <= cur.seg < segments && cur.off <= BLOCKS_PER_SEGMENT
  {
  }

  /** The blocks from a cursor on are ahead of it. */
  lemma RunIsAhead(chain: seq<nat>, node: Cursor, data: Cursor, isNode: bool, count: nat)
    requires (if isNode then node else data).off + count <= BLOCKS_PER_SEGMENT
    ensures var cur := if isNode then node else data; var lpa := cur.seg * BLOCKS_PER_SEGMENT + cur.off;
      && (forall l: nat :: lpa <= l < lpa + count ==> Ahead(chain, node, data, l))
      && (count > 0 ==>
        lpa / BLOCKS_PER_SEGMENT == cur.seg && (lpa + count - 1) / BLOCKS_PER_SEGMENT == cur.seg &&
          lpa % BLOCKS_PER_SEGMENT == cur.off)
  {
  }

  lemma NothingGiven(chain: seq<nat>, node: Cursor, data: Cursor)
    ensures Given(chain, node, data, chain, node, data, {})
  {
  }

  lemma GivenChain(a: seq<nat>, nodeA: Cursor, dataA: Cursor, b: seq<nat>, nodeB: Cursor, dataB: Cursor,
                   c: seq<nat>, nodeC: Cursor, dataC: Cursor, given: set<nat>)
    requires Given(a, nodeA, dataA, b, nodeB, dataB, {}) && Given(b, nodeB, dataB, c, nodeC, dataC, given)
    ensures Given(a, nodeA, dataA, c, nodeC, dataC, given)
  {
    hide Ahead;
  }

  /** Moving a cursor gives away exactly the blocks it moves past. */
  lemma RunIsGiven(segments: nat, mainSegment: nat, chain: seq<nat>, node: Cursor, data: Cursor, isNode: bool,
                   count: nat)
    requires Apart(segments, mainSegment, chain, node, data)
    requires var cur := if isNode then node
      else data; cur.off < BLOCKS_PER_SEGMENT && cur.off + count <= BLOCKS_PER_SEGMENT
    ensures var cur := if isNode then node else data;
      var node', data' := if isNode then Cursor(cur.seg, cur.off + count) else node, if isNode then data
        else Cursor(cur.seg, cur.off + count);
      Given(chain, node, data, chain, node', data', Range(cur.seg * BLOCKS_PER_SEGMENT + cur.off, count))
  {
    var cur := if isNode then node else data;
    var lpa := cur.seg * BLOCKS_PER_SEGMENT + cur.off;
    RunIsAhead(chain, node, data, isNode, count);
    var node', data' := if isNode then Cursor(cur.seg, cur.off + count) else node, if isNode then data
      else Cursor(cur.seg, cur.off + count);
    forall l: nat
      ensures Ahead(chain, node', data', l) <==> Ahead(chain, node, data, l) && l !in Range(lpa, count)
    {
      WhereInSegment(cur, count, l);
    }
  }

  lemma WhereInSegment(cur: Cursor, count: nat, l: nat)
    requires cur.off < BLOCKS_PER_SEGMENT && cur.off + count <= BLOCKS_PER_SEGMENT
    ensures var lpa := cur.seg * BLOCKS_PER_SEGMENT + cur.off;
      lpa <= l < lpa + count <==>
        l / BLOCKS_PER_SEGMENT == cur.seg && cur.off <= l % BLOCKS_PER_SEGMENT < cur.off + count
  {
  }

  lemma UnspentAt(cells: seq<Cell>, chain: seq<nat>, node: Cursor, data: Cursor, handed: set<nat>)
    requires Unspent(cells, chain, node, data, handed)
    ensures forall l: nat :: Ahead(chain, node, data, l) ==> !Valid(cells, l) && l !in handed
  {
  }

  lemma HandedInside(lpa: nat, count: nat, handed: set<nat>, mainSegment: nat, segments: nat)
    requires lpa % BLOCKS_PER_SEGMENT + count <= BLOCKS_PER_SEGMENT &&
      mainSegment <= lpa / BLOCKS_PER_SEGMENT < segments
    requires forall l :: l in handed ==> mainSegment <= l / BLOCKS_PER_SEGMENT < segments
    ensures forall l :: l in handed + Range(lpa, count) ==> mainSegment <= l / BLOCKS_PER_SEGMENT < segments
  {
    forall l | l in Range(lpa, count)
      ensures l / BLOCKS_PER_SEGMENT == lpa / BLOCKS_PER_SEGMENT { SameSegment(l, lpa, count); }
  }

  /** Moving a cursor past the blocks it has handed out keeps the books. */
  lemma SpendKeeps(cells: seq<Cell>, cells': seq<Cell>, segments: nat, mainSegment: nat, firstFree: nat,
                   chain: seq<nat>,
                   node: Cursor, data: Cursor, handed: set<nat>, isNode: bool, count: nat)
    requires segments <= |cells| && Chain(cells, firstFree, chain) && Apart(segments, mainSegment, chain, node, data)
    requires Unspent(cells, chain, node, data, handed) &&
      (if isNode then node else data).off + count <= BLOCKS_PER_SEGMENT
    requires var cur := if isNode then node else data; var lpa := cur.seg * BLOCKS_PER_SEGMENT + cur.off;
      Marked(cells, cells', lpa, lpa + count, true)
    ensures var cur := if isNode then node else data; var lpa := cur.seg * BLOCKS_PER_SEGMENT + cur.off;
      var node', data' := if isNode then Cursor(cur.seg, cur.off + count) else node, if isNode then data
        else Cursor(cur.seg, cur.off + count);
      && Chain(cells', firstFree, chain) && Apart(segments, mainSegment, chain, node', data')
      && Unspent(cells', chain, node', data', handed + Range(lpa, count))
  {
    var cur := if isNode then node else data;
    var lpa := cur.seg * BLOCKS_PER_SEGMENT + cur.off;
    var node', data' := if isNode then Cursor(cur.seg, cur.off + count) else node, if isNode then data
      else Cursor(cur.seg, cur.off + count);
    ChainKept(cells, cells', firstFree, chain);
    forall l: nat | Ahead(chain, node', data', l) ensures !Valid(cells', l) && l !in handed + Range(lpa, count) {
      assert Ahead(chain, node, data, l);
      SameSegment(l, lpa, count);
      assert lpa / BLOCKS_PER_SEGMENT == cur.seg || cur.off == BLOCKS_PER_SEGMENT;
      assert !(lpa <= l < lpa + count);
      if l / BLOCKS_PER_SEGMENT < |cells| { assert Valid(cells', l) == Valid(cells, l); }
    }
  }

  lemma InvalidateKeeps(cells: seq<Cell>, cells': seq<Cell>, chain: seq<nat>, node: Cursor, data: Cursor,
                        handed: set<nat>,
                        lpa: nat, mainSegment: nat)
    requires Unspent(cells, chain, node, data, handed) && Marked(cells, cells', lpa, lpa + 1, false)
    ensures Unspent(cells', chain, node, data, handed)
  {
    forall l: nat | Ahead(chain, node, data, l) ensures !Valid(cells', l) {
      if l / BLOCKS_PER_SEGMENT < |cells|
        { assert Valid(cells', l) == if lpa <= l < lpa + 1 then false else Valid(cells, l); }
    }
  }

  // ---- Nids ----

  /** A NAT entry: the owner, and the block address or, in a free entry, the next free nid. */
  datatype NatCell = NatCell(ino: nat, addr: nat)

  /** free lists the free nids from first on: each entry has no owner and leads to the next, the last
      to INVALID_NID. */
  ghost predicate FreeNids(nat': seq<NatCell>, first: nat, free: seq<nat>)
    decreases |free|
  {
    if free == [] then first == 0
    else
      && free[0] == first && 0 < first < |nat'| && nat'[first].ino == 0 && first !in free[1..]
      && FreeNids(nat', nat'[first].addr, free[1..])
  }

  lemma {:induction false} FreeNidsKept(nat': seq<NatCell>, nat'': seq<NatCell>, first: nat, free: seq<nat>)
    requires FreeNids(nat', first, free) && |nat''| == |nat'| && forall n :: n in free && n < |nat'| ==>
      nat''[n] == nat'[n]
    ensures FreeNids(nat'', first, free)
    decreases |free|
  {
    if free != [] {
      assert free[0] in free && forall n :: n in free[1..] ==> n in free;
      FreeNidsKept(nat', nat'', nat'[first].addr, free[1..]);
    }
  }

  /** A chain has no nid twice, so it cannot be longer than the table has usable entries. */
  lemma FreeNidsBounds(nat': seq<NatCell>, first: nat, free: seq<nat>)
    requires FreeNids(nat', first, free) && nat' != []
    ensures (forall n :: n in free ==> 0 < n < |nat'|) && |free| < |nat'|
  {
    FreeNidsDistinct(nat', first, free);
    DistinctSize(free);
    RangeSize(1, |nat'| - 1);
    assert forall n :: n in Elements(free) <==> n in free;
    SubsetSize(Elements(free), Range(1, |nat'| - 1));
  }

  lemma {:induction false} RangeSize(start: nat, count: nat)
    ensures |Range(start, count)| == count
    decreases count
  {
    if count > 0 { RangeSize(start, count - 1); }
  }

  lemma {:induction false} FreeNidsDistinct(nat': seq<NatCell>, first: nat, free: seq<nat>)
    requires FreeNids(nat', first, free)
    ensures Distinct(free) && forall n :: n in free ==> 0 < n < |nat'|
    decreases |free|
  {
    if free != [] {
      FreeNidsDistinct(nat', nat'[first].addr, free[1..]);
      assert free == [first] + free[1..];
      forall j | 0 < j < |free| ensures free[j] != free[0] { assert free[j] == free[1..][j - 1]; }
    }
  }

  class NidAllocator {
    var table: seq<NatCell>
    var nextFree: nat
    ghost var free: seq<nat>   // the free nids in the order of the chain
    ghost var live: set<nat>   // the nids in use

    ghost predicate Ok()
      reads this
    {
      && FreeNids(table, nextFree, free) && free != []
      && (forall n :: n in live ==> 0 < n < |table| && n !in free)
    }

    constructor (table: seq<NatCell>, nextFree: nat, ghost free: seq<nat>, ghost live: set<nat>)
      requires FreeNids(table, nextFree, free) && free != [] && forall n :: n in live ==> 0 < n < |table| && n !in free
      ensures Ok() && this.free == free && this.live == live && this.table == table
    {
      this.table, this.nextFree, this.free, this.live := table, nextFree, free, live;
    }

    /** superManagerAllocNid: the first free nid becomes live, with its owner set and no block yet. The
        last link of the chain is never handed out, so the chain never becomes empty. */
    method AllocNid(ino: nat, isInode: bool) returns (nid: nat)
      requires Ok()
      modifies this
      ensures Ok() && (nid == 0 <==> |old(free)| == 1) && |live| + |free| == old(|live| + |free|)
      ensures nid == 0 ==> table == old(table) && free == old(free) && live == old(live)
      ensures nid != 0 ==>
        && nid == old(free)[0] && nid !in old(live) && live == old(live) + {nid} && free == old(free)[1..]
        && table == old(table)[nid := NatCell(if isInode then nid else ino, 0)]
    {
      LastLink(table, nextFree, free);
      nid := nextFree;
      if nid == 0 || table[nid].addr == 0 { return 0; }
      var next := table[nid].addr;
      ghost var before := table;
      table := table[nid := NatCell(if isInode then nid else ino, 0)];
      FreeNidsKept(before, table, next, free[1..]);
      nextFree, free, live := next, free[1..], live + {nid};
    }

    /** superManagerFreeNid: a live nid becomes the first of the chain. */
    method FreeNid(nid: nat)
      requires Ok() && nid in live
      modifies this
      ensures Ok() && free == [nid] + old(free) && live == old(live) - {nid} && |live| + |free| == old(|live| + |free|)
      ensures table == old(table)[nid := NatCell(0, old(nextFree))]
    {
      ghost var before := table;
      table := table[nid := NatCell(0, nextFree)];
      FreeNidsKept(before, table, nextFree, free);
      nextFree, free, live := nid, [nid] + free, live - {nid};
      assert free[1..] == old(free);
    }

    /** natSetLpaOfNid: a live node moves; the chain does not notice. */
    method SetLpa(nid: nat, lpa: nat)
      requires Ok() && nid in live
      modifies this`table
      ensures Ok() && table == old(table)[nid := NatCell(old(table)[nid].ino, lpa)]
    {
      ghost var before := table;
      table := table[nid := NatCell(table[nid].ino, lpa)];
      FreeNidsKept(before, table, nextFree, free);
    }

    /** rtfsStatvfsCountFreeNids walks the chain and counts exactly its length: neither of its guards
        against a broken chain stops it early. */
    method CountFreeNids() returns (count: nat)
      requires Ok()
      ensures count == |free|
    {
      FreeNidsBounds(table, nextFree, free);
      var totalSlots := |table| - 1;
      var current := nextFree;
      count := 0;
      while current != 0 && count < totalSlots
        invariant count <= |free| && FreeNids(table, current, free[count..])
        decreases |free| - count
      {
        if table[current].ino != 0 { break; }
        var next := table[current].addr;
        ghost var rest := free[count..];
        assert rest[1..] == free[count + 1..];
        count := count + 1;
        if next == current {
          NoSelfLoop(table, current, rest);
          break;
        }
        current := next;
      }
    }
  }

  lemma LastLink(nat': seq<NatCell>, first: nat, free: seq<nat>)
    requires FreeNids(nat', first, free) && free != []
    ensures 0 < first < |nat'| && (nat'[first].addr == 0 <==> |free| == 1)
  {
    if |free| > 1 { assert FreeNids(nat', nat'[first].addr, free[1..]); }
  }

  lemma NoSelfLoop(nat': seq<NatCell>, first: nat, free: seq<nat>)
    requires FreeNids(nat', first, free) && free != []
    ensures nat'[first].addr != first
  {
    if |free| > 1 { assert free[1..][0] in free[1..]; }
  }
}
