/** The segment information table (src/fs/sit_utils.c): per segment a validity bitmap and one packed
    word with a valid-block count in its low nine bits and the next segment of a chain above them. */
module SegmentInfo {
  import opened Bytes

  const BLOCKS_PER_SEGMENT: nat := 512
  const COUNT_LIMIT: nat := 511

  /** valid_map, bit by bit in order of the block offset. */
  type Bitmap = b: seq<bool> | |b| == BLOCKS_PER_SEGMENT witness seq(BLOCKS_PER_SEGMENT, _ => false)

  datatype Cell = Cell(word: U32, bits: Bitmap)

  /** GET_SIT_VBLOCKS and GET_NEXT_SEG */
  function Count(word: U32): nat {
    word % 512
  }

  function Next(word: U32): nat {
    word / 512
  }

  /** One turn of the bit loop: the bit changes, and the shared word is incremented or decremented. */
  function SetBit(c: Cell, i: nat, valid: bool): Cell
    requires i < BLOCKS_PER_SEGMENT
  {
    var word :=
      if valid then (if Count(c.word) < COUNT_LIMIT then c.word + 1 else c.word)
      else if Count(c.word) > 0 then c.word - 1 else c.word;
    Cell(word, c.bits[i := valid])
  }

  /** The bit loop over n blocks from offset off. */
  function SetBits(c: Cell, off: nat, n: nat, valid: bool): Cell
    requires off + n <= BLOCKS_PER_SEGMENT
    decreases n
  {
    if n == 0 then c else SetBit(SetBits(c, off, n - 1, valid), off + n - 1, valid)
  }

  /** Neither the increment nor the decrement ever reaches the next-segment bits. */
  lemma SetBitKeepsNext(c: Cell, i: nat, valid: bool)
    requires i < BLOCKS_PER_SEGMENT
    ensures Next(SetBit(c, i, valid).word) == Next(c.word)
    ensures Count(SetBit(c, i, valid).word) ==
      if valid then (if Count(c.word) < COUNT_LIMIT then Count(c.word) + 1 else Count(c.word))
      else if Count(c.word) > 0 then Count(c.word) - 1 else 0
  {
  }

  lemma {:induction false} SetBitsKeepNext(c: Cell, off: nat, n: nat, valid: bool)
    requires off + n <= BLOCKS_PER_SEGMENT
    ensures Next(SetBits(c, off, n, valid).word) == Next(c.word)
    decreases n
  {
    if n > 0 {
      SetBitsKeepNext(c, off, n - 1, valid);
      SetBitKeepsNext(SetBits(c, off, n - 1, valid), off + n - 1, valid);
    }
  }

  lemma {:induction false} SetBitsBits(c: Cell, off: nat, n: nat, valid: bool, i: nat)
    requires off + n <= BLOCKS_PER_SEGMENT && i < BLOCKS_PER_SEGMENT
    ensures SetBits(c, off, n, valid).bits[i] == if off <= i < off + n then valid else c.bits[i]
    decreases n
  {
    if n > 0 { SetBitsBits(c, off, n - 1, valid, i); }
  }

  // ---- The count and the bitmap ----

  function Population(bits: seq<bool>): (n: nat)
    ensures n <= |bits|
  {
    if bits == [] then 0 else Population(bits[..|bits| - 1]) + (if bits[|bits| - 1] then 1 else 0)
  }

  lemma {:induction false} PopulationUpdate(bits: seq<bool>, i: nat, v: bool)
    requires i < |bits|
    ensures Population(bits[i := v]) == Population(bits) + (if v then 1 else 0) - (if bits[i] then 1 else 0)
  {
    if i < |bits| - 1 {
      assert bits[i := v][..|bits| - 1] == bits[..|bits| - 1][i := v];
      PopulationUpdate(bits[..|bits| - 1], i, v);
    } else {
      assert bits[i := v][..|bits| - 1] == bits[..|bits| - 1];
    }
  }

  /** The count is the population of the bitmap or, if it lags, one less. */
  ghost predicate Tallied(c: Cell, lag: bool) {
    Count(c.word) + (if lag then 1 else 0) == Population(c.bits)
  }

  ghost predicate IsFull(c: Cell) {
    Population(c.bits) == BLOCKS_PER_SEGMENT
  }

  /** The count lags from the moment the segment is full until it is empty. */
  ghost predicate LagAfter(c: Cell, lag: bool) {
    IsFull(c) || (lag && Population(c.bits) != 0)
  }

  /** Validating a clear bit or invalidating a set one keeps the tally. */
  lemma SetBitKeepsTally(c: Cell, i: nat, valid: bool, lag: bool)
    requires i < BLOCKS_PER_SEGMENT && c.bits[i] != valid && Tallied(c, lag)
    ensures Tallied(SetBit(c, i, valid), LagAfter(SetBit(c, i, valid), lag))
  {
    SetBitKeepsNext(c, i, valid);
    PopulationUpdate(c.bits, i, valid);
  }

  /** So does the bit loop: whether the count lags depends only on where it ends and whether it lagged. */
  lemma {:induction false} SetBitsKeepTally(c: Cell, off: nat, n: nat, valid: bool, lag: bool)
    requires off + n <= BLOCKS_PER_SEGMENT && Tallied(c, lag)
    requires forall i :: off <= i < off + n ==> c.bits[i] != valid
    ensures Tallied(SetBits(c, off, n, valid), LagAfter(SetBits(c, off, n, valid), lag))
    decreases n
  {
    if n > 0 {
      SetBitsKeepTally(c, off, n - 1, valid, lag);
      var mid := SetBits(c, off, n - 1, valid);
      SetBitsBits(c, off, n - 1, valid, off + n - 1);
      if IsFull(mid) { FullHasNoClearBit(mid.bits, off + n - 1); }
      if Population(mid.bits) == 0 { EmptyHasNoSetBit(mid.bits, off + n - 1); }
      if n > 1 {
        SetBitsBits(c, off, n - 1, valid, off + n - 2);
        if IsFull(mid) { FullHasNoClearBit(mid.bits, off + n - 2); }
        if Population(mid.bits) == 0 { EmptyHasNoSetBit(mid.bits, off + n - 2); }
      }
      SetBitKeepsTally(mid, off + n - 1, valid, lag);
    }
  }

  /** The count is exact if and only if it does not lag; in a full segment it always does, in an empty
      one never. */
  lemma CountIsExactIff(c: Cell, lag: bool)
    requires Tallied(c, lag)
    ensures Count(c.word) == Population(c.bits) <==> !lag
    ensures IsFull(c) ==> lag && Count(c.word) == COUNT_LIMIT
    ensures Population(c.bits) == 0 ==> !lag
  {
  }

  /** The failing input: an empty segment is filled, which leaves the count one short; it stays short as
      blocks are given up, and is right again only when the last of them is. */
  lemma FullSegmentCountsShort(next: nat, i: nat)
    requires 512 * next < 0x1_0000_0000 && i < BLOCKS_PER_SEGMENT
    ensures var empty := Cell(512 * next, seq(BLOCKS_PER_SEGMENT, _ => false));
      var full := SetBits(empty, 0, BLOCKS_PER_SEGMENT, true);
      var less, none := SetBit(full, i, false), SetBits(full, 0, BLOCKS_PER_SEGMENT, false);
      && Population(full.bits) == 512 && Count(full.word) == 511
      && Population(less.bits) == 511 && Count(less.word) == 510
      && Population(none.bits) == 0 && Count(none.word) == 0
  {
    var n := BLOCKS_PER_SEGMENT;
    var empty := Cell(512 * next, seq(n, _ => false));
    var full := SetBits(empty, 0, n, true);
    AllAlike(empty.bits, false);
    SetBitsKeepTally(empty, 0, n, true, false);
    forall j | 0 <= j < n ensures full.bits[j] { SetBitsBits(empty, 0, n, true, j); }
    AllAlike(full.bits, true);
    SetBitKeepsTally(full, i, false, true);
    PopulationUpdate(full.bits, i, false);
    SetBitsKeepTally(full, 0, n, false, true);
    forall j | 0 <= j < n ensures !SetBits(full, 0, n, false).bits[j] { SetBitsBits(full, 0, n, false, j); }
    AllAlike(SetBits(full, 0, n, false).bits, false);
  }

  lemma {:induction false} AllAlike(bits: seq<bool>, v: bool)
    requires forall i :: 0 <= i < |bits| ==> bits[i] == v
    ensures Population(bits) == if v then |bits| else 0
  {
    if bits != [] { AllAlike(bits[..|bits| - 1], v); }
  }

  lemma {:induction false} EmptyHasNoSetBit(bits: seq<bool>, i: nat)
    requires i < |bits| && Population(bits) == 0
    ensures !bits[i]
  {
    if i < |bits| - 1 { EmptyHasNoSetBit(bits[..|bits| - 1], i); }
  }

  lemma {:induction false} FullHasNoClearBit(bits: seq<bool>, i: nat)
    requires i < |bits| && Population(bits) == |bits|
    ensures bits[i]
  {
    if i < |bits| - 1 { FullHasNoClearBit(bits[..|bits| - 1], i); }
  }

  // ---- The table ----

  datatype SitUpdate = SitUpdate(seg: nat, cell: Cell)

  /** Replaying journalled cells in order. */
  function Replay(cells: seq<Cell>, js: seq<SitUpdate>): (r: seq<Cell>)
    ensures |r| == |cells|
  {
    if js == [] then cells
    else
      var r, last := Replay(cells, js[..|js| - 1]), js[|js| - 1];
      if last.seg < |r| then r[last.seg := last.cell] else r
  }

  /** Block l is marked valid. */
  predicate Valid(cells: seq<Cell>, l: nat) {
    l / BLOCKS_PER_SEGMENT < |cells| && cells[l / BLOCKS_PER_SEGMENT].bits[l % BLOCKS_PER_SEGMENT]
  }

  /** The blocks from start to end have the given state, all others are as before; chains are kept. */
  ghost predicate Marked(before: seq<Cell>, after: seq<Cell>, start: nat, end: nat, valid: bool) {
    && |after| == |before| && (forall s :: 0 <= s < |before| ==> Next(after[s].word) == Next(before[s].word))
    && forall l: nat :: l / BLOCKS_PER_SEGMENT < |before| ==>
         Valid(after, l) == if start <= l < end then valid else Valid(before, l)
  }

  lemma MarkedMore(before: seq<Cell>, now: seq<Cell>, start: nat, cur: nat, n: nat, valid: bool)
    requires start <= cur && Marked(before, now, start, cur, valid)
    requires cur / BLOCKS_PER_SEGMENT < |now| && cur % BLOCKS_PER_SEGMENT + n <= BLOCKS_PER_SEGMENT
    ensures var seg, off := cur / BLOCKS_PER_SEGMENT, cur % BLOCKS_PER_SEGMENT;
      Marked(before, now[seg := SetBits(now[seg], off, n, valid)], start, cur + n, valid)
  {
    var seg, off := cur / BLOCKS_PER_SEGMENT, cur % BLOCKS_PER_SEGMENT;
    var after := now[seg := SetBits(now[seg], off, n, valid)];
    SetBitsKeepNext(now[seg], off, n, valid);
    forall l: nat | l / BLOCKS_PER_SEGMENT < |before|
      ensures Valid(after, l) == if start <= l < cur + n then valid else Valid(before, l)
    {
      assert Valid(now, l) == if start <= l < cur then valid else Valid(before, l);
      if l / BLOCKS_PER_SEGMENT == seg { SetBitsBits(now[seg], off, n, valid, l % BLOCKS_PER_SEGMENT); }
      SameSegment(l, cur, n);
    }
  }

  /** The blocks from cur to cur + n are those of its segment at the offsets from its own on. */
  lemma SameSegment(l: nat, cur: nat, n: nat)
    requires cur % BLOCKS_PER_SEGMENT + n <= BLOCKS_PER_SEGMENT
    ensures cur <= l < cur + n <==>
      l / BLOCKS_PER_SEGMENT == cur / BLOCKS_PER_SEGMENT &&
      cur % BLOCKS_PER_SEGMENT <= l % BLOCKS_PER_SEGMENT < cur % BLOCKS_PER_SEGMENT + n
  {
  }

  /** Every count is right for its bitmap, or one short if it lags. */
  ghost predicate AllTallied(cells: seq<Cell>, lagging: set<nat>) {
    forall s :: 0 <= s < |cells| ==> Tallied(cells[s], s in lagging)
  }

  /** A count lags now if its segment is full, or if it lagged before and the segment is not empty. */
  ghost predicate Lagging(cells: seq<Cell>, before: set<nat>, now: set<nat>) {
    forall s :: 0 <= s < |cells| ==> (s in now <==> LagAfter(cells[s], s in before))
  }

  lemma LaggingNone(cells: seq<Cell>, lagging: set<nat>)
    requires AllTallied(cells, lagging)
    ensures Lagging(cells, lagging, lagging)
  {
    forall s | 0 <= s < |cells| ensures s in lagging <==> LagAfter(cells[s], s in lagging) {
      CountIsExactIff(cells[s], s in lagging);
    }
  }

  ghost function LaggingWith(lagging: set<nat>, seg: nat, cell: Cell): set<nat> {
    if LagAfter(cell, seg in lagging) then lagging + {seg} else lagging - {seg}
  }

  lemma TallyMore(before: seq<Cell>, now: seq<Cell>, start: nat, cur: nat, n: nat, valid: bool,
                  lagging0: set<nat>, lagging: set<nat>)
    requires start <= cur && Marked(before, now, start, cur, valid)
    requires AllTallied(now, lagging) && Lagging(now, lagging0, lagging)
    requires cur / BLOCKS_PER_SEGMENT < |now| && cur % BLOCKS_PER_SEGMENT + n <= BLOCKS_PER_SEGMENT
    requires forall l: nat :: cur <= l < cur + n ==> Valid(before, l) != valid
    requires cur / BLOCKS_PER_SEGMENT in lagging <==> cur / BLOCKS_PER_SEGMENT in lagging0
    ensures var seg, off := cur / BLOCKS_PER_SEGMENT, cur % BLOCKS_PER_SEGMENT;
      var cell := SetBits(now[seg], off, n, valid);
      AllTallied(now[seg := cell], LaggingWith(lagging, seg, cell)) &&
      Lagging(now[seg := cell], lagging0, LaggingWith(lagging, seg, cell))
  {
    var seg, off := cur / BLOCKS_PER_SEGMENT, cur % BLOCKS_PER_SEGMENT;
    forall i | off <= i < off + n ensures now[seg].bits[i] != valid {
      var l := cur + (i - off);
      SameSegment(l, cur, n);
      assert l / BLOCKS_PER_SEGMENT == seg && l % BLOCKS_PER_SEGMENT == i;
      assert Valid(now, l) == Valid(before, l);
    }
    SetBitsKeepTally(now[seg], off, n, valid, seg in lagging);
  }

  class SitTable {
    var cells: seq<Cell>
    var journal: seq<SitUpdate>     // the entries appended to the current transaction
    ghost var lagging: set<nat>     // the segments that have been full and not empty since

    ghost predicate Ok()
      reads this
    {
      AllTallied(cells, lagging)
    }

    constructor (cells: seq<Cell>, ghost lagging: set<nat>)
      requires AllTallied(cells, lagging)
      ensures Ok() && this.cells == cells && journal == [] && this.lagging == lagging
    {
      this.cells, journal, this.lagging := cells, [], lagging;
    }

    /** sitChangeLpaStateRange. The source asserts that every block changes its state. Exactly the
        blocks of the range do, no chain is touched, the counts stay right, and the journalled cells
        replay to the table. */
    method ChangeRange(start: nat, count: nat, valid: bool)
      requires Ok() && (start != 0 && count > 0 ==> (start + count - 1) / BLOCKS_PER_SEGMENT < |cells|)
      requires start != 0 ==> forall l: nat :: start <= l < start + count ==> Valid(cells, l) != valid
      modifies this
      ensures Ok() && if start == 0 then cells == old(cells) && journal == old(journal)
                      else Marked(old(cells), cells, start, start + count, valid)
      ensures old(journal) <= journal && Replay(old(cells), journal[|old(journal)|..]) == cells
      ensures Lagging(cells, old(lagging), lagging)
    {
      LaggingNone(cells, lagging);
      hide Marked, AllTallied, Lagging, Tallied, LagAfter, SetBits, Valid;
      ghost var before, was, lagging0 := cells, journal, lagging;
      assert journal[|was|..] == [];
      MarkedNone(cells, start, valid);
      if start == 0 || count == 0 { return; }
      var cur: nat, left: nat := start, count;
      while left > 0
        invariant cur + left == start + count && cur >= start && |cells| == |before| && Ok()
        invariant Marked(before, cells, start, cur, valid)
        invariant was <= journal && Replay(before, journal[|was|..]) == cells && Lagging(cells, lagging0, lagging)
        invariant left > 0 ==> forall s :: s >= cur / BLOCKS_PER_SEGMENT ==> (s in lagging <==> s in lagging0)
      {
        var seg, off := cur / BLOCKS_PER_SEGMENT, cur % BLOCKS_PER_SEGMENT;
        var n := if BLOCKS_PER_SEGMENT - off > left then left else BLOCKS_PER_SEGMENT - off;
        assert seg < |cells|;
        MarkedMore(before, cells, start, cur, n, valid);
        TallyMore(before, cells, start, cur, n, valid, lagging0, lagging);
        var cell := SetBits(cells[seg], off, n, valid);
        ReplayMore(before, was, journal, SitUpdate(seg, cell));
        cells, journal := cells[seg := cell], journal + [SitUpdate(seg, cell)];
        lagging := LaggingWith(lagging, seg, cell);
        assert left > n ==> (cur + n) / BLOCKS_PER_SEGMENT == seg + 1;
        cur, left := cur + n, left - n;
      }
    }
  }

  lemma ReplayMore(cells: seq<Cell>, was: seq<SitUpdate>, journal: seq<SitUpdate>, u: SitUpdate)
    requires was <= journal && u.seg < |cells|
    ensures was <= journal + [u]
    ensures Replay(cells, (journal + [u])[|was|..]) == Replay(cells, journal[|was|..])[u.seg := u.cell]
  {
    var js := journal[|was|..];
    assert (journal + [u])[|was|..] == js + [u] && (js + [u])[..|js|] == js;
  }

  lemma MarkedNone(cells: seq<Cell>, start: nat, valid: bool)
    ensures Marked(cells, cells, start, start, valid)
  {
  }
}
