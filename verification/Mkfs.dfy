/** Formatting a device (src/fs/rtfs_mkfs.c): the areas, and the initial NAT and SIT with the chains
    that the allocators start from. */
module Mkfs {
  import opened Bytes
  import opened SegmentInfo
  import opened Allocators
  import RedoLog
  import LogRecovery
  import FileCommit

  const SIT_ENTRIES: nat := 60
  const NAT_ENTRIES: nat := 512
  const MAX_U32: nat := 0xffff_ffff

  function DivRoundUp(value: nat, divisor: nat): nat
    requires divisor > 0
  {
    (value + divisor - 1) / divisor
  }

  /** rtfsMkfsSegToLpa, in 32 bits. */
  function SegToLpa(seg: nat): U32 {
    seg * 512 % 0x1_0000_0000
  }

  datatype Areas = Areas(blocks: nat, segments: nat, journalSegments: nat, sitSegments: nat, natSegments: nat,
                         srmapSegments: nat, journalStart: nat, sitStart: nat, natStart: nat, srmapStart: nat,
                         mainSegment: nat, mainStart: nat, mainSegments: nat)

  datatype Outcome = Invalid | NoSpace | Laid(areas: Areas)

  /** rtfsMkfsCalculateLayout */
  function CalculateLayout(lpaCount: nat, journalSegments: U32): Outcome {
    var segments := lpaCount / 512;
    if journalSegments == 0 || segments > MAX_U32 || segments == 0 then Invalid
    else
      var sit := DivRoundUp(DivRoundUp(segments, 60), 512);
      var nat' := DivRoundUp(DivRoundUp(segments * 512, 512), 512);
      var srmap := DivRoundUp(DivRoundUp(segments * 512, 512), 512);
      var main := (1 + journalSegments) % 0x1_0000_0000 + sit + nat' + srmap;   // the first sum is in 32 bits
      if main + 2 > segments || sit > MAX_U32 || nat' > MAX_U32 || srmap > MAX_U32 then NoSpace
      else
        Laid(Areas(segments * 512, segments, journalSegments, sit, nat', srmap,
                   512, SegToLpa(1 + journalSegments), SegToLpa(1 + journalSegments + sit),
                   SegToLpa(1 + journalSegments + sit + nat'), main, SegToLpa(main), segments - main))
  }

  const MAX_SEGMENTS: nat := 8_388_608   // RTFS_MAX_SEGMENT

  /** The areas follow one another without gap or overlap and fill the device, the main area has at
      least two segments, and each table is large enough for the whole device. */
  ghost predicate Sound(a: Areas) {
    && a.journalStart == 512
    && a.sitStart == a.journalStart + 512 * a.journalSegments && a.natStart == a.sitStart + 512 * a.sitSegments
    && a.srmapStart == a.natStart + 512 * a.natSegments && a.mainStart == a.srmapStart + 512 * a.srmapSegments
    && a.mainStart == 512 * a.mainSegment && a.mainStart + 512 * a.mainSegments == a.blocks && a.mainSegments >= 2
    && a.sitSegments * 512 * SIT_ENTRIES >= a.segments && a.natSegments * 512 * NAT_ENTRIES >= a.blocks
    && a.srmapSegments * 512 * 512 >= a.blocks && a.blocks <= 0x1_0000_0000
    && a.blocks == 512 * a.segments && 1 <= a.mainSegment && a.mainSegment + 2 <= a.segments <= MAX_SEGMENTS
    && a.mainSegments == a.segments - a.mainSegment
  }

  /** A layout that was accepted is sound exactly if LPAs of 32 bits reach all its blocks and the number
      of journal segments is not the one at which the 32-bit sum in front of the SIT wraps. */
  lemma AreasAreSoundIff(lpaCount: nat, journalSegments: U32)
    requires CalculateLayout(lpaCount, journalSegments).Laid?
    ensures Sound(CalculateLayout(lpaCount, journalSegments).areas) <==>
      journalSegments < MAX_U32 && lpaCount / 512 <= MAX_SEGMENTS
  {
    if journalSegments < MAX_U32 && lpaCount / 512 <= MAX_SEGMENTS { AreasAreSound(lpaCount, journalSegments); }
  }

  /** A device with one segment more is accepted, but its last blocks have no LPA. */
  lemma TooManySegments()
    ensures CalculateLayout(512 * (MAX_SEGMENTS + 1), 1).Laid?
    ensures CalculateLayout(512 * (MAX_SEGMENTS + 1), 1).areas.blocks > 0x1_0000_0000
  {
  }

  /** At that number the SIT is laid over the super block. */
  lemma WrappedLayout()
    ensures CalculateLayout(51_200, MAX_U32).Laid? && CalculateLayout(51_200, MAX_U32).areas.sitStart == 0
  {
  }

  lemma AreasAreSound(lpaCount: nat, journalSegments: U32)
    requires CalculateLayout(lpaCount, journalSegments).Laid? && lpaCount / 512 <= MAX_SEGMENTS &&
      journalSegments < MAX_U32
    ensures Sound(CalculateLayout(lpaCount, journalSegments).areas) &&
      CalculateLayout(lpaCount, journalSegments).areas.blocks <= lpaCount
  {
    var segments := lpaCount / 512;
    TableRoom(segments, 60);
    TableRoom(segments * 512, 512);
    MainFits(lpaCount, journalSegments);
    hide DivRoundUp;
    var sit, table := DivRoundUp(DivRoundUp(segments, 60), 512), DivRoundUp(DivRoundUp(segments * 512, 512), 512);
    NoWrap(1 + journalSegments);
    NoWrap(1 + journalSegments + sit);
    NoWrap(1 + journalSegments + sit + table);
    NoWrap(1 + journalSegments + sit + 2 * table);
    hide SegToLpa;
  }

  lemma MainFits(lpaCount: nat, journalSegments: U32)
    requires CalculateLayout(lpaCount, journalSegments).Laid? && lpaCount / 512 <= MAX_SEGMENTS &&
      journalSegments < MAX_U32
    ensures 1 + journalSegments + DivRoundUp(DivRoundUp(lpaCount / 512, 60), 512)
              + 2 * DivRoundUp(DivRoundUp(lpaCount / 512 * 512, 512), 512) + 2 <= lpaCount / 512
    ensures (1 + journalSegments) % 0x1_0000_0000 == 1 + journalSegments
  {
    hide DivRoundUp, SegToLpa;
  }

  /** The segments of a table have room for all its entries. */
  lemma TableRoom(entries: nat, perBlock: nat)
    requires perBlock == 60 || perBlock == 512
    ensures entries <= DivRoundUp(DivRoundUp(entries, perBlock), 512) * 512 * perBlock
  {
    RoundUp(entries, perBlock);
    RoundUp(DivRoundUp(entries, perBlock), 512);
  }

  lemma NoWrap(seg: nat)
    requires seg < MAX_SEGMENTS
    ensures SegToLpa(seg) == 512 * seg
  {
  }

  lemma RoundUp(v: nat, d: nat)
    requires d == 60 || d == 512
    ensures v <= DivRoundUp(v, d) * d < v + d
  {
  }

  /** A formatted device has the geometry that recovery and commit rely on, as long as the journal's
      offsets fit their 16 bits. */
  lemma FormattedGeometry(lpaCount: nat, journalSegments: U32)
    requires CalculateLayout(lpaCount, journalSegments).Laid? && lpaCount / 512 <= MAX_SEGMENTS &&
      journalSegments <= 128
    ensures var a := CalculateLayout(lpaCount, journalSegments).areas;
      var g := LogRecovery.Geometry(RedoLog.Layout(a.natStart, a.natSegments * 512, a.sitStart, a.sitSegments * 512),
                                    a.journalStart, a.journalSegments * 512);
      LogRecovery.GeometryOk(g, a.blocks) && FileCommit.TablesApart(g.lay)
  {
    AreasAreSound(lpaCount, journalSegments);
  }

  // ---- The initial NAT ----

  /** The NAT entry of a nid after formatting. */
  function InitialNatCell(a: Areas, root: nat, nid: nat): NatCell {
    if nid == root then NatCell(root, a.mainStart)
    else NatCell(0, if nid + 1 < a.blocks then nid + 1 else 0)
  }

  /** One block of rtfsMkfsWriteInitialNat. */
  method InitialNatBlock(a: Areas, root: nat, block: nat) returns (cells: seq<NatCell>)
    requires root > 0 && root + 1 < a.blocks
    ensures |cells| == NAT_ENTRIES && forall i :: 0 <= i < NAT_ENTRIES ==>
      cells[i] == InitialNatCell(a, root, block * NAT_ENTRIES + i)
  {
    cells := [];
    while |cells| < NAT_ENTRIES
      invariant |cells| <= NAT_ENTRIES
      invariant forall i :: 0 <= i < |cells| ==>
        cells[i] == NatCell(0, if block * NAT_ENTRIES + i + 1 < a.blocks then block * NAT_ENTRIES + i + 1 else 0)
    {
      var nid := block * NAT_ENTRIES + |cells|;
      cells := cells + [NatCell(0, if nid + 1 < a.blocks then nid + 1 else 0)];
    }
    if block == root / NAT_ENTRIES {
      cells := cells[root % NAT_ENTRIES := NatCell(root, a.mainStart)];
    }
    var next := root + 1;
    if next / NAT_ENTRIES == block {
      cells := cells[next % NAT_ENTRIES := NatCell(0, if next + 1 < a.blocks then next + 1 else 0)];
    }
  }

  /** rtfsMkfsWriteInitialNat */
  method InitialNat(a: Areas, root: nat) returns (table: seq<NatCell>)
    requires root > 0 && root + 1 < a.blocks
    ensures |table| == a.natSegments * 512 * NAT_ENTRIES
    ensures forall nid :: 0 <= nid < |table| ==> table[nid] == InitialNatCell(a, root, nid)
  {
    table := [];
    var block, blocks := 0, a.natSegments * 512;
    while block < blocks
      invariant block <= blocks && |table| == block * NAT_ENTRIES
      invariant forall nid :: 0 <= nid < |table| ==> table[nid] == InitialNatCell(a, root, nid)
    {
      var cells := InitialNatBlock(a, root, block);
      table, block := table + cells, block + 1;
    }
  }

  /** The numbers from lo up to hi. */
  function From(lo: nat, hi: nat): (s: seq<nat>)
    requires lo <= hi
    ensures |s| == hi - lo && forall i :: 0 <= i < |s| ==> s[i] == lo + i
    decreases hi - lo
  {
    if lo == hi then [] else [lo] + From(lo + 1, hi)
  }

  /** After formatting the nids behind the root inode form the chain of free nids. */
  lemma {:induction false} FormattedNids(a: Areas, root: nat, table: seq<NatCell>, lo: nat)
    requires root > 0 && root < lo <= a.blocks <= |table|
    requires forall nid :: 0 <= nid < |table| ==> table[nid] == InitialNatCell(a, root, nid)
    ensures FreeNids(table, if lo < a.blocks then lo else 0, From(lo, a.blocks))
    decreases a.blocks - lo
  {
    if lo < a.blocks {
      FormattedNids(a, root, table, lo + 1);
      assert From(lo, a.blocks)[1..] == From(lo + 1, a.blocks);
      assert table[lo] == InitialNatCell(a, root, lo);
    }
  }

  /** The nid allocator of a formatted device: the root inode is live, all nids behind it are free. */
  method FormatNids(lpaCount: nat, journalSegments: U32, root: nat) returns (alloc: NidAllocator)
    requires CalculateLayout(lpaCount, journalSegments).Laid? && lpaCount / 512 <= MAX_SEGMENTS &&
      journalSegments < MAX_U32
    requires root > 0 && root + 1 < CalculateLayout(lpaCount, journalSegments).areas.blocks
    ensures fresh(alloc) && alloc.Ok() && alloc.live == {root}
    ensures alloc.free == From(root + 1, CalculateLayout(lpaCount, journalSegments).areas.blocks)
  {
    var a := CalculateLayout(lpaCount, journalSegments).areas;
    AreasAreSound(lpaCount, journalSegments);
    hide CalculateLayout;
    var table := InitialNat(a, root);
    FormattedNids(a, root, table, root + 1);
    alloc := new NidAllocator(table, root + 1, From(root + 1, a.blocks), {root});
  }

  // ---- The initial SIT ----

  /** rtfsMkfsSitSetNextSegment: the count stays, the upper bits name the next segment. */
  function SetNext(c: Cell, next: nat): Cell
    requires next < MAX_SEGMENTS
  {
    Cell(Count(c.word) + next * 512, c.bits)
  }

  /** rtfsMkfsSitSetValid */
  function SetValid(c: Cell, off: nat): Cell
    requires off < BLOCKS_PER_SEGMENT
  {
    if c.bits[off] then c else SetBit(c, off, true)
  }

  function EmptyCell(): Cell {
    Cell(0, seq(BLOCKS_PER_SEGMENT, _ => false))
  }

  /** The cell of a segment after its successor has been set. */
  function LinkedCell(a: Areas, seg: nat): Cell
    requires a.segments <= MAX_SEGMENTS
  {
    if seg + 1 < a.segments then SetNext(EmptyCell(), seg + 1) else EmptyCell()
  }

  /** The SIT entry of a segment after formatting: the super block, the metadata segments and the root
      inode are valid. */
  function InitialCell(a: Areas, seg: nat): Cell
    requires a.segments <= MAX_SEGMENTS
  {
    var c := LinkedCell(a, seg);
    if 1 <= seg < a.mainSegment then SetBits(c, 0, BLOCKS_PER_SEGMENT, true)
    else if seg == 0 || seg == a.mainSegment then SetBit(c, 0, true)
    else c
  }

  /** All blocks of a segment are marked valid one by one. */
  method FillCell(c: Cell) returns (r: Cell)
    requires forall i :: 0 <= i < BLOCKS_PER_SEGMENT ==> !c.bits[i]
    ensures r == SetBits(c, 0, BLOCKS_PER_SEGMENT, true)
  {
    r := c;
    var off := 0;
    while off < BLOCKS_PER_SEGMENT
      invariant off <= BLOCKS_PER_SEGMENT && r == SetBits(c, 0, off, true)
    {
      SetBitsBits(c, 0, off, true, off);
      r, off := SetValid(r, off), off + 1;
    }
  }

  /** One block of rtfsMkfsWriteInitialSit. */
  method InitialSitBlock(a: Areas, block: nat) returns (cells: seq<Cell>)
    requires 1 <= a.mainSegment < a.segments <= MAX_SEGMENTS
    ensures |cells| == SIT_ENTRIES && forall i :: 0 <= i < SIT_ENTRIES ==>
      cells[i] == InitialCell(a, block * SIT_ENTRIES + i)
  {
    hide SetBits, SetBit;
    cells := [];
    while |cells| < SIT_ENTRIES
      invariant |cells| <= SIT_ENTRIES && forall i :: 0 <= i < |cells| ==>
        cells[i] == LinkedCell(a, block * SIT_ENTRIES + i)
    {
      cells := cells + [LinkedCell(a, block * SIT_ENTRIES + |cells|)];
    }
    assert forall seg :: !LinkedCell(a, seg).bits[0];
    if block == 0 { cells := cells[0 := SetValid(cells[0], 0)]; }
    var seg := 1;
    while seg < a.mainSegment
      invariant 1 <= seg <= a.mainSegment && |cells| == SIT_ENTRIES
      invariant forall i :: 0 <= i < SIT_ENTRIES ==>
        cells[i] == if block * SIT_ENTRIES + i < seg then InitialCell(a, block * SIT_ENTRIES + i)
          else LinkedCell(a, block * SIT_ENTRIES + i)
    {
      if seg / SIT_ENTRIES == block {
        var filled := FillCell(cells[seg % SIT_ENTRIES]);
        cells := cells[seg % SIT_ENTRIES := filled];
      }
      seg := seg + 1;
    }
    if a.mainSegment / SIT_ENTRIES == block {
      cells := cells[a.mainSegment % SIT_ENTRIES := SetValid(cells[a.mainSegment % SIT_ENTRIES], 0)];
    }
  }

  /** rtfsMkfsWriteInitialSit. Entries behind the last segment stay as LinkedCell leaves them: empty. */
  method InitialSit(a: Areas) returns (cells: seq<Cell>)
    requires 1 <= a.mainSegment < a.segments <= MAX_SEGMENTS
    ensures |cells| == a.sitSegments * 512 * SIT_ENTRIES
    ensures forall seg :: 0 <= seg < |cells| ==> cells[seg] == InitialCell(a, seg)
  {
    hide InitialCell;
    cells := [];
    var block, blocks := 0, a.sitSegments * 512;
    while block < blocks
      invariant block <= blocks && |cells| == block * SIT_ENTRIES
      invariant forall seg :: 0 <= seg < |cells| ==> cells[seg] == InitialCell(a, seg)
    {
      var more := InitialSitBlock(a, block);
      cells, block := cells + more, block + 1;
    }
  }

  /** What the allocators need to know of an initial SIT entry. */
  lemma InitialCellFacts(a: Areas, seg: nat)
    requires 1 <= a.mainSegment < a.segments <= MAX_SEGMENTS
    ensures var c := InitialCell(a, seg);
      && Next(c.word) == (if seg + 1 < a.segments then seg + 1 else 0)
      && (forall i :: 0 <= i < BLOCKS_PER_SEGMENT ==>
            c.bits[i] == ((1 <= seg < a.mainSegment) || ((seg == 0 || seg == a.mainSegment) && i == 0)))
      && Tallied(c, 1 <= seg < a.mainSegment)
  {
    var c := LinkedCell(a, seg);
    AllAlike(c.bits, false);
    hide Population, LagAfter;
    if 1 <= seg < a.mainSegment {
      FilledCell(c);
    } else if seg == 0 || seg == a.mainSegment {
      SetBitKeepsNext(c, 0, true);
      PopulationUpdate(c.bits, 0, true);
    }
  }

  /** A cell whose segment is filled counts one block less. */
  lemma FilledCell(c: Cell)
    requires Tallied(c, false) && forall i :: 0 <= i < BLOCKS_PER_SEGMENT ==> !c.bits[i]
    ensures var full := SetBits(c, 0, BLOCKS_PER_SEGMENT, true);
      && Next(full.word) == Next(c.word) && Tallied(full, true)
      && forall i :: 0 <= i < BLOCKS_PER_SEGMENT ==> full.bits[i]
  {
    var full := SetBits(c, 0, BLOCKS_PER_SEGMENT, true);
    SetBitsKeepNext(c, 0, BLOCKS_PER_SEGMENT, true);
    SetBitsKeepTally(c, 0, BLOCKS_PER_SEGMENT, true, false);
    forall i | 0 <= i < BLOCKS_PER_SEGMENT ensures full.bits[i] { SetBitsBits(c, 0, BLOCKS_PER_SEGMENT, true, i); }
    AllAlike(full.bits, true);
  }

  lemma {:induction false} FormattedChain(a: Areas, cells: seq<Cell>, lo: nat)
    requires 1 <= a.mainSegment < lo <= a.segments <= MAX_SEGMENTS && a.segments <= |cells|
    requires forall seg :: 0 <= seg < |cells| ==> Next(cells[seg].word) == if seg + 1 < a.segments then seg + 1 else 0
    ensures Chain(cells, if lo < a.segments then lo else 0, From(lo, a.segments))
    decreases a.segments - lo
  {
    if lo < a.segments {
      FormattedChain(a, cells, lo + 1);
      assert From(lo, a.segments)[1..] == From(lo + 1, a.segments);
    }
  }

  /** The initial SIT fits the allocator's books. */
  lemma FormattedSit(a: Areas, cells: seq<Cell>)
    requires 1 <= a.mainSegment && a.mainSegment + 2 <= a.segments <= MAX_SEGMENTS && a.mainStart == 512 * a.mainSegment
    requires a.segments <= |cells| && forall seg :: 0 <= seg < |cells| ==> cells[seg] == InitialCell(a, seg)
    ensures AllTallied(cells, Range(1, a.mainSegment - 1))
    ensures var chain := From(a.mainSegment + 2, a.segments);
      var node, data := Cursor(a.mainSegment, 1), Cursor(a.mainSegment + 1, 0);
      && Chain(cells, if a.mainSegment + 2 < a.segments then a.mainSegment + 2 else 0, chain)
      && Apart(a.segments, a.mainSegment, chain, node, data) && Unspent(cells, chain, node, data, {a.mainStart})
  {
    hide InitialCell, Tallied, Chain, Apart, Unspent;
    forall seg | 0 <= seg < |cells|
      ensures Next(cells[seg].word) == if seg + 1 < a.segments then seg + 1 else 0
      ensures Tallied(cells[seg], 1 <= seg < a.mainSegment)
      ensures forall i :: 0 <= i < BLOCKS_PER_SEGMENT ==>
            cells[seg].bits[i] == ((1 <= seg < a.mainSegment) || ((seg == 0 || seg == a.mainSegment) && i == 0))
    {
      InitialCellFacts(a, seg);
    }
    FormattedChain(a, cells, a.mainSegment + 2);
    FormattedAhead(a, cells, From(a.mainSegment + 2, a.segments), Cursor(a.mainSegment, 1),
      Cursor(a.mainSegment + 1, 0));
  }

  /** The LPA allocator of a formatted device: the first main segment holds the root inode and takes
      nodes, the second takes data, all others are free; nothing ahead is marked valid. */
  method FormatSegments(lpaCount: nat, journalSegments: U32) returns (alloc: LpaAllocator)
    requires CalculateLayout(lpaCount, journalSegments).Laid? && lpaCount / 512 <= MAX_SEGMENTS &&
      journalSegments < MAX_U32
    ensures fresh(alloc) && fresh(alloc.sit) && alloc.Ok()
    ensures var a := CalculateLayout(lpaCount, journalSegments).areas;
      && alloc.segments == a.segments && alloc.mainSegment == a.mainSegment &&
        alloc.chain == From(a.mainSegment + 2, a.segments) && alloc.handed == {a.mainStart}
  {
    AreasAreSound(lpaCount, journalSegments);
    hide *;
    alloc := NewSegments(CalculateLayout(lpaCount, journalSegments).areas);
  }

  method NewSegments(a: Areas) returns (alloc: LpaAllocator)
    requires Sound(a)
    ensures fresh(alloc) && fresh(alloc.sit) && alloc.Ok()
    ensures alloc.segments == a.segments && alloc.mainSegment == a.mainSegment && alloc.handed == {a.mainStart}
    ensures alloc.chain == From(a.mainSegment + 2, a.segments)
  {
    SegmentsFit(a);
    hide *;
    var cells := InitialSit(a);
    FormattedSit(a, cells);
    var sit := new SitTable(cells, Range(1, a.mainSegment - 1));
    var firstFree := if a.mainSegments > 2 then a.mainSegment + 2 else 0;
    alloc := new LpaAllocator(sit, a.segments, a.mainSegment, firstFree, a.mainSegments - 2, Cursor(a.mainSegment, 1),
                              Cursor(a.mainSegment + 1, 0), From(a.mainSegment + 2, a.segments), {a.mainStart});
  }

  lemma SegmentsFit(a: Areas)
    requires Sound(a)
    ensures 1 <= a.mainSegment && a.mainSegment + 2 <= a.segments <= MAX_SEGMENTS && a.mainStart == 512 * a.mainSegment
    ensures a.mainSegments == a.segments - a.mainSegment && a.segments <= a.sitSegments * 512 * SIT_ENTRIES
    ensures |From(a.mainSegment + 2, a.segments)| == a.mainSegments - 2
    ensures a.mainStart / BLOCKS_PER_SEGMENT == a.mainSegment
  {
  }

  lemma FormattedAhead(a: Areas, cells: seq<Cell>, chain: seq<nat>, node: Cursor, data: Cursor)
    requires 1 <= a.mainSegment && a.mainSegment + 2 <= a.segments <= |cells| && a.mainStart == 512 * a.mainSegment
    requires chain == From(a.mainSegment + 2, a.segments) && node == Cursor(a.mainSegment, 1) &&
      data == Cursor(a.mainSegment + 1, 0)
    requires forall seg, i :: 0 <= seg < |cells| && 0 <= i < BLOCKS_PER_SEGMENT ==>
      cells[seg].bits[i] == ((1 <= seg < a.mainSegment) || ((seg == 0 || seg == a.mainSegment) && i == 0))
    ensures Apart(a.segments, a.mainSegment, chain, node, data) && Unspent(cells, chain, node, data, {a.mainStart})
  {
  }
}
