/** The allocators of a mounted device: what they start from is read from the super block, the NAT and the
    SIT (src/fs/super_manager.c, src/fs/nat_utils.c, src/fs/sit_utils.c, src/fs/fs.h). */
module MountedAllocators {
  import opened Wrappers
  import opened Bytes
  import opened RedoLog
  import opened JournalFormat
  import opened LogRecovery
  import opened FileCommit
  import opened RecoveredTables
  import opened FormattedDevice
  import A = Allocators
  import S = SegmentInfo
  import C = SitCodec
  import M = Mkfs
  import BlockDevice

  // Byte offsets of super-block fields (src/fs/fs.h).
  const OFF_SEGMENTS: nat := 32
  const OFF_MAIN_ADDR: nat := 76
  const OFF_FREE_SEGMENT: nat := 92
  const OFF_DATA_SEGMENT: nat := 104
  const OFF_DATA_BLOCK: nat := 108
  const OFF_NODE_SEGMENT: nat := 112
  const OFF_NODE_BLOCK: nat := 116
  const OFF_FREE_SEGMENTS: nat := 124
  const OFF_FREE_NID: nat := 128

  // ---- The tables as they are read ----

  /** The NAT entry of a nid on the device. */
  function NatCellOn(d: Image, start: nat, nid: nat): A.NatCell
    requires start + nid / 512 < |d|
  {
    A.NatCell(Get32(d[start + nid / 512], 8 * (nid % 512)), Get32(d[start + nid / 512], 8 * (nid % 512) + 4))
  }

  function NatOn(d: Image, lay: Layout): (table: seq<A.NatCell>)
    requires lay.natStart + lay.natBlocks <= |d|
    ensures |table| == 512 * lay.natBlocks
  {
    seq(512 * lay.natBlocks, nid requires 0 <= nid < 512 * lay.natBlocks => NatCellOn(d, lay.natStart, nid))
  }

  /** The SIT entry of a segment on the device. */
  function SitCellOn(d: Image, start: nat, seg: nat): S.Cell
    requires start + seg / 60 < |d|
  {
    C.CellAt(d[start + seg / 60], 68 * (seg % 60))
  }

  function SitOn(d: Image, lay: Layout): (cells: seq<S.Cell>)
    requires lay.sitStart + lay.sitBlocks <= |d|
    ensures |cells| == 60 * lay.sitBlocks
  {
    seq(60 * lay.sitBlocks, seg requires 0 <= seg < 60 * lay.sitBlocks => SitCellOn(d, lay.sitStart, seg))
  }

  // ---- After recovery ----

  lemma SameBytesSameCell(s: seq<Byte>, off: nat, s': seq<Byte>, off': nat)
    requires off + C.CELL_BYTES <= |s| && off' + C.CELL_BYTES <= |s'|
    requires s[off..off + C.CELL_BYTES] == s'[off'..off' + C.CELL_BYTES]
    ensures C.CellAt(s, off) == C.CellAt(s', off')
  {
    assert s[off..off + 4] == s[off..off + C.CELL_BYTES][..4];
    assert s'[off'..off' + 4] == s'[off'..off' + C.CELL_BYTES][..4];
    SameBytesSameValue(s, off, s', off', 4);
    forall i | 0 <= i < S.BLOCKS_PER_SEGMENT ensures s[off + 4 + i / 8] == s'[off' + 4 + i / 8] {
      assert s[off + 4 + i / 8] == s[off..off + C.CELL_BYTES][4 + i / 8];
      assert s'[off' + 4 + i / 8] == s'[off'..off' + C.CELL_BYTES][4 + i / 8];
    }
  }

  /** The SIT entry that the source reads for a segment after recovery is the one journalled last for it,
      or what stood there before. */
  lemma RecoveredCell(d: Image, txs: seq<seq<Entry>>, seg: U32)
    requires Replayable(d, txs) && TablesApart(LayoutOf(d[0])) && seg / 60 < LayoutOf(d[0]).sitBlocks
    ensures var lay, D, last := LayoutOf(d[0]), Recovered(d, txs), LastLogged(txs, Sits, seg);
      && lay.sitStart + seg / 60 < |d|
      && SitCellOn(D, lay.sitStart, seg) ==
         if last.Some? then C.CellAt(last.value.image, 0) else SitCellOn(d, lay.sitStart, seg)
  {
    RecoveredSit(d, txs, seg);
    var l, off, last := LayoutOf(d[0]).sitStart + seg / 60, 68 * (seg % 60), LastLogged(txs, Sits, seg);
    hide Recovered, Replayable, LastLogged, LayoutOf, C.CellAt;
    if last.Some? {
      assert last.value.image[0..C.CELL_BYTES] == last.value.image;
      SameBytesSameCell(Recovered(d, txs)[l], off, last.value.image, 0);
    } else {
      SameBytesSameCell(Recovered(d, txs)[l], off, d[l], off);
    }
  }

  // ---- A formatted device ----

  lemma NatCellRead(d: Image, a: M.Areas, root: U32, nid: nat)
    requires Formatted(d, a, root) && nid < 512 * (a.natSegments * 512)
    ensures a.natStart + nid / 512 < |d| && NatCellOn(d, a.natStart, nid) == M.InitialNatCell(a, root, nid)
  {
    NatBlockOn(d, a, root, nid / 512);
    assert M.Sound(a);
    NatTableWords(a, root, nid / 512, nid % 512);
    hide NatTableBlock, Get32, M.InitialNatCell, Formatted, M.Sound;
    BlockAndPlace(nid);
  }

  lemma SitCellRead(d: Image, a: M.Areas, root: U32, seg: nat)
    requires Formatted(d, a, root) && seg < 60 * (a.sitSegments * 512)
    ensures a.sitStart + seg / 60 < |d| && SitCellOn(d, a.sitStart, seg) == M.InitialCell(a, seg)
  {
    var cells, block := SitCells(a, seg / 60), seg / 60;
    assert block < a.sitSegments * 512;
    assert HoldsCells(d, a, block);
    assert seg / 60 * 60 + seg % 60 == seg;
    assert cells[seg % 60] == M.InitialCell(a, seg);
    hide M.InitialCell, C.CellsBytes, C.CellAt, Formatted;
    C.BlockRoundTrip(d[a.sitStart + block], cells, seg % 60);
  }

  lemma LayoutRead(d: Image, a: M.Areas, root: U32)
    requires Formatted(d, a, root)
    ensures LayoutOf(d[0]) == Layout(a.natStart, a.natSegments * 512, a.sitStart, a.sitSegments * 512)
    ensures a.natStart + a.natSegments * 512 <= |d| && a.sitStart + a.sitSegments * 512 <= |d|
  {
    FormattedSuper(a, root);
    hide SuperBlock, Get32;
  }

  lemma FieldsRead(d: Image, a: M.Areas, root: U32)
    requires Formatted(d, a, root)
    ensures Get32(d[0], OFF_SEGMENTS) == a.segments && Get32(d[0], OFF_MAIN_ADDR) == a.mainStart
    ensures Get32(d[0], OFF_FREE_SEGMENT) == if a.mainSegments > 2 then a.mainSegment + 2 else 0
    ensures Get32(d[0], OFF_DATA_SEGMENT) == a.mainSegment + 1 && Get32(d[0], OFF_DATA_BLOCK) == 0
    ensures Get32(d[0], OFF_NODE_SEGMENT) == a.mainSegment && Get32(d[0], OFF_NODE_BLOCK) == 1
    ensures Get32(d[0], OFF_FREE_SEGMENTS) == a.mainSegments - 2 && Get32(d[0], OFF_FREE_NID) == root + 1
  {
    assert d[0] == SuperBlock(a, root) && M.Sound(a) && root < M.MAX_U32;
    SuperWordAt(a, root, 8);
    SuperWordAt(a, root, 19);
    SuperWordAt(a, root, 23);
    SuperWordAt(a, root, 26);
    SuperWordAt(a, root, 27);
    SuperWordAt(a, root, 28);
    SuperWordAt(a, root, 29);
    SuperWordAt(a, root, 31);
    SuperWordAt(a, root, 32);
    hide SuperBlock, Get32, Formatted;
  }

  /** Recovery leaves a formatted device as it is, so what follows holds of it after mounting. */
  lemma FormattedIsRecovered(d: Image, a: M.Areas, root: U32)
    requires Formatted(d, a, root) && 0 < a.journalSegments <= 128
    ensures Replayable(d, []) && Recovered(d, []) == d
  {
    FormattedReplays(d, a, root);
    RecoveredEmpty(d);
    assert d[0] == SuperBlock(a, root) && M.Sound(a) && root < M.MAX_U32;
    SuperWordAt(a, root, 30);
    hide SuperBlock, Formatted;
    assert LogUpdates(d, []) == [];
    assert Recovered(d, [])[0] == WithOffsets(d[0], 0);
    ZeroOffsets(d[0]);
    hide Replayable, Recovered;
    assert forall l :: 0 <= l < |d| ==> Recovered(d, [])[l] == d[l];
  }

  lemma ZeroOffsets(sb: Block)
    requires Get32(sb, OFF_JOURNAL_START) == 0
    ensures WithOffsets(sb, 0) == sb
  {
    assert LeValue(sb, 124, 0) == 0 && LeValue(sb, 123, 1) == sb[123] && LeValue(sb, 122, 2) ==
      sb[122] as int + 0x100 * LeValue(sb, 123, 1);
    assert sb[120] == 0 && sb[121] == 0 && sb[122] == 0 && sb[123] == 0;
    var r := WithOffsets(sb, 0);
    assert forall i :: 0 <= i < BLOCK_SIZE ==> r[i] == sb[i];
  }

  /** The nid allocator of a freshly formatted device, made of what the device holds: the root inode is
      live, and the chain has every nid behind it. */
  method MountNids(dev: BlockDevice.Device, ghost a: M.Areas, ghost root: U32) returns (alloc: A.NidAllocator)
    requires Formatted(dev.disk, a, root)
    ensures fresh(alloc) && alloc.Ok() && alloc.live == {root} && alloc.free == M.From(root + 1, a.blocks)
    ensures alloc.nextFree == Get32(dev.disk[0], OFF_FREE_NID) && 0 < alloc.nextFree
  {
    NidsRead(dev.disk, a, root);
    hide *;
    var sb := dev.disk[0];
    var table := NatOn(dev.disk, LayoutOf(sb));
    alloc := new A.NidAllocator(table, Get32(sb, OFF_FREE_NID), M.From(root + 1, a.blocks), {root});
  }

  lemma NidsRead(d: Image, a: M.Areas, root: U32)
    requires Formatted(d, a, root)
    ensures |d| > 0 && var lay := LayoutOf(d[0]);
      && lay.natStart + lay.natBlocks <= |d| && 0 < root < |NatOn(d, lay)| && root + 1 < a.blocks
      && Get32(d[0], OFF_FREE_NID) == root + 1
      && A.FreeNids(NatOn(d, lay), root + 1, M.From(root + 1, a.blocks))
      && M.From(root + 1, a.blocks) != [] && root !in M.From(root + 1, a.blocks)
  {
    FieldsRead(d, a, root);
    LayoutRead(d, a, root);
    var table := NatOn(d, LayoutOf(d[0]));
    assert 0 < root && root + 1 < a.blocks <= |table|;
    hide M.InitialNatCell, NatCellOn, Formatted, M.Sound, Get32;
    forall nid | 0 <= nid < |table| ensures table[nid] == M.InitialNatCell(a, root, nid) {
      NatCellRead(d, a, root, nid);
    }
    M.FormattedNids(a, root, table, root + 1);
  }

  /** The LPA allocator of a freshly formatted device, made of what the device holds: two open segments,
      all others of the main area on the chain, and only the root inode's block handed out. */
  method MountSegments(dev: BlockDevice.Device, ghost a: M.Areas, ghost root: U32) returns (alloc: A.LpaAllocator)
    requires Formatted(dev.disk, a, root)
    ensures fresh(alloc) && fresh(alloc.sit) && alloc.Ok() && alloc.handed == {a.mainStart}
    ensures alloc.segments == a.segments && alloc.mainSegment == a.mainSegment
    ensures alloc.chain == M.From(a.mainSegment + 2, a.segments)
    ensures alloc.node == A.Cursor(a.mainSegment, 1) && alloc.data == A.Cursor(a.mainSegment + 1, 0)
  {
    SegmentsRead(dev.disk, a, root);
    hide *;
    var sb := dev.disk[0];
    var sit := new S.SitTable(SitOn(dev.disk, LayoutOf(sb)), A.Range(1, a.mainSegment - 1));
    alloc := new A.LpaAllocator(sit, Get32(sb, OFF_SEGMENTS), Get32(sb, OFF_MAIN_ADDR) / 512,
      Get32(sb, OFF_FREE_SEGMENT), Get32(sb, OFF_FREE_SEGMENTS),
      A.Cursor(Get32(sb, OFF_NODE_SEGMENT), Get32(sb, OFF_NODE_BLOCK)),
      A.Cursor(Get32(sb, OFF_DATA_SEGMENT), Get32(sb, OFF_DATA_BLOCK)),
      M.From(a.mainSegment + 2, a.segments), {a.mainStart});
  }

  lemma SegmentsRead(d: Image, a: M.Areas, root: U32)
    requires Formatted(d, a, root)
    ensures |d| > 0 && var lay, sb := LayoutOf(d[0]), d[0];
      && lay.sitStart + lay.sitBlocks <= |d| && 1 <= a.mainSegment && a.mainSegment + 2 <= a.segments
      && var cells, chain := SitOn(d, lay), M.From(a.mainSegment + 2, a.segments);
         var node := A.Cursor(Get32(sb, OFF_NODE_SEGMENT), Get32(sb, OFF_NODE_BLOCK));
         var data := A.Cursor(Get32(sb, OFF_DATA_SEGMENT), Get32(sb, OFF_DATA_BLOCK));
         && node == A.Cursor(a.mainSegment, 1) && data == A.Cursor(a.mainSegment + 1, 0)
         && Get32(sb, OFF_SEGMENTS) == a.segments <= |cells| && Get32(sb, OFF_MAIN_ADDR) / 512 == a.mainSegment
         && |chain| == Get32(sb, OFF_FREE_SEGMENTS) && A.Chain(cells, Get32(sb, OFF_FREE_SEGMENT), chain)
         && A.Apart(a.segments, a.mainSegment, chain, node, data)
         && A.Unspent(cells, chain, node, data, {a.mainStart})
         && S.AllTallied(cells, A.Range(1, a.mainSegment - 1))
         && a.mainSegment <= a.mainStart / 512 < a.segments
  {
    FieldsRead(d, a, root);
    LayoutRead(d, a, root);
    M.SegmentsFit(a);
    var cells := SitOn(d, LayoutOf(d[0]));
    assert a.mainStart / 512 == a.mainSegment;
    hide *;
    forall seg | 0 <= seg < |cells| ensures cells[seg] == M.InitialCell(a, seg) {
      SitCellRead(d, a, root, seg);
    }
    M.FormattedSit(a, cells);
  }
}
