/** The device as formatting writes it (src/fs/rtfs_mkfs.c), and why the first commit on it, and so
    every later one, is crash-atomic. */
module FormattedDevice {
  import opened Wrappers
  import opened Bytes
  import opened JournalFormat
  import opened JournalScan
  import opened RedoLog
  import opened Recovery
  import opened LogRecovery
  import opened DiskFiles
  import opened FileCommit
  import opened CommitRun
  import opened CommitChain
  import M = Mkfs
  import A = Allocators
  import S = SegmentInfo
  import C = SitCodec
  import B = BlockIndex
  import F = FileObjects
  import W = FileWriteback
  import BlockDevice

  const WORDS: nat := 1024
  const FT_DIR: U32 := 2

  // ---- What is written ----

  /** A word of the super block (struct RtfsSuperBlock, src/fs/fs.h). */
  function SuperWord(a: M.Areas, root: U32, i: nat): U32
    requires M.Sound(a) && root < M.MAX_U32
  {
    match i
    case 0 => MAGIC
    case 1 => 1                             // major_ver 1, minor_ver 0
    case 2 => 9 case 3 => 3 case 4 => 12 case 5 => 9
    case 6 => a.blocks % 0x1_0000_0000 case 7 => a.blocks / 0x1_0000_0000
    case 8 => a.segments case 9 => a.sitSegments case 10 => a.natSegments
    case 11 => a.srmapSegments case 12 => a.journalSegments case 13 => a.mainSegments
    case 15 => a.sitStart case 16 => a.natStart case 17 => a.srmapStart
    case 18 => a.journalStart case 19 => a.mainStart
    case 20 => root case 21 => root case 22 => root
    case 23 => if a.mainSegments > 2 then a.mainSegment + 2 else 0
    case 24 => a.mainSegment + 1 case 25 => a.mainSegment
    case 26 => a.mainSegment + 1            // and offset 0 in it
    case 28 => a.mainSegment case 29 => 1
    case 31 => a.mainSegments - 2           // word 30 holds both journal offsets, 0
    case 32 => root + 1
    case _ => 0
  }

  function SuperBlock(a: M.Areas, root: U32): Block
    requires M.Sound(a) && root < M.MAX_U32
  {
    WordBytes(seq(WORDS, i requires 0 <= i < WORDS => SuperWord(a, root, i)))
  }

  function NatWord(a: M.Areas, root: U32, block: nat, i: nat): U32
    requires M.Sound(a)
  {
    var cell := M.InitialNatCell(a, root, block * M.NAT_ENTRIES + i / 2);
    if i % 2 == 0 then cell.ino else cell.addr
  }

  function NatTableBlock(a: M.Areas, root: U32, block: nat): Block
    requires M.Sound(a)
  {
    WordBytes(seq(WORDS, i requires 0 <= i < WORDS => NatWord(a, root, block, i)))
  }

  /** The cells of one SIT block. */
  function SitCells(a: M.Areas, block: nat): (cells: seq<S.Cell>)
    requires M.Sound(a)
    ensures |cells| == C.CELLS_PER_BLOCK
  {
    seq(C.CELLS_PER_BLOCK, i requires 0 <= i < C.CELLS_PER_BLOCK => M.InitialCell(a, block * C.CELLS_PER_BLOCK + i))
  }

  /** Block number block of the SIT holds those cells; its last 16 bytes, behind the entries, are not set. */
  ghost predicate HoldsCells(d: Image, a: M.Areas, block: nat)
    requires M.Sound(a) && a.sitStart + block < |d|
  {
    d[a.sitStart + block][..C.CELL_BYTES * C.CELLS_PER_BLOCK] == C.CellsBytes(SitCells(a, block))
  }

  ghost predicate SitFormatted(d: Image, a: M.Areas)
    requires M.Sound(a) && a.blocks <= |d|
  {
    forall b: nat :: b < a.sitSegments * 512 ==> HoldsCells(d, a, b)
  }

  /** The root directory's inode: permissions and the inline mark in its first word, its type, two links,
      one block, itself as parent; no addresses and no nids. */
  function RootWord(root: U32, i: nat): U32 {
    match i
    case 0 => 0x4_01ed
    case 1 => FT_DIR
    case 2 => 2
    case 8 => 1
    case 17 => root
    case 1020 => root case 1021 => root
    case _ => 0
  }

  function RootNode(root: U32): B.Node {
    seq(B.NODE_WORDS, i requires 0 <= i < B.NODE_WORDS => RootWord(root, i))
  }

  /** What matters of a formatted device: super block, an empty journal, the SIT, the NAT, the root inode. */
  ghost predicate Formatted(d: Image, a: M.Areas, root: U32) {
    && M.Sound(a) && 0 < root && root + 1 < a.blocks && a.blocks <= |d| <= 0x1_0000_0000
    && d[0] == SuperBlock(a, root)
    && (forall l: nat :: a.journalStart <= l < a.sitStart ==> d[l] == ZeroBlock())
    && (forall b: nat :: b < a.natSegments * 512 ==> d[a.natStart + b] == NatTableBlock(a, root, b))
    && SitFormatted(d, a) && d[a.mainStart] == NodeBlock(RootNode(root))
  }

  // ---- Writing it ----

  ghost predicate SameOutside(before: Image, after: Image, lo: nat, hi: nat) {
    |after| == |before| && forall l: nat :: l < |before| && !(lo <= l < hi) ==> after[l] == before[l]
  }

  /** One run of zero blocks for each metadata segment. */
  method WriteZeros(dev: BlockDevice.Device, a: M.Areas) returns (ok: bool)
    requires M.Sound(a) && a.blocks <= |dev.disk|
    modifies dev`disk, dev`history
    ensures SameOutside(old(dev.disk), dev.disk, 512, a.mainStart)
    ensures ok ==> forall l: nat :: 512 <= l < a.mainStart ==> dev.disk[l] == ZeroBlock()
  {
    ghost var before := dev.disk;
    var seg := 1;
    while seg < a.mainSegment
      invariant 1 <= seg <= a.mainSegment && SameOutside(before, dev.disk, 512, a.mainStart)
      invariant forall l: nat :: 512 <= l < 512 * seg ==> dev.disk[l] == ZeroBlock()
    {
      var off := 0;
      while off < 512
        invariant off <= 512 && SameOutside(before, dev.disk, 512, a.mainStart)
        invariant forall l: nat :: 512 <= l < 512 * seg + off ==> dev.disk[l] == ZeroBlock()
      {
        ok := Write(dev, M.SegToLpa(seg) + off, ZeroBlock());
        if !ok { return; }
        off := off + 1;
      }
      seg := seg + 1;
    }
    ok := true;
  }

  /** The write hook of the formatter; it may fail. */
  method Write(dev: BlockDevice.Device, lpa: nat, b: Block) returns (ok: bool)
    modifies dev`disk, dev`history
    ensures ok ==> lpa < |old(dev.disk)| && dev.disk == old(dev.disk)[lpa := b]
    ensures !ok ==> dev.disk == old(dev.disk)
  {
    ok := *;
    if ok { ok := dev.WriteBlock(lpa, b); }
  }

  /** rtfsMkfsWriteInitialNat, block by block. */
  method WriteNat(dev: BlockDevice.Device, a: M.Areas, root: U32) returns (ok: bool)
    requires M.Sound(a) && 0 < root && root + 1 < a.blocks <= |dev.disk|
    modifies dev`disk, dev`history
    ensures SameOutside(old(dev.disk), dev.disk, a.natStart, a.srmapStart)
    ensures ok ==> forall b: nat :: b < a.natSegments * 512 ==> dev.disk[a.natStart + b] == NatTableBlock(a, root, b)
  {
    ghost var before := dev.disk;
    var block := 0;
    while block < a.natSegments * 512
      invariant block <= a.natSegments * 512 && SameOutside(before, dev.disk, a.natStart, a.srmapStart)
      invariant forall b: nat :: b < block ==> dev.disk[a.natStart + b] == NatTableBlock(a, root, b)
    {
      var cells := M.InitialNatBlock(a, root, block);
      CellsAsBytes(a, root, block, cells);
      ok := Write(dev, a.natStart + block, CellBytes(cells));
      if !ok { return; }
      block := block + 1;
    }
    ok := true;
  }

  /** rtfsMkfsWriteInitialSit, block by block; the entries fill 4080 bytes, and whatever follows them in
      memory is written with them. */
  method WriteSit(dev: BlockDevice.Device, a: M.Areas, behind: seq<Byte>) returns (ok: bool)
    requires M.Sound(a) && a.blocks <= |dev.disk| && |behind| == BLOCK_SIZE - C.CELL_BYTES * C.CELLS_PER_BLOCK
    modifies dev`disk, dev`history
    ensures SameOutside(old(dev.disk), dev.disk, a.sitStart, a.natStart) && (ok ==> SitFormatted(dev.disk, a))
  {
    hide M.InitialCell, HoldsCells, C.CellsBytes, S.SetBits, M.LinkedCell;
    ghost var before := dev.disk;
    M.SegmentsFit(a);
    var block := 0;
    while block < a.sitSegments * 512
      invariant block <= a.sitSegments * 512 && SameOutside(before, dev.disk, a.sitStart, a.natStart)
      invariant forall b: nat :: b < block ==> HoldsCells(dev.disk, a, b)
    {
      var cells := M.InitialSitBlock(a, block);
      var bytes := C.CellsBytes(cells) + behind;
      ghost var disk := dev.disk;
      CellsHeld(a, block, cells, behind);
      ok := Write(dev, a.sitStart + block, bytes);
      if !ok { return; }
      CellsKept(disk, dev.disk, a, block);
      assert dev.disk[a.sitStart + block] == bytes;
      HeldIf(dev.disk, a, block, bytes);
      block := block + 1;
    }
    ok := true;
  }

  lemma CellsHeld(a: M.Areas, block: nat, cells: seq<S.Cell>, behind: seq<Byte>)
    requires M.Sound(a) && |cells| == M.SIT_ENTRIES && |behind| == BLOCK_SIZE - C.CELL_BYTES * C.CELLS_PER_BLOCK
    requires forall i :: 0 <= i < M.SIT_ENTRIES ==> cells[i] == M.InitialCell(a, block * M.SIT_ENTRIES + i)
    ensures |C.CellsBytes(cells) + behind| == BLOCK_SIZE
    ensures (C.CellsBytes(cells) + behind)[..C.CELL_BYTES * C.CELLS_PER_BLOCK] == C.CellsBytes(SitCells(a, block))
  {
    hide M.InitialCell, C.CellsBytes;
    assert cells == SitCells(a, block);
  }

  lemma HeldIf(d: Image, a: M.Areas, block: nat, bytes: Block)
    requires M.Sound(a) && a.sitStart + block < |d| && d[a.sitStart + block] == bytes
    requires bytes[..C.CELL_BYTES * C.CELLS_PER_BLOCK] == C.CellsBytes(SitCells(a, block))
    ensures HoldsCells(d, a, block)
  {
  }

  lemma CellsKept(d: Image, d': Image, a: M.Areas, n: nat)
    requires M.Sound(a) && |d'| == |d| && a.sitStart + n <= |d|
    requires forall b: nat :: b < n ==> HoldsCells(d, a, b) && d'[a.sitStart + b] == d[a.sitStart + b]
    ensures forall b: nat :: b < n ==> HoldsCells(d', a, b)
  {
    forall b: nat | b < n ensures HoldsCells(d', a, b) { assert HoldsCells(d, a, b); }
  }

  predicate FitWords(cells: seq<A.NatCell>) {
    |cells| == M.NAT_ENTRIES && forall i :: 0 <= i < |cells| ==>
      cells[i].ino < 0x1_0000_0000 && cells[i].addr < 0x1_0000_0000
  }

  function CellWord(cells: seq<A.NatCell>, i: nat): U32
    requires FitWords(cells) && i < WORDS
  {
    if i % 2 == 0 then cells[i / 2].ino else cells[i / 2].addr
  }

  function CellBytes(cells: seq<A.NatCell>): Block
    requires FitWords(cells)
  {
    WordBytes(seq(WORDS, i requires 0 <= i < WORDS => CellWord(cells, i)))
  }

  lemma CellsAsBytes(a: M.Areas, root: U32, block: nat, cells: seq<A.NatCell>)
    requires M.Sound(a) && |cells| == M.NAT_ENTRIES
    requires forall i :: 0 <= i < M.NAT_ENTRIES ==> cells[i] == M.InitialNatCell(a, root, block * M.NAT_ENTRIES + i)
    ensures FitWords(cells) && CellBytes(cells) == NatTableBlock(a, root, block)
  {
    var xs := seq(WORDS, i requires 0 <= i < WORDS => CellWord(cells, i));
    var ys := seq(WORDS, i requires 0 <= i < WORDS => NatWord(a, root, block, i));
    assert xs == ys;
  }

  /** Given blocks, one after another. */
  method WriteRun(dev: BlockDevice.Device, start: nat, blocks: seq<Block>) returns (ok: bool)
    modifies dev`disk, dev`history
    ensures SameOutside(old(dev.disk), dev.disk, start, start + |blocks|)
  {
    var i := 0;
    while i < |blocks|
      invariant i <= |blocks| && SameOutside(old(dev.disk), dev.disk, start, start + |blocks|)
    {
      ok := Write(dev, start + i, blocks[i]);
      if !ok { return; }
      i := i + 1;
    }
    ok := true;
  }

  lemma AreaBounds(a: M.Areas)
    requires M.Sound(a)
    ensures 512 == a.journalStart <= a.sitStart && a.sitStart + a.sitSegments * 512 == a.natStart
    ensures a.natStart + a.natSegments * 512 == a.srmapStart && a.srmapStart + a.srmapSegments * 512 == a.mainStart
    ensures a.mainStart < a.blocks
  {
  }

  /** The metadata in front of the main area, between super block and root inode. */
  ghost predicate TablesWritten(before: Image, d: Image, a: M.Areas, root: U32)
    requires M.Sound(a) && a.blocks <= |d|
  {
    && SameOutside(before, d, 512, a.mainStart) && SitFormatted(d, a)
    && (forall l: nat :: a.journalStart <= l < a.sitStart ==> d[l] == ZeroBlock())
    && forall b: nat :: b < a.natSegments * 512 ==> d[a.natStart + b] == NatTableBlock(a, root, b)
  }

  /** The calls of rtfsMkfsFormat that write the tables, with the SRMAP blocks given. */
  method WriteTables(dev: BlockDevice.Device, a: M.Areas, root: U32, srmap: seq<Block>, behind: seq<Byte>)
    returns (ok: bool)
    requires M.Sound(a) && 0 < root && root + 1 < a.blocks && a.blocks <= |dev.disk|
    requires |srmap| == a.srmapSegments * 512 && |behind| == BLOCK_SIZE - C.CELL_BYTES * C.CELLS_PER_BLOCK
    modifies dev`disk, dev`history
    ensures |dev.disk| == |old(dev.disk)| && (ok ==> TablesWritten(old(dev.disk), dev.disk, a, root))
  {
    AreaBounds(a);
    hide M.Sound, NatTableBlock, HoldsCells;
    ok := WriteZeros(dev, a);
    if !ok { return; }
    ok := WriteNat(dev, a, root);
    if !ok { return; }
    ok := WriteSit(dev, a, behind);
    if !ok { return; }
    ghost var disk := dev.disk;
    ok := WriteRun(dev, a.srmapStart, srmap);
    if !ok { return; }
    CellsKept(disk, dev.disk, a, a.sitSegments * 512);
  }

  /** rtfsMkfsFormat, with the SRMAP blocks given. */
  method Format(dev: BlockDevice.Device, a: M.Areas, root: U32, srmap: seq<Block>, behind: seq<Byte>)
    returns (ok: bool)
    requires M.Sound(a) && 0 < root && root + 1 < a.blocks && a.blocks <= |dev.disk| <= 0x1_0000_0000
    requires |srmap| == a.srmapSegments * 512 && |behind| == BLOCK_SIZE - C.CELL_BYTES * C.CELLS_PER_BLOCK
    modifies dev`disk, dev`history
    ensures |dev.disk| == |old(dev.disk)| && (ok ==> Formatted(dev.disk, a, root))
  {
    AreaBounds(a);
    hide M.Sound, SuperBlock, NatTableBlock, HoldsCells;
    ok := Write(dev, 0, SuperBlock(a, root));
    if !ok { return; }
    ok := WriteTables(dev, a, root, srmap, behind);
    if !ok { return; }
    ghost var disk := dev.disk;
    ok := Write(dev, a.mainStart, NodeBlock(RootNode(root)));
    if !ok { return; }
    CellsKept(disk, dev.disk, a, a.sitSegments * 512);
  }

  // ---- Reading it back ----

  ghost function GeometryFrom(a: M.Areas): Geometry
    requires M.Sound(a)
  {
    Geometry(Layout(a.natStart, a.natSegments * 512, a.sitStart, a.sitSegments * 512), a.journalStart,
      a.journalSegments * 512)
  }

  lemma SuperWordAt(a: M.Areas, root: U32, i: nat)
    requires M.Sound(a) && root < M.MAX_U32 && i < WORDS
    ensures Get32(SuperBlock(a, root), 4 * i) == SuperWord(a, root, i)
  {
    WordBytesAt(seq(WORDS, k requires 0 <= k < WORDS => SuperWord(a, root, k)), i);
  }

  lemma ZeroHalf(s: seq<Byte>, off: nat)
    requires off + 4 <= |s| && Get32(s, off) == 0
    ensures Get16(s, off + 2) == 0
  {
    assert LeValue(s, off + 2, 2) == 0;
    assert LeValue(s, off + 4, 0) == 0;
  }

  lemma FormattedSuper(a: M.Areas, root: U32)
    requires M.Sound(a) && root < M.MAX_U32
    ensures var sb := SuperBlock(a, root);
      Get32(sb, OFF_MAGIC) == MAGIC && GeometryOf(sb) == GeometryFrom(a) && Get16(sb, OFF_JOURNAL_END) == 0
  {
    var sb := SuperBlock(a, root);
    SuperWordAt(a, root, 0);
    SuperWordAt(a, root, 9);
    SuperWordAt(a, root, 10);
    SuperWordAt(a, root, 12);
    SuperWordAt(a, root, 15);
    SuperWordAt(a, root, 16);
    SuperWordAt(a, root, 18);
    SuperWordAt(a, root, 30);
    hide SuperBlock;
    ZeroHalf(sb, OFF_JOURNAL_START);
  }

  /** A formatted device can be mounted, as long as the journal's offsets fit their 16 bits, and its log
      is empty. */
  lemma FormattedReplays(d: Image, a: M.Areas, root: U32)
    requires Formatted(d, a, root) && 0 < a.journalSegments <= 128
    ensures Replayable(d, []) && GeometryOf(d[0]) == GeometryFrom(a) && TablesApart(LayoutOf(d[0]))
    ensures EndPos(d, []) == 0
  {
    FormattedSuper(a, root);
    hide SuperBlock;
    assert Mountable(d);
    var ring := RingOf(d);
    assert ScanPosOf(d[0]) == 0;
    assert Rotate(ring, 0)[0] == ring[0] == d[a.journalStart] == ZeroBlock();
    ZeroBlockStops();
  }

  lemma RecoveredEmpty(d: Image)
    requires Replayable(d, [])
    ensures NatOnDisk(Recovered(d, []), LayoutOf(d[0])) && |Recovered(d, [])| == |d|
    ensures forall l :: 0 < l < |d| ==> Recovered(d, [])[l] == d[l]
  {
    assert LogUpdates(d, []) == [];
  }

  /** The NAT entries read from the device are those formatting meant. */
  lemma FormattedNat(d: Image, a: M.Areas, root: U32, nid: U32)
    requires Formatted(d, a, root) && 0 < a.journalSegments <= 128 && InNat(GeometryFrom(a).lay, nid)
    ensures Replayable(d, []) && NatOnDisk(Recovered(d, []), GeometryFrom(a).lay)
    ensures NatOwner(Recovered(d, []), GeometryFrom(a).lay, nid) == M.InitialNatCell(a, root, nid).ino
    ensures NatLpa(Recovered(d, []), GeometryFrom(a).lay, nid) == M.InitialNatCell(a, root, nid).addr
  {
    hide *;
    NatBlockRead(d, a, root, nid);
    NatCellIs(Recovered(d, []), GeometryFrom(a).lay, a, root, nid, nid / 512, nid % 512);
  }

  lemma NatCellIs(D: Image, lay: Layout, a: M.Areas, root: U32, nid: U32, block: nat, index: nat)
    requires M.Sound(a) && NatOnDisk(D, lay) && InNat(lay, nid) && block == nid / 512 && index == nid % 512
    requires lay.natStart + block < |D| && D[lay.natStart + block] == NatTableBlock(a, root, block)
    ensures NatOwner(D, lay, nid) == M.InitialNatCell(a, root, nid).ino
    ensures NatLpa(D, lay, nid) == M.InitialNatCell(a, root, nid).addr
  {
    assert NAT_ENTRIES_PER_BLOCK == M.NAT_ENTRIES == 512;
    hide *;
    LocateIsDivision(NAT_ENTRIES_PER_BLOCK, nid);
    NatAt(D, lay, nid, block, index);
    NatTableWords(a, root, block, index);
    BlockAndPlace(nid);
  }

  lemma BlockAndPlace(n: nat)
    ensures n / 512 * M.NAT_ENTRIES + n % 512 == n
  {
  }

  lemma NatBlockRead(d: Image, a: M.Areas, root: U32, nid: U32)
    requires Formatted(d, a, root) && 0 < a.journalSegments <= 128 && InNat(GeometryFrom(a).lay, nid)
    ensures M.Sound(a) && GeometryFrom(a).lay.natStart == a.natStart
    ensures Replayable(d, []) && NatOnDisk(Recovered(d, []), GeometryFrom(a).lay)
    ensures a.natStart + nid / 512 < |Recovered(d, [])|
    ensures Recovered(d, [])[a.natStart + nid / 512] == NatTableBlock(a, root, nid / 512)
  {
    assert M.Sound(a) && GeometryFrom(a).lay.natBlocks == a.natSegments * 512;
    LocateIsDivision(NAT_ENTRIES_PER_BLOCK, nid);
    assert nid / 512 < a.natSegments * 512;
    hide *;
    FormattedReplays(d, a, root);
    RecoveredEmpty(d);
    NatBlockOn(d, a, root, nid / 512);
  }

  lemma NatBlockOn(d: Image, a: M.Areas, root: U32, block: nat)
    requires Formatted(d, a, root) && block < a.natSegments * 512
    ensures 0 < a.natStart + block < |d| && d[a.natStart + block] == NatTableBlock(a, root, block)
  {
    hide NatTableBlock;
  }

  lemma NatAt(D: Image, lay: Layout, nid: U32, block: nat, index: nat)
    requires NatOnDisk(D, lay) && InNat(lay, nid) && Locate(NAT_ENTRIES_PER_BLOCK, nid) == Place(block, index)
    ensures block < lay.natBlocks && index < 512
    ensures NatOwner(D, lay, nid) == Get32(D[lay.natStart + block], 8 * index)
    ensures NatLpa(D, lay, nid) == Get32(D[lay.natStart + block], 8 * index + 4)
  {
  }

  lemma NatTableWords(a: M.Areas, root: U32, block: nat, index: nat)
    requires M.Sound(a) && index < 512
    ensures Get32(NatTableBlock(a, root, block), 8 * index) ==
      M.InitialNatCell(a, root, block * M.NAT_ENTRIES + index).ino
    ensures Get32(NatTableBlock(a, root, block), 8 * index + 4) ==
      M.InitialNatCell(a, root, block * M.NAT_ENTRIES + index).addr
  {
    var words := seq(WORDS, i requires 0 <= i < WORDS => NatWord(a, root, block, i));
    WordBytesAt(words, 2 * index);
    WordBytesAt(words, 2 * index + 1);
    hide WordBytes, Get32;
    assert 2 * index / 2 == index && 2 * index % 2 == 0 && (2 * index + 1) / 2 == index && (2 * index + 1) % 2 == 1;
  }

  /** An inode without nids leads to no other node. */
  lemma {:induction false} BareWalk(nodes: map<U32, B.Node>, ino: U32, h: seq<nat>)
    requires ino in nodes ==> forall k :: B.WORD_NID <= k < B.WORD_FOOTER ==> nodes[ino][k] == 0
    requires B.Position(h) && h != []
    ensures B.Walk(nodes, ino, h) == None
    decreases |h|
  {
    B.PositionPrefix(h);
    if |h| > 1 { BareWalk(nodes, ino, h[..|h| - 1]); }
  }

  lemma BareHoles(nodes: map<U32, B.Node>, ino: U32, index: nat)
    requires ino in nodes ==> forall k :: B.WORD_ADDR <= k < B.WORD_FOOTER ==> nodes[ino][k] == 0
    requires index < B.MAX_BLOCKS
    ensures B.LpaOf(nodes, ino, index) == 0
  {
    hide B.PathOf;
    B.PathShape(index, 0);
    if B.PathOf(index).hops != [] { BareWalk(nodes, ino, B.PathOf(index).hops); }
  }

  /** The only node of a formatted device is the root's inode, and it is bare. */
  lemma OnlyRootNode(d: Image, a: M.Areas, root: U32, ino: U32)
    requires Formatted(d, a, root) && 0 < a.journalSegments <= 128
    ensures |d| > 0 && Replayable(d, []) && NatOnDisk(Recovered(d, []), LayoutOf(d[0]))
    ensures var D, lay := Recovered(d, []), LayoutOf(d[0]);
      && (HasNode(D, lay, ino) ==> ino == root && NatLpa(D, lay, ino) == a.mainStart)
      && (ino in NodesOf(D, lay) ==> ino == root && Bare(NodesOf(D, lay)[ino]))
  {
    FormattedReplays(d, a, root);
    RecoveredEmpty(d);
    var D, lay := Recovered(d, []), LayoutOf(d[0]);
    assert D[a.mainStart] == d[a.mainStart];
    assert lay == GeometryFrom(a).lay && |D| == |d|;
    hide Replayable, Recovered;
    if InNat(lay, ino) { FormattedNat(d, a, root, ino); }
    NodeRoundTrip(RootNode(root));
  }

  /** No addresses and no nids. */
  ghost predicate Bare(w: B.Node) {
    forall k :: B.WORD_ADDR <= k < B.WORD_FOOTER ==> w[k] == 0
  }

  /** After formatting no file occupies any block, but for the root's own inode block. */
  lemma FormattedOccupies(d: Image, a: M.Areas, root: U32, ino: U32, l: nat)
    requires Formatted(d, a, root) && 0 < a.journalSegments <= 128
    ensures Replayable(d, []) && NatOnDisk(Recovered(d, []), LayoutOf(d[0]))
    ensures Occupies(Recovered(d, []), LayoutOf(d[0]), ino, l) ==> l == a.mainStart
  {
    OnlyRootNode(d, a, root, ino);
    var D, lay := Recovered(d, []), LayoutOf(d[0]);
    hide Replayable, Recovered, NodesOf, HasNode, RootNode, Formatted;
    forall h | NodeStandsIn(D, lay, ino, h, l) ensures l == a.mainStart {
      if h != [] { BareWalk(NodesOf(D, lay), ino, h); }
    }
    forall k: nat ensures F.LpaAt(OnDisk(D, lay, ino), k) == 0 {
      if k < B.MAX_BLOCKS { BareHoles(NodesOf(D, lay), ino, k); }
    }
  }

  // ---- The first commit ----

  /** A new file: its inode has no addresses and no nids yet, and is dirty. */
  ghost predicate NewFile(s: F.FileState) {
    && s.ino != 0 && s.nodes.Keys == {s.ino} && B.Footed(s.nodes, s.ino)
    && forall k :: B.WORD_ADDR <= k < B.WORD_FOOTER ==> s.nodes[s.ino][k] == 0
  }

  /** A new file on a formatted device is settled. */
  lemma NewFileIsSettled(d: Image, a: M.Areas, root: U32, s: F.FileState)
    requires Formatted(d, a, root) && 0 < a.journalSegments <= 128
    requires NewFile(s) && s.disk == d && InNat(LayoutOf(d[0]), s.ino)
    ensures Settled(d, [], s, {s.ino}, {a.mainStart}) && B.Tree(s.nodes, s.ino)
  {
    forall h | B.Position(h) && h != [] ensures B.Walk(s.nodes, s.ino, h) == None { BareWalk(s.nodes, s.ino, h); }
    assert B.Walk(s.nodes, s.ino, []) == Some(s.ino);
    FormattedReplays(d, a, root);
    RecoveredEmpty(d);
    var D := Recovered(d, []);
    assert GeometryOf(d[0]) == GeometryFrom(a);
    hide Replayable, Recovered;
    forall l: nat | Occupies(D, LayoutOf(d[0]), s.ino, l) ensures l == a.mainStart {
      FormattedOccupies(d, a, root, s.ino, l);
    }
    forall k: nat ensures F.LpaAt(s, k) == 0 {
      if k < B.MAX_BLOCKS { BareHoles(s.nodes, s.ino, k); }
    }
  }

  /** The root directory is apart from every file: no commit of a new file can touch its inode. */
  lemma RootIsApart(d: Image, a: M.Areas, root: U32, nids: set<U32>)
    requires Formatted(d, a, root) && 0 < a.journalSegments <= 128 && root !in nids
    ensures Replayable(d, []) && NatOnDisk(Recovered(d, []), LayoutOf(d[0]))
    ensures Within(Recovered(d, []), LayoutOf(d[0]), root, {a.mainStart})
    ensures Apart(Recovered(d, []), LayoutOf(d[0]), root, nids)
  {
    OnlyRootNode(d, a, root, root);
    var D, lay := Recovered(d, []), LayoutOf(d[0]);
    hide Replayable, Recovered, NodesOf, HasNode, RootNode, Formatted;
    forall l: nat | Occupies(D, lay, root, l) ensures l == a.mainStart { FormattedOccupies(d, a, root, root, l); }
    forall n | B.Reached(NodesOf(D, lay), root, n) ensures n !in nids {
      var h :| B.Position(h) && B.Walk(NodesOf(D, lay), root, h) == Some(n);
      if h != [] { BareWalk(NodesOf(D, lay), root, h); }
    }
  }

  // ---- The blocks the allocator can give ----

  /** Whatever the allocator of a formatted device may hand out is a main block that it never handed
      out before: it can serve as the free blocks of a commit. */
  lemma AheadIsNeverHanded(a: M.Areas, n: nat, cells: seq<S.Cell>, chain: seq<nat>, node: A.Cursor, data: A.Cursor,
                           handed: set<U32>, free: set<U32>)
    requires M.Sound(a) && a.blocks <= n
    requires A.Apart(a.segments, a.mainSegment, chain, node, data) && A.Unspent(cells, chain, node, data, handed)
    requires forall l :: l in free ==> A.Ahead(chain, node, data, l)
    ensures NeverHanded(GeometryFrom(a), n, handed, free)
  {
    hide A.Unspent;
    A.UnspentAt(cells, chain, node, data, handed);
    forall l | l in free ensures MainBlock(GeometryFrom(a), l) && l < n {
      assert A.Ahead(chain, node, data, l);
    }
  }

  /** The free blocks that an allocation leaves are those there were without the blocks it gave, as the
      commit assumes. */
  lemma AllocationLeaves(a: M.Areas, chain: seq<nat>, node: A.Cursor, data: A.Cursor, chain': seq<nat>, node': A.Cursor,
                         data': A.Cursor, lpa: nat, count: nat)
    requires A.Given(chain, node, data, chain', node', data', A.Range(lpa, count))
    ensures AheadSet(a, chain', node', data') == AheadSet(a, chain, node, data) - A.Range(lpa, count)
    ensures forall l :: l in A.Range(lpa, count) && l < a.blocks ==> l in AheadSet(a, chain, node, data)
  {
    hide A.Ahead;
  }

  ghost function AheadSet(a: M.Areas, chain: seq<nat>, node: A.Cursor, data: A.Cursor): set<nat> {
    set l: nat | l < a.blocks && A.Ahead(chain, node, data, l)
  }

  /** An allocation that fails has left at most the rest of the segment that is open for the other kind. */
  lemma ReserveIsLeft(a: M.Areas, chain: seq<nat>, node: A.Cursor, data: A.Cursor)
    requires chain == [] && (node.off == 512 || data.off == 512)
    ensures |AheadSet(a, chain, node, data)| <= W.NODE_RESERVE
  {
    var seg := if node.off == 512 then data.seg else node.seg;
    A.RangeSize(512 * seg, 512);
    forall l | l in AheadSet(a, chain, node, data) ensures l in A.Range(512 * seg, 512) {}
    assert AheadSet(a, chain, node, data) <= A.Range(512 * seg, 512);
    SubsetSize(AheadSet(a, chain, node, data), A.Range(512 * seg, 512));
  }

  /** On a formatted device the allocator can give every block behind the root inode. */
  lemma FormattedFree(a: M.Areas, l: nat)
    requires M.Sound(a)
    ensures A.Ahead(M.From(a.mainSegment + 2, a.segments), A.Cursor(a.mainSegment, 1), A.Cursor(a.mainSegment + 1, 0),
      l)
      <==> a.mainStart < l < a.blocks
  {
    var chain := M.From(a.mainSegment + 2, a.segments);
    var seg := l / 512;
    assert seg in chain <==> a.mainSegment + 2 <= seg < a.segments by {
      if a.mainSegment + 2 <= seg < a.segments { assert chain[seg - (a.mainSegment + 2)] == seg; }
    }
  }

  /** So the commits of a new file on a formatted device are atomic from the first one on: it is settled,
      and whatever the allocator gives was never handed out. */
  lemma FirstCommitIsReady(d: Image, a: M.Areas, root: U32, s: F.FileState, free: set<U32>)
    requires Formatted(d, a, root) && 0 < a.journalSegments <= 128
    requires NewFile(s) && s.disk == d && InNat(LayoutOf(d[0]), s.ino)
    requires forall l :: l in free ==>
      A.Ahead(M.From(a.mainSegment + 2, a.segments), A.Cursor(a.mainSegment, 1), A.Cursor(a.mainSegment + 1, 0), l)
    ensures Settled(d, [], s, {s.ino}, {a.mainStart}) && NeverHanded(GeometryOf(d[0]), |d|, {a.mainStart}, free)
  {
    FormattedReplays(d, a, root);
    NewFileIsSettled(d, a, root, s);
    assert M.Sound(a) && a.blocks <= |d|;
    hide *;
    FormattedIsNeverHanded(a, |d|, free);
  }

  lemma FormattedIsNeverHanded(a: M.Areas, n: nat, free: set<U32>)
    requires M.Sound(a) && a.blocks <= n
    requires forall l :: l in free ==>
      A.Ahead(M.From(a.mainSegment + 2, a.segments), A.Cursor(a.mainSegment, 1), A.Cursor(a.mainSegment + 1, 0), l)
    ensures NeverHanded(GeometryFrom(a), n, {a.mainStart}, free)
  {
    var cells := seq(a.segments, seg requires 0 <= seg < a.segments => M.InitialCell(a, seg));
    var chain, node, data := M.From(a.mainSegment + 2, a.segments), A.Cursor(a.mainSegment, 1),
      A.Cursor(a.mainSegment + 1, 0);
    M.FormattedSit(a, cells);
    hide *;
    AheadIsNeverHanded(a, n, cells, chain, node, data, {a.mainStart}, free);
  }
}
