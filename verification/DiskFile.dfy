/** A file as it stands on the device: the NAT table leads to its node blocks, and these to its data
    (src/fs/fs.h, src/fs/nat_utils.c). */
module DiskFiles {
  import opened Wrappers
  import opened Bytes
  import opened JournalFormat
  import opened JournalDedup
  import opened RedoLog
  import opened LogRecovery
  import B = BlockIndex
  import F = FileObjects

  /** The NAT table of the layout lies on the device. */
  ghost predicate NatOnDisk(disk: Image, lay: Layout) {
    lay.natStart + lay.natBlocks <= |disk|
  }

  ghost predicate InNat(lay: Layout, nid: U32) {
    Locate(NAT_ENTRIES_PER_BLOCK, nid).block < lay.natBlocks
  }

  /** natGetLpaOfNid, on the table as it stands on the device. */
  ghost function NatLpa(disk: Image, lay: Layout, nid: U32): U32
    requires NatOnDisk(disk, lay) && InNat(lay, nid)
  {
    var p := Locate(NAT_ENTRIES_PER_BLOCK, nid);
    Get32(disk[lay.natStart + p.block], NAT_ENTRY_BYTES * p.index + 4)
  }

  /** The owner word of the NAT entry: 0 in the entry of a free nid, whose address word then is no block
      but the next free nid (src/fs/rtfs_mkfs.c, src/fs/super_manager.c). */
  ghost function NatOwner(disk: Image, lay: Layout, nid: U32): U32
    requires NatOnDisk(disk, lay) && InNat(lay, nid)
  {
    var p := Locate(NAT_ENTRIES_PER_BLOCK, nid);
    Get32(disk[lay.natStart + p.block], NAT_ENTRY_BYTES * p.index)
  }

  /** A node block as words. */
  ghost function WordsOf(b: Block): B.Node {
    seq(B.NODE_WORDS, i requires 0 <= i < B.NODE_WORDS => Get32(b, 4 * i))
  }

  ghost predicate HasNode(disk: Image, lay: Layout, nid: U32)
    requires NatOnDisk(disk, lay)
  {
    InNat(lay, nid) && NatOwner(disk, lay, nid) != 0 && 0 < NatLpa(disk, lay, nid) < |disk|
  }

  /** All nodes the NAT table knows. */
  ghost function NodesOf(disk: Image, lay: Layout): map<U32, B.Node>
    requires NatOnDisk(disk, lay)
  {
    map nid: U32 | 0 <= nid < 0x1_0000_0000 && HasNode(disk, lay, nid) :: WordsOf(disk[NatLpa(disk, lay, nid)])
  }

  /** The file as it would be opened from the device. */
  ghost function OnDisk(disk: Image, lay: Layout, ino: U32): F.FileState
    requires NatOnDisk(disk, lay)
  {
    F.FileState(map[], disk, NodesOf(disk, lay), ino)
  }

  // i_size is the seventh and eighth word of the inode.
  const WORD_SIZE: nat := 6

  function SizeIn(nodes: map<U32, B.Node>, ino: U32): nat {
    if ino in nodes then nodes[ino][WORD_SIZE] as int + 0x1_0000_0000 * nodes[ino][WORD_SIZE + 1] as int else 0
  }

  ghost function SizeOnDisk(disk: Image, lay: Layout, ino: U32): nat
    requires NatOnDisk(disk, lay)
  {
    SizeIn(NodesOf(disk, lay), ino)
  }

  /** The two devices hold the same file: same size, same contents. */
  ghost predicate SameFile(d: Image, d': Image, lay: Layout, ino: U32)
    requires NatOnDisk(d, lay) && NatOnDisk(d', lay)
  {
    SizeOnDisk(d, lay, ino) == SizeOnDisk(d', lay, ino) && F.SameBlocks(OnDisk(d, lay, ino), OnDisk(d', lay, ino))
  }

  /** Block l is a block of the NAT table. */
  ghost predicate NatBlock(lay: Layout, l: nat) {
    lay.natStart <= l < lay.natStart + lay.natBlocks
  }

  /** The node at h of the file's tree stands in block l. */
  ghost predicate NodeStandsIn(d: Image, lay: Layout, ino: U32, h: seq<nat>, l: nat)
    requires NatOnDisk(d, lay)
  {
    && B.Position(h) && B.Walk(NodesOf(d, lay), ino, h).Some?
    && HasNode(d, lay, B.Walk(NodesOf(d, lay), ino, h).value) &&
      NatLpa(d, lay, B.Walk(NodesOf(d, lay), ino, h).value) == l
  }

  /** A node of the file or some of its data stands in block l. */
  ghost predicate Occupies(d: Image, lay: Layout, ino: U32, l: nat)
    requires NatOnDisk(d, lay)
  {
    (exists h :: NodeStandsIn(d, lay, ino, h, l)) || (l != 0 && exists k: nat :: F.LpaAt(OnDisk(d, lay, ino), k) == l)
  }

  /** The file on d does not depend on block l: it is no NAT block, and the file does not occupy it. */
  ghost predicate Unused(d: Image, lay: Layout, ino: U32, l: nat)
    requires NatOnDisk(d, lay)
  {
    !NatBlock(lay, l) && !Occupies(d, lay, ino, l)
  }

  lemma SameTableSameNat(d: Image, d': Image, lay: Layout, nid: U32)
    requires |d'| == |d| && NatOnDisk(d, lay) && InNat(lay, nid)
    requires forall l: nat :: l < |d| && NatBlock(lay, l) ==> d'[l] == d[l]
    ensures NatLpa(d', lay, nid) == NatLpa(d, lay, nid) && NatOwner(d', lay, nid) == NatOwner(d, lay, nid)
  {
    var p := Locate(NAT_ENTRIES_PER_BLOCK, nid);
    assert NatBlock(lay, lay.natStart + p.block);
  }

  /** The devices differ at most in blocks the file does not depend on. */
  ghost predicate DifferUnused(d: Image, d': Image, lay: Layout, ino: U32)
    requires NatOnDisk(d, lay)
  {
    |d'| == |d| && forall l: nat :: l < |d| ==> d'[l] == d[l] || Unused(d, lay, ino, l)
  }

  /** The NAT entry of nid is the same on both devices. */
  ghost predicate SameEntry(d: Image, d': Image, lay: Layout, nid: U32)
    requires NatOnDisk(d, lay) && |d'| == |d|
  {
    InNat(lay, nid) ==> NatLpa(d', lay, nid) == NatLpa(d, lay, nid) && NatOwner(d', lay, nid) == NatOwner(d, lay, nid)
  }

  /** Nothing of the file on d is lost on d': the NAT entries of its nodes and all blocks it occupies are
      the same. */
  ghost predicate KeepsFile(d: Image, d': Image, lay: Layout, ino: U32)
    requires NatOnDisk(d, lay)
  {
    && |d'| == |d| && (forall l: nat :: l < |d| && Occupies(d, lay, ino, l) ==> d'[l] == d[l])
    && forall n :: B.Reached(NodesOf(d, lay), ino, n) ==> SameEntry(d, d', lay, n)
  }

  lemma DifferKeeps(d: Image, d': Image, lay: Layout, ino: U32)
    requires NatOnDisk(d, lay) && DifferUnused(d, d', lay, ino)
    ensures KeepsFile(d, d', lay, ino)
  {
    hide NodesOf, Occupies;
    forall l: nat | l < |d| && NatBlock(lay, l) ensures d'[l] == d[l] { assert !Unused(d, lay, ino, l); }
    forall nid: U32 | InNat(lay, nid) ensures SameEntry(d, d', lay, nid) { SameTableSameNat(d, d', lay, nid); }
    forall l: nat | l < |d| && Occupies(d, lay, ino, l) ensures d'[l] == d[l] { assert !Unused(d, lay, ino, l); }
  }

  /** A node of the file is the same on both devices. */
  lemma SameNodeAt(d: Image, d': Image, lay: Layout, ino: U32, h: seq<nat>, n: U32)
    requires NatOnDisk(d, lay) && KeepsFile(d, d', lay, ino) && B.Position(h) &&
      B.Walk(NodesOf(d, lay), ino, h) == Some(n)
    ensures n in NodesOf(d', lay) <==> n in NodesOf(d, lay)
    ensures n in NodesOf(d, lay) ==> NodesOf(d', lay)[n] == NodesOf(d, lay)[n]
  {
    assert B.Reached(NodesOf(d, lay), ino, n);
    if n in NodesOf(d, lay) {
      assert NodeStandsIn(d, lay, ino, h, NatLpa(d, lay, n));
      assert Occupies(d, lay, ino, NatLpa(d, lay, n));
    }
  }

  lemma {:induction false} SameWalk(d: Image, d': Image, lay: Layout, ino: U32, h: seq<nat>)
    requires NatOnDisk(d, lay) && KeepsFile(d, d', lay, ino) && B.Position(h)
    ensures B.Walk(NodesOf(d', lay), ino, h) == B.Walk(NodesOf(d, lay), ino, h)
    decreases |h|
  {
    if h != [] {
      var init := h[..|h| - 1];
      B.PositionPrefix(h);
      SameWalk(d, d', lay, ino, init);
      if B.Walk(NodesOf(d, lay), ino, init).Some? {
        SameNodeAt(d, d', lay, ino, init, B.Walk(NodesOf(d, lay), ino, init).value);
      }
    }
  }

  lemma SameLpaAt(d: Image, d': Image, lay: Layout, ino: U32, k: nat)
    requires NatOnDisk(d, lay) && KeepsFile(d, d', lay, ino)
    ensures F.LpaAt(OnDisk(d', lay, ino), k) == F.LpaAt(OnDisk(d, lay, ino), k)
  {
    if k < B.MAX_BLOCKS {
      hide NodesOf, KeepsFile, B.PathOf;
      var hops := B.PathOf(k).hops;
      B.PathShape(k, 0);
      SameWalk(d, d', lay, ino, hops);
      if B.Walk(NodesOf(d, lay), ino, hops).Some? {
        SameNodeAt(d, d', lay, ino, hops, B.Walk(NodesOf(d, lay), ino, hops).value);
      }
    }
  }

  /** A device on which nothing of the file is lost holds the same file. */
  lemma KeptFileIsSame(d: Image, d': Image, lay: Layout, ino: U32)
    requires NatOnDisk(d, lay) && KeepsFile(d, d', lay, ino)
    ensures SameFile(d, d', lay, ino)
  {
    SameNodeAt(d, d', lay, ino, [], ino);
    hide NodesOf, KeepsFile, F.LpaAt;
    var s, t := OnDisk(d, lay, ino), OnDisk(d', lay, ino);
    forall k: nat ensures F.BlockOf(t, k) == F.BlockOf(s, k) {
      SameLpaAt(d, d', lay, ino, k);
      SameDataAt(d, d', lay, ino, k);
    }
  }

  lemma SameDataAt(d: Image, d': Image, lay: Layout, ino: U32, k: nat)
    requires NatOnDisk(d, lay) && KeepsFile(d, d', lay, ino)
    ensures |d'| == |d| && var l := F.LpaAt(OnDisk(d, lay, ino), k); 0 < l < |d| ==> d'[l] == d[l]
  {
    hide NodesOf, F.LpaAt;
    var l := F.LpaAt(OnDisk(d, lay, ino), k);
    if 0 < l < |d| { assert Occupies(d, lay, ino, l); }
  }

  /** ... in the same blocks. */
  lemma SameUse(d: Image, d': Image, lay: Layout, ino: U32, l: nat)
    requires NatOnDisk(d, lay) && KeepsFile(d, d', lay, ino)
    ensures Occupies(d', lay, ino, l) <==> Occupies(d, lay, ino, l)
  {
    forall h ensures NodeStandsIn(d', lay, ino, h, l) <==> NodeStandsIn(d, lay, ino, h, l) {
      if B.Position(h) {
        SameWalk(d, d', lay, ino, h);
        if B.Walk(NodesOf(d, lay), ino, h).Some? {
          assert B.Reached(NodesOf(d, lay), ino, B.Walk(NodesOf(d, lay), ino, h).value);
        }
      }
    }
    forall k: nat ensures F.LpaAt(OnDisk(d', lay, ino), k) == F.LpaAt(OnDisk(d, lay, ino), k) {
      SameLpaAt(d, d', lay, ino, k);
    }
  }

  /** Devices that differ only in blocks the file does not depend on hold the same file. */
  lemma UnusedBlocksDoNotMatter(d: Image, d': Image, lay: Layout, ino: U32)
    requires NatOnDisk(d, lay) && DifferUnused(d, d', lay, ino)
    ensures SameFile(d, d', lay, ino)
  {
    DifferKeeps(d, d', lay, ino);
    KeptFileIsSame(d, d', lay, ino);
  }

  // ---- The tree within all nodes ----

  /** A tree whose nodes are all found among the nodes m maps every block as it does by itself. */
  lemma {:induction false} WalkWithin(n: map<U32, B.Node>, m: map<U32, B.Node>, ino: U32, h: seq<nat>)
    requires B.Tree(n, ino) && B.Position(h) && forall nid :: nid in n ==> nid in m && m[nid] == n[nid]
    ensures B.Walk(m, ino, h) == B.Walk(n, ino, h)
    decreases |h|
  {
    if h != [] {
      B.PositionPrefix(h);
      WalkWithin(n, m, ino, h[..|h| - 1]);
      if B.Walk(n, ino, h[..|h| - 1]).Some? { B.NodeExists(n, ino, h[..|h| - 1]); }
    }
  }

  lemma TreeWithin(n: map<U32, B.Node>, m: map<U32, B.Node>, ino: U32, index: nat)
    requires B.Tree(n, ino) && index < B.MAX_BLOCKS && forall nid :: nid in n ==> nid in m && m[nid] == n[nid]
    ensures B.LpaOf(m, ino, index) == B.LpaOf(n, ino, index)
  {
    hide B.PathOf;
    var p := B.PathOf(index);
    B.PathShape(index, 0);
    WalkWithin(n, m, ino, p.hops);
    if B.Walk(n, ino, p.hops).Some? { B.NodeExists(n, ino, p.hops); }
  }
}
