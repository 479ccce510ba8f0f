/** Disk images, journal entries as absolute byte updates, and the redo law that makes replay repeatable. */
module RedoLog {
  import opened Wrappers
  import opened Bytes
  import opened JournalFormat

  type Image = seq<Block>

  datatype Update = Update(slot: nat, off: nat, data: seq<Byte>)

  predicate InImage(n: nat, u: Update) {
    u.slot < n && u.off + |u.data| <= BLOCK_SIZE
  }

  function ApplyUpdate(m: Image, u: Update): (r: Image)
    requires InImage(|m|, u)
    ensures |r| == |m|
  {
    m[u.slot := Splice(m[u.slot], u.off, u.data)]
  }

  ghost predicate AllInImage(n: nat, us: seq<Update>) {
    forall u :: u in us ==> InImage(n, u)
  }

  function Redo(m: Image, us: seq<Update>): (r: Image)
    requires AllInImage(|m|, us)
    ensures |r| == |m|
    decreases |us|
  {
    if us == [] then m else Redo(ApplyUpdate(m, us[0]), us[1..])
  }

  /** Byte i of block l is rewritten by u. */
  predicate Covers(u: Update, l: nat, i: nat) {
    u.slot == l && u.off <= i < u.off + |u.data|
  }

  ghost predicate Covered(us: seq<Update>, l: nat, i: nat) {
    exists u :: u in us && Covers(u, l, i)
  }

  /** The two images differ at most in bytes that the updates rewrite. */
  ghost predicate AgreeOutside(m: Image, m': Image, us: seq<Update>) {
    && |m| == |m'|
    && forall l, i :: 0 <= l < |m| && 0 <= i < BLOCK_SIZE && !Covered(us, l, i) ==> m[l][i] == m'[l][i]
  }

  lemma ByteAfter(m: Image, u: Update, l: nat, i: nat)
    requires InImage(|m|, u) && l < |m| && i < BLOCK_SIZE
    ensures ApplyUpdate(m, u)[l][i] == if Covers(u, l, i) then u.data[i - u.off] else m[l][i]
  {
    if Covers(u, l, i) {
      var r := ApplyUpdate(m, u)[l];
      assert r[i] == r[u.off..u.off + |u.data|][i - u.off];
    }
  }

  /** Redoing the same updates from images that differ only where the updates write gives one result. */
  lemma {:induction false} RedoConverges(m: Image, m': Image, us: seq<Update>)
    requires AllInImage(|m|, us) && AgreeOutside(m, m', us)
    ensures Redo(m, us) == Redo(m', us)
    decreases |us|
  {
    if us == [] {
      forall l | 0 <= l < |m| ensures m[l] == m'[l] {
        assert forall i :: 0 <= i < BLOCK_SIZE && !Covered(us, l, i) ==> m[l][i] == m'[l][i];
      }
    } else {
      var n, n' := ApplyUpdate(m, us[0]), ApplyUpdate(m', us[0]);
      forall l, i | 0 <= l < |n| && 0 <= i < BLOCK_SIZE && !Covered(us[1..], l, i)
        ensures n[l][i] == n'[l][i]
      {
        ByteAfter(m, us[0], l, i);
        ByteAfter(m', us[0], l, i);
        if !Covers(us[0], l, i) { assert !Covered(us, l, i); }
      }
      RedoConverges(n, n', us[1..]);
    }
  }

  /** Updates change only the bytes they cover. */
  lemma {:induction false} RedoAgrees(m: Image, us: seq<Update>)
    requires AllInImage(|m|, us)
    ensures AgreeOutside(m, Redo(m, us), us)
    decreases |us|
  {
    if us != [] {
      var n := ApplyUpdate(m, us[0]);
      RedoAgrees(n, us[1..]);
      forall l, i | 0 <= l < |m| && 0 <= i < BLOCK_SIZE && !Covered(us, l, i)
        ensures m[l][i] == Redo(m, us)[l][i]
      {
        ByteAfter(m, us[0], l, i);
        assert !Covers(us[0], l, i);
        assert !Covered(us[1..], l, i);
      }
    }
  }

  lemma {:induction false} RedoAppend(m: Image, us: seq<Update>, vs: seq<Update>)
    requires AllInImage(|m|, us) && AllInImage(|m|, vs)
    ensures AllInImage(|m|, us + vs)
    ensures Redo(m, us + vs) == Redo(Redo(m, us), vs)
    decreases |us|
  {
    if us == [] {
      assert us + vs == vs;
    } else {
      assert (us + vs)[1..] == us[1..] + vs;
      RedoAppend(ApplyUpdate(m, us[0]), us[1..], vs);
    }
  }

  /** A block that no update addresses keeps its contents. */
  lemma {:induction false} RedoElsewhere(m: Image, us: seq<Update>, l: nat)
    requires AllInImage(|m|, us) && l < |m| && forall u :: u in us ==> u.slot != l
    ensures Redo(m, us)[l] == m[l]
    decreases |us|
  {
    if us != [] { RedoElsewhere(ApplyUpdate(m, us[0]), us[1..], l); }
  }

  // ---- Where an entry goes ----

  /** The table addresses recovery reads from the super block. */
  datatype Layout = Layout(natStart: U32, natBlocks: nat, sitStart: U32, sitBlocks: nat)

  const BLOCKS_PER_SEGMENT: nat := 512
  const NAT_ENTRIES_PER_BLOCK: nat := 512
  const SIT_ENTRIES_PER_BLOCK: nat := 60

  // Byte offsets of super-block fields (src/fs/fs.h).
  const OFF_MAGIC: nat := 0
  const OFF_SEGS_SIT: nat := 36
  const OFF_SEGS_NAT: nat := 40
  const OFF_SEGS_JOURNAL: nat := 48
  const OFF_SIT_ADDR: nat := 60
  const OFF_NAT_ADDR: nat := 64
  const OFF_JOURNAL_ADDR: nat := 72
  const OFF_CHANGING: nat := 92      // the fields before this one are read-only after format
  const OFF_JOURNAL_START: nat := 120
  const OFF_JOURNAL_END: nat := 122

  function LayoutOf(sb: Block): Layout {
    Layout(Get32(sb, OFF_NAT_ADDR), Get32(sb, OFF_SEGS_NAT) * BLOCKS_PER_SEGMENT,
           Get32(sb, OFF_SIT_ADDR), Get32(sb, OFF_SEGS_SIT) * BLOCKS_PER_SEGMENT)
  }

  /** Recovery works on a memory image: slot 0 is the super block held in memory, slot 1 + l is
      device block l as seen through the transaction's overlay. */
  function Memory(sb: Block, disk: Image): (m: Image)
    ensures |m| == |disk| + 1
  {
    [sb] + disk
  }

  const NAT_ENTRY_BYTES: nat := 8
  const SIT_ENTRY_BYTES: nat := 68

  /** The block and the index within it of a table entry. */
  datatype Place = Place(block: nat, index: nat)

  function Locate(perBlock: nat, idx: nat): (p: Place)
    requires perBlock > 0
    ensures p.index < perBlock && p.block <= idx
  {
    if idx < perBlock then Place(0, idx)
    else
      var p := Locate(perBlock, idx - perBlock);
      Place(p.block + 1, p.index)
  }

  /** Locate is division with remainder, for the entry counts of the two tables. */
  lemma {:induction false} LocateIsDivision(perBlock: nat, idx: nat)
    requires perBlock == NAT_ENTRIES_PER_BLOCK || perBlock == SIT_ENTRIES_PER_BLOCK
    ensures Locate(perBlock, idx).block == idx / perBlock && Locate(perBlock, idx).index == idx % perBlock
  {
    if idx >= perBlock { LocateIsDivision(perBlock, idx - perBlock); }
    if perBlock == 512 { } else { assert perBlock == 60; }
  }

  /** The slot of a table block, when it lies within the table. Addresses wrap at 32 bits. */
  function TableSlot(start: U32, blocks: nat, block: nat): Option<nat> {
    if block >= blocks then None
    else if start + block < 0x1_0000_0000 then Some(1 + start + block)
    else Some(1 + start + block - 0x1_0000_0000)
  }

  /** The byte update an entry stands for; None where recovery answers EIO. */
  function UpdateOf(lay: Layout, e: Entry): (r: Option<Update>)
    ensures r.Some? ==> r.value.off + |r.value.data| <= BLOCK_SIZE
  {
    match e
    case SuperEntry(off, val) =>
      if off + 4 > BLOCK_SIZE then None else Some(Update(0, off, Le32(val)))
    case NatEntry(nid, ino, addr) =>
      var p := Locate(NAT_ENTRIES_PER_BLOCK, nid);
      (match TableSlot(lay.natStart, lay.natBlocks, p.block)
       case None => None
       case Some(slot) => Some(Update(slot, NAT_ENTRY_BYTES * p.index, Le32(ino) + Le32(addr))))
    case SitEntry(seg, image) =>
      var p := Locate(SIT_ENTRIES_PER_BLOCK, seg);
      (match TableSlot(lay.sitStart, lay.sitBlocks, p.block)
       case None => None
       case Some(slot) => Some(Update(slot, SIT_ENTRY_BYTES * p.index, image)))
  }

  /** One entry applied to memory; None when it is out of range for its table or for the device. */
  function ApplyEntry(m: Image, e: Entry): (r: Option<Image>)
    requires |m| > 0
    ensures r.Some? ==> |r.value| == |m|
  {
    match UpdateOf(LayoutOf(m[0]), e)
    case None => None
    case Some(u) => if u.slot >= |m| then None else Some(ApplyUpdate(m, u))
  }

  function ApplyEntries(m: Image, es: seq<Entry>): (r: Option<Image>)
    requires |m| > 0
    ensures r.Some? ==> |r.value| == |m|
    decreases |es|
  {
    if es == [] then Some(m)
    else
      match ApplyEntry(m, es[0])
      case None => None
      case Some(m') => ApplyEntries(m', es[1..])
  }

  lemma {:induction false} ApplyAppend(m: Image, xs: seq<Entry>, ys: seq<Entry>)
    requires |m| > 0
    ensures ApplyEntries(m, xs + ys) ==
      match ApplyEntries(m, xs) { case None => None case Some(m') => ApplyEntries(m', ys) }
    decreases |xs|
  {
    if xs == [] {
      assert xs + ys == ys;
    } else {
      assert (xs + ys)[1..] == xs[1..] + ys;
      match ApplyEntry(m, xs[0])
      case None =>
      case Some(m') => ApplyAppend(m', xs[1..], ys);
    }
  }
}
