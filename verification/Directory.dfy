/** A directory in memory (src/dir_inode/dir_inode.c): its entry list and the slot areas behind it, which
    additions, removals, conversion and growth keep in agreement. */
module Directories {
  import opened Wrappers
  import opened Bytes
  import opened DirSlots

  datatype LoadedBlock = LoadedBlock(index: nat, area: Area, dirty: bool)

  // ---- Entry lists ----

  /** What the directory contains: names with what they stand for. */
  ghost function Contents(es: seq<MemEntry>): set<(Name, U32, Byte)> {
    set e | e in es :: (e.name, e.ino, e.fileType)
  }

  lemma ContentsMore(es: seq<MemEntry>, e: MemEntry)
    ensures Contents(es + [e]) == Contents(es) + {(e.name, e.ino, e.fileType)} &&
      Elements(es + [e]) == Elements(es) + {e}
  {
    assert forall x :: x in es + [e] <==> x in es || x == e;
  }

  /** The list after an entry has been taken out: the last one takes its place. */
  function Without(es: seq<MemEntry>, i: nat): seq<MemEntry>
    requires i < |es|
  {
    es[i := es[|es| - 1]][..|es| - 1]
  }

  lemma WithoutElements(es: seq<MemEntry>, i: nat)
    requires NamesDistinct(es) && i < |es|
    ensures Elements(Without(es, i)) == Elements(es) - {es[i]} && NamesDistinct(Without(es, i))
    ensures Contents(Without(es, i)) == Contents(es) - {(es[i].name, es[i].ino, es[i].fileType)}
    ensures forall e :: e in Without(es, i) ==> e.name != es[i].name
  {
    var r, last := Without(es, i), |es| - 1;
    forall e ensures e in r <==> e in es && e != es[i] {
      if e in es && e != es[i] {
        var j :| 0 <= j < |es| && es[j] == e;
        assert r[if j == last then i else j] == e;
      }
      if e in r {
        var j :| 0 <= j < |r| && r[j] == e;
        assert e == es[if j == i then last else j];
      }
    }
    forall e | e in r ensures e.name != es[i].name {
      var j :| 0 <= j < |es| && es[j] == e;
    }
  }

  /** Distinct names make distinct entries. */
  lemma DistinctApart(es: seq<MemEntry>)
    requires NamesDistinct(es)
    ensures NamesApart(Elements(es))
  {
    forall e, f | e in Elements(es) && f in Elements(es) && e.name == f.name ensures e == f {
      var i :| 0 <= i < |es| && es[i] == e;
      var j :| 0 <= j < |es| && es[j] == f;
    }
  }

  // ---- Blocks ----

  ghost predicate IndexesDistinct(blocks: seq<LoadedBlock>, total: nat) {
    && (forall b, c :: 0 <= b < c < |blocks| ==> blocks[b].index != blocks[c].index)
    && forall b :: 0 <= b < |blocks| ==> blocks[b].index < total
  }

  ghost predicate BlockHolds(block: LoadedBlock, es: set<MemEntry>) {
    Holds(block.area, NR_BLOCK, es, InBlock(block.index))
  }

  ghost predicate Loaded(blocks: seq<LoadedBlock>, home: Home) {
    exists b :: 0 <= b < |blocks| && home == InBlock(blocks[b].index)
  }

  /** Every entry has a loaded block as its home, and every block holds exactly its entries. */
  ghost predicate BlocksHold(blocks: seq<LoadedBlock>, total: nat, es: set<MemEntry>) {
    && IndexesDistinct(blocks, total)
    && (forall b :: 0 <= b < |blocks| ==> BlockHolds(blocks[b], es))
    && forall e :: e in es ==> Loaded(blocks, e.home)
  }

  lemma StillLoaded(blocks: seq<LoadedBlock>, b: nat, block: LoadedBlock, home: Home)
    requires b < |blocks| && block.index == blocks[b].index
    ensures Loaded(blocks[b := block], home) <==> Loaded(blocks, home)
  {
    var after := blocks[b := block];
    if Loaded(blocks, home) {
      var c :| 0 <= c < |blocks| && home == InBlock(blocks[c].index);
      assert home == InBlock(after[c].index);
    }
    if Loaded(after, home) {
      var c :| 0 <= c < |after| && home == InBlock(after[c].index);
      assert home == InBlock(blocks[c].index);
    }
  }

  /** One block and its entries change, the others do not notice. */
  lemma ChangeBlock(blocks: seq<LoadedBlock>, total: nat, es: set<MemEntry>, b: nat, block: LoadedBlock,
                    fs: set<MemEntry>)
    requires BlocksHold(blocks, total, es) && b < |blocks| && block.index == blocks[b].index && BlockHolds(block, fs)
    requires forall e: MemEntry :: e.home != InBlock(block.index) ==> (e in es <==> e in fs)
    ensures BlocksHold(blocks[b := block], total, fs)
  {
    var after := blocks[b := block];
    forall c | 0 <= c < |after| ensures BlockHolds(after[c], fs) {
      if c != b {
        hide Holds;
        OtherHome(blocks[c].area, NR_BLOCK, es, fs, InBlock(blocks[c].index));
      }
    }
    forall e | e in fs ensures Loaded(after, e.home) {
      if e.home == InBlock(block.index) { assert InBlock(block.index) == InBlock(after[b].index); }
      else { StillLoaded(blocks, b, block, e.home); }
    }
  }

  /** A new, empty block. */
  lemma GrowHolds(blocks: seq<LoadedBlock>, total: nat, es: set<MemEntry>, dirty: bool)
    requires BlocksHold(blocks, total, es)
    ensures BlocksHold(blocks + [LoadedBlock(total, EmptyArea(NR_BLOCK), dirty)], total + 1, es)
  {
    var block := LoadedBlock(total, EmptyArea(NR_BLOCK), dirty);
    var after := blocks + [block];
    forall e | e in es ensures Loaded(after, e.home) && e.home != InBlock(total) {
      var c :| 0 <= c < |blocks| && e.home == InBlock(blocks[c].index);
      assert e.home == InBlock(after[c].index);
    }
    EmptyHolds(NR_BLOCK, es, InBlock(total));
    forall b | 0 <= b < |after| ensures BlockHolds(after[b], es) {
      if b < |blocks| { assert after[b] == blocks[b]; }
    }
  }

  /** Some loaded block has room for k slots. */
  ghost predicate Room(blocks: seq<LoadedBlock>, k: nat) {
    exists b, s :: 0 <= b < |blocks| && FreeRun(blocks[b].area.bits, s, k)
  }

  /** Block b is the first that has room for k slots. */
  ghost predicate FirstRoom(blocks: seq<LoadedBlock>, k: nat, b: nat) {
    && b < |blocks| && (exists s :: FreeRun(blocks[b].area.bits, s, k))
    && forall c, s :: 0 <= c < b ==> !FreeRun(blocks[c].area.bits, s, k)
  }

  /** At most block b has changed, and it is marked for the next commit. */
  ghost predicate OnlyBlock(before: seq<LoadedBlock>, after: seq<LoadedBlock>, b: nat) {
    && |after| == |before| && b < |after| && after[b].dirty
    && forall c :: 0 <= c < |after| && c != b ==> after[c] == before[c]
  }

  /** A block has joined, marked for the next commit. */
  ghost predicate OneMore(before: seq<LoadedBlock>, after: seq<LoadedBlock>) {
    |after| == |before| + 1 && after[..|before|] == before && after[|before|].dirty
  }

  /** Every block that differs from before, or is new, is marked for the next commit, and none has lost
      its mark. */
  ghost predicate ChangesDirty(before: seq<LoadedBlock>, after: seq<LoadedBlock>) {
    && |before| <= |after|
    && forall b :: 0 <= b < |after| ==> after[b].dirty || (b < |before| && after[b] == before[b])
  }

  /** Behind blocks without room the next one is the first with room. */
  lemma LastHasRoom(before: seq<LoadedBlock>, grown: seq<LoadedBlock>, after: seq<LoadedBlock>, k: nat, b: nat)
    requires !Room(before, k) && |grown| == |before| + 1 && grown[..|before|] == before
    requires FirstRoom(grown, k, b) && OnlyBlock(grown, after, b)
    ensures OneMore(before, after)
  {
    assert forall c :: 0 <= c < |before| ==> grown[..|before|][c] == grown[c];
    var s :| FreeRun(grown[b].area.bits, s, k);
    assert b == |before|;
  }

  lemma EmptyHasRoom(blocks: seq<LoadedBlock>, total: nat, dirty: bool, k: nat)
    requires k <= NR_BLOCK
    ensures Room(blocks + [LoadedBlock(total, EmptyArea(NR_BLOCK), dirty)], k)
  {
    var after := blocks + [LoadedBlock(total, EmptyArea(NR_BLOCK), dirty)];
    assert FreeRun(after[|blocks|].area.bits, 0, k);
  }

  // ---- Reparsing ----

  /** What is read when all blocks are loaded anew, one after another. */
  function ReparseBlocks(blocks: seq<LoadedBlock>, b: nat, es: seq<MemEntry>): Parse
    requires b <= |blocks| && forall c :: 0 <= c < |blocks| ==>
      |blocks[c].area.bits| == |blocks[c].area.dentry| == |blocks[c].area.names|
    decreases |blocks| - b
  {
    if b == |blocks| then Parsed(es)
    else
      match ParseFrom(blocks[b].area, InBlock(blocks[b].index), 0, es)
      case Bad(e) => Bad(e)
      case Parsed(more) => ReparseBlocks(blocks, b + 1, more)
  }

  ghost predicate LoadedBefore(blocks: seq<LoadedBlock>, b: nat, home: Home)
    requires b <= |blocks|
  {
    exists c :: 0 <= c < b && home == InBlock(blocks[c].index)
  }

  /** What a reload has read once the first b blocks are done. */
  ghost predicate ReadBlocks(blocks: seq<LoadedBlock>, es: set<MemEntry>, b: nat, before: seq<MemEntry>)
    requires b <= |blocks|
  {
    NamesDistinct(before) && forall e :: e in before <==> e in es && LoadedBefore(blocks, b, e.home) && Shown(e)
  }

  lemma ReadBlocksNext(blocks: seq<LoadedBlock>, total: nat, es: set<MemEntry>, b: nat, before: seq<MemEntry>,
                       after: seq<MemEntry>)
    requires IndexesDistinct(blocks, total) && b < |blocks| && ReadBlocks(blocks, es, b, before)
    requires Adds(es, InBlock(blocks[b].index), 0, before, after) && NamesDistinct(after)
    ensures ReadBlocks(blocks, es, b + 1, after)
  {
    forall e ensures e in after <==> e in es && LoadedBefore(blocks, b + 1, e.home) && Shown(e) {
      LoadedBeforeNext(blocks, b, e.home);
    }
  }

  lemma LoadedBeforeNext(blocks: seq<LoadedBlock>, b: nat, home: Home)
    requires b < |blocks|
    ensures LoadedBefore(blocks, b + 1, home) <==> LoadedBefore(blocks, b, home) || home == InBlock(blocks[b].index)
  {
    if LoadedBefore(blocks, b + 1, home) {
      var c :| 0 <= c < b + 1 && home == InBlock(blocks[c].index);
      assert c < b ==> LoadedBefore(blocks, b, home);
    }
    if LoadedBefore(blocks, b, home) {
      var c :| 0 <= c < b && home == InBlock(blocks[c].index);
      assert c < b + 1;
    }
  }

  lemma ReadBlocksStart(blocks: seq<LoadedBlock>, total: nat, es: set<MemEntry>, b: nat, before: seq<MemEntry>)
    requires IndexesDistinct(blocks, total) && b < |blocks| && ReadBlocks(blocks, es, b, before)
    ensures ReadBefore(es, InBlock(blocks[b].index), 0, before) && Boundary(es, InBlock(blocks[b].index), 0)
  {
    forall x | x in before ensures x.home != InBlock(blocks[b].index) {
      var c :| 0 <= c < b && x.home == InBlock(blocks[c].index);
    }
  }

  /** Loading all blocks anew reads exactly the entries of the directory, but for dot entries. */
  lemma {:induction false} ReparseBlocksHold(blocks: seq<LoadedBlock>, total: nat, es: set<MemEntry>, b: nat,
                                             before: seq<MemEntry>)
    requires BlocksHold(blocks, total, es) && NamesApart(es) && b <= |blocks| && ReadBlocks(blocks, es, b, before)
    ensures forall c :: 0 <= c < |blocks| ==> |blocks[c].area.bits| == |blocks[c].area.dentry| == |blocks[c].area.names|
    ensures ReparseBlocks(blocks, b, before).Parsed? &&
      ReadBlocks(blocks, es, |blocks|, ReparseBlocks(blocks, b, before).entries)
    decreases |blocks| - b
  {
    BlocksSized(blocks, total, es);
    if b < |blocks| {
      ReadBlocksStart(blocks, total, es, b, before);
      assert BlockHolds(blocks[b], es) && IndexesDistinct(blocks, total);
      hide BlocksHold, NamesApart, IndexesDistinct, Holds, Boundary, ReadBefore, ReadBlocks, ParseFrom, Adds,
        NamesDistinct;
      ParseHolds(blocks[b].area, NR_BLOCK, es, InBlock(blocks[b].index), 0, before);
      var more := ParseFrom(blocks[b].area, InBlock(blocks[b].index), 0, before).entries;
      ReadBlocksNext(blocks, total, es, b, before, more);
      ReparseBlocksHold(blocks, total, es, b + 1, more);
    }
  }

  lemma BlocksSized(blocks: seq<LoadedBlock>, total: nat, es: set<MemEntry>)
    requires BlocksHold(blocks, total, es)
    ensures forall c :: 0 <= c < |blocks| ==>
      |blocks[c].area.bits| == |blocks[c].area.dentry| == |blocks[c].area.names| == NR_BLOCK
  {
    forall c | 0 <= c < |blocks|
      ensures |blocks[c].area.bits| == |blocks[c].area.dentry| == |blocks[c].area.names| == NR_BLOCK {
      assert BlockHolds(blocks[c], es);
    }
  }

  /** The slot area of the inode and the entry list agree. */
  ghost predicate InlineAgrees(a: Area, es: seq<MemEntry>) {
    NamesDistinct(es) && AllInline(Elements(es)) && Holds(a, NR_INLINE, Elements(es), Inline)
  }

  ghost predicate BlocksAgree(blocks: seq<LoadedBlock>, total: nat, es: seq<MemEntry>) {
    NamesDistinct(es) && BlocksHold(blocks, total, Elements(es))
  }

  /** Parsing the inode's slots yields exactly the entries in memory. */
  lemma ReparseInline(a: Area, es: seq<MemEntry>)
    requires InlineAgrees(a, es)
    ensures |a.bits| == |a.dentry| == |a.names| && ParseFrom(a, Inline, 0, []).Parsed?
    ensures var read := ParseFrom(a, Inline, 0, []).entries; NamesDistinct(read) && Elements(read) == Elements(es)
  {
    DistinctApart(es);
    HoldsSized(a, NR_INLINE, Elements(es), Inline);
    ParseHolds(a, NR_INLINE, Elements(es), Inline, 0, []);
    hide Holds, ParseFrom;
    var read := ParseFrom(a, Inline, 0, []).entries;
    forall e ensures e in read <==> e in es { assert e in Elements(es) <==> e in es; }
  }

  /** Parsing the blocks yields exactly the entries in memory, but for entries named "." and "..". */
  lemma ReparseRegular(blocks: seq<LoadedBlock>, total: nat, es: seq<MemEntry>)
    requires BlocksAgree(blocks, total, es)
    ensures forall c :: 0 <= c < |blocks| ==> |blocks[c].area.bits| == |blocks[c].area.dentry| == |blocks[c].area.names|
    ensures ReparseBlocks(blocks, 0, []).Parsed?
    ensures var read := ReparseBlocks(blocks, 0, []).entries;
      NamesDistinct(read) && forall e :: e in read <==> e in es && Shown(e)
  {
    DistinctApart(es);
    ReparseBlocksHold(blocks, total, Elements(es), 0, []);
    hide ReparseBlocks, Holds;
    var read := ReparseBlocks(blocks, 0, []).entries;
    forall e ensures e in read <==> e in es && Shown(e) {
      assert e in Elements(es) <==> e in es;
      if e in es { assert Loaded(blocks, e.home); }
    }
  }

  // ---- Changing the areas and the list together ----

  lemma PlaceInline(a: Area, es: seq<MemEntry>, e: MemEntry)
    requires InlineAgrees(a, es) && e.home == Inline && FreeRun(a.bits, e.slot, SlotsFor(|e.name|)) &&
      !Named(es, e.name)
    ensures |a.bits| == |a.dentry| == |a.names| && InlineAgrees(PlaceIn(a, e), es + [e])
  {
    PlaceHolds(a, NR_INLINE, Elements(es), e);
    ContentsMore(es, e);
  }

  lemma WipeInline(a: Area, es: seq<MemEntry>, i: nat)
    requires InlineAgrees(a, es) && i < |es|
    ensures |a.bits| == |a.dentry| == |a.names| && es[i].slot + SlotsFor(|es[i].name|) <= |a.bits| &&
      es[i].home == Inline
    ensures InlineAgrees(WipeFrom(a, es[i]), Without(es, i))
  {
    assert es[i] in Elements(es);
    WipeHolds(a, NR_INLINE, Elements(es), es[i]);
    WithoutElements(es, i);
  }

  lemma PlaceBlock(blocks: seq<LoadedBlock>, total: nat, es: seq<MemEntry>, b: nat, e: MemEntry)
    requires BlocksAgree(blocks, total, es) && b < |blocks| && e.home == InBlock(blocks[b].index)
    requires FreeRun(blocks[b].area.bits, e.slot, SlotsFor(|e.name|)) && !Named(es, e.name)
    ensures |blocks[b].area.bits| == |blocks[b].area.dentry| == |blocks[b].area.names|
    ensures BlocksAgree(blocks[b := LoadedBlock(blocks[b].index, PlaceIn(blocks[b].area, e), true)], total, es + [e])
  {
    assert BlockHolds(blocks[b], Elements(es));
    PlaceHolds(blocks[b].area, NR_BLOCK, Elements(es), e);
    ContentsMore(es, e);
    hide Holds, PlaceIn;
    ChangeBlock(blocks, total, Elements(es), b, LoadedBlock(blocks[b].index, PlaceIn(blocks[b].area, e), true),
      Elements(es) + {e});
  }

  lemma WipeBlock(blocks: seq<LoadedBlock>, total: nat, es: seq<MemEntry>, b: nat, i: nat)
    requires BlocksAgree(blocks, total, es) && b < |blocks| && i < |es| && es[i].home == InBlock(blocks[b].index)
    ensures |blocks[b].area.bits| == |blocks[b].area.dentry| == |blocks[b].area.names|
    ensures es[i].slot + SlotsFor(|es[i].name|) <= |blocks[b].area.bits|
    ensures BlocksAgree(blocks[b := LoadedBlock(blocks[b].index, WipeFrom(blocks[b].area, es[i]), true)], total,
      Without(es, i))
  {
    assert es[i] in Elements(es) && BlockHolds(blocks[b], Elements(es));
    WipeHolds(blocks[b].area, NR_BLOCK, Elements(es), es[i]);
    WithoutElements(es, i);
    hide Holds, WipeFrom;
    ChangeBlock(blocks, total, Elements(es), b, LoadedBlock(blocks[b].index, WipeFrom(blocks[b].area, es[i]), true),
      Elements(es) - {es[i]});
  }

  /** The entry list after conversion. */
  function Remapped(es: seq<MemEntry>, slotMap: seq<nat>, home: Home): (r: seq<MemEntry>)
    requires forall e :: e in es ==> e.slot < |slotMap|
    ensures |r| == |es| && forall i :: 0 <= i < |es| ==> r[i] == Move(es[i], slotMap[es[i].slot], home)
  {
    seq(|es|, i requires 0 <= i < |es| => Move(es[i], slotMap[es[i].slot], home))
  }

  lemma ConversionAgrees(es: seq<MemEntry>, slotMap: seq<nat>, moved: set<MemEntry>, home: Home, b: Area)
    requires NamesDistinct(es) && AllMoved(Elements(es), slotMap, moved, home) && home == InBlock(0) &&
      Holds(b, NR_BLOCK, moved, home)
    ensures forall e :: e in es ==> e.slot < |slotMap|
    ensures BlocksAgree([LoadedBlock(0, b, true)], 1, Remapped(es, slotMap, home)) &&
      Contents(Remapped(es, slotMap, home)) == Contents(es)
  {
    forall e | e in es ensures e.slot < |slotMap| { assert e in Elements(es); }
    var r := Remapped(es, slotMap, home);
    assert Elements(r) == moved by { MovedElements(es, slotMap, moved, home); }
    var blocks := [LoadedBlock(0, b, true)];
    forall e | e in Elements(r) ensures Loaded(blocks, e.home) {
      var i :| 0 <= i < |r| && r[i] == e;
      assert e.home == InBlock(blocks[0].index);
    }
    assert forall c :: 0 <= c < |blocks| ==> BlockHolds(blocks[c], moved);
    RemappedContents(es, slotMap, home);
  }

  lemma MovedElements(es: seq<MemEntry>, slotMap: seq<nat>, moved: set<MemEntry>, home: Home)
    requires AllMoved(Elements(es), slotMap, moved, home) && forall e :: e in es ==> e.slot < |slotMap|
    ensures Elements(Remapped(es, slotMap, home)) == moved
  {
    var r := Remapped(es, slotMap, home);
    forall x ensures x in r <==> x in moved {
      if x in r {
        var i :| 0 <= i < |r| && r[i] == x;
        assert es[i] in Elements(es);
      }
      if x in moved {
        var e :| e in Elements(es) && e.slot < NR_INLINE && x == Move(e, slotMap[e.slot], home);
        var i :| 0 <= i < |es| && es[i] == e;
        assert r[i] == x;
      }
    }
  }

  lemma RemappedContents(es: seq<MemEntry>, slotMap: seq<nat>, home: Home)
    requires forall e :: e in es ==> e.slot < |slotMap|
    ensures Contents(Remapped(es, slotMap, home)) == Contents(es)
  {
    var r := Remapped(es, slotMap, home);
    forall t ensures t in Contents(r) <==> t in Contents(es) {
      if t in Contents(r) {
        var x :| x in r && t == (x.name, x.ino, x.fileType);
        var i :| 0 <= i < |r| && r[i] == x;
        assert es[i] in es && t == (es[i].name, es[i].ino, es[i].fileType);
      }
      if t in Contents(es) {
        var x :| x in es && t == (x.name, x.ino, x.fileType);
        var i :| 0 <= i < |es| && es[i] == x;
        assert r[i] in r && t == (r[i].name, r[i].ino, r[i].fileType);
      }
    }
  }

  // ---- The directory ----

  type CName = s: seq<Byte> | 0 !in s

  class Directory {
    var inlined: bool                 // the entries stand in the inode
    var inlineArea: Area
    var blocks: seq<LoadedBlock>      // all blocks of the directory, loaded
    var total: nat
    var fullyLoaded: bool             // what rtfsDirInodeIsFullyLoaded answers
    var entries: seq<MemEntry>
    var dentryNum: nat

    ghost predicate Valid()
      reads this
    {
      && dentryNum == |entries|
      && if inlined then blocks == [] && InlineAgrees(inlineArea, entries) else BlocksAgree(blocks, total, entries)
    }

    /** What a reload of the directory would read. */
    ghost function Reparse(): Parse
      requires Valid()
      reads this
    {
      if inlined then
        ReparseInline(inlineArea, entries);
        ParseFrom(inlineArea, Inline, 0, [])
      else
        ReparseRegular(blocks, total, entries);
        ReparseBlocks(blocks, 0, [])
    }

    /** Whatever has been done to the directory before, a reload reads exactly its entries, each once; only
        entries named "." or "..", in a directory with blocks, are left out. */
    lemma ReparseAgrees()
      requires Valid()
      ensures Reparse().Parsed? && NamesDistinct(Reparse().entries)
      ensures forall e :: e in Reparse().entries <==> e in entries && (inlined || !Dots(e.name))
    {
      if inlined {
        ReparseInline(inlineArea, entries);
        forall e ensures e in Reparse().entries <==> e in entries {
          assert e in Elements(Reparse().entries) <==> e in Elements(entries);
        }
      } else {
        ReparseRegular(blocks, total, entries);
        forall e | e in entries ensures Shown(e) <==> !Dots(e.name) { HomeIsBlock(blocks, total, entries, e); }
      }
    }

    /** A new directory: no entries, in the inode. */
    constructor ()
      ensures Valid() && entries == [] && inlined && fullyLoaded
    {
      EmptyHolds(NR_INLINE, {}, Inline);
      fullyLoaded := true;
      inlined, inlineArea, blocks, total, entries, dentryNum := true, EmptyArea(NR_INLINE), [], 0, [], 0;
    }

    /** rtfsDirInodeFindEntry */
    method FindEntry(name: seq<Byte>) returns (i: nat)
      ensures i <= |entries| && (i < |entries| ==> entries[i].name == name)
      ensures i == |entries| <==> !Named(entries, name)
    {
      i := 0;
      while i < |entries| && entries[i].name != name
        invariant i <= |entries| && forall j :: 0 <= j < i ==> entries[j].name != name
      {
        i := i + 1;
      }
    }

    /** rtfsDirInodeGrowRegularBlock without a name: an empty block behind the others. Its LPA or a node
        on the way to it may not be had. */
    method Grow() returns (ok: bool)
      requires !inlined && BlocksAgree(blocks, total, entries)
      modifies this`blocks, this`total, this`fullyLoaded
      ensures BlocksAgree(blocks, total, entries) && fullyLoaded == (old(fullyLoaded) && !ok)
      ensures ok ==>
        blocks == old(blocks) + [LoadedBlock(old(total), EmptyArea(NR_BLOCK), false)] && total == old(total) + 1
      ensures !ok ==> blocks == old(blocks) && total == old(total)
    {
      ok := *;
      if ok {
        GrowHolds(blocks, total, Elements(entries), false);
        blocks, total := blocks + [LoadedBlock(total, EmptyArea(NR_BLOCK), false)], total + 1;
        fullyLoaded := false;
      }
    }

    /** rtfsDirInodeAddRegularBacking: the first block with a long enough run of free slots takes the entry;
        if there is none the directory grows by one block, and the entry then fits. */
    method AddRegular(name: CName, ino: U32, fileType: Byte) returns (r: DirErrno)
      requires Valid() && !inlined
      modifies this`blocks, this`total, this`fullyLoaded, this`entries, this`dentryNum
      ensures fullyLoaded == (old(fullyLoaded) && |blocks| == |old(blocks)|)
      ensures Valid() && (r == ENAMETOOLONG <==> !(0 < |name| <= NAME_LEN)) && r in {Ok, ENAMETOOLONG, EEXIST, ENOSPC}
      ensures 0 < |name| <= NAME_LEN ==> (r == EEXIST <==> Named(old(entries), name))
      ensures r == Ok ==>
        0 < |name| <= NAME_LEN && Contents(entries) == Contents(old(entries)) + {(name, ino, fileType)}
      ensures r != Ok ==> entries == old(entries)
      ensures |old(blocks)| <= |blocks| <= |old(blocks)| + 1
      ensures 0 < |name| <= NAME_LEN && Room(old(blocks), SlotsFor(|name|)) && !Named(old(entries), name) ==>
        r == Ok && |blocks| == |old(blocks)|
      ensures r == Ok && Room(old(blocks), SlotsFor(|name|)) ==>
        exists b :: FirstRoom(old(blocks), SlotsFor(|name|), b) && OnlyBlock(old(blocks), blocks, b)
      ensures r == Ok && !Room(old(blocks), SlotsFor(|name|)) ==> OneMore(old(blocks), blocks)
      ensures r != Ok ==> blocks == old(blocks)
      decreases if Room(blocks, SlotsFor(|name|)) then 0 else 1
    {
      if |name| == 0 || |name| > NAME_LEN { return ENAMETOOLONG; }
      var at := FindEntry(name);
      if at < |entries| { return EEXIST; }
      hide BlocksAgree, Contents, Elements;
      var k, b := SlotsFor(|name|), 0;
      while b < |blocks|
        invariant b <= |blocks| && Valid() && blocks == old(blocks) && entries == old(entries) && total == old(total)
        invariant fullyLoaded == old(fullyLoaded)
        invariant forall c, s :: 0 <= c < b ==> !FreeRun(blocks[c].area.bits, s, k)
      {
        var s := FindRun(blocks[b].area.bits, k);
        if s < |blocks[b].area.bits| {
          assert FirstRoom(blocks, k, b);
          AddAt(b, MemEntry(name, ino, fileType, InBlock(blocks[b].index), s));
          assert OnlyBlock(old(blocks), blocks, b);
          return Ok;
        }
        b := b + 1;
      }
      assert !Room(blocks, k);
      EmptyHasRoom(blocks, total, false, k);
      var ok := Grow();
      if !ok { return ENOSPC; }
      ghost var grown := blocks;
      r := AddRegular(name, ino, fileType);
      ghost var last :| FirstRoom(grown, k, last) && OnlyBlock(grown, blocks, last);
      LastHasRoom(old(blocks), grown, blocks, k, last);
    }

    /** The entry is written into a free run of block b and joins the list. */
    method AddAt(b: nat, e: MemEntry)
      requires Valid() && !inlined && b < |blocks| && e.home == InBlock(blocks[b].index) && !Named(entries, e.name)
      requires FreeRun(blocks[b].area.bits, e.slot, SlotsFor(|e.name|))
      modifies this`blocks, this`entries, this`dentryNum
      ensures Valid() && OnlyBlock(old(blocks), blocks, b)
      ensures Contents(entries) == Contents(old(entries)) + {(e.name, e.ino, e.fileType)}
    {
      PlaceBlock(blocks, total, entries, b, e);
      ContentsMore(entries, e);
      hide BlocksAgree, Contents, Elements, PlaceIn;
      var area := WriteEntry(blocks[b].area, e);
      blocks := blocks[b := LoadedBlock(blocks[b].index, area, true)];
      entries, dentryNum := entries + [e], dentryNum + 1;
    }

    /** rtfsDirInodeConvertInlineToRegular: the entries move, in order, into a first block. They always fit;
        it fails only if no block is to be had, and then nothing has changed. */
    method ConvertInlineToRegular() returns (r: DirErrno)
      requires Valid() && inlined
      modifies this
      ensures Valid() && r in {Ok, ENOSPC} && Contents(entries) == Contents(old(entries))
      ensures r == Ok ==> !inlined && |blocks| == 1 && forall name :: Named(entries, name) <==>
        Named(old(entries), name)
      ensures r == ENOSPC ==> inlined && entries == old(entries) && fullyLoaded == old(fullyLoaded)
      ensures r == Ok ==> fullyLoaded && blocks[0].dirty
    {
      var ok, b, slotMap;
      ghost var moved;
      ok, b, slotMap, moved := ConvertArea(inlineArea, Elements(entries), InBlock(0));
      if !ok { return ENOSPC; }
      var grown: bool := *;
      if !grown { return ENOSPC; }
      ConversionAgrees(entries, slotMap, moved, InBlock(0), b);
      hide BlocksAgree, InlineAgrees, Contents, Elements;
      entries := Remapped(entries, slotMap, InBlock(0));
      inlined, blocks, total, fullyLoaded := false, [LoadedBlock(0, b, true)], 1, true;
      r := Ok;
    }

    /** rtfsDirInodeAddInlineBacking: the first long enough run of free slots in the inode takes the entry;
        if there is none the directory is converted first. */
    method AddInline(name: CName, ino: U32, fileType: Byte) returns (r: DirErrno)
      requires Valid() && inlined
      modifies this
      ensures Valid() && (r == ENAMETOOLONG <==> !(0 < |name| <= NAME_LEN)) && r in {Ok, ENAMETOOLONG, EEXIST, ENOSPC}
      ensures 0 < |name| <= NAME_LEN ==> (r == EEXIST <==> Named(old(entries), name))
      ensures r == Ok ==>
        0 < |name| <= NAME_LEN && Contents(entries) == Contents(old(entries)) + {(name, ino, fileType)}
      ensures r != Ok ==> Contents(entries) == Contents(old(entries))
      ensures |blocks| <= 2 && ChangesDirty(old(blocks), blocks)
    {
      if |name| == 0 || |name| > NAME_LEN { return ENAMETOOLONG; }
      var at := FindEntry(name);
      if at < |entries| { return EEXIST; }
      hide BlocksAgree, Contents, Elements;
      var s := FindRun(inlineArea.bits, SlotsFor(|name|));
      if s == |inlineArea.bits| {
        r := ConvertInlineToRegular();
        if r != Ok { return; }
        r := AddRegular(name, ino, fileType);
        return;
      }
      var e := MemEntry(name, ino, fileType, Inline, s);
      PlaceInline(inlineArea, entries, e);
      ContentsMore(entries, e);
      hide InlineAgrees, PlaceIn;
      inlineArea := WriteEntry(inlineArea, e);
      entries, dentryNum := entries + [e], dentryNum + 1;
      r := Ok;
    }

    /** rtfsDirInodeAddEntry: afterwards the directory contains the new entry besides what it contained, or
        exactly what it contained. */
    method AddEntry(name: CName, ino: U32, fileType: Byte) returns (r: DirErrno)
      requires Valid()
      modifies this
      ensures Valid() && (r == ENAMETOOLONG <==> !(0 < |name| <= NAME_LEN)) && r in {Ok, ENAMETOOLONG, EEXIST, ENOSPC}
      ensures 0 < |name| <= NAME_LEN ==> (r == EEXIST <==> Named(old(entries), name))
      ensures r == Ok ==>
        0 < |name| <= NAME_LEN && Contents(entries) == Contents(old(entries)) + {(name, ino, fileType)}
      ensures r != Ok ==> Contents(entries) == Contents(old(entries))
      ensures ChangesDirty(old(blocks), blocks)
    {
      if inlined {
        r := AddInline(name, ino, fileType);
      } else {
        r := AddRegular(name, ino, fileType);
      }
    }

    /** rtfsDirInodeFindLoadedBlock */
    method FindLoadedBlock(index: nat) returns (b: nat)
      ensures b <= |blocks| && (b < |blocks| ==> blocks[b].index == index)
      ensures b == |blocks| ==> forall c :: 0 <= c < |blocks| ==> blocks[c].index != index
    {
      b := 0;
      while b < |blocks| && blocks[b].index != index
        invariant b <= |blocks| && forall c :: 0 <= c < b ==> blocks[c].index != index
      {
        b := b + 1;
      }
    }

    /** rtfsDirInodeRemoveEntry: exactly the entry of that name is gone, from the list and from its slots. */
    method RemoveEntry(name: CName) returns (r: DirErrno)
      requires Valid()
      modifies this`inlineArea, this`blocks, this`entries, this`dentryNum
      ensures Valid() && (r == ENAMETOOLONG <==> !(0 < |name| <= NAME_LEN)) && r in {Ok, ENAMETOOLONG, ENOENT}
      ensures 0 < |name| <= NAME_LEN ==> (r == Ok <==> Named(old(entries), name))
      ensures r == Ok ==> !Named(entries, name)
      ensures r == Ok ==>
        exists t :: t in Contents(old(entries)) && t.0 == name && Contents(entries) == Contents(old(entries)) - {t}
      ensures r != Ok ==> entries == old(entries)
      ensures ChangesDirty(old(blocks), blocks) && (r != Ok ==> blocks == old(blocks))
    {
      if |name| == 0 || |name| > NAME_LEN { return ENAMETOOLONG; }
      var i := FindEntry(name);
      if i == |entries| { return ENOENT; }
      ghost var before := entries;
      NamesOf();
      WithoutElements(before, i);
      ContentsHas(before, i);
      hide Directory.Valid, Contents, Elements, Without, NamesDistinct;
      RemoveAt(i);
      r := Ok;
    }

    /** The entry's slots are wiped, and the last entry of the list takes its place there. */
    method RemoveAt(i: nat)
      requires Valid() && i < |entries|
      modifies this`inlineArea, this`blocks, this`entries, this`dentryNum
      ensures Valid() && entries == Without(old(entries), i)
      ensures ChangesDirty(old(blocks), blocks) && |blocks| == |old(blocks)|
      ensures !inlined ==> exists b :: OnlyBlock(old(blocks), blocks, b)
    {
      var e := entries[i];
      WithoutLength(entries, i);
      if inlined {
        WipeInline(inlineArea, entries, i);
        hide InlineAgrees, WipeFrom, Without;
        inlineArea := ClearEntry(inlineArea, e);
      } else {
        HomeIsBlock(blocks, total, entries, e);
        var b := FindLoadedBlock(e.home.index);
        WipeBlock(blocks, total, entries, b, i);
        hide BlocksAgree, WipeFrom, Without;
        var area := ClearEntry(blocks[b].area, e);
        blocks := blocks[b := LoadedBlock(blocks[b].index, area, true)];
        assert OnlyBlock(old(blocks), blocks, b);
      }
      entries, dentryNum := Without(entries, i), dentryNum - 1;
    }

    lemma NamesOf()
      requires Valid()
      ensures NamesDistinct(entries)
    {
    }
  }

  /** A directory that has grown counts as not fully loaded, although the block it grew by is in memory
      like all others. */
  method GrownIsNotFullyLoaded(dir: Directory) returns (ok: bool)
    requires !dir.inlined && BlocksAgree(dir.blocks, dir.total, dir.entries) && |dir.blocks| == dir.total
    modifies dir`blocks, dir`total, dir`fullyLoaded
    ensures |dir.blocks| == dir.total && (ok ==> !dir.fullyLoaded)
  {
    ok := dir.Grow();
  }

  lemma ContentsHas(es: seq<MemEntry>, i: nat)
    requires i < |es|
    ensures (es[i].name, es[i].ino, es[i].fileType) in Contents(es)
  {
    assert es[i] in es;
  }

  lemma WithoutLength(es: seq<MemEntry>, i: nat)
    requires i < |es|
    ensures |Without(es, i)| == |es| - 1
  {
  }

  lemma HomeIsBlock(blocks: seq<LoadedBlock>, total: nat, es: seq<MemEntry>, e: MemEntry)
    requires BlocksAgree(blocks, total, es) && e in es
    ensures e.home.InBlock? && exists b :: 0 <= b < |blocks| && blocks[b].index == e.home.index
  {
    assert e in Elements(es) && Loaded(blocks, e.home);
    var b :| 0 <= b < |blocks| && e.home == InBlock(blocks[b].index);
    assert blocks[b].index == e.home.index;
  }
}
