/** What recovery makes of the tables and the super block, read where the source reads them
    (src/communication/comm_api.c, src/fs/sit_utils.c, src/fs/nat_utils.c, src/fs/fs.h). */
module RecoveredTables {
  import opened Wrappers
  import opened Bytes
  import opened JournalFormat
  import opened KeyTree
  import opened JournalDedup
  import opened RedoLog
  import opened LogRecovery
  import opened DiskFiles
  import opened FileCommit

  /** The entries of one kind, in order. */
  ghost function Only(k: Kind, es: seq<Entry>): (r: seq<Entry>)
    ensures AllOfKind(k, r) && forall e :: e in r ==> e in es
  {
    if es == [] then [] else if KindOf(es[0]) == k then [es[0]] + Only(k, es[1..]) else Only(k, es[1..])
  }

  /** The last entry that the log has for key of kind k. */
  ghost function LastLogged(txs: seq<seq<Entry>>, k: Kind, key: U32): (last: Option<Entry>)
    ensures last.Some? ==> KindOf(last.value) == k && KeyOf(last.value) == key && last.value in Concat(txs)
  {
    var es := Only(k, Concat(txs));
    var last := LastOf(es, key);
    assert last.Some? ==> last.value in Of(es, key);
    last
  }

  // ---- One place of a table ----

  /** Entries that do not write byte i of block l do not matter for it. */
  lemma {:induction false} OnlyMatter(lay: Layout, k: Kind, es: seq<Entry>, l: nat, i: nat)
    requires forall e :: e in es && KindOf(e) != k ==> UpdateOf(lay, e).Some? && !Covers(UpdateOf(lay, e).value, l, i)
    ensures LastCover(UpdatesOf(lay, es), l, i) == LastCover(UpdatesOf(lay, Only(k, es)), l, i)
  {
    hide UpdateOf;
    if es != [] {
      OnlyMatter(lay, k, es[1..], l, i);
      assert es[0] in es;
      if UpdateOf(lay, es[0]).Some? { assert UpdatesOf(lay, es)[1..] == UpdatesOf(lay, es[1..]); }
      if KindOf(es[0]) == k && UpdateOf(lay, es[0]).Some? {
        assert UpdatesOf(lay, Only(k, es))[1..] == UpdatesOf(lay, Only(k, es[1..]));
      }
    }
  }

  /** The two entries write different bytes. */
  ghost predicate Clear(lay: Layout, e: Entry, d: Entry) {
    && UpdateOf(lay, e).Some? && UpdateOf(lay, d).Some?
    && var u, v := UpdateOf(lay, e).value, UpdateOf(lay, d).value;
       u.slot != v.slot || u.off + |u.data| <= v.off || v.off + |v.data| <= u.off
  }

  /** Only entries of the kind and key of d write where d writes. */
  ghost predicate OwnPlace(lay: Layout, es: seq<Entry>, d: Entry) {
    UpdateOf(lay, d).Some? && forall e :: e in es ==> if KindOf(e) == KindOf(d) then Separate(lay, e, d) else
      Clear(lay, e, d)
  }

  /** Byte j of what the last entry with the key of d writes, or the byte as it was. */
  ghost function ByteNow(lay: Layout, last: Option<Entry>, b: Byte, j: nat): Byte {
    if last.Some? && UpdateOf(lay, last.value).Some? && j < |UpdateOf(lay, last.value).value.data|
    then UpdateOf(lay, last.value).value.data[j] else b
  }

  lemma PlaceByte(lay: Layout, m: Image, es: seq<Entry>, d: Entry, j: nat)
    requires OwnPlace(lay, es, d) && AllInImage(|m|, UpdatesOf(lay, es)) && InImage(|m|, UpdateOf(lay, d).value)
    requires j < |UpdateOf(lay, d).value.data|
    ensures var u, last := UpdateOf(lay, d).value, LastOf(Only(KindOf(d), es), KeyOf(d));
      Redo(m, UpdatesOf(lay, es))[u.slot][u.off + j] == ByteNow(lay, last, m[u.slot][u.off + j], j)
  {
    var u, k := UpdateOf(lay, d).value, KindOf(d);
    var own, i := Only(k, es), u.off + j;
    forall e | e in own ensures Separate(lay, e, d) { assert e in es && KindOf(e) == k; }
    forall e | e in es && KindOf(e) != k ensures UpdateOf(lay, e).Some? && !Covers(UpdateOf(lay, e).value, u.slot, i) {
      assert Clear(lay, e, d);
    }
    hide UpdateOf, UpdatesOf, Redo, LastOf, Only;
    OnlyMatter(lay, k, es, u.slot, i);
    LastDecides(lay, own, d, u.slot, i);
    RedoAt(m, UpdatesOf(lay, es), u.slot, i);
    LastHasKey(own, KeyOf(d));
  }

  lemma LastHasKey(es: seq<Entry>, k: U32)
    ensures LastOf(es, k).Some? ==> KeyOf(LastOf(es, k).value) == k
  {
    if LastOf(es, k).Some? { assert LastOf(es, k).value in Of(es, k); }
  }

  /** The same of a whole log: its last entry of a kind and key decides. */
  lemma LogByte(d: Image, txs: seq<seq<Entry>>, e: Entry, j: nat)
    requires Replayable(d, txs) && OwnPlace(LayoutOf(d[0]), Concat(txs), e) && EntryInRange(LayoutOf(d[0]), e)
    requires j < |UpdateOf(LayoutOf(d[0]), e).value.data|
    ensures var lay, u, m := LayoutOf(d[0]), UpdateOf(LayoutOf(d[0]), e).value, Memory(d[0], d);
      && u.slot <= |d| && u.off + |u.data| <= BLOCK_SIZE
      && Redo(m, LogUpdates(d, txs))[u.slot][u.off + j] ==
         ByteNow(lay, LastLogged(txs, KindOf(e), KeyOf(e)), m[u.slot][u.off + j], j)
  {
    hide *;
    LogFits(d, txs, e);
    PlaceByte(LayoutOf(d[0]), Memory(d[0], d), Concat(txs), e, j);
    LastIsLogged(txs, KindOf(e), KeyOf(e));
  }

  lemma LogFits(d: Image, txs: seq<seq<Entry>>, e: Entry)
    requires Replayable(d, txs) && EntryInRange(LayoutOf(d[0]), e)
    ensures |d| > 0 && LogUpdates(d, txs) == UpdatesOf(LayoutOf(d[0]), Concat(txs))
    ensures UpdateOf(LayoutOf(d[0]), e).Some? && InImage(|d| + 1, UpdateOf(LayoutOf(d[0]), e).value)
    ensures var u := UpdateOf(LayoutOf(d[0]), e).value; u.slot <= |d| && u.off + |u.data| <= BLOCK_SIZE
    ensures AllInImage(|d| + 1, LogUpdates(d, txs))
  {
    EntryIsSafe(GeometryOf(d[0]), |d|, e);
    hide UpdatesOf, Log, LogBlocks, UpdateOf;
  }

  lemma LastIsLogged(txs: seq<seq<Entry>>, k: Kind, key: U32)
    ensures LastLogged(txs, k, key) == LastOf(Only(k, Concat(txs)), key)
  {
  }

  // ---- The SIT and NAT tables ----

  lemma TablePlace(g: Geometry, n: nat, es: seq<Entry>, d: Entry)
    requires GeometryOk(g, n) && TablesApart(g.lay) && AllInRange(g.lay, es) && EntryInRange(g.lay, d)
    requires KindOf(d) != Super
    ensures OwnPlace(g.lay, es, d)
  {
    EntryIsSafe(g, n, d);
    forall e | e in es ensures if KindOf(e) == KindOf(d) then Separate(g.lay, e, d) else Clear(g.lay, e, d) {
      assert EntryInRange(g.lay, e);
      if KindOf(e) == KindOf(d) {
        TableEntriesSpread(g, n, KindOf(d), [e, d]);
        assert e in [e, d] && d in [e, d];
      }
    }
  }

  lemma SitPlace(lay: Layout, seg: U32, image: SitImage)
    requires seg / SIT_ENTRIES_PER_BLOCK < lay.sitBlocks && lay.sitStart + lay.sitBlocks <= 0x1_0000_0000
    ensures EntryInRange(lay, SitEntry(seg, image))
    ensures UpdateOf(lay, SitEntry(seg, image)) == Some(Update(1 + lay.sitStart + seg / 60, 68 * (seg % 60), image))
  {
    LocateIsDivision(SIT_ENTRIES_PER_BLOCK, seg);
  }

  lemma TablesFit(d: Image)
    requires Mountable(d)
    ensures var lay := LayoutOf(d[0]);
      && lay.sitStart + lay.sitBlocks <= |d| <= 0x1_0000_0000 && 0 < lay.sitStart
      && lay.natStart + lay.natBlocks <= |d| && 0 < lay.natStart
  {
  }

  lemma NotBlockZero(d: Image, txs: seq<seq<Entry>>, l: nat)
    requires Replayable(d, txs) && 0 < l < |d|
    ensures Recovered(d, txs)[l] == Redo(Memory(d[0], d), LogUpdates(d, txs))[1 + l]
    ensures Memory(d[0], d)[1 + l] == d[l]
  {
  }

  lemma SliceIs(b: seq<Byte>, off: nat, data: seq<Byte>)
    requires off + |data| <= |b| && forall j :: 0 <= j < |data| ==> b[off + j] == data[j]
    ensures b[off..off + |data|] == data
  {
  }

  /** Byte j of the recovered entry that e addresses. */
  lemma TableByte(d: Image, txs: seq<seq<Entry>>, e: Entry, j: nat)
    requires Replayable(d, txs) && TablesApart(LayoutOf(d[0])) && KindOf(e) != Super && EntryInRange(LayoutOf(d[0]), e)
    requires UpdateOf(LayoutOf(d[0]), e).Some? && j < |UpdateOf(LayoutOf(d[0]), e).value.data|
    ensures var lay, u := LayoutOf(d[0]), UpdateOf(LayoutOf(d[0]), e).value;
      && 1 < u.slot <= |d| && u.off + |u.data| <= BLOCK_SIZE
      && Recovered(d, txs)[u.slot - 1][u.off + j] ==
         ByteNow(lay, LastLogged(txs, KindOf(e), KeyOf(e)), d[u.slot - 1][u.off + j], j)
  {
    var lay, u := LayoutOf(d[0]), UpdateOf(LayoutOf(d[0]), e).value;
    EntryIsSafe(GeometryOf(d[0]), |d|, e);
    LogInRange(lay, RingOf(d), ScanPosOf(d[0]), txs);
    TablePlace(GeometryOf(d[0]), |d|, Concat(txs), e);
    assert 1 < u.slot <= |d|;
    hide *;
    LogByte(d, txs, e, j);
    NotBlockZero(d, txs, u.slot - 1);
  }

  /** After recovery the SIT entry of a segment, 68 bytes in block seg / 60 of the table at place
      seg % 60, is the image of the last SIT entry that the log has for the segment, or what it was. */
  lemma RecoveredSit(d: Image, txs: seq<seq<Entry>>, seg: U32)
    requires Replayable(d, txs) && TablesApart(LayoutOf(d[0])) && seg / 60 < LayoutOf(d[0]).sitBlocks
    ensures var l, off, last := LayoutOf(d[0]).sitStart + seg / 60, 68 * (seg % 60), LastLogged(txs, Sits, seg);
      && l < |d| && off + 68 <= BLOCK_SIZE
      && Recovered(d, txs)[l][off..off + 68] == if last.Some? then last.value.image else d[l][off..off + 68]
  {
    var l, off, last := LayoutOf(d[0]).sitStart + seg / 60, 68 * (seg % 60), LastLogged(txs, Sits, seg);
    TablesFit(d);
    hide *;
    var now := if last.Some? then last.value.image else d[l][off..off + 68];
    forall j | 0 <= j < 68 ensures Recovered(d, txs)[l][off + j] == now[j] { SitByte(d, txs, seg, j); }
    SliceIs(Recovered(d, txs)[l], off, now);
  }

  lemma SitByte(d: Image, txs: seq<seq<Entry>>, seg: U32, j: nat)
    requires Replayable(d, txs) && TablesApart(LayoutOf(d[0])) && seg / 60 < LayoutOf(d[0]).sitBlocks && j < 68
    ensures var l, off, last := LayoutOf(d[0]).sitStart + seg / 60, 68 * (seg % 60), LastLogged(txs, Sits, seg);
      && l < |d| && off + 68 <= BLOCK_SIZE
      && Recovered(d, txs)[l][off + j] == if last.Some? then last.value.image[j] else d[l][off + j]
  {
    var lay, last, probe := LayoutOf(d[0]), LastLogged(txs, Sits, seg), SitEntry(seg, Zeros(68));
    TablesFit(d);
    SitPlace(lay, seg, Zeros(68));
    if last.Some? {
      assert last.value == SitEntry(seg, last.value.image);
      SitPlace(lay, seg, last.value.image);
    }
    assert KindOf(probe) == Sits && KeyOf(probe) == seg;
    hide Recovered, Replayable, LastLogged, UpdateOf, EntryInRange, Locate, LayoutOf;
    TableByte(d, txs, probe, j);
  }

  lemma NatPlaceOf(lay: Layout, nid: U32, ino: U32, addr: U32)
    requires nid / NAT_ENTRIES_PER_BLOCK < lay.natBlocks && lay.natStart + lay.natBlocks <= 0x1_0000_0000
    ensures EntryInRange(lay, NatEntry(nid, ino, addr))
    ensures UpdateOf(lay, NatEntry(nid, ino, addr)) ==
      Some(Update(1 + lay.natStart + nid / 512, 8 * (nid % 512), Le32(ino) + Le32(addr)))
  {
    LocateIsDivision(NAT_ENTRIES_PER_BLOCK, nid);
  }

  /** The NAT entry of a nid, 8 bytes in block nid / 512 of the table at place nid % 512, holds owner and
      address of the last NAT entry that the log has for the nid, or what it held. */
  lemma RecoveredNat(d: Image, txs: seq<seq<Entry>>, nid: U32)
    requires Replayable(d, txs) && TablesApart(LayoutOf(d[0])) && nid / 512 < LayoutOf(d[0]).natBlocks
    ensures var l, off, last := LayoutOf(d[0]).natStart + nid / 512, 8 * (nid % 512), LastLogged(txs, Nats, nid);
      && l < |d| && off + 8 <= BLOCK_SIZE
      && Get32(Recovered(d, txs)[l], off) == (if last.Some? then last.value.ino else Get32(d[l], off))
      && Get32(Recovered(d, txs)[l], off + 4) == (if last.Some? then last.value.addr else Get32(d[l], off + 4))
  {
    var l, off, last := LayoutOf(d[0]).natStart + nid / 512, 8 * (nid % 512), LastLogged(txs, Nats, nid);
    TablesFit(d);
    hide *;
    var b := Recovered(d, txs)[l];
    forall i | off <= i < off + 8 ensures b[i] == EntryByteAfter(last, d[l][i], i - off) {
      NatByteNow(d, txs, nid, i - off);
    }
    FirstWord(b, d[l], off, last);
    SecondWord(b, d[l], off, last);
    LoggedNat(txs, nid, Get32(d[l], off), Get32(d[l], off + 4));
  }

  lemma LoggedNat(txs: seq<seq<Entry>>, nid: U32, ino: U32, addr: U32)
    ensures var last := LastLogged(txs, Nats, nid);
      && (last.Some? ==> last.value == NatEntry(nid, last.value.ino, last.value.addr))
      && OwnerAfter(last, ino) == (if last.Some? then last.value.ino else ino)
      && AddressAfter(last, addr) == if last.Some? then last.value.addr else addr
  {
  }

  lemma NatByteNow(d: Image, txs: seq<seq<Entry>>, nid: U32, j: nat)
    requires Replayable(d, txs) && TablesApart(LayoutOf(d[0])) && nid / 512 < LayoutOf(d[0]).natBlocks && j < 8
    ensures var l, off, last := LayoutOf(d[0]).natStart + nid / 512, 8 * (nid % 512), LastLogged(txs, Nats, nid);
      && l < |d| && off + 8 <= BLOCK_SIZE
      && Recovered(d, txs)[l][off + j] == EntryByteAfter(last, d[l][off + j], j)
  {
    var lay, last, probe := LayoutOf(d[0]), LastLogged(txs, Nats, nid), NatEntry(nid, 0, 0);
    TablesFit(d);
    NatPlaceOf(lay, nid, 0, 0);
    LoggedNat(txs, nid, 0, 0);
    if last.Some? { NatPlaceOf(lay, nid, last.value.ino, last.value.addr); }
    assert KindOf(probe) == Nats && KeyOf(probe) == nid;
    hide Recovered, Replayable, LastLogged, UpdateOf, EntryInRange, Locate, LayoutOf;
    TableByte(d, txs, probe, j);
  }

  /** These are the words by which the nodes of a file are looked up. */
  lemma NatLpaRead(D: Image, lay: Layout, nid: U32)
    requires NatOnDisk(D, lay) && InNat(lay, nid)
    ensures var l, off := lay.natStart + nid / 512, 8 * (nid % 512);
      && l < |D| && off + 8 <= BLOCK_SIZE && nid / 512 < lay.natBlocks
      && NatOwner(D, lay, nid) == Get32(D[l], off) && NatLpa(D, lay, nid) == Get32(D[l], off + 4)
  {
    LocateIsDivision(NAT_ENTRIES_PER_BLOCK, nid);
  }

  // ---- The super block ----

  /** The log's super-block entries write the word at off as a whole or not at all. */
  ghost predicate WholeWord(txs: seq<seq<Entry>>, off: nat) {
    forall e :: e in Concat(txs) && e.SuperEntry? ==> e.off == off || e.off + 4 <= off || off + 4 <= e.off
  }

  lemma SuperPlace(g: Geometry, n: nat, es: seq<Entry>, d: Entry)
    requires GeometryOk(g, n) && AllInRange(g.lay, es) && d.SuperEntry? && EntryInRange(g.lay, d)
    requires forall e :: e in es && e.SuperEntry? ==> e.off == d.off || e.off + 4 <= d.off || d.off + 4 <= e.off
    ensures OwnPlace(g.lay, es, d)
  {
    EntryIsSafe(g, n, d);
    forall e | e in es ensures if KindOf(e) == KindOf(d) then Separate(g.lay, e, d) else Clear(g.lay, e, d) {
      assert EntryInRange(g.lay, e);
      EntryIsSafe(g, n, e);
    }
  }

  lemma OffsetsElsewhere(sb: Block, end: nat, off: nat)
    requires off + 4 <= OFF_JOURNAL_START || OFF_JOURNAL_START + 4 <= off <= BLOCK_SIZE - 4
    ensures Get32(WithOffsets(sb, end), off) == Get32(sb, off)
  {
    var r := WithOffsets(sb, end);
    assert r[off..off + 4] == sb[off..off + 4];
    SameBytesSameValue(r, off, sb, off, 4);
  }

  /** A word of the super block that may change holds the value of the last super-block entry that the
      log has for it, or what it held; only the two stored journal offsets are set by recovery itself. */
  lemma RecoveredSuper(d: Image, txs: seq<seq<Entry>>, off: U32)
    requires Replayable(d, txs) && WholeWord(txs, off) && off + 4 <= BLOCK_SIZE
    requires off + 4 <= OFF_JOURNAL_START || OFF_JOURNAL_START + 4 <= off
    ensures var last := LastLogged(txs, Super, off);
      Get32(Recovered(d, txs)[0], off) == if last.Some? then last.value.val else Get32(d[0], off)
  {
    var sb := Redo(Memory(d[0], d), LogUpdates(d, txs))[0];
    OffsetsElsewhere(sb, EndPos(d, txs), off);
    hide *;
    if off < OFF_CHANGING { FixedWord(d, txs, off); } else { SuperWordAfter(d, txs, off); }
    BlockZero(d, txs);
  }

  lemma BlockZero(d: Image, txs: seq<seq<Entry>>)
    requires Replayable(d, txs)
    ensures Recovered(d, txs)[0] == WithOffsets(Redo(Memory(d[0], d), LogUpdates(d, txs))[0], EndPos(d, txs))
  {
  }

  /** No entry of the log may address the words fixed by the formatter. */
  lemma FixedWord(d: Image, txs: seq<seq<Entry>>, off: U32)
    requires Replayable(d, txs) && WholeWord(txs, off) && off < OFF_CHANGING
    ensures LastLogged(txs, Super, off) == None
    ensures Get32(Redo(Memory(d[0], d), LogUpdates(d, txs))[0], off) == Get32(d[0], off)
  {
    var g, m := GeometryOf(d[0]), Memory(d[0], d);
    LogInRange(g.lay, RingOf(d), ScanPosOf(d[0]), txs);
    forall e | e in Concat(txs) ensures UpdateOf(g.lay, e).Some?
      ensures e.SuperEntry? ==> e.off != off
      ensures forall i :: off <= i < off + 4 ==> !Covers(UpdateOf(g.lay, e).value, 0, i)
    {
      assert EntryInRange(g.lay, e);
      EntryIsSafe(g, |d|, e);
    }
    assert LastLogged(txs, Super, off) == None;
    var b := Redo(m, LogUpdates(d, txs))[0];
    assert LogUpdates(d, txs) == UpdatesOf(g.lay, Concat(txs)) && m[0] == d[0];
    hide *;
    forall i | off <= i < off + 4 ensures b[i] == d[0][i] {
      NobodyCovers(g.lay, Concat(txs), 0, i);
      RedoAt(m, UpdatesOf(g.lay, Concat(txs)), 0, i);
    }
    assert b[off..off + 4] == d[0][off..off + 4];
    SameBytesSameValue(b, off, d[0], off, 4);
    WordAt(b, d[0], off);
  }

  lemma WordAt(b: Block, b': Block, off: nat)
    requires off + 4 <= BLOCK_SIZE && LeValue(b, off, 4) == LeValue(b', off, 4)
    ensures Get32(b, off) == Get32(b', off)
  {
  }

  lemma SuperWordAfter(d: Image, txs: seq<seq<Entry>>, off: U32)
    requires Replayable(d, txs) && WholeWord(txs, off) && OFF_CHANGING <= off && off + 4 <= BLOCK_SIZE
    ensures var last := LastLogged(txs, Super, off);
      Get32(Redo(Memory(d[0], d), LogUpdates(d, txs))[0], off) == if last.Some? then last.value.val
        else Get32(d[0], off)
  {
    var last := LastLogged(txs, Super, off);
    assert |d| > 0 && (last.Some? ==> last.value.SuperEntry?);
    hide *;
    var b := Redo(Memory(d[0], d), LogUpdates(d, txs))[0];
    var now := if last.Some? then Le32(last.value.val) else d[0][off..off + 4];
    forall j | 0 <= j < 4 ensures b[off + j] == now[j] { SuperByte(d, txs, off, j); }
    SliceIs(b, off, now);
    WordIs(b, d[0], off, last);
  }

  lemma SuperByte(d: Image, txs: seq<seq<Entry>>, off: U32, j: nat)
    requires Replayable(d, txs) && WholeWord(txs, off) && OFF_CHANGING <= off && off + 4 <= BLOCK_SIZE && j < 4
    ensures var last := LastLogged(txs, Super, off);
      Redo(Memory(d[0], d), LogUpdates(d, txs))[0][off + j] ==
        if last.Some? then Le32(last.value.val)[j] else d[0][off + j]
  {
    var lay, last, probe := LayoutOf(d[0]), LastLogged(txs, Super, off), SuperEntry(off, 0);
    LogInRange(lay, RingOf(d), ScanPosOf(d[0]), txs);
    SuperPlace(GeometryOf(d[0]), |d|, Concat(txs), probe);
    assert UpdateOf(lay, probe) == Some(Update(0, off, Le32(0)));
    assert KindOf(probe) == Super && KeyOf(probe) == off && EntryInRange(lay, probe);
    if last.Some? {
      assert last.value == SuperEntry(off, last.value.val);
      assert UpdateOf(lay, last.value) == Some(Update(0, off, Le32(last.value.val)));
    }
    assert Memory(d[0], d)[0] == d[0];
    hide Replayable, LastLogged, UpdateOf, EntryInRange, Redo, LogUpdates, LayoutOf, OwnPlace, Memory;
    LogByte(d, txs, probe, j);
  }

  lemma WordIs(b: Block, b': Block, off: nat, last: Option<Entry>)
    requires off + 4 <= BLOCK_SIZE && (last.Some? ==> last.value.SuperEntry?)
    requires b[off..off + 4] == if last.Some? then Le32(last.value.val) else b'[off..off + 4]
    ensures Get32(b, off) == if last.Some? then last.value.val else Get32(b', off)
  {
    if last.Some? {
      assert Le32(last.value.val)[0..4] == Le32(last.value.val);
      SameBytesSameValue(b, off, Le32(last.value.val), 0, 4);
    } else {
      SameBytesSameValue(b, off, b', off, 4);
    }
  }

  /** Both stored offsets lead behind the last transaction. */
  lemma RecoveredOffsets(d: Image, txs: seq<seq<Entry>>)
    requires Replayable(d, txs)
    ensures Get16(Recovered(d, txs)[0], OFF_JOURNAL_START) == Get16(Recovered(d, txs)[0], OFF_JOURNAL_END) ==
      EndPos(d, txs)
  {
    OffsetsReadBack(Redo(Memory(d[0], d), LogUpdates(d, txs))[0], EndPos(d, txs));
  }
}
