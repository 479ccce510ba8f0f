/** The slots of a directory block (src/dir_inode/dir_inode.c): a bitmap, entries, and names that take
    one slot for every eight bytes. */
module DirSlots {
  import opened Bytes

  const SLOT_LEN: nat := 8
  const NAME_LEN: nat := 255
  const NR_INLINE: nat := 194     // slots in the inode, where i_addr would stand
  const NR_BLOCK: nat := 214      // slots in a directory block

  type Name = s: seq<Byte> | 0 < |s| <= NAME_LEN && 0 !in s witness [1]
  type Slot = s: seq<Byte> | |s| == SLOT_LEN witness Zeros(SLOT_LEN)

  /** GET_DENTRY_SLOTS */
  function SlotsFor(len: nat): (k: nat)
    ensures len <= SLOT_LEN * k < len + SLOT_LEN && (len > 0 ==> k > 0)
  {
    (len + SLOT_LEN - 1) / SLOT_LEN
  }

  datatype Dentry = Dentry(hash: U32, ino: U32, nameLen: U16, fileType: Byte)

  datatype Area = Area(bits: seq<bool>, dentry: seq<Dentry>, names: seq<Slot>)

  ghost predicate Sized(a: Area, n: nat) {
    |a.bits| == |a.dentry| == |a.names| == n
  }

  function EmptyArea(n: nat): (a: Area)
    ensures Sized(a, n) && forall i :: 0 <= i < n ==> !a.bits[i]
  {
    Area(seq(n, _ => false), seq(n, _ => Dentry(0, 0, 0, 0)), seq(n, _ => ZeroSlot()))
  }

  /** Where an entry is stored: in the inode, or in the directory block with an index. */
  datatype Home = Inline | InBlock(index: nat)

  /** A directory entry in memory, with its place. */
  datatype MemEntry = MemEntry(name: Name, ino: U32, fileType: Byte, home: Home, slot: nat)

  // ---- Names in slots ----

  /** Slot j of a name, padded with zeros. */
  function NameSlot(name: seq<Byte>, j: nat): Slot
    requires SLOT_LEN * j <= |name|
  {
    if SLOT_LEN * j + SLOT_LEN <= |name| then name[SLOT_LEN * j..SLOT_LEN * j + SLOT_LEN]
    else name[SLOT_LEN * j..] + Zeros(SLOT_LEN - (|name| - SLOT_LEN * j))
  }

  /** The bytes of k slots from s on. */
  function Flat(names: seq<Slot>, s: nat, k: nat): (r: seq<Byte>)
    requires s + k <= |names|
    ensures |r| == SLOT_LEN * k
  {
    if k == 0 then [] else Flat(names, s, k - 1) + names[s + k - 1]
  }

  function NameAt(names: seq<Slot>, s: nat, len: nat): (r: seq<Byte>)
    requires s + SlotsFor(len) <= |names|
    ensures |r| == len
  {
    Flat(names, s, SlotsFor(len))[..len]
  }

  lemma {:induction false} FlatOfSlots(names: seq<Slot>, s: nat, name: seq<Byte>, k: nat)
    requires s + k <= |names| && k <= SlotsFor(|name|)
    requires forall j :: 0 <= j < k ==> names[s + j] == NameSlot(name, j)
    ensures forall i :: 0 <= i < SLOT_LEN * k && i < |name| ==> Flat(names, s, k)[i] == name[i]
  {
    if k > 0 {
      FlatOfSlots(names, s, name, k - 1);
      assert names[s + (k - 1)] == NameSlot(name, k - 1);
    }
  }

  /** A name written into slots is read back. */
  lemma NameRoundTrip(names: seq<Slot>, s: nat, name: seq<Byte>)
    requires s + SlotsFor(|name|) <= |names|
    requires forall j :: 0 <= j < SlotsFor(|name|) ==> names[s + j] == NameSlot(name, j)
    ensures NameAt(names, s, |name|) == name
  {
    FlatOfSlots(names, s, name, SlotsFor(|name|));
  }

  lemma {:induction false} SameSlotsSameFlat(names: seq<Slot>, s: nat, names': seq<Slot>, s': nat, k: nat)
    requires s + k <= |names| && s' + k <= |names'| && names'[s'..s' + k] == names[s..s + k]
    ensures Flat(names', s', k) == Flat(names, s, k)
  {
    if k > 0 {
      assert names'[s'..s' + k - 1] == names'[s'..s' + k][..k - 1] && names[s..s + k - 1] == names[s..s + k][..k - 1];
      SameSlotsSameFlat(names, s, names', s', k - 1);
      assert names'[s' + k - 1] == names'[s'..s' + k][k - 1] && names[s + k - 1] == names[s..s + k][k - 1];
    }
  }

  // ---- What an area holds ----

  ghost predicate Covers(e: MemEntry, i: int) {
    e.slot <= i < e.slot + SlotsFor(|e.name|)
  }

  ghost predicate Apart(e: MemEntry, f: MemEntry) {
    e.slot + SlotsFor(|e.name|) <= f.slot || f.slot + SlotsFor(|f.name|) <= e.slot
  }

  /** The entry stands in the area. */
  ghost predicate Stands(a: Area, n: nat, e: MemEntry)
    requires Sized(a, n)
  {
    && e.slot + SlotsFor(|e.name|) <= n
    && a.dentry[e.slot].ino == e.ino && a.dentry[e.slot].nameLen as int == |e.name| &&
      a.dentry[e.slot].fileType == e.fileType
    && NameAt(a.names, e.slot, |e.name|) == e.name
  }

  /** The area holds exactly those entries that have it as their home: each stands in it, they do not
      overlap, and a bit is set exactly if an entry covers its slot. */
  ghost predicate Holds(a: Area, n: nat, es: set<MemEntry>, home: Home) {
    && Sized(a, n)
    && (forall e :: e in es && e.home == home ==> Stands(a, n, e))
    && (forall e, f :: e in es && f in es && e.home == home && f.home == home && e != f ==> Apart(e, f))
    && forall i :: 0 <= i < n ==> (a.bits[i] <==> Covered(es, home, i))
  }

  ghost predicate Covered(es: set<MemEntry>, home: Home, i: nat) {
    exists e :: e in es && e.home == home && Covers(e, i)
  }

  // ---- First fit ----

  ghost predicate FreeRun(bits: seq<bool>, s: nat, k: nat) {
    s + k <= |bits| && forall i :: s <= i < s + k ==> !bits[i]
  }

  /** The search for k free slots in a row: it finds the first such run, and fails exactly if there is
      none. */
  method FindRun(bits: seq<bool>, k: nat) returns (s: nat)
    requires k > 0
    ensures s <= |bits| && (s == |bits| <==> forall t :: !FreeRun(bits, t, k))
    ensures s < |bits| ==> FreeRun(bits, s, k) && forall t :: 0 <= t < s ==> !FreeRun(bits, t, k)
  {
    s := 0;
    while s + k <= |bits|
      invariant forall t :: 0 <= t < s ==> !FreeRun(bits, t, k)
      decreases |bits| - s
    {
      var j := 0;
      while j < k && !bits[s + j]
        invariant j <= k && forall i :: s <= i < s + j ==> !bits[i]
      {
        j := j + 1;
      }
      if j == k {
        assert FreeRun(bits, s, k);
        return;
      }
      forall t | s <= t <= s + j ensures !FreeRun(bits, t, k) { assert bits[s + j]; }
      s := s + j + 1;
    }
    forall t ensures !FreeRun(bits, t, k) {}
    s := |bits|;
  }

  // ---- Adding and removing an entry ----

  function ZeroSlot(): Slot {
    Zeros(SLOT_LEN)
  }

  /** What slot i holds once the entry's name has been written. */
  function PlacedSlot(names: seq<Slot>, e: MemEntry, i: nat): Slot
    requires i < |names|
  {
    if e.slot <= i < e.slot + SlotsFor(|e.name|) then NameSlot(e.name, i - e.slot) else names[i]
  }

  function WipedSlot(names: seq<Slot>, e: MemEntry, i: nat): Slot
    requires i < |names|
  {
    if e.slot <= i < e.slot + SlotsFor(|e.name|) then ZeroSlot() else names[i]
  }

  /** The area with an entry written at its slot. */
  function PlaceIn(a: Area, e: MemEntry): (r: Area)
    requires |a.bits| == |a.dentry| == |a.names| && e.slot + SlotsFor(|e.name|) <= |a.bits|
    ensures Sized(r, |a.bits|)
  {
    var k := SlotsFor(|e.name|);
    Area(seq(|a.bits|, i requires 0 <= i < |a.bits| => e.slot <= i < e.slot + k || a.bits[i]),
         a.dentry[e.slot := Dentry(0, e.ino, |e.name|, e.fileType)],
         seq(|a.names|, i requires 0 <= i < |a.names| => PlacedSlot(a.names, e, i)))
  }

  /** The area with an entry wiped out. */
  function WipeFrom(a: Area, e: MemEntry): (r: Area)
    requires |a.bits| == |a.dentry| == |a.names| && e.slot + SlotsFor(|e.name|) <= |a.bits|
    ensures Sized(r, |a.bits|)
  {
    var k := SlotsFor(|e.name|);
    Area(seq(|a.bits|, i requires 0 <= i < |a.bits| => !(e.slot <= i < e.slot + k) && a.bits[i]),
         a.dentry[e.slot := Dentry(0, 0, 0, 0)],
         seq(|a.names|, i requires 0 <= i < |a.names| => WipedSlot(a.names, e, i)))
  }

  /** The entry is written: its dentry, its bits one by one, then its name slot by slot. */
  method WriteEntry(a: Area, e: MemEntry) returns (r: Area)
    requires |a.bits| == |a.dentry| == |a.names| && e.slot + SlotsFor(|e.name|) <= |a.bits|
    ensures r == PlaceIn(a, e)
  {
    var k := SlotsFor(|e.name|);
    var bits, names, j := a.bits, a.names, 0;
    while j < k
      invariant j <= k && |bits| == |a.bits|
      invariant forall i :: 0 <= i < |bits| ==> (bits[i] <==> e.slot <= i < e.slot + j || a.bits[i])
    {
      bits, j := bits[e.slot + j := true], j + 1;
    }
    j := 0;
    while j < k
      invariant j <= k && |names| == |a.names|
      invariant forall i :: 0 <= i < |names| ==>
        names[i] == if e.slot <= i < e.slot + j then NameSlot(e.name, i - e.slot) else a.names[i]
    {
      names, j := names[e.slot + j := NameSlot(e.name, j)], j + 1;
    }
    r := Area(bits, a.dentry[e.slot := Dentry(0, e.ino, |e.name|, e.fileType)], names);
  }

  /** rtfsDirInodeClearRegularEntryBacking and rtfsDirInodeClearInlineEntryBacking. */
  method ClearEntry(a: Area, e: MemEntry) returns (r: Area)
    requires |a.bits| == |a.dentry| == |a.names| && e.slot + SlotsFor(|e.name|) <= |a.bits|
    ensures r == WipeFrom(a, e)
  {
    var k := SlotsFor(|e.name|);
    var bits, names, j := a.bits, a.names, 0;
    while j < k
      invariant j <= k && |bits| == |a.bits| && |names| == |a.names|
      invariant forall i :: 0 <= i < |bits| ==> (bits[i] <==> !(e.slot <= i < e.slot + j) && a.bits[i])
      invariant forall i :: 0 <= i < |names| ==> names[i] == if e.slot <= i < e.slot + j then ZeroSlot() else a.names[i]
    {
      bits, names, j := bits[e.slot + j := false], names[e.slot + j := ZeroSlot()], j + 1;
    }
    r := Area(bits, a.dentry[e.slot := Dentry(0, 0, 0, 0)], names);
  }

  /** An entry stands undisturbed as long as its own slots are left alone. */
  lemma StillStands(a: Area, b: Area, n: nat, e: MemEntry)
    requires Sized(a, n) && Sized(b, n) && Stands(a, n, e) && b.dentry[e.slot] == a.dentry[e.slot]
    requires forall i :: e.slot <= i < e.slot + SlotsFor(|e.name|) ==> b.names[i] == a.names[i]
    ensures Stands(b, n, e)
  {
    var k := SlotsFor(|e.name|);
    assert b.names[e.slot..e.slot + k] == a.names[e.slot..e.slot + k];
    SameSlotsSameFlat(a.names, e.slot, b.names, e.slot, k);
  }

  lemma PlacedStands(a: Area, n: nat, e: MemEntry)
    requires Sized(a, n) && e.slot + SlotsFor(|e.name|) <= n
    ensures Stands(PlaceIn(a, e), n, e)
  {
    var b := PlaceIn(a, e);
    forall j | 0 <= j < SlotsFor(|e.name|) ensures b.names[e.slot + j] == NameSlot(e.name, j) {
      assert e.slot + j - e.slot == j;
    }
    NameRoundTrip(b.names, e.slot, e.name);
  }

  /** Area b is a with e written into slots that were free, whatever else was copied with it. */
  ghost predicate Joins(a: Area, b: Area, n: nat, e: MemEntry)
    requires Sized(a, n)
  {
    && Sized(b, n) && FreeRun(a.bits, e.slot, SlotsFor(|e.name|)) && Stands(b, n, e)
    && (forall i :: 0 <= i < n ==> (b.bits[i] <==> a.bits[i] || Covers(e, i)))
    && (forall i :: 0 <= i < n && i != e.slot ==> b.dentry[i] == a.dentry[i])
    && forall i :: 0 <= i < n && !Covers(e, i) ==> b.names[i] == a.names[i]
  }

  /** An entry written into a free run joins the others. */
  lemma JoinHolds(a: Area, b: Area, n: nat, es: set<MemEntry>, e: MemEntry)
    requires Holds(a, n, es, e.home) && Joins(a, b, n, e)
    ensures Holds(b, n, es + {e}, e.home)
  {
    hide NameAt, NameSlot, SlotsFor;
    forall f | f in es && f.home == e.home ensures Apart(e, f) && Stands(b, n, f) {
      ApartFromFree(a, n, es, e, f);
      StillStands(a, b, n, f);
    }
    forall i | 0 <= i < n ensures b.bits[i] <==> Covered(es + {e}, e.home, i) {
      CoveredMore(es, e, i);
      assert a.bits[i] <==> Covered(es, e.home, i);
    }
  }

  lemma PlaceHolds(a: Area, n: nat, es: set<MemEntry>, e: MemEntry)
    requires Holds(a, n, es, e.home) && FreeRun(a.bits, e.slot, SlotsFor(|e.name|))
    ensures Holds(PlaceIn(a, e), n, es + {e}, e.home)
  {
    PlacedStands(a, n, e);
    assert Joins(a, PlaceIn(a, e), n, e) by { hide NameAt, NameSlot; }
    JoinHolds(a, PlaceIn(a, e), n, es, e);
  }

  lemma CoveredMore(es: set<MemEntry>, e: MemEntry, i: nat)
    ensures Covered(es + {e}, e.home, i) <==> Covered(es, e.home, i) || Covers(e, i)
  {
    if Covered(es, e.home, i) {
      var f :| f in es && f.home == e.home && Covers(f, i);
      assert f in es + {e};
    }
    assert e in es + {e};
  }

  lemma ApartFromFree(a: Area, n: nat, es: set<MemEntry>, e: MemEntry, f: MemEntry)
    requires Holds(a, n, es, e.home) && FreeRun(a.bits, e.slot, SlotsFor(|e.name|)) && f in es && f.home == e.home
    ensures Apart(e, f) && (forall i :: Covers(f, i) ==> i < n && !Covers(e, i)) && e.slot != f.slot
  {
    assert Stands(a, n, f) && Covers(f, f.slot);
    forall i | Covers(f, i) ensures i < n && !Covers(e, i) {
      assert Covered(es, e.home, i);
    }
    assert Covers(e, e.slot);
    if !Apart(e, f) {
      var i := if e.slot <= f.slot then f.slot else e.slot;
      assert Covers(f, i);
    }
  }

  /** An entry that is wiped out leaves the others. */
  lemma WipeHolds(a: Area, n: nat, es: set<MemEntry>, e: MemEntry)
    requires Holds(a, n, es, e.home) && e in es
    ensures e.slot + SlotsFor(|e.name|) <= n && Holds(WipeFrom(a, e), n, es - {e}, e.home)
  {
    assert Stands(a, n, e);
    var b := WipeFrom(a, e);
    hide NameAt;
    forall f | f in es - {e} && f.home == e.home ensures Stands(b, n, f) {
      assert Apart(e, f) && Stands(a, n, f);
      StillStands(a, b, n, f);
    }
    forall i | 0 <= i < n ensures b.bits[i] <==> Covered(es - {e}, e.home, i) {
      assert a.bits[i] <==> Covered(es, e.home, i);
      CoveredLess(a, n, es, e, i);
    }
  }

  lemma CoveredLess(a: Area, n: nat, es: set<MemEntry>, e: MemEntry, i: nat)
    requires Holds(a, n, es, e.home) && e in es
    ensures Covered(es - {e}, e.home, i) <==> Covered(es, e.home, i) && !Covers(e, i)
  {
    if Covered(es - {e}, e.home, i) {
      var f :| f in es - {e} && f.home == e.home && Covers(f, i);
      assert f in es && Apart(e, f);
    }
    if Covered(es, e.home, i) && !Covers(e, i) {
      var f :| f in es && f.home == e.home && Covers(f, i);
      assert f in es - {e};
    }
  }

  /** Entries of other homes do not matter. */
  lemma OtherHome(a: Area, n: nat, es: set<MemEntry>, fs: set<MemEntry>, home: Home)
    requires Holds(a, n, es, home) && forall e: MemEntry :: e.home == home ==> (e in es <==> e in fs)
    ensures Holds(a, n, fs, home)
  {
    forall i | 0 <= i < n ensures a.bits[i] <==> Covered(fs, home, i) {
      assert a.bits[i] <==> Covered(es, home, i);
      SameCovered(es, fs, home, i);
    }
  }

  lemma SameCovered(es: set<MemEntry>, fs: set<MemEntry>, home: Home, i: nat)
    requires forall e: MemEntry :: e.home == home ==> (e in es <==> e in fs)
    ensures Covered(es, home, i) <==> Covered(fs, home, i)
  {
    if Covered(es, home, i) {
      var e :| e in es && e.home == home && Covers(e, i);
      assert e in fs;
    }
    if Covered(fs, home, i) {
      var e :| e in fs && e.home == home && Covers(e, i);
      assert e in es;
    }
  }

  /** An empty area holds nothing. */
  lemma EmptyHolds(n: nat, es: set<MemEntry>, home: Home)
    requires forall e :: e in es ==> e.home != home
    ensures Holds(EmptyArea(n), n, es, home)
  {
  }

  // ---- Parsing an area ----

  datatype DirErrno = Ok | EINVAL | EEXIST | ENAMETOOLONG | ENOSPC | ENOENT

  datatype Parse = Parsed(entries: seq<MemEntry>) | Bad(errno: DirErrno)

  /** The bytes before the first NUL. */
  function CString(s: seq<Byte>): (r: seq<Byte>)
    ensures |r| <= |s| && 0 !in r
  {
    if s == [] || s[0] == 0 then [] else [s[0]] + CString(s[1..])
  }

  lemma {:induction false} CStringOfName(s: seq<Byte>)
    requires 0 !in s
    ensures CString(s) == s
  {
    if s != [] {
      assert s[0] in s && forall b :: b in s[1..] ==> b in s;
      CStringOfName(s[1..]);
      assert s == [s[0]] + s[1..];
    }
  }

  predicate Dots(name: seq<Byte>) {
    name == [0x2e] || name == [0x2e, 0x2e]
  }

  predicate Named(es: seq<MemEntry>, name: seq<Byte>) {
    exists i :: 0 <= i < |es| && es[i].name == name
  }

  /** rtfsDirInodeBuildInlineEntryAt and rtfsDirInodeBuildRegularEntryAt for the entry at slot i, which is
      added to those read before. A block's dot entries are skipped. */
  function ReadEntry(a: Area, home: Home, i: nat, es: seq<MemEntry>): Parse
    requires i < |a.bits| == |a.dentry| == |a.names|
  {
    var d := a.dentry[i];
    if d.nameLen == 0 || d.nameLen > NAME_LEN || i + SlotsFor(d.nameLen) > |a.bits| then Bad(EINVAL)
    else
      var raw := NameAt(a.names, i, d.nameLen);
      var name := CString(raw);
      if home.InBlock? && Dots(raw) then Parsed(es)
      else if name == [] then Bad(ENAMETOOLONG)
      else if Named(es, name) then Bad(EEXIST)
      else Parsed(es + [MemEntry(name, d.ino, d.fileType, home, i)])
  }

  /** The loop over the bitmap from slot i on. */
  function ParseFrom(a: Area, home: Home, i: nat, es: seq<MemEntry>): Parse
    requires i <= |a.bits| == |a.dentry| == |a.names|
    decreases |a.bits| - i
  {
    if i == |a.bits| then Parsed(es)
    else if !a.bits[i] then ParseFrom(a, home, i + 1, es)
    else
      match ReadEntry(a, home, i, es)
      case Bad(e) => Bad(e)
      case Parsed(more) => ParseFrom(a, home, i + SlotsFor(a.dentry[i].nameLen), more)
  }

  /** rtfsDirInodeBuildInlineEntries and rtfsDirInodeAppendRegularEntries. */
  method BuildEntries(a: Area, home: Home, before: seq<MemEntry>) returns (r: Parse)
    requires |a.bits| == |a.dentry| == |a.names|
    ensures r == ParseFrom(a, home, 0, before)
  {
    var i, es := 0, before;
    while i < |a.bits|
      invariant i <= |a.bits| && ParseFrom(a, home, i, es) == ParseFrom(a, home, 0, before)
      decreases |a.bits| - i
    {
      if a.bits[i] {
        var next := ReadEntry(a, home, i, es);
        if next.Bad? { return next; }
        es := next.entries;
        var slots := SlotsFor(a.dentry[i].nameLen);
        if slots > 0 { i := i + slots - 1; }
      }
      i := i + 1;
    }
    r := Parsed(es);
  }

  /** What a parse shows of an entry set: all of it, but for the dot entries of a block. */
  ghost predicate Shown(e: MemEntry) {
    e.home.Inline? || !Dots(e.name)
  }

  /** No entry of the home straddles slot i. */
  ghost predicate Boundary(es: set<MemEntry>, home: Home, i: nat) {
    forall e :: e in es && e.home == home && e.slot < i ==> e.slot + SlotsFor(|e.name|) <= i
  }

  /** Only the entries in here start in the slots from i up to next. */
  ghost predicate StartsBetween(es: set<MemEntry>, home: Home, i: nat, next: nat, here: set<MemEntry>) {
    forall e :: e in es && e.home == home && i <= e.slot < next ==> e in here
  }

  /** The entries added by a parse from slot i on. */
  ghost predicate Adds(es: set<MemEntry>, home: Home, i: nat, before: seq<MemEntry>, after: seq<MemEntry>) {
    && before <= after
    && forall e: MemEntry :: e in after <==> e in before || (e in es && e.home == home && i <= e.slot && Shown(e))
  }

  ghost predicate NamesApart(es: set<MemEntry>) {
    forall e, f :: e in es && f in es && e.name == f.name ==> e == f
  }

  ghost predicate NamesDistinct(es: seq<MemEntry>) {
    forall i, j :: 0 <= i < j < |es| ==> es[i].name != es[j].name
  }

  /** What stands at a slot is read back. */
  lemma ReadStanding(a: Area, n: nat, es: set<MemEntry>, home: Home, e: MemEntry, before: seq<MemEntry>)
    requires Holds(a, n, es, home) && e in es && e.home == home && NamesApart(es)
    requires forall x :: x in before ==> x in es && x != e
    ensures e.slot < n && a.dentry[e.slot].nameLen as int == |e.name|
    ensures ReadEntry(a, home, e.slot, before) == Parsed(if Shown(e) then before + [e] else before)
  {
    assert Stands(a, n, e);
    CStringOfName(e.name);
    forall i | 0 <= i < |before| ensures before[i].name != e.name { assert before[i] in before; }
  }

  lemma NothingBehind(a: Area, n: nat, es: set<MemEntry>, home: Home)
    requires Holds(a, n, es, home)
    ensures forall e :: e in es && e.home == home ==> e.slot < n
  {
    forall e | e in es && e.home == home ensures e.slot < n { assert Stands(a, n, e); }
  }

  /** No entry starts at a clear bit. */
  lemma FreeSlot(a: Area, n: nat, es: set<MemEntry>, home: Home, i: nat)
    requires Holds(a, n, es, home) && i < n && !a.bits[i] && Boundary(es, home, i)
    ensures Boundary(es, home, i + 1) && forall e :: e in es && e.home == home ==> e.slot != i
  {
    forall e | e in es && e.home == home ensures e.slot != i {
      assert !Covered(es, home, i);
      assert !Covers(e, i);
    }
  }

  /** At a set bit that no entry straddles one starts. */
  lemma WhoStarts(a: Area, n: nat, es: set<MemEntry>, home: Home, i: nat) returns (e: MemEntry)
    requires Holds(a, n, es, home) && i < n && a.bits[i] && Boundary(es, home, i)
    ensures e in es && e.home == home && e.slot == i
  {
    assert Covered(es, home, i);
    e :| e in es && e.home == home && Covers(e, i);
  }

  lemma NextBoundary(a: Area, n: nat, es: set<MemEntry>, home: Home, e: MemEntry)
    requires Holds(a, n, es, home) && e in es && e.home == home && Boundary(es, home, e.slot)
    ensures var next := e.slot + SlotsFor(|e.name|);
      next <= n && Boundary(es, home, next) && StartsBetween(es, home, e.slot, next, {e})
  {
    assert Stands(a, n, e);
    forall f | f in es && f.home == home && f != e ensures Apart(e, f) {}
  }

  lemma DistinctMore(es: set<MemEntry>, before: seq<MemEntry>, e: MemEntry)
    requires NamesApart(es) && NamesDistinct(before) && e in es && forall x :: x in before ==> x in es && x != e
    ensures NamesDistinct(before + [e])
  {
    forall i | 0 <= i < |before| ensures before[i].name != e.name { assert before[i] in before; }
  }

  /** One turn of the parse. */
  lemma ParseStep(a: Area, home: Home, i: nat, es: seq<MemEntry>)
    requires i <= |a.bits| == |a.dentry| == |a.names|
    ensures i == |a.bits| ==> ParseFrom(a, home, i, es) == Parsed(es)
    ensures i < |a.bits| && !a.bits[i] ==> ParseFrom(a, home, i, es) == ParseFrom(a, home, i + 1, es)
    ensures i < |a.bits| && a.bits[i] && ReadEntry(a, home, i, es).Parsed? ==>
              ParseFrom(a, home, i, es) == ParseFrom(a, home, i + SlotsFor(a.dentry[i].nameLen),
                ReadEntry(a, home, i, es).entries)
  {
  }

  lemma AddsNone(es: set<MemEntry>, home: Home, i: nat, before: seq<MemEntry>)
    requires forall e :: e in es && e.home == home ==> e.slot < i
    ensures Adds(es, home, i, before, before)
  {
  }

  lemma AddsSkip(es: set<MemEntry>, home: Home, i: nat, before: seq<MemEntry>, after: seq<MemEntry>)
    requires Adds(es, home, i + 1, before, after) && StartsBetween(es, home, i, i + 1, {})
    ensures Adds(es, home, i, before, after)
  {
  }

  lemma AddsOne(es: set<MemEntry>, home: Home, e: MemEntry, next: nat, before: seq<MemEntry>, after: seq<MemEntry>)
    requires e in es && e.home == home && e.slot < next
    requires Adds(es, home, next, if Shown(e) then before + [e] else before, after)
    requires StartsBetween(es, home, e.slot, next, {e})
    ensures Adds(es, home, e.slot, before, after)
  {
    var more := if Shown(e) then before + [e] else before;
    assert forall x :: x in more <==> x in before || (x == e && Shown(e));
  }

  /** What has been read before slot i. */
  ghost predicate ReadBefore(es: set<MemEntry>, home: Home, i: nat, before: seq<MemEntry>) {
    NamesDistinct(before) && forall x :: x in before ==> x in es && (x.home == home ==> x.slot < i)
  }

  lemma ReadBeforeMore(es: set<MemEntry>, home: Home, before: seq<MemEntry>, e: MemEntry, next: nat)
    requires ReadBefore(es, home, e.slot, before) && NamesApart(es) && e in es && e.home == home && e.slot < next
    ensures ReadBefore(es, home, next, if Shown(e) then before + [e] else before)
    ensures forall x :: x in before ==> x in es && x != e
  {
    DistinctMore(es, before, e);
  }

  /** At a set bit the entry that starts there is read, and the parse goes on behind it. */
  lemma ParseHit(a: Area, n: nat, es: set<MemEntry>, home: Home, i: nat, before: seq<MemEntry>) returns (e: MemEntry)
    requires Holds(a, n, es, home) && NamesApart(es) && i < n && a.bits[i] && Boundary(es, home, i) &&
      ReadBefore(es, home, i, before)
    ensures e in es && e.home == home && e.slot == i && Sized(a, n)
    ensures var next, more := i + SlotsFor(|e.name|), if Shown(e) then before + [e] else before;
      && i < next <= n && Boundary(es, home, next) && ReadBefore(es, home, next, more)
      && ParseFrom(a, home, i, before) == ParseFrom(a, home, next, more)
      && StartsBetween(es, home, i, next, {e})
  {
    hide *;
    HoldsSized(a, n, es, home);
    e := WhoStarts(a, n, es, home, i);
    ReadBeforeMore(es, home, before, e, i + SlotsFor(|e.name|));
    ReadStanding(a, n, es, home, e, before);
    NextBoundary(a, n, es, home, e);
    ParseStep(a, home, i, before);
  }

  /** At a clear bit nothing is read. */
  lemma ParseMiss(a: Area, n: nat, es: set<MemEntry>, home: Home, i: nat, before: seq<MemEntry>)
    requires Holds(a, n, es, home) && i < n && !a.bits[i] && Boundary(es, home, i) && ReadBefore(es, home, i, before)
    ensures Sized(a, n) && Boundary(es, home, i + 1) && ReadBefore(es, home, i + 1, before)
    ensures ParseFrom(a, home, i, before) == ParseFrom(a, home, i + 1, before)
    ensures StartsBetween(es, home, i, i + 1, {})
  {
    FreeSlot(a, n, es, home, i);
    LaterStart(es, home, i, before);
  }

  lemma HoldsSized(a: Area, n: nat, es: set<MemEntry>, home: Home)
    requires Holds(a, n, es, home)
    ensures Sized(a, n) && |a.bits| == |a.dentry| == |a.names| == n
  {
  }

  lemma ParseDone(a: Area, n: nat, es: set<MemEntry>, home: Home, before: seq<MemEntry>)
    requires Holds(a, n, es, home) && ReadBefore(es, home, n, before)
    ensures Sized(a, n) && ParseFrom(a, home, n, before) == Parsed(before) && Adds(es, home, n, before, before) &&
      NamesDistinct(before)
  {
    NothingBehind(a, n, es, home);
    AddsNone(es, home, n, before);
  }

  /** Reading an area back gives exactly the entries it holds, each once, in the order of their slots. */
  lemma {:induction false} ParseHolds(a: Area, n: nat, es: set<MemEntry>, home: Home, i: nat, before: seq<MemEntry>)
    requires Holds(a, n, es, home) && NamesApart(es) && i <= n && Boundary(es, home, i) &&
      ReadBefore(es, home, i, before)
    ensures Sized(a, n) && ParseFrom(a, home, i, before).Parsed?
    ensures Adds(es, home, i, before, ParseFrom(a, home, i, before).entries)
    ensures NamesDistinct(ParseFrom(a, home, i, before).entries)
    decreases n - i
  {
    hide *;
    HoldsSized(a, n, es, home);
    if i == n {
      ParseDone(a, n, es, home, before);
    } else if a.bits[i] {
      var e := ParseHit(a, n, es, home, i, before);
      var next, more := i + SlotsFor(|e.name|), if Shown(e) then before + [e] else before;
      ParseHolds(a, n, es, home, next, more);
      AddsOne(es, home, e, next, before, ParseFrom(a, home, next, more).entries);
    } else {
      ParseMiss(a, n, es, home, i, before);
      ParseHolds(a, n, es, home, i + 1, before);
      AddsSkip(es, home, i, before, ParseFrom(a, home, i + 1, before).entries);
    }
  }

  lemma LaterStart(es: set<MemEntry>, home: Home, i: nat, before: seq<MemEntry>)
    requires ReadBefore(es, home, i, before)
    ensures ReadBefore(es, home, i + 1, before)
  {
  }

  // ---- Conversion ----

  function Move(e: MemEntry, slot: nat, home: Home): MemEntry {
    e.(slot := slot, home := home)
  }

  /** The entry at slot i of a, copied raw to slot to of b. */
  function CopyIn(a: Area, i: nat, b: Area, to: nat, k: nat): (r: Area)
    requires |a.dentry| == |a.names| && |b.bits| == |b.dentry| == |b.names|
    requires 0 < k && i + k <= |a.names| && to + k <= |b.names|
    ensures Sized(r, |b.bits|)
  {
    Area(seq(|b.bits|, j requires 0 <= j < |b.bits| => to <= j < to + k || b.bits[j]),
         b.dentry[to := a.dentry[i]],
         b.names[..to] + a.names[i..i + k] + b.names[to + k..])
  }

  lemma CopyJoins(a: Area, n: nat, es: set<MemEntry>, e: MemEntry, b: Area, m: nat, to: nat, home: Home)
    requires Holds(a, n, es, e.home) && e in es && Sized(b, m) && FreeRun(b.bits, to, SlotsFor(|e.name|))
    ensures e.slot + SlotsFor(|e.name|) <= n
    ensures Joins(b, CopyIn(a, e.slot, b, to, SlotsFor(|e.name|)), m, Move(e, to, home))
  {
    var k := SlotsFor(|e.name|);
    assert Stands(a, n, e);
    var r, f := CopyIn(a, e.slot, b, to, k), Move(e, to, home);
    assert r.names[to..to + k] == a.names[e.slot..e.slot + k];
    SameSlotsSameFlat(a.names, e.slot, r.names, to, k);
    hide Flat, SlotsFor;
    assert Stands(r, m, f);
  }

  /** The entries all stand before slot to. */
  ghost predicate Packed(moved: set<MemEntry>, home: Home, to: nat) {
    forall x :: x in moved ==> x.home == home && x.slot + SlotsFor(|x.name|) <= to
  }

  ghost predicate AllInline(es: set<MemEntry>) {
    forall x :: x in es ==> x.home == Inline
  }

  /** How far the conversion has come: the entries before slot i of the inode stand, in the same order and
      without gaps, before slot to of the block. */
  ghost predicate Converted(es: set<MemEntry>, i: nat, b: Area, to: nat, slotMap: seq<nat>, moved: set<MemEntry>,
                            home: Home) {
    && to <= i <= NR_INLINE && Boundary(es, Inline, i) && Holds(b, NR_BLOCK, moved, home)
    && Packed(moved, home, to) && MovedTo(es, i, slotMap, moved, home)
  }

  lemma FreeBehind(es: set<MemEntry>, i: nat, b: Area, to: nat, slotMap: seq<nat>, moved: set<MemEntry>, home: Home,
                   k: nat)
    requires Converted(es, i, b, to, slotMap, moved, home) && to + k <= NR_BLOCK
    ensures FreeRun(b.bits, to, k)
  {
    forall j | to <= j < to + k ensures !b.bits[j] {
      assert b.bits[j] <==> Covered(moved, home, j);
    }
  }

  lemma ConvertedOne(a: Area, es: set<MemEntry>, e: MemEntry, b: Area, to: nat, slotMap: seq<nat>,
                     moved: set<MemEntry>, home: Home)
    requires Holds(a, NR_INLINE, es, Inline) && e in es && AllInline(es) && home.InBlock?
    requires Converted(es, e.slot, b, to, slotMap, moved, home)
    ensures var k := SlotsFor(|e.name|);
      && e.slot + k <= NR_INLINE && to + k <= NR_BLOCK && Sized(b, NR_BLOCK)
      && Converted(es, e.slot + k, CopyIn(a, e.slot, b, to, k), to + k, slotMap[e.slot := to],
        moved + {Move(e, to, home)}, home)
  {
    assert NR_INLINE <= NR_BLOCK;
    hide *;
    HoldsSized(a, NR_INLINE, es, Inline);
    InlineHome(es, e);
    var k, f := SlotsFor(|e.name|), Move(e, to, home);
    MoveIs(e, to, home);
    ConvertedParts(es, e.slot, b, to, slotMap, moved, home);
    NextBoundary(a, NR_INLINE, es, Inline, e);
    FreeBehind(es, e.slot, b, to, slotMap, moved, home, k);
    CopyJoins(a, NR_INLINE, es, e, b, NR_BLOCK, to, home);
    JoinHolds(b, CopyIn(a, e.slot, b, to, k), NR_BLOCK, moved, f);
    MovedMore(es, e, e.slot + k, to, slotMap, moved, home);
    ConvertedIf(es, e.slot + k, CopyIn(a, e.slot, b, to, k), to + k, slotMap[e.slot := to], moved, f, to, home);
  }

  /** The entries moved so far, and the slot map. */
  ghost predicate MovedTo(es: set<MemEntry>, i: nat, slotMap: seq<nat>, moved: set<MemEntry>, home: Home) {
    && |slotMap| == NR_INLINE
    && (forall e :: e in es && e.slot < i ==> e.slot < NR_INLINE && Move(e, slotMap[e.slot], home) in moved)
    && forall x :: x in moved ==>
      exists e :: e in es && e.slot < i && e.slot < NR_INLINE && x == Move(e, slotMap[e.slot], home)
  }

  lemma ConvertedParts(es: set<MemEntry>, i: nat, b: Area, to: nat, slotMap: seq<nat>, moved: set<MemEntry>, home: Home)
    requires Converted(es, i, b, to, slotMap, moved, home)
    ensures |slotMap| == NR_INLINE && to <= i <= NR_INLINE && Boundary(es, Inline, i) && Holds(b, NR_BLOCK, moved, home)
    ensures Packed(moved, home, to) && MovedTo(es, i, slotMap, moved, home) && Sized(b, NR_BLOCK) &&
      |b.bits| == |b.dentry| == |b.names| == NR_BLOCK
  {
  }

  lemma InlineHome(es: set<MemEntry>, e: MemEntry)
    requires AllInline(es) && e in es
    ensures e.home == Inline
  {
  }

  lemma MoveIs(e: MemEntry, to: nat, home: Home)
    ensures Move(e, to, home) == MemEntry(e.name, e.ino, e.fileType, home, to)
  {
  }

  lemma ConvertedIf(es: set<MemEntry>, i: nat, b: Area, to: nat, slotMap: seq<nat>, moved: set<MemEntry>, f: MemEntry,
                    start: nat, home: Home)
    requires to <= i <= NR_INLINE && Boundary(es, Inline, i) && Holds(b, NR_BLOCK, moved + {f}, home)
    requires Packed(moved, home, start)
    requires f.home == home && f.slot == start && to == start + SlotsFor(|f.name|)
    requires MovedTo(es, i, slotMap, moved + {f}, home)
    ensures Converted(es, i, b, to, slotMap, moved + {f}, home)
  {
    hide Holds, Boundary;
  }

  lemma MovedMore(es: set<MemEntry>, e: MemEntry, next: nat, to: nat, slotMap: seq<nat>, moved: set<MemEntry>,
                  home: Home)
    requires |slotMap| == NR_INLINE && e in es && e.slot < next <= NR_INLINE
    requires StartsBetween(es, Inline, e.slot, next, {e}) && AllInline(es)
    requires MovedTo(es, e.slot, slotMap, moved, home)
    ensures MovedTo(es, next, slotMap[e.slot := to], moved + {Move(e, to, home)}, home)
  {
    var k := next - e.slot;
    var slotMap', moved' := slotMap[e.slot := to], moved + {Move(e, to, home)};
    forall f | f in es && f.slot < e.slot + k ensures f.slot < NR_INLINE && Move(f, slotMap'[f.slot], home) in moved' {
      if f.slot >= e.slot { assert f == e; }
    }
    forall x | x in moved'
      ensures exists f :: f in es && f.slot < e.slot + k && f.slot < NR_INLINE && x == Move(f, slotMap'[f.slot], home)
    {
      if x in moved {
        var f :| f in es && f.slot < e.slot && f.slot < NR_INLINE && x == Move(f, slotMap[f.slot], home);
        assert x == Move(f, slotMap'[f.slot], home);
      } else {
        assert x == Move(e, slotMap'[e.slot], home);
      }
    }
  }

  lemma ConvertedNone(es: set<MemEntry>, home: Home, slotMap: seq<nat>)
    requires |slotMap| == NR_INLINE && home.InBlock?
    ensures Converted(es, 0, EmptyArea(NR_BLOCK), 0, slotMap, {}, home)
  {
    EmptyHolds(NR_BLOCK, {}, home);
  }

  lemma ConvertedSkip(a: Area, es: set<MemEntry>, i: nat, b: Area, to: nat, slotMap: seq<nat>, moved: set<MemEntry>,
                      home: Home)
    requires Holds(a, NR_INLINE, es, Inline) && AllInline(es) && i < NR_INLINE && !a.bits[i]
    requires Converted(es, i, b, to, slotMap, moved, home)
    ensures Converted(es, i + 1, b, to, slotMap, moved, home)
  {
    FreeSlot(a, NR_INLINE, es, Inline, i);
    hide Holds;
    forall x | x in moved
      ensures exists f :: f in es && f.slot < i + 1 && f.slot < NR_INLINE && x == Move(f, slotMap[f.slot], home)
    {
      var f :| f in es && f.slot < i && f.slot < NR_INLINE && x == Move(f, slotMap[f.slot], home);
      assert f.slot < i + 1;
    }
  }

  /** All entries have moved, each to where the slot map says. */
  ghost predicate AllMoved(es: set<MemEntry>, slotMap: seq<nat>, moved: set<MemEntry>, home: Home) {
    && |slotMap| == NR_INLINE
    && (forall e :: e in es ==> e.slot < NR_INLINE && Move(e, slotMap[e.slot], home) in moved)
    && forall x :: x in moved ==> exists e :: e in es && e.slot < NR_INLINE && x == Move(e, slotMap[e.slot], home)
  }

  lemma ConvertedAll(a: Area, es: set<MemEntry>, b: Area, to: nat, slotMap: seq<nat>, moved: set<MemEntry>, home: Home)
    requires Holds(a, NR_INLINE, es, Inline) && AllInline(es)
    requires Converted(es, NR_INLINE, b, to, slotMap, moved, home)
    ensures Holds(b, NR_BLOCK, moved, home) && AllMoved(es, slotMap, moved, home)
  {
    NothingBehind(a, NR_INLINE, es, Inline);
    hide Holds;
    forall x | x in moved ensures exists e :: e in es && e.slot < NR_INLINE && x == Move(e, slotMap[e.slot], home) {
      var e :| e in es && e.slot < NR_INLINE && e.slot < NR_INLINE && x == Move(e, slotMap[e.slot], home);
    }
  }

  /** The copying loop of rtfsDirInodeConvertInlineToRegular. Packed from the front, the entries of the
      inode always fit into one block: neither of its error exits is taken. */
  method ConvertArea(a: Area, ghost es: set<MemEntry>, home: Home)
    returns (ok: bool, b: Area, slotMap: seq<nat>, ghost moved: set<MemEntry>)
    requires Holds(a, NR_INLINE, es, Inline) && AllInline(es) && home.InBlock?
    ensures ok && Holds(b, NR_BLOCK, moved, home) && AllMoved(es, slotMap, moved, home)
  {
    assert Sized(a, NR_INLINE);
    b, slotMap, moved := EmptyArea(NR_BLOCK), seq(NR_INLINE, _ => 0xffff), {};
    ConvertedNone(es, home, slotMap);
    hide *;
    var i: nat, to: nat := 0, 0;
    while i < NR_INLINE
      invariant i <= NR_INLINE && Converted(es, i, b, to, slotMap, moved, home)
    {
      if a.bits[i] {
        ghost var e := ConvertNext(a, es, i, b, to, slotMap, moved, home);
        var len := a.dentry[i].nameLen;
        if len == 0 || len > NAME_LEN { return false, b, slotMap, moved; }
        var k := SlotsFor(len);
        if i + k > NR_INLINE || to + k > NR_BLOCK { return false, b, slotMap, moved; }
        b, slotMap, moved := CopyIn(a, i, b, to, k), slotMap[i := to], moved + {Move(e, to, home)};
        to, i := to + k, i + k;
      } else {
        ConvertedSkip(a, es, i, b, to, slotMap, moved, home);
        i := i + 1;
      }
    }
    ConvertedAll(a, es, b, to, slotMap, moved, home);
    ok := true;
  }

  lemma ConvertNext(a: Area, es: set<MemEntry>, i: nat, b: Area, to: nat, slotMap: seq<nat>, moved: set<MemEntry>,
                    home: Home)
    returns (e: MemEntry)
    requires Holds(a, NR_INLINE, es, Inline) && AllInline(es) && home.InBlock? && i < NR_INLINE && a.bits[i]
    requires Converted(es, i, b, to, slotMap, moved, home)
    ensures a.dentry[i].nameLen as int == |e.name| && |slotMap| == NR_INLINE &&
      |b.bits| == |b.dentry| == |b.names| == NR_BLOCK
    ensures |a.bits| == |a.dentry| == |a.names| == NR_INLINE
    ensures var k := SlotsFor(|e.name|);
      && 0 < k && i + k <= NR_INLINE && to + k <= NR_BLOCK
      && Converted(es, i + k, CopyIn(a, i, b, to, k), to + k, slotMap[i := to], moved + {Move(e, to, home)}, home)
  {
    e := WhoStarts(a, NR_INLINE, es, Inline, i);
    assert Stands(a, NR_INLINE, e);
    ConvertedOne(a, es, e, b, to, slotMap, moved, home);
  }
}
