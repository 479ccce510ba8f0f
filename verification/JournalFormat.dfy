/** The on-disk form of journal entries and of the typed records that carry them
    (src/journal/journal_type.h). */
module JournalFormat {
  import opened Bytes

  const HEADER_LEN: nat := 4

  /** The three kinds of data record; Kind is also the journal type of an output vector. */
  datatype Kind = Nats | Sits | Super

  const TYPE_NOP: Byte := 0x7e
  const TYPE_END: Byte := 0x7f

  function TypeByte(k: Kind): Byte {
    match k
    case Nats => 0
    case Sits => 1
    case Super => 2
  }

  function EntrySize(k: Kind): nat {
    match k
    case Nats => 12
    case Sits => 72
    case Super => 8
  }

  /** The 32-bit words taken by n packed entries: every entry size is a multiple of four bytes. */
  function PackedWords(k: Kind, n: nat): nat {
    match k
    case Nats => 3 * n
    case Sits => 18 * n
    case Super => 2 * n
  }

  function PackedSize(k: Kind, n: nat): nat {
    4 * PackedWords(k, n)
  }

  /** The number of whole entries in a payload of the given length. */
  function PackedCount(k: Kind, bytes: nat): (n: nat)
    ensures PackedSize(k, n) <= bytes
  {
    if bytes < EntrySize(k) then 0 else 1 + PackedCount(k, bytes - EntrySize(k))
  }

  /** The payload length is a multiple of the entry size. */
  predicate WholeEntries(k: Kind, bytes: nat) {
    bytes == PackedSize(k, PackedCount(k, bytes))
  }

  lemma PackedSizeIsProduct(k: Kind, n: nat)
    ensures PackedSize(k, n) == n * EntrySize(k)
  {
    match k
    case Nats =>
    case Sits =>
    case Super =>
  }

  lemma {:induction false} CountOfPacked(k: Kind, n: nat)
    ensures WholeEntries(k, PackedSize(k, n)) && PackedCount(k, PackedSize(k, n)) == n
  {
    if n > 0 { CountOfPacked(k, n - 1); }
  }

  /** A SIT table entry: the packed 32-bit word followed by the 64-byte validity bitmap. */
  type SitImage = s: seq<Byte> | |s| == 68 witness seq(68, _ => 0)

  datatype Entry =
    | NatEntry(nid: U32, ino: U32, addr: U32)
    | SitEntry(seg: U32, image: SitImage)
    | SuperEntry(off: U32, val: U32)

  function KindOf(e: Entry): Kind {
    match e
    case NatEntry(_, _, _) => Nats
    case SitEntry(_, _) => Sits
    case SuperEntry(_, _) => Super
  }

  ghost predicate AllOfKind(k: Kind, es: seq<Entry>) {
    forall e :: e in es ==> KindOf(e) == k
  }

  function Encode(e: Entry): (s: seq<Byte>)
    ensures |s| == EntrySize(KindOf(e))
  {
    match e
    case NatEntry(nid, ino, addr) => Le32(nid) + Le32(ino) + Le32(addr)
    case SitEntry(seg, image) => Le32(seg) + image
    case SuperEntry(off, val) => Le32(off) + Le32(val)
  }

  function Decode(k: Kind, s: seq<Byte>): (e: Entry)
    requires |s| == EntrySize(k)
    ensures KindOf(e) == k
  {
    match k
    case Nats => NatEntry(Get32(s, 0), Get32(s, 4), Get32(s, 8))
    case Sits => SitEntry(Get32(s, 0), s[4..])
    case Super => SuperEntry(Get32(s, 0), Get32(s, 4))
  }

  /** Reading four bytes out of a concatenation. */
  lemma Get32Of(pre: seq<Byte>, n: U32, post: seq<Byte>)
    ensures Get32(pre + Le32(n) + post, |pre|) == n
  {
    var s := pre + Le32(n) + post;
    assert s[|pre|..|pre| + 4] == Le32(n) == Le32(n)[0..4];
    SameBytesSameValue(s, |pre|, Le32(n), 0, 4);
  }

  lemma DecodeEncode(e: Entry)
    ensures Decode(KindOf(e), Encode(e)) == e
  {
    match e
    case NatEntry(nid, ino, addr) =>
      Get32Of([], nid, Le32(ino) + Le32(addr));
      Get32Of(Le32(nid), ino, Le32(addr));
      Get32Of(Le32(nid) + Le32(ino), addr, []);
      assert Encode(e) == [] + Le32(nid) + (Le32(ino) + Le32(addr));
      assert Encode(e) == Le32(nid) + Le32(ino) + Le32(addr) + [];
    case SitEntry(seg, image) =>
      Get32Of([], seg, image);
      assert Encode(e) == [] + Le32(seg) + image;
    case SuperEntry(off, val) =>
      Get32Of([], off, Le32(val));
      Get32Of(Le32(off), val, []);
      assert Encode(e) == [] + Le32(off) + Le32(val);
      assert Encode(e) == Le32(off) + Le32(val) + [];
  }

  function EncodeAll(k: Kind, es: seq<Entry>): (s: seq<Byte>)
    requires AllOfKind(k, es)
    ensures |s| == PackedSize(k, |es|)
  {
    if es == [] then [] else Encode(es[0]) + EncodeAll(k, es[1..])
  }

  /** Decode a payload of n packed entries. */
  function DecodeAll(k: Kind, s: seq<Byte>, n: nat): (es: seq<Entry>)
    requires |s| == PackedSize(k, n)
    ensures AllOfKind(k, es) && |es| == n
    decreases n
  {
    if n == 0 then []
    else
      [Decode(k, s[..EntrySize(k)])] + DecodeAll(k, s[EntrySize(k)..], n - 1)
  }

  lemma {:induction false} DecodeEncodeAll(k: Kind, es: seq<Entry>)
    requires AllOfKind(k, es)
    ensures DecodeAll(k, EncodeAll(k, es), |es|) == es
  {
    if es != [] {
      var s, tail := EncodeAll(k, es), EncodeAll(k, es[1..]);
      assert KindOf(es[0]) == k;
      assert s[..EntrySize(k)] == Encode(es[0]) && s[EntrySize(k)..] == tail;
      DecodeEncodeAll(k, es[1..]);
      DecodeEncode(es[0]);
    }
  }

  /** The four header bytes: little-endian length (header included), type, reserved zero. */
  function Header(len: U16, ty: Byte): (s: seq<Byte>)
    ensures |s| == HEADER_LEN
  {
    Le16(len) + [ty, 0]
  }

  ghost predicate Fits(k: Kind, es: seq<Entry>) {
    AllOfKind(k, es) && HEADER_LEN + PackedSize(k, |es|) <= BLOCK_SIZE
  }

  /** One data record: a header and its entries. */
  function RecordBytes(k: Kind, es: seq<Entry>): (s: seq<Byte>)
    requires Fits(k, es)
    ensures |s| == HEADER_LEN + PackedSize(k, |es|)
  {
    Header(HEADER_LEN + PackedSize(k, |es|), TypeByte(k)) + EncodeAll(k, es)
  }
}
