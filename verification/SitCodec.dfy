/** SIT entries as bytes (struct RtfsSitEntry, src/fs/fs.h): the packed word and 64 bytes of bitmap, bit i
    of the segment being bit i % 8 of byte i / 8; 60 entries to a block. */
module SitCodec {
  import opened Bytes
  import opened SegmentInfo

  const CELL_BYTES: nat := 68
  const CELLS_PER_BLOCK: nat := 60

  // ---- Bits of a byte ----

  /** The number with these bits, lowest first. */
  function Pack(bits: seq<bool>): (n: nat)
    ensures |bits| == 8 ==> n < 256
  {
    PackBound(bits);
    PackBits(bits)
  }

  function PackBits(bits: seq<bool>): nat {
    if bits == [] then 0 else (if bits[0] then 1 else 0) + 2 * PackBits(bits[1..])
  }

  function Power(n: nat): nat {
    if n == 0 then 1 else 2 * Power(n - 1)
  }

  lemma {:induction false} PackBound(bits: seq<bool>)
    ensures PackBits(bits) < Power(|bits|)
    ensures |bits| == 8 ==> Power(|bits|) == 256
  {
    if bits != [] { PackBound(bits[1..]); }
    if |bits| == 8 { assert Power(8) == 2 * Power(7) == 4 * Power(6) == 8 * Power(5) == 16 * Power(4); }
  }

  /** (n >> j) & 1 */
  function Bit(n: nat, j: nat): bool {
    if j == 0 then n % 2 == 1 else Bit(n / 2, j - 1)
  }

  lemma {:induction false} BitOfPack(bits: seq<bool>, j: nat)
    requires j < |bits|
    ensures Bit(PackBits(bits), j) == bits[j]
  {
    if j > 0 { BitOfPack(bits[1..], j - 1); }
  }

  // ---- One entry ----

  function MapBytes(bits: Bitmap): (s: seq<Byte>)
    ensures |s| == 64
  {
    seq(64, k requires 0 <= k < 64 => Pack(bits[8 * k..8 * k + 8]))
  }

  function CellBytes(c: Cell): (s: seq<Byte>)
    ensures |s| == CELL_BYTES
  {
    Le32(c.word) + MapBytes(c.bits)
  }

  /** The entry that stands at off, as the source reads it: the word, and bit i % 8 of map byte i / 8. */
  function CellAt(s: seq<Byte>, off: nat): Cell
    requires off + CELL_BYTES <= |s|
  {
    Cell(Get32(s, off), seq(BLOCKS_PER_SEGMENT, i requires 0 <= i < BLOCKS_PER_SEGMENT =>
      Bit(s[off + 4 + i / 8], i % 8)))
  }

  /** An entry is read back as it was written. */
  lemma CellRoundTrip(s: seq<Byte>, off: nat, c: Cell)
    requires off + CELL_BYTES <= |s| && s[off..off + CELL_BYTES] == CellBytes(c)
    ensures CellAt(s, off) == c
  {
    var e := CellBytes(c);
    assert s[off..off + 4] == e[..4] == Le32(c.word) == Le32(c.word)[0..4];
    SameBytesSameValue(s, off, Le32(c.word), 0, 4);
    forall i | 0 <= i < BLOCKS_PER_SEGMENT ensures CellAt(s, off).bits[i] == c.bits[i] {
      var k := i / 8;
      assert s[off + 4 + k] == s[off..off + CELL_BYTES][4 + k] == e[4 + k] == MapBytes(c.bits)[k];
      BitOfPack(c.bits[8 * k..8 * k + 8], i % 8);
    }
  }

  // ---- Entries in a row ----

  function CellsBytes(cells: seq<Cell>): (s: seq<Byte>)
    ensures |s| == CELL_BYTES * |cells|
  {
    if cells == [] then [] else CellsBytes(cells[..|cells| - 1]) + CellBytes(cells[|cells| - 1])
  }

  lemma {:induction false} CellsBytesAt(cells: seq<Cell>, i: nat)
    requires i < |cells|
    ensures CellsBytes(cells)[CELL_BYTES * i..CELL_BYTES * i + CELL_BYTES] == CellBytes(cells[i])
  {
    var init := CellsBytes(cells[..|cells| - 1]);
    if i < |cells| - 1 {
      CellsBytesAt(cells[..|cells| - 1], i);
      assert CellsBytes(cells)[CELL_BYTES * i..CELL_BYTES * i + CELL_BYTES] ==
        init[CELL_BYTES * i..CELL_BYTES * i + CELL_BYTES];
    }
  }

  /** Of a block that starts with the entries, entry i is read back. */
  lemma BlockRoundTrip(b: seq<Byte>, cells: seq<Cell>, i: nat)
    requires i < |cells| && CELL_BYTES * |cells| <= |b| && b[..CELL_BYTES * |cells|] == CellsBytes(cells)
    ensures CELL_BYTES * i + CELL_BYTES <= |b| && CellAt(b, CELL_BYTES * i) == cells[i]
  {
    CellsBytesAt(cells, i);
    assert b[CELL_BYTES * i..CELL_BYTES * i + CELL_BYTES] ==
      b[..CELL_BYTES * |cells|][CELL_BYTES * i..CELL_BYTES * i + CELL_BYTES];
    CellRoundTrip(b, CELL_BYTES * i, cells[i]);
  }
}
