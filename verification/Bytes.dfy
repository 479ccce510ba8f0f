/** Bytes, little-endian integers, 4 KB blocks and in-place byte updates, shared by every on-disk format. */
module Bytes {

  type Byte = n: int | 0 <= n < 256
  type U16 = n: int | 0 <= n < 0x1_0000
  type U32 = n: int | 0 <= n < 0x1_0000_0000

  const BLOCK_SIZE: nat := 4096

  type Block = b: seq<Byte> | |b| == BLOCK_SIZE witness seq(BLOCK_SIZE, _ => 0)

  function Zeros(n: nat): (s: seq<Byte>)
    ensures |s| == n && forall i :: 0 <= i < n ==> s[i] == 0
  {
    seq(n, _ => 0)
  }

  /** A block that was never written since the ring was formatted. */
  function ZeroBlock(): Block {
    Zeros(BLOCK_SIZE)
  }

  /** The little-endian value of width bytes of s from off. */
  function LeValue(s: seq<Byte>, off: nat, width: nat): nat
    requires off + width <= |s|
    decreases width
  {
    if width == 0 then 0 else s[off] as int + 0x100 * LeValue(s, off + 1, width - 1)
  }

  lemma LeValueBound(s: seq<Byte>, off: nat)
    ensures off + 2 <= |s| ==> LeValue(s, off, 2) < 0x1_0000
    ensures off + 4 <= |s| ==> LeValue(s, off, 4) < 0x1_0000_0000
  {
    if off + 2 <= |s| {
      assert LeValue(s, off + 2, 0) == 0;
      assert LeValue(s, off + 1, 1) == s[off + 1];
    }
    if off + 4 <= |s| {
      assert LeValue(s, off + 4, 0) == 0;
      assert LeValue(s, off + 3, 1) == s[off + 3];
      assert LeValue(s, off + 2, 2) < 0x1_0000;
    }
  }

  function Get16(s: seq<Byte>, off: nat): U16
    requires off + 2 <= |s|
  {
    LeValueBound(s, off);
    LeValue(s, off, 2)
  }

  function Get32(s: seq<Byte>, off: nat): U32
    requires off + 4 <= |s|
  {
    LeValueBound(s, off);
    LeValue(s, off, 4)
  }

  function Le16(n: U16): (s: seq<Byte>)
    ensures |s| == 2 && Get16(s, 0) == n
  {
    var s := [n % 0x100, n / 0x100];
    assert LeValue(s, 2, 0) == 0 && LeValue(s, 1, 1) == s[1];
    s
  }

  function Le32(n: U32): (s: seq<Byte>)
    ensures |s| == 4 && Get32(s, 0) == n
  {
    var s := [n % 0x100, n / 0x100 % 0x100, n / 0x1_0000 % 0x100, n / 0x100_0000];
    assert LeValue(s, 4, 0) == 0 && LeValue(s, 3, 1) == s[3];
    assert LeValue(s, 2, 2) == n / 0x1_0000;
    assert LeValue(s, 1, 3) == n / 0x100;
    s
  }

  /** The value depends only on the bytes it is read from. */
  lemma {:induction false} SameBytesSameValue(s: seq<Byte>, off: nat, s': seq<Byte>, off': nat, width: nat)
    requires off + width <= |s| && off' + width <= |s'|
    requires s[off..off + width] == s'[off'..off' + width]
    ensures LeValue(s, off, width) == LeValue(s', off', width)
    decreases width
  {
    if width > 0 {
      assert s[off] == s[off..off + width][0] && s'[off'] == s'[off'..off' + width][0];
      assert s[off + 1..off + width] == s[off..off + width][1..];
      assert s'[off' + 1..off' + width] == s'[off'..off' + width][1..];
      SameBytesSameValue(s, off + 1, s', off' + 1, width - 1);
    }
  }

  /** Replace |data| bytes of b starting at off (the memcpy of an entry into a table block). */
  function Splice(b: seq<Byte>, off: nat, data: seq<Byte>): (r: seq<Byte>)
    requires off + |data| <= |b|
    ensures |r| == |b|
    ensures r[off..off + |data|] == data
    ensures forall i :: 0 <= i < off || off + |data| <= i < |b| ==> r[i] == b[i]
  {
    b[..off] + data + b[off + |data|..]
  }

  // ---- Words as bytes ----

  function WordBytes(ws: seq<U32>): (s: seq<Byte>)
    ensures |s| == 4 * |ws|
  {
    if ws == [] then [] else WordBytes(ws[..|ws| - 1]) + Le32(ws[|ws| - 1])
  }

  lemma {:induction false} WordBytesAt(ws: seq<U32>, i: nat)
    requires i < |ws|
    ensures Get32(WordBytes(ws), 4 * i) == ws[i]
  {
    var init, s := WordBytes(ws[..|ws| - 1]), WordBytes(ws);
    if i == |ws| - 1 {
      assert s[4 * i..4 * i + 4] == Le32(ws[i]) == Le32(ws[i])[0..4];
      SameBytesSameValue(s, 4 * i, Le32(ws[i]), 0, 4);
    } else {
      WordBytesAt(ws[..|ws| - 1], i);
      assert s[4 * i..4 * i + 4] == init[4 * i..4 * i + 4];
      SameBytesSameValue(s, 4 * i, init, 4 * i, 4);
    }
  }
}
