/** Little-endian fields of the diag messages (32-bit little-endian ABI). */
module Bytes {
  type Byte = bv8

  function Min(a: int, b: int): int {
    if a < b then a else b
  }

  function LowByte(x: bv16): Byte {
    (x & 0xFF) as bv8
  }

  function HighByte(x: bv16): Byte {
    (x >> 8) as bv8
  }

  function U16(lo: Byte, hi: Byte): bv16 {
    (lo as bv16) | ((hi as bv16) << 8)
  }

  lemma U16RoundTrip(x: bv16)
    ensures U16(LowByte(x), HighByte(x)) == x
  {}

  /** The unsigned 16-bit value stored at position i. */
  function U16At(s: seq<Byte>, i: nat): bv16
    requires i + 2 <= |s|
  {
    U16(s[i], s[i + 1])
  }

  function LE16(x: bv16): (s: seq<Byte>)
    ensures |s| == 2
  {
    [LowByte(x), HighByte(x)]
  }

  lemma BytesRoundTrip(lo: Byte, hi: Byte)
    ensures LE16(U16(lo, hi)) == [lo, hi]
  {}

  lemma U16AtWithin(s: seq<Byte>, i: nat, x: bv16)
    requires i + 2 <= |s| && s[i..i + 2] == LE16(x)
    ensures U16At(s, i) == x
  {
    U16RoundTrip(x);
    hide U16, LowByte, HighByte;
    var t := s[i..i + 2];
    assert t[0] == s[i] && t[1] == s[i + 1];
  }

  type Word = n: nat | n < 0x1_0000_0000

  // ----- Length fields are numbers, not bit patterns --------------------------------------------

  /** A small number as a byte, nibble by nibble. */
  function ByteOf(n: nat): Byte
    requires n < 256
  {
    (((n / 16) as bv8) << 4) | ((n % 16) as bv8)
  }

  lemma ByteOfValue(n: nat)
    requires n < 256
    ensures ByteOf(n) as int == n
  {
    NibbleValue(n / 16);
    NibbleValue(n % 16);
    NibblesJoin((n / 16) as bv8, (n % 16) as bv8);
  }

  lemma NibbleValue(n: nat)
    requires n < 16
    ensures (n as bv8) as int == n && n as bv8 < 16
  {}

  lemma NibblesJoin(h: bv8, l: bv8)
    requires h < 16 && l < 16
    ensures ((h << 4) | l) as int == 16 * (h as int) + l as int
  {}

  /** An unsigned number in two little-endian bytes. */
  function Count16(n: nat): (s: seq<Byte>)
    requires n < 0x1_0000
    ensures |s| == 2
  {
    [ByteOf(n % 256), ByteOf(n / 256)]
  }

  function Count16At(s: seq<Byte>, i: nat): nat
    requires i + 2 <= |s|
  {
    s[i] as int + 256 * (s[i + 1] as int)
  }

  /** An unsigned number in four little-endian bytes. */
  function Count32(n: Word): (s: seq<Byte>)
    ensures |s| == 4
  {
    Count16(n % 0x1_0000) + Count16(n / 0x1_0000)
  }

  function Count32At(s: seq<Byte>, i: nat): Word
    requires i + 4 <= |s|
  {
    Count16At(s, i) + 0x1_0000 * Count16At(s, i + 2)
  }

  lemma Count16Within(s: seq<Byte>, i: nat, n: nat)
    requires n < 0x1_0000 && i + 2 <= |s| && s[i..i + 2] == Count16(n)
    ensures Count16At(s, i) == n
  {
    ByteOfValue(n % 256);
    ByteOfValue(n / 256);
    hide ByteOf;
    assert s[i] == s[i..i + 2][0] && s[i + 1] == s[i..i + 2][1];
  }

  lemma Count32Within(s: seq<Byte>, i: nat, n: Word)
    requires i + 4 <= |s| && s[i..i + 4] == Count32(n)
    ensures Count32At(s, i) == n
  {
    hide Count16;
    assert s[i..i + 2] == s[i..i + 4][..2] && s[i + 2..i + 4] == s[i..i + 4][2..];
    Count16Within(s, i, n % 0x1_0000);
    Count16Within(s, i + 2, n / 0x1_0000);
  }

  /** The same bits read as a signed 32-bit number. */
  function Signed(w: Word): int {
    if w < 0x8000_0000 then w else w - 0x1_0000_0000
  }

  /** s with data written over it at the given position. */
  function Patch(s: seq<Byte>, at: nat, data: seq<Byte>): (r: seq<Byte>)
    requires at + |data| <= |s|
    ensures |r| == |s|
    ensures r[at..at + |data|] == data
    ensures forall k :: 0 <= k < |s| && !(at <= k < at + |data|) ==> r[k] == s[k]
  {
    s[..at] + data + s[at + |data|..]
  }

  lemma PatchAt(s: seq<Byte>, at: nat, data: seq<Byte>, p: nat)
    requires at + |data| <= |s| && p < |s|
    ensures Patch(s, at, data)[p] == if at <= p < at + |data| then data[p - at] else s[p]
  {}

  /** A stretch beside the data is as before. */
  lemma PatchBeside(s: seq<Byte>, at: nat, data: seq<Byte>, lo: nat, hi: nat)
    requires at + |data| <= |s| && lo <= hi <= |s| && (hi <= at || at + |data| <= lo)
    ensures Patch(s, at, data)[lo..hi] == s[lo..hi]
  {}

  lemma Regroup(a: seq<Byte>, b: seq<Byte>, c: seq<Byte>)
    ensures a + (b + c) == a + b + c
  {}

  lemma JoinedSlices(p: seq<Byte>, i: nat, j: nat, k: nat)
    requires i <= j <= k <= |p|
    ensures p[i..k] == p[i..j] + p[j..k]
  {}

  /** memcpy from a value into an array. */
  method Store(dest: array<Byte>, at: nat, data: seq<Byte>)
    requires at + |data| <= dest.Length
    modifies dest
    ensures dest[..] == Patch(old(dest[..]), at, data)
  {
    ghost var was := dest[..];
    for i := 0 to |data|
      invariant dest[..] == Patch(was, at, data[..i])
    {
      PatchMore(was, at, data, i);
      dest[at + i] := data[i];
    }
    assert data[..|data|] == data;
  }

  lemma PatchMore(s: seq<Byte>, at: nat, data: seq<Byte>, i: nat)
    requires at + |data| <= |s| && i < |data|
    ensures Patch(s, at, data[..i + 1]) == Patch(s, at, data[..i])[at + i := data[i]]
  {}
}
