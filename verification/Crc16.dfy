/** modules/libmiscdata/crc16.c: the table-driven CRC-16 loop and its meaning as division by the
    documented polynomial 0x8005. */
module Crc16 {
  import opened Bytes
  import opened Crc16Table

  // ----- The loop -------------------------------------------------------------------------

  /** Exclusive or, named so that proofs by rewriting can hide the bit vectors behind it. */
  function Xor(a: bv16, b: bv16): bv16 {
    a ^ b
  }

  /** The register after one byte, bit by bit. */
  function ByteStep(crc: bv16, b: Byte): bv16 {
    Shift8(Xor(crc, b as bv16))
  }

  /** The CRC of a byte string, starting from the given register value. */
  function Crc(crc: bv16, data: seq<Byte>): bv16
    decreases |data|
  {
    if data == [] then crc else Crc(ByteStep(crc, data[0]), data[1..])
  }

  /** The loop body: one byte, one table access. */
  function TableUpdate(crc: bv16, b: Byte): bv16 {
    Xor(crc >> 8, Lookup((Xor(crc, b as bv16) & 0xFF) as bv8))
  }

  method Crc16(crc: bv16, buffer: array<Byte>, start: nat, len: nat) returns (r: bv16)
    requires start + len <= buffer.Length
    ensures r == Crc(crc, buffer[start..start + len])
  {
    hide ByteStep, TableUpdate;
    r := crc;
    var p, n := start, len;
    assert buffer[p..start + len] == buffer[start..start + len];
    while n > 0
      invariant 0 <= n && p + n == start + len
      invariant Crc(crc, buffer[start..start + len]) == Crc(r, buffer[p..start + len])
    {
      TableStep(r, buffer[p]);
      assert buffer[p..start + len][1..] == buffer[p + 1..start + len];
      r := TableUpdate(r, buffer[p]);
      p, n := p + 1, n - 1;
    }
  }

  /** Shifting out the low byte and folding in the table entry is eight bit steps. */
  lemma TableStep(crc: bv16, b: Byte)
    ensures ByteStep(crc, b) == TableUpdate(crc, b)
  {
    var x := Xor(crc, b as bv16);
    LowByteOnly(crc, b);
    hide Shift8, Lookup, Xor;
    ShiftSplits(x);
  }

  lemma LowByteOnly(crc: bv16, b: Byte)
    ensures Xor(crc, b as bv16) >> 8 == crc >> 8
    ensures ((Xor(crc, b as bv16) & 0xFF) as bv8) as bv16 == Xor(crc, b as bv16) & 0xFF
  {}

  lemma {:induction false} CrcChains(crc: bv16, a: seq<Byte>, b: seq<Byte>)
    ensures Crc(crc, a + b) == Crc(Crc(crc, a), b)
    decreases |a|
  {
    if a == [] {
      assert a + b == b;
    } else {
      assert (a + b)[1..] == a[1..] + b;
      CrcChains(ByteStep(crc, a[0]), a[1..], b);
    }
  }

  // ----- The shift register is linear and loses nothing ---------------------------------------

  function LowBit(w: bv16): bool {
    w & 1 != 0
  }

  function Half(w: bv16): bv16 {
    w >> 1
  }

  /** What every step does with the shifted register: fold the polynomial in if the tap is set. */
  function Fold(tap: bool, shifted: bv16, poly: bv16): bv16 {
    if tap then Xor(shifted, poly) else shifted
  }

  lemma FoldLinear(s: bool, t: bool, u: bv16, v: bv16, poly: bv16)
    ensures Fold(s != t, Xor(u, v), poly) == Xor(Fold(s, u, poly), Fold(t, v, poly))
  {
    hide Xor;
    XorLeft(u, v, poly);
    XorAssociates(u, v, poly);
    XorBoth(u, v, poly);
  }

  lemma XorAssociates(u: bv16, v: bv16, m: bv16)
    ensures Xor(Xor(u, v), m) == Xor(u, Xor(v, m))
  {}

  lemma XorLeft(u: bv16, v: bv16, m: bv16)
    ensures Xor(Xor(u, v), m) == Xor(Xor(u, m), v)
  {}

  lemma XorBoth(u: bv16, v: bv16, m: bv16)
    ensures Xor(Xor(u, m), Xor(v, m)) == Xor(u, v)
  {
    hide Xor;
    XorAssociates(Xor(u, m), v, m);
    XorLeft(u, m, v);
    XorAssociates(Xor(u, v), m, m);
    assert Xor(m, m) == 0 by { XorZero(m, m); }
    XorNothing(Xor(u, v), 0);
  }

  lemma ShiftIsFold(x: bv16)
    ensures Shift(x) == Fold(LowBit(x), Half(x), 0xA001)
  {
    LowBitIsOne(x);
  }

  lemma LowBitIsOne(x: bv16)
    ensures (x & 1 == 1) == (x & 1 != 0)
  {}

  lemma LowBitLinear(x: bv16, y: bv16)
    ensures LowBit(Xor(x, y)) == (LowBit(x) != LowBit(y))
  {
    LowBitOfXor(x, y);
  }

  lemma LowBitOfXor(a: bv16, b: bv16)
    ensures ((a ^ b) & 1 != 0) == ((a & 1 != 0) != (b & 1 != 0))
  {}

  lemma HalfLinear(x: bv16, y: bv16)
    ensures Half(Xor(x, y)) == Xor(Half(x), Half(y))
  {
    HalfOfXor(x, y);
  }

  lemma HalfOfXor(a: bv16, b: bv16)
    ensures (a ^ b) >> 1 == (a >> 1) ^ (b >> 1)
  {}

  lemma ShiftLinear(a: bv16, b: bv16)
    ensures Shift(Xor(a, b)) == Xor(Shift(a), Shift(b))
  {
    hide *;
    ShiftIsFold(a);
    ShiftIsFold(b);
    ShiftIsFold(Xor(a, b));
    LowBitLinear(a, b);
    HalfLinear(a, b);
    FoldLinear(LowBit(a), LowBit(b), Half(a), Half(b), 0xA001);
  }

  lemma Shift2Linear(a: bv16, b: bv16)
    ensures Shift2(Xor(a, b)) == Xor(Shift2(a), Shift2(b))
  {
    hide Shift, Xor;
    ShiftLinear(a, b);
    ShiftLinear(Shift(a), Shift(b));
  }

  lemma Shift4Linear(a: bv16, b: bv16)
    ensures Shift4(Xor(a, b)) == Xor(Shift4(a), Shift4(b))
  {
    hide Shift2, Xor;
    Shift2Linear(a, b);
    Shift2Linear(Shift2(a), Shift2(b));
  }

  lemma Shift8Linear(a: bv16, b: bv16)
    ensures Shift8(Xor(a, b)) == Xor(Shift8(a), Shift8(b))
  {
    hide Shift4, Xor;
    Shift4Linear(a, b);
    Shift4Linear(Shift4(a), Shift4(b));
  }

  lemma Shift8OfHigh(x: bv16)
    ensures Shift8(x & 0xFF00) == x >> 8
  {}

  lemma HighXorLow(x: bv16)
    ensures Xor(x & 0xFF00, x & 0xFF) == x
  {}

  lemma ShiftSplits(x: bv16)
    ensures Shift8(x) == Xor(x >> 8, Shift8(x & 0xFF))
  {
    hide Shift8, Xor;
    Shift8OfHigh(x);
    HighXorLow(x);
    Shift8Linear(x & 0xFF00, x & 0xFF);
  }

  lemma Shift8Zero(x: bv16)
    ensures Shift8(x) == 0 <==> x == 0
  {
    hide Shift;
    ShiftZero(x);
    ShiftZero(Shift(x));
    ShiftZero(Shift2(x));
    ShiftZero(Shift(Shift2(x)));
    ShiftZero(Shift4(x));
    ShiftZero(Shift(Shift4(x)));
    ShiftZero(Shift2(Shift4(x)));
    ShiftZero(Shift(Shift2(Shift4(x))));
  }

  lemma ShiftZero(x: bv16)
    ensures Shift(x) == 0 <==> x == 0
  {
    if x & 1 == 1 {
      TappedIsNotZero(x);
    } else {
      OnlyLowBitLost(x);
    }
  }

  lemma TappedIsNotZero(x: bv16)
    ensures (x >> 1) ^ 0xA001 != 0
  {}

  lemma OnlyLowBitLost(x: bv16)
    requires x & 1 != 1
    ensures x >> 1 == 0 <==> x == 0
  {}

  // ----- The trailer --------------------------------------------------------------------------

  /** Running the CRC on over its own little-endian trailer leaves zero, and no other trailer does. */
  lemma ResidueIsZero(data: seq<Byte>, trailer: bv16)
    ensures Crc(0, data + LE16(trailer)) == 0 <==> trailer == Crc(0, data)
  {
    hide ByteStep, Shift8, Xor, LowByte, HighByte;
    var c := Crc(0, data);
    var lo, hi := LowByte(trailer), HighByte(trailer);
    CrcChains(0, data, LE16(trailer));
    CrcOfTwo(c, lo, hi);
    TrailerSteps(c, trailer);
    Shift8Zero(Shift8(Xor(c, trailer)));
    Shift8Zero(Xor(c, trailer));
    XorZero(c, trailer);
  }

  lemma CrcOfTwo(c: bv16, x: Byte, y: Byte)
    ensures Crc(c, [x, y]) == ByteStep(ByteStep(c, x), y)
  {
    hide ByteStep;
    assert [x, y][1..] == [y];
    assert [y][1..] == [];
    assert Crc(c, [x, y]) == Crc(ByteStep(c, x), [y]);
  }

  lemma XorZero(a: bv16, b: bv16)
    ensures Xor(a, b) == 0 <==> a == b
  {
    DifferentBits(a, b);
    assert a ^ a == 0;
  }

  lemma DifferentBits(a: bv16, b: bv16)
    ensures a ^ b == 0 ==> a == b
  {}

  lemma TrailerSteps(c: bv16, t: bv16)
    ensures ByteStep(ByteStep(c, LowByte(t)), HighByte(t)) == Shift8(Shift8(Xor(c, t)))
  {
    var low, high := Xor(c, LowByte(t) as bv16), t & 0xFF00;
    Shift8OfHigh(t);
    TrailerBytes(c, t);
    hide Shift8, Xor, LowByte, HighByte;
    Shift8Linear(low, high);
  }

  lemma TrailerBytes(c: bv16, t: bv16)
    ensures Xor(Xor(c, LowByte(t) as bv16), t & 0xFF00) == Xor(c, t)
    ensures HighByte(t) as bv16 == t >> 8
  {}

  // ----- Division by x^16 + x^15 + x^2 + 1 ---------------------------------------------------

  /** One message bit into the textbook register: most significant bit first, polynomial 0x8005. */
  function Divide1(reg: bv16, bit: bool): bv16 {
    Fold(TopBit(reg) != bit, Double(reg), 0x8005)
  }

  function TopBit(w: bv16): bool {
    w & 0x8000 != 0
  }

  function Double(w: bv16): bv16 {
    w << 1
  }

  function Divide(reg: bv16, bits: seq<bool>): bv16
    decreases |bits|
  {
    if bits == [] then reg else Divide(Divide1(reg, bits[0]), bits[1..])
  }

  /** The n lowest bits of w, lowest first: the order in which a byte is transmitted. */
  function LowBits(w: bv16, n: nat): (r: seq<bool>)
    ensures |r| == n
    decreases n
  {
    if n == 0 then [] else [LowBit(w)] + LowBits(Half(w), n - 1)
  }

  function ByteBits(b: Byte): (r: seq<bool>)
    ensures |r| == 8
  {
    LowBits(b as bv16, 8)
  }

  function Bits(data: seq<Byte>): (r: seq<bool>)
    ensures |r| == 8 * |data|
  {
    if data == [] then [] else ByteBits(data[0]) + Bits(data[1..])
  }

  /** Bit reversal, by exchanging neighbours, pairs, nibbles and bytes. */
  function Mirror(x: bv16): bv16 {
    SwapBytes(SwapNibbles(SwapPairs(SwapNeighbours(x))))
  }

  function SwapNeighbours(x: bv16): bv16 {
    ((x >> 1) & 0x5555) | ((x & 0x5555) << 1)
  }

  function SwapPairs(x: bv16): bv16 {
    ((x >> 2) & 0x3333) | ((x & 0x3333) << 2)
  }

  function SwapNibbles(x: bv16): bv16 {
    ((x >> 4) & 0x0F0F) | ((x & 0x0F0F) << 4)
  }

  function SwapBytes(x: bv16): bv16 {
    (x >> 8) | (x << 8)
  }

  /** The table loop is the mirror image of dividing the message by the documented polynomial:
      for every start value and every buffer. */
  lemma {:induction false} CrcIsDivision(crc: bv16, data: seq<Byte>)
    ensures Mirror(Crc(crc, data)) == Divide(Mirror(crc), Bits(data))
    decreases |data|
  {
    hide ByteStep, Mirror, ByteBits;
    if data != [] {
      ByteStepMirrorsDivide(crc, data[0]);
      CrcIsDivision(ByteStep(crc, data[0]), data[1..]);
      DivideChains(Mirror(crc), ByteBits(data[0]), Bits(data[1..]));
    }
  }

  lemma {:induction false} DivideChains(reg: bv16, a: seq<bool>, b: seq<bool>)
    ensures Divide(reg, a + b) == Divide(Divide(reg, a), b)
    decreases |a|
  {
    hide Divide1;
    if a == [] {
      assert a + b == b;
    } else {
      assert (a + b)[1..] == a[1..] + b;
      DivideChains(Divide1(reg, a[0]), a[1..], b);
    }
  }

  /** The reflected register with one message bit folded in. */
  function Feed(crc: bv16, bit: bool): bv16 {
    Fold(LowBit(crc) != bit, Half(crc), 0xA001)
  }

  lemma FeedMirrorsDivide(crc: bv16, bit: bool)
    ensures Mirror(Feed(crc, bit)) == Divide1(Mirror(crc), bit)
  {
    hide Mirror, Xor, Half, Double, LowBit, TopBit;
    MirrorHalf(crc);
    MirrorTop(crc);
    MirrorTap(Half(crc));
  }

  lemma MirrorHalf(x: bv16)
    ensures Mirror(Half(x)) == Double(Mirror(x))
  {
    hide *;
    var hi, lo := x & 0xFF00, x & 0xFF;
    HighXorLow(x);
    MirrorHalfHigh(x);
    MirrorHalfLow(x);
    MirrorHalfParts(hi, lo);
  }

  lemma MirrorHalfParts(hi: bv16, lo: bv16)
    requires Mirror(Half(hi)) == Double(Mirror(hi)) && Mirror(Half(lo)) == Double(Mirror(lo))
    ensures Mirror(Half(Xor(hi, lo))) == Double(Mirror(Xor(hi, lo)))
  {
    hide *;
    HalfLinear(hi, lo);
    MirrorLinear(Half(hi), Half(lo));
    MirrorLinear(hi, lo);
    DoubleLinear(Mirror(hi), Mirror(lo));
  }

  lemma MirrorHalfHigh(x: bv16)
    ensures Mirror(Half(x & 0xFF00)) == Double(Mirror(x & 0xFF00))
  {}

  lemma MirrorHalfLow(x: bv16)
    ensures Mirror(Half(x & 0xFF)) == Double(Mirror(x & 0xFF))
  {}

  lemma DoubleLinear(x: bv16, y: bv16)
    ensures Double(Xor(x, y)) == Xor(Double(x), Double(y))
  {
    DoubleOfXor(x, y);
  }

  lemma DoubleOfXor(x: bv16, y: bv16)
    ensures (x ^ y) << 1 == (x << 1) ^ (y << 1)
  {}

  lemma MirrorTap(x: bv16)
    ensures Mirror(Xor(x, 0xA001)) == Xor(Mirror(x), 0x8005)
  {
    assert Mirror(0xA001) == 0x8005;
    hide *;
    MirrorLinear(x, 0xA001);
  }

  lemma MirrorLinear(x: bv16, y: bv16)
    ensures Mirror(Xor(x, y)) == Xor(Mirror(x), Mirror(y))
  {
    hide Xor, SwapNeighbours, SwapPairs, SwapNibbles, SwapBytes;
    var x1, y1 := SwapNeighbours(x), SwapNeighbours(y);
    var x2, y2 := SwapPairs(x1), SwapPairs(y1);
    SwapNeighboursLinear(x, y);
    SwapPairsLinear(x1, y1);
    SwapNibblesLinear(x2, y2);
    SwapBytesLinear(SwapNibbles(x2), SwapNibbles(y2));
  }

  lemma SwapNeighboursLinear(x: bv16, y: bv16)
    ensures SwapNeighbours(Xor(x, y)) == Xor(SwapNeighbours(x), SwapNeighbours(y))
  {}

  lemma SwapPairsLinear(x: bv16, y: bv16)
    ensures SwapPairs(Xor(x, y)) == Xor(SwapPairs(x), SwapPairs(y))
  {}

  lemma SwapNibblesLinear(x: bv16, y: bv16)
    ensures SwapNibbles(Xor(x, y)) == Xor(SwapNibbles(x), SwapNibbles(y))
  {}

  lemma SwapBytesLinear(x: bv16, y: bv16)
    ensures SwapBytes(Xor(x, y)) == Xor(SwapBytes(x), SwapBytes(y))
  {}

  lemma MirrorTop(x: bv16)
    ensures LowBit(x) <==> TopBit(Mirror(x))
  {}

  lemma FeedingABit(crc: bv16, w: bv16)
    ensures Shift(Xor(crc, w)) == Xor(Feed(crc, LowBit(w)), Half(w))
  {
    hide Shift, Xor, LowBit, Half;
    ShiftIsFold(Xor(crc, w));
    LowBitLinear(crc, w);
    HalfLinear(crc, w);
    XorLeft(Half(crc), Half(w), 0xA001);
  }

  function ShiftN(n: nat, x: bv16): bv16
    decreases n
  {
    if n == 0 then x else ShiftN(n - 1, Shift(x))
  }

  /** Nothing of w is left after n right shifts. */
  ghost predicate Spent(w: bv16, n: nat)
    decreases n
  {
    if n == 0 then w == 0 else Spent(Half(w), n - 1)
  }

  lemma {:induction false} ShiftsMirrorDivide(crc: bv16, w: bv16, n: nat)
    requires Spent(w, n)
    ensures Mirror(ShiftN(n, Xor(crc, w))) == Divide(Mirror(crc), LowBits(w, n))
    decreases n
  {
    hide Shift, Feed, Mirror, Divide1, Xor, Half, LowBit;
    if n == 0 {
      XorNothing(crc, w);
    } else {
      FeedingABit(crc, w);
      FeedMirrorsDivide(crc, LowBit(w));
      ShiftsMirrorDivide(Feed(crc, LowBit(w)), Half(w), n - 1);
      assert LowBits(w, n)[1..] == LowBits(Half(w), n - 1);
    }
  }

  lemma XorNothing(a: bv16, b: bv16)
    requires b == 0
    ensures Xor(a, b) == a
  {}

  lemma ByteStepMirrorsDivide(crc: bv16, b: Byte)
    ensures Mirror(ByteStep(crc, b)) == Divide(Mirror(crc), ByteBits(b))
  {
    ByteSpent(b);
    hide Spent, Mirror, Shift8;
    ShiftsMirrorDivide(crc, b as bv16, 8);
    Shift8IsShiftN(Xor(crc, b as bv16));
  }

  /** The n lowest register positions. */
  function Mask(n: nat): bv16 {
    if n == 0 then 0 else (Mask(n - 1) << 1) | 1
  }

  lemma MaskLeavesRoom(n: nat)
    requires n <= 15
    ensures Mask(n) & 0x8000 == 0
  {
    assert Mask(3) == 0x7;
    assert Mask(6) == 0x3F;
    assert Mask(9) == 0x1FF;
    assert Mask(12) == 0xFFF;
    assert Mask(15) == 0x7FFF;
    if n in {0, 1, 2, 3} {
    } else if n in {4, 5, 6} {
    } else if n in {7, 8, 9} {
    } else if n in {10, 11, 12} {
    } else {
      assert n in {13, 14, 15};
    }
  }

  lemma MaskGrows(n: nat)
    ensures Mask(n + 1) == (Mask(n) << 1) | 1
  {}

  ghost predicate AtMost(w: bv16, m: bv16) {
    w <= m
  }

  lemma {:induction false} SmallIsSpent(w: bv16, n: nat)
    requires n <= 16 && AtMost(w, Mask(n))
    ensures Spent(w, n)
    decreases n
  {
    if n > 0 {
      hide AtMost, Half, Mask;
      MaskGrows(n - 1);
      MaskLeavesRoom(n - 1);
      HalfBelow(w, Mask(n - 1));
      SmallIsSpent(Half(w), n - 1);
    }
  }

  lemma HalfBelow(w: bv16, m: bv16)
    requires AtMost(w, (m << 1) | 1) && m & 0x8000 == 0
    ensures AtMost(Half(w), m)
  {}

  lemma ByteSpent(b: Byte)
    ensures Spent(b as bv16, 8)
  {
    assert Mask(8) == 0xFF;
    SmallIsSpent(b as bv16, 8);
  }

  lemma Shift8IsShiftN(x: bv16)
    ensures Shift8(x) == ShiftN(8, x)
  {
    hide Shift;
    ShiftTwice(6, x);
    ShiftTwice(4, Shift2(x));
    ShiftTwice(2, Shift4(x));
    ShiftTwice(0, Shift2(Shift4(x)));
  }

  lemma ShiftTwice(n: nat, x: bv16)
    ensures ShiftN(n + 2, x) == ShiftN(n, Shift2(x))
  {
    hide Shift;
    assert ShiftN(n + 2, x) == ShiftN(n + 1, Shift(x));
  }
}
