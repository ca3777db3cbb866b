/** Which corruptions of a message of fixed length the CRC of modules/libmiscdata/crc16.c is
    certain to notice: every burst of at most 16 consecutive bits, and every odd number of bits. */
module CrcErrors {
  import opened Bytes
  import opened Crc16

  /** The error pattern between two bit strings. */
  function Diff(a: seq<bool>, b: seq<bool>): (e: seq<bool>)
    requires |a| == |b|
    ensures |e| == |a|
    ensures forall i :: 0 <= i < |e| ==> e[i] == (a[i] != b[i])
  {
    if a == [] then [] else [a[0] != b[0]] + Diff(a[1..], b[1..])
  }

  /** At least one bit is hit, and all of them lie within 16 consecutive bits. */
  ghost predicate Burst(e: seq<bool>) {
    true in e && exists k: int :: Within(e, k, 16)
  }

  ghost predicate Within(e: seq<bool>, k: int, n: nat) {
    forall j :: 0 <= j < |e| && e[j] ==> k <= j < k + n
  }

  /** An odd number of bits is hit. */
  predicate Odd(e: seq<bool>) {
    e != [] && (e[0] != Odd(e[1..]))
  }

  lemma BurstChangesCrc(crc: bv16, p: seq<Byte>, q: seq<Byte>)
    requires |p| == |q| && Burst(Diff(Bits(p), Bits(q)))
    ensures Crc(crc, p) != Crc(crc, q)
  {
    BurstSurvives(Diff(Bits(p), Bits(q)));
    CrcDifference(crc, p, q);
  }

  lemma OddErrorChangesCrc(crc: bv16, p: seq<Byte>, q: seq<Byte>)
    requires |p| == |q| && Odd(Diff(Bits(p), Bits(q)))
    ensures Crc(crc, p) != Crc(crc, q)
  {
    ParityOfZero(16);
    OddSurvives(0, Diff(Bits(p), Bits(q)));
    CrcDifference(crc, p, q);
  }

  /** Changing anything inside two adjacent bytes is a burst. */
  lemma AdjacentBytesAreABurst(p: seq<Byte>, q: seq<Byte>, i: nat)
    requires |p| == |q| && p != q
    requires forall j :: 0 <= j < |p| && j != i && j != i + 1 ==> p[j] == q[j]
    ensures Burst(Diff(Bits(p), Bits(q)))
  {
    AdjacentBytesAreClose(p, q, i);
    var k := SomeBitDiffers(p, q);
    assert Diff(Bits(p), Bits(q))[k];
  }

  lemma AdjacentBytesAreClose(p: seq<Byte>, q: seq<Byte>, i: nat)
    requires |p| == |q|
    requires forall j :: 0 <= j < |p| && j != i && j != i + 1 ==> p[j] == q[j]
    ensures Within(Diff(Bits(p), Bits(q)), 8 * i, 16)
  {
    hide ByteBits, Bits;
    forall k | 0 <= k < 8 * |p| && Diff(Bits(p), Bits(q))[k]
      ensures 8 * i <= k < 8 * i + 16
    {
      BitsAt(p, k / 8, k % 8);
      BitsAt(q, k / 8, k % 8);
    }
  }

  lemma SomeBitDiffers(p: seq<Byte>, q: seq<Byte>) returns (k: nat)
    requires |p| == |q| && p != q
    ensures k < 8 * |p| && Bits(p)[k] != Bits(q)[k]
  {
    hide ByteBits, Bits;
    var j :| 0 <= j < |p| && p[j] != q[j];
    var m := ByteBitsDiffer(p[j], q[j]);
    BitsAt(p, j, m);
    BitsAt(q, j, m);
    k := 8 * j + m;
  }

  // ----- Linearity: the two CRCs differ by the remainder of the error pattern ---------------------

  lemma CrcDifference(crc: bv16, p: seq<Byte>, q: seq<Byte>)
    requires |p| == |q|
    ensures Crc(crc, p) == Crc(crc, q) <==> Divide(0, Diff(Bits(p), Bits(q))) == 0
  {
    hide *;
    var r := Mirror(crc);
    CrcIsDivision(crc, p);
    CrcIsDivision(crc, q);
    DivideLinear(r, r, Bits(p), Bits(q));
    XorZero(r, r);
    XorZero(Divide(r, Bits(p)), Divide(r, Bits(q)));
    if Mirror(Crc(crc, p)) == Mirror(Crc(crc, q)) {
      MirrorInjective(Crc(crc, p), Crc(crc, q));
    }
  }

  lemma MirrorInjective(x: bv16, y: bv16)
    requires Mirror(x) == Mirror(y)
    ensures x == y
  {
    MirrorTwice(x);
    MirrorTwice(y);
    hide Mirror;
  }

  lemma MirrorTwice(x: bv16)
    ensures Mirror(Mirror(x)) == x
  {}

  lemma {:induction false} DivideLinear(x: bv16, y: bv16, a: seq<bool>, b: seq<bool>)
    requires |a| == |b|
    ensures Divide(Xor(x, y), Diff(a, b)) == Xor(Divide(x, a), Divide(y, b))
    decreases |a|
  {
    hide Xor, Divide1;
    if a != [] {
      var e := Diff(a, b);
      Divide1Linear(x, y, a[0], b[0]);
      DivideLinear(Divide1(x, a[0]), Divide1(y, b[0]), a[1..], b[1..]);
      assert e[1..] == Diff(a[1..], b[1..]);
    }
  }

  lemma Divide1Linear(x: bv16, y: bv16, a: bool, b: bool)
    ensures Divide1(Xor(x, y), a != b) == Xor(Divide1(x, a), Divide1(y, b))
  {
    hide Xor, TopBit, Double, Fold;
    TopBitLinear(x, y);
    DoubleLinear(x, y);
    FoldLinear(TopBit(x) != a, TopBit(y) != b, Double(x), Double(y), 0x8005);
  }

  lemma TopBitLinear(x: bv16, y: bv16)
    ensures TopBit(Xor(x, y)) == (TopBit(x) != TopBit(y))
  {
    TopOfXor(x, y);
  }

  lemma TopOfXor(x: bv16, y: bv16)
    ensures ((x ^ y) & 0x8000 != 0) == ((x & 0x8000 != 0) != (y & 0x8000 != 0))
  {}

  // ----- Bursts -----------------------------------------------------------------------------

  lemma BurstSurvives(e: seq<bool>)
    requires Burst(e)
    ensures Divide(0, e) != 0
  {
    hide Divide;
    var k := FirstHit(e);
    var end := if k + 16 <= |e| then k + 16 else |e|;
    var head, window, rest := e[..k], e[k..end], e[end..];
    assert e == (head + window) + rest;
    DivideChains(0, head + window, rest);
    DivideChains(0, head, window);
    ZeroStaysZero(head);
    HitSurvives(window);
    assert forall j :: 0 <= j < |rest| ==> rest[j] == e[end + j];
    NonzeroSurvives(Divide(0, head + window), rest);
  }

  /** A window that begins with a hit leaves something in the register. */
  lemma HitSurvives(window: seq<bool>)
    requires 0 < |window| <= 16 && window[0]
    ensures Divide(0, window) != 0
  {
    hide Divide1, Mask, Hits;
    FirstHitSets(window[0]);
    WindowSurvives(Divide1(0, window[0]), 1, window[1..]);
  }

  lemma FirstHit(e: seq<bool>) returns (k: nat)
    requires true in e
    ensures k < |e| && e[k] && forall j :: 0 <= j < k ==> !e[j]
  {
    k := 0;
    while !e[k]
      decreases |e| - k
      invariant 0 <= k < |e|
      invariant forall j :: 0 <= j < k ==> !e[j]
      invariant true in e[k..]
    {
      assert e[k..] == [e[k]] + e[k + 1..];
      k := k + 1;
    }
  }

  lemma {:induction false} ZeroStaysZero(e: seq<bool>)
    requires forall j :: 0 <= j < |e| ==> !e[j]
    ensures Divide(0, e) == 0
    decreases |e|
  {
    if e != [] {
      assert Divide1(0, false) == 0;
      ZeroStaysZero(e[1..]);
    }
  }

  lemma {:induction false} NonzeroSurvives(reg: bv16, e: seq<bool>)
    requires reg != 0
    requires forall j :: 0 <= j < |e| ==> !e[j]
    ensures Divide(reg, e) != 0
    decreases |e|
  {
    hide Divide1;
    if e != [] {
      NonzeroStep(reg);
      NonzeroSurvives(Divide1(reg, false), e[1..]);
    }
  }

  lemma NonzeroStep(reg: bv16)
    requires reg != 0
    ensures Divide1(reg, false) != 0
  {
    if reg & 0x8000 != 0 {
    } else {
      assert reg << 1 != 0;
    }
  }

  /** The register has a bit set among those of the mask. */
  ghost predicate Hits(reg: bv16, m: bv16) {
    reg & m != 0
  }

  lemma FirstHitSets(bit: bool)
    requires bit
    ensures Hits(Divide1(0, bit), Mask(1))
  {}

  /** A set bit can climb only one position a step, so 16 steps cannot lose it. */
  lemma {:induction false} WindowSurvives(reg: bv16, n: nat, bits: seq<bool>)
    requires Hits(reg, Mask(n)) && n + |bits| <= 16
    ensures Divide(reg, bits) != 0
    decreases |bits|
  {
    hide Divide1, Mask, Hits;
    if bits == [] {
      HitIsNotZero(reg, Mask(n));
    } else {
      WindowStep(reg, n, bits[0]);
      WindowSurvives(Divide1(reg, bits[0]), n + 1, bits[1..]);
    }
  }

  lemma HitIsNotZero(x: bv16, m: bv16)
    requires Hits(x, m)
    ensures x != 0
  {}

  lemma WindowStep(reg: bv16, n: nat, bit: bool)
    requires Hits(reg, Mask(n)) && n <= 15
    ensures Hits(Divide1(reg, bit), Mask(n + 1))
  {
    MaskLeavesRoom(n);
    MaskGrows(n);
    hide Mask;
    HitClimbs(reg, Mask(n), bit);
  }

  lemma HitClimbs(reg: bv16, m: bv16, bit: bool)
    requires Hits(reg, m) && m & 0x8000 == 0
    ensures Hits(Divide1(reg, bit), (m << 1) | 1)
  {
    if TopBit(reg) != bit {
      LowTapSets(reg, m);
    } else {
      BitsClimb(reg, m);
    }
  }

  lemma LowTapSets(reg: bv16, m: bv16)
    ensures ((reg << 1) ^ 0x8005) & ((m << 1) | 1) != 0
  {
    assert ((reg << 1) ^ 0x8005) & 1 == 1;
  }

  lemma BitsClimb(reg: bv16, m: bv16)
    requires reg & m != 0 && m & 0x8000 == 0
    ensures (reg << 1) & ((m << 1) | 1) != 0
  {}

  // ----- Odd errors: the polynomial has an even number of terms -----------------------------------

  /** Whether an odd number of the n lowest positions is set. */
  function Parity(x: bv16, n: nat): bool
    decreases n
  {
    n > 0 && (LowBit(x) != Parity(Half(x), n - 1))
  }

  lemma {:induction false} ParityLinear(x: bv16, y: bv16, n: nat)
    ensures Parity(Xor(x, y), n) == (Parity(x, n) != Parity(y, n))
    decreases n
  {
    hide Xor, LowBit, Half;
    if n > 0 {
      LowBitLinear(x, y);
      HalfLinear(x, y);
      ParityLinear(Half(x), Half(y), n - 1);
    }
  }

  lemma {:induction false} ParityOfSpent(x: bv16, n: nat)
    requires Spent(x, n)
    ensures Parity(x, n + 1) == Parity(x, n)
    decreases n
  {
    if n > 0 {
      ParityOfSpent(Half(x), n - 1);
    }
  }

  lemma ParityOfDouble(reg: bv16)
    ensures Parity(Double(reg), 16) == (Parity(reg, 16) != TopBit(reg))
  {
    DoubleParts(reg);
    ParityOfParts(reg, reg & 0x7FFF, reg & 0x8000, Double(reg));
  }

  lemma ParityOfParts(reg: bv16, low: bv16, top: bv16, double: bv16)
    requires Xor(low, top) == reg && low & 0x8000 == 0 && top & 0x7FFF == 0
    requires double & 1 == 0 && double >> 1 == low
    ensures Parity(double, 16) == (Parity(reg, 16) != (top != 0))
  {
    hide *;
    LowSpent(low);
    ParityOfTop(top);
    ParityOfHalf(double, low);
    ParityLinear(low, top, 16);
    ParityOfSpent(low, 15);
  }

  lemma DoubleParts(reg: bv16)
    ensures Xor(reg & 0x7FFF, reg & 0x8000) == reg
    ensures (reg << 1) & 1 == 0 && (reg << 1) >> 1 == reg & 0x7FFF
  {}

  lemma ParityOfHalf(x: bv16, half: bv16)
    requires x & 1 == 0 && x >> 1 == half
    ensures Parity(x, 16) == Parity(half, 15)
  {}

  lemma ParityOfTop(top: bv16)
    requires top & 0x7FFF == 0
    ensures Parity(top, 16) == (top != 0)
  {
    if top == 0 {
      ParityOfZero(16);
    } else {
      assert top == 0x8000;
      ParityOfPolynomial();
    }
  }

  lemma {:induction false} ParityOfZero(n: nat)
    ensures !Parity(0, n)
    decreases n
  {
    if n > 0 {
      ParityOfZero(n - 1);
    }
  }

  lemma ParityOfPolynomial()
    ensures Parity(0x8000, 16) && Parity(0x8005, 16)
  {
    assert Parity(1, 1);
    assert Parity(0x0002, 2);
    assert Parity(0x0004, 3);
    assert Parity(0x0008, 4);
    assert Parity(0x0010, 5);
    assert Parity(0x0020, 6);
    assert Parity(0x0040, 7);
    assert Parity(0x0080, 8);
    assert Parity(0x0100, 9);
    assert Parity(0x0200, 10);
    assert Parity(0x0400, 11);
    assert Parity(0x0800, 12);
    assert Parity(0x1000, 13);
    assert Parity(0x2000, 14) && !Parity(0x2001, 14);
    assert Parity(0x4000, 15) && !Parity(0x4002, 15);
  }

  lemma LowSpent(low: bv16)
    requires low & 0x8000 == 0
    ensures Spent(low, 15)
  {
    assert Mask(15) == 0x7FFF;
    SmallIsSpent(low, 15);
  }

  lemma ParityStep(reg: bv16, bit: bool)
    ensures Parity(Divide1(reg, bit), 16) == (Parity(reg, 16) != bit)
  {
    ParityOfPolynomial();
    ParityOfDouble(reg);
    hide Xor, Parity, TopBit, Double;
    ParityLinear(Double(reg), 0x8005, 16);
  }

  lemma {:induction false} OddSurvives(reg: bv16, e: seq<bool>)
    ensures Parity(Divide(reg, e), 16) == (Parity(reg, 16) != Odd(e))
    decreases |e|
  {
    hide Divide1, Parity;
    if e != [] {
      ParityStep(reg, e[0]);
      OddSurvives(Divide1(reg, e[0]), e[1..]);
    }
  }

  // ----- Bits of a byte string ------------------------------------------------------------------

  lemma {:induction false} BitsAt(data: seq<Byte>, i: nat, m: nat)
    requires i < |data| && m < 8
    ensures 8 * i + m < |Bits(data)|
    ensures Bits(data)[8 * i + m] == ByteBits(data[i])[m]
    decreases i
  {
    hide ByteBits;
    var first, rest := ByteBits(data[0]), Bits(data[1..]);
    assert Bits(data) == first + rest;
    if i > 0 {
      BitsAt(data[1..], i - 1, m);
      assert Bits(data)[8 * i + m] == rest[8 * (i - 1) + m];
    }
  }

  lemma ByteBitsDiffer(x: Byte, y: Byte) returns (m: nat)
    requires x != y
    ensures m < 8 && ByteBits(x)[m] != ByteBits(y)[m]
  {
    var a, b := ByteBits(x), ByteBits(y);
    if a == b {
      ByteSpent(x);
      ByteSpent(y);
      EqualBits(x as bv16, y as bv16, 8);
      assert false;
    }
    m :| 0 <= m < 8 && a[m] != b[m];
  }

  lemma {:induction false} EqualBits(x: bv16, y: bv16, n: nat)
    requires Spent(x, n) && Spent(y, n) && LowBits(x, n) == LowBits(y, n)
    ensures x == y
    decreases n
  {
    hide LowBit, Half;
    if n > 0 {
      assert LowBits(x, n)[1..] == LowBits(Half(x), n - 1);
      assert LowBits(y, n)[1..] == LowBits(Half(y), n - 1);
      assert LowBits(x, n)[0] == LowBits(y, n)[0];
      EqualBits(Half(x), Half(y), n - 1);
      SameHalves(x, y);
    }
  }

  lemma SameHalves(x: bv16, y: bv16)
    requires Half(x) == Half(y) && LowBit(x) == LowBit(y)
    ensures x == y
  {}
}
