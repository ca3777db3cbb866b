/** Which two-bit errors the CRC of modules/libmiscdata/crc16.c lets through: those whose two bits lie a
    multiple of 32767 apart, the order of x modulo the polynomial. */
module CrcTwoBits {
  import opened Bytes
  import opened Crc16
  import opened CrcErrors

  // ----- Powers of x ------------------------------------------------------------------------------

  /** One step of the division register without input: multiplication by x. */
  function Step(reg: bv16): bv16 {
    Divide1(reg, false)
  }

  function Steps(n: nat, reg: bv16): bv16
    decreases n
  {
    if n == 0 then reg else Steps(n - 1, Step(reg))
  }

  /** x to the n. */
  function Power(n: nat): bv16 {
    Steps(n, 1)
  }

  lemma {:induction false} StepsChain(a: nat, b: nat, reg: bv16)
    ensures Steps(a + b, reg) == Steps(b, Steps(a, reg))
    decreases a
  {
    hide Step;
    if a > 0 {
      StepsChain(a - 1, b, Step(reg));
    }
  }

  lemma StepLinear(x: bv16, y: bv16)
    ensures Step(Xor(x, y)) == Xor(Step(x), Step(y))
  {
    hide Xor, Divide1;
    Divide1Linear(x, y, false, false);
  }

  lemma {:induction false} StepsLinear(n: nat, x: bv16, y: bv16)
    ensures Steps(n, Xor(x, y)) == Xor(Steps(n, x), Steps(n, y))
    decreases n
  {
    hide Xor, Step;
    if n > 0 {
      StepLinear(x, y);
      StepsLinear(n - 1, Step(x), Step(y));
    }
  }

  lemma {:induction false} StepsOfZero(n: nat)
    ensures Steps(n, 0) == 0
    decreases n
  {
    if n > 0 {
      assert Step(0) == 0;
      StepsOfZero(n - 1);
    }
  }

  lemma {:induction false} StepsKeepNonzero(n: nat, reg: bv16)
    requires reg != 0
    ensures Steps(n, reg) != 0
    decreases n
  {
    hide Divide1;
    if n > 0 {
      NonzeroStep(reg);
      StepsKeepNonzero(n - 1, Step(reg));
    }
  }

  lemma StepsInjective(n: nat, x: bv16, y: bv16)
    requires Steps(n, x) == Steps(n, y)
    ensures x == y
  {
    hide Steps, Xor;
    StepsLinear(n, x, y);
    XorZero(Steps(n, x), Steps(n, y));
    XorZero(x, y);
    if Xor(x, y) != 0 {
      StepsKeepNonzero(n, Xor(x, y));
    }
  }

  // ----- Multiplication modulo the polynomial -----------------------------------------------------

  /** The product of the k lowest terms of a with b. */
  function Product(a: bv16, b: bv16, k: nat): bv16
    decreases k
  {
    if k == 0 then 0 else Xor(if LowBit(a) then b else 0, Product(Half(a), Step(b), k - 1))
  }

  lemma {:induction false} StepsOfProduct(n: nat, a: bv16, b: bv16, k: nat)
    ensures Steps(n, Product(a, b, k)) == Product(a, Steps(n, b), k)
    decreases k
  {
    hide Xor, LowBit, Half, Step;
    StepsOfZero(n);
    if k > 0 {
      StepsLinear(n, if LowBit(a) then b else 0, Product(Half(a), Step(b), k - 1));
      StepsOfProduct(n, Half(a), Step(b), k - 1);
      StepsChain(1, n, b);
      StepsChain(n, 1, b);
      assert Steps(1, b) == Steps(0, Step(b)) == Step(b);
      assert Steps(1, Steps(n, b)) == Steps(0, Step(Steps(n, b))) == Step(Steps(n, b));
    }
  }

  function Up(w: bv16, j: nat): bv16
    decreases j
  {
    if j == 0 then w else Double(Up(w, j - 1))
  }

  lemma {:induction false} UpLinear(x: bv16, y: bv16, j: nat)
    ensures Up(Xor(x, y), j) == Xor(Up(x, j), Up(y, j))
    decreases j
  {
    hide Xor, Double;
    if j > 0 {
      UpLinear(x, y, j - 1);
      DoubleLinear(Up(x, j - 1), Up(y, j - 1));
    }
  }

  lemma {:induction false} UpOfDouble(w: bv16, j: nat)
    ensures Up(Double(w), j) == Up(w, j + 1)
    decreases j
  {
    hide Double;
    if j > 0 {
      UpOfDouble(w, j - 1);
    }
  }

  lemma {:induction false} UpOfZero(j: nat)
    ensures Up(0, j) == 0
    decreases j
  {
    if j > 0 {
      UpOfZero(j - 1);
    }
  }

  /** A single bit below the top is doubled by a step. */
  lemma StepOfBit(j: nat)
    requires j < 15
    ensures Step(Up(1, j)) == Up(1, j + 1)
  {
    BitInMask(j);
    MaskLeavesRoom(j + 1);
    hide Up, Mask;
    SmallStep(Up(1, j), Mask(j + 1));
  }

  ghost predicate Inside(w: bv16, m: bv16) {
    w & !m == 0
  }

  lemma {:induction false} BitInMask(j: nat)
    ensures Inside(Up(1, j), Mask(j + 1))
    decreases j
  {
    hide Inside, Mask, Double, Widened;
    if j == 0 {
      FirstBit();
    } else {
      BitInMask(j - 1);
      MaskWidens(j);
      InsideGrows(Up(1, j - 1), Mask(j));
    }
  }

  lemma FirstBit()
    ensures Inside(1, Mask(1))
  {
    assert Mask(1) == 1;
  }

  function Widened(m: bv16): bv16 {
    (m << 1) | 1
  }

  lemma MaskWidens(j: nat)
    ensures Mask(j + 1) == Widened(Mask(j))
  {
    MaskGrows(j);
    hide Mask;
  }

  lemma InsideGrows(w: bv16, m: bv16)
    requires Inside(w, m)
    ensures Inside(Double(w), Widened(m))
  {}

  lemma SmallStep(w: bv16, m: bv16)
    requires Inside(w, m) && m & 0x8000 == 0
    ensures Step(w) == Double(w)
  {
    assert w & 0x8000 == 0;
  }

  lemma {:induction false} ProductWithBit(a: bv16, k: nat)
    requires k <= 16 && Spent(a, k)
    ensures Product(a, Up(1, 16 - k), k) == Up(a, 16 - k)
    decreases k
  {
    hide Xor, LowBit, Half, Step, Up;
    if k == 0 {
      UpOfZero(16);
    } else {
      var j: nat := 16 - k;
      if k == 1 {
        assert Product(Half(a), Step(Up(1, j)), 0) == 0;
        UpOfZero(16);
      } else {
        StepOfBit(j);
      }
      ProductWithBit(Half(a), k - 1);
      UpOfDouble(Half(a), j);
      UpOfZero(j);
      UpLinear(if LowBit(a) then 1 else 0, Double(Half(a)), j);
      LowAndHalf(a);
    }
  }

  lemma LowAndHalf(a: bv16)
    ensures Xor(if LowBit(a) then 1 else 0, Double(Half(a))) == a
  {}

  /** Multiplication of powers adds the exponents. */
  lemma PowerOfSum(m: nat, n: nat)
    ensures Power(m + n) == Product(Power(m), Power(n), 16)
  {
    hide Steps, Product;
    StepsChain(m, n, 1);
    AllSpent(Power(m));
    ProductWithBit(Power(m), 16);
    assert Up(1, 0) == 1 && Up(Power(m), 0) == Power(m);
    StepsOfProduct(n, Power(m), 1, 16);
  }

  lemma AllSpent(a: bv16)
    ensures Spent(a, 16)
  {
    AllInMask(a);
    SmallIsSpent(a, 16);
  }

  lemma AllInMask(a: bv16)
    ensures AtMost(a, Mask(16))
  {
    MaskLeavesRoom(15);
    assert Mask(4) == 0xF && Mask(8) == 0xFF && Mask(12) == 0xFFF && Mask(16) == 0xFFFF;
  }

  /** The same product in five rounds of doubling, for constants. */
  function Times1(a: bv16, b: bv16): bv16 {
    if LowBit(a) then b else 0
  }

  function Times2(a: bv16, b: bv16): bv16 {
    Xor(Times1(a, b), Times1(Half(a), Step(b)))
  }

  function Times4(a: bv16, b: bv16): bv16 {
    Xor(Times2(a, b), Times2(a >> 2, Step2(b)))
  }

  function Times8(a: bv16, b: bv16): bv16 {
    Xor(Times4(a, b), Times4(a >> 4, Step4(b)))
  }

  function Times(a: bv16, b: bv16): bv16 {
    Xor(Times8(a, b), Times8(a >> 8, Step4(Step4(b))))
  }

  function Step2(b: bv16): bv16 {
    Step(Step(b))
  }

  function Step4(b: bv16): bv16 {
    Step2(Step2(b))
  }

  lemma ProductIsTimes(a: bv16, b: bv16)
    ensures Product(a, b, 16) == Times(a, b)
  {
    hide Xor, LowBit, Half, Step, Times1, Times2, Times4, Times8;
    ProductOfEight(a, b, 8);
    ProductOfEight(a >> 8, Step4(Step4(b)), 0);
    XorZeroRight(Times8(a >> 8, Step4(Step4(b))));
  }

  lemma XorZeroRight(x: bv16)
    ensures Xor(x, 0) == x
  {}

  lemma XorRegroup(x: bv16, y: bv16, z: bv16)
    ensures Xor(x, Xor(y, z)) == Xor(Xor(x, y), z)
  {}

  lemma Halves(a: bv16)
    ensures Half(Half(a)) == a >> 2 && (a >> 2) >> 2 == a >> 4 && (a >> 4) >> 4 == a >> 8
  {}

  lemma ProductOfTwo(a: bv16, b: bv16, k: nat)
    ensures Product(a, b, k + 2) == Xor(Times2(a, b), Product(a >> 2, Step2(b), k))
  {
    hide Xor, LowBit, Half, Step;
    Halves(a);
    assert Product(a, b, k + 2) == Xor(Times1(a, b), Product(Half(a), Step(b), k + 1));
    assert Product(Half(a), Step(b), k + 1) == Xor(Times1(Half(a), Step(b)), Product(Half(Half(a)), Step(Step(b)), k));
    XorRegroup(Times1(a, b), Times1(Half(a), Step(b)), Product(Half(Half(a)), Step(Step(b)), k));
  }

  lemma ProductOfFour(a: bv16, b: bv16, k: nat)
    ensures Product(a, b, k + 4) == Xor(Times4(a, b), Product(a >> 4, Step4(b), k))
  {
    hide Xor, Product, Step2, Times2;
    Halves(a);
    ProductOfTwo(a, b, k + 2);
    ProductOfTwo(a >> 2, Step2(b), k);
    XorRegroup(Times2(a, b), Times2(a >> 2, Step2(b)), Product(a >> 4, Step4(b), k));
  }

  lemma ProductOfEight(a: bv16, b: bv16, k: nat)
    ensures Product(a, b, k + 8) == Xor(Times8(a, b), Product(a >> 8, Step4(Step4(b)), k))
  {
    hide Xor, Product, Step4, Times4;
    Halves(a);
    ProductOfFour(a, b, k + 4);
    ProductOfFour(a >> 4, Step4(b), k);
    XorRegroup(Times4(a, b), Times4(a >> 4, Step4(b)), Product(a >> 8, Step4(Step4(b)), k));
  }

  // ----- The order of x ---------------------------------------------------------------------------

  lemma NextPower(m: nat, n: nat)
    ensures Power(m + n) == Times(Power(m), Power(n))
  {
    hide Power, Times, Product;
    PowerOfSum(m, n);
    ProductIsTimes(Power(m), Power(n));
  }

  lemma FirstPowers()
    ensures Power(0) == 1 && Power(1) == 2
  {
    assert Steps(1, 1) == Steps(0, Step(1));
  }

  lemma Squares1a()
    ensures Times(0x2, 0x2) == 0x4
    ensures Times(0x4, 0x4) == 0x10
  {}

  lemma Squares1b()
    ensures Times(0x10, 0x10) == 0x100
    ensures Times(0x100, 0x100) == 0x8005
  {}

  lemma PowersTo16()
    ensures Power(2) == 0x4 && Power(4) == 0x10 && Power(8) == 0x100 && Power(16) == 0x8005
  {
    Squares1a();
    Squares1b();
    FirstPowers();
    hide Power, Times;
    NextPower(1, 1);
    NextPower(2, 2);
    NextPower(4, 4);
    NextPower(8, 8);
  }

  lemma Squares2a()
    ensures Times(0x8005, 0x8005) == 0x8017
    ensures Times(0x8017, 0x8017) == 0x8113
  {}

  lemma Squares2b()
    ensures Times(0x8113, 0x8113) == 0x106
    ensures Times(0x106, 0x106) == 0x8011
  {}

  lemma PowersTo256()
    ensures Power(32) == 0x8017 && Power(64) == 0x8113 && Power(128) == 0x106 && Power(256) == 0x8011
  {
    Squares2a();
    Squares2b();
    PowersTo16();
    hide Power, Times;
    NextPower(16, 16);
    NextPower(32, 32);
    NextPower(64, 64);
    NextPower(128, 128);
  }

  lemma Squares3a()
    ensures Times(0x8011, 0x8011) == 0x8107
    ensures Times(0x8107, 0x8107) == 0x16
  {}

  lemma Squares3b()
    ensures Times(0x16, 0x16) == 0x114
    ensures Times(0x114, 0x114) == 0x8115
  {}

  lemma PowersTo4096()
    ensures Power(512) == 0x8107 && Power(1024) == 0x16 && Power(2048) == 0x114 && Power(4096) == 0x8115
  {
    Squares3a();
    Squares3b();
    PowersTo256();
    hide Power, Times;
    NextPower(256, 256);
    NextPower(512, 512);
    NextPower(1024, 1024);
    NextPower(2048, 2048);
  }

  lemma Squares4a()
    ensures Times(0x8115, 0x8115) == 0x112
    ensures Times(0x112, 0x112) == 0x8101
  {}

  lemma Squares4b()
    ensures Times(0x8101, 0x8101) == 0x2
  {}

  lemma PowersTo32768()
    ensures Power(8192) == 0x112 && Power(16384) == 0x8101 && Power(32768) == 0x2
  {
    Squares4a();
    Squares4b();
    PowersTo4096();
    hide Power, Times;
    NextPower(4096, 4096);
    NextPower(8192, 8192);
    NextPower(16384, 16384);
  }

  lemma Products217a()
    ensures Times(0x106, 0x8113) == 0x1666
    ensures Times(0x1666, 0x8005) == 0xF557
  {}

  lemma Products217b()
    ensures Times(0xF557, 0x100) == 0x553E
    ensures Times(0x553E, 0x2) == 0xAA7C
  {}

  lemma PowerOf217()
    ensures Power(192) == 0x1666 && Power(208) == 0xF557 && Power(216) == 0x553E && Power(217) == 0xAA7C
  {
    Products217a();
    Products217b();
    FirstPowers();
    PowersTo16();
    PowersTo256();
    hide Power, Times;
    NextPower(128, 64);
    NextPower(192, 16);
    NextPower(208, 8);
    NextPower(216, 1);
  }

  lemma Products1057()
    ensures Times(0x16, 0x8017) == 0x813B
    ensures Times(0x813B, 0x2) == 0x8273
  {}

  lemma PowerOf1057()
    ensures Power(1056) == 0x813B && Power(1057) == 0x8273
  {
    Products1057();
    FirstPowers();
    PowersTo16();
    PowersTo256();
    PowersTo4096();
    hide Power, Times;
    NextPower(1024, 32);
    NextPower(1056, 1);
  }

  lemma Products4681a()
    ensures Times(0x8115, 0x8107) == 0x125E
    ensures Times(0x125E, 0x8113) == 0x7B8A
  {}

  lemma Products4681b()
    ensures Times(0x7B8A, 0x100) == 0x8B1A
    ensures Times(0x8B1A, 0x2) == 0x9631
  {}

  lemma PowerOf4681()
    ensures Power(4608) == 0x125E && Power(4672) == 0x7B8A && Power(4680) == 0x8B1A && Power(4681) == 0x9631
  {
    Products4681a();
    Products4681b();
    FirstPowers();
    PowersTo16();
    PowersTo256();
    PowersTo4096();
    hide Power, Times;
    NextPower(4096, 512);
    NextPower(4608, 64);
    NextPower(4672, 8);
    NextPower(4680, 1);
  }

  lemma FullTurn()
    ensures Power(32767) == 1
  {
    FirstPowers();
    PowersTo32768();
    hide Steps;
    StepsChain(32767, 1, 1);
    StepsChain(0, 1, 1);
    assert Steps(1, Power(32767)) == Steps(1, 1) by {
      NoSteps();
    }
    StepsInjective(1, Power(32767), 1);
  }

  lemma NoSteps()
    ensures Steps(0, 1) == 1
  {}

  lemma {:induction false} TurnsAgain(n: nat, k: nat)
    requires Power(n) == 1
    ensures Power(n * k) == 1
    decreases k
  {
    if k > 0 {
      hide Steps;
      TurnsAgain(n, k - 1);
      StepsChain(n * (k - 1), n, 1);
      assert n * (k - 1) + n == n * k;
    }
  }

  lemma TurnsDifference(m: nat, n: nat)
    requires Power(m) == 1 && Power(m + n) == 1
    ensures Power(n) == 1
  {
    hide Steps;
    StepsChain(m, n, 1);
  }

  /** If m and n steps of a given size come to 1, so do the steps of a common divisor. */
  lemma {:induction false} CommonTurn(size: nat, m: nat, n: nat) returns (g: nat, i: nat, j: nat)
    requires m > 0 && n > 0 && Power(size * m) == 1 && Power(size * n) == 1
    ensures g > 0 && m == g * i && n == g * j && Power(size * g) == 1
    decreases m + n
  {
    hide Power;
    if m == n {
      g, i, j := m, 1, 1;
    } else if m > n {
      assert size * n + size * (m - n) == size * m;
      TurnsDifference(size * n, size * (m - n));
      g, i, j := CommonTurn(size, m - n, n);
      i := i + j;
      assert m == g * (i - j) + g * j == g * i;
    } else {
      assert size * m + size * (n - m) == size * n;
      TurnsDifference(size * m, size * (n - m));
      g, i, j := CommonTurn(size, m, n - m);
      j := i + j;
      assert n == g * (j - i) + g * i == g * j;
    }
  }

  predicate IsPrimeFactor(q: nat) {
    q == 7 || q == 31 || q == 151
  }

  /** 7, 31 and 151 have no divisors but 1 and themselves. */
  lemma OnlyTrivialDivisors(g: nat, i: nat, q: nat)
    requires IsPrimeFactor(q) && g * i == q
    ensures g == 1 || g == q
  {
    if g > 12 && i > 12 {
      LargeProduct(g, i);
    } else if g <= 12 {
      SmallDivisor(g, i, q);
    } else {
      SmallDivisor(i, g, q);
      assert i == 1 ==> g == q;
    }
  }

  lemma LargeProduct(g: nat, i: nat)
    requires g >= 13 && i >= 13
    ensures g * i >= 169
  {
    assert g * i >= 13 * i;
  }

  lemma SmallDivisor(d: nat, e: nat, q: nat)
    requires IsPrimeFactor(q) && d * e == q && d <= 12
    ensures d == 1 || d == q
  {
    assert d == 0 || d == 1 || d == 2 || d == 3 || d == 4 || d == 5 || d == 6
        || d == 7 || d == 8 || d == 9 || d == 10 || d == 11 || d == 12;
  }

  /** x to the n is 1 only if each prime factor of 32767 divides n: otherwise the steps of the size of
      the other two factors together would already come to 1. */
  lemma FactorDivides(q: nat, others: nat, n: nat) returns (j: nat)
    requires IsPrimeFactor(q) && q * others == 32767 && Power(others) != 1
    requires n > 0 && Power(n) == 1
    ensures n == q * j
  {
    FullTurn();
    hide Power;
    assert others * q == 32767;
    TurnsAgain(n, others);
    assert n * others == others * n;
    assert others * 1 == others;
    var g, i, k := CommonTurn(others, q, n);
    OnlyTrivialDivisors(g, i, q);
    j := k;
  }

  /** A multiple of 7, of 31 and of 151 is one of 32767. */
  lemma AllFactorsDivide(n: nat, a: nat, b: nat, c: nat)
    requires n == 7 * a == 31 * b == 151 * c
    ensures n % 32767 == 0
  {
    var ab := 9 * b - 2 * a;
    assert b == 7 * ab;
    var abc := 23 * ab - 16 * c;
    assert ab == 151 * abc;
    assert n == 32767 * abc;
  }

  /** x to the n is 1 exactly for the multiples of 32767. */
  lemma OrderOfX(n: nat)
    ensures Power(n) == 1 <==> n % 32767 == 0
  {
    FullTurn();
    FirstPowers();
    hide Power;
    if n % 32767 == 0 {
      TurnsAgain(32767, n / 32767);
      assert n == 32767 * (n / 32767);
    } else if Power(n) == 1 {
      PowerOf4681();
      PowerOf1057();
      PowerOf217();
      var a := FactorDivides(7, 4681, n);
      var b := FactorDivides(31, 1057, n);
      var c := FactorDivides(151, 217, n);
      AllFactorsDivide(n, a, b, c);
    }
  }

  // ----- Two hits ---------------------------------------------------------------------------------

  /** Exactly the bits i and j are hit. */
  ghost predicate TwoHits(e: seq<bool>, i: nat, j: nat) {
    i < j < |e| && forall k :: 0 <= k < |e| ==> e[k] == (k == i || k == j)
  }

  lemma {:induction false} DivideNoHits(reg: bv16, e: seq<bool>)
    requires forall k :: 0 <= k < |e| ==> !e[k]
    ensures Divide(reg, e) == Steps(|e|, reg)
    decreases |e|
  {
    hide Divide1;
    if e != [] {
      DivideNoHits(Divide1(reg, false), e[1..]);
    }
  }

  lemma DivideHit(reg: bv16)
    ensures Divide(reg, [true]) == Xor(Step(reg), Power(16))
  {
    PowersTo16();
    hide Steps;
    assert Divide(reg, [true]) == Divide1(reg, true) by {
      assert [true][1..] == [];
    }
    Divide1Linear(reg, 0, false, true);
    XorZeroRight(reg);
    assert Divide1(0, true) == 0x8005;
  }

  /** Zero is left exactly when the hits are a multiple of 32767 apart. */
  lemma TwoHitsCancel(e: seq<bool>, i: nat, j: nat)
    requires TwoHits(e, i, j)
    ensures Divide(0, e) == 0 <==> (j - i) % 32767 == 0
  {
    var head, gap, rest := e[..i], e[i + 1..j], e[j + 1..];
    TwoHitsParts(e, i, j);
    hide Divide, Xor, Power, TwoHits;
    var hits := ((head + [true]) + gap) + [true];
    DivideChains(0, hits, rest);
    AfterTwoHits(head, gap);
    XorZero(Power(16 + (j - i)), Power(16));
    PowersMeet(j - i);
    OrderOfX(j - i);
    if Divide(0, hits) == 0 {
      ZeroStaysZero(rest);
    } else {
      NonzeroSurvives(Divide(0, hits), rest);
    }
  }

  lemma AfterTwoHits(head: seq<bool>, gap: seq<bool>)
    requires forall k :: 0 <= k < |head| ==> !head[k]
    requires forall k :: 0 <= k < |gap| ==> !gap[k]
    ensures Divide(0, ((head + [true]) + gap) + [true]) == Xor(Power(16 + (|gap| + 1)), Power(16))
  {
    hide Divide, Xor, Steps, Step, Power;
    DivideChains(0, (head + [true]) + gap, [true]);
    DivideChains(0, head + [true], gap);
    DivideChains(0, head, [true]);
    ZeroStaysZero(head);
    DivideHit(0);
    var first := Divide(0, head + [true]);
    FirstHit16(first);
    DivideNoHits(first, gap);
    var before := Steps(|gap|, first);
    DivideHit(before);
    GapPower(|gap|, first, before);
  }

  lemma TwoHitsParts(e: seq<bool>, i: nat, j: nat)
    requires TwoHits(e, i, j)
    ensures var head, gap, rest := e[..i], e[i + 1..j], e[j + 1..];
      && e == (((head + [true]) + gap) + [true]) + rest
      && (forall k :: 0 <= k < |head| ==> !head[k])
      && (forall k :: 0 <= k < |gap| ==> !gap[k])
      && (forall k :: 0 <= k < |rest| ==> !rest[k])
  {}

  lemma FirstHit16(first: bv16)
    requires first == Xor(Step(0), Power(16))
    ensures first == Power(16)
  {
    hide Power;
    assert Step(0) == 0;
    XorZeroLeft(Power(16));
  }

  lemma XorZeroLeft(x: bv16)
    ensures Xor(0, x) == x
  {}

  lemma GapPower(n: nat, first: bv16, before: bv16)
    requires first == Power(16) && before == Steps(n, first)
    ensures Step(before) == Power(16 + (n + 1))
  {
    hide Step;
    StepsChain(16, n + 1, 1);
    StepsChain(n, 1, first);
    assert Steps(1, before) == Steps(0, Step(before));
  }

  lemma PowersMeet(d: nat)
    ensures Power(16 + d) == Power(16) <==> Power(d) == 1
  {
    hide Steps;
    StepsChain(d, 16, 1);
    assert d + 16 == 16 + d;
    if Power(16 + d) == Power(16) {
      StepsInjective(16, Power(d), 1);
    }
  }

  /** Two messages of one length that differ in exactly two bits have the same CRC if and only if the
      bits lie a multiple of 32767 apart. */
  lemma TwoBitErrorUnnoticed(crc: bv16, p: seq<Byte>, q: seq<Byte>, i: nat, j: nat)
    requires |p| == |q| && TwoHits(Diff(Bits(p), Bits(q)), i, j)
    ensures Crc(crc, p) == Crc(crc, q) <==> (j - i) % 32767 == 0
  {
    CrcDifference(crc, p, q);
    TwoHitsCancel(Diff(Bits(p), Bits(q)), i, j);
  }
}
