/** modules/libdcxcali/dcx_cali.c: amplitude calibration of the crystal oscillator and the switch
    between high-power and low-power mode, over the registers of the PMIC. */
module Dcxo {
  // ----- Registers --------------------------------------------------------------------------------

  datatype Regs = Regs(prot: bv16, ctrl3: bv16, ctrl4: bv16, ctrl5: bv16,
                       ctrl10: bv16, ctrl11: bv16, ctrl14: bv16)


  /** What the comparator says about a calibration code, the low byte of CTRL5. */
  type OkFlag = bv8 -> bool

  function Low(v: bv16): bv8 {
    (v & 0xFF) as bv8
  }

  // ----- The high-power search as a function of the code ------------------------------------------

  /** The coarse sweep: bits 7:5 count down until the flag is set or they are zero. */
  function CoarseEnd(ok: OkFlag, c: bv8, fuel: nat): bv8 {
    if ok(c) || InBottom(c) || fuel == 0 then c else CoarseEnd(ok, c - 0x20, fuel - 1)
  }

  /** Bits 7:5 are zero: the lowest of the eight buckets. */
  predicate InBottom(c: bv8) {
    c & 0xE0 == 0
  }

  /** One bucket up; from the topmost one round to the lowest. */
  function BucketAbove(c: bv8): bv8 {
    c + 0x20
  }

  function TopOfBucket(c: bv8): bv8 {
    c | 0x1F
  }

  /** Where the fine search begins: one bucket up if the sweep stopped above the lowest bucket with
      the flag set. From the topmost bucket one up is the lowest. */
  function FineStart(ok: OkFlag): bv8 {
    var e := CoarseEnd(ok, 0xFF, 7);
    TopOfBucket(if ok(e) && !InBottom(e) then BucketAbove(e) else e)
  }

  /** The bits the fine search counts down: 4:0 in high-power mode, 3:0 in low-power mode. */
  const HP_FINE: bv16 := 0x1F
  const LP_FINE: bv16 := 0x0F

  /** CTRL5 after n steps of the fine search. */
  function FineAt(bits: bv16, v: bv16, n: nat): bv16
    decreases n
  {
    if n == 0 then v else FineDown(bits, FineAt(bits, v, n - 1))
  }

  /** The fine search from v ends after n steps. */
  ghost predicate FineStops(ok: OkFlag, bits: bv16, v: bv16, n: nat) {
    ok(Low(FineAt(bits, v, n))) && forall k: nat :: k < n ==> !ok(Low(FineAt(bits, v, k)))
  }

  /** The fine search from v ends with w. */
  ghost predicate FineFinds(ok: OkFlag, bits: bv16, v: bv16, w: bv16) {
    exists n: nat :: FineStops(ok, bits, v, n) && FineAt(bits, v, n) == w
  }

  ghost predicate FineSettles(ok: OkFlag, bits: bv16, v: bv16) {
    exists n: nat :: FineStops(ok, bits, v, n)
  }

  ghost predicate Settles(ok: OkFlag) {
    FineSettles(ok, HP_FINE, FineStart(ok) as bv16)
  }

  /** The calibration ends, with this value in CTRL5. */
  ghost predicate Finds(ok: OkFlag, w: bv16) {
    FineFinds(ok, HP_FINE, FineStart(ok) as bv16, w)
  }

  // ----- The low-power search ---------------------------------------------------------------------

  predicate LpInBottom(c: bv8) {
    c & 0x30 == 0
  }

  /** Bits 5:4 one lower, bits 7:6 cleared. */
  function LpCoarseNext(c: bv8): bv8 {
    (c & 0x3F) - 0x10
  }

  function LpCoarseEnd(ok: OkFlag, c: bv8, fuel: nat): bv8 {
    if ok(c) || LpInBottom(c) || fuel == 0 then c else LpCoarseEnd(ok, LpCoarseNext(c), fuel - 1)
  }

  /** Where the low-power fine search begins. The back-off does not go one bucket up: it goes to
      bucket one, wherever the sweep stopped. */
  function LpFineStart(ok: OkFlag, c: bv8): bv8 {
    var e := LpCoarseEnd(ok, LpTop(c), 3);
    if ok(e) && !LpInBottom(e) then 0x1F else if ok(e) then LpFilled(e) else 0x0F
  }

  function LpTop(c: bv8): bv8 {
    c | 0x3F
  }

  function LpFilled(c: bv8): bv8 {
    c | 0x0F
  }

  ghost predicate LpSettles(ok: OkFlag, c: bv8) {
    FineSettles(ok, LP_FINE, LpFineStart(ok, c) as bv16)
  }

  ghost predicate LpFinds(ok: OkFlag, c: bv8, w: bv16) {
    FineFinds(ok, LP_FINE, LpFineStart(ok, c) as bv16, w)
  }

  // ----- What the search finds --------------------------------------------------------------------

  /** The greatest accepted code from lo to hi. */
  ghost predicate Greatest(ok: OkFlag, lo: bv8, hi: bv8, c: bv8) {
    lo <= c <= hi && ok(c) && forall d: bv8 :: c < d <= hi ==> !ok(d)
  }

  ghost predicate NoneIn(ok: OkFlag, lo: bv8, hi: bv8) {
    forall d: bv8 :: lo <= d <= hi ==> !ok(d)
  }

  /** The high-power calibration, for every comparator: it ends with the greatest accepted code of the
      bucket the fine search starts in, else, after running below that bucket, with the greatest
      accepted code from 0xE0 on under a byte of ones; and if there is none there either it never ends. */
  lemma SearchOutcome(ok: OkFlag, w: bv16)
    ensures var s := FineStart(ok);
      Finds(ok, w) <==>
        || (Greatest(ok, s & 0xE0, s, Low(w)) && w <= 0xFF)
        || (NoneIn(ok, s & 0xE0, s) && Greatest(ok, 0xE0, 0xFF, Low(w)) && w >= 0xFF00)
    ensures var s := FineStart(ok);
      Settles(ok) <==> !NoneIn(ok, s & 0xE0, s) || !NoneIn(ok, 0xE0, 0xFF)
  {
    var s := FineStart(ok);
    hide FineStart;
    Outcome(ok, 0x1F, 0xE0, s, w);
  }

  /** Where the fine search starts, by the eight codes the coarse sweep looks at. */
  lemma StartByComparator(ok: OkFlag)
    ensures FineStart(ok) ==
      if ok(0xFF) then 0x1F else if ok(0xDF) then 0xFF else if ok(0xBF) then 0xDF else if ok(0x9F) then 0xBF
      else if ok(0x7F) then 0x9F else if ok(0x5F) then 0x7F else if ok(0x3F) then 0x5F else 0x1F
  {}

  /** The same for low power, where the sweep looks at no more than four codes. */
  lemma LpSearchOutcome(ok: OkFlag, c: bv8, w: bv16)
    ensures var s: bv8 := if ok(c | 0x3F) || ok(0x2F) || ok(0x1F) then 0x1F else 0x0F;
      && LpFineStart(ok, c) == s
      && (LpFinds(ok, c, w) <==>
        || (Greatest(ok, s & 0xF0, s, Low(w)) && w <= 0xFF)
        || (NoneIn(ok, s & 0xF0, s) && Greatest(ok, 0xF0, 0xFF, Low(w)) && w >= 0xFF00))
      && (LpSettles(ok, c) <==> !NoneIn(ok, s & 0xF0, s) || !NoneIn(ok, 0xF0, 0xFF))
  {
    LpStartByComparator(ok, c);
    var s := LpFineStart(ok, c);
    hide LpFineStart;
    Outcome(ok, 0x0F, 0xF0, s, w);
  }

  lemma LpStartByComparator(ok: OkFlag, c: bv8)
    ensures LpFineStart(ok, c) == if ok(c | 0x3F) || ok(0x2F) || ok(0x1F) then 0x1F else 0x0F
  {
    LpCodes(c);
    hide LpTop, LpCoarseNext, LpInBottom, LpFilled;
    var top := c | 0x3F;
    assert LpCoarseEnd(ok, 0x1F, 1) == if ok(0x1F) then 0x1F else 0x0F;
    assert LpCoarseEnd(ok, 0x2F, 2) == if ok(0x2F) then 0x2F else LpCoarseEnd(ok, 0x1F, 1);
    assert LpCoarseEnd(ok, top, 3) == if ok(top) then top else LpCoarseEnd(ok, 0x2F, 2);
  }

  /** The codes the low-power sweep looks at. */
  lemma LpCodes(c: bv8)
    ensures LpTop(c) == c | 0x3F && !LpInBottom(c | 0x3F) && !LpInBottom(0x2F) && !LpInBottom(0x1F)
    ensures LpCoarseNext(c | 0x3F) == 0x2F && LpCoarseNext(0x2F) == 0x1F && LpCoarseNext(0x1F) == 0x0F
    ensures LpInBottom(0x0F) && LpFilled(0x0F) == 0x0F
  {}

  /** The fine search from a code, the outer bits telling the buckets apart. */
  lemma Outcome(ok: OkFlag, bits: bv16, outer: bv8, c: bv8, w: bv16)
    requires Fields(bits, outer)
    ensures FineFinds(ok, bits, c as bv16, w) <==>
      || (Greatest(ok, c & outer, c, Low(w)) && w <= 0xFF)
      || (NoneIn(ok, c & outer, c) && Greatest(ok, outer, 0xFF, Low(w)) && w >= 0xFF00)
    ensures FineSettles(ok, bits, c as bv16) <==> !NoneIn(ok, c & outer, c) || !NoneIn(ok, outer, 0xFF)
  {
    hide Low, FineDown, FineFinds, FineSettles, Fields, Greatest, NoneIn;
    OutcomeOf(ok, bits, outer, c, w);
    if FineSettles(ok, bits, c as bv16) {
      var end := SettledFinds(ok, bits, c as bv16);
      OutcomeOf(ok, bits, outer, c, end);
      FoundIsThere(ok, c & outer, c, Low(end));
      FoundIsThere(ok, outer, 0xFF, Low(end));
    } else if !NoneIn(ok, c & outer, c) {
      var g := GreatestThere(ok, c & outer, c);
      CodeAsRegister(g);
      OutcomeOf(ok, bits, outer, c, g as bv16);
      FoundSettles(ok, bits, c as bv16, g as bv16);
    } else if !NoneIn(ok, outer, 0xFF) {
      var g := GreatestThere(ok, outer, 0xFF);
      CodeAsRegister(g);
      OutcomeOf(ok, bits, outer, c, 0xFF00 | (g as bv16));
      FoundSettles(ok, bits, c as bv16, 0xFF00 | (g as bv16));
    }
  }

  lemma OutcomeOf(ok: OkFlag, bits: bv16, outer: bv8, c: bv8, w: bv16)
    requires Fields(bits, outer)
    ensures FineFinds(ok, bits, c as bv16, w) <==>
      || (Greatest(ok, c & outer, c, Low(w)) && w <= 0xFF)
      || (NoneIn(ok, c & outer, c) && Greatest(ok, outer, 0xFF, Low(w)) && w >= 0xFF00)
  {
    HighByte(w, c, outer);
    hide Low, FineDown, FineFinds, Fields, Under, High, Bottom;
    Descend(ok, bits, outer, c, 0, w);
    Descend(ok, bits, outer, 0xFF, 0xFF00, w);
    FoundIsThere(ok, c & outer, c, Low(w));
    FoundIsThere(ok, outer, 0xFF, Low(w));
    hide Greatest, NoneIn;
    if NoneIn(ok, outer, 0xFF) {
      NoneAtTheTop(ok, bits, outer, w);
    }
  }

  lemma HighByte(w: bv16, c: bv8, outer: bv8)
    ensures High(w) == 0 <==> w <= 0xFF
    ensures High(w) == 0xFF00 <==> w >= 0xFF00
    ensures Under(0, c) == c as bv16 && Under(0xFF00, 0xFF) == 0xFFFF
    ensures Bottom(outer, c) == c & outer && Bottom(outer, 0xFF) == outer
  {}

  lemma CodeAsRegister(c: bv8)
    ensures Low(c as bv16) == c && c as bv16 <= 0xFF
    ensures Low(0xFF00 | (c as bv16)) == c && 0xFF00 | (c as bv16) >= 0xFF00
  {}

  lemma FoundIsThere(ok: OkFlag, lo: bv8, hi: bv8, c: bv8)
    ensures Greatest(ok, lo, hi, c) ==> !NoneIn(ok, lo, hi)
  {}

  lemma {:induction false} GreatestThere(ok: OkFlag, lo: bv8, hi: bv8) returns (c: bv8)
    requires !NoneIn(ok, lo, hi)
    ensures Greatest(ok, lo, hi, c)
    decreases hi as int
  {
    Lowest(ok, lo, hi);
    hide NoneIn, Greatest;
    if ok(hi) {
      c := hi;
      LowestGreatest(ok, lo, hi, c);
    } else {
      OneLess(lo, hi);
      c := GreatestThere(ok, lo, hi - 1);
      LowestGreatest(ok, lo, hi, c);
    }
  }

  lemma OneLess(lo: bv8, hi: bv8)
    requires lo < hi
    ensures lo <= hi - 1 && hi - 1 < hi && (hi - 1) as int < hi as int
  {}

  lemma SettledFinds(ok: OkFlag, bits: bv16, v: bv16) returns (w: bv16)
    requires FineSettles(ok, bits, v)
    ensures FineFinds(ok, bits, v, w)
  {
    var n: nat :| FineStops(ok, bits, v, n);
    w := FineAt(bits, v, n);
  }

  lemma FoundSettles(ok: OkFlag, bits: bv16, v: bv16, w: bv16)
    requires FineFinds(ok, bits, v, w)
    ensures FineSettles(ok, bits, v)
  {}

  /** A code in the low byte of a register. */
  function Under(high: bv16, c: bv8): bv16 {
    high | (c as bv16)
  }

  function High(w: bv16): bv16 {
    w & 0xFF00
  }

  /** Where the bucket of a code begins. */
  function Bottom(outer: bv8, c: bv8): bv8 {
    c & outer
  }

  /** Down the bucket of c, and below it to all ones. */
  lemma {:induction false} Descend(ok: OkFlag, bits: bv16, outer: bv8, c: bv8, high: bv16, w: bv16)
    requires Fields(bits, outer) && (high == 0 || high == 0xFF00)
    ensures NoneIn(ok, Bottom(outer, c), c) ==>
      (FineFinds(ok, bits, Under(high, c), w) <==> FineFinds(ok, bits, 0xFFFF, w))
    ensures !NoneIn(ok, Bottom(outer, c), c) ==>
      (FineFinds(ok, bits, Under(high, c), w) <==> Greatest(ok, Bottom(outer, c), c, Low(w)) && High(w) == high)
    decreases c as int
  {
    hide FineDown, FineFinds, Fields, Low, Greatest, NoneIn, Under, High, Bottom;
    Unfold(ok, bits, Under(high, c), w);
    Joined(high, c, w);
    FineStep(bits, outer, c, high);
    Lowest(ok, Bottom(outer, c), c);
    LowestGreatest(ok, Bottom(outer, c), c, Low(w));
    if !ok(c) && Bottom(outer, c) != c {
      Descend(ok, bits, outer, c - 1, high, w);
    }
  }

  lemma Lowest(ok: OkFlag, lo: bv8, c: bv8)
    requires !NoneIn(ok, lo, c) || lo <= c
    ensures lo <= c
    ensures ok(c) ==> !NoneIn(ok, lo, c)
    ensures !ok(c) && lo == c ==> NoneIn(ok, lo, c)
    ensures !ok(c) && lo != c ==> (NoneIn(ok, lo, c) <==> NoneIn(ok, lo, c - 1))
  {}

  lemma LowestGreatest(ok: OkFlag, lo: bv8, c: bv8, x: bv8)
    requires lo <= c
    ensures ok(c) ==> (Greatest(ok, lo, c, x) <==> x == c)
    ensures !ok(c) && lo != c ==> (Greatest(ok, lo, c, x) <==> Greatest(ok, lo, c - 1, x))
  {}

  lemma Joined(high: bv16, c: bv8, w: bv16)
    requires high == 0 || high == 0xFF00
    ensures Low(Under(high, c)) == c
    ensures w == Under(high, c) <==> Low(w) == c && High(w) == high
  {}

  lemma FineStep(bits: bv16, outer: bv8, c: bv8, high: bv16)
    requires Fields(bits, outer) && (high == 0 || high == 0xFF00)
    ensures Bottom(outer, c) <= c
    ensures Bottom(outer, c) == c ==> FineDown(bits, Under(high, c)) == 0xFFFF
    ensures Bottom(outer, c) != c ==>
      && FineDown(bits, Under(high, c)) == Under(high, c - 1) && Bottom(outer, c - 1) == Bottom(outer, c)
      && c - 1 < c && (c - 1) as int < c as int
  {}

  lemma Unfold(ok: OkFlag, bits: bv16, v: bv16, w: bv16)
    ensures FineFinds(ok, bits, v, w) <==>
      if ok(Low(v)) then w == v else FineFinds(ok, bits, FineDown(bits, v), w)
  {
    hide FineDown, Low;
    if ok(Low(v)) {
      assert FineAt(bits, v, 0) == v;
      assert FineStops(ok, bits, v, 0);
    } else {
      var next := FineDown(bits, v);
      if FineFinds(ok, bits, v, w) {
        var n: nat :| FineStops(ok, bits, v, n) && FineAt(bits, v, n) == w;
        assert FineAt(bits, v, 0) == v;
        StopsOneStepOn(ok, bits, v, n - 1);
      }
      if FineFinds(ok, bits, next, w) {
        var n: nat :| FineStops(ok, bits, next, n) && FineAt(bits, next, n) == w;
        StopsOneStepOn(ok, bits, v, n);
      }
    }
  }

  lemma StopsOneStepOn(ok: OkFlag, bits: bv16, v: bv16, n: nat)
    requires !ok(Low(v))
    ensures FineStops(ok, bits, v, n + 1) <==> FineStops(ok, bits, FineDown(bits, v), n)
    ensures FineAt(bits, v, n + 1) == FineAt(bits, FineDown(bits, v), n)
  {
    hide FineDown, Low;
    FineShift(bits, v, n);
    forall k: nat
      ensures FineAt(bits, v, k + 1) == FineAt(bits, FineDown(bits, v), k)
    {
      FineShift(bits, v, k);
    }
    assert FineAt(bits, v, 0) == v;
    hide FineAt;
    if FineStops(ok, bits, FineDown(bits, v), n) {
      forall k: nat | k < n + 1
        ensures !ok(Low(FineAt(bits, v, k)))
      {
        assert k > 0 ==> FineAt(bits, v, k - 1 + 1) == FineAt(bits, FineDown(bits, v), k - 1);
      }
    }
  }

  lemma {:induction false} FineShift(bits: bv16, v: bv16, n: nat)
    ensures FineAt(bits, v, n + 1) == FineAt(bits, FineDown(bits, v), n)
    decreases n
  {
    hide FineDown;
    if n > 0 {
      FineShift(bits, v, n - 1);
    }
  }

  /** The topmost bucket is searched round and round. */
  lemma NoneAtTheTop(ok: OkFlag, bits: bv16, outer: bv8, w: bv16)
    requires Fields(bits, outer) && NoneIn(ok, outer, 0xFF)
    ensures !FineFinds(ok, bits, 0xFFFF, w)
  {
    hide FineDown, Low, Fields;
    forall n: nat
      ensures !ok(Low(FineAt(bits, 0xFFFF, n)))
    {
      StaysAtTheTop(bits, outer, n);
    }
  }

  lemma {:induction false} StaysAtTheTop(bits: bv16, outer: bv8, n: nat)
    requires Fields(bits, outer)
    ensures Low(FineAt(bits, 0xFFFF, n)) >= outer
    decreases n
  {
    if n > 0 {
      StaysAtTheTop(bits, outer, n - 1);
    }
  }

  /** Fine bits and bucket bits of the low byte. */
  ghost predicate Fields(bits: bv16, outer: bv8) {
    (bits == 0x1F && outer == 0xE0) || (bits == 0x0F && outer == 0xF0)
  }

  // ----- Comparators with a threshold --------------------------------------------------------------

  /** The comparator accepts exactly the codes up to the threshold. */
  ghost predicate Threshold(ok: OkFlag, t: bv8) {
    forall c: bv8 :: ok(c) <==> c <= t
  }

  /** For a comparator with a threshold the calibration finds the greatest accepted code exactly
      when the threshold is at most 31, or lies between 64 and 254 and is not the last code of its
      bucket of 32. */
  lemma FindsGreatest(ok: OkFlag, t: bv8)
    requires Threshold(ok, t)
    ensures Finds(ok, t as bv16) <==> t <= 31 || (64 <= t < 255 && t & 0x1F != 0x1F)
  {
    StartOf(ok, t);
    SearchOutcome(ok, t as bv16);
    CodeAsRegister(t);
    hide FineStart, Finds, Settles, Low;
  }

  /** Thresholds 32 to 62, and 255, leave code 31 behind: too small, but the calibration ends. */
  lemma FindsThirtyOne(ok: OkFlag, t: bv8)
    requires Threshold(ok, t) && (32 <= t < 63 || t == 255)
    ensures Finds(ok, 0x1F)
  {
    StartOf(ok, t);
    SearchOutcome(ok, 0x1F);
    hide FineStart, Finds, Settles;
  }

  /** A threshold on the last code of a bucket, from 63 up to 223, is never found: the search looks
      in the bucket above, runs off its end into the topmost bucket and cycles there for ever. */
  lemma NeverEnds(ok: OkFlag, t: bv8)
    requires Threshold(ok, t) && 63 <= t < 255 && t & 0x1F == 0x1F
    ensures !Settles(ok)
  {
    StartOf(ok, t);
    SearchOutcome(ok, 0);
    hide FineStart, Finds, Settles;
  }

  /** Where the fine search begins, by threshold. */
  lemma StartOf(ok: OkFlag, t: bv8)
    requires Threshold(ok, t)
    ensures FineStart(ok) ==
      if t < 63 || t == 255 then 0x1F
      else if t < 95 then 0x5F else if t < 127 then 0x7F else if t < 159 then 0x9F
      else if t < 191 then 0xBF else if t < 223 then 0xDF else 0xFF
  {
    StartByComparator(ok);
    hide FineStart;
  }

  /** In low power the calibration always ends for such a comparator, but with no code above 31. */
  lemma LpFindsAtMost31(ok: OkFlag, t: bv8, c: bv8)
    requires Threshold(ok, t)
    ensures LpFinds(ok, c, if t >= 31 then 31 else if t >= 15 then 15 else t as bv16)
  {
    var w: bv16 := if t >= 31 then 31 else if t >= 15 then 15 else t as bv16;
    CodeAsRegister(t);
    LpSearchOutcome(ok, c, w);
    hide LpFinds, LpFineStart, LpSettles;
  }

  /** Neither is anything found when every code is rejected. */
  lemma NothingAcceptedNeverEnds(ok: OkFlag)
    requires forall c: bv8 :: !ok(c)
    ensures !Settles(ok)
  {}

  lemma OneResult(ok: OkFlag, v: bv16, w: bv16)
    requires Finds(ok, v) && Finds(ok, w)
    ensures v == w
  {}

  ghost predicate DownClosed(ok: OkFlag) {
    forall a: bv8, b: bv8 :: a <= b && ok(b) ==> ok(a)
  }

  /** A comparator that accepts every code below an accepted one has a threshold. */
  lemma {:induction false} ThresholdBelow(ok: OkFlag, top: bv8) returns (t: bv8)
    requires DownClosed(ok) && ok(0) && forall c: bv8 :: ok(c) ==> c <= top
    ensures Threshold(ok, t)
    decreases top as int
  {
    if ok(top) {
      t := top;
    } else {
      t := ThresholdBelow(ok, top - 1);
    }
  }

  // ----- Register arithmetic ----------------------------------------------------------------------

  /** Bits 7:5 one lower, bits 4:0 kept, the rest cleared. */
  function CoarseDown(v: bv16): bv16 {
    ((v & 0x1F) | ((Bucket(v) - 1) << 5)) & 0xFF
  }

  /** Bits 7:5 one higher, the rest of the low byte kept. */
  function BucketUp(v: bv16): bv16 {
    ((v & !0xE0) | ((Bucket(v) + 1) << 5)) & 0xFF
  }

  /** The searched bits one lower; borrowing from below zero sets everything. */
  function FineDown(bits: bv16, v: bv16): bv16 {
    (v & !bits) | ((v & bits) - 1)
  }

  /** The searched bits all set. */
  function Filled(bits: bv16, v: bv16): bv16 {
    v | bits
  }

  // The bits used: AML_CAL_EN is bit 3 of CTRL3, AML_CAL_OK bit 3 and AML_CTRL bits 7:4 of CTRL4.

  function ClearOk(v: bv16): bv16 {
    v & !0x8
  }

  function ClearCtrl(v: bv16): bv16 {
    v & !0xF0
  }

  function Or(v: bv16, bits: bv16): bv16 {
    v | bits
  }

  /** Reading CTRL4: the comparator shows through as bit 3. */
  function Shown(ctrl4: bv16, flag: bool): bv16 {
    Or(ClearOk(ctrl4), if flag then 0x8 else 0)
  }

  /** Writing CTRL4: bit 3 cannot be written. */
  function Stored(v: bv16): bv16 {
    ClearOk(v)
  }

  /** CTRL4 with a level or-ed into AML_CTRL, for the coarse sweep. */
  function Coarse4(level: bv16, ctrl4: bv16): bv16 {
    Or(ClearOk(ctrl4), level)
  }

  /** CTRL4 with AML_CTRL replaced by a level, for the fine search. */
  function Fine4(level: bv16, ctrl4: bv16): bv16 {
    Or(ClearCtrl(ClearOk(ctrl4)), level)
  }

  /** The four levels used: coarse and fine, in high-power and in low-power mode. */
  predicate Level(level: bv16) {
    level == 0x70 || level == 0x60 || level == 0x20 || level == 0x10
  }

  lemma LevelsUsed()
    ensures Level(0x70) && Level(0x60) && Level(0x20) && Level(0x10)
  {}

  /** The AML_CTRL field set to a level. */
  function WithLevel(level: bv16, shown: bv16): bv16 {
    Or(ClearCtrl(shown), level)
  }

  lemma ShownFlag(ctrl4: bv16, flag: bool)
    ensures Shown(ctrl4, flag) & 0x8 != 0 <==> flag
  {
    if flag {
      assert Shown(ctrl4, true) & 0x8 == 0x8;
    } else {
      assert Shown(ctrl4, false) & 0x8 == 0;
    }
  }

  lemma ShownCleared(ctrl4: bv16, flag: bool)
    ensures ClearOk(Shown(ctrl4, flag)) == ClearOk(ctrl4)
  {
    FlagSetAndCleared(ctrl4);
    FlagLeftAndCleared(ctrl4);
  }

  lemma FlagSetAndCleared(v: bv16)
    ensures ((v & !0x8) | 0x8) & !0x8 == v & !0x8
  {}

  lemma FlagLeftAndCleared(v: bv16)
    ensures ((v & !0x8) | 0) & !0x8 == v & !0x8
  {}

  lemma ClearedTwice(v: bv16)
    ensures ClearOk(ClearOk(v)) == ClearOk(v)
  {}

  lemma ClearsCommute(v: bv16)
    ensures ClearOk(ClearCtrl(v)) == ClearCtrl(ClearOk(v))
  {}

  lemma LevelBesideOk(v: bv16, level: bv16)
    requires Level(level)
    ensures ClearOk(Or(v, level)) == Or(ClearOk(v), level)
  {
    hide ClearOk, Or;
    Beside10(v);
    Beside20(v);
    Beside60(v);
    Beside70(v);
  }

  lemma LevelForgotten(v: bv16, level: bv16)
    requires Level(level)
    ensures ClearCtrl(Or(v, level)) == ClearCtrl(v)
  {
    hide ClearCtrl, Or;
    Forgotten10(v);
    Forgotten20(v);
    Forgotten60(v);
    Forgotten70(v);
  }

  lemma Beside10(v: bv16)
    ensures ClearOk(Or(v, 0x10)) == Or(ClearOk(v), 0x10)
  {}

  lemma Beside20(v: bv16)
    ensures ClearOk(Or(v, 0x20)) == Or(ClearOk(v), 0x20)
  {}

  lemma Beside60(v: bv16)
    ensures ClearOk(Or(v, 0x60)) == Or(ClearOk(v), 0x60)
  {}

  lemma Beside70(v: bv16)
    ensures ClearOk(Or(v, 0x70)) == Or(ClearOk(v), 0x70)
  {}

  lemma Forgotten10(v: bv16)
    ensures ClearCtrl(Or(v, 0x10)) == ClearCtrl(v)
  {}

  lemma Forgotten20(v: bv16)
    ensures ClearCtrl(Or(v, 0x20)) == ClearCtrl(v)
  {}

  lemma Forgotten60(v: bv16)
    ensures ClearCtrl(Or(v, 0x60)) == ClearCtrl(v)
  {}

  lemma Forgotten70(v: bv16)
    ensures ClearCtrl(Or(v, 0x70)) == ClearCtrl(v)
  {}

  lemma CoarseField(ctrl4: bv16, flag: bool, level: bv16)
    requires Level(level)
    ensures Stored(Or(Shown(ctrl4, flag), level)) == Coarse4(level, ctrl4)
  {
    hide Shown, ClearOk, Or, Level;
    LevelBesideOk(Shown(ctrl4, flag), level);
    ShownCleared(ctrl4, flag);
  }

  lemma FineField(ctrl4: bv16, flag: bool, coarse: bv16, fine: bv16)
    requires Level(coarse) && Level(fine)
    ensures Stored(WithLevel(fine, Shown(Coarse4(coarse, ctrl4), flag))) == Fine4(fine, ctrl4)
  {
    hide Shown, ClearOk, ClearCtrl, Or, Level;
    var shown := Shown(Coarse4(coarse, ctrl4), flag);
    LevelBesideOk(ClearCtrl(shown), fine);
    ClearsCommute(shown);
    ShownCleared(Coarse4(coarse, ctrl4), flag);
    LevelBesideOk(ClearOk(ctrl4), coarse);
    ClearedTwice(ctrl4);
    LevelForgotten(ClearOk(ctrl4), coarse);
  }

  function Enabled(ctrl3: bv16): bv16 {
    ctrl3 | 0x8
  }

  function Disabled(ctrl3: bv16): bv16 {
    ctrl3 & !0x8
  }

  lemma EnableCleared(ctrl3: bv16)
    ensures Disabled(Enabled(ctrl3)) == Disabled(ctrl3)
  {}

  lemma CoarseDownLow(v: bv16)
    requires !InBottom(Low(v))
    ensures Low(CoarseDown(v)) == Low(v) - 0x20 && CoarseDown(v) <= 0xFF
  {}

  lemma BucketUpLow(v: bv16)
    ensures Low(BucketUp(v)) == BucketAbove(Low(v)) && BucketUp(v) <= 0xFF
  {}

  /** HP_CAL_CTRL_7_5. */
  function Bucket(v: bv16): bv16 {
    (v & 0xE0) >> 5
  }

  lemma BucketLow(v: bv16)
    ensures Bucket(v) == 0 <==> InBottom(Low(v))
  {}

  lemma FilledLow(v: bv16)
    ensures Low(Filled(0x1F, v)) == TopOfBucket(Low(v))
    ensures v <= 0xFF ==> Filled(0x1F, v) == TopOfBucket(Low(v)) as bv16
  {}

  lemma LpTopLow(v: bv16)
    ensures Low(Filled(0x30, Filled(0x0F, v))) == LpTop(Low(v))
  {}

  /** LP_CAL_CTRL_5_4. */
  function LpBucket(v: bv16): bv16 {
    (v & 0x30) >> 4
  }

  lemma LpBucketLow(v: bv16)
    ensures LpBucket(v) == 0 <==> LpInBottom(Low(v))
  {}

  /** Bits 5:4 replaced, bits 7:6 cleared, bits 3:0 kept. */
  function WithLpBucket(bucket: bv16, v: bv16): bv16 {
    ((v & !0xF0) | (bucket << 4)) & 0xFF
  }

  lemma LpCoarseDownLow(v: bv16)
    requires !LpInBottom(Low(v))
    ensures Low(WithLpBucket(LpBucket(v) - 1, v)) == LpCoarseNext(Low(v))
    ensures WithLpBucket(LpBucket(v) - 1, v) <= 0xFF
  {}

  lemma LpBackOffLow(v: bv16)
    ensures Filled(0x0F, WithLpBucket(1, v)) == 0x1F
  {}

  lemma LpBackOffBucket(v: bv16)
    ensures LpBucket(WithLpBucket(1, v)) == 1
  {}

  lemma LpFilledLow(v: bv16)
    ensures v <= 0xFF ==> Filled(0x0F, v) == LpFilled(Low(v)) as bv16
  {}

  lemma LpBottomLow(v: bv16)
    ensures Filled(0x0F, v & 0x0F) == 0x0F
  {}

  lemma AllOnesLow(v: bv16)
    ensures Low(Filled(0xE0, Filled(0x1F, v))) == 0xFF
  {}

  lemma BottomLow(v: bv16)
    requires InBottom(Low(v))
    ensures Low(v & 0x1F) == Low(v) && v & 0x1F <= 0xFF
  {}

  lemma NotInBottom()
    ensures !InBottom(0xFF)
  {}

  lemma LpNotInBottom(c: bv8)
    ensures !LpInBottom(LpTop(c))
  {}

  // ----- The driver -------------------------------------------------------------------------------

  /** What the driver keeps between commands: the registers and its globals. */
  datatype State = State(regs: Regs, mode: int, hpCbank: bv16, hpAmp: bv16, lpCbank: bv16, lpAmp: bv16)

  class Driver {
    var r: Regs
    var currentMode: int
    var hpCbank: bv16
    var hpAmp: bv16
    var lpCbank: bv16
    var lpAmp: bv16

    constructor (regs: Regs)
      ensures Abstract() == State(regs, 1, 0, 0, 0, 0)
    {
      r, currentMode := regs, 1;
      hpCbank, hpAmp, lpCbank, lpAmp := 0, 0, 0, 0;
    }

    ghost function Abstract(): State
      reads this
    {
      State(r, currentMode, hpCbank, hpAmp, lpCbank, lpAmp)
    }

    function ReadCtrl4(ok: OkFlag): bv16
      reads this`r
    {
      Shown(r.ctrl4, ok(Low(r.ctrl5)))
    }

    /** OK_FLAG. */
    method FlagSet(ok: OkFlag) returns (flag: bool)
      ensures flag == ok(Low(r.ctrl5))
    {
      ShownFlag(r.ctrl4, ok(Low(r.ctrl5)));
      flag := ReadCtrl4(ok) & 0x8 != 0;
    }

    /** hp_dcxo_amp_init with 0x1F, 0xE0 and 0x70; lp_dcxo_amp_init with 0x0F, 0x30 and 0x20. */
    method DcxoAmpInit(ok: OkFlag, fine: bv16, coarse: bv16, level: bv16)
      requires Level(level)
      modifies this`r
      ensures r == old(r).(ctrl3 := Enabled(old(r).ctrl3), ctrl5 := Filled(coarse, Filled(fine, old(r).ctrl5)),
                           ctrl4 := Coarse4(level, old(r).ctrl4))
    {
      hide Shown, Stored, Coarse4, Or, Low, Filled, Level, Enabled;
      r := r.(ctrl3 := Enabled(r.ctrl3));
      r := r.(ctrl5 := Filled(fine, r.ctrl5));
      r := r.(ctrl5 := Filled(coarse, r.ctrl5));
      CoarseField(r.ctrl4, ok(Low(r.ctrl5)), level);
      r := r.(ctrl4 := Stored(Or(ReadCtrl4(ok), level)));
    }

    /** The coarse sweep over bits 7:5. */
    method CoarseSweep(ok: OkFlag)
      requires Low(r.ctrl5) == 0xFF
      modifies this`r
      ensures r == old(r).(ctrl5 := r.ctrl5)
      ensures Low(r.ctrl5) == CoarseEnd(ok, 0xFF, 7)
      ensures ok(Low(r.ctrl5)) || InBottom(Low(r.ctrl5))
      ensures r.ctrl5 <= 0xFF || !InBottom(Low(r.ctrl5))
    {
      ghost var fuel: nat := 7;
      SevenBuckets();
      NotInBottom();
      hide CoarseDown, Low, InBottom, Bucket, Buckets;
      var flag := FlagSet(ok);
      BucketLow(r.ctrl5);
      while !flag && !(!flag && Bucket(r.ctrl5) == 0)
        invariant flag == ok(Low(r.ctrl5))
        invariant Bucket(r.ctrl5) == 0 <==> InBottom(Low(r.ctrl5))
        invariant r == old(r).(ctrl5 := r.ctrl5)
        invariant CoarseEnd(ok, 0xFF, 7) == CoarseEnd(ok, Low(r.ctrl5), fuel)
        invariant Buckets(Low(r.ctrl5), fuel)
        invariant r.ctrl5 <= 0xFF || !InBottom(Low(r.ctrl5))
        decreases fuel
      {
        CoarseDownLow(r.ctrl5);
        BucketsDown(Low(r.ctrl5), fuel);
        r := r.(ctrl5 := CoarseDown(r.ctrl5));
        fuel := fuel - 1;
        flag := FlagSet(ok);
        BucketLow(r.ctrl5);
      }
    }

    /** The fine search over bits 4:0. */
    method FineSearch(ok: OkFlag)
      requires FineSettles(ok, HP_FINE, r.ctrl5)
      modifies this`r
      ensures r == old(r).(ctrl5 := r.ctrl5)
      ensures FineFinds(ok, HP_FINE, old(r).ctrl5, r.ctrl5)
    {
      hide FineDown, Low;
      ghost var start := r.ctrl5;
      ghost var n: nat :| FineStops(ok, HP_FINE, start, n);
      ghost var i := 0;
      var flag := FlagSet(ok);
      while !flag
        invariant flag == ok(Low(r.ctrl5))
        invariant r == old(r).(ctrl5 := r.ctrl5)
        invariant 0 <= i <= n && r.ctrl5 == FineAt(HP_FINE, start, i)
        decreases n - i
      {
        r := r.(ctrl5 := FineDown(0x1F, r.ctrl5));
        i := i + 1;
        flag := FlagSet(ok);
      }
    }

    /** The calibration in high-power mode: the result is in CTRL5, the enable bit is clear, CTRL4
        has the level of the fine search, and no other register has changed. */
    method HpAmpCali(ok: OkFlag) returns (val: bv16)
      requires Settles(ok)
      modifies this`r
      ensures val == r.ctrl5 && Finds(ok, r.ctrl5)
      ensures r == old(r).(prot := 0x1990, ctrl3 := Disabled(old(r).ctrl3), ctrl5 := r.ctrl5,
                           ctrl4 := Fine4(0x60, old(r).ctrl4))
    {
      hide Shown, Stored, Coarse4, Fine4, Low, FineStart, CoarseEnd, Filled, Enabled, Disabled,
        FineFinds, FineSettles;
      r := r.(prot := 0x1990);
      AllOnesLow(r.ctrl5);
      ghost var ctrl4 := r.ctrl4;
      DcxoAmpInit(ok, 0x1F, 0xE0, 0x70);
      CoarseSweep(ok);
      ToFineStart(ok, ctrl4);
      FineSearch(ok);
      EnableCleared(old(r).ctrl3);
      r := r.(ctrl3 := Disabled(r.ctrl3));
      val := r.ctrl5;
    }

    /** From the end of the coarse sweep to the beginning of the fine search. */
    method ToFineStart(ok: OkFlag, ghost ctrl4: bv16)
      requires Low(r.ctrl5) == CoarseEnd(ok, 0xFF, 7) && r.ctrl4 == Coarse4(0x70, ctrl4)
      requires ok(Low(r.ctrl5)) || InBottom(Low(r.ctrl5))
      requires r.ctrl5 <= 0xFF || !InBottom(Low(r.ctrl5))
      modifies this`r
      ensures r.ctrl5 == FineStart(ok) as bv16
      ensures r == old(r).(ctrl5 := r.ctrl5, ctrl4 := Fine4(0x60, ctrl4))
    {
      hide Fine4, Coarse4, Low, CoarseEnd, InBottom, TopOfBucket, BucketAbove, Filled;
      LeaveCoarse(ok);
      SetLevel(ok, 0x70, 0x60, ctrl4);
      FilledLow(r.ctrl5);
      r := r.(ctrl5 := Filled(0x1F, r.ctrl5));
    }

    /** AML_CTRL goes from the level of the coarse sweep to the level of the fine search. */
    method SetLevel(ok: OkFlag, ghost coarse: bv16, fine: bv16, ghost ctrl4: bv16)
      requires Level(coarse) && Level(fine) && r.ctrl4 == Coarse4(coarse, ctrl4)
      modifies this`r
      ensures r == old(r).(ctrl4 := Fine4(fine, ctrl4))
    {
      hide Shown, Stored, Coarse4, Fine4, WithLevel, Low, Level;
      FineField(ctrl4, ok(Low(r.ctrl5)), coarse, fine);
      r := r.(ctrl4 := Stored(WithLevel(fine, ReadCtrl4(ok))));
    }

    /** One bucket up, if the sweep stopped above the lowest one. */
    method LeaveCoarse(ok: OkFlag)
      requires ok(Low(r.ctrl5)) || InBottom(Low(r.ctrl5))
      requires r.ctrl5 <= 0xFF || !InBottom(Low(r.ctrl5))
      modifies this`r
      ensures r == old(r).(ctrl5 := r.ctrl5) && r.ctrl5 <= 0xFF
      ensures var e := Low(old(r).ctrl5);
        Low(r.ctrl5) == if ok(e) && !InBottom(e) then BucketAbove(e) else e
    {
      hide Low, BucketUp, Bucket, InBottom, BucketAbove;
      BucketLow(r.ctrl5);
      BucketUpLow(r.ctrl5);
      var flag := FlagSet(ok);
      if flag && Bucket(r.ctrl5) != 0 {
        r := r.(ctrl5 := BucketUp(r.ctrl5));
      }
      ClearAboveBottom(ok);
    }

    /** Clears the upper bits when the lowest bucket was reached with the flag clear. */
    method ClearAboveBottom(ok: OkFlag)
      requires r.ctrl5 <= 0xFF
      modifies this`r
      ensures r == old(r).(ctrl5 := r.ctrl5) && r.ctrl5 <= 0xFF && Low(r.ctrl5) == Low(old(r).ctrl5)
    {
      hide Low, Bucket, InBottom;
      BucketLow(r.ctrl5);
      var flag := FlagSet(ok);
      if !flag && Bucket(r.ctrl5) == 0 {
        BottomLow(r.ctrl5);
        r := r.(ctrl5 := r.ctrl5 & 0x1F);
      }
    }

    // ----- Low-power calibration ------------------------------------------------------------------

    method LpCoarseSweep(ok: OkFlag)
      requires !LpInBottom(Low(r.ctrl5))
      modifies this`r
      ensures r == old(r).(ctrl5 := r.ctrl5)
      ensures r.ctrl5 <= 0xFF || !LpInBottom(Low(r.ctrl5))
      ensures Low(r.ctrl5) == LpCoarseEnd(ok, Low(old(r).ctrl5), 3)
    {
      ghost var fuel: nat := 3;
      ghost var start := Low(r.ctrl5);
      FourBuckets(start);
      hide WithLpBucket, Low, LpInBottom, LpBucket, LpBuckets, LpCoarseNext;
      var flag := FlagSet(ok);
      LpBucketLow(r.ctrl5);
      while !flag && !(!flag && LpBucket(r.ctrl5) == 0)
        invariant flag == ok(Low(r.ctrl5))
        invariant LpBucket(r.ctrl5) == 0 <==> LpInBottom(Low(r.ctrl5))
        invariant r == old(r).(ctrl5 := r.ctrl5)
        invariant LpCoarseEnd(ok, start, 3) == LpCoarseEnd(ok, Low(r.ctrl5), fuel)
        invariant LpBuckets(Low(r.ctrl5), fuel)
        invariant r.ctrl5 <= 0xFF || !LpInBottom(Low(r.ctrl5))
        decreases fuel
      {
        LpCoarseDownLow(r.ctrl5);
        LpBucketsDown(Low(r.ctrl5), fuel);
        var val := LpBucket(r.ctrl5) - 1;
        r := r.(ctrl5 := WithLpBucket(val, r.ctrl5));
        fuel := fuel - 1;
        flag := FlagSet(ok);
        LpBucketLow(r.ctrl5);
      }
    }

    method LpToFineStart(ok: OkFlag, ghost start: bv8, ghost ctrl4: bv16)
      requires Low(r.ctrl5) == LpCoarseEnd(ok, LpTop(start), 3) && r.ctrl4 == Coarse4(0x20, ctrl4)
      requires ok(Low(r.ctrl5)) || LpInBottom(Low(r.ctrl5))
      requires r.ctrl5 <= 0xFF || !LpInBottom(Low(r.ctrl5))
      modifies this`r
      ensures r.ctrl5 == LpFineStart(ok, start) as bv16
      ensures r == old(r).(ctrl5 := r.ctrl5, ctrl4 := Fine4(0x10, ctrl4))
    {
      hide Fine4, Coarse4, Low, LpCoarseEnd, LpInBottom, LpFilled, LpTop, Filled;
      LpLeaveCoarse(ok);
      SetLevel(ok, 0x20, 0x10, ctrl4);
      r := r.(ctrl5 := Filled(0x0F, r.ctrl5));
    }

    /** The constant back-off, and the clearing of the upper bits at the bottom; stated for the
        register as the fill that follows leaves it. */
    method LpLeaveCoarse(ok: OkFlag)
      requires ok(Low(r.ctrl5)) || LpInBottom(Low(r.ctrl5))
      requires r.ctrl5 <= 0xFF || !LpInBottom(Low(r.ctrl5))
      modifies this`r
      ensures r == old(r).(ctrl5 := r.ctrl5)
      ensures var e := Low(old(r).ctrl5);
        var start: bv8 := if ok(e) && !LpInBottom(e) then 0x1F else if ok(e) then LpFilled(e) else 0x0F;
        Filled(0x0F, r.ctrl5) == start as bv16
    {
      hide Low, LpBucket, LpInBottom, LpFilled, Filled, WithLpBucket;
      LpBucketLow(r.ctrl5);
      LpFilledLow(r.ctrl5);
      LpBottomLow(r.ctrl5);
      LpBackOffLow(r.ctrl5);
      LpBackOffBucket(r.ctrl5);
      var flag := FlagSet(ok);
      if flag && LpBucket(r.ctrl5) != 0 {
        var val := 1;
        r := r.(ctrl5 := WithLpBucket(val, r.ctrl5));
      }
      flag := FlagSet(ok);
      if !flag && LpBucket(r.ctrl5) == 0 {
        r := r.(ctrl5 := r.ctrl5 & 0x0F);
      }
    }

    /** The fine search over bits 3:0. */
    method LpFineSearch(ok: OkFlag)
      requires FineSettles(ok, LP_FINE, r.ctrl5)
      modifies this`r
      ensures r == old(r).(ctrl5 := r.ctrl5)
      ensures FineFinds(ok, LP_FINE, old(r).ctrl5, r.ctrl5)
    {
      hide FineDown, Low;
      ghost var start := r.ctrl5;
      ghost var n: nat :| FineStops(ok, LP_FINE, start, n);
      ghost var i := 0;
      var flag := FlagSet(ok);
      while !flag
        invariant flag == ok(Low(r.ctrl5))
        invariant r == old(r).(ctrl5 := r.ctrl5)
        invariant 0 <= i <= n && r.ctrl5 == FineAt(LP_FINE, start, i)
        decreases n - i
      {
        r := r.(ctrl5 := FineDown(0x0F, r.ctrl5));
        i := i + 1;
        flag := FlagSet(ok);
      }
    }

    /** Both sweeps of the low-power calibration. */
    method LpSearch(ok: OkFlag, ghost start: bv8, ghost ctrl4: bv16)
      requires Low(r.ctrl5) == LpTop(start) && r.ctrl4 == Coarse4(0x20, ctrl4)
      requires LpSettles(ok, start)
      modifies this`r
      ensures LpFinds(ok, start, r.ctrl5)
      ensures r == old(r).(ctrl5 := r.ctrl5, ctrl4 := Fine4(0x10, ctrl4))
    {
      hide Coarse4, Fine4, Low, LpFineStart, LpCoarseEnd, LpInBottom, LpTop, FineFinds, FineSettles;
      LpNotInBottom(start);
      LpCoarseSweep(ok);
      LpSweepEnds(ok, LpTop(start));
      LpToFineStart(ok, start, ctrl4);
      LpFineSearch(ok);
    }

    /** The calibration in low-power mode. CTRL10 is zero while it searches and has its old value
        afterwards. */
    method LpAmpCali(ok: OkFlag) returns (val: bv16)
      requires LpSettles(ok, Low(r.ctrl5))
      modifies this`r
      ensures val == r.ctrl5 && LpFinds(ok, Low(old(r).ctrl5), r.ctrl5)
      ensures r == old(r).(prot := 0x1990, ctrl3 := Disabled(old(r).ctrl3), ctrl5 := r.ctrl5,
                           ctrl4 := Fine4(0x10, old(r).ctrl4))
    {
      hide Shown, Stored, Coarse4, Fine4, Low, LpTop, Filled, Enabled, Disabled, LpFinds, LpSettles, Level;
      LevelsUsed();
      r := r.(prot := 0x1990);
      var cbank := r.ctrl10;
      r := r.(ctrl10 := 0);
      LpTopLow(r.ctrl5);
      ghost var start, ctrl4 := Low(r.ctrl5), r.ctrl4;
      DcxoAmpInit(ok, 0x0F, 0x30, 0x20);
      LpSearch(ok, start, ctrl4);
      EnableCleared(old(r).ctrl3);
      r := r.(ctrl3 := Disabled(r.ctrl3));
      r := r.(ctrl10 := cbank);
      val := r.ctrl5;
    }

    // ----- Commands -------------------------------------------------------------------------------

    /** dcx_set_afc_mode: zero is low power, everything else high power. */
    method SetAfcMode(mode: bv16) returns (status: nat)
      modifies this
      ensures Abstract() == AfterMode(old(Abstract()), mode)
      ensures status == if mode == 0 || mode == 1 then 0 else 1
    {
      r := r.(prot := 0x1990);
      if mode == 0 {
        if currentMode == 1 {
          hpCbank := Cbank(r.ctrl10);
          hpAmp := r.ctrl5;
          r := r.(ctrl10 := 0);
          r := r.(ctrl14 := WithLpCal(r.ctrl14));
        }
        currentMode := 0;
      } else {
        if currentMode == 0 {
          lpCbank := r.ctrl10;
          lpAmp := r.ctrl5;
          r := r.(ctrl14 := WithoutLpCal(r.ctrl14));
          r := r.(ctrl10 := hpCbank);
          r := r.(ctrl5 := hpAmp);
        }
        currentMode := 1;
      }
      status := if mode == 0 || mode == 1 then 0 else 1;
    }

    /** dcx_set_afc_cdac: which register takes the value depends on the mode. */
    method SetAfcCdac(cdac: bv16)
      modifies this`r
      ensures Abstract() == AfterCdac(old(Abstract()), cdac)
    {
      r := r.(prot := 0x1990);
      if currentMode == 1 {
        r := r.(ctrl10 := cdac);
      } else {
        r := r.(ctrl11 := cdac);
      }
    }

    /** find_amp_cal_finish, called with the current mode. */
    method AmpCali(ok: OkFlag) returns (val: bv16)
      requires if currentMode != 0 then Settles(ok) else LpSettles(ok, Low(r.ctrl5))
      modifies this`r
      ensures val == r.ctrl5 && Calibrated(old(Abstract()), ok, Abstract())
    {
      hide Low, Disabled, Fine4, Finds, LpFinds;
      if currentMode != 0 {
        val := HpAmpCali(ok);
      } else {
        val := LpAmpCali(ok);
      }
    }
  }

  /** At most n buckets below the one of c. */
  ghost predicate Buckets(c: bv8, n: nat)
    decreases n
  {
    InBottom(c) || (n > 0 && Buckets(c - 0x20, n - 1))
  }

  lemma SevenBuckets()
    ensures Buckets(0xFF, 7)
  {
    assert Buckets(0x1F, 0);
    assert Buckets(0x3F, 1) && Buckets(0x5F, 2) && Buckets(0x7F, 3);
    assert Buckets(0x9F, 4) && Buckets(0xBF, 5) && Buckets(0xDF, 6);
  }

  lemma BucketsDown(c: bv8, n: nat)
    requires Buckets(c, n) && !InBottom(c)
    ensures n > 0 && Buckets(c - 0x20, n - 1)
  {}

  ghost predicate LpBuckets(c: bv8, n: nat)
    decreases n
  {
    LpInBottom(c) || (n > 0 && LpBuckets(LpCoarseNext(c), n - 1))
  }

  lemma FourBuckets(c: bv8)
    ensures LpBuckets(c, 3)
  {
    assert LpInBottom(LpCoarseNext(LpCoarseNext(LpCoarseNext(c)))) || LpInBottom(LpCoarseNext(LpCoarseNext(c)))
        || LpInBottom(LpCoarseNext(c)) || LpInBottom(c);
    hide LpInBottom, LpCoarseNext;
    var d := LpCoarseNext(c);
    var e := LpCoarseNext(d);
    var f := LpCoarseNext(e);
    assert LpBuckets(f, 0) == LpInBottom(f);
    assert LpBuckets(e, 1) == (LpInBottom(e) || LpBuckets(f, 0));
    assert LpBuckets(d, 2) == (LpInBottom(d) || LpBuckets(e, 1));
  }

  lemma LpBucketsDown(c: bv8, n: nat)
    requires LpBuckets(c, n) && !LpInBottom(c)
    ensures n > 0 && LpBuckets(LpCoarseNext(c), n - 1)
  {}

  /** The sweep stops with the flag set or in the lowest bucket. */
  lemma LpSweepEnds(ok: OkFlag, c: bv8)
    ensures var e := LpCoarseEnd(ok, c, 3); ok(e) || LpInBottom(e)
  {
    FourBuckets(c);
    hide LpInBottom, LpCoarseNext;
    LpSweepEndsWithin(ok, c, 3);
  }

  lemma {:induction false} LpSweepEndsWithin(ok: OkFlag, c: bv8, n: nat)
    requires LpBuckets(c, n)
    ensures var e := LpCoarseEnd(ok, c, n); ok(e) || LpInBottom(e)
    decreases n
  {
    hide LpInBottom, LpCoarseNext;
    if !ok(c) && !LpInBottom(c) {
      LpSweepEndsWithin(ok, LpCoarseNext(c), n - 1);
    }
  }

  // ----- Runs of commands -------------------------------------------------------------------------

  datatype Command = SetMode(mode: bv16) | SetCdac(cdac: bv16) | Calibrate(ok: OkFlag)

  /** CBANK_HP. */
  function Cbank(v: bv16): bv16 {
    v & 0xFF
  }

  /** LP_CAL_EN, bit 11 of CTRL14, set. */
  function WithLpCal(v: bv16): bv16 {
    v | 0x800
  }

  /** LP_CAL_EN cleared. */
  function WithoutLpCal(v: bv16): bv16 {
    v & !0x800
  }

  predicate LpCalSet(v: bv16) {
    v & 0x800 != 0
  }

  function AfterMode(s: State, mode: bv16): State {
    var r := s.regs.(prot := 0x1990);
    if mode == 0 then
      if s.mode == 1 then
        s.(regs := r.(ctrl10 := 0, ctrl14 := WithLpCal(r.ctrl14)), mode := 0,
           hpCbank := Cbank(r.ctrl10), hpAmp := r.ctrl5)
      else s.(regs := r, mode := 0)
    else if s.mode == 0 then
      s.(regs := r.(ctrl14 := WithoutLpCal(r.ctrl14), ctrl10 := s.hpCbank, ctrl5 := s.hpAmp), mode := 1,
         lpCbank := r.ctrl10, lpAmp := r.ctrl5)
    else s.(regs := r, mode := 1)
  }

  function AfterCdac(s: State, cdac: bv16): State {
    var r := s.regs.(prot := 0x1990);
    s.(regs := if s.mode == 1 then r.(ctrl10 := cdac) else r.(ctrl11 := cdac))
  }

  /** A calibration may change CTRL5 and the AML_CTRL field of CTRL4, and clears AML_CAL_EN. */
  ghost predicate Calibrated(s: State, ok: OkFlag, s': State) {
    && s' == s.(regs := s.regs.(prot := 0x1990, ctrl3 := Disabled(s.regs.ctrl3), ctrl5 := s'.regs.ctrl5,
                                ctrl4 := Fine4(if s.mode != 0 then 0x60 else 0x10, s.regs.ctrl4)))
    && if s.mode != 0 then Finds(ok, s'.regs.ctrl5) else LpFinds(ok, Low(s.regs.ctrl5), s'.regs.ctrl5)
  }

  ghost predicate Next(s: State, c: Command, s': State) {
    match c
    case SetMode(mode) => s' == AfterMode(s, mode)
    case SetCdac(cdac) => s' == AfterCdac(s, cdac)
    case Calibrate(ok) => Calibrated(s, ok, s')
  }

  ghost predicate Run(states: seq<State>, commands: seq<Command>) {
    && |states| == |commands| + 1
    && forall i :: 0 <= i < |commands| ==> Next(states[i], commands[i], states[i + 1])
  }

  /** LP_CAL_EN is set exactly in low-power mode, CTRL10 is then zero, and the other bits of CTRL14
      are the given ones. */
  predicate Consistent(s: State, others: bv16) {
    && (s.mode == 0 || s.mode == 1)
    && s.regs.ctrl14 == (if s.mode == 0 then WithLpCal(others) else WithoutLpCal(others))
    && (s.mode == 0 ==> s.regs.ctrl10 == 0)
  }

  lemma SetWhenClear(v: bv16)
    ensures WithLpCal(WithoutLpCal(v)) == WithLpCal(v)
  {
    SetAfterClear(v);
  }

  lemma ClearWhenSet(v: bv16)
    ensures WithoutLpCal(WithLpCal(v)) == WithoutLpCal(v)
  {
    ClearAfterSet(v);
  }

  lemma SetAfterClear(v: bv16)
    ensures (v & !0x800) | 0x800 == v | 0x800
  {}

  lemma ClearAfterSet(v: bv16)
    ensures (v | 0x800) & !0x800 == v & !0x800
  {}

  lemma StaysConsistent(s: State, c: Command, s': State, others: bv16)
    requires Consistent(s, others) && Next(s, c, s')
    ensures Consistent(s', others)
  {
    hide WithLpCal, WithoutLpCal, Cbank, Disabled, Fine4, Finds, LpFinds;
    match c
    case SetMode(mode) => ModeStaysConsistent(s, mode, others);
    case SetCdac(cdac) => hide AfterMode;
    case Calibrate(ok) => hide AfterMode, AfterCdac;
  }

  lemma ModeStaysConsistent(s: State, mode: bv16, others: bv16)
    requires Consistent(s, others)
    ensures Consistent(AfterMode(s, mode), others)
  {
    hide WithLpCal, WithoutLpCal, Cbank;
    SetWhenClear(others);
    ClearWhenSet(others);
  }

  /** Every run from high-power mode with LP_CAL_EN clear stays consistent. */
  lemma {:induction false} AlwaysConsistent(states: seq<State>, commands: seq<Command>, i: nat)
    requires Run(states, commands) && i < |states|
    requires states[0].mode == 1 && !LpCalSet(states[0].regs.ctrl14)
    ensures Consistent(states[i], states[0].regs.ctrl14)
    decreases i
  {
    if i == 0 {
      hide LpCalSet, WithLpCal, WithoutLpCal;
      ClearAlready(states[0].regs.ctrl14);
    } else {
      AlwaysConsistent(states, commands, i - 1);
      hide Consistent, Next, LpCalSet;
      assert Next(states[i - 1], commands[i - 1], states[i - 1 + 1]);
      StaysConsistent(states[i - 1], commands[i - 1], states[i], states[0].regs.ctrl14);
    }
  }

  lemma ClearAlready(v: bv16)
    requires !LpCalSet(v)
    ensures WithoutLpCal(v) == v
  {
    AlreadyClear(v);
  }

  lemma AlreadyClear(v: bv16)
    requires v & 0x800 == 0
    ensures v & !0x800 == v
  {}

  /** The flag in the register tells the mode in every reachable state. */
  lemma FlagTellsMode(states: seq<State>, commands: seq<Command>, i: nat)
    requires Run(states, commands) && i < |states|
    requires states[0].mode == 1 && !LpCalSet(states[0].regs.ctrl14)
    ensures states[i].mode == 0 <==> LpCalSet(states[i].regs.ctrl14)
    ensures states[i].mode == 0 ==> states[i].regs.ctrl10 == 0
    ensures WithoutLpCal(states[i].regs.ctrl14) == WithoutLpCal(states[0].regs.ctrl14)
  {
    hide LpCalSet, WithLpCal, WithoutLpCal;
    AlwaysConsistent(states, commands, i);
    FlagSet(states[0].regs.ctrl14);
    FlagClear(states[0].regs.ctrl14);
    ClearWhenSet(states[0].regs.ctrl14);
    ClearTwice(states[0].regs.ctrl14);
  }

  lemma FlagSet(v: bv16)
    ensures LpCalSet(WithLpCal(v))
  {
    assert (v | 0x800) & 0x800 == 0x800;
  }

  lemma FlagClear(v: bv16)
    ensures !LpCalSet(WithoutLpCal(v))
  {
    assert (v & !0x800) & 0x800 == 0;
  }

  lemma ClearTwice(v: bv16)
    ensures WithoutLpCal(WithoutLpCal(v)) == WithoutLpCal(v)
  {
    assert (v & !0x800) & !0x800 == v & !0x800;
  }

  /** What was set up in high-power mode is back on return, whatever was commanded in between:
      repeated mode commands, CDAC values and calibrations in low-power mode. */
  lemma ReturnRestores(states: seq<State>, commands: seq<Command>, i: nat, j: nat)
    requires Run(states, commands) && i < j < |commands|
    requires states[i].mode == 1 && states[j + 1].mode == 1
    requires forall k :: i < k <= j ==> states[k].mode == 0
    ensures states[j + 1].regs.ctrl5 == states[i].regs.ctrl5
    ensures states[j + 1].regs.ctrl10 == states[i].regs.ctrl10 & 0xFF
  {
    Remembered(states, commands, i, j);
    hide WithLpCal, WithoutLpCal, Disabled, Fine4, Finds, LpFinds;
    assert Next(states[j], commands[j], states[j + 1]);
  }

  lemma {:induction false} Remembered(states: seq<State>, commands: seq<Command>, i: nat, j: nat)
    requires Run(states, commands) && i < j <= |commands|
    requires states[i].mode == 1
    requires forall k :: i < k <= j ==> states[k].mode == 0
    ensures states[j].hpAmp == states[i].regs.ctrl5 && states[j].hpCbank == Cbank(states[i].regs.ctrl10)
    decreases j
  {
    hide WithLpCal, WithoutLpCal, Disabled, Fine4, Finds, LpFinds, Cbank;
    assert Next(states[j - 1], commands[j - 1], states[j - 1 + 1]);
    if j > i + 1 {
      Remembered(states, commands, i, j - 1);
    }
  }

  // ----- What becomes of the low-power values -----------------------------------------------------

  lemma CodeAfterMode(s: State, mode: bv16)
    ensures AfterMode(s, mode).regs.ctrl5 == (if mode != 0 && s.mode == 0 then s.hpAmp else s.regs.ctrl5)
    ensures AfterMode(s, mode).mode == (if mode == 0 then 0 else 1)
  {
    hide WithLpCal, WithoutLpCal, Cbank;
  }

  lemma CodeAfterCdac(s: State, cdac: bv16)
    ensures AfterCdac(s, cdac).regs.ctrl5 == s.regs.ctrl5 && AfterCdac(s, cdac).mode == s.mode
  {}

  /** What one command does to CTRL5 when the mode changes, or when it does not and nothing calibrates. */
  lemma CodeAfter(s: State, c: Command, s': State)
    requires Next(s, c, s') && (s.mode == 0 || s.mode == 1)
    ensures s.mode == 0 && s'.mode == 1 ==> s'.regs.ctrl5 == s.hpAmp
    ensures s.mode == 1 && s'.mode == 0 ==> s'.regs.ctrl5 == s.regs.ctrl5
    ensures s.mode == s'.mode && !c.Calibrate? ==> s'.regs.ctrl5 == s.regs.ctrl5
  {
    hide AfterMode, AfterCdac, Disabled, Fine4, Finds, LpFinds;
    match c
    case SetMode(mode) => CodeAfterMode(s, mode);
    case SetCdac(cdac) => CodeAfterCdac(s, cdac);
    case Calibrate(ok) =>
  }

  /** Entering low power leaves CTRL5 as it is. A code left behind in low power at i is therefore back
      on the next entry at j + 1 exactly when high power happens to end with it in CTRL5. */
  lemma LowPowerCodeReturns(states: seq<State>, commands: seq<Command>, i: nat, j: nat)
    requires Run(states, commands) && i < j < |commands|
    requires states[i].mode == 0 && states[j].mode == 1 && states[j + 1].mode == 0
    ensures states[j + 1].regs.ctrl5 == states[j].regs.ctrl5
    ensures states[j + 1].regs.ctrl5 == states[i].regs.ctrl5 <==> states[j].regs.ctrl5 == states[i].regs.ctrl5
  {
    hide Next;
    CodeAfter(states[j], commands[j], states[j + 1]);
  }

  /** Without calibration in between, what low power finds in CTRL5 on the next entry is the code saved
      when high power was left before, not the one that low power left. */
  lemma LowPowerCodeReplaced(states: seq<State>, commands: seq<Command>, i: nat, j: nat)
    requires Run(states, commands) && i < j < |commands|
    requires states[i].mode == 0 && states[j + 1].mode == 0
    requires forall k :: i < k <= j ==> states[k].mode == 1 && (k < j ==> !commands[k].Calibrate?)
    ensures states[j + 1].regs.ctrl5 == states[i].hpAmp
  {
    hide Next;
    assert Next(states[i], commands[i], states[i + 1]) && Next(states[j], commands[j], states[j + 1]);
    CodeAfter(states[i], commands[i], states[i + 1]);
    CodeStays(states, commands, i + 1, j);
    CodeAfter(states[j], commands[j], states[j + 1]);
  }

  lemma {:induction false} CodeStays(states: seq<State>, commands: seq<Command>, i: nat, j: nat)
    requires Run(states, commands) && i <= j < |commands|
    requires forall k :: i <= k <= j ==> states[k].mode == 1 && (k < j ==> !commands[k].Calibrate?)
    ensures states[j].regs.ctrl5 == states[i].regs.ctrl5
    decreases j
  {
    hide Next;
    if i < j {
      CodeStays(states, commands, i, j - 1);
      assert Next(states[j - 1], commands[j - 1], states[j - 1 + 1]);
      CodeAfter(states[j - 1], commands[j - 1], states[j]);
    }
  }

  /** The same but for the saved low-power values. */
  predicate SameButLp(s: State, t: State) {
    s.regs == t.regs && s.mode == t.mode && s.hpCbank == t.hpCbank && s.hpAmp == t.hpAmp
  }

  lemma LpValuesUnusedOnce(s: State, c: Command, s': State, t: State) returns (t': State)
    requires Next(s, c, s') && SameButLp(s, t)
    ensures Next(t, c, t') && SameButLp(s', t')
  {
    hide AfterMode, AfterCdac, SameButLp, Calibrated;
    match c
    case SetMode(mode) =>
      t' := AfterMode(t, mode);
      ModeIgnoresLp(s, mode, t);
    case SetCdac(cdac) =>
      t' := AfterCdac(t, cdac);
      CdacIgnoresLp(s, cdac, t);
    case Calibrate(ok) =>
      t' := t.(regs := s'.regs);
      CalibrationIgnoresLp(s, ok, s', t);
  }

  lemma ModeIgnoresLp(s: State, mode: bv16, t: State)
    requires SameButLp(s, t)
    ensures SameButLp(AfterMode(s, mode), AfterMode(t, mode))
  {
    hide WithLpCal, WithoutLpCal, Cbank;
    var r := s.regs.(prot := 0x1990);
    if mode == 0 && s.mode == 1 {
      var low := r.(ctrl10 := 0, ctrl14 := WithLpCal(r.ctrl14));
      assert AfterMode(s, mode).regs == low && AfterMode(t, mode).regs == low;
    } else if mode != 0 && s.mode == 0 {
      var high := r.(ctrl14 := WithoutLpCal(r.ctrl14), ctrl10 := s.hpCbank, ctrl5 := s.hpAmp);
      assert AfterMode(s, mode).regs == high && AfterMode(t, mode).regs == high;
    } else {
      assert AfterMode(s, mode).regs == r && AfterMode(t, mode).regs == r;
    }
  }

  lemma CdacIgnoresLp(s: State, cdac: bv16, t: State)
    requires SameButLp(s, t)
    ensures SameButLp(AfterCdac(s, cdac), AfterCdac(t, cdac))
  {}

  lemma CalibrationIgnoresLp(s: State, ok: OkFlag, s': State, t: State)
    requires SameButLp(s, t) && Calibrated(s, ok, s')
    ensures var t' := t.(regs := s'.regs); Calibrated(t, ok, t') && SameButLp(s', t')
  {
    hide Disabled, Fine4, Finds, LpFinds, Low;
  }

  /** The saved low-power values are never used: with any others in their place every run goes on in
      the same registers and the same mode. */
  lemma {:induction false} LpValuesUnused(states: seq<State>, commands: seq<Command>, t: State)
    returns (others: seq<State>)
    requires Run(states, commands) && SameButLp(states[0], t)
    ensures Run(others, commands) && others[0] == t
    ensures forall i :: 0 <= i < |states| ==> SameButLp(states[i], others[i])
    decreases |commands|
  {
    hide Next;
    if commands == [] {
      others := [t];
    } else {
      var n := |commands| - 1;
      var before := LpValuesUnused(states[..n + 1], commands[..n], t);
      assert Next(states[n], commands[n], states[n + 1]);
      var next := LpValuesUnusedOnce(states[n], commands[n], states[n + 1], before[n]);
      others := before + [next];
    }
  }
}
