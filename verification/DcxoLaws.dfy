/** The oscillator's registers bit by bit: laws that name no definition but the one they are about. */
module DcxoLaws {
  import opened Dcxo

  // The bits of CTRL3, CTRL4 and CTRL14 that are not the driver's.

  function Others3(v: bv16): bv16 {
    v & 0xFFF7
  }

  function Others4(v: bv16): bv16 {
    v & 0xFF07
  }

  function Others14(v: bv16): bv16 {
    v & 0xF7FF
  }

  /** AML_CAL_EN, bit 3 of CTRL3. */
  function AmlCalEn(v: bv16): bv16 {
    v & 0x8
  }

  /** AML_CTRL, bits 7:4 of CTRL4. */
  function AmlCtrl(v: bv16): bv16 {
    v & 0xF0
  }

  ghost predicate SameOthers(r: Regs, r': Regs) {
    Others3(r'.ctrl3) == Others3(r.ctrl3) && Others4(r'.ctrl4) == Others4(r.ctrl4)
    && Others14(r'.ctrl14) == Others14(r.ctrl14)
  }

  // ----- What a calibration leaves behind ---------------------------------------------------------

  /** AML_CAL_EN is clear after a calibration and AML_CTRL has the level of the fine search; the other
      bits of both registers are as before, but for the read-only bit 3 of CTRL4. No other register
      changes besides CTRL5 and the write protection. */
  lemma CalibrationBits(s: State, ok: OkFlag, s': State)
    requires Calibrated(s, ok, s')
    ensures AmlCalEn(s'.regs.ctrl3) == 0 && AmlCtrl(s'.regs.ctrl4) == if s.mode != 0 then 0x60 else 0x10
    ensures SameOthers(s.regs, s'.regs)
    ensures s'.regs.ctrl10 == s.regs.ctrl10 && s'.regs.ctrl11 == s.regs.ctrl11 && s'.regs.ctrl14 == s.regs.ctrl14
    ensures s'.regs.prot == 0x1990 && s' == s.(regs := s'.regs)
  {
    DisabledBits(s.regs.ctrl3);
    FineBits(s.regs.ctrl4);
    hide Disabled, Fine4, Finds, LpFinds, Low, Others3, Others4, Others14, AmlCalEn, AmlCtrl;
  }

  /** The same in literal bits. */
  lemma Ctrl3InBits(s: State, ok: OkFlag, s': State)
    requires Calibrated(s, ok, s')
    ensures s'.regs.ctrl3 & 0x8 == 0 && s'.regs.ctrl3 & 0xFFF7 == s.regs.ctrl3 & 0xFFF7
  {
    hide Calibrated;
    CalibrationBits(s, ok, s');
    hide Others4, Others14, AmlCtrl;
  }

  lemma Ctrl4InBits(s: State, ok: OkFlag, s': State)
    requires Calibrated(s, ok, s')
    ensures s'.regs.ctrl4 & 0xF0 == if s.mode != 0 then 0x60 else 0x10
    ensures s'.regs.ctrl4 & 0xFF07 == s.regs.ctrl4 & 0xFF07
  {
    hide Calibrated;
    CalibrationBits(s, ok, s');
    hide Others3, Others14, AmlCalEn;
  }

  /** LP_CAL_EN, bit 11 of CTRL14, in literal bits: over every run from high power with the bit clear
      it is set exactly in low power. */
  lemma LpCalEnTellsMode(states: seq<State>, commands: seq<Command>, i: nat)
    requires Run(states, commands) && i < |states|
    requires states[0].mode == 1 && states[0].regs.ctrl14 & 0x800 == 0
    ensures states[i].mode == 0 <==> states[i].regs.ctrl14 & 0x800 != 0
  {
    hide Run, WithLpCal, WithoutLpCal;
    FlagTellsMode(states, commands, i);
  }

  /** The other bits of CTRL14 never change. */
  lemma Ctrl14OthersStay(states: seq<State>, commands: seq<Command>, i: nat)
    requires Run(states, commands) && i < |states| && (states[0].mode == 0 || states[0].mode == 1)
    ensures states[i].regs.ctrl14 & 0xF7FF == states[0].regs.ctrl14 & 0xF7FF
  {
    hide Run;
    OtherBitsStay(states, commands, 0, i);
    hide Others3, Others4;
  }

  lemma DisabledBits(v: bv16)
    ensures AmlCalEn(Disabled(v)) == 0 && Others3(Disabled(v)) == Others3(v)
  {
    EnableClear(v);
    OthersBesideEnable(v);
  }

  lemma EnableClear(v: bv16)
    ensures AmlCalEn(Disabled(v)) == 0
  {}

  lemma OthersBesideEnable(v: bv16)
    ensures Others3(Disabled(v)) == Others3(v)
  {}

  lemma FineBits(v: bv16)
    ensures AmlCtrl(Fine4(0x60, v)) == 0x60 && AmlCtrl(Fine4(0x10, v)) == 0x10
    ensures Others4(Fine4(0x60, v)) == Others4(v) == Others4(Fine4(0x10, v))
  {
    hide Fine4, Others4, AmlCtrl;
    Level60(v);
    Level10(v);
    Others60(v);
    Others10(v);
  }

  lemma Level60(v: bv16)
    ensures AmlCtrl(Fine4(0x60, v)) == 0x60
  {}

  lemma Level10(v: bv16)
    ensures AmlCtrl(Fine4(0x10, v)) == 0x10
  {}

  lemma Others60(v: bv16)
    ensures Others4(Fine4(0x60, v)) == Others4(v)
  {}

  lemma Others10(v: bv16)
    ensures Others4(Fine4(0x10, v)) == Others4(v)
  {}

  /** Before a sweep AML_CAL_EN is set, the searched bits of CTRL5 are all ones and the level of the
      sweep is or-ed into AML_CTRL. */
  lemma InitBits(ctrl3: bv16, ctrl4: bv16, ctrl5: bv16)
    ensures Enabled(ctrl3) == ctrl3 | 0x8
    ensures Coarse4(0x70, ctrl4) == (ctrl4 & 0xFFF7) | 0x70 && Coarse4(0x20, ctrl4) == (ctrl4 & 0xFFF7) | 0x20
    ensures Filled(0xE0, Filled(0x1F, ctrl5)) == ctrl5 | 0xFF && Filled(0x30, Filled(0x0F, ctrl5)) == ctrl5 | 0x3F
  {
    WholeByte(ctrl5);
    SixBits(ctrl5);
    Coarse70(ctrl4);
    Coarse20(ctrl4);
    hide Coarse4, Filled;
  }

  lemma WholeByte(v: bv16)
    ensures Filled(0xE0, Filled(0x1F, v)) == v | 0xFF
  {}

  lemma SixBits(v: bv16)
    ensures Filled(0x30, Filled(0x0F, v)) == v | 0x3F
  {}

  lemma Coarse70(v: bv16)
    ensures Coarse4(0x70, v) == (v & 0xFFF7) | 0x70
  {}

  lemma Coarse20(v: bv16)
    ensures Coarse4(0x20, v) == (v & 0xFFF7) | 0x20
  {}

  // ----- What a mode command does -----------------------------------------------------------------

  /** Commanding the mode that is already there touches nothing but the write protection. */
  lemma RepeatedMode(s: State, mode: bv16, s': State)
    requires Next(s, SetMode(mode), s')
    requires if mode == 0 then s.mode == 0 else s.mode == 1
    ensures s' == s.(regs := s.regs.(prot := 0x1990))
  {
    hide WithLpCal, WithoutLpCal, Cbank;
  }

  /** From high to low power: CTRL10 is cleared and bit 11 of CTRL14 set; the low byte of CTRL10 and all
      of CTRL5 are remembered. */
  lemma EntersLowPower(s: State, s': State)
    requires Next(s, SetMode(0), s') && s.mode == 1
    ensures s'.mode == 0 && s'.hpCbank == s.regs.ctrl10 & 0xFF && s'.hpAmp == s.regs.ctrl5
    ensures s'.regs.ctrl10 == 0 && s'.regs.ctrl14 & 0x800 == 0x800
    ensures Others14(s'.regs.ctrl14) == Others14(s.regs.ctrl14)
    ensures s'.regs == s.regs.(prot := 0x1990, ctrl10 := 0, ctrl14 := s'.regs.ctrl14)
  {
    LpCalBits(s.regs.ctrl14);
    hide WithLpCal, WithoutLpCal;
  }

  /** And back: both are restored and the bit is cleared. */
  lemma EntersHighPower(s: State, mode: bv16, s': State)
    requires Next(s, SetMode(mode), s') && s.mode == 0 && mode != 0
    ensures s'.mode == 1 && s'.lpCbank == s.regs.ctrl10 && s'.lpAmp == s.regs.ctrl5
    ensures s'.hpCbank == s.hpCbank && s'.hpAmp == s.hpAmp
    ensures s'.regs.ctrl14 & 0x800 == 0 && Others14(s'.regs.ctrl14) == Others14(s.regs.ctrl14)
    ensures s'.regs == s.regs.(prot := 0x1990, ctrl10 := s.hpCbank, ctrl5 := s.hpAmp, ctrl14 := s'.regs.ctrl14)
  {
    LpCalBits(s.regs.ctrl14);
    hide WithLpCal, WithoutLpCal, Cbank;
  }

  lemma LpCalBits(v: bv16)
    ensures WithLpCal(v) & 0x800 == 0x800 && Others14(WithLpCal(v)) == Others14(v)
    ensures WithoutLpCal(v) & 0x800 == 0 && Others14(WithoutLpCal(v)) == Others14(v)
  {
    hide WithLpCal, WithoutLpCal, Others14;
    BitSet(v);
    OthersBesideSet(v);
    BitCleared(v);
    OthersBesideCleared(v);
  }

  lemma BitSet(v: bv16)
    ensures WithLpCal(v) & 0x800 == 0x800
  {}

  lemma OthersBesideSet(v: bv16)
    ensures Others14(WithLpCal(v)) == Others14(v)
  {}

  lemma BitCleared(v: bv16)
    ensures WithoutLpCal(v) & 0x800 == 0
  {}

  lemma OthersBesideCleared(v: bv16)
    ensures Others14(WithoutLpCal(v)) == Others14(v)
  {}

  // ----- What holds over every run ----------------------------------------------------------------

  /** One command: the mode stays 0 or 1, only the named bits of CTRL3, CTRL4 and CTRL14 change. */
  lemma OneCommand(s: State, c: Command, s': State)
    requires Next(s, c, s') && (s.mode == 0 || s.mode == 1)
    ensures s'.mode == 0 || s'.mode == 1
    ensures c.SetMode? ==> (s'.mode == 0 <==> c.mode == 0)
    ensures !c.SetMode? ==> s'.mode == s.mode
    ensures s'.regs.prot == 0x1990 && SameOthers(s.regs, s'.regs)
    ensures !c.Calibrate? ==> s'.regs.ctrl3 == s.regs.ctrl3 && s'.regs.ctrl4 == s.regs.ctrl4
    ensures c.Calibrate? ==>
      AmlCalEn(s'.regs.ctrl3) == 0 && AmlCtrl(s'.regs.ctrl4) == if s.mode == 1 then 0x60 else 0x10
  {
    hide Calibrated, AfterMode, Others3, Others4, Others14, AmlCalEn, AmlCtrl;
    match c
    case SetMode(mode) =>
      hide AfterCdac;
      OneMode(s, mode, s');
    case SetCdac(cdac) =>
    case Calibrate(ok) =>
      hide AfterCdac;
      CalibrationBits(s, ok, s');
  }

  lemma OneMode(s: State, mode: bv16, s': State)
    requires Next(s, SetMode(mode), s') && (s.mode == 0 || s.mode == 1)
    ensures s'.mode == (if mode == 0 then 0 else 1) && s'.regs.prot == 0x1990
    ensures s'.regs.ctrl3 == s.regs.ctrl3 && s'.regs.ctrl4 == s.regs.ctrl4 && s'.regs.ctrl11 == s.regs.ctrl11
    ensures SameOthers(s.regs, s'.regs)
    ensures s'.mode == s.mode ==> s'.regs.ctrl10 == s.regs.ctrl10
  {
    hide Next, Others3, Others4, Others14;
    if (mode == 0) == (s.mode == 0) {
      RepeatedMode(s, mode, s');
    } else if mode == 0 {
      EntersLowPower(s, s');
    } else {
      EntersHighPower(s, mode, s');
    }
  }

  /** Whatever is commanded, the bits of CTRL3, CTRL4 and CTRL14 that are not the driver's keep their values. */
  lemma {:induction false} OtherBitsStay(states: seq<State>, commands: seq<Command>, i: nat, j: nat)
    requires Run(states, commands) && i <= j < |states| && (states[0].mode == 0 || states[0].mode == 1)
    ensures states[j].mode == 0 || states[j].mode == 1
    ensures SameOthers(states[i].regs, states[j].regs)
    decreases j
  {
    hide Next, Others3, Others4, Others14;
    if j > 0 {
      OtherBitsStay(states, commands, if i < j then i else j - 1, j - 1);
      assert Next(states[j - 1], commands[j - 1], states[j - 1 + 1]);
      OneCommand(states[j - 1], commands[j - 1], states[j]);
    }
  }

  /** After a calibration the enable bit stays clear and the level stays as it is until the next one,
      through every mode and CDAC command. */
  lemma {:induction false} LevelStays(states: seq<State>, commands: seq<Command>, i: nat, j: nat)
    requires Run(states, commands) && i < j < |states| && (states[0].mode == 0 || states[0].mode == 1)
    requires commands[i].Calibrate? && forall k :: i < k < j ==> !commands[k].Calibrate?
    ensures AmlCalEn(states[j].regs.ctrl3) == 0
    ensures AmlCtrl(states[j].regs.ctrl4) == if states[i].mode == 1 then 0x60 else 0x10
    decreases j
  {
    hide Next;
    assert Next(states[j - 1], commands[j - 1], states[j - 1 + 1]);
    OtherBitsStay(states, commands, 0, j - 1);
    OneCommand(states[j - 1], commands[j - 1], states[j]);
    if i < j - 1 {
      LevelStays(states, commands, i, j - 1);
    }
  }

  // ----- CDAC values ------------------------------------------------------------------------------

  /** What one command does to the CDAC registers. */
  lemma CdacAfter(s: State, c: Command, s': State)
    requires Next(s, c, s') && (s.mode == 0 || s.mode == 1)
    ensures s'.regs.ctrl11 == if c.SetCdac? && s.mode == 0 then c.cdac else s.regs.ctrl11
    ensures s.mode == s'.mode ==>
      s'.regs.ctrl10 == if c.SetCdac? && s.mode == 1 then c.cdac else s.regs.ctrl10
    ensures s'.mode == 0 || s'.mode == 1
  {
    OneCommand(s, c, s');
    hide Calibrated, AfterMode;
    match c
    case SetMode(mode) =>
      hide AfterCdac;
      OneMode(s, mode, s');
    case SetCdac(cdac) =>
    case Calibrate(ok) =>
      hide AfterCdac;
      CalibrationBits(s, ok, s');
  }

  /** A value set in high power is in CTRL10 at every later state until the next value or until the mode
      changes, through repeated mode commands and calibrations; CTRL11 is not touched. */
  lemma {:induction false} HighPowerCdacHolds(states: seq<State>, commands: seq<Command>, i: nat, j: nat, v: bv16)
    requires Run(states, commands) && i < j < |states|
    requires commands[i] == SetCdac(v) && states[i].mode == 1
    requires forall k :: i < k < j ==> !commands[k].SetCdac?
    requires forall k :: i < k <= j ==> states[k].mode == 1
    ensures states[j].regs.ctrl10 == v && states[j].regs.ctrl11 == states[i].regs.ctrl11
    decreases j
  {
    hide Next;
    assert Next(states[j - 1], commands[j - 1], states[j - 1 + 1]);
    CdacAfter(states[j - 1], commands[j - 1], states[j]);
    if i < j - 1 {
      HighPowerCdacHolds(states, commands, i, j - 1, v);
    }
  }

  /** A value set in low power is in CTRL11 from then on, across calibrations, mode changes and values
      set in high power, until the next one set in low power; CTRL10 is not touched by it. */
  lemma {:induction false} LowPowerCdacHolds(states: seq<State>, commands: seq<Command>, i: nat, j: nat, v: bv16)
    requires Run(states, commands) && i < j < |states|
    requires commands[i] == SetCdac(v) && states[i].mode == 0
    requires forall k :: i < k < j ==> commands[k].SetCdac? ==> states[k].mode == 1
    ensures states[j].regs.ctrl11 == v && states[i + 1].regs.ctrl10 == states[i].regs.ctrl10
    ensures states[j].mode == 0 || states[j].mode == 1
    decreases j
  {
    hide Next;
    assert Next(states[j - 1], commands[j - 1], states[j - 1 + 1]);
    if i < j - 1 {
      LowPowerCdacHolds(states, commands, i, j - 1, v);
    } else {
      OneCommand(states[i], commands[i], states[i + 1]);
    }
    CdacAfter(states[j - 1], commands[j - 1], states[j]);
  }

  /** The value set in high power before an excursion into low power is back afterwards, cut to a byte. */
  lemma CdacComesBack(states: seq<State>, commands: seq<Command>, i: nat, j: nat, v: bv16)
    requires Run(states, commands) && i + 1 < j < |commands|
    requires commands[i] == SetCdac(v) && states[i].mode == 1 && states[i + 1].mode == 1
    requires forall k :: i + 1 < k <= j ==> states[k].mode == 0
    requires states[j + 1].mode == 1
    ensures states[j + 1].regs.ctrl10 == v & 0xFF
  {
    HighPowerCdacHolds(states, commands, i, i + 1, v);
    ReturnRestores(states, commands, i + 1, j);
  }
}
