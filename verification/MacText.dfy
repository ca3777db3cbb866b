/** modules/libmiscdata/bt_wifi_mac.c: MAC addresses as text and back, and the packing of IMEI digits. */
module MacText {
  import opened Bytes
  import opened AtTok

  type Mac = m: seq<Byte> | |m| == 6 witness [0, 0, 0, 0, 0, 0]

  // ----- Printing ---------------------------------------------------------------------------------

  const HEX_DIGITS: string := "0123456789abcdef"

  /** %02x. */
  function Hex2(b: Byte): (s: string)
    ensures |s| == 2
  {
    [HEX_DIGITS[(b as int) / 16], HEX_DIGITS[(b as int) % 16]]
  }

  /** %02x fields with colons between them. */
  function PrintFields(m: seq<Byte>): (s: string)
    requires m != []
    ensures |s| == 3 * |m| - 1
  {
    if |m| == 1 then Hex2(m[0]) else Hex2(m[0]) + ":" + PrintFields(m[1..])
  }

  /** %02x:%02x:%02x:%02x:%02x:%02x. */
  function PrintMac(m: Mac): (s: string)
    ensures |s| == 17
  {
    PrintFields(m)
  }

  function Reversed(m: Mac): Mac {
    [m[5], m[4], m[3], m[2], m[1], m[0]]
  }

  // ----- Parsing ----------------------------------------------------------------------------------

  /** The value of a hexadecimal digit; 16 for any other character. */
  function HexValue(c: char): (v: nat)
    ensures v <= 16
  {
    if '0' <= c <= '9' then c as int - '0' as int
    else if 'a' <= c <= 'f' then c as int - 'a' as int + 10
    else if 'A' <= c <= 'F' then c as int - 'A' as int + 10
    else 16
  }

  /** The digits s begins with, read behind the digits whose value is given. */
  function HexNumber(s: string, value: nat): nat {
    if s == "" || HexValue(s[0]) == 16 then value else HexNumber(s[1..], 16 * value + HexValue(s[0]))
  }

  /** What strtol skips before the digits in base 16. */
  function SkipPrefix(s: string): string {
    if |s| >= 3 && s[0] == '0' && (s[1] == 'x' || s[1] == 'X') && HexValue(s[2]) < 16 then s[2..] else s
  }

  /** strtol in base 16, saturated to a 32-bit long. */
  function Strtol16(s: string): int {
    var t := SkipWs(s);
    var body := if t != "" && (t[0] == '-' || t[0] == '+') then t[1..] else t;
    var v: int := HexNumber(SkipPrefix(body), 0);
    if t != "" && t[0] == '-' then (if v > 0x8000_0000 then -0x8000_0000 else -v)
    else (if v > 0x7FFF_FFFF then 0x7FFF_FFFF else v)
  }

  /** An int stored in an unsigned char. */
  function Truncated(v: int): Byte {
    ByteOf(v % 256)
  }

  function Colons(s: string): nat {
    if s == "" then 0 else (if s[0] == ':' then 1 else 0) + Colons(s[1..])
  }

  /** strchr(s, ':'), or the length if there is none. */
  function ColonAt(s: string): (i: nat)
    ensures i <= |s|
  {
    IndexOf(s, ':')
  }

  /** The byte for a field that a colon ends: only its first two characters are read. */
  function FieldByte(s: string): Byte {
    Truncated(Strtol16(s[..Min(2, |s|)]))
  }

  /** The byte for the last field: all of it is read. */
  function LastByte(s: string): Byte {
    Truncated(Strtol16(s))
  }

  /** The bytes of the fields between the colons. */
  function HexFields(s: string): (bytes: seq<Byte>)
    decreases |s|
  {
    var i := ColonAt(s);
    if i < |s| then [FieldByte(s)] + HexFields(s[i + 1..]) else [LastByte(s)]
  }

  lemma {:induction false} FieldCount(s: string)
    ensures |HexFields(s)| == Colons(s) + 1 <= |s| + 1
    decreases |s|
  {
    hide FieldByte, LastByte, ColonAt;
    var i := ColonAt(s);
    ColonsFrom(s, i);
    if i < |s| {
      FieldCount(s[i + 1..]);
    }
  }

  lemma {:induction false} ColonsFrom(s: string, i: nat)
    requires i == ColonAt(s)
    ensures Colons(s) == if i < |s| then 1 + Colons(s[i + 1..]) else 0
    decreases |s|
  {
    if s != "" && s[0] != ':' {
      ColonsFrom(s[1..], i - 1);
      assert i < |s| ==> s[1..][i..] == s[i + 1..];
    }
  }

  /** eng_diag_char2hex. */
  method Char2Hex(hexdata: array<Byte>, at: nat, text: string) returns (index: nat)
    requires at + Colons(text) + 1 <= hexdata.Length
    modifies hexdata
    ensures index == |HexFields(text)| && at + index <= hexdata.Length
    ensures hexdata[..] == Patch(old(hexdata[..]), at, HexFields(text))
  {
    hide FieldByte, LastByte, Over, Colons, ColonAt, HexFields, Patch;
    FieldCount(text);
    var chardata := text;
    index := 0;
    ghost var before, done := hexdata[..], [];
    OverNothing(before, at);
    assert HexFields(text) == done + HexFields(chardata);
    var ptr := ColonAt(chardata);
    while ptr < |chardata|
      invariant ptr == ColonAt(chardata)
      invariant |done| == index && HexFields(text) == done + HexFields(chardata)
      invariant index + Colons(chardata) == Colons(text)
      invariant hexdata[..] == Over(before, at, done)
      decreases |chardata|
    {
      ColonsFrom(chardata, ptr);
      FieldsFrom(chardata, done);
      OverMore(before, at, done, FieldByte(chardata));
      hexdata[at + index] := FieldByte(chardata);
      done := done + [FieldByte(chardata)];
      index := index + 1;
      chardata := chardata[ptr + 1..];
      ptr := ColonAt(chardata);
    }
    FieldsFrom(chardata, done);
    OverMore(before, at, done, LastByte(chardata));
    hexdata[at + index] := LastByte(chardata);
    done := done + [LastByte(chardata)];
    index := index + 1;
    OverIsPatch(before, at, done);
  }

  /** One field taken off. */
  lemma FieldsFrom(s: string, done: seq<Byte>)
    ensures var i := ColonAt(s);
      done + HexFields(s) ==
      if i < |s| then (done + [FieldByte(s)]) + HexFields(s[i + 1..]) else done + [LastByte(s)]
  {
    hide FieldByte, LastByte, ColonAt;
    var i := ColonAt(s);
    if i < |s| {
      assert HexFields(s) == [FieldByte(s)] + HexFields(s[i + 1..]);
      hide HexFields;
      Regroup(done, [FieldByte(s)], HexFields(s[i + 1..]));
    }
  }

  /** The bytes of s from a position on overwritten, as far as done. */
  ghost function Over(s: seq<Byte>, at: nat, done: seq<Byte>): seq<Byte> {
    if at + |done| <= |s| then Patch(s, at, done) else s
  }

  lemma OverIsPatch(s: seq<Byte>, at: nat, done: seq<Byte>)
    requires at + |done| <= |s|
    ensures Over(s, at, done) == Patch(s, at, done)
  {}

  lemma OverNothing(s: seq<Byte>, at: nat)
    requires at <= |s|
    ensures Over(s, at, []) == s
  {}

  lemma OverMore(s: seq<Byte>, at: nat, done: seq<Byte>, b: Byte)
    requires at + |done| < |s|
    ensures |Over(s, at, done)| == |s|
    ensures Over(s, at, done + [b]) == Over(s, at, done)[at + |done| := b]
  {}

  // ----- Printing is undone -----------------------------------------------------------------------

  lemma DigitValue(n: nat)
    requires n < 16
    ensures HexValue(HEX_DIGITS[n]) == n && HEX_DIGITS[n] != ':' && !IsSpace(HEX_DIGITS[n])
    ensures HEX_DIGITS[n] != '-' && HEX_DIGITS[n] != '+' && HEX_DIGITS[n] != '\0'
  {}

  lemma SameByte(a: Byte, b: Byte)
    requires a as int == b as int
    ensures a == b
  {
    assert (a as int) as bv8 == a && (b as int) as bv8 == b;
  }

  lemma TwoDigits(h: nat, l: nat)
    requires h < 16 && l < 16
    ensures Strtol16([HEX_DIGITS[h], HEX_DIGITS[l]]) == 16 * h + l
  {
    DigitValue(h);
    DigitValue(l);
    var s := [HEX_DIGITS[h], HEX_DIGITS[l]];
    assert SkipWs(s) == s && SkipPrefix(s) == s;
    hide HexValue, IsSpace;
    assert s[1..] == [HEX_DIGITS[l]] && s[1..][1..] == "";
    assert HexNumber(s[1..], h) == HexNumber("", 16 * h + l) == 16 * h + l;
    assert HexNumber(s, 0) == HexNumber(s[1..], h);
  }

  lemma TruncatedSmall(n: nat)
    requires n < 256
    ensures Truncated(n) == ByteOf(n)
  {
    hide ByteOf;
  }

  lemma ByteOfSelf(b: Byte)
    ensures Truncated(b as int) == b
  {
    TruncatedSmall(b as int);
    ByteOfValue(b as int);
    hide *;
    SameByte(ByteOf(b as int), b);
  }

  /** Two printed digits are read back. */
  lemma HexComesBack(b: Byte)
    ensures Truncated(Strtol16(Hex2(b))) == b
  {
    hide Truncated, Strtol16, IndexOf, SkipWs;
    TwoDigits((b as int) / 16, (b as int) % 16);
    ByteOfSelf(b);
  }

  lemma FirstField(b: Byte, rest: string)
    ensures HexFields(Hex2(b) + ":" + rest) == [b] + HexFields(rest)
  {
    var s := Hex2(b) + ":" + rest;
    NoColon(b);
    HexComesBack(b);
    hide Hex2, Strtol16, Truncated;
    assert s[0] == Hex2(b)[0] && s[1] == Hex2(b)[1];
    assert s[2] == ':';
    assert s[..2] == Hex2(b) && s[3..] == rest;
  }

  lemma NoColon(b: Byte)
    ensures Hex2(b)[0] != ':' && Hex2(b)[1] != ':' && Hex2(b)[0] != '\0' && Hex2(b)[1] != '\0'
  {
    DigitValue((b as int) / 16);
    DigitValue((b as int) % 16);
  }

  lemma LastField(b: Byte)
    ensures HexFields(Hex2(b)) == [b]
  {
    NoColon(b);
    HexComesBack(b);
    hide Hex2, Strtol16, Truncated;
    assert IndexOf(Hex2(b), ':') == 2;
  }

  lemma {:induction false} FieldsComeBack(m: seq<Byte>)
    requires m != []
    ensures HexFields(PrintFields(m)) == m
    decreases |m|
  {
    hide Hex2, HexFields;
    if |m| == 1 {
      LastField(m[0]);
    } else {
      FieldsComeBack(m[1..]);
      FirstField(m[0], PrintFields(m[1..]));
    }
  }

  /** Reading a printed address gives the address. */
  lemma MacComesBack(m: Mac)
    ensures HexFields(PrintMac(m)) == m
  {
    FieldsComeBack(m);
  }

  predicate Text(s: string) {
    forall k :: 0 <= k < |s| ==> s[k] != '\0'
  }

  lemma {:induction false} PrintedIsText(m: seq<Byte>)
    requires m != []
    ensures Text(PrintFields(m))
    decreases |m|
  {
    NoColon(m[0]);
    hide Hex2;
    if |m| > 1 {
      PrintedIsText(m[1..]);
    }
  }

  // ----- IMEI -------------------------------------------------------------------------------------

  const MAX_IMEI_LENGTH: nat := 8
  const MAX_IMEI_STR_LENGTH: nat := 15

  /** MAKE1BYTE2BYTES. */
  function Joined(high: Byte, low: Byte): Byte {
    (high << 4) | low
  }

  function Digit(c: Byte): Byte {
    c - 0x30
  }

  function HighDigit(b: Byte): Byte {
    ((b & 0xF0) >> 4) + 0x30
  }

  function LowDigit(b: Byte): Byte {
    (b & 0x0F) + 0x30
  }

  method ImeiConvStr2NV(szImei: array<Byte>, nvImei: array<Byte>)
    requires szImei.Length == MAX_IMEI_STR_LENGTH && nvImei.Length == MAX_IMEI_LENGTH && szImei != nvImei
    modifies nvImei
    ensures forall i :: 0 <= i < MAX_IMEI_LENGTH ==> nvImei[i] == PackedAt(szImei[..], i)
  {
    hide Joined, Digit;
    nvImei[0] := Joined(Digit(szImei[0]), 0x0A);
    for i := 1 to MAX_IMEI_LENGTH
      invariant forall k :: 0 <= k < i ==> nvImei[k] == PackedAt(szImei[..], k)
    {
      nvImei[i] := Joined(Digit(szImei[2 * i]), Digit(szImei[2 * i - 1]));
    }
  }

  method ImeiConvNV2Str(nvImei: array<Byte>, szImei: array<Byte>)
    requires szImei.Length == MAX_IMEI_STR_LENGTH && nvImei.Length == MAX_IMEI_LENGTH && szImei != nvImei
    modifies szImei
    ensures forall k :: 0 <= k < MAX_IMEI_STR_LENGTH ==> szImei[k] == UnpackedAt(nvImei[..], k)
  {
    hide HighDigit, LowDigit;
    for i := 0 to MAX_IMEI_LENGTH - 1
      invariant forall k :: 0 <= k < 2 * i ==> szImei[k] == UnpackedAt(nvImei[..], k)
    {
      szImei[2 * i] := HighDigit(nvImei[i]);
      szImei[2 * i + 1] := LowDigit(nvImei[i + 1]);
    }
    szImei[14] := HighDigit(nvImei[7]);
  }

  /** Byte i of the stored number: digit 2i above digit 2i - 1; the first byte has 0x0A below. */
  function PackedAt(sz: seq<Byte>, i: nat): Byte
    requires |sz| == MAX_IMEI_STR_LENGTH && i < MAX_IMEI_LENGTH
  {
    Joined(Digit(sz[2 * i]), if i == 0 then 0x0A else Digit(sz[2 * i - 1]))
  }

  /** Digit k of the text. */
  function UnpackedAt(nv: seq<Byte>, k: nat): Byte
    requires |nv| == MAX_IMEI_LENGTH && k < MAX_IMEI_STR_LENGTH
  {
    if k % 2 == 0 then HighDigit(nv[k / 2]) else LowDigit(nv[(k + 1) / 2])
  }

  function Packed(sz: seq<Byte>): (nv: seq<Byte>)
    requires |sz| == MAX_IMEI_STR_LENGTH
    ensures |nv| == MAX_IMEI_LENGTH && forall i :: 0 <= i < MAX_IMEI_LENGTH ==> nv[i] == PackedAt(sz, i)
  {
    seq(MAX_IMEI_LENGTH, i requires 0 <= i < MAX_IMEI_LENGTH => PackedAt(sz, i))
  }

  function Unpacked(nv: seq<Byte>): (sz: seq<Byte>)
    requires |nv| == MAX_IMEI_LENGTH
    ensures |sz| == MAX_IMEI_STR_LENGTH && forall k :: 0 <= k < MAX_IMEI_STR_LENGTH ==> sz[k] == UnpackedAt(nv, k)
  {
    seq(MAX_IMEI_STR_LENGTH, k requires 0 <= k < MAX_IMEI_STR_LENGTH => UnpackedAt(nv, k))
  }

  /** A character that survives: the digits and the six characters behind them. */
  predicate Fits(c: Byte) {
    0x30 <= c <= 0x3F
  }

  lemma LowComesBack(h: Byte, c: Byte)
    ensures LowDigit(Joined(h, Digit(c))) == c <==> Fits(c)
  {}

  lemma HighComesBack(c: Byte, l: Byte)
    requires l <= 0x0F
    ensures HighDigit(Joined(Digit(c), l)) == c <==> Fits(c)
  {}

  /** Packing and unpacking gives the text back exactly when every character fits; every text of 15
      decimal digits does. */
  lemma ImeiTextComesBack(sz: seq<Byte>)
    requires |sz| == MAX_IMEI_STR_LENGTH
    ensures Unpacked(Packed(sz)) == sz <==> forall k :: 0 <= k < |sz| ==> Fits(sz[k])
  {
    if forall k :: 0 <= k < |sz| ==> Fits(sz[k]) {
      FittingTextComesBack(sz);
    }
    if Unpacked(Packed(sz)) == sz {
      ReturningTextFits(sz);
    }
  }

  lemma FittingTextComesBack(sz: seq<Byte>)
    requires |sz| == MAX_IMEI_STR_LENGTH && forall k :: 0 <= k < |sz| ==> Fits(sz[k])
    ensures Unpacked(Packed(sz)) == sz
  {
    hide Fits, Packed, UnpackedAt;
    forall k | 0 <= k < |sz|
      ensures Unpacked(Packed(sz))[k] == sz[k]
    {
      assert Fits(sz[k]);
      if k > 0 {
        assert Fits(sz[k - 1]);
      }
      CharacterComesBack(sz, k);
    }
  }

  lemma ReturningTextFits(sz: seq<Byte>)
    requires |sz| == MAX_IMEI_STR_LENGTH && Unpacked(Packed(sz)) == sz
    ensures forall k :: 0 <= k < |sz| ==> Fits(sz[k])
  {
    hide Fits, Packed, UnpackedAt;
    forall k | 0 <= k < |sz|
      ensures Fits(sz[k])
    {
      assert Unpacked(Packed(sz))[k] == UnpackedAt(Packed(sz), k);
      if k > 0 && k % 2 == 0 {
        assert Unpacked(Packed(sz))[k - 1] == UnpackedAt(Packed(sz), k - 1);
        CharacterComesBack(sz, k - 1);
      }
      CharacterComesBack(sz, k);
    }
  }

  lemma CharacterComesBack(sz: seq<Byte>, k: nat)
    requires |sz| == MAX_IMEI_STR_LENGTH && k < |sz|
    requires k % 2 == 0 && k > 0 ==> Fits(sz[k - 1])
    ensures UnpackedAt(Packed(sz), k) == sz[k] <==> Fits(sz[k])
  {
    if k % 2 == 1 {
      var high := Digit(sz[k + 1]);
      LowComesBack(high, sz[k]);
      hide Fits, Digit, Joined, LowDigit, HighDigit;
      assert Packed(sz)[(k + 1) / 2] == Joined(high, Digit(sz[k]));
    } else if k == 0 {
      HighComesBack(sz[0], 0x0A);
    } else {
      DigitSmall(sz[k - 1]);
      HighComesBack(sz[k], Digit(sz[k - 1]));
      hide Fits, Digit, Joined, LowDigit, HighDigit;
      assert Packed(sz)[k / 2] == Joined(Digit(sz[k]), Digit(sz[k - 1]));
    }
  }

  lemma DigitSmall(c: Byte)
    requires Fits(c)
    ensures Digit(c) <= 0x0F
  {}

  /** Unpacking and packing gives the bytes back exactly when the filler nibble is 0x0A. */
  lemma ImeiBytesComeBack(nv: seq<Byte>)
    requires |nv| == MAX_IMEI_LENGTH
    ensures Packed(Unpacked(nv)) == nv <==> nv[0] & 0x0F == 0x0A
  {
    var sz := Unpacked(nv);
    forall i | 0 < i < MAX_IMEI_LENGTH
      ensures Packed(sz)[i] == nv[i]
    {
      assert sz[2 * i] == HighDigit(nv[i]) && sz[2 * i - 1] == LowDigit(nv[i]);
      NibblesComeBack(nv[i]);
    }
    FillerComesBack(nv[0]);
    hide Digit, Joined, LowDigit, HighDigit;
    assert sz[0] == HighDigit(nv[0]);
  }

  lemma NibblesComeBack(b: Byte)
    ensures Joined(Digit(HighDigit(b)), Digit(LowDigit(b))) == b
  {}

  lemma FillerComesBack(b: Byte)
    ensures Joined(Digit(HighDigit(b)), 0x0A) == b <==> b & 0x0F == 0x0A
  {}
}
