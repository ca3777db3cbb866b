/** Addresses, their files and their diag command in literal terms: laws that name no definition but
    the one they are about. */
module MacLaws {
  import opened Options
  import opened Bytes
  import opened Framing
  import C = Crc16
  import A = AtTok
  import X = MacText
  import F = MacFiles
  import B = BtWifi

  // ----- Printed addresses ------------------------------------------------------------------------

  /** A nibble is printed as a digit or a lower-case letter. */
  lemma HexCharacters(b: Byte)
    ensures var hi, lo := (b as int) / 16, (b as int) % 16;
      && X.Hex2(b)[0] as int == (if hi < 10 then 48 + hi else 87 + hi)
      && X.Hex2(b)[1] as int == (if lo < 10 then 48 + lo else 87 + lo)
  {
    HexCharacter((b as int) / 16);
    HexCharacter((b as int) % 16);
  }

  lemma HexCharacter(n: nat)
    requires n < 16
    ensures X.HEX_DIGITS[n] as int == if n < 10 then 48 + n else 87 + n
  {}

  /** Six pairs of digits with colons between them, in the order of the bytes. */
  lemma PrintedAddress(m: X.Mac)
    ensures X.PrintMac(m) == X.Hex2(m[0]) + (":" + (X.Hex2(m[1]) + (":" + (X.Hex2(m[2]) + (":" + (X.Hex2(m[3])
      + (":" + (X.Hex2(m[4]) + (":" + X.Hex2(m[5]))))))))))
  {
    hide X.Hex2;
    PrintedStep(m);
    PrintedStep(m[1..]);
    PrintedStep(m[2..]);
    PrintedStep(m[3..]);
    PrintedStep(m[4..]);
    hide X.PrintFields;
    assert m[1..][1..] == m[2..] && m[2..][1..] == m[3..] && m[3..][1..] == m[4..] && m[4..][1..] == m[5..];
    assert X.PrintFields(m[5..]) == X.Hex2(m[5]) by {
      PrintedLast(m[5..]);
    }
  }

  lemma PrintedStep(m: seq<Byte>)
    requires |m| > 1
    ensures X.PrintFields(m) == X.Hex2(m[0]) + (":" + X.PrintFields(m[1..]))
  {
    hide X.Hex2;
  }

  lemma PrintedLast(m: seq<Byte>)
    requires |m| == 1
    ensures X.PrintFields(m) == X.Hex2(m[0])
  {}

  // ----- Parsed addresses -------------------------------------------------------------------------

  ghost predicate IsHex(c: char) {
    '0' <= c <= '9' || 'a' <= c <= 'f' || 'A' <= c <= 'F'
  }

  ghost predicate AllHex(s: string) {
    forall k :: 0 <= k < |s| ==> IsHex(s[k])
  }

  /** Both cases are digits; nothing else is. */
  lemma HexDigits(c: char)
    ensures '0' <= c <= '9' ==> X.HexValue(c) == c as int - 48
    ensures 'a' <= c <= 'f' ==> X.HexValue(c) == c as int - 87
    ensures 'A' <= c <= 'F' ==> X.HexValue(c) == c as int - 55
    ensures X.HexValue(c) < 16 <==> IsHex(c)
  {}

  /** One digit more is sixteen times as much. */
  lemma {:induction false} HexDigitBehind(s: string, c: char, v: nat)
    requires AllHex(s) && IsHex(c)
    ensures X.HexNumber(s + [c], v) == 16 * X.HexNumber(s, v) + X.HexValue(c)
    decreases |s|
  {
    HexDigits(c);
    hide X.HexValue;
    if s == "" {
      assert s + [c] == [c] && [c][1..] == "";
    } else {
      HexDigits(s[0]);
      assert (s + [c])[1..] == s[1..] + [c];
      HexDigitBehind(s[1..], c, 16 * v + X.HexValue(s[0]));
    }
  }

  /** What is not a digit ends the number. */
  lemma {:induction false} HexEnds(s: string, c: char, rest: string, v: nat)
    requires AllHex(s) && !IsHex(c)
    ensures X.HexNumber(s + ([c] + rest), v) == X.HexNumber(s, v)
    decreases |s|
  {
    HexDigits(c);
    hide X.HexValue;
    if s != "" {
      HexDigits(s[0]);
      assert (s + ([c] + rest))[1..] == s[1..] + ([c] + rest);
      HexEnds(s[1..], c, rest, 16 * v + X.HexValue(s[0]));
    }
  }

  /** A number without sign and prefix, saturated at 2147483647. */
  lemma PlainNumber(s: string)
    requires AllHex(s)
    ensures var v: int := X.HexNumber(s, 0);
      && X.Strtol16(s) == (if v > 2147483647 then 2147483647 else v)
      && X.Strtol16("-" + s) == (if v > 2147483648 then -2147483648 else -v)
    ensures X.Strtol16("+" + s) == X.Strtol16(s)
  {
    var minus, plus := "-" + s, "+" + s;
    assert minus[1..] == s && plus[1..] == s;
    NoPrefix(s);
    A.NoSpaceToSkip(minus);
    A.NoSpaceToSkip(plus);
    if s != "" {
      assert IsHex(s[0]);
      A.NoSpaceToSkip(s);
    }
    hide X.HexNumber, X.SkipPrefix;
  }

  lemma NoPrefix(s: string)
    requires AllHex(s)
    ensures X.SkipPrefix(s) == s
  {
    assert |s| >= 2 ==> IsHex(s[1]);
  }

  /** White space and the prefix 0x, or 0X, in front of digits are skipped. */
  lemma SkippedInFront(c: char, s: string, x: char)
    requires c == ' ' || 9 <= c as int <= 13
    ensures X.Strtol16([c] + s) == X.Strtol16(s)
    ensures AllHex(s) && s != "" && (x == 'x' || x == 'X') ==> X.Strtol16(['0', x] + s) == X.Strtol16(s)
  {
    assert ([c] + s)[1..] == s;
    if AllHex(s) && s != "" && (x == 'x' || x == 'X') {
      var t := ['0', x] + s;
      assert IsHex(s[0]);
      HexDigits(s[0]);
      NoPrefix(s);
      A.NoSpaceToSkip(t);
      A.NoSpaceToSkip(s);
      assert t[2] == s[0] && t[2..] == s;
      assert X.SkipPrefix(t) == s;
      hide X.HexNumber, X.SkipPrefix, X.HexValue;
    }
  }

  /** An int in a byte is the int modulo 256. */
  lemma ByteOfInt(v: int)
    ensures X.Truncated(v) as int == v % 256
  {
    ByteOfValue(v % 256);
    hide ByteOf;
  }

  /** A field of digits in front of a colon gives the number in its first two, the last field that of
      all its digits. */
  lemma FieldBytes(x: string, rest: string)
    requires AllHex(x)
    ensures X.HexFields(x + (":" + rest))
      == [X.Truncated(X.Strtol16(if |x| > 2 then x[..2] else x))] + X.HexFields(rest)
    ensures X.HexFields(x) == [X.Truncated(X.Strtol16(x))]
  {
    hide X.Truncated, X.Strtol16;
    var s := x + (":" + rest);
    A.FoundAt(x, ':', rest);
    A.NotFound(x, ':');
    hide A.IndexOf;
    assert s[|x| + 1..] == rest;
    FirstTwo(x, rest);
  }

  lemma FirstTwo(x: string, rest: string)
    requires AllHex(x)
    ensures var s := x + (":" + rest);
      X.Strtol16(s[..Min(2, |s|)]) == X.Strtol16(if |x| > 2 then x[..2] else x)
  {
    hide X.Strtol16;
    var s := x + (":" + rest);
    if |x| >= 2 {
      assert s[..2] == x[..2];
      assert |x| == 2 ==> x[..2] == x;
    } else {
      var behind := if x == "" && rest != "" then rest[..1] else "";
      assert s[..Min(2, |s|)] == x + ([':'] + behind);
      ColonEnds(x, behind);
    }
  }

  lemma ColonEnds(x: string, behind: string)
    requires AllHex(x) && |x| <= 1
    ensures X.Strtol16(x + ([':'] + behind)) == X.Strtol16(x)
  {
    var s := x + ([':'] + behind);
    HexEnds(x, ':', behind, 0);
    A.NoSpaceToSkip(s);
    NoPrefix(x);
    if x != "" {
      assert IsHex(x[0]) && s[1] == ':';
      A.NoSpaceToSkip(x);
    }
    assert X.SkipPrefix(s) == s;
    hide X.HexNumber, X.SkipPrefix;
  }

  // ----- IMEI -------------------------------------------------------------------------------------

  /** Packing: the first digit above 0xA, then each even digit above the odd one before it. */
  lemma PackedDigits(sz: seq<Byte>, i: nat)
    requires |sz| == 15 && 0 < i < 8
    ensures X.Packed(sz)[0] == ((sz[0] - 0x30) << 4) | 0x0A
    ensures X.Packed(sz)[i] == ((sz[2 * i] - 0x30) << 4) | (sz[2 * i - 1] - 0x30)
  {}

  /** Unpacking. */
  lemma UnpackedDigits(nv: seq<Byte>, i: nat)
    requires |nv| == 8 && i < 7
    ensures X.Unpacked(nv)[2 * i] == (nv[i] >> 4) + 0x30 && X.Unpacked(nv)[2 * i + 1] == (nv[i + 1] & 0x0F) + 0x30
    ensures X.Unpacked(nv)[14] == (nv[7] >> 4) + 0x30
  {
    UpperNibble(nv[i]);
    UpperNibble(nv[7]);
  }

  lemma UpperNibble(b: Byte)
    ensures (b & 0xF0) >> 4 == b >> 4
  {}

  // ----- Address files ----------------------------------------------------------------------------

  /** The primary file if there is one, else the fallback file, for both addresses. */
  lemma FileRead(f: F.Files, s: string, t: string)
    ensures F.Source(f.(wifi := Some(s)), F.Wifi) == Some(s) && F.Source(f.(bt := Some(t)), F.Bt) == Some(t)
    ensures F.Source(f.(wifi := None, wifiRoot := Some(s)), F.Wifi) == Some(s)
    ensures F.Source(f.(bt := None, btRoot := Some(t)), F.Bt) == Some(t)
    ensures F.Source(f.(wifi := None, wifiRoot := None), F.Wifi) == None
    ensures F.Source(f.(bt := None, btRoot := None), F.Bt) == None
  {}

  /** At most 31 characters are read; nothing when the file is missing, does not open or cannot be read. */
  lemma CharactersRead(s: string, io: F.FileIo)
    ensures F.Got(None, io) == ""
    ensures !io.open || io.moved <= 0 ==> F.Got(Some(s), io) == ""
    ensures io.open && io.moved >= 31 && |s| >= 31 ==> F.Got(Some(s), io) == s[..31]
    ensures io.open && io.moved >= |s| && |s| < 31 ==> F.Got(Some(s), io) == s
    ensures io.open && 0 <= io.moved < 31 && io.moved <= |s| ==> F.Got(Some(s), io) == s[..io.moved]
  {}

  /** What is written for an address that was not given: the text read, and behind it what the generated
      address has there. */
  lemma TextResolved(fallback: string, got: string)
    requires |fallback| <= 31 && |got| <= 31
    requires forall k :: 0 <= k < |fallback| ==> fallback[k] != '\0'
    requires forall k :: 0 <= k < |got| ==> got[k] != '\0'
    ensures F.Resolved(fallback, got) == if |got| >= |fallback| then got else got + fallback[|got|..]
  {
    if |fallback| <= |got| {
      assert F.Overlay(F.Buffer(fallback), got) == got + seq(32 - |got|, _ => '\0');
      F.TextEnds(got, 32 - |got|);
    } else {
      var s := got + fallback[|got|..];
      assert F.Overlay(F.Buffer(fallback), got) == s + seq(32 - |s|, _ => '\0');
      F.TextEnds(s, 32 - |s|);
    }
  }

  /** A file is truncated before it is written. */
  lemma FileWritten(text: string, io: F.FileIo)
    ensures io.moved < 0 ==> F.Put(text, io) == "" && F.WriteReturns(text, io) == -1
    ensures 0 <= io.moved < |text| ==> F.Put(text, io) == text[..io.moved] && F.WriteReturns(text, io) == io.moved
    ensures io.moved >= |text| ==> F.Put(text, io) == text && F.WriteReturns(text, io) == |text|
  {
    assert text[..|text|] == text;
  }

  /** The WiFi file is written first; the fallback Bluetooth file goes once the primary one is written. */
  lemma FilesWritten(f: F.Files, wifi: string, bt: string, io: F.WriteIo)
    ensures var r := F.AfterWrite2File(f, wifi, bt, io);
      && (!io.wifi.open ==> r == (f, -1))
      && (io.wifi.open && !io.bt.open ==> r == (f.(wifi := Some(F.Put(wifi, io.wifi))), -1))
      && (io.wifi.open && io.bt.open ==>
            && r.1 == F.WriteReturns(bt, io.bt)
            && r.0 == F.Files(Some(F.Put(wifi, io.wifi)), Some(F.Put(bt, io.bt)), f.wifiRoot,
                              if io.removed then None else f.btRoot))
  {
    hide F.Put, F.WriteReturns;
  }

  /** Both addresses given: nothing is read, and both files hold them when nothing fails. */
  lemma BothGiven(f: F.Files, bt: string, wifi: string, env: F.Env)
    requires |env.btFallback| <= 31 && |env.wifiFallback| <= 31 && |bt| <= 31 && |wifi| <= 31
    requires env.write.wifi.open && env.write.bt.open && env.write.wifi.moved >= 31 && env.write.bt.moved >= 31
    ensures F.AfterMacWrite(f, Some(bt), Some(wifi), env)
      == (F.Files(Some(wifi), Some(bt), f.wifiRoot, if env.write.removed then None else f.btRoot), |bt|)
  {
    FileWritten(bt, env.write.bt);
    FileWritten(wifi, env.write.wifi);
    FilesWritten(f, wifi, bt, env.write);
    hide F.Put, F.WriteReturns, F.AfterWrite2File, F.Resolved;
  }

  /** Only one given: the other is what its file, or its fallback file, holds. Here the fallback files. */
  lemma FallbackFilesCount(f: F.Files, given: string, stored: string, env: F.Env)
    requires F.EnvOk(env) && F.Works(env) && |given| <= 31 && |stored| <= 31
    requires forall k :: 0 <= k < |stored| ==> stored[k] != '\0'
    requires |env.btFallback| <= |stored| && |env.wifiFallback| <= |stored|
    ensures f.wifi == None && f.wifiRoot == Some(stored) ==>
      F.AfterMacWrite(f, Some(given), None, env).0.wifi == Some(stored)
    ensures f.bt == None && f.btRoot == Some(stored) ==>
      F.AfterMacWrite(f, None, Some(given), env).0.bt == Some(stored)
  {
    if f.wifi == None && f.wifiRoot == Some(stored) {
      F.BtWriteKeepsWifi(f, given, stored, env);
    }
    if f.bt == None && f.btRoot == Some(stored) {
      F.WifiWriteKeepsBt(f, given, stored, env);
    }
  }

  // ----- The diag command: requests ---------------------------------------------------------------

  /** The bits of the subtype. */
  lemma SubtypeBits(b: Byte)
    ensures B.IsRead(b) <==> b >= 0x80
    ensures B.AboutBt(b) <==> b & 0x04 == 0x04
    ensures B.AboutWifi(b) <==> b & 0x40 == 0x40
    ensures B.OtherBits(b) == b & 0xBB
  {}

  /** A write: flag, header, 106 bytes of structure, CRC. */
  lemma WriteFromBytes(flag: Byte, head: seq<Byte>, direct: seq<Byte>, trailer: seq<Byte>, rest: seq<Byte>)
    requires |head| == 8 && |direct| == 106 && |trailer| == 2 && head[7] < 0x80
    ensures var buf := [flag] + head + direct + trailer + rest;
      B.Acceptable(buf) && B.Parse(buf) == B.Request(head, direct, trailer)
  {
    SubtypeBits(head[7]);
    hide B.IsRead;
    var buf := [flag] + head + direct + trailer + rest;
    assert buf[8] == head[7];
    assert buf[1..9] == head && buf[9..115] == direct && buf[115..117] == trailer;
  }

  /** A read: flag and header. */
  lemma ReadFromBytes(flag: Byte, head: seq<Byte>, rest: seq<Byte>)
    requires |head| == 8 && head[7] >= 0x80
    ensures var buf := [flag] + head + rest;
      B.Acceptable(buf) && B.Parse(buf) == B.Request(head, [], [])
  {
    SubtypeBits(head[7]);
    hide B.IsRead;
    var buf := [flag] + head + rest;
    assert buf[8] == head[7] && buf[1..9] == head;
  }

  // ----- The diag command: writes -----------------------------------------------------------------

  /** The CRC of the structure stands behind it, and a WiFi address that is to be stored is global and
      unicast. */
  ghost predicate Accepted(c: B.Command)
    requires c.head[7] < 0x80 && |c.direct| == 106
  {
    c.trailer == LE16(C.Crc(0, c.direct)) && !(c.head[7] & 0x40 == 0x40 && c.direct[66] & 0x03 != 0)
  }

  function ShortReply(head: seq<Byte>, ack: Byte): seq<Byte>
    requires |head| == 8
  {
    head[..4] + Count16(10) + [head[6], ack] + [0, 0]
  }

  lemma ShortIs(head: seq<Byte>, ack: Byte)
    requires |head| == 8
    ensures B.Short(head, ack) == ShortReply(head, ack)
  {}

  lemma WriteParts(c: B.Command)
    requires c.head[7] < 0x80
    ensures !B.IsRead(c.head[7]) && |c.direct| == 106
    ensures B.Intact(c) <==> c.trailer == LE16(C.Crc(0, c.direct))
    ensures B.WifiRefused(c) <==> c.head[7] & 0x40 == 0x40 && c.direct[66] & 0x03 != 0
    ensures B.BtText(c) ==
      if c.head[7] & 0x04 == 0x04 then
        Some(X.PrintMac([c.direct[21], c.direct[20], c.direct[19], c.direct[18], c.direct[17], c.direct[16]]))
      else None
    ensures B.WifiText(c) == if c.head[7] & 0x40 == 0x40 then Some(X.PrintMac(c.direct[66..72])) else None
  {
    SubtypeBits(c.head[7]);
    hide B.IsRead, B.AboutBt, B.AboutWifi, C.Crc, LE16, X.PrintMac;
    var bt := B.BtOf(c);
    assert bt == c.direct[16..22];
    assert B.WifiOf(c)[0] == c.direct[66];
  }

  /** A damaged write, and one without an address bit: nothing is stored; the answer is 0, or none when
      the request goes on to the modem with the other bits. */
  lemma NothingToWrite(f: F.Files, c: B.Command, forwarded: bool, env: F.Env)
    requires F.EnvOk(env) && c.head[7] < 0x80
    requires c.trailer != LE16(C.Crc(0, c.direct)) || c.head[7] & 0x44 == 0
    ensures B.Serve(f, c, forwarded, env) ==
      if forwarded then B.Served(f, None, c.head[7] & 0xBB) else B.Served(f, Some(ShortReply(c.head, 0)), 0)
  {
    WriteParts(c);
    SubtypeBits(c.head[7]);
    NeitherBit(c.head[7]);
    ShortIs(c.head, 0);
    hide B.IsRead, B.AboutBt, B.AboutWifi, B.OtherBits, B.Intact, B.WifiRefused, B.Short, ShortReply, F.AfterMacWrite,
      B.Sealed, B.DirectFor, C.Crc, LE16, B.BtText, B.WifiText;
  }

  lemma NeitherBit(b: Byte)
    ensures b & 0x44 == 0 <==> b & 0x04 != 0x04 && b & 0x40 != 0x40
  {}

  /** A local or multicast WiFi address: nothing is stored, the answer is 0, forwarded or not. */
  lemma RefusedWrite(f: F.Files, c: B.Command, forwarded: bool, env: F.Env)
    requires F.EnvOk(env) && c.head[7] < 0x80 && c.trailer == LE16(C.Crc(0, c.direct))
    requires c.head[7] & 0x40 == 0x40 && (c.direct[66] & 0x01 == 0x01 || c.direct[66] & 0x02 == 0x02)
    ensures B.Serve(f, c, forwarded, env) == B.Served(f, Some(ShortReply(c.head, 0)), 0)
  {
    WriteParts(c);
    SubtypeBits(c.head[7]);
    LowBits(c.direct[66]);
    ShortIs(c.head, 0);
    hide B.IsRead, B.AboutBt, B.AboutWifi, B.OtherBits, B.Intact, B.WifiRefused, B.Short, ShortReply, F.AfterMacWrite,
      B.Sealed, B.DirectFor, C.Crc, LE16, B.BtText, B.WifiText, B.Answered;
  }

  lemma LowBits(b: Byte)
    ensures b & 0x03 != 0 <==> b & 0x01 == 0x01 || b & 0x02 == 0x02
  {}

  /** Any other write: the addresses it carries are handed on as text, and the answer is 1 when that
      reports a positive result. */
  lemma AcceptedWrite(f: F.Files, c: B.Command, forwarded: bool, env: F.Env)
    requires F.EnvOk(env) && c.head[7] < 0x80 && Accepted(c) && c.head[7] & 0x44 != 0
    ensures var bt := if c.head[7] & 0x04 == 0x04 then
        Some(X.PrintMac([c.direct[21], c.direct[20], c.direct[19], c.direct[18], c.direct[17], c.direct[16]]))
        else None;
      var wifi := if c.head[7] & 0x40 == 0x40 then Some(X.PrintMac(c.direct[66..72])) else None;
      var (after, ret) := F.AfterMacWrite(f, bt, wifi, env);
      var ack: Byte := if ret > 0 then 1 else 0;
      B.Serve(f, c, forwarded, env) ==
        if forwarded then B.Served(after, None, c.head[7] & 0xBB)
        else B.Served(after, Some(ShortReply(c.head, ack)), ack)
  {
    WriteParts(c);
    SubtypeBits(c.head[7]);
    NeitherBit(c.head[7]);
    ShortIs(c.head, 0);
    ShortIs(c.head, 1);
    hide B.IsRead, B.AboutBt, B.AboutWifi, B.OtherBits, B.Intact, B.WifiRefused, B.Short, ShortReply, F.AfterMacWrite,
      B.Sealed, B.DirectFor, C.Crc, LE16, B.BtText, B.WifiText, X.PrintMac;
  }

  /** What a command adds to the latest addresses. */
  lemma NextAddresses(bt: X.Mac, wifi: X.Mac, c: B.Command)
    ensures c.head[7] >= 0x80 ==> B.NextBt(bt, c) == bt && B.NextWifi(wifi, c) == wifi
    ensures c.head[7] < 0x80 ==> |c.direct| == 106
    ensures c.head[7] < 0x80 ==>
      B.NextBt(bt, c) == if Accepted(c) && c.head[7] & 0x04 == 0x04 then c.direct[16..22] else bt
    ensures c.head[7] < 0x80 ==>
      B.NextWifi(wifi, c) == if Accepted(c) && c.head[7] & 0x40 == 0x40 then c.direct[66..72] else wifi
  {
    SubtypeBits(c.head[7]);
    if c.head[7] < 0x80 {
      WriteParts(c);
    }
    hide B.IsRead, B.AboutBt, B.AboutWifi, B.Intact, B.WifiRefused, C.Crc, LE16;
  }

  // ----- The diag command: reads ------------------------------------------------------------------

  /** A read: header with length 116 and subtype 1, the structure, its CRC. */
  lemma ReadAnswer(f: F.Files, c: B.Command, forwarded: bool, env: F.Env)
    requires F.EnvOk(env) && c.head[7] >= 0x80
    ensures var d := B.DirectFor(f, c.head[7], env);
      B.Serve(f, c, forwarded, env)
      == B.Served(f, Some(c.head[..4] + Count16(116) + [c.head[6], 1] + d + LE16(C.Crc(0, d))), 1)
  {
    SubtypeBits(c.head[7]);
    hide B.IsRead, B.DirectFor, C.Crc, LE16, Count16, B.AboutBt, B.AboutWifi;
    var m := c.head + [0, 0];
    assert m[..4] == c.head[..4] && m[6] == c.head[6];
  }

  /** The addresses in the structure, everything else zero. */
  lemma AddressesInPlace(subtype: Byte, bt: X.Mac, wifi: X.Mac)
    ensures var d := B.Addresses(subtype, bt, wifi);
      && d[16..22] == (if subtype & 0x04 == 0x04 then bt else [0, 0, 0, 0, 0, 0])
      && d[66..72] == (if subtype & 0x40 == 0x40 then wifi else [0, 0, 0, 0, 0, 0])
      && forall i :: 0 <= i < 106 && !(16 <= i < 22) && !(66 <= i < 72) ==> d[i] == 0
  {
    SubtypeBits(subtype);
    hide B.AboutBt, B.AboutWifi;
  }

  /** When the files hold two addresses, in literal terms, a read answers with them. */
  lemma HeldIsAnswered(f: F.Files, c: B.Command, forwarded: bool, env: F.Env, bt: X.Mac, wifi: X.Mac)
    requires B.Good(env) && c.head[7] >= 0x80
    requires f.bt == Some(X.PrintMac([bt[5], bt[4], bt[3], bt[2], bt[1], bt[0]])) && f.wifi == Some(X.PrintMac(wifi))
    ensures var d := B.Addresses(c.head[7], bt, wifi);
      B.Serve(f, c, forwarded, env).reply
      == Some(c.head[..4] + Count16(116) + [c.head[6], 1] + d + LE16(C.Crc(0, d)))
  {
    B.HeldIsRead(f, c.head[7], env, bt, wifi);
    ReadAnswer(f, c, forwarded, env);
    hide B.DirectFor, B.Addresses, B.Serve, C.Crc, LE16, Count16;
  }

  /** What is put into the structure for a text that is no address: the bytes of its fields, for
      Bluetooth with the first six turned round. */
  lemma OtherTexts(d: seq<Byte>, got: string)
    requires |d| == 106 && 0 < |got| <= 31 && forall k :: 0 <= k < |got| ==> got[k] != '\0'
    ensures |X.HexFields(got)| <= 32
    ensures B.WithWifi(d, got) == Patch(d, 66, X.HexFields(got))
    ensures B.WithBt(d, got) == FirstSixTurned(Patch(d, 16, X.HexFields(got)))
    ensures B.WithBt(d, "") == d == B.WithWifi(d, "")
  {
    FieldsRead(got);
    hide B.FieldsOf, X.HexFields;
    SixTurned(Patch(d, 16, B.FieldsOf(got)));
    hide Patch, B.TurnedRound, FirstSixTurned;
  }

  lemma FieldsRead(got: string)
    requires |got| <= 31 && forall k :: 0 <= k < |got| ==> got[k] != '\0'
    ensures B.FieldsOf(got) == X.HexFields(got) && |X.HexFields(got)| <= 32
  {
    TextResolved("", got);
    hide X.HexFields;
  }

  function FirstSixTurned(p: seq<Byte>): seq<Byte>
    requires |p| == 106
  {
    p[..16] + [p[21], p[20], p[19], p[18], p[17], p[16]] + p[22..]
  }

  lemma SixTurned(p: seq<Byte>)
    requires |p| == 106
    ensures B.TurnedRound(p) == FirstSixTurned(p)
  {
    assert p[16..22] == [p[16], p[17], p[18], p[19], p[20], p[21]];
  }

  /** When nothing fails. */
  lemma NothingFails(env: F.Env)
    requires |env.btFallback| <= 17 && |env.wifiFallback| <= 17
    requires forall k :: 0 <= k < |env.btFallback| ==> env.btFallback[k] != '\0'
    requires forall k :: 0 <= k < |env.wifiFallback| ==> env.wifiFallback[k] != '\0'
    requires env.btRead.open && env.btRead.moved >= 31 && env.wifiRead.open && env.wifiRead.moved >= 31
    requires env.write.bt.open && env.write.bt.moved >= 31 && env.write.wifi.open && env.write.wifi.moved >= 31
    ensures B.Good(env)
  {}
}
