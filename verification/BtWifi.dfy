/** modules/libmiscdata/bt_wifi_mac.c: the diag command that writes and reads the Bluetooth and WiFi
    addresses, with its CRC-guarded request and CRC-sealed reply. */
module BtWifi {
  import opened Options
  import opened Bytes
  import opened Framing
  import opened MacText
  import opened MacFiles
  import C = Crc16
  import E = CrcErrors
  import T = CrcTwoBits
  import P = PhaseCheck
  import M = MiscStore

  const HEAD: nat := 8
  const DIAG_CMD_READ: Byte := 0x80
  const DIAG_CMD_BTBIT: Byte := 0x04
  const DIAG_CMD_WIFIBIT: Byte := 0x40

  /** REF_NVWriteDirect_T: two IMEIs, Bluetooth address, GPS data, WiFi address, two reserved bytes,
      two IMEIs, sixteen reserved bytes. */
  const BT_AT: nat := 16
  const WIFI_AT: nat := 66
  const DIRECT: nat := 106
  const REPLY: nat := HEAD + DIRECT + 2

  predicate IsRead(subtype: Byte) {
    subtype & DIAG_CMD_READ != 0
  }

  predicate AboutBt(subtype: Byte) {
    subtype & DIAG_CMD_BTBIT != 0
  }

  predicate AboutWifi(subtype: Byte) {
    subtype & DIAG_CMD_WIFIBIT != 0
  }

  /** The two address bits cleared. */
  function OtherBits(subtype: Byte): Byte {
    subtype & !(DIAG_CMD_BTBIT | DIAG_CMD_WIFIBIT)
  }

  /** Header, structure and CRC of a request; a read has only the header. */
  datatype Request = Request(head: seq<Byte>, direct: seq<Byte>, trailer: seq<Byte>)

  type Command = r: Request
    | |r.head| == HEAD && (!IsRead(r.head[7]) ==> |r.direct| == DIRECT && |r.trailer| == 2)
    witness Request(M.Zeros(HEAD), M.Zeros(DIRECT), [0, 0])

  /** A write brings a whole structure and its CRC. */
  predicate Acceptable(buf: seq<Byte>) {
    |buf| >= 9 && (!IsRead(buf[8]) ==> |buf| >= 1 + REPLY)
  }

  function Parse(buf: seq<Byte>): Command
    requires Acceptable(buf)
  {
    if IsRead(buf[8]) then Request(buf[1..9], [], [])
    else Request(buf[1..9], buf[9..9 + DIRECT], buf[9 + DIRECT..1 + REPLY])
  }

  // ----- The handler as a function ----------------------------------------------------------------

  predicate Intact(c: Command)
    requires !IsRead(c.head[7])
  {
    c.trailer == LE16(C.Crc(0, c.direct))
  }

  function BtOf(c: Command): Mac
    requires !IsRead(c.head[7])
  {
    c.direct[BT_AT..BT_AT + 6]
  }

  function WifiOf(c: Command): Mac
    requires !IsRead(c.head[7])
  {
    c.direct[WIFI_AT..WIFI_AT + 6]
  }

  /** A WiFi address to be written is a globally administered unicast address. */
  predicate WifiRefused(c: Command)
    requires !IsRead(c.head[7])
  {
    AboutWifi(c.head[7]) && WifiOf(c)[0] & 0x03 != 0
  }

  /** The texts handed to eng_btwifimac_write; the Bluetooth address is stored back to front. */
  function BtText(c: Command): Option<string>
    requires !IsRead(c.head[7])
  {
    if AboutBt(c.head[7]) then Some(PrintMac(Reversed(BtOf(c)))) else None
  }

  function WifiText(c: Command): Option<string>
    requires !IsRead(c.head[7])
  {
    if AboutWifi(c.head[7]) then Some(PrintMac(WifiOf(c))) else None
  }

  /** The files afterwards, the reply before framing, and the subtype left in the request. */
  datatype Served = Served(files: Files, reply: Option<seq<Byte>>, subtype: Byte)

  /** The command as it runs for this handler: the IMEI part is left to the modem. `forwarded` says
      that the request goes on to the modem afterwards. */
  function Serve(f: Files, c: Command, forwarded: bool, env: Env): Served
    requires |env.btFallback| <= READ_MAX && |env.wifiFallback| <= READ_MAX
  {
    var subtype := c.head[7];
    if IsRead(subtype) then Served(f, Some(Sealed(c.head, DirectFor(f, subtype, env))), 1)
    else if !Intact(c) || (!AboutBt(subtype) && !AboutWifi(subtype)) then Answered(f, c.head, -1, forwarded)
    else if WifiRefused(c) then Served(f, Some(Short(c.head, 0)), 0)
    else
      var (after, ret) := AfterMacWrite(f, BtText(c), WifiText(c), env);
      Answered(after, c.head, ret, forwarded)
  }

  function Answered(f: Files, head: seq<Byte>, ret: int, forwarded: bool): Served
    requires |head| == HEAD
  {
    if forwarded then Served(f, None, OtherBits(head[7]))
    else
      var ack: Byte := if ret <= 0 then 0 else 1;
      Served(f, Some(Short(head, ack)), ack)
  }

  /** The header on its own, with two zero bytes. */
  function Short(head: seq<Byte>, subtype: Byte): (reply: seq<Byte>)
    requires |head| == HEAD
    ensures |reply| == HEAD + 2
  {
    P.Head(head, HEAD + 2, subtype) + [0, 0]
  }

  function Sealed(head: seq<Byte>, direct: seq<Byte>): (reply: seq<Byte>)
    requires |head| == HEAD && |direct| == DIRECT
    ensures |reply| == REPLY
  {
    P.SealWith(head + [0, 0], direct)
  }

  /** The structure a read returns: zeros but for the addresses that were asked for and found. */
  function DirectFor(f: Files, subtype: Byte, env: Env): (d: seq<Byte>)
    ensures |d| == DIRECT
  {
    var bt := if AboutBt(subtype) then Got(Source(f, Bt), env.btRead) else "";
    var wifi := if AboutWifi(subtype) then Got(Source(f, Wifi), env.wifiRead) else "";
    WithWifi(WithBt(M.Zeros(DIRECT), bt), wifi)
  }

  function WithBt(d: seq<Byte>, got: string): (r: seq<Byte>)
    requires |d| == DIRECT && |got| <= READ_MAX
    ensures |r| == DIRECT
  {
    if got == "" then d else TurnedRound(Patch(d, BT_AT, FieldsOf(got)))
  }

  function WithWifi(d: seq<Byte>, got: string): (r: seq<Byte>)
    requires |d| == DIRECT && |got| <= READ_MAX
    ensures |r| == DIRECT
  {
    if got == "" then d else Patch(d, WIFI_AT, FieldsOf(got))
  }

  /** What char2hex makes of the buffer the text was read into. */
  function FieldsOf(got: string): (bytes: seq<Byte>)
    requires |got| <= READ_MAX
    ensures |bytes| <= BUFFER
  {
    var s := CString(Overlay(Buffer(""), got));
    assert |s| <= READ_MAX by {
      ResolvedFits("", got);
    }
    FieldCount(s);
    HexFields(s)
  }

  /** The six bytes of the Bluetooth address back to front. */
  function TurnedRound(d: seq<Byte>): (r: seq<Byte>)
    requires |d| == DIRECT
    ensures |r| == DIRECT
  {
    Patch(d, BT_AT, Reversed(d[BT_AT..BT_AT + 6]))
  }

  // ----- The handler as written -------------------------------------------------------------------

  /** btwifi_checkCRC. */
  method CheckCrc(buf: array<Byte>) returns (ret: int)
    requires P.Acceptable(buf[..])
    ensures ret == if P.Intact(P.MessageOf(buf[..])) then 0 else -1
  {
    hide P.MessageOf, P.Payload, P.Trailer, C.Crc, Count16At, U16;
    P.FieldsInBuffer(buf[..]);
    var len := Count16At(buf[..], 5);
    var crcSum := U16(buf[len - 2 + 1], buf[len - 2 + 2]);
    var checksum := C.Crc16(0, buf, 9, len - HEAD - 2);
    assert buf[9..9 + (len - 10)] == buf[..][9..9 + (len - 10)];
    ret := if crcSum != checksum then -1 else 0;
  }

  method BtWifiImei(store: MacStore, buf: array<Byte>, rsp: array<Byte>, forwarded: bool, env: Env)
    returns (rlen: nat)
    requires Acceptable(buf[..]) && EnvOk(env) && buf != rsp && rsp.Length >= REPLY + 2
    modifies store, buf, rsp
    ensures var served := Serve(old(store.files), Parse(old(buf[..])), forwarded, env);
      && store.files == served.files && Sent(old(rsp[..]), rsp[..], rlen, Framed(served.reply))
      && buf[..] == old(buf[..])[8 := served.subtype]
  {
    hide PlainFrame, Sent, Answered, Short, Sealed, DirectFor, AfterMacWrite, Intact, WifiRefused,
      BtText, WifiText;
    if buf[8] & DIAG_CMD_READ == 0 {
      rlen := WriteCommand(store, buf, rsp, forwarded, env);
    } else {
      rlen := ReadCommand(store, buf, rsp, env);
    }
  }

  method WriteCommand(store: MacStore, buf: array<Byte>, rsp: array<Byte>, forwarded: bool, env: Env)
    returns (rlen: nat)
    requires Acceptable(buf[..]) && !IsRead(buf[8]) && EnvOk(env) && buf != rsp && rsp.Length >= REPLY + 2
    modifies store, buf, rsp
    ensures var served := Serve(old(store.files), Parse(old(buf[..])), forwarded, env);
      && store.files == served.files && Sent(old(rsp[..]), rsp[..], rlen, Framed(served.reply))
      && buf[..] == old(buf[..])[8 := served.subtype]
  {
    hide PlainFrame, Sent, Short, Sealed, DirectFor, AfterMacWrite, PrintMac, C.Crc, LE16,
      OtherBits, AboutBt, AboutWifi;
    ghost var c := Parse(buf[..]);
    PartsInBuffer(buf[..]);
    var subtype := buf[8];
    var ret := -1;
    var crc := C.Crc16(0, buf, 9, DIRECT);
    if buf[9 + DIRECT..1 + REPLY] == LE16(crc) {
      if AboutBt(subtype) || AboutWifi(subtype) {
        var bt, wifi := None, None;
        if AboutBt(subtype) {
          bt := Some(PrintMac(Reversed(buf[9 + BT_AT..9 + BT_AT + 6])));
        }
        if AboutWifi(subtype) {
          wifi := Some(PrintMac(buf[9 + WIFI_AT..9 + WIFI_AT + 6]));
          if buf[9 + WIFI_AT] & 0x03 != 0 {
            buf[8] := 0;
            rlen := SendShort(buf, rsp, c.head);
            return;
          }
        }
        ret := store.Write(bt, wifi, env);
      }
    }
    rlen := Answer(buf, rsp, c.head, ret, forwarded);
  }

  lemma PartsInBuffer(buf: seq<Byte>)
    requires Acceptable(buf) && !IsRead(buf[8])
    ensures var c := Parse(buf);
      && c.head == buf[1..9] && c.head[7] == buf[8]
      && c.direct == buf[9..9 + DIRECT] && c.trailer == buf[9 + DIRECT..1 + REPLY]
      && BtOf(c) == buf[9 + BT_AT..9 + BT_AT + 6]
      && WifiOf(c) == buf[9 + WIFI_AT..9 + WIFI_AT + 6] && WifiOf(c)[0] == buf[9 + WIFI_AT]
  {
    var c := Parse(buf);
    assert forall i :: 0 <= i < DIRECT ==> c.direct[i] == buf[9 + i];
    assert c.direct[BT_AT..BT_AT + 6] == buf[9 + BT_AT..9 + BT_AT + 6];
    assert c.direct[WIFI_AT..WIFI_AT + 6] == buf[9 + WIFI_AT..9 + WIFI_AT + 6];
  }

  /** The short reply, or none when the request is forwarded. */
  method Answer(buf: array<Byte>, rsp: array<Byte>, ghost head: seq<Byte>, ret: int, forwarded: bool)
    returns (rlen: nat)
    requires buf.Length >= 9 && buf != rsp && rsp.Length >= REPLY + 2 && buf[1..9] == head
    modifies buf, rsp
    ensures forall f :: var served := Answered(f, head, ret, forwarded);
      && Sent(old(rsp[..]), rsp[..], rlen, Framed(served.reply))
      && buf[..] == old(buf[..])[8 := served.subtype]
  {
    hide PlainFrame, Short, OtherBits;
    assert head[7] == buf[8] && head[..7] == buf[1..8];
    if !forwarded {
      buf[8] := if ret <= 0 then 0 else 1;
      rlen := SendShort(buf, rsp, head);
    } else {
      rlen := 0;
      buf[8] := OtherBits(buf[8]);
    }
  }

  method SendShort(buf: array<Byte>, rsp: array<Byte>, ghost head: seq<Byte>) returns (rlen: nat)
    requires buf.Length >= 9 && buf != rsp && rsp.Length >= REPLY + 2
    requires |head| == HEAD && buf[1..8] == head[..7]
    modifies rsp
    ensures Sent(old(rsp[..]), rsp[..], rlen, Some(PlainFrame(Short(head, buf[8]))))
  {
    hide PlainFrame, Sent, Short;
    var tmprsp := new Byte[512](_ => 0);
    assert tmprsp[..] == M.Zeros(512);
    Store(tmprsp, 0, buf[1..9]);
    Store(tmprsp, 4, Count16(HEAD + 2));
    ShortInPlace(buf[1..9], head);
    rlen := TranslatePacket(rsp, tmprsp, 0, HEAD + 2);
  }

  lemma ShortInPlace(bytes: seq<Byte>, head: seq<Byte>)
    requires |bytes| == |head| == HEAD && bytes[..7] == head[..7]
    ensures Patch(Patch(M.Zeros(512), 0, bytes), 4, Count16(HEAD + 2))[0..HEAD + 2] == Short(head, bytes[7])
  {
    hide Count16;
    assert bytes[6] == bytes[..7][6] && head[6] == head[..7][6];
    assert bytes[..4] == bytes[..7][..4] && head[..4] == head[..7][..4];
  }

  method ReadCommand(store: MacStore, buf: array<Byte>, rsp: array<Byte>, env: Env) returns (rlen: nat)
    requires Acceptable(buf[..]) && IsRead(buf[8]) && buf != rsp && rsp.Length >= REPLY + 2
    modifies buf, rsp
    ensures var c := Parse(old(buf[..]));
      && Sent(old(rsp[..]), rsp[..], rlen, Some(PlainFrame(Sealed(c.head, DirectFor(store.files, c.head[7], env)))))
      && buf[..] == old(buf[..])[8 := 1]
  {
    hide PlainFrame, Sent, Sealed, DirectFor, IsRead, Around, Patch;
    ghost var head := buf[1..9];
    assert head[..7] == buf[1..8];
    var tmprsp, direct := ReadDirect(store, buf[8], env);
    buf[8] := 1;
    Store(tmprsp, 0, buf[1..9]);
    assert buf[1..9][..7] == buf[1..8];
    rlen := SealAndSend(tmprsp, rsp, buf[1..9], head, direct);
  }

  method ReadDirect(store: MacStore, subtype: Byte, env: Env) returns (tmprsp: array<Byte>, ghost direct: seq<Byte>)
    ensures fresh(tmprsp) && direct == DirectFor(store.files, subtype, env)
    ensures tmprsp[..] == Around(direct)
  {
    hide WithBt, WithWifi, AboutBt, AboutWifi, Got;
    tmprsp := new Byte[512](_ => 0);
    direct := M.Zeros(DIRECT);
    assert tmprsp[..] == Around(direct);
    hide Around;
    WithNothing(direct);
    if AboutBt(subtype) {
      direct := ReadBt(store, tmprsp, direct, env.btRead);
    }
    WithNothing(direct);
    if AboutWifi(subtype) {
      direct := ReadWifi(store, tmprsp, direct, env.wifiRead);
    }
  }

  lemma WithNothing(d: seq<Byte>)
    requires |d| == DIRECT
    ensures WithBt(d, "") == d && WithWifi(d, "") == d
  {}

  /** The reply buffer with a structure behind eight zero bytes. */
  ghost function Around(direct: seq<Byte>): (t: seq<Byte>)
    requires |direct| == DIRECT
    ensures |t| == 512
  {
    M.Zeros(HEAD) + direct + M.Zeros(512 - HEAD - DIRECT)
  }

  method ReadBt(store: MacStore, tmprsp: array<Byte>, ghost direct: seq<Byte>, io: FileIo)
    returns (ghost after: seq<Byte>)
    requires |direct| == DIRECT && tmprsp[..] == Around(direct)
    modifies tmprsp
    ensures after == WithBt(direct, Got(Source(store.files, Bt), io))
    ensures tmprsp[..] == Around(after)
  {
    hide Around, Got, HexFields;
    var btaddr := store.Generated("");
    var ret := store.Read(btaddr, Bt, io);
    ghost var got := Got(Source(store.files, Bt), io);
    after := direct;
    if ret == 0 {
      ghost var fields := FieldsOf(got);
      CountFields(got);
      var n := Char2Hex(tmprsp, HEAD + BT_AT, CString(btaddr[..]));
      PatchAround(direct, BT_AT, fields);
      after := Patch(direct, BT_AT, fields);
      hide FieldsOf, Patch, TurnedRound;
      TurnRound(tmprsp, after);
      after := TurnedRound(after);
    }
  }

  method TurnRound(tmprsp: array<Byte>, ghost direct: seq<Byte>)
    requires |direct| == DIRECT && tmprsp[..] == Around(direct)
    modifies tmprsp
    ensures tmprsp[..] == Around(TurnedRound(direct))
  {
    TurnAround(direct);
    hide Around, TurnedRound;
    assert tmprsp.Length == 512;
    tmprsp[24], tmprsp[29] := tmprsp[29], tmprsp[24];
    tmprsp[25], tmprsp[28] := tmprsp[28], tmprsp[25];
    tmprsp[26], tmprsp[27] := tmprsp[27], tmprsp[26];
  }

  lemma CountFields(got: string)
    requires |got| <= READ_MAX
    ensures Colons(CString(Overlay(Buffer(""), got))) < BUFFER
    ensures |FieldsOf(got)| <= BUFFER
  {
    ResolvedFits("", got);
    FieldCount(CString(Overlay(Buffer(""), got)));
  }

  lemma PatchAround(direct: seq<Byte>, at: nat, data: seq<Byte>)
    requires |direct| == DIRECT && at + |data| <= DIRECT
    ensures Patch(Around(direct), HEAD + at, data) == Around(Patch(direct, at, data))
  {}

  /** The three swaps. */
  lemma TurnAround(d: seq<Byte>)
    requires |d| == DIRECT
    ensures var t := Around(d);
      Around(TurnedRound(d))
      == t[24 := t[29]][29 := t[24]][25 := t[28]][28 := t[25]][26 := t[27]][27 := t[26]]
  {}

  method ReadWifi(store: MacStore, tmprsp: array<Byte>, ghost direct: seq<Byte>, io: FileIo)
    returns (ghost after: seq<Byte>)
    requires |direct| == DIRECT && tmprsp[..] == Around(direct)
    modifies tmprsp
    ensures after == WithWifi(direct, Got(Source(store.files, Wifi), io))
    ensures tmprsp[..] == Around(after)
  {
    hide Around, Got, HexFields;
    var wifiaddr := store.Generated("");
    var ret := store.Read(wifiaddr, Wifi, io);
    ghost var got := Got(Source(store.files, Wifi), io);
    after := direct;
    if ret == 0 {
      ghost var fields := FieldsOf(got);
      CountFields(got);
      var n := Char2Hex(tmprsp, HEAD + WIFI_AT, CString(wifiaddr[..]));
      PatchAround(direct, WIFI_AT, fields);
      after := Patch(direct, WIFI_AT, fields);
    }
  }

  /** The CRC behind the structure, the length in front of it. */
  method SealAndSend(tmprsp: array<Byte>, rsp: array<Byte>, ghost bytes: seq<Byte>, ghost head: seq<Byte>,
                     ghost direct: seq<Byte>) returns (rlen: nat)
    requires |direct| == DIRECT && |bytes| == |head| == HEAD && bytes[..7] == head[..7] && bytes[7] == 1
    requires tmprsp[..] == Patch(Around(direct), 0, bytes)
    requires tmprsp != rsp && rsp.Length >= REPLY + 2
    modifies tmprsp, rsp
    ensures Sent(old(rsp[..]), rsp[..], rlen, Some(PlainFrame(Sealed(head, direct))))
  {
    hide PlainFrame, Sent, Sealed, C.Crc, LE16;
    DirectInPlace(direct, bytes);
    assert tmprsp[HEAD..HEAD + DIRECT] == tmprsp[..][HEAD..HEAD + DIRECT];
    var crc := C.Crc16(0, tmprsp, HEAD, DIRECT);
    Store(tmprsp, HEAD + DIRECT, LE16(crc));
    Store(tmprsp, 4, Count16(REPLY));
    SealedInPlace(bytes, head, direct, crc);
    rlen := TranslatePacket(rsp, tmprsp, 0, REPLY);
  }

  lemma DirectInPlace(direct: seq<Byte>, bytes: seq<Byte>)
    requires |direct| == DIRECT && |bytes| == HEAD
    ensures Patch(Around(direct), 0, bytes)[HEAD..HEAD + DIRECT] == direct
  {}

  lemma SealedInPlace(bytes: seq<Byte>, head: seq<Byte>, direct: seq<Byte>, crc: bv16)
    requires |direct| == DIRECT && |bytes| == |head| == HEAD && bytes[..7] == head[..7] && bytes[7] == 1
    requires crc == C.Crc(0, direct)
    ensures Patch(Patch(Patch(Around(direct), 0, bytes), HEAD + DIRECT, LE16(crc)), 4, Count16(REPLY))[0..REPLY]
         == Sealed(head, direct)
  {
    hide Count16, LE16, C.Crc;
    assert bytes[6] == bytes[..7][6] && head[6] == head[..7][6];
    assert bytes[..4] == bytes[..7][..4] && head[..4] == head[..7][..4];
  }

  // ----- What is written is what is read ----------------------------------------------------------

  /** The files hold these two addresses. */
  predicate Holds(f: Files, bt: Mac, wifi: Mac) {
    f.bt == Some(PrintMac(Reversed(bt))) && f.wifi == Some(PrintMac(wifi))
  }

  /** No file operation fails, and generated addresses are no longer than a printed address. */
  ghost predicate Good(env: Env) {
    EnvOk(env) && Works(env) && |env.btFallback| <= 17 && |env.wifiFallback| <= 17
  }

  /** The command stores an address. */
  predicate Stores(c: Command) {
    !IsRead(c.head[7]) && Intact(c) && !WifiRefused(c)
  }

  function NextBt(bt: Mac, c: Command): Mac {
    if Stores(c) && AboutBt(c.head[7]) then BtOf(c) else bt
  }

  function NextWifi(wifi: Mac, c: Command): Mac {
    if Stores(c) && AboutWifi(c.head[7]) then WifiOf(c) else wifi
  }

  /** A command changes the addresses it carries and leaves the other one alone; a read, a damaged
      request and a refused address change nothing. */
  lemma ServeHolds(f: Files, c: Command, forwarded: bool, env: Env, bt: Mac, wifi: Mac)
    requires Good(env)
    requires Holds(f, bt, wifi) || (Stores(c) && AboutBt(c.head[7]) && AboutWifi(c.head[7]))
    ensures Holds(Serve(f, c, forwarded, env).files, NextBt(bt, c), NextWifi(wifi, c))
  {
    hide IsRead, AboutBt, AboutWifi, Intact, WifiRefused, BtOf, WifiOf, PrintMac, AfterMacWrite, Short,
      Sealed, DirectFor, OtherBits;
    if Stores(c) && (AboutBt(c.head[7]) || AboutWifi(c.head[7])) {
      WriteHolds(f, BtText(c), WifiText(c), env, bt, wifi);
    }
  }

  lemma WriteHolds(f: Files, btText: Option<string>, wifiText: Option<string>, env: Env, bt: Mac, wifi: Mac)
    requires Good(env)
    requires Holds(f, bt, wifi) || (btText.Some? && wifiText.Some?)
    requires btText.Some? ==> |btText.value| == 17
    requires wifiText.Some? ==> |wifiText.value| == 17
    ensures var after := AfterMacWrite(f, btText, wifiText, env).0;
      && after.bt == Some(if btText.Some? then btText.value else PrintMac(Reversed(bt)))
      && after.wifi == Some(if wifiText.Some? then wifiText.value else PrintMac(wifi))
  {
    PrintedIsText(Reversed(bt));
    PrintedIsText(wifi);
    if btText == None {
      ResolvedIsStored(env.btFallback, PrintMac(Reversed(bt)), env.btRead);
    }
    if wifiText == None {
      ResolvedIsStored(env.wifiFallback, PrintMac(wifi), env.wifiRead);
    }
    hide Resolved, Got, PrintMac;
    PutAll(if btText.Some? then btText.value else PrintMac(Reversed(bt)), env.write.bt);
    PutAll(if wifiText.Some? then wifiText.value else PrintMac(wifi), env.write.wifi);
  }

  lemma PutAll(text: string, io: FileIo)
    requires |text| <= READ_MAX && Complete(io, READ_MAX)
    ensures Put(text, io) == text
  {}

  datatype Access = Access(c: Command, forwarded: bool, env: Env)

  ghost predicate AllGood(calls: seq<Access>) {
    forall i :: 0 <= i < |calls| ==> Good(calls[i].env)
  }

  /** The files after a list of commands. */
  ghost function History(f: Files, calls: seq<Access>): Files
    requires AllGood(calls)
    decreases |calls|
  {
    if calls == [] then f
    else
      var last := calls[|calls| - 1];
      Serve(History(f, calls[..|calls| - 1]), last.c, last.forwarded, last.env).files
  }

  function LatestBt(bt: Mac, calls: seq<Access>): Mac
    decreases |calls|
  {
    if calls == [] then bt else NextBt(LatestBt(bt, calls[..|calls| - 1]), calls[|calls| - 1].c)
  }

  function LatestWifi(wifi: Mac, calls: seq<Access>): Mac
    decreases |calls|
  {
    if calls == [] then wifi else NextWifi(LatestWifi(wifi, calls[..|calls| - 1]), calls[|calls| - 1].c)
  }

  lemma {:induction false} HistoryHolds(f: Files, calls: seq<Access>, bt: Mac, wifi: Mac)
    requires AllGood(calls) && Holds(f, bt, wifi)
    ensures Holds(History(f, calls), LatestBt(bt, calls), LatestWifi(wifi, calls))
    decreases |calls|
  {
    hide Holds, Good, Serve, NextBt, NextWifi;
    if calls != [] {
      var before, last := calls[..|calls| - 1], calls[|calls| - 1];
      HistoryHolds(f, before, bt, wifi);
      ServeHolds(History(f, before), last.c, last.forwarded, last.env,
                 LatestBt(bt, before), LatestWifi(wifi, before));
    }
  }

  /** The structure with the addresses that were asked for. */
  function Addresses(subtype: Byte, bt: Mac, wifi: Mac): (d: seq<Byte>)
    ensures |d| == DIRECT
  {
    var d := if AboutBt(subtype) then Patch(M.Zeros(DIRECT), BT_AT, bt) else M.Zeros(DIRECT);
    if AboutWifi(subtype) then Patch(d, WIFI_AT, wifi) else d
  }

  /** After any sequence of commands a read answers with the latest Bluetooth and the latest WiFi
      address that an intact, accepted request brought, byte for byte. */
  lemma ReadSeesLatest(f: Files, calls: seq<Access>, bt: Mac, wifi: Mac, read: Access)
    requires AllGood(calls) && Good(read.env) && Holds(f, bt, wifi) && IsRead(read.c.head[7])
    ensures Serve(History(f, calls), read.c, read.forwarded, read.env).reply
      == Some(Sealed(read.c.head, Addresses(read.c.head[7], LatestBt(bt, calls), LatestWifi(wifi, calls))))
  {
    HistoryHolds(f, calls, bt, wifi);
    hide History, LatestBt, LatestWifi, Sealed;
    HeldIsRead(History(f, calls), read.c.head[7], read.env, LatestBt(bt, calls), LatestWifi(wifi, calls));
  }

  lemma HeldIsRead(f: Files, subtype: Byte, env: Env, bt: Mac, wifi: Mac)
    requires Good(env) && Holds(f, bt, wifi)
    ensures DirectFor(f, subtype, env) == Addresses(subtype, bt, wifi)
  {
    PrintedIsRead(Reversed(bt), env.btRead);
    PrintedIsRead(wifi, env.wifiRead);
    BtInPlace(M.Zeros(DIRECT), bt);
    hide FieldsOf, PrintMac, Got, AboutBt, AboutWifi, Patch, TurnedRound, Reversed;
  }

  lemma BtInPlace(d: seq<Byte>, bt: Mac)
    requires |d| == DIRECT
    ensures TurnedRound(Patch(d, BT_AT, Reversed(bt))) == Patch(d, BT_AT, bt)
  {
    assert Patch(d, BT_AT, Reversed(bt))[BT_AT..BT_AT + 6] == Reversed(bt);
    assert Reversed(Reversed(bt)) == bt;
  }

  lemma PrintedIsRead(m: Mac, io: FileIo)
    requires Complete(io, READ_MAX)
    ensures Got(Some(PrintMac(m)), io) != "" && FieldsOf(Got(Some(PrintMac(m)), io)) == m
  {
    MacComesBack(m);
    PrintedIsText(m);
    ResolvedIsStored("", PrintMac(m), io);
    hide PrintMac, HexFields;
    assert Got(Some(PrintMac(m)), io) == PrintMac(m);
  }

  // ----- The CRC ----------------------------------------------------------------------------------

  /** Every read reply, as it goes out in its frame, passes the check requests are put to. */
  lemma ReplyPassesCheck(f: Files, c: Command, forwarded: bool, env: Env)
    requires IsRead(c.head[7]) && EnvOk(env)
    ensures var reply := Serve(f, c, forwarded, env).reply;
      && reply.Some? && P.Acceptable(PlainFrame(reply.value))
      && P.MessageOf(PlainFrame(reply.value)) == reply.value && P.Intact(reply.value)
  {
    hide DirectFor, P.SealWith, P.Intact, Count16At;
    var direct := DirectFor(f, c.head[7], env);
    var m: P.Message := c.head + [0, 0];
    P.SealedReplyIsIntact(m, direct);
    InFrame(P.SealWith(m, direct));
  }

  /** Every reply counts itself. */
  lemma RepliesAreCounted(f: Files, c: Command, forwarded: bool, env: Env)
    requires EnvOk(env)
    ensures var reply := Serve(f, c, forwarded, env).reply;
      reply.Some? ==> Counted(reply.value)
  {
    hide DirectFor, P.SealWith, P.Intact, Count16At, P.Head, Intact, WifiRefused, AfterMacWrite, IsRead, OtherBits;
    var m: P.Message := c.head + [0, 0];
    P.SealedReplyIsIntact(m, DirectFor(f, c.head[7], env));
    P.HeadCounts(c.head, 0, [0, 0]);
    P.HeadCounts(c.head, 1, [0, 0]);
  }

  lemma InFrame(reply: P.Message)
    requires |reply| + 2 >= 13 && Count16At(reply, 4) == |reply|
    ensures P.Acceptable(PlainFrame(reply)) && P.MessageOf(PlainFrame(reply)) == reply
  {
    var frame := PlainFrame(reply);
    assert frame[5] == reply[4] && frame[6] == reply[5];
    assert frame[1..1 + |reply|] == reply;
  }

  /** The bits of structure and trailer that differ between two writes. */
  ghost function Damage(good: Command, bad: Command): seq<bool>
    requires !IsRead(good.head[7]) && !IsRead(bad.head[7])
  {
    E.Diff(C.Bits(good.direct + good.trailer), C.Bits(bad.direct + bad.trailer))
  }

  /** A request damaged in structure or trailer, in one burst of up to 16 bits or in an odd number of
      bits, stores nothing. */
  lemma DamagedWriteStoresNothing(f: Files, good: Command, bad: Command, forwarded: bool, env: Env)
    requires EnvOk(env) && !IsRead(good.head[7]) && !IsRead(bad.head[7]) && Intact(good)
    requires E.Burst(Damage(good, bad)) || E.Odd(Damage(good, bad))
    ensures Serve(f, bad, forwarded, env).files == f
  {
    hide E.Burst, E.Odd, E.Diff, C.Bits, Intact;
    IntactIsZeroResidue(good);
    IntactIsZeroResidue(bad);
    if E.Burst(Damage(good, bad)) {
      E.BurstChangesCrc(0, good.direct + good.trailer, bad.direct + bad.trailer);
    } else {
      E.OddErrorChangesCrc(0, good.direct + good.trailer, bad.direct + bad.trailer);
    }
  }

  /** So does a request damaged in exactly two bits, wherever they are. */
  lemma TwoBitDamageStoresNothing(f: Files, good: Command, bad: Command, i: nat, j: nat, forwarded: bool, env: Env)
    requires EnvOk(env) && !IsRead(good.head[7]) && !IsRead(bad.head[7]) && Intact(good)
    requires T.TwoHits(Damage(good, bad), i, j)
    ensures Serve(f, bad, forwarded, env).files == f
  {
    hide E.Diff, C.Bits, Intact;
    IntactIsZeroResidue(good);
    IntactIsZeroResidue(bad);
    T.TwoBitErrorUnnoticed(0, good.direct + good.trailer, bad.direct + bad.trailer, i, j);
    assert |Damage(good, bad)| == 8 * (DIRECT + 2);
  }

  lemma IntactIsZeroResidue(c: Command)
    requires !IsRead(c.head[7])
    ensures Intact(c) <==> C.Crc(0, c.direct + c.trailer) == 0
  {
    hide C.Crc, LE16, U16;
    BytesRoundTrip(c.trailer[0], c.trailer[1]);
    var x := U16(c.trailer[0], c.trailer[1]);
    assert c.trailer == LE16(x);
    C.ResidueIsZero(c.direct, x);
    if Intact(c) {
      SameWord(x, C.Crc(0, c.direct));
    }
  }

  lemma SameWord(x: bv16, y: bv16)
    requires LE16(x) == LE16(y)
    ensures x == y
  {
    hide U16, LowByte, HighByte;
    U16RoundTrip(x);
    U16RoundTrip(y);
    assert LE16(x)[0] == LE16(y)[0] && LE16(x)[1] == LE16(y)[1];
  }

  // ----- Requests that go on to the modem ---------------------------------------------------------

  /** A request with more bits than the two address bits goes on to the modem. It arrives there with
      exactly those other bits when it is a write whose WiFi address was not refused. A read arrives
      with subtype 1 instead, a refused write with subtype 0. */
  lemma ForwardsTheRest(f: Files, c: Command, env: Env)
    requires EnvOk(env) && OtherBits(c.head[7]) & 0x7F != 0
    ensures Serve(f, c, true, env).subtype == OtherBits(c.head[7])
      <==> !IsRead(c.head[7]) && !(Intact(c) && WifiRefused(c))
  {
    hide AfterMacWrite, Sealed, DirectFor, Intact, BtText, WifiText, Short, WifiOf;
    if IsRead(c.head[7]) {
      ReadBitStays(c.head[7]);
    }
    AddressBitsOnly(c.head[7]);
  }

  lemma ReadBitStays(b: Byte)
    requires IsRead(b)
    ensures OtherBits(b) != 1
  {}

  lemma AddressBitsOnly(b: Byte)
    requires OtherBits(b) & 0x7F != 0
    ensures OtherBits(b) != 0
  {}
}
