/** modules/libmiscdata/bt_wifi_mac.c: the files that hold the Bluetooth and WiFi addresses, and the
    write that must not disturb the address it was not given. */
module MacFiles {
  import opened Options
  import opened AtTok
  import opened Bytes
  import opened MacText

  const READ_MAX: nat := 31
  const BUFFER: nat := 32

  /** The four address files; None where there is no file. */
  datatype Files = Files(wifi: Option<string>, bt: Option<string>, wifiRoot: Option<string>, btRoot: Option<string>)

  datatype Kind = Bt | Wifi

  /** What the operating system answers: whether the file opens, and what read or write returns. */
  datatype FileIo = FileIo(open: bool, moved: int)

  /** The two writes of write_mac2file, and whether the old Bluetooth file could be removed. */
  datatype WriteIo = WriteIo(wifi: FileIo, bt: FileIo, removed: bool)

  /** The file an address is read from: the primary one if it exists. */
  function Source(f: Files, k: Kind): Option<string> {
    match k
    case Wifi => if f.wifi.Some? then f.wifi else f.wifiRoot
    case Bt => if f.bt.Some? then f.bt else f.btRoot
  }

  /** The characters a read delivers: at most 31, none when open or read fails. */
  function Got(content: Option<string>, io: FileIo): (got: string)
    ensures |got| <= READ_MAX
  {
    if content == None || !io.open || io.moved < 0 then ""
    else content.value[..Min(io.moved, Min(READ_MAX, |content.value|))]
  }

  /** A buffer whose front has been overwritten. */
  function Overlay(buffer: string, got: string): (s: string)
    requires |got| <= |buffer|
    ensures |s| == |buffer|
  {
    got + buffer[|got|..]
  }

  /** The text up to the first NUL. */
  function CString(buffer: string): string {
    buffer[..IndexOf(buffer, '\0')]
  }

  /** A zeroed 32-character buffer with a text in it. */
  function Buffer(s: string): (b: string)
    requires |s| <= READ_MAX
    ensures |b| == BUFFER
  {
    s + seq(BUFFER - |s|, _ => '\0')
  }

  /** The address that is written when none was given: what the file holds, over a fallback. */
  function Resolved(fallback: string, got: string): string
    requires |fallback| <= READ_MAX && |got| <= READ_MAX
  {
    CString(Overlay(Buffer(fallback), got))
  }

  /** A file after truncating it and writing a text, of which io.moved characters get there. */
  function Put(text: string, io: FileIo): string {
    if io.moved < 0 then "" else text[..Min(io.moved, |text|)]
  }

  function WriteReturns(text: string, io: FileIo): int {
    if io.moved < 0 then -1 else Min(io.moved, |text|)
  }

  /** write_mac2file: the files afterwards and the value returned. */
  function AfterWrite2File(f: Files, wifi: string, bt: string, io: WriteIo): (r: (Files, int)) {
    if !io.wifi.open then (f, -1)
    else
      var g := f.(wifi := Some(Put(wifi, io.wifi)));
      if !io.bt.open then (g, -1)
      else (g.(bt := Some(Put(bt, io.bt)), btRoot := if io.removed then None else g.btRoot),
            WriteReturns(bt, io.bt))
  }

  /** Everything eng_btwifimac_write depends on besides its arguments: the generated fallbacks, the
      reads of the stored addresses, and the writes. */
  datatype Env = Env(btFallback: string, wifiFallback: string, btRead: FileIo, wifiRead: FileIo, write: WriteIo)

  ghost predicate Fallback(s: string) {
    |s| <= READ_MAX && Text(s)
  }

  ghost predicate EnvOk(env: Env) {
    Fallback(env.btFallback) && Fallback(env.wifiFallback)
  }

  /** eng_btwifimac_write: None stands for a NULL argument. */
  function AfterMacWrite(f: Files, bt: Option<string>, wifi: Option<string>, env: Env): (r: (Files, int))
    requires |env.btFallback| <= READ_MAX && |env.wifiFallback| <= READ_MAX
  {
    var bt' := if bt.Some? then bt.value else Resolved(env.btFallback, Got(Source(f, Bt), env.btRead));
    var wifi' := if wifi.Some? then wifi.value else Resolved(env.wifiFallback, Got(Source(f, Wifi), env.wifiRead));
    AfterWrite2File(f, wifi', bt', env.write)
  }

  // ----- The code ---------------------------------------------------------------------------------

  class MacStore {
    var files: Files

    constructor (f: Files)
      ensures files == f
    {
      files := f;
    }

    /** eng_btwifimac_read. */
    method Read(mac: array<char>, kind: Kind, io: FileIo) returns (ret: int)
      requires mac.Length >= READ_MAX
      modifies mac
      ensures var got := Got(Source(files, kind), io);
        mac[..] == Overlay(old(mac[..]), got) && ret == if got == "" then -1 else 0
    {
      var content;
      if kind == Wifi {
        content := if files.wifi.Some? then files.wifi else files.wifiRoot;
      } else {
        content := if files.bt.Some? then files.bt else files.btRoot;
      }
      if content.Some? && io.open {
        var rcount := if io.moved < 0 then -1 else Min(io.moved, Min(READ_MAX, |content.value|));
        if rcount > 0 {
          CopyOver(mac, content.value[..rcount]);
        } else {
          assert mac[..] == Overlay(mac[..], "");
        }
        ret := if rcount <= 0 then -1 else 0;
      } else {
        assert mac[..] == Overlay(mac[..], "");
        ret := -1;
      }
    }

    static method CopyOver(mac: array<char>, text: string)
      requires |text| <= mac.Length
      modifies mac
      ensures mac[..] == Overlay(old(mac[..]), text)
    {
      ghost var was := mac[..];
      for i := 0 to |text|
        invariant mac[..] == Overlay(was, text[..i])
      {
        assert text[..i + 1] == text[..i] + [text[i]];
        mac[i] := text[i];
      }
      assert text[..|text|] == text;
    }

    method WriteMac2File(wifi: string, bt: string, io: WriteIo) returns (ret: int)
      modifies this
      ensures (files, ret) == AfterWrite2File(old(files), wifi, bt, io)
    {
      if io.wifi.open {
        files := files.(wifi := Some(Put(wifi, io.wifi)));
        ret := WriteReturns(wifi, io.wifi);
      } else {
        ret := -1;
        return;
      }
      if io.bt.open {
        files := files.(bt := Some(Put(bt, io.bt)));
        ret := WriteReturns(bt, io.bt);
        if files.btRoot.Some? && io.removed {
          files := files.(btRoot := None);
        }
      } else {
        ret := -1;
      }
    }

    /** eng_btwifimac_write. */
    method Write(btMac: Option<string>, wifiMac: Option<string>, env: Env) returns (ret: int)
      requires EnvOk(env)
      modifies this
      ensures (files, ret) == AfterMacWrite(old(files), btMac, wifiMac, env)
    {
      hide Got, Overlay, CString, Buffer, AfterWrite2File;
      var bt, wifi := btMac, wifiMac;
      if btMac == None || wifiMac == None {
        var btRand := Generated(env.btFallback);
        var wifiRand := Generated(env.wifiFallback);
        if btMac == None {
          var got := Read(btRand, Bt, env.btRead);
          bt := Some(CString(btRand[..]));
        }
        if wifiMac == None {
          var got := Read(wifiRand, Wifi, env.wifiRead);
          wifi := Some(CString(wifiRand[..]));
        }
      }
      ret := WriteMac2File(wifi.value, bt.value, env.write);
    }

    /** A zeroed buffer with the generated address in it. */
    method Generated(fallback: string) returns (rand: array<char>)
      requires Fallback(fallback)
      ensures fresh(rand) && rand.Length == BUFFER && rand[..] == Buffer(fallback)
    {
      rand := new char[BUFFER](_ => '\0');
      CopyOver(rand, fallback);
    }
  }

  // ----- The address that was not given -----------------------------------------------------------

  predicate Complete(io: FileIo, n: nat) {
    io.open && io.moved >= n
  }

  /** No step of the write fails. */
  predicate Works(env: Env) {
    && Complete(env.btRead, READ_MAX) && Complete(env.wifiRead, READ_MAX)
    && Complete(env.write.wifi, READ_MAX) && Complete(env.write.bt, READ_MAX)
  }

  lemma TextEnds(s: string, zeros: nat)
    requires Text(s) && zeros > 0
    ensures CString(s + seq(zeros, _ => '\0')) == s
  {
    var b := s + seq(zeros, _ => '\0');
    assert b[|s|] == '\0';
    assert forall k :: 0 <= k < |s| ==> b[k] == s[k];
    assert IndexOf(b, '\0') == |s|;
  }

  lemma CStringIsText(b: string)
    ensures Text(CString(b))
  {}

  /** What is written for a stored text is that text, exactly when it is no longer than a read and no
      shorter than the fallback, whose end would otherwise show behind it. */
  lemma ResolvedIsStored(fallback: string, content: string, io: FileIo)
    requires Fallback(fallback) && Complete(io, READ_MAX)
    ensures Resolved(fallback, Got(Some(content), io)) == content
      <==> Text(content) && |fallback| <= |content| <= READ_MAX
  {
    var got := Got(Some(content), io);
    if |fallback| <= |got| {
      assert Overlay(Buffer(fallback), got) == got + seq(BUFFER - |got|, _ => '\0');
      if Text(got) {
        TextEnds(got, BUFFER - |got|);
      }
    } else {
      var s := got + fallback[|got|..];
      assert Overlay(Buffer(fallback), got) == s + seq(BUFFER - |s|, _ => '\0');
      if Text(got) {
        TextEnds(s, BUFFER - |s|);
      }
    }
    CStringIsText(Overlay(Buffer(fallback), got));
  }

  /** A Bluetooth-only write leaves the stored WiFi address as it was exactly when that address is
      plain text, no longer than a read and no shorter than the generated fallback. */
  lemma BtWriteKeepsWifi(f: Files, bt: string, stored: string, env: Env)
    requires EnvOk(env) && Works(env) && |bt| <= READ_MAX
    requires Source(f, Wifi) == Some(stored)
    ensures var (after, ret) := AfterMacWrite(f, Some(bt), None, env);
      && after.bt == Some(bt) && ret == |bt|
      && (after.wifi == Some(stored) <==> Text(stored) && |env.wifiFallback| <= |stored| <= READ_MAX)
  {
    ResolvedIsStored(env.wifiFallback, stored, env.wifiRead);
    ResolvedFits(env.wifiFallback, Got(Some(stored), env.wifiRead));
    hide Resolved, Got;
    var wifi := Resolved(env.wifiFallback, Got(Some(stored), env.wifiRead));
    assert Put(wifi, env.write.wifi) == wifi && Put(bt, env.write.bt) == bt;
  }

  /** The same the other way round. */
  lemma WifiWriteKeepsBt(f: Files, wifi: string, stored: string, env: Env)
    requires EnvOk(env) && Works(env) && |wifi| <= READ_MAX
    requires Source(f, Bt) == Some(stored)
    ensures var (after, ret) := AfterMacWrite(f, None, Some(wifi), env);
      && after.wifi == Some(wifi)
      && (after.bt == Some(stored) <==> Text(stored) && |env.btFallback| <= |stored| <= READ_MAX)
  {
    ResolvedIsStored(env.btFallback, stored, env.btRead);
    ResolvedFits(env.btFallback, Got(Some(stored), env.btRead));
    hide Resolved, Got;
    var bt := Resolved(env.btFallback, Got(Some(stored), env.btRead));
    assert Put(wifi, env.write.wifi) == wifi && Put(bt, env.write.bt) == bt;
  }

  lemma ResolvedFits(fallback: string, got: string)
    requires |fallback| <= READ_MAX && |got| <= READ_MAX
    ensures |Resolved(fallback, got)| <= READ_MAX
  {
    var b := Overlay(Buffer(fallback), got);
    assert b[READ_MAX] == '\0';
  }

  /** What a positive return value tells: both files could be opened and some of the Bluetooth
      address was written. It tells nothing about the write of the WiFi address. */
  lemma ReportedSuccess(f: Files, wifi: string, bt: string, io: WriteIo)
    ensures var (after, ret) := AfterWrite2File(f, wifi, bt, io);
      && (ret > 0 <==> io.wifi.open && io.bt.open && io.bt.moved > 0 && bt != "")
      && (ret > 0 ==> after.bt == Some(bt[..ret]))
      && (ret > 0 ==> (after.wifi == Some(wifi) <==> wifi == "" || io.wifi.moved >= |wifi|))
  {
    if io.wifi.moved >= |wifi| {
      assert Put(wifi, io.wifi) == wifi;
    }
  }
}
