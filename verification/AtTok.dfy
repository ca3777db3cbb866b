/** modules/libFactoryRadioTest/at_tok.c: the tokenizer that cuts an AT response in place. */
module AtTok {
  import opened Options

  // ----- What a token is --------------------------------------------------------------------------

  predicate IsSpace(c: char) {
    c == ' ' || ('\t' <= c <= '\r')
  }

  function SkipWs(s: string): (t: string)
    ensures |t| <= |s|
    ensures t != "" ==> !IsSpace(t[0])
  {
    if s != "" && IsSpace(s[0]) then SkipWs(s[1..]) else s
  }

  /** The position of the first c, or the length if there is none. */
  function IndexOf(s: string, c: char): (i: nat)
    ensures i <= |s|
    ensures forall k :: 0 <= k < i ==> s[k] != c
    ensures i < |s| ==> s[i] == c
  {
    if s == "" || s[0] == c then 0 else 1 + IndexOf(s[1..], c)
  }

  /** What is left behind the next comma; nothing if there is none. */
  function AfterComma(s: string): string {
    var i := IndexOf(s, ',');
    if i < |s| then s[i + 1..] else ""
  }

  /** strsep: the text before the first c, and the text behind it unless there is no c. */
  function Cut(s: string, c: char): (r: (string, Option<string>)) {
    var i := IndexOf(s, c);
    if i < |s| then (s[..i], Some(s[i + 1..])) else (s, None)
  }

  lemma CutParts(s: string, c: char)
    ensures var i := IndexOf(s, c);
      Cut(s, c) == (s[..i], if i < |s| then Some(s[i + 1..]) else None)
  {
    hide IndexOf;
    assert s[..|s|] == s;
  }

  /** One token and the text left; None when the cursor becomes NULL. */
  function Next(s: string): (r: (string, Option<string>)) {
    var t := SkipWs(s);
    if t != "" && t[0] == '"' then
      var (tok, rest) := Cut(t[1..], '"');
      (tok, if rest.Some? then Some(AfterComma(rest.value)) else None)
    else Cut(t, ',')
  }

  predicate HasMoreIn(rest: Option<string>) {
    rest.Some? && rest.value != ""
  }

  // ----- The code ---------------------------------------------------------------------------------

  /** A token handed out: where it starts and what it reads. */
  datatype Token = Token(at: nat, text: string)

  class Tokenizer {
    /** The string, with its NUL in the last cell. */
    const text: array<char>
    /** *p_cur; None is NULL. */
    var cur: Option<nat>
    /** Every token handed out so far. */
    ghost var handed: seq<Token>

    constructor (s: string)
      requires forall k :: 0 <= k < |s| ==> s[k] != '\0'
      ensures Valid() && Rest() == Some(s) && handed == [] && fresh(text)
    {
      text := new char[|s| + 1](i requires 0 <= i <= |s| => if i < |s| then s[i] else '\0');
      cur := Some(0);
      handed := [];
      new;
      assert text[0..|s|] == s;
    }

    /** The text from the cursor on is a C string. */
    ghost predicate CursorOk()
      reads this`cur, text
    {
      && text.Length > 0 && text[text.Length - 1] == '\0'
      && (cur.Some? ==> cur.value < text.Length)
      && (cur.Some? ==> forall k :: cur.value <= k < text.Length - 1 ==> text[k] != '\0')
    }

    /** Every token handed out still reads as it did, from cells the cursor has passed. */
    ghost predicate Kept()
      reads this, text
    {
      forall i :: 0 <= i < |handed| ==> Reads(handed[i]) && Passed(handed[i])
    }

    ghost predicate Valid()
      reads this, text
    {
      CursorOk() && Kept()
    }

    ghost predicate Reads(t: Token)
      reads text
    {
      && t.at + |t.text| < text.Length
      && text[t.at..t.at + |t.text|] == t.text
      && text[t.at + |t.text|] == '\0'
      && forall k :: 0 <= k < |t.text| ==> t.text[k] != '\0'
    }

    ghost predicate Passed(t: Token)
      reads this`cur
    {
      cur.Some? ==> t.at + |t.text| < cur.value
    }

    ghost function Rest(): Option<string>
      requires CursorOk()
      reads this`cur, text
    {
      if cur.Some? then Some(text[cur.value..text.Length - 1]) else None
    }

    method SkipWhiteSpace()
      requires CursorOk()
      modifies this`cur
      ensures CursorOk() && (cur.Some? <==> old(cur).Some?)
      ensures cur.Some? ==> cur.value >= old(cur).value
      ensures Rest() == if old(Rest()).Some? then Some(SkipWs(old(Rest()).value)) else None
    {
      if cur == None {
        return;
      }
      while text[cur.value] != '\0' && IsSpace(text[cur.value])
        invariant CursorOk() && cur.Some? && cur.value >= old(cur.value)
        invariant SkipWs(Rest().value) == SkipWs(old(Rest().value))
        decreases text.Length - cur.value
      {
        assert Rest().value[1..] == text[cur.value + 1..text.Length - 1];
        cur := Some(cur.value + 1);
      }
    }

    method SkipNextComma()
      requires CursorOk()
      modifies this`cur
      ensures CursorOk() && (cur.Some? <==> old(cur).Some?)
      ensures cur.Some? ==> cur.value >= old(cur).value
      ensures Rest() == if old(Rest()).Some? then Some(AfterComma(old(Rest()).value)) else None
    {
      if cur == None {
        return;
      }
      ghost var s := Rest().value;
      while text[cur.value] != '\0' && text[cur.value] != ','
        invariant CursorOk() && cur.Some? && cur.value >= old(cur.value)
        invariant IndexOf(s, ',') == cur.value - old(cur.value) + IndexOf(Rest().value, ',')
        invariant |Rest().value| + (cur.value - old(cur.value)) == |s|
        decreases text.Length - cur.value
      {
        assert Rest().value[1..] == text[cur.value + 1..text.Length - 1];
        cur := Some(cur.value + 1);
      }
      if text[cur.value] == ',' {
        cur := Some(cur.value + 1);
      }
      assert Rest().value == s[cur.value - old(cur.value)..];
    }

    /** strsep: a NUL over the delimiter, the cursor behind it; NULL when there is none. */
    method StrSep(delim: char) returns (ret: nat)
      requires CursorOk() && cur.Some? && delim != '\0'
      modifies this`cur, text
      ensures var (tok, rest) := Cut(old(Rest()).value, delim);
        ret == old(cur).value && Reads(Token(ret, tok)) && Passed(Token(ret, tok))
        && CursorOk() && Rest() == rest
      ensures forall k :: 0 <= k < old(cur).value ==> text[k] == old(text[k])
      ensures cur.Some? ==> cur.value > old(cur).value
    {
      hide Cut, IndexOf;
      ret := cur.value;
      ghost var s := Rest().value;
      var p := Scan(ret, delim);
      ghost var tok := s[..p - ret];
      CutParts(s, delim);
      assert text[ret..p] == tok;
      assert forall k :: 0 <= k < |tok| ==> tok[k] == text[ret + k];
      if text[p] == '\0' {
        cur := None;
      } else {
        assert text[p + 1..text.Length - 1] == s[p - ret + 1..];
        text[p] := '\0';
        cur := Some(p + 1);
      }
    }

    /** The position of the delimiter, or of the NUL. */
    method Scan(from: nat, delim: char) returns (p: nat)
      requires CursorOk() && cur == Some(from) && delim != '\0'
      ensures from <= p < text.Length && p - from == IndexOf(Rest().value, delim)
      ensures p < text.Length - 1 ==> text[p] == delim
    {
      p := from;
      while text[p] != '\0' && text[p] != delim
        invariant from <= p < text.Length
        invariant IndexOf(Rest().value, delim) == p - from + IndexOf(text[p..text.Length - 1], delim)
        decreases text.Length - p
      {
        assert text[p..text.Length - 1][1..] == text[p + 1..text.Length - 1];
        p := p + 1;
      }
    }

    method NextTok() returns (ret: Option<nat>)
      requires Valid()
      modifies this, text
      ensures Valid()
      ensures old(cur) == None ==> ret == None && cur == None && handed == old(handed)
      ensures old(cur).Some? ==> Took(old(Rest()).value, old(handed), ret)
      ensures forall k :: 0 <= k < text.Length && (old(cur) == None || k < old(cur).value) ==>
        text[k] == old(text[k])
      ensures old(cur).Some? && cur.Some? ==> cur.value > old(cur).value
    {
      hide SkipWs, Cut, AfterComma, Reads;
      SkipWhiteSpace();
      if cur == None {
        return None;
      }
      ghost var s := Rest().value;
      var r: nat;
      ghost var tok: string;
      if text[cur.value] == '"' {
        cur := Some(cur.value + 1);
        assert Rest().value == s[1..];
        r := StrSep('"');
        SkipNextComma();
        tok := Cut(s[1..], '"').0;
      } else {
        r := StrSep(',');
        tok := Cut(s, ',').0;
      }
      TokensStay(handed);
      handed := handed + [Token(r, tok)];
      ret := Some(r);
    }

    /** Tokens in cells below the old cursor survive changes from there on. */
    twostate lemma TokensStay(tokens: seq<Token>)
      requires old(cur).Some? && old(cur).value < text.Length
      requires forall i :: 0 <= i < |tokens| ==> old(Reads(tokens[i])) && old(Passed(tokens[i]))
      requires forall k :: 0 <= k < old(cur).value ==> text[k] == old(text[k])
      requires cur.Some? ==> cur.value >= old(cur).value
      ensures forall i :: 0 <= i < |tokens| ==> Reads(tokens[i]) && Passed(tokens[i])
    {}

    /** The token taken from s is the latest one handed out; the rest of s is left. */
    ghost predicate Took(s: string, before: seq<Token>, ret: Option<nat>)
      requires CursorOk()
      reads this, text
    {
      && ret.Some?
      && Rest() == Next(s).1
      && handed == before + [Token(ret.value, Next(s).0)]
    }

    /** at_tok_nextstr: 0 and the token, or -1 when the cursor is NULL. */
    method NextStr() returns (status: int, ret: Option<nat>)
      requires Valid()
      modifies this, text
      ensures Valid()
      ensures old(cur) == None ==> status == -1 && ret == None && cur == None && handed == old(handed)
      ensures old(cur).Some? ==> status == 0 && Took(old(Rest()).value, old(handed), ret)
      ensures forall k :: 0 <= k < text.Length && (old(cur) == None || k < old(cur).value) ==>
        text[k] == old(text[k])
    {
      if cur == None {
        return -1, None;
      }
      ret := NextTok();
      status := 0;
    }

    /** at_tok_nextint: the number is stored whenever there is a token, even one with no digits. */
    method NextInt() returns (status: int, out: Option<int>)
      requires Valid()
      modifies this, text
      ensures Valid()
      ensures old(cur) == None ==> status == -1 && out == None && cur == None && handed == old(handed)
      ensures old(cur).Some? ==>
        var (tok, rest) := Next(old(Rest()).value);
        && Rest() == rest && out == Some(Strtol(tok).0) && status == (if Strtol(tok).1 then 0 else -1)
        && exists at: nat :: handed == old(handed) + [Token(at, tok)]
      ensures forall k :: 0 <= k < text.Length && (old(cur) == None || k < old(cur).value) ==>
        text[k] == old(text[k])
    {
      hide Next, Strtol;
      if cur == None {
        return -1, None;
      }
      var ret := NextTok();
      assert handed == old(handed) + [Token(ret.value, Next(old(Rest()).value).0)];
      var tok := CString(handed[|handed| - 1], ret.value);
      out := Some(Strtol(tok).0);
      status := if Strtol(tok).1 then 0 else -1;
    }

    /** The text strtol gets to see. */
    method CString(ghost t: Token, at: nat) returns (s: string)
      requires at == t.at && Reads(t)
      ensures s == t.text
    {
      var p := at;
      while text[p] != '\0'
        invariant at <= p <= at + |t.text|
        decreases text.Length - p
      {
        assert text[p] == text[t.at..t.at + |t.text|][p - at];
        p := p + 1;
      }
      s := text[at..p];
    }

    method HasMore() returns (more: bool)
      requires Valid()
      ensures more == HasMoreIn(Rest())
    {
      more := cur.Some? && text[cur.value] != '\0';
    }

    /** at_tok_flag_start: the cursor goes behind the first flag character, or to NULL. */
    method FlagStart(flag: char) returns (status: int)
      requires Valid() && flag != '\0'
      modifies this`cur
      ensures Valid()
      ensures old(cur) == None ==> status == -1 && cur == None
      ensures old(cur).Some? ==>
        Rest() == Cut(old(Rest()).value, flag).1 && status == if Rest().Some? then 0 else -1
    {
      if cur == None {
        return -1;
      }
      ghost var s, from := Rest().value, cur.value;
      var p := Scan(cur.value, flag);
      if text[p] == '\0' {
        cur := None;
        return -1;
      }
      assert text[p + 1..text.Length - 1] == s[p - from + 1..];
      cur := Some(p + 1);
      return 0;
    }
  }

  // ----- strtol, base 10 --------------------------------------------------------------------------

  predicate IsDigit(c: char) {
    '0' <= c <= '9'
  }

  function DigitCount(s: string): (n: nat)
    ensures n <= |s|
    ensures forall k :: 0 <= k < n ==> IsDigit(s[k])
    ensures n < |s| ==> !IsDigit(s[n])
  {
    if s == "" || !IsDigit(s[0]) then 0 else 1 + DigitCount(s[1..])
  }

  function ValueOf(digits: string): nat
    requires forall k :: 0 <= k < |digits| ==> IsDigit(digits[k])
    decreases |digits|
  {
    if digits == "" then 0
    else
      var n := |digits| - 1;
      assert IsDigit(digits[n]);
      10 * ValueOf(digits[..n]) + (digits[n] as int - '0' as int)
  }

  /** The value, saturated to a 32-bit long, and whether there was any digit. */
  function Strtol(s: string): (r: (int, bool))
    ensures -0x8000_0000 <= r.0 <= 0x7FFF_FFFF
  {
    var t := SkipWs(s);
    var body := Unsigned(t);
    var n := DigitCount(body);
    if n == 0 then (0, false) else (Saturated(HasMinus(t), ValueOf(body[..n])), true)
  }

  predicate HasMinus(s: string) {
    s != "" && s[0] == '-'
  }

  function Unsigned(s: string): string {
    if s != "" && (s[0] == '-' || s[0] == '+') then s[1..] else s
  }

  function Saturated(minus: bool, v: int): (n: int)
    requires v >= 0
    ensures -0x8000_0000 <= n <= 0x7FFF_FFFF
  {
    if minus then (if v > 0x8000_0000 then -0x8000_0000 else -v)
    else (if v > 0x7FFF_FFFF then 0x7FFF_FFFF else v)
  }

  /** printf's %d. */
  function PrintNat(n: nat): (s: string)
    ensures s != "" && forall k :: 0 <= k < |s| ==> IsDigit(s[k])
  {
    var d := [('0' as int + n % 10) as char];
    if n < 10 then d else PrintNat(n / 10) + d
  }

  function PrintInt(n: int): string {
    if n < 0 then "-" + PrintNat(-n) else PrintNat(n)
  }

  lemma {:induction false} PrintedValue(n: nat)
    ensures ValueOf(PrintNat(n)) == n
    decreases n
  {
    var s := PrintNat(n);
    var k := |s| - 1;
    if n < 10 {
      assert s[..k] == "";
    } else {
      PrintedValue(n / 10);
      assert s[..k] == PrintNat(n / 10);
    }
    assert s[k] as int - '0' as int == n % 10;
  }

  /** A printed number comes back, up to the limits of the type. */
  lemma PrintedComesBack(n: int)
    requires -0x8000_0000 <= n <= 0x7FFF_FFFF
    ensures Strtol(PrintInt(n)) == (n, true)
  {
    var m := if n < 0 then -n else n;
    PrintedValue(m);
    hide PrintNat, ValueOf, Strtol;
    if n < 0 {
      MinusAndDigits(PrintNat(m));
    } else {
      DigitsAlone(PrintNat(m));
    }
  }

  lemma DigitsAlone(digits: string)
    requires digits != "" && forall k :: 0 <= k < |digits| ==> IsDigit(digits[k])
    ensures Strtol(digits) == (Saturated(false, ValueOf(digits)), true)
  {
    NoSpaceToSkip(digits);
    AllDigits(digits);
    hide SkipWs, DigitCount, ValueOf, Saturated;
    assert !HasMinus(digits) && Unsigned(digits) == digits;
    assert digits[..|digits|] == digits;
  }

  lemma MinusAndDigits(digits: string)
    requires digits != "" && forall k :: 0 <= k < |digits| ==> IsDigit(digits[k])
    ensures Strtol("-" + digits) == (Saturated(true, ValueOf(digits)), true)
  {
    var s := "-" + digits;
    NoSpaceToSkip(s);
    AllDigits(digits);
    hide SkipWs, DigitCount, ValueOf, Saturated;
    assert s[1..] == digits;
    assert HasMinus(s) && Unsigned(s) == digits;
    hide HasMinus, Unsigned;
    assert digits[..|digits|] == digits;
  }

  lemma {:induction false} AllDigits(s: string)
    requires forall k :: 0 <= k < |s| ==> IsDigit(s[k])
    ensures DigitCount(s) == |s|
    decreases |s|
  {
    if s != "" {
      AllDigits(s[1..]);
    }
  }

  // ----- Joined fields come apart again -----------------------------------------------------------

  datatype Field = Bare(text: string) | Quoted(text: string)

  predicate Sound(f: Field) {
    match f
    case Bare(s) => BareOk(s)
    case Quoted(s) => '"' !in s
  }

  /** What may stand without quotes. */
  predicate BareOk(s: string) {
    ',' !in s && (s != "" ==> !IsSpace(s[0]) && s[0] != '"')
  }

  function Write(f: Field): string {
    match f
    case Bare(s) => s
    case Quoted(s) => "\"" + s + "\""
  }

  function Join(fields: seq<Field>): string {
    if fields == [] then ""
    else if |fields| == 1 then Write(fields[0])
    else Write(fields[0]) + ("," + Join(fields[1..]))
  }

  /** The tokens of n calls, and what is left. */
  function Take(n: nat, rest: Option<string>): (r: (seq<string>, Option<string>)) {
    if n == 0 || rest == None then ([], rest)
    else
      var (tok, left) := Next(rest.value);
      var (toks, end) := Take(n - 1, left);
      ([tok] + toks, end)
  }

  function Texts(fields: seq<Field>): (t: seq<string>)
    ensures |t| == |fields|
  {
    if fields == [] then [] else [fields[0].text] + Texts(fields[1..])
  }

  /** As many calls as there are fields return the fields and leave no more tokens. */
  lemma {:induction false} JoinComesApart(fields: seq<Field>)
    requires forall i :: 0 <= i < |fields| ==> Sound(fields[i])
    ensures Take(|fields|, Some(Join(fields))).0 == Texts(fields)
    ensures !HasMoreIn(Take(|fields|, Some(Join(fields))).1)
    decreases |fields|
  {
    hide Next, Write, Sound;
    if fields == [] {
    } else if |fields| == 1 {
      LastField(fields[0]);
      assert Join(fields) == Write(fields[0]);
      TakeCons(1, Join(fields));
      assert Texts(fields) == [fields[0].text] + Texts(fields[1..]) && fields[1..] == [];
    } else {
      var more := Join(fields[1..]);
      FirstField(fields[0], more);
      assert Join(fields) == Write(fields[0]) + ("," + more);
      TakeCons(|fields|, Join(fields));
      JoinComesApart(fields[1..]);
    }
  }

  /** The tokens a caller gets who asks for more as long as there are more. */
  function TakeAll(rest: Option<string>): seq<string>
    decreases Left(rest)
  {
    if !HasMoreIn(rest) then []
    else
      NextShrinks(rest.value);
      [Next(rest.value).0] + TakeAll(Next(rest.value).1)
  }

  /** at_tok_hasmore and at_tok_nextstr in turn. */
  method NextTokens(t: Tokenizer) returns (tokens: seq<string>)
    requires t.Valid()
    modifies t, t.text
    ensures t.Valid() && !HasMoreIn(t.Rest())
    ensures tokens == TakeAll(old(t.Rest()))
  {
    hide Next, HasMoreIn, TakeAll;
    tokens := [];
    var more := t.HasMore();
    ghost var all := TakeAll(t.Rest());
    while more
      invariant t.Valid() && more == HasMoreIn(t.Rest())
      invariant all == tokens + TakeAll(t.Rest())
      decreases Left(t.Rest())
    {
      TakeOne(t.Rest(), tokens);
      var token := NextText(t);
      tokens := tokens + [token];
      more := t.HasMore();
    }
    TakeNone(t.Rest());
  }

  /** at_tok_nextstr, and the text it hands out. */
  method NextText(t: Tokenizer) returns (token: string)
    requires t.Valid() && t.Rest().Some?
    modifies t, t.text
    ensures t.Valid() && (token, t.Rest()) == Next(old(t.Rest()).value)
  {
    hide Next;
    var status, at := t.NextStr();
    ghost var last := t.handed[|t.handed| - 1];
    token := t.CString(last, at.value);
  }

  lemma TakeOne(rest: Option<string>, before: seq<string>)
    requires HasMoreIn(rest)
    ensures rest.Some? && Left(Next(rest.value).1) < Left(rest)
    ensures before + TakeAll(rest) == (before + [Next(rest.value).0]) + TakeAll(Next(rest.value).1)
  {
    NextShrinks(rest.value);
    hide Next;
    var toks := TakeAll(Next(rest.value).1);
    assert TakeAll(rest) == [Next(rest.value).0] + toks;
    hide TakeAll;
    assert before + ([Next(rest.value).0] + toks) == (before + [Next(rest.value).0]) + toks;
  }

  lemma TakeNone(rest: Option<string>)
    requires !HasMoreIn(rest)
    ensures TakeAll(rest) == []
  {}

  /** Such a caller loses the last field when it is empty and stands without quotes, and only then. */
  lemma LoopReturnsFields(fields: seq<Field>)
    requires forall i :: 0 <= i < |fields| ==> Sound(fields[i])
    ensures TakeAll(Some(Join(fields))) == Texts(fields) <==> fields == [] || fields[|fields| - 1] != Bare("")
  {
    LoopTakes(fields);
    hide TakeAll, Join, Texts, Sound;
    assert fields != [] && fields[|fields| - 1] == Bare("") ==> |Taken(fields)| < |Texts(fields)|;
  }

  /** The texts of all fields but a last one that is empty and bare. */
  function Taken(fields: seq<Field>): seq<string> {
    if fields != [] && fields[|fields| - 1] == Bare("") then Texts(fields[..|fields| - 1]) else Texts(fields)
  }

  lemma TakenCons(fields: seq<Field>)
    requires |fields| > 1
    ensures Taken(fields) == [fields[0].text] + Taken(fields[1..])
  {
    var n := |fields| - 1;
    assert fields[1..][n - 1] == fields[n];
    assert fields[..n][1..] == fields[1..][..n - 1];
  }

  lemma {:induction false} LoopTakes(fields: seq<Field>)
    requires forall i :: 0 <= i < |fields| ==> Sound(fields[i])
    ensures TakeAll(Some(Join(fields))) == Taken(fields)
    decreases |fields|
  {
    hide Sound, TakeAll, Taken, Write;
    if |fields| <= 1 {
      LastLoop(fields);
    } else {
      LoopTakes(fields[1..]);
      TakenCons(fields);
      FirstLoop(fields[0], Join(fields[1..]));
    }
  }

  lemma FirstLoop(f: Field, more: string)
    requires Sound(f)
    ensures TakeAll(Some(Write(f) + ("," + more))) == [f.text] + TakeAll(Some(more))
  {
    var s := Write(f) + ("," + more);
    FirstField(f, more);
    assert s != "" by {
      assert s[|Write(f)|] == ',';
    }
    hide Next, Write, Sound;
    TakeOne(Some(s), []);
    hide TakeAll;
    assert [] + TakeAll(Some(s)) == TakeAll(Some(s));
    assert [] + [f.text] == [f.text];
  }

  lemma LastLoop(fields: seq<Field>)
    requires |fields| <= 1 && forall i :: 0 <= i < |fields| ==> Sound(fields[i])
    ensures TakeAll(Some(Join(fields))) == Taken(fields)
  {
    if fields == [] {
      TakeNone(Some(""));
    } else {
      var f := fields[0];
      LastField(f);
      assert Texts(fields) == [f.text] + Texts(fields[1..]) && fields[1..] == [] && fields[..0] == [];
      if Write(f) == "" {
        TakeNone(Some(""));
      } else {
        hide Next, Sound;
        TakeOne(Some(Write(f)), []);
        TakeNone(Next(Write(f)).1);
        hide TakeAll;
        assert [] + TakeAll(Some(Write(f))) == TakeAll(Some(Write(f)));
      }
    }
  }

  lemma TakeCons(n: nat, s: string)
    requires n > 0
    ensures Take(n, Some(s))
         == ([Next(s).0] + Take(n - 1, Next(s).1).0, Take(n - 1, Next(s).1).1)
  {
    hide Next;
  }

  lemma FirstField(f: Field, more: string)
    requires Sound(f)
    ensures Next(Write(f) + ("," + more)) == (f.text, Some(more))
  {
    hide Next, SkipWs, IndexOf, Cut, BareOk;
    match f {
      case Bare(x) =>
        BareField(x, more);
      case Quoted(x) =>
        QuotedField(x, more);
        QuotesRegroup(x, more);
    }
  }

  lemma BareField(x: string, more: string)
    requires BareOk(x)
    ensures Next(x + ("," + more)) == (x, Some(more))
  {
    hide Cut, IndexOf;
    var s := x + ("," + more);
    NoSpaceToSkip(s);
    hide SkipWs;
    CutAt(x, ',', more);
  }

  lemma NoSpaceToSkip(s: string)
    requires s != "" ==> !IsSpace(s[0])
    ensures SkipWs(s) == s
  {}

  lemma QuotesRegroup(x: string, more: string)
    ensures Write(Quoted(x)) + ("," + more) == "\"" + (x + ("\"" + ("," + more)))
  {}

  lemma QuotedField(x: string, more: string)
    requires '"' !in x
    ensures Next("\"" + (x + ("\"" + ("," + more)))) == (x, Some(more))
  {
    hide Cut, IndexOf, AfterComma;
    var s := "\"" + (x + ("\"" + ("," + more)));
    NoSpaceToSkip(s);
    hide SkipWs;
    assert s[0] == '"' && s[1..] == x + ("\"" + ("," + more));
    CutAt(x, '"', "," + more);
    CommaFirst(more);
  }

  lemma CommaFirst(more: string)
    ensures AfterComma("," + more) == more
  {
    assert ("," + more)[1..] == more;
  }

  lemma LastField(f: Field)
    requires Sound(f)
    ensures Next(Write(f)).0 == f.text && !HasMoreIn(Next(Write(f)).1)
  {
    match f {
      case Bare(x) =>
        assert SkipWs(x) == x;
        NotFound(x, ',');
      case Quoted(x) =>
        var s := Write(f);
        assert s[1..] == x + ("\"" + "");
        CutAt(x, '"', "");
    }
  }

  lemma {:induction false} CutAt(x: string, c: char, more: string)
    requires c !in x
    ensures Cut(x + ([c] + more), c) == (x, Some(more))
  {
    var s := x + ([c] + more);
    FoundAt(x, c, more);
    assert s[..|x|] == x && s[|x| + 1..] == more;
  }

  lemma {:induction false} FoundAt(x: string, c: char, more: string)
    requires c !in x
    ensures IndexOf(x + ([c] + more), c) == |x|
    decreases |x|
  {
    if x != "" {
      assert (x + ([c] + more))[1..] == x[1..] + ([c] + more);
      assert x[0] in x;
      FoundAt(x[1..], c, more);
    }
  }

  lemma {:induction false} NotFound(x: string, c: char)
    requires c !in x
    ensures IndexOf(x, c) == |x|
    decreases |x|
  {
    if x != "" {
      assert x[0] in x;
      NotFound(x[1..], c);
    }
  }

  /** A field may stand without quotes exactly when it has no comma and does not begin with white
      space or a quote: every other text comes back as something else. */
  lemma BareExactly(x: string, more: string)
    ensures Next(x + ("," + more)) == (x, Some(more)) <==> BareOk(x)
  {
    var s := x + ("," + more);
    if BareOk(x) {
      FirstField(Bare(x), more);
    } else if x != "" && IsSpace(x[0]) {
      TokenStart(s);
    } else if x != "" && x[0] == '"' {
      assert SkipWs(s) == s;
      assert '"' in x;
      var u := s[1..];
      assert forall k :: 0 <= k < IndexOf(u, '"') ==> u[k] != '"';
    } else {
      assert SkipWs(s) == s;
      var i :| 0 <= i < |x| && x[i] == ',';
      assert s[i] == ',';
    }
  }

  /** A token never begins with white space. */
  lemma TokenStart(s: string)
    ensures var (tok, rest) := Next(s);
      tok != "" && SkipWs(s)[..1] != "\"" ==> !IsSpace(tok[0])
  {}

  /** Printed numbers can stand without quotes, so a list of them is read back number by number. */
  lemma PrintedFieldComesBack(n: int, more: string)
    requires -0x8000_0000 <= n <= 0x7FFF_FFFF
    ensures Next(PrintInt(n) + ("," + more)) == (PrintInt(n), Some(more))
    ensures Next(PrintInt(n)) == (PrintInt(n), None)
    ensures Strtol(PrintInt(n)) == (n, true)
  {
    PrintedComesBack(n);
    PrintedIsBare(n);
    hide PrintInt, Strtol, BareOk, Next;
    FirstField(Bare(PrintInt(n)), more);
    BareAlone(PrintInt(n));
  }

  lemma PrintedIsBare(n: int)
    ensures BareOk(PrintInt(n))
  {
    var s := PrintInt(n);
    assert forall k :: 0 <= k < |s| ==> s[k] == '-' || IsDigit(s[k]);
  }

  lemma BareAlone(x: string)
    requires BareOk(x)
    ensures Next(x) == (x, None)
  {
    NoSpaceToSkip(x);
    hide SkipWs;
    NotFound(x, ',');
    hide IndexOf;
  }

  /** Every call shortens what is left: a NULL cursor counts as nothing, an empty text as one. */
  lemma NextShrinks(s: string)
    ensures Left(Next(s).1) < Left(Some(s))
  {}

  function Left(rest: Option<string>): nat {
    if rest == None then 0 else |rest.value| + 1
  }
}
