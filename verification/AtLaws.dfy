/** The AT channel, its command loop and the tokenizer in literal characters: laws that name no
    definition but the one they are about. */
module AtLaws {
  import opened Options
  import opened LineSplit
  import opened AtChannel
  import C = AtCommand
  import T = AtTok

  // ----- Lines ------------------------------------------------------------------------------------

  /** Text without CR and LF. */
  lemma {:induction false} NoEndNoLine(text: string)
    requires forall k :: 0 <= k < |text| ==> text[k] != '\r' && text[k] != '\n'
    ensures Split(text) == Splitter([], text)
  {
    RunFeedsOpen("", text);
    assert "" + text == text;
  }

  /** CR ends a line, and so does LF. */
  lemma EndedLine(line: string, end: char, rest: string)
    requires line != "" && (end == '\r' || end == '\n')
    requires forall k :: 0 <= k < |line| ==> line[k] != '\r' && line[k] != '\n'
    ensures Split(line + [end] + rest) == Splitter([line] + Split(rest).lines, Split(rest).open)
  {
    SplitAt(line, end, rest);
    assert line + [end] + rest == line + ([end] + rest);
  }

  /** An empty line is none. */
  lemma EmptyLine(end: char, rest: string)
    requires end == '\r' || end == '\n'
    ensures Split([end] + rest) == Split(rest)
  {
    assert ([end] + rest)[1..] == rest;
  }

  /** What the buffer of 512 cells can take: no stretch of line ends and line together may be longer
      than 511 characters. */
  lemma FitsExactly(text: string)
    ensures Fits(text) <==> forall i: nat, m: nat, j: nat ::
      i <= m <= j <= |text| && AllEnds(text, i, m) && NoEnds(text, m, j) ==> j - i <= 511
  {
    if Fits(text) {
      forall i: nat, m: nat, j: nat | i <= m <= j <= |text| && AllEnds(text, i, m) && NoEnds(text, m, j)
        ensures j - i <= 511
      {
        assert AllEol(text, i, m) && NoEol(text, m, j);
        assert RunLine(text, i, j);
      }
    }
    if forall i: nat, m: nat, j: nat ::
         i <= m <= j <= |text| && AllEnds(text, i, m) && NoEnds(text, m, j) ==> j - i <= 511 {
      forall i: nat, j: nat | i <= j <= |text| && RunLine(text, i, j)
        ensures j - i < AT_BUFFER_SIZE
      {
        var m: nat :| i <= m <= j && AllEol(text, i, m) && NoEol(text, m, j);
        assert AllEnds(text, i, m) && NoEnds(text, m, j);
      }
    }
  }

  ghost predicate AllEnds(text: string, i: nat, j: nat)
    requires i <= j <= |text|
  {
    forall k :: i <= k < j ==> text[k] == '\r' || text[k] == '\n'
  }

  ghost predicate NoEnds(text: string, i: nat, j: nat)
    requires i <= j <= |text|
  {
    forall k :: i <= k < j ==> text[k] != '\r' && text[k] != '\n'
  }

  /** Text that fits, has no NUL and no "> " at the start of a line is in scope. */
  lemma SafeText(text: string)
    requires Fits(text) && forall k :: 0 <= k < |text| ==> text[k] != '\0'
    requires forall i :: 0 <= i < |text| - 1 && text[i] == '>' && text[i + 1] == ' ' ==>
      i > 0 && text[i - 1] != '\r' && text[i - 1] != '\n'
    ensures Safe(text)
  {
    hide Fits;
  }

  /** Reads that each deliver something, at least one for each character, are enough, and none of
      them fails. */
  lemma {:induction false} EagerReadsAreAmple(plan: seq<Grant>, stream: string)
    requires forall k :: 0 <= k < |plan| ==> plan[k].Chars? && plan[k].n > 0
    requires |stream| <= |plan|
    ensures Ample(plan, stream) && Failures(plan) == 0
  {
    EagerSupply(plan);
  }

  lemma {:induction false} EagerSupply(plan: seq<Grant>)
    requires forall k :: 0 <= k < |plan| ==> plan[k].Chars? && plan[k].n > 0
    ensures Supply(plan) == |plan| && Failures(plan) == 0
    decreases |plan|
  {
    if plan != [] {
      EagerSupply(plan[1..]);
    }
  }

  /** A failed read and an empty one count as failures, an interrupted one does not; none of them
      delivers anything. */
  lemma FailedReads(plan: seq<Grant>, stream: string)
    ensures Failures([Grant.Failed] + plan) == 1 + Failures(plan) == Failures([Chars(0)] + plan)
    ensures Failures([Interrupted] + plan) == Failures(plan)
    ensures Ample([Grant.Failed] + plan, stream) == Ample(plan, stream) == Ample([Interrupted] + plan, stream)
    ensures Ample([Chars(0)] + plan, stream) == Ample(plan, stream)
  {
    assert ([Grant.Failed] + plan)[1..] == plan;
    assert ([Chars(0)] + plan)[1..] == plan;
    assert ([Interrupted] + plan)[1..] == plan;
  }

  // ----- Response lines ---------------------------------------------------------------------------

  lemma NoMoreLines(cap: nat, acc: string, ready: int)
    ensures C.Collect([], cap, acc, ready) == (ready, acc)
  {}

  /** OK anywhere in the line. */
  lemma OkAnywhere(line: string, i: nat, rest: seq<string>, cap: nat, acc: string, ready: int)
    requires i + 2 <= |line| && line[i..i + 2] == "OK"
    ensures C.Collect([line] + rest, cap, acc, ready) == (|acc|, acc)
  {
    assert C.OccursAt(line, "OK", i);
  }

  /** ERROR anywhere in the line, and OK nowhere. */
  lemma ErrorAnywhere(line: string, i: nat, rest: seq<string>, cap: nat, acc: string, ready: int)
    requires i + 5 <= |line| && line[i..i + 5] == "ERROR"
    requires forall i, j :: 0 <= i && j == i + 2 && j <= |line| ==> line[i..j] != "OK"
    ensures C.Collect([line] + rest, cap, acc, ready) == (-1, acc)
  {
    assert C.OccursAt(line, "ERROR", i);
    NoOk(line);
  }

  lemma NoOk(line: string)
    requires forall i, j :: 0 <= i && j == i + 2 && j <= |line| ==> line[i..j] != "OK"
    ensures !C.IsOk(line)
  {
    forall k | 0 <= k <= |line|
      ensures !C.OccursAt(line, "OK", k)
    {
      if k + 2 <= |line| {
        assert line[k..k + 2] != "OK";
      }
    }
  }

  lemma NoError(line: string)
    requires forall i, j :: 0 <= i && j == i + 5 && j <= |line| ==> line[i..j] != "ERROR"
    ensures !C.IsError(line)
  {
    forall k | 0 <= k <= |line|
      ensures !C.OccursAt(line, "ERROR", k)
    {
      if k + 5 <= |line| {
        assert line[k..k + 5] != "ERROR";
      }
    }
  }

  /** Neither word anywhere: the line is appended if it fits, ends the collection if it does not, and is
      passed over when nothing is kept. */
  lemma OtherLine(line: string, rest: seq<string>, cap: nat, acc: string, ready: int)
    requires forall i, j :: 0 <= i && j == i + 2 && j <= |line| ==> line[i..j] != "OK"
    requires forall i, j :: 0 <= i && j == i + 5 && j <= |line| ==> line[i..j] != "ERROR"
    ensures C.Collect([line] + rest, cap, acc, ready) ==
      if cap == 0 then C.Collect(rest, cap, acc, ready)
      else if |acc| + |line| <= cap then C.Collect(rest, cap, acc + line, ready)
      else (-1, acc)
  {
    NoOk(line);
    NoError(line);
    hide C.IsOk, C.IsError;
    assert ([line] + rest)[1..] == rest;
  }

  /** Lines that say neither, one after another. */
  ghost predicate Data(lines: seq<string>) {
    forall j :: 0 <= j < |lines| ==>
      && lines[j] != ""
      && (forall k :: 0 <= k < |lines[j]| ==> lines[j][k] != '\r' && lines[j][k] != '\n')
      && (forall k, m :: 0 <= k && m == k + 2 && m <= |lines[j]| ==> lines[j][k..m] != "OK")
      && (forall k, m :: 0 <= k && m == k + 5 && m <= |lines[j]| ==> lines[j][k..m] != "ERROR")
  }

  /** The lines as the modem sends them. */
  function Sent(lines: seq<string>): string {
    if lines == [] then "" else lines[0] + ("\r\n" + Sent(lines[1..]))
  }

  /** The lines without their ends. */
  function Joined(lines: seq<string>): string {
    if lines == [] then "" else lines[0] + Joined(lines[1..])
  }

  lemma {:induction false} SplitSent(lines: seq<string>, rest: string)
    requires Data(lines)
    ensures Split(Sent(lines) + rest) == Splitter(lines + Split(rest).lines, Split(rest).open)
    decreases |lines|
  {
    hide Split;
    if lines == [] {
      assert Sent(lines) + rest == rest && [] + Split(rest).lines == Split(rest).lines;
    } else {
      var more := Sent(lines[1..]) + rest;
      assert Sent(lines) + rest == lines[0] + ['\r'] + (['\n'] + more);
      EndedLine(lines[0], '\r', ['\n'] + more);
      EmptyLine('\n', more);
      SplitSent(lines[1..], rest);
      assert [lines[0]] + (lines[1..] + Split(rest).lines) == lines + Split(rest).lines;
    }
  }

  lemma {:induction false} CollectData(lines: seq<string>, rest: seq<string>, cap: nat, acc: string, ready: int)
    requires Data(lines) && cap > 0 && |acc| + |Joined(lines)| <= cap
    ensures C.Collect(lines + rest, cap, acc, ready) == C.Collect(rest, cap, acc + Joined(lines), ready)
    decreases |lines|
  {
    hide C.Collect;
    if lines == [] {
      assert lines + rest == rest && acc + "" == acc;
    } else {
      assert lines + rest == [lines[0]] + (lines[1..] + rest);
      OtherLine(lines[0], lines[1..] + rest, cap, acc, ready);
      assert forall j :: 0 <= j < |lines[1..]| ==> lines[1..][j] == lines[j + 1];
      CollectData(lines[1..], rest, cap, acc + lines[0], ready);
      assert (acc + lines[0]) + Joined(lines[1..]) == acc + Joined(lines);
    }
  }

  /** A whole response: data lines, then OK, each ended by CR and LF. However the reads cut it up and
      whatever follows it, the data are stored and their length is returned, unless a read failed. */
  lemma WholeResponse(start: Channel, now: Channel, cap: nat, ready: int, ret: int, stored: string,
                      lines: seq<string>, rest: string)
    requires C.Answered(start, now, cap, ready, ret, stored)
    requires Ample(start.plan, start.stream) && Failures(now.plan) == Failures(start.plan)
    requires Data(lines) && 0 < |Joined(lines)| <= cap
    requires start.pending + start.stream == Sent(lines) + ("OK\r\n" + rest)
    ensures stored == Joined(lines) && ret == |Joined(lines)|
  {
    hide Ample, Failures, Data, Sent, Joined;
    SplitSent(lines, "OK\r\n" + rest);
    assert "OK\r\n" + rest == "OK" + ['\r'] + (['\n'] + rest);
    EndedLine("OK", '\r', ['\n'] + rest);
    var more := Split(['\n'] + rest).lines;
    hide Split;
    CollectData(lines, ["OK"] + more, cap, "", ready);
    assert "" + Joined(lines) == Joined(lines);
    OkAnywhere("OK", 0, more, cap, Joined(lines), ready);
  }

  /** When everything has been read, the answer is that for all the text even after a failed read. */
  lemma AllRead(start: Channel, now: Channel, cap: nat, ready: int, ret: int, stored: string)
    requires C.Answered(start, now, cap, ready, ret, stored) && now.stream == ""
    ensures (ret, stored) == C.Collect(Split(start.pending + start.stream).lines, cap, "", ready)
  {
    hide Split, C.Collect;
    assert start.stream[..|start.stream|] == start.stream;
  }

  /** The wait: interruptions are passed over, the first other answer decides. */
  lemma {:induction false} WaitDecides(waits: seq<C.Wait>, n: nat)
    requires n < |waits| && forall k :: 0 <= k < n ==> waits[k] == C.Retry
    ensures waits[n].Ready? && waits[n].n > 0 ==> C.Awaited(waits) == Some(waits[n].n)
    ensures waits[n] == C.Failed || waits[n] == C.Timeout || waits[n] == C.Ready(0) ==> C.Awaited(waits) == None
    decreases n
  {
    if n > 0 {
      WaitDecides(waits[1..], n - 1);
    }
  }

  // ----- Tokens -----------------------------------------------------------------------------------

  /** Blank, tab, line feed, vertical tab, form feed and carriage return before a token are skipped. */
  lemma SpaceSkipped(c: char, text: string)
    requires c == ' ' || c == '\t' || c == '\n' || c as int == 11 || c as int == 12 || c == '\r'
    ensures T.Next([c] + text) == T.Next(text)
  {
    hide T.Cut, T.AfterComma;
    assert ([c] + text)[1..] == text;
  }

  /** A bare token goes up to the next comma. */
  lemma BareToken(x: string, more: string)
    requires ',' !in x
    requires x != "" ==> x[0] != '"' && x[0] != ' ' && !(9 <= x[0] as int <= 13)
    ensures T.Next(x + ("," + more)) == (x, Some(more)) && T.Next(x) == (x, None)
  {
    assert T.BareOk(x);
    T.BareField(x, more);
    T.BareAlone(x);
  }

  /** A quoted token goes up to the next quote; what stands between that and the next comma is lost. */
  lemma QuotedToken(x: string, lost: string, more: string)
    requires '"' !in x && ',' !in lost
    ensures T.Next("\"" + (x + ("\"" + (lost + ("," + more))))) == (x, Some(more))
    ensures T.Next("\"" + (x + ("\"" + lost))) == (x, Some(""))
    ensures T.Next("\"" + x) == (x, None)
  {
    hide T.Cut, T.IndexOf, T.AfterComma;
    Quoted(x, lost + ("," + more));
    Quoted(x, lost);
    UpToComma(lost, more);
    var s := "\"" + x;
    T.NoSpaceToSkip(s);
    assert s[1..] == x;
    CutNothing(x, '"');
  }

  lemma Quoted(x: string, behind: string)
    requires '"' !in x
    ensures T.Next("\"" + (x + ("\"" + behind))) == (x, Some(T.AfterComma(behind)))
  {
    hide T.Cut, T.IndexOf, T.AfterComma;
    var s := "\"" + (x + ("\"" + behind));
    T.NoSpaceToSkip(s);
    hide T.SkipWs;
    assert s[0] == '"' && s[1..] == x + ("\"" + behind);
    T.CutAt(x, '"', behind);
  }

  lemma UpToComma(lost: string, more: string)
    requires ',' !in lost
    ensures T.AfterComma(lost + ("," + more)) == more && T.AfterComma(lost) == ""
  {
    T.FoundAt(lost, ',', more);
    T.NotFound(lost, ',');
    hide T.IndexOf;
    assert (lost + ("," + more))[|lost| + 1..] == more;
  }

  /** strsep, strchr: without the character there is nothing to cut. */
  lemma CutNothing(x: string, c: char)
    requires c !in x
    ensures T.Cut(x, c) == (x, None)
  {
    T.NotFound(x, c);
  }

  lemma MoreText(c: char, text: string)
    ensures T.HasMoreIn(Some([c] + text)) && !T.HasMoreIn(Some("")) && !T.HasMoreIn(None)
  {}

  // ----- Numbers ----------------------------------------------------------------------------------

  ghost predicate Digits(s: string) {
    s != "" && forall k :: 0 <= k < |s| ==> '0' <= s[k] <= '9'
  }

  /** One digit more is ten times as much. */
  lemma DigitBehind(s: string, c: char)
    requires Digits(s) && '0' <= c <= '9' && 10 * T.Strtol(s).0 + (c as int - 48) <= 0x7FFF_FFFF
    ensures T.Strtol(s + [c]) == (10 * T.Strtol(s).0 + (c as int - 48), true)
  {
    T.DigitsAlone(s);
    T.DigitsAlone(s + [c]);
    assert (s + [c])[..|s|] == s;
  }

  lemma OneDigit(c: char)
    requires '0' <= c <= '9'
    ensures T.Strtol([c]) == (c as int - 48, true)
  {
    T.DigitsAlone([c]);
    assert [c][..0] == "";
  }

  /** Too large a number is 2147483647, too small a one -2147483648. */
  lemma TooLarge(s: string)
    requires Digits(s) && |s| > 10 && s[0] != '0'
    ensures T.Strtol(s) == (2147483647, true) && T.Strtol("-" + s) == (-2147483648, true)
  {
    T.DigitsAlone(s);
    T.MinusAndDigits(s);
    LongIsLarge(s);
  }

  lemma {:induction false} LongIsLarge(s: string)
    requires Digits(s) && |s| > 10 && s[0] != '0'
    ensures T.ValueOf(s) >= 10000000000
    decreases |s|
  {
    if |s| > 11 {
      LongIsLarge(s[..|s| - 1]);
    } else {
      ElevenDigits(s, 11);
      assert s[..11] == s;
    }
  }

  lemma {:induction false} ElevenDigits(s: string, n: nat)
    requires Digits(s) && s[0] != '0' && 0 < n <= |s| && n <= 11
    ensures T.ValueOf(s[..n]) >= if n <= 1 then 1 else if n == 2 then 10 else if n == 3 then 100
      else if n == 4 then 1000 else if n == 5 then 10000 else if n == 6 then 100000 else if n == 7 then 1000000
      else if n == 8 then 10000000 else if n == 9 then 100000000 else if n == 10 then 1000000000 else 10000000000
    decreases n
  {
    var t := s[..n];
    if n > 1 {
      ElevenDigits(s, n - 1);
      assert t[..n - 1] == s[..n - 1];
    } else {
      assert t[..0] == "" && t[0] == s[0];
    }
  }

  /** A sign before the digits. */
  lemma SignBefore(s: string)
    requires Digits(s) && T.Strtol(s).0 < 0x7FFF_FFFF
    ensures T.Strtol("-" + s) == (-T.Strtol(s).0, true) && T.Strtol("+" + s) == T.Strtol(s)
  {
    T.DigitsAlone(s);
    T.MinusAndDigits(s);
    hide T.ValueOf;
    var t := "+" + s;
    T.NoSpaceToSkip(t);
    assert t[1..] == s && s[..|s|] == s;
    T.AllDigits(s);
  }

  /** What is not a digit ends the number; without any digit there is none. */
  lemma OtherBehind(s: string, c: char, rest: string)
    requires (s == "" || Digits(s)) && !('0' <= c <= '9')
    requires s == "" ==> c != '-' && c != '+' && c != ' ' && !(9 <= c as int <= 13)
    ensures T.Strtol(s + ([c] + rest)) == if s == "" then (0, false) else T.Strtol(s)
    ensures T.Strtol("") == (0, false)
  {
    var t := s + ([c] + rest);
    T.NoSpaceToSkip(t);
    DigitsUpTo(s, c, rest);
    if s != "" {
      T.DigitsAlone(s);
      assert t[0] == s[0];
      assert t[..|s|] == s;
    }
  }

  lemma {:induction false} DigitsUpTo(s: string, c: char, rest: string)
    requires (forall k :: 0 <= k < |s| ==> '0' <= s[k] <= '9') && !('0' <= c <= '9')
    ensures T.DigitCount(s + ([c] + rest)) == |s|
    decreases |s|
  {
    if s != "" {
      assert (s + ([c] + rest))[1..] == s[1..] + ([c] + rest);
      DigitsUpTo(s[1..], c, rest);
    }
  }
}
