/** What the AT channel reader is for: cutting the modem's byte stream into lines. A line is a
    non-empty run of characters ended by CR or LF. */
module LineSplit {
  predicate IsEol(c: char) {
    c == '\r' || c == '\n'
  }

  // ----- The reference: a splitter that sees one character at a time ----------------------------

  datatype Splitter = Splitter(lines: seq<string>, open: string)

  function Feed(s: Splitter, c: char): Splitter {
    if !IsEol(c) then Splitter(s.lines, s.open + [c])
    else if s.open == "" then s
    else Splitter(s.lines + [s.open], "")
  }

  function FeedAll(s: Splitter, text: string): Splitter
    decreases |text|
  {
    if text == "" then s else FeedAll(Feed(s, text[0]), text[1..])
  }

  function Split(text: string): Splitter {
    FeedAll(Splitter([], ""), text)
  }

  lemma {:induction false} FeedChains(s: Splitter, a: string, b: string)
    ensures FeedAll(s, a + b) == FeedAll(FeedAll(s, a), b)
    decreases |a|
  {
    if a == "" {
      assert a + b == b;
    } else {
      assert (a + b)[1..] == a[1..] + b;
      FeedChains(Feed(s, a[0]), a[1..], b);
    }
  }

  /** Lines already found only accumulate. */
  lemma {:induction false} FeedAppends(lines: seq<string>, open: string, text: string)
    ensures var r := FeedAll(Splitter([], open), text);
      FeedAll(Splitter(lines, open), text) == Splitter(lines + r.lines, r.open)
    decreases |text|
  {
    if text == "" {
      assert lines + [] == lines;
    } else {
      var next := Feed(Splitter([], open), text[0]);
      FeedAppends(next.lines, next.open, text[1..]);
      FeedAppends(lines + next.lines, next.open, text[1..]);
      var r := FeedAll(Splitter([], next.open), text[1..]);
      assert lines + (next.lines + r.lines) == (lines + next.lines) + r.lines;
      assert Feed(Splitter(lines, open), text[0]) == Splitter(lines + next.lines, next.open) by {
        assert lines + [] == lines;
        assert [] + [open] == [open];
      }
    }
  }

  // ----- The first line of a text -----------------------------------------------------------------

  function SkipEol(text: string): (rest: string)
    ensures |rest| <= |text|
    ensures rest != "" ==> !IsEol(rest[0])
  {
    if text != "" && IsEol(text[0]) then SkipEol(text[1..]) else text
  }

  /** The position of the first CR or LF, or the length if there is none. */
  function EolIndex(text: string): (i: nat)
    ensures i <= |text|
    ensures forall k :: 0 <= k < i ==> !IsEol(text[k])
    ensures i < |text| ==> IsEol(text[i])
  {
    if text == "" || IsEol(text[0]) then 0 else 1 + EolIndex(text[1..])
  }

  predicate HasLine(text: string) {
    var t := SkipEol(text);
    EolIndex(t) < |t|
  }

  function FirstLine(text: string): (line: string)
    requires HasLine(text)
    ensures line != ""
  {
    var t := SkipEol(text);
    t[..EolIndex(t)]
  }

  function AfterLine(text: string): (rest: string)
    requires HasLine(text)
    ensures |rest| < |text|
  {
    var t := SkipEol(text);
    t[EolIndex(t) + 1..]
  }

  lemma {:induction false} SkipFeedsNothing(text: string)
    ensures Split(text) == Split(SkipEol(text))
    decreases |text|
  {
    if text != "" && IsEol(text[0]) {
      SkipFeedsNothing(text[1..]);
    }
  }

  lemma {:induction false} RunFeedsOpen(open: string, text: string)
    requires forall k :: 0 <= k < |text| ==> !IsEol(text[k])
    ensures FeedAll(Splitter([], open), text) == Splitter([], open + text)
    decreases |text|
  {
    if text == "" {
      assert open + text == open;
    } else {
      RunFeedsOpen(open + [text[0]], text[1..]);
      assert (open + [text[0]]) + text[1..] == open + text;
    }
  }

  /** One step of the splitter on whole texts. */
  lemma SplitNone(text: string)
    requires !HasLine(text)
    ensures Split(text) == Splitter([], SkipEol(text))
  {
    var t := SkipEol(text);
    SkipFeedsNothing(text);
    RunFeedsOpen("", t);
    assert "" + t == t;
  }

  lemma SplitSome(text: string)
    requires HasLine(text)
    ensures var rest := Split(AfterLine(text));
      Split(text) == Splitter([FirstLine(text)] + rest.lines, rest.open)
  {
    var t := SkipEol(text);
    var i := EolIndex(t);
    SkipFeedsNothing(text);
    hide Split, SkipEol, EolIndex;
    var line, rest := FirstLine(text), AfterLine(text);
    SplitAt(line, t[i], rest);
    assert t == line + ([t[i]] + rest);
  }

  lemma SplitAt(line: string, eol: char, rest: string)
    requires line != "" && IsEol(eol) && forall k :: 0 <= k < |line| ==> !IsEol(line[k])
    ensures var r := Split(rest);
      Split(line + ([eol] + rest)) == Splitter([line] + r.lines, r.open)
  {
    var start := Splitter([], "");
    FeedChains(start, line, [eol] + rest);
    RunFeedsOpen("", line);
    assert "" + line == line;
    FeedOne(Splitter([], line), eol, rest);
    assert [] + [line] == [line];
    FeedAppends([line], "", rest);
  }

  lemma FeedOne(s: Splitter, c: char, rest: string)
    ensures FeedAll(s, [c] + rest) == FeedAll(Feed(s, c), rest)
  {
    assert ([c] + rest)[1..] == rest;
  }

  lemma SplitExtends(text: string, more: string)
    ensures var s := Split(text);
      Split(text + more) == FeedAll(s, more)
  {
    FeedChains(Splitter([], ""), text, more);
  }

  // ----- Skipping -------------------------------------------------------------------------------

  lemma {:induction false} SkippedAreEol(text: string)
    ensures forall k :: 0 <= k < |text| - |SkipEol(text)| ==> IsEol(text[k])
    decreases |text|
  {
    if text != "" && IsEol(text[0]) {
      SkippedAreEol(text[1..]);
    }
  }

  lemma {:induction false} SkipIsSuffix(text: string)
    ensures IsSuffix(SkipEol(text), text)
    decreases |text|
  {
    if text != "" && IsEol(text[0]) {
      SkipIsSuffix(text[1..]);
    }
  }

  lemma SkipOne(a: string)
    requires a != "" && IsEol(a[0])
    ensures SkipEol(a) == SkipEol(a[1..])
  {}

  lemma {:induction false} SkipConcat(a: string, b: string)
    ensures SkipEol(SkipEol(a) + b) == SkipEol(a + b)
    decreases |a|
  {
    if a == "" {
      assert SkipEol(a) + b == b == a + b;
    } else if IsEol(a[0]) {
      SkipConcat(a[1..], b);
      SkipOne(a);
      assert (a + b)[1..] == a[1..] + b;
      SkipOne(a + b);
    } else {
      assert SkipEol(a) == a;
    }
  }

  // ----- What the reader's buffer can take ------------------------------------------------------

  const AT_BUFFER_SIZE: nat := 512

  /** text[i..j] is a run of line ends followed by part of a line. */
  ghost predicate RunLine(text: string, i: nat, j: nat)
    requires i <= j <= |text|
  {
    exists m :: i <= m <= j && AllEol(text, i, m) && NoEol(text, m, j)
  }

  ghost predicate AllEol(text: string, i: nat, m: nat)
    requires i <= m <= |text|
  {
    forall k :: i <= k < m ==> IsEol(text[k])
  }

  ghost predicate NoEol(text: string, m: nat, j: nat)
    requires m <= j <= |text|
  {
    forall k :: m <= k < j ==> !IsEol(text[k])
  }

  /** Every run of line ends together with the line after it leaves room in the buffer. */
  ghost predicate Fits(text: string) {
    forall i: nat, j: nat :: i <= j <= |text| && RunLine(text, i, j) ==> j - i < AT_BUFFER_SIZE
  }

  ghost predicate LineStart(text: string, i: nat)
    requires i <= |text|
  {
    i == 0 || IsEol(text[i - 1])
  }

  ghost predicate PromptAt(text: string, i: nat) {
    i + 1 < |text| && text[i] == '>' && text[i + 1] == ' '
  }

  /** No NUL, and no SMS prompt where the reader could take it for one: at the start of a line, or
      anywhere at all if an over-long line may make it start in the middle of one. */
  ghost predicate Safe(text: string) {
    && (forall k :: 0 <= k < |text| ==> text[k] != '\0')
    && (forall i: nat :: PromptAt(text, i) ==> Fits(text) && !LineStart(text, i))
  }

  ghost predicate IsSuffix(t: string, s: string) {
    |t| <= |s| && s[|s| - |t|..] == t
  }

  lemma FitsSuffix(s: string, t: string)
    requires IsSuffix(t, s) && Fits(s)
    ensures Fits(t)
  {
    var d := |s| - |t|;
    forall i: nat, j: nat | i <= j <= |t| && RunLine(t, i, j)
      ensures j - i < AT_BUFFER_SIZE
    {
      var m :| i <= m <= j && AllEol(t, i, m) && NoEol(t, m, j);
      assert forall k :: 0 <= k < |t| ==> t[k] == s[d + k];
      assert AllEol(s, d + i, d + m) by {
        forall k | d + i <= k < d + m ensures IsEol(s[k]) { assert t[k - d] == s[k]; }
      }
      assert NoEol(s, d + m, d + j) by {
        forall k | d + m <= k < d + j ensures !IsEol(s[k]) { assert t[k - d] == s[k]; }
      }
      assert RunLine(s, d + i, d + j);
    }
  }

  lemma SafeSuffix(s: string, t: string)
    requires IsSuffix(t, s) && Safe(s)
    requires Fits(s) ==> LineStart(s, |s| - |t|)
    ensures Safe(t)
  {
    var d := |s| - |t|;
    assert forall k :: 0 <= k < |t| ==> t[k] == s[d + k];
    forall i: nat | PromptAt(t, i)
      ensures Fits(t) && !LineStart(t, i)
    {
      assert PromptAt(s, d + i);
      FitsSuffix(s, t);
    }
  }

  /** Text without a complete line is short. */
  lemma OpenTextIsShort(text: string, more: string)
    requires !HasLine(text) && Fits(text + more)
    ensures |text| < AT_BUFFER_SIZE
  {
    var t := SkipEol(text);
    OpenTextParts(text);
    var m := |text| - |t|;
    var s := text + more;
    assert AllEol(s, 0, m) && NoEol(s, m, |text|);
    hide SkipEol, AllEol, NoEol;
    assert RunLine(s, 0, |text|);
  }

  lemma OpenTextParts(text: string)
    requires !HasLine(text)
    ensures var m := |text| - |SkipEol(text)|;
      && (forall k :: 0 <= k < m ==> IsEol(text[k]))
      && (forall k :: m <= k < |text| ==> !IsEol(text[k]))
  {
    SkippedAreEol(text);
    SkipIsSuffix(text);
    var t := SkipEol(text);
    var m := |text| - |t|;
    assert EolIndex(t) == |t|;
    hide SkipEol, EolIndex;
    forall k | m <= k < |text|
      ensures !IsEol(text[k])
    {
      assert text[k] == text[m..][k - m] == t[k - m];
    }
  }

  ghost predicate NotPrompt(text: string) {
    text != "> "
  }

  lemma NoPromptPending(text: string, more: string)
    requires Safe(text + more)
    ensures NotPrompt(text)
  {
    if text == "> " {
      assert PromptAt(text + more, 0);
      assert false;
    }
  }

  /** Skipping line ends from the start of a safe text leaves a safe text. */
  lemma SkippedIsSafe(text: string, more: string)
    requires Safe(text + more)
    ensures Safe(SkipEol(text) + more)
  {
    SkipIsSuffix(text);
    SkippedAreEol(text);
    var s, t := text + more, SkipEol(text) + more;
    assert s[|s| - |t|..] == t;
    SafeSuffix(s, t);
  }
}
