/** modules/libFactoryRadioTest/factorytest_radio.c, sendATCmd: one command written to the modem, its
    response lines collected until OK or ERROR. */
module AtCommand {
  import opened Options
  import opened LineSplit
  import opened AtChannel

  /** What one select() call returns. */
  datatype Wait = Ready(n: nat) | Retry | Failed | Timeout

  /** strstr. */
  predicate Contains(text: string, word: string) {
    exists i :: 0 <= i <= |text| && OccursAt(text, word, i)
  }

  predicate OccursAt(text: string, word: string, i: nat) {
    i + |word| <= |text| && text[i..i + |word|] == word
  }

  predicate IsOk(line: string) {
    Contains(line, "OK")
  }

  predicate IsError(line: string) {
    !IsOk(line) && Contains(line, "ERROR")
  }

  // ----- The collection as a function of the lines ----------------------------------------------

  /** What one line does: the return value if it ends the collection, and the text kept. */
  function Judge(line: string, acc: string, cap: nat): (r: (Option<int>, string))
    ensures |acc| <= cap ==> |r.1| <= cap
  {
    if IsOk(line) then (Some(|acc|), acc)
    else if IsError(line) then (Some(-1), acc)
    else if cap == 0 then (None, acc)
    else if |acc| + |line| > cap then (Some(-1), acc)
    else (None, acc + line)
  }

  /** Return value and stored text, for the lines the modem sends; cap is 0 when nothing is kept.
      When the lines run out the return value is whatever select() had returned. */
  function Collect(lines: seq<string>, cap: nat, acc: string, ready: int): (r: (int, string))
    ensures |acc| <= cap ==> |r.1| <= cap
    decreases |lines|
  {
    if lines == [] then (ready, acc)
    else
      var (verdict, next) := Judge(lines[0], acc, cap);
      if verdict.Some? then (verdict.value, next) else Collect(lines[1..], cap, next, ready)
  }

  function Concat(lines: seq<string>): string {
    if lines == [] then "" else lines[0] + Concat(lines[1..])
  }

  /** What is stored of lines that fit: all of them, or nothing when nothing is kept. */
  function Kept(lines: seq<string>, cap: nat): string {
    if cap == 0 then "" else Concat(lines)
  }

  ghost predicate NoVerdict(lines: seq<string>) {
    forall j :: 0 <= j < |lines| ==> !IsOk(lines[j]) && !IsError(lines[j])
  }

  /** An OK comes behind lines that fit and are neither OK nor ERROR. */
  ghost predicate OkBehind(lines: seq<string>, k: nat, cap: nat) {
    k < |lines| && NoVerdict(lines[..k]) && IsOk(lines[k]) && |Kept(lines[..k], cap)| <= cap
  }

  // ----- The code -------------------------------------------------------------------------------

  /** The wait for the modem: None stands for giving up. */
  method AwaitModem(waits: seq<Wait>) returns (ret: Option<nat>)
    ensures ret == Awaited(waits)
  {
    var k := 0;
    while k < |waits| && waits[k] == Retry
      invariant k <= |waits| && Awaited(waits) == Awaited(waits[k..])
    {
      assert waits[k..][1..] == waits[k + 1..];
      k := k + 1;
    }
    return if k < |waits| && waits[k].Ready? && waits[k].n > 0 then Some(waits[k].n) else None;
  }

  function Awaited(waits: seq<Wait>): Option<nat> {
    if waits == [] then None
    else if waits[0] == Retry then Awaited(waits[1..])
    else if waits[0].Ready? && waits[0].n > 0 then Some(waits[0].n)
    else None
  }

  /** The answer is the one the delivered text calls for; unless a read failed on the way, it is the
      one all the text calls for, the part still to come included. */
  ghost predicate Answered(start: Channel, now: Channel, cap: nat, ready: int, ret: int, stored: string) {
    && IsSuffix(now.stream, start.stream)
    && (ret, stored) == Collect(Split(start.pending + Delivered(start.stream, now.stream)).lines, cap, "", ready)
    && (Ample(start.plan, start.stream) && Failures(now.plan) == Failures(start.plan) ==>
      (ret, stored) == Collect(Split(Whole(start)).lines, cap, "", ready))
  }

  method SendAtCmd(reader: AtReader, fd: Modem, cmd: Option<string>, written: int, waits: seq<Wait>,
                   buf: array?<char>, bufLen: nat) returns (ret: int, ghost stored: string)
    requires reader.Valid() && Safe(reader.Pending() + fd.stream) && Fits(reader.Pending() + fd.stream)
    requires buf != reader.buf && (buf != null ==> bufLen <= buf.Length)
    modifies reader, reader.buf, fd, buf
    ensures reader.Valid() && Safe(reader.Pending() + fd.stream) && Fits(reader.Pending() + fd.stream)
    ensures var cap := if buf == null then 0 else bufLen;
      var start := Channel(old(reader.Pending()), old(fd.stream), old(fd.plan));
      var now := Channel(reader.Pending(), fd.stream, fd.plan);
      if cmd == None || written != |cmd.value| || Awaited(waits) == None
      then ret == -1 && stored == "" && now == start
      else
        && Answered(start, now, cap, Awaited(waits).value, ret, stored)
        && (Ample(start.plan, start.stream) && Failures(now.plan) == Failures(start.plan) ==>
          HasOkAnswer(Split(Whole(start)).lines, cap, ret, stored))
    ensures buf != null ==> |stored| <= bufLen && buf[..] == stored + old(buf[..])[|stored|..]
  {
    stored := "";
    if cmd == None {
      return -1, "";
    }
    if written != |cmd.value| {
      return -1, "";
    }
    var ready := AwaitModem(waits);
    if ready == None {
      return -1, "";
    }
    ghost var lines := Split(reader.Pending() + fd.stream).lines;
    OkAnswers(lines, if buf == null then 0 else bufLen, ready.value);
    hide Split, Collect, HasOkAnswer, Ample, Failures, Safe, Fits, IsSuffix;
    ret, stored := CollectResponse(reader, fd, buf, bufLen, ready.value);
  }

  /** The accumulation loop. */
  method CollectResponse(reader: AtReader, fd: Modem, buf: array?<char>, bufLen: nat, ready: nat)
    returns (ret: int, ghost stored: string)
    requires reader.Valid() && Safe(reader.Pending() + fd.stream) && Fits(reader.Pending() + fd.stream)
    requires buf != reader.buf && (buf != null ==> bufLen <= buf.Length)
    modifies reader, reader.buf, fd, buf
    ensures reader.Valid() && Safe(reader.Pending() + fd.stream) && Fits(reader.Pending() + fd.stream)
    ensures Answered(Channel(old(reader.Pending()), old(fd.stream), old(fd.plan)),
                     Channel(reader.Pending(), fd.stream, fd.plan),
                     if buf == null then 0 else bufLen, ready, ret, stored)
    ensures buf != null ==> |stored| <= bufLen && buf[..] == stored + old(buf[..])[|stored|..]
  {
    ret := ready;
    stored := "";
    var rspLen := 0;
    ghost var cap := if buf == null then 0 else bufLen;
    ghost var before := if buf == null then "" else buf[..];
    ghost var got: seq<string> := [];
    ghost var text := reader.Pending();
    ghost var start := Channel(reader.Pending(), fd.stream, fd.plan);
    BooksOpened(start);
    PassedNothing(cap);
    hide Safe, Fits, Answered, Passed, Judge, Books, Kept, AtChannel.Kept, LineOf, IsSuffix;
    while true
      invariant reader.Valid() && Safe(reader.Pending() + fd.stream) && Fits(reader.Pending() + fd.stream)
      invariant Books(start, text, got, Channel(reader.Pending(), fd.stream, fd.plan))
      invariant Passed(got, cap) == Some(stored) && rspLen == |stored| <= cap
      invariant buf != null ==> buf[..] == stored + before[|stored|..] && |buf[..]| == |before|
      decreases |reader.Pending()| + |fd.stream|
    {
      var line;
      ghost var call;
      line, call := NextLine(reader, fd);
      BooksKept(start, text, got, call);
      if line == None {
        SilentAnswer(start, text, got, call, cap, ready);
        ret := ready;
        break;
      }
      text, got := text + Delivered(call.before.stream, call.after.stream), got + [line.value];
      var verdict;
      verdict, rspLen, stored := Accept(line.value, buf, bufLen, rspLen, before, stored);
      NextAnswer(start, text, got, call.after, cap, ready);
      if verdict.Some? {
        ret := verdict.value;
        break;
      }
    }
  }

  // ----- The books of the loop --------------------------------------------------------------------

  /** text has been read since the start, its lines are the ones got and the ones pending. */
  ghost predicate Books(start: Channel, text: string, got: seq<string>, now: Channel) {
    && IsSuffix(now.stream, start.stream) && text + now.stream == Whole(start)
    && Found(text, got, now.pending)
    && Progress(start.plan, start.stream, false, now.plan, now.stream)
  }

  lemma BooksOpened(start: Channel)
    ensures Books(start, start.pending, [], start)
  {
    assert [] + Split(start.pending).lines == Split(start.pending).lines;
  }

  /** A call adds what it read and what it returned. */
  lemma BooksKept(start: Channel, text: string, got: seq<string>, c: AtChannel.Call)
    requires AtChannel.Kept(c) && Books(start, text, got, c.before)
    ensures var more := text + Delivered(c.before.stream, c.after.stream);
      Books(start, more, if c.line.Some? then got + [c.line.value] else got, c.after)
  {
    hide Found, Split, Outcome, Ample, Failures;
    var arrived := Delivered(c.before.stream, c.after.stream);
    assert c.before.stream == arrived + c.after.stream;
    assert (text + arrived) + c.after.stream == text + c.before.stream;
    FoundBehind(text, got, c.before.pending, arrived);
    OutcomeFinds(c.before.pending + arrived, c.line, c.after.pending);
    FoundChains(text + arrived, got, c.before.pending + arrived, LineOf(c), c.after.pending);
    assert got + [] == got;
  }

  /** NULL ends the collection; without a failed read it means that nothing more will come. */
  lemma SilentAnswer(start: Channel, text: string, got: seq<string>, c: AtChannel.Call, cap: nat, ready: int)
    requires AtChannel.Kept(c) && c.line == None && Passed(got, cap).Some?
    requires Books(start, text, got, c.before)
    ensures Answered(start, c.after, cap, ready, ready, Passed(got, cap).value)
  {
    var more := text + Delivered(c.before.stream, c.after.stream);
    BooksKept(start, text, got, c);
    SilentRest(c.before.pending + Delivered(c.before.stream, c.after.stream), c.after.pending);
    hide Split, Outcome, Passed, Collect, IsSuffix;
    CollectPassed(got, [], cap, ready);
    assert Collect([], cap, Passed(got, cap).value, ready) == (ready, Passed(got, cap).value);
    DeliveredText(start.pending, start.stream, more, c.after.stream);
    assert more + "" == more;
  }

  lemma SilentRest(text: string, rest: string)
    requires Outcome(text, None, rest)
    ensures Split(rest).lines == []
  {
    SplitNone(text);
    SkipFeedsNothing(text);
  }

  /** The latest line decides, or passes. */
  lemma NextAnswer(start: Channel, text: string, got: seq<string>, now: Channel, cap: nat, ready: int)
    requires Books(start, text, got, now) && got != []
    requires Passed(got[..|got| - 1], cap).Some?
    ensures var (verdict, next) := Judge(got[|got| - 1], Passed(got[..|got| - 1], cap).value, cap);
      if verdict.Some? then Answered(start, now, cap, ready, verdict.value, next)
      else Passed(got, cap) == Some(next)
  {
    hide Split, Judge, IsSuffix, Progress;
    var init, line := got[..|got| - 1], got[|got| - 1];
    var (verdict, next) := Judge(line, Passed(init, cap).value, cap);
    if verdict.Some? {
      CollectLast(init, line, cap, ready);
      assert init + [line] == got;
      LaterLinesDoNotMatter(got, Split(now.pending).lines, cap, ready);
      DecidedAlready(text, got, now.pending, now.stream, cap, ready);
      DeliveredText(start.pending, start.stream, text, now.stream);
    }
  }

  lemma CollectLast(init: seq<string>, line: string, cap: nat, ready: int)
    requires Passed(init, cap).Some? && Judge(line, Passed(init, cap).value, cap).0.Some?
    ensures var (verdict, next) := Judge(line, Passed(init, cap).value, cap);
      Collect(init + [line], cap, "", ready) == (verdict.value, next) && Passed(init + [line], cap) == None
  {
    hide Judge;
    CollectPassed(init, [line], cap, ready);
    assert (init + [line])[..|init|] == init;
  }

  /** The branches of the loop body: Some when the loop ends here. */
  method Accept(line: string, buf: array?<char>, bufLen: nat, rspLen: nat,
                ghost before: string, ghost stored: string)
    returns (verdict: Option<int>, newLen: nat, ghost newStored: string)
    requires rspLen == |stored| && |stored| <= (if buf == null then 0 else bufLen)
    requires buf != null ==> bufLen <= buf.Length == |before| && buf[..] == stored + before[|stored|..]
    modifies buf
    ensures (verdict, newStored) == Judge(line, stored, if buf == null then 0 else bufLen)
    ensures newLen == |newStored|
    ensures buf != null ==> newLen <= |before| && buf[..] == newStored + before[newLen..]
  {
    hide Contains;
    verdict, newLen, newStored := None, rspLen, stored;
    if IsOk(line) {
      verdict := Some(rspLen);
    } else if Contains(line, "ERROR") {
      verdict := Some(-1);
    } else {
      if bufLen == 0 || buf == null {
        return;
      }
      if rspLen + |line| > bufLen {
        verdict := Some(-1);
        return;
      }
      Append(buf, rspLen, line);
      newLen, newStored := rspLen + |line|, stored + line;
    }
  }

  /** memcpy behind what is already there. */
  method Append(buf: array<char>, at: nat, line: string)
    requires at + |line| <= buf.Length
    modifies buf
    ensures buf[..] == old(buf[..at]) + line + old(buf[at + |line|..])
  {
    for i := 0 to |line|
      invariant forall k :: 0 <= k < buf.Length ==>
        buf[k] == if at <= k < at + i then line[k - at] else old(buf[k])
    {
      buf[at + i] := line[i];
    }
  }

  /** What is stored after lines that do not end the collection; None if one of them does. */
  function Passed(lines: seq<string>, cap: nat): Option<string>
    decreases |lines|
  {
    if lines == [] then Some("")
    else
      var before := Passed(lines[..|lines| - 1], cap);
      if before == None then None
      else
        var (verdict, next) := Judge(lines[|lines| - 1], before.value, cap);
        if verdict.Some? then None else Some(next)
  }

  lemma {:induction false} CollectPassed(lines: seq<string>, rest: seq<string>, cap: nat, ready: int)
    requires Passed(lines, cap).Some?
    ensures Collect(lines + rest, cap, "", ready) == Collect(rest, cap, Passed(lines, cap).value, ready)
    decreases |lines|
  {
    if lines == [] {
      assert lines + rest == rest;
    } else {
      var n := |lines| - 1;
      CollectPassed(lines[..n], [lines[n]] + rest, cap, ready);
      assert lines[..n] + ([lines[n]] + rest) == lines + rest;
      assert ([lines[n]] + rest)[1..] == rest;
    }
  }

  lemma PassedNothing(cap: nat)
    ensures Passed([], cap) == Some("")
  {}

  // ----- What a response means ------------------------------------------------------------------

  /** Lines behind a deciding one, be it OK, ERROR or one too many, change nothing. */
  lemma {:induction false} LaterLinesDoNotMatter(lines: seq<string>, more: seq<string>, cap: nat, ready: int)
    requires Passed(lines, cap) == None
    ensures Collect(lines + more, cap, "", ready) == Collect(lines, cap, "", ready)
    decreases |lines|
  {
    hide Judge;
    var n := |lines| - 1;
    var init, last := lines[..n], lines[n];
    assert init + ([last] + more) == lines + more && init + [last] == lines;
    if Passed(init, cap) == None {
      LaterLinesDoNotMatter(init, [last] + more, cap, ready);
      LaterLinesDoNotMatter(init, [last], cap, ready);
    } else {
      CollectPassed(init, [last] + more, cap, ready);
      CollectPassed(init, [last], cap, ready);
    }
  }

  /** Once a line has decided, the text still to come cannot change the answer. */
  lemma DecidedAlready(text: string, got: seq<string>, left: string, more: string, cap: nat, ready: int)
    requires Found(text, got, left) && Passed(got, cap) == None
    ensures Collect(Split(text + more).lines, cap, "", ready) == Collect(Split(text).lines, cap, "", ready)
  {
    hide Split, Collect, Passed;
    FoundBehind(text, got, left, more);
    LaterLinesDoNotMatter(got, Split(left).lines, cap, ready);
    LaterLinesDoNotMatter(got, Split(left + more).lines, cap, ready);
  }

  /** OK after lines that fit: the buffer holds those lines one after another, and the return value
      is their length. Nothing behind the OK matters. */
  lemma OkResponse(lines: seq<string>, k: nat, cap: nat, ready: int)
    requires OkBehind(lines, k, cap)
    ensures Collect(lines, cap, "", ready) == (|Kept(lines[..k], cap)|, Kept(lines[..k], cap))
  {
    PassedIsKept(lines[..k], cap);
    CollectPassed(lines[..k], lines[k..], cap, ready);
    assert lines[..k] + lines[k..] == lines;
  }

  /** If an OK comes behind lines that fit, those lines are stored and their length is returned. */
  ghost predicate HasOkAnswer(lines: seq<string>, cap: nat, ret: int, stored: string) {
    forall k: nat :: OkBehind(lines, k, cap) ==> ret == |stored| && stored == Kept(lines[..k], cap)
  }

  lemma OkAnswers(lines: seq<string>, cap: nat, ready: int)
    ensures var (ret, stored) := Collect(lines, cap, "", ready); HasOkAnswer(lines, cap, ret, stored)
  {
    forall k: nat | OkBehind(lines, k, cap)
      ensures Collect(lines, cap, "", ready) == (|Kept(lines[..k], cap)|, Kept(lines[..k], cap))
    {
      OkResponse(lines, k, cap, ready);
    }
  }

  /** ERROR first, or a line too many: -1, whatever comes later. */
  lemma FailedResponse(lines: seq<string>, k: nat, cap: nat, ready: int)
    requires k < |lines| && NoVerdict(lines[..k]) && |Kept(lines[..k], cap)| <= cap
    requires !IsOk(lines[k])
    requires IsError(lines[k]) || (cap > 0 && |Concat(lines[..k])| + |lines[k]| > cap)
    ensures Collect(lines, cap, "", ready) == (-1, Kept(lines[..k], cap))
  {
    PassedIsKept(lines[..k], cap);
    CollectPassed(lines[..k], lines[k..], cap, ready);
    assert lines[..k] + lines[k..] == lines;
  }

  /** No verdict before readline gives up: everything is stored, but what is returned is the count
      select() had returned. */
  lemma SilentResponse(lines: seq<string>, cap: nat, ready: int)
    requires NoVerdict(lines) && |Kept(lines, cap)| <= cap
    ensures Collect(lines, cap, "", ready) == (ready, Kept(lines, cap))
  {
    PassedIsKept(lines, cap);
    CollectPassed(lines, [], cap, ready);
    assert lines + [] == lines;
  }

  /** Line k ends the collection if no line before it does: OK, ERROR, or one too many. */
  ghost predicate Decides(lines: seq<string>, k: nat, cap: nat) {
    k < |lines| && (IsOk(lines[k]) || IsError(lines[k]) || |Kept(lines[..k + 1], cap)| > cap)
  }

  ghost predicate Undecided(lines: seq<string>, k: nat, cap: nat) {
    forall j: nat :: j < k ==> !Decides(lines, j, cap)
  }

  /** The value returned is the length stored exactly when the first deciding line is an OK, or when
      no line decides and select() happened to return that length. */
  lemma ReturnsStoredLength(lines: seq<string>, cap: nat, ready: int)
    ensures var (ret, stored) := Collect(lines, cap, "", ready);
      ret == |stored| <==>
        || (exists k: nat :: Decides(lines, k, cap) && Undecided(lines, k, cap) && IsOk(lines[k]))
        || (Undecided(lines, |lines|, cap) && ready == |Kept(lines, cap)|)
  {
    if Undecided(lines, |lines|, cap) {
      hide Collect, IsOk, IsError;
      UndecidedFits(lines, |lines|, cap);
      assert lines[..|lines|] == lines;
      SilentResponse(lines, cap, ready);
    } else {
      hide Collect, Decides, Kept, IsOk;
      var k := FirstDeciding(lines, cap);
      DecidedReturn(lines, k, cap, ready);
      forall j: nat | Decides(lines, j, cap) && Undecided(lines, j, cap)
        ensures j == k
      {
        OneFirst(lines, j, k, cap);
      }
      DecidesWithin(lines, k, cap);
      assert !Undecided(lines, |lines|, cap);
    }
  }

  /** When line k decides, the length stored is returned exactly for an OK. */
  lemma DecidedReturn(lines: seq<string>, k: nat, cap: nat, ready: int)
    requires Decides(lines, k, cap) && Undecided(lines, k, cap)
    ensures var (ret, stored) := Collect(lines, cap, "", ready); ret == |stored| <==> IsOk(lines[k])
  {
    hide Collect, Contains;
    UndecidedFits(lines, k, cap);
    if IsOk(lines[k]) {
      OkResponse(lines, k, cap, ready);
    } else {
      assert lines[..k + 1] == lines[..k] + [lines[k]];
      ConcatSnoc(lines[..k], lines[k]);
      FailedResponse(lines, k, cap, ready);
    }
  }

  lemma OneFirst(lines: seq<string>, j: nat, k: nat, cap: nat)
    requires Decides(lines, j, cap) && Undecided(lines, j, cap)
    requires Decides(lines, k, cap) && Undecided(lines, k, cap)
    ensures j == k
  {
    hide Decides;
  }

  lemma DecidesWithin(lines: seq<string>, k: nat, cap: nat)
    requires Decides(lines, k, cap)
    ensures k < |lines|
  {}

  lemma UndecidedFits(lines: seq<string>, k: nat, cap: nat)
    requires k <= |lines| && Undecided(lines, k, cap)
    ensures NoVerdict(lines[..k]) && |Kept(lines[..k], cap)| <= cap
  {
    hide IsOk, IsError;
    forall j | 0 <= j < k
      ensures !IsOk(lines[..k][j]) && !IsError(lines[..k][j])
    {
      assert !Decides(lines, j, cap);
    }
    if k > 0 {
      assert !Decides(lines, k - 1, cap);
    }
  }

  lemma FirstDeciding(lines: seq<string>, cap: nat) returns (k: nat)
    requires !Undecided(lines, |lines|, cap)
    ensures Decides(lines, k, cap) && Undecided(lines, k, cap)
  {
    hide Decides;
    k := 0;
    while !Decides(lines, k, cap)
      invariant k <= |lines| && Undecided(lines, k, cap)
      decreases |lines| - k
    {
      assert k < |lines|;
      k := k + 1;
    }
  }

  /** Once the OK line is there, no text behind it changes the answer. */
  lemma OkIsFinal(text: string, more: string, k: nat, cap: nat, ready: int)
    requires OkBehind(Split(text).lines, k, cap)
    ensures var answer := Kept(Split(text).lines[..k], cap);
      && Collect(Split(text).lines, cap, "", ready) == (|answer|, answer)
      && Collect(Split(text + more).lines, cap, "", ready) == (|answer|, answer)
  {
    var s := Split(text);
    OkResponse(s.lines, k, cap, ready);
    SplitExtends(text, more);
    FeedAppends(s.lines, s.open, more);
    var lines := Split(text + more).lines;
    hide Split, FeedAll;
    assert lines[..k] == s.lines[..k] && lines[k] == s.lines[k];
    OkResponse(lines, k, cap, ready);
  }

  /** For every chunking: two responses with the same text, read in any two ways with no read failing,
      get the same answer, whatever was read ahead. If an OK comes behind lines that fit, it is
      those lines and their length. */
  lemma AnswerForEveryChunking(start: Channel, now: Channel, ret: int, stored: string,
                               start': Channel, now': Channel, ret': int, stored': string, cap: nat, ready: int)
    requires Whole(start) == Whole(start')
    requires Ample(start.plan, start.stream) && Failures(start.plan) == 0
    requires Ample(start'.plan, start'.stream) && Failures(start'.plan) == 0
    requires Failures(now.plan) == Failures(now'.plan) == 0
    requires Answered(start, now, cap, ready, ret, stored) && Answered(start', now', cap, ready, ret', stored')
    ensures ret == ret' && stored == stored' && HasOkAnswer(Split(Whole(start)).lines, cap, ret, stored)
  {
    hide Split, Collect, HasOkAnswer, Ample, Failures;
    OkAnswers(Split(Whole(start)).lines, cap, ready);
  }

  lemma {:induction false} PassedIsKept(lines: seq<string>, cap: nat)
    requires NoVerdict(lines) && |Kept(lines, cap)| <= cap
    ensures Passed(lines, cap) == Some(Kept(lines, cap))
    decreases |lines|
  {
    hide IsOk, IsError;
    if lines != [] {
      var n := |lines| - 1;
      var init, last := lines[..n], lines[n];
      ConcatSnoc(init, last);
      assert init + [last] == lines;
      assert !IsOk(last) && !IsError(last);
      assert NoVerdict(init);
      hide Concat, NoVerdict;
      PassedIsKept(init, cap);
      assert Judge(last, Kept(init, cap), cap) == (None, Kept(lines, cap));
    }
  }

  lemma {:induction false} ConcatSnoc(lines: seq<string>, last: string)
    ensures Concat(lines + [last]) == Concat(lines) + last
    decreases |lines|
  {
    if lines == [] {
      assert (lines + [last])[1..] == [];
    } else {
      assert (lines + [last])[1..] == lines[1..] + [last];
      ConcatSnoc(lines[1..], last);
    }
  }
}
