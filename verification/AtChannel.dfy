/** modules/libFactoryRadioTest/factorytest_radio.c: the buffered line reader of the AT channel.
    The buffer has one cell more than the source gives it: a read that fills all 512 cells would put
    the terminating NUL just behind them. */
module AtChannel {
  import opened Options
  import opened LineSplit

  /** What one read() call will do: deliver up to n characters, or fail. */
  datatype Grant = Chars(n: nat) | Interrupted | Failed

  /** How many of the reads will deliver something while there is something to deliver. */
  function Supply(plan: seq<Grant>): nat {
    if plan == [] then 0
    else (if plan[0].Chars? && plan[0].n > 0 then 1 else 0) + Supply(plan[1..])
  }

  /** How many of the reads will fail, or deliver nothing come what may. */
  function Failures(plan: seq<Grant>): nat {
    if plan == [] then 0
    else (if plan[0] == Failed || plan[0] == Chars(0) then 1 else 0) + Failures(plan[1..])
  }

  /** The reads suffice for the stream, however little each delivers and whatever fails in between. */
  predicate Ample(plan: seq<Grant>, stream: string) {
    |stream| <= Supply(plan)
  }

  /** What reading does to plan and stream; quiet says that the last read brought nothing. Then the
      stream is at its end, or that read failed. */
  predicate Progress(plan: seq<Grant>, stream: string, quiet: bool, plan': seq<Grant>, stream': string) {
    && (Ample(plan, stream) ==> Ample(plan', stream'))
    && Failures(plan') <= Failures(plan)
    && (quiet ==> stream' == "" || plan' == [] || Failures(plan') < Failures(plan))
  }

  /** The modem's side: the characters still to come, and how the reads will cut them up.
      When the plan is used up every further read fails. */
  class Modem {
    var stream: string
    var plan: seq<Grant>

    constructor (stream: string, plan: seq<Grant>)
      ensures this.stream == stream && this.plan == plan
    {
      this.stream, this.plan := stream, plan;
    }

    method Read(buf: array<char>, at: nat, n: nat) returns (count: int, eintr: bool)
      requires at + n <= buf.Length
      modifies this, buf
      ensures plan == if old(plan) == [] then [] else old(plan)[1..]
      ensures eintr ==> count < 0 && old(plan) != []
      ensures count > 0 ==> count <= n && count <= |old(stream)| && old(plan) != []
      ensures count > 0 ==> stream == old(stream)[count..]
      ensures count <= 0 ==> stream == old(stream) && buf[..] == old(buf[..])
      ensures forall k :: 0 <= k < buf.Length ==>
        buf[k] == if count > 0 && at <= k < at + count then old(stream)[k - at] else old(buf[k])
      ensures n > 0 ==> Progress(old(plan), old(stream), count <= 0 && !eintr, plan, stream)
    {
      if plan == [] || plan[0] == Failed {
        plan := if plan == [] then [] else plan[1..];
        return -1, false;
      }
      if plan[0] == Interrupted {
        plan := plan[1..];
        return -1, true;
      }
      var k := plan[0].n;
      k := if n < k then n else k;
      k := if |stream| < k then |stream| else k;
      plan := plan[1..];
      for i := 0 to k
        modifies buf
        invariant forall j :: 0 <= j < buf.Length ==>
          buf[j] == if at <= j < at + i then stream[j - at] else old(buf[j])
      {
        buf[at + i] := stream[i];
      }
      stream := stream[k..];
      return k, false;
    }
  }

  /** read() again and again while it is interrupted. */
  method ReadAgain(fd: Modem, buf: array<char>, at: nat, n: nat) returns (count: int)
    requires at + n <= buf.Length
    modifies fd, buf
    ensures count <= n && count <= |old(fd.stream)|
    ensures count <= 0 ==> fd.stream == old(fd.stream)
    ensures count > 0 ==> fd.stream == old(fd.stream)[count..] && |fd.plan| < |old(fd.plan)|
    ensures forall k :: 0 <= k < buf.Length ==>
      buf[k] == if count > 0 && at <= k < at + count then old(fd.stream)[k - at] else old(buf[k])
    ensures n > 0 ==> Progress(old(fd.plan), old(fd.stream), count <= 0, fd.plan, fd.stream)
  {
    hide Ample, Failures;
    var eintr: bool;
    count, eintr := fd.Read(buf, at, n);
    while eintr
      invariant eintr ==> count < 0
      invariant count <= n && count <= |old(fd.stream)|
      invariant count <= 0 ==> fd.stream == old(fd.stream)
      invariant count > 0 ==> fd.stream == old(fd.stream)[count..] && |fd.plan| < |old(fd.plan)|
      invariant |fd.plan| <= |old(fd.plan)|
      invariant forall k :: 0 <= k < buf.Length ==>
        buf[k] == if count > 0 && at <= k < at + count then old(fd.stream)[k - at] else old(buf[k])
      invariant n > 0 ==> Progress(old(fd.plan), old(fd.stream), count <= 0 && !eintr, fd.plan, fd.stream)
      decreases |fd.plan|, eintr
    {
      count, eintr := fd.Read(buf, at, n);
    }
  }

  /** What a call to readline amounts to: text is everything that was pending or has been delivered,
      rest is what stays pending. */
  ghost predicate Outcome(text: string, line: Option<string>, rest: string) {
    match line
    case None => !HasLine(text) && rest == SkipEol(text)
    case Some(l) => HasLine(text) && l == FirstLine(text) && rest == AfterLine(text)
  }

  /** The characters that have left a stream. */
  ghost function Delivered(before: string, after: string): string {
    if |after| <= |before| then before[..|before| - |after|] else ""
  }

  class AtReader {
    const buf: array<char>
    var cur: nat
    /** The terminating NUL of the buffered text. */
    ghost var end: nat

    constructor ()
      ensures Valid() && Pending() == "" && fresh(buf)
    {
      buf := new char[AT_BUFFER_SIZE + 1](_ => '\0');
      cur, end := 0, 0;
    }

    ghost predicate Valid()
      reads this, buf
    {
      && buf.Length == AT_BUFFER_SIZE + 1
      && cur <= end <= AT_BUFFER_SIZE
      && buf[end] == '\0'
      && forall k :: cur <= k < end ==> buf[k] != '\0'
    }

    /** The characters read but not yet returned. */
    ghost function Pending(): string
      requires Valid()
      reads this, buf
    {
      buf[cur..end]
    }

    method SkipNewlines()
      requires Valid()
      modifies this`cur
      ensures Valid() && Pending() == SkipEol(old(Pending()))
    {
      while buf[cur] == '\r' || buf[cur] == '\n'
        invariant Valid()
        invariant SkipEol(Pending()) == SkipEol(old(Pending()))
        decreases end - cur
      {
        assert buf[cur..end][1..] == buf[cur + 1..end];
        cur := cur + 1;
      }
    }

    /** NULL when the buffered text has no line end; a lone "> " is taken for a prompt. */
    method FindNextEol() returns (eol: Option<nat>)
      requires Valid()
      ensures Pending() == "> " ==> eol == Some(cur + 2)
      ensures Pending() != "> " ==>
        eol == if EolIndex(Pending()) < |Pending()| then Some(cur + EolIndex(Pending())) else None
    {
      var prompt := AtPrompt();
      if prompt {
        return Some(cur + 2);
      }
      var p := ScanEol();
      return if buf[p] == '\0' then None else Some(p);
    }

    /** The SMS prompt is not ended by a line end. */
    method AtPrompt() returns (prompt: bool)
      requires Valid()
      ensures prompt <==> Pending() == "> "
      ensures prompt ==> end == cur + 2
    {
      ghost var pending := Pending();
      assert |pending| == end - cur;
      assert forall k :: 0 <= k < |pending| ==> pending[k] == buf[cur + k];
      prompt := buf[cur] == '>' && buf[cur + 1] == ' ' && buf[cur + 2] == '\0';
      if prompt {
        assert end == cur + 2;
        assert pending == [pending[0], pending[1]];
      }
    }

    /** The first line end, or the NUL. */
    method ScanEol() returns (p: nat)
      requires Valid()
      ensures p == cur + EolIndex(Pending()) <= end && (buf[p] == '\0' <==> p == end)
    {
      hide EolIndex;
      p := cur;
      while buf[p] != '\0' && buf[p] != '\r' && buf[p] != '\n'
        invariant cur <= p <= end
        invariant EolIndex(Pending()) == p - cur + EolIndex(buf[p..end])
        decreases end - p
      {
        EolBehind(buf[p..end]);
        assert buf[p..end][1..] == buf[p + 1..end];
        p := p + 1;
      }
      EolHere(buf[p..end]);
    }

    method StrLen() returns (len: nat)
      requires Valid()
      ensures len == end - cur
    {
      len := 0;
      while buf[cur + len] != '\0'
        invariant cur + len <= end
        decreases end - len
      {
        len := len + 1;
      }
    }

    /** memmove: the partial line goes to the front of the buffer, its NUL with it. */
    method Compact() returns (len: nat)
      requires Valid()
      modifies this, buf
      ensures Valid() && cur == 0 && end == len && Pending() == old(Pending())
    {
      len := StrLen();
      MoveDown(cur, len + 1);
      assert forall k :: 0 <= k <= len ==> buf[k] == buf[..len + 1][k] == old(buf[cur + k]);
      cur, end := 0, len;
    }

    method MoveDown(from: nat, n: nat)
      requires from + n <= buf.Length
      modifies buf
      ensures buf[..n] == old(buf[from..from + n])
    {
      ghost var was := buf[..];
      for i := 0 to n
        invariant forall k :: 0 <= k < i ==> buf[k] == was[from + k]
        invariant forall k :: i <= k < buf.Length ==> buf[k] == was[k]
      {
        buf[i] := buf[from + i];
      }
      assert was[from..from + n] == buf[..n];
    }

    /** Skips line ends and looks for the next one behind them. */
    method NextEol(ghost more: string) returns (eol: Option<nat>)
      requires Valid() && Safe(Pending() + more)
      modifies this`cur
      ensures Valid() && Safe(Pending() + more) && Pending() == SkipEol(old(Pending()))
      ensures eol == if HasLine(old(Pending())) then Some(cur + EolIndex(Pending())) else None
    {
      SkippedIsSafe(Pending(), more);
      SkipNewlines();
      NoPromptPending(Pending(), more);
      eol := FindNextEol();
    }

    /** Reads into the free part of the buffer and terminates what is there. */
    method ReadMore(fd: Modem, pRead: nat) returns (count: int)
      requires Valid() && pRead == end < AT_BUFFER_SIZE
      requires forall k :: 0 <= k < |fd.stream| ==> fd.stream[k] != '\0'
      modifies this`end, buf, fd
      ensures Valid() && count <= |old(fd.stream)|
      ensures count <= 0 ==> fd.stream == old(fd.stream) && Pending() == old(Pending())
      ensures count > 0 ==> fd.stream == old(fd.stream)[count..] && |fd.plan| < |old(fd.plan)|
      ensures count > 0 ==> Pending() == old(Pending()) + old(fd.stream)[..count]
      ensures count > 0 ==> end == old(end) + count
      ensures Progress(old(fd.plan), old(fd.stream), count <= 0, fd.plan, fd.stream)
    {
      hide Progress;
      ghost var pending, stream := Pending(), fd.stream;
      count := ReadAgain(fd, buf, pRead, AT_BUFFER_SIZE - pRead);
      assert buf[cur..pRead] == pending;
      if count > 0 {
        assert buf[pRead..pRead + count] == stream[..count];
        buf[pRead + count] := '\0';
        end := pRead + count;
        assert buf[cur..end] == buf[cur..pRead] + buf[pRead..end];
      }
    }

    /** Throws away what is buffered. */
    method Reset()
      requires Valid()
      modifies this, buf
      ensures Valid() && Pending() == "" && cur == end == 0
    {
      cur := 0;
      buf[0] := '\0';
      end := 0;
    }

    /** The reader between two reads: text is all that was pending or delivered since the call began,
        total is text and everything still to come. */
    ghost predicate Looking(total: string, text: string, stream: string, eol: Option<nat>)
      reads this, buf
    {
      && Valid() && Safe(total) && Safe(Pending() + stream) && text + stream == total
      && (Fits(total) ==>
        && Pending() == SkipEol(text)
        && (eol == None <==> !HasLine(text))
        && (eol == None ==> end <= |text|))
      && (eol.Some? ==> EolIndex(Pending()) < |Pending()| && eol.value == cur + EolIndex(Pending()))
    }

    /** What the call finds in the buffer. */
    method Begin(ghost more: string) returns (eol: Option<nat>, pRead: nat)
      requires Valid() && Safe(Pending() + more)
      modifies this, buf
      ensures Looking(old(Pending()) + more, old(Pending()), more, eol)
      ensures eol == None ==> pRead == end
    {
      hide SkipEol, EolIndex, HasLine, Safe, Fits;
      ghost var text := Pending();
      if buf[cur] == '\0' {
        NothingPending(text, more);
        Reset();
        eol, pRead := None, 0;
      } else {
        eol := NextEol(more);
        SkipTwice(text);
        pRead := 0;
        if eol == None {
          pRead := Compact();
        }
      }
    }

    /** One round of the loop, after ditching a full buffer. */
    method ReadAndLook(fd: Modem, at: nat, ghost total: string, ghost text: string)
      returns (count: int, eol: Option<nat>, pRead: nat)
      requires Looking(total, text, fd.stream, None) && at == end
      modifies this, buf, fd
      ensures count <= |old(fd.stream)|
      ensures count <= 0 ==> fd.stream == old(fd.stream) && Looking(total, text, fd.stream, None)
      ensures count > 0 ==> fd.stream == old(fd.stream)[count..] && |fd.plan| < |old(fd.plan)|
      ensures count > 0 ==> Looking(total, text + old(fd.stream)[..count], fd.stream, eol)
      ensures count > 0 && eol == None ==> pRead == end
      ensures Progress(old(fd.plan), old(fd.stream), count <= 0, fd.plan, fd.stream)
    {
      hide SkipEol, EolIndex, HasLine, Safe, Fits, Progress;
      pRead := at;
      if Fits(total) {
        OpenTextIsShort(text, fd.stream);
      }
      if AT_BUFFER_SIZE - pRead == 0 {
        // No room for another character: what is buffered is lost.
        Reset();
        pRead := 0;
        RestIsSafe(total, text, fd.stream);
      }
      ghost var pending, stream := Pending(), fd.stream;
      SafeHasNoNul(pending, stream);
      count := ReadMore(fd, pRead);
      eol := None;
      if count > 0 {
        assert stream[..count] + fd.stream == stream;
        eol := LookAgain(total, text, pending, stream[..count], fd.stream);
        pRead := pRead + count;
      }
    }

    /** Behind a read that appended chunk: skip line ends again, look for one again. */
    method LookAgain(ghost total: string, ghost text: string, ghost pending: string,
                     ghost chunk: string, ghost more: string) returns (eol: Option<nat>)
      requires Valid() && Pending() == pending + chunk
      requires Safe(total) && text + (chunk + more) == total && Safe(pending + (chunk + more))
      requires Fits(total) ==> pending == SkipEol(text) && end <= |text| + |chunk|
      modifies this`cur
      ensures Looking(total, text + chunk, more, eol)
    {
      hide SkipEol, EolIndex, HasLine, Safe, Fits;
      Regroup(pending, text, chunk, more, chunk + more);
      eol := NextEol(more);
      SkipConcat(text, chunk);
      SkipTwice(pending + chunk);
      LineAlike(pending + chunk, text + chunk);
    }

    /** The NUL goes over the line end, the cursor behind it. */
    method TakeLine(eol: nat, ghost more: string) returns (line: string)
      requires Valid() && Safe(Pending() + more)
      requires EolIndex(Pending()) < |Pending()| && eol == cur + EolIndex(Pending())
      modifies this, buf
      ensures Valid() && Safe(Pending() + more)
      ensures line == old(Pending())[..EolIndex(old(Pending()))]
      ensures Pending() == old(Pending())[EolIndex(old(Pending())) + 1..]
    {
      hide EolIndex, Safe;
      ghost var pending, i := Pending(), EolIndex(Pending());
      EolIsEol(pending);
      SafeAfterLine(pending, more, i);
      line := buf[cur..eol];
      assert line == pending[..i];
      assert buf[eol + 1..end] == pending[i + 1..];
      buf[eol] := '\0';
      cur := eol + 1;
    }

    method ReadLine(fd: Modem) returns (line: Option<string>)
      requires Valid() && Safe(Pending() + fd.stream)
      modifies this, buf, fd
      ensures Valid() && Safe(Pending() + fd.stream)
      ensures IsSuffix(fd.stream, old(fd.stream))
      ensures Progress(old(fd.plan), old(fd.stream), line == None, fd.plan, fd.stream)
      ensures Fits(old(Pending() + fd.stream)) ==>
        Outcome(old(Pending()) + Delivered(old(fd.stream), fd.stream), line, Pending())
    {
      hide SkipEol, EolIndex, HasLine, Safe, Fits, Ample, Failures;
      ghost var total, text := Pending() + fd.stream, Pending();
      var eol, pRead := Begin(fd.stream);
      while eol == None
        invariant eol == None ==> pRead == end
        invariant Looking(total, text, fd.stream, eol) && IsSuffix(fd.stream, old(fd.stream))
        invariant Progress(old(fd.plan), old(fd.stream), false, fd.plan, fd.stream)
        decreases |fd.plan|, eol == None
      {
        ghost var stream := fd.stream;
        var count;
        count, eol, pRead := ReadAndLook(fd, pRead, total, text);
        if count <= 0 {
          DeliveredText(old(Pending()), old(fd.stream), text, fd.stream);
          return None;
        }
        text := text + stream[..count];
        SuffixChain(old(fd.stream), stream, count);
      }
      DeliveredText(old(Pending()), old(fd.stream), text, fd.stream);
      LineParts(text);
      var l := TakeLine(eol.value, fd.stream);
      line := Some(l);
    }
  }

  lemma SuffixChain(before: string, stream: string, count: nat)
    requires IsSuffix(stream, before) && count <= |stream|
    ensures IsSuffix(stream[count..], before)
  {}

  lemma LineParts(text: string)
    ensures HasLine(text) ==>
      var t := SkipEol(text);
      FirstLine(text) == t[..EolIndex(t)] && AfterLine(text) == t[EolIndex(t) + 1..]
  {}

  lemma Regroup(pending: string, text: string, chunk: string, rest: string, stream: string)
    requires chunk + rest == stream
    ensures (pending + chunk) + rest == pending + stream
    ensures (text + chunk) + rest == text + stream
  {}

  lemma EolBehind(text: string)
    requires text != "" && !IsEol(text[0])
    ensures EolIndex(text) == 1 + EolIndex(text[1..])
  {}

  lemma EolHere(text: string)
    requires text == "" || IsEol(text[0])
    ensures EolIndex(text) == 0
  {}

  lemma EolIsEol(text: string)
    requires EolIndex(text) < |text|
    ensures IsEol(text[EolIndex(text)])
  {}

  /** Behind a line end a line starts. */
  lemma SafeAfterLine(text: string, more: string, i: nat)
    requires Safe(text + more) && i < |text| && IsEol(text[i])
    ensures Safe(text[i + 1..] + more)
  {
    var s, t := text + more, text[i + 1..] + more;
    assert s[|s| - |t|..] == t;
    SafeSuffix(s, t);
  }

  lemma NothingPending(text: string, more: string)
    requires text == ""
    ensures !HasLine(text) && SkipEol(text) == text && text + more == "" + more
  {}

  lemma SkipTwice(text: string)
    ensures SkipEol(SkipEol(text)) == SkipEol(text)
    ensures HasLine(text) <==> EolIndex(SkipEol(text)) < |SkipEol(text)|
  {}

  lemma LineAlike(a: string, b: string)
    ensures SkipEol(a) == SkipEol(b) ==> (HasLine(a) <==> HasLine(b))
  {}

  /** What is left after ditching the buffer. */
  lemma RestIsSafe(total: string, text: string, stream: string)
    requires total == text + stream && Safe(total) && !Fits(total)
    ensures Safe("" + stream)
  {
    assert "" + stream == stream;
    assert total[|total| - |stream|..] == stream;
    SafeSuffix(total, stream);
  }

  lemma SafeHasNoNul(text: string, more: string)
    requires Safe(text + more)
    ensures forall k :: 0 <= k < |more| ==> more[k] != '\0'
  {
    assert forall k :: 0 <= k < |more| ==> more[k] == (text + more)[|text| + k];
  }

  lemma DeliveredText(pending: string, before: string, text: string, after: string)
    requires text + after == pending + before && IsSuffix(after, before)
    ensures text == pending + Delivered(before, after)
  {
    var d := Delivered(before, after);
    assert before == d + after;
    assert text + after == (pending + d) + after;
    assert text == (text + after)[..|text|] && pending + d == ((pending + d) + after)[..|text|];
  }

  /** What readline leaves pending is a piece of what there was, less the line it returns. */
  lemma OutcomeRest(text: string, line: Option<string>, rest: string)
    requires Outcome(text, line, rest)
    ensures IsSuffix(rest, text) && (line.Some? ==> |rest| < |text|)
  {
    SkipIsSuffix(text);
    if line.Some? {
      var t := SkipEol(text);
      assert rest == t[|t| - |rest|..];
      assert t == text[|text| - |t|..];
    }
  }

  // ----- Whole sessions -------------------------------------------------------------------------

  /** What has not been returned yet: read and pending, or still in the stream; and how it will come. */
  datatype Channel = Channel(pending: string, stream: string, plan: seq<Grant>)

  /** One call to readline. */
  datatype Call = Call(before: Channel, line: Option<string>, after: Channel)

  /** All the text there is. */
  function Whole(c: Channel): string {
    c.pending + c.stream
  }

  /** What ReadLine promises. */
  ghost predicate Kept(c: Call) {
    && IsSuffix(c.after.stream, c.before.stream)
    && Outcome(c.before.pending + Delivered(c.before.stream, c.after.stream), c.line, c.after.pending)
    && Progress(c.before.plan, c.before.stream, c.line == None, c.after.plan, c.after.stream)
  }

  /** Calls that follow one another and each keep readline's promise. */
  ghost predicate Session(calls: seq<Call>) {
    && (forall i :: 0 <= i < |calls| ==> Kept(calls[i]))
    && (forall i :: 0 < i < |calls| ==> calls[i - 1].after == calls[i].before)
  }

  function LineOf(c: Call): seq<string> {
    if c.line.Some? then [c.line.value] else []
  }

  function Returned(calls: seq<Call>): seq<string>
    decreases |calls|
  {
    if calls == [] then [] else Returned(calls[..|calls| - 1]) + LineOf(calls[|calls| - 1])
  }

  /** How often readline returned NULL. */
  function Nulls(calls: seq<Call>): nat
    decreases |calls|
  {
    if calls == [] then 0
    else Nulls(calls[..|calls| - 1]) + if calls[|calls| - 1].line == None then 1 else 0
  }

  /** The lines of text are the ones already got, then the ones of what is left, and the unfinished
      line is the same. */
  ghost predicate Found(text: string, got: seq<string>, left: string) {
    Split(text) == Splitter(got + Split(left).lines, Split(left).open)
  }

  lemma FoundChains(a: string, got: seq<string>, b: string, more: seq<string>, c: string)
    requires Found(a, got, b) && Found(b, more, c)
    ensures Found(a, got + more, c)
  {
    assert got + (more + Split(c).lines) == (got + more) + Split(c).lines;
  }

  /** A call takes its line off the text there is. */
  lemma CallKeepsText(c: Call)
    requires Kept(c)
    ensures Found(Whole(c.before), LineOf(c), Whole(c.after))
  {
    var arrived := Delivered(c.before.stream, c.after.stream);
    hide Split, FeedAll, Outcome, Progress;
    assert c.before.stream == arrived + c.after.stream;
    OutcomeFinds(c.before.pending + arrived, c.line, c.after.pending);
    FoundBehind(c.before.pending + arrived, LineOf(c), c.after.pending, c.after.stream);
    assert Whole(c.before) == (c.before.pending + arrived) + c.after.stream;
  }

  lemma OutcomeFinds(text: string, line: Option<string>, rest: string)
    requires Outcome(text, line, rest)
    ensures Found(text, if line.Some? then [line.value] else [], rest)
  {
    if HasLine(text) {
      SplitSome(text);
    } else {
      SkipFeedsNothing(text);
      assert [] + Split(text).lines == Split(text).lines;
    }
  }

  /** What comes later is found the same way in both texts. */
  lemma FoundBehind(text: string, got: seq<string>, left: string, more: string)
    requires Found(text, got, left)
    ensures Found(text + more, got, left + more)
  {
    hide Split, FeedAll;
    SplitExtends(text, more);
    SplitExtends(left, more);
    FeedPrefixed(got, Split(left), more);
  }

  lemma FeedPrefixed(head: seq<string>, r: Splitter, more: string)
    ensures var e := FeedAll(r, more);
      FeedAll(Splitter(head + r.lines, r.open), more) == Splitter(head + e.lines, e.open)
  {
    var e := FeedAll(Splitter([], r.open), more);
    FeedAppends(head + r.lines, r.open, more);
    FeedAppends(r.lines, r.open, more);
    assert head + (r.lines + e.lines) == (head + r.lines) + e.lines;
  }

  /** Nothing is lost and nothing is invented: the lines returned so far, then the lines of the text
      still pending or to come, are the lines of all the text, and the unfinished line is the same. */
  lemma {:induction false} SessionKeepsText(calls: seq<Call>)
    requires calls != [] && Session(calls)
    ensures Found(Whole(calls[0].before), Returned(calls), Whole(calls[|calls| - 1].after))
    decreases |calls|
  {
    hide Found, Kept, Whole, LineOf;
    var init, last := calls[..|calls| - 1], calls[|calls| - 1];
    CallKeepsText(last);
    if init == [] {
      assert Returned(calls) == [] + LineOf(last) == LineOf(last);
    } else {
      SessionKeepsText(init);
      assert calls[|calls| - 2].after == last.before;
      FoundChains(Whole(calls[0].before), Returned(init), Whole(last.before), LineOf(last), Whole(last.after));
    }
  }

  /** The stream is at its end and no line is left. */
  ghost predicate Exhausted(c: Channel) {
    c.stream == "" && Split(c.pending).lines == []
  }

  lemma SilentCall(c: Call)
    requires Kept(c) && Ample(c.before.plan, c.before.stream) && c.line == None
    ensures Exhausted(c.after) || Failures(c.after.plan) < Failures(c.before.plan)
  {
    var text := c.before.pending + Delivered(c.before.stream, c.after.stream);
    SplitNone(text);
    SkipFeedsNothing(text);
  }

  lemma ExhaustedStays(c: Call)
    requires Kept(c) && Exhausted(c.before)
    ensures Exhausted(c.after) && c.line == None
  {
    CallKeepsText(c);
    hide Split, Outcome, Progress;
    assert Whole(c.before) == c.before.pending && Whole(c.after) == c.after.pending;
    assert |LineOf(c) + Split(c.after.pending).lines| == 0;
  }

  /** With ample reads, each NULL either was owed to a failed read or tells that all was returned. */
  lemma {:induction false} NullsAreFailures(calls: seq<Call>)
    requires calls != [] && Session(calls) && Ample(calls[0].before.plan, calls[0].before.stream)
    ensures var end := calls[|calls| - 1].after;
      && Ample(end.plan, end.stream)
      && (Exhausted(end) || Failures(end.plan) + Nulls(calls) <= Failures(calls[0].before.plan))
    decreases |calls|
  {
    hide Exhausted, Ample, Failures;
    var init, last := calls[..|calls| - 1], calls[|calls| - 1];
    assert Kept(last);
    if init != [] {
      NullsAreFailures(init);
      assert calls[|calls| - 2].after == last.before;
      if Exhausted(last.before) {
        ExhaustedStays(last);
        return;
      }
    }
    if last.line == None {
      SilentCall(last);
    }
  }

  /** For every stream, every way reads cut it up and every failed read in between: once readline has
      returned NULL more often than reads fail, the lines returned are exactly the lines of the text
      there was, in order, the stream has been read to its end, and what is pending is its
      unfinished line. */
  lemma AllLinesReturned(calls: seq<Call>)
    requires calls != [] && Session(calls) && Ample(calls[0].before.plan, calls[0].before.stream)
    requires Nulls(calls) > Failures(calls[0].before.plan)
    ensures Returned(calls) == Split(Whole(calls[0].before)).lines
    ensures calls[|calls| - 1].after.stream == ""
    ensures Split(calls[|calls| - 1].after.pending) == Splitter([], Split(Whole(calls[0].before)).open)
  {
    hide Session, Returned, Nulls, Failures, Ample, Split;
    NullsAreFailures(calls);
    SessionKeepsText(calls);
    var end := calls[|calls| - 1].after;
    assert Whole(end) == end.pending;
    assert Returned(calls) + [] == Returned(calls);
  }

  /** Two sessions over the same text, cut up in any two ways, return the same lines. */
  lemma ChunkingDoesNotMatter(calls: seq<Call>, others: seq<Call>)
    requires calls != [] && Session(calls) && Ample(calls[0].before.plan, calls[0].before.stream)
    requires others != [] && Session(others) && Ample(others[0].before.plan, others[0].before.stream)
    requires Whole(calls[0].before) == Whole(others[0].before)
    requires Nulls(calls) > Failures(calls[0].before.plan)
    requires Nulls(others) > Failures(others[0].before.plan)
    ensures Returned(calls) == Returned(others)
    ensures Split(calls[|calls| - 1].after.pending) == Split(others[|others| - 1].after.pending)
  {
    hide Session, Returned, Nulls, Failures, Ample, Split, Whole;
    AllLinesReturned(calls);
    AllLinesReturned(others);
  }

  /** readline called again and again until it has returned NULL so many times. */
  method ReadLines(reader: AtReader, fd: Modem, nulls: nat) returns (lines: seq<string>, ghost calls: seq<Call>)
    requires reader.Valid() && Safe(reader.Pending() + fd.stream) && Fits(reader.Pending() + fd.stream)
    modifies reader, reader.buf, fd
    ensures reader.Valid() && Session(calls) && Nulls(calls) == nulls && Returned(calls) == lines
    ensures Ample(old(fd.plan), old(fd.stream)) && nulls > Failures(old(fd.plan)) ==>
      var s := Split(old(reader.Pending() + fd.stream));
      lines == s.lines && fd.stream == "" && Split(reader.Pending()) == Splitter([], s.open)
  {
    hide Safe, Fits, Split, Kept, Ample, Failures;
    ghost var start := Channel(reader.Pending(), fd.stream, fd.plan);
    lines, calls := [], [];
    var left := nulls;
    while left > 0
      invariant reader.Valid() && Safe(reader.Pending() + fd.stream) && Fits(reader.Pending() + fd.stream)
      invariant Session(calls) && Nulls(calls) == nulls - left && Returned(calls) == lines
      invariant calls == [] ==> start == Channel(reader.Pending(), fd.stream, fd.plan)
      invariant calls != [] ==> calls[0].before == start
      invariant calls != [] ==> calls[|calls| - 1].after == Channel(reader.Pending(), fd.stream, fd.plan)
      decreases left, |reader.Pending()| + |fd.stream|
    {
      var line;
      ghost var call;
      line, call := NextLine(reader, fd);
      assert (calls + [call])[..|calls|] == calls;
      calls := calls + [call];
      if line.Some? {
        lines := lines + [line.value];
      } else {
        left := left - 1;
        assert lines + [] == lines;
      }
    }
    if Ample(start.plan, start.stream) && nulls > Failures(start.plan) {
      AllLinesReturned(calls);
    }
  }

  /** readline, as one call of a session. */
  method NextLine(reader: AtReader, fd: Modem) returns (line: Option<string>, ghost call: Call)
    requires reader.Valid() && Safe(reader.Pending() + fd.stream) && Fits(reader.Pending() + fd.stream)
    modifies reader, reader.buf, fd
    ensures reader.Valid() && Safe(reader.Pending() + fd.stream) && Fits(reader.Pending() + fd.stream)
    ensures call.before == Channel(old(reader.Pending()), old(fd.stream), old(fd.plan))
    ensures call.after == Channel(reader.Pending(), fd.stream, fd.plan)
    ensures Kept(call) && call.line == line
    ensures line.Some? ==> |reader.Pending()| + |fd.stream| < |old(reader.Pending())| + |old(fd.stream)|
  {
    hide Safe, Fits, Outcome, Progress;
    ghost var before := Channel(reader.Pending(), fd.stream, fd.plan);
    line := reader.ReadLine(fd);
    call := Call(before, line, Channel(reader.Pending(), fd.stream, fd.plan));
    StillFits(call);
  }

  lemma StillFits(c: Call)
    requires Kept(c) && Fits(Whole(c.before))
    ensures Fits(Whole(c.after)) && (c.line.Some? ==> |Whole(c.after)| < |Whole(c.before)|)
  {
    hide Fits, Outcome, Progress;
    var arrived := Delivered(c.before.stream, c.after.stream);
    var text := c.before.pending + arrived;
    assert c.before.stream == arrived + c.after.stream;
    assert Whole(c.before) == text + c.after.stream;
    OutcomeRest(text, c.line, c.after.pending);
    SuffixWith(text, c.after.pending, c.after.stream);
    FitsSuffix(Whole(c.before), Whole(c.after));
  }

  lemma SuffixWith(text: string, rest: string, more: string)
    requires IsSuffix(rest, text)
    ensures IsSuffix(rest + more, text + more)
  {
    var s, t := text + more, rest + more;
    assert s[|s| - |t|..] == t;
  }
}
