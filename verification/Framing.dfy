/** modules/libmiscdata/translate_packet.c: the byte-stuffed diag frame and the plain one.
    The stuffing is the transparency rule of section 4.2 of RFC 1662; the decoder is the
    specification it is measured against. */
module Framing {
  import opened Options
  import opened Bytes

  const FLAG: Byte := 0x7E
  const ESCAPE: Byte := 0x7D

  /** What is sent for one payload byte. */
  function Stuff1(b: Byte): seq<Byte> {
    if b == FLAG then [ESCAPE, 0x5E] else if b == ESCAPE then [ESCAPE, 0x5D] else [b]
  }

  function Stuff(payload: seq<Byte>): seq<Byte> {
    if payload == [] then [] else Stuff1(payload[0]) + Stuff(payload[1..])
  }

  function Frame(payload: seq<Byte>): seq<Byte> {
    [FLAG] + Stuff(payload) + [FLAG]
  }

  function PlainFrame(payload: seq<Byte>): seq<Byte> {
    [FLAG] + payload + [FLAG]
  }

  /** The number of payload bytes that must be escaped. */
  function Specials(payload: seq<Byte>): nat {
    if payload == [] then 0
    else (if payload[0] == FLAG || payload[0] == ESCAPE then 1 else 0) + Specials(payload[1..])
  }

  /** What a handler did to its reply buffer: nothing, or one frame at the front of it. */
  ghost predicate Sent(before: seq<Byte>, after: seq<Byte>, n: nat, frame: Option<seq<Byte>>) {
    match frame
    case None => n == 0 && after == before
    case Some(f) => n == |f| <= |before| && after == f + before[n..]
  }

  lemma SentNothing(rsp: seq<Byte>)
    ensures Sent(rsp, rsp, 0, None)
  {}

  /** The frame of a reply, if there is one. */
  function Framed(reply: Option<seq<Byte>>): Option<seq<Byte>> {
    if reply.Some? then Some(PlainFrame(reply.value)) else None
  }

  // ----- The encoders ---------------------------------------------------------------------------

  method TranslatePacketEncode(dest: array<Byte>, src: array<Byte>, size: nat) returns (translated: nat)
    requires dest != src && size <= src.Length
    requires |Frame(src[..size])| <= dest.Length
    modifies dest
    ensures Sent(old(dest[..]), dest[..], translated, Some(Frame(src[..size])))
  {
    ghost var payload := src[..size];
    ghost var before := dest[..];
    OpenedBounds(payload);
    hide Opened, Frame;
    dest[0] := 0x7E;
    translated := 1;
    ghost var out := [FLAG];
    for i := 0 to size
      invariant src[..size] == payload
      invariant out == Opened(payload, i)
      invariant translated == |out| < dest.Length
      invariant forall k :: 0 <= k < translated ==> dest[k] == out[k]
      invariant forall k :: translated <= k < dest.Length ==> dest[k] == before[k]
    {
      OpenedStep(payload, i);
      assert src[i] == payload[i];
      ghost var next := out + Stuff1(payload[i]);
      assert forall k :: 0 <= k < translated ==> next[k] == out[k] == dest[k];
      if src[i] == 0x7E {
        dest[translated] := 0x7D;
        dest[translated + 1] := 0x5E;
        translated := translated + 2;
      } else if src[i] == 0x7D {
        dest[translated] := 0x7D;
        dest[translated + 1] := 0x5D;
        translated := translated + 2;
      } else {
        dest[translated] := src[i];
        translated := translated + 1;
      }
      out := next;
    }
    dest[translated] := 0x7E;
    translated := translated + 1;
    assert dest[..] == (out + [FLAG]) + before[translated..];
  }

  /** The opening flag and the first i payload bytes, stuffed. */
  ghost function Opened(payload: seq<Byte>, i: nat): seq<Byte>
    requires i <= |payload|
  {
    [FLAG] + Stuff(payload[..i])
  }

  lemma OpenedBounds(payload: seq<Byte>)
    ensures Opened(payload, 0) == [FLAG]
    ensures Frame(payload) == Opened(payload, |payload|) + [FLAG]
  {
    assert payload[..0] == [] && payload[..|payload|] == payload;
  }

  lemma OpenedStep(payload: seq<Byte>, i: nat)
    requires i < |payload|
    ensures Opened(payload, i + 1) == Opened(payload, i) + Stuff1(payload[i])
    ensures |Opened(payload, i + 1)| < |Frame(payload)|
  {
    assert payload[..i + 1] == payload[..i] + [payload[i]];
    StuffAppend(payload[..i], payload[i]);
    assert payload == payload[..i + 1] + payload[i + 1..];
    StuffConcat(payload[..i + 1], payload[i + 1..]);
  }

  /** The plain variant copies without stuffing: memcpy between two flags. */
  method TranslatePacket(dest: array<Byte>, src: array<Byte>, start: nat, size: nat) returns (n: nat)
    requires dest != src && start + size <= src.Length && size + 2 <= dest.Length
    modifies dest
    ensures Sent(old(dest[..]), dest[..], n, Some(PlainFrame(src[start..start + size])))
  {
    ghost var before := dest[..];
    dest[0] := 0x7E;
    for i := 0 to size
      invariant dest[..1 + i] == [FLAG] + src[start..start + i]
      invariant forall k :: 1 + i <= k < dest.Length ==> dest[k] == before[k]
    {
      dest[1 + i] := src[start + i];
    }
    dest[1 + size] := 0x7E;
    n := size + 2;
    assert dest[..] == PlainFrame(src[start..start + size]) + before[n..];
  }

  lemma {:induction false} StuffAppend(p: seq<Byte>, b: Byte)
    ensures Stuff(p + [b]) == Stuff(p) + Stuff1(b)
    decreases |p|
  {
    if p == [] {
      assert (p + [b])[1..] == [];
    } else {
      assert (p + [b])[1..] == p[1..] + [b];
      StuffAppend(p[1..], b);
    }
  }

  lemma {:induction false} StuffConcat(p: seq<Byte>, q: seq<Byte>)
    ensures Stuff(p + q) == Stuff(p) + Stuff(q)
    decreases |p|
  {
    if p == [] {
      assert p + q == q;
    } else {
      assert (p + q)[1..] == p[1..] + q;
      StuffConcat(p[1..], q);
    }
  }

  // ----- Size -----------------------------------------------------------------------------------

  lemma {:induction false} FrameLength(payload: seq<Byte>)
    ensures |Frame(payload)| == |payload| + 2 + Specials(payload)
    ensures Specials(payload) <= |payload|
    ensures Specials(payload) == 0 <==> FLAG !in payload && ESCAPE !in payload
    decreases |payload|
  {
    if payload != [] {
      FrameLength(payload[1..]);
      assert payload == [payload[0]] + payload[1..];
    }
  }

  // ----- Decoding -------------------------------------------------------------------------------

  function Unstuff(body: seq<Byte>): Option<seq<Byte>> {
    if body == [] then Some([])
    else if body[0] == FLAG then None
    else if body[0] != ESCAPE then Prepend(body[0], Unstuff(body[1..]))
    else if |body| >= 2 && body[1] == 0x5E then Prepend(FLAG, Unstuff(body[2..]))
    else if |body| >= 2 && body[1] == 0x5D then Prepend(ESCAPE, Unstuff(body[2..]))
    else None
  }

  function Prepend(b: Byte, rest: Option<seq<Byte>>): Option<seq<Byte>> {
    if rest.Some? then Some([b] + rest.value) else None
  }

  /** The position of the first flag, or the length if there is none. */
  function FlagAt(s: seq<Byte>): (i: nat)
    ensures i <= |s|
  {
    if s == [] || s[0] == FLAG then 0 else 1 + FlagAt(s[1..])
  }

  /** Cuts a stream into frames and decodes each; None when the stream is not made of frames. */
  function Split(stream: seq<Byte>): Option<seq<seq<Byte>>>
    decreases |stream|
  {
    if stream == [] then Some([])
    else if stream[0] != FLAG then None
    else
      var rest := stream[1..];
      var end := FlagAt(rest);
      if end == |rest| then None
      else
        var payload := Unstuff(rest[..end]);
        var others := Split(rest[end + 1..]);
        if payload.Some? && others.Some? then Some([payload.value] + others.value) else None
  }

  function Frames(payloads: seq<seq<Byte>>): seq<Byte> {
    if payloads == [] then [] else Frame(payloads[0]) + Frames(payloads[1..])
  }

  /** The decoder accepts exactly the concatenations of encoded frames, and returns exactly the
      payloads they were made from. Two different lists of payloads never look alike on the wire. */
  lemma SplitExactlyFrames(stream: seq<Byte>, payloads: seq<seq<Byte>>)
    ensures Split(stream) == Some(payloads) <==> stream == Frames(payloads)
  {
    if stream == Frames(payloads) {
      SplitOfFrames(payloads);
    }
    if Split(stream) == Some(payloads) {
      FramesOfSplit(stream);
    }
  }

  lemma {:induction false} SplitOfFrames(payloads: seq<seq<Byte>>)
    ensures Split(Frames(payloads)) == Some(payloads)
    decreases |payloads|
  {
    if payloads != [] {
      hide Split, Frame;
      SplitOfFrames(payloads[1..]);
      SplitFrame(payloads[0], Frames(payloads[1..]), payloads[1..]);
      assert payloads == [payloads[0]] + payloads[1..];
    }
  }

  lemma SplitFrame(payload: seq<Byte>, tail: seq<Byte>, others: seq<seq<Byte>>)
    requires Split(tail) == Some(others)
    ensures Split(Frame(payload) + tail) == Some([payload] + others)
  {
    hide Split, Unstuff, FlagAt, Stuff;
    var body := Stuff(payload);
    var rest := body + ([FLAG] + tail);
    assert Frame(payload) + tail == [FLAG] + rest;
    NoFlagInside(payload);
    FlagAfter(body, tail);
    UnstuffOfStuff(payload);
    SplitStep(rest, body, tail, payload, others);
  }

  lemma SplitStep(rest: seq<Byte>, body: seq<Byte>, tail: seq<Byte>,
                  payload: seq<Byte>, others: seq<seq<Byte>>)
    requires rest == body + ([FLAG] + tail) && FlagAt(rest) == |body|
    requires Unstuff(body) == Some(payload) && Split(tail) == Some(others)
    ensures Split([FLAG] + rest) == Some([payload] + others)
  {
    hide Unstuff, FlagAt;
    assert ([FLAG] + rest)[1..] == rest;
    assert rest[..|body|] == body && rest[|body| + 1..] == tail;
  }

  lemma {:induction false} FramesOfSplit(stream: seq<Byte>)
    requires Split(stream).Some?
    ensures Frames(Split(stream).value) == stream
    decreases |stream|
  {
    if stream != [] {
      var payload, body, others, tail := SplitParts(stream);
      hide Split, Unstuff, Stuff;
      StuffOfUnstuff(body);
      FramesOfSplit(tail);
      FramesCons(payload, others);
      assert stream == Frame(payload) + tail;
    }
  }

  lemma SplitParts(stream: seq<Byte>)
    returns (payload: seq<Byte>, body: seq<Byte>, others: seq<seq<Byte>>, tail: seq<Byte>)
    requires stream != [] && Split(stream).Some?
    ensures |tail| < |stream| && stream == ([FLAG] + body + [FLAG]) + tail
    ensures Unstuff(body) == Some(payload) && Split(tail) == Some(others)
    ensures Split(stream) == Some([payload] + others)
  {
    hide Unstuff;
    var rest := stream[1..];
    var end := FlagAt(rest);
    FlagFound(rest);
    hide FlagAt;
    body, tail := rest[..end], rest[end + 1..];
    payload, others := Unstuff(body).value, Split(tail).value;
    hide Split;
    CutAtFlag(stream, end);
  }

  lemma CutAtFlag(stream: seq<Byte>, end: nat)
    requires end + 1 < |stream| && stream[0] == FLAG && stream[1..][end] == FLAG
    ensures stream == ([FLAG] + stream[1..][..end] + [FLAG]) + stream[1..][end + 1..]
  {}

  lemma FramesCons(payload: seq<Byte>, others: seq<seq<Byte>>)
    ensures Frames([payload] + others) == Frame(payload) + Frames(others)
  {
    assert ([payload] + others)[1..] == others;
  }

  /** No flag occurs inside a frame. */
  lemma {:induction false} NoFlagInside(payload: seq<Byte>)
    ensures FLAG !in Stuff(payload)
    decreases |payload|
  {
    if payload != [] {
      NoFlagInside(payload[1..]);
    }
  }

  lemma {:induction false} UnstuffOfStuff(payload: seq<Byte>)
    ensures Unstuff(Stuff(payload)) == Some(payload)
    decreases |payload|
  {
    if payload != [] {
      var s, tail := Stuff(payload), Stuff(payload[1..]);
      UnstuffOfStuff(payload[1..]);
      if payload[0] == FLAG || payload[0] == ESCAPE {
        assert s[2..] == tail;
      } else {
        assert s[1..] == tail;
      }
      assert payload == [payload[0]] + payload[1..];
    }
  }

  lemma {:induction false} StuffOfUnstuff(body: seq<Byte>)
    requires Unstuff(body).Some?
    ensures Stuff(Unstuff(body).value) == body
    decreases |body|
  {
    if body != [] {
      var n := if body[0] == ESCAPE then 2 else 1;
      StuffOfUnstuff(body[n..]);
      assert Unstuff(body).value[1..] == Unstuff(body[n..]).value;
      assert body == body[..n] + body[n..];
    }
  }

  lemma {:induction false} FlagAfter(body: seq<Byte>, tail: seq<Byte>)
    requires FLAG !in body
    ensures FlagAt(body + ([FLAG] + tail)) == |body|
    decreases |body|
  {
    var s := body + ([FLAG] + tail);
    if body == [] {
      assert s[0] == FLAG;
    } else {
      assert s[1..] == body[1..] + ([FLAG] + tail);
      assert s[0] == body[0] && body[0] in body;
      FlagAfter(body[1..], tail);
    }
  }

  lemma {:induction false} FlagFound(s: seq<Byte>)
    ensures FlagAt(s) < |s| ==> s[FlagAt(s)] == FLAG
    decreases |s|
  {
    if s != [] {
      FlagFound(s[1..]);
    }
  }

  // ----- The plain frame ------------------------------------------------------------------------

  /** Without stuffing the frame is the stuffed one exactly when nothing needed stuffing; only
      then does the decoder give the payload back. */
  lemma PlainFrameDecodes(payload: seq<Byte>)
    ensures Split(PlainFrame(payload)) == Some([payload]) <==> FLAG !in payload && ESCAPE !in payload
  {
    FrameLength(payload);
    OneFrame(payload);
    SplitExactlyFrames(PlainFrame(payload), [payload]);
    if FLAG !in payload && ESCAPE !in payload {
      StuffChangesNothing(payload);
    }
  }

  lemma OneFrame(payload: seq<Byte>)
    ensures Frames([payload]) == Frame(payload)
  {
    assert [payload][1..] == [];
    assert Frames([payload]) == Frame(payload) + Frames([]);
  }

  lemma {:induction false} StuffChangesNothing(payload: seq<Byte>)
    requires FLAG !in payload && ESCAPE !in payload
    ensures Stuff(payload) == payload
    decreases |payload|
  {
    if payload != [] {
      assert payload[0] in payload;
      assert forall b :: b in payload[1..] ==> b in payload;
      StuffChangesNothing(payload[1..]);
    }
  }

  // ----- Plain frames of messages that count themselves ------------------------------------------

  /** The length field at offset 4 of the message is right. */
  predicate Counted(m: seq<Byte>) {
    |m| >= 6 && Count16At(m, 4) == |m|
  }

  predicate AllCounted(messages: seq<seq<Byte>>) {
    forall i :: 0 <= i < |messages| ==> Counted(messages[i])
  }

  function PlainFrames(messages: seq<seq<Byte>>): seq<Byte> {
    if messages == [] then [] else PlainFrame(messages[0]) + PlainFrames(messages[1..])
  }

  /** Cuts a stream of plain frames by the length fields; None when it cannot be cut that way. */
  function SplitCounted(stream: seq<Byte>): Option<seq<seq<Byte>>>
    decreases |stream|
  {
    if stream == [] then Some([])
    else if |stream| < 7 || stream[0] != FLAG then None
    else
      var n := Count16At(stream, 5);
      if n < 6 || |stream| < n + 2 || stream[n + 1] != FLAG then None
      else
        var rest := SplitCounted(stream[n + 2..]);
        if rest == None then None else Some([stream[1..n + 1]] + rest.value)
  }

  /** Read by the length fields, a stream gives exactly the messages whose plain frames it is, provided
      that every one of them counts itself, and only then. Two lists of such messages never look
      alike on the wire. */
  lemma SplitExactlyCounted(stream: seq<Byte>, messages: seq<seq<Byte>>)
    ensures SplitCounted(stream) == Some(messages) <==> stream == PlainFrames(messages) && AllCounted(messages)
  {
    if SplitCounted(stream) == Some(messages) {
      CountedFramesOfSplit(stream);
    }
    if stream == PlainFrames(messages) && AllCounted(messages) {
      SplitOfCountedFrames(messages);
    }
  }

  lemma {:induction false} SplitOfCountedFrames(messages: seq<seq<Byte>>)
    requires AllCounted(messages)
    ensures SplitCounted(PlainFrames(messages)) == Some(messages)
    decreases |messages|
  {
    hide Counted, PlainFrame, SplitCounted;
    if messages == [] {
      assert SplitCounted([]) == Some([]) by {
        NothingToSplit();
      }
    } else {
      SplitOfCountedFrames(messages[1..]);
      CountedStep(messages[0], PlainFrames(messages[1..]), messages[1..]);
      assert [messages[0]] + messages[1..] == messages;
    }
  }

  lemma NothingToSplit()
    ensures SplitCounted([]) == Some([])
  {}

  lemma CountedStep(m: seq<Byte>, tail: seq<Byte>, others: seq<seq<Byte>>)
    requires Counted(m) && SplitCounted(tail) == Some(others)
    ensures SplitCounted(PlainFrame(m) + tail) == Some([m] + others)
  {
    hide Count16At, SplitCounted;
    FrameParts(m, tail);
    hide PlainFrame;
    var stream := PlainFrame(m) + tail;
    CountBehindFlag(stream, m);
    CountedFirst(stream, |m|, others);
  }

  lemma FrameParts(m: seq<Byte>, tail: seq<Byte>)
    ensures var stream := PlainFrame(m) + tail;
      && |stream| == |m| + 2 + |tail| && stream[0] == FLAG && stream[1..|m| + 1] == m
      && stream[|m| + 1] == FLAG && stream[|m| + 2..] == tail
  {}

  lemma CountedFirst(stream: seq<Byte>, n: nat, others: seq<seq<Byte>>)
    requires n >= 6 && |stream| >= n + 2 && stream[0] == FLAG && stream[n + 1] == FLAG
    requires Count16At(stream, 5) == n && SplitCounted(stream[n + 2..]) == Some(others)
    ensures SplitCounted(stream) == Some([stream[1..n + 1]] + others)
  {
    hide Count16At;
  }

  lemma CountBehindFlag(stream: seq<Byte>, m: seq<Byte>)
    requires |m| >= 6 && |stream| > |m| && stream[1..|m| + 1] == m
    ensures Count16At(stream, 5) == Count16At(m, 4)
  {
    assert stream[5] == stream[1..|m| + 1][4] && stream[6] == stream[1..|m| + 1][5];
  }

  lemma {:induction false} CountedFramesOfSplit(stream: seq<Byte>)
    requires SplitCounted(stream).Some?
    ensures PlainFrames(SplitCounted(stream).value) == stream && AllCounted(SplitCounted(stream).value)
    decreases |stream|
  {
    if stream != [] {
      var m, tail := CountedParts(stream);
      hide Counted, PlainFrame, SplitCounted;
      CountedFramesOfSplit(tail);
      var others := SplitCounted(tail).value;
      assert ([m] + others)[1..] == others;
    }
  }

  lemma CountedParts(stream: seq<Byte>) returns (m: seq<Byte>, tail: seq<Byte>)
    requires stream != [] && SplitCounted(stream).Some?
    ensures Counted(m) && stream == PlainFrame(m) + tail && |tail| < |stream|
    ensures SplitCounted(tail).Some? && SplitCounted(stream) == Some([m] + SplitCounted(tail).value)
  {
    hide Count16At;
    var n := Count16At(stream, 5);
    m, tail := stream[1..n + 1], stream[n + 2..];
    CountBehindFlag(stream, m);
    assert stream == PlainFrame(m) + tail;
  }
}
