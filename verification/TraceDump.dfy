/** modules/libtracedump/diag_trace_dump.c: a file sent to the host in 4 KiB pieces, one piece per
    request, by a handler that keeps its progress in static variables. */
module TraceDump {
  import opened Options
  import opened Bytes
  import opened Framing

  const UNIT: nat := 4096
  const HEAD: nat := 8
  const ACK: nat := 16

  datatype ActionStatus = Idle | Tarring | Tarred | Dumping | Dumped

  /** An open file: its contents and how much has been read. */
  datatype Descriptor = Descriptor(data: seq<Byte>, pos: nat)

  datatype State = State(action: ActionStatus, fd: Option<Descriptor>, offset: int)

  /** The message header: sequence number, length, type, subtype. */
  type Head = s: seq<Byte> | |s| == HEAD witness seq(HEAD, _ => 0)

  /** A freshly allocated reply buffer, with whatever is in it. */
  type Memory = s: seq<Byte> | |s| == HEAD + ACK + UNIT witness seq(HEAD + ACK + UNIT, _ => 0)

  /** The parts of a request the handler looks at: the header and the command. */
  datatype Request = Request(head: Head, cmd: Word)

  /** What the operating system answers during one call. `file` is the outcome of opening the file,
      `got` the value returned by read, `junk` the uninitialised reply buffer. */
  datatype Env = Env(tarOk: bool, file: Option<seq<Byte>>, replyAlloc: bool, bufferAlloc: bool,
                     got: int, junk: Memory)

  /** The flag, the header, then the command word. */
  function RequestOf(buf: seq<Byte>): (req: Request)
    requires |buf| >= 13
  {
    Request(buf[1..9], Count32At(buf, 9))
  }

  predicate ValidCmd(cmd: Word) {
    0 < cmd < 3
  }

  ghost predicate ValidState(st: State) {
    && (st.action == Idle || st.action == Dumping)
    && (st.fd.Some? <==> st.action == Dumping)
    && (st.fd.Some? ==> st.fd.value.pos <= |st.fd.value.data|)
  }

  /** How many bytes a read really transfers; errors and end of file count as none. */
  function Count(d: Descriptor, got: int): (n: nat)
    requires d.pos <= |d.data|
    ensures n <= UNIT && d.pos + n <= |d.data|
  {
    if got <= 0 then 0 else Min(Min(got, UNIT), |d.data| - d.pos)
  }

  /** The reply before framing: header with the length patched in, command, status, data length,
      data, and the three trailing bytes that the length field covers but nothing fills. */
  function AckMessage(req: Request, status: Word, data: seq<Byte>, junk: Memory): (m: seq<Byte>)
    requires |data| <= UNIT
    ensures |m| == HEAD + ACK + |data| - 1
  {
    req.head[..4] + Count16(HEAD + ACK + |data| - 1) + req.head[6..]
    + Count32(req.cmd) + Count32(status) + Count32(|data|) + data + junk[20 + |data|..23 + |data|]
  }

  // ----- The handler as a function --------------------------------------------------------------

  /** The descriptor the reply is read from, if the call gets that far. */
  function Opened(st: State, req: Request, env: Env): Option<Descriptor> {
    if st.action == Dumping then st.fd
    else if st.action != Idle then None
    else if req.cmd == 2 && !env.tarOk then None
    else if env.file.None? then None
    else Some(Descriptor(env.file.value, 0))
  }

  function Step(st: State, req: Request, env: Env): (r: (State, Option<seq<Byte>>))
    requires ValidState(st)
    ensures ValidState(r.0)
  {
    if !ValidCmd(req.cmd) || Opened(st, req, env).None? then (st, None)
    else
      var d := Opened(st, req, env).value;
      if !env.replyAlloc then (State(Idle, None, st.offset), None)
      else if !env.bufferAlloc then
        (State(Idle, None, st.offset), Some(AckMessage(req, 2, [], env.junk)))
      else
        var n := Count(d, env.got);
        var data := d.data[d.pos..d.pos + n];
        if n < UNIT then (State(Idle, None, n), Some(AckMessage(req, 0, data, env.junk)))
        else
          (State(Dumping, Some(Descriptor(d.data, d.pos + n)), n),
           Some(AckMessage(req, 1, data, env.junk)))
  }

  /** The reply buffer: whatever malloc left there, overwritten field by field. */
  method FillAck(head: Head, cmd: Word, status: Word, data: seq<Byte>, junk: Memory)
    returns (reply: array<Byte>)
    requires |data| <= UNIT
    ensures fresh(reply) && reply.Length == |junk|
    ensures reply[..HEAD + ACK + |data| - 1] == AckMessage(Request(head, cmd), status, data, junk)
  {
    reply := new Byte[HEAD + ACK + UNIT](i requires 0 <= i < |junk| => junk[i]);
    assert reply[..] == junk;
    var len := Count16(HEAD + ACK + |data| - 1);
    Store(reply, 0, head);
    Store(reply, 8, Count32(cmd));
    Store(reply, 20, data);
    Store(reply, 16, Count32(|data|));
    Store(reply, 12, Count32(status));
    Store(reply, 4, len);
    FieldsInPlace(junk, head, Count32(cmd), Count32(status), Count32(|data|), data, len);
  }

  lemma FieldsInPlace(junk: seq<Byte>, head: seq<Byte>, cmd: seq<Byte>, status: seq<Byte>,
                      count: seq<Byte>, data: seq<Byte>, len: seq<Byte>)
    requires |head| == HEAD && |data| <= UNIT && |junk| == HEAD + ACK + UNIT
    requires |cmd| == |status| == |count| == 4 && |len| == 2
    ensures Patch(Patch(Patch(Patch(Patch(Patch(junk, 0, head), 8, cmd), 20, data), 16, count),
                        12, status), 4, len)[..23 + |data|]
         == head[..4] + len + head[6..] + cmd + status + count + data + junk[20 + |data|..23 + |data|]
  {}

  method SendAck(rsp: array<Byte>, req: Request, status: Word, data: seq<Byte>, junk: Memory)
    returns (rspLen: nat)
    requires |data| <= UNIT
    requires rsp.Length >= 2 * (HEAD + ACK + UNIT)
    modifies rsp
    ensures Sent(old(rsp[..]), rsp[..], rspLen, Some(Frame(AckMessage(req, status, data, junk))))
  {
    var reply := FillAck(req.head, req.cmd, status, data, junk);
    FrameLength(reply[..HEAD + ACK + |data| - 1]);
    hide Frame, AckMessage, Sent;
    rspLen := TranslatePacketEncode(rsp, reply, HEAD + ACK + |data| - 1);
  }

  function Stuffed(reply: Option<seq<Byte>>): Option<seq<Byte>> {
    if reply.Some? then Some(Frame(reply.value)) else None
  }

  // ----- The handler as written -----------------------------------------------------------------

  class TraceDumper {
    var action: ActionStatus
    var fd: Option<Descriptor>
    var offset: int

    constructor ()
      ensures Abstract() == State(Idle, None, 0)
    {
      action, fd, offset := Idle, None, 0;
    }

    ghost function Abstract(): State
      reads this
    {
      State(action, fd, offset)
    }

    method Dump(buf: array<Byte>, rsp: array<Byte>, env: Env) returns (rspLen: nat)
      requires ValidState(Abstract())
      requires buf.Length >= 13 && rsp.Length >= 2 * (HEAD + ACK + UNIT) && buf != rsp
      modifies this, rsp
      ensures var (st, reply) := Step(old(Abstract()), RequestOf(old(buf[..])), env);
        Abstract() == st && Sent(old(rsp[..]), rsp[..], rspLen, Stuffed(reply))
    {
      hide Frame, AckMessage, Sent, ValidCmd, RequestOf;
      rspLen := 0;
      var req := RequestOf(buf[..]);
      SentNothing(rsp[..]);
      if !ValidCmd(req.cmd) {
        return 0;
      }
      if action == Idle {
        if req.cmd == 2 {
          if !env.tarOk {
            return 0;
          }
        }
        if env.file.None? {
          return 0;
        }
        fd := Some(Descriptor(env.file.value, 0));
        action := Dumping;
      }
      if action == Dumping {
        if !env.replyAlloc {
          action := Idle;
          fd := None;
          return 0;
        }
        var status: Word;
        var data: seq<Byte>;
        if env.bufferAlloc {
          var d := fd.value;
          var count := Count(d, env.got);
          data := d.data[d.pos..d.pos + count];
          fd := Some(Descriptor(d.data, d.pos + count));
          offset := count;
          if count < UNIT {
            status := 0;
            action := Idle;
            fd := None;
          } else {
            status := 1;
          }
        } else {
          data := [];
          status := 2;
          action := Idle;
          fd := None;
        }
        rspLen := SendAck(rsp, req, status, data, env.junk);
      }
    }
  }

  // ----- Runs -----------------------------------------------------------------------------------

  datatype Call = Call(req: Request, env: Env)

  /** The state after a list of calls, and the replies they produced. */
  function Run(st: State, calls: seq<Call>): (r: (State, seq<seq<Byte>>))
    requires ValidState(st)
    ensures ValidState(r.0)
    decreases |calls|
  {
    if calls == [] then (st, [])
    else
      var (next, reply) := Step(st, calls[0].req, calls[0].env);
      var (end, replies) := Run(next, calls[1..]);
      (end, (if reply.Some? then [reply.value] else []) + replies)
  }

  /** What the host reads out of a reply. */
  function AckStatus(m: seq<Byte>): Word
    requires |m| >= 20
  {
    Count32At(m, 12)
  }

  function AckData(m: seq<Byte>): seq<Byte>
    requires |m| >= 20
  {
    var n := Count32At(m, 16);
    if 20 + n <= |m| then m[20..20 + n] else []
  }

  function Received(replies: seq<seq<Byte>>): seq<Byte>
    requires forall m :: m in replies ==> |m| >= 20
  {
    if replies == [] then [] else AckData(replies[0]) + Received(replies[1..])
  }

  lemma AckFields(req: Request, status: Word, data: seq<Byte>, junk: Memory)
    requires |data| <= UNIT
    ensures var m := AckMessage(req, status, data, junk);
      && |m| >= 20 && AckStatus(m) == status && AckData(m) == data
      && Count32At(m, 8) == req.cmd && Count16At(m, 4) == |m|
  {
    var m := AckMessage(req, status, data, junk);
    AckLayout(req, status, data, junk);
    hide AckMessage, Count16, Count32, Count16At, Count32At;
    Count32Within(m, 8, req.cmd);
    Count32Within(m, 12, status);
    Count32Within(m, 16, |data|);
    Count16Within(m, 4, |m|);
  }

  lemma AckLayout(req: Request, status: Word, data: seq<Byte>, junk: Memory)
    requires |data| <= UNIT
    ensures var m := AckMessage(req, status, data, junk);
      && m[4..6] == Count16(HEAD + ACK + |data| - 1)
      && m[8..12] == Count32(req.cmd) && m[12..16] == Count32(status)
      && m[16..20] == Count32(|data|) && m[20..20 + |data|] == data
  {
    hide Count16, Count32;
  }

  /** The replies of one dump: data in order, status 1 on all but the last and 0 on the last. */
  ghost predicate Delivers(replies: seq<seq<Byte>>, data: seq<Byte>) {
    && replies != []
    && (forall i :: 0 <= i < |replies| ==> |replies[i]| >= 20)
    && (forall i :: 0 <= i < |replies| - 1 ==> AckStatus(replies[i]) == 1)
    && AckStatus(replies[|replies| - 1]) == 0
    && Received(replies) == data
  }

  /** The call carries a valid command and no allocation fails. */
  ghost predicate Reads(call: Call) {
    ValidCmd(call.req.cmd) && call.env.replyAlloc && call.env.bufferAlloc
  }

  /** Every call but the last reads a whole unit and the last one comes up short. */
  ghost predicate OneDump(d: Descriptor, calls: seq<Call>) {
    && calls != [] && d.pos <= |d.data|
    && (forall i :: 0 <= i < |calls| ==> Reads(calls[i]))
    && (forall i :: 0 <= i < |calls| - 1 ==> calls[i].env.got >= UNIT)
    && d.pos + UNIT * (|calls| - 1) <= |d.data|
    && LastCount(d, calls) < UNIT
  }

  /** What the last read of a dump returns. */
  ghost function LastCount(d: Descriptor, calls: seq<Call>): nat
    requires calls != [] && d.pos + UNIT * (|calls| - 1) <= |d.data|
  {
    Count(Descriptor(d.data, d.pos + UNIT * (|calls| - 1)), calls[|calls| - 1].env.got)
  }

  /** How far into the file a dump gets. */
  ghost function EndOf(d: Descriptor, calls: seq<Call>): (end: nat)
    requires calls != [] && d.pos + UNIT * (|calls| - 1) <= |d.data|
    ensures d.pos <= end <= |d.data|
  {
    d.pos + UNIT * (|calls| - 1) + LastCount(d, calls)
  }

  /** Whatever the last read returned, the replies carry consecutive pieces of the file, one per
      call, and the last one returns the handler to idle. */
  lemma {:induction false} DumpRun(st: State, calls: seq<Call>)
    requires ValidState(st) && st.action == Dumping && OneDump(st.fd.value, calls)
    ensures Run(st, calls).0.action == Idle
    ensures |Run(st, calls).1| == |calls|
    ensures Delivers(Run(st, calls).1, st.fd.value.data[st.fd.value.pos..EndOf(st.fd.value, calls)])
    decreases |calls|
  {
    hide OneDump, EndOf, LastCount, Delivers, Run, Step, Reads, AckStatus, AckData, Received, Count;
    var d := st.fd.value;
    DumpFirst(d, calls);
    var next, m := StepReads(st, calls[0]);
    RunCons(st, calls);
    if |calls| == 1 {
      RunNothing(next, calls[1..]);
      DeliversOne(m);
      assert [m] + [] == [m];
    } else {
      DumpLater(d, calls);
      DumpRun(next, calls[1..]);
      var end := EndOf(d, calls);
      DeliversCons(m, Run(next, calls[1..]).1, d.data[d.pos + UNIT..end]);
      assert d.data[d.pos..end] == d.data[d.pos..d.pos + UNIT] + d.data[d.pos + UNIT..end];
    }
  }

  lemma DumpFirst(d: Descriptor, calls: seq<Call>)
    requires OneDump(d, calls)
    ensures calls != [] && Reads(calls[0])
    ensures |calls| == 1 ==> Count(d, calls[0].env.got) < UNIT
    ensures |calls| == 1 ==> EndOf(d, calls) == d.pos + Count(d, calls[0].env.got)
  {}

  /** The handler keeps the file open until the last call. */
  lemma {:induction false} OpenUntilTheEnd(st: State, calls: seq<Call>, i: nat)
    requires ValidState(st) && st.action == Dumping && OneDump(st.fd.value, calls)
    requires i < |calls|
    ensures Run(st, calls[..i]).0.action == Dumping
    decreases i
  {
    hide OneDump, EndOf, LastCount, Run, Step, Reads, AckStatus, AckData, Count;
    if i == 0 {
      RunNothing(st, calls[..0]);
    } else {
      DumpFirst(st.fd.value, calls);
      DumpLater(st.fd.value, calls);
      var next, m := StepReads(st, calls[0]);
      RunCons(st, calls[..i]);
      OpenUntilTheEnd(next, calls[1..], i - 1);
      assert calls[..i][1..] == calls[1..][..i - 1];
    }
  }

  lemma DumpLater(d: Descriptor, calls: seq<Call>)
    requires OneDump(d, calls) && |calls| > 1
    ensures Count(d, calls[0].env.got) == UNIT
    ensures var later := Descriptor(d.data, d.pos + UNIT);
      OneDump(later, calls[1..]) && EndOf(later, calls[1..]) == EndOf(d, calls)
  {
    var n := |calls| - 1;
    assert calls[1..][n - 1] == calls[n];
    assert forall i :: 0 <= i < n ==> calls[1..][i] == calls[i + 1];
  }

  lemma DeliversOne(m: seq<Byte>)
    requires |m| >= 20 && AckStatus(m) == 0
    ensures Delivers([m], AckData(m))
  {
    hide AckData;
    ReceivedCons(m, []);
    assert [m] + [] == [m];
  }

  lemma DeliversCons(m: seq<Byte>, rest: seq<seq<Byte>>, data: seq<Byte>)
    requires |m| >= 20 && AckStatus(m) == 1 && Delivers(rest, data)
    ensures Delivers([m] + rest, AckData(m) + data)
  {
    hide AckData, AckStatus;
    ReceivedCons(m, rest);
  }

  lemma StepReads(st: State, call: Call) returns (next: State, m: seq<Byte>)
    requires ValidState(st) && st.action == Dumping && Reads(call)
    ensures Step(st, call.req, call.env) == (next, Some(m))
    ensures var d := st.fd.value;
      var k := Count(d, call.env.got);
      && |m| >= 20 && AckData(m) == d.data[d.pos..d.pos + k]
      && AckStatus(m) == (if k < UNIT then 0 else 1)
      && (if k < UNIT then next.action == Idle
          else next.action == Dumping && next.fd == Some(Descriptor(d.data, d.pos + k)))
  {
    hide Step, AckMessage, AckStatus, AckData, Count, Count16At, Count32At;
    var d := st.fd.value;
    var k := Count(d, call.env.got);
    StepAnswers(st, call);
    AckFields(call.req, if k < UNIT then 0 else 1, d.data[d.pos..d.pos + k], call.env.junk);
    next, m := Step(st, call.req, call.env).0, Step(st, call.req, call.env).1.value;
  }

  lemma StepAnswers(st: State, call: Call)
    requires ValidState(st) && st.action == Dumping && Reads(call)
    ensures var d := st.fd.value;
      var k := Count(d, call.env.got);
      var (next, reply) := Step(st, call.req, call.env);
      && reply == Some(AckMessage(call.req, if k < UNIT then 0 else 1, d.data[d.pos..d.pos + k], call.env.junk))
      && (if k < UNIT then next.action == Idle
          else next.action == Dumping && next.fd == Some(Descriptor(d.data, d.pos + k)))
  {
    hide AckMessage, Count;
  }

  lemma RunCons(st: State, calls: seq<Call>)
    requires ValidState(st) && calls != []
    ensures var (next, reply) := Step(st, calls[0].req, calls[0].env);
      var (end, replies) := Run(next, calls[1..]);
      Run(st, calls) == (end, (if reply.Some? then [reply.value] else []) + replies)
  {
    hide Step;
  }

  lemma RunNothing(st: State, calls: seq<Call>)
    requires ValidState(st)
    requires calls == []
    ensures Run(st, calls) == (st, [])
  {}

  lemma ReceivedCons(m: seq<Byte>, rest: seq<seq<Byte>>)
    requires |m| >= 20 && forall r :: r in rest ==> |r| >= 20
    ensures Received([m] + rest) == AckData(m) + Received(rest)
  {
    assert ([m] + rest)[1..] == rest;
  }

  // ----- Main results ---------------------------------------------------------------------------

  /** The call finds its file: the archive was made if one is needed, and the file opens. */
  ghost predicate Opens(call: Call, file: seq<Byte>) {
    (call.req.cmd == 2 ==> call.env.tarOk) && call.env.file == Some(file)
  }

  /** A dump started from idle, whose reads return all there is up to a unit, takes
      |file| / 4096 + 1 calls, and the replies put together are the file. */
  lemma WholeFileArrives(st: State, file: seq<Byte>, calls: seq<Call>)
    requires ValidState(st) && st.action == Idle
    requires |calls| == |file| / UNIT + 1 && Opens(calls[0], file)
    requires forall c :: c in calls ==> Reads(c) && c.env.got >= UNIT
    ensures Run(st, calls).0.action == Idle
    ensures |Run(st, calls).1| == |calls| && Delivers(Run(st, calls).1, file)
    ensures var sent := Frames(Run(st, calls).1);
      Split(sent).Some? && Delivers(Split(sent).value, file)
    ensures forall i :: 0 < i < |calls| ==> Run(st, calls[..i]).0.action == Dumping
  {
    var d := Descriptor(file, 0);
    var begun := State(Dumping, Some(d), st.offset);
    assert OneDump(d, calls) && EndOf(d, calls) == |file|;
    DumpRun(begun, calls);
    StartsDump(st, file, calls);
    assert file[0..|file|] == file;
    SplitExactlyFrames(Frames(Run(st, calls).1), Run(st, calls).1);
    forall i | 0 < i < |calls|
      ensures Run(st, calls[..i]).0.action == Dumping
    {
      OpenUntilTheEnd(begun, calls, i);
      StartsDump(st, file, calls[..i]);
    }
  }

  /** A read error and a short read end the dump with the same status 0 as the end of the file.
      The host has the whole file exactly when the last read returned everything that was left. */
  lemma StatusZeroIsNotEnough(st: State, file: seq<Byte>, calls: seq<Call>)
    requires ValidState(st) && st.action == Idle
    requires OneDump(Descriptor(file, 0), calls) && Opens(calls[0], file)
    ensures Delivers(Run(st, calls).1, file[..EndOf(Descriptor(file, 0), calls)])
    ensures var left := |file| - UNIT * (|calls| - 1);
      file[..EndOf(Descriptor(file, 0), calls)] == file
      <==> left == 0 || left <= calls[|calls| - 1].env.got
  {
    var d := Descriptor(file, 0);
    DumpRun(State(Dumping, Some(d), st.offset), calls);
    StartsDump(st, file, calls);
    EndIsCounted(d, calls);
    hide Run, OneDump, EndOf, Delivers;
    assert file[0..EndOf(d, calls)] == file[..EndOf(d, calls)];
  }

  lemma EndIsCounted(d: Descriptor, calls: seq<Call>)
    requires d.pos == 0 && OneDump(d, calls)
    ensures var left := |d.data| - UNIT * (|calls| - 1);
      EndOf(d, calls) == |d.data| <==> left == 0 || left <= calls[|calls| - 1].env.got
  {}

  lemma StartsDump(st: State, file: seq<Byte>, calls: seq<Call>)
    requires ValidState(st) && st.action == Idle && calls != []
    requires Opens(calls[0], file)
    ensures ValidCmd(calls[0].req.cmd) ==>
      Run(st, calls) == Run(State(Dumping, Some(Descriptor(file, 0)), st.offset), calls)
  {
    var begun := State(Dumping, Some(Descriptor(file, 0)), st.offset);
    if ValidCmd(calls[0].req.cmd) {
      var next := Step(st, calls[0].req, calls[0].env);
      StepStarts(st, file, calls[0]);
      hide Step, Run;
      RunCons(st, calls);
      RunCons(begun, calls);
    }
  }

  /** The first call of a dump does what it would do with the file already open. */
  lemma StepStarts(st: State, file: seq<Byte>, call: Call)
    requires ValidState(st) && st.action == Idle && ValidCmd(call.req.cmd) && Opens(call, file)
    ensures var begun := State(Dumping, Some(Descriptor(file, 0)), st.offset);
      Step(st, call.req, call.env) == Step(begun, call.req, call.env)
  {
    hide AckMessage;
  }

  /** Requests with an unknown command change nothing and get no reply, wherever they occur. */
  lemma {:induction false} UnknownCommandsIgnored(st: State, calls: seq<Call>)
    requires ValidState(st)
    ensures Run(st, calls) == Run(st, Known(calls))
    decreases |calls|
  {
    if calls != [] {
      var next := Step(st, calls[0].req, calls[0].env);
      RunCons(st, calls);
      UnknownCommandsIgnored(next.0, calls[1..]);
      if ValidCmd(calls[0].req.cmd) {
        assert Known(calls)[1..] == Known(calls[1..]);
        RunCons(st, Known(calls));
      } else {
        assert next == (st, None);
        assert Known(calls) == Known(calls[1..]);
        hide Step;
        var (end, replies) := Run(st, calls[1..]);
        assert [] + replies == replies;
      }
    }
  }

  function Known(calls: seq<Call>): seq<Call> {
    if calls == [] then []
    else (if ValidCmd(calls[0].req.cmd) then [calls[0]] else []) + Known(calls[1..])
  }
}
