/** modules/libmiscdata/miscdata.c, eng_diag_product_ctrl_ex: reading (0x12) and writing (0x13) the
    misc partition at any offset, and what a whole history of such commands amounts to. */
module ProductCtrl {
  import opened Options
  import opened Bytes
  import opened Framing
  import opened MiscStore

  const READ_EX: Byte := 0x12
  const WRITE_EX: Byte := 0x13
  const HEAD_LEN: nat := 16

  /** The request arrives behind a flag: 8 header bytes, offset, data length, data. */
  function OffsetOf(buf: seq<Byte>): int
    requires |buf| >= 17
  {
    Signed(Count32At(buf, 9))
  }

  function DataLenOf(buf: seq<Byte>): int
    requires |buf| >= 17
  {
    Signed(Count32At(buf, 13))
  }

  /** What the handler relies on: a length that is not negative, does not overflow the guard's sum,
      and, for a write, is really there. */
  predicate Acceptable(buf: seq<Byte>) {
    && |buf| >= 17
    && 0 <= DataLenOf(buf) <= 0x7FFF_FFFF - 18
    && (buf[8] == WRITE_EX ==> 17 + DataLenOf(buf) <= |buf|)
  }

  /** A request: the message header with the operation in its last byte, the raw offset and length
      fields, their values, and the data of a write. */
  datatype Command = Command(head: seq<Byte>, args: seq<Byte>, offset: int, n: nat, data: seq<Byte>)

  type Request = c: Command | |c.head| == 8 && |c.args| == 8 && (c.head[7] == WRITE_EX ==> |c.data| == c.n)
    witness Command(Zeros(8), Zeros(8), 0, 0, [])

  function Parse(buf: seq<Byte>): Request
    requires Acceptable(buf)
  {
    hide OffsetOf, DataLenOf, Acceptable;
    AcceptableBounds(buf);
    var n := DataLenOf(buf);
    assert buf[1..9][7] == buf[8];
    Command(buf[1..9], buf[9..17], OffsetOf(buf), n, if buf[8] == WRITE_EX then buf[17..17 + n] else [])
  }

  /** A negative return code in the one-byte subtype field. */
  function ErrByte(ret: int): Byte {
    ByteOf(ret % 256)
  }

  function ReplyHead(head: seq<Byte>, len: nat, ret: int): (h: seq<Byte>)
    requires |head| == 8
    ensures |h| == 8
  {
    head[..4] + Count16(len % 0x1_0000) + [head[6], ErrByte(ret)]
  }

  /** The data part of a read reply; a short read leaves zeros. */
  function ReadData(store: seq<Byte>, offset: int, n: nat, io: Io): (data: seq<Byte>)
    ensures |data| == if Status(|store|, offset, n, io) == 0 then n else 0
  {
    if Status(|store|, offset, n, io) == 0 then Patch(Zeros(n), 0, ReadAt(store, offset, n, io)) else []
  }

  /** The store afterwards and the reply before framing. */
  function Serve(store: seq<Byte>, req: Request, rspLen: int, rio: Io, wio: Io)
    : (r: (seq<Byte>, Option<seq<Byte>>))
    ensures |r.0| == |store|
  {
    if rspLen < HEAD_LEN + req.n + 2 then (store, None)
    else if req.head[7] == READ_EX then
      var data := ReadData(store, req.offset, req.n, rio);
      var ret := Status(|store|, req.offset, req.n, rio);
      (store, Some(ReplyHead(req.head, HEAD_LEN + |data|, ret) + req.args + data))
    else if req.head[7] == WRITE_EX then
      var before := Status(|store|, req.offset, req.n, rio);
      if before != 0 then (store, Some(ReplyHead(req.head, 8, before)))
      else
        (WriteAt(store, req.offset, req.data, wio),
         Some(ReplyHead(req.head, 8, Status(|store|, req.offset, req.n, wio))))
    else (store, None)
  }

  method ProductCtrlEx(misc: MiscData, buf: array<Byte>, rsp: array<Byte>, rsplen: int,
                       rio: Io, wio: Io) returns (n: nat)
    requires Acceptable(buf[..]) && rsplen <= rsp.Length && buf != rsp
    modifies misc, buf, rsp
    ensures var (store, reply) := Serve(old(misc.data), Parse(old(buf[..])), rsplen, rio, wio);
      misc.data == store && Sent(old(rsp[..]), rsp[..], n, Framed(reply))
  {
    hide OffsetOf, DataLenOf, ReplyHead, PlainFrame, Status, ReadData, WriteAt, Serve, Parse, Sent, Acceptable;
    ghost var store, before := misc.data, buf[..];
    AcceptableBounds(before);
    SentNothing(rsp[..]);
    var offset, dataLen := OffsetOf(buf[..]), DataLenOf(buf[..]);
    if rsplen < HEAD_LEN + dataLen + 2 {
      ServesNothing(store, before, rsplen, rio, wio);
      return 0;
    }
    if buf[8] == READ_EX {
      n := ReadEx(misc, buf, rsp, offset, dataLen, rio);
      ServesRead(store, before, rsplen, rio, wio);
    } else if buf[8] == WRITE_EX {
      n := WriteEx(misc, buf, rsp, offset, dataLen, rio, wio);
      ServesWrite(store, before, rsplen, rio, wio);
    } else {
      ServesNothing(store, before, rsplen, rio, wio);
      return 0;
    }
  }

  lemma AcceptableBounds(buf: seq<Byte>)
    requires Acceptable(buf)
    ensures |buf| >= 17 && DataLenOf(buf) >= 0
    ensures buf[8] == WRITE_EX ==> 17 + DataLenOf(buf) <= |buf|
  {
    hide DataLenOf;
  }

  /** Serve, branch by branch, on the request as it lies in the buffer. */
  lemma ServesNothing(store: seq<Byte>, buf: seq<Byte>, rspLen: int, rio: Io, wio: Io)
    requires Acceptable(buf)
    requires rspLen < HEAD_LEN + DataLenOf(buf) + 2 || (buf[8] != READ_EX && buf[8] != WRITE_EX)
    ensures Serve(store, Parse(buf), rspLen, rio, wio) == (store, None)
  {
    hide OffsetOf, DataLenOf, Status, ReadData, WriteAt, ReplyHead;
  }

  lemma ServesRead(store: seq<Byte>, buf: seq<Byte>, rspLen: int, rio: Io, wio: Io)
    requires Acceptable(buf) && HEAD_LEN + DataLenOf(buf) + 2 <= rspLen && buf[8] == READ_EX
    ensures var n, at := DataLenOf(buf), OffsetOf(buf);
      var data := ReadData(store, at, n, rio);
      Serve(store, Parse(buf), rspLen, rio, wio)
      == (store, Some(ReplyHead(buf[1..9], HEAD_LEN + |data|, Status(|store|, at, n, rio)) + buf[9..17] + data))
  {
    hide OffsetOf, DataLenOf, Status, ReadData, WriteAt, ReplyHead;
  }

  lemma ServesWrite(store: seq<Byte>, buf: seq<Byte>, rspLen: int, rio: Io, wio: Io)
    requires Acceptable(buf) && HEAD_LEN + DataLenOf(buf) + 2 <= rspLen && buf[8] == WRITE_EX
    ensures var n, at := DataLenOf(buf), OffsetOf(buf);
      var before := Status(|store|, at, n, rio);
      Serve(store, Parse(buf), rspLen, rio, wio)
      == (if before != 0 then store else WriteAt(store, at, buf[17..17 + n], wio),
          Some(ReplyHead(buf[1..9], 8, if before != 0 then before else Status(|store|, at, n, wio))))
  {
    hide OffsetOf, DataLenOf, Status, ReadData, WriteAt, ReplyHead;
  }

  method ReadEx(misc: MiscData, buf: array<Byte>, rsp: array<Byte>, offset: int, dataLen: nat, io: Io)
    returns (n: nat)
    requires buf.Length >= 17 && HEAD_LEN + dataLen + 2 <= rsp.Length && buf != rsp
    modifies rsp
    ensures var ret, data := Status(|misc.data|, offset, dataLen, io), ReadData(misc.data, offset, dataLen, io);
      Sent(old(rsp[..]), rsp[..], n,
           Some(PlainFrame(ReplyHead(buf[..][1..9], HEAD_LEN + |data|, ret) + buf[..][9..17] + data)))
  {
    hide ReplyHead, PlainFrame, Sent, Status, ReadData;
    assert buf[..][1..9] == buf[1..9] && buf[..][9..17] == buf[9..17];
    var nvdata, len := ReadReply(misc, buf[1..9], buf[9..17], offset, dataLen, io);
    n := TranslatePacket(rsp, nvdata, 0, len);
  }

  method ReadReply(misc: MiscData, head: seq<Byte>, args: seq<Byte>, offset: int, dataLen: nat, io: Io)
    returns (nvdata: array<Byte>, len: nat)
    requires |head| == |args| == 8
    ensures fresh(nvdata) && nvdata.Length == HEAD_LEN + dataLen
    ensures var ret, data := Status(|misc.data|, offset, dataLen, io), ReadData(misc.data, offset, dataLen, io);
      && len == HEAD_LEN + |data| <= nvdata.Length
      && nvdata[0..len] == ReplyHead(head, len, ret) + args + data
  {
    hide Patch, ReadAt, ErrByte, Count16, Status, ReadData, ReplyHead;
    nvdata := new Byte[dataLen + HEAD_LEN](_ => 0);
    assert nvdata[..] == Zeros(HEAD_LEN + dataLen);
    Store(nvdata, 0, head + args);
    var ret := misc.ReadWithOffset(offset, nvdata, HEAD_LEN, dataLen, io);
    len := if ret != 0 then HEAD_LEN else HEAD_LEN + dataLen;
    Store(nvdata, 7, [ErrByte(ret)]);
    Store(nvdata, 4, Count16(len % 0x1_0000));
    ReplyInPlace(misc.data, head, args, offset, dataLen, io, len);
    assert nvdata[0..len] == nvdata[..][0..len];
  }

  lemma ReplyInPlace(store: seq<Byte>, head: seq<Byte>, args: seq<Byte>, offset: int, n: nat, io: Io, len: nat)
    requires |head| == |args| == 8
    requires len == HEAD_LEN + |ReadData(store, offset, n, io)|
    ensures var ret, got := Status(|store|, offset, n, io), ReadAt(store, offset, n, io);
      Patch(Patch(Patch(Patch(Zeros(HEAD_LEN + n), 0, head + args), HEAD_LEN, got),
                  7, [ErrByte(ret)]), 4, Count16(len % 0x1_0000))[0..len]
      == ReplyHead(head, len, ret) + args + ReadData(store, offset, n, io)
  {
    var ret, got := Status(|store|, offset, n, io), ReadAt(store, offset, n, io);
    hide Status, ReadAt;
    PartsInPlace(head, args, got, n, ErrByte(ret), Count16(len % 0x1_0000));
    var nv := Patch(Patch(Patch(Patch(Zeros(HEAD_LEN + n), 0, head + args), HEAD_LEN, got),
                          7, [ErrByte(ret)]), 4, Count16(len % 0x1_0000));
    hide Patch, ErrByte, Count16;
    var h := nv[0..HEAD_LEN];
    assert h == ReplyHead(head, len, ret) + args;
    hide ReplyHead;
    assert nv[0..len] == h + nv[HEAD_LEN..len];
    assert ret != 0 ==> nv[HEAD_LEN..len] == [];
  }

  lemma PartsInPlace(head: seq<Byte>, args: seq<Byte>, got: seq<Byte>, n: nat, err: Byte, len: seq<Byte>)
    requires |head| == |args| == 8 && |got| <= n && |len| == 2
    ensures var nv := Patch(Patch(Patch(Patch(Zeros(HEAD_LEN + n), 0, head + args), HEAD_LEN, got),
                                  7, [err]), 4, len);
      && nv[0..HEAD_LEN] == head[..4] + len + [head[6], err] + args
      && nv[HEAD_LEN..HEAD_LEN + n] == Patch(Zeros(n), 0, got)
  {
    var q := Patch(Patch(Zeros(HEAD_LEN + n), 0, head + args), HEAD_LEN, got);
    BodyInPlace(head + args, n, got);
    hide Patch;
    var r := Patch(q, 7, [err]);
    PatchBeside(q, 7, [err], HEAD_LEN, HEAD_LEN + n);
    PatchBeside(r, 4, len, HEAD_LEN, HEAD_LEN + n);
    HeadPatched(q, 0, err, len);
    FrontOf(q, head, args);
    PatchBeside(q, 7, [err], 8, HEAD_LEN);
    PatchBeside(r, 4, len, 8, HEAD_LEN);
    JoinedSlices(Patch(r, 4, len), 0, 8, HEAD_LEN);
  }

  lemma BodyInPlace(front: seq<Byte>, n: nat, got: seq<Byte>)
    requires |front| == HEAD_LEN && |got| <= n
    ensures var q := Patch(Patch(Zeros(HEAD_LEN + n), 0, front), HEAD_LEN, got);
      q[0..HEAD_LEN] == front && q[HEAD_LEN..HEAD_LEN + n] == Patch(Zeros(n), 0, got)
  {
    var p := Patch(Zeros(HEAD_LEN + n), 0, front);
    assert p == front + Zeros(n);
  }

  lemma FrontOf(q: seq<Byte>, head: seq<Byte>, args: seq<Byte>)
    requires |head| == |args| == 8 && |q| >= HEAD_LEN && q[0..HEAD_LEN] == head + args
    ensures q[0..8] == head && q[8..HEAD_LEN] == args
  {
    assert q[0..8] == q[0..HEAD_LEN][..8] && q[8..HEAD_LEN] == q[0..HEAD_LEN][8..];
  }

  /** Length and result written into a header of eight bytes. */
  lemma HeadPatched(q: seq<Byte>, at: nat, err: Byte, len: seq<Byte>)
    requires at + 8 <= |q| && |len| == 2
    ensures var head := q[at..at + 8];
      Patch(Patch(q, at + 7, [err]), at + 4, len)[at..at + 8] == head[..4] + len + [head[6], err]
  {
    hide Patch;
    var r := Patch(q, at + 7, [err]);
    var s := Patch(r, at + 4, len);
    PatchBeside(q, at + 7, [err], at, at + 4);
    PatchBeside(q, at + 7, [err], at + 6, at + 7);
    PatchBeside(r, at + 4, len, at, at + 4);
    PatchBeside(r, at + 4, len, at + 6, at + 7);
    PatchBeside(r, at + 4, len, at + 7, at + 8);
    JoinedSlices(s, at, at + 4, at + 6);
    JoinedSlices(s, at, at + 6, at + 7);
    JoinedSlices(s, at, at + 7, at + 8);
    assert q[at..at + 8][..4] == q[at..at + 4];
    assert q[at + 6..at + 7] == [q[at..at + 8][6]];
    Regroup(q[at..at + 4] + len, [q[at..at + 8][6]], [err]);
  }

  method WriteEx(misc: MiscData, buf: array<Byte>, rsp: array<Byte>, offset: int, dataLen: nat,
                 rio: Io, wio: Io) returns (n: nat)
    requires buf.Length >= 17 + dataLen && HEAD_LEN + dataLen + 2 <= rsp.Length && buf != rsp
    modifies misc, buf, rsp
    ensures var before := Status(old(|misc.data|), offset, dataLen, rio);
      var ret := if before != 0 then before else Status(old(|misc.data|), offset, dataLen, wio);
      && misc.data == (if before != 0 then old(misc.data)
                       else WriteAt(old(misc.data), offset, old(buf[..])[17..17 + dataLen], wio))
      && Sent(old(rsp[..]), rsp[..], n, Some(PlainFrame(ReplyHead(old(buf[..])[1..9], 8, ret))))
  {
    hide Status, WriteAt, ReadAt, PlainFrame, Sent;
    var nvdata := new Byte[dataLen](_ => 0);
    var ret := misc.ReadWithOffset(offset, nvdata, 0, dataLen, rio);
    if ret == 0 {
      Store(nvdata, 0, buf[17..17 + dataLen]);
      assert nvdata[0..dataLen] == buf[17..17 + dataLen];
      ret := misc.WriteWithOffset(offset, nvdata, 0, dataLen, wio);
    }
    ghost var before := buf[..];
    Store(buf, 8, [ErrByte(ret)]);
    Store(buf, 5, Count16(8));
    HeadInPlace(before, ret);
    hide Patch, ReplyHead;
    n := TranslatePacket(rsp, buf, 1, 8);
  }

  lemma HeadInPlace(buf: seq<Byte>, ret: int)
    requires |buf| >= 17
    ensures Patch(Patch(buf, 8, [ErrByte(ret)]), 5, Count16(8))[1..9] == ReplyHead(buf[1..9], 8, ret)
  {
    hide Count16, ErrByte, Patch;
    HeadPatched(buf, 1, ErrByte(ret), Count16(8));
  }

  // ----- The length field -----------------------------------------------------------------------

  /** The command is a read that is answered with more than the 16-bit length field can count. */
  predicate Wraps(size: nat, req: Request, rio: Io) {
    && req.head[7] == READ_EX && HEAD_LEN + req.n >= 0x1_0000
    && Status(size, req.offset, req.n, rio) == 0
  }

  /** A reply counts itself exactly when its length does not wrap. */
  lemma ReplyIsCounted(store: seq<Byte>, req: Request, rspLen: int, rio: Io, wio: Io)
    ensures var reply := Serve(store, req, rspLen, rio, wio).1;
      reply.Some? ==> (Counted(reply.value) <==> !Wraps(|store|, req, rio))
  {
    hide ReplyHead, ReadData, Status, WriteAt;
    var at, n := req.offset, req.n;
    var data := ReadData(store, at, n, rio);
    CountOfReply(req.head, HEAD_LEN + |data|, Status(|store|, at, n, rio), req.args + data);
    Regroup(ReplyHead(req.head, HEAD_LEN + |data|, Status(|store|, at, n, rio)), req.args, data);
    CountOfReply(req.head, 8, Status(|store|, at, n, rio), []);
    CountOfReply(req.head, 8, Status(|store|, at, n, wio), []);
    assert forall h: seq<Byte> :: h + [] == h;
  }

  lemma CountOfReply(head: seq<Byte>, len: nat, ret: int, rest: seq<Byte>)
    requires |head| == 8 && len == 8 + |rest|
    ensures Counted(ReplyHead(head, len, ret) + rest) <==> len < 0x1_0000
  {
    hide Count16, Count16At, ErrByte;
    var reply := ReplyHead(head, len, ret) + rest;
    assert reply[4..4 + 2] == Count16(len % 0x1_0000);
    Count16Within(reply, 4, len % 0x1_0000);
  }

  /** A reply whose length wraps can look like two other messages: a read of 65536 bytes that finds
      two flags and then a message of 65534 bytes. */
  lemma WrappedReadLooksLikeTwo(store: seq<Byte>, req: Request, rspLen: int, rio: Io, wio: Io, m: seq<Byte>)
    requires HEAD_LEN + req.n + 2 <= rspLen && req.n == 0x1_0000 && Wraps(|store|, req, rio)
    requires Counted(m) && ReadData(store, req.offset, req.n, rio) == [FLAG, FLAG] + m
    ensures var reply := Serve(store, req, rspLen, rio, wio).1;
      && reply.Some? && Counted(reply.value[..HEAD_LEN])
      && PlainFrame(reply.value) == PlainFrames([reply.value[..HEAD_LEN], m])
  {
    hide ReplyHead, ReadData, Status, Count16At;
    var head := ReplyHead(req.head, HEAD_LEN + req.n, 0);
    var reply := head + req.args + ([FLAG, FLAG] + m);
    HeadOfWrapped(req.head, req.args);
    assert reply[..HEAD_LEN] == head + req.args;
    TwoFrames(head + req.args, m);
    assert PlainFrame(reply) == PlainFrame(head + req.args) + PlainFrame(m);
  }

  lemma HeadOfWrapped(head: seq<Byte>, args: seq<Byte>)
    requires |head| == |args| == 8
    ensures Counted(ReplyHead(head, HEAD_LEN + 0x1_0000, 0) + args)
  {
    hide Count16, Count16At, ErrByte;
    var reply := ReplyHead(head, HEAD_LEN + 0x1_0000, 0) + args;
    assert reply[4..4 + 2] == Count16(HEAD_LEN);
    Count16Within(reply, 4, HEAD_LEN);
  }

  lemma TwoFrames(a: seq<Byte>, b: seq<Byte>)
    ensures PlainFrames([a, b]) == PlainFrame(a) + PlainFrame(b)
  {
    assert [a, b][1..] == [b] && [b][1..] == [];
    assert PlainFrames([b]) == PlainFrame(b) + PlainFrames([]);
  }

  // ----- Histories ------------------------------------------------------------------------------

  datatype Access = Access(req: Request, rspLen: int, rio: Io, wio: Io)

  /** The store after a list of commands. */
  function History(store: seq<Byte>, calls: seq<Access>): (after: seq<Byte>)
    ensures |after| == |store|
    decreases |calls|
  {
    if calls == [] then store
    else
      var last := calls[|calls| - 1];
      Serve(History(store, calls[..|calls| - 1]), last.req, last.rspLen, last.rio, last.wio).0
  }

  /** The bytes a command puts into a store of the given size. */
  function Written(size: nat, call: Access): (data: seq<Byte>)
    ensures data == [] || (0 <= call.req.offset && call.req.offset + |data| <= size)
  {
    var req := call.req;
    if call.rspLen < HEAD_LEN + req.n + 2 || req.head[7] != WRITE_EX then []
    else if Status(size, req.offset, req.n, call.rio) != 0 then []
    else if Status(size, req.offset, req.n, call.wio) != 0 then []
    else req.data[..Moved(size, req.offset, req.n, call.wio)]
  }

  /** What position p should hold: the latest byte written there, or the initial content. */
  function Latest(init: seq<Byte>, calls: seq<Access>, p: nat): Byte
    requires p < |init|
    decreases |calls|
  {
    if calls == [] then init[p]
    else
      var last := calls[|calls| - 1];
      var data, at := Written(|init|, last), last.req.offset;
      if at <= p < at + |data| then data[p - at] else Latest(init, calls[..|calls| - 1], p)
  }

  /** After any sequence of commands, whatever steps failed, every position holds the latest byte
      written there. In particular nothing outside the written ranges ever changes. */
  lemma {:induction false} HistoryIsLatest(init: seq<Byte>, calls: seq<Access>, p: nat)
    requires p < |init|
    ensures History(init, calls)[p] == Latest(init, calls, p)
    decreases |calls|
  {
    hide Serve, Written;
    if calls != [] {
      var before, last := calls[..|calls| - 1], calls[|calls| - 1];
      HistoryIsLatest(init, before, p);
      ServeWrites(History(init, before), last);
      var data, at := Written(|init|, last), last.req.offset;
      if data != [] {
        PatchAt(History(init, before), at, data, p);
      }
    }
  }

  lemma ServeWrites(store: seq<Byte>, call: Access)
    ensures var data := Written(|store|, call);
      Serve(store, call.req, call.rspLen, call.rio, call.wio).0
      == if data == [] then store else Patch(store, call.req.offset, data)
  {
    hide ReplyHead;
  }

  /** The latest bytes of a range. */
  function LatestRange(init: seq<Byte>, calls: seq<Access>, at: nat, k: nat): (r: seq<Byte>)
    requires at + k <= |init|
    ensures |r| == k
    ensures forall i :: 0 <= i < k ==> r[i] == Latest(init, calls, at + i)
  {
    seq(k, i requires 0 <= i < k => Latest(init, calls, at + i))
  }

  /** A successful read answers with the latest bytes of its range: all of them when the transfer
      was complete, as many as it got and then zeros when it was short. */
  lemma ReadSeesLatest(init: seq<Byte>, calls: seq<Access>, call: Access)
    requires call.req.head[7] == READ_EX && HEAD_LEN + call.req.n + 2 <= call.rspLen
    requires Status(|init|, call.req.offset, call.req.n, call.rio) == 0
    ensures var n, at := call.req.n, call.req.offset;
      var k := Moved(|init|, at, n, call.rio);
      Serve(History(init, calls), call.req, call.rspLen, call.rio, call.wio).1
      == Some(ReplyHead(call.req.head, HEAD_LEN + n, 0) + call.req.args
              + (LatestRange(init, calls, at, k) + Zeros(n - k)))
  {
    hide Serve, ReplyHead, History, Latest, LatestRange, ReadData, Status, Moved;
    var n, at := call.req.n, call.req.offset;
    var store := History(init, calls);
    TransferIsInside(|init|, at, n, call.rio);
    var k := Moved(|init|, at, n, call.rio);
    LatestIsStored(init, calls, at, k);
    ReadDataParts(store, at, n, call.rio);
    ReadServed(store, call);
  }

  lemma TransferIsInside(size: nat, at: int, n: nat, io: Io)
    requires Status(size, at, n, io) == 0
    ensures at >= 0 && at + Moved(size, at, n, io) <= size
  {}

  lemma ReadServed(store: seq<Byte>, call: Access)
    requires call.req.head[7] == READ_EX && HEAD_LEN + call.req.n + 2 <= call.rspLen
    requires Status(|store|, call.req.offset, call.req.n, call.rio) == 0
    ensures var data := ReadData(store, call.req.offset, call.req.n, call.rio);
      Serve(store, call.req, call.rspLen, call.rio, call.wio).1
      == Some(ReplyHead(call.req.head, HEAD_LEN + |data|, 0) + call.req.args + data)
  {
    hide ReplyHead, ReadData, Status, WriteAt;
  }

  lemma ReadDataParts(store: seq<Byte>, at: int, n: nat, io: Io)
    requires Status(|store|, at, n, io) == 0
    ensures var k := Moved(|store|, at, n, io);
      ReadData(store, at, n, io) == store[at..at + k] + Zeros(n - k)
  {
    hide Moved;
    var got := ReadAt(store, at, n, io);
    assert got == store[at..at + Moved(|store|, at, n, io)];
    PatchZeros(n, got);
  }

  lemma PatchZeros(n: nat, got: seq<Byte>)
    requires |got| <= n
    ensures Patch(Zeros(n), 0, got) == got + Zeros(n - |got|)
  {}

  lemma LatestIsStored(init: seq<Byte>, calls: seq<Access>, at: nat, k: nat)
    requires at + k <= |init|
    ensures History(init, calls)[at..at + k] == LatestRange(init, calls, at, k)
  {
    hide History, Latest;
    var range := LatestRange(init, calls, at, k);
    hide LatestRange;
    forall i | 0 <= i < k
      ensures History(init, calls)[at..at + k][i] == range[i]
    {
      HistoryIsLatest(init, calls, at + i);
    }
  }
}
