/** The misc partition and its diag command in literal bytes: laws that name no definition but the one
    they are about. */
module StoreLaws {
  import opened Options
  import opened Bytes
  import opened Framing
  import M = MiscStore
  import P = ProductCtrl

  function Least(a: int, b: int, c: int): int {
    if a <= b && a <= c then a else if b <= c then b else c
  }

  // ----- Seek and transfer ------------------------------------------------------------------------

  /** The return code by the first step that fails: the property, open, lseek, the transfer. */
  lemma StatusCodes(size: nat, offset: int, n: nat, io: M.Io)
    ensures var r := M.Status(size, offset, n, io);
      && (!io.prop ==> r == -1)
      && (io.prop && !io.open ==> r == -3)
      && (io.prop && io.open && (offset < 0 || !io.seek) ==> r == -4)
      && (io.prop && io.open && offset >= 0 && io.seek && (io.moved <= 0 || n == 0 || offset >= size) ==> r == -2)
      && (io.prop && io.open && 0 <= offset < size && io.seek && io.moved > 0 && n > 0 ==> r == 0)
  {}

  /** What is transferred: as much as was asked for, as there is, and as the system call says. */
  lemma Transferred(store: seq<Byte>, offset: nat, data: seq<Byte>, io: M.Io)
    requires io.prop && io.open && io.seek && io.moved > 0 && offset < |store| && data != []
    ensures var k := Least(io.moved, |data|, |store| - offset);
      && M.ReadAt(store, offset, |data|, io) == store[offset..offset + k]
      && M.WriteAt(store, offset, data, io) == store[..offset] + data[..k] + store[offset + k..]
  {}

  /** When a step fails nothing is. */
  lemma NothingTransferred(store: seq<Byte>, offset: int, data: seq<Byte>, io: M.Io)
    requires !io.prop || !io.open || !io.seek || io.moved <= 0 || offset < 0 || offset >= |store| || data == []
    ensures M.ReadAt(store, offset, |data|, io) == [] && M.WriteAt(store, offset, data, io) == store
  {}

  // ----- The whole image --------------------------------------------------------------------------

  /** Reading by image: the code by the step that fails, and the bytes, zero from where a short read
      of the image ended. */
  lemma ImageRead(store: seq<Byte>, offset: nat, n: nat, io: M.Io)
    requires |store| == 0x10_0000 && offset + n <= 0x10_0000
    ensures !io.prop ==> M.NandRead(store, offset, n, io) == (-1, [])
    ensures io.prop && !(io.alloc && io.open) ==> M.NandRead(store, offset, n, io) == (-3, [])
    ensures io.prop && io.alloc && io.open && io.moved <= 0 ==> M.NandRead(store, offset, n, io) == (-2, [])
    ensures io.prop && io.alloc && io.open && io.moved > 0 ==>
      var (ret, data) := M.NandRead(store, offset, n, io);
      && ret == 0 && |data| == n
      && forall i :: 0 <= i < n ==> data[i] == if offset + i < io.moved then store[offset + i] else 0
  {}

  /** Writing by image: what each failing step returns and leaves behind. */
  lemma ImageWrite(store: seq<Byte>, offset: nat, data: seq<Byte>, rio: M.Io, wio: M.Io, ruined: seq<Byte>)
    requires |store| == 0x10_0000 == |ruined| && offset + |data| <= 0x10_0000
    ensures var r := M.NandWrite(store, offset, data, rio, wio, ruined);
      var readable := rio.prop && rio.alloc && rio.open && rio.moved > 0;
      && (!rio.prop ==> r == (-1, store))
      && (rio.prop && !rio.alloc ==> r == (-3, store))
      && (rio.prop && rio.alloc && !(rio.open && rio.moved > 0) ==> r == (-4, store))
      && (readable && !wio.prop ==> r == (-1, store))
      && (readable && wio.prop && !wio.open ==> r == (-3, store))
      && (readable && wio.prop && wio.open && wio.moved <= 0 ==> r == (-2, ruined))
      && (readable && wio.prop && wio.open && 0 < wio.moved < 0x10_0000 ==> r == (0, ruined))
      && (readable && wio.prop && wio.open && wio.moved >= 0x10_0000 ==>
            r.0 == 0 && r.1 == Patch(M.Image(store, rio), offset, data))
  {
    hide M.Image;
  }

  /** With the image read completely the write changes its range and nothing else. */
  lemma ImageWritten(store: seq<Byte>, offset: nat, data: seq<Byte>, rio: M.Io, wio: M.Io, ruined: seq<Byte>)
    requires |store| == 0x10_0000 == |ruined| && offset + |data| <= 0x10_0000
    requires rio.prop && rio.alloc && rio.open && rio.moved >= 0x10_0000
    requires wio.prop && wio.open && wio.moved >= 0x10_0000
    ensures M.NandWrite(store, offset, data, rio, wio, ruined)
      == (0, store[..offset] + data + store[offset + |data|..])
  {
    ImageWrite(store, offset, data, rio, wio, ruined);
    assert M.Image(store, rio) == store;
  }

  // ----- Requests ---------------------------------------------------------------------------------

  /** The bytes of a request: flag, header, offset, length, data. */
  function Wire(flag: Byte, head: seq<Byte>, at: Word, n: Word, data: seq<Byte>): seq<Byte> {
    [flag] + head + Count32(at) + Count32(n) + data
  }

  lemma WireParts(flag: Byte, head: seq<Byte>, at: Word, n: Word, data: seq<Byte>)
    requires |head| == 8
    ensures var buf := Wire(flag, head, at, n, data);
      && |buf| == 17 + |data| && buf[1..9] == head && buf[8] == head[7]
      && buf[9..9 + 4] == Count32(at) && buf[13..13 + 4] == Count32(n)
      && buf[9..17] == Count32(at) + Count32(n) && buf[17..] == data
  {
    hide Count32;
  }

  /** What is read out of them: the offset is signed, the data are there for a write only. */
  lemma ParsedFromBytes(flag: Byte, head: seq<Byte>, at: Word, n: Word, data: seq<Byte>)
    requires |head| == 8 && n <= 0x7FFF_FFED && (head[7] == 0x13 ==> n <= |data|)
    ensures var buf := Wire(flag, head, at, n, data);
      && P.Acceptable(buf)
      && P.Parse(buf) == P.Command(head, Count32(at) + Count32(n),
                                   if at <= 0x7FFF_FFFF then at else at - 0x1_0000_0000, n,
                                   if head[7] == 0x13 then data[..n] else [])
  {
    hide *;
    var buf := Wire(flag, head, at, n, data);
    WireParts(flag, head, at, n, data);
    Count32Within(buf, 9, at);
    Count32Within(buf, 13, n);
    ParsedFields(buf, at, n);
    assert head[7] == 0x13 ==> buf[17..17 + n] == buf[17..][..n];
  }

  lemma ParsedFields(buf: seq<Byte>, at: Word, n: Word)
    requires |buf| >= 17 && Count32At(buf, 9) == at && Count32At(buf, 13) == n
    requires n <= 0x7FFF_FFED && (buf[8] == 0x13 ==> 17 + n <= |buf|)
    ensures P.Acceptable(buf)
    ensures P.Parse(buf) == P.Command(buf[1..9], buf[9..17], if at <= 0x7FFF_FFFF then at else at - 0x1_0000_0000, n,
                                      if buf[8] == 0x13 then buf[17..17 + n] else [])
  {
    hide Count32At;
  }

  // ----- Replies ----------------------------------------------------------------------------------

  /** Return codes as they stand in the reply. */
  lemma ErrorBytes()
    ensures P.ErrByte(0) == 0 && P.ErrByte(-1) == 0xFF && P.ErrByte(-2) == 0xFE
    ensures P.ErrByte(-3) == 0xFD && P.ErrByte(-4) == 0xFC
  {}

  lemma ReplyHeader(head: seq<Byte>, len: nat, ret: int)
    requires |head| == 8
    ensures P.ReplyHead(head, len, ret) == head[..4] + Count16(len % 0x1_0000) + [head[6], P.ErrByte(ret)]
  {}

  /** A request that would need more room than there is, or that is neither 0x12 nor 0x13, does nothing. */
  lemma NoReply(store: seq<Byte>, req: P.Request, rspLen: int, rio: M.Io, wio: M.Io)
    requires rspLen < 18 + req.n || (req.head[7] != 0x12 && req.head[7] != 0x13)
    ensures P.Serve(store, req, rspLen, rio, wio) == (store, None)
  {
    hide P.ReplyHead, P.ReadData, M.WriteAt, M.Status;
  }

  /** A read that fails is answered with the request's own offset and length. */
  lemma FailedRead(store: seq<Byte>, req: P.Request, rspLen: int, rio: M.Io, wio: M.Io)
    requires rspLen >= 18 + req.n && req.head[7] == 0x12
    requires M.Status(|store|, req.offset, req.n, rio) != 0
    ensures P.Serve(store, req, rspLen, rio, wio)
      == (store, Some(req.head[..4] + Count16(16)
                      + [req.head[6], P.ErrByte(M.Status(|store|, req.offset, req.n, rio))] + req.args))
  {
    var ret := M.Status(|store|, req.offset, req.n, rio);
    ReplyHeader(req.head, 16, ret);
    hide M.Status, P.ReplyHead, P.ErrByte, Count16, M.ReadAt;
    assert P.ReadData(store, req.offset, req.n, rio) == [];
    hide P.ReadData;
    var h := P.ReplyHead(req.head, 16, ret) + req.args;
    assert h + [] == h;
  }

  /** A write that fails, in either of its transfers, is answered with a header only. */
  lemma FailedWrite(store: seq<Byte>, req: P.Request, rspLen: int, rio: M.Io, wio: M.Io)
    requires rspLen >= 18 + req.n && req.head[7] == 0x13
    ensures var r := P.Serve(store, req, rspLen, rio, wio);
      var first := M.Status(|store|, req.offset, req.n, rio);
      var second := M.Status(|store|, req.offset, req.n, wio);
      && (first != 0 ==> r == (store, Some(req.head[..4] + Count16(8) + [req.head[6], P.ErrByte(first)])))
      && (first == 0 && second != 0 ==>
            r == (store, Some(req.head[..4] + Count16(8) + [req.head[6], P.ErrByte(second)])))
  {
    ReplyHeader(req.head, 8, M.Status(|store|, req.offset, req.n, rio));
    ReplyHeader(req.head, 8, M.Status(|store|, req.offset, req.n, wio));
    hide M.Status, P.ReplyHead, P.ErrByte, Count16, P.ReadData;
  }

  /** Nothing fails or falls short. */
  ghost predicate AllMoved(io: M.Io, n: nat) {
    io.prop && io.open && io.seek && io.moved >= n
  }

  /** A whole read. */
  lemma WholeRead(store: seq<Byte>, req: P.Request, rspLen: int, rio: M.Io, wio: M.Io)
    requires req.head[7] == 0x12 && rspLen >= 18 + req.n && AllMoved(rio, req.n)
    requires 0 < req.n && 0 <= req.offset && req.offset + req.n <= |store|
    ensures P.Serve(store, req, rspLen, rio, wio)
      == (store, Some(req.head[..4] + Count16((16 + req.n) % 0x1_0000) + [req.head[6], 0]
                      + req.args + store[req.offset..req.offset + req.n]))
  {
    var at, n := req.offset, req.n;
    assert AllMoved(rio, n) && rio.moved > 0;
    hide *;
    StatusCodes(|store|, at, n, rio);
    WholeData(store, at, n, rio);
    AnsweredRead(store, req, rspLen, rio, wio, store[at..at + n]);
  }

  lemma AnsweredRead(store: seq<Byte>, req: P.Request, rspLen: int, rio: M.Io, wio: M.Io, data: seq<Byte>)
    requires req.head[7] == 0x12 && rspLen >= 18 + req.n
    requires M.Status(|store|, req.offset, req.n, rio) == 0
    requires P.ReadData(store, req.offset, req.n, rio) == data
    ensures P.Serve(store, req, rspLen, rio, wio)
      == (store, Some(req.head[..4] + Count16((16 + |data|) % 0x1_0000) + [req.head[6], 0] + req.args + data))
  {
    hide P.Serve, P.ReplyHead, P.ErrByte, M.Status, P.ReadData, Count16;
    P.ReadServed(store, P.Access(req, rspLen, rio, wio));
    ErrorBytes();
    ReplyHeader(req.head, 16 + |data|, 0);
    ServeKeeps(store, req, rspLen, rio, wio);
  }

  lemma WholeData(store: seq<Byte>, at: nat, n: nat, io: M.Io)
    requires AllMoved(io, n) && 0 < n && at + n <= |store|
    ensures P.ReadData(store, at, n, io) == store[at..at + n]
  {
    StatusCodes(|store|, at, n, io);
    P.ReadDataParts(store, at, n, io);
    hide M.Status, P.ReadData;
    assert store[at..at + n] + M.Zeros(0) == store[at..at + n];
  }

  lemma ServeKeeps(store: seq<Byte>, req: P.Request, rspLen: int, rio: M.Io, wio: M.Io)
    requires req.head[7] == 0x12
    ensures P.Serve(store, req, rspLen, rio, wio).0 == store
  {
    hide M.Status, P.ReadData, P.ReplyHead;
  }

  /** A whole write. */
  lemma WholeWrite(store: seq<Byte>, req: P.Request, rspLen: int, rio: M.Io, wio: M.Io)
    requires req.head[7] == 0x13 && rspLen >= 18 + req.n && AllMoved(rio, req.n) && AllMoved(wio, req.n)
    requires 0 < req.n && 0 <= req.offset && req.offset + req.n <= |store|
    ensures P.Serve(store, req, rspLen, rio, wio)
      == (store[..req.offset] + req.data + store[req.offset + req.n..],
          Some(req.head[..4] + Count16(8) + [req.head[6], 0]))
  {
    var at, n := req.offset, req.n;
    StatusCodes(|store|, at, n, rio);
    StatusCodes(|store|, at, n, wio);
    Transferred(store, at, req.data, wio);
    assert req.data[..n] == req.data;
    ErrorBytes();
    ReplyHeader(req.head, 8, 0);
    hide P.ReplyHead, P.ErrByte, M.Status, M.WriteAt, Count16, P.ReadData;
  }

  /** A whole read, from the bytes of the request to those of the reply. */
  lemma ReadOnBytes(store: seq<Byte>, flag: Byte, head: seq<Byte>, at: Word, n: Word, data: seq<Byte>,
                    rspLen: int, rio: M.Io, wio: M.Io)
    requires |head| == 8 && head[7] == 0x12 && n <= 0x7FFF_FFED && at <= 0x7FFF_FFFF
    requires 0 < n && at + n <= |store| && rspLen >= 18 + n && AllMoved(rio, n)
    ensures var buf := Wire(flag, head, at, n, data);
      P.Acceptable(buf) && P.Serve(store, P.Parse(buf), rspLen, rio, wio)
      == (store, Some(head[..4] + Count16((16 + n) % 0x1_0000) + [head[6], 0]
                      + (Count32(at) + Count32(n)) + store[at..at + n]))
  {
    hide *;
    ParsedFromBytes(flag, head, at, n, data);
    WholeRead(store, P.Parse(Wire(flag, head, at, n, data)), rspLen, rio, wio);
  }

  /** A whole write, from the bytes of the request to store and reply. */
  lemma WriteOnBytes(store: seq<Byte>, flag: Byte, head: seq<Byte>, at: Word, n: Word, data: seq<Byte>,
                     rspLen: int, rio: M.Io, wio: M.Io)
    requires |head| == 8 && head[7] == 0x13 && n <= 0x7FFF_FFED && at <= 0x7FFF_FFFF
    requires 0 < n <= |data| && at + n <= |store| && rspLen >= 18 + n && AllMoved(rio, n) && AllMoved(wio, n)
    ensures var buf := Wire(flag, head, at, n, data);
      P.Acceptable(buf) && P.Serve(store, P.Parse(buf), rspLen, rio, wio)
      == (store[..at] + data[..n] + store[at + n..], Some(head[..4] + Count16(8) + [head[6], 0]))
  {
    hide *;
    ParsedFromBytes(flag, head, at, n, data);
    WholeWrite(store, P.Parse(Wire(flag, head, at, n, data)), rspLen, rio, wio);
  }

  /** An offset with the top bit set is negative, and refused with the code of a failed seek. */
  lemma NegativeOffset(store: seq<Byte>, flag: Byte, head: seq<Byte>, at: Word, n: Word, data: seq<Byte>,
                       rspLen: int, rio: M.Io, wio: M.Io)
    requires |head| == 8 && head[7] == 0x13 && n <= 0x7FFF_FFED && n <= |data| && at > 0x7FFF_FFFF
    requires rspLen >= 18 + n && rio.prop && rio.open
    ensures var buf := Wire(flag, head, at, n, data);
      P.Acceptable(buf) && P.Serve(store, P.Parse(buf), rspLen, rio, wio)
      == (store, Some(head[..4] + Count16(8) + [head[6], 0xFC]))
  {
    ParsedFromBytes(flag, head, at, n, data);
    var req := P.Parse(Wire(flag, head, at, n, data));
    StatusCodes(|store|, req.offset, req.n, rio);
    ErrorBytes();
    FailedWrite(store, req, rspLen, rio, wio);
    hide Wire, P.Parse, P.Acceptable, P.Serve, P.ErrByte, M.Status, Count16, Count32;
  }

  // ----- Histories on bytes -----------------------------------------------------------------------

  lemma WholeWritten(size: nat, call: P.Access)
    requires call.req.head[7] == 0x13 && call.rspLen >= 18 + call.req.n
    requires 0 < call.req.n && 0 <= call.req.offset && call.req.offset + call.req.n <= size
    requires AllMoved(call.rio, call.req.n) && AllMoved(call.wio, call.req.n)
    ensures P.Written(size, call) == call.req.data
  {
    StatusCodes(size, call.req.offset, call.req.n, call.rio);
    StatusCodes(size, call.req.offset, call.req.n, call.wio);
    hide M.Status;
    assert call.req.data[..call.req.n] == call.req.data;
  }

  lemma LatestOfMore(init: seq<Byte>, calls: seq<P.Access>, call: P.Access, p: nat)
    requires p < |init|
    ensures var data, at := P.Written(|init|, call), call.req.offset;
      P.Latest(init, calls + [call], p) == if at <= p < at + |data| then data[p - at] else P.Latest(init, calls, p)
  {
    hide P.Written;
    var all := calls + [call];
    assert all[..|all| - 1] == calls && all[|all| - 1] == call;
  }

  /** One more write request, as bytes: its data are the latest in its range, and every other position
      holds what it held. */
  lemma WriteIsLatest(init: seq<Byte>, calls: seq<P.Access>, p: nat, flag: Byte, head: seq<Byte>, at: Word, n: Word,
                      data: seq<Byte>, rspLen: int, rio: M.Io, wio: M.Io)
    requires p < |init| && |head| == 8 && head[7] == 0x13 && n <= 0x7FFF_FFED && at <= 0x7FFF_FFFF
    requires 0 < n <= |data| && at + n <= |init| && rspLen >= 18 + n && AllMoved(rio, n) && AllMoved(wio, n)
    ensures P.Acceptable(Wire(flag, head, at, n, data))
    ensures P.Latest(init, calls + [P.Access(P.Parse(Wire(flag, head, at, n, data)), rspLen, rio, wio)], p)
      == if at <= p < at + n then data[p - at] else P.Latest(init, calls, p)
  {
    hide *;
    ParsedFromBytes(flag, head, at, n, data);
    var call := P.Access(P.Parse(Wire(flag, head, at, n, data)), rspLen, rio, wio);
    WholeWritten(|init|, call);
    assert |P.Written(|init|, call)| == n;
    LatestOfMore(init, calls, call, p);
  }

  /** A read request, as bytes, after any history: the latest byte of every position it asks for. */
  lemma ReadSeesLatestOnBytes(init: seq<Byte>, calls: seq<P.Access>, flag: Byte, head: seq<Byte>, at: Word, n: Word,
                              data: seq<Byte>, rspLen: int, rio: M.Io, wio: M.Io)
    requires |head| == 8 && head[7] == 0x12 && n <= 0x7FFF_FFED && at <= 0x7FFF_FFFF
    requires 0 < n && at + n <= |init| && rspLen >= 18 + n && AllMoved(rio, n)
    ensures P.Acceptable(Wire(flag, head, at, n, data))
    ensures P.Serve(P.History(init, calls), P.Parse(Wire(flag, head, at, n, data)), rspLen, rio, wio).1
      == Some(head[..4] + Count16((16 + n) % 0x1_0000) + [head[6], 0]
              + (Count32(at) + Count32(n)) + P.LatestRange(init, calls, at, n))
  {
    ReadOnBytes(P.History(init, calls), flag, head, at, n, data, rspLen, rio, wio);
    P.LatestIsStored(init, calls, at, n);
    hide Wire, P.Parse, P.Acceptable, P.Serve, P.History, Count16, Count32;
  }
}
