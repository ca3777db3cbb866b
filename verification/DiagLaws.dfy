/** The diag link in literal bytes: laws that name no definition but the one they are about. */
module DiagLaws {
  import opened Options
  import opened Bytes
  import opened Framing
  import C = Crc16
  import E = CrcErrors
  import W = CrcTwoBits
  import P = PhaseCheck
  import M = MiscStore
  import T = TraceDump

  // ----- Fields -----------------------------------------------------------------------------------

  /** Low byte first, in every field. */
  lemma FieldBytes(s: seq<Byte>, i: nat)
    requires i + 4 <= |s|
    ensures Count16At(s, i) == s[i] as int + 0x100 * (s[i + 1] as int)
    ensures Count32At(s, i) == s[i] as int + 0x100 * (s[i + 1] as int)
      + 0x1_0000 * (s[i + 2] as int) + 0x100_0000 * (s[i + 3] as int)
  {}

  lemma FieldWritten(n: nat)
    requires n < 0x1_0000
    ensures Count16(n)[0] as int == n % 0x100 && Count16(n)[1] as int == n / 0x100
  {
    ByteOfValue(n % 256);
    ByteOfValue(n / 256);
    hide ByteOf;
  }

  lemma WordWritten(w: Word)
    ensures Count32(w)[0] as int == w % 0x100 && Count32(w)[1] as int == w / 0x100 % 0x100
    ensures Count32(w)[2] as int == w / 0x1_0000 % 0x100 && Count32(w)[3] as int == w / 0x100_0000
  {
    var lo, hi := w % 0x1_0000, w / 0x1_0000;
    FieldWritten(lo);
    FieldWritten(hi);
    hide Count16;
    assert Count32(w)[..2] == Count16(lo) && Count32(w)[2..] == Count16(hi);
    WordParts(w, Count32(w), Count16(lo), Count16(hi));
  }

  lemma WordParts(w: Word, s: seq<Byte>, lo: seq<Byte>, hi: seq<Byte>)
    requires |lo| == |hi| == 2 && s == lo + hi
    requires lo[0] as int == w % 0x1_0000 % 0x100 && lo[1] as int == w % 0x1_0000 / 0x100
    requires hi[0] as int == w / 0x1_0000 % 0x100 && hi[1] as int == w / 0x1_0000 / 0x100
    ensures s[0] as int == w % 0x100 && s[1] as int == w / 0x100 % 0x100
    ensures s[2] as int == w / 0x1_0000 % 0x100 && s[3] as int == w / 0x100_0000
  {
    Quotients(w);
  }

  lemma Quotients(w: nat)
    ensures w % 0x1_0000 % 0x100 == w % 0x100 && w % 0x1_0000 / 0x100 == w / 0x100 % 0x100
    ensures w / 0x1_0000 / 0x100 == w / 0x100_0000
  {
    var hi, lo := w / 0x1_0000, w % 0x1_0000;
    var a, b, c, d := lo % 0x100, lo / 0x100, hi % 0x100, hi / 0x100;
    assert w == 0x100_0000 * d + 0x1_0000 * c + 0x100 * b + a;
    ByteOff(w, 0x1_0000 * d + 0x100 * c + b, a);
    ByteOff(0x1_0000 * d + 0x100 * c + b, 0x100 * d + c, b);
    ThreeBytesOff(w, d, 0x1_0000 * c + 0x100 * b + a);
  }

  lemma ByteOff(w: nat, q: nat, r: nat)
    requires w == 0x100 * q + r && r < 0x100
    ensures w / 0x100 == q && w % 0x100 == r
  {}

  lemma ThreeBytesOff(w: nat, q: nat, r: nat)
    requires w == 0x100_0000 * q + r && r < 0x100_0000
    ensures w / 0x100_0000 == q
  {}

  lemma CrcBytes(lo: Byte, hi: Byte)
    ensures U16(lo, hi) & 0xFF == lo as bv16 && U16(lo, hi) >> 8 == hi as bv16
    ensures LE16(U16(lo, hi)) == [lo, hi]
  {}

  /** Two's complement. */
  lemma SignedWords(w: Word)
    ensures w <= 0x7FFF_FFFF ==> Signed(w) == w
    ensures w > 0x7FFF_FFFF ==> Signed(w) == w - 0x1_0000_0000
  {}

  // ----- CRC --------------------------------------------------------------------------------------

  /** The usual check value of this CRC: that of the nine digits 1 to 9. */
  lemma CheckValue()
    ensures C.Crc(0, [0x31, 0x32, 0x33, 0x34, 0x35, 0x36, 0x37, 0x38, 0x39]) == 0xBB3D
  {
    CheckSteps1();
    CheckSteps2();
    CheckSteps3();
    hide C.ByteStep, C.Crc;
    var d: seq<Byte> := [0x31, 0x32, 0x33, 0x34, 0x35, 0x36, 0x37, 0x38, 0x39];
    CrcFirst(0, d[0..]);
    CrcFirst(0xD4C1, d[1..]);
    CrcFirst(0x4594, d[2..]);
    CrcFirst(0xBA04, d[3..]);
    CrcFirst(0x14BA, d[4..]);
    CrcFirst(0xA455, d[5..]);
    CrcFirst(0x29E4, d[6..]);
    CrcFirst(0x9D68, d[7..]);
    CrcFirst(0x3C9D, d[8..]);
    CrcOfNothing(0xBB3D);
    assert d[9..] == [];
    assert d[0..] == d;
  }

  lemma CrcFirst(crc: bv16, data: seq<Byte>)
    requires data != []
    ensures C.Crc(crc, data) == C.Crc(C.ByteStep(crc, data[0]), data[1..])
  {}

  lemma CrcOfNothing(crc: bv16)
    ensures C.Crc(crc, []) == crc
  {}

  lemma CheckSteps1()
    ensures C.ByteStep(0, 0x31) == 0xD4C1
    ensures C.ByteStep(0xD4C1, 0x32) == 0x4594
    ensures C.ByteStep(0x4594, 0x33) == 0xBA04
  {}

  lemma CheckSteps2()
    ensures C.ByteStep(0xBA04, 0x34) == 0x14BA
    ensures C.ByteStep(0x14BA, 0x35) == 0xA455
    ensures C.ByteStep(0xA455, 0x36) == 0x29E4
  {}

  lemma CheckSteps3()
    ensures C.ByteStep(0x29E4, 0x37) == 0x9D68
    ensures C.ByteStep(0x9D68, 0x38) == 0x3C9D
    ensures C.ByteStep(0x3C9D, 0x39) == 0xBB3D
  {}

  /** Bit 8 * i + m of a message is bit m of its byte i: low bits first. */
  lemma BitOrder(data: seq<Byte>, i: nat)
    requires i < |data|
    ensures 8 * i + 7 < |C.Bits(data)|
    ensures C.Bits(data)[8 * i] == (data[i] & 0x01 != 0) && C.Bits(data)[8 * i + 1] == (data[i] & 0x02 != 0)
    ensures C.Bits(data)[8 * i + 2] == (data[i] & 0x04 != 0) && C.Bits(data)[8 * i + 3] == (data[i] & 0x08 != 0)
    ensures C.Bits(data)[8 * i + 4] == (data[i] & 0x10 != 0) && C.Bits(data)[8 * i + 5] == (data[i] & 0x20 != 0)
    ensures C.Bits(data)[8 * i + 6] == (data[i] & 0x40 != 0) && C.Bits(data)[8 * i + 7] == (data[i] & 0x80 != 0)
  {
    hide C.Bits, C.ByteBits;
    E.BitsAt(data, i, 0);
    E.BitsAt(data, i, 1);
    E.BitsAt(data, i, 2);
    E.BitsAt(data, i, 3);
    E.BitsAt(data, i, 4);
    E.BitsAt(data, i, 5);
    E.BitsAt(data, i, 6);
    E.BitsAt(data, i, 7);
    LowerBits(data[i]);
    UpperBits(data[i]);
  }

  lemma LowerBits(b: Byte)
    ensures C.ByteBits(b)[0] == (b & 0x01 != 0) && C.ByteBits(b)[1] == (b & 0x02 != 0)
    ensures C.ByteBits(b)[2] == (b & 0x04 != 0) && C.ByteBits(b)[3] == (b & 0x08 != 0)
  {
    var w := b as bv16;
    hide C.LowBit, C.Half;
    var r := C.LowBits(w, 8);
    var r' := C.LowBits(C.Half(w), 7);
    assert r[0] == C.LowBit(w) && r[1] == r'[0] && r[2] == r'[1] && r[3] == r'[2];
    var r'' := C.LowBits(C.Half(C.Half(w)), 6);
    assert r'[0] == C.LowBit(C.Half(w)) && r'[1] == r''[0] && r'[2] == r''[1];
    assert r''[0] == C.LowBit(C.Half(C.Half(w))) && r''[1] == C.LowBit(C.Half(C.Half(C.Half(w))));
    ShiftedBits(b);
  }

  lemma ShiftedBits(b: Byte)
    ensures var w := b as bv16;
      && C.LowBit(w) == (b & 0x01 != 0) && C.LowBit(C.Half(w)) == (b & 0x02 != 0)
      && C.LowBit(C.Half(C.Half(w))) == (b & 0x04 != 0) && C.LowBit(C.Half(C.Half(C.Half(w)))) == (b & 0x08 != 0)
  {}

  lemma UpperBits(b: Byte)
    ensures C.ByteBits(b)[4] == (b & 0x10 != 0) && C.ByteBits(b)[5] == (b & 0x20 != 0)
    ensures C.ByteBits(b)[6] == (b & 0x40 != 0) && C.ByteBits(b)[7] == (b & 0x80 != 0)
  {}

  /** Two messages that differ, but only within 16 consecutive bits, have different CRCs. */
  lemma BurstNoticed(crc: bv16, p: seq<Byte>, q: seq<Byte>, from: nat)
    requires |p| == |q| && C.Bits(p) != C.Bits(q)
    requires forall k :: 0 <= k < 8 * |p| && !(from <= k < from + 16) ==> C.Bits(p)[k] == C.Bits(q)[k]
    ensures C.Crc(crc, p) != C.Crc(crc, q)
  {
    hide C.Bits, C.Crc;
    var e := E.Diff(C.Bits(p), C.Bits(q));
    assert E.Within(e, from, 16);
    var k :| 0 <= k < 8 * |p| && C.Bits(p)[k] != C.Bits(q)[k];
    assert e[k];
    E.BurstChangesCrc(crc, p, q);
  }

  /** In how many bits two messages differ. */
  function Differences(a: seq<bool>, b: seq<bool>): nat
    requires |a| == |b|
  {
    if a == [] then 0 else (if a[0] != b[0] then 1 else 0) + Differences(a[1..], b[1..])
  }

  lemma {:induction false} OddDifferences(a: seq<bool>, b: seq<bool>)
    requires |a| == |b|
    ensures E.Odd(E.Diff(a, b)) <==> Differences(a, b) % 2 == 1
    decreases |a|
  {
    if a != [] {
      OddDifferences(a[1..], b[1..]);
      assert E.Diff(a, b)[1..] == E.Diff(a[1..], b[1..]);
    }
  }

  /** Messages that differ in an odd number of bits have different CRCs. */
  lemma OddNoticed(crc: bv16, p: seq<Byte>, q: seq<Byte>)
    requires |p| == |q| && Differences(C.Bits(p), C.Bits(q)) % 2 == 1
    ensures C.Crc(crc, p) != C.Crc(crc, q)
  {
    hide C.Bits, C.Crc, E.Odd;
    OddDifferences(C.Bits(p), C.Bits(q));
    E.OddErrorChangesCrc(crc, p, q);
  }

  /** Messages that differ in exactly the bits i and j have the same CRC if and only if these lie a
      multiple of 32767 apart. */
  lemma TwoBitsNoticed(crc: bv16, p: seq<Byte>, q: seq<Byte>, i: nat, j: nat)
    requires |p| == |q| && i < j < 8 * |p|
    requires forall k :: 0 <= k < 8 * |p| ==> (C.Bits(p)[k] != C.Bits(q)[k] <==> k == i || k == j)
    ensures C.Crc(crc, p) == C.Crc(crc, q) <==> (j - i) % 32767 == 0
  {
    hide C.Bits, C.Crc;
    W.TwoBitErrorUnnoticed(crc, p, q, i, j);
  }

  // ----- Frames -----------------------------------------------------------------------------------

  /** What the bytes of a stuffed frame are. */
  lemma StuffedBytes(b: Byte, rest: seq<Byte>)
    ensures Stuff([]) == []
    ensures Stuff([0x7E] + rest) == [0x7D, 0x5E] + Stuff(rest)
    ensures Stuff([0x7D] + rest) == [0x7D, 0x5D] + Stuff(rest)
    ensures b != 0x7E && b != 0x7D ==> Stuff([b] + rest) == [b] + Stuff(rest)
    ensures Frame(rest) == [0x7E] + Stuff(rest) + [0x7E]
    ensures PlainFrame(rest) == [0x7E] + rest + [0x7E]
  {
    assert ([0x7E] + rest)[1..] == rest;
    assert ([0x7D] + rest)[1..] == rest;
    assert ([b] + rest)[1..] == rest;
  }

  /** What "sent" means: a whole frame at the front of the buffer and its length returned, everything
      behind it as before; or nothing at all. */
  lemma SentMeans(before: seq<Byte>, after: seq<Byte>, n: nat, reply: seq<Byte>)
    ensures Sent(before, after, n, Framed(None)) <==> n == 0 && after == before
    ensures Sent(before, after, n, T.Stuffed(None)) <==> n == 0 && after == before
    ensures Sent(before, after, n, Framed(Some(reply))) <==>
      && n == |reply| + 2 && n <= |after| == |before|
      && after[..n] == [0x7E] + reply + [0x7E] && after[n..] == before[n..]
    ensures Sent(before, after, n, T.Stuffed(Some(reply))) <==>
      && n == |Stuff(reply)| + 2 && n <= |after| == |before|
      && after[..n] == [0x7E] + Stuff(reply) + [0x7E] && after[n..] == before[n..]
  {
    hide Stuff;
    FrontAndBack(before, after, n, PlainFrame(reply));
    FrontAndBack(before, after, n, Frame(reply));
  }

  lemma FrontAndBack(before: seq<Byte>, after: seq<Byte>, n: nat, f: seq<Byte>)
    ensures Sent(before, after, n, Some(f)) <==>
      n == |f| && n <= |after| == |before| && after[..n] == f && after[n..] == before[n..]
  {
    if n == |f| && n <= |after| == |before| && after[..n] == f && after[n..] == before[n..] {
      assert after == after[..n] + after[n..];
    }
  }

  /** When a message counts itself. */
  lemma CountedMeans(m: seq<Byte>)
    ensures Counted(m) <==> |m| >= 6 && m[4] as int + 0x100 * (m[5] as int) == |m|
  {}

  // ----- Trace dump -------------------------------------------------------------------------------

  /** The command is the word behind the eight header bytes. */
  lemma DumpRequest(buf: seq<Byte>, head: T.Head, cmd: Word)
    requires |buf| >= 13 && buf[1..9] == head && buf[9..13] == Count32(cmd)
    ensures T.RequestOf(buf) == T.Request(head, cmd)
  {
    Count32Within(buf, 9, cmd);
  }

  /** Any command but 1 and 2 is ignored. */
  lemma OtherCommands(st: T.State, req: T.Request, env: T.Env)
    requires T.ValidState(st) && (req.cmd == 0 || req.cmd >= 3)
    ensures T.Step(st, req, env) == (st, None)
  {}

  /** When the first call of a dump is not answered: the archive for command 2 cannot be made, or the
      file does not open. */
  lemma DumpNotStarted(st: T.State, req: T.Request, env: T.Env)
    requires T.ValidState(st) && st.action == T.Idle && (req.cmd == 1 || req.cmd == 2)
    ensures (req.cmd == 2 && !env.tarOk) || env.file == None ==> T.Step(st, req, env) == (st, None)
    ensures !((req.cmd == 2 && !env.tarOk) || env.file == None) && env.replyAlloc ==> T.Step(st, req, env).1.Some?
  {
    hide T.AckMessage;
  }

  /** Without memory for the reply there is none; without memory for the data the reply has status 2 and
      no data. Either way the dump is over. */
  lemma OutOfMemory(st: T.State, req: T.Request, env: T.Env)
    requires T.ValidState(st) && st.action == T.Dumping && (req.cmd == 1 || req.cmd == 2)
    ensures !env.replyAlloc ==> T.Step(st, req, env) == (T.State(T.Idle, None, st.offset), None)
    ensures env.replyAlloc && !env.bufferAlloc ==>
      T.Step(st, req, env) == (T.State(T.Idle, None, st.offset), Some(T.AckMessage(req, 2, [], env.junk)))
  {
    hide T.AckMessage;
  }

  /** The bytes of a reply, three of them never written. */
  lemma ReplyBytes(req: T.Request, status: Word, data: seq<Byte>, junk: T.Memory)
    requires |data| <= 4096
    ensures var m := T.AckMessage(req, status, data, junk);
      && |m| == 23 + |data| && m[..4] == req.head[..4] && m[4..6] == Count16(23 + |data|) && m[6..8] == req.head[6..]
      && m[8..12] == Count32(req.cmd) && m[12..16] == Count32(status) && m[16..20] == Count32(|data|)
      && m[20..20 + |data|] == data && m[20 + |data|..] == junk[20 + |data|..23 + |data|]
  {
    hide Count16, Count32;
  }

  /** What the host sees: bytes 12 to 15 of a reply are the status, 16 to 19 the number of data bytes
      from byte 20 on. */
  ghost predicate Seen(m: seq<Byte>, status: int, data: seq<Byte>) {
    && |m| >= 20 + |data|
    && m[12] as int + 0x100 * (m[13] as int) + 0x1_0000 * (m[14] as int) + 0x100_0000 * (m[15] as int) == status
    && m[16] as int + 0x100 * (m[17] as int) + 0x1_0000 * (m[18] as int) + 0x100_0000 * (m[19] as int) == |data|
    && m[20..20 + |data|] == data
  }

  /** One call in the middle of a dump: up to 4096 bytes from where the last one ended, status 1 for a
      full piece and 0 for a short one; a failed read counts as an empty one. */
  lemma OnePiece(st: T.State, req: T.Request, env: T.Env)
    requires T.ValidState(st) && st.action == T.Dumping && (req.cmd == 1 || req.cmd == 2)
    requires env.replyAlloc && env.bufferAlloc
    ensures var r := T.Step(st, req, env);
      Sends(st.fd.value, Piece(|st.fd.value.data|, st.fd.value.pos, env.got), r.0, r.1)
  {
    hide T.Step, T.AckMessage, Seen, Moves, Sends, Piece;
    var d := st.fd.value;
    var n := Piece(|d.data|, d.pos, env.got);
    StepMoves(st, req, env, n);
    SeenAndMoved(req, env.junk, d, n, T.Step(st, req, env).0, T.Step(st, req, env).1);
  }

  lemma SeenAndMoved(req: T.Request, junk: T.Memory, d: T.Descriptor, n: nat, next: T.State, reply: Option<seq<Byte>>)
    requires n <= 4096 && d.pos + n <= |d.data| && Moves(d, n, next)
    requires reply == Some(T.AckMessage(req, if n == 4096 then 1 else 0, d.data[d.pos..d.pos + n], junk))
    ensures Sends(d, n, next, reply)
  {
    hide T.AckMessage, Seen, Moves;
    ReplyIsSeen(req, if n == 4096 then 1 else 0, d.data[d.pos..d.pos + n], junk);
  }

  lemma StepMoves(st: T.State, req: T.Request, env: T.Env, n: nat)
    requires T.ValidState(st) && st.action == T.Dumping && (req.cmd == 1 || req.cmd == 2)
    requires env.replyAlloc && env.bufferAlloc && n == Piece(|st.fd.value.data|, st.fd.value.pos, env.got)
    ensures var r := T.Step(st, req, env);
      var d := st.fd.value;
      && r.1 == Some(T.AckMessage(req, if n == 4096 then 1 else 0, d.data[d.pos..d.pos + n], env.junk))
      && Moves(d, n, r.0)
  {
    hide T.AckMessage;
  }

  /** The descriptor moves on behind a full piece and is closed behind a short one. */
  predicate Moves(d: T.Descriptor, n: nat, next: T.State) {
    && (n == 4096 ==> next.action == T.Dumping && next.fd == Some(T.Descriptor(d.data, d.pos + 4096)))
    && (n < 4096 ==> next.action == T.Idle && next.fd == None)
  }

  /** n bytes of the file go out, with status 1 for a full piece and 0 for a short one. */
  ghost predicate Sends(d: T.Descriptor, n: nat, next: T.State, reply: Option<seq<Byte>>)
    requires d.pos + n <= |d.data|
  {
    reply.Some? && Seen(reply.value, if n == 4096 then 1 else 0, d.data[d.pos..d.pos + n]) && Moves(d, n, next)
  }

  /** How much one call sends: what read returns, 4096 bytes and what is left, whichever is least. */
  function Piece(size: nat, pos: nat, got: int): (n: nat)
    requires pos <= size
    ensures n <= 4096 && pos + n <= size
  {
    if got <= 0 then 0 else Least(got, 4096, size - pos)
  }

  function Least(a: int, b: int, c: int): int {
    if a <= b && a <= c then a else if b <= c then b else c
  }

  lemma ReplyIsSeen(req: T.Request, status: Word, data: seq<Byte>, junk: T.Memory)
    requires |data| <= 4096
    ensures Seen(T.AckMessage(req, status, data, junk), status, data)
  {
    var m := T.AckMessage(req, status, data, junk);
    ReplyBytes(req, status, data, junk);
    hide *;
    WordAt(m, 12, status);
    WordAt(m, 16, |data|);
    SeenWhen(m, status, data);
  }

  lemma WordAt(m: seq<Byte>, i: nat, w: Word)
    requires i + 4 <= |m| && m[i..i + 4] == Count32(w)
    ensures m[i] as int + 0x100 * (m[i + 1] as int) + 0x1_0000 * (m[i + 2] as int) + 0x100_0000 * (m[i + 3] as int) == w
  {
    hide *;
    Count32Within(m, i, w);
    FieldBytes(m, i);
  }

  lemma SeenWhen(m: seq<Byte>, status: int, data: seq<Byte>)
    requires |m| >= 20 + |data| && m[20..20 + |data|] == data
    requires m[12] as int + 0x100 * (m[13] as int) + 0x1_0000 * (m[14] as int) + 0x100_0000 * (m[15] as int) == status
    requires m[16] as int + 0x100 * (m[17] as int) + 0x1_0000 * (m[18] as int) + 0x100_0000 * (m[19] as int) == |data|
    ensures Seen(m, status, data)
  {}

  /** A whole dump in literal terms: from idle, by commands 1 or 2, with the file opening and nothing
      failing, there are as many replies as the file has full pieces and one more; reply i shows
      status 1 and piece i, the last one status 0 and what is left. */
  lemma WholeDump(st: T.State, file: seq<Byte>, calls: seq<T.Call>)
    requires T.ValidState(st) && st.action == T.Idle && |calls| == |file| / 4096 + 1
    requires calls[0].env.file == Some(file) && (calls[0].req.cmd == 2 ==> calls[0].env.tarOk)
    requires Smooth(calls)
    ensures var replies := T.Run(st, calls).1;
      && |replies| == |calls|
      && (forall i: nat :: i < |calls| - 1 ==> Seen(replies[i], 1, file[4096 * i..4096 * i + 4096]))
      && Seen(replies[|calls| - 1], 0, file[4096 * (|calls| - 1)..])
  {
    var begun := T.State(T.Dumping, Some(T.Descriptor(file, 0)), st.offset);
    T.StartsDump(st, file, calls);
    hide T.Run, Seen;
    Pieces(begun, calls);
    assert forall i: nat :: i < |calls| - 1 ==> 0 + 4096 * i == 4096 * i;
  }

  lemma {:induction false} Pieces(st: T.State, calls: seq<T.Call>)
    requires T.ValidState(st) && st.action == T.Dumping
    requires |calls| == (|st.fd.value.data| - st.fd.value.pos) / 4096 + 1
    requires Smooth(calls)
    ensures Shown(T.Run(st, calls).1, st.fd.value.data, st.fd.value.pos, |calls|)
    decreases |calls|
  {
    var file, pos := st.fd.value.data, st.fd.value.pos;
    FullOrLast(st, calls[0]);
    T.RunCons(st, calls);
    CallsLeft(|file| - pos, |calls|);
    hide T.Step, T.Run, Seen, Shown, Follows;
    var (next, reply) := T.Step(st, calls[0].req, calls[0].env);
    if |calls| == 1 {
      T.RunNothing(next, calls[1..]);
      NothingFollows(next, reply, file, pos);
      OnlyOne(reply.value, file, pos);
    } else {
      SmoothTail(calls);
      hide Smooth;
      MoreFollows(next, reply, file, pos);
      Pieces(next, calls[1..]);
      OneMore(reply.value, T.Run(next, calls[1..]).1, file, pos, |calls|);
    }
  }

  lemma NothingFollows(next: T.State, reply: Option<seq<Byte>>, file: seq<Byte>, pos: nat)
    requires pos <= |file| < pos + 4096 && Follows(next, reply, file, pos)
    ensures reply.Some? && Seen(reply.value, 0, file[pos..])
  {
    hide Seen;
  }

  lemma MoreFollows(next: T.State, reply: Option<seq<Byte>>, file: seq<Byte>, pos: nat)
    requires pos + 4096 <= |file| && Follows(next, reply, file, pos)
    ensures reply.Some? && Seen(reply.value, 1, file[pos..pos + 4096])
    ensures T.ValidState(next) && next.action == T.Dumping && next.fd == Some(T.Descriptor(file, pos + 4096))
  {
    hide Seen;
  }

  /** Commands 1 and 2 only, and nothing fails. */
  ghost predicate Smooth(calls: seq<T.Call>) {
    forall i :: 0 <= i < |calls| ==>
      && (calls[i].req.cmd == 1 || calls[i].req.cmd == 2)
      && calls[i].env.replyAlloc && calls[i].env.bufferAlloc && calls[i].env.got >= 4096
  }

  lemma SmoothTail(calls: seq<T.Call>)
    requires Smooth(calls) && calls != []
    ensures Smooth(calls[1..])
  {}

  lemma CallsLeft(left: nat, n: nat)
    requires n == left / 4096 + 1
    ensures n == 1 <==> left < 4096
    ensures n > 1 ==> n - 1 == (left - 4096) / 4096 + 1
  {}

  lemma FullOrLast(st: T.State, call: T.Call)
    requires T.ValidState(st) && st.action == T.Dumping && (call.req.cmd == 1 || call.req.cmd == 2)
    requires call.env.replyAlloc && call.env.bufferAlloc && call.env.got >= 4096
    ensures var (next, reply) := T.Step(st, call.req, call.env);
      Follows(next, reply, st.fd.value.data, st.fd.value.pos)
  {
    hide Seen, T.AckMessage;
    OnePiece(st, call.req, call.env);
    hide T.Step;
    var file, pos := st.fd.value.data, st.fd.value.pos;
    assert file[pos..] == file[pos..pos + (|file| - pos)];
  }

  ghost predicate Follows(next: T.State, reply: Option<seq<Byte>>, file: seq<Byte>, pos: nat)
    requires pos <= |file|
  {
    && T.ValidState(next) && reply.Some?
    && (if pos + 4096 <= |file| then
          && next.action == T.Dumping && next.fd == Some(T.Descriptor(file, pos + 4096))
          && Seen(reply.value, 1, file[pos..pos + 4096])
        else Seen(reply.value, 0, file[pos..]))
  }

  /** n replies that show the file from a position on. */
  ghost predicate Shown(replies: seq<seq<Byte>>, file: seq<Byte>, pos: nat, n: nat) {
    && |replies| == n && n > 0 && pos + 4096 * (n - 1) <= |file|
    && (forall i: nat :: i < n - 1 ==> Seen(replies[i], 1, file[pos + 4096 * i..pos + 4096 * i + 4096]))
    && Seen(replies[n - 1], 0, file[pos + 4096 * (n - 1)..])
  }

  lemma OnlyOne(reply: seq<Byte>, file: seq<Byte>, pos: nat)
    requires pos <= |file| && Seen(reply, 0, file[pos..])
    ensures Shown([reply], file, pos, 1)
  {
    hide Seen;
    assert file[pos + 0..] == file[pos..];
  }

  lemma OneMore(reply: seq<Byte>, later: seq<seq<Byte>>, file: seq<Byte>, pos: nat, n: nat)
    requires n > 1 && Shown(later, file, pos + 4096, n - 1)
    requires pos + 4096 <= |file| && Seen(reply, 1, file[pos..pos + 4096])
    ensures Shown([reply] + later, file, pos, n)
  {
    hide Seen;
    var replies := [reply] + later;
    forall i: nat | i < n - 1
      ensures Seen(replies[i], 1, file[pos + 4096 * i..pos + 4096 * i + 4096])
    {
      if i > 0 {
        assert replies[i] == later[i - 1];
        assert (pos + 4096) + 4096 * (i - 1) == pos + 4096 * i;
      }
    }
    assert replies[n - 1] == later[n - 2];
    assert (pos + 4096) + 4096 * (n - 2) == pos + 4096 * (n - 1);
  }

  // ----- Phase check ------------------------------------------------------------------------------

  /** The message lies behind one flag byte, its length at offset 4. */
  lemma PhaseRequest(buf: seq<Byte>, m: P.Message, flag: Byte, rest: seq<Byte>)
    requires buf == [flag] + m + rest && m[4..6] == Count16(|m|) && |buf| >= 13
    ensures P.Acceptable(buf) && P.MessageOf(buf) == m
  {
    assert buf[5..7] == m[4..6];
    Count16Within(buf, 5, |m|);
    assert buf[1..1 + |m|] == m;
  }

  /** Eight header bytes, the payload, the CRC of the payload with its low byte first. */
  lemma IntactRequest(head: seq<Byte>, payload: seq<Byte>, lo: Byte, hi: Byte)
    requires |head| == 8 && 10 + |payload| < 0x1_0000
    ensures P.Intact(head + payload + [lo, hi]) <==> LowThenHigh(lo, hi, C.Crc(0, payload))
    ensures P.Payload(head + payload + [lo, hi]) == payload
  {
    hide *;
    MessageParts(head, payload, lo, hi);
    IntactIs(head + payload + [lo, hi], lo, hi);
  }

  lemma IntactIs(m: P.Message, lo: Byte, hi: Byte)
    requires P.Trailer(m) == U16(lo, hi)
    ensures P.Intact(m) <==> LowThenHigh(lo, hi, C.Crc(0, P.Payload(m)))
  {
    SameBytes(lo, hi, C.Crc(0, P.Payload(m)));
    hide C.Crc, U16, P.Payload, P.Trailer, LowThenHigh;
  }

  predicate LowThenHigh(lo: Byte, hi: Byte, crc: bv16) {
    crc & 0xFF == lo as bv16 && crc >> 8 == hi as bv16
  }

  lemma MessageParts(head: seq<Byte>, payload: seq<Byte>, lo: Byte, hi: Byte)
    requires |head| == 8 && 10 + |payload| < 0x1_0000
    ensures var m: P.Message := head + payload + [lo, hi];
      P.Payload(m) == payload && P.Trailer(m) == U16(lo, hi)
  {
    hide U16;
    var m: P.Message := head + payload + [lo, hi];
    assert m[8..|m| - 2] == payload && m[|m| - 2] == lo && m[|m| - 1] == hi;
  }

  lemma SameBytes(lo: Byte, hi: Byte, y: bv16)
    ensures U16(lo, hi) == y <==> LowThenHigh(lo, hi, y)
  {
    SplitWord(lo, hi, y);
  }

  lemma SplitWord(lo: Byte, hi: Byte, y: bv16)
    ensures ((lo as bv16) | ((hi as bv16) << 8)) == y <==> y & 0xFF == lo as bv16 && y >> 8 == hi as bv16
  {}

  /** The header of a reply: as in the request, with length and subtype replaced. */
  lemma ReplyHeader(m: seq<Byte>, len: nat, subtype: Byte)
    requires |m| >= 8 && len < 0x1_0000
    ensures P.Head(m, len, subtype) == m[..4] + Count16(len) + [m[6], subtype]
  {}

  /** What becomes of a request, by its subtype: a broken one gets no answer; zero is refused with error
      2; 1 to 0x7F store the payload at the start of the partition, acknowledged with subtype 1 and a
      zero word, or refused with error 3. */
  lemma WriteRequests(store: seq<Byte>, m: P.Message, rsplen: nat, io: M.Io, junk: seq<Byte>)
    requires |junk| == rsplen + 2 >= 494
    ensures var r := P.Serve(store, m, rsplen, io, junk);
      var saved := M.Status(|store|, 0, |m| - 10, io) == 0;
      && (!P.Intact(m) ==> r == (store, None))
      && (P.Intact(m) && m[7] == 0 ==>
            r == (store, Some(m[..4] + Count16(12) + [m[6], 0] + Count16(2) + Count16(0))))
      && (P.Intact(m) && 1 <= m[7] <= 0x7F && !saved ==>
            r == (store, Some(m[..4] + Count16(12) + [m[6], 0] + Count16(3) + Count16(0))))
      && (P.Intact(m) && 1 <= m[7] <= 0x7F && saved ==>
            && r.0 == M.WriteAt(store, 0, m[8..|m| - 2], io)
            && r.1 == Some(m[..4] + Count16(10) + [m[6], 1] + Count16(0)))
  {
    Subtypes(m[7]);
    WriteBranches(store, m, rsplen, io, junk);
    hide P.Intact, M.Status, M.WriteAt, Count16, P.Serve, M.ReadAt;
  }

  lemma WriteBranches(store: seq<Byte>, m: P.Message, rsplen: nat, io: M.Io, junk: seq<Byte>)
    requires |junk| == rsplen + 2 >= 494
    ensures var r := P.Serve(store, m, rsplen, io, junk);
      var saved := M.Status(|store|, 0, |m| - 10, io) == 0;
      && (!P.Intact(m) ==> r == (store, None))
      && (P.Intact(m) && m[7] & 0x80 == 0 && m[7] & 0x7F == 0 ==>
            r == (store, Some(m[..4] + Count16(12) + [m[6], 0] + Count16(2) + Count16(0))))
      && (P.Intact(m) && m[7] & 0x80 == 0 && m[7] & 0x7F != 0 && !saved ==>
            r == (store, Some(m[..4] + Count16(12) + [m[6], 0] + Count16(3) + Count16(0))))
      && (P.Intact(m) && m[7] & 0x80 == 0 && m[7] & 0x7F != 0 && saved ==>
            && r.0 == M.WriteAt(store, 0, m[8..|m| - 2], io)
            && r.1 == Some(m[..4] + Count16(10) + [m[6], 1] + Count16(0)))
  {
    ReplyHeader(m, 10, 1);
    ReplyHeader(m, 12, 0);
    hide P.Intact, M.Status, M.WriteAt, Count16, P.Sealed, P.Head, M.ReadAt, Patch;
  }

  lemma Subtypes(b: Byte)
    ensures b & 0x80 == 0 <==> b <= 0x7F
    ensures b <= 0x7F ==> (b & 0x7F == 0 <==> b == 0)
  {}

  /** 0x80 and above read: refused with a zero word, or answered with subtype 1, the record and its CRC. */
  lemma ReadRequests(store: seq<Byte>, m: P.Message, rsplen: nat, io: M.Io, junk: seq<Byte>)
    requires |junk| == rsplen + 2 >= 494 && P.Intact(m) && m[7] >= 0x80
    ensures var r := P.Serve(store, m, rsplen, io, junk);
      var mem := Patch(junk, 0, M.ReadAt(store, 0, rsplen, io));
      var record := mem[..RecordBytes(Count32At(mem, 0))];
      && r.0 == store
      && (M.Status(|store|, 0, rsplen, io) != 0 ==> r.1 == Some(m[..4] + Count16(10) + [m[6], 0] + Count16(0)))
      && (M.Status(|store|, 0, rsplen, io) == 0 ==>
            r.1 == Some(m[..4] + Count16(10 + |record|) + [m[6], 1] + record + LE16(C.Crc(0, record))))
  {
    Subtypes(m[7]);
    var mem := Patch(junk, 0, M.ReadAt(store, 0, rsplen, io));
    assert P.RecordSize(Count32At(mem, 0)) == RecordBytes(Count32At(mem, 0));
    hide P.Intact, M.Status, M.ReadAt, Count16, LE16, C.Crc, P.RecordSize, Count32At;
  }

  /** The records by the word they begin with: the structure of the first takes 256 bytes, that of the
      second 492; any other record is cut to nothing. */
  function RecordBytes(magic: Word): (n: nat)
    ensures n <= 492
  {
    if magic == 0x5350_3039 then 256 else if magic == 0x5350_3135 then 492 else 0
  }
}
