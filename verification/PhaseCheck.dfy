/** modules/libmiscdata/phasecheck.c: the CRC-guarded write and the CRC-sealed read of the phase-check
    record at the start of the misc partition. */
module PhaseCheck {
  import opened Options
  import opened Bytes
  import opened Framing
  import opened MiscStore
  import C = Crc16
  import E = CrcErrors
  import T = CrcTwoBits

  const HEAD: nat := 8
  const RW_MASK: Byte := 0x80
  const RM_VALID_CMD_MASK: Byte := 0x7F
  const MSG_NACK: Byte := 0
  const MSG_ACK: Byte := 1
  const IMEI_CRC_ERR: nat := 1
  const IMEI_CMD_ERR: nat := 2
  const IMEI_SAVE_ERR: nat := 3

  const SP09_MAGIC: Word := 0x5350_3039
  const SP15_MAGIC: Word := 0x5350_3135
  /** The record structures under the 32-bit ABI: magic, two serial numbers, station count, station
      names, reserved bytes, sign flag, failure text, and (after two bytes of padding in the second)
      the test sign and item words. */
  const SP09_SIZE: nat := 4 + 24 + 24 + 4 + 15 * 10 + 13 + 1 + 32 + 2 + 2
  const SP15_SIZE: nat := 4 + 64 + 64 + 4 + 20 * 15 + 13 + 1 + 32 + 2 + 4 + 4

  // ----- Messages -------------------------------------------------------------------------------

  type Message = m: seq<Byte> | 10 <= |m| < 0x1_0000 witness Zeros(10)

  /** Header, payload, two trailer bytes. */
  function Payload(m: Message): seq<Byte> {
    m[HEAD..|m| - 2]
  }

  function Trailer(m: Message): bv16 {
    U16At(m, |m| - 2)
  }

  /** The comparison the handler makes before it believes a request. */
  predicate Intact(m: Message) {
    Trailer(m) == C.Crc(0, Payload(m))
  }

  /** A message buffer holds a request: the length field covers at least header and trailer, and
      the receive buffer holds that much behind its flag. */
  predicate Acceptable(buf: seq<Byte>) {
    |buf| >= 13 && 10 <= Count16At(buf, 5) < |buf|
  }

  function MessageOf(buf: seq<Byte>): Message
    requires Acceptable(buf)
  {
    buf[1..1 + Count16At(buf, 5)]
  }

  lemma FieldsInBuffer(buf: seq<Byte>)
    requires Acceptable(buf)
    ensures var m, len := MessageOf(buf), Count16At(buf, 5);
      && |m| == len && m[..HEAD] == buf[1..9] && m[7] == buf[8]
      && Payload(m) == buf[9..9 + (len - 10)]
      && Trailer(m) == U16(buf[len - 1], buf[len])
  {
    hide Count16At, U16;
    assert forall i :: 0 <= i < Count16At(buf, 5) ==> MessageOf(buf)[i] == buf[1 + i];
  }

  function Head(m: seq<Byte>, len: nat, subtype: Byte): (h: seq<Byte>)
    requires |m| >= HEAD && len < 0x1_0000
    ensures |h| == HEAD
  {
    m[..4] + Count16(len) + [m[6], subtype]
  }

  function RecordSize(magic: Word): (n: nat)
    ensures n <= SP15_SIZE
  {
    if magic == SP09_MAGIC then SP09_SIZE else if magic == SP15_MAGIC then SP15_SIZE else 0
  }

  // ----- The handler as a function --------------------------------------------------------------

  /** The reply to a read, given what was read into the memory behind the copied header. */
  function Sealed(m: Message, mem: seq<Byte>): (reply: seq<Byte>)
    requires |mem| >= SP15_SIZE
    ensures |reply| == HEAD + RecordSize(Count32At(mem, 0)) + 2
  {
    SealWith(m, mem[..RecordSize(Count32At(mem, 0))])
  }

  /** Acknowledgement, record and CRC of the record. */
  function SealWith(m: Message, record: seq<Byte>): (reply: seq<Byte>)
    requires |record| <= SP15_SIZE
    ensures |reply| == HEAD + |record| + 2
  {
    Head(m, HEAD + |record| + 2, MSG_ACK) + record + LE16(C.Crc(0, record))
  }

  /** The store afterwards and the reply before framing; `junk` is the memory malloc returned. */
  function Serve(store: seq<Byte>, m: Message, rsplen: nat, io: Io, junk: seq<Byte>)
    : (r: (seq<Byte>, Option<seq<Byte>>))
    requires |junk| == rsplen + 2 >= SP15_SIZE + 2
  {
    if !Intact(m) then (store, None)
    else if m[7] & RW_MASK == 0 then
      var n := |Payload(m)|;
      if m[7] & RM_VALID_CMD_MASK == 0 then
        (store, Some(Head(m, 12, MSG_NACK) + Count16(IMEI_CMD_ERR) + Count16(0)))
      else if Status(|store|, 0, n, io) != 0 then
        (store, Some(Head(m, 12, MSG_NACK) + Count16(IMEI_SAVE_ERR) + Count16(0)))
      else (WriteAt(store, 0, Payload(m), io), Some(Head(m, 10, MSG_ACK) + Count16(0)))
    else if Status(|store|, 0, rsplen, io) != 0 then
      (store, Some(Head(m, 10, MSG_NACK) + Count16(0)))
    else (store, Some(Sealed(m, Patch(junk, 0, ReadAt(store, 0, rsplen, io)))))
  }

  // ----- The handler as written -----------------------------------------------------------------

  method DirectPhschk(misc: MiscData, buf: array<Byte>, rsp: array<Byte>, rsplen: nat, io: Io,
                      junk: seq<Byte>) returns (rspLen: nat)
    requires Acceptable(buf[..]) && buf != rsp
    requires |junk| == rsplen + 2 && SP15_SIZE + 12 <= rsplen <= rsp.Length
    modifies misc, buf, rsp
    ensures var (store, reply) := Serve(old(misc.data), MessageOf(old(buf[..])), rsplen, io, junk);
      misc.data == store && Sent(old(rsp[..]), rsp[..], rspLen, Framed(reply))
    ensures !Intact(MessageOf(old(buf[..]))) ==>
      buf[..] == Patch(Patch(old(buf[..]), 5, Count16(12)), 9, Count16(1))
  {
    hide PlainFrame, Sent, Status, WriteAt, ReadAt, Head, Sealed, C.Crc, U16, Count16, Patch,
      MessageOf, Payload, Trailer, Count16At;
    FieldsInBuffer(buf[..]);
    SentNothing(rsp[..]);
    var len := Count16At(buf[..], 5);
    var recvCrc := U16(buf[len - 1], buf[len]);
    var crc := C.Crc16(0, buf, 9, len - 10);
    assert buf[9..9 + (len - 10)] == buf[..][9..9 + (len - 10)];
    if recvCrc != crc {
      Store(buf, 5, Count16(12));
      Store(buf, 9, Count16(IMEI_CRC_ERR));
      return 0;
    }
    if buf[8] & RW_MASK == 0 {
      rspLen := WriteMode(misc, buf, rsp, len, io);
    } else {
      rspLen := ReadMode(misc, buf, rsp, rsplen, io, junk);
    }
  }

  method WriteMode(misc: MiscData, buf: array<Byte>, rsp: array<Byte>, len: nat, io: Io)
    returns (rspLen: nat)
    requires Acceptable(buf[..]) && len == Count16At(buf[..], 5) && buf != rsp && rsp.Length >= 14
    modifies misc, buf, rsp
    ensures var m := MessageOf(old(buf[..]));
      var valid := m[7] & RM_VALID_CMD_MASK != 0;
      var saved := valid && Status(old(|misc.data|), 0, |Payload(m)|, io) == 0;
      && misc.data == (if saved then WriteAt(old(misc.data), 0, Payload(m), io) else old(misc.data))
      && Sent(old(rsp[..]), rsp[..], rspLen, Some(PlainFrame(
           if saved then Head(m, 10, MSG_ACK) + Count16(0)
           else Head(m, 12, MSG_NACK) + Count16(if valid then IMEI_SAVE_ERR else IMEI_CMD_ERR) + Count16(0))))
  {
    hide PlainFrame, Sent, Status, ReadAt, MessageOf, Payload, Patch, Head, Count16, Count16At;
    ghost var before := buf[..];
    FieldsInBuffer(before);
    var error := 0;
    var result := false;
    if buf[8] & RM_VALID_CMD_MASK != 0 {
      var dataLen := len - 10;
      assert buf[9..9 + dataLen] == before[9..9 + dataLen];
      var nverr := misc.WriteWithOffset(0, buf, 9, dataLen, io);
      if nverr != 0 {
        error := IMEI_SAVE_ERR;
      } else {
        result := true;
      }
    } else {
      error := IMEI_CMD_ERR;
    }
    if result {
      Store(buf, 5, Count16(10));
      Store(buf, 8, [MSG_ACK]);
      Store(buf, 9, Count16(0));
      AckInPlace(before);
      rspLen := TranslatePacket(rsp, buf, 1, 10);
    } else {
      Store(buf, 8, [MSG_NACK]);
      Store(buf, 9, Count16(error));
      Store(buf, 11, Count16(0));
      Store(buf, 5, Count16(12));
      NackInPlace(before, error);
      rspLen := TranslatePacket(rsp, buf, 1, 12);
    }
  }

  lemma AckInPlace(buf: seq<Byte>)
    requires Acceptable(buf)
    ensures Patch(Patch(Patch(buf, 5, Count16(10)), 8, [MSG_ACK]), 9, Count16(0))[1..1 + 10]
         == Head(MessageOf(buf), 10, MSG_ACK) + Count16(0)
  {
    HeadInBuffer(buf);
    hide Count16, MessageOf, Patch;
    var p := Patch(buf, 5, Count16(10));
    var q := Patch(p, 8, [MSG_ACK]);
    var r := Patch(q, 9, Count16(0));
    HeadStays(buf, 5, Count16(10));
    HeadStays(p, 8, [MSG_ACK]);
    HeadStays(q, 9, Count16(0));
    PatchBeside(p, 8, [MSG_ACK], 5, 7);
    PatchBeside(q, 9, Count16(0), 5, 7);
    PatchBeside(q, 9, Count16(0), 8, 9);
    MessageAt(r, 1, MessageOf(buf), 10, MSG_ACK, Count16(0));
  }

  /** The bytes of the header that no reply changes, at their places in the buffer. */
  lemma HeadStays(buf: seq<Byte>, at: nat, data: seq<Byte>)
    requires |buf| >= 9 && at + |data| <= |buf| && (at >= 8 || (at == 5 && |data| == 2))
    ensures Patch(buf, at, data)[1..5] == buf[1..5] && Patch(buf, at, data)[7..8] == buf[7..8]
  {
    PatchBeside(buf, at, data, 1, 5);
    PatchBeside(buf, at, data, 7, 8);
  }

  lemma HeadInBuffer(buf: seq<Byte>)
    requires Acceptable(buf)
    ensures MessageOf(buf)[..4] == buf[1..5] && MessageOf(buf)[6..7] == buf[7..8]
  {
    hide Count16At;
    var m := MessageOf(buf);
    assert forall i :: 0 <= i < 10 ==> m[i] == buf[1 + i];
    assert m[6] == buf[7];
  }

  /** A reply lies in a buffer if its parts do. */
  lemma MessageAt(p: seq<Byte>, at: nat, m: seq<Byte>, len: nat, subtype: Byte, rest: seq<Byte>)
    requires |m| >= HEAD && len < 0x1_0000 && at + HEAD + |rest| <= |p|
    requires p[at..at + 4] == m[..4] && p[at + 4..at + 6] == Count16(len) && p[at + 6..at + 7] == m[6..7]
    requires p[at + 7..at + 8] == [subtype] && p[at + HEAD..at + HEAD + |rest|] == rest
    ensures p[at..at + HEAD + |rest|] == Head(m, len, subtype) + rest
  {
    hide Count16;
    JoinedSlices(p, at, at + 4, at + 6);
    JoinedSlices(p, at, at + 6, at + 7);
    JoinedSlices(p, at, at + 7, at + 8);
    JoinedSlices(p, at, at + HEAD, at + HEAD + |rest|);
    assert m[6..7] + [subtype] == [m[6], subtype];
    Regroup(m[..4] + Count16(len), m[6..7], [subtype]);
  }

  lemma NackInPlace(buf: seq<Byte>, error: nat)
    requires Acceptable(buf) && error < 0x1_0000
    ensures Patch(Patch(Patch(Patch(buf, 8, [MSG_NACK]), 9, Count16(error)), 11, Count16(0)),
                  5, Count16(12))[1..1 + 12]
         == Head(MessageOf(buf), 12, MSG_NACK) + Count16(error) + Count16(0)
  {
    HeadInBuffer(buf);
    hide Count16, MessageOf, Patch;
    var p := Patch(buf, 8, [MSG_NACK]);
    var q := Patch(p, 9, Count16(error));
    var r := Patch(q, 11, Count16(0));
    var s := Patch(r, 5, Count16(12));
    HeadStays(buf, 8, [MSG_NACK]);
    HeadStays(p, 9, Count16(error));
    HeadStays(q, 11, Count16(0));
    HeadStays(r, 5, Count16(12));
    PatchBeside(p, 9, Count16(error), 8, 9);
    PatchBeside(q, 11, Count16(0), 8, 9);
    PatchBeside(r, 5, Count16(12), 8, 9);
    PatchBeside(q, 11, Count16(0), 9, 11);
    PatchBeside(r, 5, Count16(12), 9, 11);
    PatchBeside(r, 5, Count16(12), 11, 13);
    JoinedSlices(s, 9, 11, 13);
    MessageAt(s, 1, MessageOf(buf), 12, MSG_NACK, Count16(error) + Count16(0));
    Regroup(Head(MessageOf(buf), 12, MSG_NACK), Count16(error), Count16(0));
  }

  method ReadMode(misc: MiscData, buf: array<Byte>, rsp: array<Byte>, rsplen: nat, io: Io,
                  junk: seq<Byte>) returns (rspLen: nat)
    requires Acceptable(buf[..]) && buf != rsp
    requires |junk| == rsplen + 2 && SP15_SIZE + 12 <= rsplen <= rsp.Length
    modifies buf, rsp
    ensures var m := MessageOf(old(buf[..]));
      Sent(old(rsp[..]), rsp[..], rspLen, Some(PlainFrame(
        if Status(|misc.data|, 0, rsplen, io) != 0 then Head(m, 10, MSG_NACK) + Count16(0)
        else Sealed(m, Patch(junk, 0, ReadAt(misc.data, 0, rsplen, io))))))
  {
    hide PlainFrame, Sent, Status, Sealed, MessageOf, Head, Count16, Count16At, Patch, ReadAt;
    ghost var before := buf[..];
    FieldsInBuffer(before);
    var nvdata := Allocate(buf[1..9], junk);
    var nverr := misc.ReadWithOffset(0, nvdata, HEAD, rsplen, io);
    if nverr != 0 {
      Store(buf, 5, Count16(10));
      Store(buf, 9, Count16(0));
      Store(buf, 8, [MSG_NACK]);
      ReadNackInPlace(before);
      rspLen := TranslatePacket(rsp, buf, 1, 10);
    } else {
      ghost var got := ReadAt(misc.data, 0, rsplen, io);
      PatchBehindHead(before[1..9], junk, got);
      var n := Seal(nvdata, MessageOf(before), Patch(junk, 0, got));
      rspLen := TranslatePacket(rsp, nvdata, 0, n);
    }
  }

  /** malloc, then memcpy of the header. */
  method Allocate(head: seq<Byte>, junk: seq<Byte>) returns (nvdata: array<Byte>)
    requires |head| == HEAD
    ensures fresh(nvdata) && nvdata[..] == head + junk
  {
    nvdata := new Byte[HEAD + |junk|](i requires 0 <= i < HEAD + |junk| =>
      if i < HEAD then 0 else junk[i - HEAD]);
    Store(nvdata, 0, head);
    assert nvdata[..] == head + junk;
  }

  lemma PatchBehindHead(head: seq<Byte>, junk: seq<Byte>, got: seq<Byte>)
    requires |head| == HEAD && |got| <= |junk|
    ensures Patch(head + junk, HEAD, got) == head + Patch(junk, 0, got)
  {}

  lemma ReadNackInPlace(buf: seq<Byte>)
    requires Acceptable(buf)
    ensures Patch(Patch(Patch(buf, 5, Count16(10)), 9, Count16(0)), 8, [MSG_NACK])[1..1 + 10]
         == Head(MessageOf(buf), 10, MSG_NACK) + Count16(0)
  {
    HeadInBuffer(buf);
    hide Count16, MessageOf, Patch;
    var p := Patch(buf, 5, Count16(10));
    var q := Patch(p, 9, Count16(0));
    var r := Patch(q, 8, [MSG_NACK]);
    HeadStays(buf, 5, Count16(10));
    HeadStays(p, 9, Count16(0));
    HeadStays(q, 8, [MSG_NACK]);
    PatchBeside(p, 9, Count16(0), 5, 7);
    PatchBeside(q, 8, [MSG_NACK], 5, 7);
    PatchBeside(q, 8, [MSG_NACK], 9, 11);
    MessageAt(r, 1, MessageOf(buf), 10, MSG_NACK, Count16(0));
  }

  /** Finds the record size by its magic number and writes length, CRC and acknowledgement. */
  method Seal(nvdata: array<Byte>, ghost m: Message, ghost mem: seq<Byte>) returns (n: nat)
    requires |mem| >= SP15_SIZE + 2 && nvdata[..] == m[..HEAD] + mem
    modifies nvdata
    ensures n == |Sealed(m, mem)| <= nvdata.Length && n <= HEAD + SP15_SIZE + 2
    ensures nvdata[0..n] == Sealed(m, mem)
  {
    hide SealWith, Count16, Count32At, RecordSize;
    MagicInPlace(m, mem);
    var snLen := SizeFor(Count32At(nvdata[..], HEAD));
    n := HEAD + snLen + 2;
    SealRecord(nvdata, snLen, m, mem);
  }

  /** Length, CRC and acknowledgement, in the order they are written. */
  method SealRecord(nvdata: array<Byte>, snLen: nat, ghost m: Message, ghost mem: seq<Byte>)
    requires snLen <= SP15_SIZE && |mem| >= SP15_SIZE + 2 && nvdata[..] == m[..HEAD] + mem
    modifies nvdata
    ensures nvdata[0..HEAD + snLen + 2] == SealWith(m, mem[..snLen])
  {
    hide C.Crc, Count16, LE16, Head, Patch;
    assert nvdata.Length == HEAD + |mem|;
    ghost var before := nvdata[..];
    Store(nvdata, 4, Count16(HEAD + snLen + 2));
    LengthOnly(before, HEAD + snLen + 2, snLen);
    assert before[HEAD..] == mem;
    assert nvdata[HEAD..HEAD + snLen] == nvdata[..][HEAD..HEAD + snLen];
    var crc := C.Crc16(0, nvdata, HEAD, snLen);
    Store(nvdata, HEAD + snLen, LE16(crc));
    Store(nvdata, 7, [MSG_ACK]);
    SealInPlace(m, mem, snLen, crc);
    assert nvdata[0..HEAD + snLen + 2] == nvdata[..][0..HEAD + snLen + 2];
  }

  method SizeFor(magic: Word) returns (snLen: nat)
    ensures snLen == RecordSize(magic)
  {
    snLen := 0;
    if magic == SP09_MAGIC {
      snLen := SP09_SIZE;
    } else if magic == SP15_MAGIC {
      snLen := SP15_SIZE;
    }
  }

  lemma LengthOnly(nv: seq<Byte>, n: nat, size: nat)
    requires HEAD + size <= |nv| && n < 0x1_0000
    ensures Patch(nv, 4, Count16(n))[HEAD..HEAD + size] == nv[HEAD..][..size]
  {
    hide Count16;
  }

  lemma MagicInPlace(m: Message, mem: seq<Byte>)
    requires |mem| >= SP15_SIZE
    ensures Count32At(m[..HEAD] + mem, HEAD) == Count32At(mem, 0)
  {}

  lemma SealInPlace(m: Message, mem: seq<Byte>, size: nat, crc: bv16)
    requires size <= SP15_SIZE && |mem| >= SP15_SIZE + 2
    ensures Patch(Patch(Patch(m[..HEAD] + mem, 4, Count16(HEAD + size + 2)), HEAD + size, LE16(crc)),
                  7, [MSG_ACK])[0..HEAD + size + 2]
         == Head(m, HEAD + size + 2, MSG_ACK) + mem[..size] + LE16(crc)
  {
    hide Count16, LE16, Patch;
    var n := HEAD + size + 2;
    var base := m[..HEAD] + mem;
    BaseParts(m, mem, size);
    var p := Patch(base, 4, Count16(n));
    var q := Patch(p, HEAD + size, LE16(crc));
    var r := Patch(q, 7, [MSG_ACK]);
    RecordStays(base, size, 4, Count16(n));
    RecordStays(p, size, HEAD + size, LE16(crc));
    RecordStays(q, size, 7, [MSG_ACK]);
    PatchBeside(p, HEAD + size, LE16(crc), 4, 6);
    PatchBeside(q, 7, [MSG_ACK], 4, 6);
    PatchBeside(q, 7, [MSG_ACK], HEAD + size, n);
    JoinedSlices(r, HEAD, HEAD + size, n);
    MessageAt(r, 0, m, n, MSG_ACK, mem[..size] + LE16(crc));
    Regroup(Head(m, n, MSG_ACK), mem[..size], LE16(crc));
  }

  lemma BaseParts(m: Message, mem: seq<Byte>, size: nat)
    requires size <= |mem|
    ensures var base := m[..HEAD] + mem;
      base[0..4] == m[..4] && base[6..7] == m[6..7] && base[HEAD..HEAD + size] == mem[..size]
  {}

  lemma RecordStays(s: seq<Byte>, size: nat, at: nat, data: seq<Byte>)
    requires HEAD + size + 2 <= |s| && at + |data| <= |s|
    requires (at == 4 && |data| == 2) || (at == 7 && |data| == 1) || at == HEAD + size
    ensures Patch(s, at, data)[0..4] == s[0..4] && Patch(s, at, data)[6..7] == s[6..7]
    ensures Patch(s, at, data)[HEAD..HEAD + size] == s[HEAD..HEAD + size]
  {
    PatchBeside(s, at, data, 0, 4);
    PatchBeside(s, at, data, 6, 7);
    PatchBeside(s, at, data, HEAD, HEAD + size);
  }

  // ----- Corruption is noticed ------------------------------------------------------------------

  /** The trailer comparison passes exactly when the CRC over payload and trailer together is zero. */
  lemma IntactIsZeroResidue(m: Message)
    ensures Intact(m) <==> C.Crc(0, m[HEAD..]) == 0
  {
    hide C.Crc, LE16, U16;
    var n := |m|;
    BytesRoundTrip(m[n - 2], m[n - 1]);
    assert m[HEAD..] == Payload(m) + LE16(Trailer(m));
    C.ResidueIsZero(Payload(m), Trailer(m));
  }

  /** The bits of payload and trailer that differ between two messages of the same length. */
  ghost function Damage(good: Message, bad: Message): seq<bool>
    requires |good| == |bad|
  {
    E.Diff(C.Bits(good[HEAD..]), C.Bits(bad[HEAD..]))
  }

  /** A request damaged in a burst of up to 16 bits, or in an odd number of bits, anywhere in payload
      and trailer, is never accepted: nothing is stored and no reply is sent. */
  lemma DamageIsRejected(store: seq<Byte>, good: Message, bad: Message, rsplen: nat, io: Io, junk: seq<Byte>)
    requires |junk| == rsplen + 2 >= SP15_SIZE + 2
    requires Intact(good) && |good| == |bad|
    requires E.Burst(Damage(good, bad)) || E.Odd(Damage(good, bad))
    ensures Serve(store, bad, rsplen, io, junk) == (store, None)
  {
    hide E.Burst, E.Odd, E.Diff, C.Bits, C.Crc, Intact;
    IntactIsZeroResidue(good);
    IntactIsZeroResidue(bad);
    if E.Burst(Damage(good, bad)) {
      E.BurstChangesCrc(0, good[HEAD..], bad[HEAD..]);
    } else {
      E.OddErrorChangesCrc(0, good[HEAD..], bad[HEAD..]);
    }
  }

  /** Damage in exactly two bits is noticed unless they lie a multiple of 32767 apart, which takes a
      message of more than 4096 bytes. */
  lemma TwoBitDamage(store: seq<Byte>, good: Message, bad: Message, i: nat, j: nat,
                     rsplen: nat, io: Io, junk: seq<Byte>)
    requires |junk| == rsplen + 2 >= SP15_SIZE + 2
    requires Intact(good) && |good| == |bad| && T.TwoHits(Damage(good, bad), i, j)
    ensures Intact(bad) <==> (j - i) % 32767 == 0
    ensures (j - i) % 32767 != 0 ==> Serve(store, bad, rsplen, io, junk) == (store, None)
    ensures |good| <= 4096 ==> !Intact(bad)
  {
    hide E.Diff, C.Bits, C.Crc, Intact;
    IntactIsZeroResidue(good);
    IntactIsZeroResidue(bad);
    T.TwoBitErrorUnnoticed(0, good[HEAD..], bad[HEAD..], i, j);
    assert |Damage(good, bad)| == 8 * (|good| - HEAD);
  }

  /** The common case: anything at all happening to two neighbouring payload bytes. */
  lemma AdjacentDamageIsRejected(store: seq<Byte>, good: Message, bad: Message, i: nat,
                                 rsplen: nat, io: Io, junk: seq<Byte>)
    requires |junk| == rsplen + 2 >= SP15_SIZE + 2
    requires Intact(good) && |good| == |bad| && Payload(good) != Payload(bad)
    requires good[..HEAD] == bad[..HEAD] && Trailer(good) == Trailer(bad)
    requires forall j :: 0 <= j < |Payload(good)| && j != i && j != i + 1 ==> Payload(good)[j] == Payload(bad)[j]
    requires i + 1 < |Payload(good)|
    ensures Serve(store, bad, rsplen, io, junk) == (store, None)
  {
    var p, q := good[HEAD..], bad[HEAD..];
    SameTrailer(good, bad);
    assert forall j :: 0 <= j < |Payload(good)| ==> p[j] == Payload(good)[j] && q[j] == Payload(bad)[j];
    var j :| 0 <= j < |Payload(good)| && Payload(good)[j] != Payload(bad)[j];
    assert p[j] != q[j];
    E.AdjacentBytesAreABurst(p, q, i);
    DamageIsRejected(store, good, bad, rsplen, io, junk);
  }

  lemma SameTrailer(good: Message, bad: Message)
    requires |good| == |bad| && Trailer(good) == Trailer(bad)
    ensures good[|good| - 2] == bad[|bad| - 2] && good[|good| - 1] == bad[|bad| - 1]
  {
    var n := |good|;
    BytesRoundTrip(good[n - 2], good[n - 1]);
    BytesRoundTrip(bad[n - 2], bad[n - 1]);
    hide U16, LE16;
    assert [good[n - 2], good[n - 1]][0] == [bad[n - 2], bad[n - 1]][0];
    assert [good[n - 2], good[n - 1]][1] == [bad[n - 2], bad[n - 1]][1];
  }

  // ----- Replies ----------------------------------------------------------------------------------

  lemma HeadFields(m: seq<Byte>, len: nat, subtype: Byte)
    requires |m| >= HEAD && len < 0x1_0000
    ensures Head(m, len, subtype)[4..6] == Count16(len) && Head(m, len, subtype)[7] == subtype
  {}

  /** Every sealed reply is an intact message: it passes the check that requests are put to, and its
      length field counts it. */
  lemma SealedReplyIsIntact(m: Message, record: seq<Byte>)
    requires |record| <= SP15_SIZE
    ensures var reply: Message := SealWith(m, record);
      Intact(reply) && Payload(reply) == record && Count16At(reply, 4) == |reply| && reply[7] == MSG_ACK
  {
    var crc := C.Crc(0, record);
    var head := Head(m, HEAD + |record| + 2, MSG_ACK);
    var reply: Message := SealWith(m, record);
    hide C.Crc, U16, LE16, Count16, Count16At, Head;
    HeadFields(m, |reply|, MSG_ACK);
    hide SealWith;
    assert reply[HEAD..|reply| - 2] == record;
    assert reply[|reply| - 2..|reply| - 2 + 2] == LE16(crc);
    U16AtWithin(reply, |reply| - 2, crc);
    assert reply[4..4 + 2] == Count16(|reply|);
    Count16Within(reply, 4, |reply|);
  }

  /** In particular every reply to a read that the store served. */
  lemma ReadReplyIsIntact(store: seq<Byte>, m: Message, rsplen: nat, io: Io, junk: seq<Byte>)
    requires |junk| == rsplen + 2 >= SP15_SIZE + 2
    requires Intact(m) && m[7] & RW_MASK != 0 && Status(|store|, 0, rsplen, io) == 0
    ensures var reply := Serve(store, m, rsplen, io, junk).1;
      && reply.Some? && |reply.value| >= 10
      && Intact(reply.value) && Count16At(reply.value, 4) == |reply.value| && reply.value[7] == MSG_ACK
  {
    hide Intact, SealWith, Status, ReadAt, Patch, Count16At, Count32At, RecordSize;
    var mem := Patch(junk, 0, ReadAt(store, 0, rsplen, io));
    SealedReplyIsIntact(m, mem[..RecordSize(Count32At(mem, 0))]);
  }

  /** Every reply counts itself. */
  lemma RepliesAreCounted(store: seq<Byte>, m: Message, rsplen: nat, io: Io, junk: seq<Byte>)
    requires |junk| == rsplen + 2 >= SP15_SIZE + 2
    ensures var reply := Serve(store, m, rsplen, io, junk).1;
      reply.Some? ==> Counted(reply.value)
  {
    hide Count16, Head, SealWith, Status, ReadAt, Patch, Count16At, Count32At, RecordSize;
    var mem := Patch(junk, 0, ReadAt(store, 0, rsplen, io));
    SealedReplyIsIntact(m, mem[..RecordSize(Count32At(mem, 0))]);
    HeadCounts(m, MSG_NACK, Count16(IMEI_CMD_ERR) + Count16(0));
    HeadCounts(m, MSG_NACK, Count16(IMEI_SAVE_ERR) + Count16(0));
    HeadCounts(m, MSG_ACK, Count16(0));
    HeadCounts(m, MSG_NACK, Count16(0));
    Regroup(Head(m, 12, MSG_NACK), Count16(IMEI_CMD_ERR), Count16(0));
    Regroup(Head(m, 12, MSG_NACK), Count16(IMEI_SAVE_ERR), Count16(0));
  }

  lemma HeadCounts(m: seq<Byte>, subtype: Byte, rest: seq<Byte>)
    requires |m| >= HEAD && HEAD + |rest| < 0x1_0000
    ensures Counted(Head(m, HEAD + |rest|, subtype) + rest)
  {
    hide Count16, Count16At;
    var reply := Head(m, HEAD + |rest|, subtype) + rest;
    assert reply[4..4 + 2] == Count16(|reply|);
    Count16Within(reply, 4, |reply|);
  }

  /** An accepted write of a phase-check record, transferred at least as far as its structure, is
      what the next successful read returns: exactly the structure's bytes and their CRC. */
  lemma RecordRoundTrip(store: seq<Byte>, w: Message, r: Message, rsplen: nat, wio: Io, rio: Io,
                        junk: seq<Byte>, junk': seq<Byte>)
    requires |junk| == |junk'| == rsplen + 2 >= SP15_SIZE + 2
    requires Intact(w) && w[7] & RW_MASK == 0 && w[7] & RM_VALID_CMD_MASK != 0
    requires Intact(r) && r[7] & RW_MASK != 0
    requires |Payload(w)| >= 4 && 0 < RecordSize(Count32At(Payload(w), 0)) <= |Payload(w)|
    requires Status(|store|, 0, |Payload(w)|, wio) == 0 && Status(|store|, 0, rsplen, rio) == 0
    requires RecordSize(Count32At(Payload(w), 0)) <= Moved(|store|, 0, |Payload(w)|, wio)
    requires RecordSize(Count32At(Payload(w), 0)) <= Moved(|store|, 0, rsplen, rio)
    ensures var after := Serve(store, w, rsplen, wio, junk).0;
      Serve(after, r, rsplen, rio, junk').1
      == Some(SealWith(r, Payload(w)[..RecordSize(Count32At(Payload(w), 0))]))
  {
    hide Intact, Head, SealWith, Payload, Count32At, Count16;
    var p := Payload(w);
    var size := RecordSize(Count32At(p, 0));
    var k := Moved(|store|, 0, |p|, wio);
    var after := Serve(store, w, rsplen, wio, junk).0;
    assert after == Patch(store, 0, p[..k]);
    StoredPrefix(store, p, k, size);
    var got := ReadAt(after, 0, rsplen, rio);
    assert got == after[0..Moved(|store|, 0, rsplen, rio)];
    StoredPrefix(junk', got, |got|, size);
    var mem := Patch(junk', 0, got);
    assert got[..|got|] == got;
    assert mem[..size] == got[..size] == after[..size] == p[..size];
    assert mem[..4] == mem[..size][..4] && p[..4] == p[..size][..4];
    SameMagic(mem, p);
  }

  lemma StoredPrefix(store: seq<Byte>, data: seq<Byte>, k: nat, size: nat)
    requires size <= k <= |data| && k <= |store|
    ensures Patch(store, 0, data[..k])[..size] == data[..size]
  {}

  lemma SameMagic(s: seq<Byte>, t: seq<Byte>)
    requires |s| >= 4 && |t| >= 4 && s[..4] == t[..4]
    ensures Count32At(s, 0) == Count32At(t, 0)
  {
    assert forall i :: 0 <= i < 4 ==> s[i] == s[..4][i] && t[i] == t[..4][i];
  }
}
