/** modules/libmiscdata/miscdata.c: the misc partition as a byte store, reached by seek-and-transfer
    or, on NAND, by reading, patching and rewriting the whole image. */
module MiscStore {
  import opened Bytes

  const NAND_FILESIZE: nat := 1024 * 1024

  /** What the operating system answers: the path property, open, lseek, malloc, and the value
      returned by the one read or write. */
  datatype Io = Io(prop: bool, open: bool, seek: bool, alloc: bool, moved: int)

  /** Bytes really transferred at an offset: never more than asked for or than there are. */
  function Moved(size: nat, offset: nat, n: nat, io: Io): (k: nat)
    ensures k <= n && (k > 0 ==> offset + k <= size)
  {
    if io.moved <= 0 || size <= offset then 0
    else Min(Min(io.moved, n), size - offset)
  }

  // ----- Seek and transfer ----------------------------------------------------------------------

  /** The return code of a transfer of n bytes at an offset. */
  function Status(size: nat, offset: int, n: nat, io: Io): int {
    if !io.prop then -1
    else if !io.open then -3
    else if offset < 0 || !io.seek then -4
    else if Moved(size, offset, n, io) == 0 then -2
    else 0
  }

  /** The bytes a read puts into the caller's buffer; none unless it returns 0. */
  function ReadAt(store: seq<Byte>, offset: int, n: nat, io: Io): (got: seq<Byte>)
    ensures |got| <= n
  {
    if Status(|store|, offset, n, io) != 0 then []
    else store[offset..offset + Moved(|store|, offset, n, io)]
  }

  function WriteAt(store: seq<Byte>, offset: int, data: seq<Byte>, io: Io): (after: seq<Byte>)
    ensures |after| == |store|
  {
    if Status(|store|, offset, |data|, io) != 0 then store
    else Patch(store, offset, data[..Moved(|store|, offset, |data|, io)])
  }

  // ----- Whole-image access on NAND -------------------------------------------------------------

  /** The image in memory after reading: the buffer was zeroed, a short read leaves zeros behind. */
  function Image(store: seq<Byte>, io: Io): (image: seq<Byte>)
    requires |store| == NAND_FILESIZE
    ensures |image| == NAND_FILESIZE
  {
    var k := Moved(|store|, 0, |store|, io);
    store[..k] + Zeros(|store| - k)
  }

  function Zeros(n: nat): (z: seq<Byte>)
    ensures |z| == n && forall i :: 0 <= i < n ==> z[i] == 0
  {
    seq(n, _ => 0)
  }

  function NandReadStatus(store: seq<Byte>, io: Io): int {
    if !io.prop then -1
    else if !io.alloc then -3
    else if !io.open then -3
    else if Moved(|store|, 0, |store|, io) == 0 then -2
    else 0
  }

  /** Status and data of a read of n bytes. */
  function NandRead(store: seq<Byte>, offset: nat, n: nat, io: Io): (r: (int, seq<Byte>))
    requires |store| == NAND_FILESIZE && offset + n <= NAND_FILESIZE
  {
    if NandReadStatus(store, io) != 0 then (NandReadStatus(store, io), [])
    else (0, Image(store, io)[offset..offset + n])
  }

  /** Status and store after the write. Starting the volume update erases it, so a write that does
      not complete leaves whatever `ruined` is. */
  function NandWrite(store: seq<Byte>, offset: nat, data: seq<Byte>, rio: Io, wio: Io,
                     ruined: seq<Byte>): (r: (int, seq<Byte>))
    requires |store| == NAND_FILESIZE == |ruined| && offset + |data| <= NAND_FILESIZE
    ensures |r.1| == NAND_FILESIZE
  {
    if !rio.prop then (-1, store)
    else if !rio.alloc then (-3, store)
    else if NandReadStatus(store, rio) != 0 then (-4, store)
    else if !wio.prop then (-1, store)
    else if !wio.open then (-3, store)
    else if Moved(|store|, 0, |store|, wio) == 0 then (-2, ruined)
    else if Moved(|store|, 0, |store|, wio) < |store| then (0, ruined)
    else (0, Patch(Image(store, rio), offset, data))
  }

  // ----- The code -------------------------------------------------------------------------------

  class MiscData {
    var data: seq<Byte>

    constructor (image: seq<Byte>)
      ensures data == image
    {
      data := image;
    }

    method ReadWithOffset(offset: int, databuf: array<Byte>, at: nat, n: nat, io: Io) returns (ret: int)
      requires at + n <= databuf.Length
      modifies databuf
      ensures ret == Status(|data|, offset, n, io)
      ensures databuf[..] == Patch(old(databuf[..]), at, ReadAt(data, offset, n, io))
    {
      ret := 0;
      if !io.prop {
        return -1;
      }
      if io.open {
        if offset < 0 || !io.seek {
          ret := -4;
          return ret;
        }
        var len := Moved(|data|, offset, n, io);
        if len > 0 {
          Store(databuf, at, data[offset..offset + len]);
        }
        if len <= 0 {
          ret := -2;
        }
      } else {
        ret := -3;
      }
    }

    method WriteWithOffset(offset: int, databuf: array<Byte>, at: nat, n: nat, io: Io) returns (ret: int)
      requires at + n <= databuf.Length
      modifies this
      ensures ret == Status(old(|data|), offset, n, io)
      ensures data == WriteAt(old(data), offset, databuf[at..at + n], io)
    {
      ret := 0;
      if !io.prop {
        return -1;
      }
      if io.open {
        if offset < 0 || !io.seek {
          ret := -4;
          return ret;
        }
        var len := Moved(|data|, offset, n, io);
        if len > 0 {
          data := Patch(data, offset, databuf[at..at + n][..len]);
        }
        if len <= 0 {
          ret := -2;
        }
      } else {
        ret := -3;
      }
    }

    /** The NAND build: load the image and copy the part asked for. */
    method NandReadWithOffset(offset: nat, databuf: array<Byte>, at: nat, n: nat, io: Io)
      returns (ret: int)
      requires at + n <= databuf.Length
      requires |data| == NAND_FILESIZE && offset + n <= NAND_FILESIZE
      modifies databuf
      ensures ret == NandRead(data, offset, n, io).0
      ensures databuf[..] == Patch(old(databuf[..]), at, NandRead(data, offset, n, io).1)
    {
      if !io.prop {
        return -1;
      }
      if !io.alloc {
        return -3;
      }
      var buff := new Byte[NAND_FILESIZE](_ => 0);
      ret := LoadImage(buff, io);
      if ret == 0 {
        Store(databuf, at, buff[offset..offset + n]);
      }
    }

    /** The NAND build: load the image, patch it, rewrite the volume. */
    method NandWriteWithOffset(offset: nat, databuf: array<Byte>, at: nat, n: nat,
                               rio: Io, wio: Io, ruined: seq<Byte>) returns (ret: int)
      requires at + n <= databuf.Length
      requires |data| == NAND_FILESIZE == |ruined| && offset + n <= NAND_FILESIZE
      modifies this
      ensures (ret, data) == NandWrite(old(data), offset, databuf[at..at + n], rio, wio, ruined)
    {
      if !rio.prop {
        return -1;
      }
      if !rio.alloc {
        return -3;
      }
      var buff := new Byte[NAND_FILESIZE](_ => 0);
      ret := LoadImage(buff, rio);
      if ret == 0 {
        Store(buff, offset, databuf[at..at + n]);
        ret := RewriteImage(buff, wio, ruined);
      } else {
        ret := -4;
      }
    }

    method LoadImage(buff: array<Byte>, io: Io) returns (ret: int)
      requires |data| == NAND_FILESIZE == buff.Length && buff[..] == Zeros(NAND_FILESIZE)
      requires io.prop && io.alloc
      modifies buff
      ensures ret == NandReadStatus(data, io)
      ensures ret == 0 ==> buff[..] == Image(data, io)
    {
      ret := 0;
      if io.open {
        var len := Moved(|data|, 0, buff.Length, io);
        Store(buff, 0, data[..len]);
        if len <= 0 {
          ret := -2;
        }
      } else {
        ret := -3;
      }
    }

    method RewriteImage(buff: array<Byte>, io: Io, ruined: seq<Byte>) returns (ret: int)
      requires |data| == NAND_FILESIZE == buff.Length == |ruined|
      modifies this
      ensures (ret, data) == (
        if !io.prop then (-1, old(data))
        else if !io.open then (-3, old(data))
        else if Moved(buff.Length, 0, buff.Length, io) == 0 then (-2, ruined)
        else (0, if Moved(buff.Length, 0, buff.Length, io) == buff.Length then buff[..] else ruined))
    {
      ret := 0;
      if !io.prop {
        return -1;
      }
      if io.open {
        var len := Moved(|data|, 0, buff.Length, io);
        data := if len == buff.Length then buff[..] else ruined;
        if len <= 0 {
          ret := -2;
        }
      } else {
        ret := -3;
      }
    }
  }

  // ----- The two builds agree -------------------------------------------------------------------

  /** No step fails or falls short. */
  ghost predicate Complete(io: Io, n: nat) {
    io.prop && io.open && io.seek && io.alloc && io.moved >= n
  }

  /** When nothing fails both builds leave the same store. Only the status of an empty write
      differs: write() returns 0 for it, which the seeking build takes for an error. */
  lemma NandAgreesWithSeek(store: seq<Byte>, offset: nat, data: seq<Byte>, rio: Io, wio: Io, io: Io,
                           ruined: seq<Byte>)
    requires |store| == NAND_FILESIZE == |ruined| && offset + |data| <= NAND_FILESIZE
    requires Complete(rio, NAND_FILESIZE) && Complete(wio, NAND_FILESIZE) && Complete(io, |data|)
    ensures NandWrite(store, offset, data, rio, wio, ruined).1 == WriteAt(store, offset, data, io)
    ensures NandWrite(store, offset, data, rio, wio, ruined).0 == 0
    ensures NandRead(store, offset, |data|, rio).1 == ReadAt(store, offset, |data|, io)
    ensures Status(|store|, offset, |data|, io) == 0 <==> data != []
  {
    assert Image(store, rio) == store;
  }

  /** From k on, everything outside the n bytes at the offset is zero. */
  ghost predicate ZeroBeyond(store: seq<Byte>, k: nat, offset: nat, n: nat) {
    forall p :: k <= p < |store| && (p < offset || offset + n <= p) ==> store[p] == 0
  }

  /** A short image read still reports success, but only bytes it had reached or that were zero
      anyway survive outside the written range. */
  lemma ShortImageReadErases(store: seq<Byte>, offset: nat, data: seq<Byte>, rio: Io, wio: Io,
                             ruined: seq<Byte>)
    requires |store| == NAND_FILESIZE == |ruined| && offset + |data| <= NAND_FILESIZE
    requires rio.prop && rio.open && rio.alloc && Complete(wio, NAND_FILESIZE)
    requires Moved(|store|, 0, |store|, rio) > 0
    ensures NandWrite(store, offset, data, rio, wio, ruined).0 == 0
    ensures NandWrite(store, offset, data, rio, wio, ruined).1 == Patch(store, offset, data)
      <==> ZeroBeyond(store, Moved(|store|, 0, |store|, rio), offset, |data|)
  {
    var k := Moved(|store|, 0, |store|, rio);
    var image := Image(store, rio);
    var want, got := Patch(store, offset, data), Patch(image, offset, data);
    assert forall p :: 0 <= p < |store| ==> image[p] == if p < k then store[p] else 0;
    if got == want {
      forall p | k <= p < |store| && (p < offset || offset + |data| <= p)
        ensures store[p] == 0
      {
        assert got[p] == image[p] && want[p] == store[p];
      }
    }
    if ZeroBeyond(store, k, offset, |data|) {
      forall p | 0 <= p < |store|
        ensures got[p] == want[p]
      {
        if offset <= p < offset + |data| {
          assert got[p] == got[offset..offset + |data|][p - offset];
          assert want[p] == want[offset..offset + |data|][p - offset];
        }
      }
    }
  }

  /** A failed image read leaves the store alone. */
  lemma FailedImageReadIsHarmless(store: seq<Byte>, offset: nat, data: seq<Byte>, rio: Io, wio: Io,
                                  ruined: seq<Byte>)
    requires |store| == NAND_FILESIZE == |ruined| && offset + |data| <= NAND_FILESIZE
    requires NandReadStatus(store, rio) != 0
    ensures NandWrite(store, offset, data, rio, wio, ruined).1 == store
    ensures NandWrite(store, offset, data, rio, wio, ruined).0 < 0
  {}
}
