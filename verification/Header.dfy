/** The header object of header.go. */
module HeaderCodec {
  import opened Bytes
  import opened Defines
  import opened HeaderSpec
  import opened ByteStreams

  method ReadBaseHeader(rbuf: ByteSource) returns (n: nat, fmt: Format, csi: uint32, ok: bool)
    modifies rbuf
    ensures match DecodeBase(old(rbuf.input))
            case Short => !ok && n == |old(rbuf.input)|
            case Parsed(value, k) => ok && (fmt, csi) == value && n == k && rbuf.input == old(rbuf.input)[k..]
  {
    n, fmt, csi := 0, Full, 0;
    var b;
    ok, b := rbuf.ReadByte();
    if !ok {
      return;
    }
    n := 1;
    fmt := FormatOf(b / 64);
    b := b % 64;
    if b == 0 {
      ok, b := rbuf.ReadByte();
      if !ok {
        return;
      }
      n := n + 1;
      csi := 64 + b as int;
    } else if b == 1 {
      ok, b := rbuf.ReadByte();
      if !ok {
        return;
      }
      n := n + 1;
      csi := 64 + b as int;
      ok, b := rbuf.ReadByte();
      if !ok {
        return;
      }
      n := n + 1;
      csi := csi + b as int * 256;
    } else {
      csi := b;
    }
  }

  class Header {
    var fmt: Format
    var chunkStreamID: uint32
    var timestamp: uint32
    var messageLength: uint32
    var messageTypeID: byte
    var messageStreamID: uint32
    var extendedTimestamp: uint32

    /** A zeroed header. */
    constructor ()
      ensures Value() == ZERO_HEADER
    {
      fmt, chunkStreamID, timestamp, messageLength := Full, 0, 0, 0;
      messageTypeID, messageStreamID, extendedTimestamp := 0, 0, 0;
    }

    function Value(): ChunkHeader
      reads this
    {
      ChunkHeader(fmt, chunkStreamID, timestamp, messageLength, messageTypeID, messageStreamID, extendedTimestamp)
    }

    /** Reads three bytes as a big-endian number. */
    static method Read24(rbuf: ByteSource) returns (v: uint32, ok: bool)
      modifies rbuf
      ensures ok == (|old(rbuf.input)| >= 3)
      ensures ok ==> v == BE24(old(rbuf.input)) && rbuf.input == old(rbuf.input)[3..]
    {
      var tmpBuf;
      v := 0;
      ok, tmpBuf := rbuf.ReadFull(3);
      if ok {
        v := BE32([0] + tmpBuf);
      }
    }

    /** The fixed fields of this header's format. */
    method ReadFixedFields(rbuf: ByteSource) returns (n: nat, ok: bool)
      modifies this, rbuf
      ensures fmt == old(fmt) && chunkStreamID == old(chunkStreamID)
      ensures ok == (|old(rbuf.input)| >= FieldBytes(fmt)) && n == WholeFields(fmt, |old(rbuf.input)|)
      ensures ok ==>
                && rbuf.input == old(rbuf.input)[n..]
                && Value() == Fill(old(Value()), old(rbuf.input), fmt, old(chunkStreamID))
    {
      n, ok := 0, true;
      var b, s;
      if fmt == Continuation {
        return;
      }
      timestamp, ok := Read24(rbuf);
      if !ok {
        return;
      }
      n := n + 3;
      if fmt == SameLengthAndStream {
        return;
      }
      messageLength, ok := Read24(rbuf);
      if !ok {
        return;
      }
      n := n + 3;
      ok, b := rbuf.ReadByte();
      if !ok {
        return;
      }
      n := n + 1;
      messageTypeID := b;
      if fmt == SameStream {
        return;
      }
      ok, s := rbuf.ReadFull(4);
      if !ok {
        return;
      }
      n := n + 4;
      assert s == old(rbuf.input)[7..][..4];
      messageStreamID := LE32(s);
    }

    method ReadHeader(rbuf: ByteSource, vfmt: Format, csi: uint32, lastheader: Header?) returns (n: nat, ok: bool)
      requires lastheader != this
      modifies this, rbuf
      ensures fmt == vfmt && chunkStreamID == csi
      ensures var last := if lastheader == null then None else Some(lastheader.Value());
              match DecodeFields(old(Value()), old(rbuf.input), vfmt, csi, last)
              case Short => !ok && n == WholeFields(vfmt, |old(rbuf.input)|)
              case Parsed(h, k) => ok && Value() == h && n == k && rbuf.input == old(rbuf.input)[k..]
    {
      fmt := vfmt;
      chunkStreamID := csi;
      n, ok := ReadFixedFields(rbuf);
      if !ok {
        return;
      }
      assert Value() == Fill(old(Value()), old(rbuf.input), vfmt, csi);
      if (fmt != Continuation && timestamp >= EXTENDED)
         || (fmt == Continuation && lastheader != null && lastheader.extendedTimestamp > 0) {
        var s;
        ok, s := rbuf.ReadFull(4);
        if !ok {
          return;
        }
        extendedTimestamp := BE32(s);
        assert s == old(rbuf.input)[n..][..4];
        n := n + 4;
      } else {
        extendedTimestamp := 0;
      }
    }

    /** The basic header; an id without a wire form is an error and writes nothing. */
    method WriteBaseHeader(wbuf: ByteSink) returns (n: nat, ok: bool)
      modifies wbuf
      ensures ok == (chunkStreamID <= MAX_CSID)
      ensures ok ==> wbuf.output == old(wbuf.output) + EncodeBase(fmt, chunkStreamID)
      ensures ok ==> n == |EncodeBase(fmt, chunkStreamID)|
      ensures !ok ==> wbuf.output == old(wbuf.output) && n == 0
    {
      n, ok := 0, true;
      var top := Code(fmt) * 64;
      if chunkStreamID <= 63 {
        wbuf.WriteByte(top + chunkStreamID);
        n := n + 1;
      } else if chunkStreamID <= 319 {
        wbuf.WriteByte(top);
        n := n + 1;
        wbuf.WriteByte(chunkStreamID - 64);
        n := n + 1;
      } else if chunkStreamID <= 65599 {
        wbuf.WriteByte(top + 1);
        n := n + 1;
        var m := wbuf.Write([(chunkStreamID - 64) / 0x100, (chunkStreamID - 64) % 0x100]);
        n := n + 2;
      } else {
        ok := false;
      }
    }

    /** The fixed fields of this header's format. */
    method WriteFixedFields(wbuf: ByteSink) returns (n: nat)
      modifies wbuf
      ensures wbuf.output == old(wbuf.output) + FixedFields(Value()) && n == FieldBytes(fmt)
    {
      n := 0;
      if fmt == Continuation {
        return;
      }
      var m := wbuf.Write(PutBE24(timestamp));
      n := n + m;
      if fmt == SameLengthAndStream {
        return;
      }
      m := wbuf.Write(PutBE24(messageLength));
      n := n + m;
      wbuf.WriteByte(messageTypeID);
      n := n + 1;
      if fmt == SameStream {
        return;
      }
      m := wbuf.Write(PutLE32(messageStreamID));
      n := n + 4;
    }

    method Write(wbuf: ByteSink) returns (n: nat, ok: bool)
      modifies wbuf
      ensures ok == (chunkStreamID <= MAX_CSID)
      ensures ok ==> wbuf.output == old(wbuf.output) + Encode(Value()) && n == |Encode(Value())|
      ensures !ok ==> wbuf.output == old(wbuf.output) && n == 0
    {
      hide FixedFields, EncodeBase, PutBE32;
      n, ok := WriteBaseHeader(wbuf);
      if !ok {
        return;
      }
      var m := WriteFixedFields(wbuf);
      n := n + m;
      if fmt == Continuation {
        assert EncodeFields(Value()) == FixedFields(Value());
        return;
      }
      assert wbuf.output == old(wbuf.output) + (EncodeBase(fmt, chunkStreamID) + FixedFields(Value()));
      if timestamp >= EXTENDED {
        m := wbuf.Write(PutBE32(extendedTimestamp));
        n := n + m;
      }
    }

    method RealTimestamp() returns (t: uint32)
      ensures t == HeaderSpec.RealTimestamp(Value())
    {
      if timestamp >= EXTENDED {
        return extendedTimestamp;
      }
      return timestamp;
    }
  }
}
