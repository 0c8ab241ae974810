/** What chunkStreamWriter puts on the wire, as functions over values. */
module WriterSpec {
  import opened Bytes
  import opened Defines
  import opened HeaderSpec

  /** An outgoing message; its `Size` field is the length of the payload. */
  datatype Message = Message(csid: uint32, typ: byte, streamId: uint32, timestamp: uint32, payload: bytes)

  datatype OutStream = OutStream(last: Option<ChunkHeader>, lastAbsolute: uint32)

  const FRESH_OUT := OutStream(None, 0)

  datatype Writer = Writer(chunkSize: uint32, streams: map<uint32, OutStream>) {
    /** A stream that has sent nothing yet need not be in the map. */
    function Stream(csid: uint32): OutStream {
      if csid in streams then streams[csid] else FRESH_OUT
    }
  }

  const FRESH_WRITER := Writer(DEFAULT_CHUNK_SIZE, map[])

  // ----- newHeader -----

  function FullHeader(m: Message): ChunkHeader {
    ChunkHeader(Full, m.csid, m.timestamp, Wrap32(|m.payload|), m.typ, m.streamId, 0)
  }

  /** The header form chosen before the 24-bit limit on timestamps is applied. */
  function CompressedHeader(os: OutStream, m: Message): ChunkHeader {
    var full := FullHeader(m);
    if os.lastAbsolute >= m.timestamp || os.last.None? then full else
    var delta := m.timestamp - os.lastAbsolute;
    var last := os.last.value;
    if m.streamId != last.streamId then full
    else if m.typ != last.typ || full.length != last.length then full.(fmt := SameStream, timestamp := delta)
    else if last.fmt != Full && last.timestamp == delta then full.(fmt := Continuation, timestamp := 0)
    else full.(fmt := SameLengthAndStream, timestamp := delta)
  }

  function ChooseHeader(os: OutStream, m: Message): ChunkHeader {
    var h := CompressedHeader(os, m);
    if h.timestamp >= EXTENDED then h.(timestamp := EXTENDED, extended := m.timestamp) else h
  }

  // ----- writeChunk and writeMessage -----

  datatype Emitted = Emitted(out: bytes, rest: bytes, chunkSize: uint32) | Panic

  /** The chunk size a chunk of a message of type `typ` leaves behind; 0 is ignored. */
  function ChunkSizeAfter(typ: byte, buf: bytes, chunkSize: uint32): uint32
    requires typ == SET_CHUNK_SIZE ==> |buf| >= 4
  {
    if typ == SET_CHUNK_SIZE && BE32(buf) != 0 then BE32(buf) else chunkSize
  }

  /** One chunk: a header and as much of the unsent payload `buf` as the chunk size allows. */
  function EmitChunk(h: ChunkHeader, typ: byte, buf: bytes, chunkSize: uint32): Emitted
    requires h.csid <= MAX_CSID
  {
    if typ == SET_CHUNK_SIZE && |buf| < 4 then Panic else
    var k := Min(|buf|, chunkSize);
    Emitted(Encode(h) + buf[..k], buf[k..], ChunkSizeAfter(typ, buf, chunkSize))
  }

  function ContinuationHeader(csid: uint32): ChunkHeader {
    ZERO_HEADER.(fmt := Continuation, csid := csid)
  }

  datatype Run = Run(out: bytes, chunkSize: uint32) | Crash

  /** All remaining chunks of a message whose first chunk has been written. */
  function Continue(csid: uint32, typ: byte, buf: bytes, chunkSize: uint32): (r: Run)
    requires csid <= MAX_CSID && chunkSize > 0
    ensures r.Run? ==> r.chunkSize > 0
    decreases |buf|
  {
    if buf == [] then Run([], chunkSize) else
    match EmitChunk(ContinuationHeader(csid), typ, buf, chunkSize)
    case Panic => Crash
    case Emitted(out, rest, size) =>
      match Continue(csid, typ, rest, size)
      case Crash => Crash
      case Run(more, size') => Run(out + more, size')
  }

  /** What is still to be written of `m` when `buf` is left, on a stream that was in state `os`. */
  function Remaining(os: OutStream, chunkSize: uint32, m: Message, buf: bytes): (r: Run)
    requires m.csid <= MAX_CSID && chunkSize > 0
    ensures r.Run? ==> r.chunkSize > 0
  {
    if buf == [] || |buf| != |m.payload| then Continue(m.csid, m.typ, buf, chunkSize) else
    match EmitChunk(ChooseHeader(os, m), m.typ, buf, chunkSize)
    case Panic => Crash
    case Emitted(out, rest, size) =>
      match Continue(m.csid, m.typ, rest, size)
      case Crash => Crash
      case Run(more, size') => Run(out + more, size')
  }

  /** All chunks of `m` on a stream in state `os`. */
  function WriteOn(os: OutStream, chunkSize: uint32, m: Message): Run
    requires m.csid <= MAX_CSID && chunkSize > 0
  {
    Remaining(os, chunkSize, m, m.payload)
  }

  /** The stream once the first chunk of `m` has been written. */
  function OutAfter(os: OutStream, m: Message): OutStream {
    OutStream(Some(ChooseHeader(os, m)), m.timestamp)
  }

  /** The next chunk, then the rest. */
  lemma RemainingStep(os: OutStream, chunkSize: uint32, m: Message, buf: bytes)
    requires m.csid <= MAX_CSID && chunkSize > 0 && 0 < |buf| <= |m.payload|
    requires Remaining(os, chunkSize, m, buf).Run?
    ensures var h := if |buf| == |m.payload| then ChooseHeader(os, m) else ContinuationHeader(m.csid);
            var e := EmitChunk(h, m.typ, buf, chunkSize);
            && (m.typ == SET_CHUNK_SIZE ==> |buf| >= 4)
            && e.Emitted? && e.chunkSize > 0 && |e.rest| < |buf|
            && var rest := Remaining(os, e.chunkSize, m, e.rest);
            && rest.Run? && Remaining(os, chunkSize, m, buf) == Run(e.out + rest.out, rest.chunkSize)
  {
  }

  lemma NothingRemaining(os: OutStream, chunkSize: uint32, m: Message)
    requires m.csid <= MAX_CSID && chunkSize > 0
    ensures Remaining(os, chunkSize, m, []) == Run([], chunkSize)
  {
  }

  datatype Wrote = Wrote(out: bytes, writer: Writer) | WriteCrash

  function WriteMessage(w: Writer, m: Message): (r: Wrote)
    requires m.csid <= MAX_CSID && w.chunkSize > 0
    ensures r.Wrote? ==> r.writer.chunkSize > 0
  {
    if m.payload == [] then Wrote([], w) else
    match WriteOn(w.Stream(m.csid), w.chunkSize, m)
    case Crash => WriteCrash
    case Run(out, size) =>
      Wrote(out, Writer(size, w.streams[m.csid := OutAfter(w.Stream(m.csid), m)]))
  }

  lemma WriteMessageOn(w: Writer, m: Message)
    requires m.csid <= MAX_CSID && w.chunkSize > 0
    ensures var r := WriteOn(w.Stream(m.csid), w.chunkSize, m);
            var after := if m.payload == [] then w.streams else w.streams[m.csid := OutAfter(w.Stream(m.csid), m)];
            WriteMessage(w, m) == if r.Run? then Wrote(r.out, Writer(r.chunkSize, after)) else WriteCrash
  {
    if m.payload == [] {
      NothingRemaining(w.Stream(m.csid), w.chunkSize, m);
    }
  }

  function WriteAll(w: Writer, ms: seq<Message>): (r: Wrote)
    requires w.chunkSize > 0 && forall m <- ms :: m.csid <= MAX_CSID
    ensures r.Wrote? ==> r.writer.chunkSize > 0
    decreases |ms|
  {
    if ms == [] then Wrote([], w) else
    match WriteMessage(w, ms[0])
    case WriteCrash => WriteCrash
    case Wrote(out, w') =>
      match WriteAll(w', ms[1..])
      case WriteCrash => WriteCrash
      case Wrote(more, w'') => Wrote(out + more, w'')
  }

  lemma {:induction false} WriteAllSnoc(w: Writer, ms: seq<Message>, m: Message)
    requires w.chunkSize > 0 && m.csid <= MAX_CSID && forall x <- ms :: x.csid <= MAX_CSID
    ensures forall x <- ms + [m] :: x.csid <= MAX_CSID
    ensures WriteAll(w, ms + [m])
         == match WriteAll(w, ms)
            case WriteCrash => WriteCrash
            case Wrote(out, w') =>
              match WriteMessage(w', m)
              case WriteCrash => WriteCrash
              case Wrote(more, w'') => Wrote(out + more, w'')
    decreases |ms|
  {
    hide WriteMessage;
    if ms == [] {
      assert [] + [m] == [m];
      assert [m][1..] == [];
    } else {
      assert (ms + [m])[1..] == ms[1..] + [m];
      match WriteMessage(w, ms[0])
      case WriteCrash =>
      case Wrote(out, w') => WriteAllSnoc(w', ms[1..], m);
    }
  }

  // ----- Chunking -----

  /** A payload cut every `size` bytes. */
  function Pieces(buf: bytes, size: nat): seq<bytes>
    requires size > 0
    decreases |buf|
  {
    if buf == [] then [] else
    var k := Min(|buf|, size);
    [buf[..k]] + Pieces(buf[k..], size)
  }

  function Flatten(pieces: seq<bytes>): bytes {
    if pieces == [] then [] else pieces[0] + Flatten(pieces[1..])
  }

  /** Every piece behind the same basic header. */
  function Framed(base: bytes, pieces: seq<bytes>): bytes {
    if pieces == [] then [] else base + pieces[0] + Framed(base, pieces[1..])
  }

  function CeilDiv(n: nat, d: nat): nat
    requires d > 0
  {
    (n + d - 1) / d
  }

  lemma CeilDivStep(n: nat, d: nat)
    requires d > 0
    ensures n > d ==> CeilDiv(n, d) == 1 + CeilDiv(n - d, d)
    ensures 0 < n <= d ==> CeilDiv(n, d) == 1
    ensures CeilDiv(0, d) == 0
  {
    if n > d {
      var q := (n - 1) / d;
      assert n - 1 == q * d + (n - 1) % d;
      assert n + d - 1 == (q + 1) * d + (n - 1) % d;
      DivUnique(n + d - 1, d, q + 1, (n - 1) % d);
    } else if n > 0 {
      DivUnique(n + d - 1, d, 1, n - 1);
    }
    DivUnique(d - 1, d, 0, d - 1);
  }

  lemma DivUnique(x: nat, d: nat, q: nat, r: nat)
    requires d > 0 && r < d && x == q * d + r
    ensures x / d == q
  {
    var q' := x / d;
    assert x == q' * d + x % d;
    if q' < q {
      MulMonotone(q' + 1, q, d);
    } else if q' > q {
      MulMonotone(q + 1, q', d);
    }
  }

  lemma MulMonotone(a: nat, b: nat, d: nat)
    requires a <= b
    ensures a * d <= b * d
  {
    assert b * d == a * d + (b - a) * d;
  }

  lemma {:induction false} PiecesJoin(buf: bytes, size: nat)
    requires size > 0
    ensures Flatten(Pieces(buf, size)) == buf
    decreases |buf|
  {
    if buf != [] {
      var k := Min(|buf|, size);
      PiecesJoin(buf[k..], size);
      assert buf == buf[..k] + buf[k..];
    }
  }

  lemma {:induction false} PiecesCount(buf: bytes, size: nat)
    requires size > 0
    ensures |Pieces(buf, size)| == CeilDiv(|buf|, size)
    decreases |buf|
  {
    hide CeilDiv;
    CeilDivStep(|buf|, size);
    if buf != [] {
      PiecesCount(buf[Min(|buf|, size)..], size);
    }
  }

  lemma {:induction false} PiecesSizes(buf: bytes, size: nat, i: nat)
    requires size > 0 && i < |Pieces(buf, size)|
    ensures 0 < |Pieces(buf, size)[i]| <= size
    ensures i < |Pieces(buf, size)| - 1 ==> |Pieces(buf, size)[i]| == size
    decreases |buf|
  {
    if i > 0 {
      PiecesSizes(buf[Min(|buf|, size)..], size, i - 1);
    }
  }

  lemma PiecesCut(buf: bytes, size: nat)
    requires size > 0
    ensures Flatten(Pieces(buf, size)) == buf
    ensures |Pieces(buf, size)| == CeilDiv(|buf|, size)
    ensures forall i | 0 <= i < |Pieces(buf, size)| - 1 :: |Pieces(buf, size)[i]| == size
    ensures forall p <- Pieces(buf, size) :: 0 < |p| <= size
  {
    hide Pieces, Flatten, CeilDiv;
    PiecesJoin(buf, size);
    PiecesCount(buf, size);
    forall i | 0 <= i < |Pieces(buf, size)|
      ensures 0 < |Pieces(buf, size)[i]| <= size
      ensures i < |Pieces(buf, size)| - 1 ==> |Pieces(buf, size)[i]| == size
    {
      PiecesSizes(buf, size, i);
    }
  }

  lemma {:induction false} FramedLength(base: bytes, pieces: seq<bytes>)
    ensures |Framed(base, pieces)| == |Flatten(pieces)| + |pieces| * |base|
  {
    if pieces != [] {
      FramedLength(base, pieces[1..]);
      assert |pieces| * |base| == |base| + (|pieces| - 1) * |base|;
    }
  }

  lemma {:induction false} ContinueIsFramed(csid: uint32, typ: byte, buf: bytes, chunkSize: uint32)
    requires csid <= MAX_CSID && chunkSize > 0 && typ != SET_CHUNK_SIZE
    ensures Continue(csid, typ, buf, chunkSize)
         == Run(Framed(EncodeBase(Continuation, csid), Pieces(buf, chunkSize)), chunkSize)
    decreases |buf|
  {
    if buf != [] {
      var k := Min(|buf|, chunkSize);
      ContinueIsFramed(csid, typ, buf[k..], chunkSize);
      var base := EncodeBase(Continuation, csid);
      assert Encode(ContinuationHeader(csid)) == base;
      assert Pieces(buf, chunkSize)[1..] == Pieces(buf[k..], chunkSize);
    }
  }

  /**
   * A message is cut into ceil(L / chunkSize) chunks, all full but the last; only the first
   * carries a message header, and the byte count follows.
   */
  lemma Chunking(w: Writer, m: Message)
    requires m.csid <= MAX_CSID && w.chunkSize > 0
    requires m.payload != [] && m.typ != SET_CHUNK_SIZE
    ensures var h := ChooseHeader(w.Stream(m.csid), m);
            var base := EncodeBase(Continuation, m.csid);
            var pieces := Pieces(m.payload, w.chunkSize);
            var chunks := CeilDiv(|m.payload|, w.chunkSize);
            && |pieces| == chunks > 0
            && Flatten(pieces) == m.payload
            && (forall i | 0 <= i < chunks - 1 :: |pieces[i]| == w.chunkSize)
            && WriteMessage(w, m).Wrote?
            && WriteMessage(w, m).out == Encode(h) + pieces[0] + Framed(base, pieces[1..])
            && |WriteMessage(w, m).out| == |m.payload| + |Encode(h)| + (chunks - 1) * |base|
            && WriteMessage(w, m).writer.chunkSize == w.chunkSize
  {
    var pieces := Pieces(m.payload, w.chunkSize);
    var k := Min(|m.payload|, w.chunkSize);
    PiecesCut(m.payload, w.chunkSize);
    ContinueIsFramed(m.csid, m.typ, m.payload[k..], w.chunkSize);
    FramedLength(EncodeBase(Continuation, m.csid), pieces[1..]);
  }
}
