/** What chunkStreamReader makes of the bytes it is given, as functions over values. */
module ReaderSpec {
  import opened Bytes
  import opened Defines
  import opened HeaderSpec

  datatype InMessage = InMessage(
    csid: uint32, typ: byte, streamId: uint32, timestamp: uint32, absolute: uint32, size: uint32, buf: bytes)
  {
    /** `Remain`, in `uint32` arithmetic. */
    function Remain(): uint32 {
      Wrap32(size - |buf|)
    }
  }

  datatype InStream = InStream(last: Option<ChunkHeader>, lastAbsolute: uint32, current: Option<InMessage>)

  const FRESH_IN := InStream(None, 0, None)

  datatype Reader = Reader(chunkSize: uint32, windowSize: uint32, streams: map<uint32, InStream>) {
    function Stream(csid: uint32): InStream {
      if csid in streams then streams[csid] else FRESH_IN
    }
  }

  const FRESH_READER := Reader(DEFAULT_CHUNK_SIZE, DEFAULT_WINDOW_SIZE, map[])

  // ----- One chunk on one chunk stream -----

  /** The inheritance rules: the completed header and the stream's new absolute timestamp. */
  function Resolve(s: InStream, h: ChunkHeader): Option<(ChunkHeader, uint32)> {
    if h.fmt == Full then Some((h, h.timestamp)) else
    if s.last.None? then None else
    var last := s.last.value;
    match h.fmt
    case SameStream =>
      Some((h.(streamId := last.streamId), Wrap32(s.lastAbsolute + h.timestamp)))
    case SameLengthAndStream =>
      Some((h.(streamId := last.streamId, length := last.length, typ := last.typ),
            Wrap32(s.lastAbsolute + h.timestamp)))
    case Continuation =>
      Some((h.(streamId := last.streamId, length := last.length, typ := last.typ, timestamp := last.timestamp),
            s.lastAbsolute))
  }

  function NewMessage(csid: uint32, h: ChunkHeader, absolute: uint32): InMessage {
    InMessage(csid, h.typ, h.streamId, RealTimestamp(h), absolute, h.length, [])
  }

  datatype StreamRead = Took(n: nat, stream: InStream, out: Option<InMessage>) | StreamEof | StreamInvalid

  /** The message a chunk with completed header `h` belongs to. */
  function Target(s: InStream, h: ChunkHeader, absolute: uint32): InMessage {
    if h.fmt == Continuation && s.current.Some? then s.current.value else NewMessage(h.csid, h, absolute)
  }

  /** The chunk payload, once the header has been read as `wire`. */
  function ReadBody(s: InStream, chunkSize: uint32, wire: ChunkHeader, body: bytes): (r: StreamRead)
    ensures r.Took? ==> r.n <= |body|
  {
    match Resolve(s, wire)
    case None => StreamInvalid
    case Some((h, absolute)) =>
      var m := Target(s, h, absolute);
      var k := Min(m.Remain(), chunkSize);
      if |body| < k then StreamEof else
      var m' := m.(buf := m.buf + body[..k]);
      if m.Remain() <= chunkSize then Took(k, InStream(Some(h), absolute, None), Some(m'))
      else Took(k, InStream(Some(h), absolute, Some(m')), None)
  }

  function ReadStream(s: InStream, chunkSize: uint32, fmt: Format, csid: uint32, input: bytes): (r: StreamRead)
    ensures r.Took? ==> r.n <= |input|
  {
    match DecodeFields(ZERO_HEADER, input, fmt, csid, s.last)
    case Short => StreamEof
    case Parsed(wire, n) =>
      match ReadBody(s, chunkSize, wire, input[n..])
      case StreamEof => StreamEof
      case StreamInvalid => StreamInvalid
      case Took(k, s', out) => Took(n + k, s', out)
  }

  // ----- One chunk -----

  /** Does `handleMessage` look into the payload of this message? */
  predicate IsControl(m: InMessage, typ: byte) {
    m.csid == CS_ID_PROTOCOL_CONTROL && m.typ == typ
  }

  /** `handleMessage`; it panics on a control payload of fewer than four bytes. */
  function Handle(r: Reader, m: InMessage): Option<Reader> {
    if IsControl(m, SET_CHUNK_SIZE) then
      if |m.buf| < 4 then None else Some(r.(chunkSize := BE32(m.buf)))
    else if IsControl(m, WINDOW_ACKNOWLEDGEMENT_SIZE) then
      if |m.buf| < 4 then None else Some(r.(windowSize := BE32(m.buf)))
    else Some(r)
  }

  /** How many bytes of a chunk that cannot be read are counted, from its message header on. */
  function StreamPartial(s: InStream, fmt: Format, csid: uint32, input: bytes): (n: nat)
    ensures n <= |input|
  {
    match DecodeFields(ZERO_HEADER, input, fmt, csid, s.last)
    case Short => 0
    case Parsed(wire, n) => if Resolve(s, wire).None? then n else |input|
  }

  datatype ChunkRead = Got(n: nat, reader: Reader, out: Option<InMessage>) | Eof | Invalid | ReadPanic

  function WithStream(r: Reader, csid: uint32, s: InStream): Reader {
    r.(streams := r.streams[csid := s])
  }

  /** The reader once `n` bytes have been read on chunk stream `csid`. */
  function Finish(r: Reader, csid: uint32, n: nat, t: StreamRead): ChunkRead {
    match t
    case StreamEof => Eof
    case StreamInvalid => Invalid
    case Took(k, s, out) =>
      var r' := WithStream(r, csid, s);
      if out.None? then Got(n + k, r', None) else
      match Handle(r', out.value)
      case None => ReadPanic
      case Some(r'') => Got(n + k, r'', out)
  }

  function ReadChunk(r: Reader, input: bytes): (c: ChunkRead)
    ensures c.Got? ==> 0 < c.n <= |input|
  {
    match DecodeBase(input)
    case Short => Eof
    case Parsed((fmt, csid), n) =>
      Finish(r, csid, n, ReadStream(r.Stream(csid), r.chunkSize, fmt, csid, input[n..]))
  }

  /** The same from the start of the chunk. */
  function Partial(r: Reader, input: bytes): (n: nat)
    ensures n <= |input|
  {
    match DecodeBase(input)
    case Short => |input|
    case Parsed((fmt, csid), n) => n + StreamPartial(r.Stream(csid), fmt, csid, input[n..])
  }

  // ----- ReadFrom -----

  /** Messages delivered in order, the final state, the bytes consumed and what ended the run. */
  datatype ReadRun = ReadRun(out: seq<InMessage>, reader: Reader, used: nat, stop: ChunkRead)

  function Prefixed(out: seq<InMessage>, n: nat, run: ReadRun): ReadRun {
    run.(out := out + run.out, used := n + run.used)
  }

  function ReadAll(r: Reader, input: bytes): (run: ReadRun)
    ensures run.used <= |input| && !run.stop.Got?
    decreases |input|
  {
    var c := ReadChunk(r, input);
    if c.Got? then Prefixed(OptionSeq(c.out), c.n, ReadAll(c.reader, input[c.n..]))
    else ReadRun([], r, 0, c)
  }

  /** The bytes counted in a whole run, those of the chunk that could not be read included. */
  function Counted(r: Reader, input: bytes): nat {
    var run := ReadAll(r, input);
    run.used + Partial(run.reader, input[run.used..])
  }

  lemma CountedStep(r: Reader, input: bytes)
    ensures var c := ReadChunk(r, input);
            Counted(r, input) == if c.Got? then c.n + Counted(c.reader, input[c.n..]) else Partial(r, input)
  {
    hide ReadChunk, Partial;
    var c := ReadChunk(r, input);
    if c.Got? {
      var later := ReadAll(c.reader, input[c.n..]);
      assert input[c.n..][later.used..] == input[c.n + later.used..];
    } else {
      assert input[0..] == input;
    }
  }

  /**
   * The count at the end of the input: all of it, but for a message header that breaks off, of which
   * nothing is counted; that is less than 15 bytes.
   */
  lemma CountedAtEof(r: Reader, input: bytes)
    requires ReadAll(r, input).stop == Eof
    ensures var run := ReadAll(r, input);
            var p := DecodeBase(input[run.used..]);
            var cut := p.Parsed? && var (fmt, csid) := p.value;
              DecodeFields(ZERO_HEADER, input[run.used + p.n..], fmt, csid, run.reader.Stream(csid).last).Short?;
            && Counted(r, input) == (if cut then run.used + p.n else |input|)
            && |input| - 15 < Counted(r, input) <= |input|
  {
    hide DecodeBase, DecodeFields, ReadAll, Fill;
    var run := ReadAll(r, input);
    StoppedAt(r, input);
    var tail := input[run.used..];
    var p := DecodeBase(tail);
    if p.Parsed? {
      assert tail[p.n..] == input[run.used + p.n..];
      ShortFields(tail[p.n..], p.value.0, p.value.1, run.reader.Stream(p.value.1).last);
    }
  }

  lemma ShortFields(s: bytes, fmt: Format, csid: uint32, last: Option<ChunkHeader>)
    ensures DecodeFields(ZERO_HEADER, s, fmt, csid, last).Short? ==> |s| < 15
  {
    hide Fill;
  }

  /** The run stops because of the chunk at which it stops. */
  lemma {:induction false} StoppedAt(r: Reader, input: bytes)
    ensures var run := ReadAll(r, input); ReadChunk(run.reader, input[run.used..]) == run.stop
    decreases |input|
  {
    hide ReadChunk;
    var c := ReadChunk(r, input);
    if c.Got? {
      StoppedAt(c.reader, input[c.n..]);
      var later := ReadAll(c.reader, input[c.n..]);
      assert input[c.n..][later.used..] == input[c.n + later.used..];
    } else {
      assert input[0..] == input;
    }
  }

  lemma NothingToRead(r: Reader)
    ensures ReadAll(r, []) == ReadRun([], r, 0, Eof)
  {
  }

  // ----- Reassembly -----

  /** A partial message agrees with the last header and is strictly shorter than its size. */
  predicate Consistent(s: InStream) {
    s.current.Some? ==>
      && s.last.Some?
      && s.current.value.size == s.last.value.length
      && s.current.value.typ == s.last.value.typ
      && s.current.value.streamId == s.last.value.streamId
      && |s.current.value.buf| < s.current.value.size
  }

  predicate ReaderConsistent(r: Reader) {
    forall csid <- r.streams :: Consistent(r.streams[csid])
  }

  lemma ReadStreamConsistent(s: InStream, chunkSize: uint32, fmt: Format, csid: uint32, input: bytes)
    requires Consistent(s)
    requires ReadStream(s, chunkSize, fmt, csid, input).Took?
    ensures var t := ReadStream(s, chunkSize, fmt, csid, input);
            Consistent(t.stream) && (t.out.Some? ==> |t.out.value.buf| == t.out.value.size)
    ensures s.current.Some? ==> 0 < s.current.value.Remain() == s.current.value.size - |s.current.value.buf|
  {
    var wire := DecodeFields(ZERO_HEADER, input, fmt, csid, s.last).value;
    var (h, absolute) := Resolve(s, wire).value;
    var m := Target(s, h, absolute);
    assert m.size == h.length && m.typ == h.typ && m.streamId == h.streamId;
    assert m.Remain() == m.size - |m.buf|;
  }

  /** The invariant holds at every chunk boundary, and only complete messages are delivered. */
  lemma ReadChunkConsistent(r: Reader, input: bytes)
    requires ReaderConsistent(r) && ReadChunk(r, input).Got?
    ensures ReaderConsistent(ReadChunk(r, input).reader)
    ensures var out := ReadChunk(r, input).out; out.Some? ==> |out.value.buf| == out.value.size
  {
    var p := DecodeBase(input);
    ReadStreamConsistent(r.Stream(p.value.1), r.chunkSize, p.value.0, p.value.1, input[p.n..]);
  }

  lemma {:induction false} ReadAllConsistent(r: Reader, input: bytes)
    requires ReaderConsistent(r)
    ensures ReaderConsistent(ReadAll(r, input).reader)
    ensures forall m <- ReadAll(r, input).out :: |m.buf| == m.size
    decreases |input|
  {
    var c := ReadChunk(r, input);
    if c.Got? {
      ReadChunkConsistent(r, input);
      ReadAllConsistent(c.reader, input[c.n..]);
    }
  }

  lemma BodyAdvances(s: InStream, chunkSize: uint32, wire: ChunkHeader, body: bytes)
    requires Consistent(s) && ReadBody(s, chunkSize, wire, body).Took?
    ensures var t := ReadBody(s, chunkSize, wire, body);
            && (t.out.Some? <==> t.stream.current.None?)
            && var m := if t.out.Some? then t.out.value else t.stream.current.value;
            Advances(s.current, wire.fmt, chunkSize, m, body[..t.n]) && (t.out.Some? <==> |m.buf| == m.size)
  {
    var (h, absolute) := Resolve(s, wire).value;
    var m := Target(s, h, absolute);
    assert m.Remain() == m.size - |m.buf|;
    assert Resolve(s, wire).value.0.fmt == wire.fmt;
  }

  /** Bytes before the payload do not matter. */
  lemma AdvancesBehind(before: Option<InMessage>, fmt: Format, chunkSize: uint32, m: InMessage, a: bytes, b: bytes)
    requires Advances(before, fmt, chunkSize, m, b)
    ensures Advances(before, fmt, chunkSize, m, a + b)
  {
    var held := if fmt == Continuation && before.Some? then before.value.buf else [];
    var k := Min(m.size - |held|, chunkSize);
    assert (a + b)[|a + b| - k..] == b[|b| - k..];
  }

  lemma StreamAdvances(s: InStream, chunkSize: uint32, fmt: Format, csid: uint32, input: bytes)
    requires Consistent(s)
    requires ReadStream(s, chunkSize, fmt, csid, input).Took?
    ensures var t := ReadStream(s, chunkSize, fmt, csid, input);
            && (t.out.Some? <==> t.stream.current.None?)
            && var m := if t.out.Some? then t.out.value else t.stream.current.value;
            Advances(s.current, fmt, chunkSize, m, input[..t.n]) && (t.out.Some? <==> |m.buf| == m.size)
  {
    hide DecodeFields, ReadBody, Advances, Consistent;
    var p := DecodeFields(ZERO_HEADER, input, fmt, csid, s.last);
    WireFormat(input, fmt, csid, s.last);
    BodyAdvances(s, chunkSize, p.value, input[p.n..]);
    var t := ReadBody(s, chunkSize, p.value, input[p.n..]);
    var m := if t.out.Some? then t.out.value else t.stream.current.value;
    AdvancesBehind(s.current, fmt, chunkSize, m, input[..p.n], input[p.n..][..t.n]);
    assert input[..p.n] + input[p.n..][..t.n] == input[..p.n + t.n];
  }

  lemma WireFormat(input: bytes, fmt: Format, csid: uint32, last: Option<ChunkHeader>)
    requires DecodeFields(ZERO_HEADER, input, fmt, csid, last).Parsed?
    ensures DecodeFields(ZERO_HEADER, input, fmt, csid, last).value.fmt == fmt
  {
  }

  /** `m` is what was under way and the last bytes of `chunk`; but a chunk of type 0 to 2 begins a message. */
  predicate Advances(before: Option<InMessage>, fmt: Format, chunkSize: uint32, m: InMessage, chunk: bytes) {
    var held := if fmt == Continuation && before.Some? then before.value.buf else [];
    |held| <= m.size
    && var k := Min(m.size - |held|, chunkSize);
    k <= |chunk| && m.buf == held + chunk[|chunk| - k..]
  }

  /**
   * What one chunk does, from any consistent state: its payload is appended to the message under
   * way, or begins one, dropping what was under way, if it is not of type 3; the message is
   * delivered with the chunk that completes it.
   */
  lemma ChunkAdvances(r: Reader, input: bytes)
    requires ReaderConsistent(r) && ReadChunk(r, input).Got?
    ensures DecodeBase(input).Parsed?
    ensures var c := ReadChunk(r, input);
            var (fmt, csid) := DecodeBase(input).value;
            var after := c.reader.Stream(csid).current;
            && (c.out.Some? <==> after.None?)
            && var m := if c.out.Some? then c.out.value else after.value;
            Advances(r.Stream(csid).current, fmt, r.chunkSize, m, input[..c.n]) && (c.out.Some? <==> |m.buf| == m.size)
  {
    hide DecodeBase, ReadStream, Consistent, Advances;
    var p := DecodeBase(input);
    var (fmt, csid) := p.value;
    assert Consistent(r.Stream(csid)) by { FreshConsistent(); }
    var t := ReadStream(r.Stream(csid), r.chunkSize, fmt, csid, input[p.n..]);
    StreamAdvances(r.Stream(csid), r.chunkSize, fmt, csid, input[p.n..]);
    var m := if t.out.Some? then t.out.value else t.stream.current.value;
    AdvancesBehind(r.Stream(csid).current, fmt, r.chunkSize, m, input[..p.n], input[p.n..][..t.n]);
    assert input[..p.n] + input[p.n..][..t.n] == input[..p.n + t.n];
  }

  lemma FreshConsistent()
    ensures Consistent(FRESH_IN)
  {
  }

  /** A chunk is invalid exactly if it has nothing to inherit from: on a new chunk stream and not of type 0. */
  lemma InvalidExactly(r: Reader, input: bytes)
    ensures ReadChunk(r, input) == Invalid <==>
      && DecodeBase(input).Parsed?
      && var (fmt, csid) := DecodeBase(input).value;
      && fmt != Full && r.Stream(csid).last.None?
      && DecodeFields(ZERO_HEADER, input[DecodeBase(input).n..], fmt, csid, None).Parsed?
  {
    hide DecodeBase, DecodeFields;
    var p := DecodeBase(input);
    if p.Parsed? && DecodeFields(ZERO_HEADER, input[p.n..], p.value.0, p.value.1, r.Stream(p.value.1).last).Parsed? {
      WireFormat(input[p.n..], p.value.0, p.value.1, r.Stream(p.value.1).last);
    }
  }
}
