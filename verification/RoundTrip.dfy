/** The reader undoes the writer: lockstep invariants and the end-to-end theorem. */
module RoundTrip {
  import opened Bytes
  import opened Defines
  import opened HeaderSpec
  import opened WriterSpec
  import opened ReaderSpec

  // ----- One chunk stream: header compression -----

  /** The two ends of a chunk stream agree on everything later headers leave out. */
  predicate StreamLockstep(os: OutStream, s: InStream) {
    os.last.Some? ==>
      && s.last.Some?
      && s.last.value.length == os.last.value.length
      && s.last.value.typ == os.last.value.typ
      && s.last.value.streamId == os.last.value.streamId
      && s.last.value.extended == os.last.value.extended
  }

  /** The inheritance rules recover from the chosen header what a full header would have said. */
  lemma HeaderExpands(os: OutStream, s: InStream, m: Message)
    requires StreamLockstep(os, s)
    requires |m.payload| < 0x100_0000
    ensures Wire(ChooseHeader(os, m)) && ChooseHeader(os, m).csid == m.csid
    ensures ChooseHeader(os, m).fmt == Continuation ==> os.last.Some?
    ensures var full := FullHeader(m);
            var e := Resolve(s, Carried(ChooseHeader(os, m)));
            e.Some? && e.value.0.length == full.length && e.value.0.typ == full.typ
            && e.value.0.streamId == full.streamId
  {
  }

  /** The headers of a history of messages on one chunk stream. */
  function Headers(os: OutStream, ms: seq<Message>): seq<ChunkHeader>
    decreases |ms|
  {
    if ms == [] then [] else [ChooseHeader(os, ms[0])] + Headers(OutAfter(os, ms[0]), ms[1..])
  }

  /** What a reader makes of headers given only the fields each of them carries. */
  function Expand(s: InStream, hs: seq<ChunkHeader>): Option<seq<ChunkHeader>>
    decreases |hs|
  {
    if hs == [] then Some([]) else
    match Resolve(s, Carried(hs[0]))
    case None => None
    case Some((h, absolute)) =>
      match Expand(InStream(Some(h), absolute, None), hs[1..])
      case None => None
      case Some(more) => Some([h] + more)
  }

  /** Agreement on the fields the message layer uses. */
  predicate SameMeaning(a: ChunkHeader, b: ChunkHeader) {
    a.length == b.length && a.typ == b.typ && a.streamId == b.streamId
  }

  /** Compressed headers mean what a type 0 header for each message would mean. */
  lemma {:induction false} CompressionRefinesFull(os: OutStream, s: InStream, ms: seq<Message>)
    requires os.last.Some? ==> s.last.Some? && SameMeaning(s.last.value, os.last.value)
    requires forall m <- ms :: |m.payload| < 0x100_0000
    ensures var e := Expand(s, Headers(os, ms));
            && e.Some? && |e.value| == |ms|
            && forall i | 0 <= i < |ms| :: SameMeaning(e.value[i], FullHeader(ms[i]))
    decreases |ms|
  {
    if ms != [] {
      var m := ms[0];
      var (h, absolute) := Resolve(s, Carried(ChooseHeader(os, m))).value;
      CompressionRefinesFull(OutAfter(os, m), InStream(Some(h), absolute, None), ms[1..]);
      var e := Expand(s, Headers(os, ms)).value;
      forall i | 0 <= i < |ms|
        ensures SameMeaning(e[i], FullHeader(ms[i]))
      {
        if i > 0 {
          assert e[i] == e[1..][i - 1] && ms[i] == ms[1..][i - 1];
        }
      }
    }
  }

  // ----- Which messages survive -----

  /** The header form `w` would start `m` with. */
  function Start(w: Writer, m: Message): ChunkHeader {
    ChooseHeader(w.Stream(m.csid), m)
  }

  /**
   * The messages `w` can send so that the reader follows. Extended timestamps survive as long as
   * no type 3 chunk comes after them; a new chunk size must travel in a single chunk.
   */
  predicate Sendable(w: Writer, m: Message) {
    && CsidSurvives(m.csid)
    && |m.payload| < 0x100_0000
    && (Start(w, m).fmt == Continuation && w.Stream(m.csid).last.Some? ==> w.Stream(m.csid).last.value.extended == 0)
    && (|m.payload| > w.chunkSize ==> Start(w, m).extended == 0)
    && (m.typ == SET_CHUNK_SIZE && m.payload != [] ==>
          m.csid == CS_ID_PROTOCOL_CONTROL && 4 <= |m.payload| <= w.chunkSize && BE32(m.payload) != 0)
    && (m.typ == WINDOW_ACKNOWLEDGEMENT_SIZE && m.csid == CS_ID_PROTOCOL_CONTROL && m.payload != [] ==>
          |m.payload| >= 4)
  }

  predicate AllSendable(w: Writer, ms: seq<Message>)
    requires w.chunkSize > 0
    decreases |ms|
  {
    ms == [] ||
    (Sendable(w, ms[0]) &&
     match WriteMessage(w, ms[0])
     case WriteCrash => false
     case Wrote(_, w') => AllSendable(w', ms[1..]))
  }

  // ----- Lockstep at message boundaries -----

  predicate Lockstep(w: Writer, r: Reader) {
    && w.chunkSize == r.chunkSize > 0
    && (forall csid <- r.streams :: r.streams[csid].current.None?)
    && forall csid <- w.streams :: StreamLockstep(w.streams[csid], r.Stream(csid))
  }

  lemma LockstepSizes(w: Writer, r: Reader)
    requires Lockstep(w, r)
    ensures w.chunkSize == r.chunkSize > 0
  {
  }

  lemma FreshLockstep()
    ensures Lockstep(FRESH_WRITER, FRESH_READER)
  {
  }

  // ----- Feeding bytes to the reader -----

  /** Whatever follows, `read` takes `chunk` as one chunk. */
  ghost predicate Takes(read: (Reader, bytes) -> ChunkRead, r: Reader, chunk: bytes,
                        r': Reader, out: Option<InMessage>) {
    forall rest: bytes {:trigger read(r, chunk + rest)} :: read(r, chunk + rest) == Got(|chunk|, r', out)
  }

  ghost predicate Consumes(r: Reader, chunk: bytes, r': Reader, out: Option<InMessage>) {
    Takes(ReadChunk, r, chunk, r', out)
  }

  /** Whatever follows, `read` goes through `b` to state `r'`, delivering `out`. */
  ghost predicate Feeds(read: (Reader, bytes) -> ReadRun, r: Reader, b: bytes, r': Reader, out: seq<InMessage>) {
    forall rest: bytes {:trigger read(r, b + rest)} :: read(r, b + rest) == Prefixed(out, |b|, read(r', rest))
  }

  ghost predicate Reads(r: Reader, b: bytes, r': Reader, out: seq<InMessage>) {
    Feeds(ReadAll, r, b, r', out)
  }

  lemma ReadsNothing(r: Reader)
    ensures Reads(r, [], r, [])
  {
    forall rest: bytes
      ensures ReadAll(r, [] + rest) == Prefixed([], 0, ReadAll(r, rest))
    {
      assert [] + rest == rest;
    }
  }

  lemma ReadsChunk(r: Reader, chunk: bytes, r': Reader, out: Option<InMessage>)
    requires Consumes(r, chunk, r', out)
    ensures Reads(r, chunk, r', OptionSeq(out))
  {
    forall rest: bytes
      ensures ReadAll(r, chunk + rest) == Prefixed(OptionSeq(out), |chunk|, ReadAll(r', rest))
    {
      assert ReadChunk(r, chunk + rest) == Got(|chunk|, r', out);
      assert (chunk + rest)[|chunk|..] == rest;
    }
  }

  /** With nothing more to come, the run ends. */
  lemma ReadsToEnd(r: Reader, b: bytes, r': Reader, out: seq<InMessage>)
    requires Reads(r, b, r', out)
    ensures ReadAll(r, b) == ReadRun(out, r', |b|, Eof)
  {
    hide ReadAll;
    assert b + [] == b;
    assert ReadAll(r, b + []) == Prefixed(out, |b|, ReadAll(r', []));
    NothingToRead(r');
    assert out + [] == out;
  }

  lemma FeedsThen(read: (Reader, bytes) -> ReadRun, r: Reader, b: bytes, r': Reader, out: seq<InMessage>,
                  b': bytes, r'': Reader, out': seq<InMessage>)
    requires Feeds(read, r, b, r', out) && Feeds(read, r', b', r'', out')
    ensures Feeds(read, r, b + b', r'', out + out')
  {
    forall rest: bytes
      ensures read(r, b + b' + rest) == Prefixed(out + out', |b + b'|, read(r'', rest))
    {
      assert b + b' + rest == b + (b' + rest);
      var last := read(r'', rest);
      assert out + (out' + last.out) == out + out' + last.out;
    }
  }

  /** The chunk stream after the rest of a chunk, and the message this completes. */
  function BodyResult(s: InStream, chunkSize: uint32, wire: ChunkHeader, body: bytes): (InStream, Option<InMessage>)
    requires Resolve(s, wire).Some?
  {
    var (h, absolute) := Resolve(s, wire).value;
    var m := Target(s, h, absolute);
    var m' := m.(buf := m.buf + body);
    if m.Remain() <= chunkSize then (InStream(Some(h), absolute, None), Some(m'))
    else (InStream(Some(h), absolute, Some(m')), None)
  }

  /** A chunk with the right number of payload bytes is taken whole. */
  lemma BodyTaken(s: InStream, chunkSize: uint32, wire: ChunkHeader, body: bytes, rest: bytes)
    requires Resolve(s, wire).Some?
    requires var e := Resolve(s, wire).value; |body| == Min(Target(s, e.0, e.1).Remain(), chunkSize)
    ensures var (s', out) := BodyResult(s, chunkSize, wire, body);
            ReadBody(s, chunkSize, wire, body + rest) == Took(|body|, s', out)
  {
    assert (body + rest)[..|body|] == body;
  }

  lemma HeaderTaken(r: Reader, h: ChunkHeader, tail: bytes)
    requires Wire(h) && CsidSurvives(h.csid)
    requires var last := r.Stream(h.csid).last; h.fmt == Continuation && last.Some? ==> last.value.extended == 0
    requires ReadBody(r.Stream(h.csid), r.chunkSize, Carried(h), tail).Took?
    ensures var t := ReadBody(r.Stream(h.csid), r.chunkSize, Carried(h), tail);
            ReadChunk(r, Encode(h) + tail) == Finish(r, h.csid, |Encode(h)|, t)
  {
    hide DecodeBase, DecodeFields, EncodeBase, EncodeFields, ReadBody;
    var s := r.Stream(h.csid);
    HeaderRoundTrip(h, tail, s.last);
    var fields := EncodeFields(h);
    var t := ReadBody(s, r.chunkSize, Carried(h), tail);
    assert (fields + tail)[|fields|..] == tail;
    assert ReadStream(s, r.chunkSize, h.fmt, h.csid, fields + tail) == Took(|fields| + t.n, t.stream, t.out);
  }

  /** A body of the right size for the state of the stream, leading to state `r'`. */
  predicate BodyFits(r: Reader, h: ChunkHeader, body: bytes, r': Reader) {
    var s := r.Stream(h.csid);
    && Resolve(s, Carried(h)).Some?
    && (var e := Resolve(s, Carried(h)).value; |body| == Min(Target(s, e.0, e.1).Remain(), r.chunkSize))
    && var (s', out) := BodyResult(s, r.chunkSize, Carried(h), body);
       if out.None? then r' == WithStream(r, h.csid, s')
       else Handle(WithStream(r, h.csid, s'), out.value) == Some(r')
  }

  lemma ChunkTaken(r: Reader, h: ChunkHeader, body: bytes, r': Reader, rest: bytes)
    requires Wire(h) && CsidSurvives(h.csid)
    requires var last := r.Stream(h.csid).last; h.fmt == Continuation && last.Some? ==> last.value.extended == 0
    requires BodyFits(r, h, body, r')
    ensures ReadChunk(r, Encode(h) + (body + rest))
         == Got(|Encode(h)| + |body|, r', BodyResult(r.Stream(h.csid), r.chunkSize, Carried(h), body).1)
  {
    BodyTaken(r.Stream(h.csid), r.chunkSize, Carried(h), body, rest);
    HeaderTaken(r, h, body + rest);
  }

  /** If every continuation of `a`, `b` is read as one chunk, then `a + b` is one chunk. */
  lemma TakesJoined(read: (Reader, bytes) -> ChunkRead, r: Reader, a: bytes, b: bytes,
                    r': Reader, out: Option<InMessage>)
    requires forall rest: bytes :: read(r, a + (b + rest)) == Got(|a| + |b|, r', out)
    ensures Takes(read, r, a + b, r', out)
  {
    forall rest: bytes
      ensures read(r, a + b + rest) == Got(|a + b|, r', out)
    {
      assert a + b + rest == a + (b + rest);
    }
  }

  /** A header and a body that fit the state of the stream are consumed as one chunk. */
  lemma ChunkConsumed(r: Reader, h: ChunkHeader, body: bytes, r': Reader)
    requires Wire(h) && CsidSurvives(h.csid)
    requires var last := r.Stream(h.csid).last; h.fmt == Continuation && last.Some? ==> last.value.extended == 0
    requires BodyFits(r, h, body, r')
    ensures Consumes(r, Encode(h) + body, r', BodyResult(r.Stream(h.csid), r.chunkSize, Carried(h), body).1)
  {
    var out := BodyResult(r.Stream(h.csid), r.chunkSize, Carried(h), body).1;
    var e := Encode(h);
    forall rest: bytes
      ensures ReadChunk(r, e + (body + rest)) == Got(|e| + |body|, r', out)
    {
      ChunkTaken(r, h, body, r', rest);
    }
    TakesJoined(ReadChunk, r, e, body, r', out);
  }

  // ----- A whole message, seen by the reader -----

  /** The message a reader in state `r` delivers for `m` started by header `h`. */
  function Delivered(r: Reader, h: ChunkHeader, m: Message): InMessage
    requires Resolve(r.Stream(m.csid), Carried(h)).Some?
  {
    var (h1, absolute) := Resolve(r.Stream(m.csid), Carried(h)).value;
    NewMessage(m.csid, h1, absolute).(buf := m.payload)
  }

  /** The chunk stream after a whole message. */
  function StreamAfter(r: Reader, h: ChunkHeader, m: Message): InStream
    requires Resolve(r.Stream(m.csid), Carried(h)).Some?
  {
    var (h1, absolute) := Resolve(r.Stream(m.csid), Carried(h)).value;
    InStream(Some(if |m.payload| > r.chunkSize then h1.(fmt := Continuation) else h1), absolute, None)
  }

  /** The reader after a whole message; None when `handleMessage` panics. */
  function Absorb(r: Reader, h: ChunkHeader, m: Message): Option<Reader>
    requires Resolve(r.Stream(m.csid), Carried(h)).Some?
  {
    Handle(WithStream(r, m.csid, StreamAfter(r, h, m)), Delivered(r, h, m))
  }

  // ----- Lockstep at chunk boundaries -----

  /** The reader holds the first `i` bytes of a message that will read as `d`. */
  predicate MidMessage(r: Reader, d: InMessage, i: nat) {
    var s := r.Stream(d.csid);
    && r.chunkSize > 0 && CsidSurvives(d.csid)
    && 0 < i < |d.buf| == d.size
    && s.current == Some(d.(buf := d.buf[..i]))
    && s.lastAbsolute == d.absolute
    && s.last.Some? && s.last.value.extended == 0 && s.last.value.csid == d.csid
  }

  /** The stream of `d` in state `r`, after one more continuation chunk. */
  function NextStream(r: Reader, d: InMessage, current: Option<InMessage>): InStream
    requires r.Stream(d.csid).last.Some?
  {
    InStream(Some(r.Stream(d.csid).last.value.(fmt := Continuation)), d.absolute, current)
  }

  /** The reader in the middle of `d`, `i` bytes of which have arrived after another chunk. */
  function Midway(r: Reader, d: InMessage, i: nat): Reader
    requires r.Stream(d.csid).last.Some? && i <= |d.buf|
  {
    WithStream(r, d.csid, NextStream(r, d, Some(d.(buf := d.buf[..i]))))
  }

  /** The reader after the last chunk of `d`. */
  function Completed(r: Reader, d: InMessage): Option<Reader>
    requires r.Stream(d.csid).last.Some?
  {
    Handle(WithStream(r, d.csid, NextStream(r, d, None)), d)
  }

  /** What the next continuation chunk does to the reader in the middle of `d`. */
  lemma ContinuationFits(r: Reader, d: InMessage, i: nat)
    requires MidMessage(r, d, i)
    ensures var k := Min(|d.buf| - i, r.chunkSize);
            var h := ContinuationHeader(d.csid);
            Resolve(r.Stream(d.csid), Carried(h)).Some?
            && var result := BodyResult(r.Stream(d.csid), r.chunkSize, Carried(h), d.buf[i..i + k]);
            if i + k < |d.buf| then
              && result.1 == None && MidMessage(Midway(r, d, i + k), d, i + k)
              && BodyFits(r, h, d.buf[i..i + k], Midway(r, d, i + k))
            else
              && result.1 == Some(d)
              && (Completed(r, d).Some? ==> BodyFits(r, h, d.buf[i..i + k], Completed(r, d).value))
  {
    var s := r.Stream(d.csid);
    var m := s.current.value;
    var k := Min(|d.buf| - i, r.chunkSize);
    assert m.Remain() == |d.buf| - i;
    assert m.buf + d.buf[i..i + k] == d.buf[..i + k];
    assert d.buf[..|d.buf|] == d.buf;
    assert s.last.value.(fmt := Continuation) == Resolve(s, Carried(ContinuationHeader(d.csid))).value.0;
  }

  /** One continuation chunk moves both sides by the same number of bytes. */
  lemma ContinuationChunk(r: Reader, d: InMessage, i: nat)
    requires MidMessage(r, d, i)
    ensures var k := Min(|d.buf| - i, r.chunkSize);
            var chunk := EncodeBase(Continuation, d.csid) + d.buf[i..i + k];
            if i + k < |d.buf| then
              var r' := Midway(r, d, i + k);
              MidMessage(r', d, i + k) && r'.chunkSize == r.chunkSize && Consumes(r, chunk, r', None)
            else
              Completed(r, d).Some? ==> Consumes(r, chunk, Completed(r, d).value, Some(d))
  {
    hide Takes;
    var h := ContinuationHeader(d.csid);
    var k := Min(|d.buf| - i, r.chunkSize);
    ContinuationFits(r, d, i);
    assert Encode(h) == EncodeBase(Continuation, d.csid);
    if i + k < |d.buf| {
      ChunkConsumed(r, h, d.buf[i..i + k], Midway(r, d, i + k));
    } else if Completed(r, d).Some? {
      ChunkConsumed(r, h, d.buf[i..i + k], Completed(r, d).value);
    }
  }

  /** A middle chunk of `d` leads to a state from which `more` completes it. */
  lemma ReadsMiddleChunk(r: Reader, d: InMessage, i: nat, base: bytes, more: bytes, r': Reader)
    requires MidMessage(r, d, i) && base == EncodeBase(Continuation, d.csid) && i + r.chunkSize < |d.buf|
    requires Reads(Midway(r, d, i + r.chunkSize), more, r', [d])
    ensures Reads(r, base + d.buf[i..i + r.chunkSize] + more, r', [d])
  {
    hide Takes, Feeds;
    var chunk := base + d.buf[i..i + r.chunkSize];
    var r1 := Midway(r, d, i + r.chunkSize);
    ContinuationChunk(r, d, i);
    ReadsChunk(r, chunk, r1, None);
    FeedsThen(ReadAll, r, chunk, r1, [], more, r', [d]);
    assert [] + [d] == [d];
  }

  lemma ReadsLastChunk(r: Reader, d: InMessage, i: nat, base: bytes, r': Reader)
    requires MidMessage(r, d, i) && base == EncodeBase(Continuation, d.csid) && i + r.chunkSize >= |d.buf|
    requires Completed(r, d) == Some(r')
    ensures Reads(r, base + d.buf[i..], r', [d])
  {
    hide Takes, Feeds;
    ContinuationChunk(r, d, i);
    assert d.buf[i..|d.buf|] == d.buf[i..];
    ReadsChunk(r, base + d.buf[i..], r', Some(d));
  }

  lemma MidwayStep(r: Reader, d: InMessage, i: nat)
    requires MidMessage(r, d, i) && i + r.chunkSize < |d.buf|
    ensures var r1 := Midway(r, d, i + r.chunkSize);
            MidMessage(r1, d, i + r.chunkSize) && r1.chunkSize == r.chunkSize && Completed(r1, d) == Completed(r, d)
  {
    var r1 := Midway(r, d, i + r.chunkSize);
    assert WithStream(r1, d.csid, NextStream(r1, d, None)) == WithStream(r, d.csid, NextStream(r, d, None));
  }

  /** The remaining pieces of a message, each behind a type 3 basic header, complete it. */
  lemma {:induction false} ReadsPieces(r: Reader, d: InMessage, i: nat, base: bytes, r': Reader)
    requires MidMessage(r, d, i) && base == EncodeBase(Continuation, d.csid)
    requires Completed(r, d) == Some(r')
    ensures Reads(r, Framed(base, Pieces(d.buf[i..], r.chunkSize)), r', [d])
    decreases |d.buf| - i
  {
    hide Takes, Feeds, Framed, Pieces, Completed, Handle, EncodeBase;
    FramedStep(base, d.buf, i, r.chunkSize);
    if i + r.chunkSize < |d.buf| {
      MidwayStep(r, d, i);
      ReadsPieces(Midway(r, d, i + r.chunkSize), d, i + r.chunkSize, base, r');
      ReadsMiddleChunk(r, d, i, base, Framed(base, Pieces(d.buf[i + r.chunkSize..], r.chunkSize)), r');
    } else {
      ReadsLastChunk(r, d, i, base, r');
    }
  }

  lemma FramedStep(base: bytes, buf: bytes, i: nat, size: nat)
    requires size > 0 && i < |buf|
    ensures Framed(base, Pieces(buf[i..], size))
         == if i + size < |buf| then base + buf[i..i + size] + Framed(base, Pieces(buf[i + size..], size))
            else base + buf[i..]
  {
    PiecesStep(buf, i, size);
    var k := Min(|buf| - i, size);
    var more := Pieces(buf[i + k..], size);
    assert ([buf[i..i + k]] + more)[1..] == more;
    if i + size >= |buf| {
      assert buf[i..i + k] == buf[i..] && more == [];
      assert base + buf[i..] + [] == base + buf[i..];
    }
  }

  lemma PiecesStep(buf: bytes, i: nat, size: nat)
    requires size > 0 && i < |buf|
    ensures var k := Min(|buf| - i, size);
            Pieces(buf[i..], size) == [buf[i..i + k]] + Pieces(buf[i + k..], size)
  {
    var k := Min(|buf| - i, size);
    assert buf[i..][..k] == buf[i..i + k];
    assert buf[i..][k..] == buf[i + k..];
  }

  /** The remaining chunks of a message, as the writer sends them, complete it. */
  lemma ReadsContinuation(r: Reader, d: InMessage, i: nat, typ: byte, r': Reader)
    requires MidMessage(r, d, i) && typ != SET_CHUNK_SIZE
    requires Completed(r, d) == Some(r')
    ensures var c := Continue(d.csid, typ, d.buf[i..], r.chunkSize);
            c.Run? && c.chunkSize == r.chunkSize && Reads(r, c.out, r', [d])
  {
    ContinueIsFramed(d.csid, typ, d.buf[i..], r.chunkSize);
    ReadsPieces(r, d, i, EncodeBase(Continuation, d.csid), r');
  }

  // ----- A whole message -----

  /** `h` starts `m` in a way the idle reader `r` can follow. */
  predicate Readable(r: Reader, h: ChunkHeader, m: Message) {
    var s := r.Stream(m.csid);
    var e := Resolve(s, Carried(h));
    && r.chunkSize > 0 && m.payload != []
    && Wire(h) && CsidSurvives(m.csid) && h.csid == m.csid
    && s.current.None?
    && (h.fmt == Continuation && s.last.Some? ==> s.last.value.extended == 0)
    && (|m.payload| > r.chunkSize ==> h.extended == 0)
    && e.Some? && e.value.0.length == |m.payload|
  }

  /** The reader after the first of several chunks of `m`. */
  function AfterFirst(r: Reader, h: ChunkHeader, m: Message): Reader
    requires Resolve(r.Stream(m.csid), Carried(h)).Some?
  {
    var (h1, absolute) := Resolve(r.Stream(m.csid), Carried(h)).value;
    var d := Delivered(r, h, m);
    WithStream(r, m.csid, InStream(Some(h1), absolute, Some(d.(buf := m.payload[..Min(|m.payload|, r.chunkSize)]))))
  }

  /** The first chunk leaves the reader in the middle of a message of several chunks. */
  lemma FirstOfSeveral(r: Reader, h: ChunkHeader, m: Message)
    requires Readable(r, h, m) && r.chunkSize < |m.payload|
    ensures Resolve(r.Stream(m.csid), Carried(h)).Some?
    ensures var (d, r1) := (Delivered(r, h, m), AfterFirst(r, h, m));
            && d.csid == m.csid && d.buf == m.payload
            && r1.chunkSize == r.chunkSize > 0 && MidMessage(r1, d, r.chunkSize)
            && Consumes(r, Encode(h) + m.payload[..r.chunkSize], r1, None)
            && Completed(r1, d) == Absorb(r, h, m)
  {
    hide Takes, Encode, Wire, EncodeBase;
    var s := r.Stream(m.csid);
    var body := m.payload[..r.chunkSize];
    var (h1, absolute) := Resolve(s, Carried(h)).value;
    var (d, r1) := (Delivered(r, h, m), AfterFirst(r, h, m));
    var start := NewMessage(m.csid, h1, absolute);
    assert Target(s, h1, absolute) == start && start.Remain() == |m.payload| && start.buf + body == body;
    ChunkConsumed(r, h, body, r1);
    assert WithStream(r1, m.csid, NextStream(r1, d, None)) == WithStream(r, m.csid, StreamAfter(r, h, m));
  }

  /** A message that fits is read with its only chunk. */
  lemma OnlyChunk(r: Reader, h: ChunkHeader, m: Message)
    requires Readable(r, h, m) && |m.payload| <= r.chunkSize && Absorb(r, h, m).Some?
    ensures Consumes(r, Encode(h) + m.payload, Absorb(r, h, m).value, Some(Delivered(r, h, m)))
  {
    hide Takes, Encode, Wire, EncodeBase;
    var s := r.Stream(m.csid);
    var (h1, absolute) := Resolve(s, Carried(h)).value;
    var start := NewMessage(m.csid, h1, absolute);
    assert Target(s, h1, absolute) == start && start.Remain() == |m.payload| && start.buf + m.payload == m.payload;
    ChunkConsumed(r, h, m.payload, Absorb(r, h, m).value);
  }

  /** Given the start header, the reader takes in exactly the bytes of the message. */
  lemma ReadsMessage(r: Reader, h: ChunkHeader, m: Message)
    requires Readable(r, h, m) && Absorb(r, h, m).Some?
    requires m.typ == SET_CHUNK_SIZE ==> |m.payload| <= r.chunkSize
    ensures var k := Min(|m.payload|, r.chunkSize);
            var c := Continue(m.csid, m.typ, m.payload[k..], r.chunkSize);
            c.Run? && c.chunkSize == r.chunkSize
            && Reads(r, Encode(h) + m.payload[..k] + c.out, Absorb(r, h, m).value, [Delivered(r, h, m)])
  {
    hide Takes, Feeds, Encode, Resolve, MidMessage, Completed, Absorb, Delivered, AfterFirst;
    ReadableParts(r, h, m);
    var (d, r') := (Delivered(r, h, m), Absorb(r, h, m).value);
    if |m.payload| <= r.chunkSize {
      var chunk := Encode(h) + m.payload;
      assert m.payload[|m.payload|..] == [] && m.payload[..|m.payload|] == m.payload;
      OnlyChunk(r, h, m);
      ReadsChunk(r, chunk, r', Some(d));
      NothingToWrite(m.csid, m.typ, r.chunkSize);
      assert chunk + [] == chunk;
    } else {
      var (chunk, r1) := (Encode(h) + m.payload[..r.chunkSize], AfterFirst(r, h, m));
      FirstOfSeveral(r, h, m);
      ReadsChunk(r, chunk, r1, None);
      ReadsContinuation(r1, d, r.chunkSize, m.typ, r');
      var c := Continue(m.csid, m.typ, m.payload[r.chunkSize..], r.chunkSize);
      FeedsThen(ReadAll, r, chunk, r1, [], c.out, r', [d]);
      assert [] + [d] == [d];
    }
  }

  lemma ReadableParts(r: Reader, h: ChunkHeader, m: Message)
    requires Readable(r, h, m)
    ensures r.chunkSize > 0 && m.csid <= MAX_CSID && Resolve(r.Stream(m.csid), Carried(h)).Some?
  {
  }

  lemma NothingToWrite(csid: uint32, typ: byte, chunkSize: uint32)
    requires csid <= MAX_CSID && chunkSize > 0
    ensures Continue(csid, typ, [], chunkSize) == Run([], chunkSize)
  {
  }

  /** What survives of a message: everything but its timestamps. */
  predicate SameMessage(m: Message, d: InMessage) {
    d.csid == m.csid && d.typ == m.typ && d.streamId == m.streamId && d.size == |m.payload| && d.buf == m.payload
  }

  /** A message that may be sent can be read, comes out unchanged and keeps lockstep. */
  lemma SendableIsReadable(w: Writer, r: Reader, m: Message)
    requires Lockstep(w, r) && Sendable(w, m) && m.payload != []
    ensures var h := Start(w, m);
            Readable(r, h, m) && Absorb(r, h, m).Some? && SameMessage(m, Delivered(r, h, m))
  {
    assert StreamLockstep(w.Stream(m.csid), r.Stream(m.csid));
    HeaderExpands(w.Stream(m.csid), r.Stream(m.csid), m);
  }

  lemma WritesMessage(w: Writer, m: Message)
    requires Sendable(w, m) && m.payload != [] && w.chunkSize > 0
    ensures var k := Min(|m.payload|, w.chunkSize);
            var c := Continue(m.csid, m.typ, m.payload[k..], w.chunkSize);
            var size := ChunkSizeAfter(m.typ, m.payload, w.chunkSize);
            c.Run? && c.chunkSize == w.chunkSize
            && WriteMessage(w, m) == Wrote(Encode(Start(w, m)) + m.payload[..k] + c.out,
                 Writer(size, w.streams[m.csid := OutAfter(w.Stream(m.csid), m)]))
  {
    var k := Min(|m.payload|, w.chunkSize);
    if m.typ == SET_CHUNK_SIZE {
      assert m.payload[k..] == [];
    } else {
      ContinueIsFramed(m.csid, m.typ, m.payload[k..], w.chunkSize);
    }
  }

  /** The last headers of both ends agree after a message again. */
  lemma StreamFollows(os: OutStream, r: Reader, m: Message)
    requires StreamLockstep(os, r.Stream(m.csid)) && |m.payload| < 0x100_0000
    ensures Resolve(r.Stream(m.csid), Carried(ChooseHeader(os, m))).Some?
    ensures StreamLockstep(OutAfter(os, m), StreamAfter(r, ChooseHeader(os, m), m))
  {
    HeaderExpands(os, r.Stream(m.csid), m);
  }

  /** So do the chunk sizes. */
  lemma SizesFollow(w: Writer, r: Reader, m: Message)
    requires w.chunkSize == r.chunkSize > 0 && Sendable(w, m) && m.payload != []
    requires Resolve(r.Stream(m.csid), Carried(Start(w, m))).Some? && Absorb(r, Start(w, m), m).Some?
    requires SameMessage(m, Delivered(r, Start(w, m), m))
    ensures var (h, r') := (Start(w, m), Absorb(r, Start(w, m), m).value);
            && r'.chunkSize == ChunkSizeAfter(m.typ, m.payload, w.chunkSize) > 0
            && r'.streams == r.streams[m.csid := StreamAfter(r, h, m)]
  {
    hide ChooseHeader, Resolve, StreamAfter, BE32;
  }

  lemma KeepsLockstep(w: Writer, r: Reader, m: Message)
    requires Lockstep(w, r) && Sendable(w, m) && m.payload != []
    requires WriteMessage(w, m).Wrote? && Readable(r, Start(w, m), m) && Absorb(r, Start(w, m), m).Some?
    ensures Lockstep(WriteMessage(w, m).writer, Absorb(r, Start(w, m), m).value)
  {
    hide Readable, EmitChunk, Continue, StreamLockstep, ChooseHeader, WriteMessage, ChunkSizeAfter, Absorb, OutAfter;
    hide Sendable, SameMessage, Resolve, Encode;
    assert StreamLockstep(w.Stream(m.csid), r.Stream(m.csid)) by { FreshStream(r.Stream(m.csid)); }
    SendableIsReadable(w, r, m);
    SendableSize(w, m);
    StreamFollows(w.Stream(m.csid), r, m);
    SizesFollow(w, r, m);
    WritesMessage(w, m);
  }

  lemma FreshStream(s: InStream)
    ensures StreamLockstep(FRESH_OUT, s)
  {
  }

  lemma SendableSize(w: Writer, m: Message)
    requires Sendable(w, m)
    ensures |m.payload| < 0x100_0000 && m.csid <= MAX_CSID
  {
  }

  /** One message takes both ends from lockstep to lockstep, and comes out unchanged. */
  lemma MessageRoundTrip(w: Writer, r: Reader, m: Message)
    requires Lockstep(w, r) && Sendable(w, m) && m.payload != []
    ensures var sent := WriteMessage(w, m);
            var h := Start(w, m);
            && sent.Wrote?
            && Readable(r, h, m) && Absorb(r, h, m).Some?
            && Reads(r, sent.out, Absorb(r, h, m).value, [Delivered(r, h, m)])
            && SameMessage(m, Delivered(r, h, m))
            && Lockstep(sent.writer, Absorb(r, h, m).value)
  {
    SendableIsReadable(w, r, m);
    WritesMessage(w, m);
    ReadsMessage(r, Start(w, m), m);
    KeepsLockstep(w, r, m);
  }

  // ----- End to end -----

  function NonEmpty(ms: seq<Message>): seq<Message> {
    if ms == [] then [] else (if ms[0].payload == [] then [] else [ms[0]]) + NonEmpty(ms[1..])
  }

  predicate AllDelivered(ms: seq<Message>, ds: seq<InMessage>) {
    |ds| == |ms| && forall i | 0 <= i < |ms| :: SameMessage(ms[i], ds[i])
  }

  lemma {:induction false} AllSendableInRange(w: Writer, ms: seq<Message>)
    requires w.chunkSize > 0 && AllSendable(w, ms)
    ensures forall m <- ms :: m.csid <= MAX_CSID
    ensures WriteAll(w, ms).Wrote?
    decreases |ms|
  {
    if ms != [] {
      AllSendableInRange(WriteMessage(w, ms[0]).writer, ms[1..]);
      forall m | m in ms ensures m.csid <= MAX_CSID {
        assert m == ms[0] || m in ms[1..];
      }
    }
  }

  /** The final state of the reader, message by message. */
  function AbsorbAll(w: Writer, r: Reader, ms: seq<Message>): (Reader, seq<InMessage>)
    requires Lockstep(w, r) && AllSendable(w, ms)
    decreases |ms|
  {
    if ms == [] then (r, []) else
    var m := ms[0];
    var w' := WriteMessage(w, m).writer;
    if m.payload == [] then AbsorbAll(w', r, ms[1..]) else
    MessageRoundTrip(w, r, m);
    var h := Start(w, m);
    var (r', out) := AbsorbAll(w', Absorb(r, h, m).value, ms[1..]);
    (r', [Delivered(r, h, m)] + out)
  }

  lemma ReadsFirst(w: Writer, r: Reader, m: Message, ms: seq<Message>, more: bytes, r': Reader, out: seq<InMessage>)
    requires Lockstep(w, r) && Sendable(w, m) && m.payload != []
    requires WriteMessage(w, m).Wrote? && Readable(r, Start(w, m), m) && Absorb(r, Start(w, m), m).Some?
    requires Reads(Absorb(r, Start(w, m), m).value, more, r', out) && AllDelivered(ms, out)
    ensures var d := Delivered(r, Start(w, m), m);
            Reads(r, WriteMessage(w, m).out + more, r', [d] + out) && AllDelivered([m] + ms, [d] + out)
  {
    hide Feeds, Sendable, SameMessage;
    MessageRoundTrip(w, r, m);
    FeedsThen(ReadAll, r, WriteMessage(w, m).out, Absorb(r, Start(w, m), m).value, [Delivered(r, Start(w, m), m)],
              more, r', out);
  }

  /** Any run of the writer is read back message by message. */
  lemma {:induction false} ReadsAll(w: Writer, r: Reader, ms: seq<Message>)
    requires Lockstep(w, r) && AllSendable(w, ms)
    ensures forall m <- ms :: m.csid <= MAX_CSID
    ensures var sent := WriteAll(w, ms);
            var (r', out) := AbsorbAll(w, r, ms);
            && sent.Wrote? && Lockstep(sent.writer, r')
            && Reads(r, sent.out, r', out) && AllDelivered(NonEmpty(ms), out)
    decreases |ms|
  {
    hide Feeds;
    AllSendableInRange(w, ms);
    if ms == [] {
      ReadsNothing(r);
    } else {
      var m := ms[0];
      var w' := WriteMessage(w, m).writer;
      var more := WriteAll(w', ms[1..]);
      if m.payload == [] {
        ReadsAll(w, r, ms[1..]);
        assert [] + more.out == more.out;
        assert [] + NonEmpty(ms[1..]) == NonEmpty(ms[1..]);
      } else {
        MessageRoundTrip(w, r, m);
        var r1 := Absorb(r, Start(w, m), m).value;
        ReadsAll(w', r1, ms[1..]);
        var (r', out) := AbsorbAll(w', r1, ms[1..]);
        ReadsFirst(w, r, m, NonEmpty(ms[1..]), more.out, r', out);
      }
    }
  }

  lemma RunIsAbsorbAll(w: Writer, r: Reader, ms: seq<Message>)
    requires Lockstep(w, r) && AllSendable(w, ms)
    ensures forall m <- ms :: m.csid <= MAX_CSID
    ensures var sent := WriteAll(w, ms);
            var (r', out) := AbsorbAll(w, r, ms);
            sent.Wrote? && ReadAll(r, sent.out) == ReadRun(out, r', |sent.out|, Eof)
  {
    hide Reads, ReadAll, WriteAll, AbsorbAll, AllSendable, AllDelivered, Lockstep;
    LockstepSizes(w, r);
    ReadsAll(w, r, ms);
    var (r', out) := AbsorbAll(w, r, ms);
    ReadsToEnd(r, WriteAll(w, ms).out, r', out);
  }

  /**
   * End to end: the bytes of any run of the writer are read back as exactly the non-empty
   * messages, in order and with nothing left over, also while chunk sizes change; the two ends
   * finish in lockstep.
   */
  lemma EndToEnd(w: Writer, r: Reader, ms: seq<Message>)
    requires Lockstep(w, r) && AllSendable(w, ms)
    ensures forall m <- ms :: m.csid <= MAX_CSID
    ensures var sent := WriteAll(w, ms);
            && sent.Wrote?
            && var run := ReadAll(r, sent.out);
            && AllDelivered(NonEmpty(ms), run.out)
            && run.used == |sent.out| && run.stop == Eof
            && Lockstep(sent.writer, run.reader)
  {
    RunIsAbsorbAll(w, r, ms);
    ReadsAll(w, r, ms);
  }

  // ----- Conditions that can be read off the messages -----

  /** A message that may be sent at any time. */
  predicate Plain(m: Message) {
    && CsidSurvives(m.csid) && |m.payload| < 0x100_0000 && m.timestamp < EXTENDED
    && (m.typ == SET_CHUNK_SIZE && m.payload != [] ==>
          m.csid == CS_ID_PROTOCOL_CONTROL && |m.payload| == 4 && BE32(m.payload) >= 4)
    && (m.typ == WINDOW_ACKNOWLEDGEMENT_SIZE && m.csid == CS_ID_PROTOCOL_CONTROL && m.payload != [] ==>
          |m.payload| >= 4)
  }

  /** A writer that has sent only such messages. */
  predicate PlainWriter(w: Writer) {
    w.chunkSize >= 4
    && forall csid <- w.streams :: w.streams[csid].last.Some? ==> w.streams[csid].last.value.extended == 0
  }

  lemma {:induction false} PlainIsSendable(w: Writer, ms: seq<Message>)
    requires PlainWriter(w) && forall m <- ms :: Plain(m)
    ensures AllSendable(w, ms)
    decreases |ms|
  {
    if ms != [] {
      var m := ms[0];
      assert m in ms;
      assert Start(w, m).extended == 0;
      assert Sendable(w, m);
      if m.payload != [] {
        WritesMessage(w, m);
      }
      PlainIsSendable(WriteMessage(w, m).writer, ms[1..]);
    }
  }

  /** The end-to-end theorem for fresh ends and such messages. */
  lemma FreshEndToEnd(ms: seq<Message>)
    requires forall m <- ms :: Plain(m)
    ensures forall m <- ms :: m.csid <= MAX_CSID
    ensures var sent := WriteAll(FRESH_WRITER, ms);
            && sent.Wrote?
            && var run := ReadAll(FRESH_READER, sent.out);
            && AllDelivered(NonEmpty(ms), run.out)
            && run.used == |sent.out| && run.stop == Eof
            && Lockstep(sent.writer, run.reader)
  {
    PlainIsSendable(FRESH_WRITER, ms);
    EndToEnd(FRESH_WRITER, FRESH_READER, ms);
  }

  // ----- A message of one chunk -----

  lemma ChosenCsid(os: OutStream, m: Message)
    ensures ChooseHeader(os, m).csid == CompressedHeader(os, m).csid == m.csid
  {
  }

  lemma WritesOneChunk(w: Writer, m: Message)
    requires m.csid <= MAX_CSID && 0 < |m.payload| <= w.chunkSize && (m.typ == SET_CHUNK_SIZE ==> |m.payload| >= 4)
    ensures var size := ChunkSizeAfter(m.typ, m.payload, w.chunkSize);
            WriteMessage(w, m) == Wrote(Encode(Start(w, m)) + m.payload,
              Writer(size, w.streams[m.csid := OutAfter(w.Stream(m.csid), m)]))
  {
    hide Encode, CompressedHeader, OutAfter, ChunkSizeAfter;
    ChosenCsid(w.Stream(m.csid), m);
    assert m.payload[..|m.payload|] == m.payload && m.payload[|m.payload|..] == [];
    var out := Encode(Start(w, m)) + m.payload;
    assert out + [] == out;
  }
}
