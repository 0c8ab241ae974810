/** Extended timestamps: which messages the reader can follow. */
module Divergence {
  import opened Bytes
  import opened Defines
  import opened HeaderSpec
  import opened WriterSpec
  import opened ReaderSpec
  import opened RoundTrip
  import opened Independence

  /** The conditions of Sendable, but for those on extended timestamps. */
  predicate AlmostSendable(w: Writer, m: Message) {
    && CsidSurvives(m.csid)
    && 0 < |m.payload| < 0x100_0000
    && m.typ != SET_CHUNK_SIZE
    && (m.typ == WINDOW_ACKNOWLEDGEMENT_SIZE && m.csid == CS_ID_PROTOCOL_CONTROL ==> |m.payload| >= 4)
  }

  /** The message starts with type 3, though the header before had an extended timestamp. */
  predicate BareStart(w: Writer, m: Message) {
    var last := w.Stream(m.csid).last;
    Start(w, m).fmt == Continuation && last.Some? && last.value.extended != 0
  }

  /** No type 3 chunk of the message comes after a header with an extended timestamp. */
  predicate Followable(w: Writer, m: Message) {
    (|m.payload| <= w.chunkSize || Start(w, m).extended == 0) && !BareStart(w, m)
  }

  /** That takes a message exactly 0xffffff after the one before. */
  lemma BareStartIsRare(os: OutStream, before: Message, m: Message, w: Writer)
    requires w.Stream(m.csid) == OutAfter(os, before) && BareStart(w, m)
    ensures m.timestamp == before.timestamp + EXTENDED
  {
  }

  lemma FirstOfTwo(r: Reader, h: ChunkHeader, m: Message)
    requires Wire(h) && h.csid == m.csid && CsidSurvives(m.csid)
    requires var s := r.Stream(m.csid);
             && s.current.None? && (h.fmt == Continuation && s.last.Some? ==> s.last.value.extended == 0)
             && Resolve(s, Carried(h)).Some? && Resolve(s, Carried(h)).value.0.length == |m.payload| > r.chunkSize
    ensures Consumes(r, Encode(h) + m.payload[..r.chunkSize], AfterFirst(r, h, m), None)
  {
    var s := r.Stream(m.csid);
    var (h1, absolute) := Resolve(s, Carried(h)).value;
    var body := m.payload[..r.chunkSize];
    var start := NewMessage(m.csid, h1, absolute);
    assert Target(s, h1, absolute) == start && start.Remain() == |m.payload| && start.buf + body == body;
    ChunkConsumed(r, h, body, AfterFirst(r, h, m));
  }

  /** How much payload the stream expects with its next type 3 chunk, if it fits. */
  function Missing(s: InStream): nat
    requires s.last.Some?
  {
    if s.current.Some? then s.current.value.Remain() else s.last.value.length
  }

  /** After a header with an extended timestamp a type 3 chunk that has just that is four bytes too short. */
  lemma BareChunkWaits(r: Reader, csid: uint32, rest: bytes)
    requires CsidSurvives(csid) && rest != []
    requires var s := r.Stream(csid);
             s.last.Some? && s.last.value.extended > 0 && Missing(s) == |rest| <= r.chunkSize
    ensures ReadAll(r, EncodeBase(Continuation, csid) + rest) == ReadRun([], r, 0, Eof)
  {
    var base := EncodeBase(Continuation, csid);
    BaseHeaderRoundTrip(Continuation, csid, rest);
    assert (base + rest)[|base|..] == rest;
    assert ReadStream(r.Stream(csid), r.chunkSize, Continuation, csid, rest) == StreamEof;
  }

  lemma WritesChunks(w: Writer, m: Message)
    requires AlmostSendable(w, m) && 0 < w.chunkSize < |m.payload|
    ensures var sent := WriteMessage(w, m);
            var base := EncodeBase(Continuation, m.csid);
            sent.Wrote? && sent.out == Encode(Start(w, m)) + m.payload[..w.chunkSize]
                                       + Framed(base, Pieces(m.payload[w.chunkSize..], w.chunkSize))
  {
    ContinueIsFramed(m.csid, m.typ, m.payload[w.chunkSize..], w.chunkSize);
  }

  /** Where the reader stands after the first chunk of a message with an extended timestamp. */
  lemma FirstOfMany(w: Writer, r: Reader, m: Message)
    requires Lockstep(w, r) && AlmostSendable(w, m) && w.chunkSize < |m.payload| && Start(w, m).extended != 0
    ensures Resolve(r.Stream(m.csid), Carried(Start(w, m))).Some?
    ensures var first := Encode(Start(w, m)) + m.payload[..w.chunkSize];
            var r1 := AfterFirst(r, Start(w, m), m);
            var s := r1.Stream(m.csid);
            && Reads(r, first, r1, []) && OwnIds(r1) && r1.chunkSize == w.chunkSize
            && s.last.Some? && s.last.value.extended > 0
            && s.current.Some? && s.current.value.csid == m.csid
            && s.current.value.buf == m.payload[..w.chunkSize] && s.current.value.size == |m.payload|
  {
    hide ReadAll, WriteMessage, Takes, Feeds, Wire, EncodeBase, EncodeFields;
    var h := Start(w, m);
    assert StreamLockstep(w.Stream(m.csid), r.Stream(m.csid));
    HeaderExpands(w.Stream(m.csid), r.Stream(m.csid), m);
    FirstOfTwo(r, h, m);
    ReadsChunk(r, Encode(h) + m.payload[..r.chunkSize], AfterFirst(r, h, m), None);
  }

  // ----- Any number of chunks: a message needs more bytes than are sent -----

  /** The bytes it takes to carry `x` more bytes of payload behind basic headers of `base` bytes. */
  function Need(x: nat, size: nat, base: nat): nat
    requires size > 0
  {
    if x == 0 then 0 else
    var k := Min(x, size);
    base + k + Need(x - k, size, base)
  }

  function Left(size: nat, buffered: nat): nat {
    if buffered < size then size - buffered else 0
  }

  lemma {:induction false} NeedGrows(x: nat, y: nat, size: nat, base: nat)
    requires size > 0 && x <= y
    ensures Need(x, size, base) <= Need(y, size, base)
  {
    if x > size {
      NeedGrows(x - size, y - size, size, base);
    }
  }

  /** A chunk with `k` bytes of payload brings the need down by no more than its length. */
  lemma {:induction false} NeedStep(x: nat, k: nat, size: nat, base: nat)
    requires k <= size && size > 0
    ensures Need(x, size, base) <= base + k + Need(Left(x, k), size, base)
    decreases x
  {
    if x > size + k {
      NeedStep(x - size, k, size, base);
    } else if x > size {
      assert Need(x - size, size, base) == base + (x - size);
    }
  }

  lemma {:induction false} FramedNeeds(base: bytes, buf: bytes, size: nat)
    requires size > 0
    ensures |Framed(base, Pieces(buf, size))| == Need(|buf|, size, |base|)
    decreases |buf|
  {
    if buf != [] {
      var k := Min(|buf|, size);
      FramedNeeds(base, buf[k..], size);
      assert Pieces(buf, size)[1..] == Pieces(buf[k..], size);
    }
  }

  function Buffered(s: InStream): nat {
    if s.current.Some? then |s.current.value.buf| else 0
  }

  /** After an extended timestamp the next chunk has at least this much of a message header. */
  function Extra(s: InStream): nat {
    if s.last.Some? && s.last.value.extended > 0 then 3 else 0
  }

  lemma BaseCost(input: bytes)
    requires DecodeBase(input).Parsed? && DecodeBase(input).value.1 <= MAX_CSID
    ensures DecodeBase(input).n >= |EncodeBase(Continuation, DecodeBase(input).value.1)|
  {
  }

  /** A chunk of `k` payload bytes adds at most `k` bytes to what its chunk stream has buffered. */
  lemma StreamCost(s: InStream, chunkSize: uint32, fmt: Format, csid: uint32, input: bytes) returns (k: nat)
    requires ReadStream(s, chunkSize, fmt, csid, input).Took?
    ensures var t := ReadStream(s, chunkSize, fmt, csid, input);
            && k <= chunkSize && t.n >= Extra(s) + k
            && Buffered(t.stream) <= Buffered(s) + k
            && (t.out.Some? ==> |t.out.value.buf| <= Buffered(s) + k)
  {
    hide Resolve;
    var p := DecodeFields(ZERO_HEADER, input, fmt, csid, s.last);
    k := ReadStream(s, chunkSize, fmt, csid, input).n - p.n;
  }

  /** The same for a whole chunk; the chunks of other ids change nothing here. */
  lemma ChunkCost(q: Reader, input: bytes) returns (k: nat)
    requires ReadChunk(q, input).Got?
    ensures DecodeBase(input).Parsed?
    ensures var csid := DecodeBase(input).value.1;
            var c := ReadChunk(q, input);
            && k <= q.chunkSize
            && (csid <= MAX_CSID ==> c.n >= |EncodeBase(Continuation, csid)| + Extra(q.Stream(csid)) + k)
            && Buffered(c.reader.Stream(csid)) <= Buffered(q.Stream(csid)) + k
            && (c.out.Some? ==> |c.out.value.buf| <= Buffered(q.Stream(csid)) + k)
  {
    hide DecodeBase, EncodeBase, ReadStream;
    var p := DecodeBase(input);
    var csid := p.value.1;
    k := StreamCost(q.Stream(csid), q.chunkSize, p.value.0, csid, input[p.n..]);
    if csid <= MAX_CSID {
      BaseCost(input);
    }
  }

  /** Too few bytes, in whatever way they are read, deliver no message of that size on `csid`. */
  lemma {:induction false} Starves(q: Reader, input: bytes, csid: uint32, size: nat)
    requires OwnIds(q) && q.chunkSize > 0 && csid <= MAX_CSID
    requires var s := q.Stream(csid);
             |input| < Extra(s) + Need(Left(size, Buffered(s)), q.chunkSize, |EncodeBase(Continuation, csid)|)
    requires forall d <- ReadAll(q, input).out :: !IsControl(d, SET_CHUNK_SIZE)
    ensures forall d <- ReadAll(q, input).out | d.csid == csid :: |d.buf| != size
    decreases |input|
  {
    hide ReadChunk, DecodeBase, EncodeBase, IsControl, Need, Extra;
    var c := ReadChunk(q, input);
    if c.Got? {
      var later := ReadAll(c.reader, input[c.n..]).out;
      assert ReadAll(q, input).out == OptionSeq(c.out) + later;
      assert forall d <- later :: d in ReadAll(q, input).out;
      assert c.out.Some? ==> c.out.value in ReadAll(q, input).out;
      ReadChunkOwnIds(q, input);
      ReadChunkTouches(q, input, csid);
      if DecodeBase(input).value.1 == csid {
        var base := |EncodeBase(Continuation, csid)|;
        var (b, b') := (Buffered(q.Stream(csid)), Buffered(c.reader.Stream(csid)));
        var k := ChunkCost(q, input);
        NeedStep(Left(size, b), k, q.chunkSize, base);
        NeedGrows(Left(Left(size, b), k), Left(size, b'), q.chunkSize, base);
        NeedZero(q.chunkSize, base);
      }
      Starves(c.reader, input[c.n..], csid, size);
    }
  }

  lemma NeedZero(size: nat, base: nat)
    requires size > 0
    ensures Need(0, size, base) == 0
  {
  }

  /** The same for even fewer bytes, and whatever chunk sizes are set on the way. */
  lemma {:induction false} StarvesAnyway(q: Reader, input: bytes, csid: uint32, size: nat)
    requires OwnIds(q) && csid <= MAX_CSID
    requires var s := q.Stream(csid);
             |input| < Extra(s) + |EncodeBase(Continuation, csid)| + Left(size, Buffered(s))
    ensures forall d <- ReadAll(q, input).out | d.csid == csid :: |d.buf| != size
    decreases |input|
  {
    hide ReadChunk, DecodeBase, EncodeBase, IsControl, Extra;
    var c := ReadChunk(q, input);
    if c.Got? {
      assert ReadAll(q, input).out == OptionSeq(c.out) + ReadAll(c.reader, input[c.n..]).out;
      ReadChunkOwnIds(q, input);
      ReadChunkTouches(q, input, csid);
      if DecodeBase(input).value.1 == csid {
        var k := ChunkCost(q, input);
      }
      StarvesAnyway(c.reader, input[c.n..], csid, size);
    }
  }

  // ----- Which messages come through -----

  lemma BareMessage(w: Writer, m: Message)
    requires AlmostSendable(w, m) && BareStart(w, m) && w.chunkSize > 0
    ensures WriteMessage(w, m).Wrote?
    ensures WriteMessage(w, m).out == Framed(EncodeBase(Continuation, m.csid), Pieces(m.payload, w.chunkSize))
  {
    hide CompressedHeader, EncodeBase;
    var (base, k) := (EncodeBase(Continuation, m.csid), Min(|m.payload|, w.chunkSize));
    ChosenCsid(w.Stream(m.csid), m);
    assert Encode(Start(w, m)) == base;
    ContinueIsFramed(m.csid, m.typ, m.payload[k..], w.chunkSize);
    assert Pieces(m.payload, w.chunkSize)[1..] == Pieces(m.payload[k..], w.chunkSize);
  }

  /** How many type 3 chunks the reader has to take after an extended timestamp. */
  function BareChunks(w: Writer, m: Message): int
    requires w.chunkSize > 0
  {
    CeilDiv(|m.payload|, w.chunkSize) - if BareStart(w, m) then 0 else 1
  }

  /** What a reader comes to that cannot follow: bytes that make up just the payload and basic headers. */
  lemma StarvingTail(w: Writer, r: Reader, m: Message) returns (r1: Reader, tail: bytes)
    requires Lockstep(w, r) && AlmostSendable(w, m) && !Followable(w, m)
    ensures w.chunkSize > 0 && WriteMessage(w, m).Wrote?
    ensures OwnIds(r1) && r1.chunkSize == w.chunkSize && Extra(r1.Stream(m.csid)) == 3
    ensures var (left, base) := (Left(|m.payload|, Buffered(r1.Stream(m.csid))), |EncodeBase(Continuation, m.csid)|);
            |tail| == Need(left, w.chunkSize, base) == left + BareChunks(w, m) * base
    ensures ReadAll(r, WriteMessage(w, m).out).out == ReadAll(r1, tail).out
  {
    hide ReadAll, WriteMessage, EncodeBase, Encode, AfterFirst, Need, Lockstep, Start, CeilDiv;
    LockstepSizes(w, r);
    var base := EncodeBase(Continuation, m.csid);
    CeilDivStep(|m.payload|, w.chunkSize);
    if BareStart(w, m) {
      LockstepStream(w, r, m.csid);
      BareMessage(w, m);
      r1, tail := r, Framed(base, Pieces(m.payload, w.chunkSize));
      FramedNeeds(base, m.payload, w.chunkSize);
      FramedSize(base, m.payload, w.chunkSize);
    } else {
      FirstOfMany(w, r, m);
      WritesChunks(w, m);
      StartCsid(w, m);
      var (first, rest) := (Encode(Start(w, m)) + m.payload[..w.chunkSize], m.payload[w.chunkSize..]);
      r1, tail := AfterFirst(r, Start(w, m), m), Framed(base, Pieces(rest, w.chunkSize));
      FramedNeeds(base, rest, w.chunkSize);
      FramedSize(base, rest, w.chunkSize);
      var later := ReadAll(r1, tail);
      assert ReadAll(r, first + tail) == Prefixed([], |first|, later);
      assert [] + later.out == later.out;
    }
  }

  lemma StartCsid(w: Writer, m: Message)
    ensures Start(w, m).csid == m.csid
  {
  }

  /** What lockstep means for one chunk stream. */
  lemma LockstepStream(w: Writer, r: Reader, csid: uint32)
    requires Lockstep(w, r)
    ensures StreamLockstep(w.Stream(csid), r.Stream(csid)) && r.Stream(csid).current.None? && OwnIds(r)
  {
  }

  lemma FramedSize(base: bytes, buf: bytes, size: nat)
    requires size > 0
    ensures |Framed(base, Pieces(buf, size))| == |buf| + CeilDiv(|buf|, size) * |base|
  {
    hide CeilDiv;
    PiecesJoin(buf, size);
    PiecesCount(buf, size);
    FramedLength(base, Pieces(buf, size));
  }

  /** So few type 3 chunks that their basic headers cannot make up for the bytes the reader takes too many. */
  predicate FewChunks(w: Writer, m: Message)
    requires w.chunkSize > 0 && m.csid <= MAX_CSID
  {
    (BareChunks(w, m) - 1) * |EncodeBase(Continuation, m.csid)| < 3
  }

  /** A message that cannot be followed does not come through, nor does any other of its size on its csid. */
  lemma NothingOfThatSize(w: Writer, r: Reader, m: Message)
    requires Lockstep(w, r) && AlmostSendable(w, m) && !Followable(w, m) && w.chunkSize > 0
    requires WriteMessage(w, m).Wrote?
    requires FewChunks(w, m) || NoResize(ReadAll(r, WriteMessage(w, m).out).out)
    ensures forall d <- ReadAll(r, WriteMessage(w, m).out).out | d.csid == m.csid :: |d.buf| != |m.payload|
  {
    hide ReadAll, WriteMessage, EncodeBase, Encode, OwnIds, Need, Lockstep, Start, BareChunks, Buffered, Followable;
    var r1, tail := StarvingTail(w, r, m);
    if FewChunks(w, m) {
      var base := |EncodeBase(Continuation, m.csid)|;
      assert (BareChunks(w, m) - 1) * base == BareChunks(w, m) * base - base;
      StarvesAnyway(r1, tail, m.csid, |m.payload|);
    } else {
      Starves(r1, tail, m.csid, |m.payload|);
    }
  }

  /**
   * The writer sends the extended timestamp with the header that has it only, the reader expects it
   * with every type 3 chunk after that. Messages without such chunks come through. The others do
   * not, if they have few chunks or the reader takes none of their bytes for a new chunk size.
   */
  lemma ExtendedTimestampSurvives(w: Writer, r: Reader, m: Message)
    requires Lockstep(w, r) && AlmostSendable(w, m)
    ensures w.chunkSize > 0 && WriteMessage(w, m).Wrote?
    ensures var out := ReadAll(r, WriteMessage(w, m).out).out;
            && (Followable(w, m) ==> |out| == 1 && SameMessage(m, out[0]))
            && (FewChunks(w, m) || NoResize(out) ==> ((exists d <- out :: SameMessage(m, d)) <==> Followable(w, m)))
  {
    hide ReadAll, WriteMessage, Lockstep, Readable, NoResize, FewChunks, Followable;
    LockstepSizes(w, r);
    if Followable(w, m) {
      var d := ComesThrough(w, r, m);
      assert d in ReadAll(r, WriteMessage(w, m).out).out;
    } else {
      var _, _ := StarvingTail(w, r, m);
      if FewChunks(w, m) || NoResize(ReadAll(r, WriteMessage(w, m).out).out) {
        NothingOfThatSize(w, r, m);
      }
    }
  }

  lemma ComesThrough(w: Writer, r: Reader, m: Message) returns (d: InMessage)
    requires Lockstep(w, r) && AlmostSendable(w, m) && Followable(w, m)
    ensures w.chunkSize > 0 && WriteMessage(w, m).Wrote?
    ensures ReadAll(r, WriteMessage(w, m).out).out == [d] && SameMessage(m, d)
  {
    hide ReadAll, WriteMessage, Lockstep, Readable, Reads, Start;
    LockstepSizes(w, r);
    MessageRoundTrip(w, r, m);
    d := Delivered(r, Start(w, m), m);
    ReadsToEnd(r, WriteMessage(w, m).out, Absorb(r, Start(w, m), m).value, [d]);
  }

  /** With two chunks the reader makes nothing of such a message but wait for more, whatever the payload. */
  lemma TwoChunksWait(w: Writer, r: Reader, m: Message)
    requires Lockstep(w, r) && AlmostSendable(w, m) && w.chunkSize < |m.payload| <= 2 * w.chunkSize
    requires Start(w, m).extended != 0
    ensures WriteMessage(w, m).Wrote? && ReadAll(r, WriteMessage(w, m).out).out == []
  {
    hide ReadAll, WriteMessage, Encode, EncodeBase, AfterFirst;
    FirstOfMany(w, r, m);
    WritesChunks(w, m);
    var base := EncodeBase(Continuation, m.csid);
    var (first, r1) := (Encode(Start(w, m)) + m.payload[..w.chunkSize], AfterFirst(r, Start(w, m), m));
    var rest := m.payload[w.chunkSize..];
    FramedStep(base, m.payload, w.chunkSize, w.chunkSize);
    assert ReadAll(r, first + (base + rest)) == Prefixed([], |first|, ReadAll(r1, base + rest));
    BareChunkWaits(r1, m.csid, rest);
  }

  /** Of any message of one chunk that starts so, likewise; new chunk sizes are no exception. */
  lemma BareStartWaits(w: Writer, r: Reader, m: Message)
    requires Lockstep(w, r) && CsidSurvives(m.csid) && BareStart(w, m)
    requires 0 < |m.payload| <= w.chunkSize && |m.payload| < 0x100_0000
    requires m.typ == SET_CHUNK_SIZE ==> |m.payload| >= 4
    ensures WriteMessage(w, m).Wrote? && ReadAll(r, WriteMessage(w, m).out) == ReadRun([], r, 0, Eof)
  {
    hide ReadAll, WriteMessage, Lockstep, EncodeBase;
    LockstepSizes(w, r);
    LockstepStream(w, r, m.csid);
    WritesOneChunk(w, m);
    assert Encode(Start(w, m)) == EncodeBase(Continuation, m.csid);
    BareChunkWaits(r, m.csid, m.payload);
  }

  // ----- Examples from fresh ends -----

  /** 200 bytes with timestamp 0x1000000. */
  lemma ExtendedExample(payload: bytes)
    requires |payload| == 200
    ensures var m := Message(5, AUDIO_TYPE, 1, 0x100_0000, payload);
            WriteMessage(FRESH_WRITER, m).Wrote? && ReadAll(FRESH_READER, WriteMessage(FRESH_WRITER, m).out).out == []
  {
    TwoChunksWait(FRESH_WRITER, FRESH_READER, Message(5, AUDIO_TYPE, 1, 0x100_0000, payload));
  }

  /** A message and the same 0xffffff and twice that later: the third is not delivered. */
  lemma BareStartExample(m: Message)
    requires AlmostSendable(FRESH_WRITER, m) && |m.payload| <= DEFAULT_CHUNK_SIZE
    requires m.timestamp + 2 * EXTENDED < 0x1_0000_0000
    ensures var (m2, m3) := (m.(timestamp := m.timestamp + EXTENDED), m.(timestamp := m.timestamp + 2 * EXTENDED));
            && m.csid <= MAX_CSID && WriteAll(FRESH_WRITER, [m, m2, m3]).Wrote?
            && AllDelivered([m, m2], ReadAll(FRESH_READER, WriteAll(FRESH_WRITER, [m, m2, m3]).out).out)
  {
    hide ReadAll, WriteMessage, Encode, StreamLockstep, AbsorbAll, AllDelivered, BareStart;
    var (m2, m3) := (m.(timestamp := m.timestamp + EXTENDED), m.(timestamp := m.timestamp + 2 * EXTENDED));
    FreshLockstep();
    var w := ThirdStartsBare(m);
    ReadsAll(FRESH_WRITER, FRESH_READER, [m, m2]);
    var (r, out) := AbsorbAll(FRESH_WRITER, FRESH_READER, [m, m2]);
    var sent := WriteAll(FRESH_WRITER, [m, m2]).out;
    WriteAllSnoc(FRESH_WRITER, [m, m2], m3);
    assert [m, m2] + [m3] == [m, m2, m3];
    BareStartWaits(w, r, m3);
    var more := WriteMessage(w, m3).out;
    assert ReadAll(FRESH_READER, sent + more) == Prefixed(out, |sent|, ReadAll(r, more));
    assert out + [] == out;
    TwoNonEmpty(m, m2);
  }

  /** Concretely, one byte at the times 1, 0x1000000 and 0x1ffffff. */
  lemma BareStartAtOne(b: byte)
    ensures var (m, m2, m3) := (Message(5, AUDIO_TYPE, 1, 1, [b]), Message(5, AUDIO_TYPE, 1, 0x100_0000, [b]),
                                Message(5, AUDIO_TYPE, 1, 0x1ff_ffff, [b]));
            && WriteAll(FRESH_WRITER, [m, m2, m3]).Wrote?
            && AllDelivered([m, m2], ReadAll(FRESH_READER, WriteAll(FRESH_WRITER, [m, m2, m3]).out).out)
  {
    BareStartExample(Message(5, AUDIO_TYPE, 1, 1, [b]));
  }

  lemma TwoNonEmpty(a: Message, b: Message)
    requires a.payload != [] && b.payload != []
    ensures NonEmpty([a, b]) == [a, b]
  {
    assert [a, b][1..] == [b] && [b][1..] == [];
    assert NonEmpty([b]) == [b] + NonEmpty([]);
  }

  /** The writer before the third of these messages. */
  lemma ThirdStartsBare(m: Message) returns (w: Writer)
    requires AlmostSendable(FRESH_WRITER, m) && |m.payload| <= DEFAULT_CHUNK_SIZE
    requires m.timestamp + 2 * EXTENDED < 0x1_0000_0000
    ensures var (m2, m3) := (m.(timestamp := m.timestamp + EXTENDED), m.(timestamp := m.timestamp + 2 * EXTENDED));
            && AllSendable(FRESH_WRITER, [m, m2]) && m.csid <= MAX_CSID
            && WriteAll(FRESH_WRITER, [m, m2]).Wrote? && WriteAll(FRESH_WRITER, [m, m2]).writer == w
            && BareStart(w, m3) && w.chunkSize == DEFAULT_CHUNK_SIZE
  {
    hide WriteMessage, Encode;
    var (m2, m3) := (m.(timestamp := m.timestamp + EXTENDED), m.(timestamp := m.timestamp + 2 * EXTENDED));
    WritesOneChunk(FRESH_WRITER, m);
    var w1 := WriteMessage(FRESH_WRITER, m).writer;
    WritesOneChunk(w1, m2);
    w := WriteMessage(w1, m2).writer;
    assert [m, m2][1..] == [m2] && [m2][1..] == [];
    assert AllSendable(w1, [m2]) && AllSendable(w, []);
    assert WriteAll(w, []) == Wrote([], w);
    assert WriteAll(w1, [m2]).Wrote? && WriteAll(w1, [m2]).writer == w;
    assert Start(w1, m2).fmt == SameLengthAndStream && Start(w1, m2).extended == m2.timestamp;
  }
}
