/** What holds between the chunks of a run, and in the middle of a chunk. */
module Boundaries {
  import opened Bytes
  import opened Defines
  import opened HeaderSpec
  import opened WriterSpec
  import opened ReaderSpec
  import opened RoundTrip
  import opened Independence

  // ----- Lockstep at every chunk boundary -----

  /** The writer after `n` turns of its loop on `m`: what it has sent, what is left, its chunk size. */
  function WriterAfter(os: OutStream, chunkSize: uint32, m: Message, n: nat): Emitted
    requires m.csid <= MAX_CSID && n > 0
  {
    if n == 1 then EmitChunk(ChooseHeader(os, m), m.typ, m.payload, chunkSize) else
    match WriterAfter(os, chunkSize, m, n - 1)
    case Panic => Panic
    case Emitted(out, rest, size) =>
      if rest == [] then Emitted(out, rest, size) else
      match EmitChunk(ContinuationHeader(m.csid), m.typ, rest, size)
      case Panic => Panic
      case Emitted(more, rest', size') => Emitted(out + more, rest', size')
  }

  /** The reader with `i` bytes of `m` buffered, which header `h` started. */
  function ReaderAfter(r: Reader, h: ChunkHeader, m: Message, i: nat): Reader
    requires i <= |m.payload|
  {
    match Resolve(r.Stream(m.csid), Carried(h))
    case None => r
    case Some((h1, absolute)) =>
      var last := if i > r.chunkSize then h1.(fmt := Continuation) else h1;
      WithStream(r, m.csid, InStream(Some(last), absolute, Some(Delivered(r, h, m).(buf := m.payload[..i]))))
  }

  /** Both ends when the writer has come to `e` in the middle of `m` and the reader to `r'`. */
  ghost predicate AtBoundary(w: Writer, r: Reader, m: Message, e: Emitted, r': Reader)
    requires m.csid <= MAX_CSID && w.chunkSize > 0
  {
    var h := Start(w, m);
    && e.Emitted? && Resolve(r.Stream(m.csid), Carried(h)).Some?
    && 0 < |e.rest| < |m.payload|
    && Reads(r, e.out, r', [])
    && r'.chunkSize == e.chunkSize > 0
    && MidMessage(r', Delivered(r, h, m), |m.payload| - |e.rest|)
    && r'.Stream(m.csid).current.value.buf + e.rest == m.payload
    && var more := Continue(m.csid, m.typ, e.rest, e.chunkSize);
       more.Run? && WriteMessage(w, m).Wrote? && e.out + more.out == WriteMessage(w, m).out
  }

  lemma FirstBoundary(w: Writer, r: Reader, m: Message)
    requires Lockstep(w, r) && Sendable(w, m) && w.chunkSize < |m.payload|
    ensures var e := WriterAfter(w.Stream(m.csid), w.chunkSize, m, 1);
            && AtBoundary(w, r, m, e, ReaderAfter(r, Start(w, m), m, w.chunkSize))
            && e.chunkSize == w.chunkSize && e.rest == m.payload[w.chunkSize..]
  {
    hide Takes, Feeds, Sendable, Continue, Encode, Lockstep;
    LockstepSizes(w, r);
    SendableIsReadable(w, r, m);
    WritesMessage(w, m);
    TypeOfLong(w, m);
    var (h, k) := (Start(w, m), w.chunkSize);
    var r' := ReaderAfter(r, h, m, k);
    FirstOfSeveral(r, h, m);
    ReadsChunk(r, Encode(h) + m.payload[..k], r', None);
    assert m.payload[..k] + m.payload[k..] == m.payload;
  }

  lemma TypeOfLong(w: Writer, m: Message)
    requires Sendable(w, m) && w.chunkSize < |m.payload|
    ensures m.typ != SET_CHUNK_SIZE && CsidSurvives(m.csid)
  {
  }

  lemma ReaderTurn(r: Reader, out: bytes, r1: Reader, d: InMessage, i: nat)
    requires Reads(r, out, r1, []) && MidMessage(r1, d, i) && i + r1.chunkSize < |d.buf|
    ensures var k := r1.chunkSize;
            var r2 := Midway(r1, d, i + k);
            && Reads(r, out + (EncodeBase(Continuation, d.csid) + d.buf[i..i + k]), r2, [])
            && MidMessage(r2, d, i + k) && r2.chunkSize == k && r2.Stream(d.csid).current.value.buf == d.buf[..i + k]
  {
    hide Takes, Feeds, EncodeBase;
    var k := r1.chunkSize;
    var chunk := EncodeBase(Continuation, d.csid) + d.buf[i..i + k];
    ContinuationChunk(r1, d, i);
    ReadsChunk(r1, chunk, Midway(r1, d, i + k), None);
    var none: seq<InMessage> := [];
    FeedsThen(ReadAll, r, out, r1, none, chunk, Midway(r1, d, i + k), none);
    assert none + none == none;
  }

  /** One more chunk leads from boundary to boundary. */
  lemma NextBoundary(w: Writer, r: Reader, m: Message, n: nat, i: nat)
    requires m.csid <= MAX_CSID && n > 0 && m.typ != SET_CHUNK_SIZE
    requires 0 < w.chunkSize <= i && i + w.chunkSize < |m.payload| && r.chunkSize == w.chunkSize
    requires var e := WriterAfter(w.Stream(m.csid), w.chunkSize, m, n);
             && AtBoundary(w, r, m, e, ReaderAfter(r, Start(w, m), m, i))
             && e.chunkSize == w.chunkSize && e.rest == m.payload[i..]
    ensures var e := WriterAfter(w.Stream(m.csid), w.chunkSize, m, n + 1);
            && AtBoundary(w, r, m, e, ReaderAfter(r, Start(w, m), m, i + w.chunkSize))
            && e.chunkSize == w.chunkSize && e.rest == m.payload[i + w.chunkSize..]
  {
    hide Reads, WriterAfter, WriteMessage, ChooseHeader, EncodeBase, Resolve, MidMessage, ReaderAfter, Continue;
    var (d, k, e) := (Delivered(r, Start(w, m), m), w.chunkSize, WriterAfter(w.Stream(m.csid), w.chunkSize, m, n));
    var chunk := EncodeBase(Continuation, m.csid) + m.payload[i..i + k];
    ReaderTurn(r, e.out, ReaderAfter(r, Start(w, m), m, i), d, i);
    MidwayIsAfter(r, Start(w, m), m, i, k);
    WriterTurn(w.Stream(m.csid), k, m, n, i);
    ContinueTurn(m.csid, m.typ, m.payload, i, k);
    var more := Continue(m.csid, m.typ, m.payload[i + k..], k);
    assert e.out + (chunk + more.out) == e.out + chunk + more.out;
    assert m.payload[..i + k] + m.payload[i + k..] == m.payload;
  }

  lemma MidwayIsAfter(r: Reader, h: ChunkHeader, m: Message, i: nat, k: nat)
    requires Resolve(r.Stream(m.csid), Carried(h)).Some? && r.chunkSize == k > 0 && k <= i && i + k <= |m.payload|
    ensures ReaderAfter(r, h, m, i).Stream(m.csid).last.Some?
    ensures Midway(ReaderAfter(r, h, m, i), Delivered(r, h, m), i + k) == ReaderAfter(r, h, m, i + k)
  {
    hide Resolve;
    var r1 := ReaderAfter(r, h, m, i);
    var r2 := Midway(r1, Delivered(r, h, m), i + k);
    assert r2.streams == ReaderAfter(r, h, m, i + k).streams;
  }

  lemma WriterTurn(os: OutStream, chunkSize: uint32, m: Message, n: nat, i: nat)
    requires m.csid <= MAX_CSID && n > 0 && m.typ != SET_CHUNK_SIZE && i + chunkSize < |m.payload|
    requires var e := WriterAfter(os, chunkSize, m, n);
             e.Emitted? && e.rest == m.payload[i..] && e.chunkSize == chunkSize
    ensures var chunk := EncodeBase(Continuation, m.csid) + m.payload[i..i + chunkSize];
            WriterAfter(os, chunkSize, m, n + 1)
            == Emitted(WriterAfter(os, chunkSize, m, n).out + chunk, m.payload[i + chunkSize..], chunkSize)
  {
    hide EncodeBase, ChooseHeader;
    assert Encode(ContinuationHeader(m.csid)) == EncodeBase(Continuation, m.csid);
    assert m.payload[i..][..chunkSize] == m.payload[i..i + chunkSize];
    assert m.payload[i..][chunkSize..] == m.payload[i + chunkSize..];
  }

  lemma ContinueTurn(csid: uint32, typ: byte, payload: bytes, i: nat, k: uint32)
    requires csid <= MAX_CSID && typ != SET_CHUNK_SIZE && 0 < k && i + k < |payload|
    ensures var more := Continue(csid, typ, payload[i + k..], k);
            && more.Run? && more.chunkSize == k
            && Continue(csid, typ, payload[i..], k)
               == Run(EncodeBase(Continuation, csid) + payload[i..i + k] + more.out, k)
  {
    var base := EncodeBase(Continuation, csid);
    ContinueIsFramed(csid, typ, payload[i..], k);
    ContinueIsFramed(csid, typ, payload[i + k..], k);
    FramedStep(base, payload, i, k);
  }

  lemma OneLess(n: nat, k: nat)
    requires n > 0
    ensures (n - 1) * k + k == n * k && (n > 1 ==> k <= (n - 1) * k)
  {
    assert n > 1 ==> (n - 1) * k == (n - 2) * k + k;
  }

  /** Every boundary inside a message. */
  lemma {:induction false} BoundariesOfMessage(w: Writer, r: Reader, m: Message, n: nat)
    requires Lockstep(w, r) && Sendable(w, m) && n > 0 && n * w.chunkSize < |m.payload|
    ensures var e := WriterAfter(w.Stream(m.csid), w.chunkSize, m, n);
            && AtBoundary(w, r, m, e, ReaderAfter(r, Start(w, m), m, n * w.chunkSize))
            && e.chunkSize == w.chunkSize && e.rest == m.payload[n * w.chunkSize..]
  {
    hide AtBoundary, Sendable, Lockstep, WriteMessage, ReaderAfter, WriterAfter, ChooseHeader;
    LockstepSizes(w, r);
    OneLess(n, w.chunkSize);
    TypeOfLong(w, m);
    if n == 1 {
      FirstBoundary(w, r, m);
    } else {
      BoundariesOfMessage(w, r, m, n - 1);
      NextBoundary(w, r, m, n - 1, (n - 1) * w.chunkSize);
    }
  }

  lemma {:induction false} AllSendableSnoc(w: Writer, ms: seq<Message>, m: Message)
    requires w.chunkSize > 0 && AllSendable(w, ms + [m])
    ensures AllSendable(w, ms) && (forall x <- ms :: x.csid <= MAX_CSID) && m.csid <= MAX_CSID
    ensures WriteAll(w, ms).Wrote? && Sendable(WriteAll(w, ms).writer, m)
    decreases |ms|
  {
    hide Sendable, WriteMessage;
    if ms == [] {
      assert ([] + [m])[0] == m;
      SendableInRange(w, m);
    } else {
      assert (ms + [m])[0] == ms[0] && (ms + [m])[1..] == ms[1..] + [m];
      SendableInRange(w, ms[0]);
      AllSendableSnoc(WriteMessage(w, ms[0]).writer, ms[1..], m);
    }
  }

  lemma SendableInRange(w: Writer, m: Message)
    requires Sendable(w, m)
    ensures m.csid <= MAX_CSID
  {
  }

  /** The same in a run that has sent `sent` before `m`, of which reader `r0` has made `r` and `out`. */
  ghost predicate RunAtBoundary(r0: Reader, sent: bytes, out: seq<InMessage>, w: Writer, r: Reader, m: Message, n: nat)
    requires m.csid <= MAX_CSID && w.chunkSize > 0 && n > 0 && n * w.chunkSize < |m.payload|
  {
    var e := WriterAfter(w.Stream(m.csid), w.chunkSize, m, n);
    var r' := ReaderAfter(r, Start(w, m), m, n * w.chunkSize);
    && AtBoundary(w, r, m, e, r')
    && e.chunkSize == w.chunkSize && e.rest == m.payload[n * w.chunkSize..]
    && Reads(r0, sent + e.out, r', out)
  }

  lemma BoundaryInRun(r0: Reader, sent: bytes, out: seq<InMessage>, w: Writer, r: Reader, m: Message, n: nat)
    requires Lockstep(w, r) && Sendable(w, m) && n > 0 && n * w.chunkSize < |m.payload| && m.csid <= MAX_CSID
    requires Reads(r0, sent, r, out)
    ensures RunAtBoundary(r0, sent, out, w, r, m, n)
  {
    hide Sendable, Lockstep, Feeds, WriterAfter, ReaderAfter, MidMessage, Continue, WriteMessage, ChooseHeader;
    LockstepSizes(w, r);
    BoundariesOfMessage(w, r, m, n);
    var e := WriterAfter(w.Stream(m.csid), w.chunkSize, m, n);
    var r' := ReaderAfter(r, Start(w, m), m, n * w.chunkSize);
    FeedsThen(ReadAll, r0, sent, r, out, e.out, r', []);
    assert out + [] == out;
  }

  /**
   * At every chunk boundary of a run both ends have the same chunk size. At the `n`-th boundary
   * inside a message, whatever was sent before it, the reader has delivered just the messages
   * before, holds exactly what the writer has taken off the payload, and has a last header that
   * lets the rest complete the message; what the writer sends from there on ends the message.
   */
  lemma ChunkBoundaryLockstep(w: Writer, r: Reader, before: seq<Message>, m: Message, n: nat)
    requires Lockstep(w, r) && AllSendable(w, before + [m]) && n > 0
    ensures AllSendable(w, before) && forall x <- before :: x.csid <= MAX_CSID
    ensures WriteAll(w, before).Wrote? && m.csid <= MAX_CSID
    ensures var sent := WriteAll(w, before);
            var (r', out) := AbsorbAll(w, r, before);
            && Lockstep(sent.writer, r') && Reads(r, sent.out, r', out) && AllDelivered(NonEmpty(before), out)
            && (n * sent.writer.chunkSize < |m.payload| ==> RunAtBoundary(r, sent.out, out, sent.writer, r', m, n))
  {
    hide AllSendable, Sendable, Feeds, WriteAll, AbsorbAll, RunAtBoundary, NonEmpty, StreamLockstep, SameMessage;
    AllSendableSnoc(w, before, m);
    ReadsAll(w, r, before);
    var sent := WriteAll(w, before);
    var (r', out) := AbsorbAll(w, r, before);
    if n * sent.writer.chunkSize < |m.payload| {
      BoundaryInRun(r, sent.out, out, sent.writer, r', m, n);
    }
  }

  // ----- Nothing is delivered before its last byte -----

  /** Read up to any point before its end, `b` delivers nothing. */
  ghost predicate Silent(r: Reader, b: bytes) {
    forall p: bytes | p < b :: ReadAll(r, p).out == []
  }

  lemma PartOfChunk(r: Reader, chunk: bytes, p: bytes)
    requires var c := ReadChunk(r, chunk); c.Got? && c.n == |chunk|
    requires p < chunk
    ensures ReadAll(r, p).out == []
  {
    hide ReadChunk;
    var c := ReadChunk(r, p);
    if c.Got? {
      assert p[..c.n] + chunk[c.n..] == chunk;
      ReadChunkLocal(r, r, p, chunk[c.n..]);
    }
  }

  lemma ChunkIsSilent(r: Reader, chunk: bytes, r': Reader, out: Option<InMessage>)
    requires Consumes(r, chunk, r', out)
    ensures Silent(r, chunk)
  {
    hide ReadChunk, ReadAll;
    assert ReadChunk(r, chunk + []) == Got(|chunk|, r', out);
    assert chunk + [] == chunk;
    hide Takes;
    forall p: bytes | p < chunk
      ensures ReadAll(r, p).out == []
    {
      PartOfChunk(r, chunk, p);
    }
  }

  /** A silent chunk before silent bytes. */
  lemma SilentThen(r: Reader, chunk: bytes, r1: Reader, b: bytes)
    requires Consumes(r, chunk, r1, None) && Silent(r1, b)
    ensures Silent(r, chunk + b)
  {
    hide ReadAll, ReadChunk;
    ChunkIsSilent(r, chunk, r1, None);
    ReadsChunk(r, chunk, r1, None);
    forall p: bytes | p < chunk + b
      ensures ReadAll(r, p).out == []
    {
      if |p| < |chunk| {
        assert p < chunk;
      } else {
        var q := p[|chunk|..];
        assert p == chunk + q && q < b;
        assert ReadAll(r, chunk + q) == Prefixed([], |chunk|, ReadAll(r1, q));
      }
    }
  }

  lemma {:induction false} PiecesAreSilent(r: Reader, d: InMessage, i: nat, base: bytes)
    requires MidMessage(r, d, i) && base == EncodeBase(Continuation, d.csid) && Completed(r, d).Some?
    ensures Silent(r, Framed(base, Pieces(d.buf[i..], r.chunkSize)))
    decreases |d.buf| - i
  {
    hide Takes, Silent, EncodeBase, MidMessage, Framed, Pieces, Completed, Handle;
    MidMessageRange(r, d, i);
    FramedStep(base, d.buf, i, r.chunkSize);
    ContinuationChunk(r, d, i);
    if i + r.chunkSize < |d.buf| {
      var r1 := Midway(r, d, i + r.chunkSize);
      MidwayStep(r, d, i);
      PiecesAreSilent(r1, d, i + r.chunkSize, base);
      SilentThen(r, base + d.buf[i..i + r.chunkSize], r1, Framed(base, Pieces(d.buf[i + r.chunkSize..], r.chunkSize)));
    } else {
      assert d.buf[i..|d.buf|] == d.buf[i..];
      ChunkIsSilent(r, base + d.buf[i..], Completed(r, d).value, Some(d));
    }
  }

  lemma MidMessageRange(r: Reader, d: InMessage, i: nat)
    requires MidMessage(r, d, i)
    ensures r.chunkSize > 0 && 0 < i < |d.buf| && r.Stream(d.csid).last.Some?
  {
  }

  /** Of a message nothing is delivered before its last byte has arrived. */
  lemma MessageIsSilent(w: Writer, r: Reader, m: Message)
    requires Lockstep(w, r) && Sendable(w, m) && m.payload != []
    ensures WriteMessage(w, m).Wrote? && Silent(r, WriteMessage(w, m).out)
  {
    hide Takes, Silent, Sendable, Continue, Encode, EncodeBase, Lockstep, Resolve, MidMessage, Readable, Absorb;
    hide Completed, Delivered, AfterFirst, OutAfter, ChunkSizeAfter, SameMessage, WriteMessage, ChooseHeader;
    LockstepSizes(w, r);
    SendableIsReadable(w, r, m);
    WritesMessage(w, m);
    var h := Start(w, m);
    ReadableParts(r, h, m);
    if |m.payload| <= r.chunkSize {
      assert m.payload[|m.payload|..] == [] && m.payload[..|m.payload|] == m.payload;
      OnlyChunk(r, h, m);
      NothingToWrite(m.csid, m.typ, r.chunkSize);
      assert Encode(h) + m.payload + [] == Encode(h) + m.payload;
      ChunkIsSilent(r, Encode(h) + m.payload, Absorb(r, h, m).value, Some(Delivered(r, h, m)));
    } else {
      var (d, r1, base) := (Delivered(r, h, m), AfterFirst(r, h, m), EncodeBase(Continuation, m.csid));
      TypeOfLong(w, m);
      FirstOfSeveral(r, h, m);
      ContinueIsFramed(m.csid, m.typ, m.payload[r.chunkSize..], r.chunkSize);
      PiecesAreSilent(r1, d, r.chunkSize, base);
      var more := Framed(base, Pieces(m.payload[r.chunkSize..], r.chunkSize));
      SilentThen(r, Encode(h) + m.payload[..r.chunkSize], r1, more);
    }
  }
}
