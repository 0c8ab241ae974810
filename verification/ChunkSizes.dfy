/** New chunk sizes: when both ends go on with the same one, and when the writer panics over one. */
module ChunkSizes {
  import opened Bytes
  import opened Defines
  import opened HeaderSpec
  import opened WriterSpec
  import opened ReaderSpec
  import opened RoundTrip
  import opened Divergence

  // ----- What the writer makes of the payload it is sending -----

  /** Its chunk size when all of `buf` has gone out: every chunk is taken for a new one. */
  function SizeAfter(buf: bytes, size: uint32): (after: uint32)
    requires size > 0
    ensures after > 0
    decreases |buf|
  {
    if |buf| < 4 then size else SizeAfter(buf[Min(|buf|, size)..], ChunkSizeAfter(SET_CHUNK_SIZE, buf, size))
  }

  /** Some chunk but the last leaves fewer than four bytes to the next. */
  predicate RunsShort(buf: bytes, size: uint32)
    requires size > 0
    decreases |buf|
  {
    buf != [] &&
    (|buf| < 4 || RunsShort(buf[Min(|buf|, size)..], ChunkSizeAfter(SET_CHUNK_SIZE, buf, size)))
  }

  /** The writer cuts the payload as a reader with chunk size `size'` expects, in spite of new sizes. */
  predicate InStep(buf: bytes, size: uint32, size': uint32)
    requires size > 0 && size' > 0
    decreases |buf|
  {
    buf == [] ||
    (|buf| >= 4 && Min(|buf|, size) == Min(|buf|, size')
     && InStep(buf[Min(|buf|, size)..], ChunkSizeAfter(SET_CHUNK_SIZE, buf, size), size'))
  }

  // ----- Panics -----

  lemma {:induction false} ContinuePanics(csid: uint32, buf: bytes, size: uint32)
    requires csid <= MAX_CSID && size > 0
    ensures Continue(csid, SET_CHUNK_SIZE, buf, size) == Crash <==> RunsShort(buf, size)
    decreases |buf|
  {
    hide EncodeBase, BE32;
    if |buf| >= 4 {
      ContinuePanics(csid, buf[Min(|buf|, size)..], ChunkSizeAfter(SET_CHUNK_SIZE, buf, size));
    }
  }

  /**
   * The writer panics exactly if it takes fewer than four bytes at the end of a new chunk size for
   * one; for one of four bytes, exactly if it does not fit in a chunk.
   */
  lemma PanicsExactly(w: Writer, m: Message)
    requires m.csid <= MAX_CSID && w.chunkSize > 0
    ensures WriteMessage(w, m) == WriteCrash <==> m.typ == SET_CHUNK_SIZE && RunsShort(m.payload, w.chunkSize)
    ensures |m.payload| == 4 ==> (RunsShort(m.payload, w.chunkSize) <==> w.chunkSize < 4)
  {
    hide EncodeBase, CompressedHeader, BE32;
    ChosenCsid(w.Stream(m.csid), m);
    var k := Min(|m.payload|, w.chunkSize);
    if m.payload == [] {
    } else if m.typ != SET_CHUNK_SIZE {
      ContinueIsFramed(m.csid, m.typ, m.payload[k..], w.chunkSize);
    } else if |m.payload| >= 4 {
      ContinuePanics(m.csid, m.payload[k..], ChunkSizeAfter(m.typ, m.payload, w.chunkSize));
    }
  }

  /** An example: after a chunk size of 2, the next one makes a fresh writer panic. */
  lemma PanicExample(payload: bytes)
    requires |payload| == 4
    ensures var two := Message(CS_ID_PROTOCOL_CONTROL, SET_CHUNK_SIZE, 0, 0, [0, 0, 0, 2]);
            WriteAll(FRESH_WRITER, [two, two.(payload := payload)]) == WriteCrash
  {
    hide Encode, WriteMessage;
    var two := Message(CS_ID_PROTOCOL_CONTROL, SET_CHUNK_SIZE, 0, 0, [0, 0, 0, 2]);
    var next := two.(payload := payload);
    WritesOneChunk(FRESH_WRITER, two);
    var w := WriteMessage(FRESH_WRITER, two).writer;
    PanicsExactly(w, next);
    assert [two, next][1..] == [next];
    assert WriteAll(w, [next]) == WriteCrash;
  }

  // ----- Agreement -----

  lemma {:induction false} ContinueInStep(csid: uint32, buf: bytes, size: uint32, size': uint32)
    requires csid <= MAX_CSID && size > 0 && size' > 0 && InStep(buf, size, size')
    ensures Continue(csid, SET_CHUNK_SIZE, buf, size)
         == Run(Framed(EncodeBase(Continuation, csid), Pieces(buf, size')), SizeAfter(buf, size))
    decreases |buf|
  {
    hide EncodeBase, BE32;
    if buf != [] {
      var k := Min(|buf|, size);
      ContinueInStep(csid, buf[k..], ChunkSizeAfter(SET_CHUNK_SIZE, buf, size), size');
      assert Encode(ContinuationHeader(csid)) == EncodeBase(Continuation, csid);
      assert Pieces(buf, size')[1..] == Pieces(buf[k..], size');
    }
  }

  lemma WritesInStep(w: Writer, m: Message)
    requires m.csid <= MAX_CSID && w.chunkSize > 0 && m.payload != [] && m.typ == SET_CHUNK_SIZE
    requires InStep(m.payload, w.chunkSize, w.chunkSize)
    ensures var (sent, k) := (WriteMessage(w, m), Min(|m.payload|, w.chunkSize));
            && sent.Wrote? && sent.writer.chunkSize == SizeAfter(m.payload, w.chunkSize)
            && sent.out == Encode(Start(w, m)) + m.payload[..k]
                           + Framed(EncodeBase(Continuation, m.csid), Pieces(m.payload[k..], w.chunkSize))
  {
    hide EncodeBase, CompressedHeader, BE32, Framed, Pieces;
    var k := Min(|m.payload|, w.chunkSize);
    ChosenCsid(w.Stream(m.csid), m);
    ContinueInStep(m.csid, m.payload[k..], ChunkSizeAfter(m.typ, m.payload, w.chunkSize), w.chunkSize);
  }

  /** A message cut as the reader expects is read, whatever its type. */
  lemma ReadsFramed(r: Reader, h: ChunkHeader, m: Message)
    requires Readable(r, h, m) && Absorb(r, h, m).Some?
    ensures r.chunkSize > 0
    ensures var k := Min(|m.payload|, r.chunkSize);
            Reads(r, Encode(h) + m.payload[..k]
                     + Framed(EncodeBase(Continuation, m.csid), Pieces(m.payload[k..], r.chunkSize)),
                  Absorb(r, h, m).value, [Delivered(r, h, m)])
  {
    hide Takes, Feeds, Encode, EncodeBase, Resolve, MidMessage, Completed, Absorb, Delivered, AfterFirst;
    ReadableParts(r, h, m);
    var (d, r', base) := (Delivered(r, h, m), Absorb(r, h, m).value, EncodeBase(Continuation, m.csid));
    if |m.payload| <= r.chunkSize {
      var chunk := Encode(h) + m.payload;
      assert m.payload[|m.payload|..] == [] && m.payload[..|m.payload|] == m.payload;
      OnlyChunk(r, h, m);
      ReadsChunk(r, chunk, r', Some(d));
      assert chunk + [] == chunk;
    } else {
      var (chunk, r1) := (Encode(h) + m.payload[..r.chunkSize], AfterFirst(r, h, m));
      FirstOfSeveral(r, h, m);
      ReadsChunk(r, chunk, r1, None);
      ReadsPieces(r1, d, r.chunkSize, base, r');
      FeedsThen(ReadAll, r, chunk, r1, [], Framed(base, Pieces(m.payload[r.chunkSize..], r.chunkSize)), r', [d]);
      assert [] + [d] == [d];
    }
  }

  /**
   * The writer obeys what it takes for new chunk sizes on any chunk stream and with every chunk, but
   * ignores 0; the reader obeys the completed message, on chunk stream 2 only, 0 included. For a
   * message cut as the reader expects, in one chunk or more, this is exactly when they stay together.
   */
  lemma ChunkSizesAgree(w: Writer, r: Reader, m: Message)
    requires Lockstep(w, r) && CsidSurvives(m.csid)
    requires m.typ == SET_CHUNK_SIZE && 4 <= |m.payload| < 0x100_0000
    requires w.chunkSize > 0 ==> InStep(m.payload, w.chunkSize, w.chunkSize)
    requires |m.payload| <= w.chunkSize || Followable(w, m)
    ensures w.chunkSize > 0 && WriteMessage(w, m).Wrote?
    ensures var sent := WriteMessage(w, m);
            var run := ReadAll(r, sent.out);
            var size := if m.csid == CS_ID_PROTOCOL_CONTROL && Followable(w, m) then BE32(m.payload) else w.chunkSize;
            && (if Followable(w, m) then run.used == |sent.out| && |run.out| == 1 && SameMessage(m, run.out[0])
                else run.out == [])
            && (sent.writer.chunkSize == run.reader.chunkSize <==> SizeAfter(m.payload, w.chunkSize) == size)
  {
    hide ReadAll, WriteMessage, Encode, Lockstep, SizeAfter, BE32, InStep, Start, EncodeBase;
    LockstepSizes(w, r);
    WritesInStep(w, m);
    if Followable(w, m) {
      StartReadable(w, r, m);
      var h := Start(w, m);
      ReadsFramed(r, h, m);
      ReadsToEnd(r, WriteMessage(w, m).out, Absorb(r, h, m).value, [Delivered(r, h, m)]);
    } else {
      BareStartWaits(w, r, m);
    }
  }

  lemma StartReadable(w: Writer, r: Reader, m: Message)
    requires Lockstep(w, r) && CsidSurvives(m.csid) && Followable(w, m)
    requires m.typ == SET_CHUNK_SIZE && 4 <= |m.payload| < 0x100_0000
    ensures var h := Start(w, m);
            && Readable(r, h, m) && Absorb(r, h, m).Some? && SameMessage(m, Delivered(r, h, m))
            && Absorb(r, h, m).value.chunkSize
               == if m.csid == CS_ID_PROTOCOL_CONTROL then BE32(m.payload) else r.chunkSize
  {
    hide BE32, CompressedHeader;
    LockstepStream(w, r, m.csid);
    HeaderExpands(w.Stream(m.csid), r.Stream(m.csid), m);
  }

  /** With a single chunk: on chunk stream 2 always but for 0, on others if the size stays what it is. */
  lemma OneChunkAgrees(w: Writer, r: Reader, m: Message)
    requires Lockstep(w, r) && CsidSurvives(m.csid) && Followable(w, m)
    requires m.typ == SET_CHUNK_SIZE && 4 <= |m.payload| <= w.chunkSize && |m.payload| < 0x100_0000
    ensures var (sent, value) := (WriteMessage(w, m), BE32(m.payload));
            sent.Wrote? &&
            (sent.writer.chunkSize == ReadAll(r, sent.out).reader.chunkSize
             <==> if m.csid == CS_ID_PROTOCOL_CONTROL then value != 0 else value == 0 || value == w.chunkSize)
  {
    hide ReadAll, WriteMessage, Lockstep, BE32, Start, Followable;
    assert m.payload[|m.payload|..] == [];
    assert InStep([], ChunkSizeAfter(SET_CHUNK_SIZE, m.payload, w.chunkSize), w.chunkSize);
    ChunkSizesAgree(w, r, m);
  }

  // ----- Examples from fresh ends -----

  /** 4096 bytes announced on chunk stream 3 make the ends disagree. */
  lemma ChunkSizeExample()
    ensures var m := Message(CS_ID_COMMAND, SET_CHUNK_SIZE, 0, 0, [0, 0, 0x10, 0]);
            var sent := WriteMessage(FRESH_WRITER, m);
            sent.Wrote? && sent.writer.chunkSize == 4096 && ReadAll(FRESH_READER, sent.out).reader.chunkSize == 128
  {
    FreshExample(Message(CS_ID_COMMAND, SET_CHUNK_SIZE, 0, 0, [0, 0, 0x10, 0]));
  }

  /** So do 200 bytes on chunk stream 2 with 4096 at their start and 512 where the second chunk starts. */
  lemma LongChunkSizeExample(payload: bytes)
    requires |payload| == 200 && BE32(payload) == 4096 && BE32(payload[128..]) == 512
    ensures var m := Message(CS_ID_PROTOCOL_CONTROL, SET_CHUNK_SIZE, 0, 0, payload);
            var sent := WriteMessage(FRESH_WRITER, m);
            sent.Wrote? && sent.writer.chunkSize == 512 && ReadAll(FRESH_READER, sent.out).reader.chunkSize == 4096
  {
    hide BE32;
    assert payload[128..][72..] == [];
    assert InStep([], 512, 128) && InStep(payload[128..], 4096, 128);
    assert SizeAfter([], 512) == 512 && SizeAfter(payload[128..], 4096) == 512;
    FreshExample(Message(CS_ID_PROTOCOL_CONTROL, SET_CHUNK_SIZE, 0, 0, payload));
  }

  lemma FreshExample(m: Message)
    requires CsidSurvives(m.csid) && m.typ == SET_CHUNK_SIZE && 4 <= |m.payload| < 0x100_0000 && m.timestamp == 0
    requires InStep(m.payload, DEFAULT_CHUNK_SIZE, DEFAULT_CHUNK_SIZE)
    ensures var sent := WriteMessage(FRESH_WRITER, m);
            && sent.Wrote? && sent.writer.chunkSize == SizeAfter(m.payload, DEFAULT_CHUNK_SIZE)
            && ReadAll(FRESH_READER, sent.out).reader.chunkSize
               == if m.csid == CS_ID_PROTOCOL_CONTROL then BE32(m.payload) else DEFAULT_CHUNK_SIZE
  {
    hide ReadAll, WriteMessage, Encode, EncodeBase, SizeAfter, InStep, BE32;
    FreshLockstep();
    StartReadable(FRESH_WRITER, FRESH_READER, m);
    var h := Start(FRESH_WRITER, m);
    WritesInStep(FRESH_WRITER, m);
    ReadsFramed(FRESH_READER, h, m);
    ReadsToEnd(FRESH_READER, WriteMessage(FRESH_WRITER, m).out, Absorb(FRESH_READER, h, m).value,
               [Delivered(FRESH_READER, h, m)]);
  }
}
