/** The writer object of chunkstreamwriter.go, proved against WriterSpec. */
module ChunkWriter {
  import opened Bytes
  import opened Defines
  import opened HeaderSpec
  import W = WriterSpec
  import A = Allocation
  import opened ByteStreams
  import opened HeaderCodec
  import opened MessageObject

  const HIGH_PRIORITY := 0
  const MEDIUM_PRIORITY := 1
  const LOW_PRIORITY := 2

  class OutChunkStream {
    const priority: int  // of the queue its messages go through
    var lastHeader: Header?
    var lastAbsoluteTimestamp: uint32
    var currentMessage: Message?

    constructor (priority: int)
      ensures Value() == W.FRESH_OUT && lastHeader == null && this.priority == priority
    {
      this.priority := priority;
      lastHeader, lastAbsoluteTimestamp, currentMessage := null, 0, null;
    }

    function Value(): W.OutStream
      reads this, lastHeader
    {
      W.OutStream(if lastHeader == null then None else Some(lastHeader.Value()), lastAbsoluteTimestamp)
    }

    method NewHeader(msg: Message) returns (header: Header)
      requires msg == currentMessage && msg.size == |msg.buf|
      modifies this`lastHeader, this`lastAbsoluteTimestamp
      ensures fresh(header) && lastHeader == header
      ensures header.Value() == W.ChooseHeader(old(Value()), msg.Outgoing())
      ensures lastAbsoluteTimestamp == msg.timestamp
    {
      ghost var os, m := Value(), msg.Outgoing();
      SmallWrap(msg.size);
      header := new Header();
      header.chunkStreamID := msg.chunkStreamID;
      header.messageLength := msg.size;
      header.messageTypeID := msg.typ;
      header.messageStreamID := msg.streamID;

      var timestamp := msg.timestamp;
      var deltaTimestamp := 0;
      if lastAbsoluteTimestamp < msg.timestamp {
        deltaTimestamp := msg.timestamp - lastAbsoluteTimestamp;
      } else {
        lastHeader := null;  // forces a full header: a delta cannot be negative
      }
      if lastHeader == null {
        header.fmt := Full;
        header.timestamp := timestamp;
      } else if header.messageStreamID == lastHeader.messageStreamID {
        if header.messageTypeID == lastHeader.messageTypeID && header.messageLength == lastHeader.messageLength {
          if lastHeader.fmt == Full {
            header.fmt := SameLengthAndStream;
            header.timestamp := deltaTimestamp;
          } else if lastHeader.timestamp == deltaTimestamp {
            header.fmt := Continuation;
          } else {
            header.fmt := SameLengthAndStream;
            header.timestamp := deltaTimestamp;
          }
        } else {
          header.fmt := SameStream;
          header.timestamp := deltaTimestamp;
        }
      } else {
        header.fmt := Full;
        header.timestamp := timestamp;
      }
      assert header.Value() == W.CompressedHeader(os, m);
      if header.timestamp >= EXTENDED {
        header.extendedTimestamp := msg.timestamp;
        header.timestamp := EXTENDED;
      } else {
        header.extendedTimestamp := 0;
      }
      lastHeader := header;
      lastAbsoluteTimestamp := timestamp;
    }
  }

  datatype CreateResult = Created(csid: uint32) | ErrInvalidPriority | ErrMaxChunkStreams

  class ChunkStreamWriter {
    var chunkSize: uint32
    var windowSize: uint32
    var chunkStreams: map<uint32, OutChunkStream>

    constructor ()
      ensures Valid() && chunkSize == DEFAULT_CHUNK_SIZE && windowSize == DEFAULT_WINDOW_SIZE
      ensures chunkStreams.Keys == {CS_ID_PROTOCOL_CONTROL, CS_ID_COMMAND, CS_ID_USER_CONTROL}
      ensures forall csid <- chunkStreams ::
                && fresh(chunkStreams[csid]) && chunkStreams[csid].Value() == W.FRESH_OUT
                && chunkStreams[csid].priority == if csid == CS_ID_USER_CONTROL then MEDIUM_PRIORITY else HIGH_PRIORITY
    {
      var control := new OutChunkStream(HIGH_PRIORITY);
      var command := new OutChunkStream(HIGH_PRIORITY);
      var user := new OutChunkStream(MEDIUM_PRIORITY);
      chunkSize, windowSize := DEFAULT_CHUNK_SIZE, DEFAULT_WINDOW_SIZE;
      chunkStreams := map[CS_ID_PROTOCOL_CONTROL := control, CS_ID_COMMAND := command, CS_ID_USER_CONTROL := user];
    }

    ghost function Headers(): set<object>
      reads this, chunkStreams.Values
    {
      set cs <- chunkStreams.Values | cs.lastHeader != null :: cs.lastHeader
    }

    ghost predicate Valid()
      reads this
    {
      && chunkSize > 0
      && (forall csid <- chunkStreams :: CS_ID_BASE <= csid < CS_ID_MAX)
      && forall c, d | c in chunkStreams && d in chunkStreams && c != d :: chunkStreams[c] != chunkStreams[d]
    }

    ghost function Value(): W.Writer
      reads this, chunkStreams.Values, Headers()
    {
      W.Writer(chunkSize, map csid | csid in chunkStreams :: chunkStreams[csid].Value())
    }

    /** Registers the first free id; the streams registered before keep their state. */
    method CreateChunkStream(p: int) returns (r: CreateResult)
      requires Valid()
      modifies this`chunkStreams
      ensures Valid()
      ensures !(HIGH_PRIORITY <= p <= LOW_PRIORITY) ==> r == ErrInvalidPriority
      ensures HIGH_PRIORITY <= p <= LOW_PRIORITY ==>
                match A.FirstFree(old(chunkStreams.Keys), CS_ID_BASE, CS_ID_MAX)
                case None => r == ErrMaxChunkStreams
                case Some(csid) => r == Created(csid)
      ensures match r
              case Created(csid) =>
                && chunkStreams.Keys == old(chunkStreams.Keys) + {csid}
                && (forall c <- old(chunkStreams) :: chunkStreams[c] == old(chunkStreams[c]))
                && fresh(chunkStreams[csid]) && chunkStreams[csid].priority == p
                && chunkStreams[csid].Value() == W.FRESH_OUT
              case _ => chunkStreams == old(chunkStreams)
    {
      if !(HIGH_PRIORITY <= p <= LOW_PRIORITY) {
        return ErrInvalidPriority;
      }
      var i: uint32 := CS_ID_BASE;
      while i < CS_ID_MAX
        invariant CS_ID_BASE <= i <= CS_ID_MAX && chunkStreams == old(chunkStreams)
        invariant A.FirstFree(chunkStreams.Keys, CS_ID_BASE, CS_ID_MAX) == A.FirstFree(chunkStreams.Keys, i, CS_ID_MAX)
      {
        if i !in chunkStreams {
          var cs := new OutChunkStream(p);
          chunkStreams := chunkStreams[i := cs];
          return Created(i);
        }
        i := i + 1;
      }
      return ErrMaxChunkStreams;
    }

    /** The next chunk of the current message of `cs`. */
    method WriteChunk(w: ByteSink, cs: OutChunkStream, msg: Message) returns (count: nat)
      requires chunkSize > 0 && cs.currentMessage == msg && msg.buf != [] && |msg.buf| <= msg.size
      requires msg.chunkStreamID <= MAX_CSID
      requires msg.typ == SET_CHUNK_SIZE ==> |msg.buf| >= 4
      modifies w, this`chunkSize, cs`lastHeader, cs`lastAbsoluteTimestamp, msg`buf
      ensures var first := |old(msg.buf)| == msg.size;
              var h := if first then W.ChooseHeader(old(cs.Value()), old(msg.Outgoing()))
                       else W.ContinuationHeader(msg.chunkStreamID);
              var e := W.EmitChunk(h, msg.typ, old(msg.buf), old(chunkSize));
              && e.Emitted?
              && w.output == old(w.output) + e.out && count == |e.out|
              && msg.buf == e.rest && chunkSize == e.chunkSize > 0
              && (if first then cs.Value() == W.OutStream(Some(h), msg.timestamp) && fresh(cs.lastHeader)
                  else unchanged(cs))
    {
      hide Encode;
      var header;
      if |msg.buf| != msg.size {
        header := new Header();
        header.chunkStreamID := msg.chunkStreamID;
        header.fmt := Continuation;
      } else {
        header := cs.NewHeader(msg);
      }
      ghost var h := header.Value();
      var n, ok := header.Write(w);
      count := n;
      var remain := |msg.buf|;
      if remain > chunkSize {
        remain := chunkSize;
      }
      var tmpChunkSize: uint32 := 0;
      if msg.typ == SET_CHUNK_SIZE {
        tmpChunkSize := BE32(msg.buf);
      }
      n := w.Write(msg.buf[..remain]);
      msg.buf := msg.buf[remain..];
      count := count + n;
      if tmpChunkSize != 0 {
        chunkSize := tmpChunkSize;
      }
      assert w.output == old(w.output) + (Encode(h) + old(msg.buf)[..remain]);
    }

    /** All chunks of a message on the stream `cs`. */
    method WriteMessage(w: ByteSink, msg: Message, cs: OutChunkStream) returns (written: nat)
      requires chunkSize > 0 && msg.chunkStreamID <= MAX_CSID && msg.size == |msg.buf|
      requires W.WriteOn(cs.Value(), chunkSize, msg.Outgoing()).Run?
      modifies w, this`chunkSize, cs, msg`buf
      ensures var r := W.WriteOn(old(cs.Value()), old(chunkSize), old(msg.Outgoing()));
              && w.output == old(w.output) + r.out && written == |r.out|
              && chunkSize == r.chunkSize > 0 && msg.buf == []
      ensures cs.Value() == if old(msg.buf) == [] then old(cs.Value())
                            else W.OutAfter(old(cs.Value()), old(msg.Outgoing()))
      ensures cs.lastHeader == old(cs.lastHeader) || fresh(cs.lastHeader)
    {
      hide W.Remaining, W.EmitChunk;
      ghost var m, os := msg.Outgoing(), cs.Value();
      ghost var r := W.WriteOn(os, chunkSize, m);
      written := 0;
      cs.currentMessage := msg;
      assert r == W.Remaining(os, chunkSize, m, msg.buf);
      while |msg.buf| > 0
        invariant chunkSize > 0 && cs.currentMessage == msg && |msg.buf| <= msg.size
        invariant cs.Value() == if |msg.buf| == msg.size then os else W.OutAfter(os, m)
        invariant if |msg.buf| == msg.size then msg.buf == m.payload && cs.lastHeader == old(cs.lastHeader)
                  else fresh(cs.lastHeader)
        invariant var rest := W.Remaining(os, chunkSize, m, msg.buf);
                  rest.Run? && rest.chunkSize == r.chunkSize && w.output + rest.out == old(w.output) + r.out
        invariant written == |w.output| - |old(w.output)|
      {
        W.RemainingStep(os, chunkSize, m, msg.buf);
        ghost var before := w.output;
        var n := WriteChunk(w, cs, msg);
        written := written + n;
        ghost var rest := W.Remaining(os, chunkSize, m, msg.buf);
        ghost var chunk := w.output[|before|..];
        assert w.output == before + chunk;
        assert w.output + rest.out == before + (chunk + rest.out);
      }
      W.NothingRemaining(os, chunkSize, m);
    }

    /** A chunk stream and its header are as before. */
    twostate predicate Untouched(cs: OutChunkStream)
      reads cs, cs.lastHeader
    {
      unchanged(cs) && (cs.lastHeader != null ==> unchanged(cs.lastHeader))
    }

    /** When only the stream registered for `csi` has changed, so has the value, just there. */
    twostate lemma Reregistered(csi: uint32)
      requires old(Valid()) && chunkSize > 0 && chunkStreams == old(chunkStreams) && csi in chunkStreams
      requires forall c <- chunkStreams | c != csi :: Untouched(chunkStreams[c])
      ensures Valid()
      ensures Value() == W.Writer(chunkSize, old(Value()).streams[csi := chunkStreams[csi].Value()])
    {
      forall c <- chunkStreams | c != csi
        ensures chunkStreams[c].Value() == old(chunkStreams[c].Value())
      {
        assert Untouched(chunkStreams[c]);
      }
    }

    /** The closure of `Send`: a whole message on the stream registered for it. */
    method Transmit(w: ByteSink, msg: Message) returns (written: nat)
      requires Valid() && msg.chunkStreamID in chunkStreams && msg.size == |msg.buf|
      requires W.WriteMessage(Value(), msg.Outgoing()).Wrote?
      modifies w, this`chunkSize, chunkStreams.Values, msg`buf
      ensures Valid() && msg.buf == []
      ensures var r := W.WriteMessage(old(Value()), old(msg.Outgoing()));
              w.output == old(w.output) + r.out && written == |r.out| && Value() == r.writer
    {
      hide W.WriteMessage, W.WriteOn, W.OutAfter, Header.Value;
      ghost var (w0, m) := (Value(), msg.Outgoing());
      var cs := chunkStreams[msg.chunkStreamID];
      assert w0.Stream(m.csid) == cs.Value();
      W.WriteMessageOn(w0, m);
      written := WriteMessage(w, msg, cs);
      Reregistered(msg.chunkStreamID);
      assert m.payload == [] ==> w0.streams[m.csid := cs.Value()] == w0.streams;
    }

    /** A message as `NewMessage` makes it, transmitted. */
    method Serve(w: ByteSink, m: W.Message) returns (written: nat)
      requires Valid() && m.csid in chunkStreams && |m.payload| < 0x1_0000_0000 && m.csid <= MAX_CSID
      requires W.WriteMessage(Value(), m).Wrote?
      modifies w, this`chunkSize, chunkStreams.Values
      ensures Valid()
      ensures var r := W.WriteMessage(old(Value()), m);
              w.output == old(w.output) + r.out && written == |r.out| && Value() == r.writer
    {
      ghost var w0 := Value();
      hide W.WriteMessage;
      SmallWrap(|m.payload|);
      var msg := new Message(m.csid, m.typ, m.streamId, m.timestamp, m.payload);
      assert Value() == w0 && msg.Outgoing() == m;
      written := Transmit(w, msg);
    }

    /**
     * `WriteTo`, for the messages it is handed before the writer is closed, each as `NewMessage`
     * makes it. The closures of `Send` report no bytes, so the count stays 0.
     */
    method WriteTo(w: ByteSink, ms: seq<W.Message>) returns (outBytes: nat)
      requires Valid() && forall m <- ms :: m.csid in chunkStreams && m.csid <= MAX_CSID && |m.payload| < 0x1_0000_0000
      requires W.WriteAll(Value(), ms).Wrote?
      modifies w, this`chunkSize, chunkStreams.Values
      ensures Valid() && outBytes == 0
      ensures W.WriteAll(old(Value()), ms).writer == Value()
      ensures w.output == old(w.output) + W.WriteAll(old(Value()), ms).out
    {
      ghost var r := W.WriteAll(Value(), ms);
      outBytes := 0;
      assert ms[0..] == ms;
      assert Leads(Value(), ms[0..], w.output, r, old(w.output));
      hide *;
      for i := 0 to |ms|
        invariant Valid()
        invariant Leads(Value(), ms[i..], w.output, r, old(w.output))
      {
        LeadsOn(Value(), ms, i, w.output, r, old(w.output));
        var _ := Serve(w, ms[i]);
      }
      assert ms[|ms|..] == [];
      LeadsHome(Value(), w.output, r, old(w.output));
    }
  }

  /** Sending `ms` from state `w`, with `output` written, ends in result `r` after `start`. */
  ghost predicate Leads(w: W.Writer, ms: seq<W.Message>, output: bytes, r: W.Wrote, start: bytes) {
    && w.chunkSize > 0 && (forall m <- ms :: m.csid <= MAX_CSID)
    && var rest := W.WriteAll(w, ms);
       rest.Wrote? && r.Wrote? && rest.writer == r.writer && output + rest.out == start + r.out
  }

  lemma LeadsOn(w: W.Writer, ms: seq<W.Message>, i: nat, output: bytes, r: W.Wrote, start: bytes)
    requires i < |ms| && Leads(w, ms[i..], output, r, start)
    ensures w.chunkSize > 0 && ms[i].csid <= MAX_CSID
    ensures var first := W.WriteMessage(w, ms[i]);
            first.Wrote? && Leads(first.writer, ms[i + 1..], output + first.out, r, start)
  {
    hide W.WriteMessage;
    assert ms[i..][0] == ms[i] && ms[i..][1..] == ms[i + 1..];
    var first := W.WriteMessage(w, ms[i]);
    var rest := W.WriteAll(first.writer, ms[i + 1..]);
    assert output + (first.out + rest.out) == output + first.out + rest.out;
  }

  lemma LeadsHome(w: W.Writer, output: bytes, r: W.Wrote, start: bytes)
    requires Leads(w, [], output, r, start)
    ensures r == W.Wrote(r.out, w) && output == start + r.out
  {
    assert output + [] == output;
  }
}
