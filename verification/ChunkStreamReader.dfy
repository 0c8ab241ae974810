/** The reader object of chunkstreamreader.go, proved against ReaderSpec. */
module ChunkReader {
  import opened Bytes
  import opened Defines
  import opened HeaderSpec
  import R = ReaderSpec
  import K = Acknowledge
  import opened ByteStreams
  import opened HeaderCodec
  import opened MessageObject

  /** The receiver of messages and window reports, which remembers what it was told. */
  class Handler {
    var messages: seq<R.InMessage>
    var acks: seq<uint32>

    constructor ()
      ensures messages == [] && acks == []
    {
      messages, acks := [], [];
    }

    method OnMessage(msg: Message)
      modifies this`messages
      ensures messages == old(messages) + [msg.Incoming()]
    {
      messages := messages + [msg.Incoming()];
    }

    method OnWindowFull(count: uint32)
      modifies this`acks
      ensures acks == old(acks) + [count]
    {
      acks := acks + [count];
    }
  }

  class InChunkStream {
    const id: uint32
    var lastHeader: Header?
    var lastAbsoluteTimestamp: uint32
    var currentMessage: Message?

    constructor (id: uint32)
      ensures this.id == id && lastHeader == null && currentMessage == null && Value() == R.FRESH_IN
    {
      this.id := id;
      lastHeader, lastAbsoluteTimestamp, currentMessage := null, 0, null;
    }

    function Value(): R.InStream
      reads this, lastHeader, currentMessage
    {
      R.InStream(if lastHeader == null then None else Some(lastHeader.Value()), lastAbsoluteTimestamp,
                 if currentMessage == null then None else Some(currentMessage.Incoming()))
    }

    /** The message under way carries the id of this chunk stream. */
    predicate OwnsMessage()
      reads this
    {
      currentMessage != null ==> currentMessage.chunkStreamID == id
    }
  }

  datatype ReadError = NoError | ErrEof | ErrInvalidChunkHeader

  /** The error a chunk that cannot be read ends in. */
  function ErrorOf(c: R.ChunkRead): ReadError {
    match c
    case Got(_, _, _) => NoError
    case Invalid => ErrInvalidChunkHeader
    case _ => ErrEof
  }

  /** The inheritance step of `readChunk`, applied to a header object in place. */
  method Inherit(cs: InChunkStream, header: Header) returns (absolute: uint32, ok: bool)
    requires cs.lastHeader != header
    modifies header, cs`lastHeader
    ensures match R.Resolve(old(cs.Value()), old(header.Value()))
            case None => !ok
            case Some((h, a)) => ok && header.Value() == h && absolute == a && cs.lastHeader == header
    ensures header.chunkStreamID == old(header.chunkStreamID) && header.fmt == old(header.fmt)
  {
    absolute, ok := 0, true;
    match header.fmt {
    case Full =>
      absolute := header.timestamp;
    case SameStream =>
      if cs.lastHeader == null {
        ok := false;
        return;
      }
      header.messageStreamID := cs.lastHeader.messageStreamID;
      absolute := Wrap32(cs.lastAbsoluteTimestamp + header.timestamp);
    case SameLengthAndStream =>
      if cs.lastHeader == null {
        ok := false;
        return;
      }
      header.messageStreamID := cs.lastHeader.messageStreamID;
      header.messageLength := cs.lastHeader.messageLength;
      header.messageTypeID := cs.lastHeader.messageTypeID;
      absolute := Wrap32(cs.lastAbsoluteTimestamp + header.timestamp);
    case Continuation =>
      if cs.lastHeader == null {
        ok := false;
        return;
      }
      header.messageStreamID := cs.lastHeader.messageStreamID;
      header.messageLength := cs.lastHeader.messageLength;
      header.messageTypeID := cs.lastHeader.messageTypeID;
      header.timestamp := cs.lastHeader.timestamp;
      absolute := cs.lastAbsoluteTimestamp;
    }
    cs.lastHeader := header;
  }

  /** The message a chunk with this completed header belongs to. */
  method FindMessage(cs: InChunkStream, header: Header, absoluteTimestamp: uint32) returns (message: Message)
    requires header.chunkStreamID == cs.id && cs.OwnsMessage()
    ensures message.Incoming() == R.Target(cs.Value(), header.Value(), absoluteTimestamp)
    ensures message == cs.currentMessage || fresh(message)
    ensures message.chunkStreamID == cs.id
  {
    if header.fmt == Continuation && cs.currentMessage != null {
      message := cs.currentMessage;
    } else {
      var timestamp := header.RealTimestamp();
      message := new Message.Inbound(cs.id, header.messageTypeID, header.messageStreamID, timestamp,
                                     absoluteTimestamp, header.messageLength);
    }
  }

  /** Adds a chunk's payload to `message`, which is complete if less than a full chunk was missing. */
  method FillMessage(r: ByteSource, chunkSize: uint32, cs: InChunkStream, message: Message)
    returns (inCount: nat, ok: bool, done: Message?)
    modifies r, cs`currentMessage, message`buf
    ensures var m := old(message.Incoming());
            var k := Min(m.Remain(), chunkSize);
            && ok == (|old(r.input)| >= k)
            && inCount == (if ok then k else |old(r.input)|)
            && (ok ==> message.Incoming() == m.(buf := m.buf + old(r.input)[..k]) && r.input == old(r.input)[k..])
            && (ok ==> if m.Remain() <= chunkSize then done == message && cs.currentMessage == null
                       else done == null && cs.currentMessage == message)
            && (!ok ==> done == null && cs.currentMessage == old(cs.currentMessage))
  {
    done := null;
    var remain := message.Remain();
    var lastChunk := true;
    if remain > chunkSize {
      lastChunk := false;
      remain := chunkSize;
    }
    var data;
    ok, data := r.CopyN(remain);
    message.buf := message.buf + data;
    inCount := |data|;
    if !ok {
      return;
    }
    if lastChunk {
      done := message;
      cs.currentMessage := null;
    } else {
      cs.currentMessage := message;
    }
  }

  /** The payload of a chunk whose header has been read and that is new to `cs`. */
  method ReadPayload(r: ByteSource, chunkSize: uint32, cs: InChunkStream, header: Header)
    returns (inCount: nat, err: ReadError, done: Message?)
    requires cs.lastHeader != header && header.chunkStreamID == cs.id && cs.OwnsMessage()
    modifies r, header, cs, cs.currentMessage
    ensures match R.ReadBody(old(cs.Value()), chunkSize, old(header.Value()), old(r.input))
            case StreamEof => err == ErrEof && inCount == |old(r.input)|
            case StreamInvalid => err == ErrInvalidChunkHeader && inCount == 0
            case Took(n, s, out) =>
              && err == NoError && inCount == n && r.input == old(r.input)[n..]
              && cs.Value() == s && cs.lastHeader == header
              && (if done == null then out == None else out == Some(done.Incoming()))
    ensures cs.OwnsMessage()
    ensures cs.currentMessage != null ==> cs.currentMessage == old(cs.currentMessage) || fresh(cs.currentMessage)
  {
    hide R.Resolve, R.Target, R.InMessage.Remain;
    ghost var s := cs.Value();
    inCount, err, done := 0, NoError, null;
    var absoluteTimestamp, ok := Inherit(cs, header);
    if !ok {
      err := ErrInvalidChunkHeader;
      return;
    }
    ghost var h := header.Value();
    TargetOfCurrent(s, cs.Value(), h, absoluteTimestamp);
    var message := FindMessage(cs, header, absoluteTimestamp);
    cs.lastAbsoluteTimestamp := absoluteTimestamp;
    inCount, ok, done := FillMessage(r, chunkSize, cs, message);
    if !ok {
      err := ErrEof;
    }
    assert header.Value() == h;
  }

  /** Only the message under way matters for where a chunk belongs. */
  lemma TargetOfCurrent(s: R.InStream, t: R.InStream, h: ChunkHeader, absolute: uint32)
    requires s.current == t.current
    ensures R.Target(s, h, absolute) == R.Target(t, h, absolute)
  {
  }

  /** Everything of `readChunk` that concerns one chunk stream. */
  method ReadOnStream(r: ByteSource, chunkSize: uint32, fmt: Format, cs: InChunkStream)
    returns (inCount: nat, err: ReadError, done: Message?)
    requires cs.OwnsMessage()
    modifies r, cs, cs.currentMessage
    ensures match R.ReadStream(old(cs.Value()), chunkSize, fmt, cs.id, old(r.input))
            case StreamEof => err == ErrEof && inCount == R.StreamPartial(old(cs.Value()), fmt, cs.id, old(r.input))
            case StreamInvalid =>
              err == ErrInvalidChunkHeader && inCount == R.StreamPartial(old(cs.Value()), fmt, cs.id, old(r.input))
            case Took(n, s, out) =>
              && err == NoError && inCount == n && r.input == old(r.input)[n..]
              && cs.Value() == s && fresh(cs.lastHeader)
              && (if done == null then out == None else out == Some(done.Incoming()))
    ensures cs.OwnsMessage()
    ensures cs.currentMessage != null ==> cs.currentMessage == old(cs.currentMessage) || fresh(cs.currentMessage)
  {
    hide R.ReadBody, R.Resolve, DecodeFields, Header.Value, Message.Incoming;
    inCount, err, done := 0, NoError, null;
    var header := new Header();
    var n, ok := header.ReadHeader(r, fmt, cs.id, cs.lastHeader);
    if !ok {
      err := ErrEof;
      return;
    }
    ghost var (s, wire) := (cs.Value(), header.Value());
    InvalidBody(s, chunkSize, wire, r.input);
    inCount, err, done := ReadPayload(r, chunkSize, cs, header);
    inCount := n + inCount;
  }

  lemma InvalidBody(s: R.InStream, chunkSize: uint32, wire: ChunkHeader, body: bytes)
    ensures R.ReadBody(s, chunkSize, wire, body) == R.StreamInvalid <==> R.Resolve(s, wire).None?
  {
  }

  lemma FinishCases(r: R.Reader, csid: uint32, n: nat, t: R.StreamRead)
    ensures match t
            case StreamEof => R.Finish(r, csid, n, t) == R.Eof && ErrorOf(R.Eof) == ErrEof
            case StreamInvalid => R.Finish(r, csid, n, t) == R.Invalid && ErrorOf(R.Invalid) == ErrInvalidChunkHeader
            case Took(k, s, out) =>
              var r' := R.WithStream(r, csid, s);
              if out.None? then R.Finish(r, csid, n, t) == R.Got(n + k, r', None) && OptionSeq(out) == []
              else if R.Handle(r', out.value).None? then R.Finish(r, csid, n, t) == R.ReadPanic
              else
                && R.Finish(r, csid, n, t) == R.Got(n + k, R.Handle(r', out.value).value, out)
                && OptionSeq(out) == [out.value]
  {
  }

  class ChunkStreamReader {
    var chunkSize: uint32
    var windowSize: uint32
    var chunkStreams: map<uint32, InChunkStream>
    const handler: Handler

    ghost var Repr: set<object>  // the chunk streams, their headers and the messages under way

    constructor (handler: Handler)
      ensures Valid() && Value() == R.FRESH_READER && this.handler == handler && Repr == {}
    {
      chunkSize, windowSize := DEFAULT_CHUNK_SIZE, DEFAULT_WINDOW_SIZE;
      chunkStreams := map[];
      this.handler := handler;
      Repr := {};
    }

    /** Streams, and the messages on them, carry the id they are filed under. */
    ghost predicate Valid()
      reads this, Repr
    {
      handler !in Repr && this !in Repr && forall csid <- chunkStreams ::
        var cs := chunkStreams[csid];
        && cs in Repr && cs.id == csid
        && (cs.lastHeader != null ==> cs.lastHeader in Repr)
        && (cs.currentMessage != null ==> cs.currentMessage in Repr) && cs.OwnsMessage()
    }

    ghost function Value(): R.Reader
      requires Valid()
      reads this, Repr
      ensures Value().chunkSize == chunkSize && Value().windowSize == windowSize
    {
      R.Reader(chunkSize, windowSize, map csid | csid in chunkStreams :: chunkStreams[csid].Value())
    }

    lemma Apart()
      requires Valid()
      ensures handler !in Repr && this !in Repr
    {
    }

    /** New sizes leave the chunk streams as they were. */
    twostate lemma Resized()
      requires old(Valid()) && chunkStreams == old(chunkStreams) && Repr == old(Repr) && unchanged(Repr)
      ensures Valid() && Value().streams == old(Value()).streams
    {
      hide InChunkStream.Value, InChunkStream.OwnsMessage;
    }

    method HandleMessage(msg: Message)
      requires Valid() && R.Handle(Value(), msg.Incoming()).Some?
      modifies this`chunkSize, this`windowSize, handler`messages
      ensures Valid() && Some(Value()) == R.Handle(old(Value()), msg.Incoming())
      ensures handler.messages == old(handler.messages) + [msg.Incoming()]
    {
      hide Valid, Value, InChunkStream.Value, InChunkStream.OwnsMessage;
      Apart();
      if msg.chunkStreamID == CS_ID_PROTOCOL_CONTROL {
        if msg.typ == SET_CHUNK_SIZE {
          chunkSize := BE32(msg.buf);
        } else if msg.typ == WINDOW_ACKNOWLEDGEMENT_SIZE {
          windowSize := BE32(msg.buf);
        }
      }
      handler.OnMessage(msg);
      Resized();
    }

    /** A chunk stream, its header and its message are as before. */
    twostate predicate Untouched(cs: InChunkStream)
      reads cs, cs.lastHeader, cs.currentMessage
    {
      && unchanged(cs)
      && (cs.lastHeader != null ==> unchanged(cs.lastHeader))
      && (cs.currentMessage != null ==> unchanged(cs.currentMessage))
    }

    twostate lemma UntouchedKeeps(cs: InChunkStream)
      requires Untouched(cs)
      ensures cs.Value() == old(cs.Value()) && cs.OwnsMessage() == old(cs.OwnsMessage())
      ensures cs.lastHeader == old(cs.lastHeader) && cs.currentMessage == old(cs.currentMessage)
    {
    }

    /** When only the stream filed under `csi` has changed, so has the value, just there. */
    twostate lemma Refiled(csi: uint32, new cs: InChunkStream)
      requires old(Valid()) && chunkSize == old(chunkSize) && windowSize == old(windowSize)
      requires chunkStreams == old(chunkStreams)[csi := cs]
      requires forall c <- old(chunkStreams) | c != csi :: Untouched(old(chunkStreams)[c])
      requires handler !in Repr && this !in Repr && old(Repr) + {cs} <= Repr
      requires cs.lastHeader != null ==> cs.lastHeader in Repr
      requires cs.currentMessage != null ==> cs.currentMessage in Repr
      requires cs.id == csi && cs.OwnsMessage()
      ensures Valid() && Value() == R.WithStream(old(Value()), csi, cs.Value())
    {
      hide InChunkStream.Value, InChunkStream.OwnsMessage, Untouched;
      forall c <- chunkStreams | c != csi
        ensures chunkStreams[c].Value() == old(chunkStreams[c].Value()) && chunkStreams[c].OwnsMessage()
        ensures var other := chunkStreams[c];
                other.lastHeader == old(other.lastHeader) && other.currentMessage == old(other.currentMessage)
      {
        UntouchedKeeps(chunkStreams[c]);
      }
    }

    /** The stream filed under `csi`, which is created if there is none. */
    method FindStream(csi: uint32) returns (cs: InChunkStream)
      requires Valid()
      modifies this`chunkStreams, this`Repr
      ensures Valid() && csi in chunkStreams && cs == chunkStreams[csi]
      ensures cs.Value() == old(Value()).Stream(csi)
      ensures Value() == R.WithStream(old(Value()), csi, cs.Value())
      ensures fresh(Repr - old(Repr))
    {
      if csi in chunkStreams {
        cs := chunkStreams[csi];
        assert chunkStreams == chunkStreams[csi := cs];
      } else {
        cs := new InChunkStream(csi);
        chunkStreams := chunkStreams[csi := cs];
        Repr := Repr + {cs};
      }
      hide InChunkStream.Value;
      Refiled(csi, cs);
    }

    /** Reading on one chunk stream leaves the others as they were. */
    method ReadUnder(r: ByteSource, fmt: Format, csi: uint32) returns (inCount: nat, err: ReadError, done: Message?)
      requires Valid() && r !in Repr && csi in chunkStreams
      modifies r, chunkStreams[csi], chunkStreams[csi].currentMessage
      ensures var (s, input, cs) := (old(chunkStreams[csi].Value()), old(r.input), chunkStreams[csi]);
              match R.ReadStream(s, chunkSize, fmt, csi, input)
              case StreamEof => err == ErrEof && inCount == R.StreamPartial(s, fmt, csi, input)
              case StreamInvalid => err == ErrInvalidChunkHeader && inCount == R.StreamPartial(s, fmt, csi, input)
              case Took(n, s', out) =>
                && err == NoError && inCount == n && r.input == input[n..]
                && cs.Value() == s' && fresh(cs.lastHeader) && (cs.currentMessage == null || cs.currentMessage in Repr
                                                                || fresh(cs.currentMessage))
                && (if done == null then out == None else out == Some(done.Incoming()))
      ensures chunkStreams[csi].OwnsMessage()
      ensures forall c <- chunkStreams | c != csi :: Untouched(chunkStreams[c])
    {
      hide R.ReadStream, R.StreamPartial, InChunkStream.Value, Message.Incoming;
      inCount, err, done := ReadOnStream(r, chunkSize, fmt, chunkStreams[csi]);
    }

    lemma Filed(csi: uint32)
      requires Valid() && csi in chunkStreams
      ensures handler !in Repr && this !in Repr
      ensures var cs := chunkStreams[csi];
              && cs in Repr && cs.id == csi && cs.Value() == Value().streams[csi]
              && (cs.lastHeader == null || cs.lastHeader in Repr)
              && (cs.currentMessage == null || cs.currentMessage in Repr)
    {
    }

    /** What is left of `readChunk` once the chunk stream has been found. */
    method ReadFiled(r: ByteSource, fmt: Format, csi: uint32) returns (inCount: nat, err: ReadError, done: Message?)
      requires Valid() && r !in Repr && csi in chunkStreams
      modifies r, this`Repr, Repr
      ensures var (s, input) := (old(Value()).streams[csi], old(r.input));
              match R.ReadStream(s, chunkSize, fmt, csi, input)
              case StreamEof => err == ErrEof && inCount == R.StreamPartial(s, fmt, csi, input)
              case StreamInvalid => err == ErrInvalidChunkHeader && inCount == R.StreamPartial(s, fmt, csi, input)
              case Took(n, s', out) =>
                && err == NoError && inCount == n && r.input == input[n..]
                && Valid() && fresh(Repr - old(Repr)) && handler !in Repr
                && Value() == R.WithStream(old(Value()), csi, s')
                && (if done == null then out == None else out == Some(done.Incoming()))
    {
      hide R.ReadStream, R.StreamPartial, InChunkStream.Value, InChunkStream.OwnsMessage, Message.Incoming, Untouched;
      hide Valid, Value;
      Filed(csi);
      var cs := chunkStreams[csi];
      inCount, err, done := ReadUnder(r, fmt, csi);
      if err != NoError {
        return;
      }
      Repr := Repr + {cs.lastHeader} + if cs.currentMessage == null then {} else {cs.currentMessage};
      assert chunkStreams == chunkStreams[csi := cs];
      Refiled(csi, cs);
    }

    /** What is left of `readChunk` once the basic header is known. */
    method ReadNamed(r: ByteSource, fmt: Format, csi: uint32) returns (inCount: nat, err: ReadError, done: Message?)
      requires Valid() && r !in Repr
      modifies r, this`chunkStreams, this`Repr, Repr
      ensures var (s, input) := (old(Value()).Stream(csi), old(r.input));
              match R.ReadStream(s, old(chunkSize), fmt, csi, input)
              case StreamEof => err == ErrEof && inCount == R.StreamPartial(s, fmt, csi, input)
              case StreamInvalid => err == ErrInvalidChunkHeader && inCount == R.StreamPartial(s, fmt, csi, input)
              case Took(n, s', out) =>
                && err == NoError && inCount == n && r.input == input[n..]
                && Valid() && fresh(Repr - old(Repr)) && handler !in Repr
                && Value() == R.WithStream(old(Value()), csi, s')
                && (if done == null then out == None else out == Some(done.Incoming()))
    {
      hide R.ReadStream, R.StreamPartial, Value, InChunkStream.Value, Message.Incoming;
      ghost var (r0, input) := (Value(), r.input);
      var cs := FindStream(csi);
      ghost var found := cs.Value();
      ghost var t := R.ReadStream(found, chunkSize, fmt, csi, input);
      inCount, err, done := ReadFiled(r, fmt, csi);
      assert t.Took? ==> r0.streams[csi := found][csi := t.stream] == r0.streams[csi := t.stream];
    }

    /** Hands over the message that a chunk has completed, if it has. */
    method Deliver(done: Message?, ghost out: Option<R.InMessage>)
      requires Valid() && (if done == null then out == None else out == Some(done.Incoming()))
      requires out.Some? ==> R.Handle(Value(), out.value).Some?
      modifies this`chunkSize, this`windowSize, handler`messages
      ensures Valid() && Value() == if out.None? then old(Value()) else R.Handle(old(Value()), out.value).value
      ensures handler.messages == old(handler.messages) + OptionSeq(out)
    {
      hide R.Handle, Value, Valid, Message.Incoming;
      if done == null {
        assert handler.messages + [] == handler.messages;
      } else {
        HandleMessage(done);
      }
    }

    /** The rest of a chunk whose basic header of `n` bytes has been read, and its message if it completes one. */
    method ReadRest(r: ByteSource, fmt: Format, csi: uint32, n: nat) returns (inCount: nat, err: ReadError)
      requires Valid() && r !in Repr
      requires var t := R.ReadStream(Value().Stream(csi), chunkSize, fmt, csi, r.input);
               R.Finish(Value(), csi, n, t) != R.ReadPanic
      modifies r, this, Repr, handler`messages
      ensures var (s, input) := (old(Value()).Stream(csi), old(r.input));
              match R.Finish(old(Value()), csi, n, R.ReadStream(s, old(chunkSize), fmt, csi, input))
              case Got(n', reader, out) =>
                && err == NoError && inCount == n' && n' >= n && r.input == input[n' - n..]
                && Valid() && Value() == reader && fresh(Repr - old(Repr)) && handler !in Repr
                && handler.messages == old(handler.messages) + OptionSeq(out)
              case c =>
                && err == ErrorOf(c) && err != NoError && handler.messages == old(handler.messages)
                && inCount == n + R.StreamPartial(s, fmt, csi, input)
    {
      hide *;
      Apart();
      ghost var r0 := Value();
      ghost var t := R.ReadStream(r0.Stream(csi), chunkSize, fmt, csi, r.input);
      FinishCases(r0, csi, n, t);
      var done;
      inCount, err, done := ReadNamed(r, fmt, csi);
      inCount := n + inCount;
      if err == NoError {
        Deliver(done, t.out);
      }
    }

    /** One chunk; on an error the connection is given up and only the handler still matters. */
    method ReadChunk(r: ByteSource) returns (inCount: nat, err: ReadError)
      requires Valid() && r !in Repr && R.ReadChunk(Value(), r.input) != R.ReadPanic
      modifies r, this, Repr, handler`messages
      ensures match R.ReadChunk(old(Value()), old(r.input))
              case Got(n, reader, out) =>
                && err == NoError && inCount == n && r.input == old(r.input)[n..]
                && Valid() && Value() == reader && fresh(Repr - old(Repr)) && handler !in Repr
                && handler.messages == old(handler.messages) + OptionSeq(out)
              case c =>
                && err == ErrorOf(c) && err != NoError && handler.messages == old(handler.messages)
                && inCount == R.Partial(old(Value()), old(r.input))
    {
      hide R.ReadStream, R.Finish, R.StreamPartial, DecodeBase, Value, Valid;
      ghost var r0, input := Value(), r.input;
      var n, fmt, csi, ok := ReadBaseHeader(r);
      if !ok {
        inCount, err := n, ErrEof;
        return;
      }
      assert Value() == r0 && r.input == input[n..];
      inCount, err := ReadRest(r, fmt, csi, n);
      assert inCount >= n && err == NoError ==> input[n..][inCount - n..] == input[inCount..];
    }

    /** The loop body of `ReadFrom`: one chunk, and a report if the window is full. */
    method ReadAndCount(r: ByteSource, inBytes: nat, inBytesPreWindow: nat)
      returns (total: nat, pre: nat, err: ReadError)
      requires Valid() && r !in Repr && inBytesPreWindow <= inBytes
      requires R.ReadChunk(Value(), r.input) != R.ReadPanic
      modifies r, this, Repr, handler
      ensures pre <= total
      ensures match R.ReadChunk(old(Value()), old(r.input))
              case Got(n, reader, out) =>
                var (k, ack) := K.Count(K.Counters(inBytes, inBytesPreWindow), old(Value()), n, reader);
                && err == NoError && k == K.Counters(total, pre) && r.input == old(r.input)[n..]
                && Valid() && Value() == reader && fresh(Repr - old(Repr)) && r !in Repr
                && handler.messages == old(handler.messages) + OptionSeq(out)
                && handler.acks == old(handler.acks) + if ack.Some? then [Wrap32(total)] else []
              case c =>
                && err == ErrorOf(c) && err != NoError && total == inBytes + R.Partial(old(Value()), old(r.input))
                && handler.messages == old(handler.messages) && handler.acks == old(handler.acks)
    {
      assert handler !in Repr;
      hide R.ReadChunk, Value, Valid;
      var n;
      n, err := ReadChunk(r);
      total, pre := inBytes + n, inBytesPreWindow;
      if err != NoError {
        return;
      }
      if total >= pre + windowSize {
        handler.OnWindowFull(Wrap32(total));
        pre := total;
      }
    }

    /** The same, for a run that is to end with these messages, reports and bytes used. */
    method ReadNext(r: ByteSource, inBytes: nat, inBytesPreWindow: nat, ghost messages: seq<R.InMessage>,
                    ghost acks: seq<uint32>, ghost counted: nat, ghost stop: R.ChunkRead)
      returns (total: nat, pre: nat, err: ReadError)
      requires Valid() && r !in Repr && inBytesPreWindow <= inBytes && stop != R.ReadPanic
      requires Leads(Value(), r.input, K.Counters(inBytes, inBytesPreWindow), handler.messages, handler.acks,
                     messages, acks, counted, stop)
      modifies r, this, Repr, handler
      ensures if err == NoError then
                && Valid() && r !in Repr && fresh(Repr - old(Repr)) && pre <= total && |r.input| < |old(r.input)|
                && Leads(Value(), r.input, K.Counters(total, pre), handler.messages, handler.acks,
                         messages, acks, counted, stop)
              else
                handler.messages == messages && handler.acks == acks && err == ErrorOf(stop) && total == counted
    {
      hide *;
      LeadsOn(Value(), r.input, K.Counters(inBytes, inBytesPreWindow), handler.messages, handler.acks,
              messages, acks, counted, stop);
      total, pre, err := ReadAndCount(r, inBytes, inBytesPreWindow);
    }

    /** Reads until the input ends or cannot be read, reporting messages and full windows. */
    method ReadFrom(r: ByteSource) returns (inBytes: nat, err: ReadError)
      requires Valid() && r !in Repr && R.ReadAll(Value(), r.input).stop != R.ReadPanic
      modifies r, this, Repr, handler
      ensures var run := R.ReadAll(old(Value()), old(r.input));
              && handler.messages == old(handler.messages) + run.out
              && err == ErrorOf(run.stop) && inBytes == R.Counted(old(Value()), old(r.input))
      ensures handler.acks == old(handler.acks)
                            + Reported(K.AckAll(old(Value()), old(r.input), K.Counters(0, 0)).acks)
    {
      ghost var (run, counted) := (R.ReadAll(Value(), r.input), R.Counted(Value(), r.input));
      ghost var messages := handler.messages + run.out;
      ghost var acks := handler.acks + Reported(K.AckAll(Value(), r.input, K.Counters(0, 0)).acks);
      inBytes := 0;
      var inBytesPreWindow: nat := 0;
      assert Leads(Value(), r.input, K.Counters(inBytes, inBytesPreWindow), handler.messages, handler.acks,
                   messages, acks, counted, run.stop);
      hide *;
      while true
        invariant Valid() && r !in Repr && fresh(Repr - old(Repr)) && inBytesPreWindow <= inBytes
        invariant Leads(Value(), r.input, K.Counters(inBytes, inBytesPreWindow), handler.messages, handler.acks,
                        messages, acks, counted, run.stop)
        decreases |r.input|
      {
        inBytes, inBytesPreWindow, err := ReadNext(r, inBytes, inBytesPreWindow, messages, acks, counted, run.stop);
        if err != NoError {
          return;
        }
      }
    }
  }

  /** The counts a handler is told, truncated to 32 bits. */
  function Reported(acks: seq<K.Ack>): seq<uint32> {
    if acks == [] then [] else [Wrap32(acks[0].count)] + Reported(acks[1..])
  }

  /** From state `r`, with these messages and reports behind it, a run ends in those. */
  ghost predicate Leads(r: R.Reader, input: bytes, k: K.Counters, messages: seq<R.InMessage>, acks: seq<uint32>,
                        messages': seq<R.InMessage>, acks': seq<uint32>, counted: nat, stop: R.ChunkRead)
  {
    var run := R.ReadAll(r, input);
    && k.preWindow <= k.inBytes
    && messages' == messages + run.out && counted == k.inBytes + R.Counted(r, input) && stop == run.stop
    && acks' == acks + Reported(K.AckAll(r, input, k).acks)
  }

  /** One more chunk keeps where the run leads, or ends it. */
  lemma LeadsOn(r: R.Reader, input: bytes, k: K.Counters, messages: seq<R.InMessage>, acks: seq<uint32>,
                messages': seq<R.InMessage>, acks': seq<uint32>, counted: nat, stop: R.ChunkRead)
    requires Leads(r, input, k, messages, acks, messages', acks', counted, stop)
    ensures k.preWindow <= k.inBytes
    ensures match R.ReadChunk(r, input)
            case Got(n, reader, out) =>
              var (k', ack) := K.Count(k, r, n, reader);
              Leads(reader, input[n..], k', messages + OptionSeq(out),
                    acks + (if ack.Some? then [Wrap32(k'.inBytes)] else []), messages', acks', counted, stop)
            case c => c == stop && messages' == messages && acks' == acks && counted == k.inBytes + R.Partial(r, input)
  {
    hide R.ReadChunk, R.Partial;
    var c := R.ReadChunk(r, input);
    R.CountedStep(r, input);
    if c.Got? {
      var (k', ack) := K.Count(k, r, c.n, c.reader);
      var later, reports := R.ReadAll(c.reader, input[c.n..]), K.AckAll(c.reader, input[c.n..], k').acks;
      assert messages + (OptionSeq(c.out) + later.out) == messages + OptionSeq(c.out) + later.out;
      if ack.Some? {
        assert ([ack.value] + reports)[1..] == reports;
        var count := Wrap32(ack.value.count);
        assert acks + ([count] + Reported(reports)) == acks + [count] + Reported(reports);
      } else {
        assert [] + reports == reports;
      }
    }
  }
}
