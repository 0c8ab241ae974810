/** Which timestamps a reader reports for the messages of a writer. */
module Timestamps {
  import opened Bytes
  import opened Defines
  import opened HeaderSpec
  import opened WriterSpec
  import opened ReaderSpec
  import opened RoundTrip

  /** A message as far as timestamps go: when it was stamped and how its first chunk starts. */
  datatype Stamp = Stamp(time: uint32, fmt: Format)

  /** The stamps of the non-empty messages among `ms` that travel on `csid`. */
  function StampsOn(os: OutStream, ms: seq<Message>, csid: uint32): seq<Stamp>
    decreases |ms|
  {
    if ms == [] then [] else
    var m := ms[0];
    if m.csid == csid && m.payload != [] then
      [Stamp(m.timestamp, ChooseHeader(os, m).fmt)] + StampsOn(OutAfter(os, m), ms[1..], csid)
    else StampsOn(os, ms[1..], csid)
  }

  function LastTime(line: seq<Stamp>): uint32 {
    if line == [] then 0 else line[|line| - 1].time
  }

  /** What the 24-bit field can say of a time or a delta. */
  function Capped(t: nat): nat {
    Min(t, EXTENDED)
  }

  /**
   * What the reader has missed since the last type 0 start: all of the delta of a type 3 start, and
   * of other starts what the 24-bit field cannot hold.
   */
  function Lag(line: seq<Stamp>): int {
    if line == [] then 0 else
    var last := line[|line| - 1];
    var before := line[..|line| - 1];
    var delta := last.time - LastTime(before);
    match last.fmt
    case Full => last.time - Capped(last.time)
    case Continuation => Lag(before) + delta
    case _ => Lag(before) + delta - if delta >= 0 then Capped(delta) else 0
  }

  /** The message timestamp reported: the delta to the message before, or the time itself. */
  function Delta(line: seq<Stamp>): int
    requires line != []
  {
    var last := line[|line| - 1];
    var delta := last.time - LastTime(line[..|line| - 1]);
    if last.fmt == Full || (last.fmt != Continuation && delta >= EXTENDED) then last.time else delta
  }

  lemma LineSnoc(line: seq<Stamp>, last: Stamp)
    ensures var delta := last.time - LastTime(line);
            && LastTime(line + [last]) == last.time
            && Lag(line + [last]) == (match last.fmt
                                      case Full => last.time - Capped(last.time)
                                      case Continuation => Lag(line) + delta
                                      case _ => Lag(line) + delta - if delta >= 0 then Capped(delta) else 0)
            && Delta(line + [last]) == if last.fmt == Full || (last.fmt != Continuation && delta >= EXTENDED)
                                       then last.time else delta
  {
    assert (line + [last])[..|line|] == line;
  }

  /** Both ends of a chunk stream whose messages so far were stamped `line`. */
  predicate StampedStream(os: OutStream, s: InStream, line: seq<Stamp>) {
    && os.lastAbsolute == LastTime(line)
    && 0 <= Lag(line) <= LastTime(line)
    && s.lastAbsolute == LastTime(line) - Lag(line)
    && (os.last.Some? ==>
          && s.last.Some? && os.last.value.timestamp <= EXTENDED
          && (os.last.value.timestamp == EXTENDED ==> os.last.value.extended > 0)
          && if os.last.value.fmt == Continuation then os.last.value.timestamp == 0
             else s.last.value.timestamp == os.last.value.timestamp)
  }

  lemma FullFields(m: Message)
    ensures var h := FullHeader(m); h.fmt == Full && h.timestamp == m.timestamp && h.extended == 0
  {
  }

  /** One message on one chunk stream: no `uint32` ever wraps around. */
  lemma StreamStamp(os: OutStream, s: InStream, m: Message, line: seq<Stamp>)
    requires StampedStream(os, s, line)
    requires ChooseHeader(os, m).fmt == Continuation && os.last.Some? ==> os.last.value.extended == 0
    ensures var h := ChooseHeader(os, m);
            var line' := line + [Stamp(m.timestamp, h.fmt)];
            var e := Resolve(s, Carried(h));
            && e.Some?
            && RealTimestamp(e.value.0) == Delta(line')
            && e.value.1 == m.timestamp - Lag(line')
            && (forall s': InStream | s'.lastAbsolute == e.value.1 && s'.last.Some?
                  && s'.last.value.timestamp == e.value.0.timestamp :: StampedStream(OutAfter(os, m), s', line'))
  {
    hide Lag, Delta, LastTime, FullHeader;
    LineSnoc(line, Stamp(m.timestamp, ChooseHeader(os, m).fmt));
    FullFields(m);
  }

  /**
   * What `RealTimestamp` gives for the start of a message, at either end: with type 0, and whenever
   * the extended field is used, the time sent, else the delta to the message before.
   */
  lemma StartTimestamp(os: OutStream, m: Message)
    ensures var h := ChooseHeader(os, m);
            h.fmt != Continuation ==>
              && RealTimestamp(Carried(h)) == RealTimestamp(h)
              && RealTimestamp(h) == if h.fmt == Full || h.extended != 0 then m.timestamp
                                     else m.timestamp - os.lastAbsolute
  {
  }

  predicate Stamped(w: Writer, r: Reader, lines: uint32 -> seq<Stamp>) {
    forall csid: uint32 :: StampedStream(w.Stream(csid), r.Stream(csid), lines(csid))
  }

  function Extend(lines: uint32 -> seq<Stamp>, csid: uint32, stamp: Stamp): uint32 -> seq<Stamp> {
    (c: uint32) => if c == csid then lines(c) + [stamp] else lines(c)
  }

  /** One message keeps every chunk stream stamped. */
  lemma MessageStamp(w: Writer, r: Reader, m: Message, lines: uint32 -> seq<Stamp>)
    requires Lockstep(w, r) && Sendable(w, m) && m.payload != []
    requires Stamped(w, r, lines)
    ensures var h := Start(w, m);
            var lines' := Extend(lines, m.csid, Stamp(m.timestamp, h.fmt));
            && WriteMessage(w, m).Wrote? && Readable(r, h, m) && Absorb(r, h, m).Some?
            && Stamped(WriteMessage(w, m).writer, Absorb(r, h, m).value, lines')
            && Delivered(r, h, m).absolute == m.timestamp - Lag(lines'(m.csid))
            && Delivered(r, h, m).timestamp == Delta(lines'(m.csid))
  {
    hide Readable, EmitChunk, Continue, Reads, Delta, Lag, StreamLockstep, WriteMessage, ChooseHeader, Wire;
    hide StampedStream, RealTimestamp;
    MessageRoundTrip(w, r, m);
    WritesMessage(w, m);
    StreamStamp(w.Stream(m.csid), r.Stream(m.csid), m, lines(m.csid));
    var h := Start(w, m);
    var w' := WriteMessage(w, m).writer;
    var r' := Absorb(r, h, m).value;
    var lines' := Extend(lines, m.csid, Stamp(m.timestamp, h.fmt));
    forall csid: uint32
      ensures StampedStream(w'.Stream(csid), r'.Stream(csid), lines'(csid))
    {
      assert StampedStream(w.Stream(csid), r.Stream(csid), lines(csid));
    }
  }

  // ----- Whole runs -----

  /** The law for message `i` of a run that starts after messages stamped `lines`. */
  ghost predicate LawAt(w: Writer, lines: uint32 -> seq<Stamp>, sent: seq<Message>, out: seq<InMessage>, i: nat)
    requires i < |sent| == |out|
  {
    var line := lines(sent[i].csid) + StampsOn(w.Stream(sent[i].csid), sent[..i + 1], sent[i].csid);
    line != [] && out[i].absolute == sent[i].timestamp - Lag(line) && out[i].timestamp == Delta(line)
  }

  ghost predicate Law(w: Writer, lines: uint32 -> seq<Stamp>, sent: seq<Message>, out: seq<InMessage>) {
    |out| == |sent| && forall i | 0 <= i < |sent| :: LawAt(w, lines, sent, out, i)
  }

  /** `w'` is `w` after the first chunk of `m`, as far as its chunk streams go. */
  ghost predicate Sends(w: Writer, m: Message, w': Writer) {
    m.payload != []
    && forall c: uint32 :: w'.Stream(c) == if c == m.csid then OutAfter(w.Stream(c), m) else w.Stream(c)
  }

  /** Prepending a message to a run that obeys the law. */
  lemma LawAtStep(w: Writer, w': Writer, lines: uint32 -> seq<Stamp>, m: Message, d: InMessage,
                  sent: seq<Message>, out: seq<InMessage>, i: nat)
    requires Sends(w, m, w') && i <= |sent| == |out|
    requires var lines' := Extend(lines, m.csid, Stamp(m.timestamp, Start(w, m).fmt));
             if i == 0 then d.absolute == m.timestamp - Lag(lines'(m.csid)) && d.timestamp == Delta(lines'(m.csid))
             else LawAt(w', lines', sent, out, i - 1)
    ensures LawAt(w, lines, [m] + sent, [d] + out, i)
  {
    hide Lag, Delta, ChooseHeader, StampsOn;
    var lines' := Extend(lines, m.csid, Stamp(m.timestamp, Start(w, m).fmt));
    var all := [m] + sent;
    var c := all[i].csid;
    StampsStep(w.Stream(c), m, sent, i, c);
    var later := StampsOn(w'.Stream(c), sent[..i], c);
    assert lines(c) + StampsOn(w.Stream(c), all[..i + 1], c) == lines'(c) + later;
    if i == 0 {
      NoStamps(w'.Stream(c), c);
      assert lines'(c) + later == lines'(c);
    } else {
      assert all[i] == sent[i - 1] && ([d] + out)[i] == out[i - 1];
    }
  }

  lemma NoStamps(os: OutStream, csid: uint32)
    ensures StampsOn(os, [], csid) == []
  {
  }

  lemma LawStep(w: Writer, w': Writer, lines: uint32 -> seq<Stamp>, m: Message, d: InMessage,
                sent: seq<Message>, out: seq<InMessage>)
    requires Sends(w, m, w')
    requires var lines' := Extend(lines, m.csid, Stamp(m.timestamp, Start(w, m).fmt));
             && Law(w', lines', sent, out)
             && d.absolute == m.timestamp - Lag(lines'(m.csid)) && d.timestamp == Delta(lines'(m.csid))
    ensures Law(w, lines, [m] + sent, [d] + out)
  {
    hide LawAt, Lag, Delta, Sends;
    forall i | 0 <= i < |[m] + sent|
      ensures LawAt(w, lines, [m] + sent, [d] + out, i)
    {
      LawAtStep(w, w', lines, m, d, sent, out, i);
    }
  }

  lemma StampsStep(os: OutStream, m: Message, sent: seq<Message>, i: nat, csid: uint32)
    requires i <= |sent| && m.payload != []
    ensures StampsOn(os, ([m] + sent)[..i + 1], csid)
         == if m.csid == csid
            then [Stamp(m.timestamp, ChooseHeader(os, m).fmt)] + StampsOn(OutAfter(os, m), sent[..i], csid)
            else StampsOn(os, sent[..i], csid)
  {
    assert ([m] + sent)[..i + 1][1..] == sent[..i];
  }

  lemma {:induction false} LawFrom(w: Writer, r: Reader, ms: seq<Message>, lines: uint32 -> seq<Stamp>)
    requires Lockstep(w, r) && AllSendable(w, ms) && Stamped(w, r, lines)
    ensures Law(w, lines, NonEmpty(ms), AbsorbAll(w, r, ms).1)
    decreases |ms|
  {
    hide Lag, Delta, Stamped, LawAt, ChooseHeader, Readable, Feeds;
    if ms != [] {
      var m := ms[0];
      var w' := WriteMessage(w, m).writer;
      if m.payload == [] {
        LawFrom(w', r, ms[1..], lines);
        assert [] + NonEmpty(ms[1..]) == NonEmpty(ms[1..]);
      } else {
        MessageRoundTrip(w, r, m);
        MessageStamp(w, r, m, lines);
        WritesMessage(w, m);
        assert Sends(w, m, w');
        var h := Start(w, m);
        var r' := Absorb(r, h, m).value;
        var lines' := Extend(lines, m.csid, Stamp(m.timestamp, h.fmt));
        LawFrom(w', r', ms[1..], lines');
        LawStep(w, w', lines, m, Delivered(r, h, m), NonEmpty(ms[1..]), AbsorbAll(w', r', ms[1..]).1);
      }
    }
  }

  /** The stamps on the chunk stream of the `i`-th message, up to and including that message. */
  function LineAt(sent: seq<Message>, i: nat): seq<Stamp>
    requires i < |sent|
  {
    StampsOn(FRESH_OUT, sent[..i + 1], sent[i].csid)
  }

  /**
   * Every delivered absolute timestamp is behind the sent one by exactly the deltas of the
   * messages started by type 3 chunks since the last type 0 chunk of its chunk stream, and what
   * other starts since then had beyond 0xffffff.
   */
  lemma TimestampLaw(ms: seq<Message>)
    requires AllSendable(FRESH_WRITER, ms)
    ensures forall m <- ms :: m.csid <= MAX_CSID
    ensures var bytes := WriteAll(FRESH_WRITER, ms);
            && bytes.Wrote?
            && var (sent, out) := (NonEmpty(ms), ReadAll(FRESH_READER, bytes.out).out);
            && |out| == |sent|
            && forall i | 0 <= i < |sent| ::
                 var line := LineAt(sent, i);
                 line != [] && out[i].absolute == sent[i].timestamp - Lag(line) && out[i].timestamp == Delta(line)
  {
    FreshLockstep();
    var lines := (csid: uint32) => [];
    RunIsAbsorbAll(FRESH_WRITER, FRESH_READER, ms);
    LawFrom(FRESH_WRITER, FRESH_READER, ms, lines);
    var sent := NonEmpty(ms);
    var out := AbsorbAll(FRESH_WRITER, FRESH_READER, ms).1;
    forall i | 0 <= i < |sent|
      ensures var line := LineAt(sent, i);
              line != [] && out[i].absolute == sent[i].timestamp - Lag(line) && out[i].timestamp == Delta(line)
    {
      assert LawAt(FRESH_WRITER, lines, sent, out, i);
      assert [] + LineAt(sent, i) == LineAt(sent, i);
    }
  }

  // ----- When timestamps survive -----

  /** No type 3 start since the last type 0 chunk, and no time or delta above 0xffffff. */
  predicate NothingLost(line: seq<Stamp>) {
    line == [] ||
    var (last, before) := (line[|line| - 1], line[..|line| - 1]);
    match last.fmt
    case Full => last.time <= EXTENDED
    case Continuation => false
    case _ => last.time - LastTime(before) <= EXTENDED && NothingLost(before)
  }

  /** Stamps as a writer makes them: times grow but for type 0 starts, and no two type 3 starts in a row. */
  predicate WriterLine(line: seq<Stamp>) {
    forall i | 0 <= i < |line| && line[i].fmt != Full ::
      && 0 < i && line[i - 1].time < line[i].time
      && (line[i].fmt == Continuation ==> line[i - 1].fmt != Continuation)
  }

  lemma {:induction false} WriterLineExtends(line: seq<Stamp>, os: OutStream, ms: seq<Message>, csid: uint32)
    requires WriterLine(line) && os.lastAbsolute == LastTime(line)
    requires os.last.Some? ==> line != [] && line[|line| - 1].fmt == os.last.value.fmt
    requires os.last.Some? && os.last.value.fmt == Continuation ==> os.last.value.timestamp == 0
    ensures WriterLine(line + StampsOn(os, ms, csid))
    decreases |ms|
  {
    if ms == [] {
      assert line + [] == line;
    } else if ms[0].csid == csid && ms[0].payload != [] {
      var m := ms[0];
      var stamp := Stamp(m.timestamp, ChooseHeader(os, m).fmt);
      WriterLineExtends(line + [stamp], OutAfter(os, m), ms[1..], csid);
      assert line + [stamp] + StampsOn(OutAfter(os, m), ms[1..], csid) == line + StampsOn(os, ms, csid);
    } else {
      WriterLineExtends(line, os, ms[1..], csid);
    }
  }

  /** A writer never starts two consecutive messages of a chunk stream with type 3. */
  lemma NeverTwoTypeThreeStarts(ms: seq<Message>, csid: uint32)
    ensures WriterLine(StampsOn(FRESH_OUT, ms, csid))
  {
    WriterLineExtends([], FRESH_OUT, ms, csid);
    assert [] + StampsOn(FRESH_OUT, ms, csid) == StampsOn(FRESH_OUT, ms, csid);
  }

  lemma {:induction false} LagIsZero(line: seq<Stamp>)
    requires WriterLine(line)
    ensures Lag(line) >= 0
    ensures Lag(line) == 0 <==> NothingLost(line)
  {
    if line != [] {
      LagIsZero(line[..|line| - 1]);
    }
  }

  /** When a timestamp survives, exactly. */
  lemma TimestampSurvives(ms: seq<Message>, i: nat)
    requires AllSendable(FRESH_WRITER, ms)
    requires i < |NonEmpty(ms)|
    ensures forall m <- ms :: m.csid <= MAX_CSID
    ensures var bytes := WriteAll(FRESH_WRITER, ms);
            && bytes.Wrote?
            && var (sent, out) := (NonEmpty(ms), ReadAll(FRESH_READER, bytes.out).out);
            && i < |out|
            && (out[i].absolute == sent[i].timestamp <==> NothingLost(LineAt(sent, i)))
  {
    TimestampLaw(ms);
    var sent := NonEmpty(ms);
    NeverTwoTypeThreeStarts(sent[..i + 1], sent[i].csid);
    LagIsZero(LineAt(sent, i));
  }

  /**
   * A single message can fail: one of one chunk and of whatever time from 0xffffff on is reported
   * with the absolute time 0xffffff, though its extended timestamp is right.
   */
  lemma LateStartIsCapped(m: Message)
    requires CsidSurvives(m.csid) && 0 < |m.payload| <= DEFAULT_CHUNK_SIZE && m.timestamp >= EXTENDED
    requires m.typ != SET_CHUNK_SIZE
    requires m.typ == WINDOW_ACKNOWLEDGEMENT_SIZE && m.csid == CS_ID_PROTOCOL_CONTROL ==> |m.payload| >= 4
    ensures var bytes := WriteAll(FRESH_WRITER, [m]);
            && m.csid <= MAX_CSID && bytes.Wrote?
            && var out := ReadAll(FRESH_READER, bytes.out).out;
            |out| == 1 && SameMessage(m, out[0]) && out[0].timestamp == m.timestamp && out[0].absolute == EXTENDED
  {
    hide ReadAll, WriteMessage, Lag, Delta, StampsOn, SameMessage;
    FreshLockstep();
    WritesOneChunk(FRESH_WRITER, m);
    assert Sendable(FRESH_WRITER, m) && [m][1..] == [];
    assert AllSendable(WriteMessage(FRESH_WRITER, m).writer, []);
    assert NonEmpty([m]) == [m] + NonEmpty([]);
    EndToEnd(FRESH_WRITER, FRESH_READER, [m]);
    TimestampLaw([m]);
    assert [m][..0 + 1] == [m];
    assert [] + [Stamp(m.timestamp, Full)] == [Stamp(m.timestamp, Full)];
    LineSnoc([], Stamp(m.timestamp, Full));
    OneStamp(m);
  }

  lemma OneStamp(m: Message)
    requires m.payload != []
    ensures StampsOn(FRESH_OUT, [m], m.csid) == [Stamp(m.timestamp, Full)]
  {
    assert [m][1..] == [];
    NoStamps(OutAfter(FRESH_OUT, m), m.csid);
  }

  /**
   * The shortest failing family with times below 0xffffff: the third of three alike messages sent
   * at a steady pace starts with type 3 and is reported with the time of the second.
   */
  lemma SteadyPaceLags(m: Message, delta: uint32)
    requires Plain(m) && m.typ != SET_CHUNK_SIZE && m.payload != []
    requires 0 < delta && m.timestamp + 2 * delta < EXTENDED
    ensures var (m2, m3) := (m.(timestamp := m.timestamp + delta), m.(timestamp := m.timestamp + 2 * delta));
            var bytes := WriteAll(FRESH_WRITER, [m, m2, m3]);
            && bytes.Wrote?
            && var out := ReadAll(FRESH_READER, bytes.out).out;
            && |out| == 3 && AllDelivered([m, m2, m3], out)
            && out[1].absolute == m2.timestamp && out[2].absolute == m2.timestamp
  {
    hide WriteMessage, ReadAll, Sendable, StampsOn, NonEmpty, Lag, Plain, AllDelivered;
    var (m2, m3) := (m.(timestamp := m.timestamp + delta), m.(timestamp := m.timestamp + 2 * delta));
    var ms := [m, m2, m3];
    assert Plain(m2) && Plain(m3) by { PlainWhenever(m, m2.timestamp); PlainWhenever(m, m3.timestamp); }
    FreshEndToEnd(ms);
    PlainIsSendable(FRESH_WRITER, ms);
    ThreeNonEmpty(m, m2, m3);
    TimestampLaw(ms);
    var (s, s2) := (Stamp(m.timestamp, Full), Stamp(m2.timestamp, SameLengthAndStream));
    var s3 := Stamp(m3.timestamp, Continuation);
    SteadyStamps(m, delta);
    SteadyLag(s, s2, s3);
    assert ms[..1 + 1] == [m, m2] && ms[..2 + 1] == ms;
    assert LineAt(ms, 1) == [s, s2] && LineAt(ms, 2) == [s, s2, s3];
    var out := ReadAll(FRESH_READER, WriteAll(FRESH_WRITER, ms).out).out;
    assert |out| == 3 by { DeliveredCount(ms, out); }
    assert out[1].absolute == ms[1].timestamp - Lag(LineAt(ms, 1));
    assert out[2].absolute == ms[2].timestamp - Lag(LineAt(ms, 2));
  }

  lemma PlainWhenever(m: Message, timestamp: uint32)
    requires Plain(m) && timestamp < EXTENDED
    ensures Plain(m.(timestamp := timestamp))
  {
  }

  lemma DeliveredCount(ms: seq<Message>, out: seq<InMessage>)
    requires AllDelivered(ms, out)
    ensures |out| == |ms|
  {
  }

  lemma ThreeNonEmpty(a: Message, b: Message, c: Message)
    requires a.payload != [] && b.payload != [] && c.payload != []
    ensures NonEmpty([a, b, c]) == [a, b, c]
  {
    assert [a, b, c][1..] == [b, c] && [b, c][1..] == [c] && [c][1..] == [];
    assert NonEmpty([c]) == [c] + NonEmpty([]);
    assert NonEmpty([b, c]) == [b] + [c];
  }

  lemma SteadyStamps(m: Message, delta: uint32)
    requires 0 < delta && m.timestamp + 2 * delta < EXTENDED && m.payload != []
    ensures var (m2, m3) := (m.(timestamp := m.timestamp + delta), m.(timestamp := m.timestamp + 2 * delta));
            var (s, s2) := (Stamp(m.timestamp, Full), Stamp(m2.timestamp, SameLengthAndStream));
            && StampsOn(FRESH_OUT, [m, m2], m.csid) == [s, s2]
            && StampsOn(FRESH_OUT, [m, m2, m3], m.csid) == [s, s2, Stamp(m3.timestamp, Continuation)]
  {
    var (m2, m3) := (m.(timestamp := m.timestamp + delta), m.(timestamp := m.timestamp + 2 * delta));
    var os := OutAfter(FRESH_OUT, m);
    var os2 := OutAfter(os, m2);
    assert ChooseHeader(FRESH_OUT, m).fmt == Full;
    assert ChooseHeader(os, m2).fmt == SameLengthAndStream;
    assert ChooseHeader(os2, m3).fmt == Continuation;
    NoStamps(os2, m.csid);
    NoStamps(OutAfter(os2, m3), m.csid);
    assert [m, m2, m3][1..] == [m2, m3] && [m2, m3][1..] == [m3] && [m3][1..] == [];
    assert [m, m2][1..] == [m2] && [m2][1..] == [];
    var third := Stamp(m3.timestamp, Continuation);
    assert StampsOn(os2, [m3], m.csid) == [third];
    assert StampsOn(os, [m2, m3], m.csid) == [Stamp(m2.timestamp, SameLengthAndStream)] + [third];
  }

  lemma SteadyLag(a: Stamp, b: Stamp, c: Stamp)
    requires a.fmt == Full && b.fmt == SameLengthAndStream && c.fmt == Continuation
    requires a.time < b.time < EXTENDED
    ensures Lag([a, b]) == 0 && Lag([a, b, c]) == c.time - b.time
  {
    assert [a, b, c][..2] == [a, b] && [a, b][..1] == [a];
    assert Lag([a]) == 0;
  }
}
