/**
 * The header form of every message, and the time reported for it, told by the messages sent before
 * it on its chunk stream alone.
 */
module Forms {
  import opened Bytes
  import opened HeaderSpec
  import opened WriterSpec
  import opened ReaderSpec
  import opened RoundTrip
  import opened Boundaries
  import opened Timestamps
  import opened Settings

  /** The messages of `ms` that travel on `csid`; empty ones are not sent. */
  function On(ms: seq<Message>, csid: uint32): seq<Message> {
    if ms == [] then [] else
    var (before, m) := (ms[..|ms| - 1], ms[|ms| - 1]);
    On(before, csid) + if m.csid == csid && m.payload != [] then [m] else []
  }

  /** The time between the last two messages. */
  function Gap(line: seq<Message>): int
    requires |line| >= 2
  {
    line[|line| - 1].timestamp - line[|line| - 2].timestamp
  }

  /**
   * The type of the chunk that starts the last message: 0 for the first message of a chunk stream, one
   * whose time has not grown, or one of another message stream; else 1 if its type or length is another;
   * else 3 if the gap is what a header of type 1 or 2 has just said; and else 2.
   */
  function Form(line: seq<Message>): (form: nat)
    requires line != []
    ensures form <= 3 && (form > 0 ==> |line| >= 2 && Gap(line) > 0)
    decreases |line|
  {
    var m := line[|line| - 1];
    if |line| == 1 then 0 else
    var (before, last) := (line[..|line| - 1], line[|line| - 2]);
    if m.timestamp <= last.timestamp || m.streamId != last.streamId then 0
    else if m.typ != last.typ || |m.payload| % 0x1_0000_0000 != |last.payload| % 0x1_0000_0000 then 1
    else if 1 <= Form(before) <= 2 && Gap(line) == Min(Gap(before), 0xffffff) then 3
    else 2
  }

  /** What its timestamp field has to say: the time, or the gap; type 3 has no such field. */
  function Field(line: seq<Message>): nat
    requires line != []
  {
    var form := Form(line);
    if form == 0 then line[|line| - 1].timestamp else if form == 3 then 0 else Gap(line)
  }

  // ----- The state of the writer -----

  /** The state of an outgoing chunk stream that was in state `os` before `ms`. */
  function Fold(os: OutStream, ms: seq<Message>, csid: uint32): OutStream
    decreases |ms|
  {
    if ms == [] then os else
    Fold(if ms[0].csid == csid && ms[0].payload != [] then OutAfter(os, ms[0]) else os, ms[1..], csid)
  }

  lemma {:induction false} FoldSnoc(os: OutStream, ms: seq<Message>, m: Message, csid: uint32)
    ensures var last := Fold(os, ms, csid);
            && Fold(os, ms + [m], csid) == (if m.csid == csid && m.payload != [] then OutAfter(last, m) else last)
            && StampsOn(os, ms + [m], csid)
               == StampsOn(os, ms, csid)
                  + if m.csid == csid && m.payload != [] then [Stamp(m.timestamp, ChooseHeader(last, m).fmt)] else []
    decreases |ms|
  {
    hide OutAfter, ChooseHeader;
    if ms == [] {
      assert [] + [m] == [m] && [m][1..] == [];
    } else {
      var first := ms[0];
      assert (ms + [m])[0] == first && (ms + [m])[1..] == ms[1..] + [m];
      var next := if first.csid == csid && first.payload != [] then OutAfter(os, first) else os;
      FoldSnoc(next, ms[1..], m, csid);
    }
  }

  lemma {:induction false} WriterIsFold(w: Writer, ms: seq<Message>, csid: uint32)
    requires w.chunkSize > 0 && forall m <- ms :: m.csid <= MAX_CSID
    requires WriteAll(w, ms).Wrote?
    ensures WriteAll(w, ms).writer.Stream(csid) == Fold(w.Stream(csid), ms, csid)
    decreases |ms|
  {
    hide WriteMessage, OutAfter, WriteOn;
    if ms != [] {
      WriteMessageOn(w, ms[0]);
      WriterIsFold(WriteMessage(w, ms[0]).writer, ms[1..], csid);
    }
  }

  /** What the state of a chunk stream is after the messages `line`. */
  predicate Tells(os: OutStream, line: seq<Message>) {
    if line == [] then os == FRESH_OUT else
    var m := line[|line| - 1];
    && os.lastAbsolute == m.timestamp && os.last.Some?
    && var h := os.last.value;
    && Code(h.fmt) == Form(line) && h.timestamp == Min(Field(line), 0xffffff)
    && h.typ == m.typ && h.streamId == m.streamId && h.length == |m.payload| % 0x1_0000_0000
    && (Field(line) >= 0xffffff ==> h.extended == m.timestamp)
  }

  /** The header chosen for a message, by what came before it. */
  lemma NextHeader(os: OutStream, line: seq<Message>, m: Message)
    requires Tells(os, line)
    ensures var (h, line') := (ChooseHeader(os, m), line + [m]);
            && Code(h.fmt) == Form(line') && h.csid == m.csid && h.timestamp == Min(Field(line'), 0xffffff)
            && h.length == |m.payload| % 0x1_0000_0000 && h.typ == m.typ && h.streamId == m.streamId
            && (Field(line') >= 0xffffff ==> h.extended == m.timestamp)
            && Tells(OutAfter(os, m), line')
  {
    var line' := line + [m];
    assert line'[..|line|] == line;
  }

  lemma {:induction false} FoldTells(ms: seq<Message>, csid: uint32)
    ensures Tells(Fold(FRESH_OUT, ms, csid), On(ms, csid))
  {
    hide Tells;
    if ms == [] {
      FreshTells();
    } else {
      var (before, m) := (ms[..|ms| - 1], ms[|ms| - 1]);
      FoldTells(before, csid);
      FoldSnoc(FRESH_OUT, before, m, csid);
      assert before + [m] == ms;
      NextHeader(Fold(FRESH_OUT, before, csid), On(before, csid), m);
      assert On(before, csid) + [] == On(before, csid);
    }
  }

  lemma FreshTells()
    ensures Tells(FRESH_OUT, [])
  {
  }

  // ----- The bytes of a message -----

  /** `v` in `n` bytes, the most significant one first; what does not fit is dropped. */
  function Big(v: nat, n: nat): bytes {
    if n == 0 then [] else Big(v / 0x100, n - 1) + [v % 0x100]
  }

  /** The same, the least significant byte first. */
  function Little(v: nat, n: nat): bytes {
    if n == 0 then [] else [v % 0x100] + Little(v / 0x100, n - 1)
  }

  function Basic(form: nat, csid: nat): bytes
    requires form <= 3 && csid <= 65599
  {
    if csid <= 63 then [form * 64 + csid]
    else if csid <= 319 then [form * 64] + Big(csid - 64, 1)
    else [form * 64 + 1] + Big(csid - 64, 2)
  }

  /** The header of the chunk that starts the last message. */
  function StartBytes(line: seq<Message>): bytes
    requires line != [] && line[|line| - 1].csid <= 65599
  {
    var (m, form, field) := (line[|line| - 1], Form(line), Field(line));
    Basic(form, m.csid)
    + (if form <= 2 then Big(Min(field, 0xffffff), 3) else [])
    + (if form <= 1 then Big(|m.payload| % 0x1_0000_0000, 3) + [m.typ] else [])
    + (if form == 0 then Little(m.streamId, 4) else [])
    + (if field >= 0xffffff then Big(m.timestamp, 4) else [])
  }

  lemma PutDigits(v: uint32)
    ensures var (a, b) := (v / 0x100, v / 0x100 / 0x100);
            && PutBE24(v) == [b % 0x100, a % 0x100, v % 0x100]
            && PutBE32(v) == [b / 0x100 % 0x100, b % 0x100, a % 0x100, v % 0x100]
            && PutLE32(v) == [v % 0x100, a % 0x100, b % 0x100, b / 0x100 % 0x100]
  {
    var (high, low) := (v / 0x1_0000, v % 0x1_0000);
    assert v / 0x100 / 0x100 == high;
    assert low / 0x100 == v / 0x100 % 0x100 && low % 0x100 == v % 0x100;
    assert high / 0x100 % 0x100 == high / 0x100;
  }

  lemma ShortBig(v: nat)
    ensures Big(v, 1) == [v % 0x100] && Big(v, 2) == [v / 0x100 % 0x100, v % 0x100]
    ensures Little(v, 1) == [v % 0x100] && Little(v, 2) == [v % 0x100, v / 0x100 % 0x100]
  {
    assert forall x: nat :: Big(x, 0) == [] && Little(x, 0) == [];
    assert forall x: nat :: Big(x, 1) == Big(x / 0x100, 0) + [x % 0x100];
    assert forall x: nat :: Little(x, 1) == [x % 0x100] + Little(x / 0x100, 0);
  }

  lemma NumbersOnTheWire(v: uint32)
    ensures Big(v, 3) == PutBE24(v) && Big(v, 4) == PutBE32(v) && Little(v, 4) == PutLE32(v)
  {
    hide PutBE24, PutBE32, PutLE32;
    PutDigits(v);
    ShortBig(v / 0x100);
    ShortBig(v / 0x100 / 0x100);
    assert Big(v, 4) == Big(v / 0x100, 3) + [v % 0x100];
    assert Big(v / 0x100, 3) == Big(v / 0x100 / 0x100, 2) + [v / 0x100 % 0x100];
    assert Little(v, 4) == [v % 0x100] + ([v / 0x100 % 0x100] + Little(v / 0x100 / 0x100, 2));
  }

  lemma BasicOnTheWire(fmt: Format, csid: uint32)
    requires csid <= MAX_CSID
    ensures EncodeBase(fmt, csid) == Basic(Code(fmt), csid)
  {
    if csid > 63 {
      ShortBig(csid - 64);
    }
  }

  /** The header chosen is written as that. */
  lemma StartOnTheWire(os: OutStream, line: seq<Message>, m: Message)
    requires Tells(os, line) && m.csid <= MAX_CSID
    ensures ChooseHeader(os, m).csid <= MAX_CSID
    ensures Encode(ChooseHeader(os, m)) == StartBytes(line + [m])
  {
    hide Big, Little, Basic, EncodeBase, PutBE24, PutBE32, PutLE32, ChooseHeader, Form, Tells, Field;
    NextHeader(os, line, m);
    var h := ChooseHeader(os, m);
    FieldOfTypeThree(line + [m]);
    BasicOnTheWire(h.fmt, m.csid);
    NumbersOnTheWire(h.timestamp);
    NumbersOnTheWire(h.length);
    NumbersOnTheWire(h.streamId);
    NumbersOnTheWire(h.extended);
  }

  lemma FieldOfTypeThree(line: seq<Message>)
    requires line != []
    ensures Form(line) <= 3 && (Form(line) == 3 ==> Field(line) == 0)
  {
  }

  lemma WriterTells(ms: seq<Message>, csid: uint32)
    requires (forall x <- ms :: x.csid <= MAX_CSID) && WriteAll(FRESH_WRITER, ms).Wrote?
    ensures Tells(WriteAll(FRESH_WRITER, ms).writer.Stream(csid), On(ms, csid))
  {
    hide Tells, WriteAll, Fold, On;
    WriterIsFold(FRESH_WRITER, ms, csid);
    FoldTells(ms, csid);
  }

  lemma OnSnoc(ms: seq<Message>, m: Message, csid: uint32)
    ensures On(ms + [m], csid) == On(ms, csid) + if m.csid == csid && m.payload != [] then [m] else []
  {
    assert (ms + [m])[..|ms|] == ms;
  }

  lemma WritesStart(w: Writer, m: Message)
    requires m.csid <= MAX_CSID && w.chunkSize > 0 && m.payload != [] && WriteMessage(w, m).Wrote?
    ensures ChooseHeader(w.Stream(m.csid), m).csid == m.csid
    ensures Encode(ChooseHeader(w.Stream(m.csid), m)) + m.payload[..Min(|m.payload|, w.chunkSize)]
         <= WriteMessage(w, m).out
  {
    hide Encode, ChooseHeader, ChunkSizeAfter;
    ChosenCsid(w.Stream(m.csid), m);
  }

  /**
   * Whatever was sent before, a message starts with a chunk whose header is determined by the
   * messages on its chunk stream.
   */
  lemma StartsWith(ms: seq<Message>, m: Message)
    requires (forall x <- ms :: x.csid <= MAX_CSID) && m.csid <= MAX_CSID && m.payload != []
    ensures forall x <- ms + [m] :: x.csid <= MAX_CSID
    ensures On(ms + [m], m.csid) == On(ms, m.csid) + [m]
    ensures var (before, all) := (WriteAll(FRESH_WRITER, ms), WriteAll(FRESH_WRITER, ms + [m]));
            all.Wrote? ==>
              && before.Wrote?
              && before.out + StartBytes(On(ms + [m], m.csid)) + m.payload[..Min(|m.payload|, before.writer.chunkSize)]
                 <= all.out
  {
    hide WriteAll, WriteMessage, Tells, StartBytes, Encode, ChooseHeader;
    OnSnoc(ms, m, m.csid);
    WriteAllSnoc(FRESH_WRITER, ms, m);
    if WriteAll(FRESH_WRITER, ms + [m]).Wrote? {
      var before := WriteAll(FRESH_WRITER, ms);
      WriterTells(ms, m.csid);
      StartOnTheWire(before.writer.Stream(m.csid), On(ms, m.csid), m);
      WritesStart(before.writer, m);
      PrefixAfter(before.out, StartBytes(On(ms, m.csid) + [m]), m.payload[..Min(|m.payload|, before.writer.chunkSize)],
                  WriteMessage(before.writer, m).out);
    }
  }

  lemma PrefixAfter(a: bytes, b: bytes, c: bytes, d: bytes)
    requires b + c <= d
    ensures a + b + c <= a + d
  {
    assert a + d == a + b + c + d[|b + c|..];
  }

  /**
   * All bytes of a message: the start header, then the pieces of the payload, each but the first
   * behind a basic header of type 3.
   */
  lemma MessageBytes(ms: seq<Message>, m: Message)
    requires (forall x <- ms :: x.csid <= MAX_CSID) && m.csid <= MAX_CSID && m.payload != [] && m.typ != 1
    requires WriteAll(FRESH_WRITER, ms).Wrote?
    ensures forall x <- ms + [m] :: x.csid <= MAX_CSID
    ensures On(ms + [m], m.csid) == On(ms, m.csid) + [m]
    ensures var (before, all) := (WriteAll(FRESH_WRITER, ms), WriteAll(FRESH_WRITER, ms + [m]));
            var pieces := Pieces(m.payload, before.writer.chunkSize);
            && all.Wrote? && pieces != []
            && all.out == before.out + StartBytes(On(ms + [m], m.csid)) + pieces[0]
                          + Framed(Basic(3, m.csid), pieces[1..])
            && all.writer.chunkSize == before.writer.chunkSize
  {
    hide WriteAll, WriteMessage, Tells, StartBytes, Encode, ChooseHeader, Basic, EncodeBase, CeilDiv, Pieces, Framed;
    OnSnoc(ms, m, m.csid);
    WriteAllSnoc(FRESH_WRITER, ms, m);
    var before := WriteAll(FRESH_WRITER, ms);
    WriterTells(ms, m.csid);
    StartOnTheWire(before.writer.Stream(m.csid), On(ms, m.csid), m);
    BasicOnTheWire(Continuation, m.csid);
    Chunking(before.writer, m);
    var pieces := Pieces(m.payload, before.writer.chunkSize);
    var (a, b, c, d) := (before.out, StartBytes(On(ms, m.csid) + [m]), pieces[0],
                         Framed(Basic(3, m.csid), pieces[1..]));
    assert a + (b + c + d) == a + b + c + d;
  }

  /** A start header has 11, 7, 3 or no bytes of fields behind its basic header, and four more from 0xffffff on. */
  lemma StartLength(line: seq<Message>)
    requires line != [] && line[|line| - 1].csid <= 65599
    ensures |StartBytes(line)| == |Basic(Form(line), line[|line| - 1].csid)| + [11, 7, 3, 0][Form(line)]
                                  + if Field(line) >= 0xffffff then 4 else 0
  {
    hide Form, Field, Big, Little, Basic;
    var m := line[|line| - 1];
    DigitCount(Min(Field(line), 0xffffff), 3);
    DigitCount(|m.payload| % 0x1_0000_0000, 3);
    DigitCount(m.streamId, 4);
    DigitCount(m.timestamp, 4);
  }

  lemma {:induction false} DigitCount(v: nat, n: nat)
    ensures |Big(v, n)| == |Little(v, n)| == n
  {
    if n > 0 {
      DigitCount(v / 0x100, n - 1);
    }
  }

  /** The chunk size by the messages sent: the last one announced. */
  function LastSize(ms: seq<Message>): uint32 {
    if ms == [] then 128 else
    var (before, m) := (ms[..|ms| - 1], ms[|ms| - 1]);
    if m.typ == 1 && m.payload != [] then Number(m.payload) else LastSize(before)
  }

  lemma {:induction false} ChunkSizeIsLast(ms: seq<Message>)
    requires AllSendable(FRESH_WRITER, ms)
    ensures forall m <- ms :: m.csid <= MAX_CSID
    ensures WriteAll(FRESH_WRITER, ms).Wrote? && WriteAll(FRESH_WRITER, ms).writer.chunkSize == LastSize(ms)
  {
    hide AllSendable, WriteAll, WriteMessage, Continue, Encode, ChooseHeader;
    AllSendableInRange(FRESH_WRITER, ms);
    if ms == [] {
      WritesNothing();
    } else {
      var (before, m) := (ms[..|ms| - 1], ms[|ms| - 1]);
      assert before + [m] == ms;
      AllSendableSnoc(FRESH_WRITER, before, m);
      ChunkSizeIsLast(before);
      WriteAllSnoc(FRESH_WRITER, before, m);
      SizeStep(WriteAll(FRESH_WRITER, before).writer, m);
    }
  }

  lemma WritesNothing()
    ensures WriteAll(FRESH_WRITER, []) == Wrote([], FRESH_WRITER)
  {
  }

  lemma SizeStep(w: Writer, m: Message)
    requires w.chunkSize > 0 && Sendable(w, m)
    ensures m.csid <= MAX_CSID && WriteMessage(w, m).Wrote?
    ensures WriteMessage(w, m).writer.chunkSize
         == if m.typ == 1 && m.payload != [] then Number(m.payload) else w.chunkSize
  {
    hide WriteOn, Continue, Encode, ChooseHeader;
    if m.payload != [] {
      WritesMessage(w, m);
    }
  }

  // ----- The times reported -----

  /** The time a reader reports: the gap to the message before if that message stream goes on and the gap is small. */
  function Reported(line: seq<Message>): nat
    requires line != []
  {
    var m := line[|line| - 1];
    if |line| >= 2 && line[|line| - 2].streamId == m.streamId && 0 < Gap(line) < 0xffffff then Gap(line)
    else m.timestamp
  }

  function Stamps(line: seq<Message>): seq<Stamp> {
    seq(|line|, k requires 0 <= k < |line| => Stamp(line[k].timestamp, FormatOf(Form(line[..k + 1]))))
  }

  lemma StampsSnoc(line: seq<Message>, m: Message)
    ensures Stamps(line + [m]) == Stamps(line) + [Stamp(m.timestamp, FormatOf(Form(line + [m])))]
  {
    hide Form;
    var line' := line + [m];
    assert line'[..|line'|] == line';
    forall k | 0 <= k < |line|
      ensures Stamps(line')[k] == Stamps(line)[k]
    {
      assert line'[..k + 1] == line[..k + 1];
    }
  }

  lemma {:induction false} StampsAreForms(ms: seq<Message>, csid: uint32)
    ensures StampsOn(FRESH_OUT, ms, csid) == Stamps(On(ms, csid))
  {
    hide Tells, Stamps, Form, ChooseHeader;
    if ms == [] {
      NoStamps(FRESH_OUT, csid);
      assert Stamps([]) == [] by { StampCount([]); }
    } else {
      var (before, m) := (ms[..|ms| - 1], ms[|ms| - 1]);
      assert before + [m] == ms;
      StampsAreForms(before, csid);
      FoldSnoc(FRESH_OUT, before, m, csid);
      FoldTells(before, csid);
      NextHeader(Fold(FRESH_OUT, before, csid), On(before, csid), m);
      StampsSnoc(On(before, csid), m);
      FormatOfCode(ChooseHeader(Fold(FRESH_OUT, before, csid), m).fmt);
      assert Stamps(On(before, csid)) + [] == Stamps(On(before, csid)) && On(before, csid) + [] == On(before, csid);
    }
  }

  lemma StampCount(line: seq<Message>)
    ensures |Stamps(line)| == |line|
  {
  }

  lemma FormatOfCode(fmt: Format)
    ensures Code(fmt) < 4 && FormatOf(Code(fmt)) == fmt
  {
  }

  // Every part of a run that can be sent can be sent.

  lemma {:induction false} NonEmptySendable(w: Writer, ms: seq<Message>)
    requires w.chunkSize > 0 && AllSendable(w, ms)
    ensures AllSendable(w, NonEmpty(ms))
    decreases |ms|
  {
    hide WriteOn, OutAfter, ChooseHeader;
    if ms != [] {
      var later := NonEmpty(ms[1..]);
      NonEmptySendable(WriteMessage(w, ms[0]).writer, ms[1..]);
      if ms[0].payload == [] {
        assert [] + later == later;
      } else {
        assert ([ms[0]] + later)[1..] == later;
      }
    }
  }

  lemma {:induction false} PrefixSendable(w: Writer, ms: seq<Message>, n: nat)
    requires w.chunkSize > 0 && AllSendable(w, ms) && n <= |ms|
    ensures AllSendable(w, ms[..n])
    decreases |ms|
  {
    hide AllSendable;
    if n == |ms| {
      assert ms[..n] == ms;
    } else {
      var (before, m) := (ms[..|ms| - 1], ms[|ms| - 1]);
      assert ms == before + [m] && before[..n] == ms[..n];
      AllSendableSnoc(w, before, m);
      PrefixSendable(w, before, n);
    }
  }

  /** In such a run a type 3 chunk starts a message only after a gap that fits the timestamp field. */
  lemma SmallGap(ms: seq<Message>, m: Message)
    requires AllSendable(FRESH_WRITER, ms + [m]) && m.payload != []
    ensures On(ms + [m], m.csid) == On(ms, m.csid) + [m]
    ensures Form(On(ms + [m], m.csid)) == 3 ==> Gap(On(ms + [m], m.csid)) < 0xffffff
  {
    hide AllSendable, WriteAll;
    OnSnoc(ms, m, m.csid);
    AllSendableSnoc(FRESH_WRITER, ms, m);
    WriterTells(ms, m.csid);
    GapOfTypeThree(WriteAll(FRESH_WRITER, ms).writer, On(ms, m.csid), m);
  }

  lemma GapOfTypeThree(w: Writer, line: seq<Message>, m: Message)
    requires Tells(w.Stream(m.csid), line) && Sendable(w, m)
    ensures Form(line + [m]) == 3 ==> Gap(line + [m]) < 0xffffff
  {
    hide ChooseHeader;
    NextHeader(w.Stream(m.csid), line, m);
    assert (line + [m])[..|line|] == line;
  }

  /** Type 0 is for what cannot be said as a gap. */
  lemma FormZero(line: seq<Message>)
    requires line != []
    ensures Form(line) <= 3
    ensures Form(line) == 0 <==>
              |line| == 1 || Gap(line) <= 0 || line[|line| - 1].streamId != line[|line| - 2].streamId
  {
  }

  lemma LastStamp(line: seq<Message>)
    ensures LastTime(Stamps(line)) == if line == [] then 0 else line[|line| - 1].timestamp
  {
  }

  lemma DeltaIsReported(line: seq<Message>)
    requires line != [] && (Form(line) == 3 ==> Gap(line) < 0xffffff)
    ensures Stamps(line) != [] && Delta(Stamps(line)) == Reported(line)
  {
    hide Delta, Lag, Stamps, Form, LastTime;
    var (before, m) := (line[..|line| - 1], line[|line| - 1]);
    assert line == before + [m];
    StampsSnoc(before, m);
    FormZero(line);
    var stamp := Stamp(m.timestamp, FormatOf(Form(line)));
    LineSnoc(Stamps(before), stamp);
    LastStamp(before);
    FormatCodes(Form(line));
  }

  lemma FormatCodes(code: nat)
    requires code <= 3
    ensures (FormatOf(code) == Full <==> code == 0) && (FormatOf(code) == Continuation <==> code == 3)
  {
  }

  /**
   * Over every run that can be sent: the time reported for a message is the gap to the message before
   * it on its chunk stream, if that had the same message stream id, the time has grown, and by less
   * than 0xffffff; and else the time of the message.
   */
  lemma TimesReported(ms: seq<Message>)
    requires AllSendable(FRESH_WRITER, ms)
    ensures forall m <- ms :: m.csid <= MAX_CSID
    ensures var bytes := WriteAll(FRESH_WRITER, ms);
            && bytes.Wrote?
            && var (sent, out) := (NonEmpty(ms), ReadAll(FRESH_READER, bytes.out).out);
            && |out| == |sent|
            && forall i | 0 <= i < |sent| ::
                 var line := On(sent[..i + 1], sent[i].csid);
                 && line != [] && line[|line| - 1] == sent[i]
                 && out[i].timestamp == Reported(line) && out[i].absolute == sent[i].timestamp - Lag(Stamps(line))
  {
    hide Reported, Lag, Delta, Stamps, ReadAll, WriteAll, AllSendable, Form, NonEmpty, On, StampsOn;
    TimestampLaw(ms);
    var sent := NonEmpty(ms);
    NonEmptySendable(FRESH_WRITER, ms);
    forall i | 0 <= i < |sent|
      ensures var line := On(sent[..i + 1], sent[i].csid);
              && line != [] && line[|line| - 1] == sent[i]
              && LineAt(sent, i) == Stamps(line) && Delta(LineAt(sent, i)) == Reported(line)
    {
      var m := sent[i];
      PrefixSendable(FRESH_WRITER, sent, i + 1);
      assert sent[..i + 1] == sent[..i] + [m];
      AllNonEmpty(ms);
      SmallGap(sent[..i], m);
      StampsAreForms(sent[..i + 1], m.csid);
      DeltaIsReported(On(sent[..i + 1], m.csid));
    }
  }

  lemma {:induction false} AllNonEmpty(ms: seq<Message>)
    ensures forall i | 0 <= i < |NonEmpty(ms)| :: NonEmpty(ms)[i].payload != []
  {
    if ms != [] {
      AllNonEmpty(ms[1..]);
    }
  }
}
