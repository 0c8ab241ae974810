/** The reader's chunk size and window, told by the messages it has delivered. */
module Settings {
  import opened Bytes
  import opened HeaderSpec
  import opened ReaderSpec

  /** The last message of this type on the protocol control stream. */
  function LastControl(ms: seq<InMessage>, typ: byte): Option<InMessage> {
    if ms == [] then None else
    var (before, last) := (ms[..|ms| - 1], ms[|ms| - 1]);
    if last.csid == 2 && last.typ == typ then Some(last) else LastControl(before, typ)
  }

  /** Four bytes as a number, the first one the most significant. */
  function Number(buf: bytes): uint32 {
    if |buf| < 4 then 0 else ((buf[0] as int * 256 + buf[1]) * 256 + buf[2]) * 256 + buf[3]
  }

  /** What the last such message has set, or else what was there before. */
  function Setting(ms: seq<InMessage>, typ: byte, before: uint32): uint32 {
    var m := LastControl(ms, typ);
    if m.Some? then Number(m.value.buf) else before
  }

  /** From `r` to `r'`, type 1 messages have set the chunk size and type 5 messages the window. */
  predicate Obeys(r: Reader, ms: seq<InMessage>, r': Reader) {
    r'.chunkSize == Setting(ms, 1, r.chunkSize) && r'.windowSize == Setting(ms, 5, r.windowSize)
  }

  lemma {:induction false} LastControlFirst(m: InMessage, ms: seq<InMessage>, typ: byte)
    ensures LastControl([m] + ms, typ)
         == if LastControl(ms, typ).Some? then LastControl(ms, typ)
            else if m.csid == 2 && m.typ == typ then Some(m) else None
  {
    var all := [m] + ms;
    if ms == [] {
      assert all[..|all| - 1] == [];
    } else {
      assert all[..|all| - 1] == [m] + ms[..|ms| - 1];
      LastControlFirst(m, ms[..|ms| - 1], typ);
    }
  }

  /** `handleMessage` panics exactly on a short control message, and else sets what it says. */
  lemma HandleObeys(r: Reader, m: InMessage)
    ensures var r' := Handle(r, m);
            && (r' == None <==> m.csid == 2 && (m.typ == 1 || m.typ == 5) && |m.buf| < 4)
            && (r'.Some? ==> Obeys(r, [m], r'.value) && r'.value.streams == r.streams)
  {
    LastControlFirst(m, [], 1);
    LastControlFirst(m, [], 5);
    assert [m] + [] == [m];
  }

  lemma ReadChunkObeys(r: Reader, input: bytes)
    requires ReadChunk(r, input).Got?
    ensures var c := ReadChunk(r, input); Obeys(r, OptionSeq(c.out), c.reader)
  {
    hide Setting, ReadStream, DecodeBase;
    var c := ReadChunk(r, input);
    var p := DecodeBase(input);
    var t := ReadStream(r.Stream(p.value.1), r.chunkSize, p.value.0, p.value.1, input[p.n..]);
    if c.out.Some? {
      HandleObeys(WithStream(r, p.value.1, t.stream), c.out.value);
    } else {
      NothingSet(r);
    }
  }

  lemma NothingSet(r: Reader)
    ensures Obeys(r, [], r)
  {
  }

  lemma ObeysThen(r: Reader, out: Option<InMessage>, r1: Reader, ms: seq<InMessage>, r2: Reader)
    requires Obeys(r, OptionSeq(out), r1) && Obeys(r1, ms, r2)
    ensures Obeys(r, OptionSeq(out) + ms, r2)
  {
    if out.Some? {
      assert [out.value] + [] == [out.value];
      LastControlFirst(out.value, ms, 1);
      LastControlFirst(out.value, ms, 5);
      LastControlFirst(out.value, [], 1);
      LastControlFirst(out.value, [], 5);
    } else {
      assert OptionSeq(out) + ms == ms;
    }
  }

  /** For every input, both settings are those of the last control messages delivered. */
  lemma {:induction false} LastSettingHolds(r: Reader, input: bytes)
    ensures var run := ReadAll(r, input); Obeys(r, run.out, run.reader)
    decreases |input|
  {
    hide ReadChunk, Obeys;
    var c := ReadChunk(r, input);
    if c.Got? {
      LastSettingHolds(c.reader, input[c.n..]);
      ReadChunkObeys(r, input);
      ObeysThen(r, c.out, c.reader, ReadAll(c.reader, input[c.n..]).out, ReadAll(r, input).reader);
    } else {
      NothingSet(r);
    }
  }

  /** From the start of a connection these are 128 and 1048576 until a message says otherwise. */
  lemma FreshSettings(input: bytes)
    ensures var run := ReadAll(FRESH_READER, input);
            && run.reader.chunkSize == Setting(run.out, 1, 128)
            && run.reader.windowSize == Setting(run.out, 5, 1048576)
  {
    hide ReadAll, Setting;
    LastSettingHolds(FRESH_READER, input);
  }

  lemma ExampleHeader(rest: bytes)
    requires |rest| == 4
    ensures var s := [0, 0, 7, 0, 0, 4, 5, 9, 0, 0, 0] + rest;
            && s[11..] == rest
            && DecodeFields(ZERO_HEADER, s, Full, 2, None) == Parsed(ChunkHeader(Full, 2, 7, 4, 5, 9, 0), 11)
  {
    var s: bytes := [0, 0, 7, 0, 0, 4, 5, 9, 0, 0, 0] + rest;
    assert s[7..][0] == 9 && s[7..][1] == s[7..][2] == s[7..][3] == 0;
    assert s[3..][0] == 0 && s[3..][1] == 0 && s[3..][2] == 4;
  }

  lemma ExampleBody(body: bytes)
    requires |body| == 4
    ensures var h := ChunkHeader(Full, 2, 7, 4, 5, 9, 0);
            ReadBody(FRESH_IN, 128, h, body)
            == Took(4, InStream(Some(h), 7, None), Some(InMessage(2, 5, 9, 7, 7, 4, body)))
  {
    assert body[..4] == body && [] + body == body;
  }

  lemma ExampleChunk(body: bytes)
    requires |body| == 4
    ensures var m := InMessage(2, 5, 9, 7, 7, 4, body);
            var s := InStream(Some(ChunkHeader(Full, 2, 7, 4, 5, 9, 0)), 7, None);
            ReadChunk(FRESH_READER, [0x02] + ([0, 0, 7, 0, 0, 4, 5, 9, 0, 0, 0] + body))
            == Got(16, Reader(128, BE32(body), map[2 := s]), Some(m))
  {
    hide ReadBody, DecodeFields, BE32;
    var fields: bytes := [0, 0, 7, 0, 0, 4, 5, 9, 0, 0, 0];
    ExampleHeader(body);
    ExampleBody(body);
    assert ([0x02] + (fields + body))[1..] == fields + body;
  }

  /** A window of 5000 bytes, byte by byte. */
  lemma WindowExample()
    ensures var run := ReadAll(FRESH_READER, [0x02, 0, 0, 7, 0, 0, 4, 5, 9, 0, 0, 0, 0, 0, 0x13, 0x88]);
            && run.out == [InMessage(2, 5, 9, 7, 7, 4, [0, 0, 0x13, 0x88])]
            && run.reader.windowSize == 5000 && run.used == 16
  {
    hide ReadChunk;
    var body: bytes := [0, 0, 0x13, 0x88];
    var s := [0x02] + ([0, 0, 7, 0, 0, 4, 5, 9, 0, 0, 0] + body);
    ExampleChunk(body);
    assert s[16..] == [];
    NothingToRead(ReadChunk(FRESH_READER, s).reader);
    assert s == [0x02, 0, 0, 7, 0, 0, 4, 5, 9, 0, 0, 0, 0, 0, 0x13, 0x88];
  }
}
