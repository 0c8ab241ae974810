/** Chunk headers as values and their wire form (RTMP 1.0 section 5.3.1). */
module HeaderSpec {
  import opened Bytes
  import opened Defines

  datatype Format = Full | SameStream | SameLengthAndStream | Continuation

  datatype ChunkHeader = ChunkHeader(
    fmt: Format, csid: uint32,
    timestamp: uint32, length: uint32, typ: byte, streamId: uint32,
    extended: uint32)

  const ZERO_HEADER := ChunkHeader(Full, 0, 0, 0, 0, 0, 0)

  function Code(f: Format): nat {
    match f
    case Full => 0
    case SameStream => 1
    case SameLengthAndStream => 2
    case Continuation => 3
  }

  function FormatOf(code: nat): Format
    requires code < 4
  {
    if code == 0 then Full else if code == 1 then SameStream
    else if code == 2 then SameLengthAndStream else Continuation
  }

  // ----- Writing -----

  /** The largest chunk stream id that has a wire form. */
  const MAX_CSID: uint32 := 65599

  function EncodeBase(fmt: Format, csid: uint32): (s: bytes)
    requires csid <= MAX_CSID
    ensures |s| == if csid <= 63 then 1 else if csid <= 319 then 2 else 3
  {
    var top := Code(fmt) * 64;
    if csid <= 63 then [top + csid]
    else if csid <= 319 then [top, csid - 64]
    else [top + 1, (csid - 64) / 0x100, (csid - 64) % 0x100]
  }

  function EncodeExtended(h: ChunkHeader): bytes {
    if h.timestamp >= EXTENDED then PutBE32(h.extended) else []
  }

  /** Size of the message header that follows the basic header, without extended timestamp. */
  function FieldBytes(fmt: Format): nat {
    match fmt
    case Full => 11
    case SameStream => 7
    case SameLengthAndStream => 3
    case Continuation => 0
  }

  /** Timestamp, length, type and stream id end after this many bytes. */
  predicate FieldEnd(n: nat) {
    n == 0 || n == 3 || n == 6 || n == 7 || n == 11
  }

  /** The bytes of those fixed fields that `k` bytes hold in full. */
  function WholeFields(fmt: Format, k: nat): (n: nat)
    ensures n <= k && n <= FieldBytes(fmt) && FieldEnd(n)
    ensures forall end: nat | FieldEnd(end) && end <= k && end <= FieldBytes(fmt) :: end <= n
  {
    if fmt == Continuation || k < 3 then 0
    else if fmt == SameLengthAndStream || k < 6 then 3
    else if k < 7 then 6
    else if fmt == SameStream || k < 11 then 7
    else 11
  }

  /** The wire form without the extended timestamp. */
  function FixedFields(h: ChunkHeader): (s: bytes)
    ensures |s| == FieldBytes(h.fmt)
  {
    match h.fmt
    case Full => PutBE24(h.timestamp) + PutBE24(h.length) + [h.typ] + PutLE32(h.streamId)
    case SameStream => PutBE24(h.timestamp) + PutBE24(h.length) + [h.typ]
    case SameLengthAndStream => PutBE24(h.timestamp)
    case Continuation => []
  }

  function EncodeFields(h: ChunkHeader): bytes {
    FixedFields(h) + if h.fmt == Continuation then [] else EncodeExtended(h)
  }

  function Encode(h: ChunkHeader): bytes
    requires h.csid <= MAX_CSID
  {
    EncodeBase(h.fmt, h.csid) + EncodeFields(h)
  }

  // ----- Reading -----

  datatype Parsed<+T> = Parsed(value: T, n: nat) | Short

  function DecodeBase(s: bytes): (p: Parsed<(Format, uint32)>)
    ensures p.Parsed? ==> 1 <= p.n <= 3 && p.n <= |s|
  {
    if |s| < 1 then Short else
    var fmt := FormatOf(s[0] / 64);
    var low := s[0] % 64;
    if low == 0 then
      if |s| < 2 then Short else Parsed((fmt, 64 + s[1] as int), 2)
    else if low == 1 then
      if |s| < 3 then Short else Parsed((fmt, 64 + s[1] as int + s[2] as int * 0x100), 3)
    else Parsed((fmt, low), 1)
  }

  /** The receiver `h` after the fixed fields of format `fmt` have been filled in from `s`. */
  function Fill(h: ChunkHeader, s: bytes, fmt: Format, csid: uint32): ChunkHeader
    requires |s| >= FieldBytes(fmt)
  {
    var h1 := h.(fmt := fmt, csid := csid);
    match fmt
    case Full => h1.(timestamp := BE24(s), length := BE24(s[3..]), typ := s[6], streamId := LE32(s[7..]))
    case SameStream => h1.(timestamp := BE24(s), length := BE24(s[3..]), typ := s[6])
    case SameLengthAndStream => h1.(timestamp := BE24(s))
    case Continuation => h1
  }

  predicate ExpectsExtended(h: ChunkHeader, last: Option<ChunkHeader>) {
    if h.fmt == Continuation then last.Some? && last.value.extended > 0
    else h.timestamp >= EXTENDED
  }

  /** Reading the message header of format `fmt` into a header that held `h` before. */
  function DecodeFields(h: ChunkHeader, s: bytes, fmt: Format, csid: uint32, last: Option<ChunkHeader>)
    : (p: Parsed<ChunkHeader>)
    ensures p.Parsed? ==> p.n <= 15 && p.n <= |s|
  {
    var n := FieldBytes(fmt);
    if |s| < n then Short else
    var h1 := Fill(h, s, fmt, csid);
    if !ExpectsExtended(h1, last) then Parsed(h1.(extended := 0), n)
    else if |s| < n + 4 then Short
    else Parsed(h1.(extended := BE32(s[n..])), n + 4)
  }

  /** `RealTimestamp`. */
  function RealTimestamp(h: ChunkHeader): uint32 {
    if h.timestamp >= EXTENDED then h.extended else h.timestamp
  }

  // ----- Round trip -----

  /** The three-byte basic header is written big-endian and read little-endian. */
  predicate CsidSurvives(csid: uint32) {
    2 <= csid <= 319
    || (320 <= csid <= MAX_CSID && (csid - 64) / 0x100 == (csid - 64) % 0x100)
  }

  /** Exactly the surviving ids come back, whatever follows on the wire. */
  lemma BaseHeaderRoundTrip(fmt: Format, csid: uint32, rest: bytes)
    requires csid <= MAX_CSID
    ensures CsidSurvives(csid)
       <==> DecodeBase(EncodeBase(fmt, csid) + rest) == Parsed((fmt, csid), |EncodeBase(fmt, csid)|)
  {
    var s := EncodeBase(fmt, csid) + rest;
    assert s[0] == EncodeBase(fmt, csid)[0];
    if csid > 63 {
      assert s[1] == EncodeBase(fmt, csid)[1];
    }
    if csid > 319 {
      assert s[2] == EncodeBase(fmt, csid)[2];
    }
  }

  /** What a reader can know of `h` from its wire form alone. */
  function Carried(h: ChunkHeader): ChunkHeader {
    var z := ZERO_HEADER.(fmt := h.fmt, csid := h.csid);
    match h.fmt
    case Full => h
    case SameStream => h.(streamId := 0)
    case SameLengthAndStream => z.(timestamp := h.timestamp, extended := h.extended)
    case Continuation => z
  }

  /** A header as `newHeader` builds it: fields fit the wire, extended only with the marker. */
  predicate Wire(h: ChunkHeader) {
    h.timestamp <= EXTENDED && h.length < 0x100_0000
    && (h.timestamp < EXTENDED ==> h.extended == 0)
  }

  /** The first id whose two bytes differ, 320, comes back as 65. */
  lemma BaseHeaderExample()
    ensures DecodeBase(EncodeBase(Full, 320)) == Parsed((Full, 65), 3)
  {
  }

  lemma FillRoundTrip(h: ChunkHeader, x: bytes)
    requires h.timestamp < 0x100_0000 && h.length < 0x100_0000
    ensures Fill(ZERO_HEADER, FixedFields(h) + x, h.fmt, h.csid).(extended := h.extended)
         == Carried(h).(extended := h.extended)
  {
    var s := FixedFields(h) + x;
    if h.fmt != Continuation {
      BE24Append(h.timestamp, s[3..]);
      assert s == PutBE24(h.timestamp) + s[3..];
    }
    if h.fmt == Full || h.fmt == SameStream {
      BE24Append(h.length, s[6..]);
      assert s[3..] == PutBE24(h.length) + s[6..];
      assert s[6] == h.typ;
    }
    if h.fmt == Full {
      LE32Append(h.streamId, x);
      assert s[7..] == PutLE32(h.streamId) + x;
    }
  }

  /** The message header of `h` reads back as what it carries. */
  lemma FieldsRoundTrip(h: ChunkHeader, rest: bytes, last: Option<ChunkHeader>)
    requires Wire(h) && (h.fmt == Continuation && last.Some? ==> last.value.extended == 0)
    ensures DecodeFields(ZERO_HEADER, EncodeFields(h) + rest, h.fmt, h.csid, last)
         == Parsed(Carried(h), |EncodeFields(h)|)
  {
    hide Fill;
    var x := if h.fmt == Continuation then rest else EncodeExtended(h) + rest;
    assert EncodeFields(h) + rest == FixedFields(h) + x;
    assert (FixedFields(h) + x)[FieldBytes(h.fmt)..] == x;
    FillRoundTrip(h, x);
    FillTimestamp(h, x);
    BE32Append(h.extended, rest);
  }

  lemma FillTimestamp(h: ChunkHeader, x: bytes)
    ensures var h' := Fill(ZERO_HEADER, FixedFields(h) + x, h.fmt, h.csid);
            h'.fmt == h.fmt && h'.extended == 0
  {
  }

  lemma HeaderRoundTrip(h: ChunkHeader, rest: bytes, last: Option<ChunkHeader>)
    requires Wire(h) && CsidSurvives(h.csid)
    requires h.fmt == Continuation && last.Some? ==> last.value.extended == 0
    ensures DecodeBase(Encode(h) + rest) == Parsed((h.fmt, h.csid), |EncodeBase(h.fmt, h.csid)|)
    ensures (Encode(h) + rest)[|EncodeBase(h.fmt, h.csid)|..] == EncodeFields(h) + rest
    ensures DecodeFields(ZERO_HEADER, EncodeFields(h) + rest, h.fmt, h.csid, last)
         == Parsed(Carried(h), |EncodeFields(h)|)
  {
    hide DecodeBase, DecodeFields, EncodeBase, EncodeFields, Carried;
    BaseHeaderRoundTrip(h.fmt, h.csid, EncodeFields(h) + rest);
    assert Encode(h) + rest == EncodeBase(h.fmt, h.csid) + (EncodeFields(h) + rest);
    FieldsRoundTrip(h, rest, last);
  }

  /** A type 3 chunk after an extended timestamp is taken to carry one again, and no other is. */
  lemma ExtendedInTypeThree(extended: uint32, rest: bytes, csid: uint32, last: Option<ChunkHeader>)
    ensures DecodeFields(ZERO_HEADER, PutBE32(extended) + rest, Continuation, csid, last)
         == if last.Some? && last.value.extended > 0
            then Parsed(ChunkHeader(Continuation, csid, 0, 0, 0, 0, extended), 4)
            else Parsed(ChunkHeader(Continuation, csid, 0, 0, 0, 0, 0), 0)
  {
    BE32Append(extended, rest);
    var s := PutBE32(extended) + rest;
    assert s[0..] == s;
  }
}
