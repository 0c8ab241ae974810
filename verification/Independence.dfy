/** Chunks of different chunk streams may be interleaved in any way. */
module Independence {
  import opened Bytes
  import opened Defines
  import opened HeaderSpec
  import opened ReaderSpec

  /** The bytes of one chunk and the chunk stream they belong to. */
  datatype Chunk = Chunk(csid: uint32, data: bytes)

  /** The chunks a reader takes from its input, in order. */
  function ChunksOf(r: Reader, input: bytes): seq<Chunk>
    decreases |input|
  {
    var c := ReadChunk(r, input);
    if c.Got? then [Chunk(DecodeBase(input).value.1, input[..c.n])] + ChunksOf(c.reader, input[c.n..]) else []
  }

  /** Only the chunks of `csid`, one after the other. */
  function OnStream(chunks: seq<Chunk>, csid: uint32): bytes {
    if chunks == [] then [] else
    (if chunks[0].csid == csid then chunks[0].data else []) + OnStream(chunks[1..], csid)
  }

  function MessagesOn(ms: seq<InMessage>, csid: uint32): seq<InMessage> {
    if ms == [] then [] else
    (if ms[0].csid == csid then [ms[0]] else []) + MessagesOn(ms[1..], csid)
  }

  /** No message among these sets a new chunk size. */
  predicate NoResize(ds: seq<InMessage>) {
    forall d <- ds :: !IsControl(d, SET_CHUNK_SIZE)
  }

  // ----- A chunk is read from its own bytes and its own chunk stream -----

  predicate SamePrefix(s: bytes, t: bytes, n: nat) {
    n <= |s| && n <= |t| && s[..n] == t[..n]
  }

  lemma SamePrefixShorter(s: bytes, t: bytes, n: nat, k: nat)
    requires SamePrefix(s, t, n) && k <= n
    ensures SamePrefix(s[k..], t[k..], n - k) && SamePrefix(s, t, k)
  {
    assert s[..k] == s[..n][..k] && t[..k] == t[..n][..k];
    assert s[k..][..n - k] == s[..n][k..] && t[k..][..n - k] == t[..n][k..];
  }

  lemma SamePrefixAt(s: bytes, t: bytes, n: nat)
    requires SamePrefix(s, t, n)
    ensures forall i | 0 <= i < n :: s[i] == t[i]
  {
    forall i | 0 <= i < n
      ensures s[i] == t[i]
    {
      assert s[i] == s[..n][i] && t[i] == t[..n][i];
    }
  }

  lemma DecodeBaseLocal(s: bytes, t: bytes)
    requires DecodeBase(s).Parsed? && SamePrefix(s, t, DecodeBase(s).n)
    ensures DecodeBase(t) == DecodeBase(s)
  {
    SamePrefixAt(s, t, DecodeBase(s).n);
  }

  lemma DecodeFieldsLocal(h: ChunkHeader, s: bytes, t: bytes, fmt: Format, csid: uint32, last: Option<ChunkHeader>)
    requires var p := DecodeFields(h, s, fmt, csid, last); p.Parsed? && SamePrefix(s, t, p.n)
    ensures DecodeFields(h, t, fmt, csid, last) == DecodeFields(h, s, fmt, csid, last)
  {
    SamePrefixAt(s, t, DecodeFields(h, s, fmt, csid, last).n);
  }

  lemma ReadBodyLocal(s: InStream, chunkSize: uint32, wire: ChunkHeader, b: bytes, b': bytes)
    requires var t := ReadBody(s, chunkSize, wire, b); t.Took? && SamePrefix(b, b', t.n)
    ensures ReadBody(s, chunkSize, wire, b') == ReadBody(s, chunkSize, wire, b)
  {
  }

  lemma ReadStreamLocal(s: InStream, chunkSize: uint32, fmt: Format, csid: uint32, b: bytes, b': bytes)
    requires var t := ReadStream(s, chunkSize, fmt, csid, b); t.Took? && SamePrefix(b, b', t.n)
    ensures ReadStream(s, chunkSize, fmt, csid, b') == ReadStream(s, chunkSize, fmt, csid, b)
  {
    hide ReadBody, DecodeFields;
    var p := DecodeFields(ZERO_HEADER, b, fmt, csid, s.last);
    var n := ReadStream(s, chunkSize, fmt, csid, b).n;
    SamePrefixShorter(b, b', n, p.n);
    DecodeFieldsLocal(ZERO_HEADER, b, b', fmt, csid, s.last);
    ReadBodyLocal(s, chunkSize, p.value, b[p.n..], b'[p.n..]);
  }

  /** Readers that agree on the chunk size and on one chunk stream. */
  predicate AgreeOn(r: Reader, q: Reader, csid: uint32) {
    q.chunkSize == r.chunkSize && q.Stream(csid) == r.Stream(csid)
  }

  /** A reader that knows only this chunk stream reads the chunk in the same way. */
  lemma ReadChunkLocal(r: Reader, q: Reader, input: bytes, rest: bytes)
    requires ReadChunk(r, input).Got? && AgreeOn(r, q, DecodeBase(input).value.1)
    ensures var c := ReadChunk(r, input);
            var c' := ReadChunk(q, input[..c.n] + rest);
            && c'.Got? && c'.n == c.n && c'.out == c.out
            && AgreeOn(c.reader, c'.reader, DecodeBase(input).value.1)
  {
    hide ReadStream, DecodeBase;
    var c := ReadChunk(r, input);
    var t := input[..c.n] + rest;
    assert t[..c.n] == input[..c.n];
    var p := DecodeBase(input);
    SamePrefixShorter(input, t, c.n, p.n);
    DecodeBaseLocal(input, t);
    ReadStreamLocal(r.Stream(p.value.1), r.chunkSize, p.value.0, p.value.1, input[p.n..], t[p.n..]);
  }

  /** What follows a chunk does not change how it is read. */
  lemma ReadChunkSame(r: Reader, input: bytes, rest: bytes)
    requires ReadChunk(r, input).Got?
    ensures ReadChunk(r, input + rest) == ReadChunk(r, input)
  {
    hide ReadStream, DecodeBase;
    var n := ReadChunk(r, input).n;
    var t := input + rest;
    var p := DecodeBase(input);
    assert t[..n] == input[..n];
    SamePrefixShorter(input, t, n, p.n);
    DecodeBaseLocal(input, t);
    ReadStreamLocal(r.Stream(p.value.1), r.chunkSize, p.value.0, p.value.1, input[p.n..], t[p.n..]);
  }

  /** Input read to the end may be continued. */
  lemma {:induction false} ReadAllThen(r: Reader, input: bytes, rest: bytes)
    requires ReadAll(r, input).used == |input|
    ensures var run := ReadAll(r, input);
            ReadAll(r, input + rest) == Prefixed(run.out, |input|, ReadAll(run.reader, rest))
    decreases |input|
  {
    hide ReadChunk;
    var c := ReadChunk(r, input);
    if c.Got? {
      ReadChunkSame(r, input, rest);
      assert (input + rest)[c.n..] == input[c.n..] + rest;
      ReadAllThen(c.reader, input[c.n..], rest);
      var (later, last) := (ReadAll(c.reader, input[c.n..]), ReadAll(ReadAll(r, input).reader, rest));
      assert OptionSeq(c.out) + (later.out + last.out) == OptionSeq(c.out) + later.out + last.out;
    } else {
      assert input + rest == rest;
      var last := ReadAll(r, rest);
      assert [] + last.out == last.out;
    }
  }

  /** A chunk touches its own chunk stream only, and the chunk size only by a control message. */
  lemma ReadChunkTouches(r: Reader, input: bytes, csid: uint32)
    requires ReadChunk(r, input).Got?
    ensures DecodeBase(input).Parsed?
    ensures var c := ReadChunk(r, input);
            && (csid != DecodeBase(input).value.1 ==> c.reader.Stream(csid) == r.Stream(csid))
            && ((c.out.Some? && IsControl(c.out.value, SET_CHUNK_SIZE)) || c.reader.chunkSize == r.chunkSize)
  {
  }

  /** Every message under way on a chunk stream carries the id of that stream. */
  predicate OwnIds(r: Reader) {
    forall csid <- r.streams :: r.streams[csid].current.Some? ==> r.streams[csid].current.value.csid == csid
  }

  lemma ReadChunkOwnIds(r: Reader, input: bytes)
    requires OwnIds(r) && ReadChunk(r, input).Got?
    ensures var c := ReadChunk(r, input);
            OwnIds(c.reader) && (c.out.Some? ==> c.out.value.csid == DecodeBase(input).value.1)
  {
    hide DecodeFields, DecodeBase, Resolve;
    var p := DecodeBase(input);
    var csid := p.value.1;
    ReadStreamOwnIds(r.Stream(csid), r.chunkSize, p.value.0, csid, input[p.n..]);
  }

  lemma ReadStreamOwnIds(s: InStream, chunkSize: uint32, fmt: Format, csid: uint32, input: bytes)
    requires s.current.Some? ==> s.current.value.csid == csid
    requires ReadStream(s, chunkSize, fmt, csid, input).Took?
    ensures var t := ReadStream(s, chunkSize, fmt, csid, input);
            && (t.stream.current.Some? ==> t.stream.current.value.csid == csid)
            && (t.out.Some? ==> t.out.value.csid == csid)
  {
  }

  /**
   * The messages of one chunk stream do not depend on the chunks of the others, as long as no
   * new chunk size arrives: reading the chunks of `csid` alone delivers the same messages and
   * leaves the same message under way.
   */
  lemma {:induction false} StreamsAreIndependent(r: Reader, q: Reader, input: bytes, csid: uint32)
    requires OwnIds(r) && AgreeOn(r, q, csid)
    requires forall m <- ReadAll(r, input).out :: !IsControl(m, SET_CHUNK_SIZE)
    ensures var all := ReadAll(r, input);
            var one := ReadAll(q, OnStream(ChunksOf(r, input), csid));
            && one.out == MessagesOn(all.out, csid)
            && one.reader.Stream(csid) == all.reader.Stream(csid)
            && one.stop == Eof
    decreases |input|
  {
    hide ReadChunk, DecodeBase, IsControl;
    NothingToRead(q);
    var c := ReadChunk(r, input);
    if c.Got? {
      var rest := input[c.n..];
      var later := ReadAll(c.reader, rest);
      assert ReadAll(r, input).out == OptionSeq(c.out) + later.out;
      assert forall m <- later.out :: m in ReadAll(r, input).out;
      assert c.out.Some? ==> c.out.value in ReadAll(r, input).out;
      ReadChunkOwnIds(r, input);
      ReadChunkTouches(r, input, csid);
      var tail := OnStream(ChunksOf(c.reader, rest), csid);
      if DecodeBase(input).value.1 == csid {
        ReadChunkLocal(r, q, input, tail);
        var c' := ReadChunk(q, input[..c.n] + tail);
        StreamsAreIndependent(c.reader, c'.reader, rest, csid);
        assert (input[..c.n] + tail)[c.n..] == tail;
      } else {
        StreamsAreIndependent(c.reader, q, rest, csid);
        assert [] + tail == tail;
      }
      if c.out.Some? {
        assert ([c.out.value] + later.out)[1..] == later.out;
      } else {
        assert [] + later.out == later.out;
      }
    }
  }
}
