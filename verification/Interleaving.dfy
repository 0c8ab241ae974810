/** Any interleaving of chunks that can be read by themselves can be read. */
module Interleaving {
  import opened Bytes
  import opened Defines
  import opened HeaderSpec
  import W = WriterSpec
  import opened ReaderSpec
  import opened RoundTrip
  import opened Independence

  /** The chunks of `csid`, in order. */
  function Only(chunks: seq<Chunk>, csid: uint32): seq<Chunk> {
    if chunks == [] then [] else
    (if chunks[0].csid == csid then [chunks[0]] else []) + Only(chunks[1..], csid)
  }

  function Join(chunks: seq<Chunk>): bytes {
    if chunks == [] then [] else chunks[0].data + Join(chunks[1..])
  }

  /** The reader takes the bytes of each of `chunks` as one chunk of the csid it is labelled with. */
  predicate Clean(r: Reader, chunks: seq<Chunk>)
    decreases |chunks|
  {
    chunks == [] ||
    (var c := ReadChunk(r, chunks[0].data);
     && c.Got? && c.n == |chunks[0].data|
     && DecodeBase(chunks[0].data).Parsed? && DecodeBase(chunks[0].data).value.1 == chunks[0].csid
     && Clean(c.reader, chunks[1..]))
  }

  lemma {:induction false} JoinOnly(chunks: seq<Chunk>, csid: uint32)
    ensures Join(Only(chunks, csid)) == OnStream(chunks, csid)
  {
    if chunks != [] {
      JoinOnly(chunks[1..], csid);
      var later := Only(chunks[1..], csid);
      assert ([chunks[0]] + later)[1..] == later && [] + later == later;
      assert [] + Join(later) == Join(later);
    }
  }

  lemma ReadsOneMore(r: Reader, data: bytes, rest: bytes)
    requires ReadChunk(r, data).Got? && ReadChunk(r, data).n == |data|
    ensures var c := ReadChunk(r, data);
            ReadAll(r, data + rest) == Prefixed(OptionSeq(c.out), |data|, ReadAll(c.reader, rest))
  {
    hide ReadChunk;
    ReadChunkSame(r, data, rest);
    assert (data + rest)[|data|..] == rest;
  }

  /** Readers `qs(csid)`, of each csid its own, that agree with `r` and can read its chunks. */
  ghost predicate Split(r: Reader, qs: uint32 -> Reader, chunks: seq<Chunk>) {
    forall csid: uint32 ::
      && AgreeOn(r, qs(csid), csid) && Clean(qs(csid), Only(chunks, csid))
      && NoResize(ReadAll(qs(csid), Join(Only(chunks, csid))).out)
  }

  /** The first chunk is read alike alone and among others. */
  lemma FirstChunkAlike(r: Reader, q: Reader, chunks: seq<Chunk>)
    requires chunks != [] && AgreeOn(r, q, chunks[0].csid) && OwnIds(q)
    requires Clean(q, Only(chunks, chunks[0].csid)) && NoResize(ReadAll(q, Join(Only(chunks, chunks[0].csid))).out)
    ensures var (x, csid) := (chunks[0], chunks[0].csid);
            var (c, c') := (ReadChunk(q, x.data), ReadChunk(r, x.data));
            && c.Got? && c'.Got? && c.n == c'.n == |x.data| && c.out == c'.out
            && OwnIds(c.reader) && (c.out.Some? ==> c.out.value.csid == csid)
            && AgreeOn(c'.reader, c.reader, csid) && c'.reader.chunkSize == r.chunkSize
            && (forall other: uint32 | other != csid :: c'.reader.Stream(other) == r.Stream(other))
            && Clean(c.reader, Only(chunks[1..], csid))
            && NoResize(ReadAll(c.reader, Join(Only(chunks[1..], csid))).out)
            && ReadAll(q, Join(Only(chunks, csid))).out
               == OptionSeq(c.out) + ReadAll(c.reader, Join(Only(chunks[1..], csid))).out
  {
    hide ReadChunk, DecodeBase, ReadAll, IsControl, OwnIds;
    var (x, csid) := (chunks[0], chunks[0].csid);
    var mine := Only(chunks[1..], csid);
    assert Only(chunks, csid) == [x] + mine && ([x] + mine)[1..] == mine;
    var c := ReadChunk(q, x.data);
    ReadsOneMore(q, x.data, Join(mine));
    var later := ReadAll(c.reader, Join(mine)).out;
    assert forall d <- later :: d in OptionSeq(c.out) + later;
    assert c.out.Some? ==> c.out.value in OptionSeq(c.out) + later;
    ReadChunkLocal(q, r, x.data, []);
    assert x.data[..c.n] + [] == x.data;
    ReadChunkOwnIds(q, x.data);
    forall other: uint32
      ensures other != csid ==> ReadChunk(r, x.data).reader.Stream(other) == r.Stream(other)
      ensures ReadChunk(r, x.data).reader.chunkSize == r.chunkSize
    {
      ReadChunkTouches(r, x.data, other);
    }
  }

  function With(qs: uint32 -> Reader, csid: uint32, q: Reader): uint32 -> Reader {
    (c: uint32) => if c == csid then q else qs(c)
  }

  lemma SplitStep(r: Reader, qs: uint32 -> Reader, chunks: seq<Chunk>, q: Reader, r': Reader)
    requires chunks != [] && Split(r, qs, chunks)
    requires AgreeOn(r', q, chunks[0].csid) && r'.chunkSize == r.chunkSize
    requires forall other: uint32 | other != chunks[0].csid :: r'.Stream(other) == r.Stream(other)
    requires Clean(q, Only(chunks[1..], chunks[0].csid))
    requires NoResize(ReadAll(q, Join(Only(chunks[1..], chunks[0].csid))).out)
    ensures Split(r', With(qs, chunks[0].csid, q), chunks[1..])
  {
    hide Clean, NoResize, ReadAll, Join;
    var qs' := With(qs, chunks[0].csid, q);
    forall csid: uint32
      ensures AgreeOn(r', qs'(csid), csid) && Clean(qs'(csid), Only(chunks[1..], csid))
      ensures NoResize(ReadAll(qs'(csid), Join(Only(chunks[1..], csid))).out)
    {
      if csid != chunks[0].csid {
        assert Only(chunks, csid) == [] + Only(chunks[1..], csid) == Only(chunks[1..], csid);
      }
    }
  }

  lemma {:induction false} SplitIsRead(r: Reader, qs: uint32 -> Reader, chunks: seq<Chunk>, csid: uint32)
    requires Split(r, qs, chunks) && forall c: uint32 :: OwnIds(qs(c))
    ensures var all := ReadAll(r, Join(chunks));
            && all.stop == Eof && all.used == |Join(chunks)|
            && MessagesOn(all.out, csid) == ReadAll(qs(csid), Join(Only(chunks, csid))).out
    decreases |chunks|
  {
    hide ReadAll, ReadChunk, OwnIds, NoResize, Clean, AgreeOn;
    if chunks == [] {
      NothingToRead(r);
      NothingToRead(qs(csid));
    } else {
      var x := chunks[0];
      var q := qs(x.csid);
      FirstChunkAlike(r, q, chunks);
      var (c, c') := (ReadChunk(q, x.data), ReadChunk(r, x.data));
      SplitStep(r, qs, chunks, c.reader, c'.reader);
      SplitIsRead(c'.reader, With(qs, x.csid, c.reader), chunks[1..], csid);
      ReadsOneMore(r, x.data, Join(chunks[1..]));
      MessagesOnPrefix(c.out, ReadAll(c'.reader, Join(chunks[1..])).out, csid);
      if csid != x.csid {
        assert Only(chunks, csid) == [] + Only(chunks[1..], csid) == Only(chunks[1..], csid);
      }
    }
  }

  lemma MessagesOnPrefix(out: Option<InMessage>, later: seq<InMessage>, csid: uint32)
    ensures MessagesOn(OptionSeq(out) + later, csid)
         == OptionSeq(if out.Some? && out.value.csid == csid then out else None) + MessagesOn(later, csid)
  {
    if out.Some? {
      assert ([out.value] + later)[1..] == later;
    } else {
      assert OptionSeq(out) + later == later;
    }
  }

  /**
   * Chunks of any number of csids, interleaved in any way, are read to the end, and on each csid
   * deliver what its chunks deliver alone, if these can be read and set no new chunk size.
   */
  lemma AnyInterleaving(r: Reader, chunks: seq<Chunk>, csid: uint32)
    requires OwnIds(r)
    requires forall c: uint32 :: Clean(r, Only(chunks, c)) && NoResize(ReadAll(r, OnStream(chunks, c)).out)
    ensures var all := ReadAll(r, Join(chunks));
            && all.stop == Eof && all.used == |Join(chunks)|
            && MessagesOn(all.out, csid) == ReadAll(r, OnStream(chunks, csid)).out
  {
    hide ReadAll, Clean, NoResize, OwnIds;
    var qs := (c: uint32) => r;
    forall c: uint32
      ensures AgreeOn(r, qs(c), c) && Clean(qs(c), Only(chunks, c))
      ensures NoResize(ReadAll(qs(c), Join(Only(chunks, c))).out)
    {
      JoinOnly(chunks, c);
    }
    SplitIsRead(r, qs, chunks, csid);
    JoinOnly(chunks, csid);
  }

  /** Among them, a writer's messages on one csid arrive whole and in order. */
  lemma InterleavedMessages(w: W.Writer, r: Reader, ms: seq<W.Message>, chunks: seq<Chunk>, csid: uint32)
    requires Lockstep(w, r) && AllSendable(w, ms) && (forall m <- ms :: m.csid <= MAX_CSID)
    requires forall c: uint32 :: Clean(r, Only(chunks, c)) && NoResize(ReadAll(r, OnStream(chunks, c)).out)
    requires W.WriteAll(w, ms).Wrote? && OnStream(chunks, csid) == W.WriteAll(w, ms).out
    ensures AllDelivered(NonEmpty(ms), MessagesOn(ReadAll(r, Join(chunks)).out, csid))
  {
    hide ReadAll, Clean, NoResize, AllSendable, W.WriteAll, StreamLockstep, AllDelivered;
    EndToEnd(w, r, ms);
    AnyInterleaving(r, chunks, csid);
  }
}
