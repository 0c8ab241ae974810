/** The stream table of conn.go, proved against Allocation. */
module Connection {
  import opened Bytes
  import A = Allocation
  import C = ChunkWriter

  class Stream {
    const id: uint32
    const csid: uint32

    constructor (id: uint32, csid: uint32)
      ensures this.id == id && this.csid == csid
    {
      this.id, this.csid := id, csid;
    }
  }

  /** The chunk stream id of each stream. */
  function Csids(streams: map<uint32, Stream>): (csids: map<uint32, uint32>)
    ensures csids.Keys == streams.Keys
  {
    map id | id in streams :: streams[id].csid
  }

  /** Every stream is filed under its own id. */
  predicate Filed(streams: map<uint32, Stream>) {
    forall id <- streams :: streams[id].id == id
  }

  lemma WithStream(streams: map<uint32, Stream>, s: Stream)
    ensures Csids(streams[s.id := s]) == Csids(streams)[s.id := s.csid]
    ensures Filed(streams) ==> Filed(streams[s.id := s])
  {
  }

  lemma WithoutStream(streams: map<uint32, Stream>, id: uint32)
    ensures Csids(streams - {id}) == Csids(streams) - {id}
    ensures Filed(streams) ==> Filed(streams - {id})
  {
  }

  /** What creating `s` does to the tables, as a step of the allocation model. */
  lemma Creation(streams: map<uint32, Stream>, csids: set<uint32>, created: nat, s: Stream)
    requires A.Valid(A.Conn(Csids(streams), csids), created) && Filed(streams) && created < A.MAX_STREAMS
    requires |streams.Keys| < 0xffff_fffe && s.id == A.LeastFreeId(streams.Keys) && s.csid == 5 + created
    ensures var (c, streams') := (A.Conn(Csids(streams), csids), streams[s.id := s]);
            var c' := A.Conn(Csids(streams'), csids + {s.csid});
            && |c.streams.Keys| < 0xffff_fffe && A.Step(c, A.CreateStream) == c' && A.Creates(c, A.CreateStream)
            && A.Valid(c', created + 1) && Filed(streams')
  {
    hide A.Step, A.Creates, A.Valid, A.LeastFreeId, A.IsLeastFree;
    A.StepKeepsValid(A.Conn(Csids(streams), csids), A.CreateStream, created);
    WithStream(streams, s);
  }

  lemma NoCreation(c: A.Conn, created: nat)
    requires A.Valid(c, created) && created >= A.MAX_STREAMS
    ensures |c.streams.Keys| < 0xffff_fffe && A.Step(c, A.CreateStream) == c && !A.Creates(c, A.CreateStream)
  {
    A.StepKeepsValid(c, A.CreateStream, created);
    A.FewStreams(c, created);
  }

  class Conn {
    var streams: map<uint32, Stream>
    const chunkStream: C.ChunkStreamWriter
    ghost var created: nat  // how many streams have been created

    constructor ()
      ensures Valid() && fresh(chunkStream) && Value() == A.FRESH_CONN && created == 0
    {
      streams := map[];
      chunkStream := new C.ChunkStreamWriter();
      created := 0;
      new;
      A.FreshIsValid();
      assert Value() == A.FRESH_CONN;
    }

    ghost predicate Valid()
      reads this, chunkStream
    {
      chunkStream.Valid() && A.Valid(Value(), created) && Filed(streams)
    }

    ghost function Value(): A.Conn
      reads this, chunkStream
    {
      A.Conn(Csids(streams), chunkStream.chunkStreams.Keys)
    }

    /** The unbounded search ends at the least positive id that is free. */
    method AllocateStream(csid: uint32) returns (s: Stream)
      requires |streams.Keys| < 0xffff_fffe
      modifies this`streams
      ensures fresh(s) && s.id == A.LeastFreeId(old(streams.Keys)) && s.csid == csid
      ensures streams == old(streams)[s.id := s]
    {
      var i: uint32 := 1;
      while i in streams
        invariant streams == old(streams)
        invariant 1 <= i <= |streams.Keys| + 1 && A.AllUsed(streams.Keys, 1, i)
        decreases |streams.Keys| + 1 - i
      {
        i := i + 1;
        A.Pigeonhole(streams.Keys, i);
      }
      s := new Stream(i, csid);
      streams := streams[i := s];
    }

    method DeleteStream(streamid: uint32) returns (s: Stream?)
      modifies this`streams
      ensures (s != null) == (streamid in old(streams))
      ensures s != null ==> s == old(streams)[streamid]
      ensures streams == old(streams) - {streamid}
    {
      if streamid !in streams {
        return null;
      }
      s := streams[streamid];
      streams := streams - {streamid};
    }

    /** The next chunk stream, as long as there is one. */
    method NextChunkStream() returns (csid: uint32, ok: bool)
      requires Valid()
      modifies chunkStream`chunkStreams
      ensures chunkStream.Valid() && ok == (created < A.MAX_STREAMS)
      ensures ok ==> csid == 5 + created && chunkStream.chunkStreams.Keys == old(chunkStream.chunkStreams.Keys) + {csid}
      ensures !ok ==> chunkStream.chunkStreams == old(chunkStream.chunkStreams)
    {
      hide A.FirstFree, Csids, Filed, A.Valid, C.ChunkStreamWriter.Valid;
      A.NextCsid(Value(), created);
      var r := chunkStream.CreateChunkStream(C.LOW_PRIORITY);
      csid, ok := 0, false;
      match r
      case Created(id) => csid, ok := id, true;
      case _ =>
    }

    lemma Parts()
      requires Valid()
      ensures chunkStream.Valid() && A.Valid(Value(), created) && Filed(streams) && |streams.Keys| < 0xffff_fffe
      ensures Value() == A.Conn(Csids(streams), chunkStream.chunkStreams.Keys)
      ensures Csids(streams).Keys == streams.Keys
    {
      A.FewStreams(Value(), created);
    }

    lemma Whole()
      requires chunkStream.Valid() && Filed(streams)
      ensures Value() == A.Conn(Csids(streams), chunkStream.chunkStreams.Keys)
      ensures A.Valid(Value(), created) ==> Valid()
    {
    }

    /**
     * A createStream request, whose reply may fail to be sent; null when no chunk stream is left.
     * The stream stays also when its client has not been told of it, but is not announced.
     */
    method InvokeCreateStream(replySent: bool) returns (s: Stream?, announced: bool)
      requires Valid()
      modifies this`streams, this`created, chunkStream`chunkStreams
      ensures Valid() && Value() == A.Step(old(Value()), A.CreateStream)
      ensures (s != null) == A.Creates(old(Value()), A.CreateStream)
      ensures s != null ==> s.id == A.LeastFreeId(old(streams.Keys)) && streams == old(streams)[s.id := s]
      ensures announced == (s != null && replySent)
    {
      hide *;
      Parts();
      var csid, ok := NextChunkStream();
      s, announced := null, false;
      if !ok {
        NoCreation(Value(), created);
        Whole();
        return;
      }
      s := AllocateStream(csid);
      Creation(old(streams), old(chunkStream.chunkStreams.Keys), created, s);
      created := created + 1;
      announced := replySent;
      Whole();
    }

    method InvokeDeleteStream(id: uint32) returns (ok: bool)
      requires Valid()
      modifies this`streams
      ensures Valid() && Value() == A.Step(old(Value()), A.DeleteStream(id))
      ensures ok == (id in old(streams))
    {
      hide C.ChunkStreamWriter.Valid, Csids, A.Valid, Filed;
      A.StepKeepsValid(Value(), A.DeleteStream(id), created);
      WithoutStream(streams, id);
      var s := DeleteStream(id);
      ok := s != null;
    }
  }
}
