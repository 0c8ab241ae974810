/** The two id allocators of a connection: chunk stream ids and message stream ids. */
module Allocation {
  import opened Bytes
  import opened Defines

  predicate AllUsed(used: set<uint32>, from: uint32, to: uint32) {
    forall j: uint32 | from <= j < to :: j in used
  }

  /** Linear search for the first number in `i..limit` that is not in use. */
  function FirstFree(used: set<uint32>, i: uint32, limit: uint32): (r: Option<uint32>)
    ensures r.Some? ==> i <= r.value < limit && r.value !in used
    ensures AllUsed(used, i, if r.Some? then r.value else limit)
    decreases limit - i
  {
    if i >= limit then None else if i !in used then Some(i) else FirstFree(used, i + 1, limit)
  }

  /** If all of `1..i` is in use, then at least `i - 1` numbers are. */
  lemma {:induction false} Pigeonhole(used: set<uint32>, i: uint32)
    requires i > 0 && AllUsed(used, 1, i)
    ensures i - 1 <= |used|
  {
    if i > 1 {
      Pigeonhole(used - {i - 1}, i - 1);
    }
  }

  /** Free, with all smaller positive numbers in use, and so at most one above their number. */
  predicate IsLeastFree(used: set<uint32>, id: uint32) {
    1 <= id <= |used| + 1 && id !in used && AllUsed(used, 1, id)
  }

  /** The id `allocateStream` picks: the least positive one that is free. */
  function LeastFreeId(used: set<uint32>): (id: uint32)
    requires |used| < 0xffff_fffe
    ensures IsLeastFree(used, id)
  {
    var r := FirstFree(used, 1, |used| + 2);
    assert r.Some? by {
      if r.None? {
        Pigeonhole(used, |used| + 2);
      }
    }
    r.value
  }

  /** The streams of a connection by id, and all chunk stream ids ever registered. */
  datatype Conn = Conn(streams: map<uint32, uint32>, csids: set<uint32>)

  const FRESH_CONN := Conn(map[], {CS_ID_PROTOCOL_CONTROL, CS_ID_COMMAND, CS_ID_USER_CONTROL})

  datatype Event = CreateStream | DeleteStream(id: uint32)

  /** invokeCreateStream and invokeDeleteStream; a request that fails changes nothing. */
  function Step(c: Conn, e: Event): Conn
    requires |c.streams.Keys| < 0xffff_fffe
  {
    match e
    case CreateStream =>
      (match FirstFree(c.csids, CS_ID_BASE, CS_ID_MAX)
       case None => c
       case Some(csid) => Conn(c.streams[LeastFreeId(c.streams.Keys) := csid], c.csids + {csid}))
    case DeleteStream(id) => c.(streams := c.streams - {id})
  }

  // ----- Whole runs -----

  /** How many createStream requests can succeed on one connection. */
  const MAX_STREAMS := 95

  /** Registered ids are a block from 2 up; live streams own distinct ids of it. */
  predicate Valid(c: Conn, created: nat) {
    && created <= MAX_STREAMS
    && (forall csid: uint32 :: csid in c.csids <==> 2 <= csid < 5 + created)
    && |c.streams| <= created
    && (forall id <- c.streams :: 5 <= c.streams[id] < 5 + created)
    && forall i, j | i in c.streams && j in c.streams && i != j :: c.streams[i] != c.streams[j]
  }

  /** Does the request succeed in creating a stream? */
  predicate Creates(c: Conn, e: Event) {
    e == CreateStream && FirstFree(c.csids, CS_ID_BASE, CS_ID_MAX).Some?
  }

  lemma FreshIsValid()
    ensures Valid(FRESH_CONN, 0)
  {
  }

  lemma CreationKeepsValid(c: Conn, created: nat, id: uint32)
    requires Valid(c, created) && created < MAX_STREAMS && id !in c.streams
    ensures Valid(Conn(c.streams[id := 5 + created], c.csids + {5 + created}), created + 1)
  {
  }

  lemma DeletionKeepsValid(c: Conn, created: nat, id: uint32)
    requires Valid(c, created)
    ensures Valid(c.(streams := c.streams - {id}), created)
  {
    var streams := c.streams - {id};
    assert streams.Keys <= c.streams.Keys;
    SubsetSize(streams.Keys, c.streams.Keys);
  }

  lemma StepKeepsValid(c: Conn, e: Event, created: nat)
    requires Valid(c, created)
    ensures Creates(c, e) <==> e == CreateStream && created < MAX_STREAMS
    ensures Valid(Step(c, e), if Creates(c, e) then created + 1 else created)
    ensures e == CreateStream && !Creates(c, e) ==> Step(c, e) == c
    ensures Creates(c, e) ==>
              Step(c, e) == Conn(c.streams[LeastFreeId(c.streams.Keys) := 5 + created], c.csids + {5 + created})
  {
    NextCsid(c, created);
    assert |c.streams.Keys| <= MAX_STREAMS;
    hide FirstFree, Valid, LeastFreeId;
    match e
    case CreateStream =>
      if created < MAX_STREAMS {
        CreationKeepsValid(c, created, LeastFreeId(c.streams.Keys));
      }
    case DeleteStream(id) =>
      DeletionKeepsValid(c, created, id);
  }

  lemma FewStreams(c: Conn, created: nat)
    requires Valid(c, created)
    ensures |c.streams.Keys| == |c.streams| <= MAX_STREAMS
  {
  }

  lemma NextCsid(c: Conn, created: nat)
    requires Valid(c, created)
    ensures FirstFree(c.csids, CS_ID_BASE, CS_ID_MAX) == if created < MAX_STREAMS then Some(5 + created) else None
  {
    if created < MAX_STREAMS {
      assert 5 + created !in c.csids;
    }
  }

  lemma {:induction false} SubsetSize<T>(a: set<T>, b: set<T>)
    requires a <= b
    ensures |a| <= |b|
  {
    if a != {} {
      var x :| x in a;
      SubsetSize(a - {x}, b - {x});
    }
  }

  /** What a run has come to: the state, the streams created, and the most alive at any time. */
  datatype Run = Run(conn: Conn, created: nat, peak: nat)

  predicate ValidRun(run: Run) {
    Valid(run.conn, run.created)
  }

  function Advance(run: Run, e: Event): (run': Run)
    requires ValidRun(run)
    ensures ValidRun(run')
  {
    StepKeepsValid(run.conn, e, run.created);
    var after := Step(run.conn, e);
    var live := |after.streams|;
    Run(after, if Creates(run.conn, e) then run.created + 1 else run.created,
        if live > run.peak then live else run.peak)
  }

  function Play(es: seq<Event>): (run: Run)
    ensures ValidRun(run)
  {
    if es == [] then FreshIsValid(); Run(FRESH_CONN, 0, 0) else Advance(Play(es[..|es| - 1]), es[|es| - 1])
  }

  /**
   * In every run of creates and deletes no stream id exceeds the most streams that were alive at
   * any one time, and no connection ever creates more than 95 streams.
   */
  lemma {:induction false} StreamIdsAreDense(es: seq<Event>)
    ensures var run := Play(es);
            && (forall id <- run.conn.streams :: 1 <= id <= run.peak)
            && run.peak <= run.created <= MAX_STREAMS
  {
    if es != [] {
      StreamIdsAreDense(es[..|es| - 1]);
    }
  }

  /** One more creation succeeds exactly if fewer than 95 have, and takes the next chunk stream id. */
  lemma CreationStopsAfter95(es: seq<Event>)
    ensures var run := Play(es);
            Play(es + [CreateStream]).created == if run.created < MAX_STREAMS then run.created + 1 else MAX_STREAMS
    ensures var run := Play(es);
            run.created < MAX_STREAMS ==> Play(es + [CreateStream]).conn.csids == run.conn.csids + {5 + run.created}
  {
    hide Step, Creates;
    var longer := es + [CreateStream];
    assert longer[..|longer| - 1] == es;
    StepKeepsValid(Play(es).conn, CreateStream, Play(es).created);
  }

  /** A deletion takes away just that stream; its chunk stream id stays registered. */
  lemma DeletionFrees(es: seq<Event>, id: uint32)
    ensures var (run, after) := (Play(es), Play(es + [DeleteStream(id)]));
            && id !in after.conn.streams
            && (forall j: uint32 | j != id :: j in after.conn.streams <==> j in run.conn.streams)
            && (forall j: uint32 | j != id && j in after.conn.streams ::
                  j in run.conn.streams && after.conn.streams[j] == run.conn.streams[j])
            && after.conn.csids == run.conn.csids && after.created == run.created
  {
    var longer := es + [DeleteStream(id)];
    assert longer[..|longer| - 1] == es;
  }

  /** The id of a deleted stream is given out again, with a new chunk stream id, once all below it are in use. */
  lemma IdIsReused(es: seq<Event>, id: uint32)
    requires id in Play(es).conn.streams && AllUsed(Play(es).conn.streams.Keys, 1, id) && Play(es).created < MAX_STREAMS
    ensures var (run, after) := (Play(es), Play(es + [DeleteStream(id)] + [CreateStream]));
            after.conn.streams == run.conn.streams[id := 5 + run.created] && after.created == run.created + 1
  {
    hide Play, Step, LeastFreeId, Creates;
    var deleted := es + [DeleteStream(id)];
    PlaySnoc(es, DeleteStream(id));
    PlaySnoc(deleted, CreateStream);
    StreamIdsAreDense(es);
    DeletionFrees(es, id);
    var (run, c) := (Play(es), Play(deleted).conn);
    hide Valid;
    StepKeepsValid(c, CreateStream, run.created);
    FewStreams(c, run.created);
    StillUsed(run.conn.streams.Keys, c.streams.Keys, id);
    LeastIs(c.streams.Keys, id);
    SameButFor(c.streams, run.conn.streams, id, 5 + run.created);
  }

  lemma StillUsed(used: set<uint32>, left: set<uint32>, id: uint32)
    requires AllUsed(used, 1, id) && forall j: uint32 | j != id :: j in left <==> j in used
    ensures AllUsed(left, 1, id)
  {
  }

  lemma SameButFor(a: map<uint32, uint32>, b: map<uint32, uint32>, id: uint32, csid: uint32)
    requires forall j: uint32 | j != id :: j in a <==> j in b
    requires forall j: uint32 | j != id && j in a && j in b :: a[j] == b[j]
    ensures a[id := csid] == b[id := csid]
  {
    assert a[id := csid].Keys == b[id := csid].Keys;
  }

  lemma PlaySnoc(es: seq<Event>, e: Event)
    ensures Play(es + [e]) == Advance(Play(es), e)
  {
    assert (es + [e])[..|es|] == es;
  }

  lemma LeastIs(used: set<uint32>, id: uint32)
    requires |used| < 0xffff_fffe && id >= 1 && id !in used && AllUsed(used, 1, id)
    ensures LeastFreeId(used) == id
  {
    hide LeastFreeId;
    var least := LeastFreeId(used);
    assert least < id ==> least in used;
    assert id < least ==> id in used;
  }

  /** The streams are 1 to `n`, on chunk streams 5 to `4 + n`. */
  predicate Block(streams: map<uint32, uint32>, n: nat) {
    && (forall id: uint32 :: id in streams <==> 1 <= id <= n)
    && forall id <- streams :: streams[id] == 4 + id
  }

  lemma LeastAfterBlock(used: set<uint32>, n: nat)
    requires n < MAX_STREAMS && |used| < 0xffff_fffe && forall id: uint32 :: id in used <==> 1 <= id <= n
    ensures LeastFreeId(used) == n + 1
  {
    hide LeastFreeId;
    var id := LeastFreeId(used);
    var next: uint32 := n + 1;
    assert next !in used;
    assert id <= n ==> id in used;
  }

  lemma BlockGrows(streams: map<uint32, uint32>, n: nat)
    requires n < MAX_STREAMS && Block(streams, n) && |streams.Keys| < 0xffff_fffe
    ensures Block(streams[LeastFreeId(streams.Keys) := 5 + n], n + 1)
  {
    hide LeastFreeId;
    LeastAfterBlock(streams.Keys, n);
  }

  /** Only creations: the `k`-th is given id `k` and chunk stream id `4 + k`, up to the 95th. */
  lemma {:induction false} FirstCreations(n: nat)
    ensures var run := Play(seq(n, _ => CreateStream));
            run.created == Min(n, MAX_STREAMS) && Block(run.conn.streams, run.created)
  {
    hide Creates, Step, LeastFreeId, Block;
    var es := seq(n, _ => CreateStream);
    if n == 0 {
      EmptyBlock();
    } else {
      FirstCreations(n - 1);
      assert es[..n - 1] == seq(n - 1, _ => CreateStream);
      var before := Play(es[..n - 1]);
      StepKeepsValid(before.conn, CreateStream, before.created);
      if before.created < MAX_STREAMS {
        BlockGrows(before.conn.streams, before.created);
      }
    }
  }

  lemma EmptyBlock()
    ensures Block(FRESH_CONN.streams, 0)
  {
  }
}
