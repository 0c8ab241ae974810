/** When ReadFrom reports a full acknowledgement window (RTMP 1.0 section 5.4.3). */
module Acknowledge {
  import opened Bytes
  import opened HeaderSpec
  import opened ReaderSpec
  import opened Independence
  import opened Settings

  /** Largest header: three bytes of basic header, eleven of message header, four of timestamp. */
  const MAX_HEADER := 18

  /** A report: the bytes counted, and how many of them are new since the report before. */
  datatype Ack = Ack(count: nat, since: nat, window: uint32, bound: nat)

  /** What the counters have come to between two chunks. */
  datatype Counters = Counters(inBytes: nat, preWindow: nat)

  /** More than a report can cover: the unreported bytes before a chunk, and the chunk. */
  function Bound(r: Reader): nat {
    (if r.windowSize == 0 then 1 else r.windowSize) + r.chunkSize + MAX_HEADER
  }

  /** The loop body of ReadFrom after a chunk of `n` bytes left the reader in state `r'`. */
  function Count(k: Counters, r: Reader, n: nat, r': Reader): (Counters, Option<Ack>)
    requires k.preWindow <= k.inBytes
  {
    var total := k.inBytes + n;
    if total >= k.preWindow + r'.windowSize then
      (Counters(total, total), Some(Ack(total, total - k.preWindow, r'.windowSize, Bound(r))))
    else (Counters(total, k.preWindow), None)
  }

  datatype AckRun = AckRun(acks: seq<Ack>, counters: Counters)

  function AckAll(r: Reader, input: bytes, k: Counters): AckRun
    requires k.preWindow <= k.inBytes
    decreases |input|
  {
    var c := ReadChunk(r, input);
    if !c.Got? then AckRun([], k) else
    var (k', ack) := Count(k, r, c.n, c.reader);
    var later := AckAll(c.reader, input[c.n..], k');
    AckRun(OptionSeq(ack) + later.acks, later.counters)
  }

  /** Fewer bytes are unreported than the window holds; none are when there is no window. */
  predicate Covered(r: Reader, k: Counters) {
    k.preWindow <= k.inBytes
    && if r.windowSize == 0 then k.inBytes == k.preWindow else k.inBytes - k.preWindow < r.windowSize
  }

  lemma FreshCovered()
    ensures Covered(FRESH_READER, Counters(0, 0))
  {
  }

  /** No chunk is longer than its header and the chunk size. */
  lemma ChunkLength(r: Reader, input: bytes)
    requires ReadChunk(r, input).Got?
    ensures ReadChunk(r, input).n <= r.chunkSize + MAX_HEADER
  {
    hide DecodeBase, DecodeFields, Resolve, Target, Handle;
  }

  lemma OneChunk(r: Reader, input: bytes, k: Counters)
    requires Covered(r, k) && ReadChunk(r, input).Got?
    ensures var c := ReadChunk(r, input);
            var (k', ack) := Count(k, r, c.n, c.reader);
            && Covered(c.reader, k')
            && k'.inBytes == k.inBytes + c.n
            && match ack
               case None => k'.preWindow == k.preWindow
               case Some(a) => Reports(a, k.preWindow) && k'.preWindow == a.count
  {
    ChunkLength(r, input);
  }

  /** A report that follows one of `before` bytes. */
  predicate Reports(a: Ack, before: nat) {
    a.count == before + a.since && 0 < a.since && a.window <= a.since < a.bound
  }

  /** Every report follows the one before it. */
  predicate Chain(acks: seq<Ack>, before: nat) {
    acks == [] || (Reports(acks[0], before) && Chain(acks[1..], acks[0].count))
  }

  /** How many bytes had been counted at the last report. */
  function LastCount(acks: seq<Ack>, before: nat): nat {
    if acks == [] then before else acks[|acks| - 1].count
  }

  lemma ChainStep(ack: Option<Ack>, later: seq<Ack>, before: nat, after: nat)
    requires if ack.Some? then Reports(ack.value, before) && after == ack.value.count else after == before
    requires Chain(later, after)
    ensures Chain(OptionSeq(ack) + later, before)
    ensures LastCount(OptionSeq(ack) + later, before) == LastCount(later, after)
  {
    hide Reports;
    if ack.Some? {
      assert ([ack.value] + later)[1..] == later;
    } else {
      assert OptionSeq(ack) + later == later;
    }
  }

  /**
   * Over a whole run the bytes counted are the bytes consumed; each report comes at least a
   * window, and less than the previous window plus one chunk, after the one before; and what
   * remains unreported is below the window.
   */
  lemma {:induction false} AcknowledgementBound(r: Reader, input: bytes, k: Counters)
    requires Covered(r, k)
    ensures var run := AckAll(r, input, k);
            && run.counters.inBytes == k.inBytes + ReadAll(r, input).used
            && Covered(ReadAll(r, input).reader, run.counters)
            && Chain(run.acks, k.preWindow)
            && run.counters.preWindow == LastCount(run.acks, k.preWindow)
    decreases |input|
  {
    hide ReadChunk, Count, Reports;
    var c := ReadChunk(r, input);
    if c.Got? {
      hide Chain, LastCount;
      OneChunk(r, input, k);
      var (k', ack) := Count(k, r, c.n, c.reader);
      AcknowledgementBound(c.reader, input[c.n..], k');
      ChainStep(ack, AckAll(c.reader, input[c.n..], k').acks, k.preWindow, k'.preWindow);
    }
  }

  /** The reports of a run, with earlier ones before them. */
  function Behind(acks: seq<Ack>, run: AckRun): AckRun {
    AckRun(acks + run.acks, run.counters)
  }

  lemma BehindTwice(a: seq<Ack>, b: seq<Ack>, run: AckRun)
    ensures Behind(a, Behind(b, run)) == Behind(a + b, run)
    ensures Behind([], run) == run
  {
    assert a + (b + run.acks) == a + b + run.acks;
    assert [] + run.acks == run.acks;
  }

  /** The first chunk of both runs, that of messages and that of reports. */
  lemma FirstOfRuns(r: Reader, input: bytes, k: Counters)
    requires Covered(r, k)
    ensures k.preWindow <= k.inBytes
    ensures var c := ReadChunk(r, input);
            if c.Got? then
              var (k', ack) := Count(k, r, c.n, c.reader);
              var later := ReadAll(c.reader, input[c.n..]);
              && Covered(c.reader, k') && k'.preWindow <= k'.inBytes
              && AckAll(r, input, k) == Behind(OptionSeq(ack), AckAll(c.reader, input[c.n..], k'))
              && ReadAll(r, input).used == c.n + later.used && ReadAll(r, input).reader == later.reader
            else
              AckAll(r, input, k) == AckRun([], k) && ReadAll(r, input).used == 0 && ReadAll(r, input).reader == r
  {
    hide ReadChunk, Count;
    if ReadChunk(r, input).Got? {
      OneChunk(r, input, k);
    }
  }

  lemma {:induction false} AckAllThen(r: Reader, input: bytes, rest: bytes, k: Counters)
    requires Covered(r, k) && ReadAll(r, input).used == |input|
    ensures k.preWindow <= k.inBytes
    ensures var run := AckAll(r, input, k);
            && Covered(ReadAll(r, input).reader, run.counters) && run.counters.preWindow <= run.counters.inBytes
            && AckAll(r, input + rest, k)
               == Behind(run.acks, AckAll(ReadAll(r, input).reader, rest, run.counters))
    decreases |input|
  {
    hide ReadChunk, Count, Covered, ReadAll, AckAll, Behind;
    FirstOfRuns(r, input, k);
    var c := ReadChunk(r, input);
    if c.Got? {
      ReadChunkSame(r, input, rest);
      assert (input + rest)[c.n..] == input[c.n..] + rest;
      FirstOfRuns(r, input + rest, k);
      var (k', ack) := Count(k, r, c.n, c.reader);
      AckAllThen(c.reader, input[c.n..], rest, k');
      var run := AckAll(c.reader, input[c.n..], k');
      BehindTwice(OptionSeq(ack), run.acks, AckAll(ReadAll(r, input).reader, rest, run.counters));
      assert AckAll(r, input, k).acks == OptionSeq(ack) + run.acks by { BehindMeans(OptionSeq(ack), run); }
      assert AckAll(r, input, k).counters == run.counters by { BehindMeans(OptionSeq(ack), run); }
    } else {
      assert input + rest == rest;
      BehindTwice([], [], AckAll(r, rest, k));
    }
  }

  lemma BehindMeans(acks: seq<Ack>, run: AckRun)
    ensures Behind(acks, run) == AckRun(acks + run.acks, run.counters)
  {
  }

  /**
   * From the start of a connection: all bytes are counted, and all but less than a window are
   * reported; the window is what the last message of type 5 on chunk stream 2 said, or 1048576.
   */
  lemma FreshAcknowledgement(input: bytes)
    ensures var (run, read) := (AckAll(FRESH_READER, input, Counters(0, 0)), ReadAll(FRESH_READER, input));
            var window := Setting(read.out, 5, 1048576);
            && Chain(run.acks, 0) && run.counters == Counters(read.used, LastCount(run.acks, 0))
            && LastCount(run.acks, 0) <= read.used
            && (window > 0 ==> read.used - LastCount(run.acks, 0) < window)
            && (window == 0 ==> read.used == LastCount(run.acks, 0))
  {
    hide ReadAll, Chain, LastCount, Setting;
    FreshCovered();
    AcknowledgementBound(FRESH_READER, input, Counters(0, 0));
    FreshSettings(input);
  }

  /**
   * When a report comes: after one more chunk exactly if the bytes since the last report then fill
   * the window, and it carries the number of all bytes so far.
   */
  lemma ReportsExactly(input: bytes, chunk: bytes)
    requires ReadAll(FRESH_READER, input).used == |input|
    requires var c := ReadChunk(ReadAll(FRESH_READER, input).reader, chunk); c.Got? && c.n == |chunk|
    ensures ReadAll(FRESH_READER, input + chunk).used == |input + chunk|
    ensures var acks := AckAll(FRESH_READER, input, Counters(0, 0)).acks;
            var longer := AckAll(FRESH_READER, input + chunk, Counters(0, 0)).acks;
            var window := Setting(ReadAll(FRESH_READER, input + chunk).out, 5, 1048576);
            if |input + chunk| - LastCount(acks, 0) >= window then
              |longer| == |acks| + 1 && longer[..|acks|] == acks && longer[|acks|].count == |input + chunk|
            else longer == acks
  {
    hide ReadAll, ReadChunk, Chain, LastCount, Setting, AckAll;
    FreshCovered();
    FreshAcknowledgement(input);
    FreshSettings(input + chunk);
    ReadAllThen(FRESH_READER, input, chunk);
    AckAllThen(FRESH_READER, input, chunk, Counters(0, 0));
    var r := ReadAll(FRESH_READER, input).reader;
    AckOneChunk(r, chunk, AckAll(FRESH_READER, input, Counters(0, 0)).counters);
  }

  /** A single chunk. */
  lemma AckOneChunk(r: Reader, chunk: bytes, k: Counters)
    requires k.preWindow <= k.inBytes && ReadChunk(r, chunk).Got? && ReadChunk(r, chunk).n == |chunk|
    ensures var r' := ReadChunk(r, chunk).reader;
            var (k', ack) := Count(k, r, |chunk|, r');
            AckAll(r, chunk, k) == AckRun(OptionSeq(ack), k')
            && ReadAll(r, chunk).reader == r' && ReadAll(r, chunk).used == |chunk|
  {
    hide ReadChunk, Count;
    var c := ReadChunk(r, chunk);
    assert chunk[|chunk|..] == [];
    NothingToRead(c.reader);
    var (k', ack) := Count(k, r, c.n, c.reader);
    assert k'.preWindow <= k'.inBytes by { CountKeepsOrder(k, r, c.n, c.reader); }
    assert OptionSeq(ack) + [] == OptionSeq(ack);
  }

  lemma CountKeepsOrder(k: Counters, r: Reader, n: nat, r': Reader)
    requires k.preWindow <= k.inBytes
    ensures Count(k, r, n, r').0.preWindow <= Count(k, r, n, r').0.inBytes
  {
  }
}
