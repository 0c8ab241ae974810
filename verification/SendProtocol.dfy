/**
 * The rendezvous between concurrent `Send` calls and the `WriteTo` loop.  A call offers its
 * message to the loop over an unbuffered channel, or gives up once the writer is closed; the
 * loop takes one offer at a time, writes it, and hands the result back to that call.
 */
module SendProtocol {
  import opened Bytes
  import opened Defines
  import opened HeaderSpec
  import opened WriterSpec
  import opened ReaderSpec
  import opened RoundTrip
  import opened Boundaries

  datatype SendResult = Nil | ErrClosed | ErrInvalidId

  datatype Phase = Offering | Taken | Returned(result: SendResult)

  /** A call of `Send`; `before` are the calls that had returned when it was made. */
  datatype Call = Call(m: Message, phase: Phase, before: set<nat>)

  /** While writing: the call it serves, how much had been sent before it, and what is still to be sent. */
  datatype Loop = Idle | Writing(id: nat, start: nat, pending: bytes) | Stopped

  /** `order` remembers which calls the loop has taken. */
  datatype State = State(
    registered: set<uint32>, writer: Writer, out: bytes, closed: bool, loop: Loop, calls: seq<Call>, order: seq<nat>)

  predicate Initial(s: State) {
    && s.writer.chunkSize > 0 && s.out == [] && !s.closed && s.loop == Idle && s.calls == [] && s.order == []
    && forall csid <- s.registered :: CS_ID_BASE <= csid < CS_ID_MAX
  }

  datatype Action =
    | Register(csid: uint32)  // CreateChunkStream
    | Invoke(m: Message)      // a call of Send, up to its select
    | Take(id: nat)           // the loop receives from that call
    | Emit(n: nat)            // some of the running message reaches the connection
    | HandBack                // the loop reports success to the call it serves
    | GiveUp(id: nat)         // the call sees the closed channel
    | Close
    | Stop                    // the loop sees the closed channel

  function ReturnedCalls(s: State): set<nat> {
    set i: nat | i < |s.calls| && s.calls[i].phase.Returned?
  }

  /** One step of any goroutine; None if it cannot be taken.  `select` may pick any ready case. */
  function Next(s: State, a: Action): Option<State>
    requires s.writer.chunkSize > 0 && forall csid <- s.registered :: csid <= MAX_CSID
  {
    match a
    case Register(csid) =>
      if CS_ID_BASE <= csid < CS_ID_MAX then Some(s.(registered := s.registered + {csid})) else None
    case Invoke(m) =>
      var phase := if m.csid in s.registered then Offering else Returned(ErrInvalidId);
      Some(s.(calls := s.calls + [Call(m, phase, ReturnedCalls(s))]))
    case Take(id) =>
      if s.loop != Idle || id >= |s.calls| || s.calls[id].phase != Offering
         || s.calls[id].m.csid !in s.registered then None else
      (match WriteMessage(s.writer, s.calls[id].m)
       case WriteCrash => None
       case Wrote(out, w') =>
         Some(s.(loop := Writing(id, |s.out|, out), writer := w', order := s.order + [id],
                 calls := s.calls[id := s.calls[id].(phase := Taken)])))
    case Emit(n) =>
      if !s.loop.Writing? || n > |s.loop.pending| then None else
      Some(s.(out := s.out + s.loop.pending[..n], loop := s.loop.(pending := s.loop.pending[n..])))
    case HandBack =>
      if !s.loop.Writing? || s.loop.pending != [] || s.loop.id >= |s.calls| then None else
      var id := s.loop.id;
      Some(s.(loop := Idle, calls := s.calls[id := s.calls[id].(phase := Returned(Nil))]))
    case GiveUp(id) =>
      if !s.closed || id >= |s.calls| || s.calls[id].phase != Offering then None else
      Some(s.(calls := s.calls[id := s.calls[id].(phase := Returned(ErrClosed))]))
    case Close => Some(s.(closed := true))
    case Stop => if s.closed && s.loop == Idle then Some(s.(loop := Stopped)) else None
  }

  // ----- What every step keeps -----

  predicate InRange(order: seq<nat>, calls: seq<Call>) {
    forall p | 0 <= p < |order| :: order[p] < |calls|
  }

  /** The messages of the calls `order`. */
  function Messages(order: seq<nat>, calls: seq<Call>): (ms: seq<Message>)
    requires InRange(order, calls)
  {
    seq(|order|, p requires 0 <= p < |order| => calls[order[p]].m)
  }

  predicate SafeIds(s: State) {
    s.writer.chunkSize > 0 && forall csid <- s.registered :: CS_ID_BASE <= csid < CS_ID_MAX
  }

  /** The loop serves the last call it took, and only that one; every other has been handed back. */
  predicate Phases(s: State) {
    && InRange(s.order, s.calls)
    && (forall p, q | 0 <= p < q < |s.order| :: s.order[p] != s.order[q])
    && (forall i | 0 <= i < |s.calls| ::
          i in s.order <==> (s.calls[i].phase == Taken || s.calls[i].phase == Returned(Nil)))
    && (forall i | 0 <= i < |s.calls| :: s.calls[i].phase == Taken <==> s.loop.Writing? && s.loop.id == i)
    && (s.loop.Writing? ==> s.order != [] && s.order[|s.order| - 1] == s.loop.id)
  }

  /** A call that has returned stays so, and no call follows one made after it had returned. */
  predicate RealTime(s: State) {
    && InRange(s.order, s.calls)
    && (forall i | 0 <= i < |s.calls| :: s.calls[i].before <= ReturnedCalls(s))
    && (forall p, q | 0 <= p < q < |s.order| :: s.order[q] !in s.calls[s.order[p]].before)
  }

  /** The calls whose messages are complete: all the loop has taken, but for the running one. */
  function Completed(s: State): seq<nat> {
    if s.loop.Writing? && s.order != [] then s.order[..|s.order| - 1] else s.order
  }

  /** The bytes sent or pending are those of the calls taken, as if made one after the other. */
  predicate Sequential(w0: Writer, s: State) {
    var done := Completed(s);
    && w0.chunkSize > 0 && InRange(done, s.calls)
    && (forall m <- Messages(done, s.calls) :: m.csid <= MAX_CSID)
    && var whole := WriteAll(w0, Messages(done, s.calls));
    match s.loop
    case Writing(id, start, pending) =>
      && whole.Wrote? && id < |s.calls| && s.calls[id].m.csid <= MAX_CSID
      && start <= |s.out| && s.out[..start] == whole.out
      && WriteMessage(whole.writer, s.calls[id].m) == Wrote(s.out[start..] + pending, s.writer)
    case _ => whole == Wrote(s.out, s.writer)
  }

  predicate Inv(w0: Writer, s: State) {
    SafeIds(s) && Phases(s) && RealTime(s) && Sequential(w0, s)
  }

  lemma InitialInv(s: State)
    requires Initial(s)
    ensures Inv(s.writer, s)
  {
    assert Messages(s.order, s.calls) == [];
  }

  lemma StepKeepsPhases(s: State, a: Action)
    requires SafeIds(s) && Phases(s) && Next(s, a).Some?
    ensures SafeIds(Next(s, a).value) && Phases(Next(s, a).value)
  {
    hide WriteMessage, ReturnedCalls;
  }

  lemma StepKeepsRealTime(s: State, a: Action)
    requires SafeIds(s) && Phases(s) && RealTime(s) && Next(s, a).Some?
    ensures RealTime(Next(s, a).value)
  {
    hide WriteMessage;
    var s' := Next(s, a).value;
    assert ReturnedCalls(s) <= ReturnedCalls(s');
    forall i | 0 <= i < |s'.calls|
      ensures s'.calls[i].before <= ReturnedCalls(s')
    {
      assert s'.calls[i].before == if i < |s.calls| then s.calls[i].before else ReturnedCalls(s);
    }
    forall p, q | 0 <= p < q < |s'.order|
      ensures s'.order[q] !in s'.calls[s'.order[p]].before
    {
      assert p < |s.order| && s.order[p] < |s.calls|;
      assert s'.calls[s'.order[p]].before == s.calls[s.order[p]].before;
    }
  }

  lemma TakeKeepsSequential(w0: Writer, s: State, id: nat)
    requires Inv(w0, s) && Next(s, Take(id)).Some?
    ensures Sequential(w0, Next(s, Take(id)).value)
  {
    hide WriteMessage, WriteAll, RealTime;
    var s' := Next(s, Take(id)).value;
    assert Completed(s') == Completed(s);
    assert Messages(Completed(s'), s'.calls) == Messages(Completed(s), s.calls);
    assert s.out[..|s.out|] == s.out;
    assert s.out[|s.out|..] + s'.loop.pending == s'.loop.pending;
  }

  lemma EmitKeepsSequential(w0: Writer, s: State, n: nat)
    requires Inv(w0, s) && Next(s, Emit(n)).Some?
    ensures Sequential(w0, Next(s, Emit(n)).value)
  {
    hide WriteMessage, WriteAll, RealTime, Phases;
    var s' := Next(s, Emit(n)).value;
    var start, pending := s.loop.start, s.loop.pending;
    assert s'.out[..start] == s.out[..start];
    assert s'.out[start..] + s'.loop.pending == s.out[start..] + pending;
  }

  lemma HandBackKeepsSequential(w0: Writer, s: State)
    requires Inv(w0, s) && Next(s, HandBack).Some?
    ensures Sequential(w0, Next(s, HandBack).value)
  {
    hide WriteMessage, WriteAll, RealTime;
    var s' := Next(s, HandBack).value;
    var ms, m := Messages(Completed(s), s.calls), s.calls[s.loop.id].m;
    assert Completed(s') == Completed(s) + [s.loop.id];
    assert Messages(Completed(s'), s'.calls) == ms + [m];
    WriteAllSnoc(w0, ms, m);
    assert s.out == s.out[..s.loop.start] + (s.out[s.loop.start..] + []);
  }

  lemma StepKeepsSequential(w0: Writer, s: State, a: Action)
    requires Inv(w0, s) && Next(s, a).Some?
    ensures Sequential(w0, Next(s, a).value)
  {
    hide WriteMessage, WriteAll, RealTime;
    match a
    case Take(id) => TakeKeepsSequential(w0, s, id);
    case Emit(n) => EmitKeepsSequential(w0, s, n);
    case HandBack => HandBackKeepsSequential(w0, s);
    case _ =>
      var s' := Next(s, a).value;
      assert Completed(s') == Completed(s);
      assert Messages(Completed(s'), s'.calls) == Messages(Completed(s), s.calls);
  }

  // ----- Every interleaving -----

  predicate Reachable(s0: State, actions: seq<Action>, s: State)
    requires SafeIds(s0)
    decreases |actions|
  {
    if actions == [] then s == s0 else
    match Next(s0, actions[0])
    case None => false
    case Some(s1) => SafeIds(s1) && Reachable(s1, actions[1..], s)
  }

  lemma {:induction false} ReachableInv(w0: Writer, s0: State, actions: seq<Action>, s: State)
    requires SafeIds(s0) && Inv(w0, s0) && Reachable(s0, actions, s)
    ensures Inv(w0, s)
    decreases |actions|
  {
    hide Inv, Next;
    if actions != [] {
      StepKeepsInv(w0, s0, actions[0]);
      ReachableInv(w0, Next(s0, actions[0]).value, actions[1..], s);
    }
  }

  lemma StepKeepsInv(w0: Writer, s: State, a: Action)
    requires SafeIds(s) && Inv(w0, s) && Next(s, a).Some?
    ensures Inv(w0, Next(s, a).value)
  {
    hide Next, Phases, RealTime, Sequential;
    StepKeepsPhases(s, a);
    StepKeepsRealTime(s, a);
    StepKeepsSequential(w0, s, a);
  }

  /** The output is whole messages, then a prefix of the running one that what is pending completes. */
  ghost predicate WholeMessages(w0: Writer, s: State) {
    var done := Completed(s);
    && w0.chunkSize > 0 && InRange(done, s.calls)
    && (forall m <- Messages(done, s.calls) :: m.csid <= MAX_CSID)
    && var whole := WriteAll(w0, Messages(done, s.calls));
    && whole.Wrote?
    && if s.loop.Writing? then
         && s.loop.id < |s.calls| && s.calls[s.loop.id].m.csid <= MAX_CSID
         && var running := WriteMessage(whole.writer, s.calls[s.loop.id].m);
         running.Wrote? && whole.out <= s.out && s.out[|whole.out|..] + s.loop.pending == running.out
       else s.out == whole.out
  }

  function Times(order: seq<nat>, i: nat): nat {
    if order == [] then 0 else (if order[0] == i then 1 else 0) + Times(order[1..], i)
  }

  /** Each successful call was written once; no failed one was, nor is it being written. */
  predicate OnceOrNever(s: State) {
    forall i | 0 <= i < |s.calls| && s.calls[i].phase.Returned? ::
      && Times(Completed(s), i) == (if s.calls[i].phase.result == Nil then 1 else 0)
      && !(s.loop.Writing? && s.loop.id == i)
  }

  /** Calls made one after the other are written in that order. */
  predicate KeepsOrder(s: State) {
    forall p, q | 0 <= p < q < |s.order| && s.order[p] < |s.calls| :: s.order[q] !in s.calls[s.order[p]].before
  }

  lemma {:induction false} TimesOnce(order: seq<nat>, i: nat)
    requires forall p, q | 0 <= p < q < |order| :: order[p] != order[q]
    ensures Times(order, i) == if i in order then 1 else 0
  {
    if order != [] {
      TimesOnce(order[1..], i);
      assert i in order <==> i == order[0] || i in order[1..];
    }
  }

  lemma PhasesMeanOnceOrNever(s: State)
    requires Phases(s)
    ensures OnceOrNever(s)
  {
    forall i | 0 <= i < |s.calls| && s.calls[i].phase.Returned?
      ensures Times(Completed(s), i) == if s.calls[i].phase.result == Nil then 1 else 0
    {
      TimesOnce(Completed(s), i);
      assert s.loop.Writing? ==> s.order == Completed(s) + [s.loop.id];
      assert i in s.order <==> s.calls[i].phase.result == Nil;
    }
  }

  lemma SequentialMeansWhole(w0: Writer, s: State)
    requires Sequential(w0, s)
    ensures WholeMessages(w0, s)
  {
    hide WriteMessage, WriteAll;
  }

  /** Concurrent sends serialize, and fail for a reason, in every interleaving of senders, loop and closing. */
  lemma SendsSerialize(s0: State, actions: seq<Action>, s: State)
    requires Initial(s0) && Reachable(s0, actions, s)
    ensures WholeMessages(s0.writer, s) && OnceOrNever(s) && KeepsOrder(s) && Reasons(s)
  {
    hide WholeMessages, OnceOrNever, Phases, Sequential, Reachable, Reasons;
    InitialReasons(s0);
    ReachableReasons(s0, actions, s);
    InitialInv(s0);
    ReachableInv(s0.writer, s0, actions, s);
    PhasesMeanOnceOrNever(s);
    SequentialMeansWhole(s0.writer, s);
  }

  // ----- What a call returns, and why -----

  /** Nobody is told that the writer is closed before it is, and only a call on a known csid is offered. */
  predicate Reasons(s: State) {
    && (s.loop == Stopped ==> s.closed)
    && forall i | 0 <= i < |s.calls| ::
         && (s.calls[i].phase == Returned(ErrClosed) ==> s.closed)
         && (s.calls[i].phase == Offering ==> s.calls[i].m.csid in s.registered)
  }

  lemma InitialReasons(s: State)
    requires Initial(s)
    ensures Reasons(s)
  {
  }

  lemma ReasonsAt(s: State, i: nat)
    requires Reasons(s) && i < |s.calls|
    ensures (s.loop == Stopped ==> s.closed) && (s.calls[i].phase == Returned(ErrClosed) ==> s.closed)
  {
  }

  lemma StepKeepsReasons(s: State, a: Action)
    requires SafeIds(s) && Reasons(s) && Next(s, a).Some?
    ensures Reasons(Next(s, a).value)
  {
    hide WriteMessage, ReturnedCalls;
  }

  lemma {:induction false} ReachableReasons(s0: State, actions: seq<Action>, s: State)
    requires SafeIds(s0) && Reasons(s0) && Reachable(s0, actions, s)
    ensures Reasons(s)
    decreases |actions|
  {
    hide Reasons, Next;
    if actions != [] {
      StepKeepsReasons(s0, actions[0]);
      ReachableReasons(Next(s0, actions[0]).value, actions[1..], s);
    }
  }

  /** What no later step takes back about call `i`; a call that is offered cannot fail for its csid any more. */
  predicate Later(s: State, i: nat, s': State)
    requires i < |s.calls|
  {
    && |s.calls| <= |s'.calls| && s'.calls[i].m == s.calls[i].m && s'.calls[i].before == s.calls[i].before
    && (if s.calls[i].phase.Returned? then s'.calls[i].phase == s.calls[i].phase
        else s'.calls[i].phase != Returned(ErrInvalidId))
    && (s.closed ==> s'.closed)
    && (s.loop == Stopped ==> s'.loop == Stopped && s'.out == s.out && s'.order == s.order)
  }

  lemma StepIsLater(s: State, i: nat, a: Action)
    requires SafeIds(s) && Phases(s) && i < |s.calls| && Next(s, a).Some?
    ensures Later(s, i, Next(s, a).value)
  {
    hide WriteMessage, ReturnedCalls;
  }

  lemma {:induction false} CallsPersist(s0: State, i: nat, actions: seq<Action>, s: State)
    requires SafeIds(s0) && Phases(s0) && i < |s0.calls| && Reachable(s0, actions, s)
    ensures Later(s0, i, s)
    decreases |actions|
  {
    hide Next, Phases;
    if actions != [] {
      StepIsLater(s0, i, actions[0]);
      StepKeepsPhases(s0, actions[0]);
      CallsPersist(Next(s0, actions[0]).value, i, actions[1..], s);
    }
  }

  lemma {:induction false} ReachableJoin(s0: State, first: seq<Action>, s1: State, more: seq<Action>, s: State)
    requires SafeIds(s0) && SafeIds(s1) && Reachable(s0, first, s1) && Reachable(s1, more, s)
    ensures Reachable(s0, first + more, s)
    decreases |first|
  {
    hide Next;
    if first == [] {
      assert [] + more == more;
    } else {
      assert (first + more)[1..] == first[1..] + more;
      ReachableJoin(Next(s0, first[0]).value, first[1..], s1, more, s);
    }
  }

  /**
   * When a call fails, in every run: it is told of an invalid id exactly if its csid was not
   * registered when it was made, whatever is registered later; and of a closed writer only once
   * `Close` has been called.
   */
  lemma WhySendsFail(s0: State, first: seq<Action>, s1: State, m: Message, more: seq<Action>, s: State)
    requires Initial(s0) && Reachable(s0, first, s1) && SafeIds(s1)
    requires Next(s1, Invoke(m)).Some? && SafeIds(Next(s1, Invoke(m)).value)
    requires Reachable(Next(s1, Invoke(m)).value, more, s)
    ensures var i := |s1.calls|;
            && i < |s.calls| && s.calls[i].m == m && s.calls[i].before == ReturnedCalls(s1)
            && (s.calls[i].phase == Returned(ErrInvalidId) <==> m.csid !in s1.registered)
            && (s.calls[i].phase == Returned(ErrClosed) ==> s.closed)
            && (s.loop == Stopped ==> s.closed)
  {
    hide Reachable, Reasons, RealTime, Sequential, Phases, WriteMessage, ReturnedCalls;
    InitialInv(s0);
    ReachableInv(s0.writer, s0, first, s1);
    var s2 := Next(s1, Invoke(m)).value;
    StepKeepsPhases(s1, Invoke(m));
    CallsPersist(s2, |s1.calls|, more, s);
    InitialReasons(s0);
    ReachableReasons(s0, first, s1);
    StepKeepsReasons(s1, Invoke(m));
    ReachableReasons(s2, more, s);
    ReasonsAt(s, |s1.calls|);
  }

  function Invoked(actions: seq<Action>): seq<Message> {
    if actions == [] then [] else
    (if actions[0].Invoke? then [actions[0].m] else []) + Invoked(actions[1..])
  }

  /** There is one call for each time `Send` was called, and nothing else registers or closes. */
  ghost predicate Records(s0: State, actions: seq<Action>, s: State) {
    && |s.calls| == |s0.calls| + |Invoked(actions)|
    && (forall i | 0 <= i < |s.calls| :: s.calls[i].m == if i < |s0.calls| then s0.calls[i].m
                                                         else Invoked(actions)[i - |s0.calls|])
    && (forall csid: uint32 :: csid in s.registered <==> csid in s0.registered || Register(csid) in actions)
    && (s.closed <==> s0.closed || Close in actions)
  }

  lemma StepRecords(s: State, a: Action)
    requires SafeIds(s) && Phases(s) && Next(s, a).Some?
    ensures Records(s, [a], Next(s, a).value)
  {
    hide WriteMessage, ReturnedCalls;
    assert [a][1..] == [] && Invoked([]) == [];
  }

  lemma RecordsThen(s0: State, a: Action, s1: State, more: seq<Action>, s: State)
    requires Records(s0, [a], s1) && Records(s1, more, s)
    ensures Records(s0, [a] + more, s)
  {
    var all := [a] + more;
    assert all[1..] == more && [a][1..] == [] && Invoked([]) == [];
    assert Invoked(all) == Invoked([a]) + Invoked(more);
    assert forall b: Action :: b in all <==> b in [a] || b in more;
  }

  lemma {:induction false} ReachableRecords(s0: State, actions: seq<Action>, s: State)
    requires SafeIds(s0) && Phases(s0) && Reachable(s0, actions, s)
    ensures Records(s0, actions, s)
    decreases |actions|
  {
    hide Next, Phases;
    if actions != [] {
      hide Records;
      var s1 := Next(s0, actions[0]).value;
      StepRecords(s0, actions[0]);
      StepKeepsPhases(s0, actions[0]);
      ReachableRecords(s1, actions[1..], s);
      RecordsThen(s0, actions[0], s1, actions[1..], s);
      assert [actions[0]] + actions[1..] == actions;
    }
  }

  /** Every call that is offered to a loop that waits can be taken, written whole and told of its success. */
  lemma SendCompletes(s: State, id: nat)
    requires SafeIds(s) && Reasons(s) && s.loop == Idle && id < |s.calls| && s.calls[id].phase == Offering
    requires s.calls[id].m.csid <= MAX_CSID && WriteMessage(s.writer, s.calls[id].m).Wrote?
    ensures var sent := WriteMessage(s.writer, s.calls[id].m);
            Reachable(s, [Take(id), Emit(|sent.out|), HandBack],
              s.(out := s.out + sent.out, writer := sent.writer, order := s.order + [id],
                 calls := s.calls[id := s.calls[id].(phase := Returned(Nil))]))
  {
    hide WriteMessage, ReturnedCalls;
    var sent := WriteMessage(s.writer, s.calls[id].m);
    var s1 := Next(s, Take(id)).value;
    var s2 := Next(s1, Emit(|sent.out|)).value;
    assert sent.out[..|sent.out|] == sent.out && sent.out[|sent.out|..] == [];
    var s3 := Next(s2, HandBack).value;
    assert s3.calls == s.calls[id := s.calls[id].(phase := Returned(Nil))];
    assert Reachable(s3, [], s3);
    assert Reachable(s2, [HandBack], s3) by { assert [HandBack][1..] == []; }
    var (a, b, c) := (Take(id), Emit(|sent.out|), HandBack);
    assert [a, b, c][1..] == [b, c] && [b, c][1..] == [c];
    assert Reachable(s1, [b, c], s3);
  }

  /** Once the writer is closed and the loop serves no call, those from `k` on can give up and the loop can end. */
  lemma {:induction false} RestGiveUp(s: State, k: nat) returns (actions: seq<Action>, s': State)
    requires SafeIds(s) && Phases(s) && s.closed && !s.loop.Writing? && k <= |s.calls|
    requires forall i | 0 <= i < k :: s.calls[i].phase.Returned?
    ensures Reachable(s, actions, s') && Released(s') && s'.out == s.out && s'.order == s.order
    decreases |s.calls| - k
  {
    hide WriteMessage, ReturnedCalls;
    if k < |s.calls| && s.calls[k].phase == Offering {
      StepKeepsPhases(s, GiveUp(k));
      var later;
      later, s' := RestGiveUp(Next(s, GiveUp(k)).value, k + 1);
      actions := [GiveUp(k)] + later;
    } else if k < |s.calls| {
      actions, s' := RestGiveUp(s, k + 1);
    } else if s.loop == Idle {
      actions, s' := [Stop], Next(s, Stop).value;
    } else {
      actions, s' := [], s;
    }
  }

  predicate Released(s: State) {
    s.loop == Stopped && forall i | 0 <= i < |s.calls| :: s.calls[i].phase.Returned?
  }

  /** No deadlock: after `Close`, from wherever the goroutines are, all calls can return and the loop can end. */
  lemma ClosingReleases(s0: State, actions: seq<Action>, s: State)
    returns (more: seq<Action>, s': State)
    requires Initial(s0) && Reachable(s0, actions, s) && s.closed
    ensures SafeIds(s) && Reachable(s, more, s') && Released(s')
    ensures s'.out == s.out + (if s.loop.Writing? then s.loop.pending else []) && s'.order == s.order
  {
    hide WriteMessage, Reachable, ReturnedCalls;
    InitialInv(s0);
    ReachableInv(s0.writer, s0, actions, s);
    if s.loop.Writing? {
      var finish := [Emit(|s.loop.pending|), HandBack];
      var s1 := Next(s, finish[0]).value;
      StepKeepsPhases(s, finish[0]);
      var s2 := Next(s1, HandBack).value;
      StepKeepsPhases(s1, HandBack);
      TwoSteps(s, finish[0], s1, HandBack, s2);
      var later;
      later, s' := RestGiveUp(s2, 0);
      ReachableJoin(s, finish, s2, later, s');
      more := finish + later;
    } else {
      more, s' := RestGiveUp(s, 0);
    }
  }

  lemma TwoSteps(s: State, a: Action, s1: State, b: Action, s2: State)
    requires SafeIds(s) && SafeIds(s1) && SafeIds(s2)
    requires Next(s, a) == Some(s1) && Next(s1, b) == Some(s2)
    ensures Reachable(s, [a, b], s2)
  {
    hide Next;
    assert [a, b][1..] == [b] && [b][1..] == [];
    assert Reachable(s2, [], s2);
    assert Reachable(s1, [b], s2);
  }

  /** A run of the writer and part of one more message: just the messages of the run are delivered. */
  lemma DeliversWhole(w: Writer, r: Reader, ms: seq<Message>, m: Message, part: bytes)
    requires Lockstep(w, r) && AllSendable(w, ms + [m])
    ensures AllSendable(w, ms) && (forall x <- ms :: x.csid <= MAX_CSID) && m.csid <= MAX_CSID
    ensures WriteAll(w, ms).Wrote? && WriteMessage(WriteAll(w, ms).writer, m).Wrote?
    ensures part < WriteMessage(WriteAll(w, ms).writer, m).out ==>
              AllDelivered(NonEmpty(ms), ReadAll(r, WriteAll(w, ms).out + part).out)
  {
    hide ReadAll, WriteAll, WriteMessage, AbsorbAll, AllSendable, Sendable, StreamLockstep, SameMessage, NonEmpty;
    AllSendableSnoc(w, ms, m);
    ReadsAll(w, r, ms);
    var sent := WriteAll(w, ms);
    var (r', out) := AbsorbAll(w, r, ms);
    if m.payload == [] {
      EmptyWritesNothing(sent.writer, m);
    } else {
      MessageIsSilent(sent.writer, r', m);
      if part < WriteMessage(sent.writer, m).out {
        assert ReadAll(r', part).out == [];
        assert ReadAll(r, sent.out + part) == Prefixed(out, |sent.out|, ReadAll(r', part));
        assert out + [] == out;
      }
    }
  }

  lemma EmptyWritesNothing(w: Writer, m: Message)
    requires m.payload == [] && m.csid <= MAX_CSID && w.chunkSize > 0
    ensures WriteMessage(w, m) == Wrote([], w)
  {
  }

  /** The calls all of whose bytes have been sent. */
  function Sent(s: State): seq<nat> {
    if s.loop.Writing? && s.loop.pending != [] then Completed(s) else s.order
  }

  /** The output in terms of the calls taken, the last of which may still be pending. */
  lemma OutputInTerms(w0: Writer, s: State)
    requires w0.chunkSize > 0 && Phases(s) && WholeMessages(w0, s)
    requires forall m <- Messages(s.order, s.calls) :: m.csid <= MAX_CSID
    ensures InRange(Sent(s), s.calls) && InRange(Completed(s), s.calls)
    ensures var (done, all) := (Messages(Completed(s), s.calls), Messages(s.order, s.calls));
            if s.loop.Writing? && s.loop.pending != [] then
              && s.loop.id < |s.calls|
              && var m := s.calls[s.loop.id].m;
              all == done + [m] && m.csid <= MAX_CSID && (forall x <- done :: x.csid <= MAX_CSID)
              && WriteAll(w0, done).Wrote? && WriteMessage(WriteAll(w0, done).writer, m).Wrote?
              && WriteAll(w0, done).out <= s.out
              && s.out[|WriteAll(w0, done).out|..] < WriteMessage(WriteAll(w0, done).writer, m).out
            else WriteAll(w0, all).Wrote? && s.out == WriteAll(w0, all).out
  {
    hide WriteAll, WriteMessage;
    var (done, all) := (Messages(Completed(s), s.calls), Messages(s.order, s.calls));
    if s.loop.Writing? {
      var m := s.calls[s.loop.id].m;
      assert all == done + [m];
      WriteAllSnoc(w0, done, m);
      var whole := WriteAll(w0, done).out;
      assert s.out == whole + s.out[|whole|..];
    } else {
      assert Completed(s) == s.order;
    }
  }

  /**
   * A reader at the other end has, at any time, delivered exactly the messages sent to the last
   * byte, in the order the loop took them and each as it was sent; a message still running has
   * not been delivered, nor has anything else.
   */
  lemma ReaderGetsSends(s0: State, actions: seq<Action>, s: State, r: Reader)
    requires Initial(s0) && Reachable(s0, actions, s) && Lockstep(s0.writer, r)
    requires InRange(s.order, s.calls) && AllSendable(s0.writer, Messages(s.order, s.calls))
    ensures InRange(Sent(s), s.calls)
    ensures AllDelivered(NonEmpty(Messages(Sent(s), s.calls)), ReadAll(r, s.out).out)
  {
    hide ReadAll, Reachable, Next, WriteAll, WriteMessage, AllSendable, StreamLockstep, AllDelivered, NonEmpty;
    hide Phases, RealTime, Sequential, WholeMessages;
    InitialInv(s0);
    ReachableInv(s0.writer, s0, actions, s);
    SequentialMeansWhole(s0.writer, s);
    var all := Messages(s.order, s.calls);
    AllSendableInRange(s0.writer, all);
    OutputInTerms(s0.writer, s);
    if s.loop.Writing? && s.loop.pending != [] {
      var done := Messages(Completed(s), s.calls);
      var whole := WriteAll(s0.writer, done).out;
      DeliversWhole(s0.writer, r, done, s.calls[s.loop.id].m, s.out[|whole|..]);
      assert s.out == whole + s.out[|whole|..];
    } else {
      EndToEnd(s0.writer, r, all);
    }
  }
}
