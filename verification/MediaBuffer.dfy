/**
 * The byte-bounded FIFO of mediabuffer.go between a subscriber channel and a consumer: its
 * behaviour over any sequence of the loop's choices, what the consumer gets, and the loop itself.
 */
module BufferSpec {
  import opened Bytes
  import opened Flv
  import opened MediaSpec

  datatype Choice = Receive(tag: FlvTag) | Deliver

  /** `accepted` remembers the tags that were not dropped. */
  datatype Buffer = Buffer(tags: seq<FlvTag>, size: uint32, out: seq<FlvTag>, accepted: seq<FlvTag>)

  /** `size + tag.Size < maxSize`, in `uint32` arithmetic. */
  predicate Fits(size: uint32, tag: FlvTag, maxSize: uint32) {
    Wrap32(size + tag.size) < maxSize
  }

  /** One turn of the loop; with nothing queued it can only receive. */
  function Turn(b: Buffer, e: Choice, maxSize: uint32): Buffer {
    match e
    case Receive(tag) =>
      if Fits(b.size, tag, maxSize)
      then Buffer(b.tags + [tag], Wrap32(b.size + tag.size), b.out, b.accepted + [tag])
      else b
    case Deliver =>
      if b.tags == [] then b
      else Buffer(b.tags[1..], Wrap32(b.size - b.tags[0].size), b.out + [b.tags[0]], b.accepted)
  }

  const EMPTY := Buffer([], 0, [], [])

  function Turns(h: seq<Choice>, maxSize: uint32): Buffer {
    if h == [] then EMPTY else Turn(Turns(h[..|h| - 1], maxSize), h[|h| - 1], maxSize)
  }

  function Received(h: seq<Choice>): seq<FlvTag> {
    if h == [] then [] else
    Received(h[..|h| - 1]) + if h[|h| - 1].Receive? then [h[|h| - 1].tag] else []
  }

  function Sum(tags: seq<FlvTag>): nat {
    if tags == [] then 0 else tags[0].size + Sum(tags[1..])
  }

  lemma {:induction false} SumSnoc(tags: seq<FlvTag>, t: FlvTag)
    ensures Sum(tags + [t]) == Sum(tags) + t.size
  {
    if tags == [] {
      assert [] + [t] == [t];
      assert [t][1..] == [];
    } else {
      assert (tags + [t])[1..] == tags[1..] + [t];
      SumSnoc(tags[1..], t);
    }
  }

  /** Is `a` what remains of `b` when some tags are dropped? */
  predicate Subsequence(a: seq<FlvTag>, b: seq<FlvTag>) {
    a == [] ||
    (b != [] &&
     (Subsequence(a, b[..|b| - 1]) ||
      (a[|a| - 1] == b[|b| - 1] && Subsequence(a[..|a| - 1], b[..|b| - 1]))))
  }

  lemma SubsequenceSnoc(a: seq<FlvTag>, b: seq<FlvTag>, t: FlvTag)
    requires Subsequence(a, b)
    ensures Subsequence(a, b + [t]) && Subsequence(a + [t], b + [t])
  {
    assert (b + [t])[..|b|] == b;
    assert (a + [t])[..|a|] == a;
  }

  lemma {:induction false} SubsequenceTake(a: seq<FlvTag>, b: seq<FlvTag>, n: nat)
    requires Subsequence(a, b) && n <= |a|
    ensures Subsequence(a[..n], b)
    decreases |b|
  {
    if n == |a| {
      assert a[..n] == a;
    } else if n > 0 {
      var (front, last) := (b[..|b| - 1], b[|b| - 1]);
      if Subsequence(a, front) {
        SubsequenceTake(a, front, n);
      } else {
        SubsequenceTake(a[..|a| - 1], front, n);
        assert a[..|a| - 1][..n] == a[..n];
      }
    }
  }

  lemma {:induction false} SubsequenceExtend(a: seq<FlvTag>, b: seq<FlvTag>, n: nat)
    requires n <= |b| && Subsequence(a, b[..n])
    ensures Subsequence(a, b)
    decreases |b|
  {
    if n == |b| {
      assert b[..n] == b;
    } else {
      assert b[..|b| - 1][..n] == b[..n];
      SubsequenceExtend(a, b[..|b| - 1], n);
    }
  }

  // ----- What every run keeps -----

  /** All that is delivered or queued was accepted, and the recorded size is the true one modulo 2^32. */
  predicate Conserves(b: Buffer, received: seq<FlvTag>) {
    && b.out + b.tags == b.accepted && Subsequence(b.accepted, received)
    && b.size == Wrap32(Sum(b.tags))
  }

  lemma ReceiveConserves(b: Buffer, received: seq<FlvTag>, tag: FlvTag, maxSize: uint32)
    requires Conserves(b, received)
    ensures Conserves(Turn(b, Receive(tag), maxSize), received + [tag])
  {
    hide Subsequence, Sum, Wrap32;
    SubsequenceSnoc(b.accepted, received, tag);
    SumSnoc(b.tags, tag);
    WrapAdd(Sum(b.tags), tag.size);
    assert b.out + (b.tags + [tag]) == b.out + b.tags + [tag];
  }

  lemma DeliverConserves(b: Buffer, received: seq<FlvTag>, maxSize: uint32)
    requires Conserves(b, received)
    ensures Conserves(Turn(b, Deliver, maxSize), received)
  {
    hide Subsequence, Wrap32;
    if b.tags != [] {
      WrapAdd(Sum(b.tags), -(b.tags[0].size as int));
      assert b.out + b.tags == b.out + [b.tags[0]] + b.tags[1..];
    }
  }

  /**
   * First in, first out: the tags delivered and then those queued are the accepted ones in order,
   * with none lost, added or swapped, and these are the tags received but for the dropped ones; one
   * is delivered whenever the loop chooses to and has one.
   */
  lemma {:induction false} Fifo(h: seq<Choice>, maxSize: uint32)
    ensures Conserves(Turns(h, maxSize), Received(h))
    ensures |Turns(h, maxSize).out| == HandOvers(h, maxSize)
  {
    EveryHandOver(h, maxSize);
    hide Conserves, Turn;
    if h == [] {
      EmptyConserves();
    } else {
      var (before, e) := (h[..|h| - 1], h[|h| - 1]);
      Fifo(before, maxSize);
      match e
      case Receive(tag) => ReceiveConserves(Turns(before, maxSize), Received(before), tag, maxSize);
      case Deliver =>
        assert Received(before) + [] == Received(before);
        DeliverConserves(Turns(before, maxSize), Received(before), maxSize);
    }
  }

  lemma EmptyConserves()
    ensures Conserves(EMPTY, [])
  {
  }

  /** No tag received can make the sum of the limit and its size leave `uint32`. */
  predicate NoOverflow(h: seq<Choice>, maxSize: uint32) {
    forall tag <- Received(h) :: maxSize + tag.size <= 0x1_0000_0000
  }

  /** The recorded size is exact, and the limit is kept. */
  predicate Exact(b: Buffer, maxSize: uint32) {
    b.size == Sum(b.tags) && (b.size == 0 || b.size < maxSize)
  }

  /** A tag keeps it so unless the addition wraps around and the tag is let in because of that. */
  lemma ReceiveExact(b: Buffer, tag: FlvTag, maxSize: uint32)
    requires Exact(b, maxSize)
    ensures Exact(Turn(b, Receive(tag), maxSize), maxSize)
       <==> b.size + tag.size < 0x1_0000_0000 || b.size + tag.size - 0x1_0000_0000 >= maxSize
    ensures b.size + tag.size < 0x1_0000_0000 ==>
              (Fits(b.size, tag, maxSize) <==> Sum(b.tags) + tag.size < maxSize)
  {
    hide Sum;
    SumSnoc(b.tags, tag);
  }

  lemma {:induction false} Bounded(h: seq<Choice>, maxSize: uint32)
    requires NoOverflow(h, maxSize)
    ensures Exact(Turns(h, maxSize), maxSize)
  {
    hide Turn, Sum, Fits;
    if h == [] {
      EmptyExact(maxSize);
    } else {
      var (before, e) := (h[..|h| - 1], h[|h| - 1]);
      assert forall tag <- Received(before) :: tag in Received(h);
      Bounded(before, maxSize);
      var b := Turns(before, maxSize);
      match e
      case Receive(tag) =>
        assert tag in Received(h);
        ReceiveExact(b, tag, maxSize);
      case Deliver => DeliverExact(b, maxSize);
    }
  }

  lemma EmptyExact(maxSize: uint32)
    ensures Exact(EMPTY, maxSize)
  {
  }

  lemma DeliverExact(b: Buffer, maxSize: uint32)
    requires Exact(b, maxSize)
    ensures Exact(Turn(b, Deliver, maxSize), maxSize)
  {
  }

  lemma LastTurn(h: seq<Choice>, e: Choice, maxSize: uint32)
    ensures Turns(h + [e], maxSize) == Turn(Turns(h, maxSize), e, maxSize)
  {
    assert (h + [e])[..|h|] == h;
  }

  /** A tag is then dropped exactly if it would bring the queue up to the limit. */
  lemma DropsExactly(h: seq<Choice>, tag: FlvTag, maxSize: uint32)
    requires NoOverflow(h, maxSize) && maxSize + tag.size <= 0x1_0000_0000
    ensures var (b, after) := (Turns(h, maxSize), Turns(h + [Receive(tag)], maxSize));
            after == if Sum(b.tags) + tag.size < maxSize
                     then Buffer(b.tags + [tag], Sum(b.tags) + tag.size, b.out, b.accepted + [tag]) else b
  {
    hide Sum, Turns, Received;
    Bounded(h, maxSize);
    ReceiveExact(Turns(h, maxSize), tag, maxSize);
    LastTurn(h, Receive(tag), maxSize);
  }

  /** In any run, whatever wraps around: a tag is accepted exactly if the sum modulo 2^32 is below the limit. */
  lemma AcceptsExactly(h: seq<Choice>, tag: FlvTag, maxSize: uint32)
    ensures var (b, after) := (Turns(h, maxSize), Turns(h + [Receive(tag)], maxSize));
            var sum := (Sum(b.tags) + tag.size) % 0x1_0000_0000;
            after == if sum < maxSize then Buffer(b.tags + [tag], sum, b.out, b.accepted + [tag]) else b
  {
    hide Sum, Turns, Received, Subsequence;
    Fifo(h, maxSize);
    LastTurn(h, Receive(tag), maxSize);
    WrapAdd(Sum(Turns(h, maxSize).tags), tag.size);
  }

  /** Without that condition the limit can be passed: two tags whose sizes wrap around together. */
  lemma OverflowPassesTheLimit(maxSize: uint32)
    requires maxSize > 1
    ensures var big := FlvTag(9, 0, maxSize - 1, []);
            var wraps := FlvTag(9, 0, 0x1_0000_0001 - maxSize, []);
            var b := Turns([Receive(big), Receive(wraps)], maxSize);
            b.tags == [big, wraps] && b.size == 0 && Sum(b.tags) == 0x1_0000_0000
  {
    var big := FlvTag(9, 0, maxSize - 1, []);
    var wraps := FlvTag(9, 0, 0x1_0000_0001 - maxSize, []);
    var h := [Receive(big), Receive(wraps)];
    assert h[..1] == [Receive(big)];
    assert h[..1][..0] == [];
    assert Turns(h[..1], maxSize).tags == [big];
    assert [big, wraps][1..] == [wraps];
    assert [wraps][1..] == [];
    assert Sum([wraps]) == wraps.size;
  }

  // ----- What is handed over -----

  /** How often the loop chose to deliver while something was queued. */
  function HandOvers(h: seq<Choice>, maxSize: uint32): nat {
    if h == [] then 0 else
    var before := h[..|h| - 1];
    HandOvers(before, maxSize) + if h[|h| - 1] == Deliver && Turns(before, maxSize).tags != [] then 1 else 0
  }

  /** Each of these hands one tag to the consumer, and nothing else does. */
  lemma {:induction false} EveryHandOver(h: seq<Choice>, maxSize: uint32)
    ensures |Turns(h, maxSize).out| == HandOvers(h, maxSize)
  {
    if h != [] {
      EveryHandOver(h[..|h| - 1], maxSize);
    }
  }

  /** The tag handed over is the one that has waited longest, and its size is given back. */
  lemma DeliversFront(h: seq<Choice>, maxSize: uint32)
    ensures var (b, after) := (Turns(h, maxSize), Turns(h + [Deliver], maxSize));
            if b.tags == [] then after == b else
              && after.out == b.out + [b.tags[0]] && [b.tags[0]] + after.tags == b.tags && after.accepted == b.accepted
              && after.size == Sum(after.tags) % 0x1_0000_0000
              && (NoOverflow(h, maxSize) ==> after.size == b.size - b.tags[0].size)
  {
    hide Turns, Received, Subsequence, Fits;
    LastTurn(h, Deliver, maxSize);
    Fifo(h, maxSize);
    DeliverConserves(Turns(h, maxSize), Received(h), maxSize);
    if NoOverflow(h, maxSize) {
      Bounded(h, maxSize);
      DeliverExact(Turns(h, maxSize), maxSize);
    }
  }

  lemma {:induction false} DeliversFirst(h: seq<Choice>, n: nat, maxSize: uint32)
    requires n <= |Turns(h, maxSize).tags|
    ensures var (b, after) := (Turns(h, maxSize), Turns(h + seq(n, _ => Deliver), maxSize));
            after.out == b.out + b.tags[..n] && after.tags == b.tags[n..] && after.accepted == b.accepted
  {
    hide Turns;
    var b := Turns(h, maxSize);
    if n == 0 {
      assert h + seq(0, _ => Deliver) == h;
    } else {
      DeliversFirst(h, n - 1, maxSize);
      var shorter := h + seq(n - 1, _ => Deliver);
      assert h + seq(n, _ => Deliver) == shorter + [Deliver];
      LastTurn(shorter, Deliver, maxSize);
      assert b.tags[..n] == b.tags[..n - 1] + [b.tags[n - 1]];
    }
  }

  /** As many deliveries as tags are queued leave the consumer with all that was accepted. */
  lemma Drains(h: seq<Choice>, maxSize: uint32)
    ensures var (b, after) := (Turns(h, maxSize), Turns(h + seq(|Turns(h, maxSize).tags|, _ => Deliver), maxSize));
            after.tags == [] && after.size == 0 && after.out == after.accepted == b.accepted
  {
    hide Turns, Subsequence;
    var b := Turns(h, maxSize);
    var more := h + seq(|b.tags|, _ => Deliver);
    DeliversFirst(h, |b.tags|, maxSize);
    Fifo(h, maxSize);
    Fifo(more, maxSize);
    assert b.tags[..|b.tags|] == b.tags;
  }

  /** A buffer whose limit exceeds all it is ever sent drops nothing. */
  lemma {:induction false} DropsNothing(h: seq<Choice>, maxSize: uint32)
    requires Sum(Received(h)) < maxSize
    ensures var b := Turns(h, maxSize); b.accepted == Received(h) && Sum(b.tags) <= Sum(Received(h))
  {
    hide Fits, Subsequence, Sum;
    if h != [] {
      var (before, e) := (h[..|h| - 1], h[|h| - 1]);
      var b := Turns(before, maxSize);
      match e
      case Receive(tag) =>
        SumSnoc(Received(before), tag);
        DropsNothing(before, maxSize);
        SumSnoc(b.tags, tag);
        FitsBelow(before, tag, maxSize);
      case Deliver =>
        assert Received(before) + [] == Received(before);
        DropsNothing(before, maxSize);
        if b.tags != [] {
          SumFirst(b.tags);
        }
    }
  }

  lemma SumFirst(tags: seq<FlvTag>)
    requires tags != []
    ensures Sum(tags) == tags[0].size + Sum(tags[1..])
  {
  }

  lemma FitsBelow(h: seq<Choice>, tag: FlvTag, maxSize: uint32)
    requires Sum(Turns(h, maxSize).tags) + tag.size < maxSize
    ensures Fits(Turns(h, maxSize).size, tag, maxSize)
  {
    hide Turns, Received, Sum;
    Fifo(h, maxSize);
  }

  // ----- Behind a media stream -----

  /**
   * A consumer behind a subscribed buffer sees a subsequence of that subscriber's log, and all of
   * what the buffer has received if the limit is large enough.
   */
  lemma ConsumerSeesLog<C>(h: seq<Event<C>>, c: C, choices: seq<Choice>, maxSize: uint32)
    requires FreshChannels(h) && Subscribe(c) in h
    requires var ops := Shutdown(Run(h)).trace;
             c in ops && |Received(choices)| <= |ops[c]| && Sends(Received(choices)) == ops[c][..|Received(choices)|]
    ensures var b := Turns(choices, maxSize);
            && Subsequence(b.out, Log(h, c))
            && (Sum(Received(choices)) < maxSize ==> b.out + b.tags <= Log(h, c))
  {
    ChannelDiscipline(h, c);
    var (b, log, received) := (Turns(choices, maxSize), Log(h, c), Received(choices));
    SentIsPrefix(received, log);
    Fifo(choices, maxSize);
    SubsequenceTake(b.accepted, received, |b.out|);
    assert b.accepted[..|b.out|] == b.out;
    SubsequenceExtend(b.out, log, |received|);
    if Sum(received) < maxSize {
      DropsNothing(choices, maxSize);
    }
  }

  lemma SentIsPrefix(tags: seq<FlvTag>, log: seq<FlvTag>)
    requires |tags| <= |log| + 1 && Sends(tags) == (Sends(log) + [Closed])[..|tags|]
    ensures |tags| <= |log| && tags == log[..|tags|]
  {
    var ops := Sends(log) + [Closed];
    forall i | 0 <= i < |tags|
      ensures ops[i] == Sent(tags[i]) && i != |log|
    {
      assert ops[..|tags|][i] == ops[i] && Sends(tags)[i] == Sent(tags[i]);
    }
    assert ops[|log|] == Closed;
    forall i | 0 <= i < |tags|
      ensures tags[i] == log[i]
    {
      assert ops[i] == Sent(log[i]);
    }
  }
}

/** The mediaBuffer object. */
module MediaBuffers {
  import opened Bytes
  import opened Flv
  import opened BufferSpec

  class MediaBuffer {
    var tags: seq<FlvTag>
    var size: uint32
    const maxSize: uint32
    var out: seq<FlvTag>
    var outClosed: bool
    ghost var accepted: seq<FlvTag>

    constructor (maxSize: uint32)
      ensures this.maxSize == maxSize && Value() == EMPTY && !outClosed
    {
      this.maxSize, tags, size, out, outClosed, accepted := maxSize, [], 0, [], false, [];
    }

    ghost function Value(): Buffer
      reads this
    {
      Buffer(tags, size, out, accepted)
    }

    method Push(tag: FlvTag)
      modifies `tags, `size, `accepted
      ensures Value() == Turn(old(Value()), Receive(tag), maxSize)
    {
      if Wrap32(size + tag.size) < maxSize {
        size := Wrap32(size + tag.size);
        tags := tags + [tag];
        accepted := accepted + [tag];
      }
    }

    method Front() returns (tag: FlvTag)
      requires tags != []
      ensures tag == tags[0]
    {
      tag := tags[0];
    }

    /** Removes the front of the queue. */
    method Remove()
      requires tags != []
      modifies `tags, `size
      ensures tags == old(tags)[1..] && size == Wrap32(old(size) - old(tags)[0].size)
    {
      size := Wrap32(size - tags[0].size);
      tags := tags[1..];
    }

    /** The loop, for any choices of `select` and until the subscription is closed. */
    method Loop(choices: seq<Choice>)
      requires Value() == EMPTY && !outClosed
      modifies this
      ensures Value() == Turns(choices, maxSize) && outClosed
      ensures Conserves(Value(), Received(choices)) && |out| == HandOvers(choices, maxSize)
    {
      for i := 0 to |choices|
        invariant Value() == Turns(choices[..i], maxSize) && !outClosed
      {
        assert choices[..i + 1][..i] == choices[..i];
        match choices[i]
        case Receive(tag) => Push(tag);
        case Deliver =>
          if tags != [] {
            var front := Front();
            out := out + [front];
            Remove();
          }
      }
      assert choices[..|choices|] == choices;
      Fifo(choices, maxSize);
      outClosed := true;
    }
  }
}
