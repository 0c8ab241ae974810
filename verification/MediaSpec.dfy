/**
 * The event loop of mediaStream as a state machine over the choices its `select` makes, and what
 * each subscriber gets as a simple function of the events.  `C` stands for subscriber channels.
 */
module MediaSpec {
  import opened Bytes
  import opened Flv

  datatype Event<C> = Publish(tag: FlvTag) | Subscribe(sub: C) | Unsubscribe(sub: C)

  /** What happens to a subscriber's channel. */
  datatype Op = Sent(tag: FlvTag) | Closed

  /** The loop's variables, and all that has happened to every channel it ever accepted. */
  datatype State<!C> = State(
    data: Option<FlvTag>, audio: Option<FlvTag>, video: Option<FlvTag>, subs: map<C, bool>, trace: map<C, seq<Op>>)

  function Sends(tags: seq<FlvTag>): (ops: seq<Op>) {
    seq(|tags|, i requires 0 <= i < |tags| => Sent(tags[i]))
  }

  function Cached<C>(s: State<C>): seq<FlvTag> {
    OptionSeq(s.data) + OptionSeq(s.video) + OptionSeq(s.audio)
  }

  /** Does this subscriber get the tag being published? */
  predicate Receives<C>(subs: map<C, bool>, tag: FlvTag, c: C) {
    c in subs && (subs[c] || IsKeyframe(tag))
  }

  /** Who has started once the tag is out. */
  function Started<C>(subs: map<C, bool>, tag: FlvTag): map<C, bool> {
    map c | c in subs :: Receives(subs, tag, c)
  }

  /** The tag goes to those subscribers. */
  function Distributed<C>(trace: map<C, seq<Op>>, subs: map<C, bool>, tag: FlvTag): map<C, seq<Op>> {
    map c | c in trace :: if Receives(subs, tag, c) then trace[c] + [Sent(tag)] else trace[c]
  }

  function Step<C>(s: State<C>, e: Event<C>): State<C> {
    match e
    case Publish(tag) =>
      State(if s.data.None? && IsData(tag) then Some(tag) else s.data,
            if s.audio.None? && IsAacSequence(tag) then Some(tag) else s.audio,
            if IsAvcSequence(tag) then Some(tag) else s.video,
            Started(s.subs, tag), Distributed(s.trace, s.subs, tag))
    case Subscribe(c) => s.(subs := s.subs[c := false], trace := s.trace[c := Sends(Cached(s))])
    case Unsubscribe(c) =>
      if c in s.subs && c in s.trace
      then s.(subs := s.subs - {c}, trace := s.trace[c := s.trace[c] + [Closed]])
      else s
  }

  /** The loop has ended: every channel still subscribed is closed. */
  function Shutdown<C>(s: State<C>): State<C> {
    s.(subs := map[], trace := map c | c in s.trace :: if c in s.subs then s.trace[c] + [Closed] else s.trace[c])
  }

  function Run<C>(h: seq<Event<C>>): State<C> {
    if h == [] then State(None, None, None, map[], map[]) else Step(Run(h[..|h| - 1]), h[|h| - 1])
  }

  // ----- The simple function of the history -----

  function Published<C>(h: seq<Event<C>>): seq<FlvTag> {
    if h == [] then [] else
    Published(h[..|h| - 1]) + (if h[|h| - 1].Publish? then [h[|h| - 1].tag] else [])
  }

  function First(p: FlvTag -> bool, tags: seq<FlvTag>): Option<FlvTag> {
    if tags == [] then None else if p(tags[0]) then Some(tags[0]) else First(p, tags[1..])
  }

  function Last(p: FlvTag -> bool, tags: seq<FlvTag>): Option<FlvTag> {
    if tags == [] then None else if p(tags[|tags| - 1]) then Some(tags[|tags| - 1]) else Last(p, tags[..|tags| - 1])
  }

  /** First data tag, latest AVC sequence header, first AAC sequence header. */
  function Headers(tags: seq<FlvTag>): seq<FlvTag> {
    OptionSeq(First(Metadata, tags)) + OptionSeq(Last(AvcHeader, tags)) + OptionSeq(First(AacHeader, tags))
  }

  /** All tags from the first video keyframe on. */
  function FromKeyframe(tags: seq<FlvTag>): seq<FlvTag> {
    if tags == [] then [] else if Keyframe(tags[0]) then tags else FromKeyframe(tags[1..])
  }

  function Until<C(==)>(h: seq<Event<C>>, e: Event<C>): seq<Event<C>> {
    if h == [] || h[0] == e then [] else [h[0]] + Until(h[1..], e)
  }

  function After<C(==)>(h: seq<Event<C>>, e: Event<C>): seq<Event<C>> {
    if h == [] then [] else if h[0] == e then h[1..] else After(h[1..], e)
  }

  /** The events between subscribing and the first unsubscribing. */
  function During<C(==)>(h: seq<Event<C>>, c: C): seq<Event<C>> {
    Until(After(h, Subscribe(c)), Unsubscribe(c))
  }

  predicate Left<C(==)>(h: seq<Event<C>>, c: C) {
    Unsubscribe(c) in After(h, Subscribe(c))
  }

  /** What a subscriber gets: the headers cached when it subscribed, then all from a keyframe on. */
  function Log<C(==)>(h: seq<Event<C>>, c: C): seq<FlvTag> {
    Headers(Published(Until(h, Subscribe(c)))) + FromKeyframe(Published(During(h, c)))
  }

  /** `Subscribe` makes a channel of its own, so that no channel is subscribed twice. */
  predicate FreshChannels<C(==)>(h: seq<Event<C>>) {
    forall i, j | 0 <= i < j < |h| && h[i].Subscribe? :: h[i] != h[j]
  }

  // ----- How these grow with the history -----

  lemma {:induction false} FirstSnoc(p: FlvTag -> bool, tags: seq<FlvTag>, t: FlvTag)
    ensures First(p, tags + [t])
         == if First(p, tags).None? && p(t) then Some(t) else First(p, tags)
  {
    if tags != [] {
      assert (tags + [t])[1..] == tags[1..] + [t];
      FirstSnoc(p, tags[1..], t);
    }
  }

  lemma LastSnoc(p: FlvTag -> bool, tags: seq<FlvTag>, t: FlvTag)
    ensures Last(p, tags + [t]) == if p(t) then Some(t) else Last(p, tags)
  {
    assert (tags + [t])[..|tags|] == tags;
  }

  lemma {:induction false} FromKeyframeSnoc(tags: seq<FlvTag>, t: FlvTag)
    ensures FromKeyframe(tags + [t])
         == FromKeyframe(tags) + (if FromKeyframe(tags) != [] || Keyframe(t) then [t] else [])
  {
    if tags == [] {
      assert [] + [t] == [t];
      assert [t][1..] == [];
    } else {
      assert (tags + [t])[1..] == tags[1..] + [t];
      FromKeyframeSnoc(tags[1..], t);
    }
  }

  lemma {:induction false} UntilSnoc<C>(h: seq<Event<C>>, last: Event<C>, e: Event<C>)
    ensures Until(h + [last], e) == if e in h || last == e then Until(h, e) else h + [last]
    ensures e !in h ==> Until(h, e) == h
  {
    if h == [] {
      assert [] + [last] == [last];
    } else {
      assert (h + [last])[1..] == h[1..] + [last];
      UntilSnoc(h[1..], last, e);
      assert e in h <==> h[0] == e || e in h[1..];
      assert h == [h[0]] + h[1..];
      assert [h[0]] + (h[1..] + [last]) == h + [last];
    }
  }

  lemma {:induction false} AfterSnoc<C>(h: seq<Event<C>>, last: Event<C>, e: Event<C>)
    ensures After(h + [last], e) == if e in h then After(h, e) + [last] else []
    ensures e !in h ==> After(h, e) == []
  {
    if h == [] {
      assert [] + [last] == [last];
      assert [last][1..] == [];
    } else {
      assert (h + [last])[1..] == h[1..] + [last];
      AfterSnoc(h[1..], last, e);
      assert e in h <==> h[0] == e || e in h[1..];
    }
  }

  lemma PublishedSnoc<C>(h: seq<Event<C>>, e: Event<C>)
    ensures Published(h + [e]) == Published(h) + (if e.Publish? then [e.tag] else [])
  {
    assert (h + [e])[..|h|] == h;
  }

  // ----- The refinement -----

  /** The three cached tags are what the tags published so far determine. */
  lemma {:induction false} CacheIsHeaders<C>(h: seq<Event<C>>)
    ensures var (s, tags) := (Run(h), Published(h));
            && s.data == First(Metadata, tags) && s.video == Last(AvcHeader, tags)
            && s.audio == First(AacHeader, tags) && Cached(s) == Headers(tags)
  {
    if h != [] {
      var (before, e) := (h[..|h| - 1], h[|h| - 1]);
      CacheIsHeaders(before);
      if e.Publish? {
        TagsOnTheWire(e.tag);
        FirstSnoc(Metadata, Published(before), e.tag);
        LastSnoc(AvcHeader, Published(before), e.tag);
        FirstSnoc(AacHeader, Published(before), e.tag);
      } else {
        assert Published(before) + [] == Published(before);
      }
    }
  }

  /** The state kept for one subscriber, as the history determines it. */
  ghost predicate Follows<C>(s: State<C>, h: seq<Event<C>>, c: C) {
    && (c in s.trace <==> Subscribe(c) in h)
    && (c in s.subs <==> Subscribe(c) in h && !Left(h, c))
    && (c in s.subs ==> s.subs[c] == (FromKeyframe(Published(During(h, c))) != []))
    && (c in s.trace ==> s.trace[c] == Sends(Log(h, c)) + if Left(h, c) then [Closed] else [])
  }

  lemma SendsJoin(a: seq<FlvTag>, b: seq<FlvTag>)
    ensures Sends(a + b) == Sends(a) + Sends(b)
  {
  }

  lemma SubscribeFollows<C>(s: State<C>, h: seq<Event<C>>, c: C)
    requires Subscribe(c) !in h && Cached(s) == Headers(Published(h))
    ensures Follows(Step(s, Subscribe(c)), h + [Subscribe(c)], c)
  {
    var e: Event<C> := Subscribe(c);
    UntilSnoc(h, e, e);
    AfterSnoc(h, e, e);
    assert Log(h + [e], c) == Headers(Published(h));
    assert Sends(Headers(Published(h))) + [] == Sends(Headers(Published(h)));
  }

  /** How the view of a subscriber grows with an event after it subscribed. */
  lemma LaterSnoc<C>(h: seq<Event<C>>, e: Event<C>, c: C)
    requires Subscribe(c) in h && e != Subscribe(c)
    ensures Subscribe(c) in h + [e]
    ensures Until(h + [e], Subscribe(c)) == Until(h, Subscribe(c))
    ensures Left(h + [e], c) <==> Left(h, c) || e == Unsubscribe(c)
    ensures During(h + [e], c) == if Left(h, c) || e == Unsubscribe(c) then During(h, c) else During(h, c) + [e]
  {
    UntilSnoc(h, e, Subscribe(c));
    AfterSnoc(h, e, Subscribe(c));
    UntilSnoc(After(h, Subscribe(c)), e, Unsubscribe(c));
  }

  /** A subscriber still there gets the tag if it has seen a keyframe, or this is one. */
  lemma PublishFollows<C>(s: State<C>, h: seq<Event<C>>, tag: FlvTag, c: C)
    requires Follows(s, h, c) && Subscribe(c) in h && !Left(h, c)
    ensures Follows(Step(s, Publish(tag)), h + [Publish(tag)], c)
  {
    hide First, Last, Left, During, FromKeyframe, Headers, Published;
    var h' := h + [Publish(tag)];
    var tags := Published(During(h, c));
    LaterSnoc(h, Publish(tag), c);
    PublishedSnoc(During(h, c), Publish(tag));
    FromKeyframeSnoc(tags, tag);
    TagsOnTheWire(tag);
    var more := if Receives(s.subs, tag, c) then [tag] else [];
    assert FromKeyframe(Published(During(h', c))) == FromKeyframe(tags) + more;
    assert Log(h', c) == Log(h, c) + more;
    SendsJoin(Log(h, c), more);
    assert Sends(Log(h, c)) + Sends(more) + [] == Sends(Log(h, c)) + [] + Sends(more);
  }

  /** Events after subscribing. */
  lemma LaterFollows<C>(s: State<C>, h: seq<Event<C>>, e: Event<C>, c: C)
    requires Follows(s, h, c) && Subscribe(c) in h && e != Subscribe(c)
    ensures Follows(Step(s, e), h + [e], c)
  {
    hide First, Last, Left, During, FromKeyframe, Headers, Published;
    if e.Publish? && !Left(h, c) {
      PublishFollows(s, h, e.tag, c);
    } else {
      LaterSnoc(h, e, c);
      if !e.Publish? {
        PublishedSnoc(During(h, c), e);
        assert Published(During(h, c)) + [] == Published(During(h, c));
      }
      assert Published(During(h + [e], c)) == Published(During(h, c));
      assert Log(h + [e], c) == Log(h, c);
    }
  }

  lemma {:induction false} RunFollows<C>(h: seq<Event<C>>, c: C)
    requires FreshChannels(h)
    ensures Follows(Run(h), h, c)
  {
    if h != [] {
      var (before, e) := (h[..|h| - 1], h[|h| - 1]);
      assert h == before + [e];
      RunFollows(before, c);
      CacheIsHeaders(before);
      if e == Subscribe(c) {
        assert e !in before;
        SubscribeFollows(Run(before), before, c);
      } else if Subscribe(c) in before {
        LaterFollows(Run(before), before, e, c);
      } else {
        assert Subscribe(c) !in h;
      }
    }
  }

  /** A channel is closed at most once, and nothing is sent on it afterwards. */
  predicate Disciplined(ops: seq<Op>) {
    forall i | 0 <= i < |ops| && ops[i] == Closed :: i == |ops| - 1
  }

  /**
   * In every run each accepted subscriber has received exactly its log, and its channel is closed
   * exactly if it has unsubscribed.
   */
  lemma SubscriberRefinement<C>(h: seq<Event<C>>, c: C)
    requires FreshChannels(h)
    ensures c in Run(h).trace <==> Subscribe(c) in h
    ensures Subscribe(c) in h ==>
      && Run(h).trace[c] == Sends(Log(h, c)) + (if Left(h, c) then [Closed] else [])
      && Disciplined(Run(h).trace[c])
  {
    RunFollows(h, c);
  }

  /** When the loop ends, every channel it ever accepted is closed, exactly once. */
  lemma ChannelDiscipline<C>(h: seq<Event<C>>, c: C)
    requires FreshChannels(h)
    ensures var end := Shutdown(Run(h));
            && end.subs == map[]
            && (c in end.trace <==> Subscribe(c) in h)
            && (c in end.trace ==> end.trace[c] == Sends(Log(h, c)) + [Closed] && Disciplined(end.trace[c]))
  {
    RunFollows(h, c);
    assert Sends(Log(h, c)) + [] == Sends(Log(h, c));
  }
}
