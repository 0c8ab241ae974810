/** The event loop of mediastream.go over real subscriber channels, proved against MediaSpec. */
module MediaStreams {
  import opened Bytes
  import opened Defines
  import opened Flv
  import opened MediaSpec

  /** A subscriber's channel; `trace` is what has happened to it. Sending on or closing it twice would panic. */
  class Channel {
    var trace: seq<Op>

    constructor ()
      ensures trace == []
    {
      trace := [];
    }

    ghost predicate Open()
      reads this
    {
      Closed !in trace
    }

    method Send(tag: FlvTag)
      requires Open()
      modifies this
      ensures Open() && trace == old(trace) + [Sent(tag)]
    {
      trace := trace + [Sent(tag)];
    }

    method Close()
      requires Open()
      modifies this
      ensures trace == old(trace) + [Closed]
    {
      trace := trace + [Closed];
    }
  }

  /** Variables of the running loop; `accepted` are all channels that have ever subscribed. */
  class MediaStream {
    var dataHeader: Option<FlvTag>
    var audioHeader: Option<FlvTag>
    var videoHeader: Option<FlvTag>
    var subs: map<Channel, bool>
    ghost var accepted: set<Channel>

    constructor ()
      ensures Valid() && Value() == Run([]) && accepted == {}
    {
      dataHeader, audioHeader, videoHeader, subs, accepted := None, None, None, map[], {};
    }

    ghost predicate Valid()
      reads this, accepted
    {
      subs.Keys <= accepted && forall c <- subs :: c.Open()
    }

    ghost function Value(): State<Channel>
      reads this, accepted
    {
      State(dataHeader, audioHeader, videoHeader, subs, Traces())
    }

    ghost function Traces(): map<Channel, seq<Op>>
      reads this`accepted, accepted
    {
      map c | c in accepted :: c.trace
    }

    /** Keeps the tag if new subscribers will have to see it first. */
    method CacheHeader(tag: FlvTag)
      modifies `dataHeader, `audioHeader, `videoHeader
      ensures dataHeader == if old(dataHeader).None? && IsData(tag) then Some(tag) else old(dataHeader)
      ensures audioHeader == if old(audioHeader).None? && IsAacSequence(tag) then Some(tag) else old(audioHeader)
      ensures videoHeader == if IsAvcSequence(tag) then Some(tag) else old(videoHeader)
    {
      if tag.typ == AUDIO_TYPE {
        if audioHeader.None? {
          var header := GetAudioHeader(tag).value;
          if header.soundFormat == 10 && header.aacPacketType == 0 {
            audioHeader := Some(tag);
          }
        }
      } else if tag.typ == VIDEO_TYPE {
        var header := GetVideoHeader(tag).value;
        if header.frameType == 1 && header.codecId == 7 && header.avcPacketType == 0 {
          videoHeader := Some(tag);
        }
      } else if tag.typ == DATA_AMF0 {
        if dataHeader.None? {
          dataHeader := Some(tag);
        }
      }
    }

    /** One subscriber's turn in the distribution of a tag. */
    method Offer(sub: Channel, tag: FlvTag)
      requires sub in subs && sub.Open()
      modifies `subs, sub
      ensures sub.Open() && subs == old(subs)[sub := old(subs[sub]) || Keyframe(tag)]
      ensures sub.trace == if subs[sub] then old(sub.trace) + [Sent(tag)] else old(sub.trace)
    {
      TagsOnTheWire(tag);
      var started := subs[sub];
      if !started && tag.typ == VIDEO_TYPE {
        if GetVideoHeader(tag).value.frameType == 1 {
          sub.Send(tag);
          subs := subs[sub := true];
        }
      } else if started {
        sub.Send(tag);
      }
    }

    /** Offers a tag to every subscriber, in any order. */
    method OfferAll(tag: FlvTag)
      requires Valid()
      modifies `subs, subs.Keys
      ensures subs.Keys == old(subs.Keys)
      ensures forall c <- subs ::
                && c.Open() && subs[c] == (old(subs[c]) || Keyframe(tag))
                && c.trace == if subs[c] then old(c.trace) + [Sent(tag)] else old(c.trace)
    {
      hide Keyframe;
      var todo := subs.Keys;
      while todo != {}
        invariant todo <= subs.Keys == old(subs.Keys)
        invariant forall c <- old(subs) ::
                    && c.Open()
                    && subs[c] == (old(subs[c]) || (c !in todo && Keyframe(tag)))
                    && c.trace == if c !in todo && subs[c] then old(c.trace) + [Sent(tag)] else old(c.trace)
        modifies `subs, old(subs.Keys)
      {
        var sub :| sub in todo;
        todo := todo - {sub};
        Offer(sub, tag);
      }
    }

    /** Sends a tag to the subscribers that have started or start with it. */
    method Distribute(tag: FlvTag)
      requires Valid()
      modifies `subs, subs.Keys
      ensures Valid()
      ensures subs == Started(old(subs), tag)
      ensures Traces() == Distributed(old(Traces()), old(subs), tag)
    {
      hide IsKeyframe, Keyframe, Channel.Open;
      TagsOnTheWire(tag);
      OfferAll(tag);
    }

    method HandlePublish(tag: FlvTag)
      requires Valid()
      modifies this, subs.Keys
      ensures Valid() && accepted == old(accepted) && Value() == Step(old(Value()), Publish(tag))
    {
      hide IsAacSequence, IsAvcSequence, IsData, Started, Distributed;
      CacheHeader(tag);
      Distribute(tag);
    }

    method SendCached(sub: Channel)
      requires sub.Open()
      modifies sub
      ensures sub.Open()
      ensures var cached := OptionSeq(dataHeader) + OptionSeq(videoHeader) + OptionSeq(audioHeader);
              sub.trace == old(sub.trace) + Sends(cached)
    {
      if dataHeader.Some? {
        sub.Send(dataHeader.value);
      }
      if videoHeader.Some? {
        sub.Send(videoHeader.value);
      }
      if audioHeader.Some? {
        sub.Send(audioHeader.value);
      }
    }

    method HandleSubscribe(sub: Channel)
      requires Valid() && sub !in accepted && sub.trace == []
      modifies this, sub
      ensures Valid() && accepted == old(accepted) + {sub} && Value() == Step(old(Value()), Subscribe(sub))
    {
      hide Sends;
      ghost var before := Value();
      subs := subs[sub := false];
      accepted := accepted + {sub};
      SendCached(sub);
      ghost var sent := Sends(Cached(before));
      assert [] + sent == sent;
      assert Value().trace == before.trace[sub := sent];
    }

    /** Does nothing for a channel that is not subscribed, or no longer. */
    method HandleUnsubscribe(sub: Channel)
      requires Valid()
      modifies `subs, sub
      ensures Valid() && Value() == Step(old(Value()), Unsubscribe(sub))
      ensures sub !in old(subs) ==> sub.trace == old(sub.trace)
    {
      if sub in subs {
        subs := subs - {sub};
        sub.Close();
      }
    }

    /** The deferred shutdown: closes every channel still subscribed. */
    method CloseAll()
      requires Valid()
      modifies `subs, subs.Keys
      ensures Valid() && Value() == Shutdown(old(Value()))
    {
      var todo := subs.Keys;
      while todo != {}
        invariant todo <= subs.Keys && subs == old(subs)
        invariant forall c <- todo :: c.Open()
        invariant forall c <- old(subs) :: c.trace == if c in todo then old(c.trace) else old(c.trace) + [Closed]
        modifies subs.Keys
      {
        var sub :| sub in todo;
        todo := todo - {sub};
        sub.Close();
      }
      subs := map[];
      assert Value().trace == Shutdown(old(Value())).trace;
    }

    /** One turn of the loop. */
    method Handle(e: Event<Channel>)
      requires Valid() && (e.Subscribe? ==> e.sub !in accepted && e.sub.trace == [])
      modifies this, accepted, if e.Publish? then {} else {e.sub}
      ensures Valid() && Value() == Step(old(Value()), e)
      ensures accepted == if e.Subscribe? then old(accepted) + {e.sub} else old(accepted)
      ensures e.Unsubscribe? && e.sub !in old(accepted) ==> e.sub.trace == old(e.sub.trace)
    {
      hide Step;
      match e
      case Publish(tag) => HandlePublish(tag);
      case Subscribe(sub) => HandleSubscribe(sub);
      case Unsubscribe(sub) => HandleUnsubscribe(sub);
    }

    /** The loop, for any choices of `select` and until the stream is closed. */
    method Loop(events: seq<Event<Channel>>)
      requires Valid() && Value() == Run([]) && accepted == {}
      requires FreshChannels(events) && forall e <- events | e.Subscribe? :: e.sub.trace == []
      modifies this, set e <- events | !e.Publish? :: e.sub
      ensures Value() == Shutdown(Run(events))
      ensures forall c :: c in accepted <==> Subscribe(c) in events
    {
      hide Step, Shutdown;
      ghost var channels := set e <- events | !e.Publish? :: e.sub;
      for i := 0 to |events|
        invariant Valid() && Value() == Run(events[..i]) && accepted <= channels
        invariant forall c :: c in accepted <==> Subscribe(c) in events[..i]
        invariant forall e <- events | e.Subscribe? && e.sub !in accepted :: e.sub.trace == []
        modifies this, channels
      {
        assert events[..i + 1] == events[..i] + [events[i]];
        Handle(events[i]);
      }
      assert events[..|events|] == events;
      CloseAll();
    }
  }
}
