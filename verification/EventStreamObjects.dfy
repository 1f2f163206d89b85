/** The event stream as an object whose methods are the steps of the module EventStreams. */
module EventStreamObjects {
  import opened Common
  import opened Deliveries
  import opened EventStreams

  class EventStream {
    const capacity: nat
    var buffer: seq<Event>
    var subscribers: map<string, seq<nat>>
    var chans: seq<Chan>
    var stored: seq<Event>
    var phase: Phase
    ghost var accepted: seq<Event>
    var panicked: bool

    ghost function View(): State
      reads this
    {
      State(capacity, buffer, subscribers, chans, stored, phase, accepted, panicked)
    }

    ghost predicate Valid()
      reads this
    {
      Inv(View())
    }

    constructor (capacity: nat)
      ensures Valid() && View() == Start(capacity)
    {
      this.capacity := capacity;
      buffer, subscribers, chans, stored, phase, accepted, panicked := [], map[], [], [], Idle, [], false;
    }

    /** `handoff`: without a buffer, whether the processor stands ready at this moment. */
    method Publish(e: Event, handoff: bool) returns (ok: bool)
      requires Valid()
      modifies this
      ensures Valid() && View() == Next(old(View()), EventStreams.Publish(e, handoff))
      ensures ok <==> |old(buffer)| < capacity || (capacity == 0 && old(phase) == Idle && handoff)
      ensures ok ==> if capacity > 0 then buffer == old(buffer) + [e] else phase == Holding(e)
      ensures accepted == old(accepted) + if ok then [e] else []
    {
      hide Inv;
      PublishKeeps(View(), e, handoff);
      if |buffer| < capacity {
        buffer, accepted := buffer + [e], accepted + [e];
        return true;
      }
      if capacity == 0 && phase == Idle && handoff {
        phase, accepted := Holding(e), accepted + [e];
        return true;
      }
      return false;
    }

    method Subscribe(key: string) returns (ch: nat)
      requires Valid()
      modifies this
      ensures Valid() && View() == Next(old(View()), EventStreams.Subscribe(key))
      ensures subscribers == old(subscribers)[key := (if key in old(subscribers) then old(subscribers)[key] else []) + [ch]]
      ensures ch == |old(chans)| && ch < |chans| && chans[ch] == Chan(key, [], false, [], [])
    {
      hide Inv;
      SubscribeKeeps(View(), key);
      ch := |chans|;
      subscribers := subscribers[key := (if key in subscribers then subscribers[key] else []) + [ch]];
      chans := chans + [Chan(key, [], false, [], [])];
    }

    method Unsubscribe(key: string, ch: nat)
      requires Valid()
      modifies this
      ensures Valid() && View() == Next(old(View()), EventStreams.Unsubscribe(key, ch))
      ensures !panicked
      ensures key in old(subscribers) && ch in old(subscribers)[key] ==>
        key in subscribers && ch !in subscribers[key] && ch < |chans| && chans[ch].closed
    {
      hide Inv, Next, Closed;
      ghost var s := View();
      UnsubscribeEnds(s, key, ch);
      UnsubscribeKeeps(s, key, ch);
      StillSafe(Next(s, EventStreams.Unsubscribe(key, ch)));
      var subs := if key in subscribers then subscribers[key] else [];
      for i := 0 to |subs|
        invariant View() == s && subs == Subs(s, key) && forall j :: 0 <= j < i ==> subs[j] != ch
      {
        if subs[i] == ch {
          Unlisted(s, key, ch, i);
          subscribers := subscribers[key := subs[..i] + subs[i + 1..]];
          Close(ch);
          return;
        }
      }
      NotListed(s, key, ch);
    }

    /** Closing a channel, which panics if it is closed already. */
    method Close(ch: nat)
      modifies this`chans, this`panicked
      ensures View() == Closed(old(View()), ch)
    {
      if ch >= |chans| || chans[ch].closed {
        panicked := true;
      } else {
        chans := chans[ch := chans[ch].(closed := true)];
      }
    }

    /** The processing goroutine takes the next event out of the buffer. */
    method TakeNext()
      requires Valid()
      modifies this
      ensures Valid() && View() == Next(old(View()), Dequeue)
      ensures old(phase) == Idle && old(buffer) != [] ==> phase == Holding(old(buffer)[0]) && buffer == old(buffer)[1..]
    {
      hide Inv;
      DequeueKeeps(View());
      if phase == Idle && |buffer| > 0 {
        phase, buffer := Holding(buffer[0]), buffer[1..];
      }
    }

    /** It stores the event; what the store answers is ignored. */
    method StoreEvent()
      requires Valid()
      modifies this
      ensures Valid() && View() == Next(old(View()), Store)
      ensures old(phase).Holding? ==> stored == old(stored) + [old(phase).event] && phase == Notifying(old(phase).event)
    {
      hide Inv;
      StoreKeeps(View());
      if phase.Holding? {
        stored, phase := stored + [phase.event], Notifying(phase.event);
      }
    }

    /** With the context cancelled the goroutine ends, if it is waiting. */
    method Stop()
      requires Valid()
      modifies this
      ensures Valid() && View() == Next(old(View()), Cancel)
    {
      hide Inv;
      CancelKeeps(View());
      if phase == Idle {
        phase := Stopped;
      }
    }

    /** A send that gives up when the channel is full and panics when it is closed. */
    method TrySend(ch: nat, n: nat)
      requires n < |stored|
      modifies this`chans, this`panicked
      ensures View() == SentTo(old(View()), ch, n)
    {
      if ch >= |chans| || chans[ch].closed {
        panicked := true;
      } else if |chans[ch].queue| < CHANNEL_CAPACITY {
        var c := chans[ch];
        chans := chans[ch := c.(queue := c.queue + [stored[n]], got := c.got + [n])];
      }
    }

    method SendAll(ids: seq<nat>, n: nat)
      requires n < |stored|
      modifies this`chans, this`panicked
      ensures View() == SentToAll(old(View()), ids, n)
    {
      ghost var s := View();
      for i := 0 to |ids|
        invariant View() == SentToAll(s, ids[..i], n) && stored == old(stored)
      {
        assert ids[..i + 1][..i] == ids[..i];
        TrySend(ids[i], n);
      }
      assert ids[..|ids|] == ids;
    }

    /** It announces the event just stored, under the lock that keeps subscriptions fixed. */
    method NotifySubscribers()
      requires Valid()
      modifies this
      ensures Valid() && View() == Next(old(View()), Notify)
      ensures !panicked
      ensures old(phase).Notifying? ==> Delivered(old(View()), View())
    {
      hide Delivered;
      ghost var s := View();
      if !phase.Notifying? || |stored| == 0 {
        return;
      }
      NotifyKeeps(s);
      NotifyDelivers(s);
      hide Inv, SentToAll;
      var e, n := stored[|stored| - 1], |stored| - 1;
      if e.entityID in subscribers {
        SendAll(subscribers[e.entityID], n);
      } else {
        NoReceivers(s, n);
      }
      assert View() == SentToAll(s, Subs(s, e.entityID), n);
      if WILDCARD in subscribers {
        SendAll(subscribers[WILDCARD], n);
      } else {
        NoReceivers(View(), n);
      }
      phase := Idle;
      StillSafe(View());
    }

    method Receive(ch: nat) returns (e: Option<Event>)
      requires Valid()
      modifies this
      ensures Valid() && View() == Next(old(View()), EventStreams.Receive(ch))
      ensures e.Some? <==> ch < |old(chans)| && old(chans)[ch].queue != []
      ensures e.Some? ==> e.value == old(chans)[ch].queue[0] && chans[ch].queue == old(chans)[ch].queue[1..]
    {
      hide Inv;
      ReceiveKeeps(View(), ch);
      if ch >= |chans| || |chans[ch].queue| == 0 {
        return None;
      }
      var c := chans[ch];
      chans := chans[ch := c.(queue := c.queue[1..], received := c.received + [c.queue[0]])];
      return Some(c.queue[0]);
    }
  }

  lemma Unlisted(s: State, key: string, ch: nat, i: nat)
    requires i < |Subs(s, key)| && Subs(s, key)[i] == ch && forall j :: 0 <= j < i ==> Subs(s, key)[j] != ch
    ensures Next(s, Unsubscribe(key, ch))
         == Closed(s.(subscribers := s.subscribers[key := Subs(s, key)[..i] + Subs(s, key)[i + 1..]]), ch)
  {
    hide Subs, Closed;
    assert Find(Subs(s, key), ch) == i;
  }

  lemma NotListed(s: State, key: string, ch: nat)
    requires forall j :: 0 <= j < |Subs(s, key)| ==> Subs(s, key)[j] != ch
    ensures Next(s, Unsubscribe(key, ch)) == s
  {
  }

  lemma NoReceivers(s: State, n: nat)
    requires n < |s.stored|
    ensures SentToAll(s, [], n) == s
  {
  }

  lemma StillSafe(s: State)
    ensures Inv(s) ==> !s.panicked
  {
  }
}
