/**
 The event stream (layer3/event_stream.go): publishers, one processing goroutine, and subscribers
 on bounded channels. Subscribing, unsubscribing and notifying exclude each other by the lock;
 everything else interleaves. A channel is named by its number in the order of creation.
 */
module EventStreams {

  datatype Event = Event(id: string, entityID: string, message: string)

  const WILDCARD := "*"
  const CHANNEL_CAPACITY: nat := 100

  /**
   `key` is what the channel was subscribed to. `got` and `received` are history: the numbers of
   the stored events sent to the channel, and what its reader has taken out.
   */
  datatype Chan = Chan(key: string, queue: seq<Event>, closed: bool, got: seq<nat>, received: seq<Event>)

  /** Where the processing goroutine is: waiting, with an event not yet stored or not yet announced, or gone. */
  datatype Phase = Idle | Holding(event: Event) | Notifying(event: Event) | Stopped

  /** `accepted` is the history of successful publishes; `panicked` records a send to or close of a closed channel. */
  datatype State = State(
    capacity: nat, buffer: seq<Event>, subscribers: map<string, seq<nat>>, chans: seq<Chan>,
    stored: seq<Event>, phase: Phase, accepted: seq<Event>, panicked: bool)

  datatype Step =
    | Publish(event: Event, handoff: bool)
    | Subscribe(key: string)
    | Unsubscribe(key: string, ch: nat)
    | Dequeue
    | Store
    | Notify
    | Cancel
    | Receive(ch: nat)

  function Subs(s: State, key: string): seq<nat> {
    if key in s.subscribers then s.subscribers[key] else []
  }

  // ---------- Steps ----------

  /** With room in the buffer, or handed over directly if there is no buffer and the processor waits. */
  function Published(s: State, e: Event, handoff: bool): State {
    if |s.buffer| < s.capacity then s.(buffer := s.buffer + [e], accepted := s.accepted + [e])
    else if s.capacity == 0 && s.phase == Idle && handoff then s.(phase := Holding(e), accepted := s.accepted + [e])
    else s
  }

  /** The place of a channel in a list, or its length. */
  function Find(ids: seq<nat>, ch: nat): (k: nat)
    ensures k <= |ids| && (k < |ids| ==> ids[k] == ch) && forall j :: 0 <= j < k ==> ids[j] != ch
  {
    if ids == [] || ids[0] == ch then 0 else 1 + Find(ids[1..], ch)
  }

  function Closed(s: State, ch: nat): State {
    if ch >= |s.chans| || s.chans[ch].closed then s.(panicked := true)
    else s.(chans := s.chans[ch := s.chans[ch].(closed := true)])
  }

  /** A non-blocking send of stored event number `n`: skipped when the channel is full. */
  function SentTo(s: State, ch: nat, n: nat): State
    requires n < |s.stored|
  {
    if ch >= |s.chans| || s.chans[ch].closed then s.(panicked := true)
    else if |s.chans[ch].queue| >= CHANNEL_CAPACITY then s
    else
      var c := s.chans[ch];
      s.(chans := s.chans[ch := c.(queue := c.queue + [s.stored[n]], got := c.got + [n])])
  }

  function SentToAll(s: State, ids: seq<nat>, n: nat): (r: State)
    requires n < |s.stored|
    ensures r.stored == s.stored && r.subscribers == s.subscribers && r.phase == s.phase
    ensures r.buffer == s.buffer && r.accepted == s.accepted && r.capacity == s.capacity && |r.chans| == |s.chans|
  {
    if ids == [] then s else SentTo(SentToAll(s, ids[..|ids| - 1], n), ids[|ids| - 1], n)
  }

  /** To the subscribers of the entity first, then to those of everything. */
  function Announced(s: State, n: nat): State
    requires n < |s.stored|
  {
    SentToAll(SentToAll(s, Subs(s, s.stored[n].entityID), n), Subs(s, WILDCARD), n)
  }

  function Next(s: State, step: Step): State {
    match step
    case Publish(e, handoff) => Published(s, e, handoff)
    case Subscribe(key) =>
      s.(subscribers := s.subscribers[key := Subs(s, key) + [|s.chans|]],
         chans := s.chans + [Chan(key, [], false, [], [])])
    case Unsubscribe(key, ch) =>
      var ids := Subs(s, key);
      var k := Find(ids, ch);
      if k == |ids| then s
      else Closed(s.(subscribers := s.subscribers[key := ids[..k] + ids[k + 1..]]), ch)
    case Dequeue =>
      if s.phase != Idle || s.buffer == [] then s else s.(phase := Holding(s.buffer[0]), buffer := s.buffer[1..])
    case Store =>
      if !s.phase.Holding? then s else s.(phase := Notifying(s.phase.event), stored := s.stored + [s.phase.event])
    case Notify =>
      if !s.phase.Notifying? || s.stored == [] then s else Announced(s, |s.stored| - 1).(phase := Idle)
    case Cancel => if s.phase != Idle then s else s.(phase := Stopped)
    case Receive(ch) =>
      if ch >= |s.chans| || s.chans[ch].queue == [] then s
      else
        var c := s.chans[ch];
        s.(chans := s.chans[ch := c.(queue := c.queue[1..], received := c.received + [c.queue[0]])])
  }

  function Start(capacity: nat): State {
    State(capacity, [], map[], [], [], Idle, [], false)
  }

  function Run(capacity: nat, steps: seq<Step>): State {
    if steps == [] then Start(capacity) else Next(Run(capacity, steps[..|steps| - 1]), steps[|steps| - 1])
  }

  // ---------- Invariant ----------

  /** Listed channels are open, known, subscribed to that key, and listed once. */
  ghost predicate Listed(s: State) {
    && (forall key, i :: key in s.subscribers && 0 <= i < |s.subscribers[key]| ==>
          s.subscribers[key][i] < |s.chans| && !s.chans[s.subscribers[key][i]].closed && s.chans[s.subscribers[key][i]].key == key)
    && forall key, i, j :: key in s.subscribers && 0 <= i < j < |s.subscribers[key]| ==> s.subscribers[key][i] != s.subscribers[key][j]
  }

  /** What is accepted is stored, in hand, or buffered, in that order. */
  ghost predicate InOrder(s: State) {
    && s.accepted == s.stored + (if s.phase.Holding? then [s.phase.event] else []) + s.buffer
    && |s.buffer| <= s.capacity
    && (s.phase.Notifying? ==> s.stored != [] && s.stored[|s.stored| - 1] == s.phase.event)
  }

  /** Rising event numbers; a number may come twice in a row only for an event about "*" itself. */
  ghost predicate Rising(got: seq<nat>, stored: seq<Event>, below: nat) {
    && below <= |stored|
    && (forall i :: 0 <= i < |got| ==> got[i] < below)
    && forall i, j :: 0 <= i < j < |got| ==>
         got[i] < got[j] || (got[i] == got[j] && j == i + 1 && stored[got[i]].entityID == WILDCARD)
  }

  function Pick(stored: seq<Event>, got: seq<nat>): seq<Event>
    requires forall i :: 0 <= i < |got| ==> got[i] < |stored|
  {
    seq(|got|, i requires 0 <= i < |got| => stored[got[i]])
  }

  ghost predicate Matches(key: string, e: Event) {
    key == WILDCARD || key == e.entityID
  }

  /** What a channel has been sent: matching events, in order, taken out or still queued. */
  ghost predicate Faithful(c: Chan, stored: seq<Event>, below: nat) {
    && Rising(c.got, stored, below)
    && (forall i :: 0 <= i < |c.got| ==> Matches(c.key, stored[c.got[i]]))
    && c.received + c.queue == Pick(stored, c.got)
    && |c.queue| <= CHANNEL_CAPACITY
  }

  /** Stored events that have been announced. */
  function Announceable(s: State): nat {
    if s.phase.Notifying? && s.stored != [] then |s.stored| - 1 else |s.stored|
  }

  ghost predicate Inv(s: State) {
    && !s.panicked && Listed(s) && InOrder(s)
    && forall c :: 0 <= c < |s.chans| ==> Faithful(s.chans[c], s.stored, Announceable(s))
  }

  // ---------- Announcing ----------

  /** Channels of `ids` have at most gained event `n` at the end; the others are as they were. */
  ghost predicate Gained(s: State, r: State, ids: seq<nat>, n: nat) {
    && n < |s.stored| && r == s.(chans := r.chans) && |r.chans| == |s.chans|
    && forall c :: 0 <= c < |s.chans| ==>
         r.chans[c] == s.chans[c]
         || (c in ids && |s.chans[c].queue| < CHANNEL_CAPACITY
             && r.chans[c] == s.chans[c].(queue := s.chans[c].queue + [s.stored[n]], got := s.chans[c].got + [n]))
  }

  ghost predicate OpenOnce(s: State, ids: seq<nat>) {
    && (forall i :: 0 <= i < |ids| ==> ids[i] < |s.chans| && !s.chans[ids[i]].closed)
    && forall i, j :: 0 <= i < j < |ids| ==> ids[i] != ids[j]
  }

  lemma {:induction false} SendGains(s: State, ids: seq<nat>, n: nat)
    requires OpenOnce(s, ids) && n < |s.stored|
    ensures Gained(s, SentToAll(s, ids, n), ids, n)
  {
    if ids != [] {
      var k := |ids| - 1;
      SendGains(s, ids[..k], n);
      var q := SentToAll(s, ids[..k], n);
      assert ids[k] !in ids[..k] && q.chans[ids[k]] == s.chans[ids[k]];
      assert forall c :: c in ids[..k] ==> c in ids;
    }
  }

  /** A channel that gains the event just stored stays faithful. */
  lemma GainFaithful(c: Chan, stored: seq<Event>, below: nat, n: nat)
    requires Faithful(c, stored, below) && n < |stored| && below <= n + 1 && |c.queue| < CHANNEL_CAPACITY
    requires Matches(c.key, stored[n])
    requires below == n + 1 ==> stored[n].entityID == WILDCARD
    requires below == n + 1 ==> forall i :: 0 <= i < |c.got| && c.got[i] == n ==> i == |c.got| - 1
    ensures Faithful(c.(queue := c.queue + [stored[n]], got := c.got + [n]), stored, n + 1)
  {
    var got := c.got + [n];
    assert Pick(stored, got) == Pick(stored, c.got) + [stored[n]];
    assert c.received + (c.queue + [stored[n]]) == c.received + c.queue + [stored[n]];
  }

  lemma WeakenFaithful(c: Chan, stored: seq<Event>, below: nat, more: nat)
    requires Faithful(c, stored, below) && below <= more <= |stored|
    ensures Faithful(c, stored, more)
  {
  }

  lemma ListedOpenOnce(s: State, key: string)
    requires Listed(s)
    ensures OpenOnce(s, Subs(s, key))
    ensures forall c :: c in Subs(s, key) ==> c < |s.chans| && s.chans[c].key == key
  {
  }

  lemma NotifyKeeps(s: State)
    requires Inv(s) && s.phase.Notifying?
    ensures Inv(Next(s, Notify))
  {
    var n := |s.stored| - 1;
    ChannelsNotified(s, n);
    var r := Announced(s, n);
    hide Announced, Faithful, Listed;
    assert Next(s, Notify) == r.(phase := Idle);
    AnnouncedListed(s, r.(phase := Idle));
  }

  lemma ChannelsNotified(s: State, n: nat)
    requires Inv(s) && s.phase.Notifying? && n == |s.stored| - 1
    ensures var r := Announced(s, n);
      && r == s.(chans := r.chans) && |r.chans| == |s.chans|
      && forall c :: 0 <= c < |s.chans| ==>
           Faithful(r.chans[c], s.stored, n + 1) && r.chans[c].key == s.chans[c].key && r.chans[c].closed == s.chans[c].closed
  {
    var key := s.stored[n].entityID;
    ListedOpenOnce(s, key);
    ListedOpenOnce(s, WILDCARD);
    hide Faithful, Subs, SentToAll, Listed;
    var q := SentToAll(s, Subs(s, key), n);
    var r := SentToAll(q, Subs(s, WILDCARD), n);
    SendGains(s, Subs(s, key), n);
    assert OpenOnce(q, Subs(s, WILDCARD));
    SendGains(q, Subs(s, WILDCARD), n);
    forall c | 0 <= c < |s.chans|
      ensures Faithful(r.chans[c], s.stored, n + 1) && r.chans[c].key == s.chans[c].key && r.chans[c].closed == s.chans[c].closed
    {
      ChannelNotified(s.chans[c], q.chans[c], r.chans[c], s.stored, n);
    }
  }

  /** `d` is `c` or has gained stored event `n`. */
  ghost predicate MayGain(c: Chan, d: Chan, stored: seq<Event>, n: nat) {
    && n < |stored|
    && (d == c || (|c.queue| < CHANNEL_CAPACITY && Matches(c.key, stored[n])
                   && d == c.(queue := c.queue + [stored[n]], got := c.got + [n])))
  }

  /** A channel in the two rounds of an announcement. */
  lemma ChannelNotified(c0: Chan, c1: Chan, c2: Chan, stored: seq<Event>, n: nat)
    requires n == |stored| - 1 && Faithful(c0, stored, n)
    requires MayGain(c0, c1, stored, n) && MayGain(c1, c2, stored, n)
    requires c1 != c0 ==> c0.key == stored[n].entityID
    requires c2 != c1 ==> c0.key == WILDCARD
    ensures Faithful(c2, stored, n + 1)
  {
    if c1 == c0 {
      if c2 == c1 { WeakenFaithful(c0, stored, n, n + 1); } else { GainFaithful(c1, stored, n, n); }
    } else {
      GainFaithful(c0, stored, n, n);
      if c2 != c1 {
        assert forall i :: 0 <= i < |c0.got| ==> c1.got[i] == c0.got[i] < n;
        GainFaithful(c1, stored, n + 1, n);
      }
    }
  }

  lemma AnnouncedListed(s: State, r: State)
    requires Listed(s) && r.subscribers == s.subscribers && |r.chans| == |s.chans|
    requires forall c :: 0 <= c < |s.chans| ==> r.chans[c].key == s.chans[c].key && r.chans[c].closed == s.chans[c].closed
    ensures Listed(r)
  {
  }

  // ---------- The other steps ----------

  lemma PublishKeeps(s: State, e: Event, handoff: bool)
    requires Inv(s)
    ensures Inv(Next(s, Publish(e, handoff)))
  {
    var r := Next(s, Publish(e, handoff));
    assert s.buffer == [] ==> s.stored + [e] + s.buffer == s.stored + s.buffer + [e];
    assert Listed(r);
  }

  lemma SubscribeKeeps(s: State, key: string)
    requires Inv(s)
    ensures Inv(Next(s, Subscribe(key)))
  {
    SubscribedListed(s, key);
    hide Listed;
    assert Faithful(Chan(key, [], false, [], []), s.stored, Announceable(s));
  }

  lemma SubscribedListed(s: State, key: string)
    requires Listed(s)
    ensures Listed(Next(s, Subscribe(key)))
  {
    var r := Next(s, Subscribe(key));
    forall k, i | k in r.subscribers && 0 <= i < |r.subscribers[k]|
      ensures r.subscribers[k][i] < |r.chans| && !r.chans[r.subscribers[k][i]].closed && r.chans[r.subscribers[k][i]].key == k
    {
      if k in s.subscribers && i < |s.subscribers[k]| {
        assert r.subscribers[k][i] == s.subscribers[k][i];
      }
    }
  }

  /** A listed channel is open, and closing it after taking it off the list keeps the lists sound. */
  lemma DelistedListed(s: State, key: string, k: nat)
    requires Listed(s) && k < |Subs(s, key)|
    ensures var ids := Subs(s, key);
      && ids[k] < |s.chans| && !s.chans[ids[k]].closed
      && Listed(Closed(s.(subscribers := s.subscribers[key := ids[..k] + ids[k + 1..]]), ids[k]))
  {
    var ids := Subs(s, key);
    var rest := ids[..k] + ids[k + 1..];
    var r := Closed(s.(subscribers := s.subscribers[key := rest]), ids[k]);
    forall i | 0 <= i < |rest| ensures rest[i] == ids[if i < k then i else i + 1] && rest[i] != ids[k] {
      var j := if i < k then i else i + 1;
      if j < k { assert ids[j] != ids[k]; } else { assert ids[k] != ids[j]; }
    }
    forall l, i | l in r.subscribers && 0 <= i < |r.subscribers[l]|
      ensures r.subscribers[l][i] < |r.chans| && !r.chans[r.subscribers[l][i]].closed && r.chans[r.subscribers[l][i]].key == l
    {
      if l != key { assert s.chans[s.subscribers[l][i]].key == l; }
    }
  }

  lemma UnsubscribeKeeps(s: State, key: string, ch: nat)
    requires Inv(s)
    ensures Inv(Next(s, Unsubscribe(key, ch)))
  {
    hide Faithful, Listed;
    var k := Find(Subs(s, key), ch);
    if k < |Subs(s, key)| {
      DelistedListed(s, key, k);
      ClosedFaithful(s.chans[ch], s.stored, Announceable(s));
    }
  }

  lemma ClosedFaithful(c: Chan, stored: seq<Event>, n: nat)
    requires n <= |stored| && Faithful(c, stored, n)
    ensures Faithful(c.(closed := true), stored, n)
  {
  }

  lemma Regrouped(stored: seq<Event>, buffer: seq<Event>)
    requires buffer != []
    ensures stored + [] + buffer == stored + [buffer[0]] + buffer[1..]
  {
    assert buffer == [buffer[0]] + buffer[1..];
  }

  lemma DequeueKeeps(s: State)
    requires Inv(s)
    ensures Inv(Next(s, Dequeue))
  {
    hide Faithful;
    var r := Next(s, Dequeue);
    if r != s {
      Regrouped(s.stored, s.buffer);
      AnnouncedListed(s, r);
    }
  }

  lemma StoreKeeps(s: State)
    requires Inv(s)
    ensures Inv(Next(s, Store))
  {
    var r := Next(s, Store);
    if r != s {
      forall c | 0 <= c < |s.chans| ensures Faithful(r.chans[c], r.stored, Announceable(r)) {
        MoreStored(s.chans[c], s.stored, s.phase.event);
      }
      assert Listed(r);
    }
  }

  lemma MoreStored(c: Chan, stored: seq<Event>, e: Event)
    requires Faithful(c, stored, |stored|)
    ensures Faithful(c, stored + [e], |stored|)
  {
    assert Pick(stored + [e], c.got) == Pick(stored, c.got);
  }

  lemma ReceiveKeeps(s: State, ch: nat)
    requires Inv(s)
    ensures Inv(Next(s, Receive(ch)))
  {
    var r := Next(s, Receive(ch));
    if r != s {
      var c := s.chans[ch];
      assert c.queue == [c.queue[0]] + c.queue[1..];
      assert c.received + c.queue == c.received + [c.queue[0]] + c.queue[1..];
      assert Faithful(r.chans[ch], r.stored, Announceable(r));
      AnnouncedListed(s, r);
    }
  }

  lemma CancelKeeps(s: State)
    requires Inv(s)
    ensures Inv(Next(s, Cancel))
  {
    hide Faithful;
    AnnouncedListed(s, Next(s, Cancel));
  }

  lemma {:induction false} RunKeeps(capacity: nat, steps: seq<Step>)
    ensures Inv(Run(capacity, steps))
  {
    if steps != [] {
      var s := Run(capacity, steps[..|steps| - 1]);
      RunKeeps(capacity, steps[..|steps| - 1]);
      match steps[|steps| - 1]
      case Publish(e, handoff) => PublishKeeps(s, e, handoff);
      case Subscribe(key) => SubscribeKeeps(s, key);
      case Unsubscribe(key, ch) => UnsubscribeKeeps(s, key, ch);
      case Dequeue => DequeueKeeps(s);
      case Store => StoreKeeps(s);
      case Notify => if s.phase.Notifying? { NotifyKeeps(s); }
      case Cancel => CancelKeeps(s);
      case Receive(ch) => ReceiveKeeps(s, ch);
    }
  }

  // ---------- What every interleaving guarantees ----------

  /**
   No closed channel is ever sent to or closed again. Nothing accepted is lost or reordered on its
   way to the store. What a subscriber has received and has waiting is a subsequence of the stored
   events, in order, all of them matching its key.
   */
  lemma StreamSafety(capacity: nat, steps: seq<Step>)
    ensures var s := Run(capacity, steps);
      && !s.panicked
      && s.accepted == s.stored + (if s.phase.Holding? then [s.phase.event] else []) + s.buffer
      && |s.buffer| <= capacity
      && forall c :: 0 <= c < |s.chans| ==>
           && Rising(s.chans[c].got, s.stored, |s.stored|)
           && s.chans[c].received + s.chans[c].queue == Pick(s.stored, s.chans[c].got)
           && forall i :: 0 <= i < |s.chans[c].got| ==> Matches(s.chans[c].key, s.stored[s.chans[c].got[i]])
  {
    RunKeeps(capacity, steps);
    CapacityFixed(capacity, steps);
    var s := Run(capacity, steps);
    forall c | 0 <= c < |s.chans| ensures Faithful(s.chans[c], s.stored, |s.stored|) {
      WeakenFaithful(s.chans[c], s.stored, Announceable(s), |s.stored|);
    }
  }

  lemma {:induction false} CapacityFixed(capacity: nat, steps: seq<Step>)
    ensures Run(capacity, steps).capacity == capacity
  {
    if steps != [] {
      CapacityFixed(capacity, steps[..|steps| - 1]);
      StepKeepsCapacity(Run(capacity, steps[..|steps| - 1]), steps[|steps| - 1]);
    }
  }

  lemma StepKeepsCapacity(s: State, step: Step)
    ensures Next(s, step).capacity == s.capacity
  {
  }

  /** No event comes twice to a subscriber, unless it is about the entity "*". */
  lemma NoEventTwice(capacity: nat, steps: seq<Step>, c: nat, i: nat, j: nat)
    requires var s := Run(capacity, steps);
      c < |s.chans| && i < j < |s.chans[c].got| && s.chans[c].got[i] == s.chans[c].got[j]
    ensures var s := Run(capacity, steps);
      s.chans[c].got[i] < |s.stored| && s.stored[s.chans[c].got[i]].entityID == WILDCARD && s.chans[c].key == WILDCARD
  {
    StreamSafety(capacity, steps);
    var s := Run(capacity, steps);
    assert Rising(s.chans[c].got, s.stored, |s.stored|);
    assert Matches(s.chans[c].key, s.stored[s.chans[c].got[i]]);
  }

  function TwiceSteps(e: Event): seq<Step> {
    [Subscribe(WILDCARD), Publish(e, false), Dequeue, Store, Notify]
  }

  /** An event about the entity "*" comes twice to a subscriber of everything. */
  lemma WildcardTwice(e: Event)
    requires e.entityID == WILDCARD
    ensures Run(1, TwiceSteps(e)).chans == [Chan(WILDCARD, [e, e], false, [0, 0], [])]
  {
    var steps := TwiceSteps(e);
    var s := UpToStore(e);
    AnnouncedTwice(s, Chan(WILDCARD, [], false, [], []), e);
    RunStep(1, steps, 5, s, Next(s, Notify));
    assert steps[..5] == steps;
  }

  lemma UpToStore(e: Event) returns (s: State)
    requires e.entityID == WILDCARD
    ensures s == Run(1, TwiceSteps(e)[..4])
    ensures s == State(1, [], map[WILDCARD := [0]], [Chan(WILDCARD, [], false, [], [])], [e], Notifying(e), [e], false)
  {
    var steps, start := TwiceSteps(e), Start(1);
    var s1 := State(1, [], map[WILDCARD := [0]], [Chan(WILDCARD, [], false, [], [])], [], Idle, [], false);
    var s2 := s1.(buffer := [e], accepted := [e]);
    var s3 := s2.(buffer := [], phase := Holding(e));
    s := s3.(stored := [e], phase := Notifying(e));
    assert Subs(start, WILDCARD) + [0] == [0] && start.subscribers[WILDCARD := [0]] == s1.subscribers;
    assert Next(start, steps[0]) == s1;
    assert Next(s1, steps[1]) == s2;
    assert Next(s2, steps[2]) == s3;
    assert Next(s3, steps[3]) == s;
    RunStep(1, steps, 1, start, s1);
    RunStep(1, steps, 2, s1, s2);
    RunStep(1, steps, 3, s2, s3);
    RunStep(1, steps, 4, s3, s);
  }

  lemma AnnouncedTwice(s: State, c: Chan, e: Event)
    requires c == Chan(WILDCARD, [], false, [], []) && e.entityID == WILDCARD
    requires s.stored == [e] && s.phase == Notifying(e) && s.chans == [c] && s.subscribers == map[WILDCARD := [0]]
    ensures Next(s, Notify).chans == [c.(queue := [e, e], got := [0, 0])]
  {
    var c1 := c.(queue := [e], got := [0]);
    var c2 := c.(queue := [e, e], got := [0, 0]);
    OneReceiver(s, 0);
    OneReceiver(s.(chans := [c1]), 0);
    assert SentTo(s, 0, 0) == s.(chans := [c1]) by {
      assert c.queue + [e] == [e] && c.got + [0] == [0];
      assert [c][0 := c1] == [c1];
    }
    assert SentTo(s.(chans := [c1]), 0, 0) == s.(chans := [c2]) by {
      assert [e] + [e] == [e, e] && [0] + [0] == [0, 0];
      assert [c1][0 := c2] == [c2];
    }
    assert Subs(s, WILDCARD) == [0];
    assert Announced(s, 0) == s.(chans := [c2]);
  }

  lemma OneReceiver(s: State, n: nat)
    requires n < |s.stored|
    ensures SentToAll(s, [0], n) == SentTo(s, 0, n)
  {
    assert [0][..0] == [];
    assert SentToAll(s, [], n) == s;
  }

  lemma RunStep(capacity: nat, steps: seq<Step>, n: nat, s: State, r: State)
    requires 1 <= n <= |steps| && Run(capacity, steps[..n - 1]) == s && r == Next(s, steps[n - 1])
    ensures Run(capacity, steps[..n]) == r
  {
    assert steps[..n][..n - 1] == steps[..n - 1];
  }
}
