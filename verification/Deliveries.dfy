/**
 What subscribers get (layer3/event_stream.go:129-153): every announcement reaches every channel
 listed for the entity of the event or for everything, as long as the channel has room.
 */
module Deliveries {
  import opened Common
  import opened EventStreams

  function Copies<T>(x: T, k: nat): seq<T> {
    seq(k, _ => x)
  }

  lemma OneMoreCopy<T>(x: T, k: nat)
    ensures Copies(x, k) + [x] == Copies(x, k + 1)
  {
  }

  lemma CopiesAdd<T>(x: T, j: nat, k: nat)
    ensures Copies(x, j) + Copies(x, k) == Copies(x, j + k)
  {
  }

  function Listings(ids: seq<nat>, c: nat): nat {
    multiset(ids)[c]
  }

  /** How often a channel is listed for the event: for its entity and for everything. */
  function Due(s: State, e: Event, c: nat): nat {
    Listings(Subs(s, e.entityID), c) + Listings(Subs(s, WILDCARD), c)
  }

  /** `d` is channel `before` with as many of `k` copies of stored event `n` at the end as there is room for. */
  ghost predicate Gets(before: Chan, d: Chan, stored: seq<Event>, n: nat, k: nat)
    requires n < |stored| && |before.queue| <= CHANNEL_CAPACITY
  {
    var m := Min(k, CHANNEL_CAPACITY - |before.queue|);
    d == before.(queue := before.queue + Copies(stored[n], m), got := before.got + Copies(n, m))
  }

  lemma OneSent(before: Chan, q: State, id: nat, n: nat, c: nat, k: nat)
    requires n < |q.stored| && c < |q.chans| && id < |q.chans| && !q.chans[id].closed
    requires |before.queue| <= CHANNEL_CAPACITY && Gets(before, q.chans[c], q.stored, n, k)
    ensures Gets(before, SentTo(q, id, n).chans[c], q.stored, n, k + if id == c then 1 else 0)
  {
    var m := Min(k, CHANNEL_CAPACITY - |before.queue|);
    OneMoreCopy(q.stored[n], m);
    OneMoreCopy(n, m);
    assert before.queue + Copies(q.stored[n], m) + [q.stored[n]] == before.queue + Copies(q.stored[n], m + 1);
    assert before.got + Copies(n, m) + [n] == before.got + Copies(n, m + 1);
  }

  lemma NoneSent(before: Chan, stored: seq<Event>, n: nat)
    requires n < |stored| && |before.queue| <= CHANNEL_CAPACITY
    ensures Gets(before, before, stored, n, 0)
  {
    assert before.queue + Copies(stored[n], 0) == before.queue && before.got + Copies(n, 0) == before.got;
  }

  lemma ListingsLast(ids: seq<nat>, c: nat)
    requires ids != []
    ensures Listings(ids, c) == Listings(ids[..|ids| - 1], c) + if ids[|ids| - 1] == c then 1 else 0
  {
    assert ids == ids[..|ids| - 1] + [ids[|ids| - 1]];
  }

  lemma {:induction false} SentCounts(s: State, ids: seq<nat>, n: nat, c: nat)
    requires n < |s.stored| && c < |s.chans| && |s.chans[c].queue| <= CHANNEL_CAPACITY
    requires forall i :: 0 <= i < |ids| ==> ids[i] < |s.chans| && !s.chans[ids[i]].closed
    ensures Gets(s.chans[c], SentToAll(s, ids, n).chans[c], s.stored, n, Listings(ids, c))
  {
    hide Gets, Listings, SentTo;
    if ids == [] {
      NoneSent(s.chans[c], s.stored, n);
      NoListings(c);
    } else {
      var l := |ids| - 1;
      SentCounts(s, ids[..l], n, c);
      SentKeepsOpen(s, ids[..l], n);
      ListingsLast(ids, c);
      OneSent(s.chans[c], SentToAll(s, ids[..l], n), ids[l], n, c, Listings(ids[..l], c));
    }
  }

  lemma NoListings(c: nat)
    ensures Listings([], c) == 0
  {
  }

  lemma {:induction false} SentKeepsOpen(s: State, ids: seq<nat>, n: nat)
    requires n < |s.stored|
    ensures forall c :: 0 <= c < |s.chans| ==> SentToAll(s, ids, n).chans[c].closed == s.chans[c].closed
  {
    if ids != [] {
      SentKeepsOpen(s, ids[..|ids| - 1], n);
    }
  }

  lemma GetsTwice(c0: Chan, c1: Chan, c2: Chan, stored: seq<Event>, n: nat, j: nat, k: nat)
    requires n < |stored| && |c0.queue| <= CHANNEL_CAPACITY
    requires Gets(c0, c1, stored, n, j) && Gets(c1, c2, stored, n, k)
    ensures Gets(c0, c2, stored, n, j + k)
  {
    var a := Min(j, CHANNEL_CAPACITY - |c0.queue|);
    var b := Min(k, CHANNEL_CAPACITY - |c1.queue|);
    CopiesAdd(stored[n], a, b);
    CopiesAdd(n, a, b);
    assert c0.queue + Copies(stored[n], a) + Copies(stored[n], b) == c0.queue + Copies(stored[n], a + b);
    assert c0.got + Copies(n, a) + Copies(n, b) == c0.got + Copies(n, a + b);
  }

  /** Every channel gets the event just stored once for each of its listings, while it has room, and nothing else. */
  ghost predicate Delivered(s: State, r: State)
    requires Inv(s) && s.phase.Notifying?
  {
    && r == s.(phase := Idle, chans := r.chans) && |r.chans| == |s.chans|
    && forall c :: 0 <= c < |s.chans| ==> Gets(s.chans[c], r.chans[c], s.stored, |s.stored| - 1, Due(s, s.phase.event, c))
  }

  lemma NotifyDelivers(s: State)
    requires Inv(s) && s.phase.Notifying?
    ensures Delivered(s, Next(s, Notify))
  {
    NotifyShape(s);
    hide Inv, Next, Gets, Due;
    forall c | 0 <= c < |s.chans|
      ensures Gets(s.chans[c], Next(s, Notify).chans[c], s.stored, |s.stored| - 1, Due(s, s.phase.event, c))
    {
      ChannelDelivered(s, c);
    }
  }

  lemma ChannelDelivered(s: State, c: nat)
    requires Inv(s) && s.phase.Notifying? && c < |s.chans|
    ensures Gets(s.chans[c], Next(s, Notify).chans[c], s.stored, |s.stored| - 1, Due(s, s.phase.event, c))
  {
    hide Inv, Next, Gets, Subs, Listings;
    Fits(s);
    var n, a, b := |s.stored| - 1, Subs(s, s.phase.event.entityID), Subs(s, WILDCARD);
    NotifyShape(s);
    var q := SentToAll(s, a, n);
    SentCounts(s, a, n, c);
    SentKeepsOpen(s, a, n);
    QueueBound(s.chans[c], q.chans[c], s.stored, n, Listings(a, c));
    SentCounts(q, b, n, c);
    GetsTwice(s.chans[c], q.chans[c], SentToAll(q, b, n).chans[c], s.stored, n, Listings(a, c), Listings(b, c));
  }

  /** The lists name open channels, and no queue is over its capacity. */
  lemma Fits(s: State)
    requires Inv(s)
    ensures forall key, i :: 0 <= i < |Subs(s, key)| ==> Subs(s, key)[i] < |s.chans| && !s.chans[Subs(s, key)[i]].closed
    ensures forall c :: 0 <= c < |s.chans| ==> |s.chans[c].queue| <= CHANNEL_CAPACITY
    ensures s.phase.Notifying? ==> s.stored != [] && s.stored[|s.stored| - 1] == s.phase.event
  {
  }

  lemma NotifyShape(s: State)
    requires Inv(s) && s.phase.Notifying?
    ensures var n, key := |s.stored| - 1, s.phase.event.entityID;
      var q := SentToAll(SentToAll(s, Subs(s, key), n), Subs(s, WILDCARD), n);
      Next(s, Notify) == q.(phase := Idle) && Next(s, Notify) == s.(phase := Idle, chans := q.chans) && |q.chans| == |s.chans|
  {
    hide Faithful, Listed;
    ChannelsNotified(s, |s.stored| - 1);
  }

  lemma QueueBound(before: Chan, d: Chan, stored: seq<Event>, n: nat, k: nat)
    requires n < |stored| && |before.queue| <= CHANNEL_CAPACITY && Gets(before, d, stored, n, k)
    ensures |d.queue| <= CHANNEL_CAPACITY
  {
  }

  /** The oldest buffered event is the next to be stored and announced. */
  lemma ProcessedNext(s: State)
    requires Inv(s) && s.phase == Idle && s.buffer != []
    ensures var held := Next(s, Dequeue);
      var kept := Next(held, Store);
      && Inv(kept) && kept.phase == Notifying(s.buffer[0]) && kept.chans == s.chans && kept.subscribers == s.subscribers
      && Next(kept, Notify).stored == s.stored + [s.buffer[0]]
      && Next(kept, Notify).buffer == s.buffer[1..] && Next(kept, Notify).phase == Idle
  {
    DequeueKeeps(s);
    StoreKeeps(Next(s, Dequeue));
    NotifyShape(Next(Next(s, Dequeue), Store));
  }

  /** Unsubscribing closes a listed channel, and it is listed no more. */
  lemma UnsubscribeEnds(s: State, key: string, ch: nat)
    requires Inv(s)
    ensures var r := Next(s, Unsubscribe(key, ch));
      if ch in Subs(s, key) then key in r.subscribers && ch !in Subs(r, key) && ch < |r.chans| && r.chans[ch].closed
      else r == s
  {
    var k := Find(Subs(s, key), ch);
    if k < |Subs(s, key)| {
      DelistedListed(s, key, k);
      assert Subs(s, key)[k] == ch;
    }
  }

  // ---------- Runs ----------

  /** The channel is there, listed for the event to be announced, and has room. */
  ghost predicate Served(s: State, c: nat) {
    c < |s.chans| && s.phase.Notifying? && Due(s, s.phase.event, c) > 0 && |s.chans[c].queue| < CHANNEL_CAPACITY
  }

  /** The step announces stored event `n`, and the channel is served. */
  ghost predicate Serves(s: State, step: Step, c: nat, n: nat) {
    step == Notify && Served(s, c) && |s.stored| == n + 1
  }

  lemma StepGets(s: State, step: Step, c: nat, n: nat)
    requires Inv(s) && c < |Next(s, step).chans|
    ensures n in Next(s, step).chans[c].got <==>
      (c < |s.chans| && n in s.chans[c].got) || Serves(s, step, c, n)
  {
    if step == Notify && s.phase.Notifying? {
      NotifyDelivers(s);
      hide Inv, Next, Due;
      CopyListed(s.chans[c].got, |s.stored| - 1, Min(Due(s, s.phase.event, c), CHANNEL_CAPACITY - |s.chans[c].queue|), n);
    } else {
      OtherSteps(s, step, c);
    }
  }

  lemma CopyListed(got: seq<nat>, x: nat, k: nat, n: nat)
    ensures n in got + Copies(x, k) <==> n in got || (k > 0 && n == x)
  {
    if k > 0 { assert Copies(x, k)[0] == x; }
  }

  lemma OtherSteps(s: State, step: Step, c: nat)
    requires Inv(s) && c < |Next(s, step).chans| && !(step == Notify && s.phase.Notifying?)
    ensures Next(s, step).chans[c].got == if c < |s.chans| then s.chans[c].got else []
  {
    hide Inv, Find;
  }

  ghost predicate ServedAt(capacity: nat, steps: seq<Step>, k: int, c: nat, n: nat) {
    0 <= k < |steps| && Serves(Run(capacity, steps[..k]), steps[k], c, n)
  }

  /**
   Over every run: a channel was sent a stored event if and only if, when the event was announced,
   the channel was listed for its entity or for everything and had room.
   */
  lemma {:induction false} GotIffServed(capacity: nat, steps: seq<Step>, c: nat, n: nat)
    requires c < |Run(capacity, steps).chans|
    ensures n in Run(capacity, steps).chans[c].got <==> exists k :: ServedAt(capacity, steps, k, c, n)
  {
    hide Next, Serves;
    if steps != [] {
      var l := |steps| - 1;
      var s := Run(capacity, steps[..l]);
      RunKeeps(capacity, steps[..l]);
      StepGets(s, steps[l], c, n);
      ServedSplit(capacity, steps, c, n);
      if c < |s.chans| {
        GotIffServed(capacity, steps[..l], c, n);
      } else {
        LaterChannel(capacity, steps[..l], c, n);
      }
    }
  }

  lemma ServedSplit(capacity: nat, steps: seq<Step>, c: nat, n: nat)
    requires steps != []
    ensures var l := |steps| - 1;
      (exists k :: ServedAt(capacity, steps, k, c, n)) <==>
        (exists k :: ServedAt(capacity, steps[..l], k, c, n)) || Serves(Run(capacity, steps[..l]), steps[l], c, n)
  {
    hide Next, Serves;
    var l := |steps| - 1;
    forall k | 0 <= k < l ensures ServedAt(capacity, steps[..l], k, c, n) <==> ServedAt(capacity, steps, k, c, n) {
      assert steps[..l][..k] == steps[..k];
    }
    assert ServedAt(capacity, steps, l, c, n) <==> Serves(Run(capacity, steps[..l]), steps[l], c, n);
    if k :| ServedAt(capacity, steps[..l], k, c, n) {
      assert ServedAt(capacity, steps, k, c, n);
    }
    if k :| ServedAt(capacity, steps, k, c, n) {
      assert k < l ==> ServedAt(capacity, steps[..l], k, c, n);
    }
  }

  /** A channel that is not there yet was not there before. */
  lemma {:induction false} LaterChannel(capacity: nat, steps: seq<Step>, c: nat, n: nat)
    requires c >= |Run(capacity, steps).chans|
    ensures forall k :: !ServedAt(capacity, steps, k, c, n)
  {
    hide Next, Serves;
    if steps != [] {
      var l := |steps| - 1;
      ChannelsStay(Run(capacity, steps[..l]), steps[l]);
      LaterChannel(capacity, steps[..l], c, n);
      ServedSplit(capacity, steps, c, n);
      NotThere(Run(capacity, steps[..l]), steps[l], c, n);
    }
  }

  lemma NotThere(s: State, step: Step, c: nat, n: nat)
    requires c >= |s.chans|
    ensures !Serves(s, step, c, n)
  {
  }

  lemma ChannelsStay(s: State, step: Step)
    ensures |s.chans| <= |Next(s, step).chans|
  {
    hide Find;
  }
}
