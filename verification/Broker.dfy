/** The in-process event fan-out: buffered channels per subscriber, non-blocking sends, a
    read-write lock that lets publishes overlap each other but nothing else. */
module Broker {
  import opened Domain

  /** A subscriber's channel with its history: what was offered to it, what was dropped because the
      queue was full, what the reader took. */
  datatype Chan<E> = Chan(queue: seq<E>, open: bool, offered: seq<E>, received: seq<E>, dropped: nat)

  /** A publish under way: the event and the subscribers the loop has not reached yet. */
  datatype InFlight<E> = InFlight(event: E, remaining: set<int>)

  /** `released` are the subscriptions whose unsubscribe function has run once. */
  datatype State<E> = State(
    bufSize: nat, closed: bool, next: int, subscribed: set<int>, chans: map<int, Chan<E>>,
    released: set<int>, publishing: map<int, InFlight<E>>)

  function Initial<E>(bufSize: nat): State<E> { State(bufSize, false, 0, {}, map[], {}, map[]) }

  /** A non-blocking send on an open channel: kept if there is room, else dropped. */
  function Offer<E>(c: Chan<E>, bufSize: nat, e: E): Chan<E> {
    if |c.queue| < bufSize then c.(queue := c.queue + [e], offered := c.offered + [e])
    else c.(dropped := c.dropped + 1, offered := c.offered + [e])
  }

  datatype Action<E> =
    | BeginPublish(publisher: int, event: E)   // takes the read lock
    | Send(publisher: int, id: int)            // one round of the loop
    | EndPublish(publisher: int)
    | Receive(id: int)
    | Subscribe
    | Unsubscribe(id: int)
    | Shutdown

  /** No publish holds the read lock, so the write lock can be taken. */
  predicate Unlocked<E>(s: State<E>) { s.publishing == map[] }

  predicate Enabled<E>(s: State<E>, a: Action<E>) {
    match a
    case BeginPublish(p, _) => p !in s.publishing
    case Send(p, id) => p in s.publishing && id in s.publishing[p].remaining && id in s.chans
    case EndPublish(p) => p in s.publishing && s.publishing[p].remaining == {}
    case Receive(id) => id in s.chans && s.chans[id].queue != []
    case Subscribe => Unlocked(s)
    case Unsubscribe(id) => Unlocked(s) && id in s.chans
    case Shutdown => Unlocked(s)
  }

  /** The action stops the calling goroutine: a send on a closed channel, or closing one twice. */
  predicate Panics<E>(s: State<E>, a: Action<E>) {
    && Enabled(s, a)
    && match a
       case Send(_, id) => !s.chans[id].open
       case Unsubscribe(id) => id !in s.released && !s.chans[id].open
       case Shutdown => !s.closed && exists id :: id in s.subscribed && id in s.chans && !s.chans[id].open
       case _ => false
  }

  function CloseAll<E>(chans: map<int, Chan<E>>, ids: set<int>): map<int, Chan<E>> {
    map id | id in chans :: if id in ids then chans[id].(open := false) else chans[id]
  }

  function OfferAll<E>(chans: map<int, Chan<E>>, ids: set<int>, bufSize: nat, e: E): map<int, Chan<E>> {
    map id | id in chans :: if id in ids then Offer(chans[id], bufSize, e) else chans[id]
  }

  function NewChan<E>(): Chan<E> { Chan([], true, [], [], 0) }

  function Step<E>(s: State<E>, a: Action<E>): State<E> {
    if !Enabled(s, a) then s
    else match a
      case BeginPublish(p, e) => if s.closed then s else s.(publishing := s.publishing[p := InFlight(e, s.subscribed)])
      case Send(p, id) =>
        var f := s.publishing[p];
        s.(publishing := s.publishing[p := f.(remaining := f.remaining - {id})],
           chans := s.chans[id := Offer(s.chans[id], s.bufSize, f.event)])
      case EndPublish(p) => s.(publishing := s.publishing - {p})
      case Receive(id) =>
        var c := s.chans[id];
        s.(chans := s.chans[id := c.(queue := c.queue[1..], received := c.received + [c.queue[0]])])
      case Subscribe =>
        if s.closed then s
        else s.(next := s.next + 1, subscribed := s.subscribed + {s.next}, chans := s.chans[s.next := NewChan()])
      case Unsubscribe(id) =>
        if id in s.released then s
        else s.(released := s.released + {id}, subscribed := s.subscribed - {id}, chans := CloseAll(s.chans, {id}))
      case Shutdown =>
        if s.closed then s
        else s.(closed := true, subscribed := {}, chans := CloseAll(s.chans, s.subscribed))
  }

  function Run<E>(s: State<E>, acts: seq<Action<E>>): State<E> {
    if acts == [] then s else Step(Run(s, acts[..|acts| - 1]), acts[|acts| - 1])
  }

  // ---------- the invariant ----------

  /** `a` is `b` with some elements left out. */
  ghost predicate Subsequence<E>(a: seq<E>, b: seq<E>) {
    a == [] ||
    (b != [] && ((a[|a| - 1] == b[|b| - 1] && Subsequence(a[..|a| - 1], b[..|b| - 1])) || Subsequence(a, b[..|b| - 1])))
  }

  lemma SubsequenceGrows<E>(a: seq<E>, b: seq<E>, x: E)
    requires Subsequence(a, b)
    ensures Subsequence(a, b + [x]) && Subsequence(a + [x], b + [x])
  {
    assert (a + [x])[..|a|] == a && (b + [x])[..|b|] == b;
  }

  lemma {:induction false} SubsequenceLength<E>(a: seq<E>, b: seq<E>)
    requires Subsequence(a, b)
    ensures |a| <= |b|
    ensures |a| == |b| ==> a == b
    decreases |b|
  {
    if a != [] {
      var x, y := a[..|a| - 1], b[..|b| - 1];
      if a[|a| - 1] == b[|b| - 1] && Subsequence(x, y) {
        SubsequenceLength(x, y);
        assert a == x + [a[|a| - 1]] && b == y + [b[|b| - 1]];
      } else {
        SubsequenceLength(a, y);
      }
    }
  }

  /** Nothing is lost unaccounted for and nothing is reordered. */
  ghost predicate ChanInv<E>(c: Chan<E>, bufSize: nat) {
    && |c.queue| <= bufSize
    && |c.received| + |c.queue| + c.dropped == |c.offered|
    && Subsequence(c.received + c.queue, c.offered)
  }

  ghost predicate Inv<E>(s: State<E>) {
    && s.subscribed <= s.chans.Keys
    && (forall id :: id in s.chans ==> id < s.next && ChanInv(s.chans[id], s.bufSize))
    && (forall id :: id in s.chans ==> (s.chans[id].open <==> id in s.subscribed))
    && (forall id :: id in s.chans ==> (id in s.subscribed <==> id !in s.released && !s.closed))
    && s.released <= s.chans.Keys
    && (forall p :: p in s.publishing ==> s.publishing[p].remaining <= s.subscribed)
    && (s.closed ==> Unlocked(s))
  }

  // ---------- the broker object ----------

  /** A publish as one step, when nothing overlaps it. */
  function PublishAtomic<E>(s: State<E>, e: E): State<E> {
    if s.closed then s else s.(chans := OfferAll(s.chans, s.subscribed, s.bufSize, e))
  }

  /** Some element of a set, as a Go map iteration starts with some key. */
  method PickMember<T>(s: set<T>) returns (x: T)
    requires s != {}
    ensures x in s
  {
    x :| x in s;
  }

  class EventBroker<E> {
    const bufSize: nat
    var closed: bool
    var next: int
    var subscribers: set<int>
    var chans: map<int, Chan<E>>
    var released: set<int>

    function View(): State<E>
      reads this
    {
      State(bufSize, closed, next, subscribers, chans, released, map[])
    }

    constructor (bufferSize: nat)
      ensures View() == Initial(bufferSize)
    {
      bufSize := bufferSize;
      closed, next, subscribers, chans, released := false, 0, {}, map[], {};
    }

    /** The fan-out loop visits the subscribers in any order. */
    method Publish(event: E) returns (ok: bool)
      requires Inv(View())
      modifies this
      ensures ok <==> !old(closed)
      ensures View() == PublishAtomic(old(View()), event)
    {
      if closed { return false; }
      var todo := subscribers;
      while todo != {}
        invariant todo <= subscribers
        invariant View() == old(View()).(chans := OfferAll(old(chans), subscribers - todo, bufSize, event))
        decreases todo
      {
        var id := PickMember(todo);
        assert id in View().subscribed && id in chans;
        ghost var before := chans;
        chans := chans[id := Offer(chans[id], bufSize, event)];
        todo := todo - {id};
        assert chans == OfferAll(old(chans), subscribers - todo, bufSize, event);
      }
      assert subscribers - {} == subscribers;
      ok := true;
    }

    method SubscribeNext() returns (id: Option<int>)
      modifies this
      ensures View() == Step(old(View()), Subscribe)
      ensures id == if old(closed) then None else Some(old(next))
    {
      if closed { return None; }
      chans := chans[next := NewChan()];
      subscribers := subscribers + {next};
      next := next + 1;
      id := Some(next - 1);
    }

    /** The unsubscribe function of one subscription; `Err(Panic)` is the close of a closed channel. */
    method UnsubscribeOnce(id: int) returns (r: Result<()>)
      requires id in chans
      modifies this
      ensures View() == Step(old(View()), Unsubscribe(id))
      ensures r == if Panics(old(View()), Unsubscribe(id)) then Err(Panic) else Ok(())
    {
      if id in released { return Ok(()); }
      released := released + {id};
      subscribers := subscribers - {id};
      r := if chans[id].open then Ok(()) else Err(Panic);
      chans := CloseAll(chans, {id});
    }

    method ShutdownAll()
      requires Inv(View())
      modifies this
      ensures View() == Step(old(View()), Shutdown)
    {
      if closed { return; }
      closed := true;
      var todo := subscribers;
      while todo != {}
        invariant todo == subscribers <= old(subscribers)
        invariant View() == old(View()).(closed := true, subscribed := todo,
                    chans := CloseAll(old(chans), old(subscribers) - todo))
        decreases todo
      {
        var id := PickMember(todo);
        assert id in old(View()).subscribed && id in chans;
        chans := chans[id := chans[id].(open := false)];
        subscribers := subscribers - {id};
        todo := todo - {id};
        assert chans == CloseAll(old(chans), old(subscribers) - todo);
      }
      assert old(subscribers) - {} == old(subscribers);
    }
  }

  // ---------- what every run keeps ----------

  lemma OfferKeeps<E>(c: Chan<E>, bufSize: nat, e: E)
    requires ChanInv(c, bufSize)
    ensures ChanInv(Offer(c, bufSize, e), bufSize)
  {
    var got := c.received + c.queue;
    SubsequenceGrows(got, c.offered, e);
    if |c.queue| < bufSize { assert c.received + (c.queue + [e]) == got + [e]; }
  }

  lemma ReceiveKeeps<E>(c: Chan<E>, bufSize: nat)
    requires ChanInv(c, bufSize) && c.queue != []
    ensures ChanInv(c.(queue := c.queue[1..], received := c.received + [c.queue[0]]), bufSize)
  {
    assert (c.received + [c.queue[0]]) + c.queue[1..] == c.received + c.queue;
  }

  lemma SendKeepsInv<E>(s: State<E>, p: int, id: int)
    requires Inv(s) && Enabled(s, Send(p, id))
    ensures Inv(Step(s, Send(p, id)))
  {
    OfferKeeps(s.chans[id], s.bufSize, s.publishing[p].event);
  }

  lemma ReceiveKeepsInv<E>(s: State<E>, id: int)
    requires Inv(s) && Enabled(s, Receive(id))
    ensures Inv(Step(s, Receive(id)))
  {
    ReceiveKeeps(s.chans[id], s.bufSize);
  }

  lemma InvStep<E>(s: State<E>, a: Action<E>)
    requires Inv(s)
    ensures Inv(Step(s, a))
  {
    if Enabled(s, a) {
      match a
      case Send(p, id) => SendKeepsInv(s, p, id);
      case Receive(id) => ReceiveKeepsInv(s, id);
      case _ =>
    }
  }

  /** Over any interleaving of sends, receives, subscriptions, unsubscriptions and shutdown: a mapped
      subscriber's channel is open, a publish only has mapped subscribers left to reach, and every
      channel's books balance with order kept. */
  lemma {:induction false} RunKeepsInv<E>(bufSize: nat, acts: seq<Action<E>>)
    ensures Inv(Run(Initial(bufSize), acts)) && Run(Initial(bufSize), acts).bufSize == bufSize
  {
    if acts != [] {
      RunKeepsInv(bufSize, acts[..|acts| - 1]);
      InvStep(Run(Initial(bufSize), acts[..|acts| - 1]), acts[|acts| - 1]);
    }
  }

  /** No send ever hits a closed channel. The one action that panics in a reachable state is the first
      call of an unsubscribe function after a shutdown, and it always does. */
  lemma PanicsExactly<E>(bufSize: nat, acts: seq<Action<E>>, a: Action<E>)
    ensures var s := Run(Initial(bufSize), acts);
            Panics(s, a) <==> a.Unsubscribe? && s.closed && a.id in s.chans && a.id !in s.released
  {
    RunKeepsInv(bufSize, acts);
  }

  /** The stream handler meets that case: it subscribes, is woken by the shutdown closing its channel,
      and its deferred unsubscribe then closes the channel again. */
  lemma HandlerPanicsOnShutdown<E>(bufSize: nat)
    ensures Panics(Run(Initial<E>(bufSize), [Subscribe, Shutdown]), Unsubscribe(0))
  {
    var acts: seq<Action<E>> := [Subscribe, Shutdown];
    assert acts[..1] == [Subscribe] && acts[..1][..0] == [];
    assert Run(Initial<E>(bufSize), acts[..1]) == Step(Initial<E>(bufSize), Subscribe);
    assert Run(Initial<E>(bufSize), acts) == Step(Run(Initial<E>(bufSize), acts[..1]), Shutdown);
  }

  // ---------- overlapping publishes ----------

  /** The sends of one publish, in the order the map iteration happens to take. */
  function Sends<E>(p: int, order: seq<int>): seq<Action<E>> {
    seq(|order|, i requires 0 <= i < |order| => Send(p, order[i]))
  }

  function Elements(order: seq<int>): set<int> { set id | id in order }

  /** A publish under way that has reached the subscribers `ids`. */
  function Reached<E>(s: State<E>, p: int, e: E, ids: set<int>): State<E> {
    s.(publishing := s.publishing[p := InFlight(e, s.subscribed - ids)], chans := OfferAll(s.chans, ids, s.bufSize, e))
  }

  lemma SendReaches<E>(s: State<E>, p: int, e: E, ids: set<int>, id: int)
    requires Inv(s) && id in s.subscribed && id !in ids
    ensures Step(Reached(s, p, e, ids), Send(p, id)) == Reached(s, p, e, ids + {id})
  {
    var t, u := Reached(s, p, e, ids), Reached(s, p, e, ids + {id});
    assert t.publishing[p].remaining - {id} == u.publishing[p].remaining;
    assert t.chans[id := Offer(t.chans[id], s.bufSize, e)] == u.chans;
  }

  lemma {:induction false} SendsRun<E>(s: State<E>, p: int, e: E, order: seq<int>)
    requires Inv(s) && !s.closed && p !in s.publishing
    requires (forall i, j :: 0 <= i < j < |order| ==> order[i] != order[j]) && Elements(order) <= s.subscribed
    ensures Run(Step(s, BeginPublish(p, e)), Sends(p, order)) == Reached(s, p, e, Elements(order))
  {
    if order == [] {
      assert Elements(order) == {} && Sends<E>(p, order) == [];
      assert OfferAll(s.chans, {}, s.bufSize, e) == s.chans;
      assert s.subscribed - {} == s.subscribed;
    } else {
      var init, id := order[..|order| - 1], order[|order| - 1];
      assert id in Elements(order) && id !in init;
      assert Elements(order) == Elements(init) + {id};
      assert Sends<E>(p, order)[..|order| - 1] == Sends<E>(p, init);
      SendsRun(s, p, e, init);
      SendReaches(s, p, e, Elements(init), id);
    }
  }

  /** In whatever order the loop visits the subscribers, a publish offers the event to each of them
      exactly once and to nobody else, as the one-step publish does. */
  lemma PublishAnyOrder<E>(s: State<E>, p: int, e: E, order: seq<int>)
    requires Inv(s) && !s.closed && p !in s.publishing
    requires (forall i, j :: 0 <= i < j < |order| ==> order[i] != order[j]) && Elements(order) == s.subscribed
    ensures Step(Run(Step(s, BeginPublish(p, e)), Sends(p, order)), EndPublish(p)) == PublishAtomic(s, e)
  {
    SendsRun(s, p, e, order);
    assert s.publishing[p := InFlight(e, {})] - {p} == s.publishing;
  }

  /** What happens to one channel in a publish nothing overlaps: a subscriber's channel is offered the event, and
      queues it if there is room; all other channels stay as they are. */
  lemma PublishOffers<E>(s: State<E>, e: E, id: int)
    requires Inv(s) && !s.closed && id in s.chans
    ensures id in PublishAtomic(s, e).chans
    ensures var c, d := s.chans[id], PublishAtomic(s, e).chans[id];
            if id !in s.subscribed then d == c
            else
              && d.offered == c.offered + [e] && d.received == c.received && d.open == c.open
              && (|c.queue| < s.bufSize ==> d.queue == c.queue + [e] && d.dropped == c.dropped)
              && (|c.queue| >= s.bufSize ==> d.queue == c.queue && d.dropped == c.dropped + 1)
  {
  }

  /** The event an action sends to a channel, if it does; `sender` narrows it to one publisher. */
  function SentNow<E>(s: State<E>, a: Action<E>, sender: Option<int>, id: int): seq<E> {
    if a.Send? && a.id == id && Enabled(s, a) && (sender.None? || sender.value == a.publisher)
    then [s.publishing[a.publisher].event] else []
  }

  function Sent<E>(s: State<E>, acts: seq<Action<E>>, sender: Option<int>, id: int): seq<E> {
    if acts == [] then []
    else Sent(s, acts[..|acts| - 1], sender, id) +
         SentNow(Run(s, acts[..|acts| - 1]), acts[|acts| - 1], sender, id)
  }

  lemma OfferedStep<E>(s: State<E>, a: Action<E>, id: int)
    requires Inv(s) && id in s.chans
    ensures id in Step(s, a).chans && Step(s, a).chans[id].offered == s.chans[id].offered + SentNow(s, a, None, id)
  {
    if Enabled(s, a) {
      match a
      case Send(p, i) =>
      case _ =>
    }
  }

  lemma {:induction false} RunInv<E>(s: State<E>, acts: seq<Action<E>>)
    requires Inv(s)
    ensures Inv(Run(s, acts))
  {
    if acts != [] {
      RunInv(s, acts[..|acts| - 1]);
      InvStep(Run(s, acts[..|acts| - 1]), acts[|acts| - 1]);
    }
  }

  lemma Append<E>(a: seq<E>, b: seq<E>, c: seq<E>)
    ensures a + (b + c) == a + b + c
  {
  }

  /** A channel is offered what is sent to it, by whichever publishers, in the order of the sends. */
  lemma {:induction false} OfferedIsSent<E>(s: State<E>, acts: seq<Action<E>>, id: int)
    requires Inv(s) && id in s.chans
    ensures id in Run(s, acts).chans && Run(s, acts).chans[id].offered == s.chans[id].offered + Sent(s, acts, None, id)
  {
    if acts != [] {
      var init := acts[..|acts| - 1];
      RunInv(s, init);
      OfferedIsSent(s, init, id);
      OfferedStep(Run(s, init), acts[|acts| - 1], id);
      Append(s.chans[id].offered, Sent(s, init, None, id), SentNow(Run(s, init), acts[|acts| - 1], None, id));
    }
  }

  lemma InFlightStep<E>(s: State<E>, a: Action<E>, p: int, id: int)
    requires Inv(s) && p in s.publishing && a != EndPublish(p)
    ensures var t := Step(s, a);
            && p in t.publishing && t.publishing[p].event == s.publishing[p].event
            && t.publishing[p].remaining <= s.publishing[p].remaining
            && SentNow(s, a, Some(p), id) ==
               if id in s.publishing[p].remaining && id !in t.publishing[p].remaining then [s.publishing[p].event]
               else []
  {
    if Enabled(s, a) {
      match a
      case Send(q, i) =>
      case _ =>
    }
  }

  lemma {:induction false} InFlightSends<E>(s: State<E>, acts: seq<Action<E>>, p: int, id: int)
    requires Inv(s) && p in s.publishing && EndPublish(p) !in acts
    ensures var t := Run(s, acts);
            && p in t.publishing && t.publishing[p].event == s.publishing[p].event
            && t.publishing[p].remaining <= s.publishing[p].remaining
            && Sent(s, acts, Some(p), id) ==
               if id in s.publishing[p].remaining && id !in t.publishing[p].remaining then [s.publishing[p].event]
               else []
  {
    if acts != [] {
      var init, a := acts[..|acts| - 1], acts[|acts| - 1];
      assert a in acts;
      RunInv(s, init);
      InFlightSends(s, init, p, id);
      InFlightStep(Run(s, init), a, p, id);
    }
  }

  /** Every publish that comes to its end, however many others overlap it and whatever readers do meanwhile, has sent
      its event exactly once to each channel subscribed when it began, and to no other. */
  lemma PublishReachesOnce<E>(s: State<E>, p: int, e: E, acts: seq<Action<E>>, id: int)
    requires Inv(s) && !s.closed && p !in s.publishing && EndPublish(p) !in acts
    requires Enabled(Run(Step(s, BeginPublish(p, e)), acts), EndPublish(p))
    ensures Sent(Step(s, BeginPublish(p, e)), acts, Some(p), id) == if id in s.subscribed then [e] else []
  {
    InvStep(s, BeginPublish(p, e));
    InFlightSends(Step(s, BeginPublish(p, e)), acts, p, id);
  }

  // ---------- when nothing is lost ----------

  function Lag<E>(c: Chan<E>): int { |c.offered| - |c.received| }

  function LagAt<E>(bufSize: nat, acts: seq<Action<E>>, n: int, id: int): int
    requires 0 <= n <= |acts|
  {
    var s := Run(Initial(bufSize), acts[..n]);
    if id in s.chans then Lag(s.chans[id]) else 0
  }

  lemma DropStep<E>(s: State<E>, a: Action<E>, id: int)
    requires Inv(s) && id in s.chans
    ensures id in Step(s, a).chans
    ensures var c, d := s.chans[id], Step(s, a).chans[id];
            d.dropped == c.dropped || (d.dropped == c.dropped + 1 && Lag(d) == s.bufSize + 1 + c.dropped)
  {
    if Enabled(s, a) {
      match a
      case Send(p, i) =>
      case _ =>
    }
  }

  /** The subscriber's lag stayed within the buffer at every point of the run. */
  ghost predicate KeptUp<E>(bufSize: nat, acts: seq<Action<E>>, id: int) {
    forall n :: 0 <= n <= |acts| ==> LagAt(bufSize, acts, n, id) <= bufSize
  }

  lemma {:induction false} NotYet<E>(bufSize: nat, acts: seq<Action<E>>, n: int, id: int)
    requires 0 <= n <= |acts| && id !in Run(Initial(bufSize), acts).chans
    ensures LagAt(bufSize, acts, n, id) == 0
  {
    if n == |acts| {
      assert acts[..n] == acts;
    } else {
      var init := acts[..|acts| - 1];
      RunKeepsInv(bufSize, init);
      if id in Run(Initial(bufSize), init).chans { DropStep(Run(Initial(bufSize), init), acts[|acts| - 1], id); }
      NotYet(bufSize, init, n, id);
      assert init[..n] == acts[..n];
    }
  }

  lemma KeptUpStep<E>(bufSize: nat, acts: seq<Action<E>>, id: int)
    requires acts != []
    ensures KeptUp(bufSize, acts, id) <==>
              KeptUp(bufSize, acts[..|acts| - 1], id) && LagAt(bufSize, acts, |acts|, id) <= bufSize
  {
    var init := acts[..|acts| - 1];
    forall n | 0 <= n < |acts| ensures LagAt(bufSize, acts, n, id) == LagAt(bufSize, init, n, id) {
      assert init[..n] == acts[..n];
    }
  }

  lemma {:induction false} DroppedIffLagged<E>(bufSize: nat, acts: seq<Action<E>>, id: int)
    requires id in Run(Initial(bufSize), acts).chans
    ensures Run(Initial(bufSize), acts).chans[id].dropped == 0 <==> KeptUp(bufSize, acts, id)
  {
    RunKeepsInv(bufSize, acts);
    assert acts[..|acts|] == acts;
    assert LagAt(bufSize, acts, |acts|, id) == Lag(Run(Initial(bufSize), acts).chans[id]);
    if acts != [] {
      var init := acts[..|acts| - 1];
      var s := Run(Initial(bufSize), init);
      RunKeepsInv(bufSize, init);
      KeptUpStep(bufSize, acts, id);
      if id in s.chans {
        DroppedIffLagged(bufSize, init, id);
        DropStep(s, acts[|acts| - 1], id);
      } else {
        forall n | 0 <= n <= |init| ensures LagAt(bufSize, init, n, id) <= bufSize { NotYet(bufSize, init, n, id); }
      }
    }
  }

  /** Lossless delivery, exactly: a subscriber got or still has queued everything offered to it, in
      order, if and only if it never fell behind by more than the buffer size. */
  lemma {:induction false} LosslessExactly<E>(bufSize: nat, acts: seq<Action<E>>, id: int)
    requires id in Run(Initial(bufSize), acts).chans
    ensures var c := Run(Initial(bufSize), acts).chans[id];
            && (c.received + c.queue == c.offered <==> c.dropped == 0)
            && (c.dropped == 0 <==> KeptUp(bufSize, acts, id))
  {
    RunKeepsInv(bufSize, acts);
    var c := Run(Initial(bufSize), acts).chans[id];
    if c.dropped == 0 { SubsequenceLength(c.received + c.queue, c.offered); }
    DroppedIffLagged(bufSize, acts, id);
  }
}
