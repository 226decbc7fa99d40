/** The JavaScript cached client: it opens the event stream first, buffers changes, hydrates over
    HTTP, then drains the buffer on top of the snapshot. */
module CachedClient {
  import opened Domain
  import opened ToggleLog

  /** A change the stream reports. */
  type FlagEvent = Toggle<string>

  datatype CachedFlag = CachedFlag(
    key: string, enabled: bool, value: Option<string>, variant: string, reason: string, evaluatedAt: string)

  /** One flag of the bulk-evaluate response. */
  datatype FlagRow = FlagRow(key: string, enabled: bool, value: Option<string>, valueKey: string, reason: string)

  datatype Response = Response(flags: seq<FlagRow>, evaluatedAt: string)

  datatype Ready = Pending | Resolved | Rejected(code: string)

  /** A call of subscriber `callback`, registered for `key`. */
  datatype Note = Note(key: string, callback: int, enabled: bool)

  type Cache = map<string, CachedFlag>

  /** Where the hydration request stands. */
  datatype Phase =
    | Requested              // sent, no answer yet
    | Reading                // the status was good and the body is being read
    | Loading(code: string)  // it failed with this error and the store is asked for a fallback
    | Done

  datatype State = State(
    cache: Cache, buffer: seq<FlagEvent>, hydrated: bool, closed: bool, phase: Phase, ready: Ready,
    subscribers: map<string, seq<int>>, notified: seq<Note>)

  const INITIAL := State(map[], [], false, false, Requested, Pending, map[], [])

  // ---------- what each callback does, as a function of the state ----------

  function Entry(row: FlagRow, evaluatedAt: string): CachedFlag {
    var value := if row.value.Some? then row.value.value else "";
    var variant := if row.valueKey != "" then row.valueKey else value;
    CachedFlag(row.key, row.enabled, row.value, variant, row.reason, evaluatedAt)
  }

  function Populated(resp: Response, n: int): Cache
    requires 0 <= n <= |resp.flags|
  {
    if n == 0 then map[]
    else Populated(resp, n - 1)[resp.flags[n - 1].key := Entry(resp.flags[n - 1], resp.evaluatedAt)]
  }

  function Restored(entries: seq<CachedFlag>, n: int): Cache
    requires 0 <= n <= |entries|
  {
    if n == 0 then map[] else Restored(entries, n - 1)[entries[n - 1].key := entries[n - 1]]
  }

  function CacheEvent(cache: Cache, e: FlagEvent): Cache {
    if e.key in cache then cache[e.key := cache[e.key].(enabled := e.enabled, reason := "default")] else cache
  }

  function Notes(key: string, callbacks: seq<int>, enabled: bool): seq<Note> {
    seq(|callbacks|, i requires 0 <= i < |callbacks| => Note(key, callbacks[i], enabled))
  }

  function Callbacks(s: State, key: string): seq<int> { if key in s.subscribers then s.subscribers[key] else [] }

  function ApplyEvent(s: State, e: FlagEvent): State {
    if e.key !in s.cache then s
    else s.(cache := CacheEvent(s.cache, e), notified := s.notified + Notes(e.key, Callbacks(s, e.key), e.enabled))
  }

  function ApplyEvents(s: State, es: seq<FlagEvent>): State {
    if es == [] then s else ApplyEvent(ApplyEvents(s, es[..|es| - 1]), es[|es| - 1])
  }

  function Settle(s: State, r: Ready): State { if s.ready.Pending? then s.(ready := r) else s }

  /** The hydration request ends because the client was closed. */
  function Abandon(s: State): State { Settle(s.(phase := Done), Rejected("closed")) }

  datatype Action =
    | Deliver(event: FlagEvent)              // the stream hands over a change
    | Accepted                               // the hydration request answers with a good status
    | HydrateDenied(code: string)            // it answers 401 or 403
    | RequestFailed(code: string)            // it answers another status, or not at all
    | BodyFailed                             // the body is no JSON, or reading it is aborted
    | Malformed(rows: Response)              // the body is JSON, but has nothing readable after these rows
    | Hydrate(response: Response)            // the body is parsed
    | StoreLoaded(entries: seq<CachedFlag>)  // the store answers; a failed load counts as empty
    | Rehydrate(response: Response)          // the request made on a reconnect answers
    | Close
    | Subscribe(key: string, callback: int)
    | Unsubscribe(key: string, callback: int)

  function Without(callbacks: seq<int>, callback: int): seq<int> {
    if callbacks == [] then []
    else Without(callbacks[..|callbacks| - 1], callback) +
         (if callbacks[|callbacks| - 1] == callback then [] else [callbacks[|callbacks| - 1]])
  }

  /** The snapshot with the buffer drained over it. */
  function Drained(s: State, resp: Response): State {
    ApplyEvents(s.(cache := Populated(resp, |resp.flags|), hydrated := true, phase := Done), s.buffer).(buffer := [])
  }

  function Step(s: State, a: Action): State {
    match a
    case Deliver(e) =>
      if s.closed then s
      else if !s.hydrated then s.(buffer := s.buffer + [e])
      else ApplyEvent(s, e)
    case Accepted =>
      if !s.phase.Requested? then s else if s.closed then Abandon(s) else s.(phase := Reading)
    case HydrateDenied(code) =>
      if !s.phase.Requested? then s
      else if s.closed then Abandon(s)
      else Settle(s.(closed := true, phase := Done), Rejected(code))
    case RequestFailed(code) =>
      if !s.phase.Requested? then s else if s.closed then Abandon(s) else s.(phase := Loading(code))
    case BodyFailed => if s.phase.Reading? then s.(phase := Loading("invalid_response")) else s
    case Malformed(rows) =>
      if !s.phase.Reading? then s
      else if s.closed then Abandon(s)
      else s.(cache := Populated(rows, |rows.flags|), phase := Loading("network_error"))
    case Hydrate(resp) =>
      if !s.phase.Reading? then s else if s.closed then Abandon(s) else Settle(Drained(s, resp), Resolved)
    case StoreLoaded(entries) =>
      if !s.phase.Loading? then s
      else if entries != [] then
        Settle(s.(cache := Restored(entries, |entries|), hydrated := true, phase := Done), Resolved)
      else Settle(s.(closed := true, phase := Done), Rejected(s.phase.code))
    case Rehydrate(resp) =>
      if s.closed then s else s.(cache := Populated(resp, |resp.flags|))
    case Close => s.(closed := true)
    case Subscribe(key, cb) =>
      if cb in Callbacks(s, key) then s else s.(subscribers := s.subscribers[key := Callbacks(s, key) + [cb]])
    case Unsubscribe(key, cb) =>
      if key in s.subscribers then s.(subscribers := s.subscribers[key := Without(s.subscribers[key], cb)]) else s
  }

  function Run(s: State, acts: seq<Action>): State {
    if acts == [] then s else Step(Run(s, acts[..|acts| - 1]), acts[|acts| - 1])
  }

  // ---------- events over a cache ----------

  function CacheEvents(cache: Cache, es: seq<FlagEvent>): Cache {
    if es == [] then cache else CacheEvent(CacheEvents(cache, es[..|es| - 1]), es[|es| - 1])
  }

  lemma {:induction false} ApplyEventsFrame(s: State, es: seq<FlagEvent>)
    ensures var t := ApplyEvents(s, es);
            && t.cache == CacheEvents(s.cache, es) && t.cache.Keys == s.cache.Keys
            && t.buffer == s.buffer && t.hydrated == s.hydrated && t.closed == s.closed && t.phase == s.phase
            && t.ready == s.ready && t.subscribers == s.subscribers
  {
    if es != [] { ApplyEventsFrame(s, es[..|es| - 1]); }
  }

  lemma {:induction false} CacheEventsConcat(cache: Cache, a: seq<FlagEvent>, b: seq<FlagEvent>)
    ensures CacheEvents(cache, a + b) == CacheEvents(CacheEvents(cache, a), b)
  {
    if b == [] {
      assert a + b == a;
    } else {
      CacheEventsConcat(cache, a, b[..|b| - 1]);
      assert (a + b)[..|a + b| - 1] == a + b[..|b| - 1];
    }
  }

  lemma {:induction false} RunConcat(s: State, a: seq<Action>, b: seq<Action>)
    ensures Run(s, a + b) == Run(Run(s, a), b)
  {
    if b == [] {
      assert a + b == a;
    } else {
      RunConcat(s, a, b[..|b| - 1]);
      assert (a + b)[..|a + b| - 1] == a + b[..|b| - 1];
    }
  }

  lemma RunOne(s: State, a: Action)
    ensures Run(s, [a]) == Step(s, a)
  {
    assert [a][..0] == [];
  }

  lemma RunPush(s: State, acts: seq<Action>, a: Action)
    ensures Run(s, acts + [a]) == Step(Run(s, acts), a)
  {
    assert (acts + [a])[..|acts|] == acts;
  }

  lemma RunThen(s: State, pre: seq<Action>, a: Action, post: seq<Action>)
    ensures Run(s, pre + [a] + post) == Run(Step(Run(s, pre), a), post)
  {
    RunConcat(s, pre + [a], post);
    RunPush(s, pre, a);
  }

  /** After any events a cached flag is on exactly as its last event said, the reason of one that had an event is
      "default", and everything else is as it was seeded: the served variant does not follow the events. */
  lemma {:induction false} CachedValue(cache: Cache, es: seq<FlagEvent>, key: string)
    ensures CacheEvents(cache, es).Keys == cache.Keys
    ensures key in cache ==>
              var f := CacheEvents(cache, es)[key];
              && f.enabled == LastValue(es, key, cache[key].enabled)
              && f.variant == cache[key].variant && f.value == cache[key].value && f.key == cache[key].key
              && f.evaluatedAt == cache[key].evaluatedAt
              && f.reason == if Toggled(es, key) then "default" else cache[key].reason
  {
    if es != [] {
      CachedValue(cache, es[..|es| - 1], key);
      ToggledSnoc(es, key);
    }
  }

  // ---------- the client object ----------

  class Client {
    var cache: Cache
    var subscribers: map<string, seq<int>>
    var sseBuffer: seq<FlagEvent>
    var hydrationComplete: bool
    var closed: bool
    var phase: Phase
    var ready: Ready
    var notified: seq<Note>

    function View(): State
      reads this
    {
      State(cache, sseBuffer, hydrationComplete, closed, phase, ready, subscribers, notified)
    }

    constructor ()
      ensures View() == INITIAL
    {
      cache, subscribers, sseBuffer, notified := map[], map[], [], [];
      hydrationComplete, closed, phase, ready := false, false, Requested, Pending;
    }

    method PopulateCache(resp: Response)
      modifies this
      ensures View() == old(View()).(cache := Populated(resp, |resp.flags|))
    {
      cache := map[];
      for i := 0 to |resp.flags|
        invariant View() == old(View()).(cache := Populated(resp, i))
      {
        cache := cache[resp.flags[i].key := Entry(resp.flags[i], resp.evaluatedAt)];
      }
    }

    method ApplyCacheEvent(event: FlagEvent)
      modifies this
      ensures View() == ApplyEvent(old(View()), event)
    {
      if event.key !in cache { return; }
      cache := cache[event.key := cache[event.key].(enabled := event.enabled, reason := "default")];
      if event.key in subscribers {
        var cbs := subscribers[event.key];
        ghost var updated := View();
        for i := 0 to |cbs|
          invariant View() == updated.(notified := old(notified) + Notes(event.key, cbs[..i], event.enabled))
        {
          assert Notes(event.key, cbs[..i + 1], event.enabled) ==
                 Notes(event.key, cbs[..i], event.enabled) + [Note(event.key, cbs[i], event.enabled)];
          notified := notified + [Note(event.key, cbs[i], event.enabled)];
        }
        assert cbs[..|cbs|] == cbs;
      }
    }

    method OnFlagChange(event: FlagEvent)
      modifies this
      ensures View() == Step(old(View()), Deliver(event))
    {
      if closed { return; }
      if !hydrationComplete {
        sseBuffer := sseBuffer + [event];
        return;
      }
      ApplyCacheEvent(event);
    }

    /** The promise chain ends because the client was closed. */
    method GiveUp()
      modifies this
      ensures View() == Abandon(old(View()))
    {
      phase := Done;
      if ready.Pending? { ready := Rejected("closed"); }
    }

    /** Headers with a good status: the body is read next, under the same abort signal. */
    method OnAccepted()
      modifies this
      ensures View() == Step(old(View()), Accepted)
    {
      if !phase.Requested? { return; }
      if closed { GiveUp(); } else { phase := Reading; }
    }

    method FailHydration(code: string)
      modifies this
      ensures View() == Settle(old(View()).(closed := true, phase := Done), Rejected(code))
    {
      closed, phase := true, Done;
      if ready.Pending? { ready := Rejected(code); }
    }

    method OnHydrationDenied(code: string)
      modifies this
      ensures View() == Step(old(View()), HydrateDenied(code))
    {
      if !phase.Requested? { return; }
      if closed { GiveUp(); } else { FailHydration(code); }
    }

    method OnRequestFailed(code: string)
      modifies this
      ensures View() == Step(old(View()), RequestFailed(code))
    {
      if !phase.Requested? { return; }
      if closed { GiveUp(); } else { phase := Loading(code); }
    }

    /** The inner catch around the body read asks the store without looking at `closed`. */
    method OnBodyFailed()
      modifies this
      ensures View() == Step(old(View()), BodyFailed)
    {
      if phase.Reading? { phase := Loading("invalid_response"); }
    }

    /** Populating the cache throws after these rows, and the outer catch asks the store. */
    method OnMalformed(rows: Response)
      modifies this
      ensures View() == Step(old(View()), Malformed(rows))
    {
      if !phase.Reading? { return; }
      if closed {
        GiveUp();
      } else {
        PopulateCache(rows);
        phase := Loading("network_error");
      }
    }

    /** The buffered changes are applied in order, and the buffer is emptied. */
    method DrainBuffer()
      modifies this
      ensures View() == ApplyEvents(old(View()), old(sseBuffer)).(buffer := [])
    {
      var events := sseBuffer;
      for i := 0 to |events|
        invariant View() == ApplyEvents(old(View()), events[..i])
      {
        assert events[..i + 1][..i] == events[..i];
        ApplyCacheEvent(events[i]);
      }
      assert events[..|events|] == events;
      sseBuffer := [];
    }

    /** The success path of the hydration request: populate, then drain the buffer in order. */
    method OnHydrated(resp: Response)
      modifies this
      ensures View() == Step(old(View()), Hydrate(resp))
    {
      if !phase.Reading? { return; }
      if closed {
        GiveUp();
        return;
      }
      PopulateCache(resp);
      hydrationComplete, phase := true, Done;
      DrainBuffer();
      if ready.Pending? { ready := Resolved; }
    }

    /** The continuation of `tryStoreFallback`; it neither looks at `closed` nor drains the buffer. */
    method OnStoreLoaded(entries: seq<CachedFlag>)
      modifies this
      ensures View() == Step(old(View()), StoreLoaded(entries))
    {
      if !phase.Loading? { return; }
      if |entries| > 0 {
        cache := map[];
        ghost var start := View();
        for i := 0 to |entries|
          invariant View() == start.(cache := Restored(entries, i))
        {
          cache := cache[entries[i].key := entries[i]];
        }
        hydrationComplete, phase := true, Done;
        if ready.Pending? { ready := Resolved; }
      } else {
        FailHydration(phase.code);
      }
    }

    method OnRehydrated(resp: Response)
      modifies this
      ensures View() == Step(old(View()), Rehydrate(resp))
    {
      if !closed { PopulateCache(resp); }
    }

    /** `close`: what it aborts shows up as a failed request or a failed body read. */
    method CloseClient()
      modifies this
      ensures View() == Step(old(View()), Close)
    {
      if closed { return; }
      closed := true;
    }

    method SubscribeTo(key: string, callback: int)
      modifies this
      ensures View() == Step(old(View()), Subscribe(key, callback))
    {
      var cbs := if key in subscribers then subscribers[key] else [];
      if callback !in cbs { subscribers := subscribers[key := cbs + [callback]]; }
    }

    /** The function `subscribe` returns: delete the callback from the key's set. */
    method UnsubscribeFrom(key: string, callback: int)
      modifies this
      ensures View() == Step(old(View()), Unsubscribe(key, callback))
    {
      if key !in subscribers { return; }
      var cbs, left := subscribers[key], [];
      for i := 0 to |cbs|
        invariant left == Without(cbs[..i], callback)
      {
        assert cbs[..i + 1][..i] == cbs[..i];
        if cbs[i] != callback { left := left + [cbs[i]]; }
      }
      assert cbs[..|cbs|] == cbs;
      subscribers := subscribers[key := left];
    }
  }

  // ---------- the server as a log of toggles ----------

  /** `log[i]` is the i-th toggle the server stored and published. */
  type Log = seq<FlagEvent>

  /** The response reports the server's state after `s` toggles. */
  predicate SnapshotAt(resp: Response, on: set<string>, log: Log, s: int) {
    0 <= s <= |log| && forall i :: 0 <= i < |resp.flags| ==>
        resp.flags[i].enabled == EnabledAt(on, log, s, resp.flags[i].key)
  }

  lemma {:induction false} PopulatedFromSnapshot(resp: Response, on: set<string>, log: Log, s: int, n: int)
    requires SnapshotAt(resp, on, log, s) && 0 <= n <= |resp.flags|
    ensures forall key :: key in Populated(resp, n) ==> Populated(resp, n)[key].enabled == EnabledAt(on, log, s, key)
    ensures forall key :: key in Populated(resp, n) <==> exists i :: 0 <= i < n && resp.flags[i].key == key
    decreases n
  {
    if n > 0 { PopulatedFromSnapshot(resp, on, log, s, n - 1); }
  }

  // ---------- convergence of the first hydration ----------

  /** Actions that may interleave with anything. */
  predicate Ordinary(a: Action) { a.Deliver? || a.Subscribe? || a.Unsubscribe? }

  predicate AllOrdinary(acts: seq<Action>) { forall i :: 0 <= i < |acts| ==> Ordinary(acts[i]) }

  /** Actions that may come before the client is hydrated; a reconnect answer is among them, since a failed first
      connect counts as a reconnect. */
  predicate AllAwaiting(acts: seq<Action>) {
    forall i :: 0 <= i < |acts| ==> Ordinary(acts[i]) || acts[i].Accepted? || acts[i].Rehydrate?
  }

  function Delivered(acts: seq<Action>): seq<FlagEvent> {
    if acts == [] then []
    else Delivered(acts[..|acts| - 1]) + (if acts[|acts| - 1].Deliver? then [acts[|acts| - 1].event] else [])
  }

  lemma {:induction false} DeliveredConcat(a: seq<Action>, b: seq<Action>)
    ensures Delivered(a + b) == Delivered(a) + Delivered(b)
  {
    if b == [] {
      assert a + b == a;
    } else {
      DeliveredConcat(a, b[..|b| - 1]);
      assert (a + b)[..|a + b| - 1] == a + b[..|b| - 1];
    }
  }

  lemma BufferingStep(s: State, a: Action)
    requires (Ordinary(a) || a.Accepted? || a.Rehydrate?) && !s.hydrated && !s.closed
    ensures var t := Step(s, a);
            && t.buffer == s.buffer + (if a.Deliver? then [a.event] else [])
            && !t.hydrated && !t.closed && t.ready == s.ready && t.notified == s.notified
            && t.phase == (if s.phase.Requested? && a.Accepted? then Reading else s.phase)
            && (Ordinary(a) ==> t.cache == s.cache)
  {
  }

  lemma {:induction false} BufferingRun(s: State, acts: seq<Action>)
    requires AllAwaiting(acts) && !s.hydrated && !s.closed
    ensures var t := Run(s, acts);
            && t.buffer == s.buffer + Delivered(acts) && !t.hydrated && !t.closed && t.ready == s.ready
            && t.notified == s.notified
            && t.phase == (if s.phase.Requested? && Accepted in acts then Reading else s.phase)
            && (AllOrdinary(acts) ==> t.cache == s.cache)
  {
    if acts != [] {
      var init, a := acts[..|acts| - 1], acts[|acts| - 1];
      assert acts == init + [a];
      BufferingRun(s, init);
      BufferingStep(Run(s, init), a);
      assert Accepted in acts <==> Accepted in init || a.Accepted?;
      assert s.buffer + Delivered(acts) == (s.buffer + Delivered(init)) + (if a.Deliver? then [a.event] else []);
    }
  }

  lemma LiveStep(s: State, a: Action)
    requires Ordinary(a) && s.hydrated && !s.closed
    ensures var t := Step(s, a);
            && t.cache == (if a.Deliver? then CacheEvent(s.cache, a.event) else s.cache)
            && t.hydrated && !t.closed && t.ready == s.ready && t.buffer == s.buffer && t.phase == s.phase
  {
  }

  lemma {:induction false} LiveRun(s: State, acts: seq<Action>)
    requires AllOrdinary(acts) && s.hydrated && !s.closed
    ensures var t := Run(s, acts);
            && t.cache == CacheEvents(s.cache, Delivered(acts))
            && t.hydrated && !t.closed && t.ready == s.ready && t.buffer == s.buffer && t.phase == s.phase
  {
    if acts != [] {
      var init, a := acts[..|acts| - 1], acts[|acts| - 1];
      LiveRun(s, init);
      LiveStep(Run(s, init), a);
      if a.Deliver? {
        assert Delivered(acts)[..|Delivered(init)|] == Delivered(init);
      } else {
        assert Delivered(acts) == Delivered(init);
      }
    }
  }

  lemma HydrateStep(s: State, resp: Response)
    requires s.phase.Reading? && !s.closed
    ensures var t := Step(s, Hydrate(resp));
            && t.cache == CacheEvents(Populated(resp, |resp.flags|), s.buffer) && t.buffer == []
            && t.hydrated && !t.closed && (s.ready.Pending? ==> t.ready == Resolved)
  {
    ApplyEventsFrame(s.(cache := Populated(resp, |resp.flags|), hydrated := true, phase := Done), s.buffer);
  }

  /** For every interleaving of deliveries, subscriptions, reconnect answers and the two parts of the hydration
      answer, the cache is the snapshot with all delivered events on top. */
  lemma HydratedCache(pre: seq<Action>, resp: Response, post: seq<Action>)
    requires AllAwaiting(pre) && Accepted in pre && AllOrdinary(post)
    ensures var t := Run(INITIAL, pre + [Hydrate(resp)] + post);
            && t.cache == CacheEvents(Populated(resp, |resp.flags|), Delivered(pre) + Delivered(post))
            && t.ready == Resolved && t.buffer == []
  {
    BufferingRun(INITIAL, pre);
    var b := Run(INITIAL, pre);
    assert b.buffer == Delivered(pre);
    HydrateStep(b, resp);
    RunThen(INITIAL, pre, Hydrate(resp), post);
    LiveRun(Step(b, Hydrate(resp)), post);
    CacheEventsConcat(Populated(resp, |resp.flags|), Delivered(pre), Delivered(post));
  }

  lemma {:induction false} PopulatedRow(resp: Response, n: int, i: int)
    requires 0 <= i < n <= |resp.flags| && forall k :: i < k < n ==> resp.flags[k].key != resp.flags[i].key
    ensures resp.flags[i].key in Populated(resp, n) &&
              Populated(resp, n)[resp.flags[i].key] == Entry(resp.flags[i], resp.evaluatedAt)
    decreases n
  {
    if i < n - 1 { PopulatedRow(resp, n - 1, i); }
  }

  /** The variant a hydrated client serves is the one the server evaluated at the snapshot, whatever changes
      arrived before or after it; only flags evaluated without a value key fall back to the deprecated value. */
  lemma HydratedVariant(pre: seq<Action>, resp: Response, post: seq<Action>, i: int)
    requires AllAwaiting(pre) && Accepted in pre && AllOrdinary(post) && 0 <= i < |resp.flags|
    requires forall k :: i < k < |resp.flags| ==> resp.flags[k].key != resp.flags[i].key
    ensures var t, row := Run(INITIAL, pre + [Hydrate(resp)] + post), resp.flags[i];
            && row.key in t.cache && t.cache[row.key].key == row.key && t.cache[row.key].value == row.value
            && t.cache[row.key].evaluatedAt == resp.evaluatedAt
            && (!Toggled(Delivered(pre) + Delivered(post), row.key) ==> t.cache[row.key].reason == row.reason)
            && (row.valueKey != "" ==> t.cache[row.key].variant == row.valueKey)
            && (row.valueKey == "" ==> t.cache[row.key].variant == row.value.GetOr(""))
  {
    HydratedCache(pre, resp, post);
    PopulatedRow(resp, |resp.flags|, i);
    CachedValue(Populated(resp, |resp.flags|), Delivered(pre) + Delivered(post), resp.flags[i].key);
  }

  /** Convergence. The stream delivers the log in order from point `u`, the snapshot is taken at any point
      `s`, and its answer arrives anywhere between the deliveries. Once the stream has delivered up to any `d`
      not before `s`, exactly the flags of the snapshot are cached, and each is on as on the server after
      `d` if and only if it was toggled since `u` or the snapshot had its value at `u`; every flag is, if the snapshot
      was taken at `u` or later. */
  lemma Convergence(on: set<string>, log: Log, u: int, s: int, d: int, pre: seq<Action>, resp: Response,
                    post: seq<Action>)
    requires 0 <= u <= d <= |log| && 0 <= s <= d
    requires AllAwaiting(pre) && Accepted in pre && AllOrdinary(post) && Delivered(pre) + Delivered(post) == log[u..d]
    requires SnapshotAt(resp, on, log, s)
    ensures var t := Run(INITIAL, pre + [Hydrate(resp)] + post);
            && t.ready == Resolved
            && (forall key :: key in t.cache <==> exists i :: 0 <= i < |resp.flags| && resp.flags[i].key == key)
            && (forall key :: key in t.cache ==>
                  (t.cache[key].enabled == EnabledAt(on, log, d, key) <==>
                   Toggled(log[u..d], key) || EnabledAt(on, log, s, key) == EnabledAt(on, log, u, key)))
            && (u <= s ==> forall key :: key in t.cache ==> t.cache[key].enabled == EnabledAt(on, log, d, key))
  {
    HydratedCache(pre, resp, post);
    var seeded := Populated(resp, |resp.flags|);
    PopulatedFromSnapshot(resp, on, log, s, |resp.flags|);
    CachedValue(seeded, log[u..d], "");
    forall key | key in seeded
      ensures CacheEvents(seeded, log[u..d])[key].enabled == EnabledAt(on, log, d, key) <==>
              Toggled(log[u..d], key) || EnabledAt(on, log, s, key) == EnabledAt(on, log, u, key)
      ensures u <= s ==> CacheEvents(seeded, log[u..d])[key].enabled == EnabledAt(on, log, d, key)
    {
      CachedValue(seeded, log[u..d], key);
      ReplayExactly(on, log, u, d, key, EnabledAt(on, log, s, key));
      if u <= s { ReplayOverLater(on, log, u, s, d, key); }
    }
  }

  /** The client sends its evaluate request without waiting for the stream to be connected. Whenever the
      snapshot is older than the subscription, some history leaves the client wrong until the flag is toggled again,
      whatever arrives in the meantime: the key was switched on in between. */
  lemma EarlySnapshot(key: string, s: nat, u: nat) returns (log: Log, resp: Response)
    requires s < u
    ensures |log| == u && SnapshotAt(resp, {}, log, s)
    ensures forall pre: seq<Action>, post: seq<Action> ::
              AllAwaiting(pre) && Accepted in pre && AllOrdinary(post) &&
              !Toggled(Delivered(pre) + Delivered(post), key) ==>
                var t, later := Run(INITIAL, pre + [Hydrate(resp)] + post), log + (Delivered(pre) + Delivered(post));
                key in t.cache && t.cache[key].enabled != EnabledAt({}, later, |later|, key)
  {
    log := seq(u, i => Toggle(key, i >= s));
    resp := Response([FlagRow(key, false, None, "", "default")], "");
    assert s > 0 ==> log[..s][s - 1] == Toggle(key, false);
    assert resp.flags[0].key == key;
    forall pre: seq<Action>, post: seq<Action> |
      AllAwaiting(pre) && Accepted in pre && AllOrdinary(post) && !Toggled(Delivered(pre) + Delivered(post), key)
      ensures var t, later := Run(INITIAL, pre + [Hydrate(resp)] + post), log + (Delivered(pre) + Delivered(post));
              key in t.cache && t.cache[key].enabled != EnabledAt({}, later, |later|, key)
    {
      var events := Delivered(pre) + Delivered(post);
      var later := log + events;
      assert later[..u] == log && later[..s] == log[..s];
      assert later[u..|later|] == events by { assert later[|log|..] == events; }
      Convergence({}, later, u, s, |later|, pre, resp, post);
      assert EnabledAt({}, later, u, key);
      assert !EnabledAt({}, later, s, key);
    }
  }

  // ---------- re-hydration after a reconnect ----------

  lemma RehydratedCache(s0: State, resp: Response, post: seq<Action>)
    requires !s0.closed && AllOrdinary(post)
    ensures var t, seeded := Run(s0, [Rehydrate(resp)] + post), Populated(resp, |resp.flags|);
            if s0.hydrated then t.cache == CacheEvents(seeded, Delivered(post))
            else t.cache == seeded && t.buffer == s0.buffer + Delivered(post)
  {
    RunConcat(s0, [Rehydrate(resp)], post);
    RunOne(s0, Rehydrate(resp));
    var r := Step(s0, Rehydrate(resp));
    if s0.hydrated { LiveRun(r, post); } else { BufferingRun(r, post); }
  }

  /** A re-hydration answer overwrites the cache without a buffer. With the stream at `p` when an answer taken at `s`
      arrives, and at `d` later, a cached flag of a hydrated client is on as on the server after `d` if and only
      if it is toggled among `p..d` or the snapshot was not stale for it; an answer taken at `p` or later is never
      stale. An answer that comes before the first hydration is shown as it is: what the stream delivers stays in the
      buffer, and the flag is right exactly if the snapshot had its value at `d`. */
  lemma RehydrationExact(on: set<string>, log: Log, p: int, s: int, d: int, s0: State, resp: Response,
                         post: seq<Action>, key: string)
    requires 0 <= p <= d && 0 <= s <= d <= |log|
    requires !s0.closed && AllOrdinary(post) && Delivered(post) == log[p..d]
    requires SnapshotAt(resp, on, log, s)
    requires exists i :: 0 <= i < |resp.flags| && resp.flags[i].key == key
    ensures var t := Run(s0, [Rehydrate(resp)] + post);
            && key in t.cache
            && (s0.hydrated ==>
                  (t.cache[key].enabled == EnabledAt(on, log, d, key) <==>
                   Toggled(log[p..d], key) || EnabledAt(on, log, s, key) == EnabledAt(on, log, p, key))
                  && (p <= s ==> t.cache[key].enabled == EnabledAt(on, log, d, key)))
            && (!s0.hydrated ==>
                  t.cache[key].enabled == EnabledAt(on, log, s, key) && t.buffer == s0.buffer + log[p..d])
  {
    RehydratedCache(s0, resp, post);
    PopulatedFromSnapshot(resp, on, log, s, |resp.flags|);
    CachedValue(Populated(resp, |resp.flags|), log[p..d], key);
    ReplayExactly(on, log, p, d, key, EnabledAt(on, log, s, key));
    if p <= s { ReplayOverLater(on, log, p, s, d, key); }
  }

  /** Whenever the answer is older than what was already applied, some history leaves the client wrong:
      the key was switched on after the snapshot and the switch was applied before the answer arrived. */
  lemma StaleRehydration(key: string, s: nat, p: nat) returns (log: Log, resp: Response)
    requires s < p
    ensures |log| == p && SnapshotAt(resp, {}, log, s)
    ensures forall s0: State :: s0.hydrated && !s0.closed ==>
              var t := Run(s0, [Rehydrate(resp)]);
              key in t.cache && t.cache[key].enabled != EnabledAt({}, log, p, key)
  {
    log := seq(p, i => Toggle(key, i >= s));
    resp := Response([FlagRow(key, false, None, "", "default")], "");
    assert s > 0 ==> log[..s][s - 1] == Toggle(key, false);
    assert log[..p] == log && EnabledAt({}, log, p, key);
    forall s0: State | s0.hydrated && !s0.closed
      ensures var t := Run(s0, [Rehydrate(resp)]);
              key in t.cache && t.cache[key].enabled != EnabledAt({}, log, p, key)
    {
      assert resp.flags[0].key == key && [Rehydrate(resp)] + [] == [Rehydrate(resp)];
      assert log[p..p] == [];
      RehydrationExact({}, log, p, s, p, s0, resp, [], key);
    }
  }

  // ---------- closing and the store fallback ----------

  /** The hydration request is at a point where closing does not stop it from reaching the cache. */
  predicate Underway(s: State) { s.phase.Reading? || s.phase.Loading? }

  /** Once closed, the cache and the subscribers' view stay as they are whatever arrives, unless a body was being
      read or a store load was under way. */
  lemma {:induction false} ClosedIsFrozen(s: State, acts: seq<Action>)
    requires s.closed && !Underway(s)
    ensures var t := Run(s, acts);
            && t.closed && !Underway(t) && t.cache == s.cache && t.notified == s.notified && t.hydrated == s.hydrated
            && (!s.ready.Pending? ==> t.ready == s.ready)
  {
    if acts != [] { ClosedIsFrozen(s, acts[..|acts| - 1]); }
  }

  /** What the request is waiting for. */
  predicate Resumes(p: Phase, a: Action) {
    || (p.Requested? && (a.Accepted? || a.HydrateDenied? || a.RequestFailed?))
    || (p.Reading? && (a.BodyFailed? || a.Malformed? || a.Hydrate?))
    || (p.Loading? && a.StoreLoaded?)
  }

  lemma {:induction false} ClosedWaits(s: State, acts: seq<Action>)
    requires s.closed && !s.phase.Done? && forall i :: 0 <= i < |acts| ==> !Resumes(s.phase, acts[i])
    ensures var t := Run(s, acts);
            t.closed && t.phase == s.phase && t.cache == s.cache && t.notified == s.notified && t.ready == s.ready
  {
    if acts != [] { ClosedWaits(s, acts[..|acts| - 1]); }
  }

  /** A client closed before the request is answered, or before its body is parsed: whatever the answer is, it only
      rejects `ready` as closed. A failing body read is the exception, see `CloseDuringBody`. */
  lemma ClosedAnswer(s: State, wait: seq<Action>, answer: Action, post: seq<Action>)
    requires s.closed && s.ready.Pending? && (s.phase.Requested? || s.phase.Reading?)
    requires forall i :: 0 <= i < |wait| ==> !Resumes(s.phase, wait[i])
    requires Resumes(s.phase, answer) && !answer.BodyFailed?
    ensures var t := Run(s, wait + [answer] + post);
            && t.closed && t.ready == Rejected("closed") && t.cache == s.cache && t.notified == s.notified
  {
    ClosedWaits(s, wait);
    RunThen(s, wait, answer, post);
    ClosedIsFrozen(Step(Run(s, wait), answer), post);
  }

  lemma ReadyStep(s: State, a: Action)
    requires !s.ready.Pending?
    ensures Step(s, a).ready == s.ready
  {
    match a
    case Hydrate(resp) =>
      ApplyEventsFrame(s.(cache := Populated(resp, |resp.flags|), hydrated := true, phase := Done), s.buffer);
    case _ =>
  }

  /** `ready` settles at most once. */
  lemma {:induction false} ReadyIsFinal(s: State, acts: seq<Action>)
    requires !s.ready.Pending?
    ensures Run(s, acts).ready == s.ready
  {
    if acts != [] {
      ReadyIsFinal(s, acts[..|acts| - 1]);
      ReadyStep(Run(s, acts[..|acts| - 1]), acts[|acts| - 1]);
    }
  }

  lemma LoadStep(s: State, entries: seq<CachedFlag>)
    requires s.phase.Loading?
    ensures var t := Step(s, StoreLoaded(entries));
            && t.phase.Done? && t.buffer == s.buffer && t.notified == s.notified
            && (entries != [] ==> t.cache == Restored(entries, |entries|) && t.hydrated && t.closed == s.closed)
            && (entries == [] ==> t.cache == s.cache && t.closed && t.hydrated == s.hydrated)
            && (s.ready.Pending? ==> t.ready == if entries != [] then Resolved else Rejected(s.phase.code))
  {
  }

  /** A load under way: its non-empty answer replaces the closed client's cache, and from then on nothing does. */
  lemma ClosedLoad(s: State, wait: seq<Action>, entries: seq<CachedFlag>, post: seq<Action>)
    requires s.closed && s.phase.Loading? && forall i :: 0 <= i < |wait| ==> !wait[i].StoreLoaded?
    ensures var t := Run(s, wait + [StoreLoaded(entries)] + post);
            && t.closed && t.notified == s.notified
            && t.cache == (if entries != [] then Restored(entries, |entries|) else s.cache)
            && (s.ready.Pending? ==> t.ready == if entries != [] then Resolved else Rejected(s.phase.code))
  {
    ClosedWaits(s, wait);
    var w := Run(s, wait);
    LoadStep(w, entries);
    RunThen(s, wait, StoreLoaded(entries), post);
    ClosedIsFrozen(Step(w, StoreLoaded(entries)), post);
  }

  /** A client closed while its store load is under way is filled by it nevertheless. */
  lemma StoreLoadIgnoresClose(s: State, wait: seq<Action>, entries: seq<CachedFlag>, post: seq<Action>)
    requires s.phase.Loading? && forall i :: 0 <= i < |wait| ==> !wait[i].StoreLoaded?
    ensures var t := Run(s, [Close] + (wait + [StoreLoaded(entries)] + post));
            && t.closed && t.notified == s.notified
            && t.cache == (if entries != [] then Restored(entries, |entries|) else s.cache)
            && (s.ready.Pending? ==> t.ready == if entries != [] then Resolved else Rejected(s.phase.code))
  {
    RunOne(s, Close);
    RunConcat(s, [Close], wait + [StoreLoaded(entries)] + post);
    ClosedLoad(Step(s, Close), wait, entries, post);
  }

  /** A client closed between the headers and the body: the abort makes the body read fail, which starts a store load
      after the close. Its answer fills the closed client and resolves `ready`; an empty store rejects it as an
      invalid response and not as closed. */
  lemma CloseDuringBody(s: State, mid: seq<Action>, wait: seq<Action>, entries: seq<CachedFlag>, post: seq<Action>)
    requires s.phase.Reading? && s.ready.Pending?
    requires forall i :: 0 <= i < |mid| ==> !Resumes(Reading, mid[i])
    requires forall i :: 0 <= i < |wait| ==> !wait[i].StoreLoaded?
    ensures var t := Run(s, ([Close] + mid) + [BodyFailed] + (wait + [StoreLoaded(entries)] + post));
            && t.closed && t.notified == s.notified
            && t.cache == (if entries != [] then Restored(entries, |entries|) else s.cache)
            && t.ready == if entries != [] then Resolved else Rejected("invalid_response")
  {
    RunOne(s, Close);
    RunConcat(s, [Close], mid);
    ClosedWaits(Step(s, Close), mid);
    var c := Run(s, [Close] + mid);
    RunThen(s, [Close] + mid, BodyFailed, wait + [StoreLoaded(entries)] + post);
    ClosedLoad(Step(c, BodyFailed), wait, entries, post);
  }

  /** Such a state is reached by an answer and a close. */
  lemma CloseDuringBodyReached()
    ensures var s := Run(INITIAL, [Accepted]);
            !s.closed && s.phase.Reading? && s.ready.Pending? && s.cache == map[]
    ensures var s := Run(INITIAL, [Accepted, Close]);
            s.closed && s.phase.Reading? && s.ready.Pending? && s.cache == map[]
  {
    RunOne(INITIAL, Accepted);
    RunPush(INITIAL, [Accepted], Close);
    assert [Accepted] + [Close] == [Accepted, Close];
  }

  /** Some store content shows: a closed client that is waiting for its body or its store can still change. */
  lemma UnderwayChanges(s: State) returns (acts: seq<Action>)
    requires s.closed && Underway(s)
    ensures Run(s, acts).cache != s.cache
  {
    var a, b := CachedFlag("a", true, None, "", "", ""), CachedFlag("b", true, None, "", "", "");
    var e := if "a" in s.cache then b else a;
    var other := if "a" in s.cache && "b" in s.cache then a else e;
    var entries := [other];
    assert Restored(entries, 1) == map[][other.key := other];
    assert Restored(entries, |entries|) != s.cache;
    var l := if s.phase.Reading? then Step(s, BodyFailed) else s;
    ClosedLoad(l, [], entries, []);
    assert [] + [StoreLoaded(entries)] + [] == [StoreLoaded(entries)];
    acts := if s.phase.Reading? then [BodyFailed] + [StoreLoaded(entries)] else [StoreLoaded(entries)];
    if s.phase.Reading? {
      RunOne(s, BodyFailed);
      RunConcat(s, [BodyFailed], [StoreLoaded(entries)]);
    }
  }

  /** A closed client's cache never changes again, whatever arrives, if and only if neither a body read nor a store
      load was under way. */
  lemma ClosedFrozenExactly(s: State)
    requires s.closed
    ensures (forall acts :: Run(s, acts).cache == s.cache) <==> !Underway(s)
  {
    if Underway(s) {
      var acts := UnderwayChanges(s);
    } else {
      forall acts ensures Run(s, acts).cache == s.cache { ClosedIsFrozen(s, acts); }
    }
  }

  lemma {:induction false} RestoredKeys(entries: seq<CachedFlag>, n: int)
    requires 0 <= n <= |entries|
    ensures forall key :: key in Restored(entries, n) <==> exists i :: 0 <= i < n && entries[i].key == key
    decreases n
  {
    if n > 0 { RestoredKeys(entries, n - 1); }
  }

  /** The restored cache holds the last stored entry of each key. */
  lemma {:induction false} RestoredLast(entries: seq<CachedFlag>, n: int, i: int)
    requires 0 <= i < n <= |entries| && forall k :: i < k < n ==> entries[k].key != entries[i].key
    ensures entries[i].key in Restored(entries, n) && Restored(entries, n)[entries[i].key] == entries[i]
    decreases n
  {
    if i < n - 1 { RestoredLast(entries, n - 1, i); }
  }

  /** How the hydration can fail after these actions. */
  predicate Fails(pre: seq<Action>, a: Action) {
    if Accepted in pre then a.BodyFailed? || a.Malformed? else a.RequestFailed?
  }

  /** The code `ready` is rejected with when the store has nothing to fall back on. */
  function FailureCode(fail: Action): string
    requires fail.RequestFailed? || fail.BodyFailed? || fail.Malformed?
  {
    if fail.RequestFailed? then fail.code else if fail.BodyFailed? then "invalid_response" else "network_error"
  }

  /** A 401 or 403 is final: it closes the client and rejects `ready` with its code, and nothing that comes after it,
      a store's answer included, is shown or told to anybody. */
  lemma DeniedIsFinal(pre: seq<Action>, code: string, post: seq<Action>)
    requires AllAwaiting(pre) && Accepted !in pre
    ensures var t := Run(INITIAL, pre + [HydrateDenied(code)] + post);
            && t.closed && !t.hydrated && t.ready == Rejected(code) && t.notified == []
            && t.cache == Run(INITIAL, pre).cache && (AllOrdinary(pre) ==> t.cache == map[])
  {
    BufferingRun(INITIAL, pre);
    RunThen(INITIAL, pre, HydrateDenied(code), post);
    ClosedIsFrozen(Step(Run(INITIAL, pre), HydrateDenied(code)), post);
  }

  lemma StoreFallbackPending(pre: seq<Action>, fail: Action, mid: seq<Action>)
    requires AllAwaiting(pre) && Fails(pre, fail) && AllAwaiting(mid)
    ensures var w := Run(INITIAL, pre + [fail] + mid);
            && w.buffer == Delivered(pre) + Delivered(mid)
            && w.phase == Loading(FailureCode(fail)) && w.ready.Pending? && !w.hydrated && !w.closed
            && w.notified == []
            && (AllOrdinary(mid) ==> w.cache == if fail.Malformed? then Populated(fail.rows, |fail.rows.flags|)
                                                else Run(INITIAL, pre).cache)
  {
    BufferingRun(INITIAL, pre);
    assert Run(INITIAL, pre).buffer == Delivered(pre);
    RunThen(INITIAL, pre, fail, mid);
    BufferingRun(Step(Run(INITIAL, pre), fail), mid);
  }

  /** Any other failure with an empty store closes the client too and rejects `ready` with exactly the code of that
      failure, for good; rows of a malformed answer that were already cached stay. */
  lemma FailedIsFinal(pre: seq<Action>, fail: Action, mid: seq<Action>, post: seq<Action>)
    requires AllAwaiting(pre) && Fails(pre, fail) && AllAwaiting(mid)
    ensures var t := Run(INITIAL, pre + [fail] + mid + [StoreLoaded([])] + post);
            && t.closed && !t.hydrated && t.ready == Rejected(FailureCode(fail)) && t.notified == []
            && t.cache == Run(INITIAL, pre + [fail] + mid).cache
            && (AllOrdinary(mid) ==> t.cache == if fail.Malformed? then Populated(fail.rows, |fail.rows.flags|)
                                                else Run(INITIAL, pre).cache)
  {
    StoreFallbackPending(pre, fail, mid);
    var before := pre + [fail] + mid;
    LoadStep(Run(INITIAL, before), []);
    RunThen(INITIAL, before, StoreLoaded([]), post);
    ClosedIsFrozen(Step(Run(INITIAL, before), StoreLoaded([])), post);
  }

  lemma StoreFallbackCache(pre: seq<Action>, fail: Action, mid: seq<Action>, entries: seq<CachedFlag>,
                           post: seq<Action>)
    requires AllAwaiting(pre) && Fails(pre, fail) && AllAwaiting(mid) && AllOrdinary(post) && entries != []
    ensures var t := Run(INITIAL, pre + [fail] + mid + [StoreLoaded(entries)] + post);
            && t.cache == CacheEvents(Restored(entries, |entries|), Delivered(post))
            && t.buffer == Delivered(pre) + Delivered(mid) && t.ready == Resolved && t.hydrated && !t.closed
  {
    StoreFallbackPending(pre, fail, mid);
    var before := pre + [fail] + mid;
    var w := Run(INITIAL, before);
    LoadStep(w, entries);
    RunThen(INITIAL, before, StoreLoaded(entries), post);
    LiveRun(Step(w, StoreLoaded(entries)), post);
  }

  /** A client seeded from the store, however its hydration failed. The stream delivered `u..p` up to the store's answer
      and `p..d` after it; the first part stays in the buffer for good, and a cached flag is on as on the server
      after `d` if and only if it is toggled among `p..d` or its stored entry had the server's value at `p`. */
  lemma StoreFallbackExact(on: set<string>, log: Log, u: int, p: int, d: int, pre: seq<Action>, fail: Action,
                           mid: seq<Action>, entries: seq<CachedFlag>, post: seq<Action>, key: string)
    requires 0 <= u <= p <= d <= |log| && entries != []
    requires AllAwaiting(pre) && Fails(pre, fail) && AllAwaiting(mid) && AllOrdinary(post)
    requires Delivered(pre) + Delivered(mid) == log[u..p] && Delivered(post) == log[p..d]
    ensures var t := Run(INITIAL, pre + [fail] + mid + [StoreLoaded(entries)] + post);
            && t.ready == Resolved && t.hydrated && !t.closed && t.buffer == log[u..p]
            && (key in t.cache <==> exists i :: 0 <= i < |entries| && entries[i].key == key)
            && (key in t.cache ==>
                  key in Restored(entries, |entries|) &&
                  (t.cache[key].enabled == EnabledAt(on, log, d, key) <==>
                   Toggled(log[p..d], key) || Restored(entries, |entries|)[key].enabled == EnabledAt(on, log, p, key)))
  {
    StoreFallbackCache(pre, fail, mid, entries, post);
    var restored := Restored(entries, |entries|);
    RestoredKeys(entries, |entries|);
    CachedValue(restored, log[p..d], key);
    if key in restored { ReplayExactly(on, log, p, d, key, restored[key].enabled); }
  }

  // ---------- subscribers ----------

  predicate HasNote(ns: seq<Note>, key: string, callback: int) {
    exists i :: 0 <= i < |ns| && ns[i].key == key && ns[i].callback == callback
  }

  /** What a callback was last told about a key; `otherwise` if nothing. */
  function LastNote(ns: seq<Note>, key: string, callback: int, otherwise: bool): bool {
    if ns == [] then otherwise
    else if ns[|ns| - 1].key == key && ns[|ns| - 1].callback == callback then ns[|ns| - 1].enabled
    else LastNote(ns[..|ns| - 1], key, callback, otherwise)
  }

  /** A registered callback that has been told something about the key. */
  predicate Told(s: State, key: string, callback: int) {
    callback in Callbacks(s, key) && HasNote(s.notified, key, callback)
  }

  function Word(s: State, key: string, callback: int): bool { LastNote(s.notified, key, callback, false) }

  predicate Agrees(cache: Cache, key: string, enabled: bool) { key in cache && cache[key].enabled == enabled }

  /** The cache shows what every registered callback was last told. */
  ghost predicate Informed(s: State) { forall key, cb :: Told(s, key, cb) ==> Agrees(s.cache, key, Word(s, key, cb)) }

  lemma LastNoteSnoc(ns: seq<Note>, n: Note, key: string, cb: int)
    ensures LastNote(ns + [n], key, cb, false) ==
            if n.key == key && n.callback == cb then n.enabled else LastNote(ns, key, cb, false)
    ensures HasNote(ns + [n], key, cb) <==> HasNote(ns, key, cb) || (n.key == key && n.callback == cb)
  {
    var all := ns + [n];
    assert all[..|ns|] == ns;
    if HasNote(ns, key, cb) {
      var i :| 0 <= i < |ns| && ns[i].key == key && ns[i].callback == cb;
      assert all[i] == ns[i];
    }
    assert all[|ns|] == n;
  }

  lemma {:induction false} LastNoteOfBatch(ns: seq<Note>, k: string, cbs: seq<int>, enabled: bool, key: string, cb: int)
    ensures LastNote(ns + Notes(k, cbs, enabled), key, cb, false) ==
            if key == k && cb in cbs then enabled else LastNote(ns, key, cb, false)
    ensures HasNote(ns + Notes(k, cbs, enabled), key, cb) <==> HasNote(ns, key, cb) || (key == k && cb in cbs)
  {
    if cbs == [] {
      assert ns + Notes(k, cbs, enabled) == ns;
    } else {
      var init, last := cbs[..|cbs| - 1], cbs[|cbs| - 1];
      assert cbs == init + [last];
      LastNoteOfBatch(ns, k, init, enabled, key, cb);
      assert Notes(k, init + [last], enabled) == Notes(k, init, enabled) + [Note(k, last, enabled)];
      assert ns + Notes(k, cbs, enabled) == (ns + Notes(k, init, enabled)) + [Note(k, last, enabled)];
      LastNoteSnoc(ns + Notes(k, init, enabled), Note(k, last, enabled), key, cb);
    }
  }

  /** Applying events tells a registered callback the last value of a cached key that is among them, and nothing
      else. */
  lemma {:induction false} EventsTell(s: State, es: seq<FlagEvent>, key: string, cb: int)
    requires cb in Callbacks(s, key)
    ensures var t := ApplyEvents(s, es);
            if key in s.cache && Toggled(es, key)
            then Told(t, key, cb) && Agrees(t.cache, key, Word(t, key, cb))
            else (Told(t, key, cb) <==> Told(s, key, cb)) && Word(t, key, cb) == Word(s, key, cb) &&
                 (key in t.cache <==> key in s.cache) && (key in s.cache ==> t.cache[key] == s.cache[key])
  {
    if es != [] {
      var init, e := es[..|es| - 1], es[|es| - 1];
      EventsTell(s, init, key, cb);
      ApplyEventsFrame(s, init);
      ApplyEventsFrame(s, es);
      var m := ApplyEvents(s, init);
      LastNoteOfBatch(m.notified, e.key, Callbacks(m, e.key), e.enabled, key, cb);
      ToggledSnoc(es, key);
    }
  }

  /** After a cache is replaced and events are applied to it, the callbacks are informed exactly if the new cache has
      every key a registered callback was told about, with what it was told unless an event tells it anew. */
  lemma ReseedInforms(s: State, cache: Cache, es: seq<FlagEvent>)
    ensures Informed(ApplyEvents(s.(cache := cache), es)) <==>
            forall key, cb :: Told(s, key, cb) ==>
                key in cache && (Toggled(es, key) || Agrees(cache, key, Word(s, key, cb)))
  {
    var b := s.(cache := cache);
    var t := ApplyEvents(b, es);
    ApplyEventsFrame(b, es);
    forall key, cb | cb in Callbacks(s, key)
      ensures Told(t, key, cb) ==> Told(s, key, cb) || (key in cache && Toggled(es, key))
      ensures Told(s, key, cb) ==> Told(t, key, cb)
      ensures Told(t, key, cb) ==>
                (Agrees(t.cache, key, Word(t, key, cb)) <==>
                    key in cache && (Toggled(es, key) || Agrees(cache, key, Word(s, key, cb))))
    {
      EventsTell(b, es, key, cb);
    }
  }

  /** The new cache has every key a registered callback was told about, with the old cache's bit unless an event sets
      it. */
  ghost predicate Carries(s: State, cache: Cache, es: seq<FlagEvent>) {
    forall key, cb :: Told(s, key, cb) ==>
      key in cache && (Toggled(es, key) || (key in s.cache && cache[key].enabled == s.cache[key].enabled))
  }

  /** What keeps callbacks informed, action by action. */
  ghost predicate Telling(s: State, a: Action) {
    match a
    case Subscribe(key, cb) => HasNote(s.notified, key, cb) ==> Agrees(s.cache, key, Word(s, key, cb))
    case Hydrate(resp) => !s.phase.Reading? || s.closed || Carries(s, Populated(resp, |resp.flags|), s.buffer)
    case Malformed(rows) => !s.phase.Reading? || s.closed || Carries(s, Populated(rows, |rows.flags|), [])
    case Rehydrate(resp) => s.closed || Carries(s, Populated(resp, |resp.flags|), [])
    case StoreLoaded(entries) => !s.phase.Loading? || entries == [] || Carries(s, Restored(entries, |entries|), [])
    case _ => true
  }

  lemma SameTold(s: State, t: State)
    requires t.cache == s.cache && t.notified == s.notified && t.subscribers == s.subscribers
    ensures Informed(t) <==> Informed(s)
  {
    assert forall key, cb :: Told(t, key, cb) <==> Told(s, key, cb);
  }

  /** Replacing the cache of an informed client. */
  lemma ReseedCarries(s: State, cache: Cache, es: seq<FlagEvent>, t: State)
    requires Informed(s)
    requires var b := ApplyEvents(s.(cache := cache), es);
             t.cache == b.cache && t.notified == b.notified && t.subscribers == b.subscribers
    ensures Informed(t) <==> Carries(s, cache, es)
  {
    ReseedInforms(s, cache, es);
    SameTold(ApplyEvents(s.(cache := cache), es), t);
    forall key, cb | Told(s, key, cb) ensures Agrees(s.cache, key, Word(s, key, cb)) {}
  }

  lemma SubscribeInforms(s: State, key: string, cb: int)
    requires Informed(s)
    ensures Informed(Step(s, Subscribe(key, cb))) <==> Telling(s, Subscribe(key, cb))
  {
    var t := Step(s, Subscribe(key, cb));
    assert cb in Callbacks(t, key);
    forall k, c ensures Told(t, k, c) <==> Told(s, k, c) || (k == key && c == cb && HasNote(s.notified, key, cb)) {}
    assert HasNote(s.notified, key, cb) ==> Told(t, key, cb);
  }

  lemma {:induction false} WithoutExact(cbs: seq<int>, cb: int, c: int)
    ensures c in Without(cbs, cb) <==> c in cbs && c != cb
  {
    if cbs != [] {
      assert cbs == cbs[..|cbs| - 1] + [cbs[|cbs| - 1]];
      WithoutExact(cbs[..|cbs| - 1], cb, c);
    }
  }

  /** Unsubscribing takes away the callback for that key, and nothing else. */
  lemma UnsubscribeExact(s: State, key: string, cb: int, k: string, c: int)
    ensures c in Callbacks(Step(s, Unsubscribe(key, cb)), k) <==> c in Callbacks(s, k) && (k != key || c != cb)
    ensures c in Callbacks(Step(s, Subscribe(key, cb)), k) <==> c in Callbacks(s, k) || (k == key && c == cb)
  {
    if k == key { WithoutExact(Callbacks(s, key), cb, c); }
  }

  /** The notes from the `n`-th on tell this callback nothing about the key. */
  predicate Silent(ns: seq<Note>, n: int, key: string, cb: int) {
    forall i :: 0 <= n <= i < |ns| ==> ns[i].key != key || ns[i].callback != cb
  }

  lemma {:induction false} EventsTellOnlySubscribers(s: State, es: seq<FlagEvent>, key: string, cb: int)
    requires cb !in Callbacks(s, key)
    ensures var t := ApplyEvents(s, es);
            s.notified <= t.notified && Silent(t.notified, |s.notified|, key, cb)
  {
    if es != [] {
      EventsTellOnlySubscribers(s, es[..|es| - 1], key, cb);
      ApplyEventsFrame(s, es[..|es| - 1]);
    }
  }

  lemma SilentStep(s: State, a: Action, key: string, cb: int)
    requires cb !in Callbacks(s, key) && a != Subscribe(key, cb)
    ensures var t := Step(s, a);
            cb !in Callbacks(t, key) && s.notified <= t.notified && Silent(t.notified, |s.notified|, key, cb)
  {
    match a
    case Deliver(e) =>
      assert [e][..0] == [] && ApplyEvents(s, [e]) == ApplyEvent(s, e);
      EventsTellOnlySubscribers(s, [e], key, cb);
    case Hydrate(resp) =>
      var b := s.(cache := Populated(resp, |resp.flags|), hydrated := true, phase := Done);
      EventsTellOnlySubscribers(b, s.buffer, key, cb);
      ApplyEventsFrame(b, s.buffer);
    case Unsubscribe(k, c) => UnsubscribeExact(s, k, c, key, cb);
    case Subscribe(k, c) => UnsubscribeExact(s, k, c, key, cb);
    case _ =>
  }

  /** A callback that is not registered for a key, in particular one just unsubscribed, is told nothing about it until
      it is subscribed again, whatever happens. */
  lemma {:induction false} UnsubscribedIsSilent(s: State, acts: seq<Action>, key: string, cb: int)
    requires cb !in Callbacks(s, key) && Subscribe(key, cb) !in acts
    ensures var t := Run(s, acts);
            cb !in Callbacks(t, key) && s.notified <= t.notified && Silent(t.notified, |s.notified|, key, cb)
  {
    if acts != [] {
      var init, a := acts[..|acts| - 1], acts[|acts| - 1];
      assert a in acts;
      UnsubscribedIsSilent(s, init, key, cb);
      SilentStep(Run(s, init), a, key, cb);
    }
  }

  lemma UnsubscribeInforms(s: State, key: string, cb: int)
    requires Informed(s)
    ensures Informed(Step(s, Unsubscribe(key, cb)))
  {
    var t := Step(s, Unsubscribe(key, cb));
    forall k, c | Told(t, k, c) ensures Told(s, k, c) {
      UnsubscribeExact(s, key, cb, k, c);
    }
  }

  lemma DeliverInforms(s: State, e: FlagEvent)
    requires Informed(s)
    ensures Informed(Step(s, Deliver(e)))
  {
    var t := Step(s, Deliver(e));
    if !s.closed && s.hydrated {
      assert [e][..0] == [] && ApplyEvents(s, [e]) == t;
      ReseedCarries(s, s.cache, [e], t);
      assert Carries(s, s.cache, [e]) by {
        forall key, cb | Told(s, key, cb) ensures key in s.cache { assert Agrees(s.cache, key, Word(s, key, cb)); }
      }
    } else {
      SameTold(s, t);
    }
  }

  lemma {:induction false} HydratingIsReseeding(s: State, es: seq<FlagEvent>)
    ensures var a, b := ApplyEvents(s.(hydrated := true, phase := Done), es), ApplyEvents(s, es);
            a.cache == b.cache && a.notified == b.notified && a.subscribers == b.subscribers
  {
    if es != [] { HydratingIsReseeding(s, es[..|es| - 1]); }
  }

  lemma HydrateInforms(s: State, resp: Response)
    requires Informed(s) && s.phase.Reading? && !s.closed
    ensures Informed(Step(s, Hydrate(resp))) <==> Carries(s, Populated(resp, |resp.flags|), s.buffer)
  {
    HydratingIsReseeding(s.(cache := Populated(resp, |resp.flags|)), s.buffer);
    ReseedCarries(s, Populated(resp, |resp.flags|), s.buffer, Step(s, Hydrate(resp)));
  }

  /** Each action keeps the callbacks informed exactly if it is `Telling`: re-hydrating and loading from the store
      fail exactly when they change or drop a flag some callback was told about, since they tell nobody. */
  lemma InformedExactly(s: State, a: Action)
    requires Informed(s)
    ensures Informed(Step(s, a)) <==> Telling(s, a)
  {
    var t := Step(s, a);
    match a
    case Deliver(e) => DeliverInforms(s, e);
    case Hydrate(resp) =>
      if !s.phase.Reading? || s.closed {
        SameTold(s, t);
      } else {
        HydrateInforms(s, resp);
      }
    case Malformed(rows) =>
      if !s.phase.Reading? || s.closed {
        SameTold(s, t);
      } else {
        ReseedCarries(s, Populated(rows, |rows.flags|), [], t);
      }
    case Rehydrate(resp) =>
      if s.closed { SameTold(s, t); } else { ReseedCarries(s, Populated(resp, |resp.flags|), [], t); }
    case StoreLoaded(entries) =>
      if s.phase.Loading? && entries != [] {
        ReseedCarries(s, Restored(entries, |entries|), [], t);
      } else {
        SameTold(s, t);
      }
    case Subscribe(key, cb) => SubscribeInforms(s, key, cb);
    case Unsubscribe(key, cb) => UnsubscribeInforms(s, key, cb);
    case _ => SameTold(s, t);
  }

  /** Until the first hydration nobody has been told anything, so that whatever comes next is `Telling`; in particular
      the hydration itself, and the store fallback that stands in for it. */
  lemma {:induction false} UntoldBeforeHydration(acts: seq<Action>)
    requires forall i :: 0 <= i < |acts| ==> !acts[i].Hydrate? && !acts[i].StoreLoaded?
    ensures Run(INITIAL, acts).notified == [] && !Run(INITIAL, acts).hydrated
    ensures forall a :: Telling(Run(INITIAL, acts), a)
  {
    if acts != [] { UntoldBeforeHydration(acts[..|acts| - 1]); }
  }

  /** Over every run whose actions are `Telling` when they happen, the cache shows what every registered callback
      was last told. */
  lemma {:induction false} SubscribersInformed(acts: seq<Action>)
    requires forall i :: 0 <= i < |acts| ==> Telling(Run(INITIAL, acts[..i]), acts[i])
    ensures Informed(Run(INITIAL, acts))
  {
    if acts != [] {
      var init := acts[..|acts| - 1];
      forall i | 0 <= i < |init| ensures Telling(Run(INITIAL, init[..i]), init[i]) { assert init[..i] == acts[..i]; }
      SubscribersInformed(init);
      InformedExactly(Run(INITIAL, init), acts[|acts| - 1]);
    }
  }

  /** Re-hydrating fails in practice: a callback is told its flag went on, the connection drops, and the answer that
      says it is off again is never passed on. */
  lemma RehydrationTellsNobody(key: string, cb: int)
    ensures var resp := Response([FlagRow(key, false, None, "", "default")], "");
            var t := Run(INITIAL,
                [Subscribe(key, cb), Accepted] + [Hydrate(resp)] + [Deliver(Toggle(key, true))] + [Rehydrate(resp)]);
            Told(t, key, cb) && Word(t, key, cb) && key in t.cache && !t.cache[key].enabled && !Informed(t)
  {
    var resp := Response([FlagRow(key, false, None, "", "default")], "");
    var first, b, c, d := [Subscribe(key, cb), Accepted], Hydrate(resp), Deliver(Toggle(key, true)), Rehydrate(resp);
    assert first == [Subscribe(key, cb)] + [Accepted];
    RunOne(INITIAL, Subscribe(key, cb));
    RunPush(INITIAL, [Subscribe(key, cb)], Accepted);
    RunPush(INITIAL, first, b);
    RunPush(INITIAL, first + [b], c);
    RunPush(INITIAL, first + [b] + [c], d);
    PopulatedRow(resp, 1, 0);
    var s1 := Run(INITIAL, first);
    assert s1.subscribers[key] == [cb] && s1.cache == map[] && s1.notified == [] && s1.buffer == [] &&
        s1.phase.Reading?;
    var s2 := Step(s1, b);
    assert s2 == s1.(cache := Populated(resp, 1), hydrated := true, phase := Done, ready := Resolved);
    var s3 := Step(s2, c);
    assert s3.notified == [] + Notes(key, [cb], true) && Notes(key, [cb], true) == [Note(key, cb, true)];
    var t := Step(s3, d);
    assert t.notified[0] == Note(key, cb, true) && cb in Callbacks(t, key);
    assert Told(t, key, cb) && Word(t, key, cb);
  }
}
