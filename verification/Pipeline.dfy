/** The live-update pipeline end to end: toggles published to the broker, written to the wire, cut
    into network chunks, read back and applied by the cached client on top of a server snapshot. */
module Pipeline {
  import opened Domain
  import opened Sequences
  import opened Sse
  import opened ToggleLog
  import C = CachedClient
  import B = Broker
  import E = Evaluator
  import S = EvaluationService
  import R = StateRows

  // ---------- the toggle log of one project and environment ----------

  function ToggleOf(scope: Scope): DomainEvent -> seq<C.FlagEvent> {
    (e: DomainEvent) => if Wanted(scope, Event(e)) then [Toggle(e.flagKey, e.enabled)] else []
  }

  /** What published events mean for one project and environment. */
  function Toggles(scope: Scope, events: seq<DomainEvent>): C.Log { FlatMap(ToggleOf(scope), events) }

  function EventOf(item: Item): seq<DomainEvent> { if item.Event? then [item.event] else [] }

  /** The events among the items a stream handler woke up for. */
  function Events(items: seq<Item>): seq<DomainEvent> { FlatMap(EventOf, items) }

  function ItemToggle(scope: Scope): Item -> seq<C.FlagEvent> {
    (item: Item) => if Wanted(scope, item) then [Toggle(item.event.flagKey, item.event.enabled)] else []
  }

  // ---------- from signals to client actions ----------

  function SignalEvent(sig: Signal): seq<C.FlagEvent> {
    if sig.Change? then [Toggle(sig.event.flagKey, sig.event.enabled)] else []
  }

  /** The calls of `onFlagChange` a sequence of signals causes. */
  function Calls(signals: seq<Signal>): seq<C.Action> {
    if signals == [] then []
    else Calls(signals[..|signals| - 1]) +
         (if signals[|signals| - 1].Change? then [C.Deliver(SignalEvent(signals[|signals| - 1])[0])] else [])
  }

  lemma {:induction false} CallsDeliver(signals: seq<Signal>)
    ensures C.AllOrdinary(Calls(signals)) && C.Delivered(Calls(signals)) == FlatMap(SignalEvent, signals)
  {
    if signals != [] {
      var init := signals[..|signals| - 1];
      CallsDeliver(init);
      if signals[|signals| - 1].Change? {
        assert Calls(signals)[..|Calls(init)|] == Calls(init);
      } else {
        assert Calls(signals) == Calls(init);
      }
    }
  }

  lemma WantedChangesAreToggles(scope: Scope, items: seq<Item>)
    ensures FlatMap(SignalEvent, FlatMap(WantedChange(scope), items)) == Toggles(scope, Events(items))
  {
    forall i | 0 <= i < |items|
      ensures FlatMap(SignalEvent, WantedChange(scope)(items[i])) == ItemToggle(scope)(items[i])
      ensures FlatMap(ToggleOf(scope), EventOf(items[i])) == ItemToggle(scope)(items[i])
    {
      if Wanted(scope, items[i]) { FlatMapOne(SignalEvent, Change(ToWire(items[i].event))); }
      if items[i].Event? { FlatMapOne(ToggleOf(scope), items[i].event); }
    }
    FlatMapCompose(WantedChange(scope), SignalEvent, ItemToggle(scope), items);
    FlatMapCompose(EventOf, ToggleOf(scope), ItemToggle(scope), items);
  }

  // ---------- the network between writer and client ----------

  /** The signals caused by the chunks after the first `j`: those of the whole text beyond those of the first part. */
  ghost function LaterSignals(space: char -> bool, decode: Decoder, chunks: seq<string>, j: int): seq<Signal>
    requires 0 <= j <= |chunks|
  {
    FlatMap(BlockSignals(space, decode), CutBlocks(CutBlocks(Concat(chunks[..j])).rest + Concat(chunks[j..])).blocks)
  }

  lemma SignalsSplit(space: char -> bool, decode: Decoder, chunks: seq<string>, j: int)
    requires 0 <= j <= |chunks|
    ensures Told(space, decode, Concat(chunks)) == Told(space, decode, Concat(chunks[..j])) +
              LaterSignals(space, decode, chunks, j)
  {
    var a, b := Concat(chunks[..j]), Concat(chunks[j..]);
    assert chunks == chunks[..j] + chunks[j..];
    FlatMapConcat((c: string) => c, chunks[..j], chunks[j..]);
    CutContinues(a, b);
    FlatMapConcat(BlockSignals(space, decode), CutBlocks(a).blocks, CutBlocks(CutBlocks(a).rest + b).blocks);
  }

  /** The calls before the hydration answer is complete, with its headers arriving after the first `h` of them. */
  function WithHeaders(calls: seq<C.Action>, h: int): seq<C.Action>
    requires 0 <= h <= |calls|
  {
    calls[..h] + [C.Accepted] + calls[h..]
  }

  lemma HeadersAwaited(calls: seq<C.Action>, h: int)
    requires C.AllOrdinary(calls) && 0 <= h <= |calls|
    ensures C.AllAwaiting(WithHeaders(calls, h)) && C.Accepted in WithHeaders(calls, h)
  {
    var all := WithHeaders(calls, h);
    forall i | 0 <= i < |all| ensures C.Ordinary(all[i]) || all[i].Accepted? {
      if i < h { assert all[i] == calls[i]; } else if i > h { assert all[i] == calls[i - 1]; }
    }
    assert all[h] == C.Accepted;
  }

  lemma HeadersDeliverNothing(calls: seq<C.Action>, h: int)
    requires 0 <= h <= |calls|
    ensures C.Delivered(WithHeaders(calls, h)) == C.Delivered(calls)
  {
    var a, b := calls[..h], calls[h..];
    assert calls == a + b;
    C.DeliveredConcat(a, b);
    C.DeliveredConcat(a + [C.Accepted], b);
    assert C.Delivered(a + [C.Accepted]) == C.Delivered(a) by { assert (a + [C.Accepted])[..|a|] == a; }
  }

  /** The calls the first `j` chunks cause. */
  ghost function FirstCalls(space: char -> bool, decode: Decoder, chunks: seq<string>, j: int): seq<C.Action>
    requires 0 <= j <= |chunks|
  {
    Calls(Told(space, decode, Concat(chunks[..j])))
  }

  /** What the client does: handle the first `j` chunks, with the headers of the hydration answer among them, then its
      body, then the other chunks. */
  ghost function ClientRun(space: char -> bool, decode: Decoder, chunks: seq<string>, h: int, j: int,
                           resp: C.Response): C.State
    requires 0 <= j <= |chunks| && 0 <= h <= |FirstCalls(space, decode, chunks, j)|
  {
    C.Run(C.INITIAL, WithHeaders(FirstCalls(space, decode, chunks, j), h) + [C.Hydrate(resp)] +
                     Calls(LaterSignals(space, decode, chunks, j)))
  }

  /** In two parts, the client is handed exactly the toggles of its scope among what was written. */
  lemma ClientIsHandedToggles(space: char -> bool, encode: Encoder, decode: Decoder, scope: Scope, items: seq<Item>,
                              chunks: seq<string>, j: int)
    requires GoodTexts(space, encode, decode, scope, items)
    requires Concat(chunks) == WireText(scope, encode, items) && 0 <= j <= |chunks|
    ensures var first, later := Calls(Told(space, decode, Concat(chunks[..j]))),
              Calls(LaterSignals(space, decode, chunks, j));
            && C.AllOrdinary(first) && C.AllOrdinary(later)
            && C.Delivered(first) + C.Delivered(later) == Toggles(scope, Events(items))
  {
    var first, later := Told(space, decode, Concat(chunks[..j])), LaterSignals(space, decode, chunks, j);
    SignalsSplit(space, decode, chunks, j);
    JsRoundTrip(space, encode, decode, scope, items);
    WantedChangesAreToggles(scope, items);
    FlatMapConcat(SignalEvent, first, later);
    CallsDeliver(first);
    CallsDeliver(later);
  }

  /** The toggles since the subscription are the tail of the whole log. */
  lemma TogglesSince(scope: Scope, before: seq<DomainEvent>, events: seq<DomainEvent>)
    ensures var log, u := Toggles(scope, before + events), |Toggles(scope, before)|;
            u <= |log| && log[u..|log|] == Toggles(scope, events)
  {
    FlatMapConcat(ToggleOf(scope), before, events);
  }

  /** From writer to client: however the text is cut into chunks and wherever the hydration answer falls between them,
      the client ends up showing the server's state after everything written, exactly for the flags that were toggled
      since the subscription or had the same value in the snapshot as when it began. */
  lemma StreamConverges(space: char -> bool, encode: Encoder, decode: Decoder, scope: Scope,
                        on: set<string>, before: seq<DomainEvent>, items: seq<Item>,
                        chunks: seq<string>, h: int, j: int, s: int, resp: C.Response)
    requires GoodTexts(space, encode, decode, scope, items)
    requires Concat(chunks) == WireText(scope, encode, items) && 0 <= j <= |chunks|
    requires 0 <= h <= |FirstCalls(space, decode, chunks, j)|
    requires C.SnapshotAt(resp, on, Toggles(scope, before + Events(items)), s)
    ensures var t, log, u := ClientRun(space, decode, chunks, h, j, resp), Toggles(scope, before + Events(items)),
              |Toggles(scope, before)|;
            && u <= |log|
            && t.ready == C.Resolved
            && (forall key :: key in t.cache <==> exists i :: 0 <= i < |resp.flags| && resp.flags[i].key == key)
            && (forall key :: key in t.cache ==>
                  (t.cache[key].enabled == EnabledAt(on, log, |log|, key) <==>
                   Toggled(log[u..], key) || EnabledAt(on, log, s, key) == EnabledAt(on, log, u, key)))
            && (u <= s ==> forall key :: key in t.cache ==> t.cache[key].enabled == EnabledAt(on, log, |log|, key))
  {
    var first, later := Calls(Told(space, decode, Concat(chunks[..j]))), Calls(LaterSignals(space, decode, chunks, j));
    var log, u := Toggles(scope, before + Events(items)), |Toggles(scope, before)|;
    ClientIsHandedToggles(space, encode, decode, scope, items, chunks, j);
    TogglesSince(scope, before, Events(items));
    assert log[u..] == log[u..|log|];
    HeadersAwaited(first, h);
    HeadersDeliverNothing(first, h);
    C.Convergence(on, log, u, s, |log|, WithHeaders(first, h), resp, later);
  }

  // ---------- the snapshot the server answers ----------

  function RowOf(view: S.EvalView): C.FlagRow {
    C.FlagRow(view.key, view.enabled, view.value, view.valueKey,
              match view.reason case Disabled => "disabled" case Default => "default" case RuleMatch => "rule_match")
  }

  /** The store's state rows of a project and environment reflect the first `s` toggles of its log. */
  ghost predicate StoreAt(db: S.Db, project: string, env: string, on: set<string>, log: C.Log, s: int) {
    0 <= s <= |log| && forall flag :: flag in S.ListFlags(db.flags, project) ==>
      (S.FindState(db.states, flag.id, env) == Some(true) <==> EnabledAt(on, log, s, flag.key))
  }

  /** The answer is what `EvaluateAll` serves from that store. */
  ghost predicate AnswersFrom(resp: C.Response, db: S.Db, project: string, env: string, ctx: E.EvalContext,
                              views: seq<S.EvalView>)
  {
    && |views| == |S.ListFlags(db.flags, project)| == |resp.flags|
    && (forall i :: 0 <= i < |views| ==> S.Served(db, project, env, S.ListFlags(db.flags, project)[i], ctx, views[i]))
    && (forall i :: 0 <= i < |views| ==> resp.flags[i] == RowOf(views[i]))
  }

  lemma AnswerIsSnapshot(resp: C.Response, db: S.Db, project: string, env: string, ctx: E.EvalContext,
                         views: seq<S.EvalView>, on: set<string>, log: C.Log, s: int)
    requires AnswersFrom(resp, db, project, env, ctx, views) && StoreAt(db, project, env, on, log, s)
    ensures C.SnapshotAt(resp, on, log, s)
    ensures forall i :: 0 <= i < |resp.flags| ==> resp.flags[i].key == S.ListFlags(db.flags, project)[i].key
  {
    var flags := S.ListFlags(db.flags, project);
    forall i | 0 <= i < |resp.flags|
      ensures resp.flags[i].key == flags[i].key && resp.flags[i].enabled == EnabledAt(on, log, s, resp.flags[i].key)
    {
      assert flags[i] in flags;
      assert S.Served(db, project, env, flags[i], ctx, views[i]);
      S.ServedEnabled(db, project, env, flags[i], ctx, views[i]);
    }
  }

  /** What a hydrated client serves: for every interleaving the cached variant of a flag is a right answer of the
      evaluator at the snapshot, stays so whatever is delivered later, and the reason is the evaluator's until the flag
      is toggled. Keys are unique within the project. */
  lemma CachedIsEvaluated(pre: seq<C.Action>, post: seq<C.Action>, resp: C.Response, db: S.Db, project: string,
                          env: string, ctx: E.EvalContext, views: seq<S.EvalView>, i: int)
    returns (r: E.EvalResult)
    requires C.AllAwaiting(pre) && C.Accepted in pre && C.AllOrdinary(post)
    requires AnswersFrom(resp, db, project, env, ctx, views) && 0 <= i < |views|
    requires forall k :: i < k < |resp.flags| ==> resp.flags[k].key != resp.flags[i].key
    ensures var flag := S.ListFlags(db.flags, project)[i];
            && E.Outcome(flag, S.FindState(db.states, flag.id, env), S.RuleSet(db, flag.id, env), ctx,
                         S.Memberships(db, project, ctx.userId), r)
            && var t := C.Run(C.INITIAL, pre + [C.Hydrate(resp)] + post);
               && flag.key in t.cache && t.cache[flag.key].variant == r.variantKey
               && t.cache[flag.key].value == (if flag.flagType.Bool? then None else Some(r.variantKey))
               && (!Toggled(C.Delivered(pre) + C.Delivered(post), flag.key) ==>
                     && (r.reason == E.Disabled ==> t.cache[flag.key].reason == "disabled")
                     && (r.reason == E.Default ==> t.cache[flag.key].reason == "default")
                     && (r.reason == E.RuleMatch ==> t.cache[flag.key].reason == "rule_match"))
  {
    var flag := S.ListFlags(db.flags, project)[i];
    r := S.ServedFields(db, project, env, flag, ctx, views[i]);
    C.HydratedVariant(pre, resp, post, i);
  }

  // ---------- from the broker to the cache ----------

  /** The broker ran any interleaving in which this subscriber never fell behind by more than its buffer; the
      handler has drained its channel and written every event it received, with keep-alives anywhere; the network
      cut the text into any chunks; the hydration answer, computed by `EvaluateAll` from a store reflecting any
      moment, arrived between any two chunks. Then every flag of the project is cached, and on as the last
      published toggle left it exactly if it was toggled since the subscription or the answer was not older for it. */
  lemma BrokerToCache(bufSize: nat, acts: seq<B.Action<DomainEvent>>, id: int,
                      space: char -> bool, encode: Encoder, decode: Decoder, scope: Scope,
                      on: set<string>, before: seq<DomainEvent>, items: seq<Item>, chunks: seq<string>, h: int, j: int,
                      s: int, db: S.Db, project: string, env: string, ctx: E.EvalContext,
                      views: seq<S.EvalView>, resp: C.Response)
    requires id in B.Run(B.Initial(bufSize), acts).chans && B.KeptUp(bufSize, acts, id)
    requires var c := B.Run(B.Initial(bufSize), acts).chans[id]; c.queue == [] && c.received == Events(items)
    requires GoodTexts(space, encode, decode, scope, items)
    requires Concat(chunks) == WireText(scope, encode, items) && 0 <= j <= |chunks|
    requires 0 <= h <= |FirstCalls(space, decode, chunks, j)|
    requires var log := Toggles(scope, before + B.Run(B.Initial(bufSize), acts).chans[id].offered);
             StoreAt(db, project, env, on, log, s)
    requires AnswersFrom(resp, db, project, env, ctx, views)
    ensures var t, u := ClientRun(space, decode, chunks, h, j, resp), |Toggles(scope, before)|;
            var log := Toggles(scope, before + B.Run(B.Initial(bufSize), acts).chans[id].offered);
            && t.ready == C.Resolved && u <= |log|
            && (forall flag :: flag in S.ListFlags(db.flags, project) ==>
                  flag.key in t.cache &&
                  (t.cache[flag.key].enabled == EnabledAt(on, log, |log|, flag.key) <==>
                   Toggled(log[u..], flag.key) || EnabledAt(on, log, s, flag.key) == EnabledAt(on, log, u, flag.key)))
            && (u <= s ==> forall flag :: flag in S.ListFlags(db.flags, project) ==>
                  t.cache[flag.key].enabled == EnabledAt(on, log, |log|, flag.key))
  {
    var c := B.Run(B.Initial(bufSize), acts).chans[id];
    B.LosslessExactly(bufSize, acts, id);
    assert c.received + [] == c.received;
    assert c.offered == Events(items);
    var log := Toggles(scope, before + c.offered);
    AnswerIsSnapshot(resp, db, project, env, ctx, views, on, log, s);
    StreamConverges(space, encode, decode, scope, on, before, items, chunks, h, j, s, resp);
    var flags := S.ListFlags(db.flags, project);
    forall flag | flag in flags ensures exists i :: 0 <= i < |resp.flags| && resp.flags[i].key == flag.key {
      var i :| 0 <= i < |flags| && flags[i] == flag;
      assert resp.flags[i].key == flag.key;
    }
  }

  // ---------- from the store to the broker ----------

  /** How state rows are named on the wire: flags by key, environments by project and environment slug. */
  datatype Names = Names(keyOf: string -> string, scopeOf: string -> Scope)

  /** The event `SetEnabled` publishes once it has stored a toggle. */
  predicate Announces(names: Names, e: DomainEvent, t: Toggle<R.RowKey>) {
    && e.FlagChange? && Scope(e.project, e.environment) == names.scopeOf(t.key.1)
    && e.flagKey == names.keyOf(t.key.0) && e.enabled == t.enabled
  }

  /** Every stored toggle was published, in the order of the writes. */
  ghost predicate Published(names: Names, events: seq<DomainEvent>, log: seq<Toggle<R.RowKey>>) {
    |events| == |log| && forall i :: 0 <= i < |log| ==> Announces(names, events[i], log[i])
  }

  /** The toggles of one environment, by flag key. */
  function EnvLog(names: Names, env: string, log: seq<Toggle<R.RowKey>>): C.Log {
    if log == [] then []
    else EnvLog(names, env, log[..|log| - 1]) +
         (if log[|log| - 1].key.1 == env then [Toggle(names.keyOf(log[|log| - 1].key.0), log[|log| - 1].enabled)]
             else [])
  }

  /** Only this environment has its slugs among the toggles. */
  ghost predicate OwnScope(names: Names, env: string, log: seq<Toggle<R.RowKey>>) {
    forall i :: 0 <= i < |log| && names.scopeOf(log[i].key.1) == names.scopeOf(env) ==> log[i].key.1 == env
  }

  /** No other flag toggled in the environment has this flag's key. */
  ghost predicate OwnKey(names: Names, env: string, log: seq<Toggle<R.RowKey>>, f: string) {
    forall i :: 0 <= i < |log| && log[i].key.1 == env && names.keyOf(log[i].key.0) == names.keyOf(f) ==>
        log[i].key.0 == f
  }

  lemma {:induction false} PublishedToggles(names: Names, env: string, events: seq<DomainEvent>,
                                            log: seq<Toggle<R.RowKey>>)
    requires Published(names, events, log) && OwnScope(names, env, log)
    ensures Toggles(names.scopeOf(env), events) == EnvLog(names, env, log)
  {
    if log != [] {
      var n := |log| - 1;
      PublishedToggles(names, env, events[..n], log[..n]);
      assert Announces(names, events[n], log[n]);
      assert Wanted(names.scopeOf(env), Event(events[n])) <==> log[n].key.1 == env;
    }
  }

  lemma {:induction false} EnvLogConcat(names: Names, env: string, a: seq<Toggle<R.RowKey>>, b: seq<Toggle<R.RowKey>>)
    ensures EnvLog(names, env, a + b) == EnvLog(names, env, a) + EnvLog(names, env, b)
  {
    if b == [] {
      assert a + b == a;
    } else {
      EnvLogConcat(names, env, a, b[..|b| - 1]);
      assert (a + b)[..|a + b| - 1] == a + b[..|b| - 1];
    }
  }

  lemma {:induction false} EnvLogValue(names: Names, env: string, log: seq<Toggle<R.RowKey>>, f: string,
                                       otherwise: bool)
    requires OwnKey(names, env, log, f)
    ensures LastValue(EnvLog(names, env, log), names.keyOf(f), otherwise) == LastValue(log, (f, env), otherwise)
  {
    if log != [] {
      var init, last := log[..|log| - 1], log[|log| - 1];
      EnvLogValue(names, env, init, f, otherwise);
      var l := EnvLog(names, env, init);
      if last.key.1 == env {
        assert (l + [Toggle(names.keyOf(last.key.0), last.enabled)])[..|l|] == l;
      } else {
        assert EnvLog(names, env, log) == l;
      }
    }
  }

  /** The keys that are on in an environment. */
  function KeysOn(names: Names, env: string, s: R.Store): set<string> {
    set f | f in s.flags && (f, env) in s.states && s.states[(f, env)] :: names.keyOf(f)
  }

  /** The toggles stored since moment `n` of a run. */
  function LogSince(states: seq<R.Store>, n: nat, i: nat): seq<Toggle<R.RowKey>>
    requires n < |states| && i < |states|
  {
    if states[n].log <= states[i].log then states[i].log[|states[n].log|..] else []
  }

  /** A flag's key is its own from moment `n` on: no flag stored at `n`, and none toggled since, shares it. */
  ghost predicate KeyIsOwn(names: Names, env: string, s: R.Store, log: seq<Toggle<R.RowKey>>, f: string) {
    && OwnKey(names, env, log, f)
    && forall g :: g in s.flags && (g, env) in s.states && names.keyOf(g) == names.keyOf(f) ==> g == f
  }

  lemma LogSplits(states: seq<R.Store>, ops: seq<R.Op>, n: nat, i: nat, m: nat)
    requires R.IsRun(states, ops) && n <= i <= m < |states|
    ensures var all, part := LogSince(states, n, m), LogSince(states, n, i);
            |part| <= |all| && all == part + all[|part|..]
  {
    R.HistoryGrows(states, ops, n, i);
    R.HistoryGrows(states, ops, i, m);
  }

  lemma WasOn(states: seq<R.Store>, ops: seq<R.Op>, n: nat, names: Names, env: string, f: string)
    requires R.IsRun(states, ops) && n < |states|
    requires forall g :: g in states[n].flags && (g, env) in states[n].states && names.keyOf(g) == names.keyOf(f) ==>
               g == f
    ensures names.keyOf(f) in KeysOn(names, env, states[n]) <==>
              (f, env) in states[n].states && states[n].states[(f, env)]
  {
    R.RunKeepsInv(states, ops, n);
  }

  /** The log the clients see tells the bit of every stored row, at every later moment of the run. */
  lemma RowIsLogged(states: seq<R.Store>, ops: seq<R.Op>, n: nat, i: nat, m: nat, names: Names, env: string, f: string)
    requires R.IsRun(states, ops) && n <= i <= m < |states| && (f, env) in states[i].states
    requires KeyIsOwn(names, env, states[n], LogSince(states, n, m), f)
    ensures var log, s := EnvLog(names, env, LogSince(states, n, m)), |EnvLog(names, env, LogSince(states, n, i))|;
            s <= |log| && states[i].states[(f, env)] == EnabledAt(KeysOn(names, env, states[n]), log, s, names.keyOf(f))
  {
    R.BitSince(states, ops, n, i, (f, env));
    var all, part := LogSince(states, n, m), LogSince(states, n, i);
    LogSplits(states, ops, n, i, m);
    assert OwnKey(names, env, part, f) by { assert forall k :: 0 <= k < |part| ==> part[k] == all[k]; }
    EnvLogConcat(names, env, part, all[|part|..]);
    assert EnvLog(names, env, all)[..|EnvLog(names, env, part)|] == EnvLog(names, env, part);
    WasOn(states, ops, n, names, env, f);
    EnvLogValue(names, env, part, f, names.keyOf(f) in KeysOn(names, env, states[n]));
  }

  /** What the evaluation repositories read is this store. */
  ghost predicate Reads(db: S.Db, st: R.Store, names: Names, project: string, env: string) {
    && env in st.envs && st.envs[env].project == project
    && (forall flag :: flag in S.ListFlags(db.flags, project) ==>
          flag.id in st.flags && st.flags[flag.id].project == project && names.keyOf(flag.id) == flag.key)
    && (forall f :: S.FindState(db.states, f, env) == if (f, env) in st.states then Some(st.states[(f, env)]) else None)
  }

  /** Every listed flag has its row. */
  lemma ListedRow(st: R.Store, names: Names, db: S.Db, project: string, env: string, flag: Flag)
    requires R.Covered(st) && Reads(db, st, names, project, env) && flag in S.ListFlags(db.flags, project)
    ensures (flag.id, env) in st.states && names.keyOf(flag.id) == flag.key
    ensures S.FindState(db.states, flag.id, env) == Some(st.states[(flag.id, env)])
  {
    assert st.flags[flag.id].project == st.envs[env].project;
  }

  lemma EnvLogPrefix(states: seq<R.Store>, ops: seq<R.Op>, n: nat, i: nat, m: nat, names: Names, env: string)
    requires R.IsRun(states, ops) && n <= i <= m < |states|
    ensures |EnvLog(names, env, LogSince(states, n, i))| <= |EnvLog(names, env, LogSince(states, n, m))|
  {
    LogSplits(states, ops, n, i, m);
    var all, part := LogSince(states, n, m), LogSince(states, n, i);
    EnvLogConcat(names, env, part, all[|part|..]);
  }

  /** The store at any moment `i` of a run is a moment of the published log. */
  lemma RunIsStoreAt(states: seq<R.Store>, ops: seq<R.Op>, n: nat, i: nat, m: nat, names: Names, db: S.Db,
                     project: string, env: string)
    requires R.IsRun(states, ops) && n <= i <= m < |states| && Reads(db, states[i], names, project, env)
    requires forall flag :: flag in S.ListFlags(db.flags, project) ==>
               KeyIsOwn(names, env, states[n], LogSince(states, n, m), flag.id)
    ensures StoreAt(db, project, env, KeysOn(names, env, states[n]), EnvLog(names, env, LogSince(states, n, m)),
                    |EnvLog(names, env, LogSince(states, n, i))|)
  {
    R.RunKeepsInv(states, ops, i);
    EnvLogPrefix(states, ops, n, i, m, names, env);
    var on, log, s := KeysOn(names, env, states[n]), EnvLog(names, env, LogSince(states, n, m)),
        |EnvLog(names, env, LogSince(states, n, i))|;
    forall flag | flag in S.ListFlags(db.flags, project)
      ensures S.FindState(db.states, flag.id, env) == Some(true) <==> EnabledAt(on, log, s, flag.key)
    {
      ListedRow(states[i], names, db, project, env, flag);
      RowIsLogged(states, ops, n, i, m, names, env, flag.id);
    }
  }

  // ---------- end to end ----------

  /** Toggle to cache, end to end. The store went through any run of creates, deletes and toggles with arbitrary
      failures; every toggle stored from moment `n` on was published, in order, some before the client subscribed
      and the rest to its channel. The broker ran any interleaving in which the subscriber never fell behind
      by more than its buffer, the handler wrote what it received, the network cut the text into any chunks, and the
      answer of `EvaluateAll` over the store at any moment `i` arrived between any two of them. Then every flag the
      answer lists is cached, and if it is still stored it is on exactly as in the store if and only if it was
      toggled since the subscription or the answer saw the value it had when the subscription began; always so if the
      store was read after that. */
  lemma EndToEnd(states: seq<R.Store>, ops: seq<R.Op>, n: nat, i: nat, names: Names,
                 bufSize: nat, acts: seq<B.Action<DomainEvent>>, id: int, before: seq<DomainEvent>,
                 space: char -> bool, encode: Encoder, decode: Decoder, items: seq<Item>,
                 chunks: seq<string>, h: int, j: int,
                 db: S.Db, project: string, env: string, ctx: E.EvalContext, views: seq<S.EvalView>, resp: C.Response)
    requires R.IsRun(states, ops) && n <= i < |states| && Reads(db, states[i], names, project, env)
    requires OwnScope(names, env, LogSince(states, n, |states| - 1))
    requires forall flag :: flag in S.ListFlags(db.flags, project) ==>
               KeyIsOwn(names, env, states[n], LogSince(states, n, |states| - 1), flag.id)
    requires id in B.Run(B.Initial(bufSize), acts).chans && B.KeptUp(bufSize, acts, id)
    requires Published(names, before + B.Run(B.Initial(bufSize), acts).chans[id].offered,
               LogSince(states, n, |states| - 1))
    requires var c := B.Run(B.Initial(bufSize), acts).chans[id]; c.queue == [] && c.received == Events(items)
    requires GoodTexts(space, encode, decode, names.scopeOf(env), items)
    requires Concat(chunks) == WireText(names.scopeOf(env), encode, items) && 0 <= j <= |chunks|
    requires 0 <= h <= |FirstCalls(space, decode, chunks, j)|
    requires AnswersFrom(resp, db, project, env, ctx, views)
    ensures var t, now := ClientRun(space, decode, chunks, h, j, resp), states[|states| - 1];
            var on, log := KeysOn(names, env, states[n]), EnvLog(names, env, LogSince(states, n, |states| - 1));
            var s, u := |EnvLog(names, env, LogSince(states, n, i))|, |Toggles(names.scopeOf(env), before)|;
            && t.ready == C.Resolved && u <= |log| && s <= |log|
            && (forall flag :: flag in S.ListFlags(db.flags, project) ==>
                  flag.key in t.cache &&
                  ((flag.id, env) in now.states ==>
                     (t.cache[flag.key].enabled == now.states[(flag.id, env)] <==>
                      Toggled(log[u..], flag.key) || EnabledAt(on, log, s, flag.key) == EnabledAt(on, log, u, flag.key))
                     && (u <= s ==> t.cache[flag.key].enabled == now.states[(flag.id, env)])))
  {
    var m := |states| - 1;
    var events := before + B.Run(B.Initial(bufSize), acts).chans[id].offered;
    var on, log := KeysOn(names, env, states[n]), EnvLog(names, env, LogSince(states, n, m));
    var s := |EnvLog(names, env, LogSince(states, n, i))|;
    PublishedToggles(names, env, events, LogSince(states, n, m));
    RunIsStoreAt(states, ops, n, i, m, names, db, project, env);
    BrokerToCache(bufSize, acts, id, space, encode, decode, names.scopeOf(env), on, before, items, chunks, h, j,
                  s, db, project, env, ctx, views, resp);
    forall flag | flag in S.ListFlags(db.flags, project) && (flag.id, env) in states[m].states
      ensures states[m].states[(flag.id, env)] == EnabledAt(on, log, |log|, flag.key)
    {
      RowIsLogged(states, ops, n, m, m, names, env, flag.id);
    }
  }
}
