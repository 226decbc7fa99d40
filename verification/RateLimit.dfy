/** The fixed-window rate limiter of the HTTP API, one window per key. */
module RateLimit {
  import opened Domain
  import opened Sequences

  datatype Window = Window(count: int, end: int)

  /** A request in the order the lock is taken. */
  datatype Request = Request(key: string, now: int)

  /** The decision for one key: the new window and whether the request passes. */
  function Decide(limit: int, size: int, w: Option<Window>, now: int): (Window, bool) {
    if w.None? || now > w.value.end then (Window(1, now + size), true)
    else if w.value.count >= limit then (w.value, false)
    else (Window(w.value.count + 1, w.value.end), true)
  }

  function Lookup(windows: map<string, Window>, key: string): Option<Window> {
    if key in windows then Some(windows[key]) else None
  }

  function Step(limit: int, size: int, windows: map<string, Window>, r: Request): map<string, Window> {
    windows[r.key := Decide(limit, size, Lookup(windows, r.key), r.now).0]
  }

  class RateLimiter {
    const limit: int
    const windowSize: int
    var windows: map<string, Window>

    constructor (limit: int, windowSize: int)
      ensures this.limit == limit && this.windowSize == windowSize && windows == map[]
    {
      this.limit, this.windowSize, windows := limit, windowSize, map[];
    }

    /** `allow`, with the clock reading as a parameter. */
    method Allow(key: string, now: int) returns (ok: bool)
      modifies this
      ensures windows == Step(limit, windowSize, old(windows), Request(key, now))
      ensures ok == Decide(limit, windowSize, Lookup(old(windows), key), now).1
    {
      if key !in windows || now > windows[key].end {
        windows := windows[key := Window(1, now + windowSize)];
        return true;
      }
      if windows[key].count >= limit {
        assert windows == windows[key := windows[key]];
        return false;
      }
      windows := windows[key := windows[key].(count := windows[key].count + 1)];
      ok := true;
    }
  }

  /** The limiter's table after the first `n` requests. */
  function Run(limit: int, size: int, rs: seq<Request>, n: int): map<string, Window>
    requires 0 <= n <= |rs|
  {
    if n == 0 then map[] else Step(limit, size, Run(limit, size, rs, n - 1), rs[n - 1])
  }

  /** Request `i` passes. */
  predicate Admitted(limit: int, size: int, rs: seq<Request>, i: int)
    requires 0 <= i < |rs|
  {
    Decide(limit, size, Lookup(Run(limit, size, rs, i), rs[i].key), rs[i].now).1
  }

  // ---------- one key on its own ----------

  /** An admitted request: its position in the run, its time and the opening time of its window. */
  datatype Pass = Pass(index: int, time: int, start: int)

  /** What the limiter has done for one key, looking at that key's requests only. */
  datatype Trace = Trace(window: Option<Window>, passes: seq<Pass>)

  function TraceStep(limit: int, size: int, t: Trace, index: int, now: int): Trace {
    var (w, ok) := Decide(limit, size, t.window, now);
    Trace(Some(w), if ok then t.passes + [Pass(index, now, w.end - size)] else t.passes)
  }

  function TraceOf(limit: int, size: int, rs: seq<Request>, n: int, key: string): Trace
    requires 0 <= n <= |rs|
  {
    if n == 0 then Trace(None, [])
    else
      var t, r := TraceOf(limit, size, rs, n - 1, key), rs[n - 1];
      if r.key != key then t else TraceStep(limit, size, t, n - 1, r.now)
  }

  /** Keys never affect each other: a key's window and the requests admitted for it are those of its own trace. */
  lemma {:induction false} KeysIndependent(limit: int, size: int, rs: seq<Request>, n: int, key: string)
    requires 0 <= n <= |rs|
    ensures Lookup(Run(limit, size, rs, n), key) == TraceOf(limit, size, rs, n, key).window
    ensures forall i :: 0 <= i < n ==>
              (rs[i].key == key && Admitted(limit, size, rs, i) <==>
               exists j :: 0 <= j < |TraceOf(limit, size, rs, n, key).passes| &&
                   TraceOf(limit, size, rs, n, key).passes[j].index == i)
    ensures forall j :: 0 <= j < |TraceOf(limit, size, rs, n, key).passes| ==>
              var p := TraceOf(limit, size, rs, n, key).passes[j]; 0 <= p.index < n && p.time == rs[p.index].now
    decreases n
  {
    if n > 0 {
      KeysIndependent(limit, size, rs, n - 1, key);
      var before, after := TraceOf(limit, size, rs, n - 1, key).passes, TraceOf(limit, size, rs, n, key).passes;
      assert before <= after;
      forall i | 0 <= i < n
        ensures rs[i].key == key && Admitted(limit, size, rs, i) <==>
                  exists j :: 0 <= j < |after| && after[j].index == i
      {
        if i == n - 1 {
          if rs[i].key == key && Admitted(limit, size, rs, i) { assert after[|before|].index == i; }
        } else {
          assert forall j :: 0 <= j < |before| ==> after[j] == before[j];
        }
      }
    }
  }

  predicate InOrder(size: int, p: Pass, q: Pass) { p.start == q.start || p.start + size < q.start }

  /** Windows open more than `size` apart, in order. */
  predicate Apart(size: int, ps: seq<Pass>) {
    forall i, j {:trigger InOrder(size, ps[i], ps[j])} :: 0 <= i < j < |ps| ==> InOrder(size, ps[i], ps[j])
  }

  predicate Parted(ps: seq<Pass>, i: int, j: int)
    requires 0 <= i < |ps| && 0 <= j < |ps|
  {
    ps[i].start != ps[j].start
  }

  /** No `limit + 1` passes in a row share a window. */
  ghost predicate Quota(limit: int, ps: seq<Pass>) {
    forall i, j :: 0 <= i < j < |ps| && j == i + limit ==> Parted(ps, i, j)
  }

  predicate Opening(ps: seq<Pass>, j: int)
    requires 0 <= j < |ps|
  {
    j == 0 || ps[j - 1].start != ps[j].start
  }

  /** A window starts with the request that opened it. */
  predicate Opens(ps: seq<Pass>) {
    forall j {:trigger Opening(ps, j)} :: 0 <= j < |ps| && Opening(ps, j) ==> ps[j].time == ps[j].start
  }

  ghost predicate Ordered(limit: int, size: int, ps: seq<Pass>) {
    Apart(size, ps) && Quota(limit, ps) && Opens(ps)
  }

  lemma SnocOpens(ps: seq<Pass>, p: Pass)
    requires Opens(ps) && (ps == [] || ps[|ps| - 1].start != p.start ==> p.time == p.start)
    ensures Opens(ps + [p])
  {
    var all := ps + [p];
    forall j | 0 <= j < |all| && Opening(all, j) ensures all[j].time == all[j].start {
      if j < |ps| { assert Opening(ps, j); }
    }
  }

  lemma SnocApart(size: int, ps: seq<Pass>, p: Pass)
    requires Apart(size, ps) && forall i :: 0 <= i < |ps| ==> InOrder(size, ps[i], p)
    ensures Apart(size, ps + [p])
  {
    var all := ps + [p];
    forall i, j | 0 <= i < j < |all| ensures InOrder(size, all[i], all[j]) {
      assert j < |ps| ==> InOrder(size, ps[i], ps[j]);
    }
  }

  lemma SnocQuota(limit: int, ps: seq<Pass>, p: Pass)
    requires limit >= 1 && Quota(limit, ps) && (|ps| >= limit ==> ps[|ps| - limit].start != p.start)
    ensures Quota(limit, ps + [p])
  {
    var all := ps + [p];
    forall i, j | 0 <= i < j < |all| && j == i + limit ensures Parted(all, i, j) {
      if j == |ps| { assert i == |ps| - limit; } else { assert Parted(ps, i, j); }
    }
  }

  /** The open window counts exactly the passes that share its start, at the end of the history. */
  ghost predicate Counted(limit: int, size: int, t: Trace) {
    if t.window.None? then t.passes == []
    else
      var w, n := t.window.value, |t.passes|;
      && 1 <= w.count <= n && w.count <= limit
      && (forall i :: n - w.count <= i < n ==> t.passes[i].start == w.end - size)
      && (forall i :: 0 <= i < n - w.count ==> t.passes[i].start + size < w.end - size)
  }

  lemma OpenWindow(limit: int, size: int, t: Trace, index: int, now: int)
    requires limit >= 1 && size >= 0 && Ordered(limit, size, t.passes) && Counted(limit, size, t)
    requires t.window.Some? ==> now > t.window.value.end
    ensures var u := Trace(Some(Window(1, now + size)), t.passes + [Pass(index, now, now)]);
            Ordered(limit, size, u.passes) && Counted(limit, size, u)
  {
    var ps, p := t.passes, Pass(index, now, now);
    forall i | 0 <= i < |ps| ensures ps[i].start + size < now && InOrder(size, ps[i], p) {
      if i < |ps| - t.window.value.count { assert ps[i].start + size < t.window.value.end - size; }
    }
    SnocOpens(ps, p);
    SnocApart(size, ps, p);
    SnocQuota(limit, ps, p);
  }

  lemma SameWindowOrdered(limit: int, size: int, ps: seq<Pass>, w: Window, p: Pass)
    requires limit >= 1 && size >= 0 && Ordered(limit, size, ps) && Counted(limit, size, Trace(Some(w), ps))
    requires w.count < limit && p.start == w.end - size
    ensures Ordered(limit, size, ps + [p])
  {
    var n := |ps|;
    assert ps[n - 1].start == p.start;
    forall i | 0 <= i < n ensures InOrder(size, ps[i], p) {
      assert i < n - w.count ==> ps[i].start + size < w.end - size;
    }
    if n >= limit { assert ps[n - limit].start + size < w.end - size; }
    SnocOpens(ps, p);
    SnocApart(size, ps, p);
    SnocQuota(limit, ps, p);
  }

  lemma SameWindow(limit: int, size: int, t: Trace, index: int, now: int)
    requires limit >= 1 && size >= 0 && Ordered(limit, size, t.passes) && Counted(limit, size, t)
    requires t.window.Some? && t.window.value.count < limit
    requires now <= t.window.value.end
    ensures var w := t.window.value;
            var u := Trace(Some(Window(w.count + 1, w.end)), t.passes + [Pass(index, now, w.end - size)]);
            Ordered(limit, size, u.passes) && Counted(limit, size, u)
  {
    SameWindowOrdered(limit, size, t.passes, t.window.value, Pass(index, now, t.window.value.end - size));
  }

  /** What a step does to the trace, case by case. */
  lemma StepCases(limit: int, size: int, t: Trace, index: int, now: int)
    ensures t.window.None? || now > t.window.value.end ==>
              TraceStep(limit, size, t, index, now) ==
                  Trace(Some(Window(1, now + size)), t.passes + [Pass(index, now, now)])
    ensures t.window.Some? && now <= t.window.value.end && t.window.value.count >= limit ==>
              TraceStep(limit, size, t, index, now) == t
    ensures t.window.Some? && now <= t.window.value.end && t.window.value.count < limit ==>
              TraceStep(limit, size, t, index, now) ==
              Trace(Some(Window(t.window.value.count + 1, t.window.value.end)),
                  t.passes + [Pass(index, now, t.window.value.end - size)])
  {
  }

  lemma StepOrdered(limit: int, size: int, t: Trace, index: int, now: int)
    requires limit >= 1 && size >= 0 && Ordered(limit, size, t.passes) && Counted(limit, size, t)
    ensures var u := TraceStep(limit, size, t, index, now); Ordered(limit, size, u.passes) && Counted(limit, size, u)
  {
    StepCases(limit, size, t, index, now);
    if t.window.None? || now > t.window.value.end {
      OpenWindow(limit, size, t, index, now);
    } else if t.window.value.count < limit {
      SameWindow(limit, size, t, index, now);
    }
  }

  /** For every run, whatever the clock readings: windows open more than their length apart, each starts with the
      request that opened it and holds at most `limit` passes. */
  lemma {:induction false} TraceOrdered(limit: int, size: int, rs: seq<Request>, n: int, key: string)
    requires limit >= 1 && size >= 0 && 0 <= n <= |rs|
    ensures var t := TraceOf(limit, size, rs, n, key); Ordered(limit, size, t.passes) && Counted(limit, size, t)
    decreases n
  {
    if n > 0 {
      TraceOrdered(limit, size, rs, n - 1, key);
      if rs[n - 1].key == key { StepOrdered(limit, size, TraceOf(limit, size, rs, n - 1, key), n - 1, rs[n - 1].now); }
    }
  }

  /** No request is refused without need: it is exactly if the last `limit` requests admitted for its key share a
      window, and that window has not run out. */
  lemma RefusedExactly(limit: int, size: int, rs: seq<Request>, i: int)
    requires limit >= 1 && size >= 0 && 0 <= i < |rs|
    ensures var ps := TraceOf(limit, size, rs, i, rs[i].key).passes;
            !Admitted(limit, size, rs, i) <==>
              |ps| >= limit && ps[|ps| - limit].start == ps[|ps| - 1].start && rs[i].now <= ps[|ps| - 1].start + size
  {
    TraceOrdered(limit, size, rs, i, rs[i].key);
    KeysIndependent(limit, size, rs, i, rs[i].key);
    var t := TraceOf(limit, size, rs, i, rs[i].key);
    if t.window.Some? {
      assert t.passes[|t.passes| - 1].start == t.window.value.end - size;
    }
  }

  // ---------- clock readings that come late ----------

  /** The clock is read before the lock is taken, so a reading may be behind an earlier request's, here by at most
      `late`. With `late == 0` the readings never go back. */
  predicate LateBy(rs: seq<Request>, late: int) {
    forall i, j :: 0 <= i < j < |rs| ==> rs[j].now >= rs[i].now - late
  }

  /** A window was opened by an earlier request, so no later reading is more than `late` before its start. */
  lemma {:induction false} WindowOpened(limit: int, size: int, rs: seq<Request>, late: int, n: int, m: int, key: string)
    requires LateBy(rs, late) && 0 <= n <= m < |rs|
    ensures var t := TraceOf(limit, size, rs, n, key); t.window.Some? ==> t.window.value.end - size - late <= rs[m].now
    decreases n
  {
    if n > 0 { WindowOpened(limit, size, rs, late, n - 1, m, key); }
  }

  predicate Fits(size: int, late: int, p: Pass) { p.start - late <= p.time <= p.start + size }

  /** Every pass falls into its window, or at most `late` before it. */
  predicate Inside(size: int, late: int, ps: seq<Pass>) {
    forall i {:trigger Fits(size, late, ps[i])} :: 0 <= i < |ps| ==> Fits(size, late, ps[i])
  }

  lemma {:induction false} TraceInside(limit: int, size: int, rs: seq<Request>, late: int, n: int, key: string)
    requires size >= 0 && late >= 0 && LateBy(rs, late) && 0 <= n <= |rs|
    ensures Inside(size, late, TraceOf(limit, size, rs, n, key).passes)
    decreases n
  {
    if n > 0 {
      var t, r := TraceOf(limit, size, rs, n - 1, key), rs[n - 1];
      TraceInside(limit, size, rs, late, n - 1, key);
      WindowOpened(limit, size, rs, late, n - 1, n - 1, key);
      StepCases(limit, size, t, n - 1, r.now);
      var u := TraceOf(limit, size, rs, n, key);
      forall i | 0 <= i < |u.passes| ensures Fits(size, late, u.passes[i]) {
        if i < |t.passes| { assert u.passes[i] == t.passes[i] && Fits(size, late, t.passes[i]); }
      }
    }
  }

  // ---------- how many requests pass in any interval ----------

  /** Passes `limit` apart are in different windows, the later one opening more than `size` after the earlier. */
  lemma NextWindow(limit: int, size: int, ps: seq<Pass>, i: int)
    requires limit >= 1 && size >= 0 && Ordered(limit, size, ps) && 0 <= i && i + limit < |ps|
    ensures ps[i + limit].start > ps[i].start + size
  {
    assert Parted(ps, i, i + limit);
    assert InOrder(size, ps[i], ps[i + limit]);
  }

  lemma StartsGrow(limit: int, size: int, ps: seq<Pass>, i: int, j: int)
    requires size >= 0 && Ordered(limit, size, ps) && 0 <= i <= j < |ps|
    ensures ps[i].start <= ps[j].start
  {
    if i < j { assert InOrder(size, ps[i], ps[j]); }
  }

  /** A pass `2 * limit` places or more after the opener of a window, or one fewer after another pass of it, is in the
      window after the next, at least `size + 2 - late` after the first. */
  lemma FarApart(limit: int, size: int, late: int, ps: seq<Pass>, i: int, j: int)
    requires limit >= 1 && size >= 0 && Ordered(limit, size, ps) && Inside(size, late, ps)
    requires 0 <= i < j < |ps| && j >= i + 2 * limit - (if Opening(ps, i) then 0 else 1)
    ensures ps[j].time >= ps[i].time + size + 2 - late
  {
    var k := if Opening(ps, i) then i else i - 1;
    NextWindow(limit, size, ps, k);
    NextWindow(limit, size, ps, k + limit);
    StartsGrow(limit, size, ps, k + 2 * limit, j);
    assert Fits(size, late, ps[i]) && Fits(size, late, ps[j]);
  }

  /** The first pass after an opener that is in another window opens that window, later than the interval reaches. */
  lemma NextOpener(limit: int, size: int, ps: seq<Pass>, i: int) returns (p: int)
    requires limit >= 1 && size >= 0 && Ordered(limit, size, ps) && 0 <= i && i + limit < |ps| && Opening(ps, i)
    ensures i < p <= i + limit && ps[p].time > ps[i].time + size
  {
    NextWindow(limit, size, ps, i);
    p := i + 1;
    while ps[p].start == ps[i].start
      invariant i < p <= i + limit
      invariant ps[p - 1].start == ps[i].start
      decreases i + limit - p
    {
      p := p + 1;
    }
    assert InOrder(size, ps[i], ps[p]);
    assert Opening(ps, p);
  }

  /** The requests for `key` that pass with readings between `a` and `b`, both included. */
  ghost function PassedIn(limit: int, size: int, rs: seq<Request>, key: string, a: int, b: int): set<int> {
    set i | 0 <= i < |rs| && rs[i].key == key && a <= rs[i].now <= b && Admitted(limit, size, rs, i)
  }

  function Indices(ps: seq<Pass>, lo: int, hi: int): set<int>
    requires 0 <= lo <= hi <= |ps|
  {
    set j | lo <= j < hi :: ps[j].index
  }

  lemma {:induction false} IndicesSize(ps: seq<Pass>, lo: int, hi: int)
    requires 0 <= lo <= hi <= |ps|
    ensures |Indices(ps, lo, hi)| <= hi - lo
    decreases hi - lo
  {
    if lo == hi {
      assert Indices(ps, lo, hi) == {};
    } else {
      IndicesSize(ps, lo, hi - 1);
      assert Indices(ps, lo, hi) == Indices(ps, lo, hi - 1) + {ps[hi - 1].index};
    }
  }

  lemma FirstBetween(ps: seq<Pass>, start: nat, a: int, b: int) returns (lo: int)
    requires start <= |ps|
    ensures start <= lo <= |ps| && (forall j :: start <= j < lo ==> !(a <= ps[j].time <= b)) &&
              (lo < |ps| ==> a <= ps[lo].time <= b)
  {
    lo := start;
    while lo < |ps| && !(a <= ps[lo].time <= b)
      invariant start <= lo <= |ps|
      invariant forall j :: start <= j < lo ==> !(a <= ps[j].time <= b)
    {
      lo := lo + 1;
    }
  }

  /** `passed` are passes from `lo` on whose readings lie between `a` and `b`. */
  ghost predicate Among(ps: seq<Pass>, lo: int, a: int, b: int, passed: set<int>) {
    && (forall i :: i in passed ==> exists j :: 0 <= lo <= j < |ps| && ps[j].index == i && a <= ps[j].time <= b)
    && (forall j :: 0 <= j < |ps| && ps[j].index in passed ==> a <= ps[j].time <= b)
  }

  /** The passes of an interval lie among `2 * limit - 1` consecutive ones, or among `2 * limit` with one left out. */
  lemma FewAfter(limit: int, size: int, late: int, len: int, ps: seq<Pass>, a: int, lo: int, passed: set<int>)
    requires limit >= 1 && 0 <= len <= size && len + late <= size + 1 && Ordered(limit, size, ps) &&
               Inside(size, late, ps)
    requires 0 <= lo < |ps| && a <= ps[lo].time && Among(ps, lo, a, a + len, passed)
    ensures |passed| <= 2 * limit - 1
  {
    var reach := lo + 2 * limit - (if Opening(ps, lo) then 0 else 1);
    var hi := if reach < |ps| then reach else |ps|;
    var all := Indices(ps, lo, hi);
    forall i | i in passed ensures i in all {
      var j :| lo <= j < |ps| && ps[j].index == i && a <= ps[j].time <= a + len;
      if j >= reach { FarApart(limit, size, late, ps, lo, j); }
    }
    IndicesSize(ps, lo, hi);
    if Opening(ps, lo) && lo + limit < |ps| {
      var p := NextOpener(limit, size, ps, lo);
      assert ps[p].index in all && ps[p].index !in passed;
      SubsetSize(passed, all - {ps[p].index});
    } else {
      SubsetSize(passed, all);
    }
  }

  /** With a limit of one every pass opens a window, however late readings are. */
  lemma OpenersOnly(size: int, len: int, ps: seq<Pass>, a: int, lo: int, passed: set<int>)
    requires 0 <= len <= size && Ordered(1, size, ps)
    requires 0 <= lo < |ps| && a <= ps[lo].time && Among(ps, lo, a, a + len, passed)
    ensures |passed| <= 1
  {
    forall j | 0 <= j < |ps| ensures ps[j].time == ps[j].start {
      if j > 0 { assert Parted(ps, j - 1, j); }
      assert Opening(ps, j);
    }
    forall i | i in passed ensures i in {ps[lo].index} {
      var j :| lo <= j < |ps| && ps[j].index == i && a <= ps[j].time <= a + len;
      if lo < j {
        NextWindow(1, size, ps, lo);
        StartsGrow(1, size, ps, lo + 1, j);
      }
    }
    SubsetSize(passed, {ps[lo].index});
  }

  /** With a limit of two, two passes share a window only if the first opened it. */
  lemma PairOpens(size: int, ps: seq<Pass>, i: int, j: int)
    requires size >= 0 && Ordered(2, size, ps) && 0 <= i < j < |ps| && ps[i].start == ps[j].start
    ensures ps[i].time == ps[i].start
  {
    if !Opening(ps, i) {
      assert Parted(ps, i - 1, i + 1);
      assert InOrder(size, ps[i - 1], ps[i + 1]);
      StartsGrow(2, size, ps, i, i + 1);
      StartsGrow(2, size, ps, i + 1, j);
    }
  }

  lemma NextStart(size: int, ps: seq<Pass>, i: int, j: int, t: int)
    requires size >= 0 && Ordered(2, size, ps) && 0 <= i < j < |ps| && ps[i].time == t && ps[i].start != t
    ensures ps[j].start >= ps[i].start + size + 1
  {
    if ps[i].start == ps[j].start { PairOpens(size, ps, i, j); } else { assert InOrder(size, ps[i], ps[j]); }
  }

  /** Four passes with one and the same reading would need four windows, or three with the first opened then. */
  lemma FourAtOnce(size: int, late: int, ps: seq<Pass>, i: int, j: int, k: int, l: int, t: int)
    requires 0 <= size && late <= 2 * size + 1 && Ordered(2, size, ps) && Inside(size, late, ps)
    requires 0 <= i < j < k < l < |ps| && ps[i].time == ps[j].time == ps[k].time == t
    ensures ps[l].time != t
  {
    assert Fits(size, late, ps[i]) && Fits(size, late, ps[l]);
    if ps[i].start == ps[j].start {
      PairOpens(size, ps, i, j);
      NextWindow(2, size, ps, i);
      StartsGrow(2, size, ps, i + 2, k);
    } else {
      assert InOrder(size, ps[i], ps[j]);
      NextStart(size, ps, j, k, t);
    }
    NextStart(size, ps, k, l, t);
  }

  lemma ThreeAtOnce(size: int, late: int, ps: seq<Pass>, t: int, lo: int, passed: set<int>)
    requires 0 <= size && late <= 2 * size + 1 && Ordered(2, size, ps) && Inside(size, late, ps)
    requires 0 <= lo < |ps| && t <= ps[lo].time <= t && Among(ps, lo, t, t, passed)
    ensures |passed| <= 3
  {
    var j := FirstBetween(ps, lo + 1, t, t);
    var k := if j < |ps| then j else lo;
    if j < |ps| { k := FirstBetween(ps, j + 1, t, t); }
    var three := {ps[lo].index} + (if j < |ps| then {ps[j].index} else {}) + (if k < |ps| then {ps[k].index} else {});
    forall i | i in passed ensures i in three {
      var l :| lo <= l < |ps| && ps[l].index == i && t <= ps[l].time <= t;
      if lo < l && l != j && l != k { FourAtOnce(size, late, ps, lo, j, k, l, t); }
    }
    SubsetSize(passed, three);
  }

  /** The intervals the bound holds for: as long as the window at most, and shorter by what readings may be late
      beyond one tick; for a limit of one lateness does not matter, and for a limit of two a single reading allows
      more of it. */
  predicate Bounded(limit: int, size: int, late: int, len: int) {
    len <= size && (limit == 1 || len + late <= size + 1 || (limit == 2 && len == 0 && late <= 2 * size + 1))
  }

  /** Of the requests of one key whose readings lie in such a closed interval, at most `2 * limit - 1` pass, in every
      run with readings at most `late` behind. */
  lemma AtMostTwiceTheLimit(limit: int, size: int, rs: seq<Request>, late: int, len: int, key: string, a: int)
    requires limit >= 1 && 0 <= late && 0 <= len && Bounded(limit, size, late, len) && LateBy(rs, late)
    ensures |PassedIn(limit, size, rs, key, a, a + len)| <= 2 * limit - 1
  {
    var ps := TraceOf(limit, size, rs, |rs|, key).passes;
    var passed := PassedIn(limit, size, rs, key, a, a + len);
    KeysIndependent(limit, size, rs, |rs|, key);
    TraceOrdered(limit, size, rs, |rs|, key);
    TraceInside(limit, size, rs, late, |rs|, key);
    var lo := FirstBetween(ps, 0, a, a + len);
    forall i | i in passed ensures exists j :: lo <= j < |ps| && ps[j].index == i && a <= ps[j].time <= a + len {
      var j :| 0 <= j < |ps| && ps[j].index == i;
      assert ps[j].time == rs[i].now;
    }
    if lo == |ps| {
      assert passed == {};
    } else if limit == 1 {
      OpenersOnly(size, len, ps, a, lo, passed);
    } else if len + late <= size + 1 {
      FewAfter(limit, size, late, len, ps, a, lo, passed);
    } else {
      ThreeAtOnce(size, late, ps, a, lo, passed);
    }
  }

  /** At most `limit` passes share a window, in every run. */
  lemma AtMostLimitPerWindow(limit: int, size: int, rs: seq<Request>, key: string, start: int)
    requires limit >= 1 && size >= 0
    ensures var ps := TraceOf(limit, size, rs, |rs|, key).passes;
            forall i, j :: 0 <= i < j < |ps| && ps[i].start == ps[j].start == start ==> j - i < limit
  {
    var ps := TraceOf(limit, size, rs, |rs|, key).passes;
    TraceOrdered(limit, size, rs, |rs|, key);
    forall i, j | 0 <= i < j < |ps| && j - i >= limit ensures ps[i].start != ps[j].start {
      NextWindow(limit, size, ps, i);
      StartsGrow(limit, size, ps, i + limit, j);
    }
  }

  // ---------- the bound is tight, and holds for no longer intervals ----------

  /** Three full windows opened as early as possible, the other requests of each reading `x`, `y` and `z`. */
  function ThreeWindows(limit: nat, size: nat, x: int, y: int, z: int): seq<Request> {
    seq(3 * limit, i =>
      Request("k", if i == 0 then 0 else if i < limit then x
                   else if i == limit then size + 1 else if i < 2 * limit then y
                   else if i == 2 * limit then 2 * size + 2 else z))
  }

  /** No reading is after the end of its window. */
  predicate InTime(size: nat, x: int, y: int, z: int) { x <= size && y <= 2 * size + 1 && z <= 3 * size + 2 }

  lemma {:induction false} ThreeTrace(limit: nat, size: nat, x: int, y: int, z: int, n: nat)
    requires limit >= 1 && InTime(size, x, y, z) && n <= 3 * limit
    ensures var t := TraceOf(limit, size, ThreeWindows(limit, size, x, y, z), n, "k");
            && |t.passes| == n && (forall j :: 0 <= j < n ==> t.passes[j].index == j)
            && (n > 0 ==> t.window == Some(if n <= limit then Window(n, size)
                                           else if n <= 2 * limit then Window(n - limit, 2 * size + 1)
                                           else Window(n - 2 * limit, 3 * size + 2)))
    decreases n
  {
    if n > 0 { ThreeTrace(limit, size, x, y, z, n - 1); }
  }

  /** All of them pass. */
  lemma ThreeAdmitted(limit: nat, size: nat, x: int, y: int, z: int, i: nat)
    requires limit >= 1 && InTime(size, x, y, z) && i < 3 * limit
    ensures Admitted(limit, size, ThreeWindows(limit, size, x, y, z), i)
  {
    var rs := ThreeWindows(limit, size, x, y, z);
    ThreeTrace(limit, size, x, y, z, 3 * limit);
    KeysIndependent(limit, size, rs, 3 * limit, "k");
    assert TraceOf(limit, size, rs, 3 * limit, "k").passes[i].index == i;
  }

  lemma ThreePassed(limit: nat, size: nat, x: int, y: int, z: int, a: int, b: int, i: int)
    requires limit >= 1 && InTime(size, x, y, z)
    ensures i in PassedIn(limit, size, ThreeWindows(limit, size, x, y, z), "k", a, b) <==>
            0 <= i < 3 * limit && a <= ThreeWindows(limit, size, x, y, z)[i].now <= b
  {
    if 0 <= i < 3 * limit { ThreeAdmitted(limit, size, x, y, z, i); }
  }

  lemma ThreeLate(limit: nat, size: nat, x: int, y: int, z: int, late: nat)
    requires limit >= 1 && InTime(size, x, y, z) && x + late >= 0 && y >= size + 1 - late && z >= 2 * size + 2 - late
    ensures LateBy(ThreeWindows(limit, size, x, y, z), late)
  {
  }

  /** For every limit and window length some run with readings in order reaches the bound. */
  lemma BoundIsTight(limit: nat, size: nat)
    requires limit >= 1 && size >= 1
    ensures var rs := ThreeWindows(limit, size, size, size + 1, 2 * size + 2);
            LateBy(rs, 0) && |PassedIn(limit, size, rs, "k", size, 2 * size)| == 2 * limit - 1
  {
    var rs := ThreeWindows(limit, size, size, size + 1, 2 * size + 2);
    ThreeLate(limit, size, size, size + 1, 2 * size + 2, 0);
    forall i ensures i in PassedIn(limit, size, rs, "k", size, 2 * size) <==> i in Range(1, 2 * limit) {
      assert i in Range(1, 2 * limit) <==> Within(1, i, 2 * limit);
      ThreePassed(limit, size, size, size + 1, 2 * size + 2, size, 2 * size, i);
    }
    assert PassedIn(limit, size, rs, "k", size, 2 * size) == Range(1, 2 * limit);
    RangeSize(1, 2 * limit);
  }

  /** The plain limit holds in this run for this interval. */
  ghost predicate Plain(limit: int, size: int, rs: seq<Request>, key: string, a: int) {
    |PassedIn(limit, size, rs, key, a, a + size)| <= limit
  }

  /** So the plain limit in every interval as long as the window, for all runs, is what a limit of one gives and no
      other. */
  lemma PlainLimitExactly(limit: nat, size: nat)
    requires limit >= 1 && size >= 1
    ensures (forall rs, key, a :: LateBy(rs, 0) ==> Plain(limit, size, rs, key, a)) <==> limit == 1
  {
    if limit == 1 {
      forall rs, key, a | LateBy(rs, 0) ensures Plain(limit, size, rs, key, a) {
        AtMostTwiceTheLimit(limit, size, rs, 0, size, key, a);
      }
    } else {
      BoundIsTight(limit, size);
      assert !Plain(limit, size, ThreeWindows(limit, size, size, size + 1, 2 * size + 2), "k", size);
    }
  }

  /** The bound holds in this run for this interval. */
  ghost predicate Double(limit: int, size: int, rs: seq<Request>, key: string, a: int, len: int) {
    |PassedIn(limit, size, rs, key, a, a + len)| <= 2 * limit - 1
  }

  /** A longer interval than the window: two full windows fit. */
  lemma TooLong(limit: nat, size: nat, len: nat)
    requires limit >= 1 && len > size
    ensures var rs := ThreeWindows(limit, size, 0, size + 1, 2 * size + 2);
            LateBy(rs, 0) && !Double(limit, size, rs, "k", 0, len)
  {
    var rs := ThreeWindows(limit, size, 0, size + 1, 2 * size + 2);
    ThreeLate(limit, size, 0, size + 1, 2 * size + 2, 0);
    forall i | i in Range(0, 2 * limit) ensures i in PassedIn(limit, size, rs, "k", 0, len) {
      ThreePassed(limit, size, 0, size + 1, 2 * size + 2, 0, len, i);
    }
    RangeSize(0, 2 * limit);
    SubsetSize(Range(0, 2 * limit), PassedIn(limit, size, rs, "k", 0, len));
  }

  /** A window's late requests, the whole next window, and one request read late in the third. */
  lemma TooLate(limit: nat, size: nat, late: nat, len: nat)
    requires limit >= 2 && 1 <= len <= size && len + late >= size + 2
    ensures var rs := ThreeWindows(limit, size, size, size + 1, size + len);
            LateBy(rs, late) && !Double(limit, size, rs, "k", size, len)
  {
    var rs := ThreeWindows(limit, size, size, size + 1, size + len);
    ThreeLate(limit, size, size, size + 1, size + len, late);
    var some := Range(1, 2 * limit) + {2 * limit + 1};
    forall i | i in some ensures i in PassedIn(limit, size, rs, "k", size, size + len) {
      ThreePassed(limit, size, size, size + 1, size + len, size, size + len, i);
    }
    RangeSize(1, 2 * limit);
    SubsetSize(some, PassedIn(limit, size, rs, "k", size, size + len));
  }

  /** Requests of three windows, none an opener. */
  ghost function AtOnce(limit: nat): set<int> { (Range(1, 2 * limit) - {limit}) + {2 * limit + 1, 2 * limit + 2} }

  lemma EnoughAtOnce(limit: nat)
    requires limit >= 1
    ensures |AtOnce(limit)| == 2 * limit
  {
    var range, more := Range(1, 2 * limit), {2 * limit + 1, 2 * limit + 2};
    RangeSize(1, 2 * limit);
    assert Within(1, limit, 2 * limit) && limit in range;
    assert |range - {limit}| == 2 * limit - 2 && |more| == 2 && (range - {limit}) !! more;
  }

  lemma AtOncePassed(limit: nat, size: nat, i: int)
    requires limit >= 3 && i in AtOnce(limit)
    ensures i in PassedIn(limit, size, ThreeWindows(limit, size, size, size, size), "k", size, size)
  {
    ThreePassed(limit, size, size, size, size, size, size, i);
  }

  lemma ManyAtOnce(limit: nat, size: nat)
    requires limit >= 3
    ensures |PassedIn(limit, size, ThreeWindows(limit, size, size, size, size), "k", size, size)| >= 2 * limit
  {
    var passed := PassedIn(limit, size, ThreeWindows(limit, size, size, size, size), "k", size, size);
    forall i | i in AtOnce(limit) ensures i in passed { AtOncePassed(limit, size, i); }
    EnoughAtOnce(limit);
    SubsetSize(AtOnce(limit), passed);
  }

  /** Those requests with one and the same reading. */
  lemma TooLateAtOnce(limit: nat, size: nat, late: nat)
    requires limit >= 3 && late >= size + 2
    ensures var rs := ThreeWindows(limit, size, size, size, size);
            LateBy(rs, late) && !Double(limit, size, rs, "k", size, 0)
  {
    ThreeLate(limit, size, size, size, size, late);
    ManyAtOnce(limit, size);
  }

  lemma TwoPassed(size: nat, i: int)
    requires i in {0, 1, 3, 5}
    ensures i in PassedIn(2, size, ThreeWindows(2, size, 0, 0, 0), "k", 0, 0)
  {
    ThreePassed(2, size, 0, 0, 0, 0, 0, i);
  }

  /** With a limit of two, four requests with the first window's reading. */
  lemma TwoTooLateAtOnce(size: nat, late: nat)
    requires late >= 2 * size + 2
    ensures var rs := ThreeWindows(2, size, 0, 0, 0); LateBy(rs, late) && !Double(2, size, rs, "k", 0, 0)
  {
    ThreeLate(2, size, 0, 0, 0, late);
    var four, passed: set<int> := {0, 1, 3, 5}, PassedIn(2, size, ThreeWindows(2, size, 0, 0, 0), "k", 0, 0);
    forall i | i in four ensures i in passed { TwoPassed(size, i); }
    SubsetSize(four, passed);
  }

  /** For every limit, window length, lateness and interval length: at most `2 * limit - 1` requests pass in every
      interval of that length in every run, if and only if the four are `Bounded`. */
  lemma BoundExactly(limit: nat, size: nat, late: nat, len: nat)
    requires limit >= 1
    ensures (forall rs, key, a :: LateBy(rs, late) ==> Double(limit, size, rs, key, a, len)) <==>
              Bounded(limit, size, late, len)
  {
    if Bounded(limit, size, late, len) {
      forall rs, key, a | LateBy(rs, late) ensures Double(limit, size, rs, key, a, len) {
        AtMostTwiceTheLimit(limit, size, rs, late, len, key, a);
      }
    } else if len > size {
      TooLong(limit, size, len);
      assert LateBy(ThreeWindows(limit, size, 0, size + 1, 2 * size + 2), late);
    } else if len > 0 {
      TooLate(limit, size, late, len);
    } else if limit > 2 {
      TooLateAtOnce(limit, size, late);
    } else {
      TwoTooLateAtOnce(size, late);
    }
  }
}
