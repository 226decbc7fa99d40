/** State rows: one per flag and environment of a project, created in batches by whichever of the two
    comes second, removed by cascade, switched by toggles. `calls` is how many storage calls of an
    operation succeed before one fails; an undo is the compensating delete of a failed create. */
module StateRows {
  import opened Domain
  import opened ToggleLog

  /** A flag or environment row: its project, and its key or slug. */
  datatype Named = Named(project: string, name: string)

  /** The key of a state row: flag ID and environment ID. */
  type RowKey = (string, string)

  /** `used` are the IDs ever handed out; `log` the toggles that reached the store. */
  datatype Store = Store(
    flags: map<string, Named>, envs: map<string, Named>, states: map<RowKey, bool>,
    used: set<string>, log: seq<Toggle<RowKey>>)

  const EMPTY := Store(map[], map[], map[], {}, [])

  /** Every flag and environment of the same project have a state row. */
  ghost predicate Covered(s: Store) {
    forall f, e :: f in s.flags && e in s.envs && s.flags[f].project == s.envs[e].project ==> (f, e) in s.states
  }

  /** State rows belong to stored flags and environments. */
  ghost predicate Referential(s: Store) { forall p :: p in s.states ==> p.0 in s.flags && p.1 in s.envs }

  /** A row is on exactly if the last toggle that reached the store turned it on. */
  ghost predicate Faithful(s: Store) { forall p :: p in s.states ==> s.states[p] == LastValue(s.log, p, false) }

  ghost predicate FreshIds(s: Store) {
    && s.flags.Keys + s.envs.Keys <= s.used
    && forall i :: 0 <= i < |s.log| ==> s.log[i].key.0 in s.used && s.log[i].key.1 in s.used
  }

  /** A toggled row is there as long as its flag and its environment are. */
  ghost predicate Kept(s: Store) {
    forall i :: 0 <= i < |s.log| && s.log[i].key.0 in s.flags && s.log[i].key.1 in s.envs ==> s.log[i].key in s.states
  }

  /** No two flags of a project share a key, and no two environments a slug. */
  ghost predicate Unique(rows: map<string, Named>) {
    forall a, b :: a in rows && b in rows && a != b ==> rows[a] != rows[b]
  }

  ghost predicate Inv(s: Store) {
    Covered(s) && Referential(s) && Faithful(s) && FreshIds(s) && Kept(s) && Unique(s.flags) && Unique(s.envs)
  }

  // ---------- the effect of each repository call ----------

  function InProject(rows: map<string, Named>, project: string): set<string> {
    set id | id in rows && rows[id].project == project
  }

  /** Disabled rows for flag `f` in the environments `es`. */
  function FlagRows(f: string, es: set<string>): map<RowKey, bool> {
    map e | e in es :: (f, e) := false
  }

  function EnvRows(fs: set<string>, e: string): map<RowKey, bool> {
    map f | f in fs :: (f, e) := false
  }

  /** `DELETE FROM flags`, with its cascade. */
  function DropFlag(s: Store, f: string): Store {
    s.(flags := s.flags - {f}, states := map p | p in s.states && p.0 != f :: s.states[p])
  }

  function DropEnv(s: Store, e: string): Store {
    s.(envs := s.envs - {e}, states := map p | p in s.states && p.1 != e :: s.states[p])
  }

  /** The flag with rows for the environments `es`. */
  function WithFlag(s: Store, f: string, row: Named, es: set<string>): Store {
    s.(flags := s.flags[f := row], states := s.states + FlagRows(f, es), used := s.used + {f})
  }

  function WithEnv(s: Store, e: string, row: Named, fs: set<string>): Store {
    s.(envs := s.envs[e := row], states := s.states + EnvRows(fs, e), used := s.used + {e})
  }

  function WithToggle(s: Store, f: string, e: string, enabled: bool): Store {
    s.(states := s.states[(f, e) := enabled], log := s.log + [Toggle((f, e), enabled)])
  }

  /** Unique (project, name): the insert is refused with a conflict. */
  predicate Taken(rows: map<string, Named>, row: Named) { exists id :: id in rows && rows[id] == row }

  datatype Op =
    | CreateFlag(id: string, row: Named)
    | CreateEnv(id: string, row: Named)
    | DeleteFlag(id: string)
    | DeleteEnv(id: string)
    | SetEnabled(flagId: string, envId: string, enabled: bool)

  /** What one completed call may leave behind when undoing deletes succeed. */
  ghost predicate Next(s: Store, op: Op, t: Store) {
    t == s ||
    match op
    case CreateFlag(f, row) =>
      && f !in s.used
      && (t == s.(used := s.used + {f}) ||
          (!Taken(s.flags, row) && t == WithFlag(s, f, row, InProject(s.envs, row.project))))
    case CreateEnv(e, row) =>
      && e !in s.used
      && (t == s.(used := s.used + {e}) ||
          (!Taken(s.envs, row) && t == WithEnv(s, e, row, InProject(s.flags, row.project))))
    case DeleteFlag(f) => t == DropFlag(s, f)
    case DeleteEnv(e) => t == DropEnv(s, e)
    case SetEnabled(f, e, b) => f in s.flags && e in s.envs && t == WithToggle(s, f, e, b)
  }

  // ---------- every run keeps the invariant ----------

  lemma CreateFlagKeeps(s: Store, f: string, row: Named)
    requires Inv(s) && f !in s.used && !Taken(s.flags, row)
    ensures Inv(WithFlag(s, f, row, InProject(s.envs, row.project)))
  {
    var t := WithFlag(s, f, row, InProject(s.envs, row.project));
    forall p | p in t.states ensures t.states[p] == LastValue(t.log, p, false) {
      if p.0 == f { LastValueDefault(s.log, p, false, false); }
    }
  }

  lemma CreateEnvKeeps(s: Store, e: string, row: Named)
    requires Inv(s) && e !in s.used && !Taken(s.envs, row)
    ensures Inv(WithEnv(s, e, row, InProject(s.flags, row.project)))
  {
    var t := WithEnv(s, e, row, InProject(s.flags, row.project));
    forall p | p in t.states ensures t.states[p] == LastValue(t.log, p, false) {
      if p.1 == e { LastValueDefault(s.log, p, false, false); }
    }
  }

  lemma ToggleKeeps(s: Store, f: string, e: string, b: bool)
    requires Inv(s) && f in s.flags && e in s.envs
    ensures Inv(WithToggle(s, f, e, b))
  {
    var t := WithToggle(s, f, e, b);
    assert t.log[..|t.log| - 1] == s.log;
  }

  lemma NextKeepsInv(s: Store, op: Op, t: Store)
    requires Inv(s) && Next(s, op, t)
    ensures Inv(t)
  {
    match op
    case CreateFlag(f, row) => if f !in s.used && !Taken(s.flags, row) { CreateFlagKeeps(s, f, row); }
    case CreateEnv(e, row) => if e !in s.used && !Taken(s.envs, row) { CreateEnvKeeps(s, e, row); }
    case SetEnabled(f, e, b) => if f in s.flags && e in s.envs { ToggleKeeps(s, f, e, b); }
    case _ =>
  }

  ghost predicate IsRun(states: seq<Store>, ops: seq<Op>) {
    |states| == |ops| + 1 && states[0] == EMPTY && forall i :: 0 <= i < |ops| ==> Next(states[i], ops[i], states[i + 1])
  }

  /** Over every sequential run of creates, deletes and toggles with arbitrary storage failures, every
      flag and environment of the same project have a state row, it is on exactly if the last toggle
      that reached the store turned it on, and keys and slugs stay unique within their project. */
  lemma {:induction false} RunKeepsInv(states: seq<Store>, ops: seq<Op>, i: nat)
    requires IsRun(states, ops) && i < |states|
    ensures Inv(states[i])
  {
    if i > 0 {
      RunKeepsInv(states, ops, i - 1);
      NextKeepsInv(states[i - 1], ops[i - 1], states[i]);
    }
  }

  /** History only grows, and an ID that was handed out and is gone does not come back. */
  lemma {:induction false} HistoryGrows(states: seq<Store>, ops: seq<Op>, n: nat, i: nat)
    requires IsRun(states, ops) && n <= i < |states|
    ensures states[n].used <= states[i].used && states[n].log <= states[i].log
    ensures forall f :: f in states[i].flags && f !in states[n].flags ==> f !in states[n].used
    ensures forall e :: e in states[i].envs && e !in states[n].envs ==> e !in states[n].used
  {
    if n < i {
      HistoryGrows(states, ops, n, i - 1);
      RunKeepsInv(states, ops, n);
      var s, t := states[i - 1], states[i];
      assert Next(s, ops[i - 1], t);
      assert forall f :: f in t.flags ==> f in s.flags || f !in s.used;
      assert forall e :: e in t.envs ==> e in s.envs || e !in s.used;
    }
  }

  /** Between any two moments of a run: a row stored at the later one is on as the last toggle of it in between said,
      and without one as it was at the earlier moment, a row that was not there then counting as off. */
  lemma BitSince(states: seq<Store>, ops: seq<Op>, n: nat, i: nat, p: RowKey)
    requires IsRun(states, ops) && n <= i < |states| && p in states[i].states
    ensures states[n].log <= states[i].log
    ensures states[i].states[p] ==
            LastValue(states[i].log[|states[n].log|..], p, p in states[n].states && states[n].states[p])
  {
    HistoryGrows(states, ops, n, i);
    RunKeepsInv(states, ops, n);
    RunKeepsInv(states, ops, i);
    var a, b := states[n], states[i];
    assert b.log == a.log + b.log[|a.log|..];
    LastValueConcat(a.log, b.log[|a.log|..], p, false);
    if p !in a.states {
      assert !Toggled(a.log, p);
      LastValueDefault(a.log, p, false, false);
    }
  }

  /** `SetEnabled` of a stored flag and environment always leaves a row, whether there was one or not; there is none
      only if they belong to different projects, since rows are created for every pair of one project. */
  lemma SwitchUpserts(s: Store, f: string, e: string, b: bool)
    requires Inv(s) && f in s.flags && e in s.envs
    ensures (f, e) !in s.states ==> s.flags[f].project != s.envs[e].project
    ensures var t := WithToggle(s, f, e, b);
            Next(s, SetEnabled(f, e, b), t) && t.states == s.states[(f, e) := b] && Inv(t)
  {
    ToggleKeeps(s, f, e, b);
  }

  /** That happens: in this run a flag is switched on in an environment it has no row for, and then has one. */
  lemma SetEnabledCreatesRow() returns (states: seq<Store>, ops: seq<Op>, f: string, e: string)
    ensures IsRun(states, ops) && |states| == 4 && ops[2] == SetEnabled(f, e, true)
    ensures f in states[2].flags && e in states[2].envs && (f, e) !in states[2].states
    ensures (f, e) in states[3].states && states[3].states[(f, e)]
  {
    f, e := "f", "e";
    var a := WithFlag(EMPTY, f, Named("p", "k"), {});
    var b := WithEnv(a, e, Named("q", "s"), {});
    assert InProject(EMPTY.envs, "p") == {} && InProject(a.flags, "q") == {};
    states := [EMPTY, a, b, WithToggle(b, f, e, true)];
    ops := [CreateFlag(f, Named("p", "k")), CreateEnv(e, Named("q", "s")), SetEnabled(f, e, true)];
  }

  /** Where an undo fails too, the flag stays with the rows written so far; coverage then holds exactly if
      those were all the rows there were to write. */
  lemma LostUndoExactly(s: Store, f: string, row: Named, done: set<string>)
    requires Inv(s) && f !in s.used && done <= InProject(s.envs, row.project)
    ensures Covered(WithFlag(s, f, row, done)) <==> done == InProject(s.envs, row.project)
  {
    var t := WithFlag(s, f, row, done);
    if Covered(t) {
      forall e | e in InProject(s.envs, row.project) ensures e in done {
        assert t.flags[f].project == t.envs[e].project;
        assert (f, e) in t.states;
      }
    }
  }

  // ---------- undoing a half-finished create ----------

  lemma FlagRowsGrow(base: map<RowKey, bool>, f: string, es: set<string>, e: string)
    ensures (base + FlagRows(f, es))[(f, e) := false] == base + FlagRows(f, es + {e})
  {
  }

  lemma EnvRowsGrow(base: map<RowKey, bool>, fs: set<string>, e: string, f: string)
    ensures (base + EnvRows(fs, e))[(f, e) := false] == base + EnvRows(fs + {f}, e)
  {
  }

  /** Deleting a flag whose batch stopped half way leaves the store as it was before the insert. */
  lemma UndoFlag(s: Store, t: Store, f: string, row: Named, done: set<string>)
    requires Inv(s) && f !in s.used
    requires t == s.(flags := s.flags[f := row], states := s.states + FlagRows(f, done), used := s.used + {f})
    ensures DropFlag(t, f) == s.(used := s.used + {f})
  {
    assert DropFlag(t, f).flags == s.flags;
    assert DropFlag(t, f).states == s.states;
  }

  lemma UndoEnv(s: Store, t: Store, e: string, row: Named, done: set<string>)
    requires Inv(s) && e !in s.used
    requires t == s.(envs := s.envs[e := row], states := s.states + EnvRows(done, e), used := s.used + {e})
    ensures DropEnv(t, e) == s.(used := s.used + {e})
  {
    assert DropEnv(t, e).envs == s.envs;
    assert DropEnv(t, e).states == s.states;
  }

  // ---------- the services ----------

  class Services {
    var flags: map<string, Named>
    var envs: map<string, Named>
    var states: map<RowKey, bool>
    ghost var used: set<string>
    ghost var log: seq<Toggle<RowKey>>

    ghost function View(): Store
      reads this
    {
      Store(flags, envs, states, used, log)
    }

    constructor ()
      ensures View() == EMPTY
    {
      flags, envs, states, used, log := map[], map[], map[], {}, [];
    }

    /** `CreateBatch` for a new flag: one insert at a time, stopping at the first failure. */
    method InsertFlagRows(f: string, es: set<string>, calls: nat) returns (ok: bool, ghost done: set<string>)
      requires forall p :: p in states ==> p.0 != f
      modifies this`states
      ensures done <= es && states == old(states) + FlagRows(f, done)
      ensures ok <==> done == es
      ensures ok <==> calls >= |es|
    {
      var todo, left := es, calls;
      assert FlagRows(f, es - todo) == map[];
      while todo != {}
        invariant todo <= es
        invariant states == old(states) + FlagRows(f, es - todo)
        invariant left + |es| == calls + |todo|
        invariant left >= 0
        decreases todo
      {
        var e :| e in todo;
        if left == 0 { return false, es - todo; }
        left := left - 1;
        states := states[(f, e) := false];
        todo := todo - {e};
        FlagRowsGrow(old(states), f, es - (todo + {e}), e);
        assert es - todo == es - (todo + {e}) + {e};
      }
      assert es - {} == es;
      ok, done := true, es;
    }

    method InsertEnvRows(fs: set<string>, e: string, calls: nat) returns (ok: bool, ghost done: set<string>)
      requires forall p :: p in states ==> p.1 != e
      modifies this`states
      ensures done <= fs && states == old(states) + EnvRows(done, e)
      ensures ok <==> done == fs
      ensures ok <==> calls >= |fs|
    {
      var todo, left := fs, calls;
      assert EnvRows(fs - todo, e) == map[];
      while todo != {}
        invariant todo <= fs
        invariant states == old(states) + EnvRows(fs - todo, e)
        invariant left + |fs| == calls + |todo|
        invariant left >= 0
        decreases todo
      {
        var f :| f in todo;
        if left == 0 { return false, fs - todo; }
        left := left - 1;
        states := states[(f, e) := false];
        todo := todo - {f};
        EnvRowsGrow(old(states), fs - (todo + {f}), e, f);
        assert fs - todo == fs - (todo + {f}) + {f};
      }
      assert fs - {} == fs;
      ok, done := true, fs;
    }

    method DeleteFlagRow(f: string)
      modifies this
      ensures View() == DropFlag(old(View()), f)
    {
      flags := flags - {f};
      states := map p | p in states && p.0 != f :: states[p];
    }

    /** `FlagService.Create`: validate, insert, list the environments, insert the rows; compensate on failure. */
    method NewFlag(role: Role, flag: Flag, calls: nat) returns (res: Result<()>)
      requires Inv(View()) && flag.id !in used
      modifies this
      ensures Next(old(View()), CreateFlag(flag.id, Named(flag.projectId, flag.key)), View())
      ensures res.Ok? <==> flags == old(flags)[flag.id := Named(flag.projectId, flag.key)]
      ensures res.Err? ==> flags == old(flags) && states == old(states)
      ensures res == Err(Conflict) <==>
              role.Level() >= Editor.Level() && ValidFlag(flag) && calls > 0 &&
                  Taken(old(flags), Named(flag.projectId, flag.key))
      ensures res.Ok? <==>
              && role.Level() >= Editor.Level() && ValidFlag(flag) &&
                  !Taken(old(flags), Named(flag.projectId, flag.key))
              && calls >= 2 + |InProject(old(envs), flag.projectId)|
    {
      if role.Level() < Editor.Level() { return Err(Forbidden); }
      var err := ValidateFlag(flag);
      if err.Some? { return Err(err.value); }
      var f, row := flag.id, Named(flag.projectId, flag.key);
      used := used + {f};
      if calls == 0 { return Err(Storage); }
      if Taken(flags, row) { return Err(Conflict); }
      flags := flags[f := row];
      ghost var inserted := View();
      var targets := InProject(envs, row.project);
      if calls == 1 {
        UndoFlag(old(View()), inserted, f, row, {});
        DeleteFlagRow(f);
        return Err(Storage);
      }
      var ok, done := InsertFlagRows(f, targets, calls - 2);
      if !ok {
        UndoFlag(old(View()), View(), f, row, done);
        DeleteFlagRow(f);
        return Err(Storage);
      }
      res := Ok(());
    }

    method DeleteEnvRow(e: string)
      modifies this
      ensures View() == DropEnv(old(View()), e)
    {
      envs := envs - {e};
      states := map p | p in states && p.1 != e :: states[p];
    }

    /** `EnvironmentService.Create`: insert, list the flags, backfill the rows; compensate on failure. */
    method NewEnvironment(role: Role, e: string, row: Named, displayName: string, calls: nat) returns (res: Result<()>)
      requires Inv(View()) && e !in used
      modifies this
      ensures Next(old(View()), CreateEnv(e, row), View())
      ensures res.Ok? <==> envs == old(envs)[e := row]
      ensures res.Err? ==> envs == old(envs) && states == old(states)
      ensures res == Err(Conflict) <==>
              role.Level() >= Editor.Level() && displayName != "" && IsSlug(row.name) && calls > 0 &&
                  Taken(old(envs), row)
      ensures res.Ok? <==>
              && role.Level() >= Editor.Level() && displayName != "" && IsSlug(row.name) && !Taken(old(envs), row)
              && calls >= 2 + |InProject(old(flags), row.project)|
    {
      if role.Level() < Editor.Level() { return Err(Forbidden); }
      used := used + {e};
      if displayName == "" { return Err(Invalid("name")); }
      if !IsSlug(row.name) { return Err(Invalid("slug")); }
      if calls == 0 { return Err(Storage); }
      if Taken(envs, row) { return Err(Conflict); }
      envs := envs[e := row];
      ghost var inserted := View();
      var targets := InProject(flags, row.project);
      if calls == 1 {
        UndoEnv(old(View()), inserted, e, row, {});
        DeleteEnvRow(e);
        return Err(Storage);
      }
      var ok, done := InsertEnvRows(targets, e, calls - 2);
      if !ok {
        UndoEnv(old(View()), View(), e, row, done);
        DeleteEnvRow(e);
        return Err(Storage);
      }
      res := Ok(());
    }

    /** `FlagService.Delete`. */
    method RemoveFlag(role: Role, f: string, calls: nat) returns (res: Result<()>)
      modifies this
      ensures Next(old(View()), DeleteFlag(f), View())
      ensures res.Ok? <==> role.Level() >= Editor.Level() && calls > 0 && f in old(flags)
      ensures if res.Ok? then View() == DropFlag(old(View()), f) else View() == old(View())
    {
      if role.Level() < Editor.Level() { return Err(Forbidden); }
      if calls == 0 { return Err(Storage); }
      if f !in flags { return Err(NotFound); }
      DeleteFlagRow(f);
      res := Ok(());
    }

    /** `EnvironmentService.Delete`. */
    method RemoveEnvironment(role: Role, e: string, calls: nat) returns (res: Result<()>)
      modifies this
      ensures Next(old(View()), DeleteEnv(e), View())
      ensures res.Ok? <==> role.Level() >= Editor.Level() && calls > 0 && e in old(envs)
      ensures if res.Ok? then View() == DropEnv(old(View()), e) else View() == old(View())
    {
      if role.Level() < Editor.Level() { return Err(Forbidden); }
      if calls == 0 { return Err(Storage); }
      if e !in envs { return Err(NotFound); }
      DeleteEnvRow(e);
      res := Ok(());
    }

    /** `FlagService.SetEnabled` up to the store: an upsert, refused if the environment row does not exist. */
    method Switch(role: Role, f: string, e: string, enabled: bool, calls: nat) returns (res: Result<()>)
      modifies this
      ensures Next(old(View()), SetEnabled(f, e, enabled), View())
      ensures res.Ok? <==> role.Level() >= Editor.Level() && calls >= 2 && f in old(flags) && e in old(envs)
      ensures if res.Ok? then View() == WithToggle(old(View()), f, e, enabled) else View() == old(View())
    {
      if role.Level() < Editor.Level() { return Err(Forbidden); }
      if calls == 0 { return Err(Storage); }
      if f !in flags { return Err(NotFound); }
      if calls == 1 || e !in envs { return Err(Storage); }
      states := states[(f, e) := enabled];
      log := log + [Toggle((f, e), enabled)];
      res := Ok(());
    }
  }
}
