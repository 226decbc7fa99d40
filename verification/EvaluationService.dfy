/** The evaluation use cases over a store snapshot: one flag, or all flags of a project with
    states, rules and segment membership loaded in batches. */
module EvaluationService {
  import opened Domain
  import opened Evaluator

  datatype StateRow = StateRow(flagId: string, environmentId: string, enabled: bool)

  /** What the repositories hold while a call runs. A segment is found by project and slug; the
      `Down` fields say which lookups fail with an error other than not-found. */
  datatype Db = Db(
    flags: seq<Flag>, states: seq<StateRow>, rules: seq<Rule>,
    segments: map<(string, string), string>, members: map<string, set<string>>,
    slugsDown: set<string>, segmentsDown: set<string>, flagsDown: bool, statesDown: bool, rulesDown: bool)

  datatype EvalView = EvalView(
    key: string, enabled: bool, value: Option<string>, valueKey: string, reason: Reason, flagType: FlagType)

  // ---------- the direct specification ----------

  /** The state row of a flag in an environment, `None` if there is none. */
  function FindState(rows: seq<StateRow>, flagId: string, env: string): Option<bool> {
    if rows == [] then None
    else
      var row := rows[|rows| - 1];
      if row.flagId == flagId && row.environmentId == env then Some(row.enabled)
      else FindState(rows[..|rows| - 1], flagId, env)
  }

  function RulesFor(rules: seq<Rule>, flagId: string, env: string): set<Rule> {
    set r | r in rules && r.flagId == flagId && r.environmentId == env
  }

  function RuleSet(db: Db, flagId: string, env: string): set<Rule> { RulesFor(db.rules, flagId, env) }

  predicate IsMember(db: Db, segmentId: string, userKey: string) {
    segmentId in db.members && userKey in db.members[segmentId]
  }

  /** Every slug of a segment that exists in the project and has the user as a member. */
  function Memberships(db: Db, project: string, userKey: string): set<string> {
    set p | p in db.segments && p.0 == project && IsMember(db, db.segments[p], userKey) :: p.1
  }

  lemma MembershipsExact(db: Db, project: string, userKey: string, slug: string)
    ensures slug in Memberships(db, project, userKey) <==>
              (project, slug) in db.segments && db.segments[(project, slug)] in db.members &&
              userKey in db.members[db.segments[(project, slug)]]
  {
    assert (project, slug).0 == project && (project, slug).1 == slug;
  }

  function ViewOf(flag: Flag, r: EvalResult): EvalView {
    EvalView(flag.key, r.reason != Disabled, if flag.flagType.Bool? then None else Some(r.variantKey),
             r.variantKey, r.reason, flag.flagType)
  }

  /** `view` is right for the flag: an outcome for its own state row, its own rules and the user's
      actual segment memberships, with no batching or preloading in sight. */
  ghost predicate Served(db: Db, project: string, env: string, flag: Flag, ctx: EvalContext, view: EvalView) {
    exists r :: view == ViewOf(flag, r) &&
      Outcome(flag, FindState(db.states, flag.id, env), RuleSet(db, flag.id, env), ctx,
              Memberships(db, project, ctx.userId), r)
  }

  /** What a right view carries, field by field: the flag's key and type, the answer's reason and variant, and the
      deprecated value exactly for flags that are not boolean. */
  lemma ServedFields(db: Db, project: string, env: string, flag: Flag, ctx: EvalContext, view: EvalView)
    returns (r: EvalResult)
    requires Served(db, project, env, flag, ctx, view)
    ensures Outcome(flag, FindState(db.states, flag.id, env), RuleSet(db, flag.id, env), ctx,
                    Memberships(db, project, ctx.userId), r)
    ensures view.key == flag.key && view.flagType == flag.flagType
    ensures view.valueKey == r.variantKey && view.reason == r.reason
    ensures view.value == None <==> flag.flagType.Bool?
    ensures !flag.flagType.Bool? ==> view.value == Some(r.variantKey)
    ensures view.enabled <==> r.reason != Disabled
  {
    r :| view == ViewOf(flag, r) &&
         Outcome(flag, FindState(db.states, flag.id, env), RuleSet(db, flag.id, env), ctx,
                 Memberships(db, project, ctx.userId), r);
  }

  /** And every right answer is carried by one. */
  lemma ServedExists(db: Db, project: string, env: string, flag: Flag, ctx: EvalContext, r: EvalResult)
    requires Outcome(flag, FindState(db.states, flag.id, env), RuleSet(db, flag.id, env), ctx,
                     Memberships(db, project, ctx.userId), r)
    ensures exists view ::
              Served(db, project, env, flag, ctx, view) && view.valueKey == r.variantKey && view.reason == r.reason
  {
    assert Served(db, project, env, flag, ctx, ViewOf(flag, r));
  }

  /** A state lookup finds a row exactly if there is one, and its bit if there is only one. */
  lemma {:induction false} FindStateExact(rows: seq<StateRow>, flagId: string, env: string)
    ensures FindState(rows, flagId, env).Some? <==>
            exists i :: 0 <= i < |rows| && rows[i].flagId == flagId && rows[i].environmentId == env
    ensures FindState(rows, flagId, env).Some? ==> StateRow(flagId, env, FindState(rows, flagId, env).value) in rows
  {
    if rows != [] {
      var init := rows[..|rows| - 1];
      FindStateExact(init, flagId, env);
      assert rows == init + [rows[|rows| - 1]];
    }
  }

  /** With distinct priorities the right view is unique. */
  lemma ServedUnique(db: Db, project: string, env: string, flag: Flag, ctx: EvalContext, v1: EvalView, v2: EvalView)
    requires DistinctPriorities(RuleSet(db, flag.id, env))
    requires Served(db, project, env, flag, ctx, v1) && Served(db, project, env, flag, ctx, v2)
    ensures v1 == v2
  {
    var state, rules, slugs := FindState(db.states, flag.id, env), RuleSet(db, flag.id, env),
        Memberships(db, project, ctx.userId);
    var r1 :| v1 == ViewOf(flag, r1) && Outcome(flag, state, rules, ctx, slugs, r1);
    var r2 :| v2 == ViewOf(flag, r2) && Outcome(flag, state, rules, ctx, slugs, r2);
    OutcomeUnique(flag, state, rules, ctx, slugs, r1, r2);
  }

  /** The `enabled` bit of a served view is the stored bit; a missing row reads as off. */
  lemma ServedEnabled(db: Db, project: string, env: string, flag: Flag, ctx: EvalContext, view: EvalView)
    requires Served(db, project, env, flag, ctx, view)
    ensures view.enabled <==> FindState(db.states, flag.id, env) == Some(true)
  {
    var state, rules, slugs := FindState(db.states, flag.id, env), RuleSet(db, flag.id, env),
        Memberships(db, project, ctx.userId);
    var r :| view == ViewOf(flag, r) && Outcome(flag, state, rules, ctx, slugs, r);
    if state == Some(true) && exists rule :: rule in rules && Fires(rule, ctx, slugs) {
      var a :| Selected(a, rules, ctx, slugs) && Decides(a, flag, ctx, r);
    }
  }

  // ---------- segment preloading ----------

  predicate NamesSegment(c: Condition) { c.operator.Segment() && c.values != [] }

  /** The slugs the segment conditions of `rules` name. */
  function NamedSlugs(rules: set<Rule>): set<string> {
    set r, i | r in rules && 0 <= i < |r.conditions| && NamesSegment(r.conditions[i]) :: r.conditions[i].values[0]
  }

  function SlugsOf(cs: seq<Condition>): set<string> {
    set i | 0 <= i < |cs| && NamesSegment(cs[i]) :: cs[i].values[0]
  }

  /** The lookup of this slug fails: by slug, or on the membership of the segment found. */
  predicate LookupFails(db: Db, project: string, slug: string) {
    slug in db.slugsDown || ((project, slug) in db.segments && db.segments[(project, slug)] in db.segmentsDown)
  }

  lemma NamedSlugsStep(rules: set<Rule>, r: Rule)
    ensures NamedSlugs(rules + {r}) == NamedSlugs(rules) + SlugsOf(r.conditions)
  {
    var all := rules + {r};
    forall s | s in NamedSlugs(all) ensures s in NamedSlugs(rules) + SlugsOf(r.conditions) {
      var q, i :| q in all && 0 <= i < |q.conditions| && NamesSegment(q.conditions[i]) &&
          s == q.conditions[i].values[0];
      if q == r { assert s in SlugsOf(r.conditions); } else { assert s in NamedSlugs(rules); }
    }
    forall s | s in NamedSlugs(rules) + SlugsOf(r.conditions) ensures s in NamedSlugs(all) {
      if s in NamedSlugs(rules) {
        var q, i :| q in rules && 0 <= i < |q.conditions| && NamesSegment(q.conditions[i]) &&
            s == q.conditions[i].values[0];
        assert q in all;
      } else {
        var i :| 0 <= i < |r.conditions| && NamesSegment(r.conditions[i]) && s == r.conditions[i].values[0];
        assert r in all;
      }
    }
  }

  method CollectSlugs(rules: seq<Rule>) returns (slugs: set<string>)
    ensures slugs == NamedSlugs(Elements(rules))
  {
    slugs := {};
    for i := 0 to |rules|
      invariant slugs == NamedSlugs(Elements(rules[..i]))
    {
      var cs := rules[i].conditions;
      ghost var before := slugs;
      for j := 0 to |cs|
        invariant slugs == before + SlugsOf(cs[..j])
      {
        assert cs[..j + 1] == cs[..j] + [cs[j]];
        assert SlugsOf(cs[..j + 1]) == SlugsOf(cs[..j]) + (if NamesSegment(cs[j]) then {cs[j].values[0]} else {});
        if cs[j].operator.Segment() {
          if |cs[j].values| > 0 { slugs := slugs + {cs[j].values[0]}; }
        }
      }
      assert cs[..|cs|] == cs;
      assert Elements(rules[..i + 1]) == Elements(rules[..i]) + {rules[i]};
      NamedSlugsStep(Elements(rules[..i]), rules[i]);
    }
    assert rules[..|rules|] == rules;
  }

  /** `resolveSegments`: of the slugs the rules name, exactly those the user belongs to. A slug whose
      segment was deleted is skipped; the iteration order of the Go map does not matter. */
  method ResolveSegments(db: Db, project: string, rules: seq<Rule>, userKey: string) returns (r: Result<set<string>>)
    ensures r.Ok? ==> r.value == NamedSlugs(Elements(rules)) * Memberships(db, project, userKey)
    ensures r.Err? ==> r.error == Storage
    ensures r.Err? <==> exists slug :: slug in NamedSlugs(Elements(rules)) && LookupFails(db, project, slug)
  {
    var slugs := CollectSlugs(rules);
    if |slugs| == 0 { return Ok({}); }
    var userSegments: set<string> := {};
    var todo := slugs;
    while todo != {}
      invariant todo <= slugs
      invariant userSegments == (slugs - todo) * Memberships(db, project, userKey)
      invariant forall slug :: slug in slugs - todo ==> !LookupFails(db, project, slug)
      decreases todo
    {
      var slug :| slug in todo;
      if slug in db.slugsDown { return Err(Storage); }
      if (project, slug) in db.segments {
        var id := db.segments[(project, slug)];
        if id in db.segmentsDown { return Err(Storage); }
        if IsMember(db, id, userKey) {
          assert slug in Memberships(db, project, userKey);
          userSegments := userSegments + {slug};
        }
      }
      todo := todo - {slug};
    }
    r := Ok(userSegments);
  }

  /** Evaluating with the preloaded slugs is evaluating each segment condition directly. */
  lemma PreloadIsDirect(flag: Flag, state: Option<bool>, rules: set<Rule>, ctx: EvalContext, slugs: set<string>,
                        r: EvalResult)
    ensures Outcome(flag, state, rules, ctx, NamedSlugs(rules) * slugs, r) <==>
              Outcome(flag, state, rules, ctx, slugs, r)
  {
    var loaded := NamedSlugs(rules) * slugs;
    forall rule | rule in rules ensures Fires(rule, ctx, loaded) <==> Fires(rule, ctx, slugs) {
      forall i | 0 <= i < |rule.conditions|
        ensures Holds(rule.conditions[i], ctx, loaded) <==> Holds(rule.conditions[i], ctx, slugs)
      {
        var c := rule.conditions[i];
        if NamesSegment(c) { assert c.values[0] in NamedSlugs(rules); }
      }
    }
    assert forall rule :: Selected(rule, rules, ctx, loaded) <==> Selected(rule, rules, ctx, slugs);
  }

  // ---------- one flag, given its rows ----------

  predicate AllValid(db: Db) { forall rule :: rule in db.rules ==> ValidRule(rule) }

  predicate TablesUp(db: Db) { !db.flagsDown && !db.statesDown && !db.rulesDown }

  predicate AllUp(db: Db) { db.slugsDown == {} && db.segmentsDown == {} && TablesUp(db) }

  /** The part both use cases share: preload segments, evaluate, build the view. */
  method EvaluateRows(db: Db, project: string, flag: Flag, state: Option<bool>, rules: seq<Rule>, env: string,
                      ctx: EvalContext)
    returns (r: Result<EvalView>)
    requires state == FindState(db.states, flag.id, env)
    requires Elements(rules) == RuleSet(db, flag.id, env)
    ensures r.Ok? ==> Served(db, project, env, flag, ctx, r.value)
    ensures r.Err? ==> r.error == Storage || r.error == Panic
    ensures AllValid(db) && AllUp(db) ==> r.Ok?
  {
    var segments := ResolveSegments(db, project, rules, ctx.userId);
    if segments.Err? { return Err(Storage); }
    var result := Evaluate(flag, state, rules, ctx, segments.value);
    if result.Err? {
      if AllValid(db) {
        ghost var rule :| rule in rules && rule.enabled && CrashReached(rule.conditions, ctx, segments.value);
        assert rule in Elements(rules);
        ValidRuleNeverCrashes(rule, ctx, segments.value);
        assert false;
      }
      return Err(Panic);
    }
    PreloadIsDirect(flag, state, Elements(rules), ctx, Memberships(db, project, ctx.userId), result.value);
    r := Ok(ViewOf(flag, result.value));
  }

  // ---------- Evaluate ----------

  ghost predicate HasKey(db: Db, project: string, key: string) {
    exists f :: f in db.flags && f.projectId == project && f.key == key
  }

  method FlagByKey(db: Db, project: string, key: string) returns (r: Result<Flag>)
    ensures r.Ok? ==> r.value in db.flags && r.value.projectId == project && r.value.key == key
    ensures r == Err(Storage) <==> db.flagsDown
    ensures r == Err(NotFound) <==> !db.flagsDown && !HasKey(db, project, key)
    ensures r.Ok? <==> !db.flagsDown && HasKey(db, project, key)
  {
    if db.flagsDown { return Err(Storage); }
    for i := 0 to |db.flags|
      invariant forall k :: 0 <= k < i ==> db.flags[k].projectId != project || db.flags[k].key != key
    {
      if db.flags[i].projectId == project && db.flags[i].key == key { return Ok(db.flags[i]); }
    }
    r := Err(NotFound);
  }

  lemma RulesForStep(rules: seq<Rule>, i: int, flagId: string, env: string)
    requires 0 <= i < |rules|
    ensures RulesFor(rules[..i + 1], flagId, env) == RulesFor(rules[..i], flagId, env) +
              (if rules[i].flagId == flagId && rules[i].environmentId == env then {rules[i]} else {})
  {
    assert rules[..i + 1] == rules[..i] + [rules[i]];
  }

  method RulesOf(db: Db, flagId: string, env: string) returns (r: Result<seq<Rule>>)
    ensures r.Ok? ==> Elements(r.value) == RuleSet(db, flagId, env)
    ensures r.Ok? ==> forall rule ::
              rule in r.value <==> rule in db.rules && rule.flagId == flagId && rule.environmentId == env
    ensures r.Err? ==> r.error == Storage
    ensures r.Err? <==> db.rulesDown
  {
    if db.rulesDown { return Err(Storage); }
    var rules := [];
    for i := 0 to |db.rules|
      invariant Elements(rules) == RulesFor(db.rules[..i], flagId, env)
    {
      RulesForStep(db.rules, i, flagId, env);
      assert Elements(rules + [db.rules[i]]) == Elements(rules) + {db.rules[i]};
      if db.rules[i].flagId == flagId && db.rules[i].environmentId == env { rules := rules + [db.rules[i]]; }
    }
    assert db.rules[..|db.rules|] == db.rules;
    assert forall rule :: rule in rules <==> rule in Elements(rules);
    r := Ok(rules);
  }

  /** `EvaluationService.Evaluate`. */
  method EvaluateOne(db: Db, role: Role, project: string, env: string, key: string, ctx: EvalContext)
    returns (r: Result<EvalView>)
    ensures r == Err(Forbidden) <==> role.Level() < Viewer.Level()
    ensures r.Ok? ==> exists flag :: flag in db.flags && flag.projectId == project && flag.key == key &&
                                     Served(db, project, env, flag, ctx, r.value)
    ensures r == Err(NotFound) <==> role.Level() >= Viewer.Level() && !db.flagsDown && !HasKey(db, project, key)
    ensures r.Ok? ==> TablesUp(db)
    ensures role.Level() >= Viewer.Level() && AllValid(db) && AllUp(db) && HasKey(db, project, key) ==> r.Ok?
  {
    if role.Level() < Viewer.Level() { return Err(Forbidden); }
    var found := FlagByKey(db, project, key);
    if found.Err? { return Err(found.error); }
    var flag := found.value;
    if db.statesDown { return Err(Storage); }
    var rules := RulesOf(db, flag.id, env);
    if rules.Err? { return Err(rules.error); }
    r := EvaluateRows(db, project, flag, FindState(db.states, flag.id, env), rules.value, env, ctx);
  }

  // ---------- EvaluateAll ----------

  function ListFlags(flags: seq<Flag>, project: string): seq<Flag> {
    if flags == [] then []
    else ListFlags(flags[..|flags| - 1], project) +
         (if flags[|flags| - 1].projectId == project then [flags[|flags| - 1]] else [])
  }

  /** Load the state rows of one environment into a map by flag. */
  method StatesByFlag(db: Db, env: string) returns (byFlag: map<string, bool>)
    ensures forall f :: FindState(db.states, f, env) == if f in byFlag then Some(byFlag[f]) else None
  {
    byFlag := map[];
    for i := 0 to |db.states|
      invariant forall f :: FindState(db.states[..i], f, env) == if f in byFlag then Some(byFlag[f]) else None
    {
      var st := db.states[i];
      assert db.states[..i + 1][..i] == db.states[..i];
      if st.environmentId == env { byFlag := byFlag[st.flagId := st.enabled]; }
    }
    assert db.states[..|db.states|] == db.states;
  }

  /** Load the rules of one environment into a map by flag. */
  method RulesByFlag(db: Db, env: string) returns (byFlag: map<string, seq<Rule>>)
    ensures forall f :: RuleSet(db, f, env) == if f in byFlag then Elements(byFlag[f]) else {}
  {
    byFlag := map[];
    for i := 0 to |db.rules|
      invariant forall f :: RulesFor(db.rules[..i], f, env) == if f in byFlag then Elements(byFlag[f]) else {}
    {
      var rule, before := db.rules[i], byFlag;
      if rule.environmentId == env {
        var sofar := if rule.flagId in byFlag then byFlag[rule.flagId] else [];
        byFlag := byFlag[rule.flagId := sofar + [rule]];
        assert Elements(sofar + [rule]) == Elements(sofar) + {rule};
      }
      forall f ensures RulesFor(db.rules[..i + 1], f, env) == if f in byFlag then Elements(byFlag[f]) else {} {
        RulesForStep(db.rules, i, f, env);
        assert RulesFor(db.rules[..i], f, env) == if f in before then Elements(before[f]) else {};
      }
    }
    assert db.rules[..|db.rules|] == db.rules;
  }

  /** `EvaluationService.EvaluateAll`: one right view for each flag of the project, in listing order. */
  method EvaluateAll(db: Db, role: Role, project: string, env: string, ctx: EvalContext)
    returns (r: Result<seq<EvalView>>)
    ensures r == Err(Forbidden) <==> role.Level() < Viewer.Level()
    ensures r.Ok? ==> |r.value| == |ListFlags(db.flags, project)|
    ensures r.Ok? ==> forall i :: 0 <= i < |r.value| ==>
              Served(db, project, env, ListFlags(db.flags, project)[i], ctx, r.value[i])
    ensures role.Level() >= Viewer.Level() && !TablesUp(db) ==> r == Err(Storage)
    ensures role.Level() >= Viewer.Level() && AllValid(db) && AllUp(db) ==> r.Ok?
  {
    if role.Level() < Viewer.Level() { return Err(Forbidden); }
    if db.flagsDown { return Err(Storage); }
    var flags := ListFlags(db.flags, project);
    if db.statesDown { return Err(Storage); }
    var stateByFlag := StatesByFlag(db, env);
    if db.rulesDown { return Err(Storage); }
    var rulesByFlag := RulesByFlag(db, env);
    var views: seq<EvalView> := [];
    for i := 0 to |flags|
      invariant |views| == i
      invariant forall k :: 0 <= k < i ==> Served(db, project, env, flags[k], ctx, views[k])
    {
      var id := flags[i].id;
      var state := if id in stateByFlag then Some(stateByFlag[id]) else None;
      var rules := if id in rulesByFlag then rulesByFlag[id] else [];
      var view := EvaluateRows(db, project, flags[i], state, rules, env, ctx);
      if view.Err? { return Err(view.error); }
      views := views + [view.value];
    }
    r := Ok(views);
  }

  /** Keys are unique within each project. */
  ghost predicate UniqueKeys(flags: seq<Flag>) {
    forall i, j :: 0 <= i < j < |flags| && flags[i].projectId == flags[j].projectId ==> flags[i].key != flags[j].key
  }

  ghost predicate UniqueFlags(db: Db) {
    UniqueKeys(db.flags) && forall flag, env :: flag in db.flags ==> DistinctPriorities(RuleSet(db, flag.id, env))
  }

  lemma {:induction false} ListFlagsExact(flags: seq<Flag>, project: string)
    ensures forall f :: f in ListFlags(flags, project) <==> f in flags && f.projectId == project
  {
    if flags != [] {
      ListFlagsExact(flags[..|flags| - 1], project);
      assert flags == flags[..|flags| - 1] + [flags[|flags| - 1]];
    }
  }

  /** The last flag of a project shares its key with none listed before it. */
  lemma LastFlagIsNew(flags: seq<Flag>, project: string)
    requires UniqueKeys(flags) && flags != [] && flags[|flags| - 1].projectId == project
    ensures forall f :: f in ListFlags(flags[..|flags| - 1], project) ==> f.key != flags[|flags| - 1].key
  {
    var init := flags[..|flags| - 1];
    ListFlagsExact(init, project);
    forall f | f in ListFlags(init, project) ensures f.key != flags[|flags| - 1].key {
      var k :| 0 <= k < |init| && init[k] == f;
      assert flags[k] == f;
    }
  }

  lemma {:induction false} ListedKeysDistinct(flags: seq<Flag>, project: string)
    requires UniqueKeys(flags)
    ensures forall i, j :: 0 <= i < j < |ListFlags(flags, project)| ==>
              ListFlags(flags, project)[i].key != ListFlags(flags, project)[j].key
  {
    if flags != [] {
      var init, last := flags[..|flags| - 1], flags[|flags| - 1];
      ListedKeysDistinct(init, project);
      var l := ListFlags(init, project);
      if last.projectId == project {
        LastFlagIsNew(flags, project);
        assert ListFlags(flags, project) == l + [last];
        assert forall i :: 0 <= i < |l| ==> l[i] in l;
      }
    }
  }

  /** The batch and the single call agree: whatever `EvaluateAll` answered, it holds for each flag
      key exactly one view, and that view is the one `Evaluate` answers for the key. */
  lemma BatchAgreesWithSingle(db: Db, project: string, env: string, ctx: EvalContext, views: seq<EvalView>, flag: Flag,
                              single: EvalView)
    requires UniqueFlags(db)
    requires |views| == |ListFlags(db.flags, project)|
    requires forall i :: 0 <= i < |views| ==> Served(db, project, env, ListFlags(db.flags, project)[i], ctx, views[i])
    requires flag in db.flags && flag.projectId == project && Served(db, project, env, flag, ctx, single)
    ensures exists i :: 0 <= i < |views| && views[i] == single
    ensures forall i, j :: 0 <= i < |views| && 0 <= j < |views| && views[i].key == views[j].key == flag.key ==> i == j
  {
    var flags := ListFlags(db.flags, project);
    ListFlagsExact(db.flags, project);
    ListedKeysDistinct(db.flags, project);
    var i :| 0 <= i < |flags| && flags[i] == flag;
    ServedUnique(db, project, env, flag, ctx, views[i], single);
    forall k | 0 <= k < |views| ensures views[k].key == flags[k].key {
      assert Served(db, project, env, flags[k], ctx, views[k]);
    }
  }
}
