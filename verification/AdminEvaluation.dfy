/** What administration guarantees to evaluation: when a run of admin calls leaves evaluation one answer that
    cannot crash, when every answer is a variant the flag has, and runs where it is not. */
module AdminEvaluation {
  import opened Domain
  import opened Evaluator
  import S = RuleStore
  import E = EvaluationService

  /** The rules evaluation sees for a flag in an environment. */
  function RulesIn(s: S.Store, f: string, env: string): set<Rule> {
    set id | id in s.rules && s.rules[id].flagId == f && s.rules[id].environmentId == env :: s.rules[id]
  }

  lemma RulesInDistinct(s: S.Store, f: string, env: string)
    requires S.Inv(s)
    ensures DistinctPriorities(RulesIn(s, f, env)) && forall rule :: rule in RulesIn(s, f, env) ==> ValidRule(rule)
  {
    var rules := RulesIn(s, f, env);
    forall a, b | a in rules && b in rules && a != b ensures a.priority != b.priority {
      assert s.rules[a.id] == a && s.rules[b.id] == b;
    }
  }

  /** After any run of completed admin calls that are careful with priorities and empty default keys, every answer of
      `Evaluate` is the same answer, whatever order the rules are listed in, and no rule can make it crash. */
  lemma AdminRunsEvaluate(states: seq<S.Store>, ops: seq<S.Op>, i: nat, f: string, env: string, state: Option<bool>,
                          ctx: EvalContext, slugs: set<string>, r1: EvalResult, r2: EvalResult)
    requires S.IsRun(states, ops) && S.Inv(states[0]) && i < |states|
    requires forall k :: 0 <= k < i ==> S.Careful(states[k], ops[k], states[k + 1])
    requires f in states[i].flags
    requires Outcome(states[i].flags[f], state, RulesIn(states[i], f, env), ctx, slugs, r1)
    requires Outcome(states[i].flags[f], state, RulesIn(states[i], f, env), ctx, slugs, r2)
    ensures r1 == r2
    ensures forall rule :: rule in RulesIn(states[i], f, env) ==> !CrashReached(rule.conditions, ctx, slugs)
  {
    S.RunKeepsInv(states, ops, i);
    RulesInDistinct(states[i], f, env);
    OutcomeUnique(states[i].flags[f], state, RulesIn(states[i], f, env), ctx, slugs, r1, r2);
    forall rule | rule in RulesIn(states[i], f, env) ensures !CrashReached(rule.conditions, ctx, slugs) {
      ValidRuleNeverCrashes(rule, ctx, slugs);
    }
  }

  /** While a flag's rules refer only to its variants, whatever is served is one of them. */
  lemma ServesStoredVariant(s: S.Store, f: string, env: string, state: Option<bool>, ctx: EvalContext,
                            slugs: set<string>, r: EvalResult)
    requires f in s.flags && ValidFlag(s.flags[f]) && S.FlagIntegrity(s, f)
    requires Outcome(s.flags[f], state, RulesIn(s, f, env), ctx, slugs, r)
    ensures r.variantKey in VariantKeys(s.flags[f].variants)
  {
    var rules := RulesIn(s, f, env);
    if state == Some(true) && exists rule :: rule in rules && Fires(rule, ctx, slugs) {
      var a :| Selected(a, rules, ctx, slugs) && Decides(a, s.flags[f], ctx, r);
      assert S.Refers(a) <= VariantKeys(s.flags[f].variants);
      assert r.variantKey in S.Refers(a);
    }
  }

  /** After any run, including every partial deletion of a variant, in which new and updated rules name only
      variants their flag has and flag updates keep the variants in use, every user is served a variant the
      flag has. By `S.IntegrityExactly` each of those conditions is needed to keep references intact. */
  lemma AdminRunsServeStored(states: seq<S.Store>, ops: seq<S.Op>, i: nat, f: string, env: string, state: Option<bool>,
                             ctx: EvalContext, slugs: set<string>, r: EvalResult)
    requires S.IsRun(states, ops) && S.Sound(states[0]) && S.Integrity(states[0]) && i < |states|
    requires forall k :: 0 <= k < i ==> S.Referring(states[k], ops[k], states[k + 1])
    requires f in states[i].flags
    requires Outcome(states[i].flags[f], state, RulesIn(states[i], f, env), ctx, slugs, r)
    ensures r.variantKey in VariantKeys(states[i].flags[f].variants)
  {
    S.RunKeepsSound(states, ops, i);
    S.RunKeepsIntegrity(states, ops, i);
    assert S.FlagIntegrity(states[i], f);
    ServesStoredVariant(states[i], f, env, state, ctx, slugs, r);
  }

  /** What the evaluation repositories read of a flag and its rules is this store. */
  ghost predicate ReadsFrom(db: E.Db, s: S.Store, f: string, env: string) {
    f in s.flags && s.flags[f].id == f && E.RuleSet(db, f, env) == RulesIn(s, f, env)
  }

  /** So it is for the views the evaluation calls answer: the value key, and the deprecated value of a flag that has
      one, is a variant of the flag. */
  lemma AdminRunsViewStored(states: seq<S.Store>, ops: seq<S.Op>, i: nat, f: string, db: E.Db, project: string,
                            env: string, ctx: EvalContext, view: E.EvalView)
    requires S.IsRun(states, ops) && S.Sound(states[0]) && S.Integrity(states[0]) && i < |states|
    requires forall k :: 0 <= k < i ==> S.Referring(states[k], ops[k], states[k + 1])
    requires ReadsFrom(db, states[i], f, env) && E.Served(db, project, env, states[i].flags[f], ctx, view)
    ensures view.valueKey in VariantKeys(states[i].flags[f].variants)
    ensures view.value.Some? ==> view.value.value in VariantKeys(states[i].flags[f].variants)
  {
    var r := E.ServedFields(db, project, env, states[i].flags[f], ctx, view);
    AdminRunsServeStored(states, ops, i, f, env, E.FindState(db.states, f, env), ctx,
                         E.Memberships(db, project, ctx.userId), r);
  }

  /** Without that condition: the services accept a rule that makes evaluation serve a variant its flag never had. */
  lemma UnknownVariantServed() returns (s: S.Store, rule: Rule, t: S.Store, ctx: EvalContext, r: EvalResult)
    ensures S.Inv(s) && S.Integrity(s) && S.Next(s, S.CreateRule(rule), t) && "f" in t.flags
    ensures Outcome(t.flags["f"], Some(true), RulesIn(t, "f", "e"), ctx, {}, r)
    ensures r.variantKey !in VariantKeys(t.flags["f"].variants)
  {
    s, rule, t := S.UnknownVariantAccepted();
    ctx := EvalContext("u", map["plan" := "pro"]);
    r := EvalResult("ghost", RuleMatch, rule.id, rule.name);
    var rules := RulesIn(t, "f", "e");
    assert t.rules["2"] == rule && rule in rules;
    assert Fires(rule, ctx, {});
    assert Selected(rule, rules, ctx, {}) && Decides(rule, t.flags["f"], ctx, r);
  }

  /** Deleting a variant is safe for the flag's users throughout, given references were intact: after every
      prefix of its writes, whichever fails, every user is served a variant the flag has, and once the call has
      succeeded no user is served the deleted one. */
  lemma DeletionServesStoredVariant(s: S.Store, f: string, v: string, t: S.Store, env: string, state: Option<bool>,
                                    ctx: EvalContext, slugs: set<string>, r: EvalResult)
    requires f in s.flags && ValidFlag(s.flags[f]) && S.FlagIntegrity(s, f)
    requires S.Next(s, S.DeleteVariant(f, v), t) && f in t.flags
    requires Outcome(t.flags[f], state, RulesIn(t, f, env), ctx, slugs, r)
    ensures r.variantKey in VariantKeys(t.flags[f].variants)
    ensures t.flags != s.flags ==> r.variantKey != v
  {
    S.DeleteVariantIntegrity(s, f, v, t);
    ServesStoredVariant(t, f, env, state, ctx, slugs, r);
  }
}
