/** The evaluation engine: which variant a flag serves for a user context. The Go code sorts the
    rules with an unstable sort and scans; the specification looks at the rules as a set. */
module Evaluator {
  import opened Domain
  import Rollout

  datatype EvalContext = EvalContext(userId: string, attributes: map<string, string>)

  datatype Reason = Disabled | Default | RuleMatch

  datatype EvalResult = EvalResult(variantKey: string, reason: Reason, matchedRuleId: string, matchedRuleName: string)

  // ---------- conditions ----------

  predicate OccursAt(s: string, t: string, i: int) { 0 <= i <= |s| - |t| && s[i..i + |t|] == t }

  predicate ContainsText(s: string, t: string) { exists i :: 0 <= i <= |s| && OccursAt(s, t, i) }

  predicate HasSuffix(s: string, t: string) { |t| <= |s| && s[|s| - |t|..] == t }

  /** What an attribute condition says about the attribute's value. */
  predicate HoldsOn(op: Operator, val: string, values: seq<string>) {
    match op
    case In => val in values
    case NotIn => val !in values
    case Eq => values != [] && val == values[0]
    case Neq => values != [] && val != values[0]
    case Contains => values != [] && ContainsText(val, values[0])
    case StartsWith => values != [] && values[0] <= val
    case EndsWith => values != [] && HasSuffix(val, values[0])
    case _ => false
  }

  /** What a condition says about a user: `slugs` are the segments the user belongs to, and a
      missing attribute never matches. */
  predicate Holds(c: Condition, ctx: EvalContext, slugs: set<string>) {
    if c.operator.Segment() then c.values != [] && (c.values[0] in slugs <==> c.operator.InSegment?)
    else c.attribute in ctx.attributes && HoldsOn(c.operator, ctx.attributes[c.attribute], c.values)
  }

  /** The condition indexes an empty `Values` slice. */
  predicate Crashes(c: Condition, ctx: EvalContext) {
    c.operator.Scalar() && !c.operator.Segment() && c.attribute in ctx.attributes && c.values == []
  }

  /** `matchesCondition`: computes `Holds`, and stops the program exactly on `Crashes`. */
  method MatchesCondition(c: Condition, ctx: EvalContext, slugs: set<string>) returns (r: Result<bool>)
    ensures r == if Crashes(c, ctx) then Err(Panic) else Ok(Holds(c, ctx, slugs))
  {
    var op := c.operator;
    if op.InSegment? {
      if |c.values| == 0 { return Ok(false); }
      return Ok(c.values[0] in slugs);
    } else if op.NotInSegment? {
      if |c.values| == 0 { return Ok(false); }
      return Ok(c.values[0] !in slugs);
    }
    if c.attribute !in ctx.attributes { return Ok(false); }
    var val := ctx.attributes[c.attribute];
    if op.In? {
      for i := 0 to |c.values|
        invariant forall k :: 0 <= k < i ==> c.values[k] != val
      {
        if val == c.values[i] { return Ok(true); }
      }
      return Ok(false);
    } else if op.NotIn? {
      for i := 0 to |c.values|
        invariant forall k :: 0 <= k < i ==> c.values[k] != val
      {
        if val == c.values[i] { return Ok(false); }
      }
      return Ok(true);
    } else if op.Unsupported? {
      return Ok(false);
    }
    if |c.values| == 0 { return Err(Panic); }
    r := if op.Eq? then Ok(val == c.values[0])
    else if op.Neq? then Ok(val != c.values[0])
    else if op.Contains? then Ok(ContainsText(val, c.values[0]))
    else if op.StartsWith? then Ok(c.values[0] <= val)
    else Ok(HasSuffix(val, c.values[0]));
  }

  /** What the text operators test. */
  lemma ContainsMeaning(s: string, t: string)
    ensures ContainsText(s, t) <==> exists a, b :: s == a + t + b
  {
    if ContainsText(s, t) {
      var i :| 0 <= i <= |s| && OccursAt(s, t, i);
      assert s == s[..i] + t + s[i + |t|..];
    }
    if a, b :| s == a + t + b { assert OccursAt(s, t, |a|); }
  }

  lemma AffixMeaning(s: string, t: string)
    ensures HasSuffix(s, t) <==> exists a :: s == a + t
    ensures t <= s <==> exists b :: s == t + b
  {
    if HasSuffix(s, t) { assert s == s[..|s| - |t|] + t; }
    if t <= s { assert s == t + s[|t|..]; }
  }

  /** What a condition with a well-formed value list says, operator by operator. */
  lemma ConditionMeaning(c: Condition, ctx: EvalContext, slugs: set<string>, v: string)
    requires c.operator.List() || c.values == [v]
    ensures c.operator == InSegment ==> (Holds(c, ctx, slugs) <==> v in slugs)
    ensures c.operator == NotInSegment ==> (Holds(c, ctx, slugs) <==> v !in slugs)
    ensures !c.operator.InSegment? && !c.operator.NotInSegment? && c.attribute !in ctx.attributes ==>
              !Holds(c, ctx, slugs)
    ensures c.attribute in ctx.attributes ==>
              var val, holds := ctx.attributes[c.attribute], Holds(c, ctx, slugs);
              && (c.operator == Eq ==> (holds <==> val == v))
              && (c.operator == Neq ==> (holds <==> val != v))
              && (c.operator == Contains ==> (holds <==> exists a, b :: val == a + v + b))
              && (c.operator == StartsWith ==> (holds <==> exists b :: val == v + b))
              && (c.operator == EndsWith ==> (holds <==> exists a :: val == a + v))
              && (c.operator == In ==> (holds <==> exists i :: 0 <= i < |c.values| && c.values[i] == val))
              && (c.operator == NotIn ==> (holds <==> forall i :: 0 <= i < |c.values| ==> c.values[i] != val))
              && (c.operator.Unsupported? ==> !holds)
  {
    if c.attribute in ctx.attributes {
      ContainsMeaning(ctx.attributes[c.attribute], v);
      AffixMeaning(ctx.attributes[c.attribute], v);
    }
  }

  predicate HoldsAll(cs: seq<Condition>, ctx: EvalContext, slugs: set<string>) {
    forall i :: 0 <= i < |cs| ==> Holds(cs[i], ctx, slugs)
  }

  /** `matchesAll` stops at the first condition that fails, so only a crash before it is reached. */
  predicate CrashReached(cs: seq<Condition>, ctx: EvalContext, slugs: set<string>) {
    exists i :: 0 <= i < |cs| && Crashes(cs[i], ctx) && forall k :: 0 <= k < i ==> Holds(cs[k], ctx, slugs)
  }

  method MatchesAll(cs: seq<Condition>, ctx: EvalContext, slugs: set<string>) returns (r: Result<bool>)
    ensures r == if CrashReached(cs, ctx, slugs) then Err(Panic) else Ok(HoldsAll(cs, ctx, slugs))
  {
    for i := 0 to |cs|
      invariant forall k :: 0 <= k < i ==> Holds(cs[k], ctx, slugs) && !Crashes(cs[k], ctx)
    {
      r := MatchesCondition(cs[i], ctx, slugs);
      if r != Ok(true) { return; }
    }
    r := Ok(true);
  }

  // ---------- the specification of evaluation ----------

  /** The rule decides for this user: enabled, every condition holds, and a rollout has a user to bucket. */
  ghost predicate Fires(rule: Rule, ctx: EvalContext, slugs: set<string>) {
    rule.enabled && HoldsAll(rule.conditions, ctx, slugs) && (rule.rollout != [] ==> ctx.userId != "")
  }

  ghost predicate Selected(rule: Rule, rules: set<Rule>, ctx: EvalContext, slugs: set<string>) {
    && rule in rules && Fires(rule, ctx, slugs)
    && forall o :: o in rules && Fires(o, ctx, slugs) ==> rule.priority <= o.priority
  }

  ghost predicate Decides(rule: Rule, flag: Flag, ctx: EvalContext, r: EvalResult) {
    && r.reason == RuleMatch && r.matchedRuleId == rule.id && r.matchedRuleName == rule.name
    && (if rule.rollout == [] then r.variantKey == rule.variantKey
        else Rollout.Returns(rule.rollout, Rollout.BucketOf(flag.key, ctx.userId), r.variantKey))
  }

  /** `r` is a right answer: the default when the flag is off (no state row counts as off), the
      answer of a least-priority rule that fires, the default when none fires. */
  ghost predicate Outcome(flag: Flag, state: Option<bool>, rules: set<Rule>, ctx: EvalContext, slugs: set<string>,
                          r: EvalResult)
  {
    if state != Some(true) then r == EvalResult(flag.defaultVariantKey, Disabled, "", "")
    else if exists rule :: rule in rules && Fires(rule, ctx, slugs) then
      exists rule :: Selected(rule, rules, ctx, slugs) && Decides(rule, flag, ctx, r)
    else r == EvalResult(flag.defaultVariantKey, Default, "", "")
  }

  ghost predicate DistinctPriorities(rules: set<Rule>) {
    forall a, b :: a in rules && b in rules && a != b ==> a.priority != b.priority
  }

  /** With distinct priorities there is one right answer, whatever order the rules come in. */
  lemma OutcomeUnique(flag: Flag, state: Option<bool>, rules: set<Rule>, ctx: EvalContext, slugs: set<string>,
                      r1: EvalResult, r2: EvalResult)
    requires DistinctPriorities(rules)
    requires Outcome(flag, state, rules, ctx, slugs, r1) && Outcome(flag, state, rules, ctx, slugs, r2)
    ensures r1 == r2
  {
    if state == Some(true) && exists rule :: rule in rules && Fires(rule, ctx, slugs) {
      var a :| Selected(a, rules, ctx, slugs) && Decides(a, flag, ctx, r1);
      var b :| Selected(b, rules, ctx, slugs) && Decides(b, flag, ctx, r2);
      assert a == b;
      if a.rollout != [] {
        Rollout.ReturnsUnique(a.rollout, Rollout.BucketOf(flag.key, ctx.userId), r1.variantKey, r2.variantKey);
      }
    }
  }

  /** An enabled rule all of whose conditions hold, and that can bucket the user if it has to. */
  predicate Applies(rule: Rule, ctx: EvalContext, slugs: set<string>) {
    && rule.enabled && (rule.rollout == [] || ctx.userId != "")
    && forall i :: 0 <= i < |rule.conditions| ==> Holds(rule.conditions[i], ctx, slugs)
  }

  /** What is served when one rule comes before all others that apply: its variant, or the one whose share of the
      rollout holds the user's bucket. */
  lemma FirstRuleDecides(flag: Flag, rules: set<Rule>, ctx: EvalContext, slugs: set<string>, rule: Rule, r: EvalResult)
    requires Outcome(flag, Some(true), rules, ctx, slugs, r)
    requires rule in rules && ValidRule(rule) && Applies(rule, ctx, slugs)
    requires forall o :: o in rules && o != rule && Applies(o, ctx, slugs) ==> rule.priority < o.priority
    ensures r.reason == RuleMatch && r.matchedRuleId == rule.id && r.matchedRuleName == rule.name
    ensures rule.rollout == [] ==> r.variantKey == rule.variantKey
    ensures rule.rollout != [] ==>
              exists i :: 0 <= i < |rule.rollout| && r.variantKey == rule.rollout[i].variantKey &&
                WeightTo(rule.rollout, i) <= Rollout.BucketOf(flag.key, ctx.userId) < WeightTo(rule.rollout, i + 1)
  {
    assert forall o :: o in rules ==> (Fires(o, ctx, slugs) <==> Applies(o, ctx, slugs));
    var a :| Selected(a, rules, ctx, slugs) && Decides(a, flag, ctx, r);
    assert a == rule;
    if rule.rollout != [] {
      var bucket := Rollout.BucketOf(flag.key, ctx.userId);
      var i :| Rollout.ResolvesTo(rule.rollout, bucket, i) && rule.rollout[i].variantKey == r.variantKey;
      Rollout.ResolvedIsOwner(rule.rollout, bucket, i);
    }
  }

  /** And the default when the flag is off or no rule applies. */
  lemma DefaultOtherwise(flag: Flag, state: Option<bool>, rules: set<Rule>, ctx: EvalContext, slugs: set<string>,
                         r: EvalResult)
    requires Outcome(flag, state, rules, ctx, slugs, r)
    requires state == Some(true) ==> forall o :: o in rules ==> !Applies(o, ctx, slugs)
    ensures r.variantKey == flag.defaultVariantKey && r.matchedRuleId == "" && r.matchedRuleName == ""
    ensures r.reason == if state == Some(true) then Default else Disabled
  {
    assert forall o :: o in rules ==> (Fires(o, ctx, slugs) <==> Applies(o, ctx, slugs));
  }

  // ---------- Evaluate ----------

  predicate Ascending(rules: seq<Rule>) {
    forall i, j :: 0 <= i < j < |rules| ==> rules[i].priority <= rules[j].priority
  }

  /** Everything `sort.Slice` promises; equal priorities may come out in any order. */
  predicate IsSorting(sorted: seq<Rule>, rules: seq<Rule>) {
    multiset(sorted) == multiset(rules) && Ascending(sorted)
  }

  lemma InsertAt(rest: seq<Rule>, rule: Rule, i: int)
    requires Ascending(rest) && 0 <= i <= |rest|
    requires forall k :: 0 <= k < i ==> rest[k].priority <= rule.priority
    requires forall k :: i <= k < |rest| ==> rule.priority <= rest[k].priority
    ensures Ascending(rest[..i] + [rule] + rest[i..])
  {
  }

  lemma InsertMultiset(rest: seq<Rule>, rule: Rule, i: int)
    requires 0 <= i <= |rest|
    ensures multiset(rest[..i] + [rule] + rest[i..]) == multiset(rest) + multiset{rule}
  {
    assert rest == rest[..i] + rest[i..];
  }

  lemma InsertByPriority(rest: seq<Rule>, rule: Rule) returns (sorted: seq<Rule>)
    requires Ascending(rest)
    ensures Ascending(sorted) && multiset(sorted) == multiset(rest) + multiset{rule}
  {
    var i := 0;
    while i < |rest| && rest[i].priority <= rule.priority
      invariant 0 <= i <= |rest|
      invariant forall k :: 0 <= k < i ==> rest[k].priority <= rule.priority
    {
      i := i + 1;
    }
    InsertAt(rest, rule, i);
    sorted := rest[..i] + [rule] + rest[i..];
    InsertMultiset(rest, rule, i);
  }

  /** `sort.Slice` always has something to return. */
  lemma {:induction false} SortingExists(rules: seq<Rule>) returns (sorted: seq<Rule>)
    ensures IsSorting(sorted, rules)
  {
    if rules == [] {
      sorted := [];
    } else {
      var rest := SortingExists(rules[1..]);
      sorted := InsertByPriority(rest, rules[0]);
      assert rules == [rules[0]] + rules[1..];
    }
  }

  function Elements(rules: seq<Rule>): set<Rule> { set r | r in rules }

  lemma SortingKeepsElements(sorted: seq<Rule>, rules: seq<Rule>)
    requires IsSorting(sorted, rules)
    ensures Elements(sorted) == Elements(rules)
  {
    forall r ensures r in sorted <==> r in rules {
      assert r in multiset(sorted) <==> r in multiset(rules);
    }
  }

  /** Any two orderings of the same rules, sorted in any admissible way, give the same answer. */
  lemma OrderIrrelevant(flag: Flag, state: Option<bool>, rules: seq<Rule>, shuffled: seq<Rule>, ctx: EvalContext,
                        slugs: set<string>, r1: EvalResult, r2: EvalResult)
    requires multiset(rules) == multiset(shuffled) && DistinctPriorities(Elements(rules))
    requires Outcome(flag, state, Elements(rules), ctx, slugs, r1)
    requires Outcome(flag, state, Elements(shuffled), ctx, slugs, r2)
    ensures r1 == r2
  {
    forall r ensures r in rules <==> r in shuffled {
      assert r in multiset(rules) <==> r in multiset(shuffled);
    }
    assert Elements(rules) == Elements(shuffled);
    OutcomeUnique(flag, state, Elements(rules), ctx, slugs, r1, r2);
  }

  /** One enabled rule of the scan: `None` means go on to the next rule. */
  method TryRule(rule: Rule, flag: Flag, ctx: EvalContext, slugs: set<string>) returns (r: Result<Option<EvalResult>>)
    ensures r.Err? <==> rule.enabled && CrashReached(rule.conditions, ctx, slugs)
    ensures r.Ok? ==> (r.value.Some? <==> Fires(rule, ctx, slugs))
    ensures r.Ok? && r.value.Some? ==> Decides(rule, flag, ctx, r.value.value)
    ensures r.Err? ==> r.error == Panic
  {
    if !rule.enabled { return Ok(None); }
    var matched := MatchesAll(rule.conditions, ctx, slugs);
    if matched.Err? { return Err(Panic); }
    if !matched.value { return Ok(None); }
    var variantKey := rule.variantKey;
    if |rule.rollout| > 0 {
      if ctx.userId == "" { return Ok(None); }
      var bucket := Rollout.Bucket(flag.key, ctx.userId);
      var resolved := Rollout.ResolveRollout(rule.rollout, bucket);
      variantKey := resolved.value;
    }
    r := Ok(Some(EvalResult(variantKey, RuleMatch, rule.id, rule.name)));
  }

  /** `Evaluate`, for every order the unstable sort may produce: an answer is always a right
      answer, and the call can only stop the program on an enabled rule with an unvalidated condition. */
  method Evaluate(flag: Flag, state: Option<bool>, rules: seq<Rule>, ctx: EvalContext, slugs: set<string>)
    returns (r: Result<EvalResult>)
    ensures r.Ok? ==> Outcome(flag, state, Elements(rules), ctx, slugs, r.value)
    ensures r.Err? ==> r.error == Panic && state == Some(true)
    ensures r.Err? ==> exists rule :: rule in rules && rule.enabled && CrashReached(rule.conditions, ctx, slugs)
  {
    if state != Some(true) {
      return Ok(EvalResult(flag.defaultVariantKey, Disabled, "", ""));
    }
    ghost var some := SortingExists(rules);
    var sorted: seq<Rule> :| IsSorting(sorted, rules);
    SortingKeepsElements(sorted, rules);
    for i := 0 to |sorted|
      invariant forall k :: 0 <= k < i ==> !Fires(sorted[k], ctx, slugs)
    {
      assert sorted[i] in Elements(rules);
      var tried := TryRule(sorted[i], flag, ctx, slugs);
      if tried.Err? { return Err(Panic); }
      if tried.value.Some? {
        forall o | o in Elements(rules) && Fires(o, ctx, slugs) ensures sorted[i].priority <= o.priority {
          assert o in Elements(sorted);
          var k :| 0 <= k < |sorted| && sorted[k] == o;
        }
        assert Selected(sorted[i], Elements(rules), ctx, slugs);
        return Ok(tried.value.value);
      }
    }
    forall o | o in Elements(rules) ensures !Fires(o, ctx, slugs) {
      assert o in Elements(sorted);
    }
    r := Ok(EvalResult(flag.defaultVariantKey, Default, "", ""));
  }

  /** A rule `Rule.Validate` accepts never makes the matcher index out of range. */
  lemma ValidRuleNeverCrashes(rule: Rule, ctx: EvalContext, slugs: set<string>)
    requires ValidRule(rule)
    ensures !CrashReached(rule.conditions, ctx, slugs)
  {
  }

  /** Served variants come from the flag's own configuration: with validated rules, the answer is
      the default key, a rule's key or a key of a rule's rollout, and never the empty fallback. */
  lemma OutcomeVariant(flag: Flag, state: Option<bool>, rules: set<Rule>, ctx: EvalContext, slugs: set<string>,
                       r: EvalResult)
    requires Outcome(flag, state, rules, ctx, slugs, r)
    requires forall rule :: rule in rules ==> ValidRule(rule)
    ensures r.reason != RuleMatch ==> r.variantKey == flag.defaultVariantKey
    ensures r.reason == RuleMatch ==> r.variantKey != ""
    ensures r.reason == Disabled <==> state != Some(true)
  {
    if state == Some(true) && exists rule :: rule in rules && Fires(rule, ctx, slugs) {
      var a :| Selected(a, rules, ctx, slugs) && Decides(a, flag, ctx, r);
      assert ValidRule(a);
    }
  }
}
