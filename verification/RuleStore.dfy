/** The rules, flags and environments the administration calls share: which steps the calls allow,
    which of them keep priorities distinct, rules valid and references intact, and what that means
    for whole runs. Every call may fail at any write. */
module RuleStore {
  import opened Domain
  import R = Rollout

  datatype Store = Store(flags: map<string, Flag>, envs: set<string>, rules: map<string, Rule>)

  // ---------- what a store may satisfy ----------

  predicate SameScope(a: Rule, b: Rule) { a.flagId == b.flagId && a.environmentId == b.environmentId }

  ghost predicate Keyed(s: Store) {
    && (forall id :: id in s.rules ==> s.rules[id].id == id)
    && (forall id :: id in s.flags ==> s.flags[id].id == id)
  }

  /** The foreign keys of the rules table. */
  ghost predicate Owned(s: Store) {
    forall id :: id in s.rules ==> s.rules[id].flagId in s.flags && s.rules[id].environmentId in s.envs
  }

  ghost predicate FlagsValid(s: Store) { forall id :: id in s.flags ==> ValidFlag(s.flags[id]) }

  /** No two flags of a project share a key. */
  ghost predicate KeysUnique(flags: map<string, Flag>) {
    forall a, b :: a in flags && b in flags && a != b && flags[a].projectId == flags[b].projectId ==>
      flags[a].key != flags[b].key
  }

  ghost predicate Sound(s: Store) { Keyed(s) && Owned(s) && FlagsValid(s) && KeysUnique(s.flags) }

  /** Priorities are pairwise distinct within each flag and environment. */
  ghost predicate Distinct(s: Store) {
    forall a, b :: a in s.rules && b in s.rules && a != b && SameScope(s.rules[a], s.rules[b]) ==>
      s.rules[a].priority != s.rules[b].priority
  }

  ghost predicate RulesValid(s: Store) { forall id :: id in s.rules ==> ValidRule(s.rules[id]) }

  ghost predicate Inv(s: Store) { Sound(s) && Distinct(s) && RulesValid(s) }

  /** The variants a rule can serve. */
  function Refers(r: Rule): set<string> {
    if r.rollout == [] then {r.variantKey} else set i | 0 <= i < |r.rollout| :: r.rollout[i].variantKey
  }

  /** Every rule of the flag serves only variants the flag has. */
  ghost predicate FlagIntegrity(s: Store, f: string)
    requires f in s.flags
  {
    forall id :: id in s.rules && s.rules[id].flagId == f ==> Refers(s.rules[id]) <= VariantKeys(s.flags[f].variants)
  }

  ghost predicate Integrity(s: Store) { forall f :: f in s.flags ==> FlagIntegrity(s, f) }

  // ---------- rewriting one rule ----------

  predicate Mentions(r: Rule, v: string) {
    r.variantKey == v || exists i :: 0 <= i < |r.rollout| && r.rollout[i].variantKey == v
  }

  /** `DeleteVariant`'s rewrite of an affected rule. */
  function Patch(r: Rule, v: string, default: string): Rule {
    var keyed := if r.variantKey == v then r.(variantKey := default) else r;
    if r.rollout == [] then keyed
    else if R.Redistribute(r.rollout, v) == [] then keyed.(rollout := [], variantKey := default)
    else keyed.(rollout := R.Redistribute(r.rollout, v))
  }

  /** Everything the rule serves is the deleted variant. */
  predicate ServesOnly(r: Rule, v: string) {
    if r.rollout == [] then r.variantKey == v else forall i :: 0 <= i < |r.rollout| ==> r.rollout[i].variantKey == v
  }

  /** The rewritten rule no longer mentions the variant, serves only what it served or the default,
      and keeps its identity, place and priority. */
  lemma PatchClean(r: Rule, v: string, default: string)
    requires default != v
    ensures !Mentions(Patch(r, v, default), v)
    ensures Refers(Patch(r, v, default)) <= (Refers(r) - {v}) + {default}
    ensures var p := Patch(r, v, default);
            && p.id == r.id && SameScope(p, r) && p.priority == r.priority
            && p.name == r.name && p.enabled == r.enabled && p.conditions == r.conditions
  {
    var p := Patch(r, v, default);
    forall k | 0 <= k < |p.rollout| ensures p.rollout[k].variantKey != v && p.rollout[k].variantKey in Refers(r) {
      R.RedistributeMentions(r.rollout, v, k);
    }
  }

  /** A rule without a rollout keeps its key unless that is the deleted one; a rollout of nothing but the deleted
      variant becomes the default. */
  lemma PatchKey(r: Rule, v: string, default: string)
    ensures var p := Patch(r, v, default);
            && (r.rollout == [] ==>
                  p.rollout == [] && p.variantKey == if r.variantKey == v then default else r.variantKey)
            && (r.rollout != [] && ServesOnly(r, v) ==> p.rollout == [] && p.variantKey == default)
  {
    R.KeptClean(r.rollout, v, |r.rollout|);
  }

  /** Buckets of a rollout that return a variant. */
  ghost function Buckets(es: seq<RolloutEntry>, w: string): set<int> { set b | 0 <= b < 100 && R.Returns(es, b, w) }

  /** A rollout with a survivor is rewritten, not collapsed: still 100 buckets, of which each variant keeps as many as
      it had, the first survivor's variant gets the removed ones as well, and the deleted one has none. */
  lemma PatchShares(r: Rule, v: string, default: string, i: int, w: string)
    requires ValidRollout(r.rollout) && R.FirstSurvivor(r.rollout, v, i)
    ensures var p := Patch(r, v, default);
            && p.rollout != [] && Weight(p.rollout) == 100
            && |Buckets(p.rollout, w)| ==
               if w == v then 0
               else |Buckets(r.rollout, w)| + (if w == r.rollout[i].variantKey then |Buckets(r.rollout, v)| else 0)
  {
    var p := Patch(r, v, default);
    R.RedistributeValid(r.rollout, v);
    R.RedistributedShare(r.rollout, v, i, w);
    R.RolloutPercentage(p.rollout, w);
    R.RolloutPercentage(r.rollout, w);
    R.RolloutPercentage(r.rollout, v);
  }

  /** And each surviving entry's buckets move as little as the source lets them: the first survivor's interval starts at
      0 and grows by the removed weight, any other keeps its length and moves by what was removed after it. */
  lemma PatchIntervals(r: Rule, v: string, default: string, i: int)
    requires ValidRollout(r.rollout) && 0 <= i < |r.rollout| && r.rollout[i].variantKey != v
    ensures var k, es, after := |R.KeptTo(r.rollout, v, i)|, r.rollout, Patch(r, v, default).rollout;
            && k < |after| && after[k].variantKey == es[i].variantKey
            && (k > 0 ==>
                  && R.Start(after, k) == R.Start(es, i) + R.RemovedAfter(es, v, i)
                  && R.End(after, k) == R.End(es, i) + R.RemovedAfter(es, v, i))
            && (k == 0 ==> R.Start(after, 0) == 0 && R.End(after, 0) == es[i].weight + R.WeightOf(es, v))
  {
    R.RedistributedInterval(r.rollout, v, i);
    R.RedistributeValid(r.rollout, v);
  }

  /** A valid rule stays valid exactly unless it served nothing but the deleted variant and the flag's
      default key is empty, which `Flag.Validate` does not forbid. */
  lemma PatchValid(r: Rule, v: string, default: string)
    requires ValidRule(r)
    ensures ValidRule(Patch(r, v, default)) <==> default != "" || !ServesOnly(r, v)
  {
    if r.rollout != [] { R.RedistributeValid(r.rollout, v); }
  }

  // ---------- editing a flag's variants ----------

  function Without(vs: seq<Variant>, key: string): seq<Variant> {
    if vs == [] then []
    else if vs[0].key == key then vs[1..]
    else [vs[0]] + Without(vs[1..], key)
  }

  /** The first variant with this key gets a new name. */
  function Renamed(vs: seq<Variant>, key: string, name: string): seq<Variant> {
    if vs == [] then []
    else if vs[0].key == key then [Variant(key, name)] + vs[1..]
    else [vs[0]] + Renamed(vs[1..], key, name)
  }

  lemma KeysAppend(a: seq<Variant>, b: seq<Variant>)
    ensures VariantKeys(a + b) == VariantKeys(a) + VariantKeys(b)
  {
    forall k | k in VariantKeys(a) + VariantKeys(b) ensures k in VariantKeys(a + b) {
      if k in VariantKeys(a) {
        var i :| 0 <= i < |a| && a[i].key == k;
        assert (a + b)[i].key == k;
      } else {
        var i :| 0 <= i < |b| && b[i].key == k;
        assert (a + b)[|a| + i].key == k;
      }
    }
  }

  lemma {:induction false} WithoutKeys(vs: seq<Variant>, key: string)
    requires DistinctKeys(vs)
    ensures VariantKeys(Without(vs, key)) == VariantKeys(vs) - {key}
    ensures DistinctKeys(Without(vs, key))
    ensures |Without(vs, key)| == if key in VariantKeys(vs) then |vs| - 1 else |vs|
  {
    if vs != [] {
      var head, tail := vs[0], vs[1..];
      assert vs == [head] + tail;
      KeysAppend([head], tail);
      WithoutKeys(tail, key);
      assert head.key !in VariantKeys(tail);
      if head.key != key {
        var rest := Without(tail, key);
        KeysAppend([head], rest);
        assert forall i :: 0 <= i < |rest| ==> rest[i].key in VariantKeys(rest);
      }
    }
  }

  lemma {:induction false} WithoutAt(vs: seq<Variant>, key: string, i: int)
    requires 0 <= i < |vs| && vs[i].key == key && forall k :: 0 <= k < i ==> vs[k].key != key
    ensures vs[..i] + vs[i + 1..] == Without(vs, key)
    decreases i
  {
    if i > 0 {
      WithoutAt(vs[1..], key, i - 1);
      assert vs[..i] + vs[i + 1..] == [vs[0]] + (vs[1..][..i - 1] + vs[1..][i..]);
    }
  }

  lemma {:induction false} RenamedAt(vs: seq<Variant>, key: string, name: string, i: int)
    requires 0 <= i < |vs| && vs[i].key == key && forall k :: 0 <= k < i ==> vs[k].key != key
    ensures vs[i := Variant(key, name)] == Renamed(vs, key, name)
    decreases i
  {
    if i > 0 {
      RenamedAt(vs[1..], key, name, i - 1);
      assert vs[i := Variant(key, name)] == [vs[0]] + vs[1..][i - 1 := Variant(key, name)];
    } else {
      assert vs[0 := Variant(key, name)] == [Variant(key, name)] + vs[1..];
    }
  }

  /** Renaming keeps every key in its place. */
  lemma {:induction false} RenamedKeys(vs: seq<Variant>, key: string, name: string)
    ensures |Renamed(vs, key, name)| == |vs|
    ensures forall i :: 0 <= i < |vs| ==> Renamed(vs, key, name)[i].key == vs[i].key
    ensures VariantKeys(Renamed(vs, key, name)) == VariantKeys(vs)
  {
    if vs != [] {
      RenamedKeys(vs[1..], key, name);
      assert vs == [vs[0]] + vs[1..];
      KeysAppend([vs[0]], vs[1..]);
      if vs[0].key == key {
        KeysAppend([Variant(key, name)], vs[1..]);
      } else {
        KeysAppend([vs[0]], Renamed(vs[1..], key, name));
      }
    }
  }

  /** The fields a flag update carries; an absent one keeps its stored value. */
  datatype FlagEdit = FlagEdit(name: Option<string>, variants: Option<seq<Variant>>, defaultVariantKey: Option<string>)

  function Edited(f: Flag, e: FlagEdit): Flag {
    f.(name := e.name.GetOr(f.name), variants := e.variants.GetOr(f.variants),
       defaultVariantKey := e.defaultVariantKey.GetOr(f.defaultVariantKey))
  }

  /** An update changes the fields it carries, to what it carries, and nothing else. */
  lemma EditedFields(f: Flag, e: FlagEdit)
    ensures var g := Edited(f, e);
            && g.id == f.id && g.projectId == f.projectId && g.key == f.key && g.flagType == f.flagType
            && (e.name.Some? ==> g.name == e.name.value) && (e.name.None? ==> g.name == f.name)
            && (e.variants.Some? ==> g.variants == e.variants.value) && (e.variants.None? ==> g.variants == f.variants)
            && (e.defaultVariantKey.Some? ==> g.defaultVariantKey == e.defaultVariantKey.value)
            && (e.defaultVariantKey.None? ==> g.defaultVariantKey == f.defaultVariantKey)
  {
  }

  /** A valid flag stays valid when it gains a variant with a new key, has one renamed, or loses one that is not
      its default. */
  lemma AddingKeepsValid(f: Flag, v: Variant)
    requires ValidFlag(f) && !f.flagType.Bool? && v.key !in VariantKeys(f.variants)
    ensures ValidFlag(f.(variants := f.variants + [v]))
  {
    KeysAppend(f.variants, [v]);
  }

  lemma RenamingKeepsValid(f: Flag, key: string, name: string)
    requires ValidFlag(f)
    ensures ValidFlag(f.(variants := Renamed(f.variants, key, name)))
  {
    RenamedKeys(f.variants, key, name);
  }

  lemma RemovingKeepsValid(f: Flag, key: string)
    requires ValidFlag(f) && !f.flagType.Bool? && key != f.defaultVariantKey
    ensures ValidFlag(f.(variants := Without(f.variants, key)))
  {
    WithoutKeys(f.variants, key);
  }

  // ---------- the transitions ----------

  /** The listing of existing rules shows a clash with this priority, other than the rule itself. */
  ghost predicate Clashes(s: Store, r: Rule) {
    exists o :: o in s.rules && SameScope(s.rules[o], r) && s.rules[o].priority == r.priority && o != r.id
  }

  /** `Upsert`: an existing row keeps its flag and environment. */
  function Upserted(rules: map<string, Rule>, r: Rule): map<string, Rule> {
    if r.id in rules then rules[r.id := r.(flagId := rules[r.id].flagId, environmentId := rules[r.id].environmentId)]
    else rules[r.id := r]
  }

  /** An upsert writes every field of the request but flag and environment of a row that exists, and no other row. */
  lemma UpsertedRow(rules: map<string, Rule>, r: Rule)
    ensures var after := Upserted(rules, r);
            && after.Keys == rules.Keys + {r.id} && (forall id :: id in rules && id != r.id ==> after[id] == rules[id])
            && var row := after[r.id];
               && row.id == r.id && row.name == r.name && row.priority == r.priority && row.conditions == r.conditions
               && row.variantKey == r.variantKey && row.rollout == r.rollout && row.enabled == r.enabled
               && SameScope(row, if r.id in rules then rules[r.id] else r)
  {
  }

  /** The foreign keys are checked for a row that is inserted. */
  predicate Insertable(s: Store, r: Rule) { r.id in s.rules || (r.flagId in s.flags && r.environmentId in s.envs) }

  /** The affected rules of a flag. */
  function Affected(s: Store, flagId: string, v: string): set<string> {
    set id | id in s.rules && s.rules[id].flagId == flagId && Mentions(s.rules[id], v)
  }

  function Patched(rules: map<string, Rule>, done: set<string>, v: string, default: string): map<string, Rule> {
    map id | id in rules :: if id in done then Patch(rules[id], v, default) else rules[id]
  }

  datatype Op =
    | CreateRule(rule: Rule)
    | UpdateRule(rule: Rule)
    | DeleteRule(id: string)
    | AddVariant(flagId: string, variant: Variant)
    | RenameVariant(flagId: string, key: string, name: string)
    | DeleteVariant(flagId: string, key: string)
    | UpdateFlag(flagId: string, edit: FlagEdit)
    | CreateFlag(flag: Flag)
    | DeleteFlag(flagId: string)
    | CreateEnvironment(envId: string)
    | DeleteEnvironment(envId: string)

  /** What is left of the rules when a flag or an environment goes: the foreign keys cascade. */
  function OutsideFlag(rules: map<string, Rule>, f: string): map<string, Rule> {
    map id | id in rules && rules[id].flagId != f :: rules[id]
  }

  function OutsideEnv(rules: map<string, Rule>, env: string): map<string, Rule> {
    map id | id in rules && rules[id].environmentId != env :: rules[id]
  }

  /** A cascade takes the rules of the flag or environment and leaves all others as they are. */
  lemma CascadeExact(rules: map<string, Rule>, f: string, env: string, id: string)
    ensures id in OutsideFlag(rules, f) <==> id in rules && rules[id].flagId != f
    ensures id in OutsideFlag(rules, f) ==> OutsideFlag(rules, f)[id] == rules[id]
    ensures id in OutsideEnv(rules, env) <==> id in rules && rules[id].environmentId != env
    ensures id in OutsideEnv(rules, env) ==> OutsideEnv(rules, env)[id] == rules[id]
  {
  }

  /** Unique (project, key): the insert is refused with a conflict. */
  predicate KeyTaken(flags: map<string, Flag>, flag: Flag) {
    exists id :: id in flags && flags[id].projectId == flag.projectId && flags[id].key == flag.key
  }

  /** The prefixes of `DeleteVariant`'s writes: some affected rules rewritten, or all of them and then the flag. */
  ghost predicate Deleting(s: Store, f: string, v: string, t: Store)
    requires f in s.flags
  {
    var flag := s.flags[f];
    && v != flag.defaultVariantKey
    && t.envs == s.envs
    && exists done ::
         && done <= Affected(s, f, v)
         && t.rules == Patched(s.rules, done, v, flag.defaultVariantKey)
         && (t.flags == s.flags ||
             (done == Affected(s, f, v) && ValidFlag(flag.(variants := Without(flag.variants, v))) &&
              t.flags == s.flags[f := flag.(variants := Without(flag.variants, v))]))
  }

  /** What one completed call may leave behind, whichever of its writes failed. */
  ghost predicate Next(s: Store, op: Op, t: Store) {
    t == s ||
    match op
    case CreateRule(r) =>
      ValidRule(r) && r.id !in s.rules && !Clashes(s, r) && Insertable(s, r) && t == s.(rules := s.rules[r.id := r])
    case UpdateRule(r) => ValidRule(r) && !Clashes(s, r) && Insertable(s, r) && t == s.(rules := Upserted(s.rules, r))
    case DeleteRule(id) => t == s.(rules := s.rules - {id})
    case AddVariant(f, v) =>
      && f in s.flags && v.key !in VariantKeys(s.flags[f].variants)
      && ValidFlag(s.flags[f].(variants := s.flags[f].variants + [v]))
      && t == s.(flags := s.flags[f := s.flags[f].(variants := s.flags[f].variants + [v])])
    case RenameVariant(f, k, n) =>
      && f in s.flags && ValidFlag(s.flags[f].(variants := Renamed(s.flags[f].variants, k, n)))
      && t == s.(flags := s.flags[f := s.flags[f].(variants := Renamed(s.flags[f].variants, k, n))])
    case DeleteVariant(f, v) => f in s.flags && Deleting(s, f, v, t)
    case UpdateFlag(f, e) =>
      f in s.flags && ValidFlag(Edited(s.flags[f], e)) && t == s.(flags := s.flags[f := Edited(s.flags[f], e)])
    case CreateFlag(f) =>
      ValidFlag(f) && f.id !in s.flags && !KeyTaken(s.flags, f) && t == s.(flags := s.flags[f.id := f])
    case DeleteFlag(f) => t == s.(flags := s.flags - {f}, rules := OutsideFlag(s.rules, f))
    case CreateEnvironment(e) => t == s.(envs := s.envs + {e})
    case DeleteEnvironment(e) => t == s.(envs := s.envs - {e}, rules := OutsideEnv(s.rules, e))
  }

  ghost predicate IsRun(states: seq<Store>, ops: seq<Op>) {
    |states| == |ops| + 1 && forall i :: 0 <= i < |ops| ==> Next(states[i], ops[i], states[i + 1])
  }

  /** Writing one more rewritten rule. */
  lemma PatchOneMore(rules: map<string, Rule>, done: set<string>, id: string, v: string, default: string)
    requires id in rules && id !in done && v != default && rules[id].id == id
    ensures Upserted(Patched(rules, done, v, default), Patch(rules[id], v, default)) ==
              Patched(rules, done + {id}, v, default)
  {
    PatchClean(rules[id], v, default);
  }

  /** Deleting a variant leaves every rule its ID, its place and its priority, and every flag its identity. */
  lemma DeletingInPlace(s: Store, f: string, v: string, t: Store)
    requires f in s.flags && Deleting(s, f, v, t)
    ensures t.rules.Keys == s.rules.Keys && t.flags.Keys == s.flags.Keys
    ensures forall id :: id in s.rules ==>
              t.rules[id].id == s.rules[id].id && SameScope(t.rules[id], s.rules[id]) &&
                  t.rules[id].priority == s.rules[id].priority
    ensures forall g :: g in s.flags && g != f ==> t.flags[g] == s.flags[g]
    ensures t.flags[f] == s.flags[f] || (t.flags[f].id == s.flags[f].id && ValidFlag(t.flags[f]))
    ensures t.flags[f].projectId == s.flags[f].projectId && t.flags[f].key == s.flags[f].key
  {
    var default := s.flags[f].defaultVariantKey;
    var done :| done <= Affected(s, f, v) && t.rules == Patched(s.rules, done, v, default);
    forall id | id in s.rules
      ensures t.rules[id].id == s.rules[id].id && SameScope(t.rules[id], s.rules[id]) &&
                t.rules[id].priority == s.rules[id].priority
    {
      PatchClean(s.rules[id], v, default);
    }
  }

  lemma EditSound(s: Store, f: string, g: Flag)
    requires Sound(s) && f in s.flags && ValidFlag(g)
    requires g.id == f && g.projectId == s.flags[f].projectId && g.key == s.flags[f].key
    ensures Sound(s.(flags := s.flags[f := g]))
  {
  }

  /** Inserting a flag keeps keys unique exactly if its key is not taken in its project. */
  lemma InsertUnique(flags: map<string, Flag>, g: Flag)
    requires KeysUnique(flags) && g.id !in flags
    ensures KeysUnique(flags[g.id := g]) <==> !KeyTaken(flags, g)
  {
    var after := flags[g.id := g];
    if KeyTaken(flags, g) {
      var id :| id in flags && flags[id].projectId == g.projectId && flags[id].key == g.key;
      assert after[id] == flags[id] && after[g.id] == g;
    }
  }

  lemma RuleWritten(s: Store, op: Op, t: Store)
    requires (op.CreateRule? || op.UpdateRule?) && Next(s, op, t) && t != s
    ensures Insertable(s, op.rule) && t == s.(rules := Upserted(s.rules, op.rule))
  {
  }

  lemma RuleRowsSound(s: Store, r: Rule, t: Store)
    requires Sound(s) && Insertable(s, r) && t == s.(rules := Upserted(s.rules, r))
    ensures Sound(t)
  {
  }

  lemma FlagRowsSound(s: Store, op: Op, t: Store)
    requires Sound(s) && Next(s, op, t) && t != s
    requires op.AddVariant? || op.RenameVariant? || op.UpdateFlag? || op.CreateFlag?
    ensures Sound(t)
  {
    if op.CreateFlag? { InsertUnique(s.flags, op.flag); } else { EditSound(s, op.flagId, t.flags[op.flagId]); }
  }

  /** Calls that write no rule leave each as it was, or let it go. */
  lemma RulesOnlyGo(s: Store, op: Op, t: Store)
    requires Next(s, op, t) && !op.CreateRule? && !op.UpdateRule? && !op.DeleteVariant?
    ensures forall id :: id in t.rules ==> id in s.rules && t.rules[id] == s.rules[id]
  {
  }

  lemma DropSound(s: Store, f: string, e: string, id: string)
    requires Sound(s)
    ensures Sound(s.(rules := s.rules - {id}))
    ensures Sound(s.(flags := s.flags - {f}, rules := OutsideFlag(s.rules, f)))
    ensures Sound(s.(envs := s.envs - {e}, rules := OutsideEnv(s.rules, e)))
  {
  }

  lemma DeletingSound(s: Store, f: string, v: string, t: Store)
    requires Sound(s) && f in s.flags && Deleting(s, f, v, t)
    ensures Sound(t)
  {
    DeletingInPlace(s, f, v, t);
    forall id | id in t.rules
      ensures t.rules[id].id == id && t.rules[id].flagId in t.flags && t.rules[id].environmentId in t.envs
    {
      assert SameScope(t.rules[id], s.rules[id]);
    }
  }

  /** Row IDs, foreign keys, flag validity and unique keys per project hold after every call, without any proviso. */
  lemma NextKeepsSound(s: Store, op: Op, t: Store)
    requires Sound(s) && Next(s, op, t)
    ensures Sound(t)
  {
    if t != s {
      match op
      case DeleteVariant(f, v) => DeletingSound(s, f, v, t);
      case CreateRule(r) =>
        RuleWritten(s, op, t);
        RuleRowsSound(s, r, t);
      case UpdateRule(r) =>
        RuleWritten(s, op, t);
        RuleRowsSound(s, r, t);
      case DeleteRule(id) => DropSound(s, "", "", id);
      case DeleteFlag(f) => DropSound(s, f, "", "");
      case DeleteEnvironment(e) => DropSound(s, "", e, "");
      case CreateEnvironment(_) =>
      case _ => FlagRowsSound(s, op, t);
    }
  }

  // ---------- distinct priorities ----------

  /** No other rule of the scope the rule is *stored* under has the priority an update asks for. The service
      checks the scope named in the request instead. */
  ghost predicate ScopeSafe(s: Store, op: Op) {
    op.UpdateRule? && op.rule.id in s.rules ==>
      forall o :: o in s.rules && o != op.rule.id && SameScope(s.rules[o], s.rules[op.rule.id]) ==>
        s.rules[o].priority != op.rule.priority
  }

  /** Rules that stay in their place with their priority, or go, break nothing. */
  lemma InPlaceDistinct(s: Store, t: Store)
    requires Distinct(s)
    requires forall id :: id in t.rules ==>
               id in s.rules && SameScope(t.rules[id], s.rules[id]) && t.rules[id].priority == s.rules[id].priority
    ensures Distinct(t)
  {
  }

  lemma UpdateDistinct(s: Store, r: Rule, t: Store)
    requires Keyed(s) && Distinct(s) && !Clashes(s, r) && t == s.(rules := Upserted(s.rules, r))
    ensures Distinct(t) <==> ScopeSafe(s, UpdateRule(r))
  {
    if r.id in s.rules && Distinct(t) {
      forall o | o in s.rules && o != r.id && SameScope(s.rules[o], s.rules[r.id])
        ensures s.rules[o].priority != r.priority
      {
        assert t.rules[o] == s.rules[o] && SameScope(t.rules[o], t.rules[r.id]);
      }
    }
  }

  /** A call that changes anything keeps priorities distinct exactly if it is `ScopeSafe`. */
  lemma DistinctExactly(s: Store, op: Op, t: Store)
    requires Keyed(s) && Distinct(s) && Next(s, op, t) && t != s
    ensures Distinct(t) <==> ScopeSafe(s, op)
  {
    match op
    case CreateRule(r) => UpdateDistinct(s, r, t);
    case UpdateRule(r) => UpdateDistinct(s, r, t);
    case DeleteVariant(f, v) =>
      DeletingInPlace(s, f, v, t);
      InPlaceDistinct(s, t);
    case _ =>
      RulesOnlyGo(s, op, t);
      InPlaceDistinct(s, t);
  }

  /** A flag and a rule for the counterexamples below. */
  function PlainFlag(id: string): (f: Flag)
    requires id in {"f", "g"}
    ensures ValidFlag(f) && VariantKeys(f.variants) == {"a", "b"}
  {
    var f := Flag(id, "p", id, "n", Str, [Variant("a", "A"), Variant("b", "B")], "a");
    assert f.variants[0].key == "a" && f.variants[1].key == "b";
    f
  }

  function PlainRule(id: string, flagId: string, priority: int, v: string): (r: Rule)
    requires v != ""
    ensures ValidRule(r) && Refers(r) == {v}
  {
    Rule(id, flagId, "e", "", priority, [Condition("plan", Eq, ["pro"])], v, [], true)
  }

  /** A good store with two rules in one scope and a second flag. */
  function TwoRules(): Store {
    Store(map["f" := PlainFlag("f"), "g" := PlainFlag("g")], {"e"},
          map["1" := PlainRule("1", "f", 1, "a"), "2" := PlainRule("2", "f", 2, "a")])
  }

  lemma TwoRulesRows()
    ensures forall id :: id in TwoRules().rules ==>
              var r := TwoRules().rules[id];
              r == PlainRule(id, "f", if id == "1" then 1 else 2, "a") && r.id == id && r.flagId == "f" &&
                  r.environmentId == "e"
    ensures forall f :: f in TwoRules().flags ==> TwoRules().flags[f] == PlainFlag(f) && TwoRules().flags[f].id == f
  {
  }

  lemma TwoRulesSound()
    ensures Sound(TwoRules())
  {
    TwoRulesRows();
  }

  lemma TwoRulesGood()
    ensures Inv(TwoRules())
    ensures Integrity(TwoRules())
  {
    var s := TwoRules();
    TwoRulesSound();
    TwoRulesRows();
    forall f | f in s.flags ensures FlagIntegrity(s, f) {}
  }

  lemma TwoRulesOpen(r: Rule)
    requires r.id in TwoRules().rules && r.flagId == "g"
    ensures Insertable(TwoRules(), r) && !Clashes(TwoRules(), r)
  {
    TwoRulesRows();
  }

  /** A good store and an update the service accepts that leaves two rules of one scope with one priority: the
      rule of flag "f" is updated through the path of flag "g". */
  lemma UpdateBreaksDistinct() returns (s: Store, r: Rule, t: Store)
    ensures Inv(s) && Integrity(s) && ValidRule(r) && !Clashes(s, r)
    ensures Next(s, UpdateRule(r), t) && !Distinct(t)
  {
    TwoRulesGood();
    s, r := TwoRules(), PlainRule("2", "g", 1, "a");
    t := s.(rules := Upserted(s.rules, r));
    TwoRulesOpen(r);
    assert t.rules["1"] == PlainRule("1", "f", 1, "a") && t.rules["2"] == PlainRule("2", "f", 1, "a");
  }

  // ---------- valid rules ----------

  /** Rewriting leaves every affected rule a variant key to serve. */
  ghost predicate ServeSafe(s: Store, op: Op) {
    op.DeleteVariant? && op.flagId in s.flags && s.flags[op.flagId].defaultVariantKey == "" ==>
      forall id :: id in Affected(s, op.flagId, op.key) ==> !ServesOnly(s.rules[id], op.key)
  }

  lemma DeletingValid(s: Store, f: string, v: string, t: Store)
    requires RulesValid(s) && f in s.flags && Deleting(s, f, v, t)
    ensures t.rules.Keys == s.rules.Keys
    ensures RulesValid(t) <==> (s.flags[f].defaultVariantKey == "" ==>
              forall id :: id in s.rules && id in t.rules && t.rules[id] != s.rules[id] ==> !ServesOnly(s.rules[id], v))
    ensures ServeSafe(s, DeleteVariant(f, v)) ==> RulesValid(t)
    ensures t.flags != s.flags ==> (RulesValid(t) <==> ServeSafe(s, DeleteVariant(f, v)))
  {
    var default := s.flags[f].defaultVariantKey;
    var done :| done <= Affected(s, f, v) && t.rules == Patched(s.rules, done, v, default) &&
                (t.flags == s.flags || done == Affected(s, f, v));
    forall id | id in s.rules
      ensures id in done && ServesOnly(s.rules[id], v) ==> t.rules[id] != s.rules[id]
      ensures ValidRule(t.rules[id]) <==> id !in done || default != "" || !ServesOnly(s.rules[id], v)
    {
      PatchClean(s.rules[id], v, default);
      PatchValid(s.rules[id], v, default);
    }
  }

  /** Rules stay valid exactly if no rewritten one served only the deleted variant while the flag's default key
      is empty. Once the flag itself is written that is `ServeSafe`, which can be checked beforehand. */
  lemma ValidExactly(s: Store, op: Op, t: Store)
    requires Sound(s) && RulesValid(s) && Next(s, op, t)
    ensures RulesValid(t) <==>
            (op.DeleteVariant? && op.flagId in s.flags && s.flags[op.flagId].defaultVariantKey == "" ==>
               forall id :: id in s.rules && id in t.rules && t.rules[id] != s.rules[id] ==>
                   !ServesOnly(s.rules[id], op.key))
    ensures ServeSafe(s, op) ==> RulesValid(t)
    ensures op.DeleteVariant? && t.flags != s.flags ==> (RulesValid(t) <==> ServeSafe(s, op))
  {
    if t != s && op.DeleteVariant? {
      DeletingValid(s, op.flagId, op.key, t);
    } else if !op.CreateRule? && !op.UpdateRule? && !op.DeleteVariant? {
      RulesOnlyGo(s, op, t);
    }
  }

  /** A good store in which a flag's default key is empty. */
  ghost function EmptyDefault(): (s: Store)
    ensures Inv(s) && Integrity(s)
    ensures s.rules == map["1" := PlainRule("1", "f", 1, "a")] && s.flags.Keys == {"f"} &&
              s.flags["f"].defaultVariantKey == ""
  {
    var f := Flag("f", "p", "f", "n", Str, [Variant("", "none"), Variant("a", "A")], "");
    assert f.variants[0].key == "" && f.variants[1].key == "a";
    assert ValidFlag(f);
    var s := Store(map["f" := f], {"e"}, map["1" := PlainRule("1", "f", 1, "a")]);
    assert FlagIntegrity(s, "f");
    s
  }

  /** There deleting a variant leaves an invalid rule. */
  lemma EmptyDefaultBreaksRule() returns (s: Store, t: Store)
    ensures Inv(s) && Integrity(s)
    ensures Next(s, DeleteVariant("f", "a"), t) && !RulesValid(t)
  {
    s := EmptyDefault();
    t := s.(rules := Patched(s.rules, {"1"}, "a", ""));
    assert s.rules["1"] == PlainRule("1", "f", 1, "a") && "1" in Affected(s, "f", "a");
    assert Deleting(s, "f", "a", t);
    assert !ValidRule(t.rules["1"]);
  }

  // ---------- rules refer to variants their flag has ----------

  /** What no service checks: the variants of a new or updated rule are compared with the flag's, and a flag
      update keeps every variant its rules use. */
  ghost predicate ReferSafe(s: Store, op: Op) {
    match op
    case CreateRule(r) => r.flagId in s.flags ==> Refers(r) <= VariantKeys(s.flags[r.flagId].variants)
    case UpdateRule(r) =>
      var home := if r.id in s.rules then s.rules[r.id].flagId else r.flagId;
      home in s.flags ==> Refers(r) <= VariantKeys(s.flags[home].variants)
    case UpdateFlag(f, e) =>
      f in s.flags ==> forall id :: id in s.rules && s.rules[id].flagId == f ==>
        Refers(s.rules[id]) <= VariantKeys(Edited(s.flags[f], e).variants)
    case _ => true
  }

  /** After every prefix of `DeleteVariant`'s writes, whichever write fails, every rule of the flag still
      serves only variants the flag has; once the flag itself is written no rule mentions the deleted
      variant, and rules of other flags are untouched. */
  lemma DeleteVariantIntegrity(s: Store, f: string, v: string, t: Store)
    requires f in s.flags && ValidFlag(s.flags[f]) && FlagIntegrity(s, f)
    requires Next(s, DeleteVariant(f, v), t)
    ensures f in t.flags && FlagIntegrity(t, f)
    ensures t.flags != s.flags ==>
              && v !in VariantKeys(t.flags[f].variants) && ValidFlag(t.flags[f])
              && forall id :: id in t.rules && t.rules[id].flagId == f ==> !Mentions(t.rules[id], v)
    ensures t.rules.Keys == s.rules.Keys
    ensures forall id :: id in s.rules && s.rules[id].flagId != f ==> t.rules[id] == s.rules[id]
  {
    if t != s {
      var flag := s.flags[f];
      var default := flag.defaultVariantKey;
      var done :| done <= Affected(s, f, v) && t.rules == Patched(s.rules, done, v, default) &&
                  (t.flags == s.flags ||
                   (done == Affected(s, f, v) &&
                    t.flags == s.flags[f := flag.(variants := Without(flag.variants, v))]));
      forall id | id in s.rules && s.rules[id].flagId == f
        ensures t.rules[id].flagId == f
        ensures Refers(t.rules[id]) <= VariantKeys(flag.variants)
        ensures id in done ==> !Mentions(t.rules[id], v)
      {
        PatchClean(s.rules[id], v, default);
      }
      WithoutKeys(flag.variants, v);
      if t.flags != s.flags {
        forall id | id in t.rules && t.rules[id].flagId == f
          ensures !Mentions(t.rules[id], v) && v !in Refers(t.rules[id])
        {
          PatchClean(s.rules[id], v, default);
          assert s.rules[id].flagId == f;
          assert id in done || !Mentions(s.rules[id], v);
        }
      }
    }
  }

  /** What a completed deletion leaves in the store: every affected rule of the flag is the rewritten one, so that a
      stored rollout with a survivor gives each variant the buckets `PatchShares` says. */
  lemma DeletionShares(s: Store, f: string, v: string, t: Store, id: string, i: int, w: string)
    requires Next(s, DeleteVariant(f, v), t) && t.flags != s.flags
    requires id in s.rules && s.rules[id].flagId == f && Mentions(s.rules[id], v)
    requires ValidRollout(s.rules[id].rollout) && R.FirstSurvivor(s.rules[id].rollout, v, i)
    ensures id in t.rules
    ensures var before, after := s.rules[id].rollout, t.rules[id].rollout;
            && Weight(after) == 100
            && |Buckets(after, w)| ==
               if w == v then 0
               else |Buckets(before, w)| + (if w == before[i].variantKey then |Buckets(before, v)| else 0)
  {
    var default := s.flags[f].defaultVariantKey;
    assert t.rules == Patched(s.rules, Affected(s, f, v), v, default);
    PatchShares(s.rules[id], v, default, i, w);
  }

  lemma UpdateIntegrity(s: Store, r: Rule, t: Store)
    requires Sound(s) && Integrity(s) && Insertable(s, r) && t == s.(rules := Upserted(s.rules, r))
    ensures Integrity(t) <==> ReferSafe(s, UpdateRule(r))
  {
    var home := t.rules[r.id].flagId;
    assert Refers(t.rules[r.id]) == Refers(r);
    if ReferSafe(s, UpdateRule(r)) {
      forall f | f in t.flags ensures FlagIntegrity(t, f) {
        assert FlagIntegrity(s, f);
      }
    } else {
      assert !FlagIntegrity(t, home);
    }
  }

  /** A call that changes one flag's variants, and no rule. */
  lemma EditIntegrity(s: Store, f: string, g: Flag)
    requires Sound(s) && Integrity(s) && f in s.flags
    ensures Integrity(s.(flags := s.flags[f := g])) <==>
            forall id :: id in s.rules && s.rules[id].flagId == f ==> Refers(s.rules[id]) <= VariantKeys(g.variants)
    ensures VariantKeys(s.flags[f].variants) <= VariantKeys(g.variants) ==> Integrity(s.(flags := s.flags[f := g]))
  {
    var t := s.(flags := s.flags[f := g]);
    assert FlagIntegrity(s, f);
    forall h | h in t.flags && h != f ensures FlagIntegrity(t, h) {
      assert FlagIntegrity(s, h);
    }
    assert Integrity(t) <==> FlagIntegrity(t, f);
  }

  lemma KeyKeepingIntegrity(s: Store, f: string, v: Variant, key: string, name: string)
    requires Sound(s) && Integrity(s) && f in s.flags
    ensures Integrity(s.(flags := s.flags[f := s.flags[f].(variants := s.flags[f].variants + [v])]))
    ensures Integrity(s.(flags := s.flags[f := s.flags[f].(variants := Renamed(s.flags[f].variants, key, name))]))
  {
    KeysAppend(s.flags[f].variants, [v]);
    RenamedKeys(s.flags[f].variants, key, name);
    EditIntegrity(s, f, s.flags[f].(variants := s.flags[f].variants + [v]));
    EditIntegrity(s, f, s.flags[f].(variants := Renamed(s.flags[f].variants, key, name)));
  }

  lemma FewerRulesIntegrity(s: Store, t: Store)
    requires Sound(s) && Integrity(s)
    requires forall id :: id in t.rules ==> id in s.rules && t.rules[id] == s.rules[id]
    requires forall g :: g in t.flags && g in s.flags ==> t.flags[g] == s.flags[g]
    ensures Integrity(t)
  {
    forall g | g in t.flags ensures FlagIntegrity(t, g) {
      if g in s.flags { assert FlagIntegrity(s, g); }
    }
  }

  lemma CascadeIntegrity(s: Store, op: Op, t: Store)
    requires Sound(s) && Integrity(s) && Next(s, op, t)
    requires op.DeleteRule? || op.CreateFlag? || op.DeleteFlag? || op.CreateEnvironment? || op.DeleteEnvironment?
    ensures Integrity(t)
  {
    RulesOnlyGo(s, op, t);
    FewerRulesIntegrity(s, t);
  }

  lemma DeletingIntegrity(s: Store, f: string, v: string, t: Store)
    requires Sound(s) && Integrity(s) && Next(s, DeleteVariant(f, v), t) && t != s
    ensures Integrity(t)
  {
    assert FlagIntegrity(s, f);
    DeletingInPlace(s, f, v, t);
    DeleteVariantIntegrity(s, f, v, t);
    forall g | g in t.flags && g != f ensures FlagIntegrity(t, g) {
      assert FlagIntegrity(s, g) && t.flags[g] == s.flags[g];
    }
  }

  /** A call that changes anything keeps every reference intact exactly if it is `ReferSafe`. */
  lemma IntegrityExactly(s: Store, op: Op, t: Store)
    requires Sound(s) && Integrity(s) && Next(s, op, t) && t != s
    ensures Integrity(t) <==> ReferSafe(s, op)
  {
    match op
    case CreateRule(r) => UpdateIntegrity(s, r, t);
    case UpdateRule(r) => UpdateIntegrity(s, r, t);
    case AddVariant(f, v) => KeyKeepingIntegrity(s, f, v, "", "");
    case RenameVariant(f, k, n) => KeyKeepingIntegrity(s, f, Variant("", ""), k, n);
    case UpdateFlag(f, e) => EditIntegrity(s, f, Edited(s.flags[f], e));
    case DeleteVariant(f, v) => DeletingIntegrity(s, f, v, t);
    case _ => CascadeIntegrity(s, op, t);
  }

  // ---------- runs ----------

  /** The call fails without effect, or is one that keeps `Inv`. */
  ghost predicate Careful(s: Store, op: Op, t: Store) { t == s || (ScopeSafe(s, op) && ServeSafe(s, op)) }

  lemma NextKeepsInv(s: Store, op: Op, t: Store)
    requires Inv(s) && Next(s, op, t) && Careful(s, op, t)
    ensures Inv(t)
  {
    NextKeepsSound(s, op, t);
    ValidExactly(s, op, t);
    if t != s { DistinctExactly(s, op, t); }
  }

  /** The call fails without effect, or names only variants that exist and takes none away that is in use. */
  ghost predicate Referring(s: Store, op: Op, t: Store) { t == s || ReferSafe(s, op) }

  lemma NextKeepsIntegrity(s: Store, op: Op, t: Store)
    requires Sound(s) && Integrity(s) && Next(s, op, t) && Referring(s, op, t)
    ensures Integrity(t)
  {
    if t != s { IntegrityExactly(s, op, t); }
  }

  /** Over every sequence of completed calls with arbitrary storage failures, row IDs, foreign keys, flag validity
      and unique keys per project hold throughout. */
  lemma {:induction false} RunKeepsSound(states: seq<Store>, ops: seq<Op>, i: nat)
    requires IsRun(states, ops) && i < |states| && Sound(states[0])
    ensures Sound(states[i])
  {
    if i > 0 {
      RunKeepsSound(states, ops, i - 1);
      NextKeepsSound(states[i - 1], ops[i - 1], states[i]);
    }
  }

  /** If the calls are careful, so do distinct priorities and valid rules. */
  lemma {:induction false} RunKeepsInv(states: seq<Store>, ops: seq<Op>, i: nat)
    requires IsRun(states, ops) && i < |states| && Inv(states[0])
    requires forall k :: 0 <= k < i ==> Careful(states[k], ops[k], states[k + 1])
    ensures Inv(states[i])
  {
    if i > 0 {
      RunKeepsInv(states, ops, i - 1);
      NextKeepsInv(states[i - 1], ops[i - 1], states[i]);
    }
  }

  /** And then no rule ever refers to a variant its flag does not have. */
  lemma {:induction false} RunKeepsIntegrity(states: seq<Store>, ops: seq<Op>, i: nat)
    requires IsRun(states, ops) && i < |states| && Sound(states[0]) && Integrity(states[0])
    requires forall k :: 0 <= k < i ==> Referring(states[k], ops[k], states[k + 1])
    ensures Integrity(states[i])
  {
    if i > 0 {
      RunKeepsIntegrity(states, ops, i - 1);
      RunKeepsSound(states, ops, i - 1);
      NextKeepsIntegrity(states[i - 1], ops[i - 1], states[i]);
    }
  }

  // ---------- the provisos are needed ----------

  /** A good store with one rule, serving variant "b" of a flag with variants "a" and "b". */
  ghost function OneRule(): (s: Store)
    ensures Inv(s) && Integrity(s)
    ensures s.flags == map["f" := PlainFlag("f")] && s.rules == map["1" := PlainRule("1", "f", 1, "b")] &&
              s.envs == {"e"}
  {
    var s := Store(map["f" := PlainFlag("f")], {"e"}, map["1" := PlainRule("1", "f", 1, "b")]);
    assert FlagIntegrity(s, "f");
    s
  }

  /** An accepted rule may name a variant its flag never had. */
  lemma UnknownVariantAccepted() returns (s: Store, r: Rule, t: Store)
    ensures Inv(s) && Integrity(s) && ValidRule(r) && r.flagId == "f" && !Clashes(s, r)
    ensures Next(s, CreateRule(r), t) && !Integrity(t)
    ensures t.flags == map["f" := PlainFlag("f")] && t.rules == map["1" := PlainRule("1", "f", 1, "b"), "2" := r]
    ensures r == PlainRule("2", "f", 0, "ghost")
  {
    s, r := OneRule(), PlainRule("2", "f", 0, "ghost");
    t := s.(rules := s.rules["2" := r]);
    assert t.rules["2"] == r && !FlagIntegrity(t, "f");
  }

  /** An accepted flag update may take away the variant a rule serves. */
  lemma UsedVariantDropped() returns (s: Store, e: FlagEdit, t: Store)
    ensures Inv(s) && Integrity(s)
    ensures Next(s, UpdateFlag("f", e), t) && !Integrity(t)
  {
    s, e := OneRule(), FlagEdit(None, Some([Variant("a", "A")]), None);
    var g := Edited(s.flags["f"], e);
    assert g.variants[0].key == "a" && VariantKeys(g.variants) == {"a"};
    t := s.(flags := s.flags["f" := g]);
    assert t.rules["1"] == PlainRule("1", "f", 1, "b") && !FlagIntegrity(t, "f");
  }
}
