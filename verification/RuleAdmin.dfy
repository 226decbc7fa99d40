/** The administration services for rules, variants and flag updates, each tied to a transition of
    `RuleStore`. Listings are visited in any order; every write may fail, `writes` being how many
    succeed before one does. Of creating and deleting flags and environments only the part about
    these tables is here; `StateRows` has the part about state rows. */
module RuleAdmin {
  import opened Domain
  import opened RuleStore
  import R = Rollout

  /** What the checks of `DeleteVariant` let through. */
  ghost predicate Deletable(s: Store, f: string, v: string, force: bool) {
    && f in s.flags && !s.flags[f].flagType.Bool?
    && v in VariantKeys(s.flags[f].variants) && v != s.flags[f].defaultVariantKey && |s.flags[f].variants| != 1
    && (force || Affected(s, f, v) == {})
  }

  class Services {
    var flags: map<string, Flag>
    var envs: set<string>
    var rules: map<string, Rule>

    function View(): Store
      reads this
    {
      Store(flags, envs, rules)
    }

    /** Scan the listing of the rule's flag and environment for its priority. */
    method PriorityTaken(r: Rule, self: Option<string>) returns (taken: bool)
      ensures taken <==>
              exists o :: o in rules && SameScope(rules[o], r) && rules[o].priority == r.priority && self != Some(o)
    {
      var todo := set id | id in rules && SameScope(rules[id], r);
      while todo != {}
        invariant todo <= rules.Keys
        invariant forall o :: o in rules && SameScope(rules[o], r) && o !in todo ==>
                    rules[o].priority != r.priority || self == Some(o)
        invariant forall o :: o in todo ==> SameScope(rules[o], r)
        decreases todo
      {
        var id :| id in todo;
        if rules[id].priority == r.priority && self != Some(id) { return true; }
        todo := todo - {id};
      }
      taken := false;
    }

    /** `RuleService.Create`: the new rule is enabled and has a fresh ID. */
    method Create(role: Role, fields: Rule, writes: nat) returns (res: Result<Rule>)
      requires fields.id !in rules
      modifies this
      ensures Next(old(View()), CreateRule(fields.(enabled := true)), View())
      ensures res.Ok? <==> role.Level() >= Editor.Level() && ValidRule(fields) && !Clashes(old(View()), fields) &&
                           Insertable(old(View()), fields) && writes > 0
      ensures res.Ok? ==> res.value == fields.(enabled := true)
      ensures res.Ok? ==> View() == old(View()).(rules := old(rules)[fields.id := res.value])
      ensures res.Err? ==> View() == old(View())
      ensures res == Err(PriorityConflict) <==>
                role.Level() >= Editor.Level() && ValidRule(fields) && Clashes(old(View()), fields)
    {
      if role.Level() < Editor.Level() { return Err(Forbidden); }
      var rule := fields.(enabled := true);
      var err := ValidateRule(rule);
      if err.Some? { return Err(err.value); }
      var taken := PriorityTaken(rule, None);
      if taken { return Err(PriorityConflict); }
      if writes == 0 || rule.flagId !in flags || rule.environmentId !in envs { return Err(Storage); }
      rules := rules[rule.id := rule];
      res := Ok(rule);
    }

    /** `RuleService.Update`. */
    method Update(role: Role, r: Rule, writes: nat) returns (res: Result<Rule>)
      modifies this
      ensures Next(old(View()), UpdateRule(r), View())
      ensures res.Ok? <==> role.Level() >= Editor.Level() && ValidRule(r) && !Clashes(old(View()), r) &&
                           Insertable(old(View()), r) && writes > 0
      ensures res == Err(PriorityConflict) <==>
                role.Level() >= Editor.Level() && ValidRule(r) && Clashes(old(View()), r)
      ensures res.Ok? ==> View() == old(View()).(rules := Upserted(old(rules), r))
      ensures res.Err? ==> View() == old(View())
    {
      if role.Level() < Editor.Level() { return Err(Forbidden); }
      var err := ValidateRule(r);
      if err.Some? { return Err(err.value); }
      var taken := PriorityTaken(r, Some(r.id));
      if taken { return Err(PriorityConflict); }
      if writes == 0 || !Insertable(View(), r) { return Err(Storage); }
      rules := Upserted(rules, r);
      res := Ok(r);
    }

    /** `RuleService.Delete`. */
    method Delete(role: Role, id: string, writes: nat) returns (res: Result<()>)
      modifies this
      ensures Next(old(View()), DeleteRule(id), View())
      ensures res.Ok? <==> role.Level() >= Editor.Level() && writes > 0 && id in old(rules)
      ensures res.Ok? ==> View() == old(View()).(rules := old(rules) - {id})
      ensures res.Err? ==> View() == old(View())
    {
      if role.Level() < Editor.Level() { return Err(Forbidden); }
      if writes == 0 { return Err(Storage); }
      if id !in rules { return Err(NotFound); }
      rules := rules - {id};
      res := Ok(());
    }

    /** The rewrite of one affected rule, field by field as the loop body does it. */
    method PatchRule(r: Rule, v: string, default: string) returns (p: Rule)
      ensures p == Patch(r, v, default)
    {
      p := r;
      if p.variantKey == v { p := p.(variantKey := default); }
      if |p.rollout| > 0 {
        var kept := R.RedistributeRollout(p.rollout, v);
        if |kept| == 0 {
          p := p.(rollout := [], variantKey := default);
        } else {
          p := p.(rollout := kept);
        }
      }
    }

    method IndexOfVariant(vs: seq<Variant>, key: string) returns (idx: int)
      ensures idx == -1 <==> key !in VariantKeys(vs)
      ensures idx != -1 ==> 0 <= idx < |vs| && vs[..idx] + vs[idx + 1..] == Without(vs, key)
    {
      for i := 0 to |vs|
        invariant forall k :: 0 <= k < i ==> vs[k].key != key
      {
        if vs[i].key == key {
          WithoutAt(vs, key, i);
          return i;
        }
      }
      idx := -1;
    }

    /** The rewrite loop over the affected rules; stops at the first write that fails. */
    method PatchAffected(flagId: string, v: string, default: string, writes: nat)
      returns (ok: bool, left: nat, ghost done: set<string>)
      requires Keyed(View()) && v != default
      modifies this`rules
      ensures done <= Affected(old(View()), flagId, v)
      ensures rules == Patched(old(rules), done, v, default)
      ensures ok <==> done == Affected(old(View()), flagId, v)
      ensures ok <==> writes >= |Affected(old(View()), flagId, v)|
      ensures ok ==> left == writes - |Affected(old(View()), flagId, v)|
    {
      var affected := Affected(View(), flagId, v);
      var todo := affected;
      left, done := writes, {};
      assert Patched(rules, done, v, default) == rules;
      while todo != {}
        invariant todo <= affected && done == affected - todo
        invariant rules == Patched(old(rules), done, v, default)
        invariant left + |affected| == writes + |todo| && affected == Affected(old(View()), flagId, v)
        decreases todo
      {
        var id :| id in todo;
        assert id in affected && id !in done && rules[id] == old(rules)[id];
        var p := PatchRule(rules[id], v, default);
        if left == 0 {
          assert |todo| == |todo - {id}| + 1;
          return false, 0, done;
        }
        left := left - 1;
        PatchOneMore(old(rules), done, id, v, default);
        rules := Upserted(rules, p);
        todo, done := todo - {id}, done + {id};
      }
      ok := true;
    }

    /** `FlagService.DeleteVariant`: whatever fails, the result is one the transition allows; only a complete
        rewrite lets the flag lose the variant. */
    method RemoveVariant(role: Role, flagId: string, v: string, force: bool, writes: nat) returns (res: Result<Flag>)
      requires Keyed(View())
      modifies this
      ensures Next(old(View()), DeleteVariant(flagId, v), View())
      ensures res.Ok? ==> flagId in old(flags) && flags == old(flags)[flagId := res.value]
      ensures res.Ok? ==> res.value == old(flags)[flagId].(variants := Without(old(flags)[flagId].variants, v))
      ensures res.Ok? ==> rules == Patched(old(rules), Affected(old(View()), flagId, v), v, res.value.defaultVariantKey)
      ensures res.Err? ==> flags == old(flags)
      ensures envs == old(envs) && (!force ==> rules == old(rules))
      ensures res == Err(Forbidden) <==> role.Level() < Editor.Level()
      ensures role.Level() >= Editor.Level() && flagId !in old(flags) ==> res == Err(NotFound)
      ensures role.Level() >= Editor.Level() && flagId in old(flags) ==>
                var f := old(flags)[flagId];
                && (res == Err(ImmutableVariants) <==> f.flagType.Bool?)
                && (res == Err(DefaultVariant) <==> !f.flagType.Bool? && v == f.defaultVariantKey)
                && (res == Err(LastVariant) <==> !f.flagType.Bool? && v != f.defaultVariantKey && |f.variants| == 1)
                && (res == Err(NotFound) <==>
                      !f.flagType.Bool? && v != f.defaultVariantKey && |f.variants| != 1 &&
                          v !in VariantKeys(f.variants))
                && (res == Err(VariantInUse) <==>
                    Deletable(old(View()), flagId, v, true) && !Deletable(old(View()), flagId, v, force))
      ensures FlagsValid(old(View())) ==>
                (res.Ok? <==> role.Level() >= Editor.Level() && Deletable(old(View()), flagId, v, force) &&
                              writes > |Affected(old(View()), flagId, v)|)
    {
      if role.Level() < Editor.Level() { return Err(Forbidden); }
      if flagId !in flags { return Err(NotFound); }
      var f := flags[flagId];
      if f.flagType.Bool? { return Err(ImmutableVariants); }
      if v == f.defaultVariantKey { return Err(DefaultVariant); }
      if |f.variants| == 1 { return Err(LastVariant); }
      var idx := IndexOfVariant(f.variants, v);
      if idx == -1 { return Err(NotFound); }
      if Affected(View(), flagId, v) != {} && !force { return Err(VariantInUse); }
      ghost var s := View();
      var ok, left, done := PatchAffected(flagId, v, f.defaultVariantKey, writes);
      assert done == {} ==> rules == old(rules);
      if !ok { return Err(Storage); }
      var g := f.(variants := f.variants[..idx] + f.variants[idx + 1..]);
      if ValidFlag(f) { RemovingKeepsValid(f, v); }
      var err := ValidateFlag(g);
      if err.Some? { return Err(err.value); }
      if left == 0 { return Err(Storage); }
      flags := flags[flagId := g];
      res := Ok(g);
    }

    /** `FlagService.AddVariant`. */
    method AddVariant(role: Role, flagId: string, v: Variant, writes: nat) returns (res: Result<Flag>)
      modifies this`flags
      ensures Next(old(View()), Op.AddVariant(flagId, v), View())
      ensures res.Err? ==> flags == old(flags)
      ensures res.Ok? ==> flagId in old(flags) && flags == old(flags)[flagId := res.value]
      ensures res.Ok? ==> res.value == old(flags)[flagId].(variants := old(flags)[flagId].variants + [v])
      ensures res == Err(Forbidden) <==> role.Level() < Editor.Level()
      ensures res == Err(NotFound) <==> role.Level() >= Editor.Level() && flagId !in old(flags)
      ensures role.Level() >= Editor.Level() && flagId in old(flags) ==>
                var f := old(flags)[flagId];
                && (res == Err(ImmutableVariants) <==> f.flagType.Bool?)
                && (res == Err(Conflict) <==> !f.flagType.Bool? && v.key in VariantKeys(f.variants))
      ensures FlagsValid(old(View())) ==>
                (res.Ok? <==> role.Level() >= Editor.Level() && flagId in old(flags) &&
                              !old(flags)[flagId].flagType.Bool? &&
                              v.key !in VariantKeys(old(flags)[flagId].variants) && writes > 0)
    {
      if role.Level() < Editor.Level() { return Err(Forbidden); }
      if flagId !in flags { return Err(NotFound); }
      var f := flags[flagId];
      if f.flagType.Bool? { return Err(ImmutableVariants); }
      for i := 0 to |f.variants|
        invariant forall k :: 0 <= k < i ==> f.variants[k].key != v.key
      {
        if f.variants[i].key == v.key { return Err(Conflict); }
      }
      var g := f.(variants := f.variants + [v]);
      if ValidFlag(f) { AddingKeepsValid(f, v); }
      var err := ValidateFlag(g);
      if err.Some? { return Err(err.value); }
      if writes == 0 { return Err(Storage); }
      flags := flags[flagId := g];
      res := Ok(g);
    }

    /** `FlagService.RenameVariant`: renames the first variant with the key. */
    method RenameVariant(role: Role, flagId: string, key: string, name: string, writes: nat) returns (res: Result<Flag>)
      modifies this`flags
      ensures Next(old(View()), Op.RenameVariant(flagId, key, name), View())
      ensures res.Err? ==> flags == old(flags)
      ensures res.Ok? ==> flagId in old(flags) && flags == old(flags)[flagId := res.value]
      ensures res.Ok? ==> res.value == old(flags)[flagId].(variants := Renamed(old(flags)[flagId].variants, key, name))
      ensures res == Err(NotFound) <==>
              role.Level() >= Editor.Level() &&
                  (flagId !in old(flags) || key !in VariantKeys(old(flags)[flagId].variants))
      ensures FlagsValid(old(View())) ==>
                (res.Ok? <==> role.Level() >= Editor.Level() && flagId in old(flags) &&
                              key in VariantKeys(old(flags)[flagId].variants) && writes > 0)
    {
      if role.Level() < Editor.Level() { return Err(Forbidden); }
      if flagId !in flags { return Err(NotFound); }
      var f := flags[flagId];
      var found := false;
      for i := 0 to |f.variants|
        invariant !found && f == flags[flagId]
        invariant forall k :: 0 <= k < i ==> f.variants[k].key != key
      {
        if f.variants[i].key == key {
          RenamedAt(f.variants, key, name, i);
          f := f.(variants := f.variants[i := Variant(key, name)]);
          found := true;
          break;
        }
      }
      if !found { return Err(NotFound); }
      if ValidFlag(flags[flagId]) { RenamingKeepsValid(flags[flagId], key, name); }
      var err := ValidateFlag(f);
      if err.Some? { return Err(err.value); }
      if writes == 0 { return Err(Storage); }
      flags := flags[flagId := f];
      res := Ok(f);
    }

    /** The flag update of the HTTP handler and `FlagService.Update`: the present fields replace the stored ones. */
    method UpdateFlag(role: Role, flagId: string, edit: FlagEdit, writes: nat) returns (res: Result<Flag>)
      modifies this`flags
      ensures Next(old(View()), Op.UpdateFlag(flagId, edit), View())
      ensures res == Err(NotFound) <==> flagId !in old(flags)
      ensures res.Ok? <==>
              && flagId in old(flags) && role.Level() >= Editor.Level()
              && ValidFlag(Edited(old(flags)[flagId], edit)) && writes > 0
      ensures res.Ok? ==> flags == old(flags)[flagId := res.value] && res.value == Edited(old(flags)[flagId], edit)
      ensures res.Err? ==> flags == old(flags)
    {
      if flagId !in flags { return Err(NotFound); }
      var f := flags[flagId];
      if edit.name.Some? { f := f.(name := edit.name.value); }
      if edit.variants.Some? { f := f.(variants := edit.variants.value); }
      if edit.defaultVariantKey.Some? { f := f.(defaultVariantKey := edit.defaultVariantKey.value); }
      if role.Level() < Editor.Level() { return Err(Forbidden); }
      var err := ValidateFlag(f);
      if err.Some? { return Err(err.value); }
      if writes == 0 { return Err(Storage); }
      flags := flags[flagId := f];
      res := Ok(f);
    }

    /** `FlagService.Create`, apart from the state rows: `rowsOk` is whether they could be written, `undoOk` whether the
        compensating delete works if they could not. */
    method InsertFlag(role: Role, flag: Flag, writes: nat, rowsOk: bool, undoOk: bool) returns (res: Result<()>)
      requires flag.id !in flags
      modifies this`flags
      ensures Next(old(View()), CreateFlag(flag), View())
      ensures res == Err(Conflict) <==>
              role.Level() >= Editor.Level() && ValidFlag(flag) && writes > 0 && KeyTaken(old(flags), flag)
      ensures res.Ok? <==>
              role.Level() >= Editor.Level() && ValidFlag(flag) && writes > 0 && !KeyTaken(old(flags), flag) && rowsOk
      ensures res.Ok? ==> flags == old(flags)[flag.id := flag]
      ensures res.Err? && undoOk ==> flags == old(flags)
    {
      if role.Level() < Editor.Level() { return Err(Forbidden); }
      var err := ValidateFlag(flag);
      if err.Some? { return Err(err.value); }
      if writes == 0 { return Err(Storage); }
      if KeyTaken(flags, flag) { return Err(Conflict); }
      flags := flags[flag.id := flag];
      if !rowsOk {
        if undoOk { flags := flags - {flag.id}; }
        return Err(Storage);
      }
      res := Ok(());
    }

    /** `FlagService.Delete`: the flag's rules go with it. */
    method DropFlag(role: Role, flagId: string, writes: nat) returns (res: Result<()>)
      modifies this
      ensures Next(old(View()), DeleteFlag(flagId), View())
      ensures res.Ok? <==> role.Level() >= Editor.Level() && writes > 0 && flagId in old(flags)
      ensures View() ==
              if res.Ok? then old(View()).(flags := old(flags) - {flagId}, rules := OutsideFlag(old(rules), flagId))
              else old(View())
    {
      if role.Level() < Editor.Level() { return Err(Forbidden); }
      if writes == 0 { return Err(Storage); }
      if flagId !in flags { return Err(NotFound); }
      flags, rules := flags - {flagId}, OutsideFlag(rules, flagId);
      res := Ok(());
    }

    /** `EnvironmentService.Create` once its row is valid and new, apart from the state rows. */
    method InsertEnvironment(role: Role, envId: string, writes: nat, rowsOk: bool, undoOk: bool)
      returns (res: Result<()>)
      requires envId !in envs
      modifies this`envs
      ensures Next(old(View()), CreateEnvironment(envId), View())
      ensures res.Ok? <==> role.Level() >= Editor.Level() && writes > 0 && rowsOk
      ensures res.Ok? ==> envs == old(envs) + {envId}
      ensures res.Err? && undoOk ==> envs == old(envs)
    {
      if role.Level() < Editor.Level() { return Err(Forbidden); }
      if writes == 0 { return Err(Storage); }
      envs := envs + {envId};
      if !rowsOk {
        if undoOk { envs := envs - {envId}; }
        return Err(Storage);
      }
      res := Ok(());
    }

    /** `EnvironmentService.Delete`: the environment's rules go with it. */
    method DropEnvironment(role: Role, envId: string, writes: nat) returns (res: Result<()>)
      modifies this
      ensures Next(old(View()), DeleteEnvironment(envId), View())
      ensures res.Ok? <==> role.Level() >= Editor.Level() && writes > 0 && envId in old(envs)
      ensures View() ==
              if res.Ok? then old(View()).(envs := old(envs) - {envId}, rules := OutsideEnv(old(rules), envId))
              else old(View())
    {
      if role.Level() < Editor.Level() { return Err(Forbidden); }
      if writes == 0 { return Err(Storage); }
      if envId !in envs { return Err(NotFound); }
      envs, rules := envs - {envId}, OutsideEnv(rules, envId);
      res := Ok(());
    }
  }
}
