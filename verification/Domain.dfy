/** The entities of the flag server and their validation: flags and variants,
    targeting rules, conditions and weighted rollouts. Go strings are byte strings,
    so every `char` of a `string` here stands for one byte. */
module Domain {

  datatype Option<+T> = None | Some(value: T) {
    function GetOr(default: T): T { if Some? then value else default }
  }

  datatype Error =
    | Forbidden | NotFound | Conflict | PriorityConflict | LastAdmin
    | ImmutableVariants | DefaultVariant | LastVariant | VariantInUse
    | Storage            // any other failure reported by a repository
    | Panic              // the Go runtime stops the call (index out of range, close of closed channel)
    | Invalid(field: string)

  datatype Result<+T> = Ok(value: T) | Err(error: Error)

  // ---------- roles ----------

  /** `Unknown` stands for every role string the level table does not list. */
  datatype Role = Viewer | Editor | Admin | Unknown {
    function Level(): nat {
      match this
      case Viewer => 1
      case Editor => 2
      case Admin => 3
      case Unknown => 0
    }
  }

  /** What each gate lets through; no gate admits an unknown role. */
  lemma Gates(r: Role)
    ensures r.Level() >= Viewer.Level() <==> r != Unknown
    ensures r.Level() >= Editor.Level() <==> r == Editor || r == Admin
    ensures r.Level() >= Admin.Level() <==> r == Admin
  {
  }

  // ---------- rules ----------

  datatype Operator =
    | Eq | Neq | Contains | StartsWith | EndsWith | In | NotIn | InSegment | NotInSegment
    | Unsupported(name: string)
  {
    predicate Segment() { InSegment? || NotInSegment? }

    predicate Scalar() { Eq? || Neq? || Contains? || StartsWith? || EndsWith? || Segment() }

    predicate List() { In? || NotIn? }
  }

  datatype Condition = Condition(attribute: string, operator: Operator, values: seq<string>)

  datatype RolloutEntry = RolloutEntry(variantKey: string, weight: int)

  datatype Rule = Rule(
    id: string, flagId: string, environmentId: string, name: string, priority: int,
    conditions: seq<Condition>, variantKey: string, rollout: seq<RolloutEntry>, enabled: bool)

  /** What a well-formed condition is: an attribute unless it tests a segment, a known
      operator, exactly one value for a scalar operator and at least one for a list operator. */
  predicate ValidCondition(c: Condition) {
    && (c.attribute != "" || c.operator.Segment())
    && (c.operator.Scalar() ==> |c.values| == 1)
    && (c.operator.List() ==> |c.values| >= 1)
    && !c.operator.Unsupported?
  }

  function ValidateCondition(c: Condition): (err: Option<Error>)
    ensures err.None? <==> ValidCondition(c)
    ensures err.Some? ==> err.value.Invalid?
    ensures err == Some(Invalid("operator")) <==> c.attribute != "" && c.operator.Unsupported?
  {
    if !c.operator.Segment() && c.attribute == "" then Some(Invalid("attribute"))
    else if c.operator.Scalar() then
      if |c.values| != 1 then Some(Invalid("values")) else None
    else if c.operator.List() then
      if |c.values| == 0 then Some(Invalid("values")) else None
    else Some(Invalid("operator"))
  }

  /** Cumulative weight of the first `i` entries of a rollout. */
  function WeightTo(es: seq<RolloutEntry>, i: int): int
    requires 0 <= i <= |es|
  {
    if i == 0 then 0 else WeightTo(es, i - 1) + es[i - 1].weight
  }

  function Weight(es: seq<RolloutEntry>): int { WeightTo(es, |es|) }

  predicate ValidRollout(es: seq<RolloutEntry>) {
    && (forall i :: 0 <= i < |es| ==> es[i].variantKey != "" && es[i].weight >= 1)
    && Weight(es) == 100
  }

  predicate ValidRule(r: Rule) {
    && |r.name| <= 255
    && |r.conditions| > 0
    && (if r.rollout == [] then r.variantKey != "" else ValidRollout(r.rollout))
    && (forall i :: 0 <= i < |r.conditions| ==> ValidCondition(r.conditions[i]))
  }

  /** `Rule.Validate`: the two loops in their source order. */
  method ValidateRule(r: Rule) returns (err: Option<Error>)
    ensures err.None? <==> ValidRule(r)
    ensures err.Some? ==> err.value.Invalid?
    ensures err == Some(Invalid("name")) <==> |r.name| > 255
    ensures err == Some(Invalid("conditions")) <==> |r.name| <= 255 && r.conditions == []
    ensures err == Some(Invalid("rollout")) <==>
            |r.name| <= 255 && r.conditions != [] && r.rollout != [] && !ValidRollout(r.rollout)
    ensures err == Some(Invalid("variantKey")) <==>
            |r.name| <= 255 && r.conditions != [] && r.rollout == [] && r.variantKey == ""
  {
    if |r.name| > 255 { return Some(Invalid("name")); }
    if |r.conditions| == 0 { return Some(Invalid("conditions")); }
    if |r.rollout| > 0 {
      var total := 0;
      for i := 0 to |r.rollout|
        invariant total == WeightTo(r.rollout, i)
        invariant forall k :: 0 <= k < i ==> r.rollout[k].variantKey != "" && r.rollout[k].weight >= 1
      {
        if r.rollout[i].variantKey == "" { return Some(Invalid("rollout")); }
        if r.rollout[i].weight < 1 { return Some(Invalid("rollout")); }
        total := total + r.rollout[i].weight;
      }
      if total != 100 { return Some(Invalid("rollout")); }
    } else if r.variantKey == "" {
      return Some(Invalid("variantKey"));
    }
    for i := 0 to |r.conditions|
      invariant forall k :: 0 <= k < i ==> ValidCondition(r.conditions[k])
    {
      err := ValidateCondition(r.conditions[i]);
      if err.Some? { return; }
    }
    err := None;
  }

  // ---------- flags ----------

  datatype FlagType = Bool | Str | Number | Json | OtherType(name: string)

  datatype Variant = Variant(key: string, name: string)

  datatype Flag = Flag(
    id: string, projectId: string, key: string, name: string, flagType: FlagType,
    variants: seq<Variant>, defaultVariantKey: string)

  const MAX_KEY_LENGTH := 128

  predicate SlugStart(c: char) { 'a' <= c <= 'z' || '0' <= c <= '9' }

  /** The language of `^[a-z0-9][a-z0-9-]*$`. */
  predicate IsSlug(s: string) {
    |s| > 0 && SlugStart(s[0]) && forall i :: 0 <= i < |s| ==> SlugStart(s[i]) || s[i] == '-'
  }

  function VariantKeys(vs: seq<Variant>): set<string> {
    set i | 0 <= i < |vs| :: vs[i].key
  }

  predicate DistinctKeys(vs: seq<Variant>) {
    forall i, j :: 0 <= i < j < |vs| ==> vs[i].key != vs[j].key
  }

  predicate ValidKey(key: string) { |key| <= MAX_KEY_LENGTH && IsSlug(key) }

  predicate ValidVariants(f: Flag) {
    && |f.variants| > 0 && DistinctKeys(f.variants)
    && (f.flagType.Bool? ==> |f.variants| == 2 && VariantKeys(f.variants) == {"true", "false"})
  }

  predicate ValidFlag(f: Flag) {
    && !f.flagType.OtherType?
    && ValidKey(f.key)
    && ValidVariants(f)
    && f.defaultVariantKey in VariantKeys(f.variants)
    && f.name != ""
  }

  /** A slug read byte by byte, in ASCII codes: first one of a-z or 0-9, then any of those or a hyphen. */
  predicate Reads(s: string) {
    if |s| == 0 then false
    else
      var last := s[|s| - 1] as int;
      (97 <= last <= 122 || 48 <= last <= 57 || (last == 45 && |s| > 1)) && (|s| > 1 ==> Reads(s[..|s| - 1]))
  }

  lemma {:induction false} SlugRead(s: string)
    ensures IsSlug(s) <==> Reads(s)
    ensures ValidKey(s) <==> Reads(s) && |s| <= 128
  {
    if |s| > 1 {
      var init := s[..|s| - 1];
      SlugRead(init);
      assert s[0] == init[0];
      assert s == init + [s[|s| - 1]];
    }
  }

  /** `Flag.Validate`: fills `seen` while looking for a duplicate key. The first violated requirement, in this
      order, is the field blamed. */
  method ValidateFlag(f: Flag) returns (err: Option<Error>)
    ensures err.None? <==> ValidFlag(f)
    ensures err.Some? ==> err.value.Invalid?
    ensures err == Some(Invalid("type")) <==> f.flagType.OtherType?
    ensures err == Some(Invalid("key")) <==> !f.flagType.OtherType? && !ValidKey(f.key)
    ensures err == Some(Invalid("variants")) <==> !f.flagType.OtherType? && ValidKey(f.key) && !ValidVariants(f)
    ensures err == Some(Invalid("default_variant_key")) <==>
            !f.flagType.OtherType? && ValidKey(f.key) && ValidVariants(f) &&
                f.defaultVariantKey !in VariantKeys(f.variants)
  {
    if f.flagType.OtherType? { return Some(Invalid("type")); }
    if |f.key| > MAX_KEY_LENGTH { return Some(Invalid("key")); }
    if !IsSlug(f.key) { return Some(Invalid("key")); }
    if |f.variants| == 0 { return Some(Invalid("variants")); }
    var seen: set<string> := {};
    for i := 0 to |f.variants|
      invariant seen == VariantKeys(f.variants[..i])
      invariant DistinctKeys(f.variants[..i])
    {
      if f.variants[i].key in seen {
        assert !DistinctKeys(f.variants);
        return Some(Invalid("variants"));
      }
      seen := seen + {f.variants[i].key};
      assert VariantKeys(f.variants[..i + 1]) == seen;
    }
    assert f.variants[..|f.variants|] == f.variants;
    if f.flagType.Bool? {
      if |f.variants| != 2 { return Some(Invalid("variants")); }
      assert VariantKeys(f.variants) == {f.variants[0].key, f.variants[1].key};
      if !("true" in {f.variants[0].key, f.variants[1].key}) || !("false" in {f.variants[0].key, f.variants[1].key}) {
        return Some(Invalid("variants"));
      }
    }
    if f.defaultVariantKey !in seen { return Some(Invalid("default_variant_key")); }
    if f.name == "" { return Some(Invalid("name")); }
    err := None;
  }
}
