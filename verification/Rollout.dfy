/** Percentage rollouts: the bucket hash, bucket resolution, and what forced deletion of
    a variant does to the bucket intervals. */
module Rollout {
  import opened Domain
  import opened Sequences

  // ---------- the bucket hash ----------

  const FNV_OFFSET: bv32 := 2166136261

  /** One FNV-1a round on a 32-bit accumulator: xor the byte in, then multiply. */
  function Round(h: bv32, b: bv32): bv32 { (h ^ b) * 16777619 }

  function Byte(c: char): bv32 { (c as int % 256) as bv8 as bv32 }

  /** The round on characters, for a given reading of characters as bytes. */
  function RoundBy(byte: char -> bv32): (bv32, char) -> bv32 {
    (h: bv32, c: char) => Round(h, byte(c))
  }

  /** A round with the byte 0 is the 32-bit product with 16777619, and any other round is that of the accumulator with
      the byte xored in: the exclusive or comes first. */
  lemma RoundIs(h: bv32, b: bv32)
    ensures Round(h, 0) == h * 16777619
    ensures Round(h, b) == Round(h ^ b, 0)
  {
  }

  const FNV: (bv32, char) -> bv32 := RoundBy(Byte)

  /** A byte hash as a fold of its round function. */
  function Hash(round: (bv32, char) -> bv32, h: bv32, s: string): bv32 {
    if s == [] then h else round(Hash(round, h, s[..|s| - 1]), s[|s| - 1])
  }

  method HashWrite(round: (bv32, char) -> bv32, h: bv32, s: string) returns (h': bv32)
    ensures h' == Hash(round, h, s)
  {
    h' := h;
    for i := 0 to |s|
      invariant h' == Hash(round, h, s[..i])
    {
      assert s[..i + 1][..i] == s[..i];
      h' := round(h', s[i]);
    }
    assert s[..|s|] == s;
  }

  lemma {:induction false} HashConcat(round: (bv32, char) -> bv32, h: bv32, a: string, b: string)
    ensures Hash(round, h, a + b) == Hash(round, Hash(round, h, a), b)
  {
    if b == [] {
      assert a + b == a;
    } else {
      HashConcat(round, h, a, b[..|b| - 1]);
      assert (a + b)[..|a + b| - 1] == a + b[..|b| - 1];
    }
  }

  /** What `Bucket` hashes: the two keys with a NUL byte between them. */
  function HashInput(flagKey: string, userKey: string): string { flagKey + ['\0'] + userKey }

  function BucketOf(flagKey: string, userKey: string): int {
    Hash(FNV, FNV_OFFSET, HashInput(flagKey, userKey)) as int % 100
  }

  /** `Bucket`: three writes into one accumulator hash exactly the joined input, modulo 100. */
  method Bucket(flagKey: string, userKey: string) returns (b: int)
    ensures b == BucketOf(flagKey, userKey)
    ensures 0 <= b < 100
  {
    var h := HashWrite(FNV, FNV_OFFSET, flagKey);
    h := HashWrite(FNV, h, ['\0']);
    h := HashWrite(FNV, h, userKey);
    HashConcat(FNV, FNV_OFFSET, flagKey, ['\0']);
    HashConcat(FNV, FNV_OFFSET, flagKey + ['\0'], userKey);
    b := h as int % 100;
  }

  lemma SeparatorPosition(flagKey: string, userKey: string)
    requires IsSlug(flagKey)
    ensures var h := HashInput(flagKey, userKey);
            && h[|flagKey|] == '\0' && h[..|flagKey|] == flagKey && h[|flagKey| + 1..] == userKey
            && forall k :: 0 <= k < |flagKey| ==> h[k] != '\0'
  {
  }

  /** The separator does its job for every flag key `Flag.Validate` accepts: two different
      (flag, user) pairs never hash the same bytes. */
  lemma HashInputInjective(f1: string, u1: string, f2: string, u2: string)
    requires IsSlug(f1) && IsSlug(f2)
    requires HashInput(f1, u1) == HashInput(f2, u2)
    ensures f1 == f2 && u1 == u2
  {
    SeparatorPosition(f1, u1);
    SeparatorPosition(f2, u2);
  }

  /** The hash of a text given round by round. */
  lemma {:induction false} HashSteps(round: (bv32, char) -> bv32, s: string, values: seq<bv32>)
    requires |values| == |s| + 1 && forall i :: 0 <= i < |s| ==> round(values[i], s[i]) == values[i + 1]
    ensures Hash(round, values[0], s) == values[|s|]
  {
    if s != [] { HashSteps(round, s[..|s| - 1], values[..|s|]); }
  }

  /** The standard's values for the empty text and for "a". */
  lemma StandardHashes(byte: char -> bv32)
    requires byte('a') == 97
    ensures Hash(RoundBy(byte), FNV_OFFSET, "") == 0x811c9dc5
    ensures Hash(RoundBy(byte), FNV_OFFSET, "a") == 0xe40c292c
  {
    assert Round(0x811c9dc5, 97) == 0xe40c292c;
    HashSteps(RoundBy(byte), "a", [0x811c9dc5, 0xe40c292c]);
  }

  lemma KnownRounds()
    ensures Round(2166136261, 109) == 3893112696
    ensures Round(3893112696, 121) == 1278082707
    ensures Round(1278082707, 45) == 2858943770
    ensures Round(2858943770, 102) == 3183518260
    ensures Round(3183518260, 108) == 239046792
    ensures Round(239046792, 97) == 1460739787
    ensures Round(1460739787, 103) == 3153283268
    ensures Round(3153283268, 0) == 2751171724
    ensures Round(2751171724, 117) == 503245819
    ensures Round(503245819, 115) == 3226257176
    ensures Round(3226257176, 101) == 903743943
    ensures Round(903743943, 114) == 2173257711
    ensures Round(2173257711, 45) == 2904290918
    ensures Round(2904290918, 49) == 3657747189
    ensures Round(3657747189, 50) == 4236982085
    ensures Round(4236982085, 51) == 86527682
  {
  }

  /** The pair the repository's own test names, whose bucket is 82. */
  lemma KnownHash(byte: char -> bv32)
    requires byte('\0') == 0 && byte('-') == 45 && byte('1') == 49
    requires byte('2') == 50 && byte('3') == 51 && byte('a') == 97
    requires byte('e') == 101 && byte('f') == 102 && byte('g') == 103
    requires byte('l') == 108 && byte('m') == 109 && byte('r') == 114
    requires byte('s') == 115 && byte('u') == 117 && byte('y') == 121
    ensures Hash(RoundBy(byte), FNV_OFFSET, HashInput("my-flag", "user-123")) == 86527682
  {
    var s := HashInput("my-flag", "user-123");
    KnownRounds();
    var values := [2166136261, 3893112696, 1278082707, 2858943770, 3183518260, 239046792, 1460739787, 3153283268,
                   2751171724, 503245819, 3226257176, 903743943, 2173257711, 2904290918, 3657747189, 4236982085,
                   86527682];
    HashSteps(RoundBy(byte), s, values);
  }

  lemma KnownBytes()
    ensures Byte('a') == 97 && Byte('\0') == 0
  {
  }

  lemma KnownRest()
    ensures (267627071 as bv32) as int % 100 == 71 && 86527682 % 100 == 82
  {
  }

  /** A bucket, with the separator and the remainder. */
  lemma KnownBucket()
    ensures BucketOf("a", "a") == 71
  {
    KnownBytes();
    var s := HashInput("a", "a");
    assert Round(2166136261, 97) == 3826002220 && Round(3826002220, 0) == 723832900;
    assert Round(723832900, 97) == 267627071;
    HashSteps(RoundBy(Byte), s, [2166136261, 3826002220, 723832900, 267627071]);
    KnownRest();
  }

  // ---------- resolving a bucket ----------

  /** Entry `i` owns the half-open bucket interval from `Start(es, i)` to `End(es, i)`. */
  function Start(es: seq<RolloutEntry>, i: int): int
    requires 0 <= i < |es|
  {
    WeightTo(es, i)
  }

  function End(es: seq<RolloutEntry>, i: int): int
    requires 0 <= i < |es|
  {
    WeightTo(es, i + 1)
  }

  predicate Owns(es: seq<RolloutEntry>, i: int, bucket: int) {
    0 <= i < |es| && Start(es, i) <= bucket < End(es, i)
  }

  predicate PositiveWeights(es: seq<RolloutEntry>) {
    forall i :: 0 <= i < |es| ==> es[i].weight >= 1
  }

  /** The first entry whose cumulative weight exceeds `bucket`; the last entry if there is none. */
  predicate ResolvesTo(es: seq<RolloutEntry>, bucket: int, i: int) {
    && 0 <= i < |es|
    && (forall k :: 0 <= k < i ==> End(es, k) <= bucket)
    && (bucket < End(es, i) || i == |es| - 1)
  }

  /** `bucket` resolves to variant `v`. */
  ghost predicate Returns(es: seq<RolloutEntry>, bucket: int, v: string) {
    exists i :: ResolvesTo(es, bucket, i) && es[i].variantKey == v
  }

  /** `resolveRollout`; an empty slice makes the fallback index out of range. */
  method ResolveRollout(es: seq<RolloutEntry>, bucket: int) returns (r: Result<string>)
    ensures r == Err(Panic) <==> es == []
    ensures r.Ok? <==> es != []
    ensures r.Ok? ==> Returns(es, bucket, r.value)
  {
    var cumulative := 0;
    for i := 0 to |es|
      invariant cumulative == WeightTo(es, i)
      invariant forall k :: 0 <= k < i ==> End(es, k) <= bucket
    {
      cumulative := cumulative + es[i].weight;
      if bucket < cumulative {
        assert ResolvesTo(es, bucket, i);
        return Ok(es[i].variantKey);
      }
    }
    if |es| == 0 { return Err(Panic); }
    assert ResolvesTo(es, bucket, |es| - 1);
    r := Ok(es[|es| - 1].variantKey);
  }

  /** Resolution is a function of rollout and bucket. */
  lemma ReturnsUnique(es: seq<RolloutEntry>, bucket: int, v: string, w: string)
    requires Returns(es, bucket, v) && Returns(es, bucket, w)
    ensures v == w
  {
    var i :| ResolvesTo(es, bucket, i) && es[i].variantKey == v;
    var j :| ResolvesTo(es, bucket, j) && es[j].variantKey == w;
  }

  lemma {:induction false} WeightMonotone(es: seq<RolloutEntry>, i: int, j: int)
    requires PositiveWeights(es) && 0 <= i <= j <= |es|
    ensures WeightTo(es, i) + (j - i) <= WeightTo(es, j)
    decreases j
  {
    if i < j { WeightMonotone(es, i, j - 1); }
  }

  /** The resolved entry of a bucket below the total weight is its one owner, so the fallback
      return is unreachable. */
  lemma ResolvedIsOwner(es: seq<RolloutEntry>, bucket: int, i: int)
    requires PositiveWeights(es) && 0 <= bucket < Weight(es)
    ensures ResolvesTo(es, bucket, i) <==> Owns(es, i, bucket)
  {
    if ResolvesTo(es, bucket, i) && i > 0 { assert End(es, i - 1) <= bucket; }
    if Owns(es, i, bucket) {
      forall k | 0 <= k < i ensures End(es, k) <= bucket { WeightMonotone(es, k + 1, i); }
    }
  }

  // ---------- how many of the buckets a variant gets ----------

  /** Sum of the weights of the entries for `v` among the first `i`. */
  function WeightOfTo(es: seq<RolloutEntry>, v: string, i: int): int
    requires 0 <= i <= |es|
  {
    if i == 0 then 0
    else WeightOfTo(es, v, i - 1) + (if es[i - 1].variantKey == v then es[i - 1].weight else 0)
  }

  function WeightOf(es: seq<RolloutEntry>, v: string): int { WeightOfTo(es, v, |es|) }

  /** The bucket is owned by an entry for `v`. */
  ghost predicate Serves(es: seq<RolloutEntry>, v: string, bucket: int) {
    exists i :: Owns(es, i, bucket) && es[i].variantKey == v
  }

  ghost function BucketsTo(es: seq<RolloutEntry>, v: string, n: int): set<int>
    requires 0 <= n <= |es|
  {
    set b | 0 <= b < WeightTo(es, n) && Serves(es, v, b)
  }

  lemma OwnerUnique(es: seq<RolloutEntry>, bucket: int, i: int, j: int)
    requires PositiveWeights(es) && Owns(es, i, bucket) && Owns(es, j, bucket)
    ensures i == j
  {
    if i < j { WeightMonotone(es, i + 1, j); }
    if j < i { WeightMonotone(es, j + 1, i); }
  }

  lemma BucketsStep(es: seq<RolloutEntry>, v: string, n: int)
    requires 0 < n <= |es| && PositiveWeights(es)
    ensures BucketsTo(es, v, n) == BucketsTo(es, v, n - 1) +
            (if es[n - 1].variantKey == v then Range(WeightTo(es, n - 1), WeightTo(es, n)) else {})
  {
    WeightMonotone(es, n, |es|);
    forall b | WeightTo(es, n - 1) <= b < WeightTo(es, n)
      ensures Serves(es, v, b) <==> es[n - 1].variantKey == v
    {
      WeightMonotone(es, 0, n - 1);
      assert Owns(es, n - 1, b);
      forall i | Owns(es, i, b) ensures i == n - 1 { OwnerUnique(es, b, i, n - 1); }
    }
    WeightMonotone(es, 0, n - 1);
    var owned := if es[n - 1].variantKey == v then Range(WeightTo(es, n - 1), WeightTo(es, n)) else {};
    forall b ensures b in BucketsTo(es, v, n) <==> b in BucketsTo(es, v, n - 1) || b in owned {
      assert b in owned <==> es[n - 1].variantKey == v && Within(WeightTo(es, n - 1), b, WeightTo(es, n));
    }
  }

  /** Of the buckets below the total of a prefix, exactly as many serve `v` as `v` has weight there. */
  lemma {:induction false} BucketCount(es: seq<RolloutEntry>, v: string, n: int)
    requires PositiveWeights(es) && 0 <= n <= |es|
    ensures |BucketsTo(es, v, n)| == WeightOfTo(es, v, n)
    decreases n
  {
    if n == 0 {
      assert BucketsTo(es, v, 0) == {};
    } else {
      BucketCount(es, v, n - 1);
      BucketsStep(es, v, n);
      RangeSize(WeightTo(es, n - 1), WeightTo(es, n));
      assert BucketsTo(es, v, n - 1) !! Range(WeightTo(es, n - 1), WeightTo(es, n));
    }
  }

  /** The percentage promise of `Rule.Validate` and `resolveRollout` together: in an accepted
      rollout, `v` is what `resolveRollout` returns for exactly `WeightOf(es, v)` of the 100 buckets. */
  lemma RolloutPercentage(es: seq<RolloutEntry>, v: string)
    requires ValidRollout(es)
    ensures |set b | 0 <= b < 100 && Returns(es, b, v)| == WeightOf(es, v)
  {
    BucketCount(es, v, |es|);
    forall b | 0 <= b < 100
      ensures Serves(es, v, b) <==> Returns(es, b, v)
    {
      forall i ensures ResolvesTo(es, b, i) <==> Owns(es, i, b) { ResolvedIsOwner(es, b, i); }
    }
    assert BucketsTo(es, v, |es|) == set b | 0 <= b < 100 && Returns(es, b, v);
  }

  // ---------- forced deletion of a variant ----------

  function KeptTo(es: seq<RolloutEntry>, v: string, i: int): seq<RolloutEntry>
    requires 0 <= i <= |es|
  {
    if i == 0 then []
    else KeptTo(es, v, i - 1) + (if es[i - 1].variantKey == v then [] else [es[i - 1]])
  }

  /** Give `w` more weight to the first entry. */
  function BumpFirst(es: seq<RolloutEntry>, w: int): seq<RolloutEntry> {
    if es == [] then [] else [es[0].(weight := es[0].weight + w)] + es[1..]
  }

  /** The rewritten rollout: `v`'s entries dropped, their weight given to the first entry left. */
  function Redistribute(es: seq<RolloutEntry>, v: string): seq<RolloutEntry> {
    BumpFirst(KeptTo(es, v, |es|), WeightOf(es, v))
  }

  /** The rewrite loop of `DeleteVariant` for one rule. */
  method RedistributeRollout(es: seq<RolloutEntry>, v: string) returns (es': seq<RolloutEntry>)
    ensures es' == Redistribute(es, v)
  {
    var kept: seq<RolloutEntry> := [];
    var removedWeight := 0;
    for i := 0 to |es|
      invariant kept == KeptTo(es, v, i)
      invariant removedWeight == WeightOfTo(es, v, i)
    {
      if es[i].variantKey == v {
        removedWeight := removedWeight + es[i].weight;
      } else {
        kept := kept + [es[i]];
      }
    }
    if |kept| == 0 { return []; }
    es' := kept[0 := kept[0].(weight := kept[0].weight + removedWeight)];
  }

  /** Cumulative weights only look at the prefix. */
  lemma {:induction false} WeightOfPrefix(a: seq<RolloutEntry>, b: seq<RolloutEntry>, i: int)
    requires 0 <= i <= |a| && a <= b
    ensures WeightTo(a, i) == WeightTo(b, i)
    decreases i
  {
    if i > 0 { WeightOfPrefix(a, b, i - 1); }
  }

  lemma {:induction false} KeptWeight(es: seq<RolloutEntry>, v: string, i: int)
    requires 0 <= i <= |es|
    ensures Weight(KeptTo(es, v, i)) == WeightTo(es, i) - WeightOfTo(es, v, i)
    decreases i
  {
    if i > 0 {
      KeptWeight(es, v, i - 1);
      var k := KeptTo(es, v, i - 1);
      WeightOfPrefix(k, KeptTo(es, v, i), |k|);
    }
  }

  lemma {:induction false} KeptPrefix(es: seq<RolloutEntry>, v: string, i: int, j: int)
    requires 0 <= i <= j <= |es|
    ensures KeptTo(es, v, i) <= KeptTo(es, v, j)
    decreases j
  {
    if i < j { KeptPrefix(es, v, i, j - 1); }
  }

  lemma {:induction false} BumpWeight(es: seq<RolloutEntry>, w: int, k: int)
    requires 0 <= k <= |es|
    ensures |BumpFirst(es, w)| == |es|
    ensures WeightTo(BumpFirst(es, w), k) == WeightTo(es, k) + (if k == 0 then 0 else w)
    decreases k
  {
    if k > 0 { BumpWeight(es, w, k - 1); }
  }

  /** The weight of `v` that stands at or after entry `i`. */
  function RemovedAfter(es: seq<RolloutEntry>, v: string, i: int): int
    requires 0 <= i <= |es|
  {
    WeightOf(es, v) - WeightOfTo(es, v, i)
  }

  lemma {:induction false} WeightOfNonNegative(es: seq<RolloutEntry>, v: string, i: int)
    requires PositiveWeights(es) && 0 <= i <= |es|
    ensures WeightOfTo(es, v, i) >= 0
  {
    if i > 0 { WeightOfNonNegative(es, v, i - 1); }
  }

  lemma {:induction false} RemovedAfterBounds(es: seq<RolloutEntry>, v: string, i: int)
    requires PositiveWeights(es) && 0 <= i <= |es|
    ensures 0 <= WeightOfTo(es, v, i) <= WeightOf(es, v)
    decreases |es| - i
  {
    if i < |es| {
      RemovedAfterBounds(es, v, i + 1);
    }
    WeightOfNonNegative(es, v, i);
  }

  /** Surviving entry `i` lands at index `k`, the number of survivors before it. */
  lemma SurvivorIndex(es: seq<RolloutEntry>, v: string, i: int)
    requires 0 <= i < |es| && es[i].variantKey != v
    ensures var k, kept := |KeptTo(es, v, i)|, KeptTo(es, v, |es|);
            && k < |kept| && kept[k] == es[i]
            && WeightTo(kept, k) == WeightTo(es, i) - WeightOfTo(es, v, i)
            && WeightTo(kept, k + 1) == WeightTo(es, i + 1) - WeightOfTo(es, v, i)
  {
    var kept := KeptTo(es, v, |es|);
    KeptPrefix(es, v, i, |es|);
    KeptPrefix(es, v, i + 1, |es|);
    KeptWeight(es, v, i);
    KeptWeight(es, v, i + 1);
    WeightOfPrefix(KeptTo(es, v, i), kept, |KeptTo(es, v, i)|);
    WeightOfPrefix(KeptTo(es, v, i + 1), kept, |KeptTo(es, v, i + 1)|);
  }

  /** Where a surviving entry's bucket interval goes. The first survivor's interval now starts at
      bucket 0, still holds all its old buckets and is longer by the whole removed weight. Any
      other survivor's interval keeps its length and moves right by exactly the removed weight
      that stood after the entry. */
  lemma RedistributedInterval(es: seq<RolloutEntry>, v: string, i: int)
    requires PositiveWeights(es) && 0 <= i < |es| && es[i].variantKey != v
    ensures var k, after := |KeptTo(es, v, i)|, Redistribute(es, v);
            && k < |after|
            && after[k].variantKey == es[i].variantKey
            && (k > 0 ==>
                  && after[k].weight == es[i].weight
                  && Start(after, k) == Start(es, i) + RemovedAfter(es, v, i)
                  && End(after, k) == End(es, i) + RemovedAfter(es, v, i))
            && (k == 0 ==>
                  && Start(after, 0) == 0 <= Start(es, i)
                  && End(es, i) <= End(after, 0) == es[i].weight + WeightOf(es, v))
  {
    var k, kept := |KeptTo(es, v, i)|, KeptTo(es, v, |es|);
    SurvivorIndex(es, v, i);
    BumpWeight(kept, WeightOf(es, v), k);
    BumpWeight(kept, WeightOf(es, v), k + 1);
    RemovedAfterBounds(es, v, i);
  }

  lemma {:induction false} KeptClean(es: seq<RolloutEntry>, v: string, n: int)
    requires 0 <= n <= |es|
    ensures forall k :: 0 <= k < |KeptTo(es, v, n)| ==> KeptTo(es, v, n)[k] in es && KeptTo(es, v, n)[k].variantKey != v
    ensures KeptTo(es, v, n) == [] <==> forall i :: 0 <= i < n ==> es[i].variantKey == v
    decreases n
  {
    if n > 0 { KeptClean(es, v, n - 1); }
  }

  /** An accepted rollout with a survivor is still accepted after the rewrite, mentions only
      variants it mentioned before, and no longer the deleted one. */
  lemma RedistributeValid(es: seq<RolloutEntry>, v: string)
    requires ValidRollout(es)
    ensures Redistribute(es, v) == [] <==> forall i :: 0 <= i < |es| ==> es[i].variantKey == v
    ensures Redistribute(es, v) != [] ==> ValidRollout(Redistribute(es, v))
  {
    var kept := KeptTo(es, v, |es|);
    KeptClean(es, v, |es|);
    KeptWeight(es, v, |es|);
    BumpWeight(kept, WeightOf(es, v), |kept|);
    RemovedAfterBounds(es, v, 0);
    if kept != [] {
      forall k | 0 <= k < |kept| ensures kept[k].variantKey != "" && kept[k].weight >= 1 { assert kept[k] in es; }
    }
  }

  lemma RedistributeMentions(es: seq<RolloutEntry>, v: string, k: int)
    requires 0 <= k < |Redistribute(es, v)|
    ensures Redistribute(es, v)[k].variantKey != v
    ensures exists i :: 0 <= i < |es| && es[i].variantKey == Redistribute(es, v)[k].variantKey
  {
    var kept := KeptTo(es, v, |es|);
    KeptClean(es, v, |es|);
    assert kept[k] in es;
  }

  /** No user of the first surviving entry is moved to another variant. */
  lemma FirstSurvivorKeepsItsUsers(es: seq<RolloutEntry>, v: string, i: int, bucket: int)
    requires ValidRollout(es) && 0 <= bucket < 100
    requires ResolvesTo(es, bucket, i) && es[i].variantKey != v && KeptTo(es, v, i) == []
    ensures Returns(Redistribute(es, v), bucket, es[i].variantKey)
  {
    RedistributedInterval(es, v, i);
    RedistributeValid(es, v);
    ResolvedIsOwner(es, bucket, i);
    var after := Redistribute(es, v);
    assert Owns(after, 0, bucket);
    ResolvedIsOwner(after, bucket, 0);
    assert ResolvesTo(after, bucket, 0) && after[0].variantKey == es[i].variantKey;
  }

  // ---------- shares after a deletion ----------

  /** The first entry that is not for the deleted variant. */
  predicate FirstSurvivor(es: seq<RolloutEntry>, v: string, i: int) {
    0 <= i < |es| && es[i].variantKey != v && forall k :: 0 <= k < i ==> es[k].variantKey == v
  }

  lemma {:induction false} WeightOfToPrefix(a: seq<RolloutEntry>, b: seq<RolloutEntry>, w: string, i: int)
    requires 0 <= i <= |a| && a <= b
    ensures WeightOfTo(a, w, i) == WeightOfTo(b, w, i)
    decreases i
  {
    if i > 0 { WeightOfToPrefix(a, b, w, i - 1); }
  }

  lemma {:induction false} KeptShare(es: seq<RolloutEntry>, v: string, w: string, n: int)
    requires 0 <= n <= |es|
    ensures WeightOf(KeptTo(es, v, n), w) == if w == v then 0 else WeightOfTo(es, w, n)
    decreases n
  {
    if n > 0 {
      KeptShare(es, v, w, n - 1);
      var k := KeptTo(es, v, n - 1);
      WeightOfToPrefix(k, KeptTo(es, v, n), w, |k|);
    }
  }

  lemma {:induction false} BumpShare(es: seq<RolloutEntry>, more: int, w: string, k: int)
    requires 0 <= k <= |es|
    ensures |BumpFirst(es, more)| == |es|
    ensures WeightOfTo(BumpFirst(es, more), w, k) ==
            WeightOfTo(es, w, k) + (if k > 0 && es[0].variantKey == w then more else 0)
    decreases k
  {
    if k > 0 { BumpShare(es, more, w, k - 1); }
  }

  /** What each variant has after a deletion: its old weight, the first survivor's variant also the removed weight, the
      deleted one nothing. */
  lemma RedistributedShare(es: seq<RolloutEntry>, v: string, i: int, w: string)
    requires FirstSurvivor(es, v, i)
    ensures Redistribute(es, v) != []
    ensures WeightOf(Redistribute(es, v), w) ==
            if w == v then 0 else WeightOf(es, w) + (if w == es[i].variantKey then WeightOf(es, v) else 0)
  {
    var kept := KeptTo(es, v, |es|);
    KeptClean(es, v, i);
    SurvivorIndex(es, v, i);
    assert kept[0] == es[i];
    KeptShare(es, v, w, |es|);
    BumpShare(kept, WeightOf(es, v), w, |kept|);
  }
}
