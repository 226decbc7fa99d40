/** The Go client's reconnect delay: a 64-bit shift that may wrap, a cap, and jitter. Durations are
    nanoseconds. */
module Backoff {
  const INITIAL: int := 100_000_000
  const CAP: int := 30_000_000_000
  const TWO_45: int := 0x2000_0000_0000
  const TWO_63: int := 0x8000_0000_0000_0000
  const TWO_64: int := 0x1_0000_0000_0000_0000

  function Pow2(k: nat): nat { if k == 0 then 1 else 2 * Pow2(k - 1) }

  /** A 64-bit word read as a signed number. */
  function Signed(w: int): int { if w >= TWO_63 then w - TWO_64 else w }

  /** The 64-bit word of `100ms << k`: Go drops the high bits. */
  function Shifted(k: nat): int { (INITIAL * Pow2(k)) % TWO_64 }

  /** What the delay is meant to be before jitter. */
  function Intended(attempt: nat): int
    requires attempt >= 1
  {
    if INITIAL * Pow2(attempt - 1) < CAP then INITIAL * Pow2(attempt - 1) else CAP
  }

  lemma {:induction false} Pow2Grows(j: nat, k: nat)
    requires j <= k
    ensures 1 <= Pow2(j) <= Pow2(k)
    decreases k
  {
    if j < k { Pow2Grows(j, k - 1); } else if k > 0 { Pow2Grows(k - 1, k - 1); }
  }

  lemma ModShift(x: int, q: int)
    ensures (TWO_64 * q + x) % TWO_64 == x % TWO_64
  {
    var d := (TWO_64 * q + x) / TWO_64;
    var e := x / TWO_64;
    assert TWO_64 * (d - q - e) == x % TWO_64 - (TWO_64 * q + x) % TWO_64;
  }

  lemma DoubleWord(x: int)
    ensures (2 * x) % TWO_64 == (2 * (x % TWO_64)) % TWO_64
  {
    var q, r := x / TWO_64, x % TWO_64;
    assert 2 * x == TWO_64 * (2 * q) + 2 * r;
    ModShift(2 * r, 2 * q);
  }

  /** The word doubles with each attempt, modulo 2^64. */
  lemma ShiftedStep(k: nat)
    requires k > 0
    ensures Shifted(k) == (2 * Shifted(k - 1)) % TWO_64
  {
    assert INITIAL * Pow2(k) == 2 * (INITIAL * Pow2(k - 1));
    DoubleWord(INITIAL * Pow2(k - 1));
  }

  lemma PowersOfTwo()
    ensures Pow2(8) == 256 && Pow2(9) == 512 && Pow2(36) == 68719476736 && Pow2(37) == 137438953472
  {
    assert Pow2(4) == 16;
    assert Pow2(8) == 256;
    assert Pow2(12) == 4096;
    assert Pow2(16) == 65536;
    assert Pow2(20) == 1048576;
    assert Pow2(24) == 16777216;
    assert Pow2(28) == 268435456;
    assert Pow2(32) == 4294967296;
    assert Pow2(36) == 68719476736;
  }

  lemma DoublingKeepsMultiple(w: int)
    requires w % TWO_45 == 0 && 0 <= w < TWO_64
    ensures ((2 * w) % TWO_64) % TWO_45 == 0
  {
    var q := w / TWO_45;
    assert w == q * TWO_45;
    if 2 * w < TWO_64 {
      assert (2 * w) % TWO_64 == (2 * q) * TWO_45;
    } else {
      assert (2 * w) % TWO_64 == (2 * q - 524288) * TWO_45;
    }
  }

  /** From the first shift that can wrap on, the word is a multiple of 2^45, because 100ms in nanoseconds
      carries a factor of 2^8. */
  lemma {:induction false} WrappedIsCoarse(k: nat)
    requires k >= 37
    ensures Shifted(k) % TWO_45 == 0 && 0 <= Shifted(k) < TWO_64
  {
    if k == 37 {
      PowersOfTwo();
    } else {
      WrappedIsCoarse(k - 1);
      ShiftedStep(k);
      DoublingKeepsMultiple(Shifted(k - 1));
    }
  }

  /** The base the code computes: shift, then replace what is over the cap or not positive. */
  function Clamp(base: int): int { if base > CAP || base <= 0 then CAP else base }

  /** A multiple of 2^45 is never positive and as small as the cap, signed or not. */
  lemma SignedCoarse(w: int)
    requires w % TWO_45 == 0 && 0 <= w < TWO_64
    ensures Signed(w) <= 0 || Signed(w) > CAP
  {
  }

  /** Despite the wrap-around, the clamped shift is the intended delay for every attempt: no wrapped value is
      positive and within the cap. */
  lemma ClampIsIntended(attempt: nat)
    requires attempt >= 1
    ensures Clamp(Signed(Shifted(attempt - 1))) == Intended(attempt)
  {
    var k := attempt - 1;
    PowersOfTwo();
    if k < 37 {
      Pow2Grows(k, 36);
      assert 0 < INITIAL * Pow2(k) < TWO_63;
      assert Shifted(k) == INITIAL * Pow2(k);
    } else {
      WrappedIsCoarse(k);
      Pow2Grows(9, k);
      SignedCoarse(Shifted(k));
    }
  }

  /** The documented schedule: 100ms first, twice as long each time, never more than 30s. */
  lemma IntendedSchedule(attempt: nat)
    requires attempt >= 1
    ensures Intended(1) == 100_000_000
    ensures Intended(attempt + 1) ==
            if 2 * Intended(attempt) < 30_000_000_000 then 2 * Intended(attempt) else 30_000_000_000
  {
    var p := Pow2(attempt - 1);
    assert Pow2(attempt) == 2 * p && Pow2(0) == 1;
    assert INITIAL * Pow2(attempt) == 2 * (INITIAL * p);
  }

  /** Truncation toward zero, as Go converts a float to a duration. */
  function Truncate(x: real): int { if x >= 0.0 then x.Floor else -((-x).Floor) }

  /** `random` is what the generator returned, floats taken as reals. */
  function Jitter(base: int, random: real): real { base as real * 0.1 * (2.0 * random - 1.0) }

  lemma JitterBound(base: int, random: real)
    requires base > 0 && 0.0 <= random < 1.0
    ensures -(base as real * 0.1) <= Jitter(base, random) <= base as real * 0.1
  {
    var b, c := base as real * 0.1, 2.0 * random - 1.0;
    assert -1.0 <= c <= 1.0 && b >= 0.0;
    assert b * (c + 1.0) >= 0.0 && b * (1.0 - c) >= 0.0;
  }

  lemma JitteredBase(base: int, random: real)
    ensures base as real + Jitter(base, random) == base as real * (0.9 + 0.2 * random)
  {
    var b := base as real;
    assert b * (0.2 * random) == b * 0.1 * (2.0 * random);
    assert b * (0.9 + 0.2 * random) == b * 0.9 + b * (0.2 * random);
    assert b * 0.1 * (2.0 * random - 1.0) == b * 0.1 * (2.0 * random) - b * 0.1;
  }

  lemma MultipleOfTen(attempt: nat)
    requires attempt >= 1
    ensures Intended(attempt) % 10 == 0 && Intended(attempt) > 0
  {
    Pow2Grows(0, attempt - 1);
    var p := Pow2(attempt - 1);
    assert INITIAL * p == 10 * (10_000_000 * p);
  }

  lemma TruncateBound(base: int, jitter: real)
    requires base > 0 && base % 10 == 0
    requires -(base as real * 0.1) <= jitter <= base as real * 0.1
    ensures 9 * base <= 10 * Truncate(base as real + jitter) <= 11 * base
  {
    var tenth := base / 10;
    assert base == 10 * tenth;
    assert base as real * 0.1 == tenth as real;
    assert (9 * tenth) as real <= base as real + jitter <= (11 * tenth) as real;
  }

  /** `backoffDelay`: the intended delay scaled by a factor between 0.9 and 1.1 the generator picks, in whole
      nanoseconds. */
  method BackoffDelay(attempt: nat, random: real) returns (result: int)
    requires attempt >= 1 && 0.0 <= random < 1.0
    ensures 9 * Intended(attempt) <= 10 * result <= 11 * Intended(attempt)
    ensures result as real <= Intended(attempt) as real * (0.9 + 0.2 * random) < result as real + 1.0
  {
    ClampIsIntended(attempt);
    var base := Signed(Shifted(attempt - 1));
    if base > CAP || base <= 0 { base := CAP; }
    MultipleOfTen(attempt);
    var jitter := Jitter(base, random);
    JitterBound(base, random);
    result := Truncate(base as real + jitter);
    TruncateBound(base, jitter);
    JitteredBase(base, random);
    if result < 0 { result := 0; }
  }
}
