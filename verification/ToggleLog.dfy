/** Logs of toggles: what the last toggle of a key says, and when replaying part of a log over an older value gives
    the current one. The store, the server's published history and the client's event queue are such logs. */
module ToggleLog {

  datatype Toggle<+K> = Toggle(key: K, enabled: bool)

  /** The value the last toggle of `key` carries, or `otherwise`. */
  function LastValue<K(==)>(log: seq<Toggle<K>>, key: K, otherwise: bool): bool {
    if log == [] then otherwise
    else if log[|log| - 1].key == key then log[|log| - 1].enabled
    else LastValue(log[..|log| - 1], key, otherwise)
  }

  predicate Toggled<K(==)>(log: seq<Toggle<K>>, key: K) { exists i :: 0 <= i < |log| && log[i].key == key }

  lemma ToggledSnoc<K>(log: seq<Toggle<K>>, key: K)
    requires log != []
    ensures Toggled(log, key) <==> Toggled(log[..|log| - 1], key) || log[|log| - 1].key == key
  {
    var init := log[..|log| - 1];
    if Toggled(init, key) {
      var i :| 0 <= i < |init| && init[i].key == key;
      assert log[i].key == key;
    }
  }

  /** It is the one after which the key is not toggled. */
  lemma {:induction false} LastValueIs<K>(log: seq<Toggle<K>>, i: nat, key: K, otherwise: bool)
    requires i < |log| && log[i].key == key && !Toggled(log[i + 1..], key)
    ensures LastValue(log, key, otherwise) == log[i].enabled
    decreases |log|
  {
    if i + 1 < |log| {
      assert log[i + 1..][|log| - i - 2] == log[|log| - 1];
      ToggledSnoc(log[i + 1..], key);
      assert log[i + 1..][..|log| - i - 2] == log[..|log| - 1][i + 1..];
      LastValueIs(log[..|log| - 1], i, key, otherwise);
    }
  }

  lemma {:induction false} LastValueConcat<K>(a: seq<Toggle<K>>, b: seq<Toggle<K>>, key: K, otherwise: bool)
    ensures LastValue(a + b, key, otherwise) == LastValue(b, key, LastValue(a, key, otherwise))
  {
    if b == [] {
      assert a + b == a;
    } else {
      LastValueConcat(a, b[..|b| - 1], key, otherwise);
      assert (a + b)[..|a + b| - 1] == a + b[..|b| - 1];
    }
  }

  /** The default matters exactly for keys that were not toggled. */
  lemma {:induction false} LastValueDefault<K>(log: seq<Toggle<K>>, key: K, a: bool, b: bool)
    ensures !Toggled(log, key) ==> LastValue(log, key, a) == a
    ensures LastValue(log, key, a) == LastValue(log, key, b) <==> Toggled(log, key) || a == b
  {
    if log != [] {
      LastValueDefault(log[..|log| - 1], key, a, b);
      ToggledSnoc(log, key);
    }
  }

  /** Whether `key` is on after the first `n` toggles; `on` are the keys that were on before the log. */
  function EnabledAt<K(==)>(on: set<K>, log: seq<Toggle<K>>, n: int, key: K): bool
    requires 0 <= n <= |log|
  {
    LastValue(log[..n], key, key in on)
  }

  lemma EnabledLater<K>(on: set<K>, log: seq<Toggle<K>>, p: int, d: int, key: K)
    requires 0 <= p <= d <= |log|
    ensures EnabledAt(on, log, d, key) == LastValue(log[p..d], key, EnabledAt(on, log, p, key))
  {
    assert log[..d] == log[..p] + log[p..d];
    LastValueConcat(log[..p], log[p..d], key, key in on);
  }

  /** Replaying the toggles `p..d` over an older value gives the value after `d` exactly if the key is
      toggled among them or the older value was the one at `p`. */
  lemma ReplayExactly<K>(on: set<K>, log: seq<Toggle<K>>, p: int, d: int, key: K, older: bool)
    requires 0 <= p <= d <= |log|
    ensures LastValue(log[p..d], key, older) == EnabledAt(on, log, d, key) <==>
            Toggled(log[p..d], key) || older == EnabledAt(on, log, p, key)
  {
    EnabledLater(on, log, p, d, key);
    LastValueDefault(log[p..d], key, older, EnabledAt(on, log, p, key));
  }

  /** A value taken at `p` or later always qualifies, although toggles it already reflects are replayed over it. */
  lemma ReplayOverLater<K>(on: set<K>, log: seq<Toggle<K>>, p: int, s: int, d: int, key: K)
    requires 0 <= p <= s <= d <= |log|
    ensures LastValue(log[p..d], key, EnabledAt(on, log, s, key)) == EnabledAt(on, log, d, key)
  {
    ReplayExactly(on, log, p, d, key, EnabledAt(on, log, s, key));
    if !Toggled(log[p..d], key) {
      assert log[p..d][..s - p] == log[p..s];
      assert Toggled(log[p..s], key) ==> Toggled(log[p..d], key);
      EnabledLater(on, log, p, s, key);
      LastValueDefault(log[p..s], key, EnabledAt(on, log, p, key), false);
    }
  }
}
