/** Iteration over Rust's `HashMap` and `HashSet`. Their order is set by a
    per-process random hash seed, so the model lets the order be any
    enumeration of the keys: each key exactly once. The order is fixed for a
    map that is not modified, so a caller that walks the same map twice walks
    it in the one enumeration it chose. */
module Collections {
  import opened Wrappers

  /** `xs` lists every element of `s` exactly once. */
  ghost predicate Enumerates<T(!new)>(xs: seq<T>, s: set<T>)
  {
    && (forall i, j :: 0 <= i < j < |xs| ==> xs[i] != xs[j])
    && (forall i :: 0 <= i < |xs| ==> xs[i] in s)
    && (forall x :: x in s ==> x in xs)
  }

  /** The order in which one walk over `s` visits its elements. */
  method IterationOrder<T(!new)>(s: set<T>) returns (xs: seq<T>)
    ensures Enumerates(xs, s)
    ensures |xs| == |s|
  {
    xs := [];
    var rest := s;
    while rest != {}
      invariant forall i :: 0 <= i < |xs| ==> xs[i] in s && xs[i] !in rest
      invariant forall x :: x in s ==> x in xs || x in rest
      invariant rest <= s
      invariant forall i, j :: 0 <= i < j < |xs| ==> xs[i] != xs[j]
      invariant |xs| + |rest| == |s|
      decreases |rest|
    {
      var x :| x in rest;
      xs := xs + [x];
      rest := rest - {x};
    }
  }

  /** Every value of `m` satisfies `ok`. */
  predicate AllValues<K, V>(m: map<K, V>, ok: V -> bool)
  {
    forall k :: k in m ==> ok(m[k])
  }

  /** Every entry of `m` satisfies `ok`. */
  predicate AllEntries<K, V>(m: map<K, V>, ok: (K, V) -> bool)
  {
    forall k :: k in m ==> ok(k, m[k])
  }

  /** A walk over `m` in its iteration order that stops at the first entry
      failing `ok` and reports that entry's key. */
  method FirstFailing<K(!new), V>(m: map<K, V>, ok: V -> bool) returns (bad: Option<K>)
    ensures bad.None? <==> AllValues(m, ok)
    ensures bad.Some? ==> bad.value in m && !ok(m[bad.value])
  {
    var keys := IterationOrder(m.Keys);
    var i := 0;
    while i < |keys|
      invariant 0 <= i <= |keys|
      invariant forall j :: 0 <= j < i ==> ok(m[keys[j]])
    {
      if !ok(m[keys[i]]) {
        return Some(keys[i]);
      }
      i := i + 1;
    }
    forall k | k in m ensures ok(m[k]) {
      var j :| 0 <= j < |keys| && keys[j] == k;
    }
    return None;
  }
}
