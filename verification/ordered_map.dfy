/** The JavaScript `Map` as used by the scene builder and the render-state manager:
    a list of key/value pairs with distinct keys, kept in insertion order. `set` on a
    key already present replaces the value in place, so iteration order (`forEach`,
    `values()`) is the order in which keys were first inserted. */
module OrderedMap {
  import opened Wrappers

  /** Keys are pairwise distinct. */
  predicate UniqueKeys<K(==), V>(m: seq<(K, V)>) {
    forall i, j | 0 <= i < j < |m| :: m[i].0 != m[j].0
  }

  predicate HasKey<K(==), V>(m: seq<(K, V)>, k: K) {
    exists i | 0 <= i < |m| :: m[i].0 == k
  }

  /** Position of key `k`, if present. */
  function Find<K(==), V>(m: seq<(K, V)>, k: K): (r: Option<nat>)
    ensures r.Some? ==> r.value < |m| && m[r.value].0 == k
    ensures r.Some? ==> forall i | 0 <= i < r.value :: m[i].0 != k
    ensures r.None? <==> !HasKey(m, k)
  {
    if |m| == 0 then None
    else if m[0].0 == k then Some(0)
    else
      match Find(m[1..], k)
      case None => assert forall i | 1 <= i < |m| :: m[i] == m[1..][i - 1]; None
      case Some(i) => Some(i + 1)
  }

  /** `map.get(k)`. */
  function Get<K(==), V>(m: seq<(K, V)>, k: K): (r: Option<V>)
    ensures r.Some? <==> HasKey(m, k)
    ensures UniqueKeys(m) ==> forall i | 0 <= i < |m| && m[i].0 == k :: r == Some(m[i].1)
  {
    match Find(m, k)
    case None => None
    case Some(i) => Some(m[i].1)
  }

  /** `map.set(k, v)`: replace in place when `k` is present, append otherwise. */
  function Set<K(==,!new), V>(m: seq<(K, V)>, k: K, v: V): (r: seq<(K, V)>)
    ensures UniqueKeys(m) ==> UniqueKeys(r)
    ensures Get(r, k) == Some(v)
    ensures forall k' | k' != k :: Get(r, k') == Get(m, k')
    ensures HasKey(m, k) ==> |r| == |m| && forall i | 0 <= i < |m| :: r[i].0 == m[i].0
    ensures !HasKey(m, k) ==> r == m + [(k, v)]
    ensures UniqueKeys(m) && HasKey(m, k) ==>
      forall i | 0 <= i < |m| :: r[i] == (if m[i].0 == k then (k, v) else m[i])
  {
    match Find(m, k)
    case None =>
      AppendNewKey(m, k, v);
      m + [(k, v)]
    case Some(i) =>
      var r := m[i := (k, v)];
      assert forall j | 0 <= j < |m| :: r[j].0 == m[j].0;
      forall k' ensures Find(r, k') == Find(m, k') {
        FindSameKeys(r, m, k');
      }
      r
  }

  /** `map.values()` in iteration order. */
  function Values<K, V>(m: seq<(K, V)>): (vs: seq<V>)
    ensures |vs| == |m|
    ensures forall i | 0 <= i < |m| :: vs[i] == m[i].1
  {
    seq(|m|, i requires 0 <= i < |m| => m[i].1)
  }

  /** `map.forEach(v => <mutate v>)`: every value transformed, keys and order kept. */
  function MapValues<K, V>(m: seq<(K, V)>, f: V -> V): (r: seq<(K, V)>)
    ensures |r| == |m|
    ensures forall i | 0 <= i < |m| :: r[i] == (m[i].0, f(m[i].1))
  {
    seq(|m|, i requires 0 <= i < |m| => (m[i].0, f(m[i].1)))
  }

  /** `const v = map.get(k); if (v) <mutate v>`: only the value under `k` changes,
      and nothing at all when `k` is absent. */
  function Update<K(==,!new), V>(m: seq<(K, V)>, k: K, f: V -> V): (r: seq<(K, V)>)
    ensures |r| == |m|
    ensures forall i | 0 <= i < |m| :: r[i].0 == m[i].0
    ensures !HasKey(m, k) ==> r == m
    ensures Get(r, k) == (match Get(m, k) case Some(v) => Some(f(v)) case None => None)
    ensures forall k' | k' != k :: Get(r, k') == Get(m, k')
    ensures UniqueKeys(m) ==>
      forall i | 0 <= i < |m| :: r[i] == (if m[i].0 == k then (k, f(m[i].1)) else m[i])
  {
    match Find(m, k)
    case None => m
    case Some(i) =>
      var r := m[i := (k, f(m[i].1))];
      assert forall j | 0 <= j < |m| :: r[j].0 == m[j].0;
      assert forall k' | k' != k :: Find(r, k') == Find(m, k') by {
        forall k' | k' != k ensures Find(r, k') == Find(m, k') {
          FindSameKeys(r, m, k');
        }
      }
      r
  }

  /** `Find` only looks at keys. */
  lemma {:induction false} FindSameKeys<K, V>(a: seq<(K, V)>, b: seq<(K, V)>, k: K)
    requires |a| == |b|
    requires forall i | 0 <= i < |a| :: a[i].0 == b[i].0
    ensures Find(a, k) == Find(b, k)
  {
    if |a| > 0 && a[0].0 != k {
      FindSameKeys(a[1..], b[1..], k);
    }
  }

  /** Appending an absent key makes it the last one and moves no other key. */
  lemma AppendNewKey<K, V>(m: seq<(K, V)>, k: K, v: V)
    requires !HasKey(m, k)
    ensures Find(m + [(k, v)], k) == Some(|m|)
    ensures forall k' | k' != k :: Find(m + [(k, v)], k') == Find(m, k')
  {
    FindAppend(m, k, v, k);
    forall k' | k' != k ensures Find(m + [(k, v)], k') == Find(m, k') {
      FindAppend(m, k, v, k');
    }
  }

  /** Appending a new key does not move any key already present. */
  lemma {:induction false} FindAppend<K, V>(m: seq<(K, V)>, k: K, v: V, k': K)
    ensures Find(m + [(k, v)], k') == (if HasKey(m, k') then Find(m, k') else if k' == k then Some(|m|) else None)
  {
    var r := m + [(k, v)];
    if |m| > 0 {
      assert r[1..] == m[1..] + [(k, v)];
      FindAppend(m[1..], k, v, k');
      assert HasKey(m, k') <==> m[0].0 == k' || HasKey(m[1..], k') by {
        assert forall i | 1 <= i < |m| :: m[i] == m[1..][i - 1];
      }
    } else {
      assert r[0].0 == k;
    }
  }
}
