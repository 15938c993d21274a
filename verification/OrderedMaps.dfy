/** std::map as its key order shows it: entries sorted by a strict total order on the keys. */
module OrderedMaps {
  import opened Prelude

  type Entries<K, V> = seq<(K, V)>

  ghost predicate TotalOrder<K(!new)>(lt: (K, K) -> bool)
  {
    && (forall a, b, c | lt(a, b) && lt(b, c) :: lt(a, c))
    && (forall a, b :: lt(a, b) || a == b || lt(b, a))
    && (forall a, b | lt(a, b) :: !lt(b, a))
  }

  ghost predicate Sorted<K, V>(lt: (K, K) -> bool, m: Entries<K, V>)
  {
    forall i, j | 0 <= i < j < |m| :: lt(m[i].0, m[j].0)
  }

  /** The index of the first key after the given one. */
  function UpperBound<K, V>(lt: (K, K) -> bool, m: Entries<K, V>, key: K): (r: nat)
    ensures r <= |m|
  {
    if m == [] || lt(key, m[0].0) then 0 else 1 + UpperBound(lt, m[1..], key)
  }

  /** The index of the first key not before the given one. */
  function LowerBound<K, V>(lt: (K, K) -> bool, m: Entries<K, V>, key: K): (r: nat)
    ensures r <= |m|
  {
    if m == [] || !lt(m[0].0, key) then 0 else 1 + LowerBound(lt, m[1..], key)
  }

  lemma {:induction false} UpperBoundSplits<K(!new), V>(lt: (K, K) -> bool, m: Entries<K, V>, key: K)
    requires TotalOrder(lt) && Sorted(lt, m)
    ensures forall i | 0 <= i < UpperBound(lt, m, key) :: m[i].0 == key || lt(m[i].0, key)
    ensures forall i | UpperBound(lt, m, key) <= i < |m| :: lt(key, m[i].0)
  {
    if m != [] && !lt(key, m[0].0) {
      UpperBoundSplits(lt, m[1..], key);
      var u := UpperBound(lt, m[1..], key);
      forall i | 1 <= i < |m|
        ensures i < u + 1 ==> m[i].0 == key || lt(m[i].0, key)
        ensures u + 1 <= i ==> lt(key, m[i].0)
      {
        assert m[1..][i - 1] == m[i];
      }
    }
  }

  lemma {:induction false} LowerBoundSplits<K(!new), V>(lt: (K, K) -> bool, m: Entries<K, V>, key: K)
    requires TotalOrder(lt) && Sorted(lt, m)
    ensures forall i | 0 <= i < LowerBound(lt, m, key) :: lt(m[i].0, key)
    ensures forall i | LowerBound(lt, m, key) <= i < |m| :: !lt(m[i].0, key)
  {
    if m != [] && lt(m[0].0, key) {
      LowerBoundSplits(lt, m[1..], key);
      var u := LowerBound(lt, m[1..], key);
      forall i | 1 <= i < |m|
        ensures i < u + 1 ==> lt(m[i].0, key)
        ensures u + 1 <= i ==> !lt(m[i].0, key)
      {
        assert m[1..][i - 1] == m[i];
      }
    }
  }

  /** FindWithDefault. */
  function Lookup<K(==), V>(m: Entries<K, V>, key: K): (r: Option<V>)
    ensures r.Some? ==> (key, r.value) in m
    ensures r.None? ==> forall e | e in m :: e.0 != key
  {
    if m == [] then None
    else if m[0].0 == key then Some(m[0].1)
    else Lookup(m[1..], key)
  }

  lemma LookupFinds<K(!new), V>(lt: (K, K) -> bool, m: Entries<K, V>, key: K, v: V)
    requires TotalOrder(lt) && Sorted(lt, m) && (key, v) in m
    ensures Lookup(m, key) == Some(v)
  {
    var i :| 0 <= i < |m| && m[i] == (key, v);
    var r := Lookup(m, key);
    assert r.Some?;
    var j :| 0 <= j < |m| && m[j] == (key, r.value);
    assert i == j;
  }

  function Insert<K, V>(lt: (K, K) -> bool, m: Entries<K, V>, key: K, v: V): Entries<K, V>
  {
    var u := UpperBound(lt, m, key);
    m[..u] + [(key, v)] + m[u..]
  }

  lemma InsertAdds<K(!new), V>(lt: (K, K) -> bool, m: Entries<K, V>, key: K, v: V)
    requires TotalOrder(lt) && Sorted(lt, m) && forall e | e in m :: e.0 != key
    ensures Sorted(lt, Insert(lt, m, key, v))
    ensures forall e :: e in Insert(lt, m, key, v) <==> e == (key, v) || e in m
  {
    UpperBoundSplits(lt, m, key);
    hide TotalOrder, UpperBound;
    var u := UpperBound(lt, m, key);
    forall i | 0 <= i < u
      ensures lt(m[i].0, key)
    {
      assert m[i] in m;
    }
    PutSorted(lt, m, u, key, v);
    PutElements(m, u, (key, v));
  }

  lemma PutSorted<K(!new), V>(lt: (K, K) -> bool, m: Entries<K, V>, u: nat, key: K, v: V)
    requires Sorted(lt, m) && u <= |m|
    requires forall i | 0 <= i < u :: lt(m[i].0, key)
    requires forall i | u <= i < |m| :: lt(key, m[i].0)
    ensures Sorted(lt, m[..u] + [(key, v)] + m[u..])
  {
    var r := m[..u] + [(key, v)] + m[u..];
    forall i, j | 0 <= i < j < |r|
      ensures lt(r[i].0, r[j].0)
    {
      assert r[i] == if i < u then m[i] else if i == u then (key, v) else m[i - 1];
      assert r[j] == if j < u then m[j] else if j == u then (key, v) else m[j - 1];
    }
  }

  lemma PutElements<T>(m: seq<T>, u: nat, x: T)
    requires u <= |m|
    ensures forall e :: e in m[..u] + [x] + m[u..] <==> e == x || e in m
  {
    assert m == m[..u] + m[u..];
  }

  /** InsertIfNotPresent: nothing when the key is there already. */
  function InsertIfNotPresent<K(==), V>(lt: (K, K) -> bool, m: Entries<K, V>, key: K, v: V): Option<Entries<K, V>>
  {
    if Lookup(m, key).Some? then None else Some(Insert(lt, m, key, v))
  }
}
