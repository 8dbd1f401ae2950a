/**
  A JavaScript `Map`: a finite map that also remembers the order in which its
  keys were first inserted. `set` on a present key keeps that key's place,
  `set` on a new key appends it, `delete` removes it, and `values()` walks the
  entries in key order.
 */
module OrderedMaps {

  predicate Distinct<K(==)>(s: seq<K>) {
    forall i, j :: 0 <= i < j < |s| ==> s[i] != s[j]
  }

  lemma DistinctSnoc<K>(s: seq<K>, x: K)
    requires Distinct(s + [x])
    ensures Distinct(s) && x !in s
  {
    forall i | 0 <= i < |s| ensures s[i] != x {
      assert (s + [x])[i] == s[i] && (s + [x])[|s|] == x;
    }
    forall i, j | 0 <= i < j < |s| ensures s[i] != s[j] {
      assert (s + [x])[i] == s[i] && (s + [x])[j] == s[j];
    }
  }

  /** `s` with every occurrence of `k` taken out, the rest in the same order. */
  function Without<K(==, !new)>(s: seq<K>, k: K): (r: seq<K>)
    ensures forall x :: x in r <==> x in s && x != k
    ensures Distinct(s) ==> Distinct(r)
    ensures Distinct(s) ==> |r| == if k in s then |s| - 1 else |s|
    ensures k !in s ==> r == s
    ensures Distinct(s) ==> forall i | 0 <= i < |s| && s[i] == k :: r == s[..i] + s[i + 1..]
  {
    if s == [] then []
    else
      var init, last := s[..|s| - 1], s[|s| - 1];
      assert s == init + [last];
      assert Distinct(s) ==> Distinct(init) && last !in init by {
        if Distinct(s) {
          forall i | 0 <= i < |init| ensures init[i] != last { assert init[i] == s[i]; }
        }
      }
      var rest := Without(init, k);
      var r := if last == k then rest else rest + [last];
      assert Distinct(s) ==> forall i | 0 <= i < |s| && s[i] == k :: r == s[..i] + s[i + 1..] by {
        if Distinct(s) {
          forall i | 0 <= i < |s| && s[i] == k ensures r == s[..i] + s[i + 1..] {
            if i == |s| - 1 {
              assert s[..i] == init && s[i + 1..] == [];
            } else {
              assert init[i] == k;
              assert s[..i] == init[..i];
              assert s[i + 1..] == init[i + 1..] + [last];
            }
          }
        }
      }
      r
  }

  datatype OMap<K(==, !new), V> = OMap(keys: seq<K>, entries: map<K, V>) {

    /** Every key is listed once, and the listed keys are exactly the mapped ones. */
    predicate Valid() {
      && Distinct(keys)
      && (forall k | k in entries :: k in keys)
      && (forall k | k in keys :: k in entries)
    }

    function Size(): nat {
      |keys|
    }

    predicate Has(k: K) {
      k in entries
    }

    function Get(k: K): V
      requires Has(k)
    {
      entries[k]
    }

    /** This map and `other` agree on every key except `k`. */
    ghost predicate SameOutside(other: OMap<K, V>, k: K) {
      forall k' :: k' != k ==> (Has(k') <==> other.Has(k')) && (Has(k') ==> Get(k') == other.Get(k'))
    }

    /** `map.set(k, v)`. */
    function Set(k: K, v: V): (r: OMap<K, V>)
      requires Valid()
      ensures r.Valid()
      ensures r.Has(k) && r.Get(k) == v
      ensures r.SameOutside(this, k)
      ensures Has(k) ==> r.keys == keys
      ensures !Has(k) ==> r.keys == keys + [k]
    {
      if k in entries then OMap(keys, entries[k := v]) else OMap(keys + [k], entries[k := v])
    }

    /** `map.delete(k)`. */
    function Delete(k: K): (r: OMap<K, V>)
      requires Valid()
      ensures r.Valid()
      ensures !r.Has(k)
      ensures r.SameOutside(this, k)
      ensures r.keys == Without(keys, k)
      ensures r.Size() == if Has(k) then Size() - 1 else Size()
    {
      OMap(Without(keys, k), entries - {k})
    }

    /** `Array.from(map.values())`. */
    function Values(): (vs: seq<V>)
      requires Valid()
      ensures |vs| == Size()
      ensures forall i :: 0 <= i < |keys| ==> vs[i] == entries[keys[i]]
    {
      seq(|keys|, i requires 0 <= i < |keys| => entries[keys[i]])
    }
  }

  /** A second `set` of the same key overrides the first and leaves the key where the first put it. */
  lemma SetTwice<K(!new), V>(m: OMap<K, V>, k: K, v: V, w: V)
    requires m.Valid()
    ensures m.Set(k, v).Set(k, w) == m.Set(k, w)
  {
    assert m.entries[k := v][k := w] == m.entries[k := w];
  }

  function Empty<K(==, !new), V>(): (m: OMap<K, V>)
    ensures m.Valid() && m.Size() == 0
    ensures forall k :: !m.Has(k)
  {
    OMap([], map[])
  }
}
