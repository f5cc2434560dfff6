/** Dictionary inversion (each value becomes a key for its old key) on a map with distinct values. */
module Maps {

  predicate Injective<K, V(==)>(m: map<K, V>) {
    forall a, b :: a in m && b in m && m[a] == m[b] ==> a == b
  }

  /**
   * Swaps keys and values. When two keys share a value Python keeps the one
   * enumerated last; the maps inverted in this system have distinct values,
   * so that case is excluded here.
   */
  function Invert<K, V(==)>(m: map<K, V>): (r: map<V, K>)
    requires Injective(m)
    ensures r.Keys == m.Values
    ensures forall k :: k in m ==> m[k] in r && r[m[k]] == k
    ensures forall v :: v in r ==> r[v] in m && m[r[v]] == v
  {
    var r := map v | v in m.Values :: var k :| k in m && m[k] == v; k;
    forall v | v in r ensures r[v] in m && m[r[v]] == v {
      var k :| k in m && m[k] == v;
      assert r[v] == k;
    }
    forall k | k in m ensures m[k] in r && r[m[k]] == k {
      assert m[k] in m.Values;
      var k' :| k' in m && m[k'] == m[k];
      assert r[m[k]] == k';
      assert k' == k;
    }
    r
  }

  /** The inverse is injective again, and inverting twice gives the map back. */
  lemma InvertInvert<K, V>(m: map<K, V>)
    requires Injective(m)
    ensures Injective(Invert(m)) && Invert(Invert(m)) == m
  {
    var r := Invert(m);
    assert Injective(r);
    var rr := Invert(r);
    assert rr.Keys == m.Keys;
    forall k | k in m ensures rr[k] == m[k] {
      assert r[m[k]] == k;
    }
  }
}
