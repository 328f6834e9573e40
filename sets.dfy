/**
  Maps from keys to sets, as the generator keeps its FIRST and FOLLOW tables, and the
  finite measure that makes their "grow until nothing changes" loops terminate.
*/
module Sets {

  /** A key without an entry reads as the empty set. */
  function Get<K(!new), V>(m: map<K, set<V>>, k: K): set<V> {
    if k in m then m[k] else {}
  }

  /** Inserts the elements of `s` into the set stored under `k`. */
  function Add<K(!new), V>(m: map<K, set<V>>, k: K, s: set<V>): (r: map<K, set<V>>)
    ensures Get(r, k) == Get(m, k) + s
    ensures forall k' :: k' != k ==> Get(r, k') == Get(m, k')
    ensures s <= Get(m, k) ==> r == m
  {
    if s <= Get(m, k) then m else m[k := Get(m, k) + s]
  }

  /** No set of `m1` is larger than the set under the same key in `m2`. */
  ghost predicate Grows<K(!new), V>(m1: map<K, set<V>>, m2: map<K, set<V>>) {
    forall k :: Get(m1, k) <= Get(m2, k)
  }

  /** Every element stored in `m`. */
  ghost function Vals<K(!new), V>(m: map<K, set<V>>): set<V> {
    set k, v | k in m && v in m[k] :: v
  }

  lemma ValsCover<K(!new), V>(m: map<K, set<V>>, k: K)
    ensures Get(m, k) <= Vals(m)
  {
    if k in m {
      forall v | v in m[k] ensures v in Vals(m) {
        assert k in m && v in m[k];
      }
    }
  }

  /** The two maps store the same set under every key, missing keys reading as empty. */
  ghost predicate SameSets<K(!new), V>(m1: map<K, set<V>>, m2: map<K, set<V>>) {
    forall k :: Get(m1, k) == Get(m2, k)
  }

  lemma ValsUpdate<K(!new), V>(m: map<K, set<V>>, k: K, s: set<V>)
    ensures Vals(m[k := s]) <= Vals(m) + s
  {
    forall v | v in Vals(m[k := s]) ensures v in Vals(m) + s {
      var k' :| k' in m[k := s] && v in m[k := s][k'];
      if k' != k {
        assert k' in m && v in m[k'];
      }
    }
  }

  ghost predicate Within<K(!new), V>(m: map<K, set<V>>, univ: set<V>) {
    forall k :: Get(m, k) <= univ
  }

  lemma ValsWithin<K(!new), V>(m: map<K, set<V>>, univ: set<V>)
    requires Within(m, univ)
    ensures Vals(m) <= univ
  {
    forall v | v in Vals(m) ensures v in univ {
      var k :| k in m && v in m[k];
      assert v in Get(m, k);
    }
  }

  /** The (key, element) pairs of `m` over a fixed finite universe of keys and elements. */
  ghost function Pairs<K(!new), V>(keys: set<K>, univ: set<V>, m: map<K, set<V>>): set<(K, V)> {
    set k, v | k in keys && v in univ && v in Get(m, k) :: (k, v)
  }

  ghost function AllPairs<K(!new), V>(keys: set<K>, univ: set<V>): set<(K, V)> {
    set k, v | k in keys && v in univ :: (k, v)
  }

  lemma PairsBounded<K(!new), V>(keys: set<K>, univ: set<V>, m: map<K, set<V>>)
    ensures Pairs(keys, univ, m) <= AllPairs(keys, univ)
  {
  }

  lemma PairsMono<K(!new), V>(keys: set<K>, univ: set<V>, m1: map<K, set<V>>, m2: map<K, set<V>>)
    requires Grows(m1, m2)
    ensures Pairs(keys, univ, m1) <= Pairs(keys, univ, m2)
  {
    forall p | p in Pairs(keys, univ, m1) ensures p in Pairs(keys, univ, m2) {
      assert Get(m1, p.0) <= Get(m2, p.0);
    }
  }

  /** A new element under a counted key makes the pair set strictly larger. */
  lemma PairsGrow<K(!new), V>(keys: set<K>, univ: set<V>, m1: map<K, set<V>>, m2: map<K, set<V>>, k: K, v: V)
    requires Grows(m1, m2)
    requires k in keys && v in univ && v in Get(m2, k) && v !in Get(m1, k)
    ensures Pairs(keys, univ, m1) < Pairs(keys, univ, m2)
  {
    PairsMono(keys, univ, m1, m2);
    assert (k, v) in Pairs(keys, univ, m2);
  }

  lemma PairsSame<K(!new), V>(keys: set<K>, univ: set<V>, m1: map<K, set<V>>, m2: map<K, set<V>>)
    requires SameSets(m1, m2)
    ensures Pairs(keys, univ, m1) == Pairs(keys, univ, m2)
  {
    PairsMono(keys, univ, m1, m2);
    PairsMono(keys, univ, m2, m1);
  }

  /** A strictly growing pair set leaves strictly fewer pairs to add. */
  lemma PairsProgress<K(!new), V>(keys: set<K>, univ: set<V>, m1: map<K, set<V>>, m2: map<K, set<V>>)
    requires Pairs(keys, univ, m1) < Pairs(keys, univ, m2)
    ensures AllPairs(keys, univ) - Pairs(keys, univ, m2) < AllPairs(keys, univ) - Pairs(keys, univ, m1)
  {
    PairsBounded(keys, univ, m2);
    var p :| p in Pairs(keys, univ, m2) && p !in Pairs(keys, univ, m1);
    assert p in AllPairs(keys, univ) - Pairs(keys, univ, m1);
  }

  lemma SubsetOfSameSize<T>(a: set<T>, b: set<T>)
    requires a <= b && |a| == |b|
    ensures a == b
  {
    assert b == a + (b - a);
    assert |b - a| == 0;
  }

  /** A map that only grew at key `k`: it grew everywhere, and stored the same sets iff `k` kept its set. */
  lemma GrewAtOne<K(!new), V>(m1: map<K, set<V>>, m2: map<K, set<V>>, k: K)
    requires forall n :: n != k ==> Get(m2, n) == Get(m1, n)
    requires Get(m1, k) <= Get(m2, k)
    ensures Grows(m1, m2)
    ensures SameSets(m1, m2) <==> Get(m1, k) == Get(m2, k)
  {
  }

  /** A set that grew, in size, by elements of `pool` leaves fewer elements of `pool` outside it. */
  lemma PoolShrinks<T>(pool: set<T>, a: set<T>, b: set<T>)
    requires a <= b && |a| != |b| && b - a <= pool
    ensures pool - b < pool - a
  {
    var x :| x in b - a by {
      assert b == a + (b - a);
    }
    assert x in pool - a;
  }
}
