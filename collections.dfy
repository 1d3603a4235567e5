/** Small facts about sequences, sets and maps that the allocator's proofs share. */
module Collections {
  /** No element occurs twice. */
  predicate Distinct<T(==)>(s: seq<T>)
  {
    forall i, j :: 0 <= i < j < |s| ==> s[i] != s[j]
  }

  /** The set of the elements of a sequence. */
  function Elements<T>(s: seq<T>): set<T>
  {
    set x | x in s
  }

  /** Appending a new element keeps a sequence free of repetitions and adds it to the set. */
  lemma AppendFresh<T>(s: seq<T>, x: T)
    requires Distinct(s) && x !in Elements(s)
    ensures Distinct(s + [x])
    ensures Elements(s + [x]) == Elements(s) + {x}
  {
    assert forall i :: 0 <= i < |s| ==> (s + [x])[i] == s[i];
  }

  /** A sequence without repetitions has as many elements as its set. */
  lemma {:induction false} DistinctCard<T>(s: seq<T>)
    requires Distinct(s)
    ensures |Elements(s)| == |s|
  {
    if |s| > 0 {
      var init := s[..|s| - 1];
      assert Elements(s) == Elements(init) + {s[|s| - 1]};
      assert forall k :: 0 <= k < |init| ==> init[k] != s[|s| - 1];
      DistinctCard(init);
    }
  }

  /** The elements of a sequence with one more element at the end. */
  lemma ElementsAppend<T>(s: seq<T>, x: T)
    ensures Elements(s + [x]) == Elements(s) + {x}
  {
    assert forall y :: y in s + [x] <==> y in s || y == x;
  }

  /** Removing a set of keys and then one more is removing them all at once. */
  lemma RemoveKeysThenKey<K, V>(m: map<K, V>, ks: set<K>, k: K)
    ensures (m - ks) - {k} == m - (ks + {k})
  {
  }

  /** Removing a present key shrinks a map by one. */
  lemma RemoveKeyCard<K, V>(m: map<K, V>, k: K)
    requires k in m
    ensures |m - {k}| == |m| - 1
  {
    assert m.Keys == (m - {k}).Keys + {k};
  }

  /** A set holding three distinct elements has at least three. */
  lemma ThreeDistinctCard<T>(x: T, y: T, z: T, s: set<T>)
    requires x != y && x != z && y != z
    requires x in s && y in s && z in s
    ensures |s| >= 3
  {
    var t := {x, y, z};
    assert |t| == 3;
    assert s == t + (s - t);
  }

  /** Every entry of `m` is also an entry, with the same value, of `m'`. */
  ghost predicate Within<K, V>(m: map<K, V>, m': map<K, V>)
  {
    forall k :: k in m ==> k in m' && m'[k] == m[k]
  }

  lemma WithinTransitive<K, V>(a: map<K, V>, b: map<K, V>, c: map<K, V>)
    requires Within(a, b) && Within(b, c)
    ensures Within(a, c)
  {
  }

  /** A map within another is no larger. */
  lemma WithinCard<K, V>(m: map<K, V>, m': map<K, V>)
    requires Within(m, m')
    ensures |m| <= |m'|
  {
    assert m.Keys <= m'.Keys;
    assert |m.Keys| <= |m'.Keys| by {
      assert m'.Keys == m.Keys + (m'.Keys - m.Keys);
    }
  }
}
