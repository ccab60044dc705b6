/**
 * The insertion-ordered map (`IndexMap`) used for dictionaries and setting
 * sections: a sequence of key/value pairs in iteration order.
 */
module OrderedMap {
  import opened Wrappers

  /** The keys, in iteration order. */
  function Keys<K, V>(m: seq<(K, V)>): (ks: seq<K>)
    ensures |ks| == |m|
    ensures forall i | 0 <= i < |m| :: ks[i] == m[i].0
  {
    seq(|m|, i requires 0 <= i < |m| => m[i].0)
  }

  /** No key occurs twice: the invariant every `IndexMap` keeps. */
  predicate UniqueKeys<K(==), V>(m: seq<(K, V)>) {
    forall i, j | 0 <= i < j < |m| :: m[i].0 != m[j].0
  }

  /** `IndexMap::get`: the value stored under k, if any. */
  function Get<K(==), V>(m: seq<(K, V)>, k: K): (r: Option<V>)
    ensures r.None? <==> k !in Keys(m)
    ensures r.Some? ==> exists i | 0 <= i < |m| :: m[i] == (k, r.value)
  {
    if m == [] then None
    else if m[0].0 == k then Some(m[0].1)
    else
      assert Keys(m) == [m[0].0] + Keys(m[1..]);
      var r := Get(m[1..], k);
      assert r.Some? ==> exists i | 0 <= i < |m[1..]| :: m[1..][i] == (k, r.value);
      r
  }

  /**
   * `IndexMap::insert`: a new key goes to the end; an existing key keeps its
   * position and takes the new value.
   */
  function Insert<K(==), V>(m: seq<(K, V)>, k: K, v: V): (r: seq<(K, V)>)
    ensures k !in Keys(m) ==> r == m + [(k, v)]
    ensures k in Keys(m) ==> |r| == |m| && Keys(r) == Keys(m)
  {
    if m == [] then [(k, v)]
    else if m[0].0 == k then [(k, v)] + m[1..]
    else
      assert Keys(m) == [m[0].0] + Keys(m[1..]);
      var r := [m[0]] + Insert(m[1..], k, v);
      assert Keys(r) == [m[0].0] + Keys(Insert(m[1..], k, v));
      r
  }

  /** After inserting, k maps to v and every other key to what it mapped to before. */
  lemma {:induction false} GetInsert<K, V>(m: seq<(K, V)>, k: K, v: V, k': K)
    ensures Get(Insert(m, k, v), k') == if k' == k then Some(v) else Get(m, k')
  {
    if m != [] && m[0].0 != k {
      GetInsert(m[1..], k, v, k');
    }
  }

  /** Inserting adds no pair other than (k, v). */
  lemma {:induction false} InsertElements<K, V>(m: seq<(K, V)>, k: K, v: V)
    ensures forall i | 0 <= i < |Insert(m, k, v)| :: Insert(m, k, v)[i] in m || Insert(m, k, v)[i] == (k, v)
  {
    if m != [] && m[0].0 != k {
      InsertElements(m[1..], k, v);
      var tail := Insert(m[1..], k, v);
      assert Insert(m, k, v) == [m[0]] + tail;
      assert forall i | 0 <= i < |tail| :: tail[i] in m[1..] ==> tail[i] in m;
    }
  }

  /** Inserting keeps a map free of duplicate keys. */
  lemma InsertKeepsUniqueKeys<K, V>(m: seq<(K, V)>, k: K, v: V)
    requires UniqueKeys(m)
    ensures UniqueKeys(Insert(m, k, v))
  {
    var r := Insert(m, k, v);
    if k in Keys(m) {
      InsertElements(m, k, v);
      forall i, j | 0 <= i < j < |r| ensures r[i].0 != r[j].0 {
        assert Keys(r)[i] == Keys(m)[i] && Keys(r)[j] == Keys(m)[j];
      }
    }
  }

  /** The map built by inserting each pair of m in turn, its value passed through f. */
  function InsertEach<K(==), A, B>(m: seq<(K, A)>, f: A -> B): seq<(K, B)>
    decreases |m|
  {
    if m == [] then []
    else Insert(InsertEach(m[..|m| - 1], f), m[|m| - 1].0, f(m[|m| - 1].1))
  }

  /** Without repeated keys nothing is merged: entry i is pair i, its value through f. */
  lemma {:induction false} InsertEachInOrder<K, A, B>(m: seq<(K, A)>, f: A -> B)
    requires UniqueKeys(m)
    ensures |InsertEach(m, f)| == |m|
    ensures forall i | 0 <= i < |m| :: InsertEach(m, f)[i] == (m[i].0, f(m[i].1))
    decreases |m|
  {
    if m != [] {
      var init := m[..|m| - 1];
      var last := m[|m| - 1];
      assert forall i | 0 <= i < |init| :: init[i] == m[i];
      InsertEachInOrder(init, f);
      var prior := InsertEach(init, f);
      assert last.0 !in Keys(prior) by {
        forall k | 0 <= k < |prior|
          ensures Keys(prior)[k] != last.0
        {
          assert Keys(prior)[k] == m[k].0;
        }
      }
      var r := InsertEach(m, f);
      assert r == prior + [(last.0, f(last.1))];
      forall i | 0 <= i < |m|
        ensures r[i] == (m[i].0, f(m[i].1))
      {
        if i < |init| {
          assert r[i] == prior[i];
        } else {
          LastIndex(m, r, i);
        }
      }
    }
  }

  /** Whatever the keys, every value of the built map is f of some value of m. */
  lemma {:induction false} InsertEachValues<K, A, B>(m: seq<(K, A)>, f: A -> B)
    ensures forall i | 0 <= i < |InsertEach(m, f)| :: exists j | 0 <= j < |m| :: InsertEach(m, f)[i].1 == f(m[j].1)
    decreases |m|
  {
    if m != [] {
      var init := m[..|m| - 1];
      var last := m[|m| - 1];
      InsertEachValues(init, f);
      var prior := InsertEach(init, f);
      assert forall j | 0 <= j < |init| :: init[j] == m[j];
      assert InsertEach(m, f) == Insert(prior, last.0, f(last.1));
      InsertElements(prior, last.0, f(last.1));
      forall i | 0 <= i < |InsertEach(m, f)|
        ensures exists j | 0 <= j < |m| :: InsertEach(m, f)[i].1 == f(m[j].1)
      {
        var e := InsertEach(m, f)[i];
        if e == (last.0, f(last.1)) {
          assert e.1 == f(m[|m| - 1].1);
        } else {
          var k :| 0 <= k < |prior| && prior[k] == e;
          var j :| 0 <= j < |init| && prior[k].1 == f(init[j].1);
          assert e.1 == f(m[j].1);
        }
      }
    } else {
      assert InsertEach(m, f) == [];
    }
  }

  /** Three inserts of different keys into an empty map keep their order. */
  lemma InsertThree<K, V>(k1: K, v1: V, k2: K, v2: V, k3: K, v3: V)
    requires k1 != k2 && k1 != k3 && k2 != k3
    ensures Insert(Insert(Insert([], k1, v1), k2, v2), k3, v3) == [(k1, v1), (k2, v2), (k3, v3)]
  {
    assert Keys([(k1, v1)]) == [k1];
    assert Keys([(k1, v1), (k2, v2)]) == [k1, k2];
  }

  /** Four inserts of different keys into an empty map keep their order. */
  lemma InsertFour<K, V>(k1: K, v1: V, k2: K, v2: V, k3: K, v3: V, k4: K, v4: V)
    requires k1 != k2 && k1 != k3 && k1 != k4 && k2 != k3 && k2 != k4 && k3 != k4
    ensures Insert(Insert(Insert(Insert([], k1, v1), k2, v2), k3, v3), k4, v4) == [(k1, v1), (k2, v2), (k3, v3), (k4, v4)]
  {
    InsertThree(k1, v1, k2, v2, k3, v3);
    assert Keys([(k1, v1), (k2, v2), (k3, v3)]) == [k1, k2, k3];
  }

  /** Without repeated keys, looking up the key of entry i finds entry i's value. */
  lemma {:induction false} GetAt<K, V>(m: seq<(K, V)>, i: nat)
    requires UniqueKeys(m) && i < |m|
    ensures Get(m, m[i].0) == Some(m[i].1)
  {
    if i > 0 {
      assert m[0].0 != m[i].0;
      assert UniqueKeys(m[1..]) by {
        forall a, b | 0 <= a < b < |m[1..]|
          ensures m[1..][a].0 != m[1..][b].0
        {
          assert m[1..][a] == m[a + 1] && m[1..][b] == m[b + 1];
        }
      }
      GetAt(m[1..], i - 1);
      assert m[1..][i - 1] == m[i];
    }
  }

  /** Lookups in a three-entry map of different keys. */
  lemma GetThree<K, V>(k1: K, v1: V, k2: K, v2: V, k3: K, v3: V)
    requires k1 != k2 && k1 != k3 && k2 != k3
    ensures var m := [(k1, v1), (k2, v2), (k3, v3)];
      Get(m, k1) == Some(v1) && Get(m, k2) == Some(v2) && Get(m, k3) == Some(v3)
  {
    var m := [(k1, v1), (k2, v2), (k3, v3)];
    assert m[1..] == [(k2, v2), (k3, v3)];
    assert m[1..][1..] == [(k3, v3)];
    assert Get(m[1..][1..], k3) == Some(v3);
    assert Get(m[1..], k3) == Some(v3);
  }

  /** A three-entry map of different keys has unique keys. */
  lemma UniqueThree<K, V>(k1: K, v1: V, k2: K, v2: V, k3: K, v3: V)
    requires k1 != k2 && k1 != k3 && k2 != k3
    ensures UniqueKeys([(k1, v1), (k2, v2), (k3, v3)])
  {
  }

  /** A four-entry map of different keys has unique keys. */
  lemma UniqueFour<K, V>(k1: K, v1: V, k2: K, v2: V, k3: K, v3: V, k4: K, v4: V)
    requires k1 != k2 && k1 != k3 && k1 != k4 && k2 != k3 && k2 != k4 && k3 != k4
    ensures UniqueKeys([(k1, v1), (k2, v2), (k3, v3), (k4, v4)])
  {
  }

  lemma LastIndex<T, U>(m: seq<T>, r: seq<U>, i: int)
    requires |r| == |m| && 0 <= i == |m| - 1
    ensures r[i] == r[|r| - 1] && m[i] == m[|m| - 1]
  {
  }
}
