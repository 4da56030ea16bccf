/** The part of a JavaScript `Map` the store relies on: a key order that
    records first insertion, next to the key-value mapping itself. A map is
    represented by a key sequence `keys` and a Dafny `map`. */
module OrderedMap {

  /** No key occurs twice. */
  predicate Distinct<K(==)>(s: seq<K>)
  {
    forall i, j :: 0 <= i < j < |s| ==> s[i] != s[j]
  }

  /** `keys` lists every key of `m` exactly once. */
  predicate WellFormed<K(==), V>(keys: seq<K>, m: map<K, V>)
  {
    && Distinct(keys)
    && (forall k :: k in m ==> k in keys)
    && (forall k :: k in keys ==> k in m)
  }

  /** `Array.from(m.entries())`: the pairs in key order. */
  function Entries<K(==), V>(keys: seq<K>, m: map<K, V>): (r: seq<(K, V)>)
    requires forall k :: k in keys ==> k in m
    ensures |r| == |keys|
    ensures forall i :: 0 <= i < |keys| ==> r[i].0 == keys[i] && r[i].1 == m[keys[i]]
  {
    if keys == [] then [] else [(keys[0], m[keys[0]])] + Entries(keys[1..], m)
  }

  /** Dropping the last element of a distinct sequence leaves it distinct,
      and the dropped element is not among the rest. */
  lemma DistinctFront<K>(s: seq<K>)
    requires Distinct(s) && s != []
    ensures Distinct(s[..|s| - 1]) && s[|s| - 1] !in s[..|s| - 1]
  {
    var front := s[..|s| - 1];
    forall i, j | 0 <= i < j < |front| ensures front[i] != front[j] {
      assert front[i] == s[i] && front[j] == s[j];
    }
  }

  /** `m.set(k, v)`: a new key goes to the end of the order, an existing key
      keeps its place and gets the new value. */
  function Put<K(==), V>(keys: seq<K>, m: map<K, V>, k: K, v: V): (seq<K>, map<K, V>)
  {
    (if k in m then keys else keys + [k], m[k := v])
  }

  lemma PutWellFormed<K, V>(keys: seq<K>, m: map<K, V>, k: K, v: V)
    requires WellFormed(keys, m)
    ensures WellFormed(Put(keys, m, k, v).0, Put(keys, m, k, v).1)
  {
  }

  /** Some entry of `e` has key `k`. */
  predicate Lists<K(==), V>(e: seq<(K, V)>, k: K)
  {
    exists i :: 0 <= i < |e| && e[i].0 == k
  }

  /** No entry after the i-th has the i-th entry's key. */
  predicate IsLastPair<K(==), V>(e: seq<(K, V)>, i: int)
    requires 0 <= i < |e|
  {
    forall j :: i < j < |e| ==> e[j].0 != e[i].0
  }

  /** `new Map(entries)`: the entries put one after the other, from the first.
      The result is a well-formed map holding every listed key;
      `FromEntriesOnlyListed` and `FromEntriesLastWins` add that it holds no
      other key and gives each key the value of its last entry. */
  function FromEntries<K(==), V>(e: seq<(K, V)>): (r: (seq<K>, map<K, V>))
    ensures WellFormed(r.0, r.1)
    ensures forall i :: 0 <= i < |e| ==> e[i].0 in r.1
    decreases |e|
  {
    if e == [] then ([], map[])
    else
      var front := e[..|e| - 1];
      var prefix := FromEntries(front);
      PutWellFormed(prefix.0, prefix.1, e[|e| - 1].0, e[|e| - 1].1);
      assert forall i :: 0 <= i < |front| ==> front[i] == e[i];
      Put(prefix.0, prefix.1, e[|e| - 1].0, e[|e| - 1].1)
  }

  /** The `Map` built from an entries list holds only keys the list names. */
  lemma {:induction false} FromEntriesOnlyListed<K, V>(e: seq<(K, V)>)
    ensures forall k :: k in FromEntries(e).1 ==> Lists(e, k)
  {
    if e != [] {
      var n := |e| - 1;
      var front := e[..n];
      FromEntriesOnlyListed(front);
      forall k | k in FromEntries(e).1 ensures Lists(e, k) {
        if k != e[n].0 {
          assert k in FromEntries(front).1;
          var i :| 0 <= i < |front| && front[i].0 == k;
          assert e[i].0 == k;
        }
      }
    }
  }

  /** Each key of the `Map` built from an entries list holds the value of
      the last entry naming it: a later `set` of a key overwrites the
      earlier one. */
  lemma {:induction false} FromEntriesLastWins<K, V>(e: seq<(K, V)>)
    ensures forall i :: 0 <= i < |e| && IsLastPair(e, i) ==> FromEntries(e).1[e[i].0] == e[i].1
  {
    if e != [] {
      var n := |e| - 1;
      var front := e[..n];
      FromEntriesLastWins(front);
      forall i | 0 <= i < |e| && IsLastPair(e, i) ensures FromEntries(e).1[e[i].0] == e[i].1 {
        if i < n {
          assert e[i] == front[i];
          assert e[n].0 != e[i].0;
          assert IsLastPair(front, i) by {
            forall j | i < j < |front| ensures front[j].0 != front[i].0 {
              assert front[j] == e[j];
            }
          }
        }
      }
    }
  }

  /** The keys of an entries list, in list order, repeats included. */
  function KeysOf<K, V>(e: seq<(K, V)>): (r: seq<K>)
    ensures |r| == |e| && forall i :: 0 <= i < |e| ==> r[i] == e[i].0
  {
    if e == [] then [] else KeysOf(e[..|e| - 1]) + [e[|e| - 1].0]
  }

  /** The i-th entry is the first one with key `k`. */
  predicate FirstAt<K(==), V>(e: seq<(K, V)>, k: K, i: int)
  {
    0 <= i < |e| && e[i].0 == k && forall j :: 0 <= j < i ==> e[j].0 != k
  }

  /** A first entry before the last one is the first entry in the list
      without its last entry. */
  lemma FirstAtFront<K, V>(e: seq<(K, V)>, k: K, i: int)
    requires FirstAt(e, k, i) && i < |e| - 1
    ensures FirstAt(e[..|e| - 1], k, i)
  {
  }

  /** The keys of the `Map` built from an entries list are in the order of
      their first entries: a later `set` of a key already present does not
      move it. */
  lemma {:induction false} FromEntriesFirstOrder<K, V>(e: seq<(K, V)>)
    ensures forall a, b, i, j ::
              (0 <= a < b < |FromEntries(e).0| &&
               FirstAt(e, FromEntries(e).0[a], i) && FirstAt(e, FromEntries(e).0[b], j)) ==> i < j
  {
    if e != [] {
      var n := |e| - 1;
      var front, x := e[..n], e[n];
      assert e == front + [x];
      FromEntriesFirstOrder(front);
      FromEntriesOnlyListed(front);
      FromEntriesSnoc(front, x);
      var p := FromEntries(front);
      var r := FromEntries(e);
      assert r == Put(p.0, p.1, x.0, x.1);
      // a key already held first appears before the appended entry
      forall a, i | 0 <= a < |p.0| && FirstAt(e, p.0[a], i) ensures i < n && FirstAt(front, p.0[a], i) {
        FirstAtFront(e, p.0[a], i);
      }
      forall a, b, i, j | 0 <= a < b < |r.0| && FirstAt(e, r.0[a], i) && FirstAt(e, r.0[b], j)
        ensures i < j
      {
        assert r.0[a] == p.0[a];
        if b < |p.0| {
          assert r.0[b] == p.0[b];
        } else {
          assert r.0 == p.0 + [x.0] && r.0[b] == x.0;
        }
      }
    }
  }

  /** No entry of `e` has key `k`, so the built `Map` does not hold it. */
  lemma NotListedNotIn<K, V>(e: seq<(K, V)>, k: K)
    requires forall i :: 0 <= i < |e| ==> e[i].0 != k
    ensures k !in FromEntries(e).1
  {
    FromEntriesOnlyListed(e);
  }

  /** A list whose keys are distinct builds a `Map` with exactly that key
      order. */
  lemma {:induction false} FromEntriesDistinctOrder<K, V>(e: seq<(K, V)>)
    requires Distinct(KeysOf(e))
    ensures FromEntries(e).0 == KeysOf(e)
  {
    if e != [] {
      var n := |e| - 1;
      var front, x := e[..n], e[n];
      var ks := KeysOf(e);
      assert ks == KeysOf(front) + [x.0];
      DistinctFront(ks);
      assert ks[..n] == KeysOf(front);
      FromEntriesDistinctOrder(front);
      forall i | 0 <= i < |front| ensures front[i].0 != x.0 {
        assert KeysOf(front)[i] == front[i].0;
      }
      NotListedNotIn(front, x.0);
      assert e == front + [x];
      FromEntriesSnoc(front, x);
    }
  }

  /** `keys.filter(k => k !== x)`. */
  function Without<K(==)>(s: seq<K>, x: K): (r: seq<K>)
    ensures forall y :: y in r ==> y in s && y != x
    ensures forall y :: y in s && y != x ==> y in r
    ensures x !in s ==> r == s
  {
    if s == [] then []
    else if s[0] == x then Without(s[1..], x)
    else [s[0]] + Without(s[1..], x)
  }

  /** Filtering keeps the keys distinct. */
  lemma {:induction false} WithoutDistinct<K>(s: seq<K>, x: K)
    requires Distinct(s)
    ensures Distinct(Without(s, x))
  {
    if s != [] {
      WithoutDistinct(s[1..], x);
      if s[0] != x {
        var r := Without(s[1..], x);
        assert s[0] !in r;
        forall i, j | 0 <= i < j < |[s[0]] + r| ensures ([s[0]] + r)[i] != ([s[0]] + r)[j] {
          if i > 0 {
            assert ([s[0]] + r)[i] == r[i - 1];
          }
        }
      }
    }
  }

  /** Filtering out a key that occurs once, at position i, keeps the other
      keys in their relative order: it cuts out exactly that position. */
  lemma {:induction false} WithoutCutsOut<K>(s: seq<K>, i: nat)
    requires Distinct(s) && i < |s|
    ensures Without(s, s[i]) == s[..i] + s[i + 1..]
  {
    if i == 0 {
      assert s[i] !in s[1..];
      assert s[1..] == s[..0] + s[1..];
    } else {
      WithoutCutsOut(s[1..], i - 1);
      assert s[1..][i - 1] == s[i];
      assert s[1..][..i - 1] == s[1..i];
      assert s[1..][i..] == s[i + 1..];
      assert s[..i] == [s[0]] + s[1..i];
    }
  }

  /** Putting every entry of a well-formed map back into an empty map gives
      the same map with the same key order. */
  lemma RoundTrip<K, V>(keys: seq<K>, m: map<K, V>)
    requires WellFormed(keys, m)
    ensures FromEntries(Entries(keys, m)) == (keys, m)
  {
    RebuildKeys(keys, m);
    var r := FromEntries(Entries(keys, m));
    SameKeysSameMap(keys, r.1, m);
  }

  /** Two maps listed by the same keys, agreeing on every key, are equal. */
  lemma SameKeysSameMap<K, V>(keys: seq<K>, a: map<K, V>, m: map<K, V>)
    requires WellFormed(keys, a) && WellFormed(keys, m)
    requires forall k :: k in a ==> a[k] == m[k]
    ensures a == m
  {
    assert a.Keys == m.Keys;
  }

  /** Rebuilding from the entries of some distinct keys gives those keys, in
      order, each with its value in m. */
  lemma {:induction false} RebuildKeys<K, V>(keys: seq<K>, m: map<K, V>)
    requires Distinct(keys) && forall k :: k in keys ==> k in m
    ensures FromEntries(Entries(keys, m)).0 == keys
    ensures forall k :: k in FromEntries(Entries(keys, m)).1 ==>
              k in keys && FromEntries(Entries(keys, m)).1[k] == m[k]
  {
    if keys != [] {
      var n := |keys| - 1;
      var front, last := keys[..n], keys[n];
      assert keys == front + [last];
      DistinctFront(keys);
      RebuildKeys(front, m);
      EntriesSnoc(front, last, m);
      FromEntriesSnoc(Entries(front, m), (last, m[last]));
      assert last !in front;
    }
  }

  lemma FromEntriesSnoc<K, V>(e: seq<(K, V)>, x: (K, V))
    ensures FromEntries(e + [x]) == Put(FromEntries(e).0, FromEntries(e).1, x.0, x.1)
  {
    assert (e + [x])[..|e|] == e;
  }

  lemma {:induction false} EntriesSnoc<K, V>(keys: seq<K>, k: K, m: map<K, V>)
    requires forall x :: x in keys ==> x in m
    requires k in m
    ensures Entries(keys + [k], m) == Entries(keys, m) + [(k, m[k])]
  {
  }
}
