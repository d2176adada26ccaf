/**
 * Ruby's Hash as the library sees it: an association list whose keys are
 * pairwise distinct and whose order is insertion order. Assigning to a present
 * key keeps its position; assigning to a new key appends; deleting removes the
 * entry and keeps the order of the rest.
 */
module OrderedMaps {
  import opened Outcomes

  type OMap<K, V> = seq<(K, V)>

  /** The keys, in iteration order. */
  function Keys<K, V>(m: OMap<K, V>): (ks: seq<K>)
    ensures |ks| == |m|
    ensures forall i :: 0 <= i < |m| ==> ks[i] == m[i].0
  {
    seq(|m|, i requires 0 <= i < |m| => m[i].0)
  }

  /** No key occurs twice: the invariant of every Ruby Hash. */
  predicate DistinctKeys<K(==), V>(m: OMap<K, V>) {
    forall i, j :: 0 <= i < j < |m| ==> m[i].0 != m[j].0
  }

  /** `key?(k)` */
  predicate HasKey<K(==), V>(m: OMap<K, V>, k: K) {
    exists i :: 0 <= i < |m| && m[i].0 == k
  }

  /** The position of key `k`, or -1 when it is absent. */
  function Find<K(==), V>(m: OMap<K, V>, k: K): (i: int)
    ensures -1 <= i < |m|
    ensures i >= 0 ==> m[i].0 == k && forall j :: 0 <= j < i ==> m[j].0 != k
    ensures i == -1 <==> !HasKey(m, k)
  {
    if m == [] then -1
    else if m[0].0 == k then 0
    else
      var r := Find(m[1..], k);
      assert forall j :: 0 < j < |m| ==> m[j] == m[1..][j - 1];
      if r < 0 then -1 else r + 1
  }

  /** The first occurrence of a key is where `Find` says it is. */
  lemma FindFirst<K, V>(m: OMap<K, V>, k: K, i: int)
    requires 0 <= i < |m| && m[i].0 == k
    requires forall j :: 0 <= j < i ==> m[j].0 != k
    ensures HasKey(m, k) && Find(m, k) == i
  {
  }

  /** In a map with distinct keys, every entry is found at its own position. */
  lemma FindAt<K, V>(m: OMap<K, V>, i: int)
    requires DistinctKeys(m) && 0 <= i < |m|
    ensures HasKey(m, m[i].0) && Find(m, m[i].0) == i
  {
    FindFirst(m, m[i].0, i);
  }

  /** The value stored under `k`, if any. */
  function Get<K(==), V>(m: OMap<K, V>, k: K): (r: Option<V>)
    ensures r.Some? <==> HasKey(m, k)
    ensures r.Some? ==> m[Find(m, k)] == (k, r.value)
  {
    var i := Find(m, k);
    if i < 0 then None else Some(m[i].1)
  }

  /** `self[k] = v`: replaces in place when `k` is present, otherwise appends. */
  function Put<K(==,!new), V>(m: OMap<K, V>, k: K, v: V): (r: OMap<K, V>)
    ensures HasKey(m, k) ==> r == m[Find(m, k) := (k, v)]
    ensures !HasKey(m, k) ==> r == m + [(k, v)]
    ensures DistinctKeys(m) ==> DistinctKeys(r)
    ensures Get(r, k) == Some(v)
    ensures forall k' :: k' != k ==> Get(r, k') == Get(m, k')
    ensures forall k' :: HasKey(r, k') <==> HasKey(m, k') || k' == k
  {
    var i := Find(m, k);
    if i >= 0 then
      ReplaceAt(m, i, k, v);
      m[i := (k, v)]
    else
      AppendFresh(m, k, v);
      m + [(k, v)]
  }

  /** `r` is `s` with some entries left out, the rest in their order. */
  predicate Subsequence<T(==)>(r: seq<T>, s: seq<T>)
    decreases |s|
  {
    if r == [] then true
    else if s == [] then false
    else if r[|r| - 1] == s[|s| - 1] then Subsequence(r[..|r| - 1], s[..|s| - 1])
    else Subsequence(r, s[..|s| - 1])
  }

  /** A subsequence of all but the last element of `s` is one of `s`. */
  lemma {:induction false} SubsequenceExtend<T>(r: seq<T>, s: seq<T>)
    requires s != [] && Subsequence(r, s[..|s| - 1])
    ensures Subsequence(r, s)
    decreases |s|, 0
  {
    if r != [] && r[|r| - 1] == s[|s| - 1] {
      SubsequenceDropLast(r, s[..|s| - 1]);
    }
  }

  /** Leaving out the last element of a subsequence keeps it one. */
  lemma {:induction false} SubsequenceDropLast<T>(r: seq<T>, s: seq<T>)
    requires r != [] && Subsequence(r, s)
    ensures Subsequence(r[..|r| - 1], s)
    decreases |s|, 1
  {
    var r', s' := r[..|r| - 1], s[..|s| - 1];
    if r[|r| - 1] != s[|s| - 1] {
      SubsequenceDropLast(r, s');
    }
    SubsequenceExtend(r', s);
  }

  /** `self[k] = v` keeps the key order, appending `k` when it is new. */
  lemma KeysPut<K(!new), V>(m: OMap<K, V>, k: K, v: V)
    ensures Keys(Put(m, k, v)) == if k in Keys(m) then Keys(m) else Keys(m) + [k]
  {
    var ks, r := Keys(m), Put(m, k, v);
    if HasKey(m, k) {
      var i := Find(m, k);
      assert ks[i] == k;
      assert forall j :: 0 <= j < |r| ==> r[j].0 == m[j].0;
      assert Keys(r) == ks;
    } else {
      assert Keys(r) == ks + [k];
    }
  }

  /** Storing under a present key, at its position `i`. */
  lemma ReplaceAt<K, V>(m: OMap<K, V>, i: int, k: K, v: V)
    requires 0 <= i < |m| && m[i].0 == k && forall j :: 0 <= j < i ==> m[j].0 != k
    ensures DistinctKeys(m) ==> DistinctKeys(m[i := (k, v)])
    ensures Get(m[i := (k, v)], k) == Some(v)
    ensures forall k' :: k' != k ==> Get(m[i := (k, v)], k') == Get(m, k')
    ensures forall k' :: HasKey(m[i := (k, v)], k') <==> HasKey(m, k') || k' == k
  {
    var r := m[i := (k, v)];
    FindFirst(r, k, i);
    forall k' | k' != k ensures Get(r, k') == Get(m, k') && (HasKey(r, k') <==> HasKey(m, k')) {
      if HasKey(m, k') {
        FindFirst(r, k', Find(m, k'));
      } else {
        forall p | 0 <= p < |r| ensures r[p].0 != k' {
          assert p == i || r[p] == m[p];
        }
      }
    }
    forall k' ensures HasKey(r, k') <==> HasKey(m, k') || k' == k {
      assert HasKey(m, k);
    }
  }

  /** Storing under a new key appends the entry. */
  lemma AppendFresh<K, V>(m: OMap<K, V>, k: K, v: V)
    requires !HasKey(m, k)
    ensures DistinctKeys(m) ==> DistinctKeys(m + [(k, v)])
    ensures Get(m + [(k, v)], k) == Some(v)
    ensures forall k' :: k' != k ==> Get(m + [(k, v)], k') == Get(m, k')
    ensures forall k' :: HasKey(m + [(k, v)], k') <==> HasKey(m, k') || k' == k
  {
    var r := m + [(k, v)];
    assert forall p :: 0 <= p < |m| ==> r[p] == m[p];
    FindFirst(r, k, |m|);
    forall k' | k' != k ensures Get(r, k') == Get(m, k') && (HasKey(r, k') <==> HasKey(m, k')) {
      if HasKey(m, k') {
        FindFirst(r, k', Find(m, k'));
      } else {
        forall p | 0 <= p < |r| ensures r[p].0 != k' {
          assert p == |m| || r[p] == m[p];
        }
      }
    }
  }

  /** `delete(k)` (the receiver's new state): removes the entry for `k`, if any. */
  function Delete<K(==,!new), V>(m: OMap<K, V>, k: K): (r: OMap<K, V>)
    ensures HasKey(m, k) ==> r == m[..Find(m, k)] + m[Find(m, k) + 1..]
    ensures !HasKey(m, k) ==> r == m
    ensures DistinctKeys(m) ==> DistinctKeys(r) && !HasKey(r, k)
    ensures forall k' :: k' != k ==> Get(r, k') == Get(m, k')
  {
    var i := Find(m, k);
    if i < 0 then m
    else
      var r := m[..i] + m[i + 1..];
      RemoveAtDistinct(m, i);
      forall k' | k' != k ensures Get(r, k') == Get(m, k') {
        RemoveAtGet(m, i, k');
      }
      r
  }

  /** The entries left once position `i` is removed. */
  lemma RemoveAtShift<K, V>(m: OMap<K, V>, i: int)
    requires 0 <= i < |m|
    ensures |m[..i] + m[i + 1..]| == |m| - 1
    ensures forall j :: 0 <= j < |m| - 1 ==> (m[..i] + m[i + 1..])[j] == if j < i then m[j] else m[j + 1]
  {
  }

  /** Removing one entry of a map with distinct keys keeps them distinct and drops that key. */
  lemma RemoveAtDistinct<K, V>(m: OMap<K, V>, i: int)
    requires 0 <= i < |m|
    ensures DistinctKeys(m) ==> DistinctKeys(m[..i] + m[i + 1..]) && !HasKey(m[..i] + m[i + 1..], m[i].0)
  {
    var r := m[..i] + m[i + 1..];
    RemoveAtShift(m, i);
    if DistinctKeys(m) {
      forall a, b | 0 <= a < b < |r| ensures r[a].0 != r[b].0 {
        var a', b' := if a < i then a else a + 1, if b < i then b else b + 1;
        assert r[a] == m[a'] && r[b] == m[b'];
      }
      forall p | 0 <= p < |r| ensures r[p].0 != m[i].0 {
        assert r[p] == m[if p < i then p else p + 1];
      }
    }
  }

  /** Removing the entry at `i` leaves every other key's value as it was. */
  lemma RemoveAtGet<K, V>(m: OMap<K, V>, i: int, k': K)
    requires 0 <= i < |m| && m[i].0 != k'
    ensures Get(m[..i] + m[i + 1..], k') == Get(m, k')
  {
    var r := m[..i] + m[i + 1..];
    RemoveAtShift(m, i);
    if HasKey(m, k') {
      var j := Find(m, k');
      FindFirst(r, k', if j < i then j else j - 1);
    } else {
      forall p | 0 <= p < |r| ensures r[p].0 != k' {
        assert r[p] == m[if p < i then p else p + 1];
      }
    }
  }

  /** `merge(other)`: the entries of `o` stored into `m` one by one, in `o`'s order. */
  function Merge<K(==,!new), V>(m: OMap<K, V>, o: OMap<K, V>): (r: OMap<K, V>)
    ensures DistinctKeys(m) ==> DistinctKeys(r)
    ensures forall k :: HasKey(r, k) <==> HasKey(m, k) || HasKey(o, k)
    ensures forall k :: DistinctKeys(o) && HasKey(o, k) ==> Get(r, k) == Get(o, k)
    ensures forall k :: !HasKey(o, k) ==> Get(r, k) == Get(m, k)
  {
    if o == [] then m
    else
      var init := o[..|o| - 1];
      var (k, v) := o[|o| - 1];
      var r := Put(Merge(m, init), k, v);
      assert forall j :: 0 <= j < |init| ==> init[j] == o[j];
      forall k' ensures HasKey(o, k') <==> HasKey(init, k') || k' == k {
        if HasKey(o, k') && k' != k {
          assert Find(o, k') < |o| - 1;
        }
      }
      forall k' | DistinctKeys(o) && HasKey(o, k') ensures Get(r, k') == Get(o, k') {
        if k' == k {
          FindAt(o, |o| - 1);
        } else {
          FindFirst(init, k', Find(o, k'));
        }
      }
      forall k' ensures HasKey(r, k') <==> HasKey(m, k') || HasKey(o, k') {
        assert HasKey(r, k') <==> Get(r, k').Some?;
      }
      r
  }

  /** `merge` stores the last entry of `o` after the others. */
  lemma MergeLast<K(!new), V>(m: OMap<K, V>, o: OMap<K, V>)
    requires o != []
    ensures Merge(m, o) == Put(Merge(m, o[..|o| - 1]), o[|o| - 1].0, o[|o| - 1].1)
  {
  }

  /** The prefix of length `n`, less its last element, is the prefix of length `n - 1`. */
  lemma PrefixStep<T>(s: seq<T>, n: int)
    requires 0 < n <= |s|
    ensures s[..n][..n - 1] == s[..n - 1] && s[..n][n - 1] == s[n - 1]
  {
  }

  /** The values, in iteration order. */
  function ValuesOf<K, V>(m: OMap<K, V>): (vs: seq<V>)
    ensures |vs| == |m|
    ensures forall i :: 0 <= i < |m| ==> vs[i] == m[i].1
  {
    seq(|m|, i requires 0 <= i < |m| => m[i].1)
  }

  /** The same keys in the same order, each value passed through `f`. */
  function MapValues<K, V, W>(m: OMap<K, V>, f: V -> W): (r: OMap<K, W>)
    ensures |r| == |m|
    ensures forall i :: 0 <= i < |m| ==> r[i] == (m[i].0, f(m[i].1))
  {
    seq(|m|, i requires 0 <= i < |m| => (m[i].0, f(m[i].1)))
  }

  /** Mapping values changes neither the keys nor where they are. */
  lemma MapValuesKeys<K, V, W>(m: OMap<K, V>, f: V -> W)
    ensures DistinctKeys(m) ==> DistinctKeys(MapValues(m, f))
    ensures forall k :: HasKey(MapValues(m, f), k) <==> HasKey(m, k)
    ensures forall k :: HasKey(m, k) ==> Find(MapValues(m, f), k) == Find(m, k)
  {
    var r := MapValues(m, f);
    forall k | HasKey(m, k) ensures HasKey(r, k) && Find(r, k) == Find(m, k) {
      FindFirst(r, k, Find(m, k));
    }
    forall k | HasKey(r, k) ensures HasKey(m, k) {
      assert m[Find(r, k)].0 == k;
    }
  }

  /** The entries whose key is not one of `ks`, in their order. */
  function Without<K(==,!new), V>(m: OMap<K, V>, ks: seq<K>): (r: OMap<K, V>)
    ensures |r| <= |m|
    ensures forall i :: 0 <= i < |r| ==> r[i].0 !in ks
    ensures forall k :: HasKey(r, k) <==> HasKey(m, k) && k !in ks
    ensures DistinctKeys(m) ==> DistinctKeys(r)
    decreases |m|
  {
    if m == [] then []
    else
      var init := m[..|m| - 1];
      var last := m[|m| - 1];
      var w := Without(init, ks);
      assert forall k :: HasKey(m, k) <==> HasKey(init, k) || k == last.0 by {
        forall k | HasKey(m, k) && k != last.0 ensures HasKey(init, k) {
          assert init[Find(m, k)] == m[Find(m, k)];
        }
        forall k | HasKey(init, k) ensures HasKey(m, k) {
          assert m[Find(init, k)] == init[Find(init, k)];
        }
      }
      if last.0 in ks then w
      else
        assert forall k :: HasKey(w + [last], k) <==> HasKey(w, k) || k == last.0 by {
          forall k | HasKey(w + [last], k) && k != last.0 ensures HasKey(w, k) {
            assert w[Find(w + [last], k)] == (w + [last])[Find(w + [last], k)];
          }
          forall k | HasKey(w, k) ensures HasKey(w + [last], k) {
            assert (w + [last])[Find(w, k)] == w[Find(w, k)];
          }
          assert (w + [last])[|w|] == last;
        }
        assert DistinctKeys(m) ==> forall j :: 0 <= j < |init| ==> init[j].0 != last.0 by {
          assert forall j :: 0 <= j < |init| ==> init[j] == m[j];
        }
        assert DistinctKeys(m) ==> !HasKey(w, last.0);
        w + [last]
  }

  /** A key list that names none of the keys removes nothing. */
  lemma {:induction false} WithoutNone<K(!new), V>(m: OMap<K, V>, ks: seq<K>)
    requires forall i :: 0 <= i < |m| ==> m[i].0 !in ks
    ensures Without(m, ks) == m
    decreases |m|
  {
    if m != [] {
      WithoutNone(m[..|m| - 1], ks);
      assert m == m[..|m| - 1] + [m[|m| - 1]];
    }
  }

  /** Removing keys from a concatenation removes them from each part. */
  lemma {:induction false} WithoutAppend<K(!new), V>(a: OMap<K, V>, b: OMap<K, V>, ks: seq<K>)
    ensures Without(a + b, ks) == Without(a, ks) + Without(b, ks)
    decreases |b|
  {
    if b == [] {
      assert a + b == a;
    } else {
      var init := b[..|b| - 1];
      assert (a + b)[..|a + b| - 1] == a + init;
      WithoutAppend(a, init, ks);
    }
  }

  /** Removing `a` and then `b` removes `a + b`. */
  lemma {:induction false} WithoutWithout<K(!new), V>(m: OMap<K, V>, a: seq<K>, b: seq<K>)
    ensures Without(Without(m, a), b) == Without(m, a + b)
    decreases |m|
  {
    if m != [] {
      var init, last := m[..|m| - 1], m[|m| - 1];
      WithoutWithout(init, a, b);
      var w := Without(init, a);
      if last.0 !in a {
        assert (w + [last])[..|w|] == w;
      }
    }
  }

  /** In a map with distinct keys, `delete(k)` is removing the key `k`. */
  lemma DeleteIsWithout<K(!new), V>(m: OMap<K, V>, k: K)
    requires DistinctKeys(m)
    ensures Delete(m, k) == Without(m, [k])
  {
    if HasKey(m, k) {
      DeletePresentIsWithout(m, k, Find(m, k));
    } else {
      WithoutNone(m, [k]);
    }
  }

  lemma DeletePresentIsWithout<K(!new), V>(m: OMap<K, V>, k: K, i: int)
    requires DistinctKeys(m) && HasKey(m, k) && i == Find(m, k)
    ensures Delete(m, k) == Without(m, [k])
  {
    var before, after := m[..i], m[i + 1..];
    assert Delete(m, k) == before + after;
    assert forall j :: 0 <= j < |before| ==> before[j].0 != k;
    assert forall j :: 0 <= j < |after| ==> after[j].0 != k by {
      forall j | 0 <= j < |after| ensures after[j].0 != k {
        assert after[j] == m[i + 1 + j];
      }
    }
    WithoutAround(before, m[i], after, k);
    SplitAt(m, i);
  }

  /** A sequence is its prefix, the element at `i`, and the rest. */
  lemma SplitAt<T>(m: seq<T>, i: int)
    requires 0 <= i < |m|
    ensures m == m[..i] + ([m[i]] + m[i + 1..])
  {
  }

  lemma WithoutAround<K(!new), V>(before: OMap<K, V>, e: (K, V), after: OMap<K, V>, k: K)
    requires e.0 == k
    requires forall j :: 0 <= j < |before| ==> before[j].0 != k
    requires forall j :: 0 <= j < |after| ==> after[j].0 != k
    ensures Without(before + ([e] + after), [k]) == before + after
  {
    var tail := [e] + after;
    assert Without([e], [k]) == [] by {
      assert [e][..0] == [];
    }
    assert Without(tail, [k]) == after by {
      WithoutAppend([e], after, [k]);
      WithoutNone(after, [k]);
      assert [] + after == after;
    }
    assert Without(before, [k]) == before by {
      WithoutNone(before, [k]);
    }
    WithoutAppend(before, tail, [k]);
  }

  /** Merging entries whose keys are all new appends them. */
  lemma {:induction false} MergeFresh<K(!new), V>(m: OMap<K, V>, o: OMap<K, V>)
    requires DistinctKeys(o)
    requires forall i :: 0 <= i < |o| ==> !HasKey(m, o[i].0)
    ensures Merge(m, o) == m + o
    decreases |o|
  {
    if o == [] {
      assert m + o == m;
    } else {
      var init := o[..|o| - 1];
      assert forall i :: 0 <= i < |init| ==> init[i] == o[i];
      MergeFresh(m, init);
      MergeFreshStep(m, o, init);
    }
  }

  lemma MergeFreshStep<K(!new), V>(m: OMap<K, V>, o: OMap<K, V>, init: OMap<K, V>)
    requires DistinctKeys(o) && o != [] && init == o[..|o| - 1]
    requires !HasKey(m, o[|o| - 1].0)
    requires Merge(m, init) == m + init
    ensures Merge(m, o) == m + o
  {
    var e := o[|o| - 1];
    assert forall j :: 0 <= j < |init| ==> init[j].0 != e.0 by {
      forall j | 0 <= j < |init| ensures init[j].0 != e.0 {
        assert init[j] == o[j];
      }
    }
    PutFresh(m, init, e);
    AppendSnoc(m, o);
  }

  /** Appending a non-empty sequence is appending all but its last element, then that one. */
  lemma AppendSnoc<T>(a: seq<T>, s: seq<T>)
    requires s != []
    ensures a + s == a + s[..|s| - 1] + [s[|s| - 1]]
  {
  }

  lemma PutFresh<K(!new), V>(m: OMap<K, V>, init: OMap<K, V>, e: (K, V))
    requires !HasKey(m, e.0)
    requires forall j :: 0 <= j < |init| ==> init[j].0 != e.0
    ensures Put(m + init, e.0, e.1) == m + init + [e]
  {
    forall j | 0 <= j < |m + init| ensures (m + init)[j].0 != e.0 {
      if j < |m| {
        assert (m + init)[j] == m[j];
      } else {
        assert (m + init)[j] == init[j - |m|];
      }
    }
  }

  /** The keys of a prefix one entry longer. */
  lemma HasKeyPrefix<K, V>(m: OMap<K, V>, j: int)
    requires 0 <= j < |m|
    ensures forall k :: HasKey(m[..j + 1], k) <==> HasKey(m[..j], k) || m[j].0 == k
  {
    forall k | HasKey(m[..j + 1], k) && m[j].0 != k ensures HasKey(m[..j], k) {
      var i :| 0 <= i <= j && m[..j + 1][i].0 == k;
      assert m[..j][i] == m[i];
    }
    forall k | HasKey(m[..j], k) ensures HasKey(m[..j + 1], k) {
      var i :| 0 <= i < j && m[..j][i].0 == k;
      assert m[..j + 1][i] == m[i];
    }
    assert m[..j + 1][j] == m[j];
  }
}
