/**
 * `Hash#collate(*others)`: one hash holding, for every key of the receiver
 * or of any other hash, the array of that key's values in all of them,
 * flattened, with the keys in order of first appearance. The source builds
 * it in three passes over a fresh hash, and so does the method here; the
 * specification functions say what comes out.
 */
module HashCollate {
  import opened OrderedMaps
  import opened Values
  import RubyArray

  type Entries = OMap<Value, Value>

  /** `Array#flatten`: nested arrays spliced in, at any depth. */
  function DeepFlatten(xs: seq<Value>): (r: seq<Value>)
    ensures forall i :: 0 <= i < |r| ==> !r[i].Arr?
    decreases xs
  {
    if xs == [] then []
    else
      var head := if xs[0].Arr? then DeepFlatten(xs[0].items) else [xs[0]];
      head + DeepFlatten(xs[1..])
  }

  /** Flattening distributes over concatenation. */
  lemma {:induction false} DeepFlattenAppend(a: seq<Value>, b: seq<Value>)
    ensures DeepFlatten(a + b) == DeepFlatten(a) + DeepFlatten(b)
    decreases |a|
  {
    if a != [] {
      assert (a + b)[0] == a[0] && (a + b)[1..] == a[1..] + b;
      DeepFlattenAppend(a[1..], b);
      var head := if a[0].Arr? then DeepFlatten(a[0].items) else [a[0]];
      assert DeepFlatten(a + b) == head + DeepFlatten(a[1..] + b);
      assert DeepFlatten(a) == head + DeepFlatten(a[1..]);
    } else {
      assert a + b == b;
    }
  }

  /** An array without nested arrays is its own flattening, so flattening twice is flattening once. */
  lemma {:induction false} DeepFlattenFlat(xs: seq<Value>)
    requires forall i :: 0 <= i < |xs| ==> !xs[i].Arr?
    ensures DeepFlatten(xs) == xs
    decreases |xs|
  {
    if xs != [] {
      DeepFlattenFlat(xs[1..]);
    }
  }

  /** `flatten` is idempotent. */
  lemma DeepFlattenIdempotent(xs: seq<Value>)
    ensures DeepFlatten(DeepFlatten(xs)) == DeepFlatten(xs)
  {
    DeepFlattenFlat(DeepFlatten(xs));
  }

  /** The values stored under `k` in `m`, in iteration order. */
  function Occurrences(m: Entries, k: Value): (r: seq<Value>)
    ensures |r| <= |m|
    decreases |m|
  {
    if m == [] then []
    else
      var last := m[|m| - 1];
      Occurrences(m[..|m| - 1], k) + (if last.0 == k then [last.1] else [])
  }

  /** In a Ruby hash a key occurs at most once: its occurrences are its value, or nothing. */
  lemma {:induction false} OccurrencesDistinct(m: Entries, k: Value)
    requires DistinctKeys(m)
    ensures Occurrences(m, k) == if HasKey(m, k) then [Lookup(m, k)] else []
    decreases |m|
  {
    if m != [] {
      var init := m[..|m| - 1];
      OccurrencesPrefix(m, k);
      OccurrencesDistinct(init, k);
      KeyOfSnoc(m, k);
    }
  }

  /** Dropping the last entry keeps the keys distinct; the occurrences are those of the rest and of the last entry. */
  lemma OccurrencesPrefix(m: Entries, k: Value)
    requires DistinctKeys(m) && m != []
    ensures DistinctKeys(m[..|m| - 1])
    ensures Occurrences(m, k)
      == Occurrences(m[..|m| - 1], k) + (if m[|m| - 1].0 == k then [m[|m| - 1].1] else [])
  {
    var init := m[..|m| - 1];
    assert forall j :: 0 <= j < |init| ==> init[j] == m[j];
  }

  /** Whether a hash has `k`, and its value, from the entries before the last and the last entry. */
  lemma KeyOfSnoc(m: Entries, k: Value)
    requires DistinctKeys(m) && m != []
    ensures m[|m| - 1].0 == k ==> !HasKey(m[..|m| - 1], k) && HasKey(m, k) && Lookup(m, k) == m[|m| - 1].1
    ensures m[|m| - 1].0 != k ==> (HasKey(m, k) <==> HasKey(m[..|m| - 1], k))
    ensures m[|m| - 1].0 != k && HasKey(m, k) ==> Lookup(m, k) == Lookup(m[..|m| - 1], k)
  {
    var init, last := m[..|m| - 1], m[|m| - 1];
    assert forall j :: 0 <= j < |init| ==> init[j] == m[j];
    if last.0 == k {
      FindAt(m, |m| - 1);
      assert !HasKey(init, k);
    } else if HasKey(m, k) {
      FindFirst(init, k, Find(m, k));
    } else {
      assert !HasKey(init, k);
    }
  }

  /** The values stored under `k` in each hash in turn. */
  function Sources(hs: seq<Entries>, k: Value): seq<Value>
    decreases |hs|
  {
    if hs == [] then [] else Sources(hs[..|hs| - 1], k) + Occurrences(hs[|hs| - 1], k)
  }

  /** `k` is a key of one of the hashes. */
  predicate InSome(hs: seq<Entries>, k: Value) {
    exists a :: 0 <= a < |hs| && HasKey(hs[a], k)
  }

  lemma InSomeStep(hs: seq<Entries>, i: int)
    requires 0 <= i < |hs|
    ensures forall k :: InSome(hs[..i + 1], k) <==> InSome(hs[..i], k) || HasKey(hs[i], k)
  {
    forall k | InSome(hs[..i + 1], k) && !HasKey(hs[i], k) ensures InSome(hs[..i], k) {
      var a :| 0 <= a <= i && HasKey(hs[..i + 1][a], k);
      assert a < i && hs[..i][a] == hs[a];
    }
    forall k | InSome(hs[..i], k) ensures InSome(hs[..i + 1], k) {
      var a :| 0 <= a < i && HasKey(hs[..i][a], k);
      assert hs[..i + 1][a] == hs[a];
    }
    assert hs[..i + 1][i] == hs[i];
  }

  lemma OccurrencesSnoc(h: Entries, j: int, k: Value)
    requires 0 <= j < |h|
    ensures Occurrences(h[..j + 1], k) == Occurrences(h[..j], k) + (if h[j].0 == k then [h[j].1] else [])
  {
    var m := h[..j + 1];
    assert m[..|m| - 1] == h[..j] && m[|m| - 1] == h[j];
    assert Occurrences(m, k) == Occurrences(m[..|m| - 1], k) + (if m[|m| - 1].0 == k then [m[|m| - 1].1] else []);
  }

  /** The keys of each hash in turn, repeats included. */
  function AllKeys(hs: seq<Entries>): seq<Value>
    decreases |hs|
  {
    if hs == [] then [] else AllKeys(hs[..|hs| - 1]) + Keys(hs[|hs| - 1])
  }

  /** For two hashes, the receiver's keys and then the other's. */
  lemma AllKeysTwo(a: Entries, b: Entries)
    ensures AllKeys([a, b]) == Keys(a) + Keys(b)
  {
    assert [a, b][..1] == [a] && [a][..0] == [];
    assert AllKeys([a]) == [] + Keys(a) == Keys(a);
  }

  lemma AllKeysSnoc(hs: seq<Entries>, i: int)
    requires 0 <= i < |hs|
    ensures AllKeys(hs[..i + 1]) == AllKeys(hs[..i]) + Keys(hs[i])
  {
    assert hs[..i + 1][..i] == hs[..i] && hs[..i + 1][i] == hs[i];
  }

  /**
   * The key order of a fresh hash after `hash[k] = ...` for each `k` of `ks`
   * in turn: a key takes its place when first stored.
   */
  function KeyOrder(ks: seq<Value>): seq<Value>
    decreases |ks|
  {
    if ks == [] then []
    else
      var d := KeyOrder(ks[..|ks| - 1]);
      if ks[|ks| - 1] in d then d else d + [ks[|ks| - 1]]
  }

  /** That order is the distinct keys by first appearance, `Array#uniq`'s order. */
  lemma {:induction false} KeyOrderIsDedup(ks: seq<Value>)
    ensures KeyOrder(ks) == RubyArray.Dedup(ks)
    decreases |ks|
  {
    if ks != [] {
      KeyOrderIsDedup(ks[..|ks| - 1]);
    }
  }

  /** `hash[key] = []` for the `j`-th key of `h` keeps the keys in order of first appearance. */
  lemma AddKeyOrder(r: Entries, h: Entries, j: int, ks0: seq<Value>)
    requires 0 <= j < |h| && Keys(r) == KeyOrder(ks0 + Keys(h)[..j])
    ensures Keys(Put(r, h[j].0, Arr([]))) == KeyOrder(ks0 + Keys(h)[..j + 1])
  {
    var ks, x := Keys(h), h[j].0;
    assert ks[..j + 1] == ks[..j] + [x];
    assert ks0 + ks[..j + 1] == (ks0 + ks[..j]) + [x];
    KeysPut(r, x, Arr([]));
  }

  /** First pass, for one hash: `each_key { |key| hash[key] = [] }`. */
  method AddKeys(r0: Entries, h: Entries, ghost ks0: seq<Value>) returns (r: Entries)
    requires DistinctKeys(r0) && forall p :: 0 <= p < |r0| ==> r0[p].1 == Arr([])
    requires Keys(r0) == KeyOrder(ks0)
    ensures DistinctKeys(r) && forall p :: 0 <= p < |r| ==> r[p].1 == Arr([])
    ensures forall k :: HasKey(r, k) <==> HasKey(r0, k) || HasKey(h, k)
    ensures Keys(r) == KeyOrder(ks0 + Keys(h))
  {
    r := r0;
    var j := 0;
    assert ks0 + Keys(h)[..0] == ks0;
    while j < |h|
      invariant 0 <= j <= |h|
      invariant DistinctKeys(r) && forall p :: 0 <= p < |r| ==> r[p].1 == Arr([])
      invariant forall k :: HasKey(r, k) <==> HasKey(r0, k) || HasKey(h[..j], k)
      invariant Keys(r) == KeyOrder(ks0 + Keys(h)[..j])
    {
      AddKeyOrder(r, h, j, ks0);
      r := Put(r, h[j].0, Arr([]));
      HasKeyPrefix(h, j);
      j := j + 1;
    }
    assert h[..|h|] == h;
    assert Keys(h)[..|h|] == Keys(h);
  }

  lemma AppendStep(r0: Entries, h: Entries, j: int, before: Entries, q: int)
    requires DistinctKeys(r0) && forall p :: 0 <= p < |r0| ==> r0[p].1.Arr?
    requires 0 <= j < |h| && 0 <= q < |r0| && r0[q].0 == h[j].0 && |before| == |r0|
    requires forall p :: 0 <= p < |before| ==> before[p] == (r0[p].0, Arr(r0[p].1.items + Occurrences(h[..j], r0[p].0)))
    ensures forall p :: 0 <= p < |before| ==>
      before[q := (h[j].0, Arr(before[q].1.items + [h[j].1]))][p] == (r0[p].0, Arr(r0[p].1.items + Occurrences(h[..j + 1], r0[p].0)))
  {
    var r := before[q := (h[j].0, Arr(before[q].1.items + [h[j].1]))];
    forall p | 0 <= p < |r|
      ensures r[p] == (r0[p].0, Arr(r0[p].1.items + Occurrences(h[..j + 1], r0[p].0)))
    {
      OccurrencesSnoc(h, j, r0[p].0);
      var xs, os := r0[p].1.items, Occurrences(h[..j], r0[p].0);
      if p != q {
        assert r0[p].0 != h[j].0;
        assert Occurrences(h[..j + 1], r0[p].0) == os + [] == os;
        assert r[p] == before[p];
      } else {
        assert before[q].1.items == xs + os;
        assert Occurrences(h[..j + 1], r0[p].0) == os + [h[j].1];
        assert xs + os + [h[j].1] == xs + (os + [h[j].1]);
        assert r[p] == (h[j].0, Arr(xs + os + [h[j].1]));
      }
    }
  }

  /** `hash[key] << val` where `key` is at position `q`. */
  lemma AppendAt(m: Entries, k: Value, v: Value, q: int)
    requires 0 <= q < |m| && m[q].0 == k && m[q].1.Arr?
    requires forall p :: 0 <= p < q ==> m[p].0 != k
    ensures Lookup(m, k) == m[q].1
    ensures Put(m, k, Arr(Lookup(m, k).items + [v])) == m[q := (k, Arr(m[q].1.items + [v]))]
  {
    FindFirst(m, k, q);
  }

  /** Second pass, for one hash: `each { |key, val| hash[key] << val }`. */
  method AppendValues(r0: Entries, h: Entries) returns (r: Entries)
    requires DistinctKeys(r0) && forall p :: 0 <= p < |r0| ==> r0[p].1.Arr?
    requires forall k :: HasKey(h, k) ==> HasKey(r0, k)
    ensures |r| == |r0| && DistinctKeys(r)
    ensures forall p :: 0 <= p < |r| ==> r[p] == (r0[p].0, Arr(r0[p].1.items + Occurrences(h, r0[p].0)))
  {
    r := r0;
    var j := 0;
    assert h[..0] == [];
    assert forall p :: 0 <= p < |r0| ==> r0[p].1 == Arr(r0[p].1.items + []);
    while j < |h|
      invariant 0 <= j <= |h|
      invariant |r| == |r0| && DistinctKeys(r)
      invariant forall p :: 0 <= p < |r| ==> r[p] == (r0[p].0, Arr(r0[p].1.items + Occurrences(h[..j], r0[p].0)))
    {
      var (k, v) := h[j];
      assert HasKey(h, k);
      var q := Find(r0, k);
      ghost var before := r;
      r := Put(r, k, Arr(Lookup(r, k).items + [v]));
      AppendAt(before, k, v, q);
      AppendStep(r0, h, j, before, q);
      j := j + 1;
    }
    assert h[..|h|] == h;
  }

  /** Third pass: `each_value(&:flatten!)`. */
  method FlattenValues(r0: Entries) returns (r: Entries)
    requires forall p :: 0 <= p < |r0| ==> r0[p].1.Arr?
    ensures |r| == |r0|
    ensures forall p :: 0 <= p < |r| ==> r[p] == (r0[p].0, Arr(DeepFlatten(r0[p].1.items)))
  {
    r := r0;
    var p := 0;
    while p < |r|
      invariant 0 <= p <= |r| && |r| == |r0|
      invariant forall q :: 0 <= q < p ==> r[q] == (r0[q].0, Arr(DeepFlatten(r0[q].1.items)))
      invariant forall q :: p <= q < |r| ==> r[q] == r0[q]
    {
      r := r[p := (r[p].0, Arr(DeepFlatten(r[p].1.items)))];
      p := p + 1;
    }
  }

  /**
   * `collate(*others)`: the keys of the receiver and of every other hash,
   * each with the flattened array of its values in the receiver and the
   * others, in that order.
   */
  method Collate(self: Entries, others: seq<Entries>) returns (r: Entries)
    ensures DistinctKeys(r)
    ensures forall k :: HasKey(r, k) <==> InSome([self] + others, k)
    ensures Keys(r) == RubyArray.Dedup(AllKeys([self] + others))
    ensures forall p :: 0 <= p < |r| ==> r[p].1 == Arr(DeepFlatten(Sources([self] + others, r[p].0)))
  {
    var hs := [self] + others;
    var keyed := AddAllKeys(hs);
    var gathered := AppendAllValues(keyed, hs);
    r := FlattenValues(gathered);
    SameKeys(keyed, r);
    KeyOrderIsDedup(AllKeys(hs));
  }

  /** First pass over all the hashes: every key of any of them, each with `[]`. */
  method AddAllKeys(hs: seq<Entries>) returns (r: Entries)
    ensures DistinctKeys(r) && forall p :: 0 <= p < |r| ==> r[p].1 == Arr([])
    ensures forall k :: HasKey(r, k) <==> InSome(hs, k)
    ensures Keys(r) == KeyOrder(AllKeys(hs))
  {
    r := [];
    var i := 0;
    ghost var ks: seq<Value> := [];
    assert hs[..0] == [];
    while i < |hs|
      invariant 0 <= i <= |hs|
      invariant DistinctKeys(r) && forall p :: 0 <= p < |r| ==> r[p].1 == Arr([])
      invariant forall k :: HasKey(r, k) <==> InSome(hs[..i], k)
      invariant ks == AllKeys(hs[..i]) && Keys(r) == KeyOrder(ks)
    {
      AllKeysSnoc(hs, i);
      r := AddKeys(r, hs[i], ks);
      ks := ks + Keys(hs[i]);
      InSomeStep(hs, i);
      i := i + 1;
    }
    assert hs[..|hs|] == hs;
  }

  /** Second pass over all the hashes: each key gets its values in all of them, in order. */
  method AppendAllValues(keyed: Entries, hs: seq<Entries>) returns (r: Entries)
    requires DistinctKeys(keyed) && forall p :: 0 <= p < |keyed| ==> keyed[p].1 == Arr([])
    requires forall k :: HasKey(keyed, k) <==> InSome(hs, k)
    ensures |r| == |keyed| && DistinctKeys(r)
    ensures forall p :: 0 <= p < |r| ==> r[p] == (keyed[p].0, Arr(Sources(hs, keyed[p].0)))
  {
    r := keyed;
    var i := 0;
    assert hs[..0] == [];
    while i < |hs|
      invariant 0 <= i <= |hs|
      invariant |r| == |keyed| && DistinctKeys(r)
      invariant forall p :: 0 <= p < |r| ==> r[p] == (keyed[p].0, Arr(Sources(hs[..i], keyed[p].0)))
    {
      KeysCovered(keyed, hs, i, r);
      ghost var before := r;
      r := AppendValues(r, hs[i]);
      SourcesStep(keyed, hs, i, before, r);
      i := i + 1;
    }
    assert hs[..|hs|] == hs;
  }

  /** Every key of the `i`-th hash is already a key of the accumulator. */
  lemma KeysCovered(keyed: Entries, hs: seq<Entries>, i: int, r: Entries)
    requires 0 <= i < |hs| && |r| == |keyed|
    requires forall k :: HasKey(keyed, k) <==> InSome(hs, k)
    requires forall p :: 0 <= p < |r| ==> r[p].0 == keyed[p].0
    ensures forall k :: HasKey(hs[i], k) ==> HasKey(r, k)
  {
    forall k | HasKey(hs[i], k) ensures HasKey(r, k) {
      assert InSome(hs, k);
      assert r[Find(keyed, k)].0 == k;
    }
  }

  /** Appending the values of the `i`-th hash extends every key's sources by that hash. */
  lemma SourcesStep(keyed: Entries, hs: seq<Entries>, i: int, before: Entries, after: Entries)
    requires 0 <= i < |hs| && |before| == |keyed| && |after| == |keyed|
    requires forall p :: 0 <= p < |before| ==> before[p] == (keyed[p].0, Arr(Sources(hs[..i], keyed[p].0)))
    requires forall p :: 0 <= p < |after| ==> after[p] == (before[p].0, Arr(before[p].1.items + Occurrences(hs[i], before[p].0)))
    ensures forall p :: 0 <= p < |after| ==> after[p] == (keyed[p].0, Arr(Sources(hs[..i + 1], keyed[p].0)))
  {
    assert hs[..i + 1][..i] == hs[..i] && hs[..i + 1][i] == hs[i];
  }

  /** Two maps with the same keys at the same positions have the same keys. */
  lemma SameKeys(a: Entries, b: Entries)
    requires |a| == |b| && forall p :: 0 <= p < |a| ==> a[p].0 == b[p].0
    ensures forall k :: HasKey(a, k) <==> HasKey(b, k)
    ensures DistinctKeys(a) ==> DistinctKeys(b)
    ensures Keys(a) == Keys(b)
  {
    forall k | HasKey(b, k) ensures HasKey(a, k) {
      assert a[Find(b, k)].0 == k;
    }
    forall k | HasKey(a, k) ensures HasKey(b, k) {
      assert b[Find(a, k)].0 == k;
    }
  }

  /**
   * `collate!(other)` on Ruby hashes: a key of both gets the flattened pair
   * of its two values, a key of one gets its value flattened.
   */
  lemma CollateTwo(self: Entries, other: Entries, k: Value)
    requires DistinctKeys(self) && DistinctKeys(other)
    ensures Sources([self, other], k) ==
      (if HasKey(self, k) then [Lookup(self, k)] else []) + (if HasKey(other, k) then [Lookup(other, k)] else [])
  {
    OccurrencesDistinct(self, k);
    OccurrencesDistinct(other, k);
    assert [self, other][..1] == [self];
    assert [self][..0] == [];
    assert Sources([self], k) == Occurrences(self, k);
    assert Sources([self, other], k) == Sources([self], k) + Occurrences(other, k);
  }
}
