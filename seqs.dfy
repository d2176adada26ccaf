/**
 * Generic facts about sequences of sequences, used where an operation
 * returns an array of arrays (`each_slice`, `in_groups`, `split`).
 */
module Seqs {
  import opened Arith

  /** The concatenation of the parts (`flatten(1)`). */
  function Flatten<T>(ss: seq<seq<T>>): (r: seq<T>)
    decreases |ss|
  {
    if ss == [] then [] else ss[0] + Flatten(ss[1..])
  }

  lemma {:induction false} FlattenSnoc<T>(ss: seq<seq<T>>, s: seq<T>)
    ensures Flatten(ss + [s]) == Flatten(ss) + s
    decreases |ss|
  {
    if ss == [] {
      assert Flatten([s]) == s + Flatten([]);
    } else {
      assert (ss + [s])[1..] == ss[1..] + [s];
      FlattenSnoc(ss[1..], s);
    }
  }

  /** Parts of one common length `n` flatten to `|ss| * n` elements. */
  lemma {:induction false} FlattenLength<T>(ss: seq<seq<T>>, n: int)
    requires forall j :: 0 <= j < |ss| ==> |ss[j]| == n
    ensures |Flatten(ss)| == |ss| * n
    decreases |ss|
  {
    if ss != [] {
      FlattenLength(ss[1..], n);
    }
  }

  /**
   * Concatenation is associative. Stated once so that proofs can call it
   * instead of leaving the solver to rediscover it by extensionality.
   */
  lemma ConcatAssoc<T>(a: seq<T>, b: seq<T>, c: seq<T>)
    ensures a + (b + c) == (a + b) + c
  {
  }

  /** The parts with `ys` appended to the last one. */
  function ExtendLast<T>(r: seq<seq<T>>, ys: seq<T>): (r': seq<seq<T>>)
    requires |r| >= 1
    ensures |r'| == |r| && r'[..|r| - 1] == r[..|r| - 1] && r'[|r| - 1] == r[|r| - 1] + ys
  {
    var p := r[..|r| - 1];
    assert (p + [r[|r| - 1] + ys])[..|r| - 1] == p;
    p + [r[|r| - 1] + ys]
  }

  lemma ExtendLastTwice<T>(r: seq<seq<T>>, ys: seq<T>, zs: seq<T>)
    requires |r| >= 1
    ensures ExtendLast(ExtendLast(r, ys), zs) == ExtendLast(r, ys + zs)
  {
    var p := r[..|r| - 1];
    ConcatAssoc(r[|r| - 1], ys, zs);
    assert ExtendLast(ExtendLast(r, ys), zs) == p + [r[|r| - 1] + ys + zs];
  }

  lemma FlattenExtendLast<T>(r: seq<seq<T>>, ys: seq<T>)
    requires |r| >= 1
    ensures Flatten(ExtendLast(r, ys)) == Flatten(r) + ys
  {
    var p, l := r[..|r| - 1], r[|r| - 1];
    assert r == p + [l];
    assert ExtendLast(r, ys) == p + [l + ys];
    FlattenSnoc(p, l);
    FlattenSnoc(p, l + ys);
    ConcatAssoc(Flatten(p), l, ys);
  }
}
