/**
 * The sequence extensions of lib/lite/ruby/array.rb that compute a new value
 * from the receiver. The ones that change the receiver in place are methods of
 * `MutableArray.RArray`; `bury` is in module `Bury`.
 */
module RubyArray {
  import opened Outcomes
  import opened Values
  import opened RubyObject
  import opened Arith
  import opened Seqs

  // ---------------------------------------------------------------------------
  // Sequence vocabulary

  /** The elements of `s` that `keep` accepts, in their order (`select`/`reject`). */
  function Filter(s: seq<Value>, keep: Value -> bool): (r: seq<Value>)
    ensures |r| <= |s|
    ensures forall j :: 0 <= j < |r| ==> keep(r[j])
    ensures forall x :: multiset(r)[x] == if keep(x) then multiset(s)[x] else 0
    decreases |s|
  {
    if s == [] then []
    else
      var init := s[..|s| - 1];
      assert s == init + [s[|s| - 1]];
      var r := Filter(init, keep);
      if keep(s[|s| - 1]) then r + [s[|s| - 1]] else r
  }

  lemma {:induction false} FilterAppend(a: seq<Value>, b: seq<Value>, keep: Value -> bool)
    ensures Filter(a + b, keep) == Filter(a, keep) + Filter(b, keep)
    decreases |b|
  {
    if b == [] {
      assert a + b == a;
    } else {
      var init := b[..|b| - 1];
      assert (a + b)[..|a + b| - 1] == a + init;
      FilterAppend(a, init, keep);
    }
  }

  /** A filter that keeps every element changes nothing. */
  lemma {:induction false} FilterKeepsAll(s: seq<Value>, keep: Value -> bool)
    requires forall j :: 0 <= j < |s| ==> keep(s[j])
    ensures Filter(s, keep) == s
    decreases |s|
  {
    if s != [] {
      var init, last := s[..|s| - 1], s[|s| - 1];
      FilterKeepsAll(init, keep);
      assert s == init + [last];
      FilterSnoc(init, last, keep);
    }
  }

  /** `Array.new(n, v)` */
  function Repeat(v: Value, n: nat): (r: seq<Value>)
    ensures |r| == n && forall j :: 0 <= j < n ==> r[j] == v
  {
    seq(n, _ => v)
  }

  lemma {:induction false} RepeatCount(v: Value, n: nat)
    ensures multiset(Repeat(v, n)) == multiset{}[v := n]
    decreases n
  {
    if n > 0 {
      RepeatCount(v, n - 1);
      assert Repeat(v, n) == Repeat(v, n - 1) + [v];
    }
  }

  /** No element occurs twice. */
  predicate Distinct(s: seq<Value>) {
    forall i, j :: 0 <= i < j < |s| ==> s[i] != s[j]
  }

  /** `index(v)`: the first position of `v`, or -1. */
  function IndexOf(a: seq<Value>, v: Value): (i: int)
    ensures -1 <= i < |a|
    ensures i == -1 <==> v !in a
    ensures i >= 0 ==> a[i] == v && v !in a[..i]
    decreases |a|
  {
    if a == [] then -1
    else if a[0] == v then 0
    else
      var r := IndexOf(a[1..], v);
      assert a == [a[0]] + a[1..];
      if r < 0 then -1
      else
        assert a[..r + 1] == [a[0]] + a[1..][..r];
        r + 1
  }

  /** `rindex(v)`: the last position of `v`, or -1. */
  function RIndexOf(a: seq<Value>, v: Value): (i: int)
    ensures -1 <= i < |a|
    ensures i == -1 <==> v !in a
    ensures i >= 0 ==> a[i] == v && v !in a[i + 1..]
    decreases |a|
  {
    if a == [] then -1
    else if a[|a| - 1] == v then |a| - 1
    else
      assert a == a[..|a| - 1] + [a[|a| - 1]];
      var r := RIndexOf(a[..|a| - 1], v);
      assert r >= 0 ==> a[r + 1..] == a[..|a| - 1][r + 1..] + [a[|a| - 1]];
      r
  }

  // ---------------------------------------------------------------------------
  // Indexing as Ruby does it

  /** `self[i]`: negative indexes count from the end; outside the array, `nil`. */
  function At(a: seq<Value>, i: int): (r: Value)
    ensures 0 <= i < |a| ==> r == a[i]
    ensures -|a| <= i < 0 ==> r == a[|a| + i]
    ensures (i >= |a| || i < -|a|) ==> r == Nil
  {
    if 0 <= i < |a| then a[i] else if -|a| <= i < 0 then a[|a| + i] else Nil
  }

  /**
   * `self[i] = v`: negative indexes count from the end and one below the
   * start raises IndexError; an index past the end pads with `nil`.
   */
  function Store(a: seq<Value>, i: int, v: Value): (r: Result<seq<Value>>)
    ensures r.Err? <==> i < -|a|
    ensures r.Err? ==> r.error == IndexError
    ensures r.Ok? ==> |r.value| == if i < |a| then |a| else i + 1
    ensures r.Ok? ==> At(r.value, i) == v
    ensures r.Ok? && i >= |a| ==> r.value == a + Repeat(Nil, i - |a|) + [v]
    ensures r.Ok? ==> forall j :: 0 <= j < |a| && j != (if i < 0 then |a| + i else i) ==> r.value[j] == a[j]
  {
    if i < -|a| then Err(IndexError)
    else if i < 0 then Ok(a[|a| + i := v])
    else if i < |a| then Ok(a[i := v])
    else Ok(a + Repeat(Nil, i - |a|) + [v])
  }

  // ---------------------------------------------------------------------------
  // after / before

  /** A position holding `v` with no `v` before it is the one `index(v)` answers. */
  lemma FirstOccurrence(a: seq<Value>, v: Value)
    ensures forall i :: 0 <= i < |a| && a[i] == v && v !in a[..i] ==> IndexOf(a, v) == i
  {
    forall i | 0 <= i < |a| && a[i] == v && v !in a[..i]
      ensures IndexOf(a, v) == i
    {
      var k := IndexOf(a, v);
      assert k >= 0 && a[k] == v && v !in a[..k];
    }
  }

  /** `after(v)`: the element cyclically after the first `v`; `nil` when `v` is absent. */
  function After(a: seq<Value>, v: Value): (r: Value)
    ensures v !in a ==> r == Nil
    ensures forall i :: 0 <= i < |a| && a[i] == v && v !in a[..i] ==> r == a[(i + 1) % |a|]
  {
    FirstOccurrence(a, v);
    if v !in a then Nil else a[(IndexOf(a, v) + 1) % |a|]
  }

  /** `before(v)`: the element cyclically before the first `v`; `nil` when `v` is absent. */
  function Before(a: seq<Value>, v: Value): (r: Value)
    ensures v !in a ==> r == Nil
    ensures forall i :: 0 <= i < |a| && a[i] == v && v !in a[..i] ==> r == a[(i - 1) % |a|]
  {
    FirstOccurrence(a, v);
    // Ruby's % takes the sign of the divisor, as Dafny's does for a positive length.
    if v !in a then Nil else a[(IndexOf(a, v) - 1) % |a|]
  }

  /** In an array without repeated elements, `before` undoes `after` and vice versa. */
  lemma AfterBeforeInverse(a: seq<Value>, v: Value)
    requires Distinct(a) && v in a
    ensures Before(a, After(a, v)) == v
    ensures After(a, Before(a, v)) == v
  {
    BeforeUndoesAfter(a, v);
    AfterUndoesBefore(a, v);
  }

  lemma BeforeUndoesAfter(a: seq<Value>, v: Value)
    requires Distinct(a) && v in a
    ensures Before(a, After(a, v)) == v
  {
    var n, i := |a|, IndexOf(a, v);
    var j := Succ(i, n);
    assert After(a, v) == a[j];
    IndexOfDistinct(a, j);
    assert Pred(j, n) == i;
  }

  lemma AfterUndoesBefore(a: seq<Value>, v: Value)
    requires Distinct(a) && v in a
    ensures After(a, Before(a, v)) == v
  {
    var n, i := |a|, IndexOf(a, v);
    var k := Pred(i, n);
    assert Before(a, v) == a[k];
    IndexOfDistinct(a, k);
    assert Succ(k, n) == i;
  }

  /** `(i + 1) % n` for an index `i` of an array of length `n`. */
  function Succ(i: int, n: int): (j: int)
    requires 0 <= i < n
    ensures j == (i + 1) % n && 0 <= j < n
  {
    if i + 1 < n then i + 1 else 0
  }

  /** `(i - 1) % n` for an index `i` of an array of length `n`. */
  function Pred(i: int, n: int): (j: int)
    requires 0 <= i < n
    ensures j == (i - 1) % n && 0 <= j < n
  {
    if i > 0 then i - 1 else n - 1
  }

  lemma IndexOfDistinct(a: seq<Value>, j: int)
    requires Distinct(a) && 0 <= j < |a|
    ensures IndexOf(a, a[j]) == j
  {
    var i := IndexOf(a, a[j]);
    assert a[i] == a[j];
  }

  /** With a repeated element the round trip fails: in [1, 2, 1], before(after(2)) is 1. */
  lemma AfterBeforeWithRepeats()
    ensures Before([Int(1), Int(2), Int(1)], After([Int(1), Int(2), Int(1)], Int(2))) == Int(1)
  {
    var a := [Int(1), Int(2), Int(1)];
    assert IndexOf(a, Int(2)) == 1;
    assert IndexOf(a, Int(1)) == 0;
  }

  // ---------------------------------------------------------------------------
  // swap

  /** The position a valid index `i` denotes: negative indexes count from the end. */
  function Normalize(n: int, i: int): (j: int)
    requires -n <= i < n
    ensures 0 <= j < n
  {
    if i < 0 then n + i else i
  }

  /**
   * `self[from], self[to] = self[to], self[from]`: both elements are read
   * first, then stored in order, `self[from]` and then `self[to]`; each store
   * pads with nil or raises IndexError as `[]=` does.
   */
  function Swapped(a: seq<Value>, from: int, to: int): (r: Result<seq<Value>>)
  {
    var x, y := At(a, to), At(a, from);
    var a' :- Store(a, from, x);
    Store(a', to, y)
  }

  /**
   * For indexes inside the array, `swap` exchanges the two elements, keeps
   * the multiset of elements, and undoes itself.
   */
  lemma SwapInRange(a: seq<Value>, from: int, to: int)
    requires -|a| <= from < |a| && -|a| <= to < |a|
    ensures var i, j := Normalize(|a|, from), Normalize(|a|, to);
            Swapped(a, from, to) == Ok(a[i := a[j]][j := a[i]])
    ensures multiset(Swapped(a, from, to).value) == multiset(a)
    ensures Swapped(Swapped(a, from, to).value, from, to) == Ok(a)
  {
    var i, j := Normalize(|a|, from), Normalize(|a|, to);
    SwapStores(a, from, to);
    var b := a[i := a[j]][j := a[i]];
    SwapStores(b, from, to);
    Exchange(a, i, j);
  }

  lemma SwapStores(a: seq<Value>, from: int, to: int)
    requires -|a| <= from < |a| && -|a| <= to < |a|
    ensures var i, j := Normalize(|a|, from), Normalize(|a|, to);
            Swapped(a, from, to) == Ok(a[i := a[j]][j := a[i]])
  {
    var i, j := Normalize(|a|, from), Normalize(|a|, to);
    assert Store(a, from, a[j]) == Ok(a[i := a[j]]);
  }

  lemma Exchange(a: seq<Value>, i: int, j: int)
    requires 0 <= i < |a| && 0 <= j < |a|
    ensures multiset(a[i := a[j]][j := a[i]]) == multiset(a)
    ensures var b := a[i := a[j]][j := a[i]]; b[i := b[j]][j := b[i]] == a
  {
  }

  /**
   * When the first store pads the array, the second index is read before the
   * padding: `[1].swap(2, 0)` yields `[nil, nil, 1]`, because `self[0]` was
   * read as 1 and `self[2]` as nil before either store.
   */
  lemma SwapPastEnd()
    ensures Swapped([Int(1)], 2, 0) == Ok([Nil, Nil, Int(1)])
  {
    assert Repeat(Nil, 1) == [Nil];
    assert [Int(1)] + Repeat(Nil, 1) + [Int(1)] == [Int(1), Nil, Int(1)];
    assert Store([Int(1)], 2, Int(1)) == Ok([Int(1), Nil, Int(1)]);
    assert [Int(1), Nil, Int(1)][0 := Nil] == [Nil, Nil, Int(1)];
  }

  // ---------------------------------------------------------------------------
  // delete_first / delete_last

  /** `delete_first`, i.e. `self[1..-1]`: `nil` (here `None`) for the empty array. */
  function DeleteFirst(a: seq<Value>): (r: Option<seq<Value>>)
    ensures r.None? <==> a == []
    ensures r.Some? ==> [a[0]] + r.value == a
  {
    if a == [] then None else Some(a[1..])
  }

  /** `delete_last`, i.e. `self[0...-1]`: `[]` for the empty array. */
  function DeleteLast(a: seq<Value>): (r: seq<Value>)
    ensures a == [] ==> r == []
    ensures a != [] ==> r + [a[|a| - 1]] == a
  {
    if a == [] then [] else a[..|a| - 1]
  }

  // ---------------------------------------------------------------------------
  // Removing values

  /** Filtering twice is filtering once by both conditions. */
  lemma {:induction false} FilterFilter(s: seq<Value>, p: Value -> bool, q: Value -> bool, pq: Value -> bool)
    requires forall x :: pq(x) == (p(x) && q(x))
    ensures Filter(Filter(s, p), q) == Filter(s, pq)
    decreases |s|
  {
    if s != [] {
      var init, x := s[..|s| - 1], s[|s| - 1];
      FilterFilter(init, p, q, pq);
      if p(x) {
        var fp := Filter(init, p);
        assert (fp + [x])[..|fp|] == fp;
      }
    }
  }

  /** `reject_values(*args)`: every element equal to one of `args` removed. */
  function RejectValues(a: seq<Value>, args: seq<Value>): (r: seq<Value>)
    ensures forall j :: 0 <= j < |r| ==> r[j] !in args
    ensures forall x :: multiset(r)[x] == if x in args then 0 else multiset(a)[x]
  {
    Filter(a, NotIn(args))
  }

  /** The block `{ |x| !args.include?(x) }`. */
  function NotIn(args: seq<Value>): Value -> bool {
    x => x !in args
  }

  /** A value survives `reject_values` exactly when it was there and is not one of `args`. */
  lemma RejectValuesMember(a: seq<Value>, args: seq<Value>, v: Value)
    ensures v in RejectValues(a, args) <==> v in a && v !in args
  {
    assert v in RejectValues(a, args) <==> multiset(RejectValues(a, args))[v] > 0;
    assert v in a <==> multiset(a)[v] > 0;
  }

  /** Rejecting `xs` and then `ys` rejects `xs + ys`: the values can be removed in any grouping. */
  lemma RejectValuesTwice(a: seq<Value>, xs: seq<Value>, ys: seq<Value>)
    ensures RejectValues(RejectValues(a, xs), ys) == RejectValues(a, xs + ys)
  {
    FilterFilter(a, NotIn(xs), NotIn(ys), NotIn(xs + ys));
  }

  /** `strip`: the blank elements removed. */
  function Strip(a: seq<Value>): (r: seq<Value>)
    ensures forall j :: 0 <= j < |r| ==> IsPresent(r[j])
    ensures forall x :: multiset(r)[x] == if IsBlank(x) then 0 else multiset(a)[x]
  {
    Filter(a, x => !IsBlank(x))
  }

  /** An array is blank exactly when `strip` leaves nothing: `blank?` is `strip.empty?`. */
  lemma BlankArrayIsStripEmpty(a: seq<Value>)
    ensures IsBlank(Arr(a)) <==> Strip(a) == []
  {
    if !IsBlank(Arr(a)) {
      var j :| 0 <= j < |a| && !IsBlank(a[j]);
      assert a[j] in multiset(Strip(a));
    }
  }

  /** The element `nillify` stores for `v`. */
  function NilIfBlank(v: Value): Value {
    if v != Nil && (IsBlank(v) || IsBlank(Str(ToS(v)))) then Nil else v
  }

  /** `nillify`: every non-nil element that is blank, or whose `to_s` is blank, becomes `nil`. */
  function Nillify(a: seq<Value>): (r: seq<Value>)
    ensures |r| == |a| && forall j :: 0 <= j < |a| ==> r[j] == NilIfBlank(a[j])
  {
    seq(|a|, j requires 0 <= j < |a| => NilIfBlank(a[j]))
  }

  /**
   * The `to_s.blank?` test of `nillify` only matters for symbols: for any
   * other object it is implied by `blank?`. A symbol of spaces is not blank
   * but its name is, so `nillify` turns it into `nil`.
   */
  lemma NillifyCases(v: Value)
    ensures !v.Sym? ==> NilIfBlank(v) == if IsBlank(v) then Nil else v
    ensures NilIfBlank(Sym(" ")) == Nil && IsPresent(Sym(" "))
    ensures IsPresent(v) && !v.Sym? ==> NilIfBlank(v) == v
  {
    BlankStringIsAllSpace(" ");
    var t := ToS(v);
    match v {
      case Int(i) =>
        BlankStringIsAllSpace(t);
      case Bool(b) =>
        if b {
          BlankStringIsAllSpace("true");
          assert "true"[0] == 't';
        }
      case Arr(_) =>
        BlankStringIsAllSpace(t);
        assert t[0] == '[';
      case Hash(_) =>
        BlankStringIsAllSpace(t);
        assert t[0] == '{';
      case _ =>
    }
  }

  /** `denillify(fill)`: every `nil` element replaced by `fill`. */
  function Denillify(a: seq<Value>, fill: Value): (r: seq<Value>)
    ensures |r| == |a|
  {
    seq(|a|, j requires 0 <= j < |a| => if a[j] == Nil then fill else a[j])
  }

  /** The default fill of `denillify`. */
  const DefaultFill: Value := Int(0)

  /** `denillify` puts `fill` where `nil` was, keeps every non-nil element, leaves no `nil` unless `fill` is nil, and is idempotent. */
  lemma DenillifyProperties(a: seq<Value>, fill: Value)
    ensures forall j :: 0 <= j < |a| && a[j] == Nil ==> Denillify(a, fill)[j] == fill
    ensures forall j :: 0 <= j < |a| && a[j] != Nil ==> Denillify(a, fill)[j] == a[j]
    ensures fill != Nil ==> Nil !in Denillify(a, fill)
    ensures Denillify(Denillify(a, fill), fill) == Denillify(a, fill)
  {
  }

  // ---------------------------------------------------------------------------
  // demote / promote

  /**
   * `demote(v)`, `sort_by { |x| x == v ? 0 : -1 }`: a permutation of the array
   * in which the copies of `v` form the tail. `sort_by` is not stable, so only
   * that much is promised; the model keeps the other elements in order.
   */
  function Demote(a: seq<Value>, v: Value): (r: seq<Value>)
    ensures multiset(r) == multiset(a)
    ensures forall j :: 0 <= j < |r| ==> (r[j] == v <==> j >= |a| - multiset(a)[v])
  {
    var rest := Filter(a, x => x != v);
    var copies := Repeat(v, multiset(a)[v]);
    RepeatCount(v, multiset(a)[v]);
    assert multiset(rest + copies) == multiset(a);
    rest + copies
  }

  /**
   * `promote(v)`, `sort_by { |x| x == v ? -1 : 0 }`: a permutation of the array
   * in which the copies of `v` form the head.
   */
  function Promote(a: seq<Value>, v: Value): (r: seq<Value>)
    ensures multiset(r) == multiset(a)
    ensures forall j :: 0 <= j < |r| ==> (r[j] == v <==> j < multiset(a)[v])
  {
    var rest := Filter(a, x => x != v);
    var copies := Repeat(v, multiset(a)[v]);
    RepeatCount(v, multiset(a)[v]);
    assert multiset(copies + rest) == multiset(a);
    copies + rest
  }

  // ---------------------------------------------------------------------------
  // duplicates

  /** The distinct elements, in order of first occurrence (the key order of a counting Hash). */
  function Dedup(a: seq<Value>): (r: seq<Value>)
    ensures Distinct(r)
    ensures forall x :: x in r <==> x in a
    ensures forall i, j :: 0 <= i < j < |r| ==> IndexOf(a, r[i]) < IndexOf(a, r[j])
    decreases |a|
  {
    if a == [] then []
    else
      var init := a[..|a| - 1];
      var last := a[|a| - 1];
      var d := Dedup(init);
      assert a == init + [last];
      DedupSnoc(init, last, d);
      if last in d then d else d + [last]
  }

  /** One more element keeps the three properties of `Dedup`. */
  lemma DedupSnoc(init: seq<Value>, last: Value, d: seq<Value>)
    requires Distinct(d)
    requires forall x :: x in d <==> x in init
    requires forall i, j :: 0 <= i < j < |d| ==> IndexOf(init, d[i]) < IndexOf(init, d[j])
    ensures var a, r := init + [last], if last in d then d else d + [last];
      && Distinct(r)
      && (forall x :: x in r <==> x in a)
      && (forall i, j :: 0 <= i < j < |r| ==> IndexOf(a, r[i]) < IndexOf(a, r[j]))
  {
    IndexOfSnoc(init, last);
    if last in d {
      DedupSnocSeen(init, last, d);
    } else {
      DedupSnocFresh(init, last, d);
      DistinctSnoc(d, last);
    }
  }

  lemma DedupSnocSeen(init: seq<Value>, last: Value, d: seq<Value>)
    requires forall x :: x in d ==> x in init
    requires forall i, j :: 0 <= i < j < |d| ==> IndexOf(init, d[i]) < IndexOf(init, d[j])
    requires forall x :: x in init ==> IndexOf(init + [last], x) == IndexOf(init, x)
    ensures forall i, j :: 0 <= i < j < |d| ==> IndexOf(init + [last], d[i]) < IndexOf(init + [last], d[j])
  {
    forall i, j | 0 <= i < j < |d| ensures IndexOf(init + [last], d[i]) < IndexOf(init + [last], d[j]) {
      assert d[i] in init && d[j] in init;
    }
  }

  lemma DedupSnocFresh(init: seq<Value>, last: Value, d: seq<Value>)
    requires forall x :: x in d ==> x in init
    requires forall i, j :: 0 <= i < j < |d| ==> IndexOf(init, d[i]) < IndexOf(init, d[j])
    requires forall x :: x in init ==> IndexOf(init + [last], x) == IndexOf(init, x)
    requires IndexOf(init + [last], last) == |init|
    ensures var r := d + [last];
      forall i, j :: 0 <= i < j < |r| ==> IndexOf(init + [last], r[i]) < IndexOf(init + [last], r[j])
  {
    var a, r := init + [last], d + [last];
    forall i, j | 0 <= i < j < |r| ensures IndexOf(a, r[i]) < IndexOf(a, r[j]) {
      assert r[i] == d[i] && d[i] in init;
      if j < |d| {
        assert r[j] == d[j] && d[j] in init;
      }
    }
  }

  /** Appending an element moves no first index, and a new element is found at the end. */
  lemma IndexOfSnoc(init: seq<Value>, last: Value)
    ensures forall x :: x in init ==> IndexOf(init + [last], x) == IndexOf(init, x)
    ensures last !in init ==> IndexOf(init + [last], last) == |init|
  {
    var a := init + [last];
    forall x | x in init ensures IndexOf(a, x) == IndexOf(init, x) {
      var k := IndexOf(init, x);
      assert a[..k] == init[..k];
    }
    if last !in init {
      assert a[..|init|] == init;
    }
  }

  /**
   * `duplicates(minimum)`: each element occurring at least `minimum` times,
   * once, in order of first occurrence.
   */
  function Duplicates(a: seq<Value>, minimum: int): (r: seq<Value>)
    ensures Distinct(r)
    ensures forall x :: x in r <==> x in a && multiset(a)[x] >= minimum
    ensures FirstOrdered(r, a)
  {
    var d := Dedup(a);
    var keep := x => multiset(a)[x] >= minimum;
    var r := Filter(d, keep);
    FilterDistinct(d, keep);
    FilterKeepsOrder(d, keep, a);
    forall x ensures x in r <==> x in a && multiset(a)[x] >= minimum {
      assert x in r <==> multiset(r)[x] > 0;
      assert x in d <==> multiset(d)[x] > 0;
    }
    r
  }

  /** The elements of `s` appear in the order of their first positions in `a`. */
  predicate FirstOrdered(s: seq<Value>, a: seq<Value>) {
    forall i, j :: 0 <= i < j < |s| ==> IndexOf(a, s[i]) < IndexOf(a, s[j])
  }

  /** Filtering keeps elements in the order of their first positions in `a`. */
  lemma {:induction false} FilterKeepsOrder(s: seq<Value>, keep: Value -> bool, a: seq<Value>)
    requires FirstOrdered(s, a)
    ensures FirstOrdered(Filter(s, keep), a)
    decreases |s|
  {
    if s != [] {
      var init, last := s[..|s| - 1], s[|s| - 1];
      assert s == init + [last];
      assert FirstOrdered(init, a) by {
        assert forall i :: 0 <= i < |init| ==> init[i] == s[i];
      }
      FilterKeepsOrder(init, keep, a);
      FilterSnoc(init, last, keep);
      var f := Filter(init, keep);
      if keep(last) {
        FilterMembers(init, keep);
        OrderedSnoc(f, init, last, a);
        assert Filter(s, keep) == f + [last];
      } else {
        assert Filter(s, keep) == f;
      }
    }
  }

  /** A filter keeps only elements of its input. */
  lemma FilterMembers(s: seq<Value>, keep: Value -> bool)
    ensures forall x :: x in Filter(s, keep) ==> x in s
  {
    forall x | x in Filter(s, keep) ensures x in s {
      assert multiset(Filter(s, keep))[x] > 0;
    }
  }

  /** Appending an element ranked after every element of `s`'s source keeps the order. */
  lemma OrderedSnoc(f: seq<Value>, init: seq<Value>, last: Value, a: seq<Value>)
    requires FirstOrdered(f, a) && FirstOrdered(init + [last], a)
    requires forall x :: x in f ==> x in init
    ensures FirstOrdered(f + [last], a)
  {
    var s := init + [last];
    forall x | x in f ensures IndexOf(a, x) < IndexOf(a, last) {
      var i :| 0 <= i < |init| && init[i] == x;
      assert s[i] == x && s[|init|] == last;
    }
    var r := f + [last];
    forall i, j | 0 <= i < j < |r| ensures IndexOf(a, r[i]) < IndexOf(a, r[j]) {
      assert r[i] == f[i];
      if j < |f| {
        assert r[j] == f[j];
      } else {
        assert r[i] in f;
      }
    }
  }

  /** Filtering keeps a sequence free of repetitions. */
  lemma {:induction false} FilterDistinct(s: seq<Value>, keep: Value -> bool)
    requires Distinct(s)
    ensures Distinct(Filter(s, keep))
    decreases |s|
  {
    if s != [] {
      var init, last := s[..|s| - 1], s[|s| - 1];
      FilterDistinct(init, keep);
      assert s == init + [last];
      FilterSnoc(init, last, keep);
      if keep(last) {
        assert last !in init;
        assert last !in multiset(Filter(init, keep));
        DistinctSnoc(Filter(init, keep), last);
      }
    }
  }

  lemma FilterSnoc(init: seq<Value>, last: Value, keep: Value -> bool)
    ensures Filter(init + [last], keep) == Filter(init, keep) + (if keep(last) then [last] else [])
  {
    assert (init + [last])[..|init|] == init;
  }

  lemma DistinctSnoc(xs: seq<Value>, y: Value)
    requires Distinct(xs) && y !in xs
    ensures Distinct(xs + [y])
  {
  }

  /** The default minimum of `duplicates`. */
  const DefaultMinimum: int := 2

  // ---------------------------------------------------------------------------
  // from / to

  /**
   * `from(p)`, i.e. `self[p, length] || []`: the elements from position `p`
   * on; a negative `p` counts from the end; out of range, `[]`.
   */
  function From(a: seq<Value>, p: int): (r: seq<Value>)
    ensures 0 <= p <= |a| ==> r == a[p..]
    ensures -|a| <= p < 0 ==> r == a[|a| + p..]
    ensures p > |a| || p < -|a| ==> r == []
  {
    if p < 0 then (if p + |a| < 0 then [] else a[p + |a|..])
    else if p > |a| then []
    else a[p..]
  }

  /**
   * `to(p)`: `first(p + 1)` for `p >= 0`, otherwise `self[0..p]`, the
   * elements up to position `p` counted from the end.
   */
  function To(a: seq<Value>, p: int): (r: seq<Value>)
    ensures 0 <= p < |a| ==> r == a[..p + 1]
    ensures p >= |a| ==> r == a
    ensures -|a| <= p < 0 ==> r == a[..|a| + p + 1]
    ensures p < -|a| ==> r == []
  {
    if p >= 0 then a[..if p + 1 < |a| then p + 1 else |a|]
    else if p + |a| < 0 then []
    else a[..p + |a| + 1]
  }

  /** `to(p)` and `from(p + 1)` split the array: together they are the whole of it. */
  lemma ToFromSplit(a: seq<Value>, p: int)
    requires p >= 0 || -|a| - 1 <= p <= -2
    ensures To(a, p) + From(a, p + 1) == a
  {
    if p >= |a| {
      assert From(a, p + 1) == [];
    } else if p >= 0 {
      assert a == a[..p + 1] + a[p + 1..];
    } else {
      assert a == a[..|a| + p + 1] + a[|a| + p + 1..];
    }
  }

  // ---------------------------------------------------------------------------
  // groups / in_groups_of

  /** `each_slice(n)`: consecutive parts of `n` elements, the last one possibly shorter. */
  function EachSlice(a: seq<Value>, n: int): (r: seq<seq<Value>>)
    requires n > 0
    ensures Flatten(r) == a
    ensures forall j :: 0 <= j < |r| - 1 ==> |r[j]| == n
    ensures |r| > 0 ==> 0 < |r[|r| - 1]| <= n
    decreases |a|
  {
    if a == [] then []
    else if |a| <= n then
      assert Flatten([a]) == a + Flatten([]);
      [a]
    else
      var rest := EachSlice(a[n..], n);
      assert ([a[..n]] + rest)[1..] == rest;
      assert a == a[..n] + a[n..];
      [a[..n]] + rest
  }

  /** The `j`-th full part of `groups`, `self[j * n, n]`. */
  function Chunk(a: seq<Value>, n: int, j: int): (r: seq<Value>)
    requires n > 0 && 0 <= j && (j + 1) * n <= |a|
    ensures |r| == n
  {
    a[j * n..j * n + n]
  }

  lemma ChunkBound(a: seq<Value>, n: int, j: int)
    requires n > 0 && 0 <= j < |a| / n
    ensures (j + 1) * n <= |a|
  {
    MulMonotone(j + 1, |a| / n, n);
  }

  /**
   * `groups(n)`: `[]` for `n <= 0`; otherwise the `length / n` full parts
   * `self[j * n, n]` followed, when `rem = length % n` is positive, by
   * `self[-rem, rem]`: the last `rem` elements.
   */
  function Groups(a: seq<Value>, n: int): (r: seq<seq<Value>>)
  {
    if n <= 0 then []
    else
      var rem := |a| % n;
      var full := FullChunks(a, n);
      if rem > 0 then full + [a[|a| - rem..]] else full
  }

  /** `(0..(num - 1)).collect { |j| self[j * n, n] }` with `num = length / n`. */
  function FullChunks(a: seq<Value>, n: int): (r: seq<seq<Value>>)
    requires n > 0
    ensures |r| == |a| / n
  {
    var num := |a| / n;
    seq(num, j requires 0 <= j < num => (ChunkBound(a, n, j); Chunk(a, n, j)))
  }

  /** Dropping the first `n` elements drops the first full part. */
  lemma FullChunksShift(a: seq<Value>, n: int)
    requires n > 0 && |a| >= n
    ensures |a[n..]| / n == |a| / n - 1 && |a[n..]| % n == |a| % n
    ensures FullChunks(a, n) == [a[..n]] + FullChunks(a[n..], n)
  {
    var b := a[n..];
    var num, rem := |a| / n, |a| % n;
    assert |b| == (num - 1) * n + rem;
    DivModUnique(|b|, n, num - 1, rem);
    var fa, fb := FullChunks(a, n), FullChunks(b, n);
    ChunkBound(a, n, 0);
    assert fa[0] == a[..n];
    forall j | 1 <= j < num
      ensures fa[j] == fb[j - 1]
    {
      ChunkBound(a, n, j);
      ChunkBound(b, n, j - 1);
      assert (j - 1) * n == j * n - n;
    }
  }

  /**
   * `groups` cuts the array exactly like `each_slice`: the remainder part is the
   * tail after the full parts and never overlaps them.
   */
  lemma {:induction false} GroupsIsEachSlice(a: seq<Value>, n: int)
    requires n > 0
    ensures Groups(a, n) == EachSlice(a, n)
    decreases |a|
  {
    if |a| > n {
      GroupsIsEachSlice(a[n..], n);
      GroupsShift(a, n);
    } else {
      GroupsShort(a, n);
    }
  }

  /** When the tail after the first part already agrees, so does the whole array. */
  lemma GroupsShift(a: seq<Value>, n: int)
    requires n > 0 && |a| > n && Groups(a[n..], n) == EachSlice(a[n..], n)
    ensures Groups(a, n) == EachSlice(a, n)
  {
    GroupsCons(a, n);
    assert EachSlice(a, n) == [a[..n]] + EachSlice(a[n..], n);
  }

  /** `groups` of an array longer than one part starts with `self[0, n]`, then groups the rest. */
  lemma GroupsCons(a: seq<Value>, n: int)
    requires n > 0 && |a| > n
    ensures Groups(a, n) == [a[..n]] + Groups(a[n..], n)
  {
    var b := a[n..];
    FullChunksShift(a, n);
    var rem := |a| % n;
    if rem > 0 {
      ModAtMost(|b|, n);
      TailOfTail(a, n, rem);
      ConcatAssoc([a[..n]], FullChunks(b, n), [b[|b| - rem..]]);
    }
  }

  lemma ModAtMost(x: int, n: int)
    requires x >= 0 && n > 0
    ensures x % n <= x
  {
    MulNonNegative(x / n, n);
  }

  /** The last `k` elements of a suffix are the last `k` elements of the whole. */
  lemma TailOfTail(a: seq<Value>, n: int, k: int)
    requires 0 <= n <= |a| && 0 <= k <= |a| - n
    ensures a[|a| - k..] == a[n..][|a| - n - k..]
  {
  }

  /** An array no longer than one part is one part, or none when empty. */
  lemma GroupsShort(a: seq<Value>, n: int)
    requires n > 0 && |a| <= n
    ensures Groups(a, n) == EachSlice(a, n)
  {
    if |a| == n {
      DivModUnique(|a|, n, 1, 0);
      ChunkBound(a, n, 0);
      assert 0 * n == 0;
      assert FullChunks(a, n)[0] == a[0..n] == a;
      assert FullChunks(a, n) == [a];
    } else if a != [] {
      DivModUnique(|a|, n, 0, |a|);
    }
  }

  /**
   * `groups(n)` for `n > 0`: every part but the last has `n` elements, the last
   * has between 1 and `n`, and the parts concatenate to the array.
   */
  lemma GroupsPartition(a: seq<Value>, n: int)
    ensures n <= 0 ==> Groups(a, n) == []
    ensures n > 0 ==> Flatten(Groups(a, n)) == a
    ensures n > 0 ==> forall j :: 0 <= j < |Groups(a, n)| - 1 ==> |Groups(a, n)[j]| == n
    ensures n > 0 && a != [] ==> 0 < |Groups(a, n)[|Groups(a, n)| - 1]| <= n
  {
    if n > 0 {
      GroupsIsEachSlice(a, n);
    }
  }

  /** The number of fill elements `in_groups_of` appends. */
  function Padding(len: nat, n: int): (p: int)
    requires n > 0
    ensures 0 <= p < n && (len + p) % n == 0
  {
    var q, m := len / n, len % n;
    if m == 0 then
      DivModUnique(n, n, 1, 0);
      DivModUnique(len, n, q, 0);
      (n - len % n) % n
    else
      DivModUnique(n - m, n, 0, n - m);
      DivModUnique(len + n - m, n, q + 1, 0);
      (n - len % n) % n
  }

  /**
   * `in_groups_of(n, fill)`: ArgumentError unless `n` is positive; otherwise
   * `each_slice(n)` of the array padded with `fill` up to a multiple of `n`,
   * or unpadded when `fill` is `false`.
   */
  function InGroupsOf(a: seq<Value>, n: int, fill: Value): (r: Result<seq<seq<Value>>>)
    ensures r.Err? <==> n <= 0
    ensures r.Ok? ==> Flatten(r.value) == a + (if fill == Bool(false) then [] else Repeat(fill, Padding(|a|, n)))
    ensures r.Ok? ==> forall j :: 0 <= j < |r.value| - 1 ==> |r.value[j]| == n
    ensures r.Ok? && fill != Bool(false) ==> forall j :: 0 <= j < |r.value| ==> |r.value[j]| == n
  {
    if n <= 0 then Err(ArgumentError("Group length must be a positive integer, was " + IntToString(n)))
    else if fill == Bool(false) then Ok(EachSlice(a, n))
    else
      var padded := a + Repeat(fill, Padding(|a|, n));
      SlicesOfMultipleAreFull(padded, n);
      Ok(EachSlice(padded, n))
  }

  /** When the length is a multiple of `n`, every part of `each_slice(n)` is full. */
  lemma SlicesOfMultipleAreFull(a: seq<Value>, n: int)
    requires n > 0 && |a| % n == 0
    ensures forall j :: 0 <= j < |EachSlice(a, n)| ==> |EachSlice(a, n)[j]| == n
  {
    var r := EachSlice(a, n);
    if |r| > 0 {
      var last := r[|r| - 1];
      assert Flatten(r) == Flatten(r[..|r| - 1]) + last by {
        assert r == r[..|r| - 1] + [last];
        FlattenSnoc(r[..|r| - 1], last);
      }
      FlattenLength(r[..|r| - 1], n);
      assert |a| == (|r| - 1) * n + |last|;
      if |last| < n {
        DivModUnique(|a|, n, |r| - 1, |last|);
      }
    }
  }



  // ---------------------------------------------------------------------------
  // in_groups

  /** How many elements of the array group `i` of `in_groups(n)` takes. */
  function GroupSize(len: nat, n: int, i: int): nat
    requires n > 0
  {
    len / n + (if len % n > 0 && len % n > i then 1 else 0)
  }

  /** Where group `i` of `in_groups(n)` starts: after `i` groups, the first `len % n` of them one longer. */
  function GroupStart(len: nat, n: int, i: int): int
    requires n > 0 && 0 <= i
  {
    i * (len / n) + (if i < len % n then i else len % n)
  }

  lemma GroupStartBounds(len: nat, n: int, i: int)
    requires n > 0 && 0 <= i <= n
    ensures 0 <= GroupStart(len, n, i) <= len
    ensures i < n ==> GroupStart(len, n, i + 1) == GroupStart(len, n, i) + GroupSize(len, n, i)
    ensures GroupStart(len, n, n) == len
  {
    MulNonNegative(i, len / n);
    MulMonotone(i, n, len / n);
    assert (i + 1) * (len / n) == i * (len / n) + len / n;
    assert n * (len / n) == (len / n) * n;
  }

  /** The elements of the array group `i` of `in_groups(n)` takes, before any padding. */
  function GroupSlice(a: seq<Value>, n: int, i: int): (r: seq<Value>)
    requires n > 0 && 0 <= i < n
    ensures |r| == GroupSize(|a|, n, i)
  {
    GroupStartBounds(|a|, n, i);
    GroupStartBounds(|a|, n, i + 1);
    a[GroupStart(|a|, n, i)..GroupStart(|a|, n, i + 1)]
  }

  /** Group `i` of `in_groups(n, fill)`: its slice, plus `fill` when it is a short group to be padded. */
  function Group(a: seq<Value>, n: int, fill: Value, i: int): seq<Value>
    requires n > 0 && 0 <= i < n
  {
    GroupSlice(a, n, i)
      + (if fill != Bool(false) && |a| % n > 0 && GroupSize(|a|, n, i) == |a| / n then [fill] else [])
  }

  /**
   * `in_groups(n, fill)`: exactly `n` groups, as even as possible. Division
   * by zero raises; a negative `n` runs the loop zero times.
   */
  method InGroups(a: seq<Value>, n: int, fill: Value) returns (r: Result<seq<seq<Value>>>)
    ensures n == 0 <==> r == Err(ZeroDivisionError)
    ensures n < 0 ==> r == Ok([])
    ensures n > 0 ==> r.Ok? && |r.value| == n
    ensures n > 0 ==> forall i :: 0 <= i < n ==> r.value[i] == Group(a, n, fill, i)
  {
    if n == 0 {
      return Err(ZeroDivisionError);
    }
    if n < 0 {
      // `number.times` does nothing for a negative count.
      return Ok([]);
    }
    var len := |a|;
    var division := len / n;
    var modulo := len % n;
    var collection: seq<seq<Value>> := [];
    var start := 0;
    var k := 0;
    while k < n
      invariant 0 <= k <= n
      invariant start == GroupStart(len, n, k)
      invariant |collection| == k
      invariant forall i :: 0 <= i < k ==> collection[i] == Group(a, n, fill, i)
    {
      GroupStartBounds(len, n, k);
      GroupStartBounds(len, n, k + 1);
      var modGtZero := modulo > 0;
      var grouping := division + (if modGtZero && modulo > k then 1 else 0);
      var lastGroup := a[start..start + grouping];
      if fill != Bool(false) && modGtZero && grouping == division {
        lastGroup := lastGroup + [fill];
      }
      collection := collection + [lastGroup];
      start := start + grouping;
      k := k + 1;
    }
    return Ok(collection);
  }

  /** The first `k` groups of `in_groups(n)` without their padding. */
  function GroupSlices(a: seq<Value>, n: int, k: int): (r: seq<seq<Value>>)
    requires n > 0 && 0 <= k <= n
    ensures |r| == k
    ensures forall i :: 0 <= i < k ==> r[i] == GroupSlice(a, n, i)
    decreases k
  {
    if k == 0 then [] else GroupSlices(a, n, k - 1) + [GroupSlice(a, n, k - 1)]
  }

  /** The unpadded groups concatenate to the array: `in_groups` loses and repeats nothing. */
  lemma InGroupsCover(a: seq<Value>, n: int)
    requires n > 0
    ensures Flatten(GroupSlices(a, n, n)) == a
  {
    GroupSlicesFlatten(a, n, n);
    GroupStartBounds(|a|, n, n);
  }

  lemma {:induction false} GroupSlicesFlatten(a: seq<Value>, n: int, k: int)
    requires n > 0 && 0 <= k <= n
    ensures 0 <= GroupStart(|a|, n, k) <= |a|
    ensures Flatten(GroupSlices(a, n, k)) == a[..GroupStart(|a|, n, k)]
    decreases k
  {
    GroupStartBounds(|a|, n, k);
    if k > 0 {
      GroupSlicesFlatten(a, n, k - 1);
      GroupStartBounds(|a|, n, k - 1);
      var s0, s1 := GroupStart(|a|, n, k - 1), GroupStart(|a|, n, k);
      FlattenSliceStep(a, GroupSlices(a, n, k - 1), s0, s1);
      assert GroupSlices(a, n, k) == GroupSlices(a, n, k - 1) + [a[s0..s1]];
    }
  }

  /** Parts that flatten to `a[..s0]`, followed by `a[s0..s1]`, flatten to `a[..s1]`. */
  lemma FlattenSliceStep(a: seq<Value>, parts: seq<seq<Value>>, s0: int, s1: int)
    requires 0 <= s0 <= s1 <= |a| && Flatten(parts) == a[..s0]
    ensures Flatten(parts + [a[s0..s1]]) == a[..s1]
  {
    FlattenSnoc(parts, a[s0..s1]);
    PrefixCut(a, s0, s1);
  }

  /**
   * The first `length % n` groups are one longer than the others; with
   * padding and a remainder every group ends up `length / n + 1` long, and
   * without them every group is its unpadded slice.
   */
  lemma InGroupsSizes(a: seq<Value>, n: int, fill: Value, i: int)
    requires n > 0 && 0 <= i < n
    ensures GroupSize(|a|, n, i) == |a| / n + (if i < |a| % n then 1 else 0)
    ensures fill != Bool(false) && |a| % n > 0 ==> |Group(a, n, fill, i)| == |a| / n + 1
    ensures fill == Bool(false) || |a| % n == 0 ==> Group(a, n, fill, i) == GroupSlice(a, n, i)
  {
  }

  // ---------------------------------------------------------------------------
  // indexes / positions / position / rposition

  /** The positions holding `v`, ascending. */
  function IndexesOf(a: seq<Value>, v: Value): (r: seq<int>)
    decreases |a|
  {
    if a == [] then []
    else IndexesOf(a[..|a| - 1], v) + (if a[|a| - 1] == v then [|a| - 1] else [])
  }

  /** `indexes(v)`: the loop of the source, proved to compute `IndexesOf`. */
  method Indexes(a: seq<Value>, v: Value) returns (results: seq<int>)
    ensures results == IndexesOf(a, v)
  {
    results := [];
    var i := 0;
    while i < |a|
      invariant 0 <= i <= |a|
      invariant results == IndexesOf(a[..i], v)
    {
      assert a[..i + 1][..i] == a[..i];
      if a[i] == v {
        results := results + [i];
      }
      i := i + 1;
    }
    assert a[..|a|] == a;
  }

  /**
   * The indexes of `v` are strictly increasing, all hold `v`, include every
   * position that holds `v`, and there are as many as copies of `v`.
   */
  lemma IndexesOfSpec(a: seq<Value>, v: Value)
    ensures forall j, k :: 0 <= j < k < |IndexesOf(a, v)| ==> IndexesOf(a, v)[j] < IndexesOf(a, v)[k]
    ensures forall j :: 0 <= j < |IndexesOf(a, v)| ==> 0 <= IndexesOf(a, v)[j] < |a| && a[IndexesOf(a, v)[j]] == v
    ensures forall i :: 0 <= i < |a| && a[i] == v ==> i in IndexesOf(a, v)
    ensures |IndexesOf(a, v)| == multiset(a)[v]
  {
    IndexesOfSound(a, v);
    IndexesOfComplete(a, v);
    IndexesOfCount(a, v);
  }

  /** The indexes are strictly increasing and each holds `v`. */
  lemma IndexesOfSound(a: seq<Value>, v: Value)
    ensures forall j, k :: 0 <= j < k < |IndexesOf(a, v)| ==> IndexesOf(a, v)[j] < IndexesOf(a, v)[k]
    ensures forall j :: 0 <= j < |IndexesOf(a, v)| ==> 0 <= IndexesOf(a, v)[j] < |a| && a[IndexesOf(a, v)[j]] == v
  {
    IndexesOfHold(a, v);
    IndexesOfAscending(a, v);
  }

  /** Each index is a position of the array that holds `v`. */
  lemma {:induction false} IndexesOfHold(a: seq<Value>, v: Value)
    ensures forall j :: 0 <= j < |IndexesOf(a, v)| ==> 0 <= IndexesOf(a, v)[j] < |a| && a[IndexesOf(a, v)[j]] == v
    decreases |a|
  {
    if a != [] {
      var init := a[..|a| - 1];
      IndexesOfHold(init, v);
      assert forall j :: 0 <= j < |init| ==> a[j] == init[j];
    }
  }

  /** The indexes are strictly increasing. */
  lemma {:induction false} IndexesOfAscending(a: seq<Value>, v: Value)
    ensures forall j, k :: 0 <= j < k < |IndexesOf(a, v)| ==> IndexesOf(a, v)[j] < IndexesOf(a, v)[k]
    decreases |a|
  {
    if a != [] {
      var init := a[..|a| - 1];
      IndexesOfAscending(init, v);
      IndexesOfHold(init, v);
    }
  }

  /** Every position that holds `v` is among the indexes. */
  lemma {:induction false} IndexesOfComplete(a: seq<Value>, v: Value)
    ensures forall i :: 0 <= i < |a| && a[i] == v ==> i in IndexesOf(a, v)
    decreases |a|
  {
    if a != [] {
      var init := a[..|a| - 1];
      IndexesOfComplete(init, v);
      assert forall j :: 0 <= j < |init| ==> a[j] == init[j];
    }
  }

  /** There are as many indexes as copies of `v`. */
  lemma {:induction false} IndexesOfCount(a: seq<Value>, v: Value)
    ensures |IndexesOf(a, v)| == multiset(a)[v]
    decreases |a|
  {
    if a != [] {
      var init := a[..|a| - 1];
      IndexesOfCount(init, v);
      assert a == init + [a[|a| - 1]];
    }
  }

  /** `positions(v)`: the indexes of `v`, counted from 1. */
  function Positions(a: seq<Value>, v: Value): (r: seq<int>)
    ensures |r| == |IndexesOf(a, v)|
    ensures forall j :: 0 <= j < |r| ==> r[j] == IndexesOf(a, v)[j] + 1
  {
    var ix := IndexesOf(a, v);
    seq(|ix|, j requires 0 <= j < |ix| => ix[j] + 1)
  }

  /** `position(v)`: the first index of `v` counted from 1, or `nil`. */
  function Position(a: seq<Value>, v: Value): (r: Option<int>)
    ensures r.None? <==> v !in a
    ensures r.Some? ==> 1 <= r.value <= |a| && a[r.value - 1] == v && v !in a[..r.value - 1]
  {
    var idx := IndexOf(a, v);
    if idx < 0 then None else Some(idx + 1)
  }

  /** `rposition(v)`: the last index of `v` counted from 1, or `nil`. */
  function RPosition(a: seq<Value>, v: Value): (r: Option<int>)
    ensures r.None? <==> v !in a
    ensures r.Some? ==> 1 <= r.value <= |a| && a[r.value - 1] == v && v !in a[r.value..]
  {
    var idx := RIndexOf(a, v);
    if idx < 0 then None else Some(idx + 1)
  }

  /** `position` and `rposition` are the first and the last of `positions`. */
  lemma PositionsEnds(a: seq<Value>, v: Value)
    requires v in a
    ensures |Positions(a, v)| > 0
    ensures Position(a, v) == Some(Positions(a, v)[0])
    ensures RPosition(a, v) == Some(Positions(a, v)[|Positions(a, v)| - 1])
  {
    PositionIsFirst(a, v);
    RPositionIsLast(a, v);
  }

  lemma PositionIsFirst(a: seq<Value>, v: Value)
    requires v in a
    ensures |Positions(a, v)| > 0 && Position(a, v) == Some(Positions(a, v)[0])
  {
    var ix := IndexesOf(a, v);
    var f := IndexOf(a, v);
    IndexesOfSound(a, v);
    IndexesOfComplete(a, v);
    assert f in ix;
    FirstOfAscending(ix, f, a, v);
  }

  lemma RPositionIsLast(a: seq<Value>, v: Value)
    requires v in a
    ensures |Positions(a, v)| > 0 && RPosition(a, v) == Some(Positions(a, v)[|Positions(a, v)| - 1])
  {
    var ix := IndexesOf(a, v);
    var l := RIndexOf(a, v);
    IndexesOfSound(a, v);
    IndexesOfComplete(a, v);
    assert l in ix;
    LastOfAscending(ix, l, a, v);
  }

  lemma FirstOfAscending(ix: seq<int>, f: int, a: seq<Value>, v: Value)
    requires f in ix && 0 <= f < |a| && v !in a[..f]
    requires forall j :: 0 <= j < |ix| ==> 0 <= ix[j] < |a| && a[ix[j]] == v
    requires forall j, k :: 0 <= j < k < |ix| ==> ix[j] < ix[k]
    ensures ix[0] == f
  {
    var t :| 0 <= t < |ix| && ix[t] == f;
  }

  lemma LastOfAscending(ix: seq<int>, l: int, a: seq<Value>, v: Value)
    requires l in ix && 0 <= l < |a| && v !in a[l + 1..]
    requires forall j :: 0 <= j < |ix| ==> 0 <= ix[j] < |a| && a[ix[j]] == v
    requires forall j, k :: 0 <= j < k < |ix| ==> ix[j] < ix[k]
    ensures ix[|ix| - 1] == l
  {
    var t :| 0 <= t < |ix| && ix[t] == l;
  }

  // ---------------------------------------------------------------------------
  // split

  /** The block `{ |x| x == sep }`. */
  function Equals(sep: Value): Value -> bool {
    x => x == sep
  }

  /**
   * `split { |x| sep?(x) }`: starting from `[[]]`, an element for which the
   * block is true opens a new part, any other is appended to the last part.
   */
  function SplitBy(a: seq<Value>, isSep: Value -> bool): (r: seq<seq<Value>>)
    ensures |r| >= 1
    decreases |a|
  {
    if a == [] then [[]]
    else
      var r := SplitBy(a[..|a| - 1], isSep);
      var x := a[|a| - 1];
      if isSep(x) then r + [[]] else ExtendLast(r, [x])
  }

  /** Appending elements that are not separators extends the last part. */
  lemma {:induction false} SplitByNoSeparator(x: seq<Value>, ys: seq<Value>, isSep: Value -> bool)
    requires forall j :: 0 <= j < |ys| ==> !isSep(ys[j])
    ensures SplitBy(x + ys, isSep) == ExtendLast(SplitBy(x, isSep), ys)
    decreases |ys|
  {
    var r := SplitBy(x, isSep);
    if ys == [] {
      assert x + ys == x;
      assert r[|r| - 1] + ys == r[|r| - 1];
      assert r == r[..|r| - 1] + [r[|r| - 1]];
    } else {
      var init, y := ys[..|ys| - 1], ys[|ys| - 1];
      SplitByNoSeparator(x, init, isSep);
      assert (x + ys)[..|x + ys| - 1] == x + init;
      ExtendLastTwice(r, init, [y]);
      assert init + [y] == ys;
    }
  }

  /** No element of a sequence without `sep` satisfies the block `x == sep`. */
  lemma SeparatorFree(ys: seq<Value>, sep: Value)
    requires sep !in ys
    ensures forall j :: 0 <= j < |ys| ==> !Equals(sep)(ys[j])
  {
    forall j | 0 <= j < |ys| ensures !Equals(sep)(ys[j]) {
      assert ys[j] in ys;
    }
  }

  /** `SplitBy` on a sequence with one more element. */
  lemma SplitBySnoc(x: seq<Value>, y: Value, isSep: Value -> bool)
    ensures SplitBy(x + [y], isSep)
         == if isSep(y) then SplitBy(x, isSep) + [[]] else ExtendLast(SplitBy(x, isSep), [y])
  {
    assert (x + [y])[..|x|] == x;
  }

  /** A prefix cut at `n` is the prefix cut at `c` followed by the slice in between. */
  lemma PrefixCut(a: seq<Value>, c: int, n: int)
    requires 0 <= c <= n <= |a|
    ensures a[..n] == a[..c] + a[c..n]
  {
  }

  /** The prefix of length `n + 1` is the prefix of length `n` and the element at `n`. */
  lemma PrefixSnoc(a: seq<Value>, n: int)
    requires 0 <= n < |a|
    ensures a[..n + 1] == a[..n] + [a[n]]
  {
  }

  /** One round of the loop of `split(sep)`: the elements up to the next separator, then the separator. */
  lemma SplitOnStep(a: seq<Value>, c: int, idx: int, sep: Value)
    requires 0 <= c && 0 <= idx && c + idx < |a| && a[c + idx] == sep && sep !in a[c..c + idx]
    ensures var r := SplitBy(a[..c], Equals(sep));
            SplitBy(a[..c + idx + 1], Equals(sep)) == ExtendLast(r, a[c..c + idx]) + [[]]
  {
    var ys := a[c..c + idx];
    var x := a[..c + idx];
    assert SplitBy(a[..c] + ys, Equals(sep)) == ExtendLast(SplitBy(a[..c], Equals(sep)), ys) by {
      SeparatorFree(ys, sep);
      SplitByNoSeparator(a[..c], ys, Equals(sep));
    }
    assert x == a[..c] + ys by {
      PrefixCut(a, c, c + idx);
    }
    assert a[..c + idx + 1] == x + [sep] by {
      PrefixSnoc(a, c + idx);
    }
    SplitByAtSeparator(x, sep);
    calc {
      SplitBy(a[..c + idx + 1], Equals(sep));
      SplitBy(x + [sep], Equals(sep));
      SplitBy(x, Equals(sep)) + [[]];
      SplitBy(a[..c] + ys, Equals(sep)) + [[]];
      ExtendLast(SplitBy(a[..c], Equals(sep)), ys) + [[]];
    }
  }

  /** A separator at the end opens a new, empty part. */
  lemma SplitByAtSeparator(x: seq<Value>, sep: Value)
    ensures SplitBy(x + [sep], Equals(sep)) == SplitBy(x, Equals(sep)) + [[]]
  {
    SplitBySnoc(x, sep, Equals(sep));
  }

  /** The last round of the loop of `split(sep)`: no separator is left. */
  lemma SplitOnRest(a: seq<Value>, c: int, sep: Value)
    requires 0 <= c <= |a| && sep !in a[c..]
    ensures var r := SplitBy(a[..c], Equals(sep));
            SplitBy(a, Equals(sep)) == ExtendLast(r, a[c..])
  {
    SeparatorFree(a[c..], sep);
    SplitByNoSeparator(a[..c], a[c..], Equals(sep));
    SplitByRejoin(a, c, Equals(sep));
  }

  /** Splitting the array or its two halves put back together is the same. */
  lemma SplitByRejoin(a: seq<Value>, c: int, isSep: Value -> bool)
    requires 0 <= c <= |a|
    ensures SplitBy(a, isSep) == SplitBy(a[..c] + a[c..], isSep)
  {
    Rejoin(a, c);
  }

  lemma Rejoin(a: seq<Value>, c: int)
    requires 0 <= c <= |a|
    ensures a[..c] + a[c..] == a
  {
  }

  /** Cutting the remainder `a[c..]` of the loop around the separator found at `idx`. */
  lemma RemainderCut(a: seq<Value>, c: int, arr: seq<Value>, idx: int)
    requires 0 <= c <= |a| && arr == a[c..] && 0 <= idx < |arr|
    ensures arr[..idx] == a[c..c + idx] && arr[idx + 1..] == a[c + idx + 1..] && arr[idx] == a[c + idx]
  {
  }

  /**
   * `split(sep)`: the loop of the source. It repeatedly moves the elements up
   * to the next separator into the last part, drops the separator and opens a
   * new part. Proved equal to the block form with `x == sep`.
   */
  method SplitOn(a: seq<Value>, sep: Value) returns (results: seq<seq<Value>>)
    ensures results == SplitBy(a, Equals(sep))
  {
    results := [[]];
    var arr := a;
    ghost var c := 0;
    while arr != []
      invariant 0 <= c <= |a| && arr == a[c..]
      invariant results == SplitBy(a[..c], Equals(sep))
      decreases |arr|
    {
      var idx := IndexOf(arr, sep);
      if idx >= 0 {
        RemainderCut(a, c, arr, idx);
        results := ExtendLast(results, arr[..idx]) + [[]];
        assert results == SplitBy(a[..c + idx + 1], Equals(sep)) by {
          SplitOnStep(a, c, idx, sep);
        }
        arr := arr[idx + 1..];
        c := c + idx + 1;
      } else {
        results := ExtendLast(results, arr);
        SplitOnRest(a, c, sep);
        arr := [];
        c := |a|;
        assert a[..c] == a;
      }
    }
    assert a[..c] == a;
  }

  /** The block form that keeps the elements `isSep` rejects. */
  function Negate(isSep: Value -> bool): Value -> bool {
    x => !isSep(x)
  }

  /** `split` yields one part more than there are separators. */
  lemma {:induction false} SplitByCount(a: seq<Value>, isSep: Value -> bool)
    ensures |SplitBy(a, isSep)| == |Filter(a, isSep)| + 1
    decreases |a|
  {
    if a != [] {
      SplitByCount(a[..|a| - 1], isSep);
    }
  }

  /** No part of `split` holds a separator. */
  lemma {:induction false} SplitBySeparatorFree(a: seq<Value>, isSep: Value -> bool)
    ensures forall j, k :: 0 <= j < |SplitBy(a, isSep)| && 0 <= k < |SplitBy(a, isSep)[j]| ==> !isSep(SplitBy(a, isSep)[j][k])
    decreases |a|
  {
    if a != [] {
      SplitBySeparatorFree(a[..|a| - 1], isSep);
    }
  }

  /** The parts of `split` concatenate to the array without its separators. */
  lemma {:induction false} SplitByFlatten(a: seq<Value>, isSep: Value -> bool)
    ensures Flatten(SplitBy(a, isSep)) == Filter(a, Negate(isSep))
    decreases |a|
  {
    if a == [] {
      assert Flatten<Value>([[]]) == [] + Flatten<Value>([]);
    } else {
      var init := a[..|a| - 1];
      var x := a[|a| - 1];
      SplitByFlatten(init, isSep);
      var r := SplitBy(init, isSep);
      var keep := Negate(isSep);
      assert Filter(a, keep) == Filter(init, keep) + (if keep(x) then [x] else []);
      if isSep(x) {
        FlattenSnoc(r, []);
        assert Flatten(r) + [] == Flatten(r);
      } else {
        FlattenExtendLast(r, [x]);
      }
    }
  }

  /** The parts joined back with one `s` between neighbours: `parts[0] + [s] + parts[1] + ...`. */
  function Intercalate(parts: seq<seq<Value>>, s: Value): seq<Value>
    requires |parts| >= 1
    decreases |parts|
  {
    if |parts| == 1 then parts[0] else Intercalate(parts[..|parts| - 1], s) + [s] + parts[|parts| - 1]
  }

  /** Splitting on a separator value and intercalating it back gives the array again. */
  lemma {:induction false} SplitOnRoundTrip(a: seq<Value>, sep: Value)
    ensures Intercalate(SplitBy(a, Equals(sep)), sep) == a
    decreases |a|
  {
    if a != [] {
      var init := a[..|a| - 1];
      var x := a[|a| - 1];
      SplitOnRoundTrip(init, sep);
      var r := SplitBy(init, Equals(sep));
      assert a == init + [x];
      if x == sep {
        assert (r + [[]])[..|r|] == r;
      } else {
        LastPartIntercalate(r, sep, x);
      }
    }
  }

  lemma LastPartIntercalate(r: seq<seq<Value>>, s: Value, x: Value)
    requires |r| >= 1
    ensures Intercalate(ExtendLast(r, [x]), s) == Intercalate(r, s) + [x]
  {
    var r' := ExtendLast(r, [x]);
    if |r| > 1 {
      var front := Intercalate(r[..|r| - 1], s) + [s];
      assert Intercalate(r', s) == front + (r[|r| - 1] + [x]);
      ConcatAssoc(front, r[|r| - 1], [x]);
    }
  }

  /** The empty array splits into one empty part. */
  lemma SplitEmpty(sep: Value)
    ensures SplitBy([], Equals(sep)) == [[]]
  {
  }

  // ---------------------------------------------------------------------------
  // to_sentence

  /** The text `Array#join` produces for one element: nested arrays are joined recursively. */
  function JoinItem(v: Value, sep: string): string
    decreases v
  {
    match v
    case Arr(xs) => Join(seq(|xs|, j requires 0 <= j < |xs| => JoinItem(xs[j], sep)), sep)
    case _ => ToS(v)
  }

  /** `join(sep)` */
  function JoinValues(xs: seq<Value>, sep: string): string {
    Join(seq(|xs|, j requires 0 <= j < |xs| => JoinItem(xs[j], sep)), sep)
  }

  /** The three connectors `to_sentence` accepts as options. */
  datatype SentenceOptions = SentenceOptions(wordsConnector: string, twoWordsConnector: string, lastWordConnector: string)

  /** The connectors used where the caller gives none. */
  const DefaultSentenceOptions := SentenceOptions(", ", " and ", ", and ")

  /**
   * `to_sentence(options)`: "" for no elements, the element's text for one,
   * the two joined by the two-words connector, otherwise all but the last
   * joined by the words connector, then the last-word connector and the last.
   */
  function ToSentence(a: seq<Value>, o: SentenceOptions): (r: string)
  {
    if |a| == 0 then ""
    else if |a| == 1 then ToS(a[0])
    else if |a| == 2 then ToS(a[0]) + o.twoWordsConnector + ToS(a[1])
    else JoinValues(a[..|a| - 1], o.wordsConnector) + o.lastWordConnector + ToS(a[|a| - 1])
  }

  /** The examples of the library's documentation, with the default connectors. */
  lemma ToSentenceExamples()
    ensures ToSentence([], DefaultSentenceOptions) == ""
    ensures ToSentence([Str("a")], DefaultSentenceOptions) == "a"
    ensures ToSentence([Str("a"), Str("b")], DefaultSentenceOptions) == "a and b"
    ensures ToSentence([Str("a"), Str("b"), Str("c")], DefaultSentenceOptions) == "a, b, and c"
  {
    var a := [Str("a"), Str("b"), Str("c")];
    assert a[..2] == [Str("a"), Str("b")];
    var parts := seq(2, j requires 0 <= j < 2 => JoinItem(a[..2][j], ", "));
    assert parts == ["a", "b"];
    assert Join(["a", "b"], ", ") == Join(["a"], ", ") + ", " + "b";
  }

  /** Joining elements none of which is an array starts with the first element's text. */
  lemma JoinStartsWithFirst(xs: seq<Value>, sep: string)
    requires |xs| >= 1 && !xs[0].Arr?
    ensures ToS(xs[0]) <= JoinValues(xs, sep)
  {
    var parts := seq(|xs|, j requires 0 <= j < |xs| => JoinItem(xs[j], sep));
    JoinPrefix(parts, sep);
  }

  lemma {:induction false} JoinPrefix(parts: seq<string>, sep: string)
    requires |parts| >= 1
    ensures parts[0] <= Join(parts, sep)
    decreases |parts|
  {
    if |parts| > 1 {
      JoinPrefix(parts[..|parts| - 1], sep);
    }
  }

  /**
   * The sentence ends with the last element's text, preceded by the
   * last-word connector when there are three or more elements; with two or
   * more it begins with the first element's text when that is not an array.
   */
  lemma ToSentenceFrame(a: seq<Value>, o: SentenceOptions)
    requires |a| >= 1
    ensures IsSuffix(ToS(a[|a| - 1]), ToSentence(a, o))
    ensures |a| >= 2 && !a[0].Arr? ==> ToS(a[0]) <= ToSentence(a, o)
    ensures |a| >= 3 ==> IsSuffix(o.lastWordConnector + ToS(a[|a| - 1]), ToSentence(a, o))
  {
    ToSentenceEnds(a, o);
    if |a| >= 2 && !a[0].Arr? {
      ToSentenceStarts(a, o);
    }
  }

  /** `t` is a suffix of `r`. */
  predicate IsSuffix(t: string, r: string) {
    |t| <= |r| && r[|r| - |t|..] == t
  }

  lemma ToSentenceEnds(a: seq<Value>, o: SentenceOptions)
    requires |a| >= 1
    ensures IsSuffix(ToS(a[|a| - 1]), ToSentence(a, o))
    ensures |a| >= 3 ==> IsSuffix(o.lastWordConnector + ToS(a[|a| - 1]), ToSentence(a, o))
  {
    if |a| >= 3 {
      ToSentenceEndsMany(a, o);
    } else {
      ToSentenceEndsFew(a, o);
    }
  }

  /** With one or two elements the sentence ends with the last element. */
  lemma ToSentenceEndsFew(a: seq<Value>, o: SentenceOptions)
    requires 1 <= |a| <= 2
    ensures IsSuffix(ToS(a[|a| - 1]), ToSentence(a, o))
  {
    var t := ToS(a[|a| - 1]);
    if |a| == 1 {
      assert ToSentence(a, o) == "" + "" + t;
      ThreePartTail(ToSentence(a, o), "", "", t);
    } else {
      ThreePartTail(ToSentence(a, o), ToS(a[0]), o.twoWordsConnector, t);
    }
  }

  /** With three or more elements the sentence ends with the last connector and the last element. */
  lemma ToSentenceEndsMany(a: seq<Value>, o: SentenceOptions)
    requires |a| >= 3
    ensures IsSuffix(ToS(a[|a| - 1]), ToSentence(a, o))
    ensures IsSuffix(o.lastWordConnector + ToS(a[|a| - 1]), ToSentence(a, o))
  {
    var n := |a|;
    ThreePartTail(ToSentence(a, o), JoinValues(a[..n - 1], o.wordsConnector), o.lastWordConnector, ToS(a[n - 1]));
  }

  /** The last two parts of a three-part concatenation are suffixes of it. */
  lemma ThreePartTail(r: string, p: string, c: string, t: string)
    requires r == p + c + t
    ensures IsSuffix(t, r) && IsSuffix(c + t, r)
  {
    assert r[|p + c|..] == t;
    assert r[|p|..] == c + t;
  }

  lemma ToSentenceStarts(a: seq<Value>, o: SentenceOptions)
    requires |a| >= 2 && !a[0].Arr?
    ensures ToS(a[0]) <= ToSentence(a, o)
  {
    var n := |a|;
    var r, t := ToSentence(a, o), ToS(a[n - 1]);
    if n == 2 {
      ThreePartHead(r, ToS(a[0]), o.twoWordsConnector, t);
    } else {
      var p := JoinValues(a[..n - 1], o.wordsConnector);
      JoinStartsWithFirst(a[..n - 1], o.wordsConnector);
      ThreePartHead(r, p, o.lastWordConnector, t);
    }
  }

  /** The first part of a three-part concatenation is a prefix of it. */
  lemma ThreePartHead(r: string, p: string, c: string, t: string)
    requires r == p + c + t
    ensures p <= r
  {
    assert r[..|p|] == p;
  }
}
