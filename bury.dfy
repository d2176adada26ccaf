/**
 * `Array#bury` and `Hash#bury` (lib/lite/ruby/array.rb and hash.rb): store
 * the last argument at the path the others spell out, creating empty
 * containers on the way. The two methods call each other through the
 * intermediate values, so they are modelled together, on values. Each level
 * stores its intermediate container in place before it recurses, so a raise
 * from a deeper level keeps the stores already made: every call answers the
 * contents it leaves behind together with how it ended.
 */
module Bury {
  import opened Outcomes
  import opened OrderedMaps
  import opened Values
  import opened RubyArray

  /** The message both methods raise with when given fewer than two arguments. */
  const ArityMessage: string := "2 or more arguments required"

  /** The contents a `bury` call leaves behind, and whether it finished or raised. */
  datatype Buried<T> = Buried(state: T, outcome: Outcome)

  /** The errors a level below the first can raise: a negative index, or a value without `bury`. */
  predicate NestedOutcome(o: Outcome)
  {
    o == Pass || o == Fail(IndexError) || o == Fail(NoMethodError)
  }

  /** `v.bury(*args)` on an intermediate value: only arrays and hashes respond to it. */
  function BuryValue(v: Value, args: seq<Value>): (r: Buried<Value>)
    requires |args| >= 2
    ensures NestedOutcome(r.outcome)
    ensures v.Arr? ==> r.state.Arr?
    ensures v.Hash? ==> r.state.Hash?
    ensures !v.Arr? && !v.Hash? ==> r == Buried(v, Fail(NoMethodError))
    decreases |args|, 3
  {
    match v
    case Arr(xs) =>
      var b := BuryArray(xs, args);
      Buried(Arr(b.state), b.outcome)
    case Hash(es) =>
      var b := BuryHash(es, args);
      Buried(Hash(b.state), b.outcome)
    case _ => Buried(v, Fail(NoMethodError))
  }

  /**
   * `Array#bury(*args)`. With two arguments an Integer key stores the value
   * at that index (padding with nil, or raising IndexError below the start)
   * and any other key appends `{key => value}`. With more, an Integer key
   * puts `[]` at that index unless the element there is truthy and buries
   * the rest into the element, which stays stored even when that raises; any
   * other key appends `{}.bury(*args)`, unless that raises.
   */
  function BuryArray(a: seq<Value>, args: seq<Value>): (r: Buried<seq<Value>>)
    ensures |args| < 2 ==> r == Buried(a, Fail(ArgumentError(ArityMessage)))
    ensures |args| >= 2 ==> NestedOutcome(r.outcome)
    ensures |args| == 2 && args[0].Int? ==>
      r == match Store(a, args[0].i, args[1]) case Ok(b) => Buried(b, Pass) case Err(e) => Buried(a, Fail(e))
    ensures |args| == 2 && !args[0].Int? ==> r == Buried(a + [Hash([(args[0], args[1])])], Pass)
    ensures |args| >= 2 && args[0].Int? && args[0].i < -|a| ==> r == Buried(a, Fail(IndexError))
    ensures |args| > 2 && !args[0].Int? && r.outcome.Fail? ==> r.state == a
    decreases |args|, 2
  {
    if |args| < 2 then Buried(a, Fail(ArgumentError(ArityMessage)))
    else if |args| == 2 then
      if args[0].Int? then
        match Store(a, args[0].i, args[1])
        case Ok(b) => Buried(b, Pass)
        case Err(e) => Buried(a, Fail(e))
      else Buried(a + [Hash([(args[0], args[1])])], Pass)
    else if args[0].Int? then
      var i := args[0].i;
      var current := At(a, i);
      var child := if Truthy(current) then current else Arr([]);
      match Store(a, i, child)
      case Err(e) => Buried(a, Fail(e))
      case Ok(a') =>
        var b := BuryValue(child, args[1..]);
        match Store(a', i, b.state)
        case Ok(a'') => Buried(a'', b.outcome)
        case Err(e) => Buried(a', Fail(e))
    else
      var b := BuryHash([], args);
      if b.outcome.Fail? then Buried(a, b.outcome)
      else Buried(a + [Hash(b.state)], Pass)
  }

  /**
   * `Hash#bury(*args)`. With two arguments it sets `self[key] = value`. With
   * more it puts `{}` at the first key unless the value there is truthy and
   * buries the rest into that value, which stays stored even when that raises.
   */
  function BuryHash(h: OMap<Value, Value>, args: seq<Value>): (r: Buried<OMap<Value, Value>>)
    ensures |args| < 2 ==> r == Buried(h, Fail(ArgumentError(ArityMessage)))
    ensures |args| >= 2 ==> NestedOutcome(r.outcome)
    ensures |args| == 2 ==> r == Buried(Put(h, args[0], args[1]), Pass)
    decreases |args|, 1
  {
    if |args| < 2 then Buried(h, Fail(ArgumentError(ArityMessage)))
    else if |args| == 2 then Buried(Put(h, args[0], args[1]), Pass)
    else
      var k := args[0];
      var current := Lookup(h, k);
      var child := if Truthy(current) then current else Hash([]);
      // `self[arg] = {}` and then burying into that child in place leave the
      // key holding the buried child, at its old position or appended.
      var b := BuryValue(child, args[1..]);
      Buried(Put(h, k, b.state), b.outcome)
  }

  /**
   * `Hash#bury` touches only its first key, whether it finishes or raises:
   * every other key keeps its value, the key set gains at most that key, and
   * keys stay distinct.
   */
  lemma BuryHashFrame(h: OMap<Value, Value>, args: seq<Value>)
    requires |args| >= 2
    ensures forall k :: k != args[0] ==> Get(BuryHash(h, args).state, k) == Get(h, k)
    ensures forall k :: HasKey(BuryHash(h, args).state, k) <==> HasKey(h, k) || k == args[0]
    ensures DistinctKeys(h) ==> DistinctKeys(BuryHash(h, args).state)
  {
    var k := args[0];
    if |args| > 2 {
      var child := StepInto(Hash(h), k);
      var child' := BuryValue(child, args[1..]).state;
      assert BuryHash(h, args).state == Put(h, k, child');
    }
  }

  /**
   * A raise below the first level keeps what was stored on the way: burying
   * `:x` at index -5 of a fresh nested array leaves `[[nil, []]]` behind.
   */
  lemma NestedRaiseKeepsStores()
    ensures BuryArray([], [Int(0), Int(1), Int(-5), Sym("x")]) == Buried([Arr([Nil, Arr([])])], Fail(IndexError))
    ensures BuryHash([(Sym("a"), Arr([]))], [Sym("a"), Int(0), Int(-5), Sym("x")])
         == Buried([(Sym("a"), Arr([Arr([])]))], Fail(IndexError))
  {
    InnerArrayRaise();
    OuterArrayRaise();
    HashArrayRaise();
  }

  lemma InnerArrayRaise()
    ensures BuryArray([], [Int(1), Int(-5), Sym("x")]) == Buried([Nil, Arr([])], Fail(IndexError))
  {
    assert BuryArray([], [Int(-5), Sym("x")]) == Buried([], Fail(IndexError));
    var args := [Int(1), Int(-5), Sym("x")];
    assert args[1..] == [Int(-5), Sym("x")];
    assert Repeat(Nil, 1) == [Nil];
    assert Store([], 1, Arr([])).Ok? && Store([], 1, Arr([])).value == [Nil, Arr([])];
    assert Store([Nil, Arr([])], 1, Arr([])).Ok? && Store([Nil, Arr([])], 1, Arr([])).value == [Nil, Arr([])];
  }

  lemma OuterArrayRaise()
    requires BuryArray([], [Int(1), Int(-5), Sym("x")]) == Buried([Nil, Arr([])], Fail(IndexError))
    ensures BuryArray([], [Int(0), Int(1), Int(-5), Sym("x")]) == Buried([Arr([Nil, Arr([])])], Fail(IndexError))
  {
    var args := [Int(0), Int(1), Int(-5), Sym("x")];
    assert args[1..] == [Int(1), Int(-5), Sym("x")];
    assert Repeat(Nil, 0) == [];
    assert Store([], 0, Arr([])).Ok? && Store([], 0, Arr([])).value == [Arr([])];
    assert Store([Arr([])], 0, Arr([Nil, Arr([])])).Ok? && Store([Arr([])], 0, Arr([Nil, Arr([])])).value == [Arr([Nil, Arr([])])];
  }

  lemma HashArrayRaise()
    ensures BuryHash([(Sym("a"), Arr([]))], [Sym("a"), Int(0), Int(-5), Sym("x")])
         == Buried([(Sym("a"), Arr([Arr([])]))], Fail(IndexError))
  {
    var args := [Sym("a"), Int(0), Int(-5), Sym("x")];
    assert args[1..] == [Int(0), Int(-5), Sym("x")];
    assert args[1..][1..] == [Int(-5), Sym("x")];
    assert BuryArray([], [Int(-5), Sym("x")]) == Buried([], Fail(IndexError));
    assert Repeat(Nil, 0) == [];
    assert Store([], 0, Arr([])).Ok? && Store([], 0, Arr([])).value == [Arr([])];
    assert Store([Arr([])], 0, Arr([])).Ok? && Store([Arr([])], 0, Arr([])).value == [Arr([])];
    assert BuryArray([], [Int(0), Int(-5), Sym("x")]) == Buried([Arr([])], Fail(IndexError));
    assert Lookup([(Sym("a"), Arr([]))], Sym("a")) == Arr([]);
    assert BuryValue(Arr([]), args[1..]) == Buried(Arr([Arr([])]), Fail(IndexError));
    var h: OMap<Value, Value> := [(Sym("a"), Arr([]))];
    assert HasKey(h, Sym("a")) && Find(h, Sym("a")) == 0;
    assert Put(h, Sym("a"), Arr([Arr([])])) == [(Sym("a"), Arr([Arr([])]))];
  }

  /** `dig(*keys)` restricted to what `bury` builds: hashes by key, arrays by Integer index. */
  function Dig(v: Value, keys: seq<Value>): Value
    decreases |keys|
  {
    if keys == [] then v
    else
      match v
      case Hash(es) => Dig(Lookup(es, keys[0]), keys[1..])
      case Arr(xs) => if keys[0].Int? then Dig(At(xs, keys[0].i), keys[1..]) else Nil
      case _ => Nil
  }

  /** The element at `k`, or the empty container `bury` puts there when that element is falsy. */
  function StepInto(v: Value, k: Value): Value
    requires v.Hash? || (v.Arr? && k.Int?)
  {
    var current := if v.Hash? then Lookup(v.entries, k) else At(v.items, k.i);
    if Truthy(current) then current else if v.Hash? then Hash([]) else Arr([])
  }

  /**
   * A path `bury` can follow from `v`: every container on the way is a hash,
   * or an array indexed by an Integer that does not reach below its start.
   */
  predicate Buriable(v: Value, keys: seq<Value>)
    decreases |keys|
  {
    |keys| >= 1
    && (v.Hash? || (v.Arr? && keys[0].Int? && keys[0].i >= -|v.items|))
    && (|keys| == 1 || Buriable(StepInto(v, keys[0]), keys[1..]))
  }

  /**
   * Along a path `bury` can follow, burying succeeds and digging the same path
   * afterwards finds the buried value.
   */
  lemma {:induction false} BuryThenDig(v: Value, args: seq<Value>)
    requires |args| >= 2 && Buriable(v, args[..|args| - 1])
    ensures BuryValue(v, args).outcome == Pass
    ensures Dig(BuryValue(v, args).state, args[..|args| - 1]) == args[|args| - 1]
    decreases |args|
  {
    if |args| == 2 {
      BuryLastLevel(v, args);
    } else {
      var rest := args[1..];
      assert args[..|args| - 1][1..] == rest[..|rest| - 1];
      BuryThenDig(StepInto(v, args[0]), rest);
      if v.Arr? {
        BuryArrayLevel(v.items, args);
      } else {
        var c := BuryValue(StepInto(v, args[0]), rest).state;
        BuryHashStep(v.entries, args, c);
        BuryHashValue(v.entries, args, c);
        DigPut(v.entries, args[0], c, args[..|args| - 1]);
      }
    }
  }

  /** The last level of a path: the value is stored under the key. */
  lemma BuryLastLevel(v: Value, args: seq<Value>)
    requires |args| == 2
    requires v.Hash? || (v.Arr? && args[0].Int? && args[0].i >= -|v.items|)
    ensures BuryValue(v, args).outcome == Pass
    ensures Dig(BuryValue(v, args).state, args[..1]) == args[1]
  {
    var k := args[0];
    assert args[..1] == [k] && [k][1..] == [];
    if v.Arr? {
      var ys := Store(v.items, k.i, args[1]).value;
      assert BuryValue(v, args) == Buried(Arr(ys), Pass);
      assert Dig(Arr(ys), [k]) == Dig(At(ys, k.i), []);
    } else {
      var fs := Put(v.entries, k, args[1]);
      assert BuryValue(v, args) == Buried(Hash(fs), Pass);
      assert Dig(Hash(fs), [k]) == Dig(Lookup(fs, k), []);
    }
  }

  /** An inner level in an array: the buried child is stored back at the index. */
  lemma BuryArrayLevel(xs: seq<Value>, args: seq<Value>)
    requires |args| > 2 && args[0].Int? && args[0].i >= -|xs|
    requires BuryValue(StepInto(Arr(xs), args[0]), args[1..]).outcome == Pass
    ensures BuryValue(Arr(xs), args).outcome == Pass
    ensures Dig(BuryValue(Arr(xs), args).state, args[..|args| - 1])
         == Dig(BuryValue(StepInto(Arr(xs), args[0]), args[1..]).state, args[..|args| - 1][1..])
  {
    var i := args[0].i;
    var child := StepInto(Arr(xs), args[0]);
    var child' := BuryValue(child, args[1..]).state;
    var a' := Store(xs, i, child).value;
    var ys := Store(a', i, child').value;
    assert BuryArray(xs, args) == Buried(ys, Pass);
    assert At(ys, i) == child';
  }

  lemma BuryHashValue(h: OMap<Value, Value>, args: seq<Value>, c: Value)
    requires |args| > 2
    requires BuryHash(h, args) == Buried(Put(h, args[0], c), Pass)
    ensures BuryValue(Hash(h), args) == Buried(Hash(Put(h, args[0], c)), Pass)
  {
  }

  /** Digging into a hash after `self[k] = c` continues from `c`. */
  lemma DigPut(h: OMap<Value, Value>, k: Value, c: Value, path: seq<Value>)
    requires |path| >= 1 && path[0] == k
    ensures Dig(Hash(Put(h, k, c)), path) == Dig(c, path[1..])
  {
    var fs := Put(h, k, c);
    assert Dig(Hash(fs), path) == Dig(Lookup(fs, path[0]), path[1..]);
  }

  lemma BuryHashStep(h: OMap<Value, Value>, args: seq<Value>, c: Value)
    requires |args| > 2
    requires BuryValue(StepInto(Hash(h), args[0]), args[1..]) == Buried(c, Pass)
    ensures BuryHash(h, args) == Buried(Put(h, args[0], c), Pass)
  {
    var current := Lookup(h, args[0]);
    var child := if Truthy(current) then current else Hash([]);
    assert child == StepInto(Hash(h), args[0]);
  }

  /** Burying into a fresh hash always succeeds: every missing level becomes `{}`. */
  lemma {:induction false} BuryFreshHash(args: seq<Value>)
    requires |args| >= 2
    ensures BuryHash([], args).outcome == Pass
    ensures Dig(Hash(BuryHash([], args).state), args[..|args| - 1]) == args[|args| - 1]
  {
    FreshIsBuriable(args[..|args| - 1]);
    BuryThenDig(Hash([]), args);
  }

  lemma {:induction false} FreshIsBuriable(keys: seq<Value>)
    requires |keys| >= 1
    ensures Buriable(Hash([]), keys)
    decreases |keys|
  {
    if |keys| > 1 {
      FreshIsBuriable(keys[1..]);
      assert StepInto(Hash([]), keys[0]) == Hash([]);
    }
  }
}
