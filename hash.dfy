/**
 * The extensions of lib/lite/ruby/hash.rb, on values: each function gives
 * the hash a method returns, or the receiver's new entries for a method that
 * changes it in place (`MutableHash.RHash` performs those updates). A Hash is
 * an `OMap<Value, Value>`: distinct keys in insertion order.
 */
module RubyHash {
  import opened Outcomes
  import opened OrderedMaps
  import opened Values
  import opened RubyObject
  import opened KeyNames
  import RubyArray

  type Entries = OMap<Value, Value>

  // ---------------------------------------------------------------------------
  // alias

  /** `alias(new_key, old_key)`: `self[new_key] = self[old_key]` when `old_key` is present. */
  function Aliased(h: Entries, newKey: Value, oldKey: Value): (r: Entries)
    ensures !HasKey(h, oldKey) ==> r == h
    ensures HasKey(h, oldKey) ==> Get(r, newKey) == Get(h, oldKey) && Get(r, oldKey) == Get(h, oldKey)
    ensures forall k :: k != newKey ==> Get(r, k) == Get(h, k)
    ensures DistinctKeys(h) ==> DistinctKeys(r)
  {
    if HasKey(h, oldKey) then Put(h, newKey, Lookup(h, oldKey)) else h
  }

  // ---------------------------------------------------------------------------
  // assert_valid_keys! and friends

  const EmptyHashMessage: string := "An empty hash is not allowed"

  /** The first element of `xs` that is not one of `allowed`. */
  function FirstNotIn(xs: seq<Value>, allowed: seq<Value>): (r: Option<Value>)
    ensures r.None? <==> forall j :: 0 <= j < |xs| ==> xs[j] in allowed
    ensures r.Some? ==> r.value !in allowed
    ensures r.Some? ==> exists j :: 0 <= j < |xs| && xs[j] == r.value && forall i :: 0 <= i < j ==> xs[i] in allowed
    decreases |xs|
  {
    if xs == [] then None
    else if xs[0] !in allowed then Some(xs[0])
    else
      var r := FirstNotIn(xs[1..], allowed);
      assert r.Some? ==> exists j :: 0 <= j < |xs| && xs[j] == r.value && forall i :: 0 <= i < j ==> xs[i] in allowed by {
        if r.Some? {
          var j :| 0 <= j < |xs[1..]| && xs[1..][j] == r.value && forall i :: 0 <= i < j ==> xs[1..][i] in allowed;
          assert forall i :: 0 < i < j + 1 ==> xs[i] == xs[1..][i - 1];
        }
      }
      r
  }

  /** `map(&:inspect)` */
  function InspectAll(xs: seq<Value>): (r: seq<string>)
    ensures |r| == |xs| && forall j :: 0 <= j < |xs| ==> r[j] == Inspect(xs[j])
  {
    seq(|xs|, j requires 0 <= j < |xs| => Inspect(xs[j]))
  }

  /**
   * The message for an element `v` that is not allowed; `what` is "key" or
   * "value". The two literal halves are joined with nothing between them, so
   * no space follows the full stop.
   */
  function InvalidMessage(what: string, v: Value, allowed: seq<Value>): string {
    "Invalid " + what + ": " + Inspect(v) + "." + "Allowed " + what + "s are: " + Join(InspectAll(allowed), ", ")
  }

  /** Raises for the first element of `xs` (in iteration order) that is not allowed. */
  function AssertAllowed(xs: seq<Value>, allowed: seq<Value>, what: string): (r: Outcome)
    ensures r == Pass <==> forall j :: 0 <= j < |xs| ==> xs[j] in allowed
    ensures r.Fail? ==> exists j :: 0 <= j < |xs| && xs[j] !in allowed
                          && r == Fail(ArgumentError(InvalidMessage(what, xs[j], allowed)))
                          && forall i :: 0 <= i < j ==> xs[i] in allowed
  {
    match FirstNotIn(xs, allowed)
    case None => Pass
    case Some(v) => Fail(ArgumentError(InvalidMessage(what, v, allowed)))
  }

  /** `assert_valid_keys!(*valid_keys)` */
  function AssertValidKeys(h: Entries, valid: seq<Value>): (r: Outcome)
    ensures r == Pass <==> forall j :: 0 <= j < |h| ==> h[j].0 in valid
    ensures r.Fail? ==> exists j :: 0 <= j < |h| && h[j].0 !in valid
                          && r == Fail(ArgumentError(InvalidMessage("key", h[j].0, valid)))
  {
    AssertAllowed(Keys(h), valid, "key")
  }

  /** `assert_all_valid_keys!(*valid_keys)`: as above, and the empty hash is refused. */
  function AssertAllValidKeys(h: Entries, valid: seq<Value>): (r: Outcome)
    ensures r == Pass <==> h != [] && forall j :: 0 <= j < |h| ==> h[j].0 in valid
    ensures h == [] ==> r == Fail(ArgumentError(EmptyHashMessage))
    ensures h != [] ==> r == AssertValidKeys(h, valid)
  {
    if h != [] then AssertValidKeys(h, valid) else Fail(ArgumentError(EmptyHashMessage))
  }

  /** `assert_valid_values!(*valid_values)` */
  function AssertValidValues(h: Entries, valid: seq<Value>): (r: Outcome)
    ensures r == Pass <==> forall j :: 0 <= j < |h| ==> h[j].1 in valid
    ensures r.Fail? ==> exists j :: 0 <= j < |h| && h[j].1 !in valid
                          && r == Fail(ArgumentError(InvalidMessage("value", h[j].1, valid)))
  {
    AssertAllowed(ValuesOf(h), valid, "value")
  }

  /** `assert_all_valid_values!(*valid_values)` */
  function AssertAllValidValues(h: Entries, valid: seq<Value>): (r: Outcome)
    ensures r == Pass <==> h != [] && forall j :: 0 <= j < |h| ==> h[j].1 in valid
    ensures h == [] ==> r == Fail(ArgumentError(EmptyHashMessage))
    ensures h != [] ==> r == AssertValidValues(h, valid)
  {
    if h != [] then AssertValidValues(h, valid) else Fail(ArgumentError(EmptyHashMessage))
  }

  /** The message names the offending key. */
  lemma InvalidKeyExample()
    ensures AssertValidKeys([(Sym("a"), Int(1)), (Sym("b"), Int(2))], [Sym("a")])
         == Fail(ArgumentError("Invalid key: :b.Allowed keys are: :a"))
  {
    var h := [(Sym("a"), Int(1)), (Sym("b"), Int(2))];
    assert Keys(h) == [Sym("a"), Sym("b")];
    FirstInvalidKey();
    InvalidKeyMessage();
  }

  lemma FirstInvalidKey()
    ensures FirstNotIn([Sym("a"), Sym("b")], [Sym("a")]) == Some(Sym("b"))
  {
    assert [Sym("a"), Sym("b")][1..] == [Sym("b")];
  }

  lemma InvalidKeyMessage()
    ensures InvalidMessage("key", Sym("b"), [Sym("a")]) == "Invalid key: :b.Allowed keys are: :a"
  {
    var shown := InspectAll([Sym("a")]);
    assert shown[0] == ":a";
    assert shown == [":a"];
    assert Join(shown, ", ") == ":a";
    assert Inspect(Sym("b")) == ":b";
  }

  // ---------------------------------------------------------------------------
  // each_with_object({}) { |(key, val), hash| hash[f(key)] = g(val) }

  /**
   * A fresh hash filled, in the receiver's order, with `hash[key(k)] = val(v)`:
   * when two keys map to the same new key the later value wins, at the
   * position of the first.
   */
  function Rebuild(h: Entries, key: Value -> Value, val: Value -> Value): (r: Entries)
    ensures DistinctKeys(r)
    ensures forall k :: HasKey(r, k) <==> exists j :: 0 <= j < |h| && key(h[j].0) == k
    decreases |h|
  {
    if h == [] then []
    else
      var init := h[..|h| - 1];
      var (k, v) := h[|h| - 1];
      var r := Rebuild(init, key, val);
      assert forall j :: 0 <= j < |init| ==> init[j] == h[j];
      Put(r, key(k), val(v))
  }

  /** The value under a new key comes from the last entry that maps to it. */
  lemma {:induction false} RebuildLastWins(h: Entries, key: Value -> Value, val: Value -> Value, i: int)
    requires 0 <= i < |h|
    requires forall j :: i < j < |h| ==> key(h[j].0) != key(h[i].0)
    ensures Get(Rebuild(h, key, val), key(h[i].0)) == Some(val(h[i].1))
    decreases |h|
  {
    if i < |h| - 1 {
      var init := h[..|h| - 1];
      assert init[i] == h[i];
      RebuildLastWins(init, key, val, i);
    }
  }

  /**
   * When every key maps to itself and the keys are distinct, rebuilding keeps
   * every key at its position and maps the values.
   */
  lemma {:induction false} RebuildSameKeys(h: Entries, key: Value -> Value, val: Value -> Value)
    requires DistinctKeys(h)
    requires forall j :: 0 <= j < |h| ==> key(h[j].0) == h[j].0
    ensures Rebuild(h, key, val) == MapValues(h, val)
    decreases |h|
  {
    if h != [] {
      var init := h[..|h| - 1];
      var (k, v) := h[|h| - 1];
      RebuildSameKeys(init, key, val);
      RebuildStep(h, init, val);
    }
  }

  lemma RebuildStep(h: Entries, init: Entries, val: Value -> Value)
    requires DistinctKeys(h) && h != [] && init == h[..|h| - 1]
    ensures Put(MapValues(init, val), h[|h| - 1].0, val(h[|h| - 1].1)) == MapValues(h, val)
  {
    var m := MapValues(init, val);
    var k := h[|h| - 1].0;
    forall j | 0 <= j < |m| ensures m[j].0 != k {
      assert m[j].0 == h[j].0;
    }
    assert !HasKey(m, k);
    assert MapValues(h, val) == m + [(k, val(h[|h| - 1].1))];
  }

  /** The identity on keys or values. */
  function Same(): Value -> Value {
    v => v
  }

  /** Rebuilding with the identity on distinct keys and values gives the same hash. */
  lemma RebuildIdentity(h: Entries, key: Value -> Value, val: Value -> Value)
    requires DistinctKeys(h)
    requires forall j :: 0 <= j < |h| ==> key(h[j].0) == h[j].0 && val(h[j].1) == h[j].1
    ensures Rebuild(h, key, val) == h
  {
    RebuildSameKeys(h, key, val);
  }

  // ---------------------------------------------------------------------------
  // dearray_values, dearray_singular_values

  /** `case val when Array then val[idx] || val[-1] else val end` */
  function DearrayValue(idx: int): Value -> Value {
    (v: Value) => if !v.Arr? then v
         else if Truthy(RubyArray.At(v.items, idx)) then RubyArray.At(v.items, idx)
         else RubyArray.At(v.items, -1)
  }

  /** `dearray_values(idx = 0)` */
  function DearrayValues(h: Entries, idx: int): Entries {
    Rebuild(h, Same(), DearrayValue(idx))
  }

  /**
   * `dearray_values` keeps every key at its position. A value that is not an
   * array is unchanged; an array gives its element at `idx` when that is
   * truthy, else its last element (nil for the empty array).
   */
  lemma DearrayValuesShape(h: Entries, idx: int)
    requires DistinctKeys(h)
    ensures |DearrayValues(h, idx)| == |h|
    ensures forall j :: 0 <= j < |h| ==>
              DearrayValues(h, idx)[j].0 == h[j].0 && DearrayValueCases(h[j].1, idx, DearrayValues(h, idx)[j].1)
  {
    var r := DearrayValues(h, idx);
    RebuildSameKeys(h, Same(), DearrayValue(idx));
    forall j | 0 <= j < |h|
      ensures r[j].0 == h[j].0 && DearrayValueCases(h[j].1, idx, r[j].1)
    {
      assert r[j] == (h[j].0, DearrayValue(idx)(h[j].1));
      DearrayValueShape(h[j].1, idx);
    }
  }

  /** What `DearrayValue(idx)` makes of one value `v`, as `w`. */
  predicate DearrayValueCases(v: Value, idx: int, w: Value) {
    && (!v.Arr? ==> w == v)
    && (v.Arr? && Truthy(RubyArray.At(v.items, idx)) ==> w == RubyArray.At(v.items, idx))
    && (v.Arr? && v.items != [] && !Truthy(RubyArray.At(v.items, idx)) ==> w == v.items[|v.items| - 1])
    && (v == Arr([]) ==> w == Nil)
  }

  lemma DearrayValueShape(v: Value, idx: int)
    ensures DearrayValueCases(v, idx, DearrayValue(idx)(v))
  {
  }

  /** `case val when Array then val.size < 2 ? val[0] : val else val end` */
  function SingularValue(): Value -> Value {
    (v: Value) => if v.Arr? && |v.items| < 2 then RubyArray.At(v.items, 0) else v
  }

  /** `dearray_singular_values` */
  function DearraySingularValues(h: Entries): Entries {
    Rebuild(h, Same(), SingularValue())
  }

  /**
   * `dearray_singular_values` keeps every key at its position; `[]` becomes
   * nil, `[x]` becomes `x`, and every other value is unchanged.
   */
  lemma DearraySingularValuesShape(h: Entries)
    requires DistinctKeys(h)
    ensures |DearraySingularValues(h)| == |h|
    ensures forall j :: 0 <= j < |h| ==> DearraySingularValues(h)[j].0 == h[j].0
    ensures forall j :: 0 <= j < |h| && h[j].1 == Arr([]) ==> DearraySingularValues(h)[j].1 == Nil
    ensures forall j :: 0 <= j < |h| && h[j].1.Arr? && |h[j].1.items| == 1 ==> DearraySingularValues(h)[j].1 == h[j].1.items[0]
    ensures forall j :: 0 <= j < |h| && !(h[j].1.Arr? && |h[j].1.items| < 2) ==> DearraySingularValues(h)[j].1 == h[j].1
  {
    RebuildSameKeys(h, Same(), SingularValue());
  }

  // ---------------------------------------------------------------------------
  // stringify_keys, symbolize_keys, symbolize_and_underscore_keys

  /** `key.to_s` */
  function StringKey(): Value -> Value {
    k => Str(ToS(k))
  }

  /** `key.to_s.to_sym` */
  function SymbolKey(): Value -> Value {
    k => Sym(ToS(k))
  }

  /** The `symbolize_and_underscore_keys` rewrite of `key.to_s`, as a symbol. */
  function UnderscoreKey(): Value -> Value {
    k => Sym(KeyName(ToS(k)))
  }

  /** `stringify_keys` */
  function StringifyKeys(h: Entries): (r: Entries)
    ensures DistinctKeys(r)
    ensures forall k :: HasKey(r, k) <==> exists j :: 0 <= j < |h| && k == Str(ToS(h[j].0))
    ensures forall j :: 0 <= j < |r| ==> r[j].0.Str?
  {
    var r := Rebuild(h, StringKey(), Same());
    assert forall j :: 0 <= j < |r| ==> HasKey(r, r[j].0);
    r
  }

  /** `symbolize_keys` (the `rescue` branch is unreachable: `to_s` does not raise here). */
  function SymbolizeKeys(h: Entries): (r: Entries)
    ensures DistinctKeys(r)
    ensures forall k :: HasKey(r, k) <==> exists j :: 0 <= j < |h| && k == Sym(ToS(h[j].0))
    ensures forall j :: 0 <= j < |r| ==> r[j].0.Sym?
  {
    var r := Rebuild(h, SymbolKey(), Same());
    assert forall j :: 0 <= j < |r| ==> HasKey(r, r[j].0);
    r
  }

  /** `symbolize_and_underscore_keys` */
  function SymbolizeAndUnderscoreKeys(h: Entries): (r: Entries)
    ensures DistinctKeys(r)
    ensures forall k :: HasKey(r, k) <==> exists j :: 0 <= j < |h| && k == Sym(KeyName(ToS(h[j].0)))
    ensures forall j :: 0 <= j < |r| ==> r[j].0.Sym? && IsKeyName(r[j].0.name)
  {
    var r := Rebuild(h, UnderscoreKey(), Same());
    forall j | 0 <= j < |r| ensures r[j].0.Sym? && IsKeyName(r[j].0.name) {
      assert HasKey(r, r[j].0);
      var i :| 0 <= i < |h| && UnderscoreKey()(h[i].0) == r[j].0;
    }
    r
  }

  /** What every rewritten key satisfies: no capitals, no `::`, no spaces or hyphens. */
  predicate IsKeyName(n: string) {
    NoUpper(n) && NoDoubleColon(n) && forall c :: 0 <= c < |n| ==> n[c] != ' ' && n[c] != '-'
  }

  /** Keys that already are strings stay; so `stringify_keys` is idempotent. */
  lemma StringifyKeysIdempotent(h: Entries)
    ensures StringifyKeys(StringifyKeys(h)) == StringifyKeys(h)
  {
    var r := StringifyKeys(h);
    RebuildIdentity(r, StringKey(), Same());
  }

  lemma SymbolizeKeysIdempotent(h: Entries)
    ensures SymbolizeKeys(SymbolizeKeys(h)) == SymbolizeKeys(h)
  {
    var r := SymbolizeKeys(h);
    RebuildIdentity(r, SymbolKey(), Same());
  }

  lemma SymbolizeAndUnderscoreKeysIdempotent(h: Entries)
    ensures SymbolizeAndUnderscoreKeys(SymbolizeAndUnderscoreKeys(h)) == SymbolizeAndUnderscoreKeys(h)
  {
    var r := SymbolizeAndUnderscoreKeys(h);
    forall j | 0 <= j < |r| ensures UnderscoreKey()(r[j].0) == r[j].0 {
      UnderscoreKeyFixed(h, r[j].0);
    }
    RebuildIdentity(r, UnderscoreKey(), Same());
  }

  /** A key of the rewritten hash is its own rewrite. */
  lemma UnderscoreKeyFixed(h: Entries, k: Value)
    requires HasKey(SymbolizeAndUnderscoreKeys(h), k)
    ensures UnderscoreKey()(k) == k
  {
    var r := SymbolizeAndUnderscoreKeys(h);
    var i :| 0 <= i < |h| && UnderscoreKey()(h[i].0) == k;
    KeyNameIdempotent(ToS(h[i].0));
  }

  /**
   * Two keys with the same `to_s` collide: `{1 => :a, "1" => :b}` stringifies
   * to `{"1" => :b}`.
   */
  lemma StringifyKeysCollision()
    ensures StringifyKeys([(Int(1), Sym("a")), (Str("1"), Sym("b"))]) == [(Str("1"), Sym("b"))]
  {
    var h := [(Int(1), Sym("a")), (Str("1"), Sym("b"))];
    assert ToS(Int(1)) == "1";
    assert h[..1] == [(Int(1), Sym("a"))];
    assert [(Int(1), Sym("a"))][..0] == [];
    assert Rebuild(h[..1], StringKey(), Same()) == [(Str("1"), Sym("a"))];
  }

  /** The value of an entry is found under its string key unless a later key has the same `to_s`. */
  lemma StringifyKeysValue(h: Entries, i: int)
    requires 0 <= i < |h|
    requires forall j :: i < j < |h| ==> ToS(h[j].0) != ToS(h[i].0)
    ensures Get(StringifyKeys(h), Str(ToS(h[i].0))) == Some(h[i].1)
  {
    RebuildLastWins(h, StringKey(), Same(), i);
  }

  /** The value of an entry is found under its symbol key unless a later key has the same `to_s`. */
  lemma SymbolizeKeysValue(h: Entries, i: int)
    requires 0 <= i < |h|
    requires forall j :: i < j < |h| ==> ToS(h[j].0) != ToS(h[i].0)
    ensures Get(SymbolizeKeys(h), Sym(ToS(h[i].0))) == Some(h[i].1)
  {
    RebuildLastWins(h, SymbolKey(), Same(), i);
  }

  /** The value of an entry is found under its rewritten key unless a later key rewrites to the same name. */
  lemma SymbolizeAndUnderscoreKeysValue(h: Entries, i: int)
    requires 0 <= i < |h|
    requires forall j :: i < j < |h| ==> KeyName(ToS(h[j].0)) != KeyName(ToS(h[i].0))
    ensures Get(SymbolizeAndUnderscoreKeys(h), Sym(KeyName(ToS(h[i].0)))) == Some(h[i].1)
  {
    RebuildLastWins(h, UnderscoreKey(), Same(), i);
  }

  // ---------------------------------------------------------------------------
  // demote!, promote!

  /** `demote!(key)`: `self[key] = delete(key)` when the key is present, which moves it to the end. */
  function Demoted(h: Entries, k: Value): (r: Entries)
    ensures !HasKey(h, k) ==> r == h
  {
    if HasKey(h, k) then Put(Delete(h, k), k, Lookup(h, k)) else h
  }

  /** Demoting a present key deletes it and appends it again. */
  lemma DemotedIsSnoc(h: Entries, k: Value)
    requires DistinctKeys(h) && HasKey(h, k)
    ensures Demoted(h, k) == Delete(h, k) + [(k, Lookup(h, k))]
  {
    var d := Delete(h, k);
    assert !HasKey(d, k);
    assert Demoted(h, k) == Put(d, k, Lookup(h, k));
  }

  /**
   * `demote!` moves a present key to the last position with its value; the
   * other entries keep their order, and every key keeps its value.
   */
  lemma DemotedMoves(h: Entries, k: Value)
    requires DistinctKeys(h) && HasKey(h, k)
    ensures |Demoted(h, k)| == |h|
    ensures Demoted(h, k) == Delete(h, k) + [(k, Lookup(h, k))]
    ensures Delete(Demoted(h, k), k) == Delete(h, k)
    ensures DistinctKeys(Demoted(h, k))
    ensures forall k' :: Get(Demoted(h, k), k') == Get(h, k')
  {
    var d := Delete(h, k);
    var r := d + [(k, Lookup(h, k))];
    DemotedIsSnoc(h, k);
    FindFirst(r, k, |d|);
    assert r[..|d|] == d;
  }

  /**
   * `promote!(key)`: the receiver loses the key and the method answers the
   * new hash `{key => value}.merge(self)`. Without the key the receiver is
   * returned unchanged. The pair is (new receiver, answer).
   */
  function Promoted(h: Entries, k: Value): (r: (Entries, Entries))
    ensures !HasKey(h, k) ==> r == (h, h)
    ensures HasKey(h, k) ==> r.0 == Delete(h, k)
  {
    if HasKey(h, k) then (Delete(h, k), Merge([(k, Lookup(h, k))], Delete(h, k))) else (h, h)
  }

  /** The answer of `promote!` has the key first, followed by the other entries in their order. */
  lemma PromotedAnswer(h: Entries, k: Value)
    requires DistinctKeys(h) && HasKey(h, k)
    ensures Promoted(h, k).1 == [(k, Lookup(h, k))] + Delete(h, k)
    ensures |Promoted(h, k).1| == |h|
    ensures forall k' :: Get(Promoted(h, k).1, k') == Get(h, k')
  {
    var d := Delete(h, k);
    forall i | 0 <= i < |d| ensures !HasKey([(k, Lookup(h, k))], d[i].0) {
      assert HasKey(d, d[i].0);
    }
    MergeFresh([(k, Lookup(h, k))], d);
    var r := [(k, Lookup(h, k))] + d;
    FindFirst(r, k, 0);
    forall k' | k' != k ensures Get(r, k') == Get(h, k') {
      if HasKey(d, k') {
        FindFirst(r, k', Find(d, k') + 1);
      } else {
        assert forall i :: 0 < i < |r| ==> r[i] == d[i - 1];
      }
    }
  }

  // ---------------------------------------------------------------------------
  // except!, extract!

  /** `except!(*keys)`: `delete` each key in turn. */
  function Excepted(h: Entries, keys: seq<Value>): (r: Entries)
    decreases |keys|
  {
    if keys == [] then h else Delete(Excepted(h, keys[..|keys| - 1]), keys[|keys| - 1])
  }

  /**
   * `except!` leaves exactly the entries whose key is not listed, in their
   * order, and the listed keys are gone.
   */
  lemma {:induction false} ExceptedIsWithout(h: Entries, keys: seq<Value>)
    requires DistinctKeys(h)
    ensures Excepted(h, keys) == Without(h, keys)
    ensures forall k :: HasKey(Excepted(h, keys), k) <==> HasKey(h, k) && k !in keys
    decreases |keys|
  {
    if keys != [] {
      var init, k := keys[..|keys| - 1], keys[|keys| - 1];
      ExceptedIsWithout(h, init);
      assert init + [k] == keys;
      ExceptedStep(h, init, k);
    } else {
      WithoutNone(h, keys);
    }
  }

  lemma ExceptedStep(h: Entries, init: seq<Value>, k: Value)
    requires DistinctKeys(h) && Excepted(h, init) == Without(h, init)
    ensures Excepted(h, init + [k]) == Without(h, init + [k])
  {
    var keys := init + [k];
    assert keys[..|keys| - 1] == init;
    DeleteIsWithout(Without(h, init), k);
    WithoutWithout(h, init, [k]);
  }

  /** `extract!(*keys)`: `hash[key] = delete(key) if key?(key)` for each key in turn. */
  function Extracted(h: Entries, keys: seq<Value>): (r: Entries)
    decreases |keys|
  {
    if keys == [] then h else Demoted(Extracted(h, keys[..|keys| - 1]), keys[|keys| - 1])
  }

  /**
   * `extract!` returns the receiver with the listed keys moved to the end:
   * the same keys with the same values, and the last listed key that is
   * present comes last.
   */
  lemma {:induction false} ExtractedKeepsEntries(h: Entries, keys: seq<Value>)
    requires DistinctKeys(h)
    ensures DistinctKeys(Extracted(h, keys)) && |Extracted(h, keys)| == |h|
    ensures forall k :: Get(Extracted(h, keys), k) == Get(h, k)
    ensures keys != [] && HasKey(h, keys[|keys| - 1]) ==> Extracted(h, keys)[|h| - 1].0 == keys[|keys| - 1]
    decreases |keys|
  {
    if keys != [] {
      var init, k := keys[..|keys| - 1], keys[|keys| - 1];
      ExtractedKeepsEntries(h, init);
      var e := Extracted(h, init);
      assert HasKey(e, k) <==> HasKey(h, k) by {
        assert Get(e, k) == Get(h, k);
      }
      if HasKey(e, k) {
        DemotedMoves(e, k);
      }
    }
  }

  /**
   * Entries whose keys are all listed, ordered by the position of each key's
   * last mention in `keys`.
   */
  ghost predicate ByLastMention(s: Entries, keys: seq<Value>) {
    && (forall p :: 0 <= p < |s| ==> s[p].0 in keys)
    && (forall p, q :: 0 <= p < q < |s| ==> RubyArray.RIndexOf(keys, s[p].0) < RubyArray.RIndexOf(keys, s[q].0))
  }

  /**
   * The order `extract!` leaves: first the entries whose key is not listed,
   * in their old order, then the listed keys that are present, ordered by
   * their last mention in `keys`.
   */
  lemma {:induction false} ExtractedOrder(h: Entries, keys: seq<Value>)
    requires DistinctKeys(h)
    ensures |Without(h, keys)| <= |Extracted(h, keys)|
    ensures Extracted(h, keys) == Without(h, keys) + Extracted(h, keys)[|Without(h, keys)|..]
    ensures ByLastMention(Extracted(h, keys)[|Without(h, keys)|..], keys)
    decreases |keys|
  {
    if keys == [] {
      WithoutNone(h, keys);
    } else {
      var init, k := keys[..|keys| - 1], keys[|keys| - 1];
      assert init + [k] == keys;
      ExtractedOrder(h, init);
      ExtractedKeepsEntries(h, init);
      var e, w0 := Extracted(h, init), Without(h, init);
      var s := e[|w0|..];
      assert e == w0 + s;
      WithoutWithout(h, init, [k]);
      var w := Without(h, keys);
      assert Without(w0, [k]) == w;
      assert Extracted(h, keys) == Demoted(e, k);
      assert HasKey(e, k) <==> HasKey(h, k) by {
        assert Get(e, k) == Get(h, k);
      }
      if HasKey(h, k) {
        ExtractPresentStep(e, w0, s, init, k);
        assert Without(w0, [k]) + (Without(s, [k]) + [(k, Lookup(e, k))]) == Extracted(h, keys);
        SuffixAfter(w, Without(s, [k]) + [(k, Lookup(e, k))]);
      } else {
        ExtractAbsentStep(e, w0, s, init, k);
      }
    }
  }

  /** `w + t` without its first `|w|` entries is `t`. */
  lemma SuffixAfter(w: Entries, t: Entries)
    ensures (w + t)[|w|..] == t
  {
  }

  /** A listed key that is present moves behind the others, which keep their order. */
  lemma ExtractPresentStep(e: Entries, w0: Entries, s: Entries, init: seq<Value>, k: Value)
    requires DistinctKeys(e) && e == w0 + s && HasKey(e, k)
    requires ByLastMention(s, init)
    ensures Demoted(e, k) == Without(w0, [k]) + (Without(s, [k]) + [(k, Lookup(e, k))])
    ensures ByLastMention(Without(s, [k]) + [(k, Lookup(e, k))], init + [k])
  {
    ExtractPresentEntries(e, w0, s, k);
    ExtractPresentOrder(s, init, k, Lookup(e, k));
  }

  /** Moving a present key behind the others, on a hash split in two. */
  lemma ExtractPresentEntries(e: Entries, w0: Entries, s: Entries, k: Value)
    requires DistinctKeys(e) && e == w0 + s && HasKey(e, k)
    ensures Demoted(e, k) == Without(w0, [k]) + (Without(s, [k]) + [(k, Lookup(e, k))])
  {
    var a, b, x := Without(w0, [k]), Without(s, [k]), (k, Lookup(e, k));
    DemotedIsSnoc(e, k);
    DeleteSplit(e, w0, s, k);
    assert (a + b) + [x] == a + (b + [x]);
  }

  /** Deleting a key from a hash split in two deletes it from each part. */
  lemma DeleteSplit(e: Entries, w0: Entries, s: Entries, k: Value)
    requires DistinctKeys(e) && e == w0 + s
    ensures Delete(e, k) == Without(w0, [k]) + Without(s, [k])
  {
    DeleteIsWithout(e, k);
    WithoutAppend(w0, s, [k]);
  }

  /** The moved key, mentioned last, comes after the tail it joins. */
  lemma ExtractPresentOrder(s: Entries, init: seq<Value>, k: Value, v: Value)
    requires ByLastMention(s, init)
    ensures ByLastMention(Without(s, [k]) + [(k, v)], init + [k])
  {
    WithoutByLastMention(s, [k], init);
    var u := Without(s, [k]);
    assert forall p :: 0 <= p < |u| ==> u[p].0 != k;
    LastMentionSnoc(u, init, k, v);
  }

  /** A listed key that is absent changes neither the entries nor their order. */
  lemma ExtractAbsentStep(e: Entries, w0: Entries, s: Entries, init: seq<Value>, k: Value)
    requires e == w0 + s && !HasKey(e, k)
    requires ByLastMention(s, init)
    ensures Demoted(e, k) == e
    ensures Without(w0, [k]) == w0
    ensures ByLastMention(s, init + [k])
  {
    forall i | 0 <= i < |w0| ensures w0[i].0 !in [k] {
      assert e[i] == w0[i];
    }
    WithoutNone(w0, [k]);
    forall p | 0 <= p < |s| ensures s[p].0 != k {
      assert e[|w0| + p] == s[p];
    }
    LastMentionExtend(s, init, k);
  }

  /** Mentioning another key at the end moves no key's last mention. */
  lemma RIndexOfSnoc(a: seq<Value>, k: Value, x: Value)
    ensures RubyArray.RIndexOf(a + [k], k) == |a|
    ensures x != k ==> RubyArray.RIndexOf(a + [k], x) == RubyArray.RIndexOf(a, x)
  {
    assert (a + [k])[..|a|] == a;
  }

  lemma LastMentionExtend(u: Entries, init: seq<Value>, k: Value)
    requires ByLastMention(u, init)
    requires forall p :: 0 <= p < |u| ==> u[p].0 != k
    ensures ByLastMention(u, init + [k])
  {
    forall p | 0 <= p < |u| ensures RubyArray.RIndexOf(init + [k], u[p].0) == RubyArray.RIndexOf(init, u[p].0) {
      RIndexOfSnoc(init, k, u[p].0);
    }
  }

  lemma LastMentionSnoc(u: Entries, init: seq<Value>, k: Value, v: Value)
    requires ByLastMention(u, init)
    requires forall p :: 0 <= p < |u| ==> u[p].0 != k
    ensures ByLastMention(u + [(k, v)], init + [k])
  {
    LastMentionExtend(u, init, k);
    var t := u + [(k, v)];
    forall p | 0 <= p < |u| ensures RubyArray.RIndexOf(init + [k], t[p].0) < RubyArray.RIndexOf(init + [k], k) {
      RIndexOfSnoc(init, k, u[p].0);
      assert u[p].0 in init;
    }
    RIndexOfSnoc(init, k, k);
  }

  /** Removing keys keeps the remaining entries in their order. */
  lemma {:induction false} WithoutByLastMention(s: Entries, ks: seq<Value>, keys: seq<Value>)
    requires ByLastMention(s, keys)
    ensures ByLastMention(Without(s, ks), keys)
    decreases |s|
  {
    if s != [] {
      var init, last := s[..|s| - 1], s[|s| - 1];
      assert forall p :: 0 <= p < |init| ==> init[p] == s[p];
      WithoutByLastMention(init, ks, keys);
      var w := Without(init, ks);
      if last.0 !in ks {
        assert Without(s, ks) == w + [last];
        EarlierMentions(s, ks, keys);
        LastMentionAppend(w, last, keys);
      }
    }
  }

  /** The keys left from all but the last entry are mentioned before the last entry's key. */
  lemma EarlierMentions(s: Entries, ks: seq<Value>, keys: seq<Value>)
    requires s != [] && ByLastMention(s, keys)
    ensures var w, last := Without(s[..|s| - 1], ks), s[|s| - 1];
      forall p :: 0 <= p < |w| ==> RubyArray.RIndexOf(keys, w[p].0) < RubyArray.RIndexOf(keys, last.0)
  {
    var init, last := s[..|s| - 1], s[|s| - 1];
    var w := Without(init, ks);
    forall p | 0 <= p < |w| ensures RubyArray.RIndexOf(keys, w[p].0) < RubyArray.RIndexOf(keys, last.0) {
      assert HasKey(w, w[p].0);
      var j := Find(init, w[p].0);
      assert init[j].0 == w[p].0 && s[j] == init[j];
    }
  }

  lemma LastMentionAppend(w: Entries, last: (Value, Value), keys: seq<Value>)
    requires ByLastMention(w, keys) && last.0 in keys
    requires forall p :: 0 <= p < |w| ==> RubyArray.RIndexOf(keys, w[p].0) < RubyArray.RIndexOf(keys, last.0)
    ensures ByLastMention(w + [last], keys)
  {
    var t := w + [last];
    assert forall p :: 0 <= p < |w| ==> t[p] == w[p];
  }

  // ---------------------------------------------------------------------------
  // rename_keys!

  const OddArgumentsMessage: string := "odd number of arguments for Hash"

  /** `Hash[k1, v1, k2, v2, ...]` for an even number of arguments. */
  function PairUp(args: seq<Value>): (r: Entries)
    requires |args| % 2 == 0
    ensures DistinctKeys(r)
    decreases |args|
  {
    if args == [] then [] else Put(PairUp(args[..|args| - 2]), args[|args| - 2], args[|args| - 1])
  }

  /** How `Hash[]` names an element's class in its error message. */
  function BuiltinClassName(v: Value): string {
    match v
    case Nil => "nil"
    case Bool(b) => if b then "true" else "false"
    case Int(_) => "Integer"
    case Str(_) => "String"
    case Sym(_) => "Symbol"
    case Arr(_) => "Array"
    case Hash(_) => "Hash"
  }

  /** An element `Hash[array]` accepts: `[key]` or `[key, value]`. */
  predicate PairShaped(e: Value) {
    e.Arr? && 1 <= |e.items| <= 2
  }

  /** The error `Hash[array]` raises for a rejected element at position `i`. */
  function ElementError(e: Value, i: nat): RubyError {
    if !e.Arr? then
      ArgumentError("wrong element type " + BuiltinClassName(e) + " at " + IntToString(i) + " (expected array)")
    else
      ArgumentError("invalid number of elements (" + IntToString(|e.items|) + " for 1..2)")
  }

  /** The key and value `Hash[array]` stores for one accepted element: a missing value is nil. */
  function PairOf(e: Value): (Value, Value)
    requires PairShaped(e)
  {
    (e.items[0], if |e.items| == 2 then e.items[1] else Nil)
  }

  /** Every element is `[key]` or `[key, value]`. */
  predicate AllPairShaped(xs: seq<Value>) {
    forall j :: 0 <= j < |xs| ==> PairShaped(xs[j])
  }

  /** Element `j` is the first one `Hash[array]` rejects. */
  predicate FirstRejected(xs: seq<Value>, j: int) {
    0 <= j < |xs| && !PairShaped(xs[j]) && forall i :: 0 <= i < j ==> PairShaped(xs[i])
  }

  /** How the shapes of all but the last element relate to those of all of them. */
  lemma ShapesOfPrefix(xs: seq<Value>, n: int)
    requires 0 <= n && n == |xs| - 1
    ensures AllPairShaped(xs) <==> AllPairShaped(xs[..n]) && PairShaped(xs[n])
    ensures forall j :: 0 <= j < n ==> (FirstRejected(xs, j) <==> FirstRejected(xs[..n], j))
    ensures FirstRejected(xs, n) <==> AllPairShaped(xs[..n]) && !PairShaped(xs[n])
  {
    assert forall j :: 0 <= j < n ==> xs[..n][j] == xs[j];
  }

  /**
   * `Hash[array]`: each element `[key, value]` or `[key]` stores its pair in
   * turn; the first element of any other shape raises.
   */
  function PairsOfArray(xs: seq<Value>): (r: Result<Entries>)
    ensures r.Ok? <==> AllPairShaped(xs)
    ensures forall j :: FirstRejected(xs, j) ==> r == Err(ElementError(xs[j], j))
    ensures r.Ok? ==> DistinctKeys(r.value)
    decreases |xs|
  {
    if xs == [] then Ok([])
    else
      var n := |xs| - 1;
      var prefix := PairsOfArray(xs[..n]);
      ShapesOfPrefix(xs, n);
      if prefix.Err? then prefix
      else if !PairShaped(xs[n]) then Err(ElementError(xs[n], n))
      else Ok(Put(prefix.value, PairOf(xs[n]).0, PairOf(xs[n]).1))
  }

  /** Some element of `xs` has `k` as its first item. */
  predicate FirstItem(xs: seq<Value>, k: Value)
    requires AllPairShaped(xs)
  {
    exists j :: 0 <= j < |xs| && xs[j].items[0] == k
  }

  /** `Hash[array]` for a non-empty array stores the last element's pair into `Hash[]` of the others. */
  lemma PairsOfArrayStep(xs: seq<Value>, n: int)
    requires AllPairShaped(xs) && 0 <= n && n == |xs| - 1
    ensures AllPairShaped(xs[..n])
    ensures PairsOfArray(xs).value == Put(PairsOfArray(xs[..n]).value, PairOf(xs[n]).0, PairOf(xs[n]).1)
  {
    ShapesOfPrefix(xs, n);
  }

  /** The first items of a non-empty array are those of its prefix and that of its last element. */
  lemma FirstItemStep(xs: seq<Value>, n: int, k: Value)
    requires 0 <= n && n == |xs| - 1 && AllPairShaped(xs) && AllPairShaped(xs[..n])
    ensures FirstItem(xs, k) <==> FirstItem(xs[..n], k) || xs[n].items[0] == k
  {
    if FirstItem(xs, k) && xs[n].items[0] != k {
      var j :| 0 <= j < |xs| && xs[j].items[0] == k;
      assert xs[..n][j] == xs[j];
    }
    if FirstItem(xs[..n], k) {
      var j :| 0 <= j < n && xs[..n][j].items[0] == k;
      assert xs[..n][j] == xs[j];
    }
  }

  /** The keys of `Hash[array]` are the first items of the elements, and the last element's pair is stored. */
  lemma {:induction false} PairsOfArrayKeys(xs: seq<Value>)
    requires AllPairShaped(xs)
    ensures forall k :: HasKey(PairsOfArray(xs).value, k) <==> FirstItem(xs, k)
    ensures |xs| > 0 ==> Get(PairsOfArray(xs).value, PairOf(xs[|xs| - 1]).0) == Some(PairOf(xs[|xs| - 1]).1)
    decreases |xs|
  {
    if xs != [] {
      var n := |xs| - 1;
      PairsOfArrayStep(xs, n);
      PairsOfArrayKeys(xs[..n]);
      forall k ensures HasKey(PairsOfArray(xs).value, k) <==> FirstItem(xs, k) {
        FirstItemStep(xs, n, k);
      }
    }
  }

  /** The arguments `Hash[*args]` would take for the same pairs: each element spread, nil for a missing value. */
  function Spread(xs: seq<Value>): (r: seq<Value>)
    requires AllPairShaped(xs)
    ensures |r| % 2 == 0
    decreases |xs|
  {
    if xs == [] then [] else Spread(xs[..|xs| - 1]) + [PairOf(xs[|xs| - 1]).0, PairOf(xs[|xs| - 1]).1]
  }

  /** `Hash[[[k1, v1], [k2, v2], ...]]` builds the same hash as `Hash[k1, v1, k2, v2, ...]`. */
  lemma {:induction false} PairsOfArrayIsPairUp(xs: seq<Value>)
    requires AllPairShaped(xs)
    ensures PairsOfArray(xs) == Ok(PairUp(Spread(xs)))
    decreases |xs|
  {
    if xs != [] {
      var n := |xs| - 1;
      ShapesOfPrefix(xs, n);
      PairsOfArrayIsPairUp(xs[..n]);
      var s, pair := Spread(xs), PairOf(xs[n]);
      assert s == Spread(xs[..n]) + [pair.0, pair.1];
      assert s[..|s| - 2] == Spread(xs[..n]) && s[|s| - 2] == pair.0 && s[|s| - 1] == pair.1;
      assert PairUp(s) == Put(PairUp(Spread(xs[..n])), pair.0, pair.1);
      assert PairsOfArray(xs) == Ok(Put(PairsOfArray(xs[..n]).value, pair.0, pair.1));
    }
  }

  /**
   * `Hash[*keys]`: one hash argument is copied and one array argument is
   * read as a list of pairs; otherwise the arguments pair up, or the call
   * raises for an odd number of them.
   */
  function HashOfArgs(args: seq<Value>): (r: Result<Entries>)
    ensures |args| == 1 && args[0].Hash? ==> r == Ok(args[0].entries)
    ensures |args| == 1 && args[0].Arr? ==> r == PairsOfArray(args[0].items)
    ensures |args| % 2 == 1 && !(|args| == 1 && (args[0].Hash? || args[0].Arr?)) ==> r == Err(ArgumentError(OddArgumentsMessage))
    ensures |args| % 2 == 0 ==> r == Ok(PairUp(args))
  {
    if |args| == 1 && args[0].Hash? then Ok(args[0].entries)
    else if |args| == 1 && args[0].Arr? then PairsOfArray(args[0].items)
    else if |args| % 2 == 1 then Err(ArgumentError(OddArgumentsMessage))
    else Ok(PairUp(args))
  }

  /** One pair of `rename_keys!`: `hash[new] = delete(old) if hash[old]`. */
  function RenameStep(h: Entries, oldKey: Value, newKey: Value): (r: Entries)
    ensures !Truthy(Lookup(h, oldKey)) ==> r == h
  {
    if Truthy(Lookup(h, oldKey)) then Put(Delete(h, oldKey), newKey, Lookup(h, oldKey)) else h
  }

  /**
   * A pair whose old key holds a truthy value moves that value to the new
   * key; the old key is gone unless it is the new one; no other key changes.
   */
  lemma RenameStepMoves(h: Entries, oldKey: Value, newKey: Value)
    requires DistinctKeys(h) && Truthy(Lookup(h, oldKey))
    ensures Get(RenameStep(h, oldKey, newKey), newKey) == Some(Lookup(h, oldKey))
    ensures oldKey != newKey ==> !HasKey(RenameStep(h, oldKey, newKey), oldKey)
    ensures forall k :: k != oldKey && k != newKey ==> Get(RenameStep(h, oldKey, newKey), k) == Get(h, k)
    ensures DistinctKeys(RenameStep(h, oldKey, newKey))
  {
    var d := Delete(h, oldKey);
    assert Get(d, oldKey).None?;
  }

  /** The pairs applied in order. */
  function Renamed(h: Entries, pairs: Entries): (r: Entries)
    ensures DistinctKeys(h) ==> DistinctKeys(r)
    decreases |pairs|
  {
    if pairs == [] then h
    else
      var last := pairs[|pairs| - 1];
      var r := Renamed(h, pairs[..|pairs| - 1]);
      assert DistinctKeys(r) ==> DistinctKeys(RenameStep(r, last.0, last.1)) by {
        if DistinctKeys(r) && Truthy(Lookup(r, last.0)) {
          RenameStepMoves(r, last.0, last.1);
        }
      }
      RenameStep(r, last.0, last.1)
  }

  /** Renaming by one more pair is one more `RenameStep`. */
  lemma RenamedSnoc(h: Entries, pairs: Entries, i: int)
    requires 0 <= i < |pairs|
    ensures Renamed(h, pairs[..i + 1]) == RenameStep(Renamed(h, pairs[..i]), pairs[i].0, pairs[i].1)
  {
    assert pairs[..i + 1][..i] == pairs[..i];
  }

  /** `rename_keys!(*keys)`: the new entries, or the error `Hash[*keys]` raises. */
  function RenameKeys(h: Entries, args: seq<Value>): (r: Result<Entries>)
    ensures r.Err? <==>
      if |args| == 1 && args[0].Arr? then !AllPairShaped(args[0].items)
      else |args| % 2 == 1 && !(|args| == 1 && args[0].Hash?)
  {
    var pairs :- HashOfArgs(args);
    Ok(Renamed(h, pairs))
  }

  /** Renaming a key that is absent, or holds nil or false, changes nothing. */
  lemma RenameKeysFalsy(h: Entries, oldKey: Value, newKey: Value)
    requires !Truthy(Lookup(h, oldKey))
    ensures RenameKeys(h, [oldKey, newKey]) == Ok(h)
  {
    HashOfTwoArgs(oldKey, newKey);
    RenamedSingle(h, oldKey, newKey);
  }

  /** `rename_keys!([[old, new], ...])` renames exactly as `rename_keys!(old, new, ...)` does; `rename_keys!([])` changes nothing. */
  lemma RenameKeysByPairs(h: Entries, xs: seq<Value>)
    requires AllPairShaped(xs)
    ensures RenameKeys(h, [Arr(xs)]) == RenameKeys(h, Spread(xs))
    ensures xs == [] ==> RenameKeys(h, [Arr(xs)]) == Ok(h)
  {
    PairsOfArrayIsPairUp(xs);
    var pairs := PairUp(Spread(xs));
    assert HashOfArgs([Arr(xs)]) == Ok(pairs);
    assert RenameKeys(h, [Arr(xs)]) == Ok(Renamed(h, pairs));
    assert HashOfArgs(Spread(xs)) == Ok(pairs);
    assert RenameKeys(h, Spread(xs)) == Ok(Renamed(h, pairs));
  }

  /** `Hash[a, b]` is the one-entry hash `{a => b}`. */
  lemma HashOfTwoArgs(a: Value, b: Value)
    ensures HashOfArgs([a, b]) == Ok([(a, b)])
  {
    assert [a, b][..0] == [];
    assert PairUp([a, b]) == [(a, b)];
  }

  /** Renaming by one pair is one `RenameStep`. */
  lemma RenamedSingle(h: Entries, oldKey: Value, newKey: Value)
    ensures Renamed(h, [(oldKey, newKey)]) == RenameStep(h, oldKey, newKey)
  {
    assert [(oldKey, newKey)][..0] == [];
  }

  // ---------------------------------------------------------------------------
  // slice (only), only_fill

  /** `slice(*keys)`: the listed keys that are present, in the order listed. */
  function Sliced(h: Entries, keys: seq<Value>): (r: Entries)
    ensures DistinctKeys(r)
    ensures forall k :: HasKey(r, k) <==> HasKey(h, k) && k in keys
    ensures forall k :: HasKey(r, k) ==> Get(r, k) == Get(h, k)
    ensures RubyArray.FirstOrdered(Keys(r), keys)
    decreases |keys|
  {
    if keys == [] then []
    else
      var init, k := keys[..|keys| - 1], keys[|keys| - 1];
      var r := Sliced(h, init);
      assert keys == init + [k];
      assert forall k' :: k' in keys <==> k' in init || k' == k;
      if HasKey(h, k) then
        PutListedOrder(r, init, k, Lookup(h, k));
        Put(r, k, Lookup(h, k))
      else
        ListedOrderSnoc(Keys(r), init, k);
        r
  }

  /** Listing one more key moves no first mention of a listed key. */
  lemma ListedOrderSnoc(ks: seq<Value>, init: seq<Value>, k: Value)
    requires RubyArray.FirstOrdered(ks, init)
    requires forall i :: 0 <= i < |ks| ==> ks[i] in init
    ensures RubyArray.FirstOrdered(ks, init + [k])
  {
    RubyArray.IndexOfSnoc(init, k);
  }

  /**
   * Storing a listed key into a hash whose keys are listed, in order of first
   * mention, keeps that order, provided a key stored for the first time is
   * mentioned for the first time.
   */
  lemma PutListedOrder(m: Entries, init: seq<Value>, k: Value, v: Value)
    requires RubyArray.FirstOrdered(Keys(m), init)
    requires forall x :: HasKey(m, x) ==> x in init
    requires HasKey(m, k) || k !in init
    ensures RubyArray.FirstOrdered(Keys(Put(m, k, v)), init + [k])
  {
    var ks := Keys(m);
    KeysPut(m, k, v);
    forall i | 0 <= i < |ks| ensures ks[i] in init {
      assert HasKey(m, ks[i]);
    }
    ListedOrderSnoc(ks, init, k);
    if HasKey(m, k) {
      assert Keys(Put(m, k, v)) == ks;
    } else {
      FreshLastOrder(ks, init, k);
      assert Keys(Put(m, k, v)) == ks + [k];
    }
  }

  /** A key mentioned for the first time ranks after every listed key. */
  lemma FreshLastOrder(ks: seq<Value>, init: seq<Value>, k: Value)
    requires RubyArray.FirstOrdered(ks, init + [k])
    requires forall i :: 0 <= i < |ks| ==> ks[i] in init
    requires k !in init
    ensures RubyArray.FirstOrdered(ks + [k], init + [k])
  {
    var a, r := init + [k], ks + [k];
    RubyArray.IndexOfSnoc(init, k);
    forall i, j | 0 <= i < j < |r| ensures RubyArray.IndexOf(a, r[i]) < RubyArray.IndexOf(a, r[j]) {
      assert r[i] == ks[i];
      if j < |ks| {
        assert r[j] == ks[j];
      }
    }
  }

  /** `only_fill(*keys, placeholder:)`: every listed key, with its value or the placeholder. */
  function OnlyFilled(h: Entries, keys: seq<Value>, placeholder: Value): (r: Entries)
    ensures DistinctKeys(r)
    ensures forall k :: HasKey(r, k) <==> k in keys
    ensures forall k :: k in keys ==> Lookup(r, k) == if HasKey(h, k) then Lookup(h, k) else placeholder
    ensures RubyArray.FirstOrdered(Keys(r), keys)
    decreases |keys|
  {
    if keys == [] then []
    else
      var init, k := keys[..|keys| - 1], keys[|keys| - 1];
      var r := OnlyFilled(h, init, placeholder);
      assert keys == init + [k];
      var v := if HasKey(h, k) then Lookup(h, k) else placeholder;
      OnlyFillStep(h, r, init, k, placeholder);
      Put(r, k, v)
  }

  /** Filling one more listed key keeps every promise of `only_fill`. */
  lemma OnlyFillStep(h: Entries, r: Entries, init: seq<Value>, k: Value, placeholder: Value)
    requires DistinctKeys(r)
    requires forall x :: HasKey(r, x) <==> x in init
    requires forall x :: x in init ==> Lookup(r, x) == if HasKey(h, x) then Lookup(h, x) else placeholder
    requires RubyArray.FirstOrdered(Keys(r), init)
    ensures var v := if HasKey(h, k) then Lookup(h, k) else placeholder;
            var r' := Put(r, k, v);
            DistinctKeys(r') &&
            (forall x :: HasKey(r', x) <==> x in init + [k]) &&
            (forall x :: x in init + [k] ==> Lookup(r', x) == if HasKey(h, x) then Lookup(h, x) else placeholder) &&
            RubyArray.FirstOrdered(Keys(r'), init + [k])
  {
    var v := if HasKey(h, k) then Lookup(h, k) else placeholder;
    assert forall x :: x in init + [k] <==> x in init || x == k;
    PutListedOrder(r, init, k, v);
  }

  /** When every listed key is present, `only_fill` and `slice` agree. */
  lemma {:induction false} OnlyFillIsSlice(h: Entries, keys: seq<Value>, placeholder: Value)
    requires forall j :: 0 <= j < |keys| ==> HasKey(h, keys[j])
    ensures OnlyFilled(h, keys, placeholder) == Sliced(h, keys)
    decreases |keys|
  {
    if keys != [] {
      OnlyFillIsSlice(h, keys[..|keys| - 1], placeholder);
    }
  }

  // ---------------------------------------------------------------------------
  // reverse_merge

  /** `reverse_merge(other)`: `other.merge(self)`, so the receiver's values win. */
  function ReverseMerged(h: Entries, other: Entries): (r: Entries)
    ensures DistinctKeys(other) ==> DistinctKeys(r)
    ensures forall k :: HasKey(r, k) <==> HasKey(h, k) || HasKey(other, k)
    ensures DistinctKeys(h) ==> forall k :: HasKey(h, k) ==> Get(r, k) == Get(h, k)
    ensures forall k :: !HasKey(h, k) ==> Get(r, k) == Get(other, k)
  {
    Merge(other, h)
  }

  // ---------------------------------------------------------------------------
  // strip, vacant?, pair?

  /** `strip`: the entries whose value is present, in their order. */
  function Stripped(h: Entries): (r: Entries)
    ensures |r| <= |h|
    ensures forall j :: 0 <= j < |r| ==> IsPresent(r[j].1)
    ensures forall e :: e in r <==> e in h && IsPresent(e.1)
    ensures Subsequence(r, h)
    decreases |h|
  {
    if h == [] then []
    else
      var init, last := h[..|h| - 1], h[|h| - 1];
      var r := Stripped(init);
      assert h == init + [last];
      if IsPresent(last.1) then
        assert (r + [last])[..|r|] == r;
        r + [last]
      else
        SubsequenceExtend(r, h);
        r
  }

  /**
   * `strip` removes something exactly when some value is blank, and then the
   * hash gets shorter; this is what `reject!` reports.
   */
  lemma StrippedChanges(h: Entries)
    ensures Stripped(h) == h <==> forall j :: 0 <= j < |h| ==> IsPresent(h[j].1)
    ensures Stripped(h) != h ==> |Stripped(h)| < |h|
  {
    if forall j :: 0 <= j < |h| ==> IsPresent(h[j].1) {
      StrippedAllPresent(h);
    } else {
      StrippedSomeBlank(h);
    }
  }

  /** With every value present, `strip` removes nothing. */
  lemma {:induction false} StrippedAllPresent(h: Entries)
    requires forall j :: 0 <= j < |h| ==> IsPresent(h[j].1)
    ensures Stripped(h) == h
    decreases |h|
  {
    if h != [] {
      var init, last := h[..|h| - 1], h[|h| - 1];
      assert h == init + [last];
      assert forall j :: 0 <= j < |init| ==> init[j] == h[j];
      StrippedAllPresent(init);
    }
  }

  /** With some blank value, `strip` makes the hash shorter. */
  lemma {:induction false} StrippedSomeBlank(h: Entries)
    requires exists j :: 0 <= j < |h| && !IsPresent(h[j].1)
    ensures |Stripped(h)| < |h|
    decreases |h|
  {
    var init, last := h[..|h| - 1], h[|h| - 1];
    assert h == init + [last];
    if IsPresent(last.1) {
      var j :| 0 <= j < |h| && !IsPresent(h[j].1);
      assert j < |init| && init[j] == h[j];
      StrippedSomeBlank(init);
    }
  }

  /** Stripping a hash with distinct keys keeps them distinct. */
  lemma {:induction false} StrippedDistinct(h: Entries)
    requires DistinctKeys(h)
    ensures DistinctKeys(Stripped(h))
    decreases |h|
  {
    if h != [] {
      var init, last := h[..|h| - 1], h[|h| - 1];
      assert forall j :: 0 <= j < |init| ==> init[j] == h[j];
      StrippedDistinct(init);
      var r := Stripped(init);
      forall j | 0 <= j < |r| ensures r[j].0 != last.0 {
        assert r[j] in init;
      }
    }
  }

  /** `vacant?(key)`: `self[key].blank?`. */
  predicate Vacant(h: Entries, k: Value) {
    IsBlank(Lookup(h, k))
  }

  /** A missing key is vacant; after `self[k] = v`, `k` is vacant exactly when `v` is blank. */
  lemma VacantCases(h: Entries, k: Value, v: Value)
    ensures !HasKey(h, k) ==> Vacant(h, k)
    ensures Vacant(Put(h, k, v), k) <==> IsBlank(v)
  {
  }

  /** `pair?(key, value)`: `self[key] == value`. */
  predicate Pair(h: Entries, k: Value, v: Value) {
    Lookup(h, k) == v
  }

  /** `pair?` holds for what was just stored, and cannot tell a missing key from one holding nil. */
  lemma PairCases(h: Entries, k: Value, v: Value)
    ensures Pair(Put(h, k, v), k, v)
    ensures !HasKey(h, k) ==> Pair(h, k, Nil)
    ensures Pair(Put(h, k, Nil), k, Nil)
  {
  }

  // ---------------------------------------------------------------------------
  // denillify!, nillify!

  /** The value `denillify!(value)` stores for `v`. */
  function DenillifyValue(fill: Value): Value -> Value {
    (v: Value) => if v == Nil then fill else v
  }

  /** `denillify(value = 0)`: every nil value replaced by `value`, keys unchanged. */
  function Denillified(h: Entries, fill: Value): (r: Entries)
    ensures |r| == |h|
    ensures forall j :: 0 <= j < |h| ==> r[j].0 == h[j].0
    ensures fill != Nil ==> forall j :: 0 <= j < |r| ==> r[j].1 != Nil
    ensures forall j :: 0 <= j < |h| && h[j].1 == Nil ==> r[j].1 == fill
    ensures forall j :: 0 <= j < |h| && h[j].1 != Nil ==> r[j].1 == h[j].1
  {
    MapValues(h, DenillifyValue(fill))
  }

  /** The value `nillify!` stores for `v`. */
  function NillifyValue(): Value -> Value {
    (v: Value) => RubyArray.NilIfBlank(v)
  }

  /** `nillify`: every non-nil value that is blank, or whose `to_s` is blank, becomes nil. */
  function Nillified(h: Entries): (r: Entries)
    ensures |r| == |h|
    ensures forall j :: 0 <= j < |h| ==> r[j].0 == h[j].0
    ensures forall j :: 0 <= j < |h| ==> (r[j].1 == Nil <==> h[j].1 == Nil || IsBlank(h[j].1) || IsBlank(Str(ToS(h[j].1))))
    ensures forall j :: 0 <= j < |h| && r[j].1 != Nil ==> r[j].1 == h[j].1
  {
    MapValues(h, NillifyValue())
  }
}
