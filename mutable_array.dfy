/**
 * The operations of lib/lite/ruby/array.rb that change the receiver: the `!`
 * forms, which `replace` the contents with what the plain form computes, and
 * `bury`, `delete_values`, `fulfill`, `merge` and `swap`, which update it in
 * place. An `RArray` is one Ruby Array object; `items` is its contents.
 */
module MutableArray {
  import opened Outcomes
  import opened Values
  import opened Seqs
  import opened RubyArray
  import opened Bury

  class RArray {
    var items: seq<Value>

    constructor (items: seq<Value>)
      ensures this.items == items
    {
      this.items := items;
    }

    /**
     * `bury(*args)`: the contents become what `Bury.BuryArray` leaves behind,
     * which keeps the intermediate containers stored before a nested raise.
     */
    method Bury(args: seq<Value>) returns (r: Outcome)
      modifies this
      ensures items == BuryArray(old(items), args).state
      ensures r == BuryArray(old(items), args).outcome
    {
      var b := BuryArray(items, args);
      items := b.state;
      r := b.outcome;
    }

    /** `delete_first!`: `replace(self[1..-1])`, which raises TypeError on `replace(nil)` for the empty array. */
    method DeleteFirstBang() returns (r: Outcome)
      modifies this
      ensures old(items) == [] ==> r == Fail(TypeError) && items == old(items)
      ensures old(items) != [] ==> r == Pass && [old(items)[0]] + items == old(items)
    {
      var rest := DeleteFirst(items);
      match rest {
        case None =>
          r := Fail(TypeError);
        case Some(ys) =>
          items := ys;
          r := Pass;
      }
    }

    /** `delete_last!`: `replace(self[0...-1])`. */
    method DeleteLastBang()
      modifies this
      ensures old(items) == [] ==> items == []
      ensures old(items) != [] ==> items + [old(items)[|old(items)| - 1]] == old(items)
    {
      items := DeleteLast(items);
    }

    /** `delete(v)`: every element equal to `v` removed; answers `v` if there was one, else nil. */
    method Delete(v: Value) returns (r: Value)
      modifies this
      ensures items == RejectValues(old(items), [v])
      ensures r == if v in old(items) then v else Nil
    {
      r := if v in items then v else Nil;
      items := RejectValues(items, [v]);
    }

    /**
     * What `delete_values` answers for argument `k`: the argument when it was in
     * the array and no earlier argument equal to it has removed it, else nil.
     */
    static function DeletedValue(a: seq<Value>, args: seq<Value>, k: int): Value
      requires 0 <= k < |args|
    {
      if args[k] in a && args[k] !in args[..k] then args[k] else Nil
    }

    /** The answers of `delete_values` for the first `n` arguments. */
    static function DeletedValues(a: seq<Value>, args: seq<Value>, n: int): (r: seq<Value>)
      requires 0 <= n <= |args|
      ensures |r| == n && forall k :: 0 <= k < n ==> r[k] == DeletedValue(a, args, k)
    {
      if n == 0 then [] else DeletedValues(a, args, n - 1) + [DeletedValue(a, args, n - 1)]
    }

    /**
     * One round of `delete_values`: deleting `args[i]` after the first `i`
     * arguments removes the first `i + 1`, and answers the argument exactly
     * when it was still there.
     */
    static lemma DeleteValuesStep(a: seq<Value>, args: seq<Value>, i: int)
      requires 0 <= i < |args|
      ensures RejectValues(RejectValues(a, args[..i]), [args[i]]) == RejectValues(a, args[..i + 1])
      ensures DeletedValue(a, args, i) == if args[i] in RejectValues(a, args[..i]) then args[i] else Nil
    {
      assert args[..i + 1] == args[..i] + [args[i]];
      RejectValuesTwice(a, args[..i], [args[i]]);
      RejectValuesMember(a, args[..i], args[i]);
    }

    /** Before the first round nothing is removed. */
    static lemma DeleteValuesStart(a: seq<Value>, args: seq<Value>)
      ensures RejectValues(a, args[..0]) == a
    {
      FilterKeepsAll(a, NotIn(args[..0]));
    }

    /**
     * `delete_values(*args)`: `delete` for each argument in turn. Every
     * occurrence of every argument goes; the answer holds, per argument, the
     * argument when it was still there to delete, else nil.
     */
    method DeleteValues(args: seq<Value>) returns (results: seq<Value>)
      modifies this
      ensures items == RejectValues(old(items), args)
      ensures |results| == |args|
      ensures forall k :: 0 <= k < |args| ==> results[k] == DeletedValue(old(items), args, k)
    {
      ghost var a := items;
      results := [];
      DeleteValuesStart(a, args);
      for i := 0 to |args|
        invariant items == RejectValues(a, args[..i])
        invariant results == DeletedValues(a, args, i)
      {
        DeleteValuesStep(a, args, i);
        var d := Delete(args[i]);
        results := results + [d];
      }
      assert args[..|args|] == args;
    }

    /** `demote!(v)`: `replace(demote(v))`. */
    method DemoteBang(v: Value)
      modifies this
      ensures items == Demote(old(items), v)
    {
      items := Demote(items, v);
    }

    /** `promote!(v)`: `replace(promote(v))`. */
    method PromoteBang(v: Value)
      modifies this
      ensures items == Promote(old(items), v)
    {
      items := Promote(items, v);
    }

    /** `denillify!(fill)`: `replace(denillify(fill))`. */
    method DenillifyBang(fill: Value)
      modifies this
      ensures items == Denillify(old(items), fill)
    {
      items := Denillify(items, fill);
    }

    /** `nillify!`: `replace(nillify)`. */
    method NillifyBang()
      modifies this
      ensures items == Nillify(old(items))
    {
      items := Nillify(items);
    }

    /** `strip!`: `replace(strip)`. */
    method StripBang()
      modifies this
      ensures items == Strip(old(items))
    {
      items := Strip(items);
    }

    /**
     * `fulfill(value, amount)`: nothing when the array already has `amount`
     * elements, otherwise `fill(value, length..(amount - 1))`, which appends
     * copies of `value` up to `amount` elements.
     */
    method Fulfill(value: Value, amount: int)
      modifies this
      ensures amount <= |old(items)| ==> items == old(items)
      ensures amount > |old(items)| ==> |items| == amount && items[..|old(items)|] == old(items)
      ensures amount > |old(items)| ==> forall j :: |old(items)| <= j < amount ==> items[j] == value
    {
      if amount <= |items| {
        return;
      }
      items := items + Repeat(value, amount - |items|);
    }

    /** `merge(*values)`: each argument array is `concat`enated onto the receiver in turn. */
    method Merge(values: seq<seq<Value>>)
      modifies this
      ensures items == old(items) + Flatten(values)
    {
      var i := 0;
      while i < |values|
        invariant 0 <= i <= |values|
        invariant items == old(items) + Flatten(values[..i])
      {
        assert values[..i + 1] == values[..i] + [values[i]];
        FlattenSnoc(values[..i], values[i]);
        ConcatAssoc(old(items), Flatten(values[..i]), values[i]);
        items := items + values[i];
        i := i + 1;
      }
      assert values[..|values|] == values;
    }

    /**
     * `swap(from, to)`: both elements are read, then `self[from]` and then
     * `self[to]` are stored. When the second store raises, the first one has
     * already happened.
     */
    method Swap(from: int, to: int) returns (r: Outcome)
      modifies this
      ensures Store(old(items), from, At(old(items), to)).Err? ==> r == Fail(IndexError) && items == old(items)
      ensures Store(old(items), from, At(old(items), to)).Ok? ==>
                var first := Store(old(items), from, At(old(items), to)).value;
                if Store(first, to, At(old(items), from)).Err? then r == Fail(IndexError) && items == first
                else r == Pass && items == Swapped(old(items), from, to).value
    {
      var x, y := At(items, to), At(items, from);
      var first := Store(items, from, x);
      if first.Err? {
        return Fail(IndexError);
      }
      items := first.value;
      var second := Store(items, to, y);
      if second.Err? {
        return Fail(IndexError);
      }
      items := second.value;
      r := Pass;
    }
  }
}
