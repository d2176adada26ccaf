/**
 * The operations of lib/lite/ruby/hash.rb that change the receiver. An
 * `RHash` is one Ruby Hash object and `entries` its contents; `Valid` is the
 * invariant every Ruby Hash keeps, that no key occurs twice. The `!` forms
 * that `replace` the contents store what the matching function of `RubyHash`
 * computes; `denillify!`, `nillify!`, `except!`, `extract!`,
 * `rename_keys!` and `deep_merge!` update the receiver one entry or one key
 * at a time, as the source does, and are proved to arrive at that function's
 * answer.
 */
module MutableHash {
  import opened Outcomes
  import opened OrderedMaps
  import opened Values
  import opened RubyHash
  import Burying = Bury
  import HashCollate
  import RubyArray
  import HashDeepMerge
  import RubyObject

  class RHash {
    var entries: Entries

    /** The keys are distinct. */
    predicate Valid()
      reads this
    {
      DistinctKeys(entries)
    }

    constructor (entries: Entries)
      requires DistinctKeys(entries)
      ensures Valid() && this.entries == entries
    {
      this.entries := entries;
    }

    /** `alias(new_key, old_key)`: `self[new_key] = self[old_key]` when `old_key` is present. */
    method Alias(newKey: Value, oldKey: Value)
      requires Valid()
      modifies this
      ensures Valid() && entries == Aliased(old(entries), newKey, oldKey)
    {
      entries := Aliased(entries, newKey, oldKey);
    }

    /**
     * `bury(*args)`: the entries `Bury.BuryHash` leaves behind, which keep
     * the intermediate containers stored before a nested raise.
     */
    method Bury(args: seq<Value>) returns (r: Outcome)
      requires Valid()
      modifies this
      ensures Valid()
      ensures entries == Burying.BuryHash(old(entries), args).state
      ensures r == Burying.BuryHash(old(entries), args).outcome
    {
      var b := Burying.BuryHash(entries, args);
      if |args| >= 2 {
        Burying.BuryHashFrame(entries, args);
      }
      entries := b.state;
      r := b.outcome;
    }

    /**
     * `collate!(other_hash)`: every key of either hash, each holding the
     * flattened list of the values it has in the receiver and then in
     * `other_hash`.
     */
    method CollateBang(other: Entries)
      requires Valid()
      modifies this
      ensures Valid()
      ensures forall k :: HasKey(entries, k) <==> HasKey(old(entries), k) || HasKey(other, k)
      ensures Keys(entries) == RubyArray.Dedup(Keys(old(entries)) + Keys(other))
      ensures forall p :: 0 <= p < |entries| ==>
        entries[p].1 == Arr(HashCollate.DeepFlatten(HashCollate.Sources([old(entries), other], entries[p].0)))
    {
      var h := entries;
      assert [h] + [other] == [h, other];
      entries := HashCollate.Collate(h, [other]);
      forall k ensures HashCollate.InSome([h, other], k) <==> HasKey(h, k) || HasKey(other, k) {
        assert [h, other][0] == h && [h, other][1] == other;
      }
      HashCollate.AllKeysTwo(h, other);
    }

    /** `dearray_values!(idx = 0)` */
    method DearrayValuesBang(idx: int)
      requires Valid()
      modifies this
      ensures Valid() && entries == DearrayValues(old(entries), idx)
    {
      MapValuesKeys(entries, DearrayValue(idx));
      entries := DearrayValues(entries, idx);
    }

    /** `dearray_singular_values!` */
    method DearraySingularValuesBang()
      requires Valid()
      modifies this
      ensures Valid() && entries == DearraySingularValues(old(entries))
    {
      MapValuesKeys(entries, SingularValue());
      entries := DearraySingularValues(entries);
    }

    /**
     * `deep_merge!(other_hash, &block)`, with the nested branch merging with
     * the same block: the entries of `other_hash` are stored one by one.
     */
    method DeepMergeBang(other: Entries, block: Option<HashDeepMerge.Block>)
      requires Valid()
      modifies this
      ensures Valid() && entries == HashDeepMerge.DeepMerge(old(entries), other, block)
    {
      ghost var h := entries;
      var i := 0;
      while i < |other|
        invariant 0 <= i <= |other|
        invariant entries == HashDeepMerge.MergeInto(h, other, i, block)
      {
        entries := HashDeepMerge.StoreNext(h, other, i, block, entries);
        i := i + 1;
      }
      HashDeepMerge.MergeIntoAll(h, other, block, entries);
    }

    /** `demote!(key)`: a present key moves to the end, keeping its value. */
    method DemoteBang(k: Value)
      requires Valid()
      modifies this
      ensures Valid() && entries == Demoted(old(entries), k)
    {
      if HasKey(entries, k) {
        DemotedMoves(entries, k);
      }
      entries := Demoted(entries, k);
    }

    /**
     * `promote!(key)`: for a present key, the key is deleted from the
     * receiver and the answer is a new hash with it first; otherwise the
     * answer is the receiver, unchanged.
     */
    method PromoteBang(k: Value) returns (r: Entries)
      requires Valid()
      modifies this
      ensures Valid() && (entries, r) == Promoted(old(entries), k)
    {
      if !HasKey(entries, k) {
        r := entries;
        return;
      }
      var v := Lookup(entries, k);
      entries := Delete(entries, k);
      r := Merge([(k, v)], entries);
    }

    /** `each { |key, val| self[key] = f(val) }`: every value replaced in place, in order. */
    method UpdateEach(f: Value -> Value)
      requires Valid()
      modifies this
      ensures Valid() && entries == MapValues(old(entries), f)
    {
      ghost var h := entries;
      var i := 0;
      while i < |entries|
        invariant 0 <= i <= |entries| == |h|
        invariant DistinctKeys(entries)
        invariant forall j :: 0 <= j < i ==> entries[j] == (h[j].0, f(h[j].1))
        invariant forall j :: i <= j < |entries| ==> entries[j] == h[j]
      {
        var k, v := entries[i].0, entries[i].1;
        FindAt(entries, i);
        entries := Put(entries, k, f(v));
        i := i + 1;
      }
    }

    /** `denillify!(value = 0)` */
    method DenillifyBang(fill: Value)
      requires Valid()
      modifies this
      ensures Valid() && entries == Denillified(old(entries), fill)
    {
      UpdateEach(DenillifyValue(fill));
    }

    /** `nillify!` */
    method NillifyBang()
      requires Valid()
      modifies this
      ensures Valid() && entries == Nillified(old(entries))
    {
      UpdateEach(NillifyValue());
    }

    /** `except!(*keys)`: each listed key deleted in turn, leaving the other entries in order. */
    method ExceptBang(keys: seq<Value>)
      requires Valid()
      modifies this
      ensures Valid() && entries == Without(old(entries), keys)
    {
      ghost var h := entries;
      var i := 0;
      while i < |keys|
        invariant 0 <= i <= |keys|
        invariant entries == Excepted(h, keys[..i])
      {
        assert keys[..i + 1][..i] == keys[..i];
        entries := Delete(entries, keys[i]);
        i := i + 1;
      }
      assert keys[..|keys|] == keys;
      ExceptedIsWithout(h, keys);
    }

    /** `extract!(*keys)`: each present listed key moved to the end in turn. */
    method ExtractBang(keys: seq<Value>)
      requires Valid()
      modifies this
      ensures Valid() && entries == Extracted(old(entries), keys)
      ensures |entries| == |old(entries)| && forall k :: Get(entries, k) == Get(old(entries), k)
    {
      ghost var h := entries;
      var i := 0;
      while i < |keys|
        invariant 0 <= i <= |keys|
        invariant entries == Extracted(h, keys[..i])
      {
        assert keys[..i + 1][..i] == keys[..i];
        entries := Demoted(entries, keys[i]);
        i := i + 1;
      }
      assert keys[..|keys|] == keys;
      ExtractedKeepsEntries(h, keys);
    }

    /** `only_fill!(*keys, placeholder: nil)` */
    method OnlyFillBang(keys: seq<Value>, placeholder: Value)
      requires Valid()
      modifies this
      ensures Valid() && entries == OnlyFilled(old(entries), keys, placeholder)
    {
      entries := OnlyFilled(entries, keys, placeholder);
    }

    /**
     * `rename_keys!(*keys)`: the arguments pair up as `Hash[*keys]` does, or
     * the call raises before changing anything; then each pair is applied in
     * turn.
     */
    method RenameKeysBang(args: seq<Value>) returns (r: Outcome)
      requires Valid()
      modifies this
      ensures Valid()
      ensures RenameKeys(old(entries), args).Ok? ==> r == Pass && entries == RenameKeys(old(entries), args).value
      ensures RenameKeys(old(entries), args).Err? ==> r == Fail(RenameKeys(old(entries), args).error) && entries == old(entries)
    {
      var pairs := HashOfArgs(args);
      if pairs.Err? {
        r := Fail(pairs.error);
        return;
      }
      var ps := pairs.value;
      ghost var h := entries;
      var i := 0;
      while i < |ps|
        invariant 0 <= i <= |ps|
        invariant entries == Renamed(h, ps[..i])
      {
        RubyHash.RenamedSnoc(h, ps, i);
        entries := RenameStep(entries, ps[i].0, ps[i].1);
        i := i + 1;
      }
      assert ps[..|ps|] == ps;
      r := Pass;
    }

    /**
     * `reverse_merge!(other_hash)`: `other_hash.merge!(self)`. It is
     * `other_hash` that changes, taking every entry of the receiver; the
     * receiver itself changes only when it is `other_hash`.
     */
    method ReverseMergeBang(other: RHash)
      requires Valid() && other.Valid()
      modifies other
      ensures other.Valid() && other.entries == ReverseMerged(old(entries), old(other.entries))
      ensures other != this ==> entries == old(entries)
    {
      other.entries := Merge(other.entries, entries);
    }

    /** `slice!(*keys)` (also `only!`) */
    method SliceBang(keys: seq<Value>)
      requires Valid()
      modifies this
      ensures Valid() && entries == Sliced(old(entries), keys)
    {
      entries := Sliced(entries, keys);
    }

    /** `stringify_keys!` */
    method StringifyKeysBang()
      requires Valid()
      modifies this
      ensures Valid() && entries == StringifyKeys(old(entries))
    {
      entries := StringifyKeys(entries);
    }

    /**
     * `strip!`: `reject! { |_, val| val.blank? }`. `changed` is false when
     * nothing was removed, where Ruby answers nil; otherwise Ruby answers the
     * receiver.
     */
    method StripBang() returns (changed: bool)
      requires Valid()
      modifies this
      ensures Valid() && entries == Stripped(old(entries))
      ensures changed <==> exists j :: 0 <= j < |old(entries)| && !RubyObject.IsPresent(old(entries)[j].1)
      ensures changed <==> |entries| < |old(entries)|
    {
      StrippedDistinct(entries);
      StrippedChanges(entries);
      changed := Stripped(entries) != entries;
      entries := Stripped(entries);
    }

    /** `symbolize_keys!` */
    method SymbolizeKeysBang()
      requires Valid()
      modifies this
      ensures Valid() && entries == SymbolizeKeys(old(entries))
    {
      entries := SymbolizeKeys(entries);
    }

    /** `symbolize_and_underscore_keys!` */
    method SymbolizeAndUnderscoreKeysBang()
      requires Valid()
      modifies this
      ensures Valid() && entries == SymbolizeAndUnderscoreKeys(old(entries))
    {
      entries := SymbolizeAndUnderscoreKeys(entries);
    }
  }
}
