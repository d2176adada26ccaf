/**
 * `Hash#deep_merge!(other_hash, &block)`: the entries of `other_hash` stored
 * into the receiver one by one; where both sides hold a hash the two are
 * meant to be merged recursively, and where the receiver already has the key
 * and a block is given the block decides the value.
 *
 * As written, the recursive branch calls `deep_merge(other_value,
 * yield(block))`: without a block `yield` raises LocalJumpError, and with one
 * the call passes two positional arguments to a one-argument method and
 * raises ArgumentError. `DeepMergeAsWritten` models that; `DeepMerge` is the
 * recursion the method evidently intends, `this_value.deep_merge(other_value,
 * &block)`, and is the one the rest of the model uses.
 */
module HashDeepMerge {
  import opened Outcomes
  import opened OrderedMaps
  import opened Values

  type Entries = OMap<Value, Value>

  /** A block `{ |key, this_value, other_value| ... }`. */
  type Block = (Value, Value, Value) -> Value

  const NestedArityMessage: string := "wrong number of arguments (given 2, expected 1)"

  /** Both sides of a key hold a hash: the case that recurses. */
  predicate Nested(thisValue: Value, otherValue: Value) {
    thisValue.Hash? && otherValue.Hash?
  }

  /**
   * The value stored under `k` for the other hash's value `ov` when the
   * nested case does not apply: the block's answer for a key the receiver
   * already has, otherwise `ov`. This is `merge!` with a block.
   */
  function BlockValue(acc: Entries, k: Value, ov: Value, block: Option<Block>): (v: Value)
    ensures block.None? || !HasKey(acc, k) ==> v == ov
  {
    if block.Some? && HasKey(acc, k) then block.value(k, Lookup(acc, k), ov) else ov
  }

  /** `merge!(other) { |key, this_value, other_value| ... }` over the first `n` entries of `o`. */
  function MergeWithBlock(h: Entries, o: Entries, n: int, block: Option<Block>): Entries
    requires 0 <= n <= |o|
    decreases n
  {
    if n == 0 then h
    else
      var acc := MergeWithBlock(h, o, n - 1, block);
      Put(acc, o[n - 1].0, BlockValue(acc, o[n - 1].0, o[n - 1].1, block))
  }

  /** One entry of `other_hash` stored into `h`, as the method is written. */
  function MergeEntryAsWritten(h: Entries, k: Value, ov: Value, block: Option<Block>): (r: Result<Entries>)
    ensures r.Err? <==> Nested(Lookup(h, k), ov)
    ensures r.Err? && block.None? ==> r.error == LocalJumpError
    ensures r.Err? && block.Some? ==> r.error == ArgumentError(NestedArityMessage)
    ensures r.Ok? ==> Get(r.value, k).Some? && forall k' :: k' != k ==> Get(r.value, k') == Get(h, k')
  {
    if Nested(Lookup(h, k), ov) then
      if block.None? then Err(LocalJumpError) else Err(ArgumentError(NestedArityMessage))
    else Ok(Put(h, k, BlockValue(h, k, ov, block)))
  }

  /** `deep_merge!` as written, over the first `n` entries of `o`, stopping at the first error. */
  function AsWrittenInto(h: Entries, o: Entries, n: int, block: Option<Block>): Result<Entries>
    requires 0 <= n <= |o|
    decreases n
  {
    if n == 0 then Ok(h)
    else
      var acc :- AsWrittenInto(h, o, n - 1, block);
      MergeEntryAsWritten(acc, o[n - 1].0, o[n - 1].1, block)
  }

  /** `deep_merge!(other_hash, &block)` as written. */
  function DeepMergeAsWritten(h: Entries, o: Entries, block: Option<Block>): Result<Entries> {
    AsWrittenInto(h, o, |o|, block)
  }

  /**
   * The first `n` entries of `o` stored into `h` as intended: a key holding a
   * hash on both sides gets the two merged recursively with the same block.
   */
  function MergeInto(h: Entries, o: Entries, n: int, block: Option<Block>): Entries
    requires 0 <= n <= |o|
    decreases Hash(o), 0, n
  {
    if n == 0 then h
    else
      assert o[n - 1] in o;
      var acc := MergeInto(h, o, n - 1, block);
      Put(acc, o[n - 1].0, MergedValue(acc, o[n - 1].0, o[n - 1].1, block))
  }

  /** The value `deep_merge!` is meant to store under `k` for the other hash's value `ov`. */
  function MergedValue(acc: Entries, k: Value, ov: Value, block: Option<Block>): Value
    decreases ov, 1, 0
  {
    var tv := Lookup(acc, k);
    if Nested(tv, ov) then Hash(MergeInto(tv.entries, ov.entries, |ov.entries|, block))
    else BlockValue(acc, k, ov, block)
  }

  /**
   * One pass of `deep_merge!`: `self[key] = ...` for the entry `o[n]`, given
   * what the first `n` passes left in `acc`.
   */
  method StoreNext(ghost h: Entries, o: Entries, n: int, block: Option<Block>, acc: Entries) returns (r: Entries)
    requires 0 <= n < |o| && acc == MergeInto(h, o, n, block)
    ensures r == MergeInto(h, o, n + 1, block)
  {
    var (k, ov) := o[n];
    r := Put(acc, k, MergedValue(acc, k, ov, block));
  }

  /** `deep_merge!(other_hash, &block)` as intended. */
  function DeepMerge(h: Entries, o: Entries, block: Option<Block>): (r: Entries)
    ensures DistinctKeys(h) ==> DistinctKeys(r)
    ensures forall k :: HasKey(r, k) <==> HasKey(h, k) || HasKey(o, k)
    ensures forall k :: !HasKey(o, k) ==> Get(r, k) == Get(h, k)
  {
    assert o[..|o|] == o;
    MergeIntoKeys(h, o, |o|, block);
    MergeInto(h, o, |o|, block)
  }

  /**
   * `r` is `h` with the keys of the first `n` entries of `o` stored: the keys
   * stay distinct, the keys are those of `h` and of the entries stored, and
   * every other key keeps its value.
   */
  ghost predicate Stored(h: Entries, o: Entries, n: int, r: Entries)
    requires 0 <= n <= |o|
  {
    && (DistinctKeys(h) ==> DistinctKeys(r))
    && (forall k :: HasKey(r, k) <==> HasKey(h, k) || HasKey(o[..n], k))
    && (forall k :: !HasKey(o[..n], k) ==> Get(r, k) == Get(h, k))
  }

  /** Storing every entry of `o` is `deep_merge!`, and keeps the keys of a Ruby hash distinct. */
  lemma MergeIntoAll(h: Entries, o: Entries, block: Option<Block>, r: Entries)
    requires r == MergeInto(h, o, |o|, block)
    ensures r == DeepMerge(h, o, block)
    ensures DistinctKeys(h) ==> DistinctKeys(r)
  {
  }

  /** Storing entry `n - 1` extends what holds after the first `n - 1` entries. */
  lemma StoreStep(h: Entries, o: Entries, n: int, acc: Entries, v: Value)
    requires 0 < n <= |o|
    requires Stored(h, o, n - 1, acc)
    ensures Stored(h, o, n, Put(acc, o[n - 1].0, v))
  {
    HasKeyPrefix(o, n - 1);
    StoreStepKeys(h, o, n, acc, v);
    StoreStepOthers(h, o, n, acc, v);
  }

  lemma StoreStepKeys(h: Entries, o: Entries, n: int, acc: Entries, v: Value)
    requires 0 < n <= |o|
    requires forall k :: HasKey(o[..n], k) <==> HasKey(o[..n - 1], k) || o[n - 1].0 == k
    requires forall k :: HasKey(acc, k) <==> HasKey(h, k) || HasKey(o[..n - 1], k)
    ensures forall k :: HasKey(Put(acc, o[n - 1].0, v), k) <==> HasKey(h, k) || HasKey(o[..n], k)
  {
  }

  lemma StoreStepOthers(h: Entries, o: Entries, n: int, acc: Entries, v: Value)
    requires 0 < n <= |o|
    requires forall k :: HasKey(o[..n], k) <==> HasKey(o[..n - 1], k) || o[n - 1].0 == k
    requires forall k :: !HasKey(o[..n - 1], k) ==> Get(acc, k) == Get(h, k)
    ensures forall k :: !HasKey(o[..n], k) ==> Get(Put(acc, o[n - 1].0, v), k) == Get(h, k)
  {
  }

  /** Storing entries as intended keeps `Stored`. */
  lemma {:induction false} MergeIntoKeys(h: Entries, o: Entries, n: int, block: Option<Block>)
    requires 0 <= n <= |o|
    ensures Stored(h, o, n, MergeInto(h, o, n, block))
    decreases n
  {
    if n > 0 {
      var acc := MergeInto(h, o, n - 1, block);
      var v := MergedValue(acc, o[n - 1].0, o[n - 1].1, block);
      MergeIntoKeys(h, o, n - 1, block);
      StoreStep(h, o, n, acc, v);
    }
  }

  /** The same for `merge!` with a block. */
  lemma {:induction false} MergeWithBlockKeys(h: Entries, o: Entries, n: int, block: Option<Block>)
    requires 0 <= n <= |o|
    ensures Stored(h, o, n, MergeWithBlock(h, o, n, block))
    decreases n
  {
    if n > 0 {
      var acc := MergeWithBlock(h, o, n - 1, block);
      var v := BlockValue(acc, o[n - 1].0, o[n - 1].1, block);
      MergeWithBlockKeys(h, o, n - 1, block);
      StoreStep(h, o, n, acc, v);
    }
  }

  /** In a Ruby hash `o`, key `o[n].0` is not among the first `n` keys. */
  lemma NotEarlier(o: Entries, n: int)
    requires DistinctKeys(o) && 0 <= n < |o|
    ensures !HasKey(o[..n], o[n].0)
  {
    forall i | 0 <= i < n ensures o[..n][i].0 != o[n].0 {
      assert o[..n][i] == o[i];
    }
  }

  /**
   * Where no value of `o` is a hash and no block is given, `deep_merge!` is
   * plain `merge!`.
   */
  lemma MergeWithoutBlock(h: Entries, o: Entries, n: int)
    requires 0 <= n <= |o|
    ensures MergeWithBlock(h, o, n, None) == Merge(h, o[..n])
  {
    var i := 0;
    while i < n
      invariant 0 <= i <= n
      invariant MergeWithBlock(h, o, i, None) == Merge(h, o[..i])
    {
      MergeWithoutBlockStep(h, o, i + 1);
      i := i + 1;
    }
  }

  lemma MergeWithoutBlockStep(h: Entries, o: Entries, n: int)
    requires 0 < n <= |o|
    requires MergeWithBlock(h, o, n - 1, None) == Merge(h, o[..n - 1])
    ensures MergeWithBlock(h, o, n, None) == Merge(h, o[..n])
  {
    var p := o[..n];
    PrefixStep(o, n);
    MergeLast(h, p);
  }

  /** No key among the first `n` of `o` holds a hash both in `h` and in `o`. */
  ghost predicate NoneNested(h: Entries, o: Entries, n: int)
    requires 0 <= n <= |o|
  {
    forall i :: 0 <= i < n ==> !Nested(Lookup(h, o[i].0), o[i].1)
  }

  /** Before entry `n` is stored as intended, its key still holds the receiver's value. */
  lemma LookupBeforeStore(h: Entries, o: Entries, n: int, block: Option<Block>)
    requires DistinctKeys(o) && 0 <= n < |o|
    ensures Lookup(MergeInto(h, o, n, block), o[n].0) == Lookup(h, o[n].0)
  {
    NotEarlier(o, n);
    MergeIntoKeys(h, o, n, block);
  }

  /**
   * What `deep_merge!` stores under each key of a Ruby hash `o`: the two
   * hashes merged recursively when the receiver and `o` both hold a hash
   * there, otherwise what `merge!` with the block would store.
   */
  lemma DeepMergeEntry(h: Entries, o: Entries, block: Option<Block>, i: int)
    requires DistinctKeys(o) && 0 <= i < |o|
    ensures var k, ov, tv := o[i].0, o[i].1, Lookup(h, o[i].0);
      Get(DeepMerge(h, o, block), k)
        == Some(if Nested(tv, ov) then Hash(DeepMerge(tv.entries, ov.entries, block)) else BlockValue(h, k, ov, block))
  {
    var k := o[i].0;
    MergedValueAt(h, o, block, i);
    StoredAt(h, o, block, i);
    assert forall j :: i + 1 <= j < |o| ==> o[j].0 != k;
    LaterEntriesKeep(h, o, block, k, i + 1, |o|);
    DeepMergeIsMergeInto(h, o, block);
  }

  /** `deep_merge!` stores every entry of `o`. */
  lemma DeepMergeIsMergeInto(h: Entries, o: Entries, block: Option<Block>)
    ensures DeepMerge(h, o, block) == MergeInto(h, o, |o|, block)
  {
  }

  /** Storing entry `i` puts the value `MergedValue` computes under its key. */
  lemma StoredAt(h: Entries, o: Entries, block: Option<Block>, i: int)
    requires 0 <= i < |o|
    ensures Get(MergeInto(h, o, i + 1, block), o[i].0) == Some(MergedValue(MergeInto(h, o, i, block), o[i].0, o[i].1, block))
  {
    var acc := MergeInto(h, o, i, block);
    var v := MergedValue(acc, o[i].0, o[i].1, block);
    var r := MergeInto(h, o, i + 1, block);
    assert r == Put(acc, o[i].0, v);
  }

  /**
   * In a Ruby hash `o`, the value stored for entry `i` depends only on the
   * receiver: the earlier entries have other keys.
   */
  lemma MergedValueAt(h: Entries, o: Entries, block: Option<Block>, i: int)
    requires DistinctKeys(o) && 0 <= i < |o|
    ensures var k, ov, tv := o[i].0, o[i].1, Lookup(h, o[i].0);
      MergedValue(MergeInto(h, o, i, block), k, ov, block)
        == if Nested(tv, ov) then Hash(DeepMerge(tv.entries, ov.entries, block)) else BlockValue(h, k, ov, block)
  {
    var k, ov, tv := o[i].0, o[i].1, Lookup(h, o[i].0);
    var acc := MergeInto(h, o, i, block);
    LookupBeforeStore(h, o, i, block);
    NotEarlier(o, i);
    MergeIntoKeys(h, o, i, block);
    assert HasKey(acc, k) <==> HasKey(h, k);
    assert BlockValue(acc, k, ov, block) == BlockValue(h, k, ov, block);
    if Nested(tv, ov) {
      DeepMergeIsMergeInto(tv.entries, ov.entries, block);
    }
  }

  /** Entries `m` to `n - 1` of `o`, none with key `k`, leave `k` as the first `m` left it. */
  lemma {:induction false} LaterEntriesKeep(h: Entries, o: Entries, block: Option<Block>, k: Value, m: int, n: int)
    requires 0 <= m <= n <= |o|
    requires forall j :: m <= j < n ==> o[j].0 != k
    ensures Get(MergeInto(h, o, n, block), k) == Get(MergeInto(h, o, m, block), k)
    decreases n - m
  {
    if m < n {
      StoreOtherKey(h, o, m, block, k);
      LaterEntriesKeep(h, o, block, k, m + 1, n);
    }
  }

  /** Storing an entry with another key leaves `k` as it was. */
  lemma StoreOtherKey(h: Entries, o: Entries, n: int, block: Option<Block>, k: Value)
    requires 0 <= n < |o| && o[n].0 != k
    ensures Get(MergeInto(h, o, n + 1, block), k) == Get(MergeInto(h, o, n, block), k)
  {
    var acc := MergeInto(h, o, n, block);
    var v := MergedValue(acc, o[n].0, o[n].1, block);
    var r := MergeInto(h, o, n + 1, block);
    assert r == Put(acc, o[n].0, v);
    PutOtherKey(acc, o[n].0, v, k);
  }

  /** Storing under one key leaves another as it was. */
  lemma PutOtherKey(m: Entries, k: Value, v: Value, k': Value)
    requires k != k'
    ensures Get(Put(m, k, v), k') == Get(m, k')
  {
  }

  /** One step of `IntendedIsMergeWithBlock`. */
  lemma IntendedStep(h: Entries, o: Entries, n: int, block: Option<Block>)
    requires DistinctKeys(o) && 0 < n <= |o|
    requires MergeInto(h, o, n - 1, block) == MergeWithBlock(h, o, n - 1, block)
    requires !Nested(Lookup(h, o[n - 1].0), o[n - 1].1)
    ensures MergeInto(h, o, n, block) == MergeWithBlock(h, o, n, block)
  {
    LookupBeforeStore(h, o, n - 1, block);
  }

  /**
   * While no key of `o` holds a hash on both sides, the intended
   * `deep_merge!` is `merge!` with the same block.
   */
  lemma IntendedIsMergeWithBlock(h: Entries, o: Entries, n: int, block: Option<Block>)
    requires DistinctKeys(o) && 0 <= n <= |o|
    requires NoneNested(h, o, n)
    ensures MergeInto(h, o, n, block) == MergeWithBlock(h, o, n, block)
  {
    var i := 0;
    while i < n
      invariant 0 <= i <= n
      invariant MergeInto(h, o, i, block) == MergeWithBlock(h, o, i, block)
    {
      i := i + 1;
      IntendedStep(h, o, i, block);
    }
  }

  /**
   * Without nested hashes or a block, `deep_merge!` is `merge!`.
   */
  lemma DeepMergeFlat(h: Entries, o: Entries)
    requires DistinctKeys(o)
    requires forall i :: 0 <= i < |o| ==> !o[i].1.Hash?
    ensures DeepMerge(h, o, None) == Merge(h, o)
  {
    assert NoneNested(h, o, |o|);
    IntendedIsMergeWithBlock(h, o, |o|, None);
    MergeWithoutBlock(h, o, |o|);
    assert o[..|o|] == o;
  }

  /**
   * With a block, a key the receiver already has (and that does not hold a
   * hash on both sides) takes the block's value for the two values; a new
   * key takes `o`'s value.
   */
  lemma DeepMergeBlockEntry(h: Entries, k: Value, ov: Value, b: Block)
    requires !Nested(Lookup(h, k), ov)
    ensures HasKey(h, k) ==> Get(DeepMerge(h, [(k, ov)], Some(b)), k) == Some(b(k, Lookup(h, k), ov))
    ensures !HasKey(h, k) ==> Get(DeepMerge(h, [(k, ov)], Some(b)), k) == Some(ov)
  {
    assert MergeInto(h, [(k, ov)], 0, Some(b)) == h;
    assert DeepMerge(h, [(k, ov)], Some(b)) == Put(h, k, MergedValue(h, k, ov, Some(b)));
  }

  /** Before entry `n` is stored by `merge!`, its key still holds the receiver's value. */
  lemma LookupUntouched(h: Entries, o: Entries, n: int, block: Option<Block>)
    requires DistinctKeys(o) && 0 <= n < |o|
    ensures Lookup(MergeWithBlock(h, o, n, block), o[n].0) == Lookup(h, o[n].0)
  {
    MergeWithBlockKeys(h, o, n, block);
    NotEarlier(o, n);
  }

  /** One step of `AsWrittenIsMergeWithBlock`. */
  lemma AsWrittenStep(h: Entries, o: Entries, n: int, block: Option<Block>)
    requires DistinctKeys(o) && 0 < n <= |o|
    requires AsWrittenInto(h, o, n - 1, block) == Ok(MergeWithBlock(h, o, n - 1, block))
    requires !Nested(Lookup(h, o[n - 1].0), o[n - 1].1)
    ensures AsWrittenInto(h, o, n, block) == Ok(MergeWithBlock(h, o, n, block))
  {
    LookupUntouched(h, o, n - 1, block);
  }

  /**
   * As long as no key of `o` holds a hash on both sides, the method as
   * written succeeds, and does what `merge!` with the block does.
   */
  lemma AsWrittenIsMergeWithBlock(h: Entries, o: Entries, n: int, block: Option<Block>)
    requires DistinctKeys(o) && 0 <= n <= |o|
    requires NoneNested(h, o, n)
    ensures AsWrittenInto(h, o, n, block) == Ok(MergeWithBlock(h, o, n, block))
  {
    var i := 0;
    while i < n
      invariant 0 <= i <= n
      invariant AsWrittenInto(h, o, i, block) == Ok(MergeWithBlock(h, o, i, block))
    {
      i := i + 1;
      AsWrittenStep(h, o, i, block);
    }
  }

  /** So, on such input, the method as written and the intended one agree. */
  lemma AsWrittenAgrees(h: Entries, o: Entries, block: Option<Block>)
    requires DistinctKeys(o)
    requires NoneNested(h, o, |o|)
    ensures DeepMergeAsWritten(h, o, block) == Ok(DeepMerge(h, o, block))
  {
    AsWrittenIsMergeWithBlock(h, o, |o|, block);
    IntendedIsMergeWithBlock(h, o, |o|, block);
  }

  /** An error raised by an earlier entry is the answer. */
  lemma ErrorStays(h: Entries, o: Entries, n: int, block: Option<Block>)
    requires 0 < n <= |o|
    requires AsWrittenInto(h, o, n - 1, block).Err?
    requires !NoneNested(h, o, n - 1)
    ensures AsWrittenInto(h, o, n, block).Err? && !NoneNested(h, o, n)
  {
    var i :| 0 <= i < n - 1 && Nested(Lookup(h, o[i].0), o[i].1);
  }

  /** Entry `n - 1` raises, after the earlier ones did not, exactly when it is nested. */
  lemma RaisesAt(h: Entries, o: Entries, n: int, block: Option<Block>)
    requires DistinctKeys(o) && 0 < n <= |o|
    requires NoneNested(h, o, n - 1)
    ensures AsWrittenInto(h, o, n, block).Err? <==> Nested(Lookup(h, o[n - 1].0), o[n - 1].1)
  {
    AsWrittenIsMergeWithBlock(h, o, n - 1, block);
    LookupUntouched(h, o, n - 1, block);
    AsWrittenNext(h, o, n, block, MergeWithBlock(h, o, n - 1, block));
  }

  /**
   * After the first `n - 1` entries succeed with `acc`, entry `n - 1` is
   * stored into `acc`, and raises when its key holds a hash in `acc` and in `o`.
   */
  lemma AsWrittenNext(h: Entries, o: Entries, n: int, block: Option<Block>, acc: Entries)
    requires 0 < n <= |o| && AsWrittenInto(h, o, n - 1, block) == Ok(acc)
    requires Lookup(acc, o[n - 1].0) == Lookup(h, o[n - 1].0)
    ensures AsWrittenInto(h, o, n, block).Err? <==> Nested(Lookup(h, o[n - 1].0), o[n - 1].1)
  {
    assert AsWrittenInto(h, o, n, block) == MergeEntryAsWritten(acc, o[n - 1].0, o[n - 1].1, block);
  }

  /** Extending `NoneNested` by one entry. */
  lemma NoneNestedStep(h: Entries, o: Entries, n: int)
    requires 0 < n <= |o|
    ensures NoneNested(h, o, n) <==> NoneNested(h, o, n - 1) && !Nested(Lookup(h, o[n - 1].0), o[n - 1].1)
  {
  }

  /** One step of `AsWrittenRaises`. */
  lemma RaisesStep(h: Entries, o: Entries, n: int, block: Option<Block>)
    requires DistinctKeys(o) && 0 < n <= |o|
    requires AsWrittenInto(h, o, n - 1, block).Err? <==> !NoneNested(h, o, n - 1)
    ensures AsWrittenInto(h, o, n, block).Err? <==> !NoneNested(h, o, n)
  {
    if NoneNested(h, o, n - 1) {
      RaisesAt(h, o, n, block);
      NoneNestedStep(h, o, n);
    } else {
      ErrorStays(h, o, n, block);
    }
  }

  /**
   * In a Ruby hash `o`, the method as written raises exactly when some key
   * holds a hash both in the receiver and in `o`.
   */
  lemma AsWrittenRaises(h: Entries, o: Entries, block: Option<Block>)
    requires DistinctKeys(o)
    ensures DeepMergeAsWritten(h, o, block).Err? <==>
      exists i :: 0 <= i < |o| && Nested(Lookup(h, o[i].0), o[i].1)
  {
    RaisesUpTo(h, o, |o|, block);
  }

  /** The first `n` entries raise exactly when one of them is nested. */
  lemma {:induction false} RaisesUpTo(h: Entries, o: Entries, n: int, block: Option<Block>)
    requires DistinctKeys(o) && 0 <= n <= |o|
    ensures AsWrittenInto(h, o, n, block).Err? <==> !NoneNested(h, o, n)
    decreases n
  {
    if n > 0 {
      assert AsWrittenInto(h, o, n - 1, block).Err? <==> !NoneNested(h, o, n - 1) by {
        RaisesUpTo(h, o, n - 1, block);
      }
      RaisesStep(h, o, n, block);
    } else {
      assert AsWrittenInto(h, o, 0, block) == Ok(h);
    }
  }

  /** `{a: {x: 1}}.deep_merge!({a: {y: 2}})` merges the nested hashes into `{a: {x: 1, y: 2}}`. */
  lemma DeepMergeNestedExample()
    ensures DeepMerge([(Sym("a"), Hash([(Sym("x"), Int(1))]))], [(Sym("a"), Hash([(Sym("y"), Int(2))]))], None)
      == [(Sym("a"), Hash([(Sym("x"), Int(1)), (Sym("y"), Int(2))]))]
  {
    var a, x, y := Sym("a"), Sym("x"), Sym("y");
    var h, o := [(a, Hash([(x, Int(1))]))], [(a, Hash([(y, Int(2))]))];
    var inner := MergeInto([(x, Int(1))], [(y, Int(2))], 1, None);
    assert MergeInto([(x, Int(1))], [(y, Int(2))], 0, None) == [(x, Int(1))];
    assert !HasKey([(x, Int(1))], y);
    assert MergedValue([(x, Int(1))], y, Int(2), None) == Int(2);
    assert inner == Put([(x, Int(1))], y, Int(2));
    assert inner == [(x, Int(1)), (y, Int(2))];
    FindFirst(h, a, 0);
    assert MergedValue(h, a, Hash([(y, Int(2))]), None) == Hash(inner);
    assert MergeInto(h, o, 0, None) == h;
    assert DeepMerge(h, o, None) == MergeInto(h, o, 1, None);
    assert DeepMerge(h, o, None) == Put(h, a, Hash(inner));
  }

  /** The same call as written raises LocalJumpError without a block, and ArgumentError with one. */
  lemma DeepMergeAsWrittenRaisesExample(b: Block)
    ensures DeepMergeAsWritten([(Sym("a"), Hash([(Sym("x"), Int(1))]))], [(Sym("a"), Hash([(Sym("y"), Int(2))]))], None)
      == Err(LocalJumpError)
    ensures DeepMergeAsWritten([(Sym("a"), Hash([(Sym("x"), Int(1))]))], [(Sym("a"), Hash([(Sym("y"), Int(2))]))], Some(b))
      == Err(ArgumentError(NestedArityMessage))
  {
    var h := [(Sym("a"), Hash([(Sym("x"), Int(1))]))];
    assert [(Sym("a"), Hash([(Sym("y"), Int(2))]))][..0] == [];
    FindFirst(h, Sym("a"), 0);
  }
}
