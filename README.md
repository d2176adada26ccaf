# lite-ruby core extensions, modelled in Dafny

lite-ruby adds small, deterministic helpers to Ruby's `Array`, `Hash`,
`Integer` and `Object`. This project models those helpers and proves what
they promise.

Ruby values are one recursive datatype, `Values.Value`, with the cases
`Nil | Bool | Int | Str | Sym | Arr | Hash`. A Ruby hash is an insertion-ordered
sequence of key/value pairs with distinct keys (`OrderedMaps`). The order
matters because `demote!`, `promote!`, `extract!` and `collate` observe it.

How the model is laid out:

- **Pure operations are functions.** `RubyArray` covers array.rb. `RubyHash`,
  `HashCollate`, `HashDeepMerge`, `KeyNames` and `Bury` cover hash.rb.
  `RubyInteger` covers integer.rb, and `RubyObject` covers object.rb.
- **Loops become methods.** `in_groups`, `indexes`, `split(sep)`, `collate`,
  `factorial` and `factors` are methods with loop invariants. Each one is
  proved equal to a function, and the properties are proved about that
  function.
- **Operations that change the receiver are class methods.** They live on
  `MutableArray.RArray` (field `items`) and `MutableHash.RHash` (field
  `entries`, which keeps the distinct-key invariant `Valid()`). Each
  method's postcondition ties the new state to the pure function applied to
  the old state.
- **Raised exceptions are results.** A raise becomes the `Err` case of
  `Outcomes.Result`, and a `!` method reports it as a `Fail` outcome.
- **Blocks are function parameters.** A block passed to an operation is an
  ordinary function value.

## Model

| member | source | states |
|---|---|---|
| RubyArray.After | lib/lite/ruby/array.rb:6-10 | nil when the value is absent; otherwise the element cyclically after its first occurrence, `a[(i + 1) % length]` |
| RubyArray.FirstOccurrence | lib/lite/ruby/array.rb:9 | `index(v)` is the position i holding v with no v before it |
| RubyArray.Before | lib/lite/ruby/array.rb:14-18 | nil when the value is absent; otherwise the element cyclically before its first occurrence, `a[(i - 1) % length]` with Ruby's non-negative modulo |
| RubyArray.AfterBeforeInverse | lib/lite/ruby/array.rb:6-18 | on an array without repeats, `before(after(v)) == v` and `after(before(v)) == v` for every element v |
| RubyArray.BeforeUndoesAfter | lib/lite/ruby/array.rb:6-18 | `before` undoes `after` on an array without repeats |
| RubyArray.AfterUndoesBefore | lib/lite/ruby/array.rb:6-18 | `after` undoes `before` on an array without repeats |
| RubyArray.AfterBeforeWithRepeats | lib/lite/ruby/array.rb:6-18 | with a repeated element the inverse fails: `[1,2,1].before(after(2))` is 1 |
| RubyArray.IndexOf | lib/lite/ruby/array.rb:9 | `index`: -1 exactly when absent; otherwise the first position holding the value |
| RubyArray.RIndexOf | lib/lite/ruby/array.rb:270 | `rindex`: -1 exactly when absent; otherwise the last position holding the value |
| RubyArray.Filter | lib/lite/ruby/array.rb:263-265 | `select`/`reject`: every kept element is accepted, and each accepted value keeps its full count while every other value is gone |
| RubyArray.At | lib/lite/ruby/array.rb:324 | `self[i]`: negative indexes count from the end; out of range gives nil |
| RubyArray.Store | lib/lite/ruby/array.rb:29 | `self[i] = v`: IndexError exactly when i < -length; past the end it pads with nil; afterwards `self[i] == v` and every other slot is unchanged |
| RubyArray.SwapInRange | lib/lite/ruby/array.rb:323-326 | with both indexes in range, `swap` exchanges the two slots, keeps the multiset of elements, and undoes itself |
| RubyArray.SwapPastEnd | lib/lite/ruby/array.rb:323-326 | `[1].swap(2, 0)` is `[nil, nil, 1]` (the store pads) |
| RubyArray.Swapped | lib/lite/ruby/array.rb:323-326 | defined as the source does it: both elements are read first, then `self[from]` and `self[to]` are stored in that order, each store padding with nil or raising IndexError (SwapInRange and SwapPastEnd state the consequences) |
| RubyArray.DeleteFirst | lib/lite/ruby/array.rb:51-53 | none for the empty array; otherwise the first element followed by the result is the array |
| RubyArray.DeleteLast | lib/lite/ruby/array.rb:63-65 | the result followed by the last element is the array; `[]` stays `[]` |
| RubyArray.RejectValues | lib/lite/ruby/array.rb:263-265 | no kept element is an argument; every other value keeps its count |
| RubyArray.RejectValuesMember | lib/lite/ruby/array.rb:263-265 | v survives iff v was in the array and is not an argument |
| RubyArray.RejectValuesTwice | lib/lite/ruby/array.rb:263-265 | rejecting xs and then ys is rejecting xs + ys |
| RubyArray.Strip | lib/lite/ruby/array.rb:311-313 | only present elements remain, each non-blank value with its full count |
| RubyArray.BlankArrayIsStripEmpty | lib/lite/ruby/array.rb:311-313 | an array is blank iff stripping it leaves nothing |
| RubyArray.Nillify | lib/lite/ruby/array.rb:209-211 | same length; each element is nil-if-blank of the original |
| RubyArray.NillifyCases | lib/lite/ruby/array.rb:209-211 | blank non-symbols become nil and present ones stay; a blank-named symbol is nil'd although present |
| RubyArray.Denillify | lib/lite/ruby/array.rb:93-95 | the length is kept (the element-wise meaning is in DenillifyProperties) |
| RubyArray.DenillifyProperties | lib/lite/ruby/array.rb:93-95 | every nil element becomes the fill and every other element is kept; with a non-nil fill no nil remains; the operation is idempotent |
| RubyArray.Demote | lib/lite/ruby/array.rb:81-83 | a permutation in which the copies of the value are exactly the final positions |
| RubyArray.Promote | lib/lite/ruby/array.rb:251-253 | a permutation in which the copies of the value are exactly the first positions |
| RubyArray.Dedup | lib/lite/ruby/array.rb:119-123 | `uniq`: no repeats, the same members, in order of first occurrence |
| RubyArray.Duplicates | lib/lite/ruby/array.rb:119-123 | no repeats; v is listed iff it occurs at least `minimum` times; listed in order of first occurrence |
| RubyArray.FilterKeepsOrder | lib/lite/ruby/array.rb:122 | filtering a list ordered by first occurrence keeps it ordered, so `select` keeps the order `tally` gives |
| RubyArray.From | lib/lite/ruby/array.rb:127-129 | the suffix from the position, with negative positions from the end; out of range gives `[]` |
| RubyArray.To | lib/lite/ruby/array.rb:330-332 | the prefix up to and including the position; past the end gives the array, before the start `[]` |
| RubyArray.ToFromSplit | lib/lite/ruby/array.rb:127-129 | `to(p) + from(p + 1)` rebuilds the array |
| RubyArray.EachSlice | lib/lite/ruby/array.rb:187 | the slices concatenate to the array; all but the last have length n; the last is non-empty and at most n |
| RubyArray.FullChunks | lib/lite/ruby/array.rb:145 | `length div n` chunks |
| RubyArray.Groups | lib/lite/ruby/array.rb:141-147 | defined as the source does it: `[]` for n <= 0; otherwise the `length div n` full chunks, then the last `length % n` elements when that is positive (GroupsPartition and GroupsIsEachSlice state the consequences) |
| RubyArray.GroupsIsEachSlice | lib/lite/ruby/array.rb:141-147 | `groups(n)` (full chunks plus the tail `self[-rem, rem]`) equals `each_slice(n)`, so chunks never overlap |
| RubyArray.GroupsPartition | lib/lite/ruby/array.rb:141-147 | `[]` for n <= 0; otherwise the chunks concatenate to the array, all but the last have length n, and the last is non-empty |
| RubyArray.Padding | lib/lite/ruby/array.rb:183 | the fill count is below n and brings the length to a multiple of n |
| RubyArray.InGroupsOf | lib/lite/ruby/array.rb:174-189 | raises iff n <= 0; the groups concatenate to the array plus `(n - length % n) % n` fills (none when fill is false); with padding every group has length n |
| RubyArray.SlicesOfMultipleAreFull | lib/lite/ruby/array.rb:187 | when n divides the length, every slice has length n |
| RubyArray.GroupStartBounds | lib/lite/ruby/array.rb:158-164 | the `start` accumulator stays within the array, grows by each group's size, and ends at the length |
| RubyArray.GroupSlice | lib/lite/ruby/array.rb:162 | the i-th slice has the i-th group size |
| RubyArray.InGroups | lib/lite/ruby/array.rb:152-168 | ZeroDivisionError iff n == 0; `[]` for n < 0; otherwise exactly n groups, the i-th being the i-th slice, padded as the source pads it |
| RubyArray.InGroupsCover | lib/lite/ruby/array.rb:152-168 | the unpadded groups concatenate to the array |
| RubyArray.InGroupsSizes | lib/lite/ruby/array.rb:159-163 | the first `length % n` groups have one more element; with a non-false fill and a remainder, every group has `length div n + 1` elements; otherwise groups are the plain slices |
| RubyArray.Indexes | lib/lite/ruby/array.rb:194-198 | the loop pushes exactly the positions `IndexesOf` lists |
| RubyArray.IndexesOf | lib/lite/ruby/array.rb:194-198 | the positions holding the value, ascending (IndexesOfSpec states this) |
| RubyArray.IndexesOfSpec | lib/lite/ruby/array.rb:194-198 | ascending positions, each holding the value, every occurrence listed, as many as the value's count |
| RubyArray.Positions | lib/lite/ruby/array.rb:230-232 | the indexes shifted to count from 1 |
| RubyArray.Position | lib/lite/ruby/array.rb:221-226 | nil iff absent; otherwise the 1-based first occurrence |
| RubyArray.RPosition | lib/lite/ruby/array.rb:269-274 | nil iff absent; otherwise the 1-based last occurrence |
| RubyArray.PositionsEnds | lib/lite/ruby/array.rb:221-232 | `position` is the first of `positions` and `rposition` the last |
| RubyArray.SplitBy | lib/lite/ruby/array.rb:286-289 | the block form of `split` always yields at least one part |
| RubyArray.SplitOn | lib/lite/ruby/array.rb:291-304 | the `arr.shift` loop computes exactly the parts the block form yields with `== sep` |
| RubyArray.SplitByCount | lib/lite/ruby/array.rb:285-306 | one more part than there are separators |
| RubyArray.SplitBySeparatorFree | lib/lite/ruby/array.rb:285-306 | no part contains a separator |
| RubyArray.SplitByFlatten | lib/lite/ruby/array.rb:285-306 | the parts concatenate to the array with the separators removed |
| RubyArray.SplitOnRoundTrip | lib/lite/ruby/array.rb:285-306 | joining the parts with the separator rebuilds the array |
| RubyArray.SplitEmpty | lib/lite/ruby/array.rb:291-304 | the empty array splits into `[[]]` |
| RubyArray.ToSentence | lib/lite/ruby/array.rb:337-354 | defined by the four cases of the `case`: "" for none, the element's text for one, the two joined by the two-words connector, otherwise all but the last joined by the words connector, then the last-word connector and the last (ToSentenceExamples and ToSentenceFrame state the consequences) |
| RubyArray.ToSentenceExamples | lib/lite/ruby/array.rb:337-354 | "" for none, the sole element for one, "a and b" for two, "a, b, and c" for three, with the default connectors |
| RubyArray.ToSentenceFrame | lib/lite/ruby/array.rb:344-353 | the sentence ends with the last element, starts with the first (two or more), and puts the last-word connector before the last (three or more) |
| MutableArray.RArray.Bury | lib/lite/ruby/array.rb:24-45 | the receiver becomes the contents `bury` leaves behind (keeping the stores made before a nested raise) and the outcome is reported |
| MutableArray.RArray.DeleteFirstBang | lib/lite/ruby/array.rb:57-59 | fails (`replace(nil)`) on the empty array; otherwise drops exactly the first element |
| MutableArray.RArray.DeleteLastBang | lib/lite/ruby/array.rb:69-71 | drops exactly the last element |
| MutableArray.RArray.Delete | lib/lite/ruby/array.rb:76 | every copy of the value is removed; returns the value if present, else nil |
| MutableArray.RArray.DeleteValues | lib/lite/ruby/array.rb:75-77 | the receiver loses every occurrence of every argument; one result per argument, the argument if it was still present, else nil |
| MutableArray.RArray.DeletedValues | lib/lite/ruby/array.rb:75-77 | one result per argument processed so far |
| MutableArray.RArray.DeleteValuesStep | lib/lite/ruby/array.rb:75-77 | deleting arguments one at a time is rejecting them all at once |
| MutableArray.RArray.DemoteBang | lib/lite/ruby/array.rb:87-89 | the receiver becomes `demote` of its old items |
| MutableArray.RArray.PromoteBang | lib/lite/ruby/array.rb:257-259 | the receiver becomes `promote` of its old items |
| MutableArray.RArray.DenillifyBang | lib/lite/ruby/array.rb:99-101 | the receiver becomes `denillify` of its old items: each nil replaced by the fill, everything else kept |
| MutableArray.RArray.NillifyBang | lib/lite/ruby/array.rb:215-217 | the receiver becomes `nillify` of its old items |
| MutableArray.RArray.StripBang | lib/lite/ruby/array.rb:317-319 | the receiver becomes `strip` of its old items |
| MutableArray.RArray.Fulfill | lib/lite/ruby/array.rb:133-137 | unchanged when long enough; otherwise the old items followed by copies of the value up to `amount` |
| MutableArray.RArray.Merge | lib/lite/ruby/array.rb:202-205 | the receiver gains the argument arrays' elements in order |
| MutableArray.RArray.Swap | lib/lite/ruby/array.rb:323-326 | performs the two stores in order; an IndexError from either leaves what had been stored so far |
| Bury.BuryValue | lib/lite/ruby/array.rb:38 | recursing into an array keeps an array and into a hash keeps a hash; any other intermediate raises NoMethodError |
| Bury.BuryArray | lib/lite/ruby/array.rb:24-45 | ArgumentError iff fewer than 2 arguments, with the array unchanged; with 2, an Integer key stores (nil-padding, IndexError below the start) and any other key appends `{k => v}`; a first index below the start raises IndexError before any store; a nested raise under a non-Integer key appends nothing; with the contents left behind in every case |
| Bury.BuryHash | lib/lite/ruby/hash.rb:43-55 | ArgumentError iff fewer than 2 arguments, with the hash unchanged; with 2 it sets `self[k] = v`; with more, the contents left behind include the intermediate store even when a deeper level raises |
| Bury.NestedRaiseKeepsStores | lib/lite/ruby/array.rb:24-45 | `[].bury(0, 1, -5, :x)` raises IndexError and leaves `[[nil, []]]`; `{a: []}.bury(:a, 0, -5, :x)` raises IndexError and leaves `{a: [[]]}` |
| Bury.BuryHashFrame | lib/lite/ruby/hash.rb:43-55 | keys other than the first argument keep their values; the key set grows by at most that key; keys stay distinct |
| Bury.BuryThenDig | lib/lite/ruby/hash.rb:43-55 | along a path that can be buried, digging the same path finds the value |
| Bury.BuryFreshHash | lib/lite/ruby/hash.rb:43-55 | burying into `{}` creates every missing level, and digging finds the value |
| RubyHash.Aliased | lib/lite/ruby/hash.rb:5-8 | unchanged without the old key; otherwise both keys map to the old value; every other key is untouched |
| RubyHash.AssertAllowed | lib/lite/ruby/hash.rb:10-18 | passes iff every item is allowed; otherwise fails with the message naming the first disallowed item |
| RubyHash.AssertValidKeys | lib/lite/ruby/hash.rb:10-18 | passes iff every key is valid; otherwise ArgumentError naming an invalid key |
| RubyHash.InvalidKeyExample | lib/lite/ruby/hash.rb:10-18 | the exact message "Invalid key: :b.Allowed keys are: :a" |
| RubyHash.AssertAllValidKeys | lib/lite/ruby/hash.rb:20-24 | also fails on an empty hash, with its own message |
| RubyHash.AssertValidValues | lib/lite/ruby/hash.rb:26-34 | passes iff every value is valid; otherwise ArgumentError naming an invalid value |
| RubyHash.AssertAllValidValues | lib/lite/ruby/hash.rb:36-40 | also fails on an empty hash |
| RubyHash.Rebuild | lib/lite/ruby/hash.rb:270-272 | `each_with_object({})`: distinct keys; a key is present iff some entry maps to it |
| RubyHash.RebuildLastWins | lib/lite/ruby/hash.rb:270-272 | on a collision the later entry's value wins |
| RubyHash.DearrayValues | lib/lite/ruby/hash.rb:91-98 | defined as a rebuild that keeps each key and replaces each array value by `val[idx]`, or by `val[-1]` when that is falsy (DearrayValuesShape states the result) |
| RubyHash.DearraySingularValues | lib/lite/ruby/hash.rb:104-111 | defined as a rebuild that keeps each key and replaces an array of fewer than two elements by `val[0]` (DearraySingularValuesShape states the result) |
| RubyHash.DearrayValuesShape | lib/lite/ruby/hash.rb:91-98 | same keys in order; non-arrays unchanged; arrays become `val[idx]`, or `val[-1]` when that is falsy (nil or false); `[]` becomes nil |
| RubyHash.DearraySingularValuesShape | lib/lite/ruby/hash.rb:104-111 | same keys; `[]` becomes nil; a one-element array becomes its element; everything else is unchanged |
| RubyHash.StringifyKeys | lib/lite/ruby/hash.rb:270-272 | keys stay distinct and are exactly the strings `to_s` of the old keys |
| RubyHash.StringifyKeysIdempotent | lib/lite/ruby/hash.rb:270-272 | stringifying twice is stringifying once |
| RubyHash.StringifyKeysCollision | lib/lite/ruby/hash.rb:270-272 | keys `1` and `"1"` collide and the later value wins |
| RubyHash.StringifyKeysValue | lib/lite/ruby/hash.rb:270-272 | a key's value is found under its string form unless a later key has the same string form |
| RubyHash.SymbolizeKeys | lib/lite/ruby/hash.rb:286-296 | keys stay distinct and are exactly the symbols `to_s.to_sym` of the old keys |
| RubyHash.SymbolizeKeysValue | lib/lite/ruby/hash.rb:286-296 | each value is found under its key's symbol unless a later key has the same name |
| RubyHash.SymbolizeKeysIdempotent | lib/lite/ruby/hash.rb:286-296 | symbolizing twice is symbolizing once |
| RubyHash.SymbolizeAndUnderscoreKeys | lib/lite/ruby/hash.rb:303-319 | keys stay distinct and are exactly the symbols of the underscored names of the old keys; each name has no uppercase letter, no `::`, no space and no hyphen |
| RubyHash.SymbolizeAndUnderscoreKeysValue | lib/lite/ruby/hash.rb:303-319 | each value is found under the symbol of its key's underscored name unless a later key has the same underscored name |
| RubyHash.SymbolizeAndUnderscoreKeysIdempotent | lib/lite/ruby/hash.rb:303-319 | applying it twice is applying it once |
| RubyHash.Demoted | lib/lite/ruby/hash.rb:139-144 | unchanged when the key is absent |
| RubyHash.DemotedMoves | lib/lite/ruby/hash.rb:139-144 | the key moves to the end with its value; the other keys keep their order; every lookup is unchanged |
| RubyHash.Promoted | lib/lite/ruby/hash.rb:200-204 | without the key both the receiver and the answer are the hash; with it the receiver loses the key |
| RubyHash.PromotedAnswer | lib/lite/ruby/hash.rb:200-204 | the answer is the key first, then the rest in order, with every lookup unchanged |
| RubyHash.Excepted | lib/lite/ruby/hash.rb:158-160 | defined as deleting each listed key in turn (ExceptedIsWithout states the result) |
| RubyHash.ExceptedIsWithout | lib/lite/ruby/hash.rb:158-160 | deleting the keys one by one leaves exactly the other keys, in order |
| RubyHash.Extracted | lib/lite/ruby/hash.rb:162-164 | defined as `hash[key] = delete(key) if key?(key)` for each key in turn, which moves a present key to the end (ExtractedKeepsEntries and ExtractedOrder state the result) |
| RubyHash.ExtractedKeepsEntries | lib/lite/ruby/hash.rb:162-164 | the whole receiver is returned with the same lookups; a present last key ends up at the end |
| RubyHash.ExtractedOrder | lib/lite/ruby/hash.rb:162-164 | the unlisted entries come first in their old order, followed by the present listed keys ordered by their last mention in the argument list |
| RubyHash.HashOfArgs | lib/lite/ruby/hash.rb:211 | `Hash[*keys]`: one hash is copied, one array is read as pairs, any other odd count raises, an even count pairs them up |
| RubyHash.PairUp | lib/lite/ruby/hash.rb:211 | `Hash[k1, v1, ...]` with an even count: the keys stay distinct, and each pair is stored in turn so a later duplicate key wins |
| RubyHash.PairsOfArray | lib/lite/ruby/hash.rb:211 | `Hash[array]` succeeds iff every element is an array of one or two items; otherwise the first other element raises its ArgumentError (wrong element type, or invalid number of elements); keys stay distinct |
| RubyHash.PairsOfArrayKeys | lib/lite/ruby/hash.rb:211 | the keys of `Hash[array]` are exactly the first items of the elements, and the last element's pair is stored (nil for a missing value) |
| RubyHash.PairsOfArrayIsPairUp | lib/lite/ruby/hash.rb:211 | `Hash[[[k1, v1], ...]]` equals `Hash[k1, v1, ...]` |
| RubyHash.RenameStep | lib/lite/ruby/hash.rb:212 | a pair whose old value is falsy or missing changes nothing |
| RubyHash.RenameStepMoves | lib/lite/ruby/hash.rb:210-213 | with a truthy old value, the new key gets it, the old key goes away, and the other keys are untouched |
| RubyHash.Renamed | lib/lite/ruby/hash.rb:210-213 | renaming keeps the keys distinct |
| RubyHash.RenameKeys | lib/lite/ruby/hash.rb:210-213 | raises iff the argument list cannot form a hash: one array raises iff some element is not a one- or two-item array; otherwise an odd count that is not a single hash raises |
| RubyHash.RenameKeysByPairs | lib/lite/ruby/hash.rb:210-213 | `rename_keys!([[old, new], ...])` renames exactly as `rename_keys!(old, new, ...)`; `rename_keys!([])` changes nothing |
| RubyHash.RenameKeysFalsy | lib/lite/ruby/hash.rb:210-213 | renaming from a nil, false or missing key is a no-op |
| RubyHash.Sliced | lib/lite/ruby/hash.rb:263-265 | exactly the listed keys that are present, with their values, in the order of their first mention in the argument list |
| RubyHash.OnlyFilled | lib/lite/ruby/hash.rb:184-186 | exactly the listed keys, in the order of their first mention; missing ones get the placeholder |
| RubyHash.OnlyFillIsSlice | lib/lite/ruby/hash.rb:184-186 | when every listed key is present, `only_fill` is `slice` |
| RubyHash.ReverseMerged | lib/lite/ruby/hash.rb:215-217 | the union of keys; the receiver's values win; the other's values fill the rest |
| RubyHash.Stripped | lib/lite/ruby/hash.rb:278-280 | exactly the entries whose values are present, kept in their order (a subsequence of the receiver) |
| RubyHash.StrippedChanges | lib/lite/ruby/hash.rb:278-284 | `strip` leaves the hash unchanged iff every value is present; otherwise the result is shorter |
| RubyHash.StrippedDistinct | lib/lite/ruby/hash.rb:282-284 | stripping keeps the keys distinct |
| RubyHash.Vacant | lib/lite/ruby/hash.rb:332-334 | defined as: the value under the key (nil when missing) is blank (VacantCases states the cases) |
| RubyHash.VacantCases | lib/lite/ruby/hash.rb:332-334 | a missing key is vacant; a stored value is vacant iff it is blank |
| RubyHash.Pair | lib/lite/ruby/hash.rb:192-194 | defined as: the value under the key (nil when missing) equals the given value (PairCases states the cases) |
| RubyHash.PairCases | lib/lite/ruby/hash.rb:192-194 | `pair?` holds for a stored pair, and for nil under a missing key |
| RubyHash.Denillified | lib/lite/ruby/hash.rb:146-148 | same keys; every nil value becomes the fill and every other value is kept; with a non-nil fill no nil remains |
| RubyHash.Nillified | lib/lite/ruby/hash.rb:174-176 | same keys; a value becomes nil iff it is nil, blank, or its string form is blank; otherwise it is kept |
| KeyNames.SlashColons | lib/lite/ruby/hash.rb:307 | the result has no `::`; it starts with `/` when the input starts with `::`; no uppercase letter is introduced |
| KeyNames.SlashColonsIdentity | lib/lite/ruby/hash.rb:307 | a name without `::` is unchanged |
| KeyNames.UnderscoreAcronyms | lib/lite/ruby/hash.rb:308 | the first character is kept |
| KeyNames.UnderscoreAcronymsNoDoubleColon | lib/lite/ruby/hash.rb:308 | no `::` is introduced |
| KeyNames.UnderscoreAcronymsIdentity | lib/lite/ruby/hash.rb:308 | a name without uppercase letters is unchanged |
| KeyNames.UnderscoreCamel | lib/lite/ruby/hash.rb:309 | the first character is kept and no `::` is introduced |
| KeyNames.UnderscoreCamelIdentity | lib/lite/ruby/hash.rb:309 | a name without uppercase letters is unchanged |
| KeyNames.SpacesToUnderscores | lib/lite/ruby/hash.rb:310 | `tr(' -', '_')`, character by character |
| KeyNames.SpacesToUnderscoresIdentity | lib/lite/ruby/hash.rb:310 | a name without spaces and hyphens is unchanged |
| KeyNames.KeyName | lib/lite/ruby/hash.rb:305-311 | the key name has no uppercase letter, no `::`, no space and no hyphen |
| KeyNames.KeyNameIdempotent | lib/lite/ruby/hash.rb:305-311 | the key-name transform is idempotent |
| KeyNames.KeyNameCamelCase | lib/lite/ruby/hash.rb:305-311 | "aB" becomes "a_b" |
| KeyNames.KeyNameNamespace | lib/lite/ruby/hash.rb:305-311 | "a::b" becomes "a/b" |
| KeyNames.KeyNameAcronym | lib/lite/ruby/hash.rb:305-311 | "ABCd" becomes "ab_cd" |
| KeyNames.KeyNameSeparators | lib/lite/ruby/hash.rb:305-311 | "a b-c" becomes "a_b_c" |
| HashCollate.DeepFlatten | lib/lite/ruby/hash.rb:74 | `flatten!`: no element of the result is an array |
| HashCollate.DeepFlattenAppend | lib/lite/ruby/hash.rb:74 | flattening distributes over concatenation |
| HashCollate.DeepFlattenFlat | lib/lite/ruby/hash.rb:74 | a flat list is unchanged |
| HashCollate.DeepFlattenIdempotent | lib/lite/ruby/hash.rb:74 | flattening twice is flattening once |
| HashCollate.OccurrencesDistinct | lib/lite/ruby/hash.rb:68 | one hash contributes its value for the key once, or nothing |
| HashCollate.AddKeys | lib/lite/ruby/hash.rb:62-66 | the accumulator gains the hash's keys, each with `[]`, and stays distinct |
| HashCollate.AddAllKeys | lib/lite/ruby/hash.rb:62-66 | the first pass gives exactly the keys found in some input, each with `[]` |
| HashCollate.AppendValues | lib/lite/ruby/hash.rb:68-72 | each key's list gains that hash's value for it |
| HashCollate.AppendAllValues | lib/lite/ruby/hash.rb:68-72 | the second pass gives each key its values from self, then from each other hash in argument order |
| HashCollate.FlattenValues | lib/lite/ruby/hash.rb:74 | every list is deep-flattened and the keys are kept |
| HashCollate.Collate | lib/lite/ruby/hash.rb:59-76 | the keys are the union of the inputs' keys, in first-seen order (self's keys, then each other hash's new keys); each key's list is its values from self, then from each other hash in order, flattened |
| HashCollate.CollateTwo | lib/lite/ruby/hash.rb:79-81 | for two hashes, a key's sources are self's value (if any) followed by the other's |
| HashDeepMerge.BlockValue | lib/lite/ruby/hash.rb:127-128 | without a block, or for a new key, the incoming value is stored |
| HashDeepMerge.MergeEntryAsWritten | lib/lite/ruby/hash.rb:125-126 | as written, an entry raises iff both sides are hashes: LocalJumpError without a block, ArgumentError with one; otherwise only that key changes |
| HashDeepMerge.DeepMerge | lib/lite/ruby/hash.rb:121-133 | the intended merge keeps keys distinct, has the union of the keys, and leaves keys the argument lacks untouched |
| HashDeepMerge.DeepMergeEntry | lib/lite/ruby/hash.rb:121-133 | for each key of the argument: two hashes merge recursively; otherwise the value is the block's answer for an existing key, or the incoming value |
| HashDeepMerge.StoreNext | lib/lite/ruby/hash.rb:121-133 | one step of the `each` loop stores the merged value for the next key |
| HashDeepMerge.MergeIntoAll | lib/lite/ruby/hash.rb:121-133 | running the loop over every entry is the deep merge |
| HashDeepMerge.MergeWithoutBlock | lib/lite/ruby/hash.rb:121-133 | without a block, the flat branch is a plain `merge` |
| HashDeepMerge.DeepMergeFlat | lib/lite/ruby/hash.rb:127-131 | with no hash values in the argument, `deep_merge!` is `merge` |
| HashDeepMerge.DeepMergeBlockEntry | lib/lite/ruby/hash.rb:127-128 | with a block, an existing key stores the block's result and a new key stores the incoming value |
| HashDeepMerge.AsWrittenAgrees | lib/lite/ruby/hash.rb:121-133 | when no key is hash-valued on both sides, the code as written returns the intended merge |
| HashDeepMerge.AsWrittenRaises | lib/lite/ruby/hash.rb:121-133 | the code as written raises iff some key is hash-valued on both sides |
| HashDeepMerge.DeepMergeNestedExample | lib/lite/ruby/hash.rb:125-126 | the intended merge combines nested hashes: `{a: {x: 1}}` with `{a: {y: 2}}` gives `{a: {x: 1, y: 2}}` |
| HashDeepMerge.DeepMergeAsWrittenRaisesExample | lib/lite/ruby/hash.rb:125-126 | as written, the same merge raises LocalJumpError, or ArgumentError with a block |
| MutableHash.RHash.Alias | lib/lite/ruby/hash.rb:5-8 | the receiver becomes `Aliased` of its old entries |
| MutableHash.RHash.Bury | lib/lite/ruby/hash.rb:43-55 | the receiver becomes the contents `bury` leaves behind (keeping the stores made before a nested raise) and the outcome is reported |
| MutableHash.RHash.CollateBang | lib/lite/ruby/hash.rb:79-81 | the receiver becomes the collation of itself with the other hash: the union of the keys in first-seen order, each with its values from self then from the other, flattened |
| MutableHash.RHash.DearrayValuesBang | lib/lite/ruby/hash.rb:100-102 | the receiver becomes `dearray_values` of its old entries |
| MutableHash.RHash.DearraySingularValuesBang | lib/lite/ruby/hash.rb:113-115 | the receiver becomes `dearray_singular_values` of its old entries |
| MutableHash.RHash.DeepMergeBang | lib/lite/ruby/hash.rb:121-133 | the receiver becomes the intended deep merge |
| MutableHash.RHash.DemoteBang | lib/lite/ruby/hash.rb:139-144 | the receiver becomes `Demoted` of its old entries |
| MutableHash.RHash.PromoteBang | lib/lite/ruby/hash.rb:200-204 | the receiver loses the key and the promoted hash is returned |
| MutableHash.RHash.UpdateEach | lib/lite/ruby/hash.rb:151 | `each { self[key] = f(value) }` maps the values in place |
| MutableHash.RHash.DenillifyBang | lib/lite/ruby/hash.rb:150-152 | the receiver becomes `denillify` of its old entries: each nil value replaced by the fill, everything else kept |
| MutableHash.RHash.NillifyBang | lib/lite/ruby/hash.rb:178-182 | the receiver becomes `nillify` of its old entries |
| MutableHash.RHash.ExceptBang | lib/lite/ruby/hash.rb:158-160 | the receiver loses exactly the listed keys |
| MutableHash.RHash.ExtractBang | lib/lite/ruby/hash.rb:162-164 | the receiver becomes `Extracted` of its old entries, keeping every lookup (the order is stated by ExtractedOrder) |
| MutableHash.RHash.OnlyFillBang | lib/lite/ruby/hash.rb:188-190 | the receiver becomes `only_fill` of its old entries |
| MutableHash.RHash.RenameKeysBang | lib/lite/ruby/hash.rb:210-213 | the receiver becomes the renamed hash, or is unchanged with the error `Hash[*keys]` raises, for pairs given flat or as one array |
| MutableHash.RHash.ReverseMergeBang | lib/lite/ruby/hash.rb:219-221 | the argument (not the receiver) becomes the reverse merge; a distinct receiver is unchanged |
| MutableHash.RHash.SliceBang | lib/lite/ruby/hash.rb:263-265 | the receiver keeps only the listed keys |
| MutableHash.RHash.StringifyKeysBang | lib/lite/ruby/hash.rb:274-276 | the receiver becomes `stringify_keys` of its old entries |
| MutableHash.RHash.StripBang | lib/lite/ruby/hash.rb:282-284 | the receiver keeps exactly the entries with present values; the answer says whether anything was removed (some value was blank, the hash got shorter), where `reject!` answers nil for "no" and the receiver for "yes" |
| MutableHash.RHash.SymbolizeKeysBang | lib/lite/ruby/hash.rb:298-300 | the receiver becomes `symbolize_keys` of its old entries, whose keys are exactly the old keys' symbols |
| MutableHash.RHash.SymbolizeAndUnderscoreKeysBang | lib/lite/ruby/hash.rb:322-324 | the receiver becomes `symbolize_and_underscore_keys` of its old entries, whose keys are exactly the symbols of the old keys' underscored names |
| RubyInteger.Factorial | lib/lite/ruby/integer.rb:11-15 | defined as 1 for zero, otherwise the product 2..n, which is 1 for negatives (FactorialStep and FactorialDivisors state the consequences) |
| RubyInteger.ComputeFactorial | lib/lite/ruby/integer.rb:11-15 | the `inject` loop computes the product 1..n (1 for n <= 0) |
| RubyInteger.FactorialStep | lib/lite/ruby/integer.rb:11-15 | `factorial(n) == n * factorial(n - 1)` for n >= 1, and 1 for negatives |
| RubyInteger.FactorialDivisors | lib/lite/ruby/integer.rb:11-15 | the factorial is positive and divisible by every k in 1..n |
| RubyInteger.FloorSqrt | lib/lite/ruby/integer.rb:20 | the integer square root: `s*s <= n < (s+1)*(s+1)` |
| RubyInteger.Factors | lib/lite/ruby/integer.rb:19-29 | a domain error for negatives (`Math.sqrt`); otherwise the loop's list up to the root |
| RubyInteger.FactorsAreDivisors | lib/lite/ruby/integer.rb:19-29 | for n >= 1, d is listed iff d is a positive divisor of n, and no divisor is listed twice |
| RubyInteger.FactorsComplete | lib/lite/ruby/integer.rb:19-29 | every positive divisor is listed |
| RubyInteger.FactorsDistinctUpTo | lib/lite/ruby/integer.rb:22-28 | the cofactor is skipped when it equals i, so no entry repeats |
| RubyInteger.FactorsStart | lib/lite/ruby/integer.rb:22-27 | 0 has no factors, 1 has `[1]`, and for n >= 2 the list starts 1, n |
| RubyInteger.PrefixGrows | lib/lite/ruby/integer.rb:22-28 | raising the loop bound only appends, so divisors are listed in increasing i |
| RubyInteger.Of | lib/lite/ruby/integer.rb:33-35 | ArgumentError iff n < 0; length n; element i is f(i), or nil without a block |
| RubyInteger.OfGrows | lib/lite/ruby/integer.rb:33-35 | `(n+1).of` extends `n.of` by one element |
| RubyInteger.RomanNumerals | lib/lite/ruby/integer.rb:5-8 | the thirteen-entry symbol table |
| RubyInteger.RomanTableShape | lib/lite/ruby/integer.rb:5-8 | the values strictly decrease to 1, and every symbol is non-empty without a sign |
| RubyInteger.Pick | lib/lite/ruby/integer.rb:43 | the first table entry whose value is at most n, so it is the largest |
| RubyInteger.RomanStep | lib/lite/ruby/integer.rb:43 | each recursion consumes the picked value and leaves a smaller non-negative remainder |
| RubyInteger.RomanNumeral | lib/lite/ruby/integer.rb:39-44 | "" iff n == 0; starts with "-" iff n < 0 |
| RubyInteger.RomanNumeralSpelled | lib/lite/ruby/integer.rb:39-44 | the numeral is the concatenation of the picked table symbols |
| RubyInteger.RomanNumeralValue | lib/lite/ruby/integer.rb:39-44 | the picked symbols' values sum to n |
| RubyInteger.RomanNumeralDescending | lib/lite/ruby/integer.rb:43 | the symbols are picked in non-increasing table order, each the largest that fits |
| RubyInteger.RomanNumeralNegative | lib/lite/ruby/integer.rb:41 | `roman_numeral(-n) == "-" + roman_numeral(n)` |
| RubyInteger.RomanNumeralExample | lib/lite/ruby/integer.rb:39-44 | 1994 is "MCMXCIV" |
| RubyObject.StripString | lib/lite/ruby/object.rb:19 | `strip`: the result is a slice bounded by whitespace on both sides and does not start or end with whitespace |
| RubyObject.IsBlank | lib/lite/ruby/object.rb:17-23 | defined case by case: nil and false are blank, integers and true are not, a string is blank when `strip` leaves "", a symbol when its name is empty, an array or hash when every element (value) is blank |
| RubyObject.BlankStringIsAllSpace | lib/lite/ruby/object.rb:17-23 | a string is blank iff it is all whitespace |
| RubyObject.FalsyIsBlank | lib/lite/ruby/object.rb:17-23 | nil and false are blank |
| RubyObject.BlankExamples | lib/lite/ruby/object.rb:17-23 | nil, false, "", "  ", `[]`, `[nil, " "]` and `{}` are blank; 0, true and " a " are not |
| RubyObject.IsPresent | lib/lite/ruby/object.rb:90-92 | defined as not blank |
| RubyObject.Presence | lib/lite/ruby/object.rb:94-96 | self iff present (and not nil), else nil |
| RubyObject.PresenceIdempotent | lib/lite/ruby/object.rb:90-96 | `presence` is idempotent and yields nil or a present value |
| RubyObject.Salvage | lib/lite/ruby/object.rb:114-116 | the placeholder for blank values, self for present ones |
| RubyObject.SalvageIsPresenceOr | lib/lite/ruby/object.rb:114-116 | `salvage(p)` is `presence || p` |
| RubyObject.TokenSetsDisjoint | lib/lite/ruby/object.rb:6-11 | no token is both a true and a false token |
| RubyObject.IsTruthy | lib/lite/ruby/object.rb:171-173 | defined as: the downcased `to_s` is one of the true tokens |
| RubyObject.IsFalsey | lib/lite/ruby/object.rb:52-54 | defined as: nil, or the downcased `to_s` is one of the false tokens |
| RubyObject.TruthyNotFalsey | lib/lite/ruby/object.rb:171-173 | no value is both truthy and falsey |
| RubyObject.ToBool | lib/lite/ruby/object.rb:156-161 | the result is true, false or nil |
| RubyObject.ToBoolCases | lib/lite/ruby/object.rb:156-161 | true iff truthy, false iff falsey, nil iff neither |
| RubyObject.IsBoolean | lib/lite/ruby/object.rb:29-32 | defined as: the downcased `to_s` is a token of either set |
| RubyObject.BooleanIsTokenNotNil | lib/lite/ruby/object.rb:29-32 | `boolean?` iff truthy or falsey and not nil; nil is falsey but not boolean |
| RubyObject.TokenExamples | lib/lite/ruby/object.rb:171-173 | "YES", "On", 1 and true are truthy; "Off", 0, false and "N" are falsey; "maybe" is neither and converts to nil |
| RubyObject.IsTrue | lib/lite/ruby/object.rb:166-168 | defined as equal to the literal true |
| RubyObject.IsFalse | lib/lite/ruby/object.rb:47-49 | defined as equal to the literal false |
| RubyObject.IsBool | lib/lite/ruby/object.rb:25-27 | defined as `true?` or `false?` (BoolIsLiteral states it) |
| RubyObject.BoolIsLiteral | lib/lite/ruby/object.rb:25-27 | `bool?` iff the value is true or false |
| RubyObject.Downcase | lib/lite/ruby/object.rb:30 | same length, character by character |
| RubyObject.Reverse | lib/lite/ruby/object.rb:87 | the characters in reverse order |
| RubyObject.IsPalindrome | lib/lite/ruby/object.rb:86-88 | defined as: `to_s` equals its reverse |
| RubyObject.ReverseReverse | lib/lite/ruby/object.rb:87 | reversing twice gives the text back |
| RubyObject.PalindromeMirror | lib/lite/ruby/object.rb:86-88 | `palindrome?` iff every character of `to_s` equals its mirror image; the reversed text of a palindrome is a palindrome |
| RubyObject.PalindromeExamples | lib/lite/ruby/object.rb:86-88 | "racecar" and 7 are palindromes and "ab" is not |
| RubyObject.IsNumeral | lib/lite/ruby/object.rb:74-76 | defined as: `to_s` is an optional sign, digits, and an optional `.` with digits, possibly followed by one final newline |
| RubyObject.IntegerIsNumeral | lib/lite/ruby/object.rb:74-76 | every integer is a numeral |
| RubyObject.NumeralExamples | lib/lite/ruby/object.rb:74-76 | "-12.50" and "7\n" are numerals; "+", "1.", ".5" and "1a" are not |

## Left out

- `collect_keys`, `collect_values` and `hmap`/`hmap!` are one-line block wrappers around `collect` and `inject`, outside the modelled core.
- `Array#sample!`, `Hash#sample*` and `shuffle` depend on randomness.
- `Array#probability` works in floating point.
- `Hash#to_object` goes through JSON and OpenStruct. `Integer#to_time` reads the clock.
- `Array#dig`, the `try`/`safe_*`/`send_chain*`/`send_if` family and the `is_a?` predicates rely on reflection and dynamic dispatch. `Bury.Dig` is only a specification helper.
- The configuration toggle and the `unless defined?(...)` guards decide only whether the methods exist. The model takes every method as defined. In integer.rb (lines 10, 18, 32 and 38) the guards read `unless defined?()` with nothing inside the parentheses; `defined?()` is always truthy, so as written `factorial`, `factors`, `of` and `roman_numeral` would never be defined (not executed). `RubyInteger` models the methods the guards were meant to install.
- RubyInteger.Factors: `Math.sqrt(n).floor` is an exact integer square root, not a floating-point one.
- HashDeepMerge.DeepMerge: the intended recursion is modelled. The code as written raises on the nested branch (see Findings). The model does not capture the entries stored before the raise, or any side effects of the block.
- MutableHash.RHash.DeepMergeBang: the receiver becomes the intended deep merge. As written, `deep_merge!` raises on a key that is hash-valued on both sides (hash.rb:125-126), after `merge!` has already stored the earlier keys; neither the raise nor that partial update is modelled.
- Values.Value is a tree of values: nested containers are never shared. In Ruby, two slots can hold the same child Array or Hash, and `bury`, `deep_merge!` or any `!` method applied through one slot is seen through the other; the model does not capture that aliasing.
- Values.Inspect: a Hash is rendered as `{:a=>1}`, the `inspect` format of Ruby before 3.4 (Ruby 3.4 prints `{a: 1}` and `{"a" => 1}`). The messages of `assert_valid_keys!`/`assert_valid_values!`, `nillify` on hashes, and `palindrome?` of a Hash follow that older format.
- Values.Value equality is structural, so two hashes with the same pairs in different orders differ, while Ruby's `Hash#==` ignores order.
- RubyObject.Downcase: lowercases ASCII only. `strip` trims the ASCII whitespace set, and `inspect`/`to_s` escape no characters.
- RubyArray.Demote: does not state stability. `sort_by` does not promise it, so the contract only says the value's copies form the tail of a permutation. RubyArray.Promote likewise states the head.
- RubyHash.SymbolizeKeys: the `rescue` branch is not modelled, because `to_s` and `to_sym` cannot fail on these values.
- RubyArray.InGroups: the block forms of `in_groups` and `in_groups_of` are left out, because a block only receives the groups that are returned.
- MutableHash.RHash.CollateBang takes one hash, as `collate!` does, and MutableHash.RHash.Alias takes a single key pair.
- MutableArray.RArray.Merge: the arguments are values taken before the call, so an argument that is the receiver itself is not modelled. In Ruby each `concat` sees the grown receiver: `a = [1]; a.merge(a, a)` gives four elements, where the model gives three. The `seq<seq<Value>>` parameter also rules out a non-Array argument, for which `concat` raises TypeError (`[1].merge(5)`); that error is not modelled.
- RubyArray.AfterBeforeInverse: requires an array without repeats. With a repeated element the inverse fails (`AfterBeforeWithRepeats`).

## Findings

| source | as written | input that shows it | evidently intended | confidence | as-written member | corrected member |
|---|---|---|---|---|---|---|
| lib/lite/ruby/hash.rb:125-126 | the nested branch calls `this_value.deep_merge(other_value, yield(block))`. That is a bare `yield` without a block, and two arguments to a one-argument method with one | `{a: {x: 1}}.deep_merge!({a: {y: 2}})` | merge the nested hashes recursively with the same block | not executed | HashDeepMerge.DeepMergeAsWrittenRaisesExample | HashDeepMerge.DeepMergeEntry |
