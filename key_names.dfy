/**
 * The key rewriting of `Hash#symbolize_and_underscore_keys`
 * (lib/lite/ruby/hash.rb): `::` becomes `/`, an underscore goes in at the two
 * camel-case boundaries the regular expressions describe, spaces and hyphens
 * become underscores and the ASCII letters are downcased. Each `gsub` is a
 * left-to-right scan that resumes after the text it has just rewritten.
 */
module KeyNames {
  import opened Values
  import opened RubyObject

  predicate IsUpper(c: char) {
    'A' <= c <= 'Z'
  }

  predicate IsLower(c: char) {
    'a' <= c <= 'z'
  }

  /** No two adjacent colons. */
  predicate NoDoubleColon(s: string) {
    forall i :: 0 <= i < |s| - 1 ==> !(s[i] == ':' && s[i + 1] == ':')
  }

  /** No colon at all. */
  predicate NoColon(s: string) {
    forall i :: 0 <= i < |s| ==> s[i] != ':'
  }

  /** No ASCII upper-case letter. */
  predicate NoUpper(s: string) {
    forall i :: 0 <= i < |s| ==> !IsUpper(s[i])
  }

  /** Joining two texts creates no `::` unless they meet at one. */
  lemma NoDoubleColonConcat(a: string, b: string)
    requires NoDoubleColon(a) && NoDoubleColon(b)
    requires a == [] || b == [] || !(a[|a| - 1] == ':' && b[0] == ':')
    ensures NoDoubleColon(a + b)
  {
    var s := a + b;
    forall i | 0 <= i < |s| - 1 ensures !(s[i] == ':' && s[i + 1] == ':') {
      if i < |a| - 1 {
        assert s[i] == a[i] && s[i + 1] == a[i + 1];
      } else if i >= |a| {
        assert s[i] == b[i - |a|] && s[i + 1] == b[i - |a| + 1];
      }
    }
  }

  lemma NoDoubleColonTail(s: string)
    requires s != [] && NoDoubleColon(s)
    ensures NoDoubleColon(s[1..])
  {
    forall i | 0 <= i < |s[1..]| - 1 ensures !(s[1..][i] == ':' && s[1..][i + 1] == ':') {
      assert s[1..][i] == s[i + 1] && s[1..][i + 1] == s[i + 2];
    }
  }

  // ---------------------------------------------------------------------------
  // gsub(/::/, '/')

  /** Whether `s` starts with `::`. */
  predicate StartsWithColons(s: string) {
    |s| >= 2 && s[0] == ':' && s[1] == ':'
  }

  function SlashColons(s: string): (r: string)
    ensures NoDoubleColon(r)
    ensures s != [] ==> r != [] && r[0] == if StartsWithColons(s) then '/' else s[0]
    ensures NoUpper(s) ==> NoUpper(r)
    decreases |s|
  {
    if s == [] then []
    else if StartsWithColons(s) then
      var rest := SlashColons(s[2..]);
      NoDoubleColonConcat("/", rest);
      "/" + rest
    else
      var rest := SlashColons(s[1..]);
      NoDoubleColonConcat([s[0]], rest);
      [s[0]] + rest
  }

  /** Text without `::` passes through unchanged. */
  lemma {:induction false} SlashColonsIdentity(s: string)
    requires NoDoubleColon(s)
    ensures SlashColons(s) == s
    decreases |s|
  {
    if s != [] {
      NoDoubleColonTail(s);
      SlashColonsIdentity(s[1..]);
      assert s == [s[0]] + s[1..];
    }
  }

  // ---------------------------------------------------------------------------
  // gsub(/([A-Z\d]+)([A-Z][a-z])/, '\1_\2')

  predicate IsAcronymChar(c: char) {
    IsUpper(c) || IsDigit(c)
  }

  /** The length of the longest prefix of `s` made of upper-case letters and digits. */
  function RunLength(s: string): (n: nat)
    ensures n <= |s|
    ensures forall j :: 0 <= j < n ==> IsAcronymChar(s[j])
    ensures n < |s| ==> !IsAcronymChar(s[n])
    decreases |s|
  {
    if s == [] || !IsAcronymChar(s[0]) then 0 else 1 + RunLength(s[1..])
  }

  /**
   * A match at the start of `s` needs the greedy run `[A-Z\d]+` to give back
   * its last character as the `[A-Z]` of the second group, which must be
   * followed by a lower-case letter: so the run is at least two long and ends
   * in an upper-case letter. The result is `run-but-last _ last lower`.
   */
  function UnderscoreAcronyms(s: string): (r: string)
    ensures s != [] ==> r != [] && r[0] == s[0]
    decreases |s|
  {
    if s == [] then []
    else
      var n := RunLength(s);
      if n >= 2 && IsUpper(s[n - 1]) && n < |s| && IsLower(s[n]) then
        s[..n - 1] + "_" + s[n - 1..n + 1] + UnderscoreAcronyms(s[n + 1..])
      else
        [s[0]] + UnderscoreAcronyms(s[1..])
  }

  /** The rewriting creates no `::`: it only puts in underscores. */
  lemma {:induction false} UnderscoreAcronymsNoDoubleColon(s: string)
    requires NoDoubleColon(s)
    ensures NoDoubleColon(UnderscoreAcronyms(s))
    decreases |s|
  {
    if s != [] {
      var n := RunLength(s);
      if n >= 2 && IsUpper(s[n - 1]) && n < |s| && IsLower(s[n]) {
        var rest := s[n + 1..];
        NoDoubleColonSuffix(s, n + 1);
        UnderscoreAcronymsNoDoubleColon(rest);
        AcronymChunkNoColon(s, n);
        ChunkNoDoubleColon(s[..n - 1] + "_" + s[n - 1..n + 1], UnderscoreAcronyms(rest));
      } else {
        NoDoubleColonTail(s);
        UnderscoreAcronymsNoDoubleColon(s[1..]);
        PrependNoDoubleColon(s, UnderscoreAcronyms(s[1..]));
      }
    }
  }

  /** The text an acronym match puts in holds no colon. */
  lemma AcronymChunkNoColon(s: string, n: nat)
    requires RunLength(s) == n && 2 <= n < |s| && IsLower(s[n])
    ensures NoColon(s[..n - 1] + "_" + s[n - 1..n + 1])
  {
    var head := s[..n - 1];
    assert NoColon(head) by {
      forall j | 0 <= j < |head| ensures head[j] != ':' {
        assert head[j] == s[j] && IsAcronymChar(s[j]);
      }
    }
    assert NoColon(s[n - 1..n + 1]) by {
      assert IsAcronymChar(s[n - 1]);
      assert s[n - 1..n + 1] == [s[n - 1], s[n]];
    }
    NoColonConcat(head, "_");
    NoColonConcat(head + "_", s[n - 1..n + 1]);
  }

  lemma NoColonConcat(a: string, b: string)
    requires NoColon(a) && NoColon(b)
    ensures NoColon(a + b)
  {
    forall j | 0 <= j < |a + b| ensures (a + b)[j] != ':' {
      if j < |a| {
        assert (a + b)[j] == a[j];
      } else {
        assert (a + b)[j] == b[j - |a|];
      }
    }
  }

  /** Text without colons followed by text without `::` has no `::`. */
  lemma ChunkNoDoubleColon(chunk: string, rest: string)
    requires NoColon(chunk)
    requires NoDoubleColon(rest)
    ensures NoDoubleColon(chunk + rest)
  {
    NoDoubleColonConcat(chunk, rest);
  }

  /** Keeping the first character in front of a rewritten tail that starts like the old one creates no `::`. */
  lemma PrependNoDoubleColon(s: string, rest: string)
    requires s != [] && NoDoubleColon(s) && NoDoubleColon(rest)
    requires rest != [] ==> |s| >= 2 && rest[0] == s[1]
    ensures NoDoubleColon([s[0]] + rest)
  {
    NoDoubleColonConcat([s[0]], rest);
  }

  /** A suffix of text without `::` has none either. */
  lemma NoDoubleColonSuffix(s: string, k: int)
    requires 0 <= k <= |s| && NoDoubleColon(s)
    ensures NoDoubleColon(s[k..])
  {
    forall i | 0 <= i < |s[k..]| - 1 ensures !(s[k..][i] == ':' && s[k..][i + 1] == ':') {
      assert s[k..][i] == s[k + i] && s[k..][i + 1] == s[k + i + 1];
    }
  }

  /** Without upper-case letters there is nothing to match. */
  lemma {:induction false} UnderscoreAcronymsIdentity(s: string)
    requires NoUpper(s)
    ensures UnderscoreAcronyms(s) == s
    decreases |s|
  {
    if s != [] {
      UnderscoreAcronymsIdentity(s[1..]);
      assert s == [s[0]] + s[1..];
    }
  }

  // ---------------------------------------------------------------------------
  // gsub(/([a-z\d])([A-Z])/, '\1_\2')

  function UnderscoreCamel(s: string): (r: string)
    ensures s != [] ==> r != [] && r[0] == s[0]
    ensures NoDoubleColon(s) ==> NoDoubleColon(r)
    decreases |s|
  {
    if s == [] then []
    else if |s| >= 2 && (IsLower(s[0]) || IsDigit(s[0])) && IsUpper(s[1]) then
      var chunk := [s[0], '_', s[1]];
      var rest := UnderscoreCamel(s[2..]);
      assert NoDoubleColon(s) ==> NoDoubleColon(chunk + rest) by {
        if NoDoubleColon(s) {
          NoDoubleColonConcat(chunk, rest);
        }
      }
      chunk + rest
    else
      var rest := UnderscoreCamel(s[1..]);
      assert NoDoubleColon(s) ==> NoDoubleColon([s[0]] + rest) by {
        if NoDoubleColon(s) {
          NoDoubleColonTail(s);
          NoDoubleColonConcat([s[0]], rest);
        }
      }
      [s[0]] + rest
  }

  lemma {:induction false} UnderscoreCamelIdentity(s: string)
    requires NoUpper(s)
    ensures UnderscoreCamel(s) == s
    decreases |s|
  {
    if s != [] {
      UnderscoreCamelIdentity(s[1..]);
      assert s == [s[0]] + s[1..];
    }
  }

  // ---------------------------------------------------------------------------
  // tr(' -', '_'), downcase

  function TrChar(c: char): char {
    if c == ' ' || c == '-' then '_' else c
  }

  function SpacesToUnderscores(s: string): (r: string)
    ensures |r| == |s| && forall j :: 0 <= j < |s| ==> r[j] == TrChar(s[j])
  {
    seq(|s|, j requires 0 <= j < |s| => TrChar(s[j]))
  }

  lemma SpacesToUnderscoresIdentity(s: string)
    requires forall j :: 0 <= j < |s| ==> s[j] != ' ' && s[j] != '-'
    ensures SpacesToUnderscores(s) == s
  {
  }

  /** The new key's name, before `to_sym`. */
  function KeyName(s: string): (r: string)
    ensures NoUpper(r) && NoDoubleColon(r)
    ensures forall j :: 0 <= j < |r| ==> r[j] != ' ' && r[j] != '-'
  {
    UnderscoreAcronymsNoDoubleColon(SlashColons(s));
    var t := SpacesToUnderscores(UnderscoreCamel(UnderscoreAcronyms(SlashColons(s))));
    var r := Downcase(t);
    assert forall j :: 0 <= j < |r| ==> (r[j] == ':' <==> t[j] == ':');
    r
  }

  /** Rewriting a rewritten key changes nothing. */
  lemma KeyNameIdempotent(s: string)
    ensures KeyName(KeyName(s)) == KeyName(s)
  {
    var k := KeyName(s);
    SlashColonsIdentity(k);
    UnderscoreAcronymsIdentity(k);
    UnderscoreCamelIdentity(k);
    SpacesToUnderscoresIdentity(k);
    assert Downcase(k) == k;
  }

  // ---------------------------------------------------------------------------
  // Worked examples, one scan step at a time

  lemma ColonsCopy(s: string)
    requires s != [] && !StartsWithColons(s)
    ensures SlashColons(s) == [s[0]] + SlashColons(s[1..])
  {
  }

  lemma ColonsSplit(s: string)
    requires StartsWithColons(s)
    ensures SlashColons(s) == "/" + SlashColons(s[2..])
  {
  }

  lemma AcronymsCopy(s: string)
    requires s != [] && RunLength(s) < 2
    ensures UnderscoreAcronyms(s) == [s[0]] + UnderscoreAcronyms(s[1..])
  {
  }

  lemma CamelCopy(s: string)
    requires s != [] && !(|s| >= 2 && (IsLower(s[0]) || IsDigit(s[0])) && IsUpper(s[1]))
    ensures UnderscoreCamel(s) == [s[0]] + UnderscoreCamel(s[1..])
  {
  }

  lemma CamelSplit(s: string)
    requires |s| >= 2 && IsLower(s[0]) && IsUpper(s[1])
    ensures UnderscoreCamel(s) == [s[0], '_', s[1]] + UnderscoreCamel(s[2..])
  {
  }

  /** A lower-case letter followed by a capital gets an underscore between them: `aB` becomes `a_b`. */
  lemma KeyNameCamelCase(x: char, y: char)
    requires IsLower(x) && IsUpper(y)
    ensures KeyName([x, y]) == [x, '_', DowncaseChar(y)]
  {
    CamelPairColons(x, y);
    CamelPairAcronyms(x, y);
    CamelPairCamel(x, y);
    CamelPairCase(x, y);
  }

  lemma CamelPairColons(x: char, y: char)
    requires IsLower(x) && IsUpper(y)
    ensures SlashColons([x, y]) == [x, y]
  {
    SlashColonsIdentity([x, y]);
  }

  lemma CamelPairAcronyms(x: char, y: char)
    requires IsLower(x) && IsUpper(y)
    ensures UnderscoreAcronyms([x, y]) == [x, y]
  {
    assert [y][1..] == [];
    AcronymsCopy([y]);
    assert [x, y][1..] == [y];
    AcronymsCopy([x, y]);
  }

  lemma CamelPairCamel(x: char, y: char)
    requires IsLower(x) && IsUpper(y)
    ensures UnderscoreCamel([x, y]) == [x, '_', y]
  {
    CamelSplit([x, y]);
    assert [x, y][2..] == [];
  }

  lemma CamelPairCase(x: char, y: char)
    requires IsLower(x) && IsUpper(y)
    ensures Downcase(SpacesToUnderscores([x, '_', y])) == [x, '_', DowncaseChar(y)]
  {
    var t := SpacesToUnderscores([x, '_', y]);
    assert t == [x, '_', y];
  }

  /** `::` becomes `/`: `a::b` becomes `a/b`. */
  lemma KeyNameNamespace(x: char, y: char)
    requires IsLower(x) && IsLower(y)
    ensures KeyName([x, ':', ':', y]) == [x, '/', y]
  {
    NamespaceColons(x, y);
    NamespaceRest([x, '/', y]);
  }

  lemma NamespaceColons(x: char, y: char)
    requires IsLower(x) && IsLower(y)
    ensures SlashColons([x, ':', ':', y]) == [x, '/', y]
  {
    SlashColonsIdentity([y]);
    ColonsSplit([':', ':', y]);
    assert [':', ':', y][2..] == [y];
    ColonsCopy([x, ':', ':', y]);
    assert [x, ':', ':', y][1..] == [':', ':', y];
  }

  /** Text with no capital, space or hyphen goes through the later rewritings unchanged. */
  lemma NamespaceRest(t: string)
    requires NoUpper(t) && NoDoubleColon(t) && forall j :: 0 <= j < |t| ==> t[j] != ' ' && t[j] != '-'
    ensures Downcase(SpacesToUnderscores(UnderscoreCamel(UnderscoreAcronyms(t)))) == t
  {
    UnderscoreAcronymsIdentity(t);
    UnderscoreCamelIdentity(t);
    SpacesToUnderscoresIdentity(t);
  }

  /**
   * In a run of capitals the last one starts the next word when a lower-case
   * letter follows: `ABCd` becomes `ab_cd`.
   */
  lemma KeyNameAcronym(a: char, b: char, c: char, d: char)
    requires IsUpper(a) && IsUpper(b) && IsUpper(c) && IsLower(d)
    ensures KeyName([a, b, c, d]) == [DowncaseChar(a), DowncaseChar(b), '_', DowncaseChar(c), d]
  {
    AcronymColons(a, b, c, d);
    AcronymRun(a, b, c, d);
    AcronymSplit(a, b, c, d);
    AcronymCamel(a, b, c, d);
    AcronymCase(a, b, c, d);
  }

  lemma AcronymColons(a: char, b: char, c: char, d: char)
    requires IsUpper(a) && IsUpper(b) && IsUpper(c) && IsLower(d)
    ensures SlashColons([a, b, c, d]) == [a, b, c, d]
  {
    SlashColonsIdentity([a, b, c, d]);
  }

  lemma AcronymRun(a: char, b: char, c: char, d: char)
    requires IsUpper(a) && IsUpper(b) && IsUpper(c) && IsLower(d)
    ensures RunLength([a, b, c, d]) == 3
  {
    assert [d][1..] == [];
    assert RunLength([d]) == 0;
    assert [c, d][1..] == [d];
    assert RunLength([c, d]) == 1;
    assert [b, c, d][1..] == [c, d];
    assert RunLength([b, c, d]) == 2;
    assert [a, b, c, d][1..] == [b, c, d];
  }

  lemma AcronymSplit(a: char, b: char, c: char, d: char)
    requires IsUpper(a) && IsUpper(b) && IsUpper(c) && IsLower(d)
    requires RunLength([a, b, c, d]) == 3
    ensures UnderscoreAcronyms([a, b, c, d]) == [a, b, '_', c, d]
  {
    var s := [a, b, c, d];
    assert s[4..] == [];
    assert s[..2] + "_" + s[2..4] == [a, b, '_', c, d];
  }

  lemma AcronymCamel(a: char, b: char, c: char, d: char)
    requires IsUpper(a) && IsUpper(b) && IsUpper(c) && IsLower(d)
    ensures UnderscoreCamel([a, b, '_', c, d]) == [a, b, '_', c, d]
  {
    assert [d][1..] == [];
    CamelCopy([d]);
    assert [c, d][1..] == [d];
    CamelCopy([c, d]);
    assert ['_', c, d][1..] == [c, d];
    CamelCopy(['_', c, d]);
    assert [b, '_', c, d][1..] == ['_', c, d];
    CamelCopy([b, '_', c, d]);
    assert [a, b, '_', c, d][1..] == [b, '_', c, d];
    CamelCopy([a, b, '_', c, d]);
  }

  lemma AcronymCase(a: char, b: char, c: char, d: char)
    requires IsUpper(a) && IsUpper(b) && IsUpper(c) && IsLower(d)
    ensures Downcase(SpacesToUnderscores([a, b, '_', c, d])) == [DowncaseChar(a), DowncaseChar(b), '_', DowncaseChar(c), d]
  {
    var t := SpacesToUnderscores([a, b, '_', c, d]);
    assert t == [a, b, '_', c, d];
  }

  /** Spaces and hyphens become underscores: `a b-c` becomes `a_b_c`. */
  lemma KeyNameSeparators(x: char, y: char, z: char)
    requires IsLower(x) && IsLower(y) && IsLower(z)
    ensures KeyName([x, ' ', y, '-', z]) == [x, '_', y, '_', z]
  {
    var s := [x, ' ', y, '-', z];
    SlashColonsIdentity(s);
    UnderscoreAcronymsIdentity(s);
    UnderscoreCamelIdentity(s);
    SeparatorsCase(x, y, z);
  }

  lemma SeparatorsCase(x: char, y: char, z: char)
    requires IsLower(x) && IsLower(y) && IsLower(z)
    ensures Downcase(SpacesToUnderscores([x, ' ', y, '-', z])) == [x, '_', y, '_', z]
  {
    var t := SpacesToUnderscores([x, ' ', y, '-', z]);
    assert t == [x, '_', y, '_', z];
  }
}
