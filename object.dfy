/**
 * The predicates and coercions that lib/lite/ruby/object.rb adds to every
 * Ruby object, over the `Value` model.
 */
module RubyObject {
  import opened Values
  import opened OrderedMaps

  /** `Object::FALSE_VALUES` */
  const FalseValues: seq<string> := ["0", "f", "false", "n", "no", "off"]
  /** `Object::TRUE_VALUES` */
  const TrueValues: seq<string> := ["1", "t", "true", "y", "yes", "on"]

  /** The characters `String#strip` removes: space, \t, \n, \v, \f, \r and NUL. */
  predicate IsSpace(c: char) {
    c == ' ' || c == '\t' || c == '\n' || c == '\U{0B}' || c == '\U{0C}' || c == '\r' || c == '\0'
  }

  /** `String#strip`: the text without leading or trailing whitespace. */
  function StripString(s: string): (r: string)
    ensures r == "" || (!IsSpace(r[0]) && !IsSpace(r[|r| - 1]))
    ensures exists a, b ::
              && 0 <= a <= b <= |s| && r == s[a..b]
              && (forall j :: 0 <= j < a ==> IsSpace(s[j]))
              && (forall j :: b <= j < |s| ==> IsSpace(s[j]))
  {
    var a := LeadingSpace(s, 0);
    var b := TrailingSpace(s, a, |s|);
    s[a..b]
  }

  /** The index of the first non-space character at or after `i` (or `|s|`). */
  function LeadingSpace(s: string, i: nat): (a: nat)
    requires i <= |s|
    ensures i <= a <= |s| && (forall j :: i <= j < a ==> IsSpace(s[j]))
    ensures a < |s| ==> !IsSpace(s[a])
    decreases |s| - i
  {
    if i == |s| || !IsSpace(s[i]) then i else LeadingSpace(s, i + 1)
  }

  /** The end of the text once the trailing spaces after `lo` are dropped. */
  function TrailingSpace(s: string, lo: nat, b: nat): (e: nat)
    requires lo <= b <= |s|
    ensures lo <= e <= b && (forall j :: e <= j < b ==> IsSpace(s[j]))
    ensures e > lo ==> !IsSpace(s[e - 1])
    decreases b
  {
    if b == lo || !IsSpace(s[b - 1]) then b else TrailingSpace(s, lo, b - 1)
  }

  /**
   * `blank?`: strip the object if it responds to `strip`, then answer `empty?`
   * if it responds to that, and otherwise `!object`. Strings strip whitespace.
   * Symbols have `empty?` but no `strip`. Arrays and Hashes respond to `strip`
   * because this library defines Array#strip and Hash#strip, which drop the
   * blank elements (values), so a container is blank exactly when all its
   * elements (values) are; `RubyArray.BlankArrayIsStripEmpty` shows this is
   * `strip.empty?`. Integers, `true`, `false` and `nil` fall back to `!object`.
   */
  predicate IsBlank(v: Value)
    decreases v
  {
    match v
    case Nil => true
    case Bool(b) => !b
    case Int(_) => false
    case Str(s) => StripString(s) == ""
    case Sym(n) => n == ""
    case Arr(xs) => forall j :: 0 <= j < |xs| ==> IsBlank(xs[j])
    case Hash(es) => forall j :: 0 <= j < |es| ==> IsBlank(es[j].1)
  }

  /** `present?` */
  predicate IsPresent(v: Value) {
    !IsBlank(v)
  }

  /** `presence`: the object when it is present, otherwise `nil`. */
  function Presence(v: Value): (r: Value)
    ensures r == v || r == Nil
    ensures IsPresent(v) <==> r == v && v != Nil
  {
    if IsPresent(v) then v else Nil
  }

  /** The placeholder `salvage` uses when none is given. */
  const DefaultPlaceholder: Value := Str("---")

  /** `salvage(placeholder)`: the placeholder for a blank object, otherwise the object. */
  function Salvage(v: Value, placeholder: Value): (r: Value)
    ensures IsBlank(v) ==> r == placeholder
    ensures IsPresent(v) ==> r == v
  {
    if IsBlank(v) then placeholder else v
  }

  function DowncaseChar(c: char): char {
    if 'A' <= c <= 'Z' then (c as int + 32) as char else c
  }

  /** `String#downcase` on the ASCII letters. */
  function Downcase(s: string): (r: string)
    ensures |r| == |s|
    ensures forall j :: 0 <= j < |s| ==> r[j] == DowncaseChar(s[j])
  {
    seq(|s|, j requires 0 <= j < |s| => DowncaseChar(s[j]))
  }

  /** `truthy?`: the downcased `to_s` is one of the true tokens. */
  predicate IsTruthy(v: Value) {
    Downcase(ToS(v)) in TrueValues
  }

  /** `falsey?`: `nil`, or the downcased `to_s` is one of the false tokens. */
  predicate IsFalsey(v: Value) {
    v == Nil || Downcase(ToS(v)) in FalseValues
  }

  /** `to_bool`: `true`, `false` or `nil`. */
  function ToBool(v: Value): (r: Value)
    ensures r == Bool(true) || r == Bool(false) || r == Nil
  {
    if IsTruthy(v) then Bool(true) else if IsFalsey(v) then Bool(false) else Nil
  }

  /** `boolean?`: the downcased `to_s` is a token of either set. */
  predicate IsBoolean(v: Value) {
    var t := Downcase(ToS(v));
    t in TrueValues || t in FalseValues
  }

  /** `true?`: equal to the literal `true`. */
  predicate IsTrue(v: Value) {
    Bool(true) == v
  }

  /** `false?`: equal to the literal `false`. */
  predicate IsFalse(v: Value) {
    Bool(false) == v
  }

  /** `bool?` */
  predicate IsBool(v: Value) {
    IsTrue(v) || IsFalse(v)
  }

  function Reverse<T>(s: seq<T>): (r: seq<T>)
    ensures |r| == |s| && forall j :: 0 <= j < |s| ==> r[j] == s[|s| - 1 - j]
  {
    seq(|s|, j requires 0 <= j < |s| => s[|s| - 1 - j])
  }

  /** `palindrome?`: `to_s` reads the same backwards. */
  predicate IsPalindrome(v: Value) {
    ToS(v) == Reverse(ToS(v))
  }

  predicate AllDigits(s: string) {
    forall j :: 0 <= j < |s| ==> IsDigit(s[j])
  }

  /** One or more digits, optionally followed by `.` and one or more digits. */
  predicate DecimalBody(u: string) {
    if '.' in u then
      exists k :: 0 < k < |u| - 1 && u[k] == '.' && AllDigits(u[..k]) && AllDigits(u[k + 1..])
    else
      |u| > 0 && AllDigits(u)
  }

  /** The text between `\A` and `\Z` of `/\A[+-]?\d+?(\.\d+)?\Z/`. */
  predicate NumeralBody(t: string) {
    if |t| > 0 && (t[0] == '+' || t[0] == '-') then DecimalBody(t[1..]) else DecimalBody(t)
  }

  /**
   * `numeral?`: `to_s` matches `/\A[+-]?\d+?(\.\d+)?\Z/`. `\Z` also matches
   * just before a final newline, so one trailing "\n" is accepted.
   */
  predicate IsNumeral(v: Value) {
    var s := ToS(v);
    NumeralBody(s) || (|s| > 0 && s[|s| - 1] == '\n' && NumeralBody(s[..|s| - 1]))
  }

  // ---------------------------------------------------------------------------
  // Properties

  /** A string is blank exactly when every character is whitespace. */
  lemma BlankStringIsAllSpace(s: string)
    ensures IsBlank(Str(s)) <==> forall j :: 0 <= j < |s| ==> IsSpace(s[j])
  {
    var a := LeadingSpace(s, 0);
    var b := TrailingSpace(s, a, |s|);
    if forall j :: 0 <= j < |s| ==> IsSpace(s[j]) {
      assert a == |s|;
    }
  }

  /** The values that fail a condition (`nil`, `false`) are blank. */
  lemma FalsyIsBlank(v: Value)
    requires !Truthy(v)
    ensures IsBlank(v)
  {
  }

  /** The examples of the glossary: what is blank and what is not. */
  lemma BlankExamples()
    ensures IsBlank(Nil) && IsBlank(Bool(false)) && IsBlank(Str("")) && IsBlank(Str("  "))
    ensures IsBlank(Arr([])) && IsBlank(Arr([Nil, Str(" ")])) && IsBlank(Hash([]))
    ensures !IsBlank(Int(0)) && !IsBlank(Bool(true)) && !IsBlank(Str(" a "))
  {
    SpacesAreBlank();
    InnerLetterIsPresent();
  }

  lemma SpacesAreBlank()
    ensures IsBlank(Str("  ")) && IsBlank(Arr([Nil, Str(" ")]))
  {
    BlankStringIsAllSpace("  ");
    BlankStringIsAllSpace(" ");
  }

  lemma InnerLetterIsPresent()
    ensures !IsBlank(Str(" a "))
  {
    BlankStringIsAllSpace(" a ");
    assert !IsSpace(" a "[1]);
  }

  /** `presence` is idempotent and never yields a blank non-nil object. */
  lemma PresenceIdempotent(v: Value)
    ensures Presence(Presence(v)) == Presence(v)
    ensures Presence(v) == Nil || IsPresent(Presence(v))
  {
  }

  /** `salvage` returns the placeholder exactly when `presence` returns nil, and the object otherwise. */
  lemma SalvageIsPresenceOr(v: Value, p: Value)
    ensures Salvage(v, p) == (if Presence(v) == Nil then p else v)
  {
  }

  lemma TokenSetsDisjoint(t: string)
    ensures !(t in TrueValues && t in FalseValues)
  {
  }

  /** No object is both truthy and falsey. */
  lemma TruthyNotFalsey(v: Value)
    ensures !(IsTruthy(v) && IsFalsey(v))
  {
    TokenSetsDisjoint(Downcase(ToS(v)));
    if v == Nil {
      assert Downcase(ToS(v)) == "";
    }
  }

  /** `to_bool` is `true` exactly for truthy objects, `false` exactly for falsey ones, `nil` otherwise. */
  lemma ToBoolCases(v: Value)
    ensures ToBool(v) == Bool(true) <==> IsTruthy(v)
    ensures ToBool(v) == Bool(false) <==> IsFalsey(v)
    ensures ToBool(v) == Nil <==> !IsTruthy(v) && !IsFalsey(v)
  {
    TruthyNotFalsey(v);
  }

  /** `boolean?` is "truthy or falsey", except that `nil` is falsey but not boolean. */
  lemma BooleanIsTokenNotNil(v: Value)
    ensures IsBoolean(v) <==> (IsTruthy(v) || IsFalsey(v)) && v != Nil
    ensures IsFalsey(Nil) && !IsBoolean(Nil)
  {
    assert Downcase(ToS(Nil)) == "";
  }

  /** Every listed token, in any letter case, is recognised; "maybe" is neither. */
  lemma TokenExamples()
    ensures IsTruthy(Str("YES")) && IsTruthy(Str("On")) && IsTruthy(Int(1)) && IsTruthy(Bool(true))
    ensures IsFalsey(Str("Off")) && IsFalsey(Int(0)) && IsFalsey(Bool(false)) && IsFalsey(Str("N"))
    ensures !IsTruthy(Str("maybe")) && !IsFalsey(Str("maybe")) && ToBool(Str("maybe")) == Nil
  {
    TruthyTokenExamples();
    FalseyTokenExamples();
    MaybeIsNoToken();
  }

  lemma TruthyTokenExamples()
    ensures IsTruthy(Str("YES")) && IsTruthy(Str("On")) && IsTruthy(Int(1)) && IsTruthy(Bool(true))
  {
    assert Downcase("YES") == "yes";
    assert Downcase("On") == "on";
    assert ToS(Int(1)) == "1" && Downcase("1") == "1";
    assert Downcase("true") == "true";
  }

  lemma FalseyTokenExamples()
    ensures IsFalsey(Str("Off")) && IsFalsey(Int(0)) && IsFalsey(Bool(false)) && IsFalsey(Str("N"))
  {
    assert Downcase("Off") == "off";
    assert Downcase("N") == "n";
    assert ToS(Int(0)) == "0" && Downcase("0") == "0";
    assert Downcase("false") == "false";
  }

  lemma MaybeIsNoToken()
    ensures !IsTruthy(Str("maybe")) && !IsFalsey(Str("maybe")) && ToBool(Str("maybe")) == Nil
  {
    assert Downcase("maybe") == "maybe";
  }

  /** `bool?` holds of exactly the two boolean literals. */
  lemma BoolIsLiteral(v: Value)
    ensures IsBool(v) <==> v.Bool?
  {
  }

  /** The decimal form of every integer is a numeral. */
  lemma IntegerIsNumeral(i: int)
    ensures IsNumeral(Int(i))
  {
    var s := NatToString(if i < 0 then -i else i);
    assert '.' !in s;
    if i < 0 {
      assert ("-" + s)[1..] == s;
    } else {
      assert s[0] != '+' && s[0] != '-' by { assert IsDigit(s[0]); }
    }
  }

  /** Examples of `numeral?`: a signed decimal is accepted, a bare sign or a trailing dot is not. */
  lemma NumeralExamples()
    ensures IsNumeral(Str("-12.50")) && IsNumeral(Str("7\n"))
    ensures !IsNumeral(Str("+")) && !IsNumeral(Str("1.")) && !IsNumeral(Str(".5")) && !IsNumeral(Str("1a"))
  {
    SignedDecimalIsNumeral();
    TrailingNewlineIsNumeral();
    BareSignIsNotNumeral();
    DotEndsAreNotNumerals();
    LetterIsNotNumeral();
  }

  lemma DotEndsAreNotNumerals()
    ensures !IsNumeral(Str("1.")) && !IsNumeral(Str(".5"))
  {
    assert "1."[1] == '.';
    assert ".5"[0] == '.';
  }

  lemma SignedDecimalIsNumeral()
    ensures IsNumeral(Str("-12.50"))
  {
    var t := "12.50";
    assert t[..2] == "12" && t[3..] == "50" && t[2] == '.';
    assert "-12.50"[1..] == t;
  }

  lemma TrailingNewlineIsNumeral()
    ensures IsNumeral(Str("7\n"))
  {
    assert "7\n"[..1] == "7";
  }

  lemma BareSignIsNotNumeral()
    ensures !IsNumeral(Str("+"))
  {
    assert "+"[1..] == "";
  }

  lemma LetterIsNotNumeral()
    ensures !IsNumeral(Str("1a"))
  {
    assert !IsDigit('a');
    assert "1a"[1] == 'a';
  }

  /** Reversing twice gives the text back. */
  lemma ReverseReverse<T>(s: seq<T>)
    ensures Reverse(Reverse(s)) == s
  {
    var r := Reverse(Reverse(s));
    assert |r| == |s|;
    forall j | 0 <= j < |s| ensures r[j] == s[j] {
      assert r[j] == Reverse(s)[|s| - 1 - j];
    }
  }

  /**
   * `palindrome?` holds exactly when each character of `to_s` equals its
   * mirror image, and then the reversed text is a palindrome too.
   */
  lemma PalindromeMirror(v: Value)
    ensures var s := ToS(v);
            IsPalindrome(v) <==> forall j :: 0 <= j < |s| ==> s[j] == s[|s| - 1 - j]
    ensures IsPalindrome(v) ==> IsPalindrome(Str(Reverse(ToS(v))))
  {
    var s := ToS(v);
    MirroredIsReverse(s);
    if IsPalindrome(v) {
      assert ToS(Str(Reverse(s))) == Reverse(s);
      ReverseReverse(s);
    }
  }

  /** A text is its own reverse exactly when each character equals its mirror image. */
  lemma MirroredIsReverse(s: string)
    ensures Reverse(s) == s <==> forall j :: 0 <= j < |s| ==> s[j] == s[|s| - 1 - j]
  {
    if forall j :: 0 <= j < |s| ==> s[j] == s[|s| - 1 - j] {
      assert Reverse(s) == s;
    }
  }

  /** A palindrome's text is its own reverse; every single character is one. */
  lemma PalindromeExamples()
    ensures IsPalindrome(Str("racecar")) && IsPalindrome(Int(7)) && !IsPalindrome(Str("ab"))
  {
    assert Reverse("racecar") == "racecar";
    assert Reverse("ab")[0] == 'b';
  }
}
