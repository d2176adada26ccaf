/**
 * The extensions of lib/lite/ruby/integer.rb: `factorial` and `factors`,
 * which accumulate in a loop and are methods here, proved against the
 * functions `Factorial` and `FactorsUpTo`; `of`; and the recursive greedy
 * `roman_numeral` over the `ROMAN_NUMERALS` table.
 */
module RubyInteger {
  import opened Outcomes
  import opened Values
  import opened Arith

  // ---------------------------------------------------------------------------
  // factorial

  /** `lo.upto(hi).inject(1) { |acc, i| acc * i }`: the product lo * (lo + 1) * ... * hi, 1 when empty. */
  function Product(lo: int, hi: int): int
    decreases hi - lo
  {
    if lo > hi then 1 else lo * Product(lo + 1, hi)
  }

  /** `factorial`: 1 for zero, otherwise the product 2..self (which is empty, so 1, below 2). */
  function Factorial(n: int): int {
    if n == 0 then 1 else Product(2, n)
  }

  /** The product grows at its upper end by one factor. */
  lemma {:induction false} ProductSnoc(lo: int, hi: int)
    requires lo <= hi + 1
    ensures Product(lo, hi + 1) == Product(lo, hi) * (hi + 1)
    decreases hi - lo
  {
    if lo <= hi {
      ProductSnoc(lo + 1, hi);
    }
  }

  /** `factorial` runs the `inject` loop over 2..self. */
  method ComputeFactorial(n: int) returns (r: int)
    ensures r == Factorial(n)
  {
    if n == 0 {
      return 1;
    }
    r := 1;
    var i := 2;
    while i <= n
      invariant 2 <= i <= if n >= 1 then n + 1 else 2
      invariant r == Product(2, i - 1)
    {
      ProductSnoc(2, i - 1);
      r := r * i;
      i := i + 1;
    }
  }

  /** For n >= 1, factorial(n) is n times factorial(n - 1); below zero it is 1. */
  lemma FactorialStep(n: int)
    ensures n >= 1 ==> Factorial(n) == n * Factorial(n - 1)
    ensures n < 0 ==> Factorial(n) == 1
  {
    if n >= 2 {
      ProductSnoc(2, n - 1);
    }
  }

  /** Every factorial is at least 1, and every k in 1..n divides factorial(n). */
  lemma {:induction false} FactorialDivisors(n: int)
    ensures Factorial(n) >= 1
    ensures forall k :: 1 <= k <= n ==> Factorial(n) % k == 0
    decreases if n < 0 then 0 else n
  {
    if n >= 1 {
      FactorialDivisors(n - 1);
      FactorialStep(n);
      forall k | 1 <= k <= n ensures Factorial(n) % k == 0 {
        if k == n {
          MulMod(Factorial(n - 1), n);
        } else {
          var q := Factorial(n - 1) / k;
          DivExact(Factorial(n - 1), k);
          assert Factorial(n) == k * (q * n);
          MulMod(q * n, k);
        }
      }
    }
  }

  /** k * c is a multiple of k. */
  lemma MulMod(c: int, k: int)
    requires k >= 1
    ensures (c * k) % k == 0 && (k * c) % k == 0 && (k * c) / k == c
  {
    DivModUnique(c * k, k, c, 0);
  }

  /** A multiple of k is k times its quotient. */
  lemma DivExact(x: int, k: int)
    requires k >= 1 && x % k == 0
    ensures x == k * (x / k)
  {
  }

  // ---------------------------------------------------------------------------
  // factors

  /** `Math.sqrt(n).floor` for n >= 0, as an exact integer square root. */
  function FloorSqrt(n: int): (s: int)
    requires n >= 0
    ensures s >= 0 && s * s <= n < (s + 1) * (s + 1)
  {
    if n == 0 then 0
    else
      var s := FloorSqrt(n - 1);
      if (s + 1) * (s + 1) <= n then s + 1 else s
  }

  /**
   * What `factors` has pushed once `i` has run over 1..m: each i dividing n,
   * followed by its cofactor n / i unless that is i itself.
   */
  function FactorsUpTo(n: int, m: int): seq<int>
    decreases m
  {
    if m <= 0 then []
    else
      FactorsUpTo(n, m - 1) +
        (if n % m == 0 then [m] + (if n / m != m then [n / m] else []) else [])
  }

  /**
   * `factors`: `Math.sqrt` raises `Math::DomainError` for a negative
   * receiver; otherwise the loop over 1..floor(sqrt(self)).
   */
  method Factors(n: int) returns (r: Result<seq<int>>)
    ensures n < 0 ==> r == Err(DomainError)
    ensures n >= 0 ==> r == Ok(FactorsUpTo(n, FloorSqrt(n)))
  {
    if n < 0 {
      return Err(DomainError);
    }
    var limit := FloorSqrt(n);
    var a: seq<int> := [];
    var i := 1;
    while i <= limit
      invariant 1 <= i <= limit + 1
      invariant a == FactorsUpTo(n, i - 1)
    {
      if n % i == 0 {
        var sq := n / i;
        a := a + [i];
        if sq != i {
          a := a + [sq];
        }
      }
      i := i + 1;
    }
    return Ok(a);
  }

  /** If n = i * q then q divides n with quotient i. */
  lemma Cofactor(n: int, i: int)
    requires n >= 1 && i >= 1 && n % i == 0
    ensures n / i >= 1 && n % (n / i) == 0 && n / (n / i) == i && i * (n / i) == n
  {
    var q := n / i;
    assert n == i * q;
    MulMod(i, q);
  }

  /** Every listed number is a positive divisor of n. */
  lemma {:induction false} FactorsDivide(n: int, m: int)
    requires n >= 1
    ensures forall x :: x in FactorsUpTo(n, m) ==> x >= 1 && n % x == 0
    decreases m
  {
    if m > 0 {
      FactorsDivide(n, m - 1);
      if n % m == 0 {
        Cofactor(n, m);
      }
    }
  }

  /** Each i in 1..m that divides n is listed, and so is its cofactor. */
  lemma {:induction false} FactorsListed(n: int, m: int, i: int)
    requires n >= 1 && 1 <= i <= m && n % i == 0
    ensures i in FactorsUpTo(n, m) && n / i in FactorsUpTo(n, m)
    decreases m
  {
    if i < m {
      FactorsListed(n, m - 1, i);
    }
  }

  /** A divisor above floor(sqrt(n)) has its cofactor at or below it. */
  lemma LargeDivisor(n: int, d: int)
    requires n >= 1 && d > FloorSqrt(n) && n % d == 0
    ensures 1 <= n / d <= FloorSqrt(n) && n % (n / d) == 0 && n / (n / d) == d
  {
    var s := FloorSqrt(n);
    var c := n / d;
    Cofactor(n, d);
    if c > s {
      MulMonotone(s + 1, c, d);
      MulMonotone(s + 1, d, s + 1);
      assert false;
    }
  }

  /** For n >= 1, every positive divisor of n is among its factors. */
  lemma FactorsComplete(n: int, d: int)
    requires n >= 1 && d >= 1 && n % d == 0
    ensures d in FactorsUpTo(n, FloorSqrt(n))
  {
    var s := FloorSqrt(n);
    if d <= s {
      FactorsListed(n, s, d);
    } else {
      LargeDivisor(n, d);
      FactorsListed(n, s, n / d);
    }
  }

  /** A divisor i at or below floor(sqrt(n)) whose cofactor differs has the cofactor above it. */
  lemma CofactorAbove(n: int, i: int)
    requires n >= 1 && 1 <= i <= FloorSqrt(n) && n % i == 0 && n / i != i
    ensures n / i > FloorSqrt(n)
  {
    Cofactor(n, i);
    PairAboveRoot(i, n / i, FloorSqrt(n), n);
  }

  /** If i * q == n with i <= s, s * s <= n and q != i, then q > s. */
  lemma PairAboveRoot(i: int, q: int, s: int, n: int)
    requires 1 <= i <= s && i * q == n && s * s <= n && q != i
    ensures q > s
  {
    MulMonotone(i, s, i);
    MulMonotone(i, s, s);
    CofactorNotBelow(i, q, n);
    CofactorAboveRoot(i, q, s, n);
  }

  /** If i * q == n with i * i <= n, then q >= i. */
  lemma CofactorNotBelow(i: int, q: int, n: int)
    requires 1 <= i && i * q == n && i * i <= n
    ensures q >= i
  {
    if q < i {
      MulMonotone(q + 1, i, i);
      assert false;
    }
  }

  /** If i * q == n with i < q and s * s <= n, then q > s. */
  lemma CofactorAboveRoot(i: int, q: int, s: int, n: int)
    requires 1 <= i < q && i * q == n && s * s <= n
    ensures q > s
  {
    if q <= s {
      MulMonotone(i + 1, q, q);
      MulMonotone(q, s, q);
      MulMonotone(q, s, s);
      assert false;
    }
  }

  /** No number is listed twice: small divisors are at most m, cofactors are above floor(sqrt(n)). */
  lemma {:induction false} FactorsDistinctUpTo(n: int, m: int)
    requires n >= 1 && m <= FloorSqrt(n)
    ensures forall a, b :: 0 <= a < b < |FactorsUpTo(n, m)| ==> FactorsUpTo(n, m)[a] != FactorsUpTo(n, m)[b]
    ensures forall x :: x in FactorsUpTo(n, m) ==>
      x >= 1 && n % x == 0 && (x <= m || (x > FloorSqrt(n) && n / x <= m))
    decreases m
  {
    if m > 0 {
      var prev := FactorsUpTo(n, m - 1);
      FactorsDistinctUpTo(n, m - 1);
      if n % m == 0 {
        Cofactor(n, m);
        var q := n / m;
        var added := [m] + (if q != m then [q] else []);
        assert FactorsUpTo(n, m) == prev + added;
        assert m !in prev;
        if q != m {
          CofactorAbove(n, m);
          forall x | x in prev ensures x != q {
            if x > FloorSqrt(n) {
              assert n / x <= m - 1;
            }
          }
        }
        DistinctAppend(prev, added);
      }
    }
  }

  /** Two lists without repeats and without a common element concatenate without repeats. */
  lemma DistinctAppend(a: seq<int>, b: seq<int>)
    requires forall i, j :: 0 <= i < j < |a| ==> a[i] != a[j]
    requires forall i, j :: 0 <= i < j < |b| ==> b[i] != b[j]
    requires forall x :: x in a ==> x !in b
    ensures forall i, j :: 0 <= i < j < |a + b| ==> (a + b)[i] != (a + b)[j]
  {
    forall i, j | 0 <= i < j < |a + b| ensures (a + b)[i] != (a + b)[j] {
      if i < |a| && j >= |a| {
        assert (a + b)[i] in a && (a + b)[j] == b[j - |a|];
      }
    }
  }

  /**
   * For n >= 1, `factors` lists exactly the positive divisors of n, each
   * once.
   */
  lemma FactorsAreDivisors(n: int)
    requires n >= 1
    ensures forall d :: d in FactorsUpTo(n, FloorSqrt(n)) <==> d >= 1 && n % d == 0
    ensures forall a, b :: 0 <= a < b < |FactorsUpTo(n, FloorSqrt(n))| ==>
      FactorsUpTo(n, FloorSqrt(n))[a] != FactorsUpTo(n, FloorSqrt(n))[b]
  {
    FactorsDistinctUpTo(n, FloorSqrt(n));
    forall d | d >= 1 && n % d == 0 ensures d in FactorsUpTo(n, FloorSqrt(n)) {
      FactorsComplete(n, d);
    }
  }

  /** The list starts with 1 and then n itself (for n >= 2); `0.factors` is empty. */
  lemma FactorsStart(n: int)
    ensures n == 0 ==> FactorsUpTo(n, FloorSqrt(n)) == []
    ensures n == 1 ==> FactorsUpTo(n, FloorSqrt(n)) == [1]
    ensures n >= 2 ==> (|FactorsUpTo(n, FloorSqrt(n))| >= 2 &&
      FactorsUpTo(n, FloorSqrt(n))[0] == 1 && FactorsUpTo(n, FloorSqrt(n))[1] == n)
  {
    if n >= 1 {
      var s := FloorSqrt(n);
      assert FactorsUpTo(n, 1) == (if n != 1 then [1, n] else [1]);
      PrefixGrows(n, 1, s);
    }
  }

  /** A longer run of the loop only appends. */
  lemma {:induction false} PrefixGrows(n: int, m: int, m': int)
    requires 0 <= m <= m'
    ensures FactorsUpTo(n, m) <= FactorsUpTo(n, m')
    decreases m' - m
  {
    if m < m' {
      PrefixGrows(n, m, m' - 1);
    }
  }

  // ---------------------------------------------------------------------------
  // of

  const NegativeSizeMessage: string := "negative array size"

  /**
   * `of(&block)`: `Array.new(self, &block)`, element i being the block's
   * value for i, or nil without a block; a negative size raises.
   */
  function Of(n: int, block: Option<int -> Value>): (r: Result<seq<Value>>)
    ensures n < 0 <==> r == Err(ArgumentError(NegativeSizeMessage))
    ensures r.Ok? ==> |r.value| == n
    ensures r.Ok? && block.Some? ==> forall i :: 0 <= i < n ==> r.value[i] == block.value(i)
    ensures r.Ok? && block.None? ==> forall i :: 0 <= i < n ==> r.value[i] == Nil
  {
    if n < 0 then Err(ArgumentError(NegativeSizeMessage))
    else if block.None? then Ok(seq(n, _ => Nil))
    else Ok(seq(n, i requires 0 <= i < n => block.value(i)))
  }

  /** `(n + 1).of(f)` is `n.of(f)` followed by f(n). */
  lemma OfGrows(n: int, block: Option<int -> Value>)
    requires n >= 0
    ensures Of(n + 1, block).value == Of(n, block).value + [Of(n + 1, block).value[n]]
  {
    assert Of(n + 1, block).value[..n] == Of(n, block).value;
  }

  // ---------------------------------------------------------------------------
  // roman_numeral

  /** The number of entries of `ROMAN_NUMERALS`. */
  const RomanCount := 13

  /** `ROMAN_NUMERALS`, in the order `each` visits it: entry i is a symbol and its value. */
  function RomanNumerals(i: int): (string, int)
    requires 0 <= i < RomanCount
  {
    match i
    case 0 => ("M", 1000) case 1 => ("CM", 900) case 2 => ("D", 500) case 3 => ("CD", 400)
    case 4 => ("C", 100) case 5 => ("XC", 90) case 6 => ("L", 50) case 7 => ("XL", 40)
    case 8 => ("X", 10) case 9 => ("IX", 9) case 10 => ("V", 5) case 11 => ("IV", 4) case _ => ("I", 1)
  }

  /** The table's values strictly decrease, every symbol is a non-empty string of letters, and it ends with 1. */
  lemma RomanTableShape()
    ensures RomanCount == 13 && RomanNumerals(12).1 == 1
    ensures forall a, b :: 0 <= a < b < RomanCount ==> RomanNumerals(a).1 > RomanNumerals(b).1
    ensures forall a :: 0 <= a < RomanCount ==> RomanNumerals(a).1 >= 1 && |RomanNumerals(a).0| >= 1 && RomanNumerals(a).0[0] != '-'
  {
  }

  /** One entry of the table: worth at least 1, spelled with at least one letter and no sign. */
  lemma RomanEntryShape(j: int)
    requires 0 <= j < RomanCount
    ensures RomanNumerals(j).1 >= 1 && |RomanNumerals(j).0| >= 1 && RomanNumerals(j).0[0] != '-'
  {
  }

  /**
   * The entry at which `each` breaks for a positive n, searching from `i`:
   * the first whose value is at most n.
   */
  function Pick(n: int, i: int): (j: int)
    requires n >= 1 && 0 <= i < RomanCount
    ensures i <= j < RomanCount && RomanNumerals(j).1 <= n
    ensures forall k :: i <= k < j ==> RomanNumerals(k).1 > n
    decreases RomanCount - i
  {
    if RomanNumerals(i).1 <= n || i == RomanCount - 1 then i else Pick(n, i + 1)
  }

  /** `roman_numeral` */
  function RomanNumeral(n: int): (s: string)
    ensures n == 0 <==> s == ""
    ensures n < 0 <==> s != "" && s[0] == '-'
    decreases if n < 0 then 1 - n else n
  {
    if n == 0 then ""
    else if n < 0 then "-" + RomanNumeral(-n)
    else
      var j := Pick(n, 0);
      RomanEntryShape(j);
      RomanNumerals(j).0 + RomanNumeral(n - RomanNumerals(j).1)
  }

  /** The table entries a positive numeral is spelled with, in order. */
  function RomanDigits(n: int): (ds: seq<int>)
    requires n >= 0
    ensures forall a :: 0 <= a < |ds| ==> 0 <= ds[a] < RomanCount
    decreases n
  {
    if n == 0 then [] else var j := Pick(n, 0); RomanEntryShape(j); [j] + RomanDigits(n - RomanNumerals(j).1)
  }

  /** The sum of the values of some table entries. */
  function DigitsValue(ds: seq<int>): int
    requires forall a :: 0 <= a < |ds| ==> 0 <= ds[a] < RomanCount
  {
    if ds == [] then 0 else RomanNumerals(ds[0]).1 + DigitsValue(ds[1..])
  }

  /** The symbols of some table entries, concatenated. */
  function Spell(ds: seq<int>): string
    requires forall a :: 0 <= a < |ds| ==> 0 <= ds[a] < RomanCount
  {
    if ds == [] then "" else RomanNumerals(ds[0]).0 + Spell(ds[1..])
  }

  /** One greedy step: the first digit of a positive n, and what is left. */
  lemma RomanStep(n: int) returns (j: int, rest: int)
    requires n > 0
    ensures j == Pick(n, 0) && 0 <= j < RomanCount && rest == n - RomanNumerals(j).1 && 0 <= rest < n
  {
    j := Pick(n, 0);
    rest := n - RomanNumerals(j).1;
    RomanEntryShape(j);
  }

  /** The numeral of a positive n starts with the symbol of its first digit. */
  lemma RomanNumeralUnfold(n: int, j: int)
    requires n > 0 && j == Pick(n, 0)
    ensures RomanNumeral(n) == RomanNumerals(j).0 + RomanNumeral(n - RomanNumerals(j).1)
  {
  }

  /** The digits of a positive n start with its first digit. */
  lemma RomanDigitsUnfold(n: int, j: int)
    requires n > 0 && j == Pick(n, 0)
    ensures RomanDigits(n) == [j] + RomanDigits(n - RomanNumerals(j).1)
  {
  }


  /** Spelling and valuing a list one digit longer at its front. */
  lemma DigitsCons(j: int, ds: seq<int>)
    requires 0 <= j < RomanCount && forall a :: 0 <= a < |ds| ==> 0 <= ds[a] < RomanCount
    ensures Spell([j] + ds) == RomanNumerals(j).0 + Spell(ds)
    ensures DigitsValue([j] + ds) == RomanNumerals(j).1 + DigitsValue(ds)
  {
    assert ([j] + ds)[1..] == ds;
  }

  /** For n >= 0, the numeral is the symbols of its digits, in order. */
  lemma {:induction false} RomanNumeralSpelled(n: int)
    requires n >= 0
    ensures RomanNumeral(n) == Spell(RomanDigits(n))
    decreases n
  {
    if n > 0 {
      var j, rest := RomanStep(n);
      RomanNumeralUnfold(n, j);
      RomanDigitsUnfold(n, j);
      RomanNumeralSpelled(rest);
      DigitsCons(j, RomanDigits(rest));
    }
  }

  /** For n >= 0, the values of the digits add up to n. */
  lemma {:induction false} RomanNumeralValue(n: int)
    requires n >= 0
    ensures DigitsValue(RomanDigits(n)) == n
    decreases n
  {
    if n > 0 {
      var j, rest := RomanStep(n);
      RomanDigitsUnfold(n, j);
      RomanNumeralValue(rest);
      DigitsCons(j, RomanDigits(rest));
    }
  }

  /** Table entries in table order, each worth at most n. */
  predicate Descending(ds: seq<int>, n: int) {
    && (forall a :: 0 <= a < |ds| ==> 0 <= ds[a] < RomanCount && RomanNumerals(ds[a]).1 <= n)
    && (forall a, b :: 0 <= a < b < |ds| ==> ds[a] <= ds[b])
  }

  /** Putting in front an entry no later than any of `ds` and worth at most n keeps `Descending`. */
  lemma DescendingCons(j: int, ds: seq<int>, m: int, n: int)
    requires 0 <= j < RomanCount && RomanNumerals(j).1 <= n && m <= n
    requires Descending(ds, m)
    requires forall b :: 0 <= b < |ds| ==> j <= ds[b]
    ensures Descending([j] + ds, n)
  {
    var r := [j] + ds;
    forall a, b | 0 <= a < b < |r| ensures r[a] <= r[b] {
      assert r[b] == ds[b - 1];
      if a > 0 {
        assert r[a] == ds[a - 1];
      }
    }
  }

  /**
   * For n >= 0, every digit's value is at most n, and the digits come
   * largest first: the greedy choice never returns to a larger symbol.
   */
  lemma {:induction false} RomanNumeralDescending(n: int)
    requires n >= 0
    ensures Descending(RomanDigits(n), n)
    decreases n
  {
    if n > 0 {
      var j, rest := RomanStep(n);
      RomanDigitsUnfold(n, j);
      RomanNumeralDescending(rest);
      var tail := RomanDigits(rest);
      forall b | 0 <= b < |tail| ensures j <= tail[b] {
        assert RomanNumerals(tail[b]).1 <= rest < n;
      }
      DescendingCons(j, tail, rest, n);
    }
  }

  /** The sign: a negative numeral is "-" and the numeral of its magnitude. */
  lemma RomanNumeralNegative(n: int)
    requires n > 0
    ensures RomanNumeral(-n) == "-" + Spell(RomanDigits(n))
    ensures RomanNumeral(-n)[1..] == RomanNumeral(n)
  {
    RomanNumeralSpelled(n);
  }

  /** `1994.roman_numeral == "MCMXCIV"` */
  lemma RomanNumeralExample()
    ensures RomanNumeral(1994) == "MCMXCIV"
  {
    assert Pick(1994, 0) == 0;
    assert Pick(994, 0) == 1;
    assert Pick(94, 0) == 5;
    assert Pick(4, 0) == 11;
    assert RomanNumeral(4) == "IV";
    assert RomanNumeral(94) == "XC" + "IV";
    assert RomanNumeral(994) == "CM" + "XCIV";
  }
}
