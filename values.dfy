/**
 * The Ruby objects the extensions operate on, as one recursive datatype, and
 * the conversions to text (`to_s`, `inspect`) that several extensions rely on.
 */
module Values {
  import opened OrderedMaps

  datatype Value =
    | Nil
    | Bool(b: bool)
    | Int(i: int)
    | Str(s: string)
    | Sym(name: string)
    | Arr(items: seq<Value>)
    | Hash(entries: OMap<Value, Value>)

  /** Ruby's truth in a condition: everything except `nil` and `false`. */
  predicate Truthy(v: Value) {
    v != Nil && v != Bool(false)
  }

  /** `self[k]` on a Hash without a default: `nil` for a missing key. */
  function Lookup(m: OMap<Value, Value>, k: Value): (r: Value)
    ensures HasKey(m, k) ==> r == m[Find(m, k)].1
    ensures !HasKey(m, k) ==> r == Nil
  {
    match Get(m, k)
    case Some(v) => v
    case None => Nil
  }

  function DigitChar(d: int): char
    requires 0 <= d < 10
  {
    "0123456789"[d]
  }

  predicate IsDigit(c: char) {
    '0' <= c <= '9'
  }

  /** Decimal digits of a natural number, most significant first. */
  function NatToString(n: nat): (s: string)
    ensures |s| >= 1 && forall j :: 0 <= j < |s| ==> IsDigit(s[j])
    decreases n
  {
    if n < 10 then [DigitChar(n)] else NatToString(n / 10) + [DigitChar(n % 10)]
  }

  /** `Integer#to_s` */
  function IntToString(i: int): string {
    if i < 0 then "-" + NatToString(-i) else NatToString(i)
  }

  /** The strings of `parts` with `sep` between neighbours (`Array#join` on strings). */
  function Join(parts: seq<string>, sep: string): string {
    if |parts| == 0 then ""
    else if |parts| == 1 then parts[0]
    else Join(parts[..|parts| - 1], sep) + sep + parts[|parts| - 1]
  }

  /**
   * `inspect`. Strings are shown between double quotes and symbols after a
   * colon; hashes use the `{key=>value}` format of Ruby before 3.4; escaping
   * of special characters is not modelled.
   */
  function Inspect(v: Value): string
    decreases v
  {
    match v
    case Nil => "nil"
    case Bool(b) => if b then "true" else "false"
    case Int(i) => IntToString(i)
    case Str(s) => "\"" + s + "\""
    case Sym(n) => ":" + n
    case Arr(xs) =>
      "[" + Join(seq(|xs|, j requires 0 <= j < |xs| => Inspect(xs[j])), ", ") + "]"
    case Hash(es) =>
      "{" + Join(seq(|es|, j requires 0 <= j < |es| => Inspect(es[j].0) + "=>" + Inspect(es[j].1)), ", ") + "}"
  }

  /** `to_s`: containers render as their `inspect` form. */
  function ToS(v: Value): string {
    match v
    case Nil => ""
    case Bool(b) => if b then "true" else "false"
    case Int(i) => IntToString(i)
    case Str(s) => s
    case Sym(n) => n
    case Arr(_) => Inspect(v)
    case Hash(_) => Inspect(v)
  }
}
