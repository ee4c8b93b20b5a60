/**
 * The count normaliser: turns the loosely typed play, click, review and
 * favourite fields of a search result into an integer (main.py:89-108),
 * together with the Python `or` that chooses between two such fields.
 */
module CountNormalizer {
  import opened Prelude
  import opened Strings

  /** A count as the search API delivers it: absent, a JSON number, or text such as "1.2万". */
  datatype Raw = Null | Int(n: int) | Float(x: real) | Str(s: string)

  /** Python truthiness of a raw field: `None`, `0`, `0.0` and `""` are false. */
  predicate Truthy(v: Raw)
  {
    match v
    case Null => false
    case Int(n) => n != 0
    case Float(x) => x != 0.0
    case Str(s) => s != ""
  }

  /** Python's `a or b` on two raw fields. */
  function Or(a: Raw, b: Raw): (r: Raw)
    ensures r == a || r == b
    ensures Truthy(r) <==> Truthy(a) || Truthy(b)
    ensures Truthy(a) ==> r == a
  {
    if Truthy(a) then a else b
  }

  /** The unit marker for 10^8. */
  const Yi: char := '亿'
  /** The unit marker for 10^4. */
  const Wan: char := '万'

  /** The characters Python's `str.strip()` and `float()` treat as whitespace. */
  predicate IsSpace(c: char)
  {
    var k := c as int;
    k == 0x20 || 0x09 <= k <= 0x0D || 0x1C <= k <= 0x1F || k == 0x85 || k == 0xA0
    || k == 0x1680 || 0x2000 <= k <= 0x200A || k == 0x2028 || k == 0x2029
    || k == 0x202F || k == 0x205F || k == 0x3000
  }

  function StripLeft(s: string): string
  {
    if s != [] && IsSpace(s[0]) then StripLeft(s[1..]) else s
  }

  function StripRight(s: string): string
  {
    if s != [] && IsSpace(s[|s| - 1]) then StripRight(s[..|s| - 1]) else s
  }

  /** Python's `s.strip()`: `s` without its leading and trailing whitespace (see CountFacts.StripShape). */
  function Strip(s: string): string
  {
    StripRight(StripLeft(s))
  }

  /** Length of the run of ASCII digits at the front of `u`. */
  function LeadingDigits(u: string): (n: nat)
    ensures n <= |u| && AllDigits(u[..n])
    ensures n < |u| ==> !IsDigit(u[n])
  {
    if u != [] && IsDigit(u[0]) then
      var m := LeadingDigits(u[1..]);
      assert u[..1 + m] == [u[0]] + u[1..][..m];
      1 + m
    else 0
  }

  /** The exact value of the numeral `whole.frac`. */
  function DecimalValue(whole: string, frac: string): (r: real)
    requires AllDigits(whole) && AllDigits(frac)
    ensures r >= 0.0
  {
    DigitsValue(whole) as real + DigitsValue(frac) as real / Pow10(|frac|) as real
  }

  /**
   * An unsigned decimal numeral `ddd`, `ddd.`, `ddd.ddd` or `.ddd` with at
   * least one digit, read exactly: integer digits plus fractional digits.
   */
  function ParseUnsigned(u: string): (r: Option<real>)
    ensures r.Some? ==> r.value >= 0.0
  {
    var n := LeadingDigits(u);
    var rest := u[n..];
    if rest == [] then
      if n > 0 then Some(DigitsValue(u[..n]) as real) else None
    else if rest[0] == '.' && LeadingDigits(rest[1..]) == |rest| - 1 && (n > 0 || |rest| > 1) then
      var frac := rest[1..];
      assert frac[..|frac|] == frac;
      Some(DecimalValue(u[..n], frac))
    else None
  }

  /**
   * Python's `float(t)` on decimal text: surrounding whitespace and one sign
   * are allowed; anything else that is not a numeral is a parse failure.
   */
  function ParseFloat(t: string): Option<real>
  {
    var u := Strip(t);
    if u != [] && (u[0] == '+' || u[0] == '-') then
      match ParseUnsigned(u[1..])
      case None => None
      case Some(x) => Some(if u[0] == '-' then -x else x)
    else ParseUnsigned(u)
  }

  /** Python's `int(x)` on a float: truncation toward zero. */
  function Trunc(x: real): (r: int)
    ensures x >= 0.0 ==> 0 <= r && r as real <= x < r as real + 1.0
    ensures x < 0.0 ==> r <= 0 && r as real - 1.0 < x <= r as real
  {
    if x >= 0.0 then x.Floor else -((-x).Floor)
  }

  /** `int(float(...) * unit)`, where a failed parse yields 0 (the `except` branch). */
  function Scaled(x: Option<real>, unit: nat): int
  {
    match x
    case None => 0
    case Some(v) => Trunc(v * unit as real)
  }

  /** `''.join(ch for ch in s if ch.isdigit() or ch == '.')` */
  function KeepNumeric(s: string): (r: string)
    ensures forall k :: 0 <= k < |r| ==> IsDigit(r[k]) || r[k] == '.'
    ensures IsSubseq(r, s)
    ensures forall c :: Count(c, r) == (if IsDigit(c) || c == '.' then Count(c, s) else 0)
  {
    if s == [] then []
    else if IsDigit(s[0]) || s[0] == '.' then [s[0]] + KeepNumeric(s[1..])
    else KeepNumeric(s[1..])
  }

  /** `_parse_count`: a total map from a raw field to an integer. */
  function ParseCount(v: Raw): (r: int)
    ensures v.Null? ==> r == 0
    ensures v.Int? ==> r == v.n
    ensures v.Float? ==> r == Trunc(v.x)
  {
    match v
    case Null => 0
    case Int(n) => n
    case Float(x) => Trunc(x)
    case Str(raw) =>
      var s := Strip(raw);
      if Yi in s then Scaled(ParseFloat(ReplaceAll(s, [Yi], "")), 100000000)
      else if Wan in s then Scaled(ParseFloat(ReplaceAll(s, [Wan], "")), 10000)
      else
        var s2 := KeepNumeric(s);
        if s2 == "" then 0 else Scaled(ParseFloat(s2), 1)
  }
}
