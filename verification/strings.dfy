/** The handful of Python string operations the monitor relies on. */
module Strings {

  predicate IsDigit(c: char) { '0' <= c <= '9' }

  predicate AllDigits(s: string) { forall k :: 0 <= k < |s| ==> IsDigit(s[k]) }

  function DigitValue(c: char): nat
    requires IsDigit(c)
  {
    c as int - '0' as int
  }

  function DigitChar(d: nat): (c: char)
    requires d < 10
    ensures IsDigit(c) && DigitValue(c) == d
  {
    ('0' as int + d) as char
  }

  /** The value of a run of decimal digits, most significant digit first. */
  function DigitsValue(ds: string): nat
    requires AllDigits(ds)
    decreases |ds|
  {
    if ds == [] then 0 else DigitsValue(ds[..|ds| - 1]) * 10 + DigitValue(ds[|ds| - 1])
  }

  function Pow10(n: nat): (p: nat)
    ensures p >= 1
  {
    if n == 0 then 1 else 10 * Pow10(n - 1)
  }

  /** Python's `str(n)` for a non-negative int: its decimal digits. */
  function NatToString(n: nat): (s: string)
    ensures |s| > 0 && AllDigits(s)
    decreases n
  {
    if n < 10 then [DigitChar(n)] else NatToString(n / 10) + [DigitChar(n % 10)]
  }

  /** Reading the decimal rendering of `n` back gives `n`. */
  lemma {:induction false} NatToStringRoundTrip(n: nat)
    ensures DigitsValue(NatToString(n)) == n
    decreases n
  {
    if n >= 10 {
      NatToStringRoundTrip(n / 10);
      var s := NatToString(n);
      assert s[..|s| - 1] == NatToString(n / 10);
    }
  }

  /** Python's `str(i)` for an int, with a leading `-` when negative. */
  function IntToString(i: int): (s: string)
    ensures |s| > 0
    ensures forall k :: 0 <= k < |s| ==> IsDigit(s[k]) || (k == 0 && s[k] == '-' && i < 0)
    ensures i >= 0 ==> AllDigits(s) && DigitsValue(s) == i
    ensures i < 0 ==> s[0] == '-' && AllDigits(s[1..]) && DigitsValue(s[1..]) == -i
  {
    if i < 0 then
      NatToStringRoundTrip(-i);
      assert ("-" + NatToString(-i))[1..] == NatToString(-i);
      "-" + NatToString(-i)
    else
      NatToStringRoundTrip(i);
      NatToString(i)
  }

  /**
   * Python's `s.replace(pat, rep)`: every occurrence of `pat`, found left to
   * right without overlap, is replaced by `rep`.
   */
  function ReplaceAll(s: string, pat: string, rep: string): (r: string)
    requires |pat| > 0
    decreases |s|
  {
    if |s| < |pat| then s
    else if s[..|pat|] == pat then rep + ReplaceAll(s[|pat|..], pat, rep)
    else [s[0]] + ReplaceAll(s[1..], pat, rep)
  }

  /** Replacing a one-character pattern by text without it leaves no occurrence behind. */
  lemma {:induction false} ReplaceCharRemoves(s: string, c: char, rep: string)
    requires c !in rep
    ensures c !in ReplaceAll(s, [c], rep)
    decreases |s|
  {
    if |s| >= 1 {
      ReplaceCharRemoves(s[1..], c, rep);
    }
  }

  /** Replacing a one-character pattern keeps every other character. */
  lemma {:induction false} ReplaceCharKeeps(s: string, c: char, rep: string, d: char)
    requires d in s && d != c
    ensures d in ReplaceAll(s, [c], rep)
    decreases |s|
  {
    if s[0] != d {
      ReplaceCharKeeps(s[1..], c, rep, d);
    }
  }

  /** Number of occurrences of the character `c` in `s`. */
  function Count(c: char, s: string): nat
  {
    if s == [] then 0 else (if s[0] == c then 1 else 0) + Count(c, s[1..])
  }

  lemma {:induction false} CountConcat(c: char, a: string, b: string)
    ensures Count(c, a + b) == Count(c, a) + Count(c, b)
  {
    if a == [] {
      assert a + b == b;
    } else {
      assert (a + b)[1..] == a[1..] + b;
      CountConcat(c, a[1..], b);
    }
  }

  lemma {:induction false} CountAbsent(c: char, s: string)
    requires c !in s
    ensures Count(c, s) == 0
  {
    if s != [] {
      CountAbsent(c, s[1..]);
    }
  }

  /** A part that cannot start an occurrence of `pat` is copied unchanged. */
  lemma {:induction false} ReplaceAllSkips(a: string, b: string, pat: string, rep: string)
    requires |pat| > 0 && pat[0] !in a
    ensures ReplaceAll(a + b, pat, rep) == a + ReplaceAll(b, pat, rep)
    decreases |a|
  {
    if a == [] {
      assert a + b == b;
    } else {
      var s := a + b;
      assert s[0] == a[0] && s[1..] == a[1..] + b;
      ReplaceAllNoMatch(s, pat, rep);
      ReplaceAllSkips(a[1..], b, pat, rep);
      assert [a[0]] + (a[1..] + ReplaceAll(b, pat, rep)) == a + ReplaceAll(b, pat, rep);
    }
  }

  /** A first character that does not start `pat` is copied unchanged. */
  lemma ReplaceAllNoMatch(s: string, pat: string, rep: string)
    requires |pat| > 0 && |s| > 0 && s[0] != pat[0]
    ensures ReplaceAll(s, pat, rep) == [s[0]] + ReplaceAll(s[1..], pat, rep)
  {
    if |s| < |pat| {
      assert s == [s[0]] + s[1..];
    } else {
      assert s[..|pat|][0] != pat[0];
    }
  }

  /** When `pat` does not occur at the front, the first character is copied unchanged. */
  lemma ReplaceAllFront(s: string, pat: string, rep: string)
    requires |pat| > 0 && |s| > 0 && !(|s| >= |pat| && s[..|pat|] == pat)
    ensures ReplaceAll(s, pat, rep) == [s[0]] + ReplaceAll(s[1..], pat, rep)
  {
    if |s| < |pat| {
      assert s == [s[0]] + s[1..];
    }
  }

  /** Text in which `pat` cannot start is left unchanged. */
  lemma ReplaceAllAbsent(s: string, pat: string, rep: string)
    requires |pat| > 0 && pat[0] !in s
    ensures ReplaceAll(s, pat, rep) == s
  {
    ReplaceAllSkips(s, [], pat, rep);
    assert s + [] == s;
    assert ReplaceAll([], pat, rep) == [];
  }

  /** An occurrence of `pat` at the front is replaced by `rep`. */
  lemma ReplaceAllMatch(b: string, pat: string, rep: string)
    requires |pat| > 0
    ensures ReplaceAll(pat + b, pat, rep) == rep + ReplaceAll(b, pat, rep)
  {
    assert (pat + b)[..|pat|] == pat;
    assert (pat + b)[|pat|..] == b;
  }

  /** A one-character pattern never straddles a boundary, so `replace` distributes over concatenation. */
  lemma {:induction false} ReplaceCharConcat(x: string, y: string, c: char, rep: string)
    ensures ReplaceAll(x + y, [c], rep) == ReplaceAll(x, [c], rep) + ReplaceAll(y, [c], rep)
    decreases |x|
  {
    if x == [] {
      assert x + y == y;
    } else {
      var s := x + y;
      assert s[..1] == [x[0]] && s[1..] == x[1..] + y;
      assert x[..1] == [x[0]];
      ReplaceCharConcat(x[1..], y, c, rep);
    }
  }

  /** Python's `sep.join(parts)`. */
  function Join(parts: seq<string>, sep: string): string
  {
    if parts == [] then "" else if |parts| == 1 then parts[0] else parts[0] + sep + Join(parts[1..], sep)
  }

  /** Joining parts free of `ch` counts `ch` once per separator. */
  lemma {:induction false} JoinCount(parts: seq<string>, sep: string, ch: char)
    requires forall k :: 0 <= k < |parts| ==> ch !in parts[k]
    ensures Count(ch, Join(parts, sep)) == (if parts == [] then 0 else (|parts| - 1) * Count(ch, sep))
    decreases |parts|
  {
    if |parts| == 1 {
      CountAbsent(ch, parts[0]);
    } else if |parts| > 1 {
      var rest := Join(parts[1..], sep);
      JoinCount(parts[1..], sep, ch);
      CountAbsent(ch, parts[0]);
      CountConcat(ch, parts[0], sep);
      CountConcat(ch, parts[0] + sep, rest);
    }
  }

  /** A character in neither the parts nor the separator is not in their join. */
  lemma {:induction false} JoinAbsent(parts: seq<string>, sep: string, ch: char)
    requires forall k :: 0 <= k < |parts| ==> ch !in parts[k]
    requires ch !in sep
    ensures ch !in Join(parts, sep)
    decreases |parts|
  {
    if |parts| > 1 {
      JoinAbsent(parts[1..], sep, ch);
    }
  }
}
