/** What the count normaliser promises, proved from its definition. */
module CountFacts {
  import opened Prelude
  import opened Strings
  import opened CountNormalizer

  lemma {:induction false} StripLeftShape(s: string)
    ensures |StripLeft(s)| <= |s| && StripLeft(s) == s[|s| - |StripLeft(s)|..]
    ensures forall k :: 0 <= k < |s| - |StripLeft(s)| ==> IsSpace(s[k])
    ensures StripLeft(s) != [] ==> !IsSpace(StripLeft(s)[0])
  {
    if s != [] && IsSpace(s[0]) {
      var t := s[1..];
      StripLeftShape(t);
      var l := StripLeft(t);
      assert StripLeft(s) == l;
      assert s[|s| - |l|..] == t[|t| - |l|..];
      forall k | 0 <= k < |s| - |l|
        ensures IsSpace(s[k])
      {
        if k > 0 {
          assert s[k] == t[k - 1];
        }
      }
    }
  }

  lemma {:induction false} StripRightShape(s: string)
    ensures |StripRight(s)| <= |s| && StripRight(s) == s[..|StripRight(s)|]
    ensures forall k :: |StripRight(s)| <= k < |s| ==> IsSpace(s[k])
    ensures StripRight(s) != [] ==> !IsSpace(StripRight(s)[|StripRight(s)| - 1])
  {
    if s != [] && IsSpace(s[|s| - 1]) {
      var t := s[..|s| - 1];
      StripRightShape(t);
      var r := StripRight(t);
      assert StripRight(s) == r;
      assert s[..|r|] == t[..|r|];
      forall k | |r| <= k < |s|
        ensures IsSpace(s[k])
      {
        if k < |s| - 1 {
          assert s[k] == t[k];
        }
      }
    }
  }

  /** `Strip(s)` is the slice of `s` left once the whitespace at both ends is gone. */
  lemma StripShape(s: string)
    ensures var i, r := |s| - |StripLeft(s)|, Strip(s);
            && 0 <= i && i + |r| <= |s| && r == s[i..i + |r|]
            && (forall k :: 0 <= k < i ==> IsSpace(s[k]))
            && (forall k :: i + |r| <= k < |s| ==> IsSpace(s[k]))
            && (r != [] ==> !IsSpace(r[0]) && !IsSpace(r[|r| - 1]))
  {
    StripLeftShape(s);
    var l := StripLeft(s);
    StripRightShape(l);
    var i, r := |s| - |l|, Strip(s);
    assert r == s[i..i + |r|];
    forall k | i + |r| <= k < |s| ensures IsSpace(s[k]) {
      assert s[k] == l[k - i];
    }
  }

  /** Stripping removes whitespace only: every other character stays, and nothing new appears. */
  lemma StripKeeps(s: string, c: char)
    ensures c in Strip(s) ==> c in s
    ensures c in s && !IsSpace(c) ==> c in Strip(s)
  {
    StripLeftKeeps(s, c);
    StripRightKeeps(StripLeft(s), c);
  }

  lemma StripLeftKeeps(s: string, c: char)
    ensures c in StripLeft(s) ==> c in s
    ensures c in s && !IsSpace(c) ==> c in StripLeft(s)
  {
    StripLeftShape(s);
    var l := StripLeft(s);
    if c in s && !IsSpace(c) {
      var k :| 0 <= k < |s| && s[k] == c;
      assert k >= |s| - |l|;
      assert l[k - (|s| - |l|)] == c;
    }
    if c in l {
      var k :| 0 <= k < |l| && l[k] == c;
      assert s[k + (|s| - |l|)] == c;
    }
  }

  lemma StripRightKeeps(s: string, c: char)
    ensures c in StripRight(s) ==> c in s
    ensures c in s && !IsSpace(c) ==> c in StripRight(s)
  {
    StripRightShape(s);
    var r := StripRight(s);
    if c in s && !IsSpace(c) {
      var k :| 0 <= k < |s| && s[k] == c;
      assert k < |r|;
      assert r[k] == c;
    }
    if c in r {
      var k :| 0 <= k < |r| && r[k] == c;
      assert s[k] == c;
    }
  }

  /** Text without whitespace is left as it is. */
  lemma StripNoSpace(s: string)
    requires forall k :: 0 <= k < |s| ==> !IsSpace(s[k])
    ensures Strip(s) == s
  {
    if s != [] {
      assert StripLeft(s) == s;
      assert StripRight(s) == s;
    }
  }

  lemma DigitsLeading(s: string)
    requires AllDigits(s)
    ensures LeadingDigits(s) == |s|
  {
  }

  lemma DigitsNoSpace(s: string)
    requires AllDigits(s)
    ensures forall k :: 0 <= k < |s| ==> !IsSpace(s[k])
  {
  }

  /** The leading digit run stops at the first non-digit. */
  lemma {:induction false} LeadingDigitsBound(u: string, k: nat)
    requires k < |u| && !IsDigit(u[k])
    ensures LeadingDigits(u) <= k
  {
    if IsDigit(u[0]) {
      LeadingDigitsBound(u[1..], k - 1);
    }
  }

  /** A character foreign to numerals makes an unsigned parse fail. */
  lemma UnsignedRejects(u: string, c: char)
    requires c in u && !IsDigit(c) && c != '.'
    ensures ParseUnsigned(u) == None
  {
    var n := LeadingDigits(u);
    var k :| 0 <= k < |u| && u[k] == c;
    LeadingDigitsBound(u, k);
    var rest := u[n..];
    assert rest[k - n] == c;
    if rest[0] == '.' {
      assert rest[1..][k - n - 1] == c;
      LeadingDigitsBound(rest[1..], k - n - 1);
    }
  }

  /** A character foreign to numerals, signs and whitespace makes `float()` fail. */
  lemma ParseFloatRejects(t: string, c: char)
    requires c in t && !IsDigit(c) && c != '.' && c != '+' && c != '-' && !IsSpace(c)
    ensures ParseFloat(t) == None
  {
    var u := Strip(t);
    StripKeeps(t, c);
    if u != [] && (u[0] == '+' || u[0] == '-') {
      assert c in u[1..] by {
        var k :| 0 <= k < |u| && u[k] == c;
        assert k > 0;
        assert u[1..][k - 1] == c;
      }
      UnsignedRejects(u[1..], c);
    } else {
      UnsignedRejects(u, c);
    }
  }

  /** Without a minus sign, `float()` never yields a negative number. */
  lemma ParseFloatNoMinus(t: string)
    requires '-' !in t
    ensures ParseFloat(t).Some? ==> ParseFloat(t).value >= 0.0
  {
    StripKeeps(t, '-');
  }

  /** Python's `or` takes the second field only when the first would have counted 0. */
  lemma OrFallsBackOnlyOnZero(a: Raw, b: Raw)
    ensures Truthy(a) ==> ParseCount(Or(a, b)) == ParseCount(a)
    ensures !Truthy(a) ==> ParseCount(a) == 0 && ParseCount(Or(a, b)) == ParseCount(b)
  {
    if !Truthy(a) && a.Str? {
      assert Strip(a.s) == [];
    }
  }

  /** Text carrying both unit markers: the 10^8 branch is taken, and the 10^4 marker left in the numeral spoils it. */
  lemma BothUnitsGiveZero(s: string)
    requires Yi in s && Wan in s
    ensures ParseCount(Str(s)) == 0
  {
    assert !IsSpace(Wan) && !IsSpace(Yi) && !IsDigit(Wan);
    StripKeeps(s, Yi);
    StripKeeps(s, Wan);
    var u := Strip(s);
    ReplaceCharKeeps(u, Yi, "", Wan);
    ParseFloatRejects(ReplaceAll(u, [Yi], ""), Wan);
  }

  /** Without unit markers the count is read from the digits and dots alone, so it is never negative. */
  lemma FallbackNonNegative(s: string)
    requires Yi !in s && Wan !in s
    ensures ParseCount(Str(s)) >= 0
  {
    StripKeeps(s, Yi);
    StripKeeps(s, Wan);
    var s2 := KeepNumeric(Strip(s));
    assert '-' !in s2;
    ParseFloatNoMinus(s2);
  }

  /** Without unit markers, text without any digit counts 0. */
  lemma NoDigitsGiveZero(s: string)
    requires Yi !in s && Wan !in s
    requires forall k :: 0 <= k < |s| ==> !IsDigit(s[k])
    ensures ParseCount(Str(s)) == 0
  {
    StripKeeps(s, Yi);
    StripKeeps(s, Wan);
    var u := Strip(s);
    var s2 := KeepNumeric(u);
    if s2 != "" {
      assert forall k :: 0 <= k < |u| ==> !IsDigit(u[k]) by {
        forall k | 0 <= k < |u| ensures !IsDigit(u[k]) {
          StripKeeps(s, u[k]);
        }
      }
      KeepNumericDots(u);
      OnlyDotsFail(s2);
    }
  }

  lemma {:induction false} KeepNumericDots(s: string)
    requires forall k :: 0 <= k < |s| ==> !IsDigit(s[k])
    ensures forall k :: 0 <= k < |KeepNumeric(s)| ==> KeepNumeric(s)[k] == '.'
  {
    if s != [] {
      KeepNumericDots(s[1..]);
    }
  }

  lemma OnlyDotsFail(t: string)
    requires t != [] && forall k :: 0 <= k < |t| ==> t[k] == '.'
    ensures ParseFloat(t) == None
  {
    assert !IsSpace('.');
    StripNoSpace(t);
    if |t| > 1 {
      assert t[1..][0] == '.';
      LeadingDigitsBound(t[1..], 0);
    }
  }

  /** `float()` of `a.b`, or of `a` alone when `b` is absent, is the exact decimal value. */
  lemma NumeralParse(a: string)
    requires |a| > 0 && AllDigits(a)
    ensures ParseFloat(a) == Some(DigitsValue(a) as real)
  {
    DigitsNoSpace(a);
    StripNoSpace(a);
    DigitsLeading(a);
    assert a[0] != '+' && a[0] != '-';
    assert a[..|a|] == a;
  }

  lemma {:induction false} LeadingDigitsAtLeast(u: string, m: nat)
    requires m <= |u| && forall k :: 0 <= k < m ==> IsDigit(u[k])
    ensures LeadingDigits(u) >= m
  {
    if m > 0 {
      LeadingDigitsAtLeast(u[1..], m - 1);
    }
  }

  lemma FractionParse(a: string, b: string)
    requires |a| > 0 && AllDigits(a) && AllDigits(b)
    ensures ParseFloat(a + "." + b) == Some(DecimalValue(a, b))
  {
    var s := a + "." + b;
    FractionNoSpace(a, b);
    StripNoSpace(s);
    assert s[0] == a[0] && a[0] != '+' && a[0] != '-';
    FractionUnsigned(a, b);
    UnsignedFloat(s);
  }

  /** Stripped text that does not start with a sign is parsed as an unsigned numeral. */
  lemma UnsignedFloat(t: string)
    requires Strip(t) == t && t != [] && t[0] != '+' && t[0] != '-'
    ensures ParseFloat(t) == ParseUnsigned(t)
  {
  }

  lemma FractionNoSpace(a: string, b: string)
    requires AllDigits(a) && AllDigits(b)
    ensures forall k :: 0 <= k < |a + "." + b| ==> !IsSpace((a + "." + b)[k])
  {
    var s := a + "." + b;
    assert !IsSpace('.');
    forall k | 0 <= k < |s| ensures !IsSpace(s[k]) {
      if k < |a| { assert s[k] == a[k]; } else if k > |a| { assert s[k] == b[k - |a| - 1]; }
    }
  }

  lemma FractionUnsigned(a: string, b: string)
    requires |a| > 0 && AllDigits(a) && AllDigits(b)
    ensures ParseUnsigned(a + "." + b) == Some(DecimalValue(a, b))
  {
    var s := a + "." + b;
    assert s[..|a|] == a;
    LeadingDigitsAtLeast(s, |a|);
    assert s[|a|] == '.';
    LeadingDigitsBound(s, |a|);
    var rest := s[|a|..];
    assert rest == "." + b && rest[1..] == b;
    DigitsLeading(b);
    assert b[..|b|] == b;
  }

  /** The count read from the decimal rendering of `n` is `n`. */
  lemma DecimalRoundTrip(n: nat)
    ensures ParseCount(Str(NatToString(n))) == n
  {
    var s := NatToString(n);
    DigitsNoSpace(s);
    StripNoSpace(s);
    assert Yi !in s && Wan !in s by {
      assert !IsDigit(Yi) && !IsDigit(Wan);
    }
    KeepNumericIdentity(s);
    NumeralParse(s);
    NatToStringRoundTrip(n);
  }

  /** The digit filter works character by character, so it distributes over concatenation. */
  lemma {:induction false} KeepNumericConcat(x: string, y: string)
    ensures KeepNumeric(x + y) == KeepNumeric(x) + KeepNumeric(y)
    decreases |x|
  {
    if x == [] {
      assert x + y == y;
    } else {
      assert (x + y)[0] == x[0] && (x + y)[1..] == x[1..] + y;
      KeepNumericConcat(x[1..], y);
    }
  }

  /** Text whose stripped form has no unit and something to parse goes to `float()` of its filtered digits. */
  lemma FallbackText(s: string)
    requires Yi !in Strip(s) && Wan !in Strip(s) && KeepNumeric(Strip(s)) != ""
    ensures ParseCount(Str(s)) == Scaled(ParseFloat(KeepNumeric(Strip(s))), 1)
  {
  }

  /** Two digit runs around one separator character, which may be whitespace. */
  predicate GroupedBy(s: string, a: string, c: char, b: string)
  {
    |a| > 0 && AllDigits(a) && AllDigits(b)
    && !IsDigit(c) && c != '.' && c != Yi && c != Wan
    && s == a + [c] + b
  }

  /** `strip()` keeps grouped digits whole, except a whitespace separator with nothing after it. */
  lemma GroupedStrip(s: string, a: string, c: char, b: string)
    requires GroupedBy(s, a, c, b)
    ensures Strip(s) == (if b == [] && IsSpace(c) then a else s)
  {
    assert s[0] == a[0];
    assert StripLeft(s) == s;
    if b != [] {
      assert s[|s| - 1] == b[|b| - 1];
      assert StripRight(s) == s;
    } else if IsSpace(c) {
      assert s[..|s| - 1] == a;
      assert a[|a| - 1] == s[|a| - 1];
      assert StripRight(a) == a;
    } else {
      assert s[|s| - 1] == c;
      assert StripRight(s) == s;
    }
  }

  lemma GroupedNoUnit(s: string, a: string, c: char, b: string)
    requires GroupedBy(s, a, c, b)
    ensures Yi !in s && Wan !in s
  {
    assert !IsDigit(Yi) && !IsDigit(Wan);
    forall k | 0 <= k < |s|
      ensures s[k] != Yi && s[k] != Wan
    {
      if k < |a| { assert s[k] == a[k]; } else if k > |a| { assert s[k] == b[k - |a| - 1]; }
    }
  }

  lemma GroupedKeep(s: string, a: string, c: char, b: string)
    requires GroupedBy(s, a, c, b)
    ensures KeepNumeric(s) == a + b && AllDigits(a + b)
  {
    assert s == a + ([c] + b);
    KeepNumericConcat(a, [c] + b);
    KeepNumericConcat([c], b);
    KeepNumericIdentity(a);
    KeepNumericIdentity(b);
    assert KeepNumeric([c]) == [];
    DigitsConcat(a, b);
  }

  lemma DigitsConcat(a: string, b: string)
    requires AllDigits(a) && AllDigits(b)
    ensures AllDigits(a + b)
  {
    var d := a + b;
    forall k | 0 <= k < |d|
      ensures IsDigit(d[k])
    {
      if k < |a| { assert d[k] == a[k]; } else { assert d[k] == b[k - |a|]; }
    }
  }

  /**
   * Digits grouped by a separator such as `,` or a space (`"1,234"`,
   * `"1 234"`): the filter drops the separator and the count is the value
   * of all the digits.
   */
  lemma GroupedParse(a: string, c: char, b: string)
    requires |a| > 0 && AllDigits(a) && AllDigits(b)
    requires !IsDigit(c) && c != '.' && c != Yi && c != Wan
    ensures ParseCount(Str(a + [c] + b)) == DigitsValue(a + b)
  {
    var s := a + [c] + b;
    GroupedStrip(s, a, c, b);
    GroupedNoUnit(s, a, c, b);
    GroupedKeep(s, a, c, b);
    if b == [] && IsSpace(c) {
      assert a + b == a;
      KeepNumericIdentity(a);
      assert Yi !in a && Wan !in a by {
        assert forall k :: 0 <= k < |a| ==> a[k] == s[k];
      }
    }
    FallbackText(s);
    NumeralParse(a + b);
  }

  /** `1,234` and `1 234` give 1234: a comma or a space between digits is dropped. */
  lemma GroupedExample(s: string)
    requires s == "1,234" || s == "1 234"
    ensures ParseCount(Str(s)) == 1234
  {
    var c := s[1];
    assert c == ',' || c == ' ';
    assert s == "1" + [c] + "234";
    assert ParseCount(Str("1" + [c] + "234")) == DigitsValue("1" + "234") by {
      GroupedParse("1", c, "234");
    }
    assert DigitsValue("1" + "234") == 1234 by {
      DigitsExample();
    }
  }

  lemma DigitsExample()
    ensures AllDigits("1" + "234") && DigitsValue("1" + "234") == 1234
  {
    var d1 := "1";
    var d2 := d1 + ['2'];
    var d3 := d2 + ['3'];
    var d4 := d3 + ['4'];
    assert "1" + "234" == d4;
    DigitsSnoc(d1, '2');
    DigitsSnoc(d2, '3');
    DigitsSnoc(d3, '4');
  }

  /** Appending a digit multiplies the value by ten and adds the digit. */
  lemma DigitsSnoc(ds: string, d: char)
    requires AllDigits(ds) && IsDigit(d)
    ensures AllDigits(ds + [d]) && DigitsValue(ds + [d]) == DigitsValue(ds) * 10 + DigitValue(d)
  {
    assert (ds + [d])[..|ds|] == ds;
  }

  lemma {:induction false} KeepNumericIdentity(s: string)
    requires AllDigits(s)
    ensures KeepNumeric(s) == s
  {
    if s != [] {
      KeepNumericIdentity(s[1..]);
    }
  }

  /** How `_parse_count` reads stripped text that carries the 10^4 marker only. */
  lemma WanText(s: string)
    requires Strip(s) == s && Yi !in s && Wan in s
    ensures ParseCount(Str(s)) == Scaled(ParseFloat(ReplaceAll(s, [Wan], "")), 10000)
  {
  }

  /** How `_parse_count` reads stripped text that carries the 10^8 marker. */
  lemma YiText(s: string)
    requires Strip(s) == s && Yi in s
    ensures ParseCount(Str(s)) == Scaled(ParseFloat(ReplaceAll(s, [Yi], "")), 100000000)
  {
  }

  /** A numeral, possibly signed, followed by a unit marker: stripping keeps it, and removing the marker leaves the numeral. */
  lemma UnitSuffix(d: string, u: char)
    requires forall k :: 0 <= k < |d| ==> IsDigit(d[k]) || d[k] == '.' || d[k] == '-'
    requires !IsDigit(u) && !IsSpace(u) && u != '.' && u != '-'
    ensures Strip(d + [u]) == d + [u]
    ensures u in d + [u]
    ensures ReplaceAll(d + [u], [u], "") == d
  {
    assert !IsSpace('.') && !IsSpace('-');
    var s := d + [u];
    assert forall k :: 0 <= k < |s| ==> !IsSpace(s[k]) by {
      forall k | 0 <= k < |s| ensures !IsSpace(s[k]) {
        if k < |d| { assert s[k] == d[k]; }
      }
    }
    StripNoSpace(s);
    assert s[|d|] == u;
    assert u !in d;
    ReplaceAllSkips(d, [u], [u], "");
    ReplaceAllMatch([], [u], "");
    assert [u] + [] == [u];
  }

  /** A whole number followed by the 10^4 marker counts that many ten-thousands. */
  lemma WanRoundTrip(n: nat)
    ensures ParseCount(Str(NatToString(n) + [Wan])) == n * 10000
  {
    var d := NatToString(n);
    assert !IsSpace(Wan) && !IsDigit(Wan) && !IsDigit(Yi);
    UnitSuffix(d, Wan);
    assert Yi !in d + [Wan];
    WanText(d + [Wan]);
    NumeralParse(d);
    NatToStringRoundTrip(n);
  }

  /** A minus sign in front of `n万` gives the negative count `-(n * 10^4)`, as Python does. */
  lemma WanNegative(n: nat)
    ensures ParseCount(Str("-" + NatToString(n) + [Wan])) == -(n * 10000)
  {
    var m := "-" + NatToString(n);
    assert m[1..] == NatToString(n);
    NatToStringRoundTrip(n);
    NegativeWan(m);
  }

  /** A minus sign, digits and the 10^4 marker: the negated value of the digits times 10^4. */
  lemma NegativeWan(m: string)
    requires |m| > 1 && m[0] == '-' && AllDigits(m[1..])
    ensures ParseCount(Str(m + [Wan])) == -(DigitsValue(m[1..]) * 10000)
  {
    var v := DigitsValue(m[1..]);
    assert ParseCount(Str(m + [Wan])) == Scaled(ParseFloat(m), 10000) by {
      assert !IsSpace(Wan) && !IsDigit(Wan) && !IsDigit(Yi);
      forall k | 0 <= k < |m| ensures IsDigit(m[k]) || m[k] == '-' {
        if k > 0 { assert m[k] == m[1..][k - 1]; }
      }
      UnitSuffix(m, Wan);
      assert Yi !in m + [Wan];
      WanText(m + [Wan]);
    }
    NegativeNumeral(m);
    assert -(v as real) * (10000 as nat) as real == -((v * 10000) as real);
  }

  /** `float()` of a minus sign and digits is the negated value of the digits. */
  lemma NegativeNumeral(m: string)
    requires |m| > 1 && m[0] == '-' && AllDigits(m[1..])
    ensures ParseFloat(m) == Some(-(DigitsValue(m[1..]) as real))
  {
    MinusDigitsStrip(m);
    DigitsUnsigned(m[1..]);
    SignedFloat(m, DigitsValue(m[1..]) as real);
  }

  lemma MinusDigitsStrip(m: string)
    requires |m| > 0 && m[0] == '-' && AllDigits(m[1..])
    ensures Strip(m) == m
  {
    forall k | 0 <= k < |m| ensures !IsSpace(m[k]) {
      if k > 0 { assert m[k] == m[1..][k - 1]; }
    }
    StripNoSpace(m);
  }

  /** `float()` of stripped text with a leading minus negates the unsigned numeral after it. */
  lemma SignedFloat(m: string, x: real)
    requires |m| > 0 && m[0] == '-' && Strip(m) == m && ParseUnsigned(m[1..]) == Some(x)
    ensures ParseFloat(m) == Some(-x)
  {
  }

  /** A run of digits is an unsigned numeral with their value. */
  lemma DigitsUnsigned(d: string)
    requires |d| > 0 && AllDigits(d)
    ensures ParseUnsigned(d) == Some(DigitsValue(d) as real)
  {
    DigitsLeading(d);
    assert d[..|d|] == d;
  }

  /** A whole number followed by the 10^8 marker counts that many hundred-millions. */
  lemma YiRoundTrip(n: nat)
    ensures ParseCount(Str(NatToString(n) + [Yi])) == n * 100000000
  {
    var d := NatToString(n);
    assert !IsSpace(Yi) && !IsDigit(Yi);
    UnitSuffix(d, Yi);
    YiText(d + [Yi]);
    NumeralParse(d);
    NatToStringRoundTrip(n);
  }

  /** Worked examples: `1.2万`, `3.4亿`, a missing count, text without digits, `1,234` and a native int. */
  lemma ParseCountExamples()
    ensures ParseCount(Str("1.2万")) == 12000
    ensures ParseCount(Str("3.4亿")) == 340000000
    ensures ParseCount(Null) == 0
    ensures ParseCount(Str("abc")) == 0
    ensures ParseCount(Int(1500)) == 1500
    ensures ParseCount(Str("1,234")) == 1234
  {
    NoDigitsGiveZero("abc");
    GroupedExample("1,234");
    WanExample("1.2万");
    YiExample("3.4亿");
  }

  /** A decimal numeral followed by the 10^4 marker. */
  lemma WanDecimal(a: string, b: string)
    requires |a| > 0 && AllDigits(a) && AllDigits(b)
    ensures ParseCount(Str(a + "." + b + [Wan])) == Trunc(DecimalValue(a, b) * 10000.0)
  {
    var d := a + "." + b;
    assert forall k :: 0 <= k < |d| ==> IsDigit(d[k]) || d[k] == '.' by {
      forall k | 0 <= k < |d|
        ensures IsDigit(d[k]) || d[k] == '.'
      {
        if k < |a| { assert d[k] == a[k]; } else if k > |a| { assert d[k] == b[k - |a| - 1]; }
      }
    }
    assert !IsSpace(Wan) && !IsDigit(Wan) && !IsDigit(Yi);
    UnitSuffix(d, Wan);
    assert Yi !in d + [Wan];
    WanText(d + [Wan]);
    FractionParse(a, b);
  }

  /** A decimal numeral followed by the 10^8 marker. */
  lemma YiDecimal(a: string, b: string)
    requires |a| > 0 && AllDigits(a) && AllDigits(b)
    ensures ParseCount(Str(a + "." + b + [Yi])) == Trunc(DecimalValue(a, b) * 100000000.0)
  {
    var d := a + "." + b;
    assert forall k :: 0 <= k < |d| ==> IsDigit(d[k]) || d[k] == '.' by {
      forall k | 0 <= k < |d|
        ensures IsDigit(d[k]) || d[k] == '.'
      {
        if k < |a| { assert d[k] == a[k]; } else if k > |a| { assert d[k] == b[k - |a| - 1]; }
      }
    }
    assert !IsSpace(Yi) && !IsDigit(Yi);
    UnitSuffix(d, Yi);
    YiText(d + [Yi]);
    FractionParse(a, b);
  }

  /** The value of a numeral with one integer and one fractional digit. */
  lemma OneDecimal(a: char, b: char)
    requires IsDigit(a) && IsDigit(b)
    ensures DecimalValue([a], [b]) == DigitValue(a) as real + DigitValue(b) as real / 10.0
  {
    assert [a][..0] == [] && [b][..0] == [];
    assert DigitsValue([a]) == DigitValue(a) && DigitsValue([b]) == DigitValue(b);
    assert Pow10(|[b]|) == 10;
  }

  lemma WanExample(s: string)
    requires s == "1.2万"
    ensures ParseCount(Str(s)) == 12000
  {
    OneDecimal('1', '2');
    assert s == "1" + "." + "2" + [Wan];
    WanDecimal("1", "2");
  }

  lemma YiExample(s: string)
    requires s == "3.4亿"
    ensures ParseCount(Str(s)) == 340000000
  {
    OneDecimal('3', '4');
    assert s == "3" + "." + "4" + [Yi];
    YiDecimal("3", "4");
  }
}
