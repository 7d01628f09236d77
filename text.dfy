/** The Python string operations the modelled code relies on, with their
    Python semantics: `in`, `str.find`, `str.split(sep)`, `str.strip(chars)`,
    `str.replace`, `str(int)` and integer parsing. */
module Text {
  import opened Wrappers

  /** Python `sub in s`. */
  predicate Contains(s: string, sub: string) {
    sub <= s || (s != [] && Contains(s[1..], sub))
  }

  /** Python `s.find(sub)`: the first position of `sub` in `s`, if any. */
  function Find(s: string, sub: string): (r: Option<nat>)
    ensures r.None? <==> !Contains(s, sub)
    ensures r.Some? ==> r.value + |sub| <= |s| && s[r.value..r.value + |sub|] == sub
    ensures r.Some? ==> forall j :: 0 <= j < r.value ==> !(sub <= s[j..])
  {
    if sub <= s then Some(0)
    else if s == [] then None
    else match Find(s[1..], sub)
      case None => None
      case Some(i) =>
        assert forall j :: 1 <= j <= i ==> s[j..] == s[1..][j - 1..];
        Some(i + 1)
  }

  /** Python `s.split(sep)[1]`: the text between the first and the second
      occurrence of `sep` (or to the end when there is no second one).
      An empty separator raises ValueError; no occurrence makes `[1]` raise IndexError. */
  function SplitSecond(s: string, sep: string): (r: Result<string>)
    ensures r.Err? <==> sep == [] || !Contains(s, sep)
    ensures sep == [] ==> r == Err(EmptySeparator)
    ensures sep != [] && !Contains(s, sep) ==> r == Err(IndexOutOfRange)
    ensures r.Ok? ==> !Contains(r.value, sep)
  {
    if sep == [] then Err(EmptySeparator)
    else match Find(s, sep)
      case None => Err(IndexOutOfRange)
      case Some(i) =>
        var rest := s[i + |sep|..];
        match Find(rest, sep)
        case None => Ok(rest)
        case Some(j) => NoOccurrenceBefore(rest, sep, j); Ok(rest[..j])
  }

  /** `sub` does not occur in the prefix of `s` that ends where its first occurrence starts. */
  lemma {:induction false} NoOccurrenceBefore(s: string, sub: string, j: nat)
    requires sub != [] && j <= |s|
    requires forall k :: 0 <= k < j ==> !(sub <= s[k..])
    ensures !Contains(s[..j], sub)
  {
    if j > 0 {
      assert !(sub <= s[0..]);
      assert s[0..] == s;
      assert !(sub <= s[..j]);
      assert s[..j][1..] == s[1..][..j - 1];
      forall k | 0 <= k < j - 1 ensures !(sub <= s[1..][k..]) {
        assert s[1..][k..] == s[k + 1..];
      }
      NoOccurrenceBefore(s[1..], sub, j - 1);
    }
  }

  /** Python `s.strip(chars)`: remove every leading and trailing character that is in `chars`. */
  function Strip(s: string, chars: set<char>): (r: string)
    ensures exists i, j :: 0 <= i <= j <= |s| && r == s[i..j]
                           && (forall k :: 0 <= k < i ==> s[k] in chars)
                           && (forall k :: j <= k < |s| ==> s[k] in chars)
    ensures r != [] ==> r[0] !in chars && r[|r| - 1] !in chars
  {
    var i := LeadingCount(s, chars);
    var t := s[i..];
    var j := TrailingStart(t, chars);
    var r := s[i..i + j];
    assert forall k :: i + j <= k < |s| ==> s[k] in chars by {
      forall k | i + j <= k < |s| ensures s[k] in chars {
        assert s[k] == t[k - i];
      }
    }
    assert r != [] ==> r[0] == s[i] && r[|r| - 1] == t[j - 1];
    r
  }

  /** How many leading characters of `s` are in `chars`. */
  function LeadingCount(s: string, chars: set<char>): (i: nat)
    ensures i <= |s| && forall k :: 0 <= k < i ==> s[k] in chars
    ensures i < |s| ==> s[i] !in chars
  {
    if s != [] && s[0] in chars then 1 + LeadingCount(s[1..], chars) else 0
  }

  /** Where the run of trailing characters of `s` that are in `chars` starts. */
  function TrailingStart(s: string, chars: set<char>): (j: nat)
    ensures j <= |s| && forall k :: j <= k < |s| ==> s[k] in chars
    ensures j > 0 ==> s[j - 1] !in chars
  {
    if s != [] && s[|s| - 1] in chars then TrailingStart(s[..|s| - 1], chars) else |s|
  }

  /** Python `s.replace(pattern, replacement)`: every non-overlapping occurrence, scanning left to right. */
  function ReplaceAll(s: string, pattern: string, replacement: string): string
    requires pattern != []
  {
    if pattern <= s then replacement + ReplaceAll(s[|pattern|..], pattern, replacement)
    else if s == [] then []
    else [s[0]] + ReplaceAll(s[1..], pattern, replacement)
  }

  /** The first character of `s.replace("%20", "_")` is `_` exactly where `s` starts with "%20". */
  lemma ReplacePercent20Head(s: string)
    ensures ReplaceAll(s, "%20", "_") == [] <==> s == []
    ensures s != [] ==> ReplaceAll(s, "%20", "_")[0] == if "%20" <= s then '_' else s[0]
  {
  }

  /** A replaced string starts with "20" only where the original did. */
  lemma Replace20Prefix(s: string)
    ensures "20" <= ReplaceAll(s, "%20", "_") ==> "20" <= s
  {
    var r := ReplaceAll(s, "%20", "_");
    if "20" <= r {
      ReplacePercent20Head(s);
      if !("%20" <= s) && s != [] {
        assert r == [s[0]] + ReplaceAll(s[1..], "%20", "_");
        ReplacePercent20Head(s[1..]);
      }
    }
  }

  /** Replacing every "%20" by "_" leaves no "%20" behind. */
  lemma {:induction false} ReplacePercent20Complete(s: string)
    ensures !Contains(ReplaceAll(s, "%20", "_"), "%20")
    decreases |s|
  {
    var r := ReplaceAll(s, "%20", "_");
    if "%20" <= s {
      ReplacePercent20Complete(s[3..]);
      assert r == "_" + ReplaceAll(s[3..], "%20", "_");
      assert r[1..] == ReplaceAll(s[3..], "%20", "_");
      assert r[0] == '_';
      assert !("%20" <= r);
    } else if s != [] {
      ReplacePercent20Complete(s[1..]);
      var tail := ReplaceAll(s[1..], "%20", "_");
      assert r == [s[0]] + tail;
      assert r[1..] == tail;
      Replace20Prefix(s[1..]);
    }
  }

  /** Python `s.split(" ")[0]`: the text before the first space. */
  function FirstWord(s: string): (r: string)
    ensures r <= s
    ensures ' ' !in r
    ensures ' ' !in s ==> r == s
  {
    if s == [] || s[0] == ' ' then []
    else [s[0]] + FirstWord(s[1..])
  }

  /** Taking the first word twice is the same as taking it once. */
  lemma FirstWordIdempotent(s: string)
    ensures FirstWord(FirstWord(s)) == FirstWord(s)
  {
  }

  /** The first word of a text is everything before its first space. */
  lemma {:induction false} FirstWordBeforeSpace(a: string, b: string)
    requires ' ' !in a
    ensures FirstWord(a + " " + b) == a
  {
    if a != [] {
      assert (a + " " + b)[1..] == a[1..] + " " + b;
      FirstWordBeforeSpace(a[1..], b);
    }
  }

  predicate IsDigit(c: char) { '0' <= c <= '9' }

  predicate AllDigits(s: string) { forall i :: 0 <= i < |s| ==> IsDigit(s[i]) }

  function DigitChar(d: nat): (c: char)
    requires d < 10
    ensures IsDigit(c)
  {
    ['0', '1', '2', '3', '4', '5', '6', '7', '8', '9'][d]
  }

  function DigitValue(c: char): nat
    requires IsDigit(c)
  {
    (c as int - '0' as int) as nat
  }

  /** The value of a string of decimal digits. */
  function DigitsValue(s: string): nat
    requires AllDigits(s)
  {
    if s == [] then 0 else DigitsValue(s[..|s| - 1]) * 10 + DigitValue(s[|s| - 1])
  }

  /** Python `str(n)` for a natural number. */
  function NatToDecimal(n: nat): (r: string)
    ensures r != [] && AllDigits(r)
  {
    if n < 10 then [DigitChar(n)] else NatToDecimal(n / 10) + [DigitChar(n % 10)]
  }

  /** Python `str(n)`: the year labels of the spreadsheets' columns. */
  function IntToDecimal(n: int): string {
    if n < 0 then "-" + NatToDecimal(-n) else NatToDecimal(n)
  }

  /** `str(y)` of a four-digit year spells its four digits. */
  lemma FourDigitLabel(y: int)
    requires 1000 <= y <= 9999
    ensures IntToDecimal(y) == [DigitChar(y / 1000), DigitChar(y / 100 % 10), DigitChar(y / 10 % 10), DigitChar(y % 10)]
  {
    var c: nat := y / 10;
    var b: nat := c / 10;
    var a: nat := b / 10;
    assert b == y / 100 && a == y / 1000 && c % 10 == y / 10 % 10 && b % 10 == y / 100 % 10;
    assert NatToDecimal(a) == [DigitChar(a)];
    assert NatToDecimal(b) == [DigitChar(a), DigitChar(b % 10)];
    assert NatToDecimal(c) == [DigitChar(a), DigitChar(b % 10), DigitChar(c % 10)];
  }

  /** The ASCII characters Python counts as whitespace: space, tab, newline, carriage return,
      vertical tab, form feed and the four separators 0x1C..0x1F. */
  const Whitespace: set<char> := {' ', '\t', '\n', '\r', 11 as char, 12 as char, 28 as char, 29 as char, 30 as char, 31 as char}

  /** The digits of a Python integer literal: decimal digits, with single underscores allowed
      between two digits. */
  predicate DigitGroups(s: string) {
    && s != [] && IsDigit(s[0]) && IsDigit(s[|s| - 1])
    && (forall i :: 0 <= i < |s| ==> IsDigit(s[i]) || s[i] == '_')
    && (forall i :: 0 <= i < |s| - 1 ==> !DoubleUnderscoreAt(s, i))
  }

  predicate DoubleUnderscoreAt(s: string, i: int)
    requires 0 <= i < |s| - 1
  {
    s[i] == '_' && s[i + 1] == '_'
  }

  /** The digits of `s`, its underscores removed. */
  function WithoutUnderscores(s: string): (r: string)
    requires forall i :: 0 <= i < |s| ==> IsDigit(s[i]) || s[i] == '_'
    ensures AllDigits(r) && |r| <= |s|
    ensures AllDigits(s) ==> r == s
  {
    if s == [] then []
    else
      var rest := WithoutUnderscores(s[1..]);
      if s[0] == '_' then rest
      else
        assert forall i :: 1 <= i < |rest| + 1 ==> ([s[0]] + rest)[i] == rest[i - 1];
        [s[0]] + rest
  }

  /** Python `int(s)` of a string: surrounding whitespace is ignored, then an optional sign and
      decimal digits with single underscores between digits; anything else raises. */
  function ParseInt(s: string): (r: Option<int>)
    ensures r.Some? ==> Strip(s, Whitespace) != []
    ensures AllDigits(s) && s != [] ==> r == Some(DigitsValue(s) as int)
  {
    if AllDigits(s) && s != [] then
      StripUnchanged(s, Whitespace);
      DigitsAreGroups(s);
      Some(DigitsValue(s) as int)
    else ParseSigned(Strip(s, Whitespace))
  }

  /** `int()` of a string without surrounding whitespace: an optional sign, then digit groups. */
  function ParseSigned(t: string): (r: Option<int>)
    ensures r.Some? ==> t != []
  {
    if t == [] then None
    else
      var body := if t[0] == '-' || t[0] == '+' then t[1..] else t;
      if DigitGroups(body) then
        var v := DigitsValue(WithoutUnderscores(body)) as int;
        Some(if t[0] == '-' then -v else v)
      else None
  }

  /** A string that neither starts nor ends with a stripped character is its own strip. */
  lemma StripUnchanged(s: string, chars: set<char>)
    requires s != [] && s[0] !in chars && s[|s| - 1] !in chars
    ensures Strip(s, chars) == s
  {
    assert LeadingCount(s, chars) == 0;
    assert s[0..] == s;
    assert TrailingStart(s, chars) == |s|;
  }

  /** "2000" is a digit string worth 2000. */
  lemma Digits2000()
    ensures AllDigits("2000") && DigitGroups("2000") && DigitsValue("2000") == 2000
  {
    FourDigitLabel(2000);
    DigitsValueOfNat(2000);
    assert IntToDecimal(2000) == "2000";
  }

  /** Python's `int()` takes a leading plus sign. */
  lemma ParseIntPlusSign()
    ensures ParseInt("+2000") == Some(2000)
  {
    var s := "+2000";
    StripUnchanged(s, Whitespace);
    assert !AllDigits(s) by { assert !IsDigit(s[0]); }
    assert s[1..] == "2000";
    Digits2000();
  }

  /** Python's `int()` ignores surrounding whitespace. */
  lemma ParseIntWhitespace()
    ensures ParseInt(" 2000 ") == Some(2000)
  {
    var s := " 2000 ";
    var t := s[1..];
    assert t == "2000 " && t[..4] == "2000";
    assert LeadingCount(t, Whitespace) == 0;
    assert LeadingCount(s, Whitespace) == 1;
    assert TrailingStart("2000", Whitespace) == 4;
    assert TrailingStart(t, Whitespace) == 4;
    assert s[1..5] == "2000";
    assert Strip(s, Whitespace) == "2000";
    assert !AllDigits(s) by { assert !IsDigit(s[0]); }
    Digits2000();
  }

  /** Python's `int()` takes single underscores between digits, and refuses doubled ones. */
  lemma ParseIntUnderscores()
    ensures ParseInt("2_000") == Some(2000)
    ensures ParseInt("2__000") == None
  {
    var s := "2_000";
    StripUnchanged(s, Whitespace);
    assert !AllDigits(s) by { assert !IsDigit(s[1]); }
    assert DigitGroups(s);
    assert s[1..] == "_000" && s[1..][1..] == "000";
    assert WithoutUnderscores(s) == "2000";
    Digits2000();
    var u := "2__000";
    StripUnchanged(u, Whitespace);
    assert !AllDigits(u) by { assert !IsDigit(u[1]); }
    assert !DigitGroups(u) by { assert DoubleUnderscoreAt(u, 1); }
  }

  /** A World Bank column label that was not shortened is not an integer. */
  lemma ParseIntRejectsWorldBankLabel()
    ensures ParseInt("2000 [YR2000]") == None
  {
    var s := "2000 [YR2000]";
    StripUnchanged(s, Whitespace);
    assert !AllDigits(s) by { assert !IsDigit(s[4]); }
    assert !DigitGroups(s) by { assert !IsDigit(s[4]) && s[4] != '_'; }
  }

  lemma {:induction false} DigitsValueOfNat(n: nat)
    ensures DigitsValue(NatToDecimal(n)) == n
  {
    var r := NatToDecimal(n);
    if n < 10 {
      assert r[..0] == [];
    } else {
      var p := NatToDecimal(n / 10);
      assert r == p + [DigitChar(n % 10)];
      assert r[..|r| - 1] == p;
      DigitsValueOfNat(n / 10);
    }
  }

  /** Parsing a printed integer gives it back. */
  lemma IntToDecimalRoundTrip(n: int)
    ensures ParseInt(IntToDecimal(n)) == Some(n)
  {
    if n < 0 {
      NegativeRoundTrip(n);
    } else {
      NonNegativeRoundTrip(n);
    }
  }

  lemma NegativeRoundTrip(n: int)
    requires n < 0
    ensures ParseInt(IntToDecimal(n)) == Some(n)
  {
    var d := NatToDecimal(-n);
    DigitsValueOfNat(-n);
    ParseNegative(d);
    assert ParseInt("-" + d) == Some(n);
    assert IntToDecimal(n) == "-" + d;
  }

  lemma NonNegativeRoundTrip(n: int)
    requires n >= 0
    ensures ParseInt(IntToDecimal(n)) == Some(n)
  {
    var d := NatToDecimal(n);
    assert IntToDecimal(n) == d;
    ParseDigits(d);
    DigitsValueOfNat(n);
  }

  lemma ParseNegative(d: string)
    requires d != [] && AllDigits(d)
    ensures ParseInt("-" + d) == Some(-(DigitsValue(d) as int))
  {
    var s := "-" + d;
    assert s[|s| - 1] == d[|d| - 1];
    StripUnchanged(s, Whitespace);
    assert !AllDigits(s) by { assert !IsDigit(s[0]); }
    DigitsAreGroups(d);
    ParseSignedNegative(d);
  }

  /** A minus sign before a digit group negates its value. */
  lemma ParseSignedNegative(d: string)
    requires DigitGroups(d)
    ensures ParseSigned("-" + d) == Some(-(DigitsValue(WithoutUnderscores(d)) as int))
  {
    var t := "-" + d;
    assert t[0] == '-' && t[1..] == d;
  }

  /** Plain digits are a valid digit group, with nothing to remove. */
  lemma DigitsAreGroups(d: string)
    requires d != [] && AllDigits(d)
    ensures DigitGroups(d) && WithoutUnderscores(d) == d
  {
  }

  lemma ParseDigits(d: string)
    requires d != [] && AllDigits(d)
    ensures ParseInt(d) == Some(DigitsValue(d) as int)
  {
  }

  /** Different integers print differently. */
  lemma IntToDecimalInjective(m: int, n: int)
    requires IntToDecimal(m) == IntToDecimal(n)
    ensures m == n
  {
    IntToDecimalRoundTrip(m);
    IntToDecimalRoundTrip(n);
  }
}
