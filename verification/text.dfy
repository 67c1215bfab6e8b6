/** The parts of .NET `System.String`, `Char` and integer parsing/formatting
    that the modelled code calls: trimming, splitting on one character,
    character replacement, prefix/suffix tests, decimal rendering of
    integers and `int.Parse` / `Convert.ToByte`. */
module Text {
  import opened Wrappers
  import Int32

  // ---------------------------------------------------------------------
  // Character classes

  /** `Char.IsWhiteSpace`: the Unicode space separators, the line and
      paragraph separators, U+0009..U+000D and U+0085. */
  predicate IsWhiteSpace(c: char) {
    || c == ' ' || ('\t' <= c <= '\r') || c == '\U{85}' || c == '\U{A0}'
    || c == '\U{1680}' || ('\U{2000}' <= c <= '\U{200A}') || c == '\U{2028}'
    || c == '\U{2029}' || c == '\U{202F}' || c == '\U{205F}' || c == '\U{3000}'
  }

  /** The white space `NumberStyles.AllowLeadingWhite/AllowTrailingWhite` accept. */
  predicate IsNumberWhite(c: char) {
    c == ' ' || ('\t' <= c <= '\r')
  }

  predicate IsDigit(c: char) {
    '0' <= c <= '9'
  }

  predicate AllDigits(s: string) {
    forall i :: 0 <= i < |s| ==> IsDigit(s[i])
  }

  // ---------------------------------------------------------------------
  // Trimming

  function TrimStartWhere(s: string, drop: char -> bool): (r: string)
    ensures |r| <= |s| && r == s[|s| - |r|..]
    ensures |r| > 0 ==> !drop(r[0])
  {
    if |s| > 0 && drop(s[0]) then TrimStartWhere(s[1..], drop) else s
  }

  function TrimEndWhere(s: string, drop: char -> bool): (r: string)
    ensures |r| <= |s| && r == s[..|r|]
    ensures |r| > 0 ==> !drop(r[|r| - 1])
  {
    if |s| > 0 && drop(s[|s| - 1]) then TrimEndWhere(s[..|s| - 1], drop) else s
  }

  function TrimWhere(s: string, drop: char -> bool): string {
    TrimEndWhere(TrimStartWhere(s, drop), drop)
  }

  /** `String.Trim()`. */
  function Trim(s: string): string {
    TrimWhere(s, IsWhiteSpace)
  }

  /** `String.Trim(params char[])`. */
  function TrimChars(s: string, chars: set<char>): string {
    TrimWhere(s, c => c in chars)
  }

  lemma TrimWhereKeepsClean(s: string, drop: char -> bool)
    requires forall i :: 0 <= i < |s| ==> !drop(s[i])
    ensures TrimWhere(s, drop) == s
  {
  }

  /** Trimming stops at once when neither end is to be dropped. */
  lemma TrimWhereKeepsEnds(s: string, drop: char -> bool)
    requires |s| > 0 && !drop(s[0]) && !drop(s[|s| - 1])
    ensures TrimWhere(s, drop) == s
  {
  }

  lemma TrimCharsKeepsEnds(s: string, chars: set<char>)
    requires |s| > 0 && s[0] !in chars && s[|s| - 1] !in chars
    ensures TrimChars(s, chars) == s
  {
    TrimWhereKeepsEnds(s, c => c in chars);
  }

  // ---------------------------------------------------------------------
  // Splitting on a single character

  /** `String.Split(char)`: the maximal pieces between occurrences of `sep`,
      empty pieces included; there is always one more piece than separators. */
  function Split(s: string, sep: char): (parts: seq<string>)
    ensures |parts| >= 1
    ensures forall i :: 0 <= i < |parts| ==> sep !in parts[i]
    decreases |s|
  {
    if |s| == 0 then [""]
    else
      var rest := Split(s[1..], sep);
      if s[0] == sep then [""] + rest
      else [[s[0]] + rest[0]] + rest[1..]
  }

  /** `String.Join(char, parts)`: the inverse of `Split`. */
  function Join(parts: seq<string>, sep: char): string
    decreases |parts|
  {
    if |parts| == 0 then ""
    else if |parts| == 1 then parts[0]
    else parts[0] + [sep] + Join(parts[1..], sep)
  }

  /** Splitting loses nothing: joining the pieces back gives the input. */
  lemma {:induction false} JoinSplit(s: string, sep: char)
    ensures Join(Split(s, sep), sep) == s
    decreases |s|
  {
    if |s| > 0 {
      var rest := Split(s[1..], sep);
      JoinSplit(s[1..], sep);
      assert s == [s[0]] + s[1..];
      if s[0] != sep {
        if |rest| > 1 {
          assert rest == [rest[0]] + rest[1..];
          assert Join(rest, sep) == rest[0] + [sep] + Join(rest[1..], sep);
        }
      }
    }
  }

  /** A string splits into exactly one piece iff it does not contain the
      separator. */
  lemma {:induction false} SplitSingleton(s: string, sep: char)
    ensures |Split(s, sep)| == 1 <==> sep !in s
    ensures sep !in s ==> Split(s, sep) == [s]
    decreases |s|
  {
    if |s| > 0 {
      SplitSingleton(s[1..], sep);
      assert s == [s[0]] + s[1..];
    }
  }

  /** A piece free of the separator, then the separator: the piece comes
      out first and splitting goes on after the separator. */
  lemma {:induction false} SplitAfterPiece(a: string, sep: char, rest: string)
    requires sep !in a
    ensures Split(a + [sep] + rest, sep) == [a] + Split(rest, sep)
    decreases |a|
  {
    if |a| == 0 {
      assert a + [sep] + rest == [sep] + rest;
    } else {
      SplitAfterPiece(a[1..], sep, rest);
      var whole := a + [sep] + rest;
      assert whole[1..] == a[1..] + [sep] + rest;
      assert whole[0] == a[0] && a[0] != sep;
      var r := Split(whole[1..], sep);
      assert r == [a[1..]] + Split(rest, sep);
      assert [whole[0]] + r[0] == a;
      assert r[1..] == Split(rest, sep);
    }
  }

  /** Joining separator-free pieces and splitting again gives the pieces. */
  lemma {:induction false} SplitJoin(parts: seq<string>, sep: char)
    requires |parts| >= 1
    requires forall i :: 0 <= i < |parts| ==> sep !in parts[i]
    ensures Split(Join(parts, sep), sep) == parts
    decreases |parts|
  {
    if |parts| == 1 {
      SplitSingleton(parts[0], sep);
    } else {
      SplitJoin(parts[1..], sep);
      SplitAfterPiece(parts[0], sep, Join(parts[1..], sep));
      assert parts == [parts[0]] + parts[1..];
    }
  }

  // ---------------------------------------------------------------------
  // Other string helpers

  /** `String.Replace(char, char)`. */
  function Replace(s: string, from: char, to: char): (r: string)
    ensures |r| == |s|
    ensures forall i :: 0 <= i < |s| ==> r[i] == (if s[i] == from then to else s[i])
  {
    seq(|s|, i requires 0 <= i < |s| => if s[i] == from then to else s[i])
  }

  predicate StartsWith(s: string, prefix: string) {
    |prefix| <= |s| && s[..|prefix|] == prefix
  }

  predicate EndsWith(s: string, suffix: string) {
    |suffix| <= |s| && s[|s| - |suffix|..] == suffix
  }

  // ---------------------------------------------------------------------
  // Decimal rendering and parsing of integers

  function DigitChar(d: int): (c: char)
    requires 0 <= d < 10
    ensures IsDigit(c)
  {
    ('0' as int + d) as char
  }

  function DigitValue(c: char): (d: nat)
    requires IsDigit(c)
    ensures d < 10
  {
    c as int - '0' as int
  }

  /** Shortest decimal rendering of a natural number. */
  function NatToString(n: nat): (s: string)
    ensures |s| >= 1 && AllDigits(s)
  {
    if n < 10 then [DigitChar(n)] else NatToString(n / 10) + [DigitChar(n % 10)]
  }

  /** `int.ToString()` under the invariant culture: a '-' sign for negatives. */
  function IntToString(i: int): (s: string)
    ensures |s| >= 1
  {
    if i < 0 then "-" + NatToString(-i) else NatToString(i)
  }

  /** The value of a string of decimal digits, most significant first. */
  function DigitsValue(s: string): nat
    requires AllDigits(s)
  {
    if |s| == 0 then 0 else DigitsValue(s[..|s| - 1]) * 10 + DigitValue(s[|s| - 1])
  }

  lemma {:induction false} DigitsValueOfNatToString(n: nat)
    ensures DigitsValue(NatToString(n)) == n
  {
    if n >= 10 {
      DigitsValueOfNatToString(n / 10);
      var s := NatToString(n);
      assert s[..|s| - 1] == NatToString(n / 10);
    }
  }

  /** Leading zeros do not change the value. */
  lemma {:induction false} DigitsValueLeadingZero(s: string)
    requires AllDigits(s)
    ensures AllDigits("0" + s) && DigitsValue("0" + s) == DigitsValue(s)
    decreases |s|
  {
    var z := "0" + s;
    assert AllDigits(z) by {
      forall i | 0 <= i < |z| ensures IsDigit(z[i]) {
        if i > 0 {
          assert z[i] == s[i - 1];
        }
      }
    }
    if |s| > 0 {
      DigitsValueLeadingZero(s[..|s| - 1]);
      assert z[..|z| - 1] == "0" + s[..|s| - 1];
    }
  }

  /** Two naturals render the same iff they are equal. */
  lemma NatToStringInjective(a: nat, b: nat)
    ensures NatToString(a) == NatToString(b) <==> a == b
  {
    if NatToString(a) == NatToString(b) {
      DigitsValueOfNatToString(a);
      DigitsValueOfNatToString(b);
    }
  }

  /** The integer `int.Parse` reads with `NumberStyles.Integer`: optional
      surrounding white space, an optional leading '+' or '-', then one or more
      decimal digits. `None` stands for a `FormatException`. */
  function ParseInteger(s: string): Option<int> {
    ParseSignedDigits(TrimWhere(s, IsNumberWhite))
  }

  function ParseSignedDigits(t: string): Option<int> {
    if |t| == 0 then None
    else
      var negative := t[0] == '-';
      var digits := if t[0] == '-' || t[0] == '+' then t[1..] else t;
      if |digits| == 0 || !AllDigits(digits) then None
      else
        var v: int := DigitsValue(digits);
        Some(if negative then -v else v)
  }

  /** `int.Parse(s)`: a format error, or an overflow outside the 32-bit range. */
  function ParseInt32(s: string): (r: Result<int>)
    ensures r.Success? ==> Int32.InRange(r.value)
    ensures r.Success? <==> ParseInteger(s).Some? && Int32.InRange(ParseInteger(s).value)
  {
    match ParseInteger(s)
    case None => Failure("FormatException: input string was not in a correct format")
    case Some(v) =>
      if Int32.InRange(v) then Success(v)
      else Failure("OverflowException: value was either too large or too small for an Int32")
  }

  /** `Convert.ToByte(string)`: as `ParseInt32` with the range 0..255. */
  function ParseByte(s: string): (r: Result<int>)
    ensures r.Success? ==> 0 <= r.value <= 255
    ensures r.Success? <==> ParseInteger(s).Some? && 0 <= ParseInteger(s).value <= 255
  {
    match ParseInteger(s)
    case None => Failure("FormatException: input string was not in a correct format")
    case Some(v) =>
      if 0 <= v <= 255 then Success(v)
      else Failure("OverflowException: value was either too large or too small for an unsigned byte")
  }

  /** Rendering an `int` and parsing it back gives the same `int`. */
  lemma ParseInt32OfIntToString(x: int)
    requires Int32.InRange(x)
    ensures ParseInt32(IntToString(x)) == Success(x)
  {
    var d := NatToString(if x < 0 then -x else x);
    DigitsValueOfNatToString(if x < 0 then -x else x);
    if x < 0 {
      assert IntToString(x) == "-" + d;
      ParseIntegerOfNegative(d);
    } else {
      assert IntToString(x) == d;
      ParseIntegerOfDigits(d);
    }
    assert ParseInteger(IntToString(x)) == Some(x);
  }

  lemma ParseIntegerOfDigits(d: string)
    requires |d| > 0 && AllDigits(d)
    ensures ParseInteger(d) == Some(DigitsValue(d))
  {
    ParseSignedDigitsOfDigits(d);
    TrimDigits(d);
  }

  lemma ParseSignedDigitsOfDigits(d: string)
    requires |d| > 0 && AllDigits(d)
    ensures ParseSignedDigits(d) == Some(DigitsValue(d))
  {
    assert IsDigit(d[0]);
  }

  lemma TrimDigits(d: string)
    requires AllDigits(d)
    ensures TrimWhere(d, IsNumberWhite) == d
  {
    assert forall i :: 0 <= i < |d| ==> !IsNumberWhite(d[i]);
    TrimWhereKeepsClean(d, IsNumberWhite);
  }

  lemma ParseIntegerOfNegative(d: string)
    requires |d| > 0 && AllDigits(d)
    ensures ParseInteger("-" + d) == Some(-(DigitsValue(d) as int))
  {
    TrimNegative(d);
    ParseSignedDigitsOfNegative(d);
  }

  lemma TrimNegative(d: string)
    requires AllDigits(d)
    ensures TrimWhere("-" + d, IsNumberWhite) == "-" + d
  {
    var s := "-" + d;
    forall i | 0 <= i < |s| ensures !IsNumberWhite(s[i]) {
      if i > 0 {
        assert s[i] == d[i - 1];
      }
    }
    TrimWhereKeepsClean(s, IsNumberWhite);
  }

  lemma ParseSignedDigitsOfNegative(d: string)
    requires |d| > 0 && AllDigits(d)
    ensures ParseSignedDigits("-" + d) == Some(-(DigitsValue(d) as int))
  {
    var s := "-" + d;
    assert s[0] == '-';
    assert s[1..] == d;
  }
}
