/**
 * The .NET string operations the service relies on, written out so that
 * their behaviour can be reasoned about: Char.IsWhiteSpace, String.Trim,
 * String.StartsWith(..., OrdinalIgnoreCase), String.Split(char), the
 * decimal rendering of an int inside an interpolated string, and
 * String.Length.
 */
module Text {

  // ---------------------------------------------------------------------
  // String.Length
  // ---------------------------------------------------------------------

  /** The number of UTF-16 code units of `s`, which is what String.Length
      and the MinLength/MaxLength attributes count: a character outside the
      Basic Multilingual Plane is a surrogate pair and counts twice. */
  function Utf16Length(s: string): (n: nat)
    ensures |s| <= n <= 2 * |s|
    ensures n == |s| <==> forall i :: 0 <= i < |s| ==> (s[i] as int) < 0x1_0000
    ensures |s| == 1 ==> n == if (s[0] as int) < 0x1_0000 then 1 else 2
  {
    if s == [] then 0
    else (if (s[0] as int) < 0x1_0000 then 1 else 2) + Utf16Length(s[1..])
  }

  /** The length of a concatenation is the sum of the lengths; with the
      one-character values above this fixes the count of every string. */
  lemma {:induction false} Utf16LengthAppend(a: string, b: string)
    ensures Utf16Length(a + b) == Utf16Length(a) + Utf16Length(b)
  {
    if a != [] {
      assert (a + b)[1..] == a[1..] + b;
      Utf16LengthAppend(a[1..], b);
    } else {
      assert a + b == b;
    }
  }

  /** One emoji is one Dafny character but two UTF-16 code units. */
  lemma SurrogatePairCountsTwice()
    ensures |"\U{1F600}"| == 1 && Utf16Length("\U{1F600}") == 2
    ensures |"ab"| == Utf16Length("ab") == 2
    ensures Utf16Length("a\U{1F600}") == 3
  {
    assert "\U{1F600}"[1..] == [];
    assert "ab"[1..] == "b" && "b"[1..] == [];
    assert "a\U{1F600}"[1..] == "\U{1F600}";
  }

  // ---------------------------------------------------------------------
  // White space and String.Trim()
  // ---------------------------------------------------------------------

  /** The characters Char.IsWhiteSpace accepts: U+0009..U+000D, U+0085 and
      the Unicode space, line and paragraph separators. */
  predicate IsWhiteSpace(c: char) {
    || ('\t' <= c <= '\r')
    || c == ' ' || c == '\U{0085}' || c == '\U{00A0}' || c == '\U{1680}'
    || ('\U{2000}' <= c <= '\U{200A}')
    || c == '\U{2028}' || c == '\U{2029}'
    || c == '\U{202F}' || c == '\U{205F}' || c == '\U{3000}'
  }

  /** True of the empty string and of a string made only of white space
      (String.IsNullOrWhiteSpace for a non-null string). */
  predicate IsBlank(s: string) {
    forall i :: 0 <= i < |s| ==> IsWhiteSpace(s[i])
  }

  /** Drops the leading white space: what is left is a suffix of `s`. */
  function TrimStart(s: string): (r: string)
    ensures |r| <= |s| && r == s[|s| - |r|..]
    ensures forall i :: 0 <= i < |s| - |r| ==> IsWhiteSpace(s[i])
    ensures r == [] || !IsWhiteSpace(r[0])
  {
    if |s| > 0 && IsWhiteSpace(s[0]) then TrimStart(s[1..]) else s
  }

  /** Drops the trailing white space: what is left is a prefix of `s`. */
  function TrimEnd(s: string): (r: string)
    ensures |r| <= |s| && r == s[..|r|]
    ensures forall i :: |r| <= i < |s| ==> IsWhiteSpace(s[i])
    ensures r == [] || !IsWhiteSpace(r[|r| - 1])
  {
    if |s| > 0 && IsWhiteSpace(s[|s| - 1]) then TrimEnd(s[..|s| - 1]) else s
  }

  /** String.Trim(): the middle slice of `s` left once the white space at
      both ends is dropped. */
  function Trim(s: string): (r: string)
    ensures |r| <= |s|
    ensures exists i, j :: 0 <= i <= j <= |s| && r == s[i..j]
              && forall k :: 0 <= k < i || j <= k < |s| ==> IsWhiteSpace(s[k])
    ensures r == [] || (!IsWhiteSpace(r[0]) && !IsWhiteSpace(r[|r| - 1]))
    ensures r == [] <==> IsBlank(s)
  {
    var t := TrimStart(s);
    assert t != [] ==> TrimEnd(t) != [];
    var r := TrimEnd(t);
    TrimIsSlice(s, t, r);
    r
  }

  /** Dropping white space at the start and then at the end leaves a
      slice of `s` with only white space around it. */
  lemma TrimIsSlice(s: string, t: string, r: string)
    requires |t| <= |s| && t == s[|s| - |t|..]
    requires forall k :: 0 <= k < |s| - |t| ==> IsWhiteSpace(s[k])
    requires |r| <= |t| && r == t[..|r|]
    requires forall k :: |r| <= k < |t| ==> IsWhiteSpace(t[k])
    ensures exists i, j :: 0 <= i <= j <= |s| && r == s[i..j]
              && forall k :: 0 <= k < i || j <= k < |s| ==> IsWhiteSpace(s[k])
  {
    var i := |s| - |t|;
    var j := i + |r|;
    assert r == s[i..j];
    forall k | j <= k < |s|
      ensures IsWhiteSpace(s[k])
    {
      assert s[k] == t[k - i] && |r| <= k - i < |t|;
    }
    assert forall k :: 0 <= k < i || j <= k < |s| ==> IsWhiteSpace(s[k]);
  }

  /** A string without white space at its ends is left as it is. */
  lemma TrimUnpadded(s: string)
    requires s == [] || (!IsWhiteSpace(s[0]) && !IsWhiteSpace(s[|s| - 1]))
    ensures Trim(s) == s
  {
  }

  /** Trimming twice trims no more than trimming once. */
  lemma TrimIdempotent(s: string)
    ensures Trim(Trim(s)) == Trim(s)
  {
    TrimUnpadded(Trim(s));
  }

  // ---------------------------------------------------------------------
  // String.StartsWith(prefix, StringComparison.OrdinalIgnoreCase)
  // ---------------------------------------------------------------------

  /** Upper-case folding of the ASCII letters; other characters are kept. */
  function ToUpperAscii(c: char): char {
    if 'a' <= c <= 'z' then (c as int - 32) as char else c
  }

  /** An exact prefix always matches; a match needs `s` at least as long
      as the prefix. */
  predicate StartsWithIgnoreCase(s: string, prefix: string)
    ensures |prefix| <= |s| && s[..|prefix|] == prefix ==> StartsWithIgnoreCase(s, prefix)
    ensures StartsWithIgnoreCase(s, prefix) ==> |prefix| <= |s|
  {
    && |prefix| <= |s|
    && forall i :: 0 <= i < |prefix| ==> ToUpperAscii(s[i]) == ToUpperAscii(prefix[i])
  }

  /** The test ignores letter case on both sides: two texts that differ only
      in the case of ASCII letters match the same prefixes, and a prefix
      matches whatever the case of its own letters. */
  lemma StartsWithIgnoresCase(s: string, t: string, prefix: string, other: string)
    requires |s| == |t| && forall i :: 0 <= i < |s| ==> ToUpperAscii(s[i]) == ToUpperAscii(t[i])
    requires |prefix| == |other| && forall i :: 0 <= i < |prefix| ==> ToUpperAscii(prefix[i]) == ToUpperAscii(other[i])
    ensures StartsWithIgnoreCase(s, prefix) <==> StartsWithIgnoreCase(t, other)
  {
  }

  // ---------------------------------------------------------------------
  // String.Split(char) and its inverse String.Join(char, parts)
  // ---------------------------------------------------------------------

  /** Number of occurrences of `c` in `s`. */
  function Count(s: string, c: char): nat {
    if s == [] then 0 else (if s[0] == c then 1 else 0) + Count(s[1..], c)
  }

  function Join(parts: seq<string>, sep: char): string {
    if |parts| == 0 then ""
    else if |parts| == 1 then parts[0]
    else parts[0] + [sep] + Join(parts[1..], sep)
  }

  /** String.Split(sep): every separator cuts, empty parts are kept, so
      there is always one part more than there are separators, no part
      holds a separator, and joining the parts gives `s` back. */
  function Split(s: string, sep: char): (parts: seq<string>)
    ensures |parts| == Count(s, sep) + 1
    ensures forall i :: 0 <= i < |parts| ==> sep !in parts[i]
    ensures Join(parts, sep) == s
  {
    if s == [] then [""]
    else
      var rest := Split(s[1..], sep);
      if s[0] == sep then
        assert ([""] + rest)[1..] == rest;
        [""] + rest
      else
        var parts := [[s[0]] + rest[0]] + rest[1..];
        assert |rest| >= 2 ==> Join(rest, sep) == rest[0] + [sep] + Join(rest[1..], sep);
        assert |rest| >= 2 ==> parts[1..] == rest[1..];
        assert [s[0]] + s[1..] == s;
        parts
  }

  lemma JoinPair(a: string, b: string, sep: char)
    ensures Join([a, b], sep) == a + [sep] + b
  {
    assert [a, b][1..] == [b];
  }

  lemma {:induction false} CountAppend(a: string, b: string, c: char)
    ensures Count(a + b, c) == Count(a, c) + Count(b, c)
  {
    if a != [] {
      assert (a + b)[1..] == a[1..] + b;
      CountAppend(a[1..], b, c);
    } else {
      assert a + b == b;
    }
  }

  lemma {:induction false} CountPositive(s: string, c: char)
    requires c in s
    ensures Count(s, c) >= 1
  {
    if s[0] != c {
      CountPositive(s[1..], c);
    }
  }

  /** A string without the separator is a single part. */
  lemma {:induction false} SplitWithoutSeparator(s: string, sep: char)
    requires sep !in s
    ensures Split(s, sep) == [s]
  {
    if s != [] {
      SplitWithoutSeparator(s[1..], sep);
      assert [s[0]] + s[1..] == s;
    }
  }

  /** Splitting `a + sep + b` gives exactly `a` and `b` when neither holds
      the separator. */
  lemma {:induction false} SplitPair(a: string, b: string, sep: char)
    requires sep !in a && sep !in b
    ensures Split(a + [sep] + b, sep) == [a, b]
  {
    var s := a + [sep] + b;
    if a == [] {
      assert s[1..] == b;
      SplitWithoutSeparator(b, sep);
    } else {
      assert s[1..] == a[1..] + [sep] + b;
      SplitPair(a[1..], b, sep);
      assert [a[0]] + a[1..] == a;
    }
  }

  /** Splitting `a + sep + b` gives three or more parts when `b` holds the
      separator. */
  lemma SplitManyParts(a: string, b: string, sep: char)
    requires sep in b
    ensures |Split(a + [sep] + b, sep)| >= 3
  {
    CountAppend(a, [sep], sep);
    CountAppend(a + [sep], b, sep);
    CountPositive(b, sep);
  }

  // ---------------------------------------------------------------------
  // Decimal rendering of an int ("{id}" in an interpolated string)
  // ---------------------------------------------------------------------

  predicate IsDigits(s: string) {
    forall i :: 0 <= i < |s| ==> '0' <= s[i] <= '9'
  }

  function DigitChar(d: nat): (c: char)
    requires d < 10
    ensures '0' <= c <= '9' && c as int - '0' as int == d
  {
    ('0' as int + d) as char
  }

  function DigitValue(c: char): nat
    requires '0' <= c <= '9'
  {
    c as int - '0' as int
  }

  /** Decimal digits of `n`, most significant first, without leading zeros. */
  function NatToString(n: nat): (s: string)
    ensures |s| >= 1 && IsDigits(s)
    ensures s[0] == '0' ==> n == 0
  {
    if n < 10 then [DigitChar(n)] else NatToString(n / 10) + [DigitChar(n % 10)]
  }

  /** Reads a string of decimal digits back as a number. */
  function ParseNat(s: string): nat
    requires IsDigits(s)
  {
    if s == [] then 0 else 10 * ParseNat(s[..|s| - 1]) + DigitValue(s[|s| - 1])
  }

  lemma {:induction false} ParseNatToString(n: nat)
    ensures ParseNat(NatToString(n)) == n
  {
    if n >= 10 {
      var s := NatToString(n / 10);
      ParseNatToString(n / 10);
      assert (s + [DigitChar(n % 10)])[..|s|] == s;
    }
  }

  /** An int inside an interpolated string, in a culture whose negative
      sign is '-': the digits, preceded by '-' for a negative number. */
  function IntToString(i: int): (s: string)
    ensures i >= 0 ==> |s| >= 1 && IsDigits(s) && (s[0] == '0' ==> i == 0)
    ensures i < 0 ==> |s| >= 2 && s[0] == '-' && IsDigits(s[1..]) && s[1] != '0'
  {
    if i < 0 then "-" + NatToString(-i) else NatToString(i)
  }

  /** The rendering starts with '-' exactly for negative numbers. */
  lemma SignOfRendering(i: int)
    ensures IntToString(i)[0] == '-' <==> i < 0
  {
  }

  /** Distinct naturals are rendered as distinct digit strings. */
  lemma NatToStringInjective(m: nat, n: nat)
    requires NatToString(m) == NatToString(n)
    ensures m == n
  {
    ParseNatToString(m);
    ParseNatToString(n);
  }

  /** Distinct numbers are rendered as distinct strings. */
  lemma IntToStringInjective(a: int, b: int)
    requires IntToString(a) == IntToString(b)
    ensures a == b
  {
    SignOfRendering(a);
    SignOfRendering(b);
    if a < 0 {
      assert b < 0;
      var s := IntToString(a);
      assert s == "-" + NatToString(-a) && s == "-" + NatToString(-b);
      assert s[1..] == NatToString(-a) && s[1..] == NatToString(-b);
      NatToStringInjective(-a, -b);
    } else {
      assert b >= 0;
      NatToStringInjective(a, b);
    }
  }
}
