/** Character-level string helpers shared by the Python and JavaScript parts of
    the tracker: whitespace trimming (`str.strip()` / `String.prototype.trim()`),
    ASCII upper-casing (`str.upper()`), prefix and suffix tests, splitting on a
    separator (`str.split(".")`), digit-only integer parsing (`int(...)`) and
    decimal printing (`String(n)`).

    Whitespace is the ASCII part of each language's definition: Python's
    `str.strip()` removes the separators 0x1c..0x1f as well as the blanks
    JavaScript's `trim()` removes, so every trimming function takes the
    language as a parameter. Case folding is ASCII only; the Unicode tables of
    Python and JavaScript are not modelled. */
module Strings {
  import opened Wrappers

  // ---------------------------------------------------------------------------
  // Whitespace
  // ---------------------------------------------------------------------------

  /** Which language's notion of whitespace a trim uses: the Python backend
      strips with `str.strip()`, the interface trims with `String.trim()`. */
  datatype Whitespace = Python | JavaScript

  /** Space, tab, line feed, vertical tab, form feed and carriage return are
      whitespace to both languages; Python's `str.isspace()` also counts the
      file, group, record and unit separators 0x1c..0x1f, which JavaScript's
      `trim()` keeps. */
  predicate IsSpace(c: char, w: Whitespace)
  {
    || c == ' ' || c == '\t' || c == '\n' || c == '\U{0B}' || c == '\U{0C}' || c == '\r'
    || (w == Python && '\U{1C}' <= c <= '\U{1F}')
  }

  /** Every character of `s` is whitespace (the empty string included). */
  predicate IsBlank(s: string, w: Whitespace)
  {
    forall i :: 0 <= i < |s| ==> IsSpace(s[i], w)
  }

  /** How many whitespace characters `s` starts with. */
  function LeadingSpaces(s: string, w: Whitespace): (n: nat)
    ensures n <= |s|
    ensures forall j :: 0 <= j < n ==> IsSpace(s[j], w)
    ensures n == |s| || !IsSpace(s[n], w)
  {
    if |s| > 0 && IsSpace(s[0], w) then
      var n := 1 + LeadingSpaces(s[1..], w);
      assert forall j :: 1 <= j < n ==> s[1..][j - 1] == s[j];
      n
    else 0
  }

  /** How many whitespace characters `s` ends with. */
  function TrailingSpaces(s: string, w: Whitespace): (n: nat)
    ensures n <= |s|
    ensures forall j :: |s| - n <= j < |s| ==> IsSpace(s[j], w)
    ensures n == |s| || !IsSpace(s[|s| - n - 1], w)
  {
    if |s| > 0 && IsSpace(s[|s| - 1], w) then 1 + TrailingSpaces(s[..|s| - 1], w) else 0
  }

  /** The whitespace run at the start of `s` is the only blank prefix that
      ends before a non-space character (or at the end). */
  lemma {:induction false} LeadingSpacesUnique(s: string, n: nat, w: Whitespace)
    requires n <= |s|
    requires forall j :: 0 <= j < n ==> IsSpace(s[j], w)
    requires n == |s| || !IsSpace(s[n], w)
    ensures LeadingSpaces(s, w) == n
  {
  }

  /** The same for the whitespace run at the end of `s`. */
  lemma {:induction false} TrailingSpacesUnique(s: string, n: nat, w: Whitespace)
    requires n <= |s|
    requires forall j :: |s| - n <= j < |s| ==> IsSpace(s[j], w)
    requires n == |s| || !IsSpace(s[|s| - n - 1], w)
    ensures TrailingSpaces(s, w) == n
  {
  }

  /** Python `s.lstrip()`. */
  function TrimStart(s: string, w: Whitespace): string
  {
    s[LeadingSpaces(s, w)..]
  }

  /** Python `s.rstrip()`. */
  function TrimEnd(s: string, w: Whitespace): string
  {
    s[..|s| - TrailingSpaces(s, w)]
  }

  /** `s` neither starts nor ends with whitespace. */
  predicate Trimmed(s: string, w: Whitespace)
  {
    s == [] || (!IsSpace(s[0], w) && !IsSpace(s[|s| - 1], w))
  }

  /** Python `s.strip()` and JavaScript `s.trim()`: `s` without its leading and
      trailing whitespace. */
  function Strip(s: string, w: Whitespace): (r: string)
    ensures |r| <= |s|
    ensures Trimmed(r, w)
  {
    var t := TrimStart(s, w);
    var r := TrimEnd(t, w);
    assert r != [] ==> r[0] == s[LeadingSpaces(s, w)] && r[|r| - 1] == t[|t| - TrailingSpaces(t, w) - 1];
    r
  }

  /** The whitespace run `LeadingSpaces` counts is blank. */
  lemma {:induction false} LeadingRunIsBlank(s: string, w: Whitespace)
    ensures IsBlank(s[..LeadingSpaces(s, w)], w)
  {
    var n := LeadingSpaces(s, w);
    forall j | 0 <= j < n ensures IsSpace(s[..n][j], w) {
      assert s[..n][j] == s[j];
    }
  }

  /** The whitespace run `TrailingSpaces` counts is blank. */
  lemma {:induction false} TrailingRunIsBlank(s: string, w: Whitespace)
    ensures IsBlank(s[|s| - TrailingSpaces(s, w)..], w)
  {
    var n := TrailingSpaces(s, w);
    var suffix := s[|s| - n..];
    forall j | 0 <= j < |suffix| ensures IsSpace(suffix[j], w) {
      assert suffix[j] == s[|s| - n + j];
    }
  }

  /** `Strip` keeps the slice between the leading run and the trailing run of
      what follows it. */
  lemma {:induction false} StripIsSlice(s: string, w: Whitespace)
    ensures var i := LeadingSpaces(s, w);
      var r := Strip(s, w);
      var t := s[i..];
      && i + |r| <= |s| && r == s[i..i + |r|]
      && s[i + |r|..] == t[|t| - TrailingSpaces(t, w)..]
  {
    var i := LeadingSpaces(s, w);
    var t := s[i..];
    var k := TrailingSpaces(t, w);
    assert Strip(s, w) == t[..|t| - k];
  }

  /** What `Strip` keeps is the slice of `s` between a blank prefix and a blank
      suffix. */
  lemma {:induction false} StripCutsBlankEnds(s: string, w: Whitespace)
    ensures var r := Strip(s, w);
      var i := LeadingSpaces(s, w);
      && i + |r| <= |s| && r == s[i..i + |r|]
      && IsBlank(s[..i], w) && IsBlank(s[i + |r|..], w)
  {
    StripIsSlice(s, w);
    LeadingRunIsBlank(s, w);
    TrailingRunIsBlank(s[LeadingSpaces(s, w)..], w);
  }




  lemma {:induction false} BlankConcat(a: string, b: string, w: Whitespace)
    ensures IsBlank(a + b, w) <==> IsBlank(a, w) && IsBlank(b, w)
  {
    if IsBlank(a + b, w) {
      forall k | 0 <= k < |b| ensures IsSpace(b[k], w) { assert (a + b)[|a| + k] == b[k]; }
      forall k | 0 <= k < |a| ensures IsSpace(a[k], w) { assert (a + b)[k] == a[k]; }
    }
  }

  /** A string is all leading whitespace exactly when it is blank. */
  lemma {:induction false} LeadingSpacesOfBlank(s: string, w: Whitespace)
    ensures LeadingSpaces(s, w) == |s| <==> IsBlank(s, w)
  {
  }

  /** A string is all trailing whitespace exactly when it is blank. */
  lemma {:induction false} TrailingSpacesOfBlank(s: string, w: Whitespace)
    ensures TrailingSpaces(s, w) == |s| <==> IsBlank(s, w)
  {
  }

  /** A blank prefix is cut off entirely. */
  lemma {:induction false} TrimStartSkipsBlank(left: string, s: string, w: Whitespace)
    requires IsBlank(left, w)
    ensures TrimStart(left + s, w) == TrimStart(s, w)
  {
    var n := LeadingSpaces(s, w);
    var ls := left + s;
    forall j | 0 <= j < |left| + n ensures IsSpace(ls[j], w) {
      if j >= |left| { assert ls[j] == s[j - |left|]; }
    }
    if n < |s| { assert ls[|left| + n] == s[n]; }
    LeadingSpacesUnique(ls, |left| + n, w);
    assert ls[|left| + n..] == s[n..];
  }

  /** A blank suffix is cut off entirely. */
  lemma {:induction false} TrimEndSkipsBlank(s: string, right: string, w: Whitespace)
    requires IsBlank(right, w)
    ensures TrimEnd(s + right, w) == TrimEnd(s, w)
  {
    var n := TrailingSpaces(s, w);
    var sr := s + right;
    forall j | |sr| - (n + |right|) <= j < |sr| ensures IsSpace(sr[j], w) {
      if j < |s| { assert sr[j] == s[j]; } else { assert sr[j] == right[j - |s|]; }
    }
    if n < |s| { assert sr[|sr| - (n + |right|) - 1] == s[|s| - n - 1]; }
    TrailingSpacesUnique(sr, n + |right|, w);
    assert sr[..|s| - n] == s[..|s| - n];
  }

  /** Text after a non-blank string survives the leading trim. */
  lemma {:induction false} TrimStartBeforeText(s: string, right: string, w: Whitespace)
    requires !IsBlank(s, w)
    ensures TrimStart(s + right, w) == TrimStart(s, w) + right
  {
    var n := LeadingSpaces(s, w);
    var sr := s + right;
    LeadingSpacesOfBlank(s, w);
    forall j | 0 <= j < n ensures IsSpace(sr[j], w) { assert sr[j] == s[j]; }
    assert sr[n] == s[n];
    LeadingSpacesUnique(sr, n, w);
    assert sr[n..] == s[n..] + right;
  }

  /** A string strips to nothing exactly when it is blank, which is the test
      behind "empty or whitespace-only name". */
  lemma {:induction false} StripEmptyIffBlank(s: string, w: Whitespace)
    ensures Strip(s, w) == [] <==> IsBlank(s, w)
  {
    var i := LeadingSpaces(s, w);
    var t := s[i..];
    LeadingSpacesOfBlank(s, w);
    TrailingSpacesOfBlank(t, w);
  }

  /** Stripping is idempotent. */
  lemma {:induction false} StripIdempotent(s: string, w: Whitespace)
    ensures Strip(Strip(s, w), w) == Strip(s, w)
  {
    StripKeepsTrimmed(Strip(s, w), w);
  }

  /** A string that neither starts nor ends with whitespace is its own strip. */
  lemma {:induction false} StripKeepsTrimmed(s: string, w: Whitespace)
    requires Trimmed(s, w)
    ensures Strip(s, w) == s
  {
    if s != [] {
      LeadingSpacesUnique(s, 0, w);
      TrailingSpacesUnique(s, 0, w);
      assert TrimStart(s, w) == s;
      assert TrimEnd(s, w) == s;
    }
  }

  /** Blank padding on either side does not change what `Strip` returns. */
  lemma {:induction false} StripIgnoresPadding(left: string, s: string, right: string, w: Whitespace)
    requires IsBlank(left, w) && IsBlank(right, w)
    ensures Strip(left + s + right, w) == Strip(s, w)
  {
    assert left + s + right == left + (s + right);
    TrimStartSkipsBlank(left, s + right, w);
    if IsBlank(s, w) {
      BlankConcat(s, right, w);
      LeadingSpacesOfBlank(s + right, w);
      LeadingSpacesOfBlank(s, w);
    } else {
      TrimStartBeforeText(s, right, w);
      TrimEndSkipsBlank(TrimStart(s, w), right, w);
    }
  }

  /** Blank text after a trimmed, non-blank text is all that `Strip` cuts. */
  lemma {:induction false} StripCutsTrailingBlank(s: string, right: string, w: Whitespace)
    requires Trimmed(s, w) && IsBlank(right, w)
    ensures Strip(s + right, w) == s
  {
    assert s + right == [] + s + right;
    StripIgnoresPadding([], s, right, w);
    StripKeepsTrimmed(s, w);
  }

  /** Python's `strip()` applied to what JavaScript's `trim()` kept removes
      exactly what it would have removed from the untrimmed text: whatever
      `trim()` cuts is whitespace to Python as well. */
  lemma {:induction false} StripAfterTrim(s: string)
    ensures Strip(Strip(s, JavaScript), Python) == Strip(s, Python)
  {
    StripCutsBlankEnds(s, JavaScript);
    var i := LeadingSpaces(s, JavaScript);
    var r := Strip(s, JavaScript);
    var left, right := s[..i], s[i + |r|..];
    assert s == left + r + right;
    assert IsBlank(left, Python) && IsBlank(right, Python);
    StripIgnoresPadding(left, r, right, Python);
  }

  // ---------------------------------------------------------------------------
  // Case folding
  // ---------------------------------------------------------------------------

  function UpperChar(c: char): char
  {
    if 'a' <= c <= 'z' then (c as int - 32) as char else c
  }

  /** Python `s.upper()` on ASCII letters. */
  function Upper(s: string): (r: string)
    ensures |r| == |s|
    ensures forall i :: 0 <= i < |s| ==> r[i] == UpperChar(s[i])
    ensures forall i :: 0 <= i < |r| ==> !('a' <= r[i] <= 'z')
  {
    seq(|s|, i requires 0 <= i < |s| => UpperChar(s[i]))
  }

  /** Upper-casing twice is upper-casing once. */
  lemma {:induction false} UpperIdempotent(s: string)
    ensures Upper(Upper(s)) == Upper(s)
  {
  }

  // ---------------------------------------------------------------------------
  // Prefixes, suffixes, leading characters
  // ---------------------------------------------------------------------------

  predicate StartsWith(s: string, prefix: string)
  {
    |prefix| <= |s| && s[..|prefix|] == prefix
  }

  predicate EndsWith(s: string, suffix: string)
  {
    |suffix| <= |s| && s[|s| - |suffix|..] == suffix
  }

  /** Python `s.lstrip(c)` for a single character `c`: drops every leading `c`. */
  function LStrip(s: string, c: char): (r: string)
    ensures |r| <= |s| && r == s[|s| - |r|..]
    ensures forall i :: 0 <= i < |s| - |r| ==> s[i] == c
    ensures r == [] || r[0] != c
  {
    if |s| > 0 && s[0] == c then LStrip(s[1..], c) else s
  }

  // ---------------------------------------------------------------------------
  // Splitting and joining
  // ---------------------------------------------------------------------------

  /** The pieces joined back together with `sep` between consecutive pieces. */
  function Join(parts: seq<string>, sep: char): string
  {
    if |parts| == 0 then ""
    else if |parts| == 1 then parts[0]
    else parts[0] + [sep] + Join(parts[1..], sep)
  }

  /** Python `s.split(sep)` for a one-character separator: always at least one
      piece, no piece contains the separator, and joining the pieces with the
      separator gives back `s`. */
  function Split(s: string, sep: char): (r: seq<string>)
    ensures |r| >= 1
    ensures forall i :: 0 <= i < |r| ==> sep !in r[i]
    ensures Join(r, sep) == s
  {
    if |s| == 0 then [""]
    else
      var rest := Split(s[1..], sep);
      if s[0] == sep then
        assert [sep] + Join(rest, sep) == s;
        [""] + rest
      else
        var r := [[s[0]] + rest[0]] + rest[1..];
        assert r[1..] == rest[1..];
        JoinHead(rest, [s[0]], sep);
        assert s == [s[0]] + s[1..];
        r
  }

  lemma {:induction false} JoinHead(parts: seq<string>, head: string, sep: char)
    requires |parts| >= 1
    ensures Join([head + parts[0]] + parts[1..], sep) == head + Join(parts, sep)
  {
    var p := [head + parts[0]] + parts[1..];
    if |parts| > 1 {
      assert p[1..] == parts[1..];
    }
  }

  /** Splitting is the inverse of joining pieces that do not contain the separator. */
  lemma {:induction false} SplitJoin(parts: seq<string>, sep: char)
    requires |parts| >= 1
    requires forall i :: 0 <= i < |parts| ==> sep !in parts[i]
    ensures Split(Join(parts, sep), sep) == parts
    decreases |parts|, |parts[0]|
  {
    if |parts[0]| == 0 {
      if |parts| == 1 {
      } else {
        var rest := parts[1..];
        assert Join(parts, sep) == [sep] + Join(rest, sep);
        SplitJoin(rest, sep);
        assert Join(parts, sep)[1..] == Join(rest, sep);
        assert parts == [""] + rest;
      }
    } else {
      var c := parts[0][0];
      var shorter := [parts[0][1..]] + parts[1..];
      assert shorter[1..] == parts[1..];
      forall i | 0 <= i < |shorter| ensures sep !in shorter[i] {
        if i == 0 {
          assert forall x :: x in parts[0][1..] ==> x in parts[0];
        } else {
          assert shorter[i] == parts[i];
        }
      }
      SplitJoin(shorter, sep);
      assert parts[0] == [c] + parts[0][1..];
      JoinHead(shorter, [c], sep);
      assert [[c] + shorter[0]] + shorter[1..] == parts;
      var j := Join(parts, sep);
      assert j == [c] + Join(shorter, sep);
      assert j[1..] == Join(shorter, sep);
      assert c != sep by { assert c in parts[0]; }
    }
  }

  // ---------------------------------------------------------------------------
  // Decimal digits
  // ---------------------------------------------------------------------------

  predicate IsDigit(c: char)
  {
    '0' <= c <= '9'
  }

  function DigitValue(c: char): nat
    requires IsDigit(c)
  {
    c as int - '0' as int
  }

  function DigitChar(d: nat): (c: char)
    requires d < 10
    ensures IsDigit(c) && DigitValue(c) == d
  {
    ('0' as int + d) as char
  }

  predicate AllDigits(s: string)
  {
    forall i :: 0 <= i < |s| ==> IsDigit(s[i])
  }

  /** The number a string of decimal digits denotes, most significant first. */
  function DigitsValue(s: string): nat
    requires AllDigits(s)
  {
    if |s| == 0 then 0 else 10 * DigitsValue(s[..|s| - 1]) + DigitValue(s[|s| - 1])
  }

  /** Python `int(s)` restricted to plain decimal digits: `None` (the
      `ValueError`) for the empty string or any non-digit character. */
  function ParseNat(s: string): (r: Option<nat>)
    ensures r.Some? <==> |s| > 0 && AllDigits(s)
  {
    if |s| > 0 && AllDigits(s) then Some(DigitsValue(s)) else None
  }

  /** JavaScript `String(n)` for a non-negative integer: its decimal digits,
      without leading zeros. */
  function NatToString(n: nat): (r: string)
    ensures |r| > 0 && AllDigits(r)
    ensures |r| > 1 ==> r[0] != '0'
  {
    if n < 10 then [DigitChar(n)] else NatToString(n / 10) + [DigitChar(n % 10)]
  }

  /** Printing and parsing are inverse: `int(String(n)) == n`. */
  lemma {:induction false} ParsePrinted(n: nat)
    ensures ParseNat(NatToString(n)) == Some(n)
  {
    DigitsOfPrinted(n);
  }

  lemma {:induction false} DigitsOfPrinted(n: nat)
    ensures DigitsValue(NatToString(n)) == n
  {
    var s := NatToString(n);
    if n >= 10 {
      DigitsOfPrinted(n / 10);
      assert s[..|s| - 1] == NatToString(n / 10);
    } else {
      assert s[..0] == [];
    }
  }

  /** Printing is injective, so two numbers print alike only when equal. */
  lemma {:induction false} PrintedInjective(m: nat, n: nat)
    ensures NatToString(m) == NatToString(n) <==> m == n
  {
    if NatToString(m) == NatToString(n) {
      ParsePrinted(m);
      ParsePrinted(n);
    }
  }

  /** JavaScript `String(i)` for any integer. */
  function IntToString(i: int): (r: string)
    ensures |r| > 0
    ensures i >= 0 ==> AllDigits(r)
    ensures i < 0 <==> r[0] == '-'
  {
    if i < 0 then "-" + NatToString(-i) else NatToString(i)
  }

  /** Distinct integers print differently. */
  lemma {:induction false} IntToStringInjective(a: int, b: int)
    ensures IntToString(a) == IntToString(b) <==> a == b
  {
    if IntToString(a) == IntToString(b) {
      if a < 0 && b < 0 {
        assert IntToString(a)[1..] == NatToString(-a);
        assert IntToString(b)[1..] == NatToString(-b);
        PrintedInjective(-a, -b);
      } else if a >= 0 && b >= 0 {
        PrintedInjective(a, b);
      }
    }
  }
}
