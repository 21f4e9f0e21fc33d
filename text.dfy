/**
 * The Python string operations the OSC library relies on: `str.strip()`,
 * `str.split(sep)`, `str.replace(old, new)`, `str.lower()` and the decimal
 * conversions behind `int(...)`, `float(...)` and `str(...)` of numbers.
 */
module Text {
  import opened Wrappers

  // ---------------------------------------------------------------------
  // Whitespace and strip()
  // ---------------------------------------------------------------------

  /** The characters for which Python's `str.isspace()` holds. */
  predicate IsSpace(c: char) {
    || ('\t' <= c <= '\r')
    || ('\U{1c}' <= c <= ' ')
    || c == '\U{85}' || c == '\U{a0}' || c == '\U{1680}'
    || ('\U{2000}' <= c <= '\U{200a}')
    || c == '\U{2028}' || c == '\U{2029}' || c == '\U{202f}' || c == '\U{205f}' || c == '\U{3000}'
  }

  ghost predicate AllSpace(s: string) {
    forall i :: 0 <= i < |s| ==> IsSpace(s[i])
  }

  /** `s.lstrip()`: the longest suffix of `s` that does not start with whitespace. */
  function TrimLeft(s: string): string {
    if |s| > 0 && IsSpace(s[0]) then TrimLeft(s[1..]) else s
  }

  /** `s.rstrip()`: the longest prefix of `s` that does not end with whitespace. */
  function TrimRight(s: string): string {
    if |s| > 0 && IsSpace(s[|s| - 1]) then TrimRight(s[..|s| - 1]) else s
  }

  /** `s.strip()`. */
  function Strip(s: string): string {
    TrimRight(TrimLeft(s))
  }

  /** lstrip removes a whitespace prefix and leaves no whitespace in front. */
  lemma {:induction false} TrimLeftRemovesPrefix(s: string)
    ensures |TrimLeft(s)| <= |s| && TrimLeft(s) == s[|s| - |TrimLeft(s)|..]
    ensures AllSpace(s[..|s| - |TrimLeft(s)|])
    ensures |TrimLeft(s)| > 0 ==> !IsSpace(TrimLeft(s)[0])
    decreases |s|
  {
    if |s| > 0 && IsSpace(s[0]) {
      TrimLeftRemovesPrefix(s[1..]);
      var t := TrimLeft(s[1..]);
      assert s[1..][..|s[1..]| - |t|] == s[1..|s| - |t|];
    }
  }

  /** rstrip removes a whitespace suffix and leaves no whitespace at the end. */
  lemma {:induction false} TrimRightRemovesSuffix(s: string)
    ensures |TrimRight(s)| <= |s| && TrimRight(s) == s[..|TrimRight(s)|]
    ensures AllSpace(s[|TrimRight(s)|..])
    ensures |TrimRight(s)| > 0 ==> !IsSpace(TrimRight(s)[|TrimRight(s)| - 1])
    decreases |s|
  {
    if |s| > 0 && IsSpace(s[|s| - 1]) {
      var u := s[..|s| - 1];
      TrimRightRemovesSuffix(u);
      var t := TrimRight(u);
      assert u[|t|..] == s[|t|..|s| - 1];
      assert s[|t|..] == u[|t|..] + [s[|s| - 1]];
    }
  }

  /** The strip of a string is no longer than it and has no whitespace at either end. */
  lemma StripEnds(s: string)
    ensures |Strip(s)| <= |s|
    ensures |Strip(s)| > 0 ==> !IsSpace(Strip(s)[0]) && !IsSpace(Strip(s)[|Strip(s)| - 1])
  {
    TrimLeftRemovesPrefix(s);
    TrimRightRemovesSuffix(TrimLeft(s));
    var t := Strip(s);
    if |t| > 0 {
      assert t[0] == TrimLeft(s)[0];
    }
  }

  /** Strip removes exactly a whitespace prefix and a whitespace suffix. */
  lemma StripSlice(s: string)
    ensures exists i, j :: 0 <= i <= j <= |s| && Strip(s) == s[i..j] && AllSpace(s[..i]) && AllSpace(s[j..])
  {
    TrimLeftRemovesPrefix(s);
    var l := TrimLeft(s);
    TrimRightRemovesSuffix(l);
    var i := |s| - |l|;
    var j := i + |TrimRight(l)|;
    assert Strip(s) == s[i..j];
    assert s[j..] == l[|TrimRight(l)|..];
  }

  lemma TrimLeftKeeps(s: string)
    requires |s| == 0 || !IsSpace(s[0])
    ensures TrimLeft(s) == s
  {
  }

  lemma TrimRightKeeps(s: string)
    requires |s| == 0 || !IsSpace(s[|s| - 1])
    ensures TrimRight(s) == s
  {
  }

  /** A string without whitespace at either end is its own strip. */
  lemma StripKeeps(s: string)
    requires |s| == 0 || (!IsSpace(s[0]) && !IsSpace(s[|s| - 1]))
    ensures Strip(s) == s
  {
    TrimLeftKeeps(s);
    TrimRightKeeps(s);
  }

  /** One leading blank in front of a string without outer whitespace is stripped away. */
  lemma StripLeadingBlank(s: string)
    requires |s| == 0 || (!IsSpace(s[0]) && !IsSpace(s[|s| - 1]))
    ensures Strip([' '] + s) == s
  {
    assert ([' '] + s)[1..] == s;
    TrimLeftKeeps(s);
    TrimRightKeeps(s);
  }

  /** Stripping twice is the same as stripping once. */
  lemma StripIdempotent(s: string)
    ensures Strip(Strip(s)) == Strip(s)
  {
    StripEnds(s);
    StripKeeps(Strip(s));
  }

  // ---------------------------------------------------------------------
  // lower()
  // ---------------------------------------------------------------------

  function LowerChar(c: char): char {
    if 'A' <= c <= 'Z' then (c as int + 32) as char else c
  }

  /** `s.lower()` on ASCII letters; every other character is kept. */
  function Lower(s: string): (t: string)
    ensures |t| == |s|
    ensures forall i :: 0 <= i < |s| ==> t[i] == LowerChar(s[i])
  {
    seq(|s|, i requires 0 <= i < |s| => LowerChar(s[i]))
  }

  // ---------------------------------------------------------------------
  // Substring search, split(), join() and replace()
  // ---------------------------------------------------------------------

  /** `pat` occurs in `s` starting at index `j`. */
  ghost predicate OccursAt(s: string, pat: string, j: int) {
    0 <= j && j + |pat| <= |s| && s[j..j + |pat|] == pat
  }

  /** `pat in s`. */
  ghost predicate Occurs(pat: string, s: string) {
    exists j :: OccursAt(s, pat, j)
  }

  lemma OccursAtTail(s: string, pat: string, j: nat)
    requires |s| > 0
    ensures OccursAt(s, pat, j + 1) <==> OccursAt(s[1..], pat, j)
  {
    if j + 1 + |pat| <= |s| {
      assert s[j + 1..j + 1 + |pat|] == s[1..][j..j + |pat|];
    }
  }

  lemma TailOccurrences(s: string, pat: string)
    requires |s| > 0
    ensures forall j :: 0 < j ==> (OccursAt(s, pat, j) <==> OccursAt(s[1..], pat, j - 1))
  {
    forall j | 0 < j ensures OccursAt(s, pat, j) <==> OccursAt(s[1..], pat, j - 1) {
      OccursAtTail(s, pat, j - 1);
    }
  }

  /** `s.find(pat)`: the first index at which `pat` occurs, or `None`. */
  function IndexOf(s: string, pat: string): (k: Option<nat>)
    requires |pat| > 0
    ensures k.Some? ==> OccursAt(s, pat, k.value)
    ensures k.Some? ==> forall j :: 0 <= j < k.value ==> !OccursAt(s, pat, j)
    ensures k.None? ==> !Occurs(pat, s)
    decreases |s|
  {
    if |s| < |pat| then None
    else if s[..|pat|] == pat then Some(0)
    else
      var r := IndexOf(s[1..], pat);
      assert !OccursAt(s, pat, 0);
      TailOccurrences(s, pat);
      match r
      case None => None
      case Some(k) => Some(k + 1)
  }

  /** `s.split(sep)`: the pieces between the non-overlapping occurrences of `sep`, left to right. */
  function SplitOn(s: string, sep: string): (parts: seq<string>)
    requires |sep| > 0
    ensures |parts| >= 1
    ensures forall i :: 0 <= i < |parts| ==> !Occurs(sep, parts[i])
    decreases |s|
  {
    match IndexOf(s, sep)
    case None => [s]
    case Some(k) =>
      NoOccurrenceBefore(s, sep, k);
      [s[..k]] + SplitOn(s[k + |sep|..], sep)
  }

  lemma NoOccurrenceBefore(s: string, sep: string, k: nat)
    requires |sep| > 0 && k <= |s|
    requires forall j :: 0 <= j < k ==> !OccursAt(s, sep, j)
    ensures !Occurs(sep, s[..k])
  {
    if Occurs(sep, s[..k]) {
      var j :| OccursAt(s[..k], sep, j);
      assert s[..k][j..j + |sep|] == s[j..j + |sep|];
      assert OccursAt(s, sep, j);
      assert false;
    }
  }

  /** A string without the separator character is one piece. */
  lemma SplitWithoutChar(b: string, c: char)
    requires c !in b
    ensures SplitOn(b, [c]) == [b]
  {
    forall j | 0 <= j ensures !OccursAt(b, [c], j) {
      if j + 1 <= |b| {
        assert b[j..j + 1][0] == b[j];
      }
    }
  }

  /** Splitting on a character cuts at its first occurrence, then splits the rest. */
  lemma SplitAtChar(a: string, c: char, b: string)
    requires c !in a
    ensures SplitOn(a + [c] + b, [c]) == [a] + SplitOn(b, [c])
  {
    var s := a + [c] + b;
    assert s[|a|..|a| + 1] == [c];
    forall j | 0 <= j < |a| ensures !OccursAt(s, [c], j) {
      assert s[j] == a[j];
      assert s[j..j + 1][0] == s[j];
    }
    assert OccursAt(s, [c], |a|);
    assert Occurs([c], s);
    var k := IndexOf(s, [c]);
    assert k.Some? && k.value >= |a|;
    assert k.value == |a|;
    assert s[..|a|] == a;
    assert s[|a| + 1..] == b;
  }

  /** `sep.join(parts)`. */
  function Join(parts: seq<string>, sep: string): string {
    if |parts| == 0 then ""
    else if |parts| == 1 then parts[0]
    else parts[0] + sep + Join(parts[1..], sep)
  }

  lemma JoinCons(first: string, rest: seq<string>, sep: string)
    requires |rest| >= 1
    ensures Join([first] + rest, sep) == first + sep + Join(rest, sep)
  {
    assert ([first] + rest)[1..] == rest;
  }

  /** Joining the pieces of a split with the same separator gives back the string. */
  lemma {:induction false} JoinSplit(s: string, sep: string)
    requires |sep| > 0
    ensures Join(SplitOn(s, sep), sep) == s
    decreases |s|
  {
    var r := IndexOf(s, sep);
    if r.Some? {
      var k := r.value;
      var rest := s[k + |sep|..];
      assert SplitOn(s, sep) == [s[..k]] + SplitOn(rest, sep);
      calc {
        Join(SplitOn(s, sep), sep);
        Join([s[..k]] + SplitOn(rest, sep), sep);
        { JoinCons(s[..k], SplitOn(rest, sep), sep); }
        s[..k] + sep + Join(SplitOn(rest, sep), sep);
        { JoinSplit(rest, sep); }
        s[..k] + sep + rest;
        { assert s[k..k + |sep|] == sep;
          assert s == s[..k] + s[k..k + |sep|] + rest; }
        s;
      }
    }
  }

  /** `s.replace(pat, repl)`: every non-overlapping occurrence of `pat`, left to right, becomes `repl`. */
  function Replace(s: string, pat: string, repl: string): string
    requires |pat| > 0
  {
    Join(SplitOn(s, pat), repl)
  }

  /**
   * Replace substitutes at every occurrence: the string is cut into pieces that
   * do not contain `pat` and are separated by `pat`, and the result separates
   * the same pieces by `repl` instead.
   */
  lemma ReplaceEveryOccurrence(s: string, pat: string, repl: string)
    requires |pat| > 0
    ensures exists pieces: seq<string> ::
      && |pieces| >= 1
      && Join(pieces, pat) == s
      && (forall i :: 0 <= i < |pieces| ==> !Occurs(pat, pieces[i]))
      && Replace(s, pat, repl) == Join(pieces, repl)
  {
    JoinSplit(s, pat);
    var pieces := SplitOn(s, pat);
    assert Join(pieces, pat) == s;
  }

  /** A string that does not contain `pat` is left as it is. */
  lemma ReplaceAbsent(s: string, pat: string, repl: string)
    requires |pat| > 0 && !Occurs(pat, s)
    ensures Replace(s, pat, repl) == s
  {
  }

  // ---------------------------------------------------------------------
  // Decimal digits
  // ---------------------------------------------------------------------

  predicate IsDigit(c: char) {
    48 <= c as int <= 57
  }

  predicate AllDigits(s: string) {
    forall i :: 0 <= i < |s| ==> IsDigit(s[i])
  }

  function DigitChar(d: nat): (c: char)
    requires d < 10
    ensures IsDigit(c)
  {
    (48 + d) as char
  }

  function DigitValue(c: char): (d: nat)
    requires IsDigit(c)
    ensures d < 10
  {
    c as int - 48
  }

  /** The value of a string of decimal digits (0 for the empty string). */
  function DigitsValue(s: string): nat
    requires AllDigits(s)
  {
    if |s| == 0 then 0 else DigitsValue(s[..|s| - 1]) * 10 + DigitValue(s[|s| - 1])
  }

  /** The decimal digits of `n`, without leading zeros. */
  function NatToString(n: nat): (s: string)
    ensures |s| >= 1 && AllDigits(s)
  {
    if n < 10 then [DigitChar(n)] else NatToString(n / 10) + [DigitChar(n % 10)]
  }

  lemma {:induction false} NatToStringValue(n: nat)
    ensures DigitsValue(NatToString(n)) == n
  {
    if n >= 10 {
      var s := NatToString(n);
      NatToStringValue(n / 10);
      assert s[..|s| - 1] == NatToString(n / 10);
    }
  }

  /** Python's `str(n)` for an int. */
  function IntToString(n: int): (s: string)
    ensures |s| >= 1
    ensures IsDigit(s[|s| - 1])
    ensures s[0] == '-' || IsDigit(s[0])
  {
    if n < 0 then "-" + NatToString(-n) else NatToString(n)
  }

  /** Python's `int(s)` for a string: optional surrounding whitespace, an optional sign, decimal digits. */
  function ParseInt(s: string): Option<int> {
    var t := Strip(s);
    if |t| > 0 && (t[0] == '-' || t[0] == '+') then
      var body := t[1..];
      if |body| > 0 && AllDigits(body) then
        var v: int := DigitsValue(body);
        Some(if t[0] == '-' then -v else v)
      else None
    else if |t| > 0 && AllDigits(t) then Some(DigitsValue(t))
    else None
  }

  /** `int(str(n)) == n`. */
  lemma ParseIntToString(n: int)
    ensures ParseInt(IntToString(n)) == Some(n)
  {
    if n < 0 {
      var body := NatToString(-n);
      var s := "-" + body;
      assert s == IntToString(n);
      StripKeeps(s);
      assert s[1..] == body;
      NatToStringValue(-n);
      assert s[0] == '-';
    } else {
      ParseIntOfNat(n);
    }
  }

  lemma ParseIntOfNat(n: nat)
    ensures ParseInt(IntToString(n)) == Some(n)
  {
    var s := NatToString(n);
    assert IntToString(n) == s;
    StripKeeps(s);
    NatToStringValue(n);
    assert s[0] != '-' && s[0] != '+';
  }

  function Pow10(k: nat): (p: nat)
    ensures p >= 1
  {
    if k == 0 then 1 else 10 * Pow10(k - 1)
  }

  /** A digits-and-point literal without sign: `12`, `12.5`, `.5` or `12.`. */
  function UnsignedDecimal(s: string): Option<real> {
    match IndexOf(s, ".")
    case None =>
      if |s| > 0 && AllDigits(s) then Some(DigitsValue(s) as real) else None
    case Some(k) =>
      var whole, frac := s[..k], s[k + 1..];
      if (|whole| > 0 || |frac| > 0) && AllDigits(whole) && AllDigits(frac) then
        Some(DigitsValue(whole) as real + DigitsValue(frac) as real / Pow10(|frac|) as real)
      else None
  }

  /** Python's `float(s)` for a string written as an optional sign and a decimal literal. */
  function ParseDecimal(s: string): Option<real> {
    var t := Strip(s);
    if |t| > 0 && (t[0] == '-' || t[0] == '+') then
      match UnsignedDecimal(t[1..])
      case None => None
      case Some(v) => Some(if t[0] == '-' then -v else v)
    else UnsignedDecimal(t)
  }

  lemma NoPointInDigits(s: string)
    requires AllDigits(s)
    ensures IndexOf(s, ".") == None
  {
    forall j | 0 <= j < |s| ensures !OccursAt(s, ".", j) {
      assert s[j..j + 1][0] == s[j];
    }
  }

  /** `float(str(n)) == n` for an int `n`. */
  lemma ParseDecimalOfInt(n: int)
    ensures ParseDecimal(IntToString(n)) == Some(n as real)
  {
    if n < 0 {
      var body := NatToString(-n);
      var s := "-" + body;
      assert s == IntToString(n);
      StripKeeps(s);
      assert s[1..] == body;
      NatToStringValue(-n);
      NoPointInDigits(body);
      assert s[0] == '-';
    } else {
      ParseDecimalOfNat(n);
    }
  }

  lemma ParseDecimalOfNat(n: nat)
    ensures ParseDecimal(IntToString(n)) == Some(n as real)
  {
    var s := NatToString(n);
    assert IntToString(n) == s;
    StripKeeps(s);
    NatToStringValue(n);
    NoPointInDigits(s);
    assert s[0] != '-' && s[0] != '+';
  }

  // ---------------------------------------------------------------------
  // Reals
  // ---------------------------------------------------------------------

  /** Python's `int(x)` for a float: truncation toward zero (Dafny's `.Floor` rounds down). */
  function Trunc(x: real): (n: int)
    ensures 0.0 <= x ==> n as real <= x < n as real + 1.0
    ensures x < 0.0 ==> n as real - 1.0 < x <= n as real
  {
    if x >= 0.0 then x.Floor else -((-x).Floor)
  }

  /** Up to `n` decimal digits of a fraction in [0, 1), stopping early when nothing is left. */
  function FractionDigits(f: real, n: nat): (s: string)
    requires 0.0 <= f < 1.0
    ensures AllDigits(s)
    decreases n
  {
    if n == 0 || f == 0.0 then ""
    else
      var d := (f * 10.0).Floor;
      [DigitChar(d)] + FractionDigits(f * 10.0 - d as real, n - 1)
  }

  function DropTrailingZeros(s: string): string {
    if |s| > 0 && s[|s| - 1] == '0' then DropTrailingZeros(s[..|s| - 1]) else s
  }

  /**
   * Python's `str(x)` for a float of moderate size: the integer part, a point,
   * and the fraction (at least one digit, at most 17, no trailing zeros).
   */
  function FormatReal(x: real): string {
    if x < 0.0 then "-" + FormatNonNegative(-x) else FormatNonNegative(x)
  }

  function FormatNonNegative(x: real): string
    requires x >= 0.0
  {
    var whole := x.Floor;
    var frac := DropTrailingZeros(FractionDigits(x - whole as real, 17));
    NatToString(whole) + "." + (if frac == "" then "0" else frac)
  }

  /** An integral float prints as its integer followed by `.0`, as `str(20.0) == "20.0"`. */
  lemma FormatIntegral(n: int)
    ensures FormatReal(n as real) == IntToString(n) + ".0"
  {
    var m: nat := if n < 0 then -n else n;
    assert (m as real).Floor == m;
    assert FractionDigits(m as real - m as real, 17) == "";
    assert FormatNonNegative(m as real) == NatToString(m) + ".0";
  }
}
