/**
 * Placeholder templates. A template such as `/CueList/PlaybackState/{I, State, 0, 0, 2}`
 * holds placeholders matched by the regular expression `\{([^{}]+)\}`; the text
 * between the braces is a definition, a comma-separated list of fields whose
 * first field is the kind (`I`, `F`, `B`, `A`, `S`, `IP`, `C`, `E`).
 */
module Templates {
  import opened Text

  predicate IsBrace(c: char) {
    c == '{' || c == '}'
  }

  predicate BraceFree(s: string) {
    forall i :: 0 <= i < |s| ==> !IsBrace(s[i])
  }

  /** The length of the longest brace-free prefix of `s` (what `[^{}]+` consumes greedily). */
  function BraceFreeRun(s: string): (n: nat)
    ensures n <= |s|
    ensures BraceFree(s[..n])
    ensures n < |s| ==> IsBrace(s[n])
  {
    if |s| == 0 || IsBrace(s[0]) then 0
    else
      var n := BraceFreeRun(s[1..]);
      assert s[..n + 1] == [s[0]] + s[1..][..n];
      n + 1
  }

  /**
   * The definitions matched by `re.findall(r'\{([^{}]+)\}', s)`, left to right:
   * at each position a match needs `{`, at least one non-brace character and a
   * `}` right after the longest such run; scanning resumes after a match.
   */
  function Placeholders(s: string): (defs: seq<string>)
    ensures forall i :: 0 <= i < |defs| ==> |defs[i]| > 0 && BraceFree(defs[i])
    decreases |s|
  {
    if |s| == 0 then []
    else if s[0] == '{' then
      var n := BraceFreeRun(s[1..]);
      assert s[1..][..n] == s[1..n + 1];
      if 0 < n && n + 1 < |s| && s[n + 1] == '}' then [s[1..n + 1]] + Placeholders(s[n + 2..])
      else Placeholders(s[1..])
    else Placeholders(s[1..])
  }

  /** A brace-free stretch before a template contributes no placeholder. */
  lemma {:induction false} BraceFreePrefix(g: string, t: string)
    requires BraceFree(g)
    ensures Placeholders(g + t) == Placeholders(t)
    decreases |g|
  {
    if |g| > 0 {
      assert (g + t)[0] == g[0] && !IsBrace(g[0]);
      assert (g + t)[1..] == g[1..] + t;
      BraceFreePrefix(g[1..], t);
    } else {
      assert g + t == t;
    }
  }

  lemma BraceFreeRunOf(d: string, rest: string)
    requires BraceFree(d) && |rest| > 0 && IsBrace(rest[0])
    ensures BraceFreeRun(d + rest) == |d|
    decreases |d|
  {
    if |d| > 0 {
      assert (d + rest)[1..] == d[1..] + rest;
      BraceFreeRunOf(d[1..], rest);
    }
  }

  /** A placeholder `{d}` at the front is matched whole. */
  lemma PlaceholderFirst(d: string, rest: string)
    requires |d| > 0 && BraceFree(d)
    ensures Placeholders("{" + d + "}" + rest) == [d] + Placeholders(rest)
  {
    var s := "{" + d + "}" + rest;
    BraceFreeRunOf(d, "}" + rest);
    assert s[1..] == d + ("}" + rest);
    assert s[1..|d| + 1] == d;
    assert s[|d| + 2..] == rest;
  }

  /** The template `gaps[0] {defs[0]} gaps[1] ... {defs[n-1]} gaps[n]`. */
  function Render(gaps: seq<string>, defs: seq<string>): string
    requires |gaps| == |defs| + 1
  {
    if |defs| == 0 then gaps[0]
    else gaps[0] + "{" + defs[0] + "}" + Render(gaps[1..], defs[1..])
  }

  /**
   * Scanning a rendered template gives back its definitions, in order, when the
   * text between placeholders holds no brace and each definition is a non-empty
   * brace-free string.
   */
  lemma {:induction false} PlaceholdersOfRender(gaps: seq<string>, defs: seq<string>)
    requires |gaps| == |defs| + 1
    requires forall i :: 0 <= i < |gaps| ==> BraceFree(gaps[i])
    requires forall i :: 0 <= i < |defs| ==> |defs[i]| > 0 && BraceFree(defs[i])
    ensures Placeholders(Render(gaps, defs)) == defs
    decreases |defs|
  {
    if |defs| == 0 {
      BraceFreePrefix(gaps[0], "");
      assert gaps[0] + "" == gaps[0];
    } else {
      var rest := Render(gaps[1..], defs[1..]);
      PlaceholdersOfRender(gaps[1..], defs[1..]);
      assert Render(gaps, defs) == gaps[0] + ("{" + defs[0] + "}" + rest);
      BraceFreePrefix(gaps[0], "{" + defs[0] + "}" + rest);
      PlaceholderFirst(defs[0], rest);
      assert defs == [defs[0]] + defs[1..];
    }
  }

  /**
   * A braced definition that is none of `defs` occurs nowhere in a template
   * rendered from brace-free gaps and brace-free definitions.
   */
  lemma {:induction false} BracedAbsent(gaps: seq<string>, defs: seq<string>, d: string)
    requires |gaps| == |defs| + 1
    requires forall i :: 0 <= i < |gaps| ==> BraceFree(gaps[i])
    requires forall i :: 0 <= i < |defs| ==> BraceFree(defs[i])
    requires BraceFree(d) && d !in defs
    ensures !Occurs("{" + d + "}", Render(gaps, defs))
    decreases |defs|
  {
    var p := "{" + d + "}";
    var s := Render(gaps, defs);
    if |defs| == 0 {
      forall j | 0 <= j && j + |p| <= |s| ensures !OccursAt(s, p, j) {
        assert s[j..j + |p|][0] == gaps[0][j];
      }
    } else {
      BracedAbsent(gaps[1..], defs[1..], d);
      assert s == gaps[0] + ("{" + defs[0] + "}") + Render(gaps[1..], defs[1..]);
      forall j | 0 <= j ensures !OccursAt(s, p, j) {
        BracedNotAt(gaps[0], defs[0], Render(gaps[1..], defs[1..]), d, j);
      }
    }
  }

  /** The braced `d` does not start at `j` in a gap, a braced other definition and a rest without it. */
  lemma BracedNotAt(g: string, e: string, rest: string, d: string, j: nat)
    requires BraceFree(g) && BraceFree(e) && BraceFree(d) && d != e
    requires !Occurs("{" + d + "}", rest)
    ensures !OccursAt(g + ("{" + e + "}") + rest, "{" + d + "}", j)
  {
    var p := "{" + d + "}";
    var s := g + ("{" + e + "}") + rest;
    var q := |g| + |e| + 2;
    if j + |p| <= |s| {
      var w := s[j..j + |p|];
      if j < |g| {
        assert w[0] == g[j];
      } else if j == |g| {
        BracedHead(e, rest, d, w);
      } else if j < q {
        assert w[0] == ("{" + e + "}")[j - |g|];
      } else {
        assert w == rest[j - q..j - q + |p|];
        assert !OccursAt(rest, p, j - q);
      }
    }
  }

  /** Text that starts with a braced `e` does not start with a braced other `d`. */
  lemma BracedHead(e: string, rest: string, d: string, w: string)
    requires BraceFree(e) && BraceFree(d) && d != e
    requires |d| + 2 <= |e| + 2 + |rest| && w == (("{" + e + "}") + rest)[..|d| + 2]
    ensures w != "{" + d + "}"
  {
    if |d| < |e| {
      assert w[1 + |d|] == e[|d|];
    } else if |d| > |e| {
      assert w[1 + |e|] == '}' && ("{" + d + "}")[1 + |e|] == d[|e|];
    } else {
      assert w[1..1 + |d|] == e && ("{" + d + "}")[1..1 + |d|] == d;
    }
  }

  /** An occurrence in a suffix is an occurrence in the whole string, shifted. */
  lemma OccursInSuffix(s: string, k: nat, pat: string)
    requires k <= |s| && Occurs(pat, s[k..])
    ensures Occurs(pat, s)
  {
    var j :| OccursAt(s[k..], pat, j);
    assert s[k + j..k + j + |pat|] == s[k..][j..j + |pat|];
    assert OccursAt(s, pat, k + j);
  }

  /** Every definition found is the text of a `{...}` that occurs in the template. */
  lemma {:induction false} PlaceholdersOccur(s: string)
    ensures forall i :: 0 <= i < |Placeholders(s)| ==> Occurs("{" + Placeholders(s)[i] + "}", s)
    decreases |s|
  {
    if |s| > 0 {
      var defs := Placeholders(s);
      var n := BraceFreeRun(s[1..]);
      if s[0] == '{' && 0 < n && n + 1 < |s| && s[n + 1] == '}' {
        var tail := s[n + 2..];
        PlaceholdersOccur(tail);
        assert defs == [s[1..n + 1]] + Placeholders(tail);
        assert OccursAt(s, "{" + defs[0] + "}", 0) by {
          assert s[0..n + 2] == "{" + defs[0] + "}";
        }
        forall i | 1 <= i < |defs| ensures Occurs("{" + defs[i] + "}", s) {
          assert defs[i] == Placeholders(tail)[i - 1];
          OccursInSuffix(s, n + 2, "{" + defs[i] + "}");
        }
      } else {
        PlaceholdersOccur(s[1..]);
        forall i | 0 <= i < |defs| ensures Occurs("{" + defs[i] + "}", s) {
          OccursInSuffix(s, 1, "{" + defs[i] + "}");
        }
      }
    }
  }

  /** Each placeholder takes at least three characters, so there are at most |s|/3 of them. */
  lemma {:induction false} PlaceholderCount(s: string)
    ensures 3 * |Placeholders(s)| <= |s|
    decreases |s|
  {
    if |s| > 0 {
      var n := BraceFreeRun(s[1..]);
      if s[0] == '{' && 0 < n && n + 1 < |s| && s[n + 1] == '}' {
        PlaceholderCount(s[n + 2..]);
      } else {
        PlaceholderCount(s[1..]);
      }
    }
  }

  /**
   * `[p.strip() for p in d.split(",")]`: the fields of a definition. There is
   * always a first field (the kind); no field holds a comma or starts or ends
   * with whitespace.
   */
  function Fields(d: string): (parts: seq<string>)
    ensures |parts| >= 1
    ensures forall i :: 0 <= i < |parts| ==> Strip(parts[i]) == parts[i]
  {
    var pieces := SplitOn(d, ",");
    var parts := seq(|pieces|, i requires 0 <= i < |pieces| => Strip(pieces[i]));
    assert forall i :: 0 <= i < |parts| ==> Strip(parts[i]) == parts[i] by {
      forall i | 0 <= i < |parts| ensures Strip(parts[i]) == parts[i] {
        StripIdempotent(pieces[i]);
      }
    }
    parts
  }
  /** A definition with more than one field is not empty. */
  lemma ManyFieldsNonEmpty(d: string)
    requires |Fields(d)| > 1
    ensures |d| > 0
  {
  }


  lemma OccursAtInSlice(s: string, p: string, a: nat, b: nat, j: int)
    requires a <= b <= |s| && OccursAt(s[a..b], p, j)
    ensures OccursAt(s, p, a + j)
  {
    var t := s[a..b];
    var u := t[j..j + |p|];
    forall k | 0 <= k < |p| ensures u[k] == s[a + j + k] {
      assert u[k] == t[j + k];
    }
    assert s[a + j..a + j + |p|] == u;
  }

  /** Whatever occurs in a slice of a string occurs in the string. */
  lemma OccursInSlice(s: string, p: string, a: nat, b: nat)
    requires a <= b <= |s|
    ensures Occurs(p, s[a..b]) ==> Occurs(p, s)
  {
    forall j | OccursAt(s[a..b], p, j) ensures OccursAt(s, p, a + j) {
      OccursAtInSlice(s, p, a, b, j);
    }
  }

  /** No field of a definition contains a comma. */
  lemma FieldsHaveNoComma(d: string, i: nat)
    requires i < |Fields(d)|
    ensures !Occurs(",", Fields(d)[i])
  {
    var piece := SplitOn(d, ",")[i];
    assert Fields(d)[i] == Strip(piece);
    StripSlice(piece);
    var a, b :| 0 <= a <= b <= |piece| && Strip(piece) == piece[a..b];
    OccursInSlice(piece, ",", a, b);
  }

  /** `",".join(fs)`: the definition text whose comma-separated fields are `fs`. */
  function CommaJoined(fs: seq<string>): (d: string)
    requires |fs| >= 1
    ensures |fs| == 1 ==> d == fs[0]
  {
    if |fs| == 1 then fs[0] else fs[0] + [','] + CommaJoined(fs[1..])
  }

  /** Splitting a comma-joined text on commas gives back fields that hold no comma. */
  lemma {:induction false} SplitCommaJoined(fs: seq<string>)
    requires |fs| >= 1 && forall i :: 0 <= i < |fs| ==> ',' !in fs[i]
    ensures SplitOn(CommaJoined(fs), ",") == fs
  {
    if |fs| == 1 {
      SplitWithoutChar(fs[0], ',');
    } else {
      SplitCommaJoined(fs[1..]);
      SplitAtChar(fs[0], ',', CommaJoined(fs[1..]));
    }
  }

  /** The fields of a comma-joined definition are its parts, stripped. */
  lemma FieldsOfCommaJoined(fs: seq<string>)
    requires |fs| >= 1 && forall i :: 0 <= i < |fs| ==> ',' !in fs[i]
    ensures Fields(CommaJoined(fs)) == seq(|fs|, i requires 0 <= i < |fs| => Strip(fs[i]))
  {
    SplitCommaJoined(fs);
  }

  /** The five fields of a five-part definition. */
  lemma FieldsOfFiveParts(a: string, b: string, c: string, d: string, e: string)
    requires ',' !in a && ',' !in b && ',' !in c && ',' !in d && ',' !in e
    ensures Fields(CommaJoined([a, b, c, d, e])) == [Strip(a), Strip(b), Strip(c), Strip(d), Strip(e)]
  {
    var fs := [a, b, c, d, e];
    FieldsOfCommaJoined(fs);
  }
}
