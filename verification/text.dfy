/** Python's `str.strip()` with no arguments, over Python's notion of whitespace. */
module Text {

  /** The characters for which Python 3's `str.isspace()` is true: the
      Unicode characters of category Zs or of bidirectional class WS, B or S. */
  predicate IsWhitespace(c: char) {
    || ('\t' <= c <= '\r')                    // \t \n \v \f \r
    || ('\U{1C}' <= c <= '\U{1F}')            // file, group, record, unit separators
    || c == ' '
    || c == '\U{85}'                          // next line
    || c == '\U{A0}'                          // no-break space
    || c == '\U{1680}'                        // ogham space mark
    || ('\U{2000}' <= c <= '\U{200A}')        // en quad .. hair space
    || c == '\U{2028}' || c == '\U{2029}'     // line and paragraph separators
    || c == '\U{202F}' || c == '\U{205F}' || c == '\U{3000}'
  }

  /** Every character of `s` is whitespace (vacuously true of ""). */
  predicate IsBlank(s: string) {
    forall i :: 0 <= i < |s| ==> IsWhitespace(s[i])
  }

  /** `s` neither starts nor ends with whitespace. */
  predicate IsStripped(s: string) {
    s == [] || (!IsWhitespace(s[0]) && !IsWhitespace(s[|s| - 1]))
  }

  /** `r` is what is left of `s` once the whitespace at both ends is cut off:
      a slice of `s` with only whitespace outside it and none at its ends. */
  ghost predicate IsStripOf(s: string, r: string) {
    exists i, j :: 0 <= i <= j <= |s| && r == s[i..j]
      && IsBlank(s[..i]) && IsBlank(s[j..]) && IsStripped(r)
  }

  /** Drops the leading whitespace (Python's `lstrip()`). */
  function TrimStart(s: string): (r: string)
    ensures |r| <= |s|
    ensures r == [] || !IsWhitespace(r[0])
  {
    if |s| > 0 && IsWhitespace(s[0]) then TrimStart(s[1..]) else s
  }

  /** Drops the trailing whitespace (Python's `rstrip()`). */
  function TrimEnd(s: string): (r: string)
    ensures |r| <= |s| && r == s[..|r|]
    ensures r == [] || !IsWhitespace(r[|r| - 1])
  {
    if |s| > 0 && IsWhitespace(s[|s| - 1]) then TrimEnd(s[..|s| - 1]) else s
  }

  /** `lstrip()` keeps a suffix and cuts only whitespace. */
  lemma {:induction false} TrimStartCuts(s: string)
    ensures TrimStart(s) == s[|s| - |TrimStart(s)|..]
    ensures IsBlank(s[..|s| - |TrimStart(s)|])
  {
    if |s| > 0 && IsWhitespace(s[0]) {
      var u := s[1..];
      TrimStartCuts(u);
      var n := |s| - |TrimStart(s)|;
      assert u[|u| - |TrimStart(u)|..] == s[n..];
      forall k | 0 <= k < n ensures IsWhitespace(s[..n][k]) {
        if k > 0 {
          assert s[..n][k] == u[..n - 1][k - 1];
        }
      }
    }
  }

  /** `rstrip()` cuts only whitespace. */
  lemma {:induction false} TrimEndCuts(s: string)
    ensures IsBlank(s[|TrimEnd(s)|..])
  {
    if |s| > 0 && IsWhitespace(s[|s| - 1]) {
      var u := s[..|s| - 1];
      TrimEndCuts(u);
      var n := |TrimEnd(s)|;
      forall k | 0 <= k < |s| - n ensures IsWhitespace(s[n..][k]) {
        if k < |s| - n - 1 {
          assert s[n..][k] == u[n..][k];
        }
      }
    }
  }

  /** Python's `s.strip()`. */
  function Strip(s: string): (r: string)
    ensures IsStripped(r)
    ensures |r| <= |s|
  {
    var t := TrimStart(s);
    var r := TrimEnd(t);
    assert r != [] ==> r[0] == t[0];
    r
  }

  /** `Strip` cuts exactly the whitespace at both ends. */
  lemma StripIsStripOf(s: string)
    ensures IsStripOf(s, Strip(s))
  {
    var t := TrimStart(s);
    var r := TrimEnd(t);
    TrimStartCuts(s);
    TrimEndCuts(t);
    var i := |s| - |t|;
    assert t == s[i..] && r == t[..|r|];
    assert s[i..i + |r|] == r by {
      forall k | 0 <= k < |r| ensures s[i..i + |r|][k] == r[k] {
        assert r[k] == t[k] == s[i + k];
      }
    }
    var j := i + |r|;
    assert IsBlank(s[j..]) by {
      assert s[j..] == t[|r|..];
    }
    assert 0 <= i <= j <= |s| && Strip(s) == s[i..j];
    assert IsBlank(s[..i]) && IsStripped(s[i..j]);
  }

  /** Any slice with the properties of a strip is the strip: the relation
      `IsStripOf` is a function, and `Strip` computes it. */
  lemma StripUnique(s: string, r: string)
    requires IsStripOf(s, r)
    ensures r == Strip(s)
  {
    var i, j :| 0 <= i <= j <= |s| && r == s[i..j]
      && IsBlank(s[..i]) && IsBlank(s[j..]) && IsStripped(r);
    StripAt(s, i, j);
  }

  /** `Strip` returns the slice between any strip bounds `i` and `j`. */
  lemma StripAt(s: string, i: nat, j: nat)
    requires i <= j <= |s| && IsBlank(s[..i]) && IsBlank(s[j..]) && IsStripped(s[i..j])
    ensures Strip(s) == s[i..j]
  {
    if i == j {
      BlankPieces(s, i, j);
      StripBlank(s);
    } else {
      StripAtContent(s, i, j);
    }
  }

  /** An all-whitespace string strips to "". */
  lemma StripBlank(s: string)
    requires IsBlank(s)
    ensures Strip(s) == []
  {
    assert s[..|s|] == s;
    LeadingCut(s, |s|);
  }

  /** Non-empty strip bounds: `lstrip` cuts `i` characters, `rstrip` the
      rest after `j`. */
  lemma StripAtContent(s: string, i: nat, j: nat)
    requires i < j <= |s| && IsBlank(s[..i]) && IsBlank(s[j..]) && IsStripped(s[i..j])
    ensures Strip(s) == s[i..j]
  {
    var t := s[i..];
    assert TrimStart(s) == t by {
      assert s[i..j][0] == s[i];
      LeadingCut(s, i);
    }
    assert TrimEnd(t) == s[i..j] by {
      assert t[j - i..] == s[j..];
      assert s[i..j][j - i - 1] == t[j - i - 1];
      TrailingCut(t, j - i);
      assert t[..j - i] == s[i..j];
    }
  }

  /** If `s[..i]` is blank and `s[i]` is not whitespace (or `i` is the end),
      `lstrip()` cuts exactly `i` characters. */
  lemma {:induction false} LeadingCut(s: string, i: nat)
    requires i <= |s| && IsBlank(s[..i])
    requires i == |s| || !IsWhitespace(s[i])
    ensures TrimStart(s) == s[i..]
  {
    if i > 0 {
      assert s[..i][0] == s[0];
      var u := s[1..];
      var v := u[..i - 1];
      assert IsBlank(v) by {
        forall k | 0 <= k < |v| ensures IsWhitespace(v[k]) {
          assert v[k] == s[..i][k + 1];
        }
      }
      LeadingCut(u, i - 1);
      assert u[i - 1..] == s[i..];
    }
  }

  /** If `t[k..]` is blank and `t[k - 1]` is not whitespace (or `k` is 0),
      `rstrip()` keeps exactly `k` characters. */
  lemma {:induction false} TrailingCut(t: string, k: nat)
    requires k <= |t| && IsBlank(t[k..])
    requires k == 0 || !IsWhitespace(t[k - 1])
    ensures TrimEnd(t) == t[..k]
  {
    if k < |t| {
      var u := t[..|t| - 1];
      assert t[k..][|t| - 1 - k] == t[|t| - 1];
      assert IsBlank(u[k..]) by {
        forall m | 0 <= m < |u| - k ensures IsWhitespace(u[k..][m]) {
          assert u[k..][m] == t[k..][m];
        }
      }
      assert k == 0 || u[k - 1] == t[k - 1];
      TrailingCut(u, k);
      assert u[..k] == t[..k];
    } else {
      assert t[..k] == t;
    }
  }

  /** When the slice `s[i..j]` is empty and everything around it is blank,
      the whole string is blank. */
  lemma BlankPieces(s: string, i: nat, j: nat)
    requires i <= j <= |s| && s[i..j] == []
    requires IsBlank(s[..i]) && IsBlank(s[j..])
    ensures IsBlank(s)
  {
    forall k | 0 <= k < |s|
      ensures IsWhitespace(s[k])
    {
      if k < i { assert s[..i][k] == s[k]; } else { assert s[j..][k - j] == s[k]; }
    }
  }

  /** `strip()` is the identity on a string that has no whitespace at its ends. */
  lemma StrippedIsFixpoint(s: string)
    requires IsStripped(s)
    ensures Strip(s) == s
  {
    assert s[0..|s|] == s;
    StripUnique(s, s);
  }

  /** Stripping twice is stripping once. */
  lemma StripIdempotent(s: string)
    ensures Strip(Strip(s)) == Strip(s)
  {
    StrippedIsFixpoint(Strip(s));
  }

  /** `s.strip()` is falsy in Python exactly when `s` is all whitespace. */
  lemma StripEmptyIffBlank(s: string)
    ensures Strip(s) == [] <==> IsBlank(s)
  {
    var r := Strip(s);
    StripIsStripOf(s);
    var i, j :| 0 <= i <= j <= |s| && r == s[i..j]
      && IsBlank(s[..i]) && IsBlank(s[j..]) && IsStripped(r);
    if r == [] {
      BlankPieces(s, i, j);
    }
  }
}
