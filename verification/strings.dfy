/** The few Python string operations the dashboard relies on: `str.strip()`,
    `str.endswith()` and the ordering `<=` on `str`. */
module Strings {

  /** Python's `str.isspace()` for one character: the ASCII blanks and
      separators 0x1C-0x1F, plus the Unicode space separators. */
  predicate IsSpace(c: char) {
    || c == ' ' || c == '\t' || c == '\n' || c == '\r'
    || c == '\U{B}' || c == '\U{C}'
    || ('\U{1C}' <= c <= '\U{1F}')
    || c == '\U{85}' || c == '\U{A0}' || c == '\U{1680}'
    || ('\U{2000}' <= c <= '\U{200A}')
    || c == '\U{2028}' || c == '\U{2029}' || c == '\U{202F}'
    || c == '\U{205F}' || c == '\U{3000}'
  }

  /** `s[i..j]` is what stripping leaves of `s`: everything outside it is
      whitespace, and a non-empty result neither starts nor ends with it. */
  ghost predicate StripBounds(s: string, i: int, j: int) {
    && 0 <= i <= j <= |s|
    && (forall k :: 0 <= k < i ==> IsSpace(s[k]))
    && (forall k :: j <= k < |s| ==> IsSpace(s[k]))
    && (i < j ==> !IsSpace(s[i]) && !IsSpace(s[j - 1]))
  }

  /** `r` is `s` with its leading and trailing whitespace removed. */
  ghost predicate IsStripOf(s: string, r: string) {
    exists i, j :: StripBounds(s, i, j) && r == s[i..j]
  }

  /** Index of the first non-whitespace character at or after `i`. */
  function SkipSpaces(s: string, i: nat): (k: nat)
    requires i <= |s|
    ensures i <= k <= |s|
    ensures forall m :: i <= m < k ==> IsSpace(s[m])
    ensures k < |s| ==> !IsSpace(s[k])
    decreases |s| - i
  {
    if i < |s| && IsSpace(s[i]) then SkipSpaces(s, i + 1) else i
  }

  /** Moves the end `j` left past whitespace, never below `lo`. */
  function SkipSpacesBack(s: string, lo: nat, j: nat): (k: nat)
    requires lo <= j <= |s|
    ensures lo <= k <= j
    ensures forall m :: k <= m < j ==> IsSpace(s[m])
    ensures lo < k ==> !IsSpace(s[k - 1])
    decreases j
  {
    if lo < j && IsSpace(s[j - 1]) then SkipSpacesBack(s, lo, j - 1) else j
  }

  /** Python's `s.strip()`. */
  function Strip(s: string): (r: string)
    ensures IsStripOf(s, r)
    ensures |r| <= |s|
    ensures r != [] ==> !IsSpace(r[0]) && !IsSpace(r[|r| - 1])
  {
    var i := SkipSpaces(s, 0);
    var j := SkipSpacesBack(s, i, |s|);
    assert StripBounds(s, i, j);
    s[i..j]
  }

  lemma {:induction false} StripBoundsUnique(s: string, i: int, j: int, i': int, j': int)
    requires StripBounds(s, i, j) && StripBounds(s, i', j')
    ensures s[i..j] == s[i'..j']
  {
  }

  /** Stripping has exactly one possible outcome, so `Strip` is the
      operation `IsStripOf` describes. */
  lemma StripIsTheStrip(s: string, r: string)
    requires IsStripOf(s, r)
    ensures r == Strip(s)
  {
    var i, j :| StripBounds(s, i, j) && r == s[i..j];
    var i', j' :| StripBounds(s, i', j') && Strip(s) == s[i'..j'];
    StripBoundsUnique(s, i, j, i', j');
  }

  /** Stripping twice strips nothing more. */
  lemma StripIdempotent(s: string)
    ensures Strip(Strip(s)) == Strip(s)
  {
    var r := Strip(s);
    if r == [] {
      assert StripBounds(r, 0, 0);
    } else {
      assert StripBounds(r, 0, |r|);
    }
    assert r == r[0..|r|];
    StripIsTheStrip(r, r);
  }

  /** Python's `s.endswith(suffix)`. */
  predicate EndsWith(s: string, suffix: string) {
    |suffix| <= |s| && s[|s| - |suffix|..] == suffix
  }

  /** `EndsWith` holds exactly of the strings built by appending the suffix. */
  lemma EndsWithIffAppended(s: string, suffix: string)
    ensures EndsWith(s, suffix) <==> exists p :: s == p + suffix
  {
    if EndsWith(s, suffix) {
      assert s == s[..|s| - |suffix|] + suffix;
    }
    if exists p :: s == p + suffix {
      var p :| s == p + suffix;
      assert s[|s| - |suffix|..] == suffix;
    }
  }

  /** Python's `a <= b` on `str`: code-point lexicographic order, a proper
      prefix coming first. */
  predicate LexLe(a: string, b: string)
    decreases |a|
  {
    |a| == 0 || (|b| > 0 && (a[0] < b[0] || (a[0] == b[0] && LexLe(a[1..], b[1..]))))
  }

  /** The first position where `a` and `b` differ, or the end of the shorter. */
  ghost predicate AgreeUpTo(a: string, b: string, k: int) {
    0 <= k <= |a| && k <= |b| && a[..k] == b[..k]
  }

  /** The textbook definition of lexicographic order: `a` is a prefix of `b`,
      or at the first difference `a` has the smaller character. */
  lemma {:induction false} LexLeIffFirstDifference(a: string, b: string)
    ensures LexLe(a, b) <==>
      (AgreeUpTo(a, b, |a|) || exists k :: AgreeUpTo(a, b, k) && k < |a| && k < |b| && a[k] < b[k])
    decreases |a|
  {
    if |a| == 0 {
      assert AgreeUpTo(a, b, 0);
    } else if |b| == 0 {
    } else {
      LexLeIffFirstDifference(a[1..], b[1..]);
      if a[0] < b[0] {
        assert AgreeUpTo(a, b, 0);
      } else if a[0] == b[0] {
        if AgreeUpTo(a[1..], b[1..], |a| - 1) {
          assert a[..|a|] == [a[0]] + a[1..][..|a| - 1];
          assert b[..|a|] == [b[0]] + b[1..][..|a| - 1];
        }
        if AgreeUpTo(a, b, |a|) {
          assert a[1..][..|a| - 1] == a[..|a|][1..];
          assert b[1..][..|a| - 1] == b[..|a|][1..];
        }
        if k :| AgreeUpTo(a[1..], b[1..], k) && k < |a| - 1 && k < |b| - 1 && a[1..][k] < b[1..][k] {
          assert a[..k + 1] == [a[0]] + a[1..][..k];
          assert b[..k + 1] == [b[0]] + b[1..][..k];
          assert AgreeUpTo(a, b, k + 1);
        }
        if k :| AgreeUpTo(a, b, k) && k < |a| && k < |b| && a[k] < b[k] {
          assert k != 0;
          assert a[1..][..k - 1] == a[..k][1..];
          assert b[1..][..k - 1] == b[..k][1..];
          assert AgreeUpTo(a[1..], b[1..], k - 1);
        }
      }
    }
  }

  lemma {:induction false} LexLeTotal(a: string, b: string)
    ensures LexLe(a, b) || LexLe(b, a)
    decreases |a|
  {
    if |a| > 0 && |b| > 0 && a[0] == b[0] {
      LexLeTotal(a[1..], b[1..]);
    }
  }

  lemma {:induction false} LexLeTransitive(a: string, b: string, c: string)
    requires LexLe(a, b) && LexLe(b, c)
    ensures LexLe(a, c)
    decreases |a|
  {
    if |a| > 0 && a[0] == b[0] && b[0] == c[0] {
      LexLeTransitive(a[1..], b[1..], c[1..]);
    }
  }

  lemma {:induction false} LexLeAntisymmetric(a: string, b: string)
    requires LexLe(a, b) && LexLe(b, a)
    ensures a == b
    decreases |a|
  {
    if |a| > 0 {
      LexLeAntisymmetric(a[1..], b[1..]);
      assert a == [a[0]] + a[1..];
      assert b == [b[0]] + b[1..];
    }
  }
}
