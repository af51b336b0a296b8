/**
 * The identifier canonicaliser: `toSlug` turns free text into the
 * lower-case, dash-separated key that species are compared by
 * (screens/AquariumScreen.tsx, `toSlug`).
 *
 * The source runs trim, toLowerCase, a camel-case split, the run-collapsing
 * replace and the dash strip, in that order. The camel-case replace looks for
 * a lower-case letter followed by a capital; since it runs after
 * toLowerCase there is never a capital to find, so it never changes the
 * string and does not appear here.
 */
module Slug {
  import opened Text

  predicate IsSlugChar(c: char)
  {
    IsLowerAlnum(c) || c == '-'
  }

  /** No two dashes next to each other. */
  predicate NoDoubleDash(s: string)
  {
    forall i :: 0 < i < |s| ==> s[i - 1] != '-' || s[i] != '-'
  }

  /** What `toSlug` produces: letters, digits and single dashes, with no dash
      at either end. */
  predicate IsSlug(s: string)
  {
    && (forall i :: 0 <= i < |s| ==> IsSlugChar(s[i]))
    && NoDoubleDash(s)
    && (s == [] || (s[0] != '-' && s[|s| - 1] != '-'))
  }

  /** The letters and digits of `s`, in order. */
  function AlnumOf(s: string): (r: string)
    ensures forall i :: 0 <= i < |r| ==> IsLowerAlnum(r[i])
  {
    if s == [] then []
    else if IsLowerAlnum(s[0]) then [s[0]] + AlnumOf(s[1..])
    else AlnumOf(s[1..])
  }

  /** Drops the run of separators at the front of `s`. */
  function SkipSeparators(s: string): (r: string)
    ensures |r| <= |s| && r == s[|s| - |r|..]
    ensures r == [] || IsLowerAlnum(r[0])
  {
    if s != [] && !IsLowerAlnum(s[0]) then SkipSeparators(s[1..]) else s
  }

  /** `replace(/[^a-z0-9]+/g, '-')`: every maximal run of characters other
      than a-z and 0-9 becomes one dash. */
  function CollapseRuns(s: string): (r: string)
    ensures forall i :: 0 <= i < |r| ==> IsSlugChar(r[i])
    ensures NoDoubleDash(r)
    ensures s == [] <==> r == []
    ensures s != [] && IsLowerAlnum(s[0]) ==> r[0] == s[0]
    ensures s != [] && !IsLowerAlnum(s[0]) ==> r[0] == '-'
    decreases |s|
  {
    if s == [] then []
    else if IsLowerAlnum(s[0]) then [s[0]] + CollapseRuns(s[1..])
    else ['-'] + CollapseRuns(SkipSeparators(s[1..]))
  }

  function StripLeadingDashes(s: string): string
  {
    if s != [] && s[0] == '-' then StripLeadingDashes(s[1..]) else s
  }

  lemma {:induction false} StripLeadingShape(s: string)
    ensures var r := StripLeadingDashes(s);
      && |r| <= |s| && r == s[|s| - |r|..]
      && (r == [] || r[0] != '-')
      && forall i :: 0 <= i < |s| - |r| ==> s[i] == '-'
  {
    if s != [] && s[0] == '-' {
      StripLeadingShape(s[1..]);
      var r := StripLeadingDashes(s);
      forall i | 1 <= i < |s| - |r| ensures s[i] == '-' {
        assert s[i] == s[1..][i - 1];
      }
    }
  }

  function StripTrailingDashes(s: string): string
  {
    if s != [] && s[|s| - 1] == '-' then StripTrailingDashes(s[..|s| - 1]) else s
  }

  lemma {:induction false} StripTrailingShape(s: string)
    ensures var r := StripTrailingDashes(s);
      && |r| <= |s| && r == s[..|r|]
      && (r == [] || r[|r| - 1] != '-')
      && forall i :: |r| <= i < |s| ==> s[i] == '-'
  {
    if s != [] && s[|s| - 1] == '-' {
      StripTrailingShape(s[..|s| - 1]);
      var r := StripTrailingDashes(s);
      forall i | |r| <= i < |s| - 1 ensures s[i] == '-' {
        assert s[i] == s[..|s| - 1][i];
      }
    }
  }

  /** `replace(/^-+|-+$/g, '')`. */
  function StripDashes(s: string): string
  {
    StripTrailingDashes(StripLeadingDashes(s))
  }

  /** StripDashes keeps a middle part `s[i..j]` and drops only dashes. */
  lemma StripDashesBounds(s: string) returns (i: nat, j: nat)
    ensures i <= j <= |s| && StripDashes(s) == s[i..j]
    ensures forall n :: 0 <= n < i ==> s[n] == '-'
    ensures forall n :: j <= n < |s| ==> s[n] == '-'
  {
    var t := StripLeadingDashes(s);
    var r := StripTrailingDashes(t);
    StripLeadingShape(s);
    StripTrailingShape(t);
    i, j := |s| - |t|, |s| - |t| + |r|;
    assert r == s[i..j];
    assert forall n :: j <= n < |s| ==> s[n] == t[n - i];
  }

  /** `toSlug(k)` for a string `k`. */
  function ToSlug(k: string): (r: string)
  {
    StripDashes(CollapseRuns(Lower(Trim(k))))
  }

  /** Every slug is well formed. */
  lemma ToSlugIsSlug(k: string)
    ensures IsSlug(ToSlug(k))
  {
    StripDashesIsSlug(CollapseRuns(Lower(Trim(k))));
  }

  lemma StripDashesIsSlug(c: string)
    requires forall i :: 0 <= i < |c| ==> IsSlugChar(c[i])
    requires NoDoubleDash(c)
    ensures IsSlug(StripDashes(c))
  {
    var r := StripDashes(c);
    var i, j := StripDashesBounds(c);
    StripLeadingShape(c);
    StripTrailingShape(StripLeadingDashes(c));
    forall n | 0 <= n < |r| ensures IsSlugChar(r[n]) {
      assert r[n] == c[i + n];
    }
    forall n | 0 < n < |r| ensures r[n - 1] != '-' || r[n] != '-' {
      assert r[n - 1] == c[i + n - 1] && r[n] == c[i + n];
    }
  }

  /** The slug of a word of ASCII letters and digits is its lower case. */
  lemma ToSlugOfWord(w: string)
    requires w != [] && forall i :: 0 <= i < |w| ==> IsAsciiAlnum(w[i])
    ensures ToSlug(w) == Lower(w)
  {
    TrimWithoutSpaceAtEnds(w);
    LowerOfWord(w);
    AlnumFixes(Lower(w));
  }

  lemma TrimWithoutSpaceAtEnds(w: string)
    requires w != [] && !IsSpace(w[0]) && !IsSpace(w[|w| - 1])
    ensures Trim(w) == w
  {
  }

  lemma AlnumFixes(l: string)
    requires forall i :: 0 <= i < |l| ==> IsLowerAlnum(l[i])
    ensures StripDashes(CollapseRuns(l)) == l
  {
    assert forall i :: 0 <= i < |l| ==> IsSlugChar(l[i]) && l[i] != '-';
    assert NoDoubleDash(l);
    CollapseFixes(l);
    NoDashAtEnds(l);
  }

  lemma NoDashAtEnds(l: string)
    requires l == [] || (l[0] != '-' && l[|l| - 1] != '-')
    ensures StripDashes(l) == l
  {
    assert StripLeadingDashes(l) == l;
    assert StripTrailingDashes(l) == l;
  }

  /** Leading white space does not change a slug. */
  lemma ToSlugSkipsSpace(c: char, w: string)
    requires IsSpace(c)
    ensures ToSlug([c] + w) == ToSlug(w)
  {
    assert ([c] + w)[1..] == w;
    assert TrimStart([c] + w) == TrimStart(w);
  }

  lemma {:induction false} CollapseFixes(t: string)
    requires forall i :: 0 <= i < |t| ==> IsSlugChar(t[i])
    requires NoDoubleDash(t)
    ensures CollapseRuns(t) == t
    decreases |t|
  {
    if t != [] {
      var u := t[1..];
      SlugCharsTail(t);
      CollapseFixes(u);
      if IsLowerAlnum(t[0]) {
        calc {
          CollapseRuns(t);
          [t[0]] + CollapseRuns(u);
          [t[0]] + u;
          t;
        }
      } else {
        assert u == [] || IsLowerAlnum(u[0]) by {
          if u != [] {
            assert u[0] == t[1];
          }
        }
        calc {
          CollapseRuns(t);
          ['-'] + CollapseRuns(SkipSeparators(u));
          ['-'] + CollapseRuns(u);
          ['-'] + u;
          t;
        }
      }
    }
  }

  lemma SlugCharsTail(t: string)
    requires t != []
    requires forall i :: 0 <= i < |t| ==> IsSlugChar(t[i])
    requires NoDoubleDash(t)
    ensures forall i :: 0 <= i < |t[1..]| ==> IsSlugChar(t[1..][i])
    ensures NoDoubleDash(t[1..])
  {
    var u := t[1..];
    forall i | 0 <= i < |u| ensures IsSlugChar(u[i]) {
      assert u[i] == t[i + 1];
    }
    forall i | 0 < i < |u| ensures u[i - 1] != '-' || u[i] != '-' {
      assert u[i - 1] == t[i] && u[i] == t[i + 1];
    }
  }

  /** A slug is its own slug. */
  lemma SlugFixes(t: string)
    requires IsSlug(t)
    ensures ToSlug(t) == t
  {
    if t != [] {
      assert IsSlugChar(t[0]) && IsSlugChar(t[|t| - 1]);
      TrimWithoutSpaceAtEnds(t);
    }
    LowerFixes(t);
    CollapseFixes(t);
    NoDashAtEnds(t);
  }

  /** `toSlug(toSlug(k)) == toSlug(k)`. */
  lemma ToSlugIdempotent(k: string)
    ensures ToSlug(ToSlug(k)) == ToSlug(k)
  {
    ToSlugIsSlug(k);
    SlugFixes(ToSlug(k));
  }

  lemma {:induction false} AlnumOfAppend(a: string, b: string)
    ensures AlnumOf(a + b) == AlnumOf(a) + AlnumOf(b)
  {
    if a == [] {
      assert a + b == b;
    } else {
      assert (a + b)[0] == a[0] && (a + b)[1..] == a[1..] + b;
      AlnumOfAppend(a[1..], b);
    }
  }

  lemma {:induction false} AlnumOfNone(s: string)
    requires forall i :: 0 <= i < |s| ==> !IsLowerAlnum(s[i])
    ensures AlnumOf(s) == []
  {
    if s != [] {
      assert forall i :: 0 <= i < |s[1..]| ==> s[1..][i] == s[i + 1];
      AlnumOfNone(s[1..]);
    }
  }

  lemma {:induction false} AlnumOfCollapse(s: string)
    ensures AlnumOf(CollapseRuns(s)) == AlnumOf(s)
    decreases |s|
  {
    if s != [] {
      if IsLowerAlnum(s[0]) {
        AlnumOfCollapse(s[1..]);
        assert CollapseRuns(s) == [s[0]] + CollapseRuns(s[1..]);
        assert ([s[0]] + CollapseRuns(s[1..]))[1..] == CollapseRuns(s[1..]);
      } else {
        var u := s[1..];
        var v := SkipSeparators(u);
        AlnumOfCollapse(v);
        assert u == u[..|u| - |v|] + v;
        AlnumOfNone(u[..|u| - |v|]) by {
          SkipSkipsSeparators(u);
        }
        AlnumOfAppend(u[..|u| - |v|], v);
        assert (['-'] + CollapseRuns(v))[1..] == CollapseRuns(v);
      }
    }
  }

  lemma {:induction false} SkipSkipsSeparators(u: string)
    ensures forall i :: 0 <= i < |u| - |SkipSeparators(u)| ==> !IsLowerAlnum(u[i])
    decreases |u|
  {
    if u != [] && !IsLowerAlnum(u[0]) {
      SkipSkipsSeparators(u[1..]);
      assert forall i :: 0 < i < |u| ==> u[i] == u[1..][i - 1];
    }
  }

  /** The letters and digits of the slug are those of the lower-cased
      input, in the same order: only the separators change. */
  lemma ToSlugKeepsAlnum(k: string)
    ensures AlnumOf(ToSlug(k)) == AlnumOf(Lower(k))
  {
    AlnumOfLowerTrim(k);
    AlnumOfCollapse(Lower(Trim(k)));
    AlnumOfStripDashes(CollapseRuns(Lower(Trim(k))));
  }

  lemma AlnumOfLowerTrim(k: string)
    ensures AlnumOf(Lower(Trim(k))) == AlnumOf(Lower(k))
  {
    var i, j := TrimBounds(k);
    SpacesIn(k, 0, i);
    SpacesIn(k, j, |k|);
    AlnumOfLowerMiddle(k, i, j);
  }

  /** When what lies outside `k[i..j]` is unchanged by lower-casing and has
      no letter or digit, only the middle contributes letters and digits. */
  lemma AlnumOfLowerMiddle(k: string, i: nat, j: nat)
    requires i <= j <= |k|
    requires Lower(k[0..i]) == k[0..i] && AlnumOf(k[0..i]) == []
    requires Lower(k[j..|k|]) == k[j..|k|] && AlnumOf(k[j..|k|]) == []
    ensures AlnumOf(Lower(k[i..j])) == AlnumOf(Lower(k))
  {
    var pre, mid, post := k[0..i], k[i..j], k[j..|k|];
    Split3(k, i, j);
    LowerAppend3(pre, mid, post);
    AlnumOfAppend3(pre, Lower(mid), post);
  }

  lemma LowerAppend3(a: string, b: string, c: string)
    ensures Lower(a + b + c) == Lower(a) + Lower(b) + Lower(c)
  {
    LowerAppend(a + b, c);
    LowerAppend(a, b);
  }

  lemma AlnumOfAppend3(a: string, b: string, c: string)
    ensures AlnumOf(a + b + c) == AlnumOf(a) + AlnumOf(b) + AlnumOf(c)
  {
    AlnumOfAppend(a + b, c);
    AlnumOfAppend(a, b);
  }

  /** A stretch of white space is unchanged by lower-casing and holds no
      letter or digit. */
  lemma SpacesIn(s: string, lo: nat, hi: nat)
    requires lo <= hi <= |s|
    requires forall n :: lo <= n < hi ==> IsSpace(s[n])
    ensures Lower(s[lo..hi]) == s[lo..hi] && AlnumOf(s[lo..hi]) == []
  {
    forall n | 0 <= n < hi - lo ensures IsSpace(s[lo..hi][n]) {
      assert s[lo..hi][n] == s[lo + n];
    }
    SpacesOnly(s[lo..hi]);
  }

  lemma SpacesOnly(s: string)
    requires forall i :: 0 <= i < |s| ==> IsSpace(s[i])
    ensures Lower(s) == s && AlnumOf(s) == []
  {
    forall i | 0 <= i < |s|
      ensures !('A' <= s[i] <= 'Z') && s[i] != '\U{0130}' && s[i] != '\U{212A}' && !IsLowerAlnum(s[i])
    {
      assert IsSpace(s[i]);
    }
    LowerFixes(s);
    AlnumOfNone(s);
  }

  lemma AlnumOfStripDashes(c: string)
    ensures AlnumOf(StripDashes(c)) == AlnumOf(c)
  {
    var a, b := StripDashesBounds(c);
    NoAlnumIn(c, 0, a);
    NoAlnumIn(c, b, |c|);
    Split3(c, a, b);
    AlnumOfAppend3(c[0..a], c[a..b], c[b..|c|]);
  }

  /** A stretch holding no letter or digit contributes none. */
  lemma NoAlnumIn(s: string, lo: nat, hi: nat)
    requires lo <= hi <= |s|
    requires forall n :: lo <= n < hi ==> !IsLowerAlnum(s[n])
    ensures AlnumOf(s[lo..hi]) == []
  {
    forall n | 0 <= n < hi - lo ensures !IsLowerAlnum(s[lo..hi][n]) {
      assert s[lo..hi][n] == s[lo + n];
    }
    AlnumOfNone(s[lo..hi]);
  }
}
