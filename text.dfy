/**
 * The JavaScript string operations the aquarium engine relies on: case folding,
 * white space, prefixes, substring search and `split`.
 */
module Text {

  /** The characters JavaScript counts as white space or line terminators
      (what `String.prototype.trim` removes and what `\s` matches). */
  predicate IsSpace(c: char)
  {
    || c == ' ' || c == '\t' || c == '\n' || c == '\U{000B}' || c == '\U{000C}' || c == '\r'
    || c == '\U{00A0}' || c == '\U{1680}' || ('\U{2000}' <= c <= '\U{200A}')
    || c == '\U{2028}' || c == '\U{2029}' || c == '\U{202F}' || c == '\U{205F}'
    || c == '\U{3000}' || c == '\U{FEFF}'
  }

  predicate IsLowerAlnum(c: char)
  {
    ('a' <= c <= 'z') || ('0' <= c <= '9')
  }

  predicate IsAsciiAlnum(c: char)
  {
    ('A' <= c <= 'Z') || IsLowerAlnum(c)
  }

  /** `toLowerCase` of one character, for the ASCII capitals and for the two
      non-ASCII characters whose lower case contains an ASCII letter
      (U+0130 lowers to "i" followed by U+0307, U+212A KELVIN SIGN to "k").
      Every other character is kept as it is. */
  function LowerChar(c: char): (r: string)
    ensures 'A' <= c <= 'Z' ==> r == [(c as int + 32) as char]
    ensures !('A' <= c <= 'Z') && c != '\U{0130}' && c != '\U{212A}' ==> r == [c]
    ensures forall i :: 0 <= i < |r| ==> !('A' <= r[i] <= 'Z')
  {
    if 'A' <= c <= 'Z' then [(c as int + 32) as char]
    else if c == '\U{0130}' then ['i', '\U{0307}']
    else if c == '\U{212A}' then ['k']
    else [c]
  }

  /** `String.prototype.toLowerCase` (see LowerChar for the characters covered). */
  function Lower(s: string): (r: string)
  {
    if s == [] then [] else LowerChar(s[0]) + Lower(s[1..])
  }

  /** Lower-casing leaves no ASCII capital behind. */
  lemma {:induction false} LowerHasNoCapitals(s: string)
    ensures forall i :: 0 <= i < |Lower(s)| ==> !('A' <= Lower(s)[i] <= 'Z')
  {
    if s != [] {
      LowerHasNoCapitals(s[1..]);
      var h, t := LowerChar(s[0]), Lower(s[1..]);
      assert Lower(s) == h + t;
      forall i | 0 <= i < |h + t| ensures !('A' <= (h + t)[i] <= 'Z') {
        if i >= |h| {
          assert (h + t)[i] == t[i - |h|];
        }
      }
    }
  }

  /** A string without capitals or the two special characters is its own lower case. */
  predicate IsLowered(s: string)
  {
    forall i :: 0 <= i < |s| ==> !('A' <= s[i] <= 'Z') && s[i] != '\U{0130}' && s[i] != '\U{212A}'
  }

  lemma {:induction false} LowerFixes(s: string)
    requires IsLowered(s)
    ensures Lower(s) == s
  {
    if s != [] {
      assert IsLowered(s[1..]) by {
        forall i | 0 <= i < |s[1..]| ensures !('A' <= s[1..][i] <= 'Z') && s[1..][i] != '\U{0130}' && s[1..][i] != '\U{212A}' {
          assert s[1..][i] == s[i + 1];
        }
      }
      LowerFixes(s[1..]);
    }
  }

  lemma {:induction false} LowerAppend(a: string, b: string)
    ensures Lower(a + b) == Lower(a) + Lower(b)
  {
    if a == [] {
      assert a + b == b;
    } else {
      assert (a + b)[0] == a[0];
      assert (a + b)[1..] == a[1..] + b;
      LowerAppend(a[1..], b);
    }
  }

  /** A word of ASCII letters and digits lower-cases character by character
      into lower-case letters and digits. */
  lemma {:induction false} LowerOfWord(w: string)
    requires forall i :: 0 <= i < |w| ==> IsAsciiAlnum(w[i])
    ensures |Lower(w)| == |w| && forall i :: 0 <= i < |w| ==> IsLowerAlnum(Lower(w)[i])
  {
    if w != [] {
      assert forall i :: 0 <= i < |w[1..]| ==> w[1..][i] == w[i + 1];
      LowerOfWord(w[1..]);
      var t := Lower(w[1..]);
      assert Lower(w) == LowerChar(w[0]) + t;
      forall i | 0 < i < |w| ensures IsLowerAlnum(Lower(w)[i]) {
        assert Lower(w)[i] == t[i - 1];
      }
    }
  }

  /** `String.prototype.trimStart`. */
  function TrimStart(s: string): string
  {
    if s != [] && IsSpace(s[0]) then TrimStart(s[1..]) else s
  }

  /** trimStart drops a prefix of white space and stops at the first other
      character. */
  lemma {:induction false} TrimStartShape(s: string)
    ensures var r := TrimStart(s);
      && |r| <= |s| && r == s[|s| - |r|..]
      && (r == [] || !IsSpace(r[0]))
      && forall i :: 0 <= i < |s| - |r| ==> IsSpace(s[i])
  {
    if s != [] && IsSpace(s[0]) {
      TrimStartShape(s[1..]);
      var r := TrimStart(s);
      forall i | 1 <= i < |s| - |r| ensures IsSpace(s[i]) {
        assert s[i] == s[1..][i - 1];
      }
    }
  }

  /** `String.prototype.trimEnd`. */
  function TrimEnd(s: string): string
  {
    if s != [] && IsSpace(s[|s| - 1]) then TrimEnd(s[..|s| - 1]) else s
  }

  /** trimEnd drops a suffix of white space and stops at the last other
      character. */
  lemma {:induction false} TrimEndShape(s: string)
    ensures var r := TrimEnd(s);
      && |r| <= |s| && r == s[..|r|]
      && (r == [] || !IsSpace(r[|r| - 1]))
      && forall i :: |r| <= i < |s| ==> IsSpace(s[i])
  {
    if s != [] && IsSpace(s[|s| - 1]) {
      TrimEndShape(s[..|s| - 1]);
      var r := TrimEnd(s);
      forall i | |r| <= i < |s| - 1 ensures IsSpace(s[i]) {
        assert s[i] == s[..|s| - 1][i];
      }
    }
  }

  /** `String.prototype.trim`. */
  function Trim(s: string): (r: string)
  {
    TrimEnd(TrimStart(s))
  }

  /** Trim keeps a middle part `s[i..j]` and drops only white space. */
  lemma TrimBounds(s: string) returns (i: nat, j: nat)
    ensures i <= j <= |s| && Trim(s) == s[i..j]
    ensures forall n :: 0 <= n < i ==> IsSpace(s[n])
    ensures forall n :: j <= n < |s| ==> IsSpace(s[n])
  {
    var t := TrimStart(s);
    TrimStartShape(s);
    i := |s| - |t|;
    var r := TrimEnd(t);
    TrimEndShape(t);
    j := i + |r|;
    assert t == s[i..];
    assert r == t[..|r|];
    assert r == s[i..j];
    SpacesAfter(s, i, |r|);
  }

  lemma SpacesAfter(s: string, i: nat, m: nat)
    requires i + m <= |s|
    requires forall k :: m <= k < |s| - i ==> IsSpace(s[i..][k])
    ensures forall n :: i + m <= n < |s| ==> IsSpace(s[n])
  {
    forall n | i + m <= n < |s| ensures IsSpace(s[n]) {
      assert s[n] == s[i..][n - i];
    }
  }

  /** A string is its three consecutive slices put back together. */
  lemma Split3(s: string, i: nat, j: nat)
    requires i <= j <= |s|
    ensures s == s[0..i] + s[i..j] + s[j..|s|]
  {
  }

  /** `replace(/\s+/g, '')`: every white-space character removed. */
  function RemoveSpaces(s: string): (r: string)
    ensures forall i :: 0 <= i < |r| ==> !IsSpace(r[i])
    ensures |r| <= |s|
  {
    if s == [] then []
    else if IsSpace(s[0]) then RemoveSpaces(s[1..])
    else [s[0]] + RemoveSpaces(s[1..])
  }

  /** `String.prototype.startsWith`. */
  predicate StartsWith(s: string, prefix: string)
  {
    |prefix| <= |s| && s[..|prefix|] == prefix
  }

  /** `String.prototype.includes`. */
  predicate Contains(s: string, sub: string)
    decreases |s|
  {
    StartsWith(s, sub) || (s != [] && Contains(s[1..], sub))
  }

  /** The separators of `split(/[,\n;]/)`. */
  predicate IsListSeparator(c: char)
  {
    c == ',' || c == '\n' || c == ';'
  }

  predicate NoListSeparator(s: string)
  {
    forall i :: 0 <= i < |s| ==> !IsListSeparator(s[i])
  }

  /** `split(/[,\n;]/)`: the pieces between separators, empty ones included. */
  function SplitList(s: string): (parts: seq<string>)
    ensures |parts| >= 1
    ensures forall p :: p in parts ==> NoListSeparator(p)
  {
    if s == [] then [""]
    else if IsListSeparator(s[0]) then [""] + SplitList(s[1..])
    else
      var rest := SplitList(s[1..]);
      assert NoListSeparator([s[0]] + rest[0]) by {
        assert rest[0] in rest;
        forall i | 0 <= i < |[s[0]] + rest[0]| ensures !IsListSeparator(([s[0]] + rest[0])[i]) {
          if i > 0 {
            assert ([s[0]] + rest[0])[i] == rest[0][i - 1];
          }
        }
      }
      [[s[0]] + rest[0]] + rest[1..]
  }

  /** Text without a separator is a single piece. */
  lemma {:induction false} SplitListWhole(s: string)
    requires NoListSeparator(s)
    ensures SplitList(s) == [s]
  {
    if s != [] {
      assert NoListSeparator(s[1..]) by {
        forall i | 0 <= i < |s[1..]| ensures !IsListSeparator(s[1..][i]) {
          assert s[1..][i] == s[i + 1];
        }
      }
      SplitListWhole(s[1..]);
      assert [s[0]] + s[1..] == s;
    }
  }

  /** A separator after a separator-free prefix ends the first piece. */
  lemma {:induction false} SplitListAt(a: string, sep: char, b: string)
    requires NoListSeparator(a) && IsListSeparator(sep)
    ensures SplitList(a + [sep] + b) == [a] + SplitList(b)
  {
    var s := a + [sep] + b;
    if a == [] {
      assert s == [sep] + b;
      assert s[1..] == b;
    } else {
      assert NoListSeparator(a[1..]) by {
        forall i | 0 <= i < |a[1..]| ensures !IsListSeparator(a[1..][i]) {
          assert a[1..][i] == a[i + 1];
        }
      }
      SplitListAt(a[1..], sep, b);
      assert s[0] == a[0] && s[1..] == a[1..] + [sep] + b;
      assert [a[0]] + a[1..] == a;
    }
  }

  /** `split(sep)` with a non-empty string separator: occurrences are found
      from left to right and do not overlap. */
  function Split(s: string, sep: string): (parts: seq<string>)
    requires |sep| > 0
    ensures |parts| >= 1
    decreases |s|
  {
    if s == [] then [""]
    else if StartsWith(s, sep) then [""] + Split(s[|sep|..], sep)
    else
      var rest := Split(s[1..], sep);
      [[s[0]] + rest[0]] + rest[1..]
  }

  lemma {:induction false} SplitWithoutSeparator(b: string)
    requires !Contains(b, "::")
    ensures Split(b, "::") == [b]
    decreases |b|
  {
    if b != [] {
      SplitWithoutSeparator(b[1..]);
      assert [b[0]] + b[1..] == b;
    }
  }

  /** Splitting `a + "::" + b` on "::" gives back `a` and `b` when the
      separator occurs neither in `a + ":"` nor in `b`. */
  lemma {:induction false} SplitJoined(a: string, b: string)
    requires !Contains(a + ":", "::")
    requires !Contains(b, "::")
    ensures Split(a + "::" + b, "::") == [a, b]
    decreases |a|
  {
    var s := a + "::" + b;
    if a == [] {
      assert s == "::" + b;
      assert s[2..] == b;
      SplitWithoutSeparator(b);
    } else {
      JoinedTail(a, b);
      SplitJoined(a[1..], b);
      assert [a[0]] + a[1..] == a;
    }
  }

  /** One step of SplitJoined: the joined text does not start with the
      separator, and dropping its first character joins the rest of `a`. */
  lemma JoinedTail(a: string, b: string)
    requires a != [] && !Contains(a + ":", "::")
    ensures !StartsWith(a + "::" + b, "::")
    ensures (a + "::" + b)[1..] == a[1..] + "::" + b
    ensures !Contains(a[1..] + ":", "::")
    ensures (a + "::" + b)[0] == a[0]
  {
    var s := a + "::" + b;
    assert !StartsWith(a + ":", "::");
    assert (a + ":")[..2] == s[..2];
    assert (a + ":")[1..] == a[1..] + ":";
  }

  /** The decimal text of a natural number, as a template literal writes it. */
  function NatText(n: nat): (r: string)
    ensures |r| >= 1
    ensures forall i :: 0 <= i < |r| ==> '0' <= r[i] <= '9'
  {
    if n < 10 then [('0' as int + n) as char]
    else NatText(n / 10) + [('0' as int + n % 10) as char]
  }
}
