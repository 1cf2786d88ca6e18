// The string operations of the .NET base library that the activator relies
// on: String.IsNullOrWhiteSpace, String.ToUpperInvariant, comparison with
// StringComparison.OrdinalIgnoreCase, and String.Replace(oldValue, "").
// Upper-casing is restricted to ASCII letters (see README).
module Text {
  import opened Types

  /** Char.IsWhiteSpace: the Unicode White_Space characters (the Zs, Zl and
      Zp categories, the controls U+0009 to U+000D, and U+0085). */
  predicate IsWhiteSpace(c: char) {
    c == ' ' || '\t' <= c <= '\r' || c == '\U{85}' || c == '\U{A0}' || c == '\U{1680}'
    || '\U{2000}' <= c <= '\U{200A}' || c == '\U{2028}' || c == '\U{2029}'
    || c == '\U{202F}' || c == '\U{205F}' || c == '\U{3000}'
  }

  /** String.IsNullOrWhiteSpace: null, empty, or white space only. */
  predicate IsNullOrWhiteSpace(s: Option<string>)
    ensures s == Some([]) ==> IsNullOrWhiteSpace(s)
    ensures s.Some? && (exists c :: c in s.value && !IsWhiteSpace(c)) ==> !IsNullOrWhiteSpace(s)
  {
    match s
    case None => true
    case Some(t) => forall i :: 0 <= i < |t| ==> IsWhiteSpace(t[i])
  }

  predicate IsLowerAscii(c: char) {
    'a' <= c <= 'z'
  }

  /** Invariant upper-casing of one character, restricted to ASCII. */
  function ToUpperChar(c: char): (u: char)
    ensures !IsLowerAscii(u)
    ensures IsLowerAscii(c) ==> u as int == c as int - 32
    ensures !IsLowerAscii(c) ==> u == c
  {
    if IsLowerAscii(c) then (c as int - 32) as char else c
  }

  /** String.ToUpperInvariant, character by character. */
  function ToUpperInvariant(s: string): (r: string)
    ensures |r| == |s|
    ensures forall i :: 0 <= i < |r| ==> !IsLowerAscii(r[i])
    ensures forall i :: 0 <= i < |s| && !IsLowerAscii(s[i]) ==> r[i] == s[i]
    ensures forall i :: 0 <= i < |s| && IsLowerAscii(s[i]) ==> r[i] as int == s[i] as int - 32
  {
    seq(|s|, i requires 0 <= i < |s| => ToUpperChar(s[i]))
  }

  /** String.Equals(a, b, StringComparison.OrdinalIgnoreCase): same length,
      and the characters agree position by position once upper-cased. */
  predicate EqualsIgnoreCase(a: string, b: string)
    ensures a == b ==> EqualsIgnoreCase(a, b)
    ensures EqualsIgnoreCase(a, b) ==> |a| == |b| && ToUpperInvariant(a) == ToUpperInvariant(b)
  {
    |a| == |b| && forall i :: 0 <= i < |a| ==> ToUpperChar(a[i]) == ToUpperChar(b[i])
  }

  /** The comparison identifies exactly the strings with the same upper-case form. */
  lemma EqualsIgnoreCaseIffSameUpper(a: string, b: string)
    ensures EqualsIgnoreCase(a, b) <==> ToUpperInvariant(a) == ToUpperInvariant(b)
  {
    if ToUpperInvariant(a) == ToUpperInvariant(b) {
      forall i | 0 <= i < |a| ensures ToUpperChar(a[i]) == ToUpperChar(b[i]) {
        assert ToUpperInvariant(a)[i] == ToUpperInvariant(b)[i];
      }
    }
  }

  lemma ToUpperInvariantAppend(a: string, b: string)
    ensures ToUpperInvariant(a + b) == ToUpperInvariant(a) + ToUpperInvariant(b)
  {
  }

  /** pat stands in s at position i. */
  predicate OccursAt(s: string, pat: string, i: int) {
    0 <= i && i + |pat| <= |s| && s[i..i + |pat|] == pat
  }

  /** s holds pat at some position. */
  predicate Contains(s: string, pat: string) {
    exists i :: 0 <= i <= |s| && OccursAt(s, pat, i)
  }

  /** No proper prefix of pat is also a suffix of it, so two occurrences of
      pat can never overlap. */
  predicate HasNoBorder(pat: string) {
    forall k :: 0 < k < |pat| ==> pat[k..] != pat[..|pat| - k]
  }

  /** String.Replace(pat, ""): one left-to-right pass that deletes every
      occurrence of pat, resuming the search right after each deletion. */
  function RemoveAll(s: string, pat: string): (r: string)
    requires pat != []
    ensures |r| <= |s|
    ensures forall c :: c in r ==> c in s
    decreases |s|
  {
    if s == [] then []
    else if pat <= s then RemoveAll(s[|pat|..], pat)
    else [s[0]] + RemoveAll(s[1..], pat)
  }

  /** An occurrence of a border-free pattern is deleted wherever it stands,
      and the text on either side is processed as if the other were absent. */
  lemma {:induction false} RemoveAllSplits(a: string, b: string, pat: string)
    requires pat != [] && HasNoBorder(pat)
    ensures RemoveAll(a + pat + b, pat) == RemoveAll(a, pat) + RemoveAll(b, pat)
    decreases |a|
  {
    var s := a + pat + b;
    if a == [] {
      assert s == pat + b;
      assert s[|pat|..] == b;
    } else if pat <= a {
      assert pat <= s by { assert s[..|pat|] == a[..|pat|]; }
      assert s[|pat|..] == a[|pat|..] + pat + b;
      RemoveAllSplits(a[|pat|..], b, pat);
    } else {
      if |a| < |pat| {
        var k := |a|;
        assert s[k..|pat|] == pat[..|pat| - k];
        assert s[..|pat|][k..] == s[k..|pat|];
        assert pat[k..] != pat[..|pat| - k];
      } else {
        assert s[..|pat|] == a[..|pat|];
      }
      assert !(pat <= s);
      assert s[1..] == a[1..] + pat + b;
      RemoveAllSplits(a[1..], b, pat);
    }
  }

  /** Text without an occurrence comes back unchanged. */
  lemma {:induction false} RemoveAllWithoutOccurrence(s: string, pat: string)
    requires pat != [] && !Contains(s, pat)
    ensures RemoveAll(s, pat) == s
    decreases |s|
  {
    if s != [] {
      assert OccursAt(s, pat, 0) <== pat <= s;
      if Contains(s[1..], pat) {
        var i :| 0 <= i <= |s[1..]| && OccursAt(s[1..], pat, i);
        assert s[1..][i..i + |pat|] == s[i + 1..i + 1 + |pat|];
        assert OccursAt(s, pat, i + 1);
      }
      RemoveAllWithoutOccurrence(s[1..], pat);
    }
  }

  /** Text with an occurrence comes back strictly shorter. */
  lemma {:induction false} RemoveAllWithOccurrence(s: string, pat: string)
    requires pat != [] && Contains(s, pat)
    ensures |RemoveAll(s, pat)| < |s|
    decreases |s|
  {
    if !(pat <= s) {
      var i :| 0 <= i <= |s| && OccursAt(s, pat, i);
      assert OccursAt(s[1..], pat, i - 1) by {
        assert s[1..][i - 1..i - 1 + |pat|] == s[i..i + |pat|];
      }
      RemoveAllWithOccurrence(s[1..], pat);
    }
  }

  /** Replace leaves a string unchanged exactly when the pattern does not occur in it. */
  lemma RemoveAllFixedIff(s: string, pat: string)
    requires pat != []
    ensures RemoveAll(s, pat) == s <==> !Contains(s, pat)
  {
    if Contains(s, pat) {
      RemoveAllWithOccurrence(s, pat);
    } else {
      RemoveAllWithoutOccurrence(s, pat);
    }
  }
}
