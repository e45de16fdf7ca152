/**
 * The Python `str` operations the scrapers rely on, restricted to ASCII:
 * `isspace`/`\s`, `\d`, `lower`, `strip`, `startswith`, `in`, `split` and `<`.
 */
module Text {
  import opened Wrappers

  /** `str.isspace()` and the regex class `\s` on ASCII: \t \n \v \f \r, space and the separators \x1c-\x1f. */
  predicate IsSpace(c: char) {
    c == ' ' || ('\t' <= c <= '\r') || ('\U{1C}' <= c <= '\U{1F}')
  }

  /** The regex class `\d` on ASCII. */
  predicate IsDigit(c: char) {
    '0' <= c <= '9'
  }

  predicate IsUpper(c: char) {
    'A' <= c <= 'Z'
  }

  function LowerChar(c: char): (d: char)
    ensures !IsUpper(d)
    ensures IsSpace(d) <==> IsSpace(c)
  {
    if IsUpper(c) then (c as int + 32) as char else c
  }

  /** `str.lower()`: the same length, upper-case letters mapped to lower case. */
  function Lower(s: string): (r: string)
    ensures |r| == |s|
    ensures forall i :: 0 <= i < |s| ==> r[i] == LowerChar(s[i])
  {
    seq(|s|, i requires 0 <= i < |s| => LowerChar(s[i]))
  }

  /** A lower-cased string has nothing left to lower. */
  lemma LowerIdempotent(s: string)
    ensures Lower(Lower(s)) == Lower(s)
  {
    var l := Lower(s);
    assert forall i :: 0 <= i < |l| ==> Lower(l)[i] == l[i];
  }

  function LStrip(s: string): (r: string)
    ensures |r| <= |s| && r == s[|s| - |r|..]
    ensures r == [] || !IsSpace(r[0])
    ensures forall k :: 0 <= k < |s| - |r| ==> IsSpace(s[k])
  {
    if |s| > 0 && IsSpace(s[0]) then LStrip(s[1..]) else s
  }

  function RStrip(s: string): (r: string)
    ensures |r| <= |s| && r == s[..|r|]
    ensures r == [] || !IsSpace(r[|r| - 1])
    ensures forall k :: |r| <= k < |s| ==> IsSpace(s[k])
  {
    if |s| > 0 && IsSpace(s[|s| - 1]) then RStrip(s[..|s| - 1]) else s
  }

  /** A prefix of a suffix is a slice. */
  lemma PrefixOfSuffix(s: string, o: nat, n: nat)
    requires o + n <= |s|
    ensures s[o..][..n] == s[o..o + n]
  {
  }

  /** `str.strip()`: the slice of `s` left once the whitespace at both ends is removed. */
  function Strip(s: string): (r: string)
    ensures |r| <= |s|
    ensures r == [] || (!IsSpace(r[0]) && !IsSpace(r[|r| - 1]))
    ensures var o := |s| - |LStrip(s)|; o + |r| <= |s| && r == s[o..o + |r|]
    ensures var o := |s| - |LStrip(s)|; forall k :: 0 <= k < o ==> IsSpace(s[k])
    ensures var o := |s| - |LStrip(s)|; forall k :: o + |r| <= k < |s| ==> IsSpace(s[k])
  {
    var l := LStrip(s);
    var r := RStrip(l);
    PrefixOfSuffix(s, |s| - |l|, |r|);
    r
  }

  /** A string that already has no whitespace at either end is its own strip. */
  lemma StripTrimmed(s: string)
    requires s == [] || (!IsSpace(s[0]) && !IsSpace(s[|s| - 1]))
    ensures Strip(s) == s
  {
  }

  /** `s.startswith(p)`. */
  predicate IsPrefix(p: string, s: string) {
    |p| <= |s| && s[..|p|] == p
  }

  /** `pat` occurs in `s` at position k. */
  predicate OccursAt(s: string, pat: string, k: nat) {
    k + |pat| <= |s| && s[k..k + |pat|] == pat
  }

  /** The least position from i on at which `pat` occurs in `s` (`str.find` from i). */
  function IndexFrom(s: string, pat: string, i: nat): (r: Option<nat>)
    requires i <= |s|
    decreases |s| - i
    ensures r.Some? ==> i <= r.value && OccursAt(s, pat, r.value)
    ensures r.Some? ==> forall k :: i <= k < r.value ==> !OccursAt(s, pat, k)
    ensures r.None? ==> forall k :: i <= k <= |s| ==> !OccursAt(s, pat, k)
  {
    if i + |pat| > |s| then None
    else if s[i..i + |pat|] == pat then Some(i)
    else IndexFrom(s, pat, i + 1)
  }

  /** Python's `pat in s`. */
  predicate Contains(s: string, pat: string) {
    IndexFrom(s, pat, 0).Some?
  }

  /** `s.split(sep)[0]`: the text before the first occurrence of `sep`, or all of `s`. */
  function Before(s: string, sep: string): (r: string)
    ensures IsPrefix(r, s)
    ensures !Contains(s, sep) ==> r == s
    ensures Contains(s, sep) ==> OccursAt(s, sep, |r|)
    ensures forall k: nat :: k < |r| ==> !OccursAt(s, sep, k)
  {
    match IndexFrom(s, sep, 0)
    case Some(i) => s[..i]
    case None => s
  }

  /** The text after the first occurrence of `sep`. */
  function After(s: string, sep: string): (r: string)
    requires Contains(s, sep)
    ensures |r| + |sep| <= |s| && r == s[|s| - |r|..]
    ensures OccursAt(s, sep, |s| - |r| - |sep|)
    ensures forall k :: 0 <= k < |s| - |r| - |sep| ==> !OccursAt(s, sep, k)
  {
    var i := IndexFrom(s, sep, 0).value;
    s[i + |sep|..]
  }

  /** `s.split(sep)[1]`: the text between the first and the second occurrence of `sep` (or the end). */
  function SecondPiece(s: string, sep: string): string
    requires Contains(s, sep)
  {
    Before(After(s, sep), sep)
  }

  /** When the first character of `pat` is absent from s[i..j], the search from i goes on from j. */
  lemma {:induction false} IndexFromSkip(s: string, pat: string, i: nat, j: nat)
    requires i <= j <= |s| && |pat| > 0
    requires forall k :: i <= k < j ==> s[k] != pat[0]
    ensures IndexFrom(s, pat, i) == IndexFrom(s, pat, j)
    decreases j - i
  {
    if i < j {
      assert i + |pat| > |s| || s[i..i + |pat|] != pat by {
        if i + |pat| <= |s| {
          assert s[i..i + |pat|][0] == s[i];
        }
      }
      IndexFromSkip(s, pat, i + 1, j);
    }
  }

  /** A pattern whose first character does not occur in `s` does not occur in `s`. */
  lemma NotContains(s: string, pat: string)
    requires |pat| > 0
    requires forall k :: 0 <= k < |s| ==> s[k] != pat[0]
    ensures !Contains(s, pat)
  {
    IndexFromSkip(s, pat, 0, |s|);
  }

  /** A pattern that starts `s` is found at position 0. */
  lemma FoundAtStart(s: string, pat: string, i: nat)
    requires i <= |s| && OccursAt(s, pat, i)
    ensures IndexFrom(s, pat, i) == Some(i)
  {
  }

  /** An occurrence inside a slice is an occurrence in the whole. */
  lemma OccursInSlice(s: string, o: nat, n: nat, pat: string, k: nat)
    requires o + n <= |s| && OccursAt(s[o..o + n], pat, k)
    ensures OccursAt(s, pat, o + k)
  {
    var inner, outer := s[o..o + n][k..k + |pat|], s[o + k..o + k + |pat|];
    assert forall j :: 0 <= j < |pat| ==> inner[j] == outer[j];
    assert inner == outer;
  }

  /** The text before the first occurrence of a separator does not contain it. */
  lemma NoneBefore(s: string, sep: string)
    requires |sep| > 0
    ensures !Contains(Before(s, sep), sep)
  {
    var b := Before(s, sep);
    assert b == s[0..|b|];
    forall k: nat ensures !OccursAt(b, sep, k) {
      if OccursAt(b, sep, k) {
        OccursInSlice(s, 0, |b|, sep, k);
      }
    }
  }

  /** Stripping a string that does not contain a pattern cannot make it appear. */
  lemma NoneInStrip(s: string, pat: string)
    requires !Contains(s, pat)
    ensures !Contains(Strip(s), pat)
  {
    var r := Strip(s);
    var o := |s| - |LStrip(s)|;
    forall k: nat ensures !OccursAt(r, pat, k) {
      if OccursAt(r, pat, k) {
        OccursInSlice(s, o, |r|, pat, k);
      }
    }
  }

  /** Splitting at a separator that starts the string leaves what follows it. */
  lemma AfterLeading(pat: string, tail: string)
    ensures Contains(pat + tail, pat) && After(pat + tail, pat) == tail
  {
    var s := pat + tail;
    assert s[0..|pat|] == pat;
    FoundAtStart(s, pat, 0);
  }

  /** One leading blank before a trimmed string is all that `strip` removes. */
  lemma StripLeadingBlank(rest: string)
    requires rest != [] && !IsSpace(rest[0]) && !IsSpace(rest[|rest| - 1])
    ensures Strip(" " + rest) == rest
  {
    var t := " " + rest;
    assert t[0] == ' ' && t[1..] == rest;
    assert LStrip(rest) == rest;
    assert LStrip(t) == rest;
    assert RStrip(rest) == rest;
  }

  /** Python's `a <= b` on strings: lexicographic order of code points, a proper prefix first. */
  predicate StrLe(a: string, b: string)
    decreases |a|
  {
    if a == [] then true
    else if b == [] then false
    else if a[0] != b[0] then a[0] < b[0]
    else StrLe(a[1..], b[1..])
  }

  lemma {:induction false} StrLeReflexive(a: string)
    ensures StrLe(a, a)
  {
    if a != [] {
      StrLeReflexive(a[1..]);
    }
  }

  lemma {:induction false} StrLeTotal(a: string, b: string)
    ensures StrLe(a, b) || StrLe(b, a)
  {
    if a != [] && b != [] && a[0] == b[0] {
      StrLeTotal(a[1..], b[1..]);
    }
  }

  lemma {:induction false} StrLeAntisymmetric(a: string, b: string)
    requires StrLe(a, b) && StrLe(b, a)
    ensures a == b
  {
    if a != [] && b != [] {
      StrLeAntisymmetric(a[1..], b[1..]);
      assert a == [a[0]] + a[1..];
      assert b == [b[0]] + b[1..];
    }
  }

  lemma {:induction false} StrLeTransitive(a: string, b: string, c: string)
    requires StrLe(a, b) && StrLe(b, c)
    ensures StrLe(a, c)
  {
    if a != [] && b != [] && c != [] && a[0] == b[0] == c[0] {
      StrLeTransitive(a[1..], b[1..], c[1..]);
    }
  }
}
