/**
  String normalisation used on user input: Python's `str.strip()` and the
  lowering applied before identifiers are compared (`str.lower()` in Python,
  `LOWER()` in SQLite).
 */
module Text {

  /** The characters Python's `str.isspace()` accepts, i.e. what `strip()` removes. */
  predicate IsSpace(c: char)
  {
    || c == ' '
    || ('\t' <= c <= '\r')
    || ('\U{1c}' <= c <= '\U{1f}')
    || c == '\U{85}' || c == '\U{a0}' || c == '\U{1680}'
    || ('\U{2000}' <= c <= '\U{200a}')
    || c == '\U{2028}' || c == '\U{2029}' || c == '\U{202f}'
    || c == '\U{205f}' || c == '\U{3000}'
  }

  /** Number of whitespace characters at the front of `s`. */
  function LeadingSpaces(s: string): (k: nat)
    ensures k <= |s|
    ensures forall i :: 0 <= i < k ==> IsSpace(s[i])
    ensures k < |s| ==> !IsSpace(s[k])
  {
    if |s| > 0 && IsSpace(s[0]) then 1 + LeadingSpaces(s[1..]) else 0
  }

  /** Number of whitespace characters at the back of `s`. */
  function TrailingSpaces(s: string): (k: nat)
    ensures k <= |s|
    ensures forall i :: |s| - k <= i < |s| ==> IsSpace(s[i])
    ensures k < |s| ==> !IsSpace(s[|s| - 1 - k])
  {
    if |s| > 0 && IsSpace(s[|s| - 1]) then 1 + TrailingSpaces(s[..|s| - 1]) else 0
  }

  /** `s.strip()`: the longest infix of `s` without whitespace at either end. */
  function Trim(s: string): (r: string)
    ensures |r| <= |s|
    ensures r == [] || (!IsSpace(r[0]) && !IsSpace(r[|r| - 1]))
  {
    var t := s[LeadingSpaces(s)..];
    t[..|t| - TrailingSpaces(t)]
  }

  /** ASCII lowering of one character: SQLite's `LOWER()` folds only `A`-`Z`. */
  function LowerChar(c: char): char
  {
    if 'A' <= c <= 'Z' then (c as int + 32) as char else c
  }

  function ToLower(s: string): (r: string)
    ensures |r| == |s|
    ensures forall i :: 0 <= i < |s| ==> r[i] == LowerChar(s[i])
  {
    seq(|s|, i requires 0 <= i < |s| => LowerChar(s[i]))
  }

  /** The normalisation `(x or "").strip().lower()` applied to login identifiers and to emails. */
  function Normalize(s: string): (r: string)
    ensures |r| <= |s|
    ensures r == [] || (!IsSpace(r[0]) && !IsSpace(r[|r| - 1]))
    ensures forall i :: 0 <= i < |r| ==> !('A' <= r[i] <= 'Z')
  {
    ToLower(Trim(s))
  }

  lemma {:induction false} TrimUnpadded(s: string)
    requires s == [] || (!IsSpace(s[0]) && !IsSpace(s[|s| - 1]))
    ensures Trim(s) == s
  {
    var t := s[LeadingSpaces(s)..];
    assert t == s;
  }

  /** Stripping twice is stripping once. */
  lemma TrimIdempotent(s: string)
    ensures Trim(Trim(s)) == Trim(s)
  {
    TrimUnpadded(Trim(s));
  }

  lemma {:induction false} LeadingSpacesOfPadded(pre: string, s: string)
    requires forall i :: 0 <= i < |pre| ==> IsSpace(pre[i])
    ensures LeadingSpaces(pre + s) == |pre| + LeadingSpaces(s)
  {
    if pre == [] {
      assert pre + s == s;
    } else {
      assert (pre + s)[1..] == pre[1..] + s;
      LeadingSpacesOfPadded(pre[1..], s);
    }
  }

  lemma {:induction false} TrailingSpacesOfPadded(s: string, post: string)
    requires forall i :: 0 <= i < |post| ==> IsSpace(post[i])
    ensures TrailingSpaces(s + post) == |post| + TrailingSpaces(s)
  {
    if post == [] {
      assert s + post == s;
    } else {
      var n := |post| - 1;
      assert (s + post)[..|s + post| - 1] == s + post[..n];
      TrailingSpacesOfPadded(s, post[..n]);
    }
  }

  lemma {:induction false} LeadingSpacesExtended(s: string, post: string)
    requires LeadingSpaces(s) < |s|
    ensures LeadingSpaces(s + post) == LeadingSpaces(s)
  {
    if IsSpace(s[0]) {
      assert (s + post)[1..] == s[1..] + post;
      LeadingSpacesExtended(s[1..], post);
    }
  }

  lemma TrimIgnoresLeftPadding(pre: string, s: string)
    requires forall i :: 0 <= i < |pre| ==> IsSpace(pre[i])
    ensures Trim(pre + s) == Trim(s)
  {
    LeadingSpacesOfPadded(pre, s);
    var l := LeadingSpaces(s);
    assert (pre + s)[|pre| + l..] == s[l..];
  }

  /** `strip()` yields the empty string exactly on all-whitespace input. */
  lemma TrimEmpty(s: string)
    ensures Trim(s) == [] <==> forall i :: 0 <= i < |s| ==> IsSpace(s[i])
  {
    var l := LeadingSpaces(s);
    if l < |s| {
      var t := s[l..];
      assert t[0] == s[l];
      assert |t[..|t| - TrailingSpaces(t)]| > 0;
    }
  }

  lemma AllSpaceExtended(s: string, post: string)
    requires LeadingSpaces(s) == |s|
    requires forall i :: 0 <= i < |post| ==> IsSpace(post[i])
    ensures Trim(s + post) == []
  {
    var u := s + post;
    forall i | 0 <= i < |u| ensures IsSpace(u[i]) {
      if i < |s| { assert u[i] == s[i]; } else { assert u[i] == post[i - |s|]; }
    }
    TrimEmpty(u);
  }

  lemma DropSuffix(t: string, post: string, i: nat, j: nat)
    requires i <= j <= |t|
    ensures (t + post)[i..j] == t[i..j]
  {
  }

  lemma TrimOf(u: string, l: nat, k: nat)
    requires l == LeadingSpaces(u) && k == TrailingSpaces(u[l..])
    ensures Trim(u) == u[l..][..|u| - l - k]
  {
  }

  lemma TrimSlice(u: string, l: nat, k: nat)
    requires l == LeadingSpaces(u) && k == TrailingSpaces(u[l..])
    ensures Trim(u) == u[l..|u| - k]
  {
    TrimOf(u, l, k);
  }

  lemma TrimIgnoresRightPadding(s: string, post: string)
    requires forall i :: 0 <= i < |post| ==> IsSpace(post[i])
    ensures Trim(s + post) == Trim(s)
  {
    if LeadingSpaces(s) == |s| {
      AllSpaceExtended(s, post);
    } else {
      TrimIgnoresRightPaddingCore(s, post);
    }
  }

  lemma TrimIgnoresRightPaddingCore(s: string, post: string)
    requires forall i :: 0 <= i < |post| ==> IsSpace(post[i])
    requires LeadingSpaces(s) < |s|
    ensures Trim(s + post) == Trim(s)
  {
    var l := LeadingSpaces(s);
    var k := TrailingSpaces(s[l..]);
    LeadingSpacesExtended(s, post);
    TrailingSpacesOfPaddedSuffix(s, post, l);
    TrimSlice(s + post, l, |post| + k);
    TrimSlice(s, l, k);
    DropSuffix(s, post, l, |s| - k);
  }

  lemma TrailingSpacesOfPaddedSuffix(s: string, post: string, l: nat)
    requires forall i :: 0 <= i < |post| ==> IsSpace(post[i])
    requires l <= |s|
    ensures TrailingSpaces((s + post)[l..]) == |post| + TrailingSpaces(s[l..])
  {
    assert (s + post)[l..] == s[l..] + post;
    TrailingSpacesOfPadded(s[l..], post);
  }

  /** Whitespace added around a string does not survive `strip()`. */
  lemma TrimIgnoresPadding(pre: string, s: string, post: string)
    requires forall i :: 0 <= i < |pre| ==> IsSpace(pre[i])
    requires forall i :: 0 <= i < |post| ==> IsSpace(post[i])
    ensures Trim(pre + s + post) == Trim(s)
  {
    assert pre + s + post == pre + (s + post);
    TrimIgnoresLeftPadding(pre, s + post);
    TrimIgnoresRightPadding(s, post);
  }

  lemma {:induction false} LeadingSpacesLower(s: string)
    ensures LeadingSpaces(ToLower(s)) == LeadingSpaces(s)
  {
    if s != [] {
      assert ToLower(s)[1..] == ToLower(s[1..]);
      LeadingSpacesLower(s[1..]);
    }
  }

  lemma {:induction false} TrailingSpacesLower(s: string)
    ensures TrailingSpaces(ToLower(s)) == TrailingSpaces(s)
  {
    if s != [] {
      var n := |s| - 1;
      assert ToLower(s)[..n] == ToLower(s[..n]);
      TrailingSpacesLower(s[..n]);
    }
  }

  lemma SliceLower(s: string, i: nat, j: nat)
    requires i <= j <= |s|
    ensures ToLower(s)[i..j] == ToLower(s[i..j])
  {
    var whole, part := ToLower(s), ToLower(s[i..j]);
    forall k | 0 <= k < j - i
      ensures whole[i..j][k] == part[k]
    {
      assert whole[i..j][k] == whole[i + k] == LowerChar(s[i + k]);
      assert part[k] == LowerChar(s[i..j][k]);
    }
  }

  /** Lowering moves neither end of the stripped infix. */
  lemma TrimBoundsLower(s: string)
    ensures LeadingSpaces(ToLower(s)) == LeadingSpaces(s)
    ensures TrailingSpaces(ToLower(s)[LeadingSpaces(s)..]) == TrailingSpaces(s[LeadingSpaces(s)..])
  {
    var l := LeadingSpaces(s);
    var t := s[l..];
    LeadingSpacesLower(s);
    SliceLower(s, l, |s|);
    assert ToLower(s)[l..] == ToLower(t);
    TrailingSpacesLower(t);
  }

  /** Lowering and stripping commute: no ASCII letter is whitespace. */
  lemma TrimLowerCommute(s: string)
    ensures Trim(ToLower(s)) == ToLower(Trim(s))
  {
    var l := LeadingSpaces(s);
    var k := TrailingSpaces(s[l..]);
    TrimBoundsLower(s);
    TrimSlice(ToLower(s), l, k);
    TrimSlice(s, l, k);
    SliceLower(s, l, |s| - k);
  }

  lemma ToLowerIdempotent(s: string)
    ensures ToLower(ToLower(s)) == ToLower(s)
  {
  }

  /** Two identifiers that differ only in letter case normalise to the same string. */
  lemma NormalizeCaseInsensitive(x: string, y: string)
    requires ToLower(x) == ToLower(y)
    ensures Normalize(x) == Normalize(y)
  {
    TrimLowerCommute(x);
    TrimLowerCommute(y);
  }

  /** Normalising an already normalised string changes nothing. */
  lemma NormalizeIdempotent(s: string)
    ensures Normalize(Normalize(s)) == Normalize(s)
  {
    TrimLowerCommute(Trim(s));
    TrimIdempotent(s);
    ToLowerIdempotent(Trim(s));
  }

  /** Leading and trailing whitespace around an identifier is ignored. */
  lemma NormalizeIgnoresPadding(pre: string, s: string, post: string)
    requires forall i :: 0 <= i < |pre| ==> IsSpace(pre[i])
    requires forall i :: 0 <= i < |post| ==> IsSpace(post[i])
    ensures Normalize(pre + s + post) == Normalize(s)
  {
    TrimIgnoresPadding(pre, s, post);
  }
}
