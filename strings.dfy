/** The three JavaScript string operations the ticket store relies on:
    `String.prototype.trim`, `String.prototype.toLowerCase` and
    `String.prototype.includes`. Strings are sequences of characters.
    The lemmas relating `trim` and `toLowerCase` switch off automatic
    induction even where they do not recurse: they are proved from their
    helper lemmas, and induction hypotheses over the string only slow the
    solver down. */
module Strings {

  /** The characters `trim` removes: ECMAScript's WhiteSpace (TAB, VT,
      FF, ZWNBSP and the space separators U+0020, U+00A0, U+1680,
      U+2000 to U+200A, U+202F, U+205F, U+3000) and LineTerminator (LF, CR,
      U+2028, U+2029). TAB, LF, VT, FF and CR are the range U+0009 to
      U+000D. */
  predicate IsWhite(c: char) {
    ('\t' <= c <= '\r') || c == ' ' || c == '\U{00A0}' || c == '\U{1680}'
    || ('\U{2000}' <= c <= '\U{200A}') || c == '\U{2028}' || c == '\U{2029}'
    || c == '\U{202F}' || c == '\U{205F}' || c == '\U{3000}' || c == '\U{FEFF}'
  }

  /** Every character of `s` from index `lo` up to (not including) `hi`
      is white. */
  predicate WhiteBetween(s: string, lo: int, hi: int)
    requires 0 <= lo && hi <= |s|
  {
    forall k :: lo <= k < hi ==> IsWhite(s[k])
  }

  predicate AllWhite(s: string) {
    WhiteBetween(s, 0, |s|)
  }

  /** The length of the white run `s` starts with. */
  function LeadingWhite(s: string): (n: nat)
    ensures n <= |s| && WhiteBetween(s, 0, n)
    ensures n == |s| || !IsWhite(s[n])
  {
    if s == [] || !IsWhite(s[0]) then 0
    else
      var n := LeadingWhite(s[1..]);
      assert forall k :: 1 <= k < n + 1 ==> s[k] == s[1..][k - 1];
      n + 1
  }

  /** The length of the white run `s` ends with. */
  function TrailingWhite(s: string): (n: nat)
    ensures n <= |s| && WhiteBetween(s, |s| - n, |s|)
    ensures n == |s| || !IsWhite(s[|s| - n - 1])
  {
    if s == [] || !IsWhite(s[|s| - 1]) then 0
    else
      var n := TrailingWhite(s[..|s| - 1]);
      assert forall k :: 0 <= k < |s| - 1 ==> s[k] == s[..|s| - 1][k];
      n + 1
  }

  /** `r` is what is left of `s` once the white run `s[..i]` before it and
      the white run after it are cut off. */
  predicate TrimmedAt(s: string, r: string, i: int) {
    0 <= i <= |s| - |r| && r == s[i..i + |r|]
    && WhiteBetween(s, 0, i) && WhiteBetween(s, i + |r|, |s|)
  }

  /** `String.prototype.trim`: the string without its leading and its
      trailing white runs. What is left neither starts nor ends with a
      white character; TrimIsInfix and TrimEmptyIff say what was cut. */
  function Trim(s: string): (r: string)
    ensures |r| <= |s|
    ensures r == [] || (!IsWhite(r[0]) && !IsWhite(r[|r| - 1]))
  {
    var i := LeadingWhite(s);
    if i == |s| then []
    else
      var j := TrailingWhite(s);
      assert i < |s| - j;
      s[i..|s| - j]
  }

  /** `trim` removes exactly a white run before and a white run after
      what it keeps. */
  lemma TrimIsInfix(s: string)
    ensures exists i :: TrimmedAt(s, Trim(s), i)
  {
    var i := LeadingWhite(s);
    TrimSlice(s);
    assert TrimmedAt(s, Trim(s), i);
  }

  /** `trim` gives the empty string exactly for all-white strings. */
  lemma TrimEmptyIff(s: string)
    ensures Trim(s) == [] <==> AllWhite(s)
  {
    TrimSlice(s);
  }

  /** `trim` as a single slice of `s`. */
  lemma {:induction false} TrimSlice(s: string)
    ensures LeadingWhite(s) == |s| ==> Trim(s) == []
    ensures LeadingWhite(s) < |s| ==>
              LeadingWhite(s) < |s| - TrailingWhite(s)
              && Trim(s) == s[LeadingWhite(s)..|s| - TrailingWhite(s)]
  {
  }

  /** The strings `trim` leaves alone are exactly those that neither
      start nor end with a white character. */
  lemma TrimFixedPoint(s: string)
    ensures Trim(s) == s <==> s == [] || (!IsWhite(s[0]) && !IsWhite(s[|s| - 1]))
  {
    if s != [] && !IsWhite(s[0]) && !IsWhite(s[|s| - 1]) {
      assert LeadingWhite(s) == 0;
      assert TrailingWhite(s) == 0;
      assert s[0..|s|] == s;
    }
  }

  /** Trimming a trimmed string changes nothing. */
  lemma TrimIdempotent(s: string)
    ensures Trim(Trim(s)) == Trim(s)
  {
    TrimFixedPoint(Trim(s));
  }

  /** The character `toLowerCase` maps `c` to, for ASCII letters. */
  function LowerChar(c: char): char {
    if 'A' <= c <= 'Z' then (c as int + 32) as char else c
  }

  /** `String.prototype.toLowerCase`, restricted to ASCII: the string of
      the same length with every upper-case ASCII letter lowered. */
  function ToLower(s: string): (r: string)
    ensures |r| == |s|
    ensures forall i :: 0 <= i < |s| ==> r[i] == LowerChar(s[i])
  {
    seq(|s|, i requires 0 <= i < |s| => LowerChar(s[i]))
  }

  /** Lowering a lowered string changes nothing. */
  lemma ToLowerIdempotent(s: string)
    ensures ToLower(ToLower(s)) == ToLower(s)
  {
  }

  /** Lowering turns white characters into themselves and nothing else
      into a white character. */
  lemma LowerCharKeepsWhite(c: char)
    ensures IsWhite(LowerChar(c)) <==> IsWhite(c)
  {
  }

  /** Lowering commutes with slicing. */
  lemma ToLowerSlice(s: string, i: nat, j: nat)
    requires i <= j <= |s|
    ensures ToLower(s)[i..j] == ToLower(s[i..j])
  {
  }

  lemma {:induction false} LeadingWhiteToLower(s: string)
    ensures LeadingWhite(ToLower(s)) == LeadingWhite(s)
  {
    if s != [] {
      LowerCharKeepsWhite(s[0]);
      if IsWhite(s[0]) {
        ToLowerSlice(s, 1, |s|);
        LeadingWhiteToLower(s[1..]);
      }
    }
  }

  lemma {:induction false} TrailingWhiteToLower(s: string)
    ensures TrailingWhite(ToLower(s)) == TrailingWhite(s)
  {
    if s != [] {
      LowerCharKeepsWhite(s[|s| - 1]);
      if IsWhite(s[|s| - 1]) {
        ToLowerSlice(s, 0, |s| - 1);
        TrailingWhiteToLower(s[..|s| - 1]);
      }
    }
  }

  /** Lowering leaves both white runs of a string where they were. */
  lemma {:induction false} ToLowerSameRuns(s: string)
    ensures LeadingWhite(ToLower(s)) == LeadingWhite(s)
    ensures TrailingWhite(ToLower(s)) == TrailingWhite(s)
  {
    LeadingWhiteToLower(s);
    TrailingWhiteToLower(s);
  }

  /** The case of an all-white string: both sides are empty. */
  lemma {:induction false} TrimToLowerAllWhite(s: string)
    requires LeadingWhite(s) == |s|
    ensures Trim(ToLower(s)) == [] == ToLower(Trim(s))
  {
    ToLowerSameRuns(s);
    TrimSlice(s);
  }

  /** Trimming the lowered string cuts it where `s` is cut. */
  lemma {:induction false} TrimOfToLower(s: string)
    requires LeadingWhite(s) < |s|
    ensures LeadingWhite(s) < |s| - TrailingWhite(s)
    ensures Trim(ToLower(s)) == ToLower(s)[LeadingWhite(s)..|s| - TrailingWhite(s)]
  {
    ToLowerSameRuns(s);
    TrimSlice(s);
    TrimSlice(ToLower(s));
  }

  /** Lowering the trimmed string lowers the slice `trim` keeps. */
  lemma {:induction false} ToLowerOfTrim(s: string)
    requires LeadingWhite(s) < |s|
    ensures LeadingWhite(s) < |s| - TrailingWhite(s)
    ensures ToLower(Trim(s)) == ToLower(s[LeadingWhite(s)..|s| - TrailingWhite(s)])
  {
    TrimSlice(s);
  }

  /** The case of a string with a non-white character: both sides are the
      same slice of the lowered string. */
  lemma {:induction false} TrimToLowerInner(s: string)
    requires LeadingWhite(s) < |s|
    ensures Trim(ToLower(s)) == ToLower(Trim(s))
  {
    TrimOfToLower(s);
    ToLowerOfTrim(s);
    ToLowerSlice(s, LeadingWhite(s), |s| - TrailingWhite(s));
  }

  /** Lowering keeps whitespace where it is, so trimming and lowering
      commute: the search key does not depend on which is done first. */
  lemma {:induction false} TrimToLowerCommute(s: string)
    ensures Trim(ToLower(s)) == ToLower(Trim(s))
  {
    if LeadingWhite(s) == |s| {
      TrimToLowerAllWhite(s);
    } else {
      TrimToLowerInner(s);
    }
  }

  predicate StartsWith(s: string, prefix: string) {
    |prefix| <= |s| && s[..|prefix|] == prefix
  }

  /** `sub` occurs in `s` starting at position `i`. */
  predicate OccursAt(s: string, sub: string, i: int) {
    0 <= i <= |s| - |sub| && s[i..i + |sub|] == sub
  }

  /** `String.prototype.includes`: whether `sub` occurs in `s` at some
      position (the empty string occurs everywhere). */
  function Includes(s: string, sub: string): (r: bool)
    ensures r <==> exists i :: OccursAt(s, sub, i)
  {
    if StartsWith(s, sub) then
      assert OccursAt(s, sub, 0);
      true
    else if s == [] then false
    else
      var r := Includes(s[1..], sub);
      OccursAtShift(s, sub);
      assert !OccursAt(s, sub, 0);
      r
  }

  /** Occurrences in `s` after position 0 are the occurrences in `s[1..]`. */
  lemma OccursAtShift(s: string, sub: string)
    requires s != []
    ensures (exists i :: OccursAt(s[1..], sub, i)) <==> (exists i :: 0 < i && OccursAt(s, sub, i))
  {
    forall i | OccursAt(s[1..], sub, i) ensures OccursAt(s, sub, i + 1) {
      assert s[i + 1..i + 1 + |sub|] == s[1..][i..i + |sub|];
    }
    forall i | 0 < i && OccursAt(s, sub, i) ensures OccursAt(s[1..], sub, i - 1) {
      var j := i - 1;
      assert s[j + 1..j + 1 + |sub|] == s[1..][j..j + |sub|];
    }
  }
}
