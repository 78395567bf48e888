/** Character classes and string operations of JavaScript that the FAQ code
    relies on: `\s`, `\w`, `toLowerCase`, `trim`, `includes`, `indexOf`,
    `startsWith`. Strings are sequences of Unicode scalar values. */
module Strings {

  datatype Option<+T> = None | Some(value: T)

  /** JavaScript's `\s`: the WhiteSpace and LineTerminator code points.
      `String.prototype.trim` removes exactly the same set. */
  const Spaces: set<char> := {' ', '\t', '\n', '\U{000B}', '\U{000C}', '\r', '\U{00A0}', '\U{1680}',
    '\U{2000}', '\U{2001}', '\U{2002}', '\U{2003}', '\U{2004}', '\U{2005}', '\U{2006}', '\U{2007}',
    '\U{2008}', '\U{2009}', '\U{200A}', '\U{2028}', '\U{2029}', '\U{202F}', '\U{205F}', '\U{3000}', '\U{FEFF}'}

  predicate IsSpace(c: char) {
    c in Spaces
  }

  /** JavaScript's `\w` (without the `u` flag): `[A-Za-z0-9_]`. */
  predicate IsWordChar(c: char) {
    ('a' <= c <= 'z') || ('A' <= c <= 'Z') || ('0' <= c <= '9') || c == '_'
  }

  /** `toLowerCase` on one character, for the Basic Latin and Latin-1 letters. */
  function LowerChar(c: char): (r: char)
    ensures IsWordChar(r) == IsWordChar(c)
    ensures ('A' <= c <= 'Z') ==> r as int == c as int + 32
  {
    if 'A' <= c <= 'Z' then (c as int + 32) as char
    else if '\U{00C0}' <= c <= '\U{00DE}' && c != '\U{00D7}' then (c as int + 32) as char
    else c
  }

  lemma LowerCharIdempotent(c: char)
    ensures LowerChar(LowerChar(c)) == LowerChar(c)
  {}

  /** `String.prototype.toLowerCase`. */
  function Lower(s: string): (r: string)
    ensures |r| == |s|
    ensures forall i :: 0 <= i < |s| ==> r[i] == LowerChar(s[i])
  {
    seq(|s|, i requires 0 <= i < |s| => LowerChar(s[i]))
  }

  /** Every character is its own lower case. */
  predicate IsLower(s: string) {
    forall i :: 0 <= i < |s| ==> LowerChar(s[i]) == s[i]
  }

  lemma LowerIsLower(s: string)
    ensures IsLower(Lower(s))
  {
    forall i | 0 <= i < |s| ensures LowerChar(Lower(s)[i]) == Lower(s)[i] {
      LowerCharIdempotent(s[i]);
    }
  }

  lemma LowerOfLower(s: string)
    requires IsLower(s)
    ensures Lower(s) == s
  {}

  // ---------------------------------------------------------------------
  // Substring search

  /** `p` occurs in `s` at index `i`, character for character. */
  predicate OccursAt(s: string, i: int, p: string) {
    0 <= i && i + |p| <= |s| && forall k :: 0 <= k < |p| ==> s[i + k] == p[k]
  }

  /** `s.includes(p)` */
  predicate Contains(s: string, p: string) {
    exists i :: 0 <= i <= |s| - |p| && OccursAt(s, i, p)
  }

  /** `s.startsWith(p)` */
  predicate StartsWith(s: string, p: string) {
    OccursAt(s, 0, p)
  }

  /** The lower-case ASCII pattern `p` occurs in `s` at `i` when `s` is compared
      case-insensitively, as a regular expression with the `i` flag matches it. */
  predicate OccursAtCI(s: string, i: int, p: string) {
    0 <= i && i + |p| <= |s| && forall k :: 0 <= k < |p| ==> LowerChar(s[i + k]) == p[k]
  }

  predicate ContainsCI(s: string, p: string) {
    exists i :: 0 <= i <= |s| - |p| && OccursAtCI(s, i, p)
  }

  /** `s.indexOf(p, from)`: the first index at or after `from` where `p` occurs, or -1. */
  function IndexOf(s: string, p: string, from: nat): (r: int)
    requires from <= |s|
    ensures r == -1 || (from <= r && OccursAt(s, r, p))
    ensures forall i :: from <= i && (r == -1 || i < r) ==> !OccursAt(s, i, p)
    decreases |s| - from
  {
    if from + |p| > |s| then -1
    else if OccursAt(s, from, p) then from
    else IndexOf(s, p, from + 1)
  }

  /** `s.indexOf(c, from)` for a single character. */
  function IndexOfChar(s: string, c: char, from: nat): (r: int)
    requires from <= |s|
    ensures r == -1 || (from <= r < |s| && s[r] == c)
    ensures forall k :: from <= k < |s| && (r == -1 || k < r) ==> s[k] != c
    decreases |s| - from
  {
    if from == |s| then -1
    else if s[from] == c then from
    else IndexOfChar(s, c, from + 1)
  }

  /** Case-insensitive `indexOf` for a lower-case ASCII pattern, as a regular
      expression with the `i` flag searches for a literal. */
  function IndexOfCI(s: string, p: string, from: nat): (r: int)
    requires from <= |s|
    ensures r == -1 || (from <= r && OccursAtCI(s, r, p))
    ensures forall i :: from <= i && (r == -1 || i < r) ==> !OccursAtCI(s, i, p)
    decreases |s| - from
  {
    if from + |p| > |s| then -1
    else if OccursAtCI(s, from, p) then from
    else IndexOfCI(s, p, from + 1)
  }

  // ---------------------------------------------------------------------
  // Trimming

  /** The first index at or after `i` that does not hold white space, or `|s|`. */
  function SkipSpaces(s: string, i: nat): (a: nat)
    requires i <= |s|
    ensures i <= a <= |s|
    ensures a < |s| ==> !IsSpace(s[a])
    ensures forall k :: i <= k < a ==> IsSpace(s[k])
    decreases |s| - i
  {
    if i < |s| && IsSpace(s[i]) then SkipSpaces(s, i + 1) else i
  }

  /** Going back from `j`, not below `lo`: the end of the last character that
      is not white space, or `lo`. */
  function SkipSpacesBack(s: string, lo: nat, j: nat): (b: nat)
    requires lo <= j <= |s|
    ensures lo <= b <= j
    ensures b > lo ==> !IsSpace(s[b - 1])
    ensures forall k :: b <= k < j ==> IsSpace(s[k])
    decreases j
  {
    if j > lo && IsSpace(s[j - 1]) then SkipSpacesBack(s, lo, j - 1) else j
  }

  /** `s.substring(a, b)`, built one character at a time. */
  function Substring(s: string, a: nat, b: nat): (r: string)
    requires a <= b <= |s|
    ensures |r| == b - a
    ensures forall k :: 0 <= k < |r| ==> r[k] == s[a + k]
    decreases b - a
  {
    if a == b then [] else [s[a]] + Substring(s, a + 1, b)
  }

  lemma {:induction false} SubstringIsSlice(s: string, a: nat, b: nat)
    requires a <= b <= |s|
    ensures Substring(s, a, b) == s[a..b]
    decreases b - a
  {
    if a < b {
      SubstringIsSlice(s, a + 1, b);
      assert s[a..b] == [s[a]] + s[a + 1..b];
    }
  }

  /** Neither the first nor the last character is white space. */
  predicate Trimmed(s: string) {
    s == [] || (!IsSpace(s[0]) && !IsSpace(s[|s| - 1]))
  }

  /** `String.prototype.trim`: the text between the first and the last
      character that is not white space. */
  function Trim(s: string): (r: string)
    ensures Trimmed(r)
    ensures |r| <= |s|
  {
    var a := SkipSpaces(s, 0);
    var b := SkipSpacesBack(s, a, |s|);
    Substring(s, a, b)
  }

  /** Trimming keeps a contiguous part of the text and removes only white
      space around it. */
  lemma TrimSpec(s: string)
    ensures exists a, b ::
      && 0 <= a <= b <= |s| && Trim(s) == s[a..b]
      && (forall k :: 0 <= k < a ==> IsSpace(s[k]))
      && (forall k :: b <= k < |s| ==> IsSpace(s[k]))
  {
    var a := SkipSpaces(s, 0);
    var b := SkipSpacesBack(s, a, |s|);
    SubstringIsSlice(s, a, b);
  }

  /** Trimming removes exactly the white space around a trimmed text. */
  lemma TrimUnique(p: string, u: string, q: string)
    requires forall k :: 0 <= k < |p| ==> IsSpace(p[k])
    requires forall k :: 0 <= k < |q| ==> IsSpace(q[k])
    requires Trimmed(u)
    ensures Trim(p + u + q) == u
  {
    var x := p + u + q;
    var a := SkipSpaces(x, 0);
    var b := SkipSpacesBack(x, a, |x|);
    if u == [] {
      assert forall k :: 0 <= k < |x| ==> IsSpace(x[k]);
      assert a == |x|;
      SubstringIsSlice(x, a, b);
    } else {
      assert x[|p|] == u[0];
      assert x[|p| + |u| - 1] == u[|u| - 1];
      assert a == |p|;
      assert b == |p| + |u|;
      SubstringIsSlice(x, a, b);
      assert x[a..b] == u;
    }
  }

  /** Trimming changes nothing when there is no white space at either end. */
  lemma TrimOfTrimmed(s: string)
    requires Trimmed(s)
    ensures Trim(s) == s
  {
    if s != [] {
      assert SkipSpaces(s, 0) == 0;
      assert SkipSpacesBack(s, 0, |s|) == |s|;
    }
  }

  /** The characters at `k` and `k + 1` are both white space. */
  predicate SpacePairAt(s: string, k: int)
    requires 0 <= k < |s| - 1
  {
    IsSpace(s[k]) && IsSpace(s[k + 1])
  }

  /** No two neighbouring characters are both white space. */
  predicate NoDoubleSpace(s: string) {
    forall k :: 0 <= k < |s| - 1 ==> !SpacePairAt(s, k)
  }

  lemma NoDoubleSpaceSlice(s: string, a: int, b: int)
    requires 0 <= a <= b <= |s| && NoDoubleSpace(s)
    ensures NoDoubleSpace(s[a..b])
  {
    forall k | 0 <= k < b - a - 1 ensures !SpacePairAt(s[a..b], k) {
      assert s[a..b][k] == s[a + k] && s[a..b][k + 1] == s[a + k + 1];
      assert !SpacePairAt(s, a + k);
    }
  }

  lemma TrimKeepsNoDoubleSpace(s: string)
    requires NoDoubleSpace(s)
    ensures NoDoubleSpace(Trim(s))
  {
    TrimSpec(s);
    var a, b :| 0 <= a <= b <= |s| && Trim(s) == s[a..b];
    NoDoubleSpaceSlice(s, a, b);
  }

  // ---------------------------------------------------------------------
  // Numbers

  function DigitChar(d: nat): char
    requires d < 10
  {
    ('0' as int + d) as char
  }

  /** Decimal rendering of a natural number. */
  function NatToString(n: nat): (r: string)
    ensures |r| >= 1
    ensures forall i :: 0 <= i < |r| ==> '0' <= r[i] <= '9'
    decreases n
  {
    if n < 10 then [DigitChar(n)] else NatToString(n / 10) + [DigitChar(n % 10)]
  }

  /** `String(n)` for an integer. */
  function IntToString(n: int): string {
    if n < 0 then "-" + NatToString(-n) else NatToString(n)
  }
}
