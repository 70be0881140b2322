/**
 * The pieces of JavaScript string semantics that the popup engine relies on:
 * the `\s` character class (which is also what `String.prototype.trim`
 * strips), ASCII letter classes used by the tag and attribute patterns,
 * `toLowerCase`, `startsWith`, `includes`, `Array.prototype.join` and the
 * inverse `split`.
 */
module JsText {
  import opened Wrappers

  /** JavaScript's WhiteSpace and LineTerminator code points: the `\s` class and what `trim` removes. */
  predicate IsSpace(c: char) {
    var n := c as int;
    n == 0x09 || n == 0x0A || n == 0x0B || n == 0x0C || n == 0x0D || n == 0x20
    || n == 0xA0 || n == 0x1680 || (0x2000 <= n <= 0x200A) || n == 0x2028
    || n == 0x2029 || n == 0x202F || n == 0x205F || n == 0x3000 || n == 0xFEFF
  }

  /** `s.trim() === ''`: every character is whitespace. */
  predicate IsBlank(s: string) {
    forall i :: 0 <= i < |s| ==> IsSpace(s[i])
  }

  /** The class `[a-zA-Z]`. */
  predicate IsAsciiLetter(c: char) {
    ('a' <= c <= 'z') || ('A' <= c <= 'Z')
  }

  /** The class `[a-zA-Z0-9_-]` of attribute names. */
  predicate IsNameChar(c: char) {
    IsAsciiLetter(c) || ('0' <= c <= '9') || c == '_' || c == '-'
  }

  predicate AllLetters(s: string) {
    forall i :: 0 <= i < |s| ==> IsAsciiLetter(s[i])
  }

  predicate AllNameChars(s: string) {
    forall i :: 0 <= i < |s| ==> IsNameChar(s[i])
  }

  function LowerChar(c: char): char {
    if 'A' <= c <= 'Z' then (c as int + 32) as char else c
  }

  /** `toLowerCase` restricted to ASCII letters. */
  function Lower(s: string): (r: string)
    ensures |r| == |s|
    ensures forall i :: 0 <= i < |s| ==> r[i] == LowerChar(s[i])
  {
    if s == [] then [] else [LowerChar(s[0])] + Lower(s[1..])
  }

  /** The class `[a-z]`, repeated. */
  predicate AllLowerLetters(s: string) {
    forall i :: 0 <= i < |s| ==> 'a' <= s[i] <= 'z'
  }

  /** A string of lower-case letters is its own lower-case form. */
  lemma LowerOfLowerLetters(s: string)
    requires AllLowerLetters(s)
    ensures Lower(s) == s && AllLetters(s)
  {
  }

  lemma LowerIdempotent(s: string)
    ensures Lower(Lower(s)) == Lower(s)
  {
  }

  /** `s.startsWith(p)`. */
  predicate StartsWith(s: string, p: string) {
    |p| <= |s| && s[..|p|] == p
  }

  /** `t` occurs in `s` starting at offset `i`. */
  predicate OccursAt(s: string, t: string, i: nat) {
    i + |t| <= |s| && s[i..i + |t|] == t
  }

  /** `s.includes(t)`: `t` occurs in `s` at some offset (the empty string occurs everywhere). */
  predicate Includes(s: string, t: string) {
    exists i: nat | i <= |s| :: OccursAt(s, t, i)
  }

  /**
   * The first index at or after `i` whose character does not satisfy `p`
   * (`|s|` when there is none): the end of a greedy run such as `\s*` or
   * `[a-zA-Z]+`.
   */
  function SpanWhile(s: string, i: nat, p: char -> bool): (j: nat)
    requires i <= |s|
    ensures i <= j <= |s|
    ensures forall k :: i <= k < j ==> p(s[k])
    ensures j < |s| ==> !p(s[j])
    decreases |s| - i
  {
    if i == |s| || !p(s[i]) then i else SpanWhile(s, i + 1, p)
  }

  /** A greedy run is determined by where it stops. */
  lemma SpanWhileIs(s: string, i: nat, p: char -> bool, j: nat)
    requires i <= j <= |s|
    requires forall k :: i <= k < j ==> p(s[k])
    requires j < |s| ==> !p(s[j])
    ensures SpanWhile(s, i, p) == j
  {
  }

  /** `s.indexOf(c, i)`, with -1 as `None`. */
  function IndexOf(s: string, c: char, i: nat): (r: Option<nat>)
    requires i <= |s|
    ensures r.Some? ==> i <= r.value < |s| && s[r.value] == c
    ensures r.Some? ==> forall k :: i <= k < r.value ==> s[k] != c
    ensures r.None? ==> forall k :: i <= k < |s| ==> s[k] != c
  {
    var j := SpanWhile(s, i, x => x != c);
    if j < |s| then Some(j) else None
  }

  /** The first occurrence is determined by where it is. */
  lemma IndexOfIs(s: string, c: char, i: nat, j: nat)
    requires i <= j < |s| && s[j] == c
    requires forall k :: i <= k < j ==> s[k] != c
    ensures IndexOf(s, c, i) == Some(j)
  {
    SpanWhileIs(s, i, x => x != c, j);
  }

  /** No whitespace character is a letter, digit, `_` or `-`. */
  lemma SpaceIsNotNameChar(c: char)
    requires IsSpace(c)
    ensures !IsNameChar(c)
  {
  }

  /** Dropping a prefix of a concatenation leaves the rest. */
  lemma DropPrefix(x: string, y: string)
    ensures (x + y)[|x|..] == y
  {
  }

  /** A slice within the first part of a concatenation. */
  lemma SliceOfPrefix(x: string, y: string, a: nat, b: nat)
    requires a <= b <= |x|
    ensures (x + y)[a..b] == x[a..b]
  {
  }

  /** Dropping a prefix of a three-part concatenation. */
  lemma DropPrefix3(x: string, y: string, z: string)
    ensures (x + y + z)[|x|..] == y + z
    ensures (x + y + z)[|x| + |y|..] == z
  {
    assert x + y + z == x + (y + z);
  }

  /** Regrouping a three-part concatenation; its first part is a prefix. */
  lemma Regroup3(x: string, y: string, z: string)
    ensures x + y + z == x + (y + z)
    ensures (x + y + z)[..|x|] == x
  {
  }

  /** `xs.join(sep)` for a one-character separator. */
  function Join(xs: seq<string>, sep: char): string {
    if |xs| == 0 then ""
    else if |xs| == 1 then xs[0]
    else xs[0] + [sep] + Join(xs[1..], sep)
  }

  /** `s.split(sep)` for a one-character separator: the pieces between separators. */
  function Split(s: string, sep: char): (r: seq<string>)
    ensures |r| > 0
    ensures forall k :: 0 <= k < |r| ==> sep !in r[k]
    decreases |s|
  {
    match IndexOf(s, sep, 0)
    case None => [s]
    case Some(i) => [s[..i]] + Split(s[i + 1..], sep)
  }

  /** Splitting a joined list recovers it, provided no element contains the separator. */
  lemma {:induction false} SplitJoin(xs: seq<string>, sep: char)
    requires |xs| > 0
    requires forall k :: 0 <= k < |xs| ==> sep !in xs[k]
    ensures Split(Join(xs, sep), sep) == xs
  {
    if |xs| == 1 {
      assert sep !in xs[0];
      assert IndexOf(xs[0], sep, 0).None?;
    } else {
      var rest := Join(xs[1..], sep);
      var s := xs[0] + [sep] + rest;
      assert Join(xs, sep) == s;
      assert s[|xs[0]|] == sep;
      assert forall k :: 0 <= k < |xs[0]| ==> s[k] != sep by {
        forall k | 0 <= k < |xs[0]| ensures s[k] != sep {
          assert s[k] == xs[0][k];
          assert xs[0][k] in xs[0];
        }
      }
      assert IndexOf(s, sep, 0) == Some(|xs[0]|);
      assert s[..|xs[0]|] == xs[0];
      assert s[|xs[0]| + 1..] == rest;
      SplitJoin(xs[1..], sep);
      assert [xs[0]] + xs[1..] == xs;
    }
  }
}
