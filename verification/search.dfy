/**
 * How `RegExp.prototype.exec` finds a match: it tries each position from
 * `lastIndex` on and reports the leftmost one where the pattern matches.
 * Every pattern in the popup engine is free of anchors and look-behind, so
 * whether it matches at position `k` of `s` depends on `s[k..]` alone; a
 * pattern is therefore given as a matcher on suffixes, which reports the
 * match found at the very start of its argument.
 */
module Search {
  import opened Wrappers

  /** A match reported at `index`, with the matcher's own description of it. */
  datatype Found<M> = Found(index: nat, m: M)

  /** The leftmost position at or after `k` where `at` matches. */
  function FindFrom<M>(at: string -> Option<M>, s: string, k: nat): (r: Option<Found<M>>)
    ensures r.Some? ==> k <= r.value.index <= |s| && at(s[r.value.index..]) == Some(r.value.m)
    ensures r.Some? ==> forall j :: k <= j < r.value.index ==> at(s[j..]).None?
    ensures r.None? ==> forall j :: k <= j <= |s| ==> at(s[j..]).None?
    decreases |s| + 1 - k
  {
    if k > |s| then None
    else
      match at(s[k..])
      case Some(m) => Some(Found(k, m))
      case None => FindFrom(at, s, k + 1)
  }

  /** The leftmost match is determined by where the first match is. */
  lemma FindFromIs<M>(at: string -> Option<M>, s: string, k: nat, i: nat)
    requires k <= i <= |s| && at(s[i..]).Some?
    requires forall j :: k <= j < i ==> at(s[j..]).None?
    ensures FindFrom(at, s, k) == Some(Found(i, at(s[i..]).value))
  {
  }
}
