/** Substring search as `String.contains` performs it (via `indexOf`). */
module Text {

  /** `sub` sits in `s` starting at position `i`. */
  predicate OccursAt(s: string, sub: string, i: int) {
    0 <= i && i + |sub| <= |s| && s[i..i + |sub|] == sub
  }

  /** The reference meaning of "`s` contains `sub`". */
  ghost predicate Occurs(s: string, sub: string) {
    exists i :: OccursAt(s, sub, i)
  }

  /** `s.indexOf(sub, from)`: the first occurrence at or after `from`, or -1. */
  function IndexOfFrom(s: string, sub: string, from: nat): (r: int)
    requires from <= |s|
    decreases |s| - from
    ensures r == -1 || (from <= r && OccursAt(s, sub, r))
    ensures r == -1 ==> forall i :: from <= i ==> !OccursAt(s, sub, i)
    ensures r != -1 ==> forall i :: from <= i < r ==> !OccursAt(s, sub, i)
  {
    if from + |sub| > |s| then -1
    else if s[from..from + |sub|] == sub then from
    else IndexOfFrom(s, sub, from + 1)
  }

  /** `s.indexOf(sub)` */
  function IndexOf(s: string, sub: string): (r: int)
    ensures r == -1 || OccursAt(s, sub, r)
    ensures r != -1 ==> forall i :: 0 <= i < r ==> !OccursAt(s, sub, i)
    ensures r == -1 <==> !Occurs(s, sub)
  {
    IndexOfFrom(s, sub, 0)
  }

  /** `s.contains(sub)`, which Java defines as `indexOf(sub) >= 0`. */
  predicate Contains(s: string, sub: string)
    ensures Contains(s, sub) <==> Occurs(s, sub)
  {
    IndexOf(s, sub) >= 0
  }

  /** Anything wrapped around an occurrence still contains it. */
  lemma {:induction false} ContainsInContext(pre: string, sub: string, post: string)
    ensures Contains(pre + sub + post, sub)
  {
    var s := pre + sub + post;
    assert s[|pre|..|pre| + |sub|] == sub;
    assert OccursAt(s, sub, |pre|);
  }
}
