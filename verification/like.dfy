/** SQLite's `LIKE` operator without an ESCAPE clause: `%` matches any run of
    characters, `_` exactly one, and any other pattern character matches itself
    with ASCII letters folded to one case (SQLite's default, built without ICU). */
module SqlLike {
  import opened Text

  /** `h[i..]` matches `p[j..]`. */
  predicate LikeFrom(h: string, p: string, i: nat, j: nat)
    requires i <= |h| && j <= |p|
    decreases |p| - j, |h| - i
  {
    if j == |p| then
      i == |h|
    else if p[j] == '%' then
      LikeFrom(h, p, i, j + 1) || (i < |h| && LikeFrom(h, p, i + 1, j))
    else
      && i < |h|
      && (p[j] == '_' || LowerChar(h[i]) == LowerChar(p[j]))
      && LikeFrom(h, p, i + 1, j + 1)
  }

  /** `h LIKE p`. */
  predicate Like(h: string, p: string) {
    LikeFrom(h, p, 0, 0)
  }

  predicate NoWildcards(n: string) {
    forall k :: 0 <= k < |n| ==> n[k] != '%' && n[k] != '_'
  }

  /** The pattern `%n%` that the list route builds from a search term. */
  function Surround(n: string): (p: string)
    ensures |p| == |n| + 2 && p[0] == '%' && p[|p| - 1] == '%'
    ensures forall k :: 0 <= k < |n| ==> p[k + 1] == n[k]
  {
    "%" + n + "%"
  }

  /** A trailing `%` matches whatever is left. */
  lemma {:induction false} TrailingPercent(h: string, p: string, i: nat)
    requires i <= |h| && |p| > 0 && p[|p| - 1] == '%'
    ensures LikeFrom(h, p, i, |p| - 1)
    decreases |h| - i
  {
    if i < |h| {
      TrailingPercent(h, p, i + 1);
    }
  }

  /** Past the leading `%`, the pattern `%n%` reads `n` literally from `s`. */
  lemma {:induction false} SurroundBody(h: string, n: string, s: nat, k: nat)
    requires NoWildcards(n) && k <= |n| && s + k <= |h|
    ensures LikeFrom(h, Surround(n), s + k, k + 1) <==> s + |n| <= |h| && FoldedMatch(h, n, s, k)
    decreases |n| - k
  {
    var p := Surround(n);
    if k == |n| {
      TrailingPercent(h, p, s + k);
    } else {
      assert p[k + 1] == n[k];
      if s + k + 1 <= |h| {
        SurroundBody(h, n, s, k + 1);
      }
    }
  }

  /** `h LIKE '%n%'` from position `i` on is the case-insensitive scan from `i`. */
  lemma {:induction false} SurroundScan(h: string, n: string, i: nat)
    requires NoWildcards(n) && i <= |h|
    ensures LikeFrom(h, Surround(n), i, 0) <==> FoldedScan(h, n, i)
    decreases |h| - i
  {
    SurroundBody(h, n, i, 0);
    if i < |h| {
      SurroundScan(h, n, i + 1);
    }
  }

  /** For a search term without wildcards, `LIKE '%n%'` is case-insensitive
      substring search. */
  lemma LikeSurroundIsContains(h: string, n: string)
    requires NoWildcards(n)
    ensures Like(h, Surround(n)) <==> ContainsIgnoreCase(h, n)
  {
    SurroundScan(h, n, 0);
  }
}
