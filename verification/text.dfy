/** The string primitives the JavaScript code relies on: `String.prototype.trim`,
    the `\s` character class, ASCII case folding (as in SQLite's LIKE), substring
    search, `startsWith`, UTF-16 `.length`, and the e-mail regular expression of
    routes/students.js. */
module Text {

  /** ECMAScript WhiteSpace and LineTerminator code points: the characters
      `trim()` strips and the regular-expression class `\s` matches. */
  predicate IsSpace(c: char) {
    || c == '\t' || c == '\n' || c == '\U{B}' || c == '\U{C}' || c == '\r'
    || c == ' ' || c == '\U{A0}' || c == '\U{1680}'
    || ('\U{2000}' <= c <= '\U{200A}')
    || c == '\U{2028}' || c == '\U{2029}' || c == '\U{202F}' || c == '\U{205F}'
    || c == '\U{3000}' || c == '\U{FEFF}'
  }

  predicate AllSpace(s: string) {
    forall i :: 0 <= i < |s| ==> IsSpace(s[i])
  }

  predicate NoSpace(s: string) {
    forall i :: 0 <= i < |s| ==> !IsSpace(s[i])
  }

  /** The index of the first non-whitespace character at or after `k`. */
  function SkipSpaces(s: string, k: nat): (n: nat)
    requires k <= |s|
    ensures k <= n <= |s|
    ensures forall i :: k <= i < n ==> IsSpace(s[i])
    ensures n < |s| ==> !IsSpace(s[n])
    decreases |s| - k
  {
    if k < |s| && IsSpace(s[k]) then SkipSpaces(s, k + 1) else k
  }

  /** The end of `s[lo..hi]` once its trailing whitespace is dropped. */
  function DropTrailing(s: string, lo: nat, hi: nat): (e: nat)
    requires lo <= hi <= |s|
    ensures lo <= e <= hi
    ensures forall i :: e <= i < hi ==> IsSpace(s[i])
    ensures e > lo ==> !IsSpace(s[e - 1])
    decreases hi
  {
    if hi > lo && IsSpace(s[hi - 1]) then DropTrailing(s, lo, hi - 1) else hi
  }

  /** The number of leading whitespace characters of `s`. */
  function LeadingSpaces(s: string): nat
    ensures LeadingSpaces(s) <= |s|
  {
    SkipSpaces(s, 0)
  }

  /** JavaScript `s.trim()`: the slice of `s` that starts after its leading
      whitespace and ends before its trailing whitespace. */
  function Trim(s: string): (r: string)
    ensures LeadingSpaces(s) + |r| <= |s|
    ensures forall i :: 0 <= i < |r| ==> r[i] == s[LeadingSpaces(s) + i]
    ensures forall i :: 0 <= i < LeadingSpaces(s) ==> IsSpace(s[i])
    ensures forall i :: LeadingSpaces(s) + |r| <= i < |s| ==> IsSpace(s[i])
    ensures r == [] || (!IsSpace(r[0]) && !IsSpace(r[|r| - 1]))
    ensures r == [] <==> AllSpace(s)
    ensures NoSpace(s) ==> r == s
  {
    var a := SkipSpaces(s, 0);
    var e := DropTrailing(s, a, |s|);
    assert NoSpace(s) ==> a == 0 && e == |s|;
    s[a..e]
  }

  /** Trimming is idempotent: a value trimmed on the client and again on the
      server is the same as one trimmed once. */
  lemma TrimIdempotent(s: string)
    ensures Trim(Trim(s)) == Trim(s)
  {
    var t := Trim(s);
    assert SkipSpaces(t, 0) == 0;
    assert DropTrailing(t, 0, |t|) == |t|;
  }

  /** ASCII-only lower-casing of one character. */
  function LowerChar(c: char): (r: char)
    ensures 'A' <= c <= 'Z' ==> 'a' <= r <= 'z' && r as int == c as int + 32
    ensures !('A' <= c <= 'Z') ==> r == c
  {
    if 'A' <= c <= 'Z' then (c as int + 32) as char else c
  }

  /** Upper-casing of one character as far as it can yield an ASCII letter:
      the ASCII letters, U+017F LATIN SMALL LETTER LONG S (to 'S') and U+0131
      LATIN SMALL LETTER DOTLESS I (to 'I'); every other character is kept.
      Compared against an upper-case ASCII word with no "FF", "FI", "FL" or
      "ST" in it (the expansions of the ligatures U+FB00-U+FB06), `Upper(s)`
      agrees with JavaScript's `s.toUpperCase()`. */
  function UpperChar(c: char): (r: char)
    ensures 'a' <= c <= 'z' ==> 'A' <= r <= 'Z' && r as int == c as int - 32
    ensures c == '\U{17F}' ==> r == 'S'
    ensures c == '\U{131}' ==> r == 'I'
    ensures !('a' <= c <= 'z') && c != '\U{17F}' && c != '\U{131}' ==> r == c
  {
    if 'a' <= c <= 'z' then (c as int - 32) as char
    else if c == '\U{17F}' then 'S'
    else if c == '\U{131}' then 'I'
    else c
  }

  function Lower(s: string): (r: string)
    ensures |r| == |s| && forall i :: 0 <= i < |s| ==> r[i] == LowerChar(s[i])
  {
    if s == [] then [] else [LowerChar(s[0])] + Lower(s[1..])
  }

  function Upper(s: string): (r: string)
    ensures |r| == |s| && forall i :: 0 <= i < |s| ==> r[i] == UpperChar(s[i])
  {
    if s == [] then [] else [UpperChar(s[0])] + Upper(s[1..])
  }

  /** JavaScript `s.startsWith(p)`. */
  predicate StartsWith(s: string, p: string) {
    |p| <= |s| && s[..|p|] == p
  }

  /** `n` occurs in `h` starting at index `i`. */
  predicate OccursAt(h: string, n: string, i: int) {
    0 <= i && i + |n| <= |h| && h[i..i + |n|] == n
  }

  /** JavaScript `h.includes(n)`, by scanning every start position. */
  function Contains(h: string, n: string): (r: bool)
    ensures r <==> exists i :: OccursAt(h, n, i)
  {
    if StartsWith(h, n) then
      assert OccursAt(h, n, 0);
      true
    else if |h| == 0 then
      false
    else
      var r := Contains(h[1..], n);
      assert forall i :: OccursAt(h[1..], n, i) <==> OccursAt(h, n, i + 1);
      assert forall i :: OccursAt(h, n, i) ==> i > 0 && OccursAt(h[1..], n, i - 1);
      r
  }

  /** `n[j..]` equals `h[i + j..i + |n|]` once both are lower-cased. */
  predicate FoldedMatch(h: string, n: string, i: nat, j: nat)
    requires i + |n| <= |h| && j <= |n|
    decreases |n| - j
  {
    j == |n| || (LowerChar(h[i + j]) == LowerChar(n[j]) && FoldedMatch(h, n, i, j + 1))
  }

  /** Some start position at or after `i` gives a `FoldedMatch`. */
  predicate FoldedScan(h: string, n: string, i: nat)
    decreases |h| - i
  {
    i + |n| <= |h| && (FoldedMatch(h, n, i, 0) || FoldedScan(h, n, i + 1))
  }

  /** Case-insensitive substring test: `h.toLowerCase().includes(n.toLowerCase())`
      for ASCII letters, and `h LIKE '%n%'` in SQLite (which folds only ASCII
      letters) when `n` holds no `%` or `_`. */
  predicate ContainsIgnoreCase(h: string, n: string) {
    FoldedScan(h, n, 0)
  }

  /** `n` occurs in `h` at `k` once both are folded to lower case. */
  predicate FoldedAt(h: string, n: string, k: int) {
    0 <= k && k + |n| <= |h| && forall m :: 0 <= m < |n| ==> LowerChar(h[k + m]) == LowerChar(n[m])
  }

  /** `FoldedMatch` compares the remaining characters one by one, folded. */
  lemma {:induction false} FoldedMatchAgrees(h: string, n: string, i: nat, j: nat)
    requires i + |n| <= |h| && j <= |n|
    ensures FoldedMatch(h, n, i, j) <==> forall k :: j <= k < |n| ==> LowerChar(h[i + k]) == LowerChar(n[k])
    decreases |n| - j
  {
    if j < |n| {
      FoldedMatchAgrees(h, n, i, j + 1);
      if forall k :: j <= k < |n| ==> LowerChar(h[i + k]) == LowerChar(n[k]) {
        assert LowerChar(h[i + j]) == LowerChar(n[j]);
      }
    }
  }

  /** A folded occurrence is an occurrence in the lower-cased strings. */
  lemma FoldedAtIsLowerOccurrence(h: string, n: string, k: int)
    ensures FoldedAt(h, n, k) <==> OccursAt(Lower(h), Lower(n), k)
  {
    var lh, ln := Lower(h), Lower(n);
    if FoldedAt(h, n, k) {
      assert lh[k..k + |ln|] == ln by {
        forall m | 0 <= m < |n| ensures lh[k + m] == ln[m] {
          assert LowerChar(h[k + m]) == LowerChar(n[m]);
        }
      }
    }
    if OccursAt(lh, ln, k) {
      forall m | 0 <= m < |n| ensures LowerChar(h[k + m]) == LowerChar(n[m]) {
        assert lh[k..k + |ln|][m] == ln[m];
      }
    }
  }

  lemma {:induction false} FoldedScanFinds(h: string, n: string, i: nat)
    ensures FoldedScan(h, n, i) <==> exists k :: i <= k && FoldedAt(h, n, k)
    decreases |h| - i
  {
    if i + |n| <= |h| {
      FoldedMatchAgrees(h, n, i, 0);
      FoldedScanFinds(h, n, i + 1);
      assert FoldedMatch(h, n, i, 0) <==> FoldedAt(h, n, i);
      if exists k :: i <= k && FoldedAt(h, n, k) {
        var k :| i <= k && FoldedAt(h, n, k);
        if k != i {
          assert i + 1 <= k;
        }
      }
    }
  }

  /** The scanning test agrees with its reference definition: lower-case both
      strings, then look for a substring. */
  lemma ContainsIgnoreCaseIsLoweredContains(h: string, n: string)
    ensures ContainsIgnoreCase(h, n) <==> Contains(Lower(h), Lower(n))
  {
    FoldedScanFinds(h, n, 0);
    if ContainsIgnoreCase(h, n) {
      var k :| 0 <= k && FoldedAt(h, n, k);
      FoldedAtIsLowerOccurrence(h, n, k);
    }
    if Contains(Lower(h), Lower(n)) {
      var k :| OccursAt(Lower(h), Lower(n), k);
      FoldedAtIsLowerOccurrence(h, n, k);
    }
  }

  /** A match at position `k` is found by a scan that starts at or before `k`. */
  lemma {:induction false} FoldedScanReaches(h: string, n: string, i: nat, k: nat)
    requires i <= k && k + |n| <= |h| && FoldedMatch(h, n, k, 0)
    ensures FoldedScan(h, n, i)
    decreases k - i
  {
    if i < k {
      FoldedScanReaches(h, n, i + 1, k);
    }
  }

  /** The number of UTF-16 code units of `s`: JavaScript's `s.length`. */
  function Utf16Length(s: string): (n: nat)
    ensures |s| <= n <= 2 * |s|
  {
    if s == [] then 0 else (if s[0] as int > 0xFFFF then 2 else 1) + Utf16Length(s[1..])
  }

  /** A character of `[^\s@]`. */
  predicate IsEmailChar(c: char) {
    !IsSpace(c) && c != '@'
  }

  /** Every character of `s[lo..hi]` is in `[^\s@]`. */
  predicate EmailCharsIn(s: string, lo: int, hi: int)
    requires 0 <= lo <= hi <= |s|
  {
    forall i :: lo <= i < hi ==> IsEmailChar(s[i])
  }

  /** The regular expression `^[^\s@]+@[^\s@]+\.[^\s@]+$`: `s` splits as
      local "@" domain "." suffix, each part non-empty and free of whitespace
      and '@' (the domain part may itself hold dots). */
  predicate EmailPattern(s: string) {
    exists at, dot | 0 < at < |s| && at + 1 < dot < |s| - 1 ::
      && s[at] == '@' && s[dot] == '.'
      && EmailCharsIn(s, 0, at) && EmailCharsIn(s, at + 1, dot) && EmailCharsIn(s, dot + 1, |s|)
  }

  /** Outside the '@' and the chosen dot, every character of a matching
      string is in `[^\s@]`. */
  lemma EmailPatternChars(s: string, at: int, dot: int)
    requires 0 < at < |s| && at + 1 < dot < |s| - 1
    requires EmailCharsIn(s, 0, at) && EmailCharsIn(s, at + 1, dot) && EmailCharsIn(s, dot + 1, |s|)
    ensures forall i :: 0 <= i < |s| && i != at && i != dot ==> IsEmailChar(s[i])
  {
    forall i | 0 <= i < |s| && i != at && i != dot ensures IsEmailChar(s[i]) {
      if i < at {
        assert EmailCharsIn(s, 0, at);
      } else if i < dot {
        assert EmailCharsIn(s, at + 1, dot);
      } else {
        assert EmailCharsIn(s, dot + 1, |s|);
      }
    }
  }

  /** Every string the e-mail pattern accepts has exactly one '@', sitting
      neither first nor last, and no whitespace, so trimming it changes
      nothing. */
  lemma EmailPatternShape(s: string)
    requires EmailPattern(s)
    ensures NoSpace(s)
    ensures Trim(s) == s
    ensures exists at :: 0 < at < |s| - 1 && s[at] == '@' && forall i :: 0 <= i < |s| && s[i] == '@' ==> i == at
  {
    var at, dot :| 0 < at < |s| && at + 1 < dot < |s| - 1
      && s[at] == '@' && s[dot] == '.'
      && EmailCharsIn(s, 0, at) && EmailCharsIn(s, at + 1, dot) && EmailCharsIn(s, dot + 1, |s|);
    EmailPatternChars(s, at, dot);
    assert !IsSpace('@') && !IsSpace('.');
    assert NoSpace(s);
    assert forall i :: 0 <= i < |s| && s[i] == '@' ==> i == at;
  }

  /** A blank (whitespace-only) string never has the e-mail shape. */
  lemma BlankIsNotEmail(s: string)
    requires AllSpace(s)
    ensures !EmailPattern(s)
  {
    if EmailPattern(s) {
      EmailPatternShape(s);
    }
  }
}
