/** The order SQLite's `ORDER BY` uses for the values this program stores:
    integers before text, integers numerically, text by the BINARY collation
    (code point order). Sorting is a stable insertion sort; callers rely only on
    its contract (sorted, a permutation), since SQLite leaves the order of ties
    unspecified. */
module Ordering {

  /** A column value as SQLite compares it. */
  datatype Key = IntKey(n: int) | TextKey(s: string)

  /** BINARY collation: lexicographic by code point, a proper prefix first. */
  predicate TextLe(a: string, b: string) {
    |a| == 0 || (|b| > 0 && (a[0] < b[0] || (a[0] == b[0] && TextLe(a[1..], b[1..]))))
  }

  predicate KeyLe(a: Key, b: Key) {
    match (a, b)
    case (IntKey(x), IntKey(y)) => x <= y
    case (IntKey(_), TextKey(_)) => true
    case (TextKey(_), IntKey(_)) => false
    case (TextKey(x), TextKey(y)) => TextLe(x, y)
  }

  lemma {:induction false} TextLeTotal(a: string, b: string)
    ensures TextLe(a, b) || TextLe(b, a)
  {
    if |a| > 0 && |b| > 0 && a[0] == b[0] {
      TextLeTotal(a[1..], b[1..]);
    }
  }

  lemma {:induction false} TextLeTransitive(a: string, b: string, c: string)
    requires TextLe(a, b) && TextLe(b, c)
    ensures TextLe(a, c)
  {
    if |a| > 0 && a[0] == b[0] && b[0] == c[0] {
      TextLeTransitive(a[1..], b[1..], c[1..]);
    }
  }

  lemma {:induction false} TextLeAntisymmetric(a: string, b: string)
    requires TextLe(a, b) && TextLe(b, a)
    ensures a == b
  {
    if |a| > 0 {
      TextLeAntisymmetric(a[1..], b[1..]);
      assert a == [a[0]] + a[1..] && b == [b[0]] + b[1..];
    }
  }

  lemma KeyLeTotal(a: Key, b: Key)
    ensures KeyLe(a, b) || KeyLe(b, a)
  {
    if a.TextKey? && b.TextKey? {
      TextLeTotal(a.s, b.s);
    }
  }

  lemma KeyLeTransitive(a: Key, b: Key, c: Key)
    requires KeyLe(a, b) && KeyLe(b, c)
    ensures KeyLe(a, c)
  {
    if a.TextKey? && b.TextKey? && c.TextKey? {
      TextLeTransitive(a.s, b.s, c.s);
    }
  }

  /** `x` may come before `y` when sorting by `key`, ascending or descending. */
  predicate InOrder<T>(x: T, y: T, key: T -> Key, desc: bool) {
    if desc then KeyLe(key(y), key(x)) else KeyLe(key(x), key(y))
  }

  predicate SortedBy<T>(s: seq<T>, key: T -> Key, desc: bool) {
    forall i, j :: 0 <= i < j < |s| ==> InOrder(s[i], s[j], key, desc)
  }

  lemma InOrderTotal<T>(x: T, y: T, key: T -> Key, desc: bool)
    ensures InOrder(x, y, key, desc) || InOrder(y, x, key, desc)
  {
    KeyLeTotal(key(x), key(y));
  }

  lemma InOrderTransitive<T>(x: T, y: T, z: T, key: T -> Key, desc: bool)
    requires InOrder(x, y, key, desc) && InOrder(y, z, key, desc)
    ensures InOrder(x, z, key, desc)
  {
    if desc {
      KeyLeTransitive(key(z), key(y), key(x));
    } else {
      KeyLeTransitive(key(x), key(y), key(z));
    }
  }

  /** Inserts `x` into the sorted `s`, before the first element it may precede. */
  function InsertBy<T>(x: T, s: seq<T>, key: T -> Key, desc: bool): (r: seq<T>)
    requires SortedBy(s, key, desc)
    ensures SortedBy(r, key, desc)
    ensures multiset(r) == multiset(s) + multiset{x}
    ensures |r| == |s| + 1
  {
    if s == [] then
      [x]
    else if InOrder(x, s[0], key, desc) then
      forall j | 0 <= j < |s| ensures InOrder(x, s[j], key, desc) {
        if j > 0 {
          InOrderTransitive(x, s[0], s[j], key, desc);
        }
      }
      assert multiset([x] + s) == multiset{x} + multiset(s);
      [x] + s
    else
      InOrderTotal(x, s[0], key, desc);
      var rest := InsertBy(x, s[1..], key, desc);
      assert s == [s[0]] + s[1..];
      assert forall y :: y in multiset(rest) ==> y == x || y in multiset(s[1..]);
      forall j | 0 <= j < |rest| ensures InOrder(s[0], rest[j], key, desc) {
        assert rest[j] in multiset(rest);
        if rest[j] != x {
          var k :| 0 <= k < |s[1..]| && s[1..][k] == rest[j];
          assert s[k + 1] == rest[j];
        }
      }
      [s[0]] + rest
  }

  /** Sorts `s` by `key`, ascending or descending. */
  function SortBy<T>(s: seq<T>, key: T -> Key, desc: bool): (r: seq<T>)
    ensures SortedBy(r, key, desc)
    ensures multiset(r) == multiset(s)
    ensures |r| == |s|
  {
    if s == [] then
      []
    else
      assert s == [s[0]] + s[1..];
      InsertBy(s[0], SortBy(s[1..], key, desc), key, desc)
  }
}
