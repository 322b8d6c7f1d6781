/** Sorting by a total preorder, shared by the `ORDER BY ... DESC` queries and the gallery's
    comparator sort. `before(a, b)` holds when `a` may be listed ahead of `b`. */
module Sorting {

  ghost predicate TotalPreorder<T(!new)>(before: (T, T) -> bool) {
    && (forall a, b :: before(a, b) || before(b, a))
    && (forall a, b, c :: before(a, b) && before(b, c) ==> before(a, c))
  }

  predicate Sorted<T>(s: seq<T>, before: (T, T) -> bool) {
    forall i, j :: 0 <= i < j < |s| ==> before(s[i], s[j])
  }

  /** Inserts `x` ahead of the first element it may precede. An element equal to `x` is one
      it may precede, so `x` goes ahead of it; the sort below inserts each input element into
      the sorted rest that follows it, which is what keeps equal elements in input order. */
  function Insert<T>(x: T, s: seq<T>, before: (T, T) -> bool): (r: seq<T>)
    ensures multiset(r) == multiset(s) + multiset{x}
  {
    if s == [] then [x]
    else if before(x, s[0]) then [x] + s
    else
      assert s == [s[0]] + s[1..];
      [s[0]] + Insert(x, s[1..], before)
  }

  /** Insertion sort; the result is always a permutation of the input. */
  function Sort<T>(s: seq<T>, before: (T, T) -> bool): (r: seq<T>)
    ensures multiset(r) == multiset(s)
  {
    if s == [] then []
    else
      assert s == [s[0]] + s[1..];
      Insert(s[0], Sort(s[1..], before), before)
  }

  lemma {:induction false} InsertSorted<T(!new)>(x: T, s: seq<T>, before: (T, T) -> bool)
    requires TotalPreorder(before) && Sorted(s, before)
    ensures Sorted(Insert(x, s, before), before)
  {
    if s == [] || before(x, s[0]) {
    } else {
      var tail := Insert(x, s[1..], before);
      InsertSorted(x, s[1..], before);
      InsertAfterHead(x, s, before);
      var r := [s[0]] + tail;
      forall i, j | 0 <= i < j < |r|
        ensures before(r[i], r[j])
      {
        if i == 0 {
          assert r[j] == tail[j - 1];
          assert tail[j - 1] in tail;
        } else {
          assert r[i] == tail[i - 1] && r[j] == tail[j - 1];
        }
      }
    }
  }

  /** When `x` goes after the head of a sorted `s`, the head may precede all of the rest. */
  lemma InsertAfterHead<T(!new)>(x: T, s: seq<T>, before: (T, T) -> bool)
    requires TotalPreorder(before) && Sorted(s, before) && s != [] && !before(x, s[0])
    ensures forall y :: y in Insert(x, s[1..], before) ==> before(s[0], y)
  {
    var tail := Insert(x, s[1..], before);
    forall y | y in tail
      ensures before(s[0], y)
    {
      assert y in multiset(tail);
      if y != x {
        assert y in multiset(s[1..]);
        var k :| 0 <= k < |s[1..]| && s[1..][k] == y;
        assert s[k + 1] == y;
      }
    }
  }

  /** The sorted result lists every element ahead of all that it may precede. */
  lemma {:induction false} SortSorted<T(!new)>(s: seq<T>, before: (T, T) -> bool)
    requires TotalPreorder(before)
    ensures Sorted(Sort(s, before), before)
  {
    if s != [] {
      SortSorted(s[1..], before);
      InsertSorted(s[0], Sort(s[1..], before), before);
    }
  }

  /** Lexicographic order on code points: what SQLite's default collation does on UTF-8 text
      (byte order and code-point order agree). */
  predicate LexLe(a: string, b: string) {
    a == [] || (b != [] && (a[0] < b[0] || (a[0] == b[0] && LexLe(a[1..], b[1..]))))
  }

  lemma {:induction false} LexLeTotal(a: string, b: string)
    ensures LexLe(a, b) || LexLe(b, a)
  {
    if a != [] && b != [] && a[0] == b[0] {
      LexLeTotal(a[1..], b[1..]);
    }
  }

  lemma {:induction false} LexLeTransitive(a: string, b: string, c: string)
    requires LexLe(a, b) && LexLe(b, c)
    ensures LexLe(a, c)
  {
    if a != [] && b != [] && c != [] && a[0] == b[0] && b[0] == c[0] {
      LexLeTransitive(a[1..], b[1..], c[1..]);
    }
  }

  lemma LexLeAntisymmetric(a: string, b: string)
    requires LexLe(a, b) && LexLe(b, a)
    ensures a == b
  {
    if a != [] && b != [] {
      LexLeAntisymmetric(a[1..], b[1..]);
      assert a == [a[0]] + a[1..] && b == [b[0]] + b[1..];
    }
  }

  /** Descending by a text key: the order `ORDER BY <key> DESC` produces. */
  ghost predicate DescendingByText<T(!new)>(before: (T, T) -> bool, key: T -> string) {
    forall a, b :: before(a, b) == LexLe(key(b), key(a))
  }

  lemma DescendingByTextIsPreorder<T(!new)>(before: (T, T) -> bool, key: T -> string)
    requires DescendingByText(before, key)
    ensures TotalPreorder(before)
  {
    forall a, b ensures before(a, b) || before(b, a) {
      LexLeTotal(key(a), key(b));
    }
    forall a, b, c | before(a, b) && before(b, c) ensures before(a, c) {
      LexLeTransitive(key(c), key(b), key(a));
    }
  }

  /** Descending by an integer key: the comparator `(a, b) => key(b) - key(a)`. */
  ghost predicate DescendingByInt<T(!new)>(before: (T, T) -> bool, key: T -> int) {
    forall a, b :: before(a, b) == (key(a) >= key(b))
  }

  lemma DescendingByIntIsPreorder<T(!new)>(before: (T, T) -> bool, key: T -> int)
    requires DescendingByInt(before, key)
    ensures TotalPreorder(before)
  {
  }

  /** No element occurs twice. */
  ghost predicate NoDuplicates<T(!new)>(s: seq<T>) {
    forall x :: multiset(s)[x] <= 1
  }

  lemma NoDuplicatesDistinct<T(!new)>(s: seq<T>, i: nat, j: nat)
    requires NoDuplicates(s) && i < j < |s|
    ensures s[i] != s[j]
  {
    assert s == s[..i] + [s[i]] + s[i + 1..j] + [s[j]] + s[j + 1..];
    assert multiset(s)[s[i]] == multiset(s[..i])[s[i]] + 1 + multiset(s[i + 1..j])[s[i]]
                                + multiset([s[j]])[s[i]] + multiset(s[j + 1..])[s[i]];
  }
}
