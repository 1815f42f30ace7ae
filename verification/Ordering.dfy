/** Python's order on strings and its stable `sorted` with a key. */
module Ordering {
  import opened Wrappers

  predicate Before(a: string, b: string) {
    a == "" || (b != "" && (a[0] < b[0] || (a[0] == b[0] && Before(a[1..], b[1..]))))
  }

  lemma {:induction false} BeforeIsTotal(a: string, b: string)
    ensures Before(a, b) || Before(b, a)
    ensures Before(a, b) && Before(b, a) ==> a == b
  {
    if a != "" && b != "" && a[0] == b[0] {
      BeforeIsTotal(a[1..], b[1..]);
      if a[1..] == b[1..] { assert [a[0]] + a[1..] == a && [b[0]] + b[1..] == b; }
    }
  }

  lemma {:induction false} BeforeIsTransitive(a: string, b: string, c: string)
    requires Before(a, b) && Before(b, c)
    ensures Before(a, c)
  {
    if a != "" && a[0] == b[0] == c[0] { BeforeIsTransitive(a[1..], b[1..], c[1..]); }
  }

  ghost predicate Sorted<T>(key: T -> string, s: seq<T>) {
    forall i, j :: 0 <= i < j < |s| ==> Before(key(s[i]), key(s[j]))
  }

  /** Puts `x` in front of the first element whose key is not smaller. */
  function InsertBy<T>(key: T -> string, x: T, s: seq<T>): seq<T> {
    if s == [] || Before(key(x), key(s[0])) then [x] + s else [s[0]] + InsertBy(key, x, s[1..])
  }

  function SortBy<T>(key: T -> string, s: seq<T>): seq<T> {
    if s == [] then [] else InsertBy(key, s[0], SortBy(key, s[1..]))
  }

  lemma {:induction false} InsertAdds<T>(key: T -> string, x: T, s: seq<T>)
    ensures multiset(InsertBy(key, x, s)) == multiset(s) + multiset{x}
  {
    if s != [] && !Before(key(x), key(s[0])) {
      assert s == [s[0]] + s[1..];
      InsertAdds(key, x, s[1..]);
    }
  }

  lemma {:induction false} InsertSorts<T>(key: T -> string, x: T, s: seq<T>)
    requires Sorted(key, s)
    ensures Sorted(key, InsertBy(key, x, s))
  {
    if s == [] {
    } else if Before(key(x), key(s[0])) {
      forall j | 0 <= j < |s| ensures Before(key(x), key(s[j])) {
        if j > 0 { BeforeIsTransitive(key(x), key(s[0]), key(s[j])); }
      }
    } else {
      var tail := InsertBy(key, x, s[1..]);
      InsertSorts(key, x, s[1..]);
      InsertAdds(key, x, s[1..]);
      BeforeIsTotal(key(x), key(s[0]));
      forall j | 0 <= j < |tail| ensures Before(key(s[0]), key(tail[j])) {
        assert tail[j] in multiset(tail);
        if tail[j] != x { assert tail[j] in s[1..]; }
      }
    }
  }

  /** The elements of one key, in their order. */
  function WithKey<T>(key: T -> string, k: string, s: seq<T>): seq<T> {
    if s == [] then [] else (if key(s[0]) == k then [s[0]] else []) + WithKey(key, k, s[1..])
  }

  lemma WithKeyCons<T>(key: T -> string, k: string, x: T, s: seq<T>)
    ensures WithKey(key, k, [x] + s) == (if key(x) == k then [x] else []) + WithKey(key, k, s)
  {
    assert ([x] + s)[1..] == s;
  }

  lemma {:induction false} InsertIsStable<T>(key: T -> string, k: string, x: T, s: seq<T>)
    ensures WithKey(key, k, InsertBy(key, x, s)) == (if key(x) == k then [x] else []) + WithKey(key, k, s)
  {
    if s == [] || Before(key(x), key(s[0])) {
      WithKeyCons(key, k, x, s);
    } else {
      BeforeIsTotal(key(x), key(s[0]));
      InsertIsStable(key, k, x, s[1..]);
      WithKeyCons(key, k, s[0], InsertBy(key, x, s[1..]));
    }
  }

  /** Sorting permutes and orders, and leaves elements of equal keys in their order. */
  lemma {:induction false} SortKeeps<T>(key: T -> string, s: seq<T>)
    ensures multiset(SortBy(key, s)) == multiset(s) && Sorted(key, SortBy(key, s))
    ensures forall k :: WithKey(key, k, SortBy(key, s)) == WithKey(key, k, s)
  {
    if s != [] {
      assert s == [s[0]] + s[1..];
      SortKeeps(key, s[1..]);
      InsertAdds(key, s[0], SortBy(key, s[1..]));
      InsertSorts(key, s[0], SortBy(key, s[1..]));
      forall k ensures WithKey(key, k, SortBy(key, s)) == WithKey(key, k, s) {
        InsertIsStable(key, k, s[0], SortBy(key, s[1..]));
      }
    }
  }

  ghost predicate DistinctKeys<T>(key: T -> string, s: seq<T>) {
    forall x, y :: x in s && y in s && key(x) == key(y) ==> x == y
  }

  lemma TailMultiset<T>(s: seq<T>)
    requires s != []
    ensures multiset(s[1..]) == multiset(s) - multiset{s[0]}
  {
    assert s == [s[0]] + s[1..];
  }

  /** A sorted arrangement is determined by its elements when keys tell them apart. */
  lemma {:induction false} SortedUnique<T>(key: T -> string, a: seq<T>, b: seq<T>)
    requires multiset(a) == multiset(b) && Sorted(key, a) && Sorted(key, b) && DistinctKeys(key, a)
    ensures a == b
  {
    assert |a| == |multiset(a)| == |multiset(b)| == |b|;
    if a != [] {
      SameFirst(key, a, b);
      TailMultiset(a);
      TailMultiset(b);
      SortedUnique(key, a[1..], b[1..]);
      assert a == [a[0]] + a[1..] && b == [b[0]] + b[1..];
    }
  }

  lemma SameFirst<T>(key: T -> string, a: seq<T>, b: seq<T>)
    requires multiset(a) == multiset(b) && Sorted(key, a) && Sorted(key, b)
      && DistinctKeys(key, a) && a != [] && b != []
    ensures a[0] == b[0]
  {
    assert a[0] in multiset(b) && b[0] in multiset(a);
    var i :| 0 <= i < |b| && b[i] == a[0];
    var j :| 0 <= j < |a| && a[j] == b[0];
    BeforeIsTotal(key(a[0]), key(b[0]));
    assert i == 0 || Before(key(b[0]), key(a[0]));
    assert j == 0 || Before(key(a[0]), key(b[0]));
  }

  /** A sorted list without repetitions. */
  ghost predicate Ascending(s: seq<string>) {
    forall i, j :: 0 <= i < j < |s| ==> Before(s[i], s[j]) && s[i] != s[j]
  }

  ghost predicate Within(a: seq<string>, b: seq<string>) {
    forall x :: x in a ==> x in b
  }

  lemma AscendingFirst(s: seq<string>, x: string)
    requires Ascending(s) && x in s
    ensures x == s[0] || Before(s[0], x)
  {}

  lemma SameLeast(a: seq<string>, b: seq<string>)
    requires Ascending(a) && Ascending(b) && a != [] && b != [] && a[0] in b && b[0] in a
    ensures a[0] == b[0]
  {
    BeforeIsTotal(a[0], b[0]);
    AscendingFirst(a, b[0]);
    AscendingFirst(b, a[0]);
  }

  lemma AscendingTail(a: seq<string>, b: seq<string>)
    requires Ascending(a) && a != [] && b != [] && a[0] == b[0] && Within(a, b)
    ensures Ascending(a[1..]) && Within(a[1..], b[1..])
  {
    forall x | x in a[1..] ensures x in b[1..] {
      var i :| 0 <= i < |a[1..]| && a[1..][i] == x;
      assert x == a[i + 1] && Before(a[0], a[i + 1]) && a[0] != a[i + 1];
      assert x in a && b == [b[0]] + b[1..];
    }
  }

  lemma BothOrNone(a: seq<string>, b: seq<string>)
    requires Within(a, b) && Within(b, a)
    ensures a == [] <==> b == []
    ensures a != [] ==> a[0] in b && b[0] in a
  {
    EmptyOrHas(a);
    EmptyOrHas(b);
  }

  lemma {:induction false} AscendingUnique(a: seq<string>, b: seq<string>)
    requires Ascending(a) && Ascending(b) && Within(a, b) && Within(b, a)
    ensures a == b
  {
    BothOrNone(a, b);
    if a != [] {
      SameLeast(a, b);
      AscendingTail(a, b);
      AscendingTail(b, a);
      AscendingUnique(a[1..], b[1..]);
      assert [a[0]] + a[1..] == a && [b[0]] + b[1..] == b;
    }
  }

  /** `sorted` of a set. */
  method SortedSet(names: set<string>) returns (r: seq<string>)
    ensures Ascending(r) && forall n :: n in r <==> n in names
  {
    r := [];
    var left := names;
    while left != {}
      invariant left <= names && Ascending(r) && forall n :: n in r <==> n in names - left
    {
      var n :| n in left;
      r := InsertName(n, r);
      left := left - {n};
    }
  }

  method InsertName(n: string, s: seq<string>) returns (r: seq<string>)
    requires Ascending(s) && n !in s
    ensures Ascending(r) && forall m :: m in r <==> m == n || m in s
  {
    var i := 0;
    while i < |s| && Before(s[i], n)
      invariant i <= |s| && forall k :: 0 <= k < i ==> Before(s[k], n)
    {
      i := i + 1;
    }
    r := s[..i] + [n] + s[i..];
    forall k | i <= k < |s| ensures Before(n, s[k]) {
      BeforeIsTotal(s[i], n);
      if k > i { BeforeIsTransitive(n, s[i], s[k]); }
    }
  }
}
