/** Values that stand for Python's `None` and for a raised exception. */
module Wrappers {
  datatype Option<+T> = None | Some(value: T)

  datatype Result<+T, +E> = Ok(value: T) | Err(error: E)

  ghost predicate NoDup<T>(s: seq<T>) {
    forall i, j :: 0 <= i < j < |s| ==> s[i] != s[j]
  }

  lemma EmptyOrHas<T>(s: seq<T>)
    ensures s == [] || exists x :: x in s
  {
    if s != [] { assert s[0] in s; }
  }

  /** A duplicate-free sequence drawn from a finite set is no longer than the set. */
  lemma {:induction false} NoDupBound<T>(s: seq<T>, universe: set<T>)
    requires NoDup(s) && forall x :: x in s ==> x in universe
    ensures |s| <= |universe|
  {
    if s != [] {
      NoDupBound(s[1..], universe - {s[0]});
    }
  }

  /** An element occurs twice exactly when it stands at two places. */
  lemma {:induction false} TwiceMeansRepeated<T>(s: seq<T>, n: T)
    ensures multiset(s)[n] > 0 <==> n in s
    ensures multiset(s)[n] > 1 <==> exists i, j :: 0 <= i < j < |s| && s[i] == n == s[j]
  {
    if s != [] {
      var t := s[1..];
      assert s == [s[0]] + t;
      TwiceMeansRepeated(t, n);
      if multiset(s)[n] > 1 {
        if s[0] == n {
          var j :| 0 <= j < |t| && t[j] == n;
          assert s[0] == n == s[j + 1];
        } else {
          var i, j :| 0 <= i < j < |t| && t[i] == n == t[j];
          assert s[i + 1] == n == s[j + 1];
        }
      }
      forall i, j | 0 <= i < j < |s| && s[i] == n == s[j] ensures multiset(s)[n] > 1 {
        assert t[j - 1] == n;
        if i > 0 { assert t[i - 1] == n == t[j - 1]; }
      }
    }
  }

  /** A bracketed list in front of a rest, seen from behind its opening bracket. */
  lemma Bracketed<T>(left: T, list: seq<T>, right: T, rest: seq<T>)
    ensures var ts := [left] + list + [right];
      && ts != [] && ts[0] == left && ts[1..] + rest == list + ([right] + rest)
      && (ts + rest)[0] == left && (ts + rest)[1..] == list + ([right] + rest)
  {
    var ts := [left] + list + [right];
    assert ts[1..] == list + [right];
    assert (ts + rest)[1..] == ts[1..] + rest;
  }
}
