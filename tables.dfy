/** Generic queries over a table held as a sequence of rows in insertion order. */
module Tables {
  import opened Wrappers

  /** The rows of `s` that `keep` accepts, in table order (a derived `findBy...` query). */
  function Filter<T(!new)>(s: seq<T>, keep: T -> bool): (r: seq<T>)
    ensures |r| <= |s|
    ensures forall x :: x in r <==> x in s && keep(x)
  {
    if s == [] then []
    else (if keep(s[0]) then [s[0]] else []) + Filter(s[1..], keep)
  }

  /** The position of the first row of `s` that `matches` accepts, if any. */
  function FindIndex<T>(s: seq<T>, matches: T -> bool): (r: Option<nat>)
    ensures r.Some? ==> r.value < |s| && matches(s[r.value])
    ensures r.Some? ==> forall i :: 0 <= i < r.value ==> !matches(s[i])
    ensures r.None? ==> forall i :: 0 <= i < |s| ==> !matches(s[i])
  {
    if s == [] then None
    else if matches(s[0]) then Some(0)
    else match FindIndex(s[1..], matches)
      case None => None
      case Some(i) => Some(i + 1)
  }

  /** The first row of `s` that `matches` accepts (a `findBy...` query returning `Optional`). */
  function Find<T(!new)>(s: seq<T>, matches: T -> bool): (r: Option<T>)
    ensures r.Some? ==> r.value in s && matches(r.value)
    ensures r.None? ==> forall x :: x in s ==> !matches(x)
  {
    match FindIndex(s, matches)
    case None => None
    case Some(i) => Some(s[i])
  }

  /** Every row of `s` stands in relation `ok` to every later row. */
  ghost predicate Pairwise<T>(s: seq<T>, ok: (T, T) -> bool)
  {
    forall i, j :: 0 <= i < j < |s| ==> ok(s[i], s[j])
  }

  /** Deleting rows keeps a pairwise property of the remaining rows. */
  lemma {:induction false} FilterPairwise<T(!new)>(s: seq<T>, keep: T -> bool, ok: (T, T) -> bool)
    requires Pairwise(s, ok)
    ensures Pairwise(Filter(s, keep), ok)
  {
    if s != [] {
      var tail := s[1..];
      var rest := Filter(tail, keep);
      assert Pairwise(tail, ok) by {
        forall i, j | 0 <= i < j < |tail| ensures ok(tail[i], tail[j]) {
          assert tail[i] == s[i + 1] && tail[j] == s[j + 1];
        }
      }
      FilterPairwise(tail, keep, ok);
      if keep(s[0]) {
        HeadRelatesToTail(s, ok);
        PairwisePrepend(s[0], rest, ok);
        assert Filter(s, keep) == [s[0]] + rest;
      } else {
        assert Filter(s, keep) == rest;
      }
    }
  }

  lemma HeadRelatesToTail<T>(s: seq<T>, ok: (T, T) -> bool)
    requires s != [] && Pairwise(s, ok)
    ensures forall y :: y in s[1..] ==> ok(s[0], y)
  {
    forall y | y in s[1..] ensures ok(s[0], y) {
      var k :| 0 <= k < |s[1..]| && s[1..][k] == y;
      assert s[k + 1] == y;
    }
  }

  lemma PairwisePrepend<T>(x: T, s: seq<T>, ok: (T, T) -> bool)
    requires Pairwise(s, ok)
    requires forall y :: y in s ==> ok(x, y)
    ensures Pairwise([x] + s, ok)
  {
    var t := [x] + s;
    forall i, j | 0 <= i < j < |t| ensures ok(t[i], t[j]) {
      if i == 0 {
        assert t[j] == s[j - 1];
      } else {
        assert t[i] == s[i - 1] && t[j] == s[j - 1];
      }
    }
  }

  /** The matching rows of `s` as a set. */
  ghost function MatchingSet<T>(s: seq<T>, keep: T -> bool): set<T>
  {
    set x | x in s && keep(x)
  }

  /**
   * In a table without repeated rows, the set of matching rows has as many elements as the
   * list a query returns.
   */
  lemma {:induction false} FilterSetCardinality<T(!new)>(s: seq<T>, keep: T -> bool)
    requires forall i, j :: 0 <= i < j < |s| ==> s[i] != s[j]
    ensures |MatchingSet(s, keep)| == |Filter(s, keep)|
  {
    if s != [] {
      var tail := s[1..];
      assert forall i, j :: 0 <= i < j < |tail| ==> tail[i] != tail[j] by {
        forall i, j | 0 <= i < j < |tail| ensures tail[i] != tail[j] {
          assert tail[i] == s[i + 1] && tail[j] == s[j + 1];
        }
      }
      FilterSetCardinality(tail, keep);
      var rest := MatchingSet(tail, keep);
      forall k | 0 <= k < |tail| ensures tail[k] != s[0] {
        assert tail[k] == s[k + 1];
      }
      assert s[0] !in tail;
      if keep(s[0]) {
        assert MatchingSet(s, keep) == {s[0]} + rest;
        assert Filter(s, keep) == [s[0]] + Filter(tail, keep);
      } else {
        assert MatchingSet(s, keep) == rest;
        assert Filter(s, keep) == Filter(tail, keep);
      }
    }
  }

  /** Appending a row that stands in relation `ok` to every existing row keeps the property. */
  lemma PairwiseAppend<T>(s: seq<T>, x: T, ok: (T, T) -> bool)
    requires Pairwise(s, ok)
    requires forall y :: y in s ==> ok(y, x)
    ensures Pairwise(s + [x], ok)
  {
    var t := s + [x];
    forall i, j | 0 <= i < j < |t| ensures ok(t[i], t[j]) {
      if j == |s| {
        assert t[i] in s;
      } else {
        assert t[i] == s[i] && t[j] == s[j];
      }
    }
  }
}
