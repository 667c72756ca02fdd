/**
 * Kotlin's `sorted()` on a list of comparable values: a stable sort by a
 * comparator. The model is an insertion sort that places each element after
 * every element that is not greater than it.
 */
module Sorting {

  /** `le` is total and transitive, as `compareTo(a, b) <= 0` of a well-behaved comparator. */
  ghost predicate IsTotalPreorder<T(!new)>(le: (T, T) -> bool)
  {
    && (forall a, b :: le(a, b) || le(b, a))
    && (forall a, b, c :: le(a, b) && le(b, c) ==> le(a, c))
  }

  predicate SortedBy<T>(s: seq<T>, le: (T, T) -> bool)
  {
    forall i, j :: 0 <= i < j < |s| ==> le(s[i], s[j])
  }

  /** Inserts `x` after the longest prefix of `s` whose elements are not greater than `x`. */
  function InsertBy<T>(x: T, s: seq<T>, le: (T, T) -> bool): (r: seq<T>)
    ensures multiset(r) == multiset(s) + multiset{x}
    ensures |r| == |s| + 1
  {
    if s == [] then [x]
    else if le(s[0], x) then
      assert s == [s[0]] + s[1..];
      [s[0]] + InsertBy(x, s[1..], le)
    else [x] + s
  }

  /** The stable sort of `s`: its elements, in order, by `le`. */
  function SortBy<T>(s: seq<T>, le: (T, T) -> bool): (r: seq<T>)
    ensures multiset(r) == multiset(s)
    ensures |r| == |s|
  {
    if s == [] then []
    else
      assert s == s[..|s| - 1] + [s[|s| - 1]];
      InsertBy(s[|s| - 1], SortBy(s[..|s| - 1], le), le)
  }

  /** A head not greater than anything in a sorted tail keeps the list sorted. */
  lemma ConsSorted<T>(h: T, tail: seq<T>, le: (T, T) -> bool)
    requires SortedBy(tail, le)
    requires forall k :: 0 <= k < |tail| ==> le(h, tail[k])
    ensures SortedBy([h] + tail, le)
  {
    var r := [h] + tail;
    forall i, j | 0 <= i < j < |r| ensures le(r[i], r[j]) {
      assert r[j] == tail[j - 1];
      if i > 0 { assert r[i] == tail[i - 1]; }
    }
  }

  /** The head of a sorted list is not greater than anything the insertion places behind it. */
  lemma HeadBelowInsert<T>(x: T, s: seq<T>, le: (T, T) -> bool)
    requires SortedBy(s, le) && s != [] && le(s[0], x)
    ensures forall k :: 0 <= k < |InsertBy(x, s[1..], le)| ==> le(s[0], InsertBy(x, s[1..], le)[k])
  {
    var tail := InsertBy(x, s[1..], le);
    forall k | 0 <= k < |tail|
      ensures le(s[0], tail[k])
    {
      assert tail[k] in multiset(tail);
      if tail[k] != x {
        assert tail[k] in multiset(s[1..]);
        var m :| 0 <= m < |s[1..]| && s[1..][m] == tail[k];
        assert s[m + 1] == tail[k];
      }
    }
  }

  /** An element below the head of a sorted list is not greater than anything in it. */
  lemma BelowHeadBelowAll<T(!new)>(x: T, s: seq<T>, le: (T, T) -> bool)
    requires IsTotalPreorder(le)
    requires SortedBy(s, le) && s != [] && !le(s[0], x)
    ensures forall k :: 0 <= k < |s| ==> le(x, s[k])
  {
    assert le(x, s[0]);
    forall k | 0 <= k < |s|
      ensures le(x, s[k])
    {
      if k > 0 { assert le(s[0], s[k]); }
    }
  }

  lemma {:induction false} InsertBySorted<T(!new)>(x: T, s: seq<T>, le: (T, T) -> bool)
    requires IsTotalPreorder(le)
    requires SortedBy(s, le)
    ensures SortedBy(InsertBy(x, s, le), le)
  {
    if s != [] {
      if le(s[0], x) {
        SortedByTail(s, le);
        InsertBySorted(x, s[1..], le);
        HeadBelowInsert(x, s, le);
        ConsSorted(s[0], InsertBy(x, s[1..], le), le);
      } else {
        BelowHeadBelowAll(x, s, le);
        ConsSorted(x, s, le);
      }
    }
  }

  lemma {:induction false} SortBySorted<T(!new)>(s: seq<T>, le: (T, T) -> bool)
    requires IsTotalPreorder(le)
    ensures SortedBy(SortBy(s, le), le)
  {
    if s != [] {
      SortBySorted(s[..|s| - 1], le);
      InsertBySorted(s[|s| - 1], SortBy(s[..|s| - 1], le), le);
    }
  }

  /** Sorting keeps exactly the input's elements. */
  lemma SortByElements<T>(s: seq<T>, le: (T, T) -> bool, x: T)
    ensures x in SortBy(s, le) <==> x in s
  {
    assert x in SortBy(s, le) <==> x in multiset(SortBy(s, le));
    assert x in s <==> x in multiset(s);
  }

  /** The elements of `s` tied with `y` under `le` (each `le` the other), in their order in `s`. */
  function TiedWith<T>(s: seq<T>, y: T, le: (T, T) -> bool): seq<T>
  {
    if s == [] then []
    else (if le(s[0], y) && le(y, s[0]) then [s[0]] else []) + TiedWith(s[1..], y, le)
  }

  lemma {:induction false} TiedWithConcat<T>(a: seq<T>, b: seq<T>, y: T, le: (T, T) -> bool)
    ensures TiedWith(a + b, y, le) == TiedWith(a, y, le) + TiedWith(b, y, le)
  {
    if a == [] {
      assert a + b == b;
    } else {
      assert (a + b)[1..] == a[1..] + b;
      TiedWithConcat(a[1..], b, y, le);
    }
  }

  lemma {:induction false} TiedWithNone<T>(s: seq<T>, y: T, le: (T, T) -> bool)
    requires forall k :: 0 <= k < |s| ==> !le(s[k], y)
    ensures TiedWith(s, y, le) == []
  {
    if s != [] {
      TiedWithNone(s[1..], y, le);
    }
  }

  /** Nothing in a sorted list whose head is above `x` ties with what `x` ties with. */
  lemma AboveTiesNothing<T(!new)>(x: T, s: seq<T>, le: (T, T) -> bool, y: T)
    requires IsTotalPreorder(le)
    requires SortedBy(s, le) && s != [] && !le(s[0], x) && le(y, x)
    ensures TiedWith(s, y, le) == []
  {
    forall k | 0 <= k < |s| ensures !le(s[k], y) {
      if k > 0 { assert le(s[0], s[k]); }
    }
    TiedWithNone(s, y, le);
  }

  lemma SortedByTail<T>(s: seq<T>, le: (T, T) -> bool)
    requires SortedBy(s, le) && s != []
    ensures SortedBy(s[1..], le)
  {
    forall i, j | 0 <= i < j < |s| - 1 ensures le(s[1..][i], s[1..][j]) {
      assert s[1..][i] == s[i + 1] && s[1..][j] == s[j + 1];
    }
  }

  /** When `x` goes past the head, the head's tie comes first and the rest follows the tail's insertion. */
  lemma InsertPastHeadStable<T>(x: T, s: seq<T>, le: (T, T) -> bool, y: T)
    requires s != [] && le(s[0], x)
    requires TiedWith(InsertBy(x, s[1..], le), y, le) == TiedWith(s[1..], y, le) + TiedWith([x], y, le)
    ensures TiedWith(InsertBy(x, s, le), y, le) == TiedWith(s, y, le) + TiedWith([x], y, le)
  {
    var head, rest := TiedWith([s[0]], y, le), TiedWith(s[1..], y, le);
    TiedWithConcat([s[0]], InsertBy(x, s[1..], le), y, le);
    TiedWithConcat([s[0]], s[1..], y, le);
    assert [s[0]] + s[1..] == s;
    assert head + (rest + TiedWith([x], y, le)) == (head + rest) + TiedWith([x], y, le);
  }

  /**
   * Inserting into a sorted list keeps the elements tied with any `y` in
   * their order, and the inserted element comes after those it ties with.
   */
  lemma {:induction false} InsertByStable<T(!new)>(x: T, s: seq<T>, le: (T, T) -> bool, y: T)
    requires IsTotalPreorder(le)
    requires SortedBy(s, le)
    ensures TiedWith(InsertBy(x, s, le), y, le) == TiedWith(s, y, le) + TiedWith([x], y, le)
  {
    if s == [] {
      assert TiedWith([x], y, le) == TiedWith([x], y, le) + TiedWith([], y, le);
    } else if le(s[0], x) {
      SortedByTail(s, le);
      InsertByStable(x, s[1..], le, y);
      InsertPastHeadStable(x, s, le, y);
    } else {
      TiedWithConcat([x], s, y, le);
      if le(x, y) && le(y, x) {
        AboveTiesNothing(x, s, le, y);
      } else {
        assert TiedWith([x], y, le) == [x][..0];
      }
    }
  }

  /** Inserting into the sort of `s` puts `x` after the elements of `s` it ties with. */
  lemma InsertIntoSortStable<T(!new)>(x: T, s: seq<T>, le: (T, T) -> bool, y: T)
    requires IsTotalPreorder(le)
    ensures TiedWith(InsertBy(x, SortBy(s, le), le), y, le) == TiedWith(SortBy(s, le), y, le) + TiedWith([x], y, le)
  {
    SortBySorted(s, le);
    InsertByStable(x, SortBy(s, le), le, y);
  }

  /** The sort is stable: elements tied with any `y` keep their input order. */
  lemma {:induction false} SortByStable<T(!new)>(s: seq<T>, le: (T, T) -> bool, y: T)
    requires IsTotalPreorder(le)
    ensures TiedWith(SortBy(s, le), y, le) == TiedWith(s, y, le)
  {
    if s != [] {
      SortByStable(s[..|s| - 1], le, y);
      InsertIntoSortStable(s[|s| - 1], s[..|s| - 1], le, y);
      SortByLastStable(s, le, y);
    }
  }

  /** The sort of `s` ties its last element in behind the sort of the rest. */
  lemma SortByLastStable<T>(s: seq<T>, le: (T, T) -> bool, y: T)
    requires s != []
    requires TiedWith(SortBy(s[..|s| - 1], le), y, le) == TiedWith(s[..|s| - 1], y, le)
    requires TiedWith(InsertBy(s[|s| - 1], SortBy(s[..|s| - 1], le), le), y, le)
          == TiedWith(SortBy(s[..|s| - 1], le), y, le) + TiedWith([s[|s| - 1]], y, le)
    ensures TiedWith(SortBy(s, le), y, le) == TiedWith(s, y, le)
  {
    SplitLast(s);
    TiedWithConcat(s[..|s| - 1], [s[|s| - 1]], y, le);
  }

  lemma SplitLast<T>(s: seq<T>)
    requires s != []
    ensures s[..|s| - 1] + [s[|s| - 1]] == s
  {
  }
}
