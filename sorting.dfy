/** `Array.prototype.sort` with a comparator, as the route handlers call it.
    The engine's sort is stable, so for a lawful comparator its result is
    determined by the input; a stable insertion sort gives that result. */
module Sorting {
  import opened Sequences

  /** A lawful JavaScript comparator: its sign flips when the arguments are
      swapped, and "not after" is transitive. */
  ghost predicate IsComparator<T(!new)>(cmp: (T, T) -> int) {
    SignFlips(cmp) && Transitive(cmp)
  }

  ghost predicate SignFlips<T(!new)>(cmp: (T, T) -> int) {
    forall a, b :: cmp(a, b) < 0 <==> cmp(b, a) > 0
  }

  ghost predicate Transitive<T(!new)>(cmp: (T, T) -> int) {
    forall a, b, c :: cmp(a, b) <= 0 && cmp(b, c) <= 0 ==> cmp(a, c) <= 0
  }

  ghost predicate Sorted<T>(cmp: (T, T) -> int, s: seq<T>) {
    forall i, j :: 0 <= i < j < |s| ==> cmp(s[i], s[j]) <= 0
  }

  /** No element of `s` compares strictly before an earlier one. */
  ghost predicate NeverBefore<T>(cmp: (T, T) -> int, s: seq<T>) {
    forall i, j :: 0 <= i < j < |s| ==> cmp(s[j], s[i]) >= 0
  }

  /** `x` compares strictly before no element of `s`. */
  ghost predicate NoneAfter<T>(cmp: (T, T) -> int, x: T, s: seq<T>) {
    forall i :: 0 <= i < |s| ==> cmp(x, s[i]) >= 0
  }

  /** Every element of `s` compares "not before" `x`. */
  ghost predicate AllAfter<T>(cmp: (T, T) -> int, x: T, s: seq<T>) {
    forall i :: 0 <= i < |s| ==> cmp(x, s[i]) <= 0
  }

  /** Puts `x` in front of the first element it sorts strictly before, so
      that it lands after every element it ties with. */
  function Insert<T>(cmp: (T, T) -> int, x: T, s: seq<T>): (r: seq<T>)
    ensures |r| == |s| + 1
  {
    if s == [] then [x]
    else if cmp(x, s[0]) < 0 then [x] + s
    else
      assert s == [s[0]] + s[1..];
      [s[0]] + Insert(cmp, x, s[1..])
  }

  /** Inserts the elements of `s` one by one, left to right. */
  function SortBy<T>(cmp: (T, T) -> int, s: seq<T>): (r: seq<T>)
    ensures |r| == |s|
    decreases |s|
  {
    if s == [] then []
    else
      assert s == s[..|s| - 1] + [s[|s| - 1]];
      Insert(cmp, s[|s| - 1], SortBy(cmp, s[..|s| - 1]))
  }

  lemma {:induction false} InsertPermutes<T>(cmp: (T, T) -> int, x: T, s: seq<T>)
    ensures multiset(Insert(cmp, x, s)) == multiset(s) + multiset{x}
  {
    if s != [] && cmp(x, s[0]) >= 0 {
      InsertPermutes(cmp, x, s[1..]);
      assert s == [s[0]] + s[1..];
    }
  }

  /** The sort loses and adds nothing: its result is a permutation of its input. */
  lemma {:induction false} SortByPermutes<T>(cmp: (T, T) -> int, s: seq<T>)
    ensures multiset(SortBy(cmp, s)) == multiset(s)
    decreases |s|
  {
    if s != [] {
      var n := |s| - 1;
      SortByPermutes(cmp, s[..n]);
      InsertPermutes(cmp, s[n], SortBy(cmp, s[..n]));
      assert s == s[..n] + [s[n]];
    }
  }

  lemma {:induction false} InsertAllAfter<T>(cmp: (T, T) -> int, y: T, x: T, s: seq<T>)
    requires AllAfter(cmp, y, s) && cmp(y, x) <= 0
    ensures AllAfter(cmp, y, Insert(cmp, x, s))
  {
    if s != [] && cmp(x, s[0]) >= 0 {
      InsertAllAfter(cmp, y, x, s[1..]);
    }
  }

  lemma {:induction false} InsertSorted<T(!new)>(cmp: (T, T) -> int, x: T, s: seq<T>)
    requires IsComparator(cmp) && Sorted(cmp, s)
    ensures Sorted(cmp, Insert(cmp, x, s))
  {
    if s == [] {
    } else if cmp(x, s[0]) < 0 {
      assert AllAfter(cmp, x, s);
    } else {
      assert cmp(s[0], x) <= 0;
      InsertSorted(cmp, x, s[1..]);
      InsertAllAfter(cmp, s[0], x, s[1..]);
    }
  }

  /** The sort yields a sorted sequence. */
  lemma {:induction false} SortBySorted<T(!new)>(cmp: (T, T) -> int, s: seq<T>)
    requires IsComparator(cmp)
    ensures Sorted(cmp, SortBy(cmp, s))
    decreases |s|
  {
    if s != [] {
      SortBySorted(cmp, s[..|s| - 1]);
      InsertSorted(cmp, s[|s| - 1], SortBy(cmp, s[..|s| - 1]));
    }
  }

  /** An element that sorts before nothing in `s` is inserted at its end. */
  lemma {:induction false} InsertAtEnd<T>(cmp: (T, T) -> int, x: T, s: seq<T>)
    requires NoneAfter(cmp, x, s)
    ensures Insert(cmp, x, s) == s + [x]
  {
    if s != [] {
      assert cmp(x, s[0]) >= 0;
      InsertAtEnd(cmp, x, s[1..]);
      assert s == [s[0]] + s[1..];
    }
  }

  lemma NeverBeforeFront<T>(cmp: (T, T) -> int, s: seq<T>)
    requires NeverBefore(cmp, s) && s != []
    ensures NeverBefore(cmp, s[..|s| - 1]) && NoneAfter(cmp, s[|s| - 1], s[..|s| - 1])
  {
    var front := s[..|s| - 1];
    assert forall i :: 0 <= i < |front| ==> front[i] == s[i];
  }

  /** The sort is stable: an input in which no element compares strictly
      before an earlier one comes back unchanged. */
  lemma {:induction false} SortByKeepsOrder<T>(cmp: (T, T) -> int, s: seq<T>)
    requires NeverBefore(cmp, s)
    ensures SortBy(cmp, s) == s
    decreases |s|
  {
    if s != [] {
      var n := |s| - 1;
      var front := s[..n];
      NeverBeforeFront(cmp, s);
      SortByKeepsOrder(cmp, front);
      InsertAtEnd(cmp, s[n], front);
      assert s == front + [s[n]];
    }
  }

  /** Under a lawful comparator a sorted input has no element before an earlier one. */
  lemma SortedNeverBefore<T(!new)>(cmp: (T, T) -> int, s: seq<T>)
    requires SignFlips(cmp) && Sorted(cmp, s)
    ensures NeverBefore(cmp, s)
  {
    forall i, j | 0 <= i < j < |s| ensures cmp(s[j], s[i]) >= 0 {
      assert cmp(s[i], s[j]) <= 0;
    }
  }

  /** An input that is already sorted comes back unchanged. */
  lemma SortByIdentity<T(!new)>(cmp: (T, T) -> int, s: seq<T>)
    requires SignFlips(cmp) && Sorted(cmp, s)
    ensures SortBy(cmp, s) == s
  {
    SortedNeverBefore(cmp, s);
    SortByKeepsOrder(cmp, s);
  }

  /** Filtering keeps a sorted sequence sorted. */
  lemma {:induction false} WhereSorted<T>(cmp: (T, T) -> int, s: seq<T>, p: T -> bool)
    requires Sorted(cmp, s)
    ensures Sorted(cmp, Where(s, p))
    decreases |s|
  {
    if s != [] {
      var n := |s| - 1;
      var front := Where(s[..n], p);
      WhereSorted(cmp, s[..n], p);
      WhereMembers(s[..n], p);
      forall i | 0 <= i < |front|
        ensures cmp(front[i], s[n]) <= 0
      {
        assert front[i] in s[..n];
      }
    }
  }

  /** The elements that tie with `y`. */
  function TiesWith<T>(cmp: (T, T) -> int, y: T): T -> bool {
    (z: T) => cmp(z, y) == 0
  }

  /** Under a lawful comparator, what sorts strictly after `x` sorts strictly
      after everything `x` sorts before. */
  lemma StrictThenWeak<T(!new)>(cmp: (T, T) -> int, x: T, e: T, f: T)
    requires IsComparator(cmp) && cmp(x, e) < 0 && cmp(e, f) <= 0
    ensures cmp(x, f) < 0
  {
    assert cmp(e, x) > 0;
  }

  /** Nothing in a sorted `s` that `x` sorts strictly before ties with
      what `x` ties with. */
  lemma NoTiesAfter<T(!new)>(cmp: (T, T) -> int, x: T, s: seq<T>, y: T)
    requires IsComparator(cmp) && Sorted(cmp, s) && s != []
    requires cmp(x, s[0]) < 0 && cmp(x, y) == 0
    ensures Where(s, TiesWith(cmp, y)) == []
  {
    var q := TiesWith(cmp, y);
    forall i | 0 <= i < |s| ensures !q(s[i]) {
      if i > 0 {
        assert cmp(s[0], s[i]) <= 0;
        StrictThenWeak(cmp, x, s[0], s[i]);
      }
      assert cmp(s[i], x) > 0;
      assert cmp(y, x) <= 0;
    }
    WhereNone(s, q);
  }

  lemma SortedTail<T>(cmp: (T, T) -> int, s: seq<T>)
    requires Sorted(cmp, s) && s != []
    ensures Sorted(cmp, s[1..])
  {
    forall i, j | 0 <= i < j < |s| - 1 ensures cmp(s[1..][i], s[1..][j]) <= 0 {
      assert s[1..][i] == s[i + 1] && s[1..][j] == s[j + 1];
    }
  }

  lemma InsertPastFront<T>(cmp: (T, T) -> int, x: T, s: seq<T>)
    requires s != [] && cmp(x, s[0]) >= 0
    ensures Insert(cmp, x, s) == [s[0]] + Insert(cmp, x, s[1..])
  {
  }

  lemma InsertTiesFront<T(!new)>(cmp: (T, T) -> int, x: T, s: seq<T>, y: T)
    requires IsComparator(cmp) && Sorted(cmp, s) && s != [] && cmp(x, s[0]) < 0
    ensures Where(Insert(cmp, x, s), TiesWith(cmp, y))
         == Where(s, TiesWith(cmp, y)) + (if cmp(x, y) == 0 then [x] else [])
  {
    var q := TiesWith(cmp, y);
    assert Insert(cmp, x, s) == [x] + s;
    WhereCons(x, s, q);
    if cmp(x, y) == 0 {
      NoTiesAfter(cmp, x, s, y);
      assert Where(s, q) + [x] == [x];
    } else {
      assert [] + Where(s, q) == Where(s, q) + [];
    }
  }

  /** Inserting into a sorted sequence appends `x` to the elements it ties with. */
  lemma {:induction false} InsertKeepsTies<T(!new)>(cmp: (T, T) -> int, x: T, s: seq<T>, y: T)
    requires IsComparator(cmp) && Sorted(cmp, s)
    ensures Where(Insert(cmp, x, s), TiesWith(cmp, y))
         == Where(s, TiesWith(cmp, y)) + (if cmp(x, y) == 0 then [x] else [])
  {
    var q := TiesWith(cmp, y);
    if s == [] {
      WhereSnoc([], x, q);
      assert [] + [x] == [x];
    } else if cmp(x, s[0]) < 0 {
      InsertTiesFront(cmp, x, s, y);
    } else {
      SortedTail(cmp, s);
      InsertKeepsTies(cmp, x, s[1..], y);
      InsertPastFront(cmp, x, s);
      WhereConsShift(s[0], Insert(cmp, x, s[1..]), s[1..], q, if cmp(x, y) == 0 then [x] else []);
      assert s == [s[0]] + s[1..];
    }
  }

  /** The sort is stable: the elements that tie with any `y` keep their
      input order. */
  lemma {:induction false} SortByStable<T(!new)>(cmp: (T, T) -> int, s: seq<T>, y: T)
    requires IsComparator(cmp)
    ensures Where(SortBy(cmp, s), TiesWith(cmp, y)) == Where(s, TiesWith(cmp, y))
    decreases |s|
  {
    if s != [] {
      var n := |s| - 1;
      var front := s[..n];
      assert SortBy(cmp, s) == Insert(cmp, s[n], SortBy(cmp, front));
      SortByStable(cmp, front, y);
      SortBySorted(cmp, front);
      InsertKeepsTies(cmp, s[n], SortBy(cmp, front), y);
      assert s == front + [s[n]];
      WhereSnoc(front, s[n], TiesWith(cmp, y));
    }
  }
}
