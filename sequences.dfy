/** Option, and filtering of sequences: the shared vocabulary of the model. */
module Wrappers {

  datatype Option<+T> = None | Some(value: T)
}

module Sequences {

  /** The elements of `s` that satisfy `p`, in their original order: SQL's
      `WHERE` over a table held as a sequence, and the skip-or-push loops of
      the route handlers. */
  function Where<T>(s: seq<T>, p: T -> bool): (r: seq<T>)
    ensures |r| <= |s|
    decreases |s|
  {
    if s == [] then []
    else Where(s[..|s| - 1], p) + (if p(s[|s| - 1]) then [s[|s| - 1]] else [])
  }

  lemma WhereSnoc<T>(s: seq<T>, x: T, p: T -> bool)
    ensures Where(s + [x], p) == Where(s, p) + (if p(x) then [x] else [])
  {
    assert (s + [x])[..|s|] == s;
  }

  /** Filtering keeps only elements of `s` that satisfy `p`. */
  lemma {:induction false} WhereMembers<T>(s: seq<T>, p: T -> bool)
    ensures forall x :: x in Where(s, p) ==> x in s && p(x)
    decreases |s|
  {
    if s != [] {
      var n := |s| - 1;
      WhereMembers(s[..n], p);
      forall x | x in Where(s[..n], p) ensures x in s {
        var i :| 0 <= i < n && s[..n][i] == x;
        assert s[i] == x;
      }
    }
  }

  /** Nothing that satisfies `p` is lost. */
  lemma {:induction false} WhereComplete<T>(s: seq<T>, p: T -> bool)
    ensures forall x :: x in s && p(x) ==> x in Where(s, p)
    decreases |s|
  {
    if s != [] {
      var n := |s| - 1;
      WhereComplete(s[..n], p);
      forall x | x in s && p(x) && x != s[n] ensures x in Where(s[..n], p) {
        var i :| 0 <= i < |s| && s[i] == x;
        assert s[..n][i] == x;
      }
    }
  }

  lemma {:induction false} WhereConcat<T>(a: seq<T>, b: seq<T>, p: T -> bool)
    ensures Where(a + b, p) == Where(a, p) + Where(b, p)
    decreases |b|
  {
    if b == [] {
      assert a + b == a;
    } else {
      var n := |b| - 1;
      var front, last := b[..n], b[n];
      WhereConcat(a, front, p);
      assert (a + b)[..|a + b| - 1] == a + front;
      assert (a + b)[|a + b| - 1] == last;
      assert Where(a + b, p) == Where(a + front, p) + (if p(last) then [last] else []);
    }
  }

  lemma {:induction false} WhereAll<T>(s: seq<T>, p: T -> bool)
    requires forall i :: 0 <= i < |s| ==> p(s[i])
    ensures Where(s, p) == s
    decreases |s|
  {
    if s != [] {
      var n := |s| - 1;
      WhereAll(s[..n], p);
      assert s == s[..n] + [s[n]];
    }
  }

  lemma {:induction false} WhereNone<T>(s: seq<T>, p: T -> bool)
    requires forall i :: 0 <= i < |s| ==> !p(s[i])
    ensures Where(s, p) == []
    decreases |s|
  {
    if s != [] {
      WhereNone(s[..|s| - 1], p);
    }
  }

  /** No two elements of `s` share a key. */
  ghost predicate DistinctKeys<T, K>(s: seq<T>, key: T -> K) {
    forall i, j :: 0 <= i < j < |s| ==> key(s[i]) != key(s[j])
  }

  lemma DistinctSnoc<T, K>(s: seq<T>, x: T, key: T -> K)
    requires DistinctKeys(s, key)
    requires forall y :: y in s ==> key(y) != key(x)
    ensures DistinctKeys(s + [x], key)
  {
    var r := s + [x];
    forall i, j | 0 <= i < j < |r| ensures key(r[i]) != key(r[j]) {
      assert r[i] == s[i] && s[i] in s;
      if j < |s| {
        assert r[j] == s[j];
      }
    }
  }

  /** Elements with distinct keys that all share one key are at most one. */
  lemma SameKeyAtMostOne<T, K>(s: seq<T>, key: T -> K, k: K)
    requires DistinctKeys(s, key)
    requires forall x :: x in s ==> key(x) == k
    ensures |s| <= 1
  {
    DistinctAt(s, key, 0, 1);
  }

  lemma DistinctAt<T, K>(s: seq<T>, key: T -> K, i: int, j: int)
    requires DistinctKeys(s, key)
    ensures 0 <= i < j < |s| ==> key(s[i]) != key(s[j])
  {
  }

  /** Filtering keeps keys apart. */
  lemma {:induction false} WhereDistinct<T, K>(s: seq<T>, p: T -> bool, key: T -> K)
    requires DistinctKeys(s, key)
    ensures DistinctKeys(Where(s, p), key)
    decreases |s|
  {
    if s != [] {
      var n := |s| - 1;
      var front := Where(s[..n], p);
      assert DistinctKeys(s[..n], key) by {
        forall i, j | 0 <= i < j < n ensures key(s[..n][i]) != key(s[..n][j]) {
          assert s[..n][i] == s[i] && s[..n][j] == s[j];
        }
      }
      WhereDistinct(s[..n], p, key);
      if p(s[n]) {
        WhereMembers(s[..n], p);
        forall y | y in front ensures key(y) != key(s[n]) {
          var k :| 0 <= k < n && s[..n][k] == y;
          assert s[k] == y;
        }
        DistinctSnoc(front, s[n], key);
      }
    }
  }

  /** `f` applied to every element, in order. */
  function Map<T, U>(f: T -> U, s: seq<T>): (r: seq<U>)
    ensures |r| == |s|
    ensures forall i :: 0 <= i < |s| ==> r[i] == f(s[i])
  {
    seq(|s|, i requires 0 <= i < |s| => f(s[i]))
  }

  lemma MapConcat<T, U>(f: T -> U, a: seq<T>, b: seq<T>)
    ensures Map(f, a + b) == Map(f, a) + Map(f, b)
  {
    assert forall i :: 0 <= i < |a| ==> (a + b)[i] == a[i];
    assert forall i :: |a| <= i < |a| + |b| ==> (a + b)[i] == b[i - |a|];
  }

  /** Mapping two permutations of each other gives permutations of each other. */
  lemma {:induction false} MapPermutes<T, U>(f: T -> U, a: seq<T>, b: seq<T>)
    requires multiset(a) == multiset(b)
    ensures multiset(Map(f, a)) == multiset(Map(f, b))
    decreases |a|
  {
    if a == [] {
      assert |b| == |multiset(b)| == 0;
    } else {
      var n := |a| - 1;
      var x := a[n];
      assert a == a[..n] + [x];
      assert x in multiset(b);
      var k :| 0 <= k < |b| && b[k] == x;
      var rest := b[..k] + b[k + 1..];
      assert b == b[..k] + [x] + b[k + 1..];
      calc {
        multiset(a[..n]);
        multiset(a) - multiset{x};
        multiset(b) - multiset{x};
        multiset(b[..k]) + multiset{x} + multiset(b[k + 1..]) - multiset{x};
        multiset(rest);
      }
      MapPermutes(f, a[..n], rest);
      MapConcat(f, a[..n], [x]);
      MapConcat(f, b[..k], b[k + 1..]);
      MapConcat(f, b[..k] + [x], b[k + 1..]);
      MapConcat(f, b[..k], [x]);
    }
  }

  lemma WhereCons<T>(x: T, s: seq<T>, p: T -> bool)
    ensures Where([x] + s, p) == (if p(x) then [x] else []) + Where(s, p)
  {
    WhereConcat([x], s, p);
    WhereSnoc([], x, p);
    assert [] + [x] == [x];
  }

  lemma WhereFront<T>(s: seq<T>, p: T -> bool)
    requires s != []
    ensures Where(s, p) == (if p(s[0]) then [s[0]] else []) + Where(s[1..], p)
  {
    assert s == [s[0]] + s[1..];
    WhereCons(s[0], s[1..], p);
  }

  /** Putting the same element in front of two sequences keeps a filtered
      difference at the end. */
  lemma WhereConsShift<T>(x: T, a: seq<T>, b: seq<T>, p: T -> bool, tail: seq<T>)
    requires Where(a, p) == Where(b, p) + tail
    ensures Where([x] + a, p) == Where([x] + b, p) + tail
  {
    WhereCons(x, a, p);
    WhereCons(x, b, p);
    ConcatAssoc(if p(x) then [x] else [], Where(b, p), tail);
  }

  lemma ConcatAssoc<T>(a: seq<T>, b: seq<T>, c: seq<T>)
    ensures a + (b + c) == (a + b) + c
  {
  }

  /** Filtering two permutations of each other gives permutations of each other. */
  lemma {:induction false} WherePermutes<T>(a: seq<T>, b: seq<T>, p: T -> bool)
    requires multiset(a) == multiset(b)
    ensures multiset(Where(a, p)) == multiset(Where(b, p))
    decreases |a|
  {
    if a == [] {
      assert |b| == |multiset(b)| == 0;
    } else {
      var n := |a| - 1;
      var x := a[n];
      assert a == a[..n] + [x];
      assert x in multiset(b);
      var k :| 0 <= k < |b| && b[k] == x;
      var rest := b[..k] + b[k + 1..];
      assert b == b[..k] + [x] + b[k + 1..];
      calc {
        multiset(a[..n]);
        multiset(a) - multiset{x};
        multiset(b) - multiset{x};
        multiset(b[..k]) + multiset{x} + multiset(b[k + 1..]) - multiset{x};
        multiset(rest);
      }
      WherePermutes(a[..n], rest, p);
      WhereSnoc(a[..n], x, p);
      WhereConcat(b[..k], b[k + 1..], p);
      WhereConcat(b[..k] + [x], b[k + 1..], p);
      WhereSnoc(b[..k], x, p);
    }
  }

  /** Filtering by a weaker condition first changes nothing. */
  lemma {:induction false} WhereWhere<T>(s: seq<T>, p: T -> bool, q: T -> bool)
    requires forall x :: q(x) ==> p(x)
    ensures Where(Where(s, p), q) == Where(s, q)
    decreases |s|
  {
    if s != [] {
      var n := |s| - 1;
      WhereWhere(s[..n], p, q);
      assert s == s[..n] + [s[n]];
      WhereSnoc(s[..n], s[n], p);
      WhereSnoc(s[..n], s[n], q);
      if p(s[n]) {
        assert Where(s, p) == Where(s[..n], p) + [s[n]];
        WhereSnoc(Where(s[..n], p), s[n], q);
      } else {
        assert !q(s[n]);
        assert Where(s, p) == Where(s[..n], p);
      }
    }
  }
}
