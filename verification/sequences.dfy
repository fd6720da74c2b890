/** Order-preserving filtering and a stable sort over a comparator. The route
    handlers use the filter for their `WHERE` clauses and `Array.prototype.filter`
    calls, and the sort for `Array.prototype.sort` (stable since ES2019) and for
    `ORDER BY`. */
module Sequences {

  /** Keeps, in order, the elements that satisfy `p`. */
  function Filter<T(!new)>(s: seq<T>, p: T -> bool): (r: seq<T>)
    ensures forall x :: x in r <==> x in s && p(x)
    ensures |r| <= |s|
    decreases |s|
  {
    if |s| == 0 then []
    else
      var init := s[..|s| - 1];
      var last := s[|s| - 1];
      assert s == init + [last];
      Filter(init, p) + (if p(last) then [last] else [])
  }

  /** Nothing is dropped exactly when every element satisfies `p`. */
  lemma {:induction false} FilterDropsNothing<T(!new)>(s: seq<T>, p: T -> bool)
    ensures |Filter(s, p)| == |s| <==> forall i :: 0 <= i < |s| ==> p(s[i])
    decreases |s|
  {
    if |s| > 0 {
      var init := s[..|s| - 1];
      var last := s[|s| - 1];
      assert s == init + [last];
      FilterDropsNothing(init, p);
      assert (forall i :: 0 <= i < |s| ==> p(s[i])) <==> (forall i :: 0 <= i < |init| ==> p(init[i])) && p(last);
    }
  }

  /** Filtering keeps every element that satisfies `p` as often as it occurs
      and drops the others. */
  lemma {:induction false} FilterCount<T(!new)>(s: seq<T>, p: T -> bool, x: T)
    ensures multiset(Filter(s, p))[x] == if p(x) then multiset(s)[x] else 0
    decreases |s|
  {
    if |s| > 0 {
      var init := s[..|s| - 1];
      assert s == init + [s[|s| - 1]];
      FilterCount(init, p, x);
    }
  }

  /** `le` is total and transitive, so that sorting by it makes sense;
      elements `a`, `b` with `le(a, b)` and `le(b, a)` are ties. */
  ghost predicate TotalPreorder<T(!new)>(le: (T, T) -> bool)
  {
    && (forall a, b :: le(a, b) || le(b, a))
    && (forall a, b, c :: le(a, b) && le(b, c) ==> le(a, c))
  }

  predicate SortedBy<T>(s: seq<T>, le: (T, T) -> bool)
  {
    forall i, j :: 0 <= i < j < |s| ==> le(s[i], s[j])
  }

  /** Inserts `x` after every element it does not precede strictly, that is,
      after all its ties. */
  function Insert<T>(s: seq<T>, x: T, le: (T, T) -> bool): (r: seq<T>)
    ensures multiset(r) == multiset(s) + multiset{x}
    decreases |s|
  {
    if |s| == 0 then [x]
    else if le(s[|s| - 1], x) then s + [x]
    else
      var init := s[..|s| - 1];
      assert s == init + [s[|s| - 1]];
      Insert(init, x, le) + [s[|s| - 1]]
  }

  /** Insertion sort, taking the elements in input order. */
  function Sort<T>(s: seq<T>, le: (T, T) -> bool): (r: seq<T>)
    ensures multiset(r) == multiset(s)
    decreases |s|
  {
    if |s| == 0 then []
    else
      var init := s[..|s| - 1];
      assert s == init + [s[|s| - 1]];
      Insert(Sort(init, le), s[|s| - 1], le)
  }

  /** `a` and `b` tie under `le`: neither precedes the other strictly. */
  predicate Tie<T>(a: T, b: T, le: (T, T) -> bool)
  {
    le(a, b) && le(b, a)
  }

  /** The elements of `s` that tie with `k`, in their order in `s`. */
  function Ties<T>(s: seq<T>, k: T, le: (T, T) -> bool): seq<T>
    decreases |s|
  {
    if |s| == 0 then []
    else Ties(s[..|s| - 1], k, le) + (if Tie(s[|s| - 1], k, le) then [s[|s| - 1]] else [])
  }

  lemma {:induction false} InsertSorted<T(!new)>(s: seq<T>, x: T, le: (T, T) -> bool)
    requires TotalPreorder(le)
    requires SortedBy(s, le)
    ensures SortedBy(Insert(s, x, le), le)
    decreases |s|
  {
    if |s| > 0 && !le(s[|s| - 1], x) {
      var init := s[..|s| - 1];
      var last := s[|s| - 1];
      InsertSorted(init, x, le);
      var r := Insert(init, x, le);
      forall y | y in r ensures le(y, last) {
        assert y in multiset(r);
        if y != x {
          assert y in multiset(init);
          var i :| 0 <= i < |init| && init[i] == y;
          assert s[i] == y;
        }
      }
      var out := r + [last];
      forall i, j | 0 <= i < j < |out| ensures le(out[i], out[j]) {
        if j < |r| {
          assert out[i] == r[i] && out[j] == r[j];
        } else {
          assert out[i] == r[i] && r[i] in r;
        }
      }
    }
  }

  /** The sort's output is ordered by `le`. */
  lemma {:induction false} SortSorted<T(!new)>(s: seq<T>, le: (T, T) -> bool)
    requires TotalPreorder(le)
    ensures SortedBy(Sort(s, le), le)
    decreases |s|
  {
    if |s| > 0 {
      SortSorted(s[..|s| - 1], le);
      InsertSorted(Sort(s[..|s| - 1], le), s[|s| - 1], le);
    }
  }

  lemma Transitive<T(!new)>(le: (T, T) -> bool, a: T, b: T, c: T)
    requires TotalPreorder(le)
    ensures le(a, b) && le(b, c) ==> le(a, c)
  {
  }

  lemma TiesSnoc<T>(s: seq<T>, x: T, k: T, le: (T, T) -> bool)
    ensures Ties(s + [x], k, le) == Ties(s, k, le) + (if Tie(x, k, le) then [x] else [])
  {
    assert (s + [x])[..|s|] == s;
  }

  /** Inserting `x` puts it after all of its ties and keeps the ties of
      every other class in their order. */
  lemma {:induction false} InsertTies<T(!new)>(s: seq<T>, x: T, k: T, le: (T, T) -> bool)
    requires TotalPreorder(le)
    ensures Ties(Insert(s, x, le), k, le) == Ties(s + [x], k, le)
    decreases |s|
  {
    if |s| > 0 && !le(s[|s| - 1], x) {
      var init := s[..|s| - 1];
      var last := s[|s| - 1];
      assert s == init + [last];
      InsertTies(init, x, k, le);
      // `last` does not precede `x`, so they cannot both tie with `k`.
      Transitive(le, last, k, x);
      InsertTiesPastLast(init, last, x, k, le);
    }
  }

  /** The step of InsertTies where `x` moves past the last element: the two
      are never in the same class of ties, so their order does not matter to
      any class. */
  lemma InsertTiesPastLast<T>(init: seq<T>, last: T, x: T, k: T, le: (T, T) -> bool)
    requires !le(last, x)
    requires !(Tie(x, k, le) && Tie(last, k, le))
    requires Ties(Insert(init, x, le), k, le) == Ties(init + [x], k, le)
    ensures Ties(Insert(init + [last], x, le), k, le) == Ties(init + [last] + [x], k, le)
  {
    var r := Insert(init, x, le);
    var A := Ties(init, k, le);
    var X := if Tie(x, k, le) then [x] else [];
    var L := if Tie(last, k, le) then [last] else [];
    calc {
      Ties(Insert(init + [last], x, le), k, le);
      == { InsertPastLast(init, last, x, le); }
      Ties(r + [last], k, le);
      == { TiesSnoc(r, last, k, le); }
      Ties(r, k, le) + L;
      == { TiesSnoc(init, x, k, le); }
      A + X + L;
      == { SwapEmpty(A, X, L); }
      A + L + X;
      == { TiesSnoc(init, last, k, le); }
      Ties(init + [last], k, le) + X;
      == { TiesSnoc(init + [last], x, k, le); }
      Ties(init + [last] + [x], k, le);
    }
  }

  /** Inserting after an element that `x` strictly precedes goes before it. */
  lemma InsertPastLast<T>(init: seq<T>, last: T, x: T, le: (T, T) -> bool)
    requires !le(last, x)
    ensures Insert(init + [last], x, le) == Insert(init, x, le) + [last]
  {
    var s := init + [last];
    assert s[..|s| - 1] == init && s[|s| - 1] == last;
  }

  lemma SwapEmpty<T>(a: seq<T>, b: seq<T>, c: seq<T>)
    requires b == [] || c == []
    ensures a + b + c == a + c + b
  {
    if b == [] {
      assert a + b == a && a + c + b == a + c;
    } else {
      assert a + b + c == a + b && a + c == a;
    }
  }

  /** Stability: for every class of ties, the sort lists its members in
      input order. */
  lemma {:induction false} SortStable<T(!new)>(s: seq<T>, k: T, le: (T, T) -> bool)
    requires TotalPreorder(le)
    ensures Ties(Sort(s, le), k, le) == Ties(s, k, le)
    decreases |s|
  {
    if |s| > 0 {
      var init := s[..|s| - 1];
      var last := s[|s| - 1];
      assert s == init + [last];
      SortStable(init, k, le);
      InsertTies(Sort(init, le), last, k, le);
      TiesSnoc(Sort(init, le), last, k, le);
      TiesSnoc(init, last, k, le);
    }
  }

  lemma FilterSnoc<T(!new)>(s: seq<T>, x: T, p: T -> bool)
    ensures Filter(s + [x], p) == Filter(s, p) + (if p(x) then [x] else [])
  {
    assert (s + [x])[..|s|] == s;
  }

  /** Filtering by `p` and then by `q` keeps what `q` alone keeps when every
      element `q` keeps also satisfies `p`. */
  lemma {:induction false} FilterFilter<T(!new)>(s: seq<T>, p: T -> bool, q: T -> bool)
    requires forall x :: q(x) ==> p(x)
    ensures Filter(Filter(s, p), q) == Filter(s, q)
    decreases |s|
  {
    if |s| > 0 {
      var init := s[..|s| - 1];
      var last := s[|s| - 1];
      FilterFilter(init, p, q);
      assert s == init + [last];
      FilterSnoc(init, last, p);
      FilterSnoc(init, last, q);
      if p(last) {
        FilterSnoc(Filter(init, p), last, q);
        assert Filter(s, p) == Filter(init, p) + [last];
      } else {
        assert Filter(s, p) == Filter(init, p);
      }
    }
  }
}
