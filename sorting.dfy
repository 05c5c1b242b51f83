/** `Array.prototype.sort` with a comparator: a stable sort, written as an
    insertion sort over an ordering `le` ("may come before"). */
module Sorting {
  import opened Seqs

  /** Every element of `s` may come before every later one. */
  predicate SortedBy<T>(s: seq<T>, le: (T, T) -> bool) {
    forall i, j :: 0 <= i < j < |s| ==> le(s[i], s[j])
  }

  /** `le` compares any two values and is transitive: the orders a comparator describes. */
  ghost predicate TotalPreorder<T(!new)>(le: (T, T) -> bool) {
    && (forall a, b :: le(a, b) || le(b, a))
    && (forall a, b, c :: le(a, b) && le(b, c) ==> le(a, c))
  }

  /** Puts `x` after the last element of `s` that may come before it, or
      first when there is none; equal elements keep their arrival order. */
  function InsertBy<T>(s: seq<T>, x: T, le: (T, T) -> bool): (r: seq<T>)
    ensures |r| == |s| + 1
    decreases |s|
  {
    if s == [] then [x]
    else if le(s[|s| - 1], x) then s + [x]
    else
      var s' := s[..|s| - 1];
      assert s == s' + [s[|s| - 1]];
      InsertBy(s', x, le) + [s[|s| - 1]]
  }

  /** Sorts `s` by inserting its elements one after another. */
  function SortBy<T>(s: seq<T>, le: (T, T) -> bool): (r: seq<T>)
    ensures |r| == |s|
    decreases |s|
  {
    if s == [] then []
    else
      var s' := s[..|s| - 1];
      assert s == s' + [s[|s| - 1]];
      InsertBy(SortBy(s', le), s[|s| - 1], le)
  }

  /** Where `InsertBy` puts `x`: after the last element that may come before it. */
  function InsertPoint<T>(s: seq<T>, x: T, le: (T, T) -> bool): (k: nat)
    ensures k <= |s|
    decreases |s|
  {
    if s == [] then 0
    else if le(s[|s| - 1], x) then |s|
    else InsertPoint(s[..|s| - 1], x, le)
  }

  /** `InsertBy` splits `s` at its insertion point and puts `x` there. */
  lemma {:induction false} InsertByAt<T>(s: seq<T>, x: T, le: (T, T) -> bool)
    ensures var k := InsertPoint(s, x, le); InsertBy(s, x, le) == s[..k] + [x] + s[k..]
    decreases |s|
  {
    if s != [] && !le(s[|s| - 1], x) {
      var s' := s[..|s| - 1];
      var k := InsertPoint(s', x, le);
      InsertByAt(s', x, le);
      assert s[..k] == s'[..k];
      assert s[k..] == s'[k..] + [s[|s| - 1]];
    } else if s != [] {
      assert s[..|s|] == s;
    }
  }

  /** Nothing after the insertion point may come before `x`. */
  lemma {:induction false} InsertPointTail<T>(s: seq<T>, x: T, le: (T, T) -> bool, i: int)
    requires InsertPoint(s, x, le) <= i < |s|
    ensures !le(s[i], x)
    decreases |s|
  {
    if i < |s| - 1 {
      InsertPointTail(s[..|s| - 1], x, le, i);
    }
  }

  /** Inserting adds `x` and keeps everything else. */
  lemma InsertByPermutes<T>(s: seq<T>, x: T, le: (T, T) -> bool)
    ensures multiset(InsertBy(s, x, le)) == multiset(s) + multiset{x}
  {
    var k := InsertPoint(s, x, le);
    InsertByAt(s, x, le);
    var p, q := s[..k], s[k..];
    assert s == p + q;
    assert multiset(p + [x] + q) == multiset(p + [x]) + multiset(q);
    assert multiset(p + [x]) == multiset(p) + multiset{x};
  }

  /** The sort is a rearrangement of its input. */
  lemma {:induction false} SortByPermutes<T>(s: seq<T>, le: (T, T) -> bool)
    ensures multiset(SortBy(s, le)) == multiset(s)
    decreases |s|
  {
    if s != [] {
      var s' := s[..|s| - 1];
      SortByPermutes(s', le);
      InsertByPermutes(SortBy(s', le), s[|s| - 1], le);
      assert s == s' + [s[|s| - 1]];
    }
  }

  lemma {:induction false} InsertBySorted<T(!new)>(s: seq<T>, x: T, le: (T, T) -> bool)
    requires TotalPreorder(le) && SortedBy(s, le)
    ensures SortedBy(InsertBy(s, x, le), le)
    decreases |s|
  {
    if s != [] {
      var last := s[|s| - 1];
      var s' := s[..|s| - 1];
      if !le(last, x) {
        var r' := InsertBy(s', x, le);
        InsertBySorted(s', x, le);
        InsertByPermutes(s', x, le);
        assert le(x, last);
        forall i | 0 <= i < |r'|
          ensures le(r'[i], last)
        {
          assert r'[i] in multiset(r');
          assert r'[i] in s' || r'[i] == x;
        }
      }
    }
  }

  /** The sort orders its input by `le`. */
  lemma {:induction false} SortBySorted<T(!new)>(s: seq<T>, le: (T, T) -> bool)
    requires TotalPreorder(le)
    ensures SortedBy(SortBy(s, le), le)
    decreases |s|
  {
    if s != [] {
      SortBySorted(s[..|s| - 1], le);
      InsertBySorted(SortBy(s[..|s| - 1], le), s[|s| - 1], le);
    }
  }

  /** The sort keeps exactly the elements it was given. */
  lemma SortByMembers<T>(s: seq<T>, le: (T, T) -> bool)
    ensures forall x :: x in SortBy(s, le) <==> x in s
  {
    var r := SortBy(s, le);
    SortByPermutes(s, le);
    assert forall x :: x in r <==> x in multiset(r);
    assert forall x :: x in s <==> x in multiset(s);
  }

  /** Inserting keeps, among the elements `f` singles out, the arrival order,
      as long as `le` lets any of them come before any other. */
  lemma InsertByStable<T>(s: seq<T>, x: T, le: (T, T) -> bool, f: T -> bool)
    requires forall a, b :: f(a) && f(b) ==> le(a, b)
    ensures Filter(InsertBy(s, x, le), f) == Filter(s, f) + Filter([x], f)
  {
    var k := InsertPoint(s, x, le);
    InsertByAt(s, x, le);
    if f(x) {
      forall i | 0 <= i < |s[k..]|
        ensures !f(s[k..][i])
      {
        InsertPointTail(s, x, le, k + i);
      }
      FilterNone(s[k..], f);
    }
    FilterSplice(s[..k], x, s[k..], f);
    assert s[..k] + s[k..] == s;
  }

  /** Putting `x` between `p` and `q` adds it last to the filter,
      when nothing in `q` passes or `x` itself does not. */
  lemma FilterSplice<T>(p: seq<T>, x: T, q: seq<T>, f: T -> bool)
    requires !f(x) || Filter(q, f) == []
    ensures Filter(p + [x] + q, f) == Filter(p + q, f) + Filter([x], f)
  {
    FilterAppend(p + [x], q, f);
    FilterAppend(p, [x], f);
    FilterAppend(p, q, f);
    FilterSingle(x, f);
  }

  /** The sort is stable for every class of elements that `le` lets come in any order. */
  lemma {:induction false} SortByStable<T>(s: seq<T>, le: (T, T) -> bool, f: T -> bool)
    requires forall a, b :: f(a) && f(b) ==> le(a, b)
    ensures Filter(SortBy(s, le), f) == Filter(s, f)
    decreases |s|
  {
    if s != [] {
      var s', last := s[..|s| - 1], s[|s| - 1];
      var r' := SortBy(s', le);
      assert s == s' + [last];
      assert SortBy(s, le) == InsertBy(r', last, le);
      SortByStable(s', le, f);
      InsertByStable(r', last, le, f);
      FilterAppend(s', [last], f);
    }
  }
}
