/** Python's `sorted(pairs, key=score, reverse=True)`: a stable sort by
    descending score. Elements with equal scores keep their input order. */
module Ranking {
  import opened Seqs

  datatype Scored<T> = Scored(item: T, score: real)

  ghost predicate SortedDesc<T>(s: seq<Scored<T>>)
  {
    forall i, j :: 0 <= i < j < |s| ==> s[i].score >= s[j].score
  }

  /** The elements of `s` whose score is exactly `v`, in order. */
  function WithScore<T(!new)>(s: seq<Scored<T>>, v: real): seq<Scored<T>>
  {
    Filter((x: Scored<T>) => x.score == v, s)
  }

  /** Places `x` after every element whose score is at least its own. */
  function Insert<T>(x: Scored<T>, s: seq<Scored<T>>): (r: seq<Scored<T>>)
    ensures |r| == |s| + 1
    ensures multiset(r) == multiset(s) + multiset{x}
  {
    if |s| == 0 || s[0].score < x.score then [x] + s
    else
      var r := [s[0]] + Insert(x, s[1..]);
      assert s == [s[0]] + s[1..];
      r
  }

  /** Stable descending sort: each element in turn is inserted behind the
      sorted prefix's equal-scored elements. */
  function SortDesc<T(!new)>(s: seq<Scored<T>>): (r: seq<Scored<T>>)
    ensures multiset(r) == multiset(s)
    ensures SortedDesc(r)
    ensures forall v :: WithScore(r, v) == WithScore(s, v)
  {
    if |s| == 0 then []
    else
      var init := s[..|s| - 1];
      var last := s[|s| - 1];
      var sorted := SortDesc(init);
      SortStep(init, last, sorted);
      assert s == init + [last];
      Insert(last, sorted)
  }

  /** One insertion step keeps the sort's three promises. */
  lemma SortStep<T(!new)>(init: seq<Scored<T>>, last: Scored<T>, sorted: seq<Scored<T>>)
    requires multiset(sorted) == multiset(init)
    requires SortedDesc(sorted)
    requires forall v :: WithScore(sorted, v) == WithScore(init, v)
    ensures multiset(Insert(last, sorted)) == multiset(init + [last])
    ensures SortedDesc(Insert(last, sorted))
    ensures forall v :: WithScore(Insert(last, sorted), v) == WithScore(init + [last], v)
  {
    InsertSorted(last, sorted);
    forall v ensures WithScore(Insert(last, sorted), v) == WithScore(init + [last], v) {
      InsertStable(last, sorted, v);
      FilterConcat((x: Scored<T>) => x.score == v, init, [last]);
    }
  }

  lemma {:induction false} InsertSorted<T>(x: Scored<T>, s: seq<Scored<T>>)
    requires SortedDesc(s)
    ensures SortedDesc(Insert(x, s))
  {
    if |s| > 0 && s[0].score >= x.score {
      InsertSorted(x, s[1..]);
      var r := Insert(x, s);
      assert r == [s[0]] + Insert(x, s[1..]);
      forall k | 0 < k < |r| ensures r[0].score >= r[k].score {
        assert r[k] in multiset(Insert(x, s[1..]));
        assert r[k] in multiset(s[1..]) + multiset{x};
      }
    }
  }

  /** Inserting `x` appends it to the run of elements with its score. */
  lemma {:induction false} InsertStable<T(!new)>(x: Scored<T>, s: seq<Scored<T>>, v: real)
    requires SortedDesc(s)
    ensures WithScore(Insert(x, s), v) == WithScore(s, v) + (if x.score == v then [x] else [])
  {
    var eq := (y: Scored<T>) => y.score == v;
    if |s| == 0 {
    } else if s[0].score < x.score {
      if x.score == v {
        FilterNone(eq, s);
      }
      assert Insert(x, s) == [x] + s;
      FilterConcat(eq, [x], s);
    } else {
      InsertStable(x, s[1..], v);
      assert Insert(x, s) == [s[0]] + Insert(x, s[1..]);
      FilterConcat(eq, [s[0]], Insert(x, s[1..]));
      FilterConcat(eq, [s[0]], s[1..]);
      assert [s[0]] + s[1..] == s;
    }
  }

  /** Ranking then filtering gives the same list as filtering then ranking:
      the survivors of a filter over a ranked list are the ranking of the
      survivors. */
  lemma {:induction false} SortFilterCommute<T(!new)>(keep: Scored<T> -> bool, s: seq<Scored<T>>)
    ensures Filter(keep, SortDesc(s)) == SortDesc(Filter(keep, s))
  {
    if |s| > 0 {
      var init := s[..|s| - 1];
      var last := s[|s| - 1];
      assert s == init + [last];
      FilterConcat(keep, init, [last]);
      SortFilterCommute(keep, init);
      FilterInsert(keep, last, SortDesc(init));
      if keep(last) {
        var f := Filter(keep, init) + [last];
        assert f[..|f| - 1] == Filter(keep, init);
      } else {
        assert Filter(keep, s) == Filter(keep, init);
      }
    }
  }

  lemma {:induction false} FilterInsert<T(!new)>(keep: Scored<T> -> bool, x: Scored<T>, s: seq<Scored<T>>)
    requires SortedDesc(s)
    ensures Filter(keep, Insert(x, s)) == if keep(x) then Insert(x, Filter(keep, s)) else Filter(keep, s)
  {
    if |s| == 0 {
    } else if s[0].score < x.score {
      assert Insert(x, s) == [x] + s;
      FilterConcat(keep, [x], s);
      if keep(x) {
        var f := Filter(keep, s);
        if |f| > 0 {
          assert f[0] in s;
          assert f[0].score < x.score;
        }
      }
    } else {
      FilterInsert(keep, x, s[1..]);
      assert Insert(x, s) == [s[0]] + Insert(x, s[1..]);
      FilterConcat(keep, [s[0]], Insert(x, s[1..]));
      FilterConcat(keep, [s[0]], s[1..]);
      assert [s[0]] + s[1..] == s;
    }
  }

  /** In a descending list, the elements scoring above a threshold form a
      prefix. */
  lemma {:induction false} AboveThresholdIsPrefix<T(!new)>(s: seq<Scored<T>>, t: real)
    requires SortedDesc(s)
    ensures Filter((x: Scored<T>) => x.score > t, s) <= s
  {
    if |s| > 0 {
      if s[0].score > t {
        AboveThresholdIsPrefix(s[1..], t);
        assert s == [s[0]] + s[1..];
      } else {
        FilterNone((x: Scored<T>) => x.score > t, s);
      }
    }
  }
}
