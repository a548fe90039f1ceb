/**
 * The ranker (rank.py): the (ticker, score) pairs of a dict sorted by
 * descending score, with ties kept in input order as Python's stable
 * `sorted(..., reverse=True)` keeps them, then cut by the slice `[:top_n]`.
 */
module Ranking {
  import opened Keyed

  type Entry = (string, real)

  ghost predicate SortedDesc(s: seq<Entry>)
  {
    forall i, j :: 0 <= i < j < |s| ==> s[i].1 >= s[j].1
  }

  /** The entries with score exactly `v`, in their order. */
  function WithScore(s: seq<Entry>, v: real): seq<Entry>
  {
    if |s| == 0 then []
    else (if s[0].1 == v then [s[0]] else []) + WithScore(s[1..], v)
  }

  /** Inserts `x` before the first entry whose score does not exceed its own. */
  function Insert(x: Entry, t: seq<Entry>): (r: seq<Entry>)
    ensures |r| == |t| + 1
  {
    if |t| == 0 then [x]
    else if x.1 >= t[0].1 then [x] + t
    else [t[0]] + Insert(x, t[1..])
  }

  /** `sorted(items, key=score, reverse=True)`: insertion of each entry, first entry last. */
  function SortDesc(s: seq<Entry>): (r: seq<Entry>)
    ensures |r| == |s|
  {
    if |s| == 0 then [] else Insert(s[0], SortDesc(s[1..]))
  }

  /** Python's slice `s[:n]`: a negative `n` counts from the end. */
  function PySlice(s: seq<Entry>, n: int): (r: seq<Entry>)
    ensures |r| == if n >= 0 then (if n <= |s| then n else |s|) else (if |s| + n >= 0 then |s| + n else 0)
    ensures r == s[..|r|]
    ensures n >= |s| ==> r == s
  {
    if n >= 0 then (if n <= |s| then s[..n] else s)
    else if |s| + n >= 0 then s[..|s| + n]
    else []
  }

  /** `rank_by_score(scores, top_n)`. */
  function RankByScore(scores: seq<Entry>, topN: int): (r: seq<Entry>)
    ensures |r| == if topN >= 0 then (if topN <= |scores| then topN else |scores|)
      else (if |scores| + topN >= 0 then |scores| + topN else 0)
  {
    PySlice(SortDesc(scores), topN)
  }

  lemma {:induction false} InsertElements(x: Entry, t: seq<Entry>)
    ensures multiset(Insert(x, t)) == multiset{x} + multiset(t)
    ensures forall y :: y in Insert(x, t) <==> y == x || y in t
    decreases |t|
  {
    if |t| > 0 && x.1 < t[0].1 {
      InsertElements(x, t[1..]);
      assert t == [t[0]] + t[1..];
    }
  }

  lemma {:induction false} InsertSorted(x: Entry, t: seq<Entry>)
    requires SortedDesc(t)
    ensures SortedDesc(Insert(x, t))
    decreases |t|
  {
    if |t| > 0 && x.1 < t[0].1 {
      var rest := Insert(x, t[1..]);
      InsertSorted(x, t[1..]);
      InsertElements(x, t[1..]);
      forall j | 0 <= j < |rest| ensures t[0].1 >= rest[j].1 {
        assert rest[j] in rest;
      }
    }
  }

  lemma {:induction false} InsertWithScore(x: Entry, t: seq<Entry>, v: real)
    ensures WithScore(Insert(x, t), v) == (if x.1 == v then [x] else []) + WithScore(t, v)
    decreases |t|
  {
    if |t| > 0 {
      if x.1 >= t[0].1 {
        assert ([x] + t)[1..] == t;
      } else {
        InsertWithScore(x, t[1..], v);
        assert ([t[0]] + Insert(x, t[1..]))[1..] == Insert(x, t[1..]);
      }
    }
  }

  /**
   * The sort orders by descending score, is a permutation of its input,
   * and is stable: the entries of any one score keep their input order.
   */
  lemma {:induction false} SortDescSpec(s: seq<Entry>)
    ensures SortedDesc(SortDesc(s))
    ensures multiset(SortDesc(s)) == multiset(s)
    ensures forall v :: WithScore(SortDesc(s), v) == WithScore(s, v)
    decreases |s|
  {
    if |s| > 0 {
      SortDescSpec(s[1..]);
      InsertSorted(s[0], SortDesc(s[1..]));
      InsertElements(s[0], SortDesc(s[1..]));
      assert s == [s[0]] + s[1..];
      forall v ensures WithScore(SortDesc(s), v) == WithScore(s, v) {
        InsertWithScore(s[0], SortDesc(s[1..]), v);
      }
    }
  }

  /** Scores that are already in descending order are left as they are. */
  lemma {:induction false} SortDescOfSorted(s: seq<Entry>)
    requires SortedDesc(s)
    ensures SortDesc(s) == s
    decreases |s|
  {
    if |s| > 0 {
      assert SortedDesc(s[1..]) by {
        forall i, j | 0 <= i < j < |s[1..]| ensures s[1..][i].1 >= s[1..][j].1 {
          assert s[1..][i] == s[i + 1] && s[1..][j] == s[j + 1];
        }
      }
      SortDescOfSorted(s[1..]);
      if |s| > 1 {
        assert s[0].1 >= s[1..][0].1;
      }
      assert [s[0]] + s[1..] == s;
    }
  }

  lemma PrefixSorted(s: seq<Entry>, n: nat)
    requires SortedDesc(s) && n <= |s|
    ensures SortedDesc(s[..n])
  {
  }

  /**
   * The ranking is in descending order of score, every pair in it is an
   * input pair, and for a dict of scores no ticker appears twice.
   */
  lemma RankSortedEntries(scores: seq<Entry>, topN: int)
    ensures SortedDesc(RankByScore(scores, topN))
    ensures forall x :: x in RankByScore(scores, topN) ==> x in scores
    ensures DistinctKeys(scores) ==> DistinctKeys(RankByScore(scores, topN))
  {
    var sorted := SortDesc(scores);
    var r := RankByScore(scores, topN);
    SortDescSpec(scores);
    PrefixSorted(sorted, |r|);
    forall x | x in r ensures x in scores {
      assert x in multiset(sorted);
    }
    if DistinctKeys(scores) {
      SortedDistinct(scores);
      assert DistinctKeys(r) by {
        forall i, j | 0 <= i < j < |r| ensures r[i].0 != r[j].0 {
          assert r[i] == sorted[i] && r[j] == sorted[j];
        }
      }
    }
  }

  /** Sorting keeps the keys of a dict distinct. */
  lemma {:induction false} SortedDistinct(s: seq<Entry>)
    requires DistinctKeys(s)
    ensures DistinctKeys(SortDesc(s))
    ensures forall k :: k in Keys(SortDesc(s)) <==> k in Keys(s)
    decreases |s|
  {
    if |s| > 0 {
      DistinctTail(s);
      SortedDistinct(s[1..]);
      InsertKeys(s[0], SortDesc(s[1..]));
      assert Keys(s) == [s[0].0] + Keys(s[1..]);
    }
  }

  lemma {:induction false} InsertKeys(x: Entry, t: seq<Entry>)
    ensures forall k :: k in Keys(Insert(x, t)) <==> k == x.0 || k in Keys(t)
    ensures DistinctKeys(t) && x.0 !in Keys(t) ==> DistinctKeys(Insert(x, t))
    decreases |t|
  {
    if |t| > 0 {
      assert Keys(t) == [t[0].0] + Keys(t[1..]);
      if x.1 >= t[0].1 {
        assert Keys([x] + t) == [x.0] + Keys(t);
        if DistinctKeys(t) && x.0 !in Keys(t) {
          DistinctCons(x, t);
        }
      } else {
        var rest := Insert(x, t[1..]);
        InsertKeys(x, t[1..]);
        assert Keys([t[0]] + rest) == [t[0].0] + Keys(rest);
        if DistinctKeys(t) && x.0 !in Keys(t) {
          DistinctTail(t);
          DistinctCons(t[0], rest);
        }
      }
    } else {
      assert Keys([x]) == [x.0];
    }
  }

  /**
   * For a non-negative `top_n` there are `min(top_n, |scores|)` pairs, the
   * best ones: none when `top_n` is 0 or there are no scores, and all of
   * them, sorted, when `top_n` reaches their number.
   */
  lemma RankLength(scores: seq<Entry>, topN: int)
    requires topN >= 0
    ensures |RankByScore(scores, topN)| == if topN <= |scores| then topN else |scores|
    ensures topN == 0 || |scores| == 0 ==> RankByScore(scores, topN) == []
    ensures topN >= |scores| ==>
      RankByScore(scores, topN) == SortDesc(scores) && multiset(RankByScore(scores, topN)) == multiset(scores)
  {
    SortDescSpec(scores);
  }

  /** Equal scores keep their input order in the ranking. */
  lemma RankStable(scores: seq<Entry>, topN: int, v: real)
    requires topN >= |scores|
    ensures WithScore(RankByScore(scores, topN), v) == WithScore(scores, v)
  {
    SortDescSpec(scores);
  }

  lemma PySliceMonotone(s: seq<Entry>, n: int, m: int)
    requires n <= m && (0 <= n || m < 0)
    ensures |PySlice(s, n)| <= |PySlice(s, m)|
  {
    if n >= 0 {
      assert m >= 0;
    } else if m < 0 {
      assert |s| + n <= |s| + m;
    }
  }

  /**
   * The ranking for `n` is a prefix of the ranking for any `m >= n` of the
   * same sign. Across zero it is not: `top_n = -1` keeps all but one pair
   * while `top_n = 0` keeps none.
   */
  lemma RankPrefix(scores: seq<Entry>, n: int, m: int)
    requires n <= m && (0 <= n || m < 0)
    ensures RankByScore(scores, n) <= RankByScore(scores, m)
  {
    var sorted, a, b := SortDesc(scores), RankByScore(scores, n), RankByScore(scores, m);
    PySliceMonotone(sorted, n, m);
    assert a == sorted[..|a|] && b == sorted[..|b|];
    assert a == b[..|a|];
  }

  /** A prefix of a sorted ranking is already sorted, so sorting it again changes nothing. */
  lemma SortedPrefixFixed(scores: seq<Entry>, n: nat)
    requires n <= |scores|
    ensures SortDesc(SortDesc(scores)[..n]) == SortDesc(scores)[..n]
  {
    SortDescSpec(scores);
    PrefixSorted(SortDesc(scores), n);
    SortDescOfSorted(SortDesc(scores)[..n]);
  }

  /** Ranking a ranking again with the same non-negative `top_n` changes nothing. */
  lemma RankIdempotent(scores: seq<Entry>, topN: int)
    requires topN >= 0
    ensures RankByScore(RankByScore(scores, topN), topN) == RankByScore(scores, topN)
  {
    var r := RankByScore(scores, topN);
    SortedPrefixFixed(scores, |r|);
  }

  /** A negative `top_n = -k` drops the k lowest-ranked pairs rather than returning nothing. */
  lemma RankNegative(scores: seq<Entry>, k: nat)
    requires k > 0
    ensures RankByScore(scores, -(k as int)) == SortDesc(scores)[..if k <= |scores| then |scores| - k else 0]
  {
  }

  lemma PySliceTwice(s: seq<Entry>, k: nat)
    requires k > 0
    ensures PySlice(PySlice(s, -(k as int)), -(k as int)) == s[..if 2 * k <= |s| then |s| - 2 * k else 0]
  {
  }

  /** Ranking twice with `top_n = -k` drops 2k pairs: the ranking is not idempotent for a negative `top_n`. */
  lemma RankNegativeTwice(scores: seq<Entry>, k: nat)
    requires k > 0
    ensures RankByScore(RankByScore(scores, -(k as int)), -(k as int)) ==
      SortDesc(scores)[..if 2 * k <= |scores| then |scores| - 2 * k else 0]
  {
    var r := RankByScore(scores, -(k as int));
    SortedPrefixFixed(scores, |r|);
    PySliceTwice(SortDesc(scores), k);
  }

  /** Three tickers: ties keep input order; top 10 gives all three, top 0 none, top -1 the best two. */
  lemma RankExamples()
    ensures RankByScore([("A", 1.0), ("B", 2.0), ("C", 1.0)], 10) == [("B", 2.0), ("A", 1.0), ("C", 1.0)]
    ensures RankByScore([("A", 1.0), ("B", 2.0), ("C", 1.0)], 0) == []
    ensures RankByScore([("A", 1.0), ("B", 2.0), ("C", 1.0)], -1) == [("B", 2.0), ("A", 1.0)]
  {
    var s: seq<Entry> := [("A", 1.0), ("B", 2.0), ("C", 1.0)];
    assert s[1..] == [("B", 2.0), ("C", 1.0)] && s[1..][1..] == [("C", 1.0)];
    assert SortDesc(s[1..][1..]) == [("C", 1.0)];
    assert SortDesc(s[1..]) == [("B", 2.0), ("C", 1.0)];
    assert SortDesc(s) == [("B", 2.0), ("A", 1.0), ("C", 1.0)];
  }
}
