/**
 * Ordered keyed sequences. A Python dict iterates in insertion order and a
 * pandas frame keeps its columns in order, so both are modelled as a
 * sequence of (key, value) pairs: a dict of scores keyed by ticker, or a
 * frame's columns keyed by label.
 */
module Keyed {
  import opened Options

  function Keys<T>(d: seq<(string, T)>): (ks: seq<string>)
    ensures |ks| == |d|
    ensures forall i :: 0 <= i < |d| ==> ks[i] == d[i].0
  {
    if |d| == 0 then [] else [d[0].0] + Keys(d[1..])
  }

  /** No key occurs twice: every Python dict, and a frame without duplicated labels. */
  ghost predicate DistinctKeys<T>(d: seq<(string, T)>)
  {
    forall i, j :: 0 <= i < j < |d| ==> d[i].0 != d[j].0
  }

  /** `a` can be obtained from `b` by deleting elements. */
  ghost predicate IsSubsequence(a: seq<string>, b: seq<string>)
    decreases |b|
  {
    if |a| == 0 then true
    else if |b| == 0 then false
    else (a[0] == b[0] && IsSubsequence(a[1..], b[1..])) || IsSubsequence(a, b[1..])
  }

  lemma SubsequenceSkip(a: seq<string>, b: seq<string>)
    requires |b| > 0 && IsSubsequence(a, b[1..])
    ensures IsSubsequence(a, b)
  {
  }

  /**
   * `d.get(k)` on a dict; on a frame, the first column labelled `k`.
   * None exactly when the key is absent.
   */
  function Get<T>(d: seq<(string, T)>, k: string): (r: Option<T>)
    ensures r.None? <==> k !in Keys(d)
    ensures r.Some? ==> (k, r.value) in d
  {
    if |d| == 0 then None
    else if d[0].0 == k then Some(d[0].1)
    else Get(d[1..], k)
  }

  lemma {:induction false} GetAt<T>(d: seq<(string, T)>, i: nat)
    requires DistinctKeys(d) && i < |d|
    ensures Get(d, d[i].0) == Some(d[i].1)
  {
    if i > 0 {
      assert d[0].0 != d[i].0;
      GetAt(d[1..], i - 1);
    }
  }

  /** In a concatenation a key names its first column in the left part, if it has one there. */
  lemma {:induction false} GetConcat<T>(a: seq<(string, T)>, b: seq<(string, T)>, k: string)
    ensures Get(a + b, k) == if k in Keys(a) then Get(a, k) else Get(b, k)
    decreases |a|
  {
    if |a| > 0 {
      assert (a + b)[1..] == a[1..] + b;
      assert Keys(a) == [a[0].0] + Keys(a[1..]);
      GetConcat(a[1..], b, k);
    } else {
      assert a + b == b;
    }
  }

  lemma DistinctCons<T>(x: (string, T), d: seq<(string, T)>)
    requires DistinctKeys(d) && x.0 !in Keys(d)
    ensures DistinctKeys([x] + d)
  {
    forall i, j | 0 <= i < j < |[x] + d|
      ensures ([x] + d)[i].0 != ([x] + d)[j].0
    {
      if i == 0 {
        assert ([x] + d)[j].0 == Keys(d)[j - 1];
      }
    }
  }

  /**
   * Assigning a column, `df[k] = v`: an existing column labelled `k` is
   * overwritten in place, otherwise the column is appended at the end.
   */
  function Set<T>(d: seq<(string, T)>, k: string, v: T): (r: seq<(string, T)>)
    ensures Get(r, k) == Some(v)
    ensures |r| == if k in Keys(d) then |d| else |d| + 1
  {
    if |d| == 0 then [(k, v)]
    else if d[0].0 == k then [(k, v)] + d[1..]
    else [d[0]] + Set(d[1..], k, v)
  }

  lemma DistinctTail<T>(d: seq<(string, T)>)
    requires |d| > 0 && DistinctKeys(d)
    ensures DistinctKeys(d[1..]) && d[0].0 !in Keys(d[1..])
  {
    forall i, j | 0 <= i < j < |d[1..]| ensures d[1..][i].0 != d[1..][j].0 {
      assert d[1..][i] == d[i + 1] && d[1..][j] == d[j + 1];
    }
    forall i | 0 <= i < |d[1..]| ensures Keys(d[1..])[i] != d[0].0 {
      assert d[1..][i] == d[i + 1];
    }
  }

  /** After `df[k] = v` the label `k` names `v` and every other label still names what it named. */
  lemma {:induction false} SetGet<T>(d: seq<(string, T)>, k: string, v: T, k': string)
    ensures Get(Set(d, k, v), k) == Some(v)
    ensures k' != k ==> Get(Set(d, k, v), k') == Get(d, k')
    decreases |d|
  {
    if |d| > 0 && d[0].0 != k {
      SetGet(d[1..], k, v, k');
    }
  }

  /** `df[k] = v` gains no label but `k`, grows the frame only when `k` was new, and keeps labels distinct. */
  lemma {:induction false} SetKeys<T>(d: seq<(string, T)>, k: string, v: T)
    ensures forall k' :: k' in Keys(Set(d, k, v)) <==> k' in Keys(d) || k' == k
    ensures |Set(d, k, v)| == if k in Keys(d) then |d| else |d| + 1
    ensures DistinctKeys(d) ==> DistinctKeys(Set(d, k, v))
    decreases |d|
  {
    if |d| > 0 {
      var r := Set(d, k, v);
      assert Keys(d) == [d[0].0] + Keys(d[1..]);
      if d[0].0 == k {
        assert Keys(r) == [k] + Keys(d[1..]);
        if DistinctKeys(d) {
          DistinctTail(d);
          DistinctCons((k, v), d[1..]);
        }
      } else {
        var rest := Set(d[1..], k, v);
        SetKeys(d[1..], k, v);
        assert Keys(r) == [d[0].0] + Keys(rest);
        if DistinctKeys(d) {
          DistinctTail(d);
          DistinctCons(d[0], rest);
        }
      }
    }
  }

  /** The labels after dropping every column whose label occurred earlier or is in `seen`. */
  function KeepFirstUnseen<T>(d: seq<(string, T)>, seen: set<string>): seq<(string, T)>
  {
    if |d| == 0 then []
    else if d[0].0 in seen then KeepFirstUnseen(d[1..], seen)
    else [d[0]] + KeepFirstUnseen(d[1..], seen + {d[0].0})
  }

  /**
   * `df.loc[:, ~df.columns.duplicated(keep='first')]`: every label keeps only
   * its first column.
   */
  function KeepFirst<T>(d: seq<(string, T)>): (r: seq<(string, T)>)
    ensures DistinctKeys(r)
    ensures forall k :: k in Keys(r) <==> k in Keys(d)
  {
    KeepFirstUnseenSpec(d, {});
    KeepFirstUnseen(d, {})
  }

  lemma {:induction false} KeepFirstUnseenSpec<T>(d: seq<(string, T)>, seen: set<string>)
    ensures var r := KeepFirstUnseen(d, seen);
      && DistinctKeys(r)
      && (forall k :: k in Keys(r) <==> k in Keys(d) && k !in seen)
      && (forall k :: k !in seen ==> Get(r, k) == Get(d, k))
      && IsSubsequence(Keys(r), Keys(d))
    decreases |d|
  {
    if |d| > 0 {
      var x := d[0];
      assert Keys(d)[1..] == Keys(d[1..]);
      if x.0 in seen {
        KeepFirstUnseenSpec(d[1..], seen);
      } else {
        var rest := KeepFirstUnseen(d[1..], seen + {x.0});
        KeepFirstUnseenSpec(d[1..], seen + {x.0});
        DistinctCons(x, rest);
        assert Keys([x] + rest)[1..] == Keys(rest);
      }
    }
  }

  /**
   * Keep-first de-duplication leaves no label twice, keeps every label, and
   * the column a label then names is its first column in the input, in the
   * input's order.
   */
  lemma KeepFirstSpec<T>(d: seq<(string, T)>)
    ensures DistinctKeys(KeepFirst(d))
    ensures forall k :: k in Keys(KeepFirst(d)) <==> k in Keys(d)
    ensures forall k :: Get(KeepFirst(d), k) == Get(d, k)
    ensures IsSubsequence(Keys(KeepFirst(d)), Keys(d))
  {
    KeepFirstUnseenSpec(d, {});
  }

  lemma {:induction false} KeepFirstUnseenNoop<T>(d: seq<(string, T)>, seen: set<string>)
    requires DistinctKeys(d)
    requires forall i :: 0 <= i < |d| ==> d[i].0 !in seen
    ensures KeepFirstUnseen(d, seen) == d
    decreases |d|
  {
    if |d| > 0 {
      KeepFirstUnseenNoop(d[1..], seen + {d[0].0});
    }
  }

  /** De-duplicating a frame whose labels are already distinct changes nothing; in particular it is idempotent. */
  lemma KeepFirstIdempotent<T>(d: seq<(string, T)>)
    ensures DistinctKeys(d) ==> KeepFirst(d) == d
    ensures KeepFirst(KeepFirst(d)) == KeepFirst(d)
  {
    KeepFirstSpec(d);
    if DistinctKeys(d) {
      KeepFirstUnseenNoop(d, {});
    }
    KeepFirstUnseenNoop(KeepFirst(d), {});
  }

  /**
   * What a loop over a dict's items builds when each item contributes
   * zero or more entries: the contributions `f(item)` in input order.
   */
  function Collect<A, B>(f: A -> seq<B>, s: seq<A>): seq<B>
  {
    if |s| == 0 then [] else f(s[0]) + Collect(f, s[1..])
  }

  lemma {:induction false} CollectConcat<A, B>(f: A -> seq<B>, a: seq<A>, b: seq<A>)
    ensures Collect(f, a + b) == Collect(f, a) + Collect(f, b)
    decreases |a|
  {
    if |a| > 0 {
      assert (a + b)[1..] == a[1..] + b;
      CollectConcat(f, a[1..], b);
    } else {
      assert a + b == b;
    }
  }

  /** When every item contributes at most one entry, the result is no longer than the input. */
  lemma {:induction false} CollectShort<A, B>(f: A -> seq<B>, s: seq<A>)
    requires forall i :: 0 <= i < |s| ==> |f(s[i])| <= 1
    ensures |Collect(f, s)| <= |s|
    decreases |s|
  {
    if |s| > 0 {
      CollectShort(f, s[1..]);
    }
  }

  /** One more pass of the loop appends the next item's contribution. */
  lemma CollectSnoc<A, B>(f: A -> seq<B>, s: seq<A>, i: nat)
    requires i < |s|
    ensures Collect(f, s[..i + 1]) == Collect(f, s[..i]) + f(s[i])
  {
    assert s[..i + 1] == s[..i] + [s[i]];
    CollectConcat(f, s[..i], [s[i]]);
    assert Collect(f, [s[i]]) == f(s[i]) + Collect(f, []);
  }
}
