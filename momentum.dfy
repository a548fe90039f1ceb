/**
 * The momentum factor (factors.py): each ticker's price return over a
 * trailing window of closes. A ticker without enough data is left out of
 * the result rather than scored zero.
 */
module Momentum {
  import opened Options
  import opened Keyed

  /**
   * What the factor reads from one ticker's frame, `df.get("Close")`: the
   * closes in date order, or None when the frame has no Close column.
   */
  type Closes = Option<seq<real>>

  /**
   * One ticker's momentum. The window counts the latest bar, so the start
   * close is `closes[n - window]` and the end close is `closes[n - 1]`.
   * None when there is no Close column, fewer than `window` closes, or a
   * zero start close.
   */
  function WindowReturn(closes: Closes, window: int): (r: Option<real>)
    requires window >= 1
    ensures r.Some? <==>
      closes.Some? && |closes.value| >= window && closes.value[|closes.value| - window] != 0.0
    ensures r.Some? ==>
      var s := closes.value;
      var start, end := s[|s| - window], s[|s| - 1];
      && end == start * (1.0 + r.value)
      && (window == 1 ==> r.value == 0.0)
      && (start > 0.0 ==> (r.value > 0.0 <==> end > start))
      && (start > 0.0 && end >= 0.0 ==> r.value >= -1.0)
  {
    match closes
    case None => None
    case Some(s) =>
      if |s| < window then None
      else
        var start, end := s[|s| - window], s[|s| - 1];
        if start != 0.0 then
          var m := (end - start) / start;
          assert start * m == end - start;
          assert start > 0.0 ==> (m > 0.0 <==> end > start) by {
            if start > 0.0 && m > 0.0 { assert start * m > 0.0; }
            if start > 0.0 && end > start { assert start * m > 0.0; }
          }
          assert start > 0.0 && end >= 0.0 ==> m >= -1.0;
          Some(m)
        else None
  }

  /** The entry a ticker contributes to the result: none, or its momentum. */
  function Entry(t: (string, Closes), window: int): seq<(string, real)>
    requires window >= 1
  {
    match WindowReturn(t.1, window)
    case Some(m) => [(t.0, m)]
    case None => []
  }

  /** `compute_momentum` as a function: the entries of the tickers in input order. */
  function MomentumScores(data: seq<(string, Closes)>, window: int): (scores: seq<(string, real)>)
    requires window >= 1
    ensures |scores| <= |data|
  {
    if |data| == 0 then [] else Entry(data[0], window) + MomentumScores(data[1..], window)
  }

  lemma {:induction false} MomentumScoresConcat(a: seq<(string, Closes)>, b: seq<(string, Closes)>, window: int)
    requires window >= 1
    ensures MomentumScores(a + b, window) == MomentumScores(a, window) + MomentumScores(b, window)
    decreases |a|
  {
    if |a| > 0 {
      assert (a + b)[1..] == a[1..] + b;
      MomentumScoresConcat(a[1..], b, window);
    } else {
      assert a + b == b;
    }
  }

  /** One more ticker appends its own entry. */
  lemma MomentumStep(data: seq<(string, Closes)>, i: int, window: int)
    requires 0 <= i < |data| && window >= 1
    ensures MomentumScores(data[..i + 1], window) == MomentumScores(data[..i], window) + Entry(data[i], window)
  {
    assert data[..i + 1] == data[..i] + [data[i]];
    MomentumScoresConcat(data[..i], [data[i]], window);
    assert MomentumScores([data[i]], window) == Entry(data[i], window) + MomentumScores([], window);
  }

  /**
   * The loop of `compute_momentum`: for each ticker, skip it when it has no
   * Close column or fewer than `window` closes, otherwise insert its return
   * unless the start close is zero.
   */
  method ComputeMomentum(data: seq<(string, Closes)>, window: int) returns (scores: seq<(string, real)>)
    requires window >= 1
    ensures scores == MomentumScores(data, window)
  {
    scores := [];
    for i := 0 to |data|
      invariant scores == MomentumScores(data[..i], window)
    {
      var ticker, closes := data[i].0, data[i].1;
      MomentumStep(data, i, window);
      if closes.None? || |closes.value| < window {
        continue;
      }
      var start := closes.value[|closes.value| - window];
      var end := closes.value[|closes.value| - 1];
      if start != 0.0 {
        scores := scores + [(ticker, (end - start) / start)];
      }
    }
    assert data[..|data|] == data;
  }

  /**
   * For a dict of frames (distinct tickers), a ticker has a momentum exactly
   * when it has a Close column, at least `window` closes and a non-zero start
   * close, and the value is its own window return.
   */
  lemma {:induction false} MomentumLookup(data: seq<(string, Closes)>, window: int, k: string)
    requires window >= 1 && DistinctKeys(data)
    ensures Get(MomentumScores(data, window), k) ==
      match Get(data, k)
      case None => None
      case Some(closes) => WindowReturn(closes, window)
    decreases |data|
  {
    if |data| > 0 {
      var x, rest := data[0], MomentumScores(data[1..], window);
      DistinctTail(data);
      if x.0 == k {
        match WindowReturn(x.1, window)
        case Some(m) =>
          assert MomentumScores(data, window) == [(k, m)] + rest;
        case None =>
          MomentumKeys(data[1..], window);
          assert MomentumScores(data, window) == rest;
      } else {
        MomentumLookup(data[1..], window, k);
        match WindowReturn(x.1, window)
        case Some(m) =>
          assert MomentumScores(data, window) == [(x.0, m)] + rest;
        case None =>
          assert MomentumScores(data, window) == rest;
      }
    }
  }

  /**
   * The result's tickers are input tickers, in input order, and none occurs
   * twice when the input is a dict.
   */
  lemma {:induction false} MomentumKeys(data: seq<(string, Closes)>, window: int)
    requires window >= 1
    ensures IsSubsequence(Keys(MomentumScores(data, window)), Keys(data))
    ensures forall k :: k in Keys(MomentumScores(data, window)) ==> k in Keys(data)
    ensures DistinctKeys(data) ==> DistinctKeys(MomentumScores(data, window))
    decreases |data|
  {
    if |data| > 0 {
      var rest := MomentumScores(data[1..], window);
      MomentumKeys(data[1..], window);
      assert Keys(data) == [data[0].0] + Keys(data[1..]);
      if DistinctKeys(data) {
        DistinctTail(data);
      }
      match WindowReturn(data[0].1, window)
      case None =>
        assert MomentumScores(data, window) == rest;
        SubsequenceSkip(Keys(rest), Keys(data));
      case Some(m) =>
        assert MomentumScores(data, window) == [(data[0].0, m)] + rest;
        assert Keys([(data[0].0, m)] + rest) == [data[0].0] + Keys(rest);
        if DistinctKeys(data) {
          DistinctCons((data[0].0, m), rest);
        }
    }
  }

  /** A ticker's closes multiplied by `c`. */
  function Scaled(closes: Closes, c: real): Closes
  {
    match closes
    case None => None
    case Some(s) => Some(seq(|s|, j requires 0 <= j < |s| => c * s[j]))
  }

  lemma QuotientScaled(start: real, end: real, c: real)
    requires start != 0.0 && c > 0.0
    ensures (c * end - c * start) / (c * start) == (end - start) / start
  {
    var m := (end - start) / start;
    assert start * m == end - start;
    assert c * end - c * start == c * (end - start);
    assert (c * start) * m == c * (start * m);
  }

  /** Multiplying a ticker's closes by a positive constant leaves its momentum unchanged. */
  lemma WindowReturnScaled(closes: Closes, c: real, window: int)
    requires window >= 1 && c > 0.0
    ensures WindowReturn(Scaled(closes, c), window) == WindowReturn(closes, window)
  {
    if closes.Some? && |closes.value| >= window {
      var s := closes.value;
      var t := Scaled(closes, c).value;
      var start, end := s[|s| - window], s[|s| - 1];
      assert t[|s| - window] == c * start && t[|s| - 1] == c * end;
      if start != 0.0 {
        QuotientScaled(start, end, c);
      }
    }
  }

  /**
   * Scaling one ticker's price history by a positive constant changes
   * nothing in the whole result: not that ticker's momentum, and not any
   * other ticker's.
   */
  lemma {:induction false} MomentumScaleInvariant(data: seq<(string, Closes)>, i: nat, c: real, window: int)
    requires window >= 1 && c > 0.0 && i < |data|
    ensures MomentumScores(data[i := (data[i].0, Scaled(data[i].1, c))], window) == MomentumScores(data, window)
    decreases |data|
  {
    var scaled := data[i := (data[i].0, Scaled(data[i].1, c))];
    if i == 0 {
      WindowReturnScaled(data[0].1, c, window);
      assert scaled[1..] == data[1..];
    } else {
      MomentumScaleInvariant(data[1..], i - 1, c, window);
      assert scaled[1..] == data[1..][i - 1 := (data[i].0, Scaled(data[i].1, c))];
    }
  }

  /**
   * The window counts the latest bar: for [100, 110] a window of 1 compares
   * 110 with itself, and a window of 2 gives the 10% rise.
   */
  lemma WindowCountsLatestBar()
    ensures WindowReturn(Some([100.0, 110.0]), 1) == Some(0.0)
    ensures WindowReturn(Some([100.0, 110.0]), 2) == Some(0.1)
    ensures WindowReturn(Some([50.0, 45.0]), 2) == Some(-0.1)
    ensures WindowReturn(Some([100.0, 110.0]), 3) == None
  {
  }
}
