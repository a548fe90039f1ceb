/**
 * The fundamental normaliser (fundamentals.py): four fixed-threshold
 * scorers (P/E, dividend yield, P/B, ROE) with neutral scores for missing
 * metrics, and a 0.3/0.3/0.2/0.2 composite. Every ticker is scored, and a
 * ticker's scores depend on its own metrics only.
 */
module Fundamentals {
  import opened Options
  import opened Reals
  import opened Keyed

  /** One ticker's metrics as `fetch_fundamentals` reports them; None where absent. */
  datatype Metrics = Metrics(peRatio: Option<real>, dividendYield: Option<real>,
                             priceToBook: Option<real>, roe: Option<real>)

  /** The per-ticker dict of scores: the four keys and `composite_fundamental`. */
  datatype FundamentalScores = FundamentalScores(pe: real, dividend: real, pb: real, roe: real, composite: real)

  function Max(a: real, b: real): real { if a >= b then a else b }

  /**
   * A dividend yield in percent, as `fetch_fundamentals` stores it: a raw
   * value below 1 is read as a fraction and multiplied by 100, any other
   * value is kept; an absent yield stays absent.
   */
  function PercentYield(raw: Option<real>): (r: Option<real>)
    ensures r.None? <==> raw.None?
    ensures raw.Some? && raw.value < 1.0 ==> r.value == 100.0 * raw.value
    ensures raw.Some? && raw.value >= 1.0 ==> r.value == raw.value
  {
    match raw
    case None => None
    case Some(y) => if y < 1.0 then Some(y * 100.0) else Some(y)
  }

  /**
   * The P/E score: neutral 0.5 when absent or below 10; on [10, 25] it falls
   * off linearly with the distance from 17.5, where it is 1; above 25 it is
   * `1 - (pe - 25) / 50`, floored at 0. It is 1 only at a P/E of exactly 17.5.
   */
  function PeScore(pe: Option<real>): (r: real)
    ensures 0.0 <= r <= 1.0
    ensures r == 1.0 <==> pe == Some(17.5)
    ensures pe.None? || pe.value < 10.0 ==> r == 0.5
    ensures pe.Some? && 10.0 <= pe.value <= 25.0 ==> 17.5 * (1.0 - r) == Abs(pe.value - 17.5)
    ensures pe.Some? && 25.0 < pe.value ==> (r == 0.0 <==> pe.value >= 75.0)
    ensures pe.Some? && 25.0 < pe.value < 75.0 ==> 50.0 * (1.0 - r) == pe.value - 25.0
  {
    match pe
    case None => 0.5
    case Some(p) =>
      if 10.0 <= p <= 25.0 then 1.0 - Abs(p - 17.5) / 17.5
      else if p < 10.0 then 0.5
      else Max(0.0, 1.0 - (p - 25.0) / 50.0)
  }

  /** The dividend score: 0.3 when absent; 1 on [2, 6]; `y / 2` below 2; above 6 it decays but never below 0.7. */
  function DividendScore(y: Option<real>): (r: real)
    ensures r <= 1.0
    ensures y.None? ==> r == 0.3
    ensures y.Some? ==> (r == 1.0 <==> 2.0 <= y.value <= 6.0)
    ensures y.Some? && y.value >= 0.0 ==> r >= 0.0
    ensures y.Some? && y.value < 2.0 ==> 2.0 * r == y.value
    ensures y.Some? && y.value > 6.0 ==> 0.7 <= r < 1.0
    ensures y.Some? && 6.0 < y.value <= 9.0 ==> 10.0 * (1.0 - r) == y.value - 6.0
    ensures y.Some? && y.value >= 9.0 ==> r == 0.7
  {
    match y
    case None => 0.3
    case Some(d) =>
      if 2.0 <= d <= 6.0 then 1.0
      else if d < 2.0 then d / 2.0
      else Max(0.7, 1.0 - (d - 6.0) / 10.0)
  }

  /**
   * The P/B score: 0.5 when absent or not positive; 1 below 1; falling
   * linearly to 0 on [1, 3]; above 3 it is `0.5 - (pb - 3) / 10`, floored at 0.
   */
  function PbScore(pb: Option<real>): (r: real)
    ensures 0.0 <= r <= 1.0
    ensures pb.None? || pb.value <= 0.0 ==> r == 0.5
    ensures pb.Some? && pb.value > 0.0 ==> (r == 1.0 <==> pb.value <= 1.0)
    ensures pb.Some? && 1.0 <= pb.value <= 3.0 ==> 2.0 * (1.0 - r) == pb.value - 1.0
    ensures pb.Some? && pb.value > 3.0 ==> r < 0.5 && (r == 0.0 <==> pb.value >= 8.0)
    ensures pb.Some? && 3.0 < pb.value < 8.0 ==> 10.0 * (0.5 - r) == pb.value - 3.0
  {
    match pb
    case Some(b) =>
      if b > 0.0 then
        if b < 1.0 then 1.0
        else if b <= 3.0 then 1.0 - (b - 1.0) / 2.0
        else Max(0.0, 0.5 - (b - 3.0) / 10.0)
      else 0.5
    case None => 0.5
  }

  /** The ROE score: tiers 1.0 / 0.8 / 0.6 / 0.4 / 0.1 at thresholds 20 / 15 / 10 / 0; 0.5 when absent. */
  function RoeScore(roe: Option<real>): (r: real)
    ensures roe.None? ==> r == 0.5
    ensures roe.Some? ==> 0.1 <= r <= 1.0
    ensures roe.Some? ==> (r == 1.0 <==> roe.value >= 20.0)
    ensures roe.Some? ==> (r == 0.1 <==> roe.value < 0.0)
    ensures roe.Some? && 15.0 <= roe.value < 20.0 ==> r == 0.8
    ensures roe.Some? && 10.0 <= roe.value < 15.0 ==> r == 0.6
    ensures roe.Some? && 0.0 <= roe.value < 10.0 ==> r == 0.4
  {
    match roe
    case None => 0.5
    case Some(x) =>
      if x >= 20.0 then 1.0
      else if x >= 15.0 then 0.8
      else if x >= 10.0 then 0.6
      else if x >= 0.0 then 0.4
      else 0.1
  }

  /** `composite_fundamental`, from the four scores. */
  function Composite(pe: real, dividend: real, pb: real, roe: real): (c: real)
    ensures 0.0 <= pe <= 1.0 && 0.0 <= dividend <= 1.0 && 0.0 <= pb <= 1.0 && 0.0 <= roe <= 1.0 ==> 0.0 <= c <= 1.0
    ensures pe == dividend == pb == roe ==> c == pe
  {
    pe * 0.3 + dividend * 0.3 + pb * 0.2 + roe * 0.2
  }

  /**
   * The scores of one ticker. The composite never exceeds 1, and is not
   * negative unless a negative dividend yield is reported.
   */
  function ScoreMetrics(m: Metrics): (s: FundamentalScores)
    ensures s.composite <= 1.0
    ensures (m.dividendYield.None? || m.dividendYield.value >= 0.0) ==> s.composite >= 0.0
    ensures s.pe == PeScore(m.peRatio) && s.dividend == DividendScore(m.dividendYield)
    ensures s.pb == PbScore(m.priceToBook) && s.roe == RoeScore(m.roe)
    ensures s.composite == Composite(s.pe, s.dividend, s.pb, s.roe)
  {
    var pe, dividend := PeScore(m.peRatio), DividendScore(m.dividendYield);
    var pb, roe := PbScore(m.priceToBook), RoeScore(m.roe);
    FundamentalScores(pe, dividend, pb, roe, Composite(pe, dividend, pb, roe))
  }

  /** A ticker with no metric at all gets the neutral scores and a composite of exactly 0.44. */
  lemma AllAbsentScore()
    ensures ScoreMetrics(Metrics(None, None, None, None)) == FundamentalScores(0.5, 0.3, 0.5, 0.5, 0.44)
  {
  }

  /** The P/E score is symmetric about 17.5 inside [10, 25]. */
  lemma PeSymmetric(d: real)
    requires 0.0 <= d <= 7.5
    ensures PeScore(Some(17.5 - d)) == PeScore(Some(17.5 + d))
  {
  }

  /** Above 25 a higher P/E never scores better. */
  lemma PeHighPenalty(a: real, b: real)
    requires 25.0 < a <= b
    ensures PeScore(Some(b)) <= PeScore(Some(a))
  {
  }

  /**
   * The two pieces of the P/E score do not meet at 25: a P/E of 25 scores
   * 4/7, while any P/E just above 25 scores almost 1.
   */
  lemma PeJumpAbove25(p: real)
    requires 25.0 < p <= 26.0
    ensures PeScore(Some(25.0)) == 4.0 / 7.0
    ensures PeScore(Some(p)) >= 0.98 > PeScore(Some(25.0))
  {
  }

  /** Up to 6 a higher yield never scores worse; above 6 a higher yield never scores better. */
  lemma DividendMonotone(a: real, b: real)
    requires a <= b
    ensures b <= 6.0 ==> DividendScore(Some(a)) <= DividendScore(Some(b))
    ensures 6.0 < a ==> DividendScore(Some(b)) <= DividendScore(Some(a))
  {
  }

  /** A positive P/B never scores better when it grows within (0, 3] or within (3, ∞). */
  lemma PbNonIncreasing(a: real, b: real)
    requires 0.0 < a <= b
    requires b <= 3.0 || 3.0 < a
    ensures PbScore(Some(b)) <= PbScore(Some(a))
  {
  }

  /** The P/B score jumps back up just above 3: a P/B of 3 scores 0, one just above scores almost 0.5. */
  lemma PbJumpAbove3(b: real)
    requires 3.0 < b <= 3.1
    ensures PbScore(Some(3.0)) == 0.0
    ensures PbScore(Some(b)) >= 0.49
  {
  }

  /** A higher ROE never scores worse. */
  lemma RoeMonotone(a: real, b: real)
    requires a <= b
    ensures RoeScore(Some(a)) <= RoeScore(Some(b))
  {
  }

  /**
   * A yield reported as a fraction between 2% and 6% is converted to
   * percent and gets the full dividend score.
   */
  lemma FractionalYieldFullScore(f: real)
    requires 0.02 <= f <= 0.06
    ensures DividendScore(PercentYield(Some(f))) == 1.0
  {
  }

  /**
   * The conversion cannot tell a fraction from a small percentage: a yield
   * already in percent below 1 (0.5%) is multiplied into 50%, while 2% is
   * kept. A converted yield of at least 1 is left alone by a second conversion.
   */
  lemma PercentYieldAmbiguous(raw: Option<real>)
    ensures PercentYield(Some(0.5)) == Some(50.0) && PercentYield(Some(2.0)) == Some(2.0)
    ensures PercentYield(raw).Some? && PercentYield(raw).value >= 1.0 ==>
      PercentYield(PercentYield(raw)) == PercentYield(raw)
  {
  }

  /** The values of one metric across the batch that are present, in input order. */
  function Present(vals: seq<Option<real>>): (p: seq<real>)
    ensures forall x :: x in p <==> Some(x) in vals
  {
    if |vals| == 0 then []
    else (if vals[0].Some? then [vals[0].value] else []) + Present(vals[1..])
  }

  function MinOf(s: seq<real>): (m: real)
    requires |s| > 0
    ensures m in s && forall x :: x in s ==> m <= x
  {
    if |s| == 1 then s[0]
    else
      var m := MinOf(s[1..]);
      assert forall x :: x in s ==> x == s[0] || x in s[1..];
      if s[0] <= m then s[0] else m
  }

  function MaxOf(s: seq<real>): (m: real)
    requires |s| > 0
    ensures m in s && forall x :: x in s ==> x <= m
  {
    if |s| == 1 then s[0]
    else
      var m := MaxOf(s[1..]);
      assert forall x :: x in s ==> x == s[0] || x in s[1..];
      if s[0] >= m then s[0] else m
  }

  /**
   * The batch minimum and maximum of one metric, or the given defaults when
   * no ticker reports it. `compute_fundamental_scores` computes these for
   * all four metrics and then never reads them.
   */
  function BatchRange(vals: seq<Option<real>>, lo: real, hi: real): (r: (real, real))
    ensures |Present(vals)| == 0 ==> r == (lo, hi)
    ensures |Present(vals)| > 0 ==>
      && Some(r.0) in vals && Some(r.1) in vals
      && forall x :: Some(x) in vals ==> r.0 <= x <= r.1
  {
    var p := Present(vals);
    if |p| == 0 then (lo, hi) else (MinOf(p), MaxOf(p))
  }

  /** One metric of every ticker, in input order. */
  function Field(d: seq<(string, Metrics)>, f: Metrics -> Option<real>): (vals: seq<Option<real>>)
    ensures |vals| == |d| && forall i :: 0 <= i < |d| ==> vals[i] == f(d[i].1)
  {
    seq(|d|, i requires 0 <= i < |d| => f(d[i].1))
  }

  /**
   * The normalisation ranges of lines 77-85, with their defaults (10, 30),
   * (0, 10), (0, 5) and (-10, 30) when no ticker reports the metric.
   */
  method ComputeBatchRanges(d: seq<(string, Metrics)>) returns (pe: (real, real), dividend: (real, real), pb: (real, real), roe: (real, real))
    ensures pe == BatchRange(Field(d, (m: Metrics) => m.peRatio), 10.0, 30.0)
    ensures dividend == BatchRange(Field(d, (m: Metrics) => m.dividendYield), 0.0, 10.0)
    ensures pb == BatchRange(Field(d, (m: Metrics) => m.priceToBook), 0.0, 5.0)
    ensures roe == BatchRange(Field(d, (m: Metrics) => m.roe), -10.0, 30.0)
  {
    pe := BatchRange(Field(d, (m: Metrics) => m.peRatio), 10.0, 30.0);
    dividend := BatchRange(Field(d, (m: Metrics) => m.dividendYield), 0.0, 10.0);
    pb := BatchRange(Field(d, (m: Metrics) => m.priceToBook), 0.0, 5.0);
    roe := BatchRange(Field(d, (m: Metrics) => m.roe), -10.0, 30.0);
  }

  /** `compute_fundamental_scores` as a function: every ticker with its own scores, in input order. */
  function FundamentalScoresOf(d: seq<(string, Metrics)>): (scores: seq<(string, FundamentalScores)>)
    ensures |scores| == |d|
    ensures forall i :: 0 <= i < |d| ==> scores[i] == (d[i].0, ScoreMetrics(d[i].1))
  {
    if |d| == 0 then [] else [(d[0].0, ScoreMetrics(d[0].1))] + FundamentalScoresOf(d[1..])
  }

  /**
   * The loop of `compute_fundamental_scores`: after computing the (unused)
   * batch ranges, score every ticker from its own metrics and insert it.
   */
  method ComputeFundamentalScores(d: seq<(string, Metrics)>) returns (scores: seq<(string, FundamentalScores)>)
    ensures scores == FundamentalScoresOf(d)
  {
    var peRange, divRange, pbRange, roeRange := ComputeBatchRanges(d);
    scores := ScoreEach(d);
  }

  /** The loop itself: every ticker's entry is appended in input order. */
  method ScoreEach(d: seq<(string, Metrics)>) returns (scores: seq<(string, FundamentalScores)>)
    ensures scores == FundamentalScoresOf(d)
  {
    scores := [];
    for i := 0 to |d|
      invariant |scores| == i
      invariant forall j :: 0 <= j < i ==> scores[j] == (d[j].0, ScoreMetrics(d[j].1))
    {
      var entry := ScoreTickerMetrics(d[i].1);
      scores := scores + [(d[i].0, entry)];
    }
  }

  /** The body of the loop for one ticker: the four sub-scores, then their weighted composite. */
  method ScoreTickerMetrics(metrics: Metrics) returns (entry: FundamentalScores)
    ensures entry == ScoreMetrics(metrics)
  {
    var pe := PeScore(metrics.peRatio);
    var dividend := DividendScore(metrics.dividendYield);
    var pb := PbScore(metrics.priceToBook);
    var roe := RoeScore(metrics.roe);
    entry := FundamentalScores(pe, dividend, pb, roe, Composite(pe, dividend, pb, roe));
  }

  /** The result has exactly the input's tickers, in input order: none is omitted. */
  lemma {:induction false} FundamentalKeys(d: seq<(string, Metrics)>)
    ensures Keys(FundamentalScoresOf(d)) == Keys(d)
  {
    var r := FundamentalScoresOf(d);
    assert forall i :: 0 <= i < |d| ==> Keys(r)[i] == r[i].0 == d[i].0 == Keys(d)[i];
  }

  /** For a dict of metrics, every ticker's entry is the score of its own metrics. */
  lemma {:induction false} FundamentalLookup(d: seq<(string, Metrics)>, k: string)
    ensures Get(FundamentalScoresOf(d), k) ==
      match Get(d, k)
      case None => None
      case Some(m) => Some(ScoreMetrics(m))
    decreases |d|
  {
    if |d| > 0 {
      FundamentalLookup(d[1..], k);
      assert FundamentalScoresOf(d)[1..] == FundamentalScoresOf(d[1..]);
    }
  }

  /**
   * Changing one ticker's metrics changes no other ticker's scores: the
   * batch ranges, the only thing computed across tickers, are never read.
   */
  lemma ScoresAreLocal(d: seq<(string, Metrics)>, j: nat, m: Metrics)
    requires j < |d|
    ensures forall i :: 0 <= i < |d| && i != j ==>
      FundamentalScoresOf(d[j := (d[j].0, m)])[i] == FundamentalScoresOf(d)[i]
  {
  }
}
