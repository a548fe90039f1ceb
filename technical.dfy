/**
 * Technical signal scoring (technical.py). The indicator series themselves
 * (SMA, EMA, RSI, MACD) come from the external `ta` library; the model takes
 * the value each one has in a ticker's latest row as input, with None where
 * the library produced NaN. What is modelled is the column handling of
 * `add_technical_indicators` and the signal rules and weighted composite of
 * `compute_technical_scores`.
 */
module Technical {
  import opened Options
  import opened Reals
  import opened Keyed

  /** The latest value of each indicator column the library adds; None where it is NaN. */
  datatype Indicators = Indicators(
    sma20: Option<real>, sma50: Option<real>, sma200: Option<real>,
    ema12: Option<real>, ema26: Option<real>,
    rsi: Option<real>,
    macd: Option<real>, macdSignal: Option<real>, macdDiff: Option<real>)

  /**
   * One ticker's price frame: how many rows it has, and its columns in order,
   * each with the value it holds in the latest row.
   */
  datatype PriceFrame = PriceFrame(rows: nat, latest: seq<(string, real)>)

  /** What `compute_technical_scores` receives for one ticker. */
  datatype TickerData = TickerData(frame: PriceFrame, indicators: Indicators)

  /** The latest row once indicators are added: each column's value, None for NaN. */
  type Row = seq<(string, Option<real>)>

  /**
   * The per-ticker dict of technical.py: a signal key is present only when
   * its guard held; `composite_technical` is always present.
   */
  datatype TechnicalScores = TechnicalScores(
    sma20Signal: Option<real>, sma50Signal: Option<real>, emaSignal: Option<real>,
    rsiSignal: Option<real>, macdSignal: Option<real>, composite: real)

  const RequiredColumns: seq<string> := ["Open", "High", "Low", "Close", "Volume"]

  /** The required columns missing from `names`, in the order they are required. */
  function MissingFrom(required: seq<string>, names: seq<string>): (m: seq<string>)
    ensures forall c :: c in m <==> c in required && c !in names
  {
    if |required| == 0 then []
    else (if required[0] in names then [] else [required[0]]) + MissingFrom(required[1..], names)
  }

  function MissingColumns(names: seq<string>): seq<string>
  {
    MissingFrom(RequiredColumns, names)
  }

  /** The indicator columns in the order `add_technical_indicators` assigns them. */
  function IndicatorColumns(ind: Indicators): Row
  {
    [("SMA_20", ind.sma20), ("SMA_50", ind.sma50), ("SMA_200", ind.sma200),
     ("EMA_12", ind.ema12), ("EMA_26", ind.ema26),
     ("RSI", ind.rsi),
     ("MACD", ind.macd), ("MACD_signal", ind.macdSignal), ("MACD_diff", ind.macdDiff)]
  }

  /** Raw price cells are never NaN in this model. */
  function Lift(d: seq<(string, real)>): (r: Row)
    ensures Keys(r) == Keys(d)
    ensures forall k :: Get(r, k) == match Get(d, k) case None => None case Some(v) => Some(Some(v))
  {
    if |d| == 0 then [] else [(d[0].0, Some(d[0].1))] + Lift(d[1..])
  }

  /** Assigning columns one after another, as `df[name] = series` line by line. */
  function SetAll(d: Row, cols: Row): Row
    decreases |cols|
  {
    if |cols| == 0 then d else SetAll(Set(d, cols[0].0, cols[0].1), cols[1..])
  }

  lemma {:induction false} SetAllSpec(d: Row, cols: Row, k: string)
    requires DistinctKeys(cols)
    ensures Get(SetAll(d, cols), k) == if k in Keys(cols) then Get(cols, k) else Get(d, k)
    ensures k in Keys(SetAll(d, cols)) <==> k in Keys(d) || k in Keys(cols)
    ensures DistinctKeys(d) ==> DistinctKeys(SetAll(d, cols))
    decreases |cols|
  {
    if |cols| > 0 {
      var d' := Set(d, cols[0].0, cols[0].1);
      SetGet(d, cols[0].0, cols[0].1, k);
      SetKeys(d, cols[0].0, cols[0].1);
      DistinctTail(cols);
      SetAllSpec(d', cols[1..], k);
      assert Keys(cols) == [cols[0].0] + Keys(cols[1..]);
    }
  }

  /**
   * `add_technical_indicators` on the latest row: keep the first of any
   * duplicated columns, return early when a required column is missing, and
   * otherwise assign the nine indicator columns.
   */
  function WithIndicators(latest: seq<(string, real)>, ind: Indicators): (r: Row)
    ensures !HasRequired(latest) ==> Keys(r) == Keys(KeepFirst(latest))
  {
    var d := Lift(KeepFirst(latest));
    if |MissingColumns(Keys(d))| > 0 then d
    else SetAll(d, IndicatorColumns(ind))
  }

  lemma IndicatorColumnsDistinct(ind: Indicators)
    ensures DistinctKeys(IndicatorColumns(ind))
    ensures Keys(IndicatorColumns(ind)) ==
      ["SMA_20", "SMA_50", "SMA_200", "EMA_12", "EMA_26", "RSI", "MACD", "MACD_signal", "MACD_diff"]
  {
  }

  /** The frame has all of Open, High, Low, Close and Volume once duplicates are dropped. */
  predicate HasRequired(latest: seq<(string, real)>)
  {
    |MissingColumns(Keys(KeepFirst(latest)))| == 0
  }

  /**
   * After `add_technical_indicators` no label occurs twice, and every label
   * names the first column it named in the input unless it is an indicator
   * column; the indicator columns are set only when no required column is
   * missing, and then hold the library's values.
   */
  lemma WithIndicatorsSpec(latest: seq<(string, real)>, ind: Indicators, k: string)
    ensures DistinctKeys(WithIndicators(latest, ind))
    ensures k in Keys(WithIndicators(latest, ind)) <==>
      k in Keys(latest) || (HasRequired(latest) && k in Keys(IndicatorColumns(ind)))
    ensures Get(WithIndicators(latest, ind), k) ==
      if HasRequired(latest) && k in Keys(IndicatorColumns(ind)) then Some(Get(IndicatorColumns(ind), k).value)
      else match Get(latest, k) case None => None case Some(v) => Some(Some(v))
  {
    var kept := KeepFirst(latest);
    var d := Lift(kept);
    KeepFirstSpec(latest);
    assert Keys(d) == Keys(kept);
    assert DistinctKeys(d) by {
      forall i, j | 0 <= i < j < |d| ensures d[i].0 != d[j].0 {
        assert d[i].0 == Keys(kept)[i] && d[j].0 == Keys(kept)[j];
      }
    }
    if HasRequired(latest) {
      IndicatorColumnsDistinct(ind);
      SetAllSpec(d, IndicatorColumns(ind), k);
    }
  }

  /** The Close value the scorer reads is the first Close column of the input frame. */
  lemma WithIndicatorsClose(latest: seq<(string, real)>, ind: Indicators)
    ensures Get(WithIndicators(latest, ind), "Close") ==
      match Get(latest, "Close") case None => None case Some(v) => Some(Some(v))
  {
    CloseNotIndicator(ind);
    WithIndicatorsSpec(latest, ind, "Close");
  }

  lemma CloseNotIndicator(ind: Indicators)
    ensures "Close" !in Keys(IndicatorColumns(ind))
  {
    IndicatorColumnsDistinct(ind);
  }

  /**
   * How far a price sits above an average, relative to the average: the
   * SMA signals compare the close with SMA20 and SMA50, the EMA signal
   * compares EMA12 with EMA26. Zero when the average is not positive.
   */
  function RelativeGap(price: real, avg: real): (r: real)
    ensures avg > 0.0 ==> price == avg * (1.0 + r)
    ensures avg > 0.0 ==> (r > 0.0 <==> price > avg) && (r < 0.0 <==> price < avg)
    ensures avg <= 0.0 ==> r == 0.0
  {
    if avg > 0.0 then
      var r := (price - avg) / avg;
      assert avg * r == price - avg;
      assert r > 0.0 <==> price > avg by {
        if r > 0.0 { assert avg * r > 0.0; }
        if price > avg { assert avg * r > 0.0; }
      }
      assert r < 0.0 <==> price < avg by {
        if r < 0.0 { assert avg * r < 0.0; }
        if price < avg { assert avg * r < 0.0; }
      }
      r
    else 0.0
  }

  /**
   * The RSI rule: inside [30, 70] the distance from 50 scaled to [-0.4, 0.4];
   * below 30 (oversold) +0.5; above 70 (overbought) -0.3.
   */
  function RsiSignal(rsi: real): (r: real)
    ensures -0.4 <= r <= 0.5
    ensures 30.0 <= rsi <= 70.0 ==> 50.0 * r == rsi - 50.0
    ensures rsi < 30.0 ==> r == 0.5
    ensures rsi > 70.0 ==> r == -0.3
  {
    if 30.0 <= rsi <= 70.0 then (rsi - 50.0) / 50.0
    else if rsi < 30.0 then 0.5
    else -0.3
  }

  /** Both ends of the neutral band are inclusive. */
  lemma RsiBoundaries()
    ensures RsiSignal(30.0) == -0.4 && RsiSignal(29.999) == 0.5
    ensures RsiSignal(70.0) == 0.4 && RsiSignal(70.001) == -0.3
  {
  }

  /**
   * The MACD line's distance from its signal line, relative to the signal
   * line's size; zero when the signal line is zero.
   */
  function MacdGap(macd: real, signal: real): (r: real)
    ensures signal == 0.0 ==> r == 0.0
    ensures signal != 0.0 ==> (r > 0.0 <==> macd > signal) && (r < 0.0 <==> macd < signal)
    ensures signal != 0.0 ==> macd - signal == Abs(signal) * r
  {
    if signal != 0.0 then
      var r := (macd - signal) / Abs(signal);
      assert Abs(signal) * r == macd - signal;
      assert r > 0.0 <==> macd > signal by {
        if r > 0.0 { assert Abs(signal) * r > 0.0; }
        if macd > signal { assert Abs(signal) * r > 0.0; }
      }
      assert r < 0.0 <==> macd < signal by {
        if r < 0.0 { assert Abs(signal) * r < 0.0; }
        if macd < signal { assert Abs(signal) * r < 0.0; }
      }
      r
    else 0.0
  }

  /** A present column's value with NaN read as 0 (`float(x) if pd.notna(x) else 0`). */
  function NanAsZero(row: Row, name: string): real
  {
    var cell: Option<Option<real>> := Get(row, name);
    match cell
    case Some(Some(v)) => v
    case _ => 0.0
  }

  /** A moving-average signal: only when the column exists and is not NaN. */
  function SmaSignal(row: Row, name: string, close: real): (r: Option<real>)
    ensures r.Some? <==> Get(row, name).Some? && Get(row, name).value.Some?
    ensures r.Some? ==> var avg := Get(row, name).value.value;
      && (avg > 0.0 ==> (r.value > 0.0 <==> close > avg) && (r.value < 0.0 <==> close < avg))
      && (avg <= 0.0 ==> r.value == 0.0)
  {
    var cell: Option<Option<real>> := Get(row, name);
    match cell
    case Some(Some(avg)) => Some(RelativeGap(close, avg))
    case _ => None
  }

  /** The EMA crossover signal: whenever both EMA columns exist, NaN read as 0. */
  function EmaSignal(row: Row): (r: Option<real>)
    ensures r.Some? <==> "EMA_12" in Keys(row) && "EMA_26" in Keys(row)
    ensures r.Some? && NanAsZero(row, "EMA_26") > 0.0 ==>
      NanAsZero(row, "EMA_12") == NanAsZero(row, "EMA_26") * (1.0 + r.value)
    ensures r.Some? && NanAsZero(row, "EMA_26") <= 0.0 ==> r.value == 0.0
  {
    if "EMA_12" in Keys(row) && "EMA_26" in Keys(row) then
      Some(RelativeGap(NanAsZero(row, "EMA_12"), NanAsZero(row, "EMA_26")))
    else None
  }

  function RsiOf(row: Row): (r: Option<real>)
    ensures r.Some? <==> Get(row, "RSI").Some? && Get(row, "RSI").value.Some?
    ensures r.Some? ==> -0.4 <= r.value <= 0.5
  {
    var cell: Option<Option<real>> := Get(row, "RSI");
    match cell
    case Some(Some(rsi)) => Some(RsiSignal(rsi))
    case _ => None
  }

  /** The MACD signal: whenever both MACD columns exist, NaN read as 0. */
  function MacdOf(row: Row): (r: Option<real>)
    ensures r.Some? <==> "MACD" in Keys(row) && "MACD_signal" in Keys(row)
    ensures r.Some? && NanAsZero(row, "MACD_signal") == 0.0 ==> r.value == 0.0
    ensures r.Some? && NanAsZero(row, "MACD_signal") != 0.0 ==>
      (r.value > 0.0 <==> NanAsZero(row, "MACD") > NanAsZero(row, "MACD_signal"))
  {
    if "MACD" in Keys(row) && "MACD_signal" in Keys(row) then
      Some(MacdGap(NanAsZero(row, "MACD"), NanAsZero(row, "MACD_signal")))
    else None
  }

  /** The weighted composite, with a missing signal read as 0. */
  function Composite(sma20: Option<real>, sma50: Option<real>, ema: Option<real>,
                     rsi: Option<real>, macd: Option<real>): (c: real)
    ensures sma20.None? && sma50.None? && ema.None? && rsi.None? && macd.None? ==> c == 0.0
    ensures sma20.Some? && sma20 == sma50 == ema == rsi == macd ==> c == sma20.value
  {
    0.2 * sma20.GetOr(0.0) + 0.2 * sma50.GetOr(0.0) + 0.25 * ema.GetOr(0.0)
      + 0.2 * rsi.GetOr(0.0) + 0.15 * macd.GetOr(0.0)
  }

  /** The signals and composite read from the latest row, given its close. */
  function LatestScores(row: Row, close: real): (s: TechnicalScores)
    ensures s.emaSignal.Some? <==> "EMA_12" in Keys(row) && "EMA_26" in Keys(row)
    ensures s.macdSignal.Some? <==> "MACD" in Keys(row) && "MACD_signal" in Keys(row)
    ensures s.rsiSignal.Some? ==> -0.4 <= s.rsiSignal.value <= 0.5
    ensures s.composite == Composite(s.sma20Signal, s.sma50Signal, s.emaSignal, s.rsiSignal, s.macdSignal)
  {
    var sma20, sma50 := SmaSignal(row, "SMA_20", close), SmaSignal(row, "SMA_50", close);
    var ema, rsi, macd := EmaSignal(row), RsiOf(row), MacdOf(row);
    TechnicalScores(sma20, sma50, ema, rsi, macd, Composite(sma20, sma50, ema, rsi, macd))
  }

  /**
   * The scores of a latest row: none when the frame is empty (no row or no
   * column) or has no Close column. A NaN Close cell would also give none,
   * but that branch cannot be reached from `ScoreTicker`: `Lift` never
   * yields a NaN cell, since raw price cells are never NaN in this model.
   */
  function ScoreRow(rows: nat, row: Row): (r: Option<TechnicalScores>)
    ensures r.Some? <==> rows > 0 && |row| > 0 && Get(row, "Close").Some? && Get(row, "Close").value.Some?
  {
    var cell: Option<Option<real>> := Get(row, "Close");
    if rows == 0 || |row| == 0 then None
    else
      match cell
      case Some(Some(close)) => Some(LatestScores(row, close))
      case _ => None
  }

  /**
   * One ticker: add indicators, skip it when the frame is empty or has no
   * Close column, otherwise score the latest row. A ticker is scored exactly
   * when its frame has a row and a Close column.
   */
  function ScoreTicker(t: TickerData): (r: Option<TechnicalScores>)
    ensures r.Some? <==> t.frame.rows > 0 && "Close" in Keys(t.frame.latest)
  {
    WithIndicatorsClose(t.frame.latest, t.indicators);
    ScoreRow(t.frame.rows, WithIndicators(t.frame.latest, t.indicators))
  }

  /** The entry a ticker contributes to the result: none, or its scores. */
  function Entry(t: (string, TickerData)): seq<(string, TechnicalScores)>
  {
    match ScoreTicker(t.1)
    case Some(s) => [(t.0, s)]
    case None => []
  }

  /** `compute_technical_scores` as a function: the entries of the tickers in input order. */
  function TechnicalScoresOf(data: seq<(string, TickerData)>): (scores: seq<(string, TechnicalScores)>)
    ensures |scores| <= |data|
  {
    assert forall i :: 0 <= i < |data| ==> |Entry(data[i])| <= 1;
    CollectShort(Entry, data);
    Collect(Entry, data)
  }

  /**
   * The body of the try block of `compute_technical_scores` for one ticker:
   * fill the signal keys whose guards hold, one by one, then the composite.
   */
  method ScoreLatestRow(row: Row, close: real) returns (s: TechnicalScores)
    ensures s == LatestScores(row, close)
  {
    var sma20, sma50: Option<real> := None, None;
    var cell: Option<Option<real>> := Get(row, "SMA_20");
    if cell.Some? && cell.value.Some? {
      sma20 := Some(RelativeGap(close, cell.value.value));
    }
    assert sma20 == SmaSignal(row, "SMA_20", close);
    cell := Get(row, "SMA_50");
    if cell.Some? && cell.value.Some? {
      sma50 := Some(RelativeGap(close, cell.value.value));
    }
    assert sma50 == SmaSignal(row, "SMA_50", close);
    var ema: Option<real> := None;
    if "EMA_12" in Keys(row) && "EMA_26" in Keys(row) {
      ema := Some(RelativeGap(NanAsZero(row, "EMA_12"), NanAsZero(row, "EMA_26")));
    }
    assert ema == EmaSignal(row);
    var rsi: Option<real> := None;
    cell := Get(row, "RSI");
    if cell.Some? && cell.value.Some? {
      rsi := Some(RsiSignal(cell.value.value));
    }
    assert rsi == RsiOf(row);
    var macd: Option<real> := None;
    if "MACD" in Keys(row) && "MACD_signal" in Keys(row) {
      macd := Some(MacdGap(NanAsZero(row, "MACD"), NanAsZero(row, "MACD_signal")));
    }
    assert macd == MacdOf(row);
    s := TechnicalScores(sma20, sma50, ema, rsi, macd, Composite(sma20, sma50, ema, rsi, macd));
  }

  lemma EntryOf(t: (string, TickerData), r: Option<TechnicalScores>)
    requires r == ScoreTicker(t.1)
    ensures Entry(t) == if r.Some? then [(t.0, r.value)] else []
  {
  }

  /**
   * One pass of the loop of `compute_technical_scores`: add indicators,
   * skip (None) an empty frame or one without Close, else score the latest row.
   */
  method ScoreFrame(t: TickerData) returns (r: Option<TechnicalScores>)
    ensures r == ScoreTicker(t)
  {
    var row := WithIndicators(t.frame.latest, t.indicators);
    assert ScoreTicker(t) == ScoreRow(t.frame.rows, row);
    if t.frame.rows == 0 || |row| == 0 || "Close" !in Keys(row) {
      return None;
    }
    WithIndicatorsClose(t.frame.latest, t.indicators);
    var close := Get(row, "Close").value.value;
    var s := ScoreLatestRow(row, close);
    r := Some(s);
  }

  /**
   * The loop of `compute_technical_scores`: every ticker that is not
   * skipped gets its dict of scores, in input order.
   */
  method ComputeTechnicalScores(data: seq<(string, TickerData)>) returns (scores: seq<(string, TechnicalScores)>)
    ensures scores == TechnicalScoresOf(data)
  {
    scores := [];
    for i := 0 to |data|
      invariant scores == TechnicalScoresOf(data[..i])
    {
      var r := ScoreFrame(data[i].1);
      CollectSnoc(Entry, data, i);
      EntryOf(data[i], r);
      if r.Some? {
        scores := scores + [(data[i].0, r.value)];
      }
    }
    assert data[..|data|] == data;
  }

  /**
   * For a dict of frames, a ticker is in the result exactly when its frame
   * has a row and a Close column, and then its entry is its own scores.
   */
  lemma {:induction false} TechnicalLookup(data: seq<(string, TickerData)>, k: string)
    requires DistinctKeys(data)
    ensures Get(TechnicalScoresOf(data), k) ==
      match Get(data, k)
      case None => None
      case Some(t) => ScoreTicker(t)
    decreases |data|
  {
    if |data| > 0 {
      var x, rest := data[0], TechnicalScoresOf(data[1..]);
      DistinctTail(data);
      if x.0 == k {
        match ScoreTicker(x.1)
        case Some(s) =>
          assert TechnicalScoresOf(data) == [(k, s)] + rest;
        case None =>
          TechnicalKeys(data[1..]);
          assert TechnicalScoresOf(data) == rest;
      } else {
        TechnicalLookup(data[1..], k);
        match ScoreTicker(x.1)
        case Some(s) =>
          assert TechnicalScoresOf(data) == [(x.0, s)] + rest;
        case None =>
          assert TechnicalScoresOf(data) == rest;
      }
    }
  }

  /** The result's tickers are input tickers, in input order, none twice when the input is a dict. */
  lemma {:induction false} TechnicalKeys(data: seq<(string, TickerData)>)
    ensures IsSubsequence(Keys(TechnicalScoresOf(data)), Keys(data))
    ensures forall k :: k in Keys(TechnicalScoresOf(data)) ==> k in Keys(data)
    ensures DistinctKeys(data) ==> DistinctKeys(TechnicalScoresOf(data))
    decreases |data|
  {
    if |data| > 0 {
      var rest := TechnicalScoresOf(data[1..]);
      TechnicalKeys(data[1..]);
      assert Keys(data) == [data[0].0] + Keys(data[1..]);
      if DistinctKeys(data) {
        DistinctTail(data);
      }
      match ScoreTicker(data[0].1)
      case None =>
        assert TechnicalScoresOf(data) == rest;
        SubsequenceSkip(Keys(rest), Keys(data));
      case Some(s) =>
        assert TechnicalScoresOf(data) == [(data[0].0, s)] + rest;
        assert Keys([(data[0].0, s)] + rest) == [data[0].0] + Keys(rest);
        if DistinctKeys(data) {
          DistinctCons((data[0].0, s), rest);
        }
    }
  }

  lemma IndicatorCells(ind: Indicators)
    ensures Get(IndicatorColumns(ind), "SMA_20") == Some(ind.sma20)
    ensures Get(IndicatorColumns(ind), "SMA_50") == Some(ind.sma50)
    ensures Get(IndicatorColumns(ind), "EMA_12") == Some(ind.ema12)
    ensures Get(IndicatorColumns(ind), "EMA_26") == Some(ind.ema26)
    ensures Get(IndicatorColumns(ind), "RSI") == Some(ind.rsi)
    ensures Get(IndicatorColumns(ind), "MACD") == Some(ind.macd)
    ensures Get(IndicatorColumns(ind), "MACD_signal") == Some(ind.macdSignal)
  {
    var cols := IndicatorColumns(ind);
    IndicatorColumnsDistinct(ind);
    GetAt(cols, 0);
    GetAt(cols, 1);
    GetAt(cols, 3);
    GetAt(cols, 4);
    GetAt(cols, 5);
    GetAt(cols, 6);
    GetAt(cols, 7);
  }

  /** With every required column present, the latest row holds each indicator's value under its label. */
  lemma IndicatorCell(latest: seq<(string, real)>, ind: Indicators, k: string, v: Option<real>)
    requires HasRequired(latest) && Get(IndicatorColumns(ind), k) == Some(v)
    ensures Get(WithIndicators(latest, ind), k) == Some(v)
  {
    WithIndicatorsSpec(latest, ind, k);
  }

  lemma RequiredHasClose(latest: seq<(string, real)>)
    requires HasRequired(latest)
    ensures "Close" in Keys(latest)
  {
    var names := Keys(KeepFirst(latest));
    assert "Close" in RequiredColumns;
    assert MissingColumns(names) == [];
    assert "Close" in names;
    KeepFirstSpec(latest);
  }

  /**
   * With every required column present, each signal follows its indicator:
   * an SMA signal exists exactly when that SMA is not NaN, the EMA and MACD
   * signals always exist with NaN read as 0, and the RSI signal exists
   * exactly when RSI is not NaN.
   */
  lemma SignalsFollowIndicators(t: TickerData)
    requires t.frame.rows > 0 && HasRequired(t.frame.latest)
    ensures ScoreTicker(t).Some?
    ensures var s := ScoreTicker(t).value;
      var ind := t.indicators;
      var close := Get(t.frame.latest, "Close").value;
      && s.sma20Signal == (match ind.sma20 case None => None case Some(a) => Some(RelativeGap(close, a)))
      && s.sma50Signal == (match ind.sma50 case None => None case Some(a) => Some(RelativeGap(close, a)))
      && s.emaSignal == Some(RelativeGap(ind.ema12.GetOr(0.0), ind.ema26.GetOr(0.0)))
      && s.rsiSignal == (match ind.rsi case None => None case Some(v) => Some(RsiSignal(v)))
      && s.macdSignal == Some(MacdGap(ind.macd.GetOr(0.0), ind.macdSignal.GetOr(0.0)))
  {
    var latest, ind := t.frame.latest, t.indicators;
    var row := WithIndicators(latest, ind);
    RequiredHasClose(latest);
    ScoreTickerLatest(t);
    IndicatorCells(ind);
    IndicatorCell(latest, ind, "SMA_20", ind.sma20);
    IndicatorCell(latest, ind, "SMA_50", ind.sma50);
    IndicatorCell(latest, ind, "EMA_12", ind.ema12);
    IndicatorCell(latest, ind, "EMA_26", ind.ema26);
    IndicatorCell(latest, ind, "RSI", ind.rsi);
    IndicatorCell(latest, ind, "MACD", ind.macd);
    IndicatorCell(latest, ind, "MACD_signal", ind.macdSignal);
    LatestSignals(row, Get(latest, "Close").value, ind);
  }

  /** A scored ticker's scores are those of its latest row at its first Close. */
  lemma ScoreTickerLatest(t: TickerData)
    requires t.frame.rows > 0 && "Close" in Keys(t.frame.latest)
    ensures ScoreTicker(t) ==
      Some(LatestScores(WithIndicators(t.frame.latest, t.indicators), Get(t.frame.latest, "Close").value))
  {
    WithIndicatorsClose(t.frame.latest, t.indicators);
  }

  /** The signals of a latest row whose indicator cells hold the given values. */
  lemma LatestSignals(row: Row, close: real, ind: Indicators)
    requires Get(row, "SMA_20") == Some(ind.sma20) && Get(row, "SMA_50") == Some(ind.sma50)
    requires Get(row, "EMA_12") == Some(ind.ema12) && Get(row, "EMA_26") == Some(ind.ema26)
    requires Get(row, "RSI") == Some(ind.rsi)
    requires Get(row, "MACD") == Some(ind.macd) && Get(row, "MACD_signal") == Some(ind.macdSignal)
    ensures var s := LatestScores(row, close);
      && s.sma20Signal == (match ind.sma20 case None => None case Some(a) => Some(RelativeGap(close, a)))
      && s.sma50Signal == (match ind.sma50 case None => None case Some(a) => Some(RelativeGap(close, a)))
      && s.emaSignal == Some(RelativeGap(ind.ema12.GetOr(0.0), ind.ema26.GetOr(0.0)))
      && s.rsiSignal == (match ind.rsi case None => None case Some(v) => Some(RsiSignal(v)))
      && s.macdSignal == Some(MacdGap(ind.macd.GetOr(0.0), ind.macdSignal.GetOr(0.0)))
  {
  }

  /** Without the required columns, a label the input frame does not have is absent from the latest row. */
  lemma NoIndicatorCell(latest: seq<(string, real)>, ind: Indicators, k: string)
    requires !HasRequired(latest) && k !in Keys(latest)
    ensures Get(WithIndicators(latest, ind), k) == None && k !in Keys(WithIndicators(latest, ind))
  {
    WithIndicatorsSpec(latest, ind, k);
  }

  /**
   * A frame that lacks a required column gets no indicators: unless it
   * carried indicator-named columns of its own, it has no signal at all and
   * its composite is 0, yet it is still scored.
   */
  lemma MissingColumnsScoreZero(t: TickerData)
    requires t.frame.rows > 0 && "Close" in Keys(t.frame.latest) && !HasRequired(t.frame.latest)
    requires forall k :: k in Keys(IndicatorColumns(t.indicators)) ==> k !in Keys(t.frame.latest)
    ensures ScoreTicker(t).Some?
    ensures var s := ScoreTicker(t).value;
      && s.sma20Signal.None? && s.sma50Signal.None? && s.emaSignal.None?
      && s.rsiSignal.None? && s.macdSignal.None?
      && s.composite == 0.0
  {
    var latest, ind := t.frame.latest, t.indicators;
    var row := WithIndicators(latest, ind);
    IndicatorColumnsDistinct(ind);
    WithIndicatorsClose(latest, ind);
    var close := Get(latest, "Close").value;
    NoIndicatorCell(latest, ind, "SMA_20");
    NoIndicatorCell(latest, ind, "SMA_50");
    NoIndicatorCell(latest, ind, "EMA_12");
    NoIndicatorCell(latest, ind, "RSI");
    NoIndicatorCell(latest, ind, "MACD");
    assert ScoreTicker(t) == Some(LatestScores(row, close));
  }

  /**
   * The weights sum to 1: when every signal is present and equal to `x`
   * the composite is `x`, so all-zero signals give 0; a missing signal
   * counts as 0; and when every present signal lies in [lo, hi], with
   * 0 in that range, so does the composite.
   */
  lemma CompositeIsWeightedAverage(sma20: Option<real>, sma50: Option<real>, ema: Option<real>,
                                   rsi: Option<real>, macd: Option<real>, lo: real, hi: real)
    ensures forall x: real :: Composite(Some(x), Some(x), Some(x), Some(x), Some(x)) == x
    ensures Composite(sma20, sma50, ema, rsi, macd) ==
      Composite(Some(sma20.GetOr(0.0)), Some(sma50.GetOr(0.0)), Some(ema.GetOr(0.0)),
                Some(rsi.GetOr(0.0)), Some(macd.GetOr(0.0)))
    ensures lo <= 0.0 <= hi &&
      lo <= sma20.GetOr(0.0) <= hi && lo <= sma50.GetOr(0.0) <= hi && lo <= ema.GetOr(0.0) <= hi &&
      lo <= rsi.GetOr(0.0) <= hi && lo <= macd.GetOr(0.0) <= hi
      ==> lo <= Composite(sma20, sma50, ema, rsi, macd) <= hi
  {
  }
}
