/** The trading-signal rules of `Signals` (data/signals.py): per-row comparisons over
    the indicator columns of a data frame, their sign-of-sum combination and the
    latest-signal lookup. The indicator columns themselves (moving averages, MACD,
    RSI, Bollinger bands, computed by data/indicators.py) are inputs. */
module Signals {
  import opened Wrappers

  /** One frame entry: pandas' NaN (a warm-up row of a rolling indicator, or the
      row before row 0 after `shift(1)`) or a number. */
  datatype Cell = NaN | Num(v: real)

  type Column = seq<Cell>

  /** A data frame: a row count and named columns. */
  datatype Frame = Frame(rows: nat, columns: map<string, Column>)

  ghost predicate WellFormed(f: Frame) {
    forall c :: c in f.columns ==> |f.columns[c]| == f.rows
  }

  /** `g` is `f` with at most the column `name` added or replaced. */
  ghost predicate OnlyChanged(f: Frame, g: Frame, name: string) {
    && g.rows == f.rows
    && (forall c :: c != name ==> (c in g.columns <==> c in f.columns))
    && (forall c :: c != name && c in f.columns ==> g.columns[c] == f.columns[c])
  }

  /** `df[name]`: a missing column raises `KeyError`. */
  function Get(f: Frame, name: string): (r: Option<Column>)
    ensures r.Some? <==> name in f.columns
    ensures r.Some? ==> r.value == f.columns[name]
  {
    if name in f.columns then Some(f.columns[name]) else None
  }

  /** `df[name] = col`. */
  function SetColumn(f: Frame, name: string, col: Column): (g: Frame)
    requires WellFormed(f) && |col| == f.rows
    ensures WellFormed(g) && OnlyChanged(f, g, name)
    ensures name in g.columns && g.columns[name] == col
  {
    f.(columns := f.columns[name := col])
  }

  /** Decimal digits of an integer, as in an f-string. */
  function Digits(n: int): string
    decreases if n < 0 then 1 - n else n
  {
    if n < 0 then "-" + Digits(-n)
    else if n < 10 then [(n + '0' as int) as char]
    else Digits(n / 10) + [(n % 10 + '0' as int) as char]
  }

  /** The column `f'MA{period}'`. */
  function MaName(period: int): string {
    "MA" + Digits(period)
  }

  // Comparisons of two cells, false as soon as either side is NaN.
  predicate Greater(a: Cell, b: Cell) {
    a.Num? && b.Num? && a.v > b.v
  }

  predicate Less(a: Cell, b: Cell) {
    a.Num? && b.Num? && a.v < b.v
  }

  predicate AtMost(a: Cell, b: Cell) {
    a.Num? && b.Num? && a.v <= b.v
  }

  predicate AtLeast(a: Cell, b: Cell) {
    a.Num? && b.Num? && a.v >= b.v
  }

  /** `col.shift(1)[i]`: the row before, NaN at row 0. */
  function Shift(col: Column, i: nat): Cell
    requires i < |col|
  {
    if i == 0 then NaN else col[i - 1]
  }

  /** The crossover condition in plain terms: there is a row before, all four values
      are numbers, and `a` is above `b` now but was not above it on the row before. */
  ghost predicate CrossesAbove(a: Column, b: Column, i: nat)
    requires i < |a| && |a| == |b|
  {
    && 0 < i
    && a[i].Num? && b[i].Num? && a[i - 1].Num? && b[i - 1].Num?
    && a[i].v > b[i].v && a[i - 1].v <= b[i - 1].v
  }

  /** One row of a crossover rule: 0, then 1 where the golden-cross mask holds, then
      -1 where the death-cross mask holds. */
  function CrossAt(a: Column, b: Column, i: nat): real
    requires i < |a| && |a| == |b|
  {
    if Less(a[i], b[i]) && AtLeast(Shift(a, i), Shift(b, i)) then -1.0
    else if Greater(a[i], b[i]) && AtMost(Shift(a, i), Shift(b, i)) then 1.0
    else 0.0
  }

  /** The crossover column of `a` against `b`: 1 exactly where `a` crosses above `b`,
      -1 exactly where it crosses below, 0 everywhere else. */
  function Crossover(a: Column, b: Column): (r: Column)
    requires |a| == |b|
    ensures |r| == |a|
    ensures forall i :: 0 <= i < |r| ==>
      && (r[i] == Num(1.0) <==> CrossesAbove(a, b, i))
      && (r[i] == Num(-1.0) <==> CrossesAbove(b, a, i))
      && (r[i] == Num(0.0) <==> !CrossesAbove(a, b, i) && !CrossesAbove(b, a, i))
  {
    seq(|a|, i requires 0 <= i < |a| => Num(CrossAt(a, b, i)))
  }

  /** Row 0 never signals, and neither does a row where any of the four values it
      compares is NaN. */
  lemma CrossoverQuiet(a: Column, b: Column, i: nat)
    requires |a| == |b| && i < |a|
    requires i == 0 || a[i].NaN? || b[i].NaN? || a[i - 1].NaN? || b[i - 1].NaN?
    ensures Crossover(a, b)[i] == Num(0.0)
  {
  }

  /** Swapping the two lines negates every signal. */
  lemma CrossoverAntisymmetric(a: Column, b: Column)
    requires |a| == |b|
    ensures forall i :: 0 <= i < |a| ==> Crossover(b, a)[i].v == -Crossover(a, b)[i].v
  {
    forall i | 0 <= i < |a| ensures Crossover(b, a)[i].v == -Crossover(a, b)[i].v {
      var x, y := Crossover(a, b)[i], Crossover(b, a)[i];
      assert x == Num(1.0) || x == Num(-1.0) || x == Num(0.0);
    }
  }

  /** Every crossover value is -1, 0 or 1. */
  ghost predicate Ternary(col: Column) {
    forall i :: 0 <= i < |col| ==> col[i] == Num(-1.0) || col[i] == Num(0.0) || col[i] == Num(1.0)
  }

  lemma CrossoverTernary(a: Column, b: Column)
    requires |a| == |b|
    ensures Ternary(Crossover(a, b))
  {
  }

  /** `generate_ma_signals`: `Signal` becomes the crossover of the short moving average
      against the long one; a missing average column raises. */
  function MaSignals(f: Frame, shortPeriod: int, longPeriod: int): (r: Option<Frame>)
    requires WellFormed(f)
    ensures r.Some? <==> MaName(shortPeriod) in f.columns && MaName(longPeriod) in f.columns
    ensures r.Some? ==> WellFormed(r.value) && OnlyChanged(f, r.value, "Signal")
    ensures r.Some? ==> "Signal" in r.value.columns
    ensures r.Some? ==> r.value.columns["Signal"] == Crossover(f.columns[MaName(shortPeriod)], f.columns[MaName(longPeriod)])
  {
    var short :- Get(f, MaName(shortPeriod));
    var long :- Get(f, MaName(longPeriod));
    Some(SetColumn(f, "Signal", Crossover(short, long)))
  }

  /** `generate_macd_signals`: `MACD_Signal` becomes the crossover of `MACD` against
      whatever the `Signal` column holds at that moment. */
  function MacdSignals(f: Frame): (r: Option<Frame>)
    requires WellFormed(f)
    ensures r.Some? <==> "MACD" in f.columns && "Signal" in f.columns
    ensures r.Some? ==> WellFormed(r.value) && OnlyChanged(f, r.value, "MACD_Signal")
    ensures r.Some? ==> "MACD_Signal" in r.value.columns
    ensures r.Some? ==> r.value.columns["MACD_Signal"] == Crossover(f.columns["MACD"], f.columns["Signal"])
  {
    var macd :- Get(f, "MACD");
    var line :- Get(f, "Signal");
    Some(SetColumn(f, "MACD_Signal", Crossover(macd, line)))
  }

  /** One row of the RSI rule: 0, then 1 below `oversold`, then -1 above `overbought`. */
  function RsiAt(rsi: Cell, overbought: int, oversold: int): real {
    if rsi.Num? && rsi.v > overbought as real then -1.0
    else if rsi.Num? && rsi.v < oversold as real then 1.0
    else 0.0
  }

  /** The RSI column rule: -1 exactly where RSI exceeds `overbought`; 1 exactly where it
      is below `oversold` and not above `overbought` (the later assignment wins); NaN
      gives 0. */
  function RsiColumn(rsi: Column, overbought: int, oversold: int): (r: Column)
    ensures |r| == |rsi|
    ensures forall i :: 0 <= i < |r| ==>
      && (r[i] == Num(-1.0) <==> rsi[i].Num? && rsi[i].v > overbought as real)
      && (r[i] == Num(1.0) <==> rsi[i].Num? && rsi[i].v < oversold as real && rsi[i].v <= overbought as real)
      && (r[i] == Num(0.0) <==> rsi[i].NaN? || (oversold as real <= rsi[i].v <= overbought as real))
  {
    seq(|rsi|, i requires 0 <= i < |rsi| => Num(RsiAt(rsi[i], overbought, oversold)))
  }

  /** `generate_rsi_signals`. */
  function RsiSignals(f: Frame, overbought: int, oversold: int): (r: Option<Frame>)
    requires WellFormed(f)
    ensures r.Some? <==> "RSI" in f.columns
    ensures r.Some? ==> WellFormed(r.value) && OnlyChanged(f, r.value, "RSI_Signal")
    ensures r.Some? ==> "RSI_Signal" in r.value.columns
    ensures r.Some? ==> r.value.columns["RSI_Signal"] == RsiColumn(f.columns["RSI"], overbought, oversold)
  {
    var rsi :- Get(f, "RSI");
    Some(SetColumn(f, "RSI_Signal", RsiColumn(rsi, overbought, oversold)))
  }

  /** With the usual thresholds (`oversold <= overbought`) the two RSI masks cannot
      both hold, so the buy signal is exactly "below `oversold`". */
  lemma RsiOrderedThresholds(rsi: Column, overbought: int, oversold: int)
    requires oversold <= overbought
    ensures forall i :: 0 <= i < |rsi| ==>
      (RsiColumn(rsi, overbought, oversold)[i] == Num(1.0) <==> rsi[i].Num? && rsi[i].v < oversold as real)
  {
  }

  /** One row of the Bollinger rule: 0, then 1 at or below the lower band, then -1 at
      or above the upper band. */
  function BandAt(close: Cell, lower: Cell, upper: Cell): real {
    if AtLeast(close, upper) then -1.0
    else if AtMost(close, lower) then 1.0
    else 0.0
  }

  /** The Bollinger column rule: -1 exactly where the close touches the upper band; 1
      exactly where it touches the lower band and not the upper one. */
  function BandColumn(close: Column, lower: Column, upper: Column): (r: Column)
    requires |close| == |lower| == |upper|
    ensures |r| == |close|
    ensures forall i :: 0 <= i < |r| ==>
      && (r[i] == Num(-1.0) <==> close[i].Num? && upper[i].Num? && close[i].v >= upper[i].v)
      && (r[i] == Num(1.0) <==>
            close[i].Num? && lower[i].Num? && close[i].v <= lower[i].v
            && !(upper[i].Num? && close[i].v >= upper[i].v))
  {
    seq(|close|, i requires 0 <= i < |close| => Num(BandAt(close[i], lower[i], upper[i])))
  }

  /** `generate_bollinger_signals`. */
  function BollingerSignals(f: Frame): (r: Option<Frame>)
    requires WellFormed(f)
    ensures r.Some? <==> "Close" in f.columns && "BB_Lower" in f.columns && "BB_Upper" in f.columns
    ensures r.Some? ==> WellFormed(r.value) && OnlyChanged(f, r.value, "BB_Signal")
    ensures r.Some? ==> "BB_Signal" in r.value.columns
    ensures r.Some? ==> r.value.columns["BB_Signal"] == BandColumn(f.columns["Close"], f.columns["BB_Lower"], f.columns["BB_Upper"])
  {
    var close :- Get(f, "Close");
    var lower :- Get(f, "BB_Lower");
    var upper :- Get(f, "BB_Upper");
    Some(SetColumn(f, "BB_Signal", BandColumn(close, lower, upper)))
  }

  /** A close at or below the lower band and at or above the upper band (a collapsed
      band) sells: the -1 assignment comes last. */
  lemma BandBothTouchSells(close: Column, lower: Column, upper: Column, i: nat)
    requires |close| == |lower| == |upper| && i < |close|
    requires AtMost(close[i], lower[i]) && AtLeast(close[i], upper[i])
    ensures BandColumn(close, lower, upper)[i] == Num(-1.0)
  {
  }

  /** `sum(axis=1)` skips NaN. */
  function Value(c: Cell): real {
    if c.Num? then c.v else 0.0
  }

  function Sign(x: real): real {
    if x > 0.0 then 1.0 else if x < 0.0 then -1.0 else 0.0
  }

  /** The four signal columns the combination adds up. */
  ghost predicate HasSignalColumns(f: Frame) {
    "Signal" in f.columns && "MACD_Signal" in f.columns && "RSI_Signal" in f.columns && "BB_Signal" in f.columns
  }

  /** The per-row sum of the four signal columns. */
  function RowSum(f: Frame, i: nat): real
    requires WellFormed(f) && HasSignalColumns(f) && i < f.rows
  {
    Value(f.columns["Signal"][i]) + Value(f.columns["MACD_Signal"][i])
      + Value(f.columns["RSI_Signal"][i]) + Value(f.columns["BB_Signal"][i])
  }

  /** The combination step: `Combined_Signal` is the row sum, `Final_Signal` is 1 where
      it is positive, -1 where it is negative and 0 where it is zero. */
  function AddFinal(f: Frame): (g: Frame)
    requires WellFormed(f) && HasSignalColumns(f)
    ensures WellFormed(g) && g.rows == f.rows
    ensures forall c :: c != "Combined_Signal" && c != "Final_Signal" ==> (c in g.columns <==> c in f.columns)
    ensures forall c :: c != "Combined_Signal" && c != "Final_Signal" && c in f.columns ==> g.columns[c] == f.columns[c]
    ensures "Final_Signal" in g.columns && "Combined_Signal" in g.columns
    ensures forall i :: 0 <= i < f.rows ==>
      && g.columns["Combined_Signal"][i] == Num(RowSum(f, i))
      && (g.columns["Final_Signal"][i] == Num(1.0) <==> RowSum(f, i) > 0.0)
      && (g.columns["Final_Signal"][i] == Num(-1.0) <==> RowSum(f, i) < 0.0)
      && (g.columns["Final_Signal"][i] == Num(0.0) <==> RowSum(f, i) == 0.0)
    ensures Ternary(g.columns["Final_Signal"])
  {
    var sums := seq(f.rows, i requires 0 <= i < f.rows => Num(RowSum(f, i)));
    var finals := seq(f.rows, i requires 0 <= i < f.rows => Num(Sign(RowSum(f, i))));
    SetColumn(SetColumn(f, "Combined_Signal", sums), "Final_Signal", finals)
  }

  /** The four rules in the order `generate_combined_signals` runs them: the MA rule
      first, which overwrites `Signal` (on an indicator frame, the MACD signal line),
      so the MACD rule that follows compares `MACD` against the MA crossover column. */
  function SignalColumnsAsWritten(f: Frame): (r: Option<Frame>)
    requires WellFormed(f)
    ensures r.Some? ==> WellFormed(r.value) && HasSignalColumns(r.value)
  {
    var f1 :- MaSignals(f, 10, 50);
    var f2 :- MacdSignals(f1);
    var f3 :- RsiSignals(f2, 70, 30);
    BollingerSignals(f3)
  }

  /** `generate_combined_signals` as written. */
  function CombinedAsWritten(f: Frame): (r: Option<Frame>)
    requires WellFormed(f)
    ensures r.Some? ==> WellFormed(r.value) && HasSignalColumns(r.value)
  {
    var g :- SignalColumnsAsWritten(f);
    Some(AddFinal(g))
  }

  /** The four rules as evidently intended: the MACD rule reads the MACD signal line,
      so it runs before the MA rule replaces that column. */
  function SignalColumns(f: Frame): (r: Option<Frame>)
    requires WellFormed(f)
    ensures r.Some? ==> WellFormed(r.value) && HasSignalColumns(r.value)
  {
    var f1 :- MacdSignals(f);
    var f2 :- MaSignals(f1, 10, 50);
    var f3 :- RsiSignals(f2, 70, 30);
    BollingerSignals(f3)
  }

  /** `generate_combined_signals` as evidently intended. */
  function Combined(f: Frame): (r: Option<Frame>)
    requires WellFormed(f)
    ensures r.Some? ==> WellFormed(r.value) && HasSignalColumns(r.value)
  {
    var g :- SignalColumns(f);
    Some(AddFinal(g))
  }

  lemma DefaultMaNames()
    ensures MaName(10) == "MA10" && MaName(50) == "MA50"
  {
    assert Digits(1) == "1" && Digits(5) == "5" && Digits(0) == "0";
  }

  /** The indicator columns the combination reads. */
  ghost predicate HasIndicators(f: Frame) {
    && "MA10" in f.columns && "MA50" in f.columns && "MACD" in f.columns && "Signal" in f.columns
    && "RSI" in f.columns && "Close" in f.columns && "BB_Lower" in f.columns && "BB_Upper" in f.columns
  }

  /** The corrected rules succeed exactly on frames carrying every indicator, and
      its four signal columns are the four rules applied to the ORIGINAL indicator
      columns (MACD against the MACD signal line). */
  lemma IntendedColumns(f: Frame)
    requires WellFormed(f)
    ensures SignalColumns(f).Some? <==> HasIndicators(f)
    ensures SignalColumns(f).Some? ==>
      var g := SignalColumns(f).value;
      && g.rows == f.rows
      && g.columns["MACD_Signal"] == Crossover(f.columns["MACD"], f.columns["Signal"])
      && g.columns["Signal"] == Crossover(f.columns["MA10"], f.columns["MA50"])
      && g.columns["RSI_Signal"] == RsiColumn(f.columns["RSI"], 70, 30)
      && g.columns["BB_Signal"] == BandColumn(f.columns["Close"], f.columns["BB_Lower"], f.columns["BB_Upper"])
  {
    DefaultMaNames();
    if HasIndicators(f) {
      var f1 := MacdSignals(f).value;
      var f2 := MaSignals(f1, 10, 50).value;
      var f3 := RsiSignals(f2, 70, 30).value;
      var f4 := BollingerSignals(f3).value;
      assert f4.columns["MACD_Signal"] == f1.columns["MACD_Signal"];
      assert f4.columns["Signal"] == f2.columns["Signal"];
      assert f4.columns["RSI_Signal"] == f3.columns["RSI_Signal"];
      assert SignalColumns(f) == Some(f4);
    }
  }

  /** The corrected combination succeeds exactly on frames carrying every indicator;
      its signal columns are those of `IntendedColumns`, and every final signal is -1,
      0 or 1, the sign of the four signals' sum. */
  lemma CombinedSignals(f: Frame)
    requires WellFormed(f)
    ensures Combined(f).Some? <==> HasIndicators(f)
    ensures Combined(f).Some? ==>
      var g := Combined(f).value;
      && g.rows == f.rows
      && g.columns["MACD_Signal"] == Crossover(f.columns["MACD"], f.columns["Signal"])
      && g.columns["Signal"] == Crossover(f.columns["MA10"], f.columns["MA50"])
      && "Final_Signal" in g.columns && Ternary(g.columns["Final_Signal"])
  {
    IntendedColumns(f);
  }

  /** The indicator columns the combination reads in the source's order. The MACD
      signal line `Signal` is not among them: the MA rule writes that column before
      anything reads it. */
  ghost predicate HasAsWrittenInputs(f: Frame) {
    && "MA10" in f.columns && "MA50" in f.columns && "MACD" in f.columns
    && "RSI" in f.columns && "Close" in f.columns && "BB_Lower" in f.columns && "BB_Upper" in f.columns
  }

  /** The rules in the source's order succeed exactly on frames carrying the moving
      averages, MACD, RSI, Close and the bands. `Signal` becomes the MA crossover and
      `MACD_Signal` compares MACD with that crossover column, not with the MACD
      signal line; the RSI and band columns are their rules over the indicators. */
  lemma AsWrittenColumns(f: Frame)
    requires WellFormed(f)
    ensures SignalColumnsAsWritten(f).Some? <==> HasAsWrittenInputs(f)
    ensures SignalColumnsAsWritten(f).Some? ==>
      var g := SignalColumnsAsWritten(f).value;
      var ma := Crossover(f.columns["MA10"], f.columns["MA50"]);
      && g.rows == f.rows
      && g.columns["Signal"] == ma
      && g.columns["MACD_Signal"] == Crossover(f.columns["MACD"], ma)
      && g.columns["RSI_Signal"] == RsiColumn(f.columns["RSI"], 70, 30)
      && g.columns["BB_Signal"] == BandColumn(f.columns["Close"], f.columns["BB_Lower"], f.columns["BB_Upper"])
  {
    DefaultMaNames();
    if HasAsWrittenInputs(f) {
      var f1 := MaSignals(f, 10, 50).value;
      var f2 := MacdSignals(f1).value;
      var f3 := RsiSignals(f2, 70, 30).value;
      var f4 := BollingerSignals(f3).value;
      assert f4.columns["Signal"] == f1.columns["Signal"];
      assert f4.columns["MACD_Signal"] == f2.columns["MACD_Signal"];
      assert f4.columns["RSI_Signal"] == f3.columns["RSI_Signal"];
      assert SignalColumnsAsWritten(f) == Some(f4);
    }
  }

  /** The combination as written succeeds exactly on frames carrying the inputs of
      `AsWrittenColumns`; its MA and MACD columns are those stated there, and every
      final signal is -1, 0 or 1. */
  lemma CombinedAsWrittenSignals(f: Frame)
    requires WellFormed(f)
    ensures CombinedAsWritten(f).Some? <==> HasAsWrittenInputs(f)
    ensures CombinedAsWritten(f).Some? ==>
      var g := CombinedAsWritten(f).value;
      var ma := Crossover(f.columns["MA10"], f.columns["MA50"]);
      && g.rows == f.rows
      && g.columns["Signal"] == ma
      && g.columns["MACD_Signal"] == Crossover(f.columns["MACD"], ma)
      && "Final_Signal" in g.columns && Ternary(g.columns["Final_Signal"])
  {
    AsWrittenColumns(f);
  }

  /** The frame that shows the as-written pipeline misreading MACD: the short average
      crosses above the long one at row 1, and MACD (0.1, then 0.3) crosses above its
      signal line (0.2, 0.2) at the same row. */
  function CrossingFrame(): (f: Frame)
    ensures WellFormed(f) && HasIndicators(f)
  {
    Frame(2, map[
      "MA10" := [Num(1.0), Num(2.0)], "MA50" := [Num(1.5), Num(1.5)],
      "MACD" := [Num(0.1), Num(0.3)], "Signal" := [Num(0.2), Num(0.2)],
      "RSI" := [Num(50.0), Num(50.0)], "Close" := [Num(1.0), Num(1.0)],
      "BB_Lower" := [Num(0.0), Num(0.0)], "BB_Upper" := [Num(2.0), Num(2.0)]])
  }

  /** On that frame the as-written pipeline sees MACD (0.3) below the overwritten
      `Signal` (the MA buy, 1) and reports a MACD sell at row 1, cancelling the MA buy
      into a hold; the corrected pipeline reports the MACD buy and a final buy. */
  lemma AsWrittenMisreadsMacd()
    ensures CombinedAsWritten(CrossingFrame()).Some? && Combined(CrossingFrame()).Some?
    ensures CombinedAsWritten(CrossingFrame()).value.columns["MACD_Signal"][1] == Num(-1.0)
    ensures CombinedAsWritten(CrossingFrame()).value.columns["Final_Signal"][1] == Num(0.0)
    ensures Combined(CrossingFrame()).value.columns["MACD_Signal"][1] == Num(1.0)
    ensures Combined(CrossingFrame()).value.columns["Final_Signal"][1] == Num(1.0)
  {
    AsWrittenAtCrossing();
    CorrectedAtCrossing();
  }

  /** The MA crossover of the example frame: a buy at row 1 and nothing at row 0. */
  lemma CrossingMa()
    ensures var f := CrossingFrame();
      && "MA10" in f.columns && "MA50" in f.columns
      && |f.columns["MA10"]| == |f.columns["MA50"]| == 2
      && Crossover(f.columns["MA10"], f.columns["MA50"]) == [Num(0.0), Num(1.0)]
  {
    var f := CrossingFrame();
    var ma := Crossover(f.columns["MA10"], f.columns["MA50"]);
    assert CrossesAbove(f.columns["MA10"], f.columns["MA50"], 1);
    assert !CrossesAbove(f.columns["MA10"], f.columns["MA50"], 0);
    assert !CrossesAbove(f.columns["MA50"], f.columns["MA10"], 0);
    assert ma[0] == Num(0.0) && ma[1] == Num(1.0);
  }

  /** The as-written order reads the MA signal as the MACD signal line. */
  lemma AsWrittenAtCrossing()
    ensures CombinedAsWritten(CrossingFrame()).Some?
    ensures CombinedAsWritten(CrossingFrame()).value.columns["MACD_Signal"][1] == Num(-1.0)
    ensures CombinedAsWritten(CrossingFrame()).value.columns["Final_Signal"][1] == Num(0.0)
  {
    var f := CrossingFrame();
    assert MaName(10) == "MA10" && MaName(50) == "MA50";
    CrossingMa();
    var ma := Crossover(f.columns["MA10"], f.columns["MA50"]);
    var a1 := MaSignals(f, 10, 50).value;
    assert a1.columns["Signal"] == ma;
    var a2 := MacdSignals(a1).value;
    var am := a2.columns["MACD_Signal"];
    assert am == Crossover(f.columns["MACD"], ma);
    assert CrossesAbove(ma, f.columns["MACD"], 1);
    assert am[1] == Num(-1.0);
    var a3 := RsiSignals(a2, 70, 30).value;
    var a4 := BollingerSignals(a3).value;
    assert a4.columns["RSI_Signal"][1] == Num(0.0);
    assert a4.columns["BB_Signal"][1] == Num(0.0);
    assert RowSum(a4, 1) == 0.0;
    assert CombinedAsWritten(f) == Some(AddFinal(a4));
  }

  /** The corrected order compares MACD with its own signal line. */
  lemma CorrectedAtCrossing()
    ensures Combined(CrossingFrame()).Some?
    ensures Combined(CrossingFrame()).value.columns["MACD_Signal"][1] == Num(1.0)
    ensures Combined(CrossingFrame()).value.columns["Final_Signal"][1] == Num(1.0)
  {
    var f := CrossingFrame();
    assert MaName(10) == "MA10" && MaName(50) == "MA50";
    CrossingMa();
    var c1 := MacdSignals(f).value;
    var cm := c1.columns["MACD_Signal"];
    assert CrossesAbove(f.columns["MACD"], f.columns["Signal"], 1);
    assert cm[1] == Num(1.0);
    var c2 := MaSignals(c1, 10, 50).value;
    var c3 := RsiSignals(c2, 70, 30).value;
    var c4 := BollingerSignals(c3).value;
    assert c4.columns["RSI_Signal"][1] == Num(0.0);
    assert c4.columns["BB_Signal"][1] == Num(0.0);
    assert RowSum(c4, 1) == 2.0;
    assert Combined(f) == Some(AddFinal(c4));
  }

  /** `get_latest_signal`: the last `Final_Signal`, else the last `Signal`, else 0;
      `iloc[-1]` on an empty frame raises. */
  function LatestSignal(f: Frame): (r: Option<Cell>)
    requires WellFormed(f)
    ensures r.None? <==> f.rows == 0 && ("Final_Signal" in f.columns || "Signal" in f.columns)
    ensures r.Some? && "Final_Signal" in f.columns ==> r.value == f.columns["Final_Signal"][f.rows - 1]
    ensures r.Some? && "Final_Signal" !in f.columns && "Signal" in f.columns ==> r.value == f.columns["Signal"][f.rows - 1]
    ensures "Final_Signal" !in f.columns && "Signal" !in f.columns ==> r == Some(Num(0.0))
  {
    if "Final_Signal" in f.columns then
      if f.rows == 0 then None else Some(f.columns["Final_Signal"][f.rows - 1])
    else if "Signal" in f.columns then
      if f.rows == 0 then None else Some(f.columns["Signal"][f.rows - 1])
    else Some(Num(0.0))
  }

  /** After the combination as written the latest signal is the final signal of the
      last row: a buy, sell or hold. */
  lemma LatestOfCombinedAsWritten(f: Frame)
    requires WellFormed(f) && HasAsWrittenInputs(f) && f.rows > 0
    ensures CombinedAsWritten(f).Some?
    ensures var g := CombinedAsWritten(f).value;
      && LatestSignal(g) == Some(g.columns["Final_Signal"][f.rows - 1])
      && LatestSignal(g).value in {Num(-1.0), Num(0.0), Num(1.0)}
  {
    CombinedAsWrittenSignals(f);
  }

  /** After the corrected combination the latest signal is likewise the final signal
      of the last row: a buy, sell or hold. */
  lemma LatestOfCombined(f: Frame)
    requires WellFormed(f) && HasIndicators(f) && f.rows > 0
    ensures Combined(f).Some?
    ensures var g := Combined(f).value;
      && LatestSignal(g) == Some(g.columns["Final_Signal"][f.rows - 1])
      && LatestSignal(g).value in {Num(-1.0), Num(0.0), Num(1.0)}
  {
    CombinedSignals(f);
  }
}
