/** The position-sizing panel of components/QuantTools.tsx: a fixed share of the capital is
    put at risk, the distance between entry and stop is the risk of one share, and the share
    count is the largest whole number of shares whose risk fits the budget. Prices and amounts
    are reals; the source computes them in IEEE doubles. */
module QuantTools {
  import opened JsString

  const DefaultCapital: real := 100000.0
  const DefaultRiskPercent: real := 2.0

  /** `capital * (riskPercent / 100)` */
  function RiskAmount(capital: real, riskPercent: real): (r: real)
    ensures capital >= 0.0 && riskPercent >= 0.0 ==> r >= 0.0
    ensures riskPercent == 100.0 ==> r == capital
    ensures riskPercent == 0.0 ==> r == 0.0
  {
    capital * (riskPercent / 100.0)
  }

  /** With the panel's defaults two thousand is at risk. */
  lemma DefaultBudget()
    ensures RiskAmount(DefaultCapital, DefaultRiskPercent) == 2000.0
  {
  }

  function Abs(x: real): real {
    if x < 0.0 then -x else x
  }

  /** `Math.abs(entryPrice - stopLoss)` */
  function RiskPerShare(entry: real, stop: real): (r: real)
    ensures r >= 0.0
    ensures r == 0.0 <==> entry == stop
    ensures r == entry - stop || r == stop - entry
  {
    Abs(entry - stop)
  }

  /** The risk of one share does not depend on which side of the entry the stop is. */
  lemma RiskPerShareSymmetric(entry: real, stop: real)
    ensures RiskPerShare(entry, stop) == RiskPerShare(stop, entry)
  {
  }

  /** `riskPerShare > 0 ? Math.floor(riskAmount / riskPerShare) : 0`: the largest whole count
      whose total risk stays within the budget. */
  function Shares(risk: real, perShare: real): (n: int)
    ensures perShare <= 0.0 ==> n == 0
    ensures perShare > 0.0 ==> n as real * perShare <= risk < (n + 1) as real * perShare
    ensures risk >= 0.0 ==> n >= 0
  {
    if perShare > 0.0 then
      var q := risk / perShare;
      var n := q.Floor;
      assert n as real <= q < n as real + 1.0;
      FloorBounds(n, q, perShare, risk);
      n
    else 0
  }

  /** Multiplying the floor bounds of a quotient back by its positive divisor. */
  lemma FloorBounds(n: int, q: real, d: real, risk: real)
    requires d > 0.0 && q == risk / d
    requires n as real <= q < n as real + 1.0
    ensures n as real * d <= risk < (n + 1) as real * d
  {
    assert q * d == risk;
    assert (n + 1) as real == n as real + 1.0;
    MultiplyPositive(n as real, q, d);
    var up := (n + 1) as real;
    assert q < up;
    MultiplyPositive(q, up, d);
    assert q * d < up * d;
    assert risk < up * d;
    assert n as real * d <= risk;
  }

  lemma MultiplyPositive(a: real, b: real, d: real)
    requires d > 0.0
    ensures a <= b ==> a * d <= b * d
    ensures a < b ==> a * d < b * d
  {
  }

  /** Every whole count whose risk fits the budget is at most the suggested one. */
  lemma SharesIsLargestFit(risk: real, perShare: real, m: int)
    requires perShare > 0.0
    requires m as real * perShare <= risk
    ensures m <= Shares(risk, perShare)
  {
    var n := Shares(risk, perShare);
    var up := (n + 1) as real;
    assert risk < up * perShare;
    MultiplyPositive(up, m as real, perShare);
    assert !(up <= m as real);
  }

  /** The whole panel for one set of inputs. */
  datatype Sizing = Sizing(riskAmount: real, riskPerShare: real, shares: int, positionValue: real)

  /** The four figures the panel shows; the position value is `shares * entryPrice`. */
  function Size(capital: real, riskPercent: real, entry: real, stop: real): (s: Sizing)
    ensures s.riskAmount == RiskAmount(capital, riskPercent)
    ensures s.riskPerShare == RiskPerShare(entry, stop)
    ensures s.shares == Shares(s.riskAmount, s.riskPerShare)
    ensures s.positionValue == s.shares as real * entry
  {
    var risk := RiskAmount(capital, riskPercent);
    var perShare := RiskPerShare(entry, stop);
    var n := Shares(risk, perShare);
    Sizing(risk, perShare, n, n as real * entry)
  }

  /** Stopped out, the suggested position loses at most the risk budget, and one more share
      would have lost more than it. */
  lemma StopLossWithinBudget(capital: real, riskPercent: real, entry: real, stop: real)
    requires entry != stop
    ensures var s := Size(capital, riskPercent, entry, stop);
            s.shares as real * Abs(entry - stop) <= s.riskAmount < (s.shares + 1) as real * Abs(entry - stop)
  {
  }

  /** Entry equal to stop suggests no position at all. */
  lemma NoDistanceNoShares(capital: real, riskPercent: real, price: real)
    ensures Size(capital, riskPercent, price, price).shares == 0
    ensures Size(capital, riskPercent, price, price).positionValue == 0.0
  {
  }

  // ---------------------------------------------------------------------------------------
  // Gauge

  datatype Colour = Rose | Emerald | Yellow

  /** `getGaugeColor`: SELL is tested before BUY, case-sensitively; the confidence is not
      consulted. */
  function GaugeColour(confidence: real, sig: string): (c: Colour)
    ensures c == Rose <==> Contains(sig, "SELL")
    ensures c == Emerald <==> !Contains(sig, "SELL") && Contains(sig, "BUY")
    ensures c == Yellow <==> !Contains(sig, "SELL") && !Contains(sig, "BUY")
  {
    if Contains(sig, "SELL") then Rose
    else if Contains(sig, "BUY") then Emerald
    else Yellow
  }

  /** The confidence never changes the colour. */
  lemma GaugeIgnoresConfidence(a: real, b: real, sig: string)
    ensures GaugeColour(a, sig) == GaugeColour(b, sig)
  {
  }

  /** The needle's border colour tests BUY before SELL. */
  function NeedleColour(sig: string): (c: Colour)
    ensures c == Emerald <==> Contains(sig, "BUY")
    ensures c == Rose <==> !Contains(sig, "BUY") && Contains(sig, "SELL")
  {
    if Contains(sig, "BUY") then Emerald
    else if Contains(sig, "SELL") then Rose
    else Yellow
  }

  /** The two colours agree unless the signal names both words; then the gauge is rose and the
      needle green. */
  lemma GaugeAndNeedle(confidence: real, sig: string)
    ensures GaugeColour(confidence, sig) != NeedleColour(sig)
        <==> Contains(sig, "SELL") && Contains(sig, "BUY")
  {
  }
}
