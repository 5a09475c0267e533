/** The progress list of components/TerminalLoader.tsx: one step per message, the first one
    active, and a timer that on every tick completes the current step and activates the next,
    until it has passed the last one. The timer itself is left out; a run is a number of
    ticks. */
module TerminalLoader {

  /** `LoadingStep` of types.ts. */
  datatype Step = Step(id: int, message: string, active: bool, completed: bool)

  /** The step list and the index the timer's closure keeps. */
  datatype Loader = Loader(steps: seq<Step>, index: nat)

  const English := [
    "Connecting to Market Data Gateway...",
    "Retrieving Real-time Quotes & Volume...",
    "Calculating Moving Averages (MA5, MA20, MA60)...",
    "Analyzing MACD & KDJ Indicators...",
    "Scanning Fundamental News Stream...",
    "Synthesizing Quantitative Strategy..."]

  const Chinese := [
    "正在连接市场数据网关...",
    "检索实时行情与成交量...",
    "计算均线系统 (MA5, MA20, MA60)...",
    "分析 MACD 与 KDJ 技术指标...",
    "扫描基本面新闻资讯...",
    "合成量化交易策略..."]

  /** The state after `k` ticks: steps before `k` done, step `k` active, the rest waiting; ids
      and messages as created. */
  predicate After(l: Loader, messages: seq<string>, k: nat) {
    && |l.steps| == |messages|
    && l.index == k
    && forall i | 0 <= i < |l.steps| ::
         l.steps[i] == Step(i, messages[i], i == k, i < k)
  }

  /** The initial list: id = index, only the first step active, none completed. */
  function Init(messages: seq<string>): (l: Loader)
    ensures |l.steps| == |messages| && l.index == 0
    ensures forall i | 0 <= i < |l.steps| :: l.steps[i].id == i && l.steps[i].message == messages[i]
    ensures forall i | 0 <= i < |l.steps| :: (l.steps[i].active <==> i == 0) && !l.steps[i].completed
  {
    Loader(seq(|messages|, i requires 0 <= i < |messages| => Step(i, messages[i], i == 0, false)), 0)
  }

  /** One tick: the current step, if any, becomes inactive and completed; the index moves on;
      the step it reaches, if any, becomes active. */
  function Tick(l: Loader): (r: Loader)
    ensures |r.steps| == |l.steps| && r.index == l.index + 1
    ensures forall i | 0 <= i < |l.steps| ::
              r.steps[i].id == l.steps[i].id && r.steps[i].message == l.steps[i].message
    ensures forall i | 0 <= i < |l.steps| :: l.steps[i].completed ==> r.steps[i].completed
    ensures forall i | 0 <= i < |l.steps| && i != l.index && i != l.index + 1 ::
              r.steps[i] == l.steps[i]
  {
    var n := |l.steps|;
    var done := if l.index < n
                then l.steps[l.index := l.steps[l.index].(active := false, completed := true)]
                else l.steps;
    var next := l.index + 1;
    var lit := if next < n then done[next := done[next].(active := true)] else done;
    Loader(lit, next)
  }

  /** A tick takes the state after `k` ticks to the state after `k + 1`. */
  lemma TickAdvances(l: Loader, messages: seq<string>, k: nat)
    requires After(l, messages, k)
    ensures After(Tick(l), messages, k + 1)
  {
    var r := Tick(l);
    forall i | 0 <= i < |r.steps|
      ensures r.steps[i] == Step(i, messages[i], i == k + 1, i < k + 1)
    {
      assert l.steps[i] == Step(i, messages[i], i == k, i < k);
    }
  }

  /** `k` ticks in a row. */
  function Ticks(l: Loader, k: nat): (r: Loader)
    ensures |r.steps| == |l.steps| && r.index == l.index + k
    decreases k
  {
    if k == 0 then l else Ticks(Tick(l), k - 1)
  }

  /** After `k` ticks from the start the list is in its `k`-th state. */
  lemma {:induction false} TicksReach(messages: seq<string>, k: nat)
    ensures After(Ticks(Init(messages), k), messages, k)
  {
    TicksFrom(Init(messages), messages, 0, k);
  }

  lemma {:induction false} TicksFrom(l: Loader, messages: seq<string>, j: nat, k: nat)
    requires After(l, messages, j)
    ensures After(Ticks(l, k), messages, j + k)
    decreases k
  {
    if k > 0 {
      TickAdvances(l, messages, j);
      TicksFrom(Tick(l), messages, j + 1, k - 1);
    }
  }

  /** In any state reached, at most one step is active. */
  lemma AtMostOneActive(l: Loader, messages: seq<string>, k: nat)
    requires After(l, messages, k)
    ensures forall i, j | 0 <= i < j < |l.steps| :: !(l.steps[i].active && l.steps[j].active)
  {
    forall i, j | 0 <= i < j < |l.steps| ensures !(l.steps[i].active && l.steps[j].active) {
      assert l.steps[i].active == (i == k);
      assert l.steps[j].active == (j == k);
    }
  }

  /** The timer is cleared right after the tick that moves the index to the end; with no
      messages at all it still fires once. */
  function TickCount(n: nat): (k: nat)
    ensures k >= n && k >= 1
    ensures n == 0 ==> k == 1
    ensures n > 0 ==> k == n
  {
    if n == 0 then 1 else n
  }

  /** The loader run to its end: every step completed, none active, ids and messages intact. */
  method Run(messages: seq<string>) returns (l: Loader, ticks: nat)
    ensures ticks == TickCount(|messages|)
    ensures |l.steps| == |messages| && l.index >= |messages|
    ensures forall i | 0 <= i < |l.steps| ::
              l.steps[i] == Step(i, messages[i], false, true)
  {
    l := Init(messages);
    ticks := 0;
    assert After(l, messages, 0);
    l := Tick(l);
    ticks := 1;
    TickAdvances(Init(messages), messages, 0);
    while l.index < |l.steps|
      invariant 1 <= ticks <= TickCount(|messages|)
      invariant After(l, messages, ticks)
      decreases |l.steps| - l.index
    {
      TickAdvances(l, messages, ticks);
      l := Tick(l);
      ticks := ticks + 1;
    }
  }

  /** Both languages list six steps, so a run takes six ticks. */
  lemma SixSteps()
    ensures TickCount(|English|) == 6 && TickCount(|Chinese|) == 6
  {
  }
}
