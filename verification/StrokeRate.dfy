/** The streaming stroke-rate estimator with its pruned, head-indexed history. */
module StrokeRate {
  import opened Wire
  import opened Strokes

  /**
    The history behind an estimator since its last reset: the samples it has seen, how many of
    their strokes have been pruned, and the largest time at which it has pruned.
   */
  datatype History = History(samples: seq<Sample>, dropped: nat, lastPrune: Option<int>)

  const FRESH := History([], 0, None)

  /** The first stroke from `k` on that is not before `cutoff`. */
  function PruneTo(s: seq<int>, k: nat, cutoff: int): (r: nat)
    requires k <= |s|
    ensures k <= r <= |s|
    ensures forall j :: k <= j < r ==> s[j] < cutoff
    ensures r < |s| ==> s[r] >= cutoff
    decreases |s| - k
  {
    if k < |s| && s[k] < cutoff then PruneTo(s, k + 1, cutoff) else k
  }

  function Later(o: Option<int>, t: int): Option<int> {
    if o.Some? && o.value >= t then o else Some(t)
  }

  function Pruned(h: History, now: int, cfg: Config): (r: History)
    requires h.dropped <= |StrokeTimes(h.samples, cfg)|
    ensures r.samples == h.samples && r.dropped <= |StrokeTimes(h.samples, cfg)|
  {
    History(
      h.samples,
      PruneTo(StrokeTimes(h.samples, cfg), h.dropped, now - cfg.window * 2),
      Later(h.lastPrune, now))
  }

  /** Whether the newest sample of the series completes a stroke. */
  predicate CompletesStroke(xs: seq<Sample>, cfg: Config) {
    |xs| >= 3 && IsPeak(xs, |xs| - 2, cfg) && ClearOfLast(xs, Accepted(xs, |xs| - 1, cfg), |xs| - 2, cfg)
  }

  function AfterSample(h: History, x: Sample, cfg: Config): (r: History)
    requires h.dropped <= |StrokeTimes(h.samples, cfg)|
    ensures r.samples == h.samples + [x] && r.dropped <= |StrokeTimes(r.samples, cfg)|
  {
    NewStrokes(h.samples, x, cfg);
    var longer := h.(samples := h.samples + [x]);
    if CompletesStroke(longer.samples, cfg) then Pruned(longer, x.t, cfg) else longer
  }

  /** What the estimator answers for `now`, after the pruning that the question itself causes. */
  function Answer(h: History, now: int, cfg: Config): real
    requires h.dropped <= |StrokeTimes(h.samples, cfg)|
  {
    var p := Pruned(h, now, cfg);
    RateOf(CountBack(StrokeTimes(p.samples, cfg)[p.dropped..], now - cfg.window), cfg.window)
  }

  /** One more sample adds at most one stroke, the one at the middle of the last three. */
  lemma NewStrokes(xs: seq<Sample>, x: Sample, cfg: Config)
    ensures var ys := xs + [x];
      StrokeTimes(ys, cfg)
      == if CompletesStroke(ys, cfg) then StrokeTimes(xs, cfg) + [xs[|xs| - 1].t] else StrokeTimes(xs, cfg)
  {
    hide IsPeak, ClearOfLast;
    AcceptedIsStable(xs, x, |xs|, cfg);
  }

  // ---------- all runs ----------

  datatype Op = Feed(x: Sample) | Ask(now: int) | Restart

  function Step(h: History, op: Op, cfg: Config): (r: History)
    requires h.dropped <= |StrokeTimes(h.samples, cfg)|
    ensures r.dropped <= |StrokeTimes(r.samples, cfg)|
  {
    match op
    case Feed(x) => AfterSample(h, x, cfg)
    case Ask(now) => Pruned(h, now, cfg)
    case Restart => FRESH
  }

  function RunOps(ops: seq<Op>, cfg: Config): (r: History)
    ensures r.dropped <= |StrokeTimes(r.samples, cfg)|
  {
    if ops == [] then FRESH else Step(RunOps(ops[..|ops| - 1], cfg), ops[|ops| - 1], cfg)
  }

  /** The first `dropped` of the strokes `s` were, at the latest pruning, at least two windows old. */
  ghost predicate OldAt(s: seq<int>, dropped: nat, lastPrune: Option<int>, window: int) {
    dropped == 0
    || (lastPrune.Some? && forall k :: 0 <= k < dropped && k < |s| ==> s[k] < lastPrune.value - window * 2)
  }

  ghost predicate PrunedAreOld(h: History, cfg: Config) {
    OldAt(StrokeTimes(h.samples, cfg), h.dropped, h.lastPrune, cfg.window)
  }

  lemma PrunedStayOld(h: History, now: int, cfg: Config)
    requires h.dropped <= |StrokeTimes(h.samples, cfg)| && PrunedAreOld(h, cfg)
    ensures PrunedAreOld(Pruned(h, now, cfg), cfg)
  {
    hide StrokeTimes;
  }

  lemma OldAppend(s: seq<int>, t: seq<int>, dropped: nat, lastPrune: Option<int>, window: int)
    requires dropped <= |s| && OldAt(s, dropped, lastPrune, window)
    ensures OldAt(s + t, dropped, lastPrune, window)
  {}

  lemma LongerStaysOld(h: History, x: Sample, cfg: Config)
    requires h.dropped <= |StrokeTimes(h.samples, cfg)| && PrunedAreOld(h, cfg)
    ensures PrunedAreOld(h.(samples := h.samples + [x]), cfg)
  {
    hide StrokeTimes, OldAt;
    NewStrokes(h.samples, x, cfg);
    if CompletesStroke(h.samples + [x], cfg) {
      OldAppend(StrokeTimes(h.samples, cfg), [h.samples[|h.samples| - 1].t], h.dropped, h.lastPrune, cfg.window);
    }
  }

  lemma {:induction false} PrunedAreAlwaysOld(ops: seq<Op>, cfg: Config)
    ensures PrunedAreOld(RunOps(ops, cfg), cfg)
    decreases |ops|
  {
    hide StrokeTimes, CompletesStroke, Pruned, PruneTo;
    if ops != [] {
      var h := RunOps(ops[..|ops| - 1], cfg);
      PrunedAreAlwaysOld(ops[..|ops| - 1], cfg);
      match ops[|ops| - 1]
      case Feed(x) =>
        NewStrokes(h.samples, x, cfg);
        var longer := h.(samples := h.samples + [x]);
        LongerStaysOld(h, x, cfg);
        PrunedStayOld(longer, x.t, cfg);
      case Ask(now) => PrunedStayOld(h, now, cfg);
      case Restart =>
    }
  }

  /** The rate computed from every stroke accepted since the last reset. */
  function FullRate(h: History, now: int, cfg: Config): real {
    RateOf(CountFrom(StrokeTimes(h.samples, cfg), now - cfg.window), cfg.window)
  }

  lemma StrokesAscend(xs: seq<Sample>, cfg: Config)
    requires cfg.gap >= 0
    ensures Ascending(StrokeTimes(xs, cfg))
  {
    hide Accepted;
    StrokesAreSpaced(xs, |xs|, cfg);
    AscendingWhenSpaced(StrokeTimes(xs, cfg), cfg.gap);
  }

  /** When all pruned strokes are old, an answer for a time at most one window before the latest pruning is right. */
  lemma AnswerAfterOldPruning(h: History, now: int, cfg: Config)
    requires cfg.gap >= 0 && cfg.window > 0
    requires h.dropped <= |StrokeTimes(h.samples, cfg)| && PrunedAreOld(h, cfg)
    requires h.lastPrune.Some? ==> now >= h.lastPrune.value - cfg.window
    ensures Answer(h, now, cfg) == FullRate(h, now, cfg)
  {
    hide StrokeTimes;
    StrokesAscend(h.samples, cfg);
    PrunedCountExact(StrokeTimes(h.samples, cfg), Pruned(h, now, cfg).dropped, now - cfg.window);
  }

  /**
    In every run, pruning never changes an answer for a time that is at most one window
    before the latest earlier pruning.
   */
  lemma AnswerIsFullRate(ops: seq<Op>, now: int, cfg: Config)
    requires cfg.gap >= 0 && cfg.window > 0
    requires var h := RunOps(ops, cfg); h.lastPrune.Some? ==> now >= h.lastPrune.value - cfg.window
    ensures Answer(RunOps(ops, cfg), now, cfg) == FullRate(RunOps(ops, cfg), now, cfg)
  {
    hide StrokeTimes, RunOps, Answer, FullRate;
    PrunedAreAlwaysOld(ops, cfg);
    AnswerAfterOldPruning(RunOps(ops, cfg), now, cfg);
  }

  /**
    When the answer is the rate of the window that ends at `now`: in any state and for any time, if
    and only if as many strokes of that window have been pruned as later strokes are counted.
   */
  lemma WindowRateExactly(h: History, now: int, cfg: Config)
    requires cfg.gap >= 0 && cfg.window > 0 && h.dropped <= |StrokeTimes(h.samples, cfg)|
    ensures var s := StrokeTimes(h.samples, cfg); var start := now - cfg.window;
      Answer(h, now, cfg) == RateOf(CountWithin(s, start, now), cfg.window)
      <==> CountWithin(s[..h.dropped], start, now) == CountFrom(s[h.dropped..], now + 1)
  {
    hide StrokeTimes, RateOf, CountBack, CountFrom, CountWithin;
    StrokesAscend(h.samples, cfg);
    var s := StrokeTimes(h.samples, cfg);
    var p := Pruned(h, now, cfg);
    var start := now - cfg.window;
    PruningBefore(s, h.dropped, p.dropped, start, now);
    PrunedWindowExact(s, p.dropped, start, now);
    if Answer(h, now, cfg) == RateOf(CountWithin(s, start, now), cfg.window) {
      RatesDiffer(CountBack(s[p.dropped..], start), CountWithin(s, start, now), cfg.window);
    }
  }

  /**
    In particular, for a time at most one window before the latest pruning nothing of the window has
    been pruned, so the answer is its rate exactly when no stroke is later than `now`.
   */
  lemma AnswerIsWindowRate(ops: seq<Op>, now: int, cfg: Config)
    requires cfg.gap >= 0 && cfg.window > 0
    requires var h := RunOps(ops, cfg); h.lastPrune.Some? ==> now >= h.lastPrune.value - cfg.window
    ensures var h := RunOps(ops, cfg); var s := StrokeTimes(h.samples, cfg);
      Answer(h, now, cfg) == RateOf(CountWithin(s, now - cfg.window, now), cfg.window)
      <==> forall k :: 0 <= k < |s| ==> s[k] <= now
  {
    hide StrokeTimes, RunOps, RateOf, CountFrom, CountWithin, Answer;
    var h := RunOps(ops, cfg);
    var s := StrokeTimes(h.samples, cfg);
    WindowRateExactly(h, now, cfg);
    PrunedAreAlwaysOld(ops, cfg);
    PruningBefore(s, 0, h.dropped, now - cfg.window, now);
    NothingWithin(now - cfg.window, now);
    assert s[..0] == [] && s[0..] == s;
    NoneFrom(s, now + 1);
  }

  lemma NothingWithin(start: int, now: int)
    ensures CountWithin([], start, now) == 0
  {}

  /** A question never counts more strokes than the gap allows up to the latest one, or up to `now`. */
  lemma QuestionCountsFew(ops: seq<Op>, now: int, end: int, cfg: Config)
    requires cfg.gap > 0 && cfg.window >= 0 && now <= end
    requires NoneAfter(StrokeTimes(RunOps(ops, cfg).samples, cfg), end)
    ensures var p := Pruned(RunOps(ops, cfg), now, cfg); var start := now - cfg.window;
      CountBack(StrokeTimes(p.samples, cfg)[p.dropped..], start) <= (end - start) / cfg.gap + 1
  {
    hide Accepted, RunOps, Pruned, CountBack, Spaced, NoneAfter;
    var h := RunOps(ops, cfg);
    var s := StrokeTimes(h.samples, cfg);
    StrokesAreSpaced(h.samples, |h.samples|, cfg);
    WindowHoldsFew(s, cfg.gap, Pruned(h, now, cfg).dropped, now - cfg.window, end);
  }

  lemma RatesDiffer(n: nat, m: nat, window: int)
    requires window > 0 && RateOf(n, window) == RateOf(m, window)
    ensures n == m
  {
    var w := window as real;
    assert n as real / w == m as real / w;
    assert (n as real / w) * w == n as real && (m as real / w) * w == m as real;
  }

  // ---------- what a rate is ----------

  /**
    The answer is a number per minute: times the window it is 60000 for every stroke that is not
    before the window.
   */
  lemma AnswerPerMinute(ops: seq<Op>, now: int, cfg: Config)
    requires cfg.gap >= 0 && cfg.window > 0
    requires var h := RunOps(ops, cfg); h.lastPrune.Some? ==> now >= h.lastPrune.value - cfg.window
    ensures var h := RunOps(ops, cfg);
      Answer(h, now, cfg) * (cfg.window as real)
      == 60000.0 * (|PositionsFrom(StrokeTimes(h.samples, cfg), now - cfg.window)| as real)
  {
    hide StrokeTimes, RunOps, Answer, CountFrom, PositionsFrom;
    AnswerIsFullRate(ops, now, cfg);
    var s := StrokeTimes(RunOps(ops, cfg).samples, cfg);
    CountFromIsSize(s, now - cfg.window);
    RateTimesWindow(CountFrom(s, now - cfg.window), cfg.window);
  }

  lemma RateTimesWindow(n: nat, window: int)
    requires window > 0
    ensures RateOf(n, window) * (window as real) == 60000.0 * (n as real)
  {
    var w := window as real;
    assert (n as real / w) * w == n as real;
  }

  /** Strokes every `d` milliseconds are answered with 60000 / d per minute, if the window is `n` gaps long. */
  lemma EvenStrokesRate(ops: seq<Op>, now: int, cfg: Config, d: int, n: nat)
    requires cfg.gap >= 0 && d > 0 && n > 0 && cfg.window == n * d
    requires var h := RunOps(ops, cfg); h.lastPrune.Some? ==> now >= h.lastPrune.value - cfg.window
    requires var s := StrokeTimes(RunOps(ops, cfg).samples, cfg);
      Evenly(s, d) && n <= |s| && 0 < now - s[|s| - 1] <= d
    ensures Answer(RunOps(ops, cfg), now, cfg) == 60000.0 / (d as real)
  {
    hide StrokeTimes, RunOps, Answer, CountFrom, Evenly;
    AnswerIsFullRate(ops, now, cfg);
    EvenCount(StrokeTimes(RunOps(ops, cfg).samples, cfg), d, n, now);
    assert n * d > 0 by { MultiplyMonotone(1, n, d); }
    EvenRate(n, d);
  }

  lemma EvenRate(n: nat, d: int)
    requires n > 0 && d > 0 && n * d > 0
    ensures RateOf(n, n * d) == 60000.0 / (d as real)
  {
    hide RateOf;
    var r := RateOf(n, n * d);
    RateTimesWindow(n, n * d);
    assert (n * d) as real == (n as real) * (d as real);
    CancelFactor(r, n as real, d as real, 60000.0);
  }

  lemma CancelFactor(r: real, x: real, y: real, z: real)
    requires x > 0.0 && y > 0.0 && r * (x * y) == z * x
    ensures r == z / y
  {
    assert (r * y - z) * x == 0.0;
    assert r * y == z;
  }

  /** A window of no length has rate 0. */
  lemma NoWindowNoRate(h: History, now: int, cfg: Config)
    requires h.dropped <= |StrokeTimes(h.samples, cfg)| && cfg.window <= 0
    ensures Answer(h, now, cfg) == 0.0
  {
    hide StrokeTimes, Pruned, CountBack;
  }

  // ---------- the remaining cases ----------

  /** Without that condition: the answer is right exactly when the last pruned stroke is before the window. */
  lemma AnswerExact(h: History, now: int, cfg: Config)
    requires cfg.gap >= 0 && cfg.window > 0 && h.dropped <= |StrokeTimes(h.samples, cfg)|
    ensures var s := StrokeTimes(h.samples, cfg);
      Answer(h, now, cfg) == FullRate(h, now, cfg)
      <==> h.dropped == 0 || s[h.dropped - 1] < now - cfg.window
  {
    hide StrokeTimes, RateOf, CountBack, CountFrom;
    StrokesAscend(h.samples, cfg);
    var s := StrokeTimes(h.samples, cfg);
    var p := Pruned(h, now, cfg);
    var start := now - cfg.window;
    PrunedCountExact(s, p.dropped, start);
    if Answer(h, now, cfg) == FullRate(h, now, cfg) {
      RatesDiffer(CountBack(s[p.dropped..], start), CountFrom(s, start), cfg.window);
    }
    if p.dropped > h.dropped {
      assert s[p.dropped - 1] < now - cfg.window * 2;
      if h.dropped > 0 {
        assert s[h.dropped - 1] <= s[p.dropped - 1];
      }
    }
  }

  /** The example: one stroke at time 1, a question at 100 that prunes it, and a question at 5. */
  function LateThenEarly(): seq<Op> {
    [Feed(Sample(0, 0.0)), Feed(Sample(1, 5.0)), Feed(Sample(2, 0.0)), Ask(100)]
  }

  lemma OneStroke(cfg: Config)
    requires cfg == Config(1.0, 0, 10)
    ensures StrokeTimes([Sample(0, 0.0)], cfg) == [] && StrokeTimes([Sample(0, 0.0), Sample(1, 5.0)], cfg) == []
    ensures StrokeTimes([Sample(0, 0.0), Sample(1, 5.0), Sample(2, 0.0)], cfg) == [1]
    ensures CompletesStroke([Sample(0, 0.0), Sample(1, 5.0), Sample(2, 0.0)], cfg)
  {
    var xs := [Sample(0, 0.0), Sample(1, 5.0), Sample(2, 0.0)];
    assert Accepted(xs, 2, cfg) == [];
    assert IsPeak(xs, 1, cfg);
    assert Accepted(xs, 3, cfg) == [1];
  }

  lemma OneStrokeRun(cfg: Config)
    requires cfg == Config(1.0, 0, 10)
    ensures var h := RunOps(LateThenEarly()[..3], cfg);
      StrokeTimes(h.samples, cfg) == [1] && h.dropped == 0 && h.lastPrune == Some(2)
  {
    hide StrokeTimes, CompletesStroke;
    OneStroke(cfg);
    var ops := LateThenEarly();
    var a, b, c := Sample(0, 0.0), Sample(1, 5.0), Sample(2, 0.0);
    assert ops[..1] == [Feed(a)] && ops[..2] == [Feed(a), Feed(b)] && ops[..3] == [Feed(a), Feed(b), Feed(c)];
    assert ops[..1][..0] == [] && ops[..2][..1] == ops[..1] && ops[..3][..2] == ops[..2];
    assert [] + [a] == [a] && [a] + [b] == [a, b] && [a, b] + [c] == [a, b, c];
    TwoSamples([a], cfg);
    TwoSamples([a, b], cfg);
    assert RunOps([], cfg) == FRESH;
    assert RunOps(ops[..1], cfg) == History([a], 0, None);
    assert RunOps(ops[..2], cfg) == History([a, b], 0, None);
    assert RunOps(ops[..3], cfg) == History([a, b, c], 0, Some(2));
  }

  /** Asking about an early time after a late one can miss strokes: here one of one. */
  lemma EarlyQuestionUndercounts()
    ensures var cfg := Config(1.0, 0, 10); var h := RunOps(LateThenEarly(), cfg);
      && CountFrom(StrokeTimes(h.samples, cfg), 5 - cfg.window) == 1
      && Answer(h, 5, cfg) == 0.0 && FullRate(h, 5, cfg) != 0.0
  {
    hide StrokeTimes, CompletesStroke;
    var cfg := Config(1.0, 0, 10);
    var ops := LateThenEarly();
    OneStrokeRun(cfg);
    assert ops[..4] == ops && ops[..4][..3] == ops[..3];
    assert RunOps(ops, cfg) == Pruned(RunOps(ops[..3], cfg), 100, cfg);
  }

  /** A stroke later than the asked time is counted: the first three samples, and a question for time 0. */
  lemma LaterStrokeIsCounted()
    ensures var cfg := Config(1.0, 0, 10); var ops := LateThenEarly()[..3]; var h := RunOps(ops, cfg);
      var s := StrokeTimes(h.samples, cfg);
      && h.lastPrune.Some? && 0 >= h.lastPrune.value - cfg.window
      && s == [1] && CountWithin(s, 0 - cfg.window, 0) == 0
      && Answer(h, 0, cfg) == FullRate(h, 0, cfg) != RateOf(CountWithin(s, 0 - cfg.window, 0), cfg.window)
  {
    hide StrokeTimes, RunOps, RateOf, Answer;
    var cfg := Config(1.0, 0, 10);
    OneStrokeRun(cfg);
    AnswerIsFullRate(LateThenEarly()[..3], 0, cfg);
    AnswerIsWindowRate(LateThenEarly()[..3], 0, cfg);
    assert CountWithin([1], -10, 0) == 0 + CountWithin([], -10, 0);
  }

  lemma TwoSamples(xs: seq<Sample>, cfg: Config)
    requires |xs| < 3
    ensures !CompletesStroke(xs, cfg)
  {}

  // ---------- what is kept ----------

  /** After a pruning at `now`, exactly the strokes of the last two windows are kept. */
  lemma PruningKeepsTwoWindows(h: History, now: int, cfg: Config, k: nat)
    requires cfg.gap >= 0 && h.dropped <= k < |StrokeTimes(h.samples, cfg)|
    ensures k >= Pruned(h, now, cfg).dropped <==> StrokeTimes(h.samples, cfg)[k] >= now - 2 * cfg.window
  {
    hide StrokeTimes;
    StrokesAscend(h.samples, cfg);
  }

  /** How many strokes two windows can hold. */
  function TwoWindows(cfg: Config): int
    requires cfg.gap > 0
  {
    cfg.window * 2 / cfg.gap + 1
  }

  /** A stroke is completed by a later sample, so none is later than the newest sample. */
  lemma StrokesArePast(xs: seq<Sample>, cfg: Config)
    requires NondecreasingTimes(xs) && xs != []
    ensures NoneAfter(StrokeTimes(xs, cfg), xs[|xs| - 1].t)
  {
    hide Accepted;
    var a := Accepted(xs, |xs|, cfg);
    forall k | 0 <= k < |a|
      ensures StrokeTimes(xs, cfg)[k] <= xs[|xs| - 1].t
    {
      assert a[k] < |xs| - 1;
    }
  }

  lemma LiveAreFew(h: History, x: Sample, cfg: Config)
    requires cfg.gap > 0 && cfg.window >= 0 && h.dropped <= |StrokeTimes(h.samples, cfg)|
    requires NondecreasingTimes(h.samples) && h.samples != [] && h.samples[|h.samples| - 1] == x
    ensures |StrokeTimes(h.samples, cfg)| - Pruned(h, x.t, cfg).dropped <= TwoWindows(cfg)
  {
    hide StrokeTimes, Pruned, CountBack, CountFrom, NoneAfter, NondecreasingTimes, Spaced, Ascending;
    var s := StrokeTimes(h.samples, cfg);
    var start := x.t - cfg.window * 2;
    var d := Pruned(h, x.t, cfg).dropped;
    StrokesArePast(h.samples, cfg);
    StrokesSpaced(h.samples, cfg);
    WindowHoldsFew(s, cfg.gap, d, start, x.t);
    forall k | 0 <= k < |s[d..]|
      ensures s[d..][k] >= start
    {
      PrunedBefore(h, x.t, cfg);
      PruningKeepsTwoWindows(h, x.t, cfg, d + k);
    }
    AllFrom(s[d..], start);
    AscendingWhenSpaced(s, cfg.gap);
    AscendingTail(s, d);
    CountBackIsCount(s[d..], start);
  }

  lemma PrunedBefore(h: History, now: int, cfg: Config)
    requires h.dropped <= |StrokeTimes(h.samples, cfg)|
    ensures h.dropped <= Pruned(h, now, cfg).dropped
  {}

  lemma StrokesSpaced(xs: seq<Sample>, cfg: Config)
    ensures Spaced(StrokeTimes(xs, cfg), cfg.gap)
  {
    hide Accepted, Spaced;
    StrokesAreSpaced(xs, |xs|, cfg);
  }

  lemma AscendingTail(s: seq<int>, d: nat)
    requires Ascending(s) && d <= |s|
    ensures Ascending(s[d..])
  {}

  /** In every run with samples in order, an estimator never has more live strokes than two windows hold. */
  lemma {:induction false} HistoryIsBounded(ops: seq<Op>, cfg: Config)
    requires cfg.gap > 0 && cfg.window >= 0 && NondecreasingTimes(RunOps(ops, cfg).samples)
    ensures var h := RunOps(ops, cfg); |StrokeTimes(h.samples, cfg)| - h.dropped <= TwoWindows(cfg)
    decreases |ops|
  {
    hide StrokeTimes, CompletesStroke, Pruned, NondecreasingTimes;
    if ops == [] {
      NothingStored(cfg);
    } else {
      var before, op := ops[..|ops| - 1], ops[|ops| - 1];
      var h := RunOps(before, cfg);
      match op
      case Feed(x) =>
        var longer := h.(samples := h.samples + [x]);
        TimesBefore(h.samples, x);
        HistoryIsBounded(before, cfg);
        NewStrokes(h.samples, x, cfg);
        LiveAreFew(longer, x, cfg);
      case Ask(now) =>
        HistoryIsBounded(before, cfg);
        PrunedBefore(h, now, cfg);
      case Restart =>
        NothingStored(cfg);
    }
  }

  lemma NothingStored(cfg: Config)
    requires cfg.gap > 0 && cfg.window >= 0
    ensures StrokeTimes([], cfg) == [] && TwoWindows(cfg) >= 0
  {}

  lemma TimesBefore(xs: seq<Sample>, x: Sample)
    requires NondecreasingTimes(xs + [x])
    ensures NondecreasingTimes(xs)
  {
    forall i, j | 0 <= i <= j < |xs|
      ensures xs[i].t <= xs[j].t
    {
      assert (xs + [x])[i].t <= (xs + [x])[j].t;
    }
  }

  // ---------- the class ----------

  function LastThree(xs: seq<Sample>): seq<Sample> {
    if |xs| <= 3 then xs else xs[|xs| - 3..]
  }

  /** The fields of an estimator stand for the history `h`. */
  ghost predicate Represents(
    lastPeakT: Option<int>, strokeTimes: seq<int>, strokeHead: nat, removed: nat, h: History, cfg: Config)
  {
    var s := StrokeTimes(h.samples, cfg);
    && h.dropped <= |s|
    && lastPeakT == (if s == [] then None else Some(s[|s| - 1]))
    && strokeHead <= |strokeTimes|
    && strokeTimes[strokeHead..] == s[h.dropped..]
    && removed + strokeHead == h.dropped
  }

  /** An accepted stroke is appended, and remembered as the last peak. */
  lemma StrokeAppended(
    lastPeakT: Option<int>, strokeTimes: seq<int>, strokeHead: nat, removed: nat, h: History, x: Sample, cfg: Config)
    requires Represents(lastPeakT, strokeTimes, strokeHead, removed, h, cfg)
    requires CompletesStroke(h.samples + [x], cfg)
    ensures var t := h.samples[|h.samples| - 1].t;
      Represents(Some(t), strokeTimes + [t], strokeHead, removed, h.(samples := h.samples + [x]), cfg)
  {
    hide StrokeTimes;
    NewStrokes(h.samples, x, cfg);
    var s := StrokeTimes(h.samples, cfg);
    var t := h.samples[|h.samples| - 1].t;
    assert (strokeTimes + [t])[strokeHead..] == strokeTimes[strokeHead..] + [t];
    assert (s + [t])[h.dropped..] == s[h.dropped..] + [t];
  }

  lemma NothingAppended(
    lastPeakT: Option<int>, strokeTimes: seq<int>, strokeHead: nat, removed: nat, h: History, x: Sample, cfg: Config)
    requires Represents(lastPeakT, strokeTimes, strokeHead, removed, h, cfg)
    requires !CompletesStroke(h.samples + [x], cfg)
    ensures Represents(lastPeakT, strokeTimes, strokeHead, removed, h.(samples := h.samples + [x]), cfg)
  {
    hide StrokeTimes, CompletesStroke;
    NewStrokes(h.samples, x, cfg);
  }

  lemma PeakInMiddle(ys: seq<Sample>, cfg: Config)
    requires |ys| >= 3
    ensures var b := LastThree(ys);
      && |b| == 3 && b[1] == ys[|ys| - 2]
      && (IsPeak(ys, |ys| - 2, cfg) <==> b[0].v < b[1].v && b[1].v > b[2].v && b[1].v >= cfg.threshold)
  {}

  /** The time kept as the last peak decides the refractory test. */
  lemma ClearByTime(xs: seq<Sample>, x: Sample, cfg: Config)
    requires |xs| >= 2
    ensures var ys := xs + [x]; var s := StrokeTimes(xs, cfg); var b := xs[|xs| - 1];
      ClearOfLast(ys, Accepted(ys, |ys| - 1, cfg), |ys| - 2, cfg)
      <==> s == [] || b.t - s[|s| - 1] >= cfg.gap
  {
    AcceptedIsStable(xs, x, |xs|, cfg);
  }

  /** The comparisons of the code decide whether the newest sample completes a stroke. */
  lemma StrokeTest(
    lastPeakT: Option<int>, strokeTimes: seq<int>, strokeHead: nat, removed: nat, h: History, x: Sample, cfg: Config)
    requires Represents(lastPeakT, strokeTimes, strokeHead, removed, h, cfg)
    requires |h.samples| >= 2
    ensures var ys := h.samples + [x]; var b := LastThree(ys);
      && |b| == 3 && b[1] == h.samples[|h.samples| - 1]
      && (CompletesStroke(ys, cfg)
          <==> b[0].v < b[1].v && b[1].v > b[2].v && b[1].v >= cfg.threshold
               && (lastPeakT == None || b[1].t - lastPeakT.value >= cfg.gap))
  {
    hide StrokeTimes, LastThree, IsPeak, ClearOfLast, Accepted;
    PeakInMiddle(h.samples + [x], cfg);
    ClearByTime(h.samples, x, cfg);
  }

  lemma LastThreeSlides(xs: seq<Sample>, x: Sample)
    ensures var b := LastThree(xs) + [x]; LastThree(xs + [x]) == if |b| > 3 then b[1..] else b
  {}

  /** The code's test on the last three samples. */
  predicate PassesTest(b: seq<Sample>, lastPeakT: Option<int>, cfg: Config) {
    && |b| == 3
    && b[0].v < b[1].v && b[1].v > b[2].v && b[1].v >= cfg.threshold
    && (lastPeakT == None || b[1].t - lastPeakT.value >= cfg.gap)
  }

  /** What one more sample means for the fields of an estimator. */
  lemma SampleArrives(
    buf: seq<Sample>, lastPeakT: Option<int>, strokeTimes: seq<int>, strokeHead: nat, removed: nat, h: History,
    x: Sample, cfg: Config)
    requires Represents(lastPeakT, strokeTimes, strokeHead, removed, h, cfg) && buf == LastThree(h.samples)
    ensures h.dropped <= |StrokeTimes(h.samples, cfg)| <= |StrokeTimes(h.samples + [x], cfg)|
    ensures var longer := h.(samples := h.samples + [x]);
      var b := if |buf| + 1 > 3 then (buf + [x])[1..] else buf + [x];
      && b == LastThree(longer.samples) && |b| <= 3
      && (CompletesStroke(longer.samples, cfg) <==> PassesTest(b, lastPeakT, cfg))
      && (if PassesTest(b, lastPeakT, cfg)
          then && Represents(Some(b[1].t), strokeTimes + [b[1].t], strokeHead, removed, longer, cfg)
               && AfterSample(h, x, cfg) == Pruned(longer, x.t, cfg)
          else && Represents(lastPeakT, strokeTimes, strokeHead, removed, longer, cfg)
               && AfterSample(h, x, cfg) == longer)
  {
    NewStrokes(h.samples, x, cfg);
    LastThreeSlides(h.samples, x);
    TestIsRight(lastPeakT, strokeTimes, strokeHead, removed, h, x, cfg);
    hide StrokeTimes, Pruned, CompletesStroke, LastThree;
    if CompletesStroke(h.samples + [x], cfg) {
      StrokeAppended(lastPeakT, strokeTimes, strokeHead, removed, h, x, cfg);
    } else {
      NothingAppended(lastPeakT, strokeTimes, strokeHead, removed, h, x, cfg);
    }
    hide Represents;
  }

  lemma TestIsRight(
    lastPeakT: Option<int>, strokeTimes: seq<int>, strokeHead: nat, removed: nat, h: History, x: Sample, cfg: Config)
    requires Represents(lastPeakT, strokeTimes, strokeHead, removed, h, cfg)
    ensures var b := LastThree(h.samples + [x]);
      && (CompletesStroke(h.samples + [x], cfg) <==> PassesTest(b, lastPeakT, cfg))
      && (PassesTest(b, lastPeakT, cfg) ==> h.samples != [] && b[1] == h.samples[|h.samples| - 1])
  {
    hide Represents, CompletesStroke;
    if |h.samples| >= 2 {
      StrokeTest(lastPeakT, strokeTimes, strokeHead, removed, h, x, cfg);
    } else {
      TooFew(h.samples + [x], cfg);
    }
  }

  /**
    What a stroke is: the sample before the newest one rises above both its neighbours and reaches
    the threshold, and the last stroke is at least the gap before it.
   */
  lemma StrokeMeans(xs: seq<Sample>, x: Sample, cfg: Config)
    ensures var n := |xs|; var s := StrokeTimes(xs, cfg);
      CompletesStroke(xs + [x], cfg)
      <==> && n >= 2 && xs[n - 2].v < xs[n - 1].v && xs[n - 1].v > x.v && xs[n - 1].v >= cfg.threshold
           && (s == [] || xs[n - 1].t - s[|s| - 1] >= cfg.gap)
  {
    hide StrokeTimes, ClearOfLast, Accepted;
    if |xs| >= 2 {
      ClearByTime(xs, x, cfg);
    }
  }

  lemma HeadAdvanced(
    lastPeakT: Option<int>, strokeTimes: seq<int>, strokeHead: nat, removed: nat, h: History, now: int, cfg: Config)
    requires Represents(lastPeakT, strokeTimes, strokeHead, removed, h, cfg)
    ensures h.dropped <= |StrokeTimes(h.samples, cfg)| && strokeHead <= |strokeTimes|
    ensures Represents(
      lastPeakT, strokeTimes, PruneTo(strokeTimes, strokeHead, now - cfg.window * 2), removed, Pruned(h, now, cfg), cfg)
  {
    hide StrokeTimes, PruneTo, Later;
    var s := StrokeTimes(h.samples, cfg);
    var cutoff := now - cfg.window * 2;
    SameAdvance(strokeTimes, strokeHead, s, h.dropped, cutoff);
    var p := Pruned(h, now, cfg);
    assert p.samples == h.samples && p.dropped == PruneTo(s, h.dropped, cutoff);
    hide Pruned;
    var k := PruneTo(strokeTimes, strokeHead, cutoff);
    assert strokeTimes[k..] == s[p.dropped..];
    assert removed + k == p.dropped;
  }

  lemma HistorySpliced(
    lastPeakT: Option<int>, strokeTimes: seq<int>, strokeHead: nat, removed: nat, h: History, cfg: Config)
    requires Represents(lastPeakT, strokeTimes, strokeHead, removed, h, cfg)
    ensures strokeHead <= |strokeTimes|
    ensures Represents(lastPeakT, strokeTimes[strokeHead..], 0, removed + strokeHead, h, cfg)
  {
    hide StrokeTimes;
  }

  class StrokeRateEstimator {
    const cfg: Config
    /** The last three samples. */
    var buf: seq<Sample>
    /** The time of the last stroke; none stands for minus infinity. */
    var lastPeakT: Option<int>
    var strokeTimes: seq<int>
    var strokeHead: nat

    ghost var history: History
    /** Elements moved by splices, and elements removed by them, since the last reset. */
    ghost var shifted: nat
    ghost var removed: nat

    /** The fields stand for the history, and splicing has moved no more elements than it removed. */
    ghost predicate Valid()
      reads this
    {
      && Represents(lastPeakT, strokeTimes, strokeHead, removed, history, cfg)
      && buf == LastThree(history.samples)
      && shifted <= removed
    }

    /** Less than half of the stored history is stale. */
    ghost predicate Compact()
      reads this
    {
      strokeHead == 0 || 2 * strokeHead < |strokeTimes|
    }

    constructor (cfg: Config)
      ensures Valid() && Compact() && this.cfg == cfg && history == FRESH
    {
      this.cfg := cfg;
      buf := [];
      lastPeakT := None;
      strokeTimes := [];
      strokeHead := 0;
      history := FRESH;
      shifted, removed := 0, 0;
    }

    method PushSample(tMs: int, value: real) returns (stroke: bool)
      requires Valid() && Compact()
      modifies this
      ensures Valid() && Compact()
      ensures history == AfterSample(old(history), Sample(tMs, value), cfg)
      ensures stroke == CompletesStroke(history.samples, cfg)
    {
      hide Represents, CompletesStroke, Pruned, StrokeTimes, AfterSample, LastThree;
      ghost var longer := history.(samples := history.samples + [Sample(tMs, value)]);
      SampleArrives(buf, lastPeakT, strokeTimes, strokeHead, removed, history, Sample(tMs, value), cfg);
      buf := buf + [Sample(tMs, value)];
      if |buf| > 3 {
        buf := buf[1..];
      }
      if |buf| < 3 {
        history := longer;
        return false;
      }
      var a, b, c := buf[0], buf[1], buf[2];
      if a.v < b.v && b.v > c.v && b.v >= cfg.threshold {
        if lastPeakT == None || b.t - lastPeakT.value >= cfg.gap {
          lastPeakT := Some(b.t);
          strokeTimes := strokeTimes + [b.t];
          history := longer;
          PruneOldStrokes(tMs);
          return true;
        }
      }
      history := longer;
      return false;
    }

    method SpmAt(nowMs: int) returns (spm: real)
      requires Valid() && Compact()
      modifies this`strokeTimes, this`strokeHead, this`history, this`shifted, this`removed
      ensures Valid() && Compact()
      ensures history == Pruned(old(history), nowMs, cfg)
      ensures spm == Answer(old(history), nowMs, cfg)
    {
      hide StrokeTimes, Pruned;
      PruneOldStrokes(nowMs);
      var n := CountInWindow(nowMs - cfg.window);
      if cfg.window <= 0 {
        return 0.0;
      }
      spm := (n as real / cfg.window as real) * 60000.0;
    }

    /** The counting loop of `SpmAt`, from the newest stroke backwards. */
    method CountInWindow(start: int) returns (n: nat)
      requires strokeHead <= |strokeTimes|
      ensures n == CountBack(strokeTimes[strokeHead..], start)
    {
      n := 0;
      var i := |strokeTimes| - 1;
      ghost var live := strokeTimes[strokeHead..];
      assert live[..i + 1 - strokeHead] == live;
      while i >= strokeHead
        invariant strokeHead - 1 <= i < |strokeTimes|
        invariant CountBack(live, start) == n + CountBack(live[..i + 1 - strokeHead], start)
        decreases i
      {
        var t := strokeTimes[i];
        assert live[..i + 1 - strokeHead][i - strokeHead] == t;
        if t < start {
          break;
        }
        n := n + 1;
        assert live[..i + 1 - strokeHead][..i - strokeHead] == live[..i - strokeHead];
        i := i - 1;
      }
    }

    method Reset()
      modifies this
      ensures Valid() && Compact() && history == FRESH
    {
      buf := [];
      lastPeakT := None;
      strokeTimes := [];
      strokeHead := 0;
      history := FRESH;
      shifted, removed := 0, 0;
    }

    method PruneOldStrokes(nowMs: int)
      requires Valid()
      modifies this`strokeTimes, this`strokeHead, this`history, this`shifted, this`removed
      ensures Valid() && Compact()
      ensures history == Pruned(old(history), nowMs, cfg)
    {
      hide Represents, Pruned, PruneTo, LastThree;
      var cutoff := nowMs - cfg.window * 2;
      HeadAdvanced(lastPeakT, strokeTimes, strokeHead, removed, history, nowMs, cfg);
      HistorySpliced(lastPeakT, strokeTimes, strokeHead, removed, history, cfg);
      strokeHead := AdvanceHead(strokeTimes, strokeHead, cutoff);
      history := Pruned(history, nowMs, cfg);
      HistorySpliced(lastPeakT, strokeTimes, strokeHead, removed, history, cfg);
      if strokeHead > 0 && strokeHead * 2 >= |strokeTimes| {
        shifted := shifted + (|strokeTimes| - strokeHead);
        removed := removed + strokeHead;
        strokeTimes := strokeTimes[strokeHead..];
        strokeHead := 0;
      }
    }

    /** The stored history, stale part included, is less than twice what two windows hold. */
    lemma StoreIsBounded(ops: seq<Op>)
      requires Valid() && Compact() && history == RunOps(ops, cfg)
      requires cfg.gap > 0 && cfg.window >= 0 && NondecreasingTimes(history.samples)
      ensures |strokeTimes| <= 2 * TwoWindows(cfg)
    {
      hide StrokeTimes, RunOps, NondecreasingTimes, TwoWindows;
      HistoryIsBounded(ops, cfg);
      assert |strokeTimes[strokeHead..]| == |StrokeTimes(history.samples, cfg)| - history.dropped;
      TwoWindowsPositive(cfg);
    }
  }

  lemma TwoWindowsPositive(cfg: Config)
    requires cfg.gap > 0 && cfg.window >= 0
    ensures TwoWindows(cfg) >= 1
  {}

  /** The head loop of `PruneOldStrokes`. */
  method AdvanceHead(strokeTimes: seq<int>, head: nat, cutoff: int) returns (strokeHead: nat)
    requires head <= |strokeTimes|
    ensures strokeHead == PruneTo(strokeTimes, head, cutoff)
  {
    strokeHead := head;
    while strokeHead < |strokeTimes| && strokeTimes[strokeHead] < cutoff
      invariant strokeHead <= |strokeTimes|
      invariant PruneTo(strokeTimes, strokeHead, cutoff) == PruneTo(strokeTimes, head, cutoff)
    {
      strokeHead := strokeHead + 1;
    }
  }

  /** The head moves over the stored strokes exactly as the pruning moves over all strokes. */
  lemma {:induction false} SameAdvance(a: seq<int>, i: nat, s: seq<int>, k: nat, cutoff: int)
    requires i <= |a| && k <= |s| && a[i..] == s[k..]
    ensures PruneTo(a, i, cutoff) - i == PruneTo(s, k, cutoff) - k
    ensures a[PruneTo(a, i, cutoff)..] == s[PruneTo(s, k, cutoff)..]
    decreases |a| - i
  {
    if i < |a| {
      HeadsAgree(a, i, s, k);
      SameAdvance(a, i + 1, s, k + 1, cutoff);
    }
  }

  lemma HeadsAgree(a: seq<int>, i: nat, s: seq<int>, k: nat)
    requires i < |a| && k <= |s| && a[i..] == s[k..]
    ensures k < |s| && a[i] == s[k] && a[i + 1..] == s[k + 1..]
  {
    assert a[i] == a[i..][0];
    assert a[i + 1..] == a[i..][1..];
    assert s[k + 1..] == s[k..][1..];
  }

  lemma TooFew(ys: seq<Sample>, cfg: Config)
    requires |LastThree(ys)| < 3
    ensures !CompletesStroke(ys, cfg)
  {}
}
