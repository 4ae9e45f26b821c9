/**
  The stroke detector as functions on the whole sample series: which peaks are strokes,
  how the history of strokes is pruned, and what the rate should be.
 */
module Strokes {
  datatype Sample = Sample(t: int, v: real)

  /** Threshold of a peak, refractory gap and rate window; any numbers. */
  datatype Config = Config(threshold: real, gap: int, window: int)

  /** Sample `i` is a strict local maximum at or above the threshold. */
  predicate IsPeak(xs: seq<Sample>, i: int, cfg: Config) {
    0 < i < |xs| - 1 && xs[i - 1].v < xs[i].v && xs[i].v > xs[i + 1].v && xs[i].v >= cfg.threshold
  }

  /** `i` comes at least the gap after the last of the strokes `a`. */
  predicate ClearOfLast(xs: seq<Sample>, a: seq<nat>, i: nat, cfg: Config)
    requires i < |xs| && forall k :: 0 <= k < |a| ==> a[k] < |xs|
  {
    a == [] || xs[i].t - xs[a[|a| - 1]].t >= cfg.gap
  }

  /** The positions of the strokes that are known once the first `n` samples have been seen. */
  function Accepted(xs: seq<Sample>, n: nat, cfg: Config): (a: seq<nat>)
    requires n <= |xs|
    ensures forall k :: 0 <= k < |a| ==> a[k] < n - 1
  {
    if n < 3 then []
    else
      var a := Accepted(xs, n - 1, cfg);
      if IsPeak(xs, n - 2, cfg) && ClearOfLast(xs, a, n - 2, cfg) then a + [n - 2] else a
  }

  function Times(xs: seq<Sample>, a: seq<nat>): (s: seq<int>)
    requires forall k :: 0 <= k < |a| ==> a[k] < |xs|
    ensures |s| == |a| && forall k :: 0 <= k < |a| ==> s[k] == xs[a[k]].t
  {
    seq(|a|, k requires 0 <= k < |a| => xs[a[k]].t)
  }

  /** The times of all strokes of a series. */
  function StrokeTimes(xs: seq<Sample>, cfg: Config): seq<int> {
    Times(xs, Accepted(xs, |xs|, cfg))
  }

  /** Later samples do not change what has been accepted. */
  lemma {:induction false} AcceptedIsStable(xs: seq<Sample>, x: Sample, n: nat, cfg: Config)
    requires n <= |xs|
    ensures Accepted(xs + [x], n, cfg) == Accepted(xs, n, cfg)
  {
    if n >= 3 {
      AcceptedIsStable(xs, x, n - 1, cfg);
    }
  }

  // ---------- gaps between strokes ----------

  ghost predicate Spaced(s: seq<int>, gap: int) {
    forall k :: 0 < k < |s| ==> s[k] - s[k - 1] >= gap
  }

  lemma {:induction false} StrokesAreSpaced(xs: seq<Sample>, n: nat, cfg: Config)
    requires n <= |xs|
    ensures Spaced(Times(xs, Accepted(xs, n, cfg)), cfg.gap)
  {
    if n >= 3 {
      StrokesAreSpaced(xs, n - 1, cfg);
    }
  }

  lemma {:induction false} SpacedApart(s: seq<int>, gap: int, k: nat, m: nat)
    requires Spaced(s, gap) && k <= m < |s|
    ensures s[m] - s[k] >= (m - k) * gap
    decreases m
  {
    if k < m {
      SpacedApart(s, gap, k, m - 1);
      assert (m - k) * gap == (m - 1 - k) * gap + gap;
    }
  }

  ghost predicate Ascending(s: seq<int>) {
    forall k, m :: 0 <= k <= m < |s| ==> s[k] <= s[m]
  }

  lemma AscendingWhenSpaced(s: seq<int>, gap: int)
    requires Spaced(s, gap) && gap >= 0
    ensures Ascending(s)
  {
    forall k, m | 0 <= k <= m < |s|
      ensures s[k] <= s[m]
    {
      SpacedApart(s, gap, k, m);
      ProductNotNegative(m - k, gap);
    }
  }

  lemma ProductNotNegative(a: int, b: int)
    requires a >= 0 && b >= 0
    ensures a * b >= 0
  {}

  // ---------- which strokes the detector picks ----------

  /** Position `i` keeps the gap to every earlier member of `picks`. */
  ghost predicate ClearOfAll(xs: seq<Sample>, picks: set<nat>, i: nat, cfg: Config)
    requires i < |xs| && forall j :: j in picks ==> j < |xs|
  {
    forall j :: j in picks && j < i ==> xs[i].t - xs[j].t >= cfg.gap
  }

  /**
    `picks` are the peaks among the first `n` samples taken earliest first: a peak belongs to them
    if and only if it keeps the gap to all earlier members.
   */
  ghost predicate EarliestFirst(xs: seq<Sample>, n: nat, picks: set<nat>, cfg: Config)
    requires n <= |xs|
  {
    && (forall j :: j in picks ==> j < n - 1)
    && (forall i: nat :: i < n - 1 ==> (i in picks <==> IsPeak(xs, i, cfg) && ClearOfAll(xs, picks, i, cfg)))
  }

  function Positions(a: seq<nat>): set<nat> {
    set i | i in a
  }

  lemma PositionsAppend(a: seq<nat>, i: nat)
    ensures Positions(a + [i]) == Positions(a) + {i}
  {}

  /** Keeping the gap to the last stroke is keeping it to all of them. */
  lemma ClearOfLastIsAll(xs: seq<Sample>, n: nat, cfg: Config)
    requires 3 <= n <= |xs| && cfg.gap >= 0
    ensures var a := Accepted(xs, n - 1, cfg);
      ClearOfLast(xs, a, n - 2, cfg) <==> ClearOfAll(xs, Positions(a), n - 2, cfg)
  {
    hide IsPeak;
    var a := Accepted(xs, n - 1, cfg);
    var s := Times(xs, a);
    StrokesAreSpaced(xs, n - 1, cfg);
    AscendingWhenSpaced(s, cfg.gap);
    if ClearOfLast(xs, a, n - 2, cfg) {
      forall j | j in Positions(a)
        ensures xs[n - 2].t - xs[j].t >= cfg.gap
      {
        var k :| 0 <= k < |a| && a[k] == j;
        assert s[k] <= s[|a| - 1];
      }
    } else {
      assert a[|a| - 1] in Positions(a);
    }
  }

  lemma SameBelow(xs: seq<Sample>, p: set<nat>, i: nat, m: nat, cfg: Config)
    requires i <= m && m < |xs| && forall j :: j in p ==> j < m
    ensures ClearOfAll(xs, p + {m}, i, cfg) <==> ClearOfAll(xs, p, i, cfg)
  {}

  /** The strokes are the peaks taken earliest first. */
  lemma {:induction false} AcceptedIsEarliestFirst(xs: seq<Sample>, n: nat, cfg: Config)
    requires n <= |xs| && cfg.gap >= 0
    ensures EarliestFirst(xs, n, Positions(Accepted(xs, n, cfg)), cfg)
  {
    hide ClearOfAll, ClearOfLast, Positions;
    if n < 3 {
      NoStrokesYet(xs, n, cfg);
    } else {
      var m := n - 2;
      var a := Accepted(xs, n - 1, cfg);
      AcceptedIsEarliestFirst(xs, n - 1, cfg);
      ClearOfLastIsAll(xs, n, cfg);
      PositionsAppend(a, m);
      forall i: nat | i <= m
        ensures ClearOfAll(xs, Positions(a) + {m}, i, cfg) <==> ClearOfAll(xs, Positions(a), i, cfg)
      {
        SameBelow(xs, Positions(a), i, m, cfg);
      }
    }
  }

  lemma NoStrokesYet(xs: seq<Sample>, n: nat, cfg: Config)
    requires n <= |xs| && n < 3
    ensures EarliestFirst(xs, n, Positions(Accepted(xs, n, cfg)), cfg)
  {}

  lemma {:induction false} SameMember(xs: seq<Sample>, n: nat, p: set<nat>, q: set<nat>, i: nat, cfg: Config)
    requires n <= |xs| && EarliestFirst(xs, n, p, cfg) && EarliestFirst(xs, n, q, cfg)
    ensures i in p <==> i in q
  {
    hide IsPeak;
    if i < n - 1 {
      forall j: nat | j < i
        ensures j in p <==> j in q
      {
        SameMember(xs, n, p, q, j, cfg);
      }
      assert ClearOfAll(xs, p, i, cfg) <==> ClearOfAll(xs, q, i, cfg);
    }
  }

  /** Only one set of peaks is earliest first, so the streaming detector finds exactly that one. */
  lemma StrokesAreTheEarliestFirst(xs: seq<Sample>, picks: set<nat>, cfg: Config)
    requires cfg.gap >= 0
    ensures EarliestFirst(xs, |xs|, picks, cfg) <==> picks == Positions(Accepted(xs, |xs|, cfg))
  {
    hide EarliestFirst, Positions;
    AcceptedIsEarliestFirst(xs, |xs|, cfg);
    if EarliestFirst(xs, |xs|, picks, cfg) {
      forall i: nat
        ensures i in picks <==> i in Positions(Accepted(xs, |xs|, cfg))
      {
        SameMember(xs, |xs|, picks, Positions(Accepted(xs, |xs|, cfg)), i, cfg);
      }
    }
  }

  // ---------- the choice is as large as possible ----------

  /** `picks` are peaks among the first `n` samples that keep the gap among each other. */
  ghost predicate KeepsGap(xs: seq<Sample>, n: nat, picks: set<nat>, cfg: Config)
    requires n <= |xs|
  {
    && (forall i :: i in picks ==> i < n - 1 && IsPeak(xs, i, cfg))
    && (forall i, j :: i in picks && j in picks && i < j ==> xs[j].t - xs[i].t >= cfg.gap)
  }

  ghost predicate NondecreasingTimes(xs: seq<Sample>) {
    forall i, j :: 0 <= i <= j < |xs| ==> xs[i].t <= xs[j].t
  }

  /** There are no more picks than strokes, and when there are as many they end no earlier. */
  ghost predicate StayAhead(xs: seq<Sample>, a: seq<nat>, picks: set<nat>)
    requires (forall k :: 0 <= k < |a| ==> a[k] < |xs|) && forall i :: i in picks ==> i < |xs|
  {
    && |picks| <= |a|
    && (|picks| == |a| > 0 ==> exists p :: p in picks && xs[a[|a| - 1]].t <= xs[p].t)
  }

  lemma SmallerBy(picks: set<nat>, j: nat)
    requires j in picks
    ensures |picks - {j}| == |picks| - 1
  {}

  lemma AheadWhenTaken(xs: seq<Sample>, n: nat, picks: set<nat>, cfg: Config)
    requires 3 <= n <= |xs| && KeepsGap(xs, n, picks, cfg) && n - 2 in picks
    requires ClearOfLast(xs, Accepted(xs, n - 1, cfg), n - 2, cfg)
    requires StayAhead(xs, Accepted(xs, n - 1, cfg), picks - {n - 2})
    ensures StayAhead(xs, Accepted(xs, n, cfg), picks)
  {
    SmallerBy(picks, n - 2);
    assert IsPeak(xs, n - 2, cfg);
    hide IsPeak, ClearOfLast, KeepsGap;
    assert Accepted(xs, n, cfg) == Accepted(xs, n - 1, cfg) + [n - 2];
  }

  lemma AheadWhenBlocked(xs: seq<Sample>, n: nat, picks: set<nat>, cfg: Config)
    requires 3 <= n <= |xs| && NondecreasingTimes(xs) && KeepsGap(xs, n, picks, cfg) && n - 2 in picks
    requires !ClearOfLast(xs, Accepted(xs, n - 1, cfg), n - 2, cfg)
    requires StayAhead(xs, Accepted(xs, n - 1, cfg), picks - {n - 2})
    ensures StayAhead(xs, Accepted(xs, n, cfg), picks)
  {
    assert forall i :: i in picks ==> i < n - 1;
    hide IsPeak, KeepsGap;
    var m := n - 2;
    var a := Accepted(xs, n - 1, cfg);
    SmallerBy(picks, m);
    assert Accepted(xs, n, cfg) == a;
    hide Accepted;
    if |picks| - 1 == |a| {
      var p :| p in picks - {m} && xs[a[|a| - 1]].t <= xs[p].t;
      KeptGap(xs, n, picks, p, m, cfg);
    }
    assert xs[a[|a| - 1]].t <= xs[m].t;
  }

  lemma AheadWhenSkipped(xs: seq<Sample>, n: nat, picks: set<nat>, cfg: Config)
    requires 3 <= n <= |xs| && NondecreasingTimes(xs) && KeepsGap(xs, n, picks, cfg)
    requires n - 2 !in picks
    requires StayAhead(xs, Accepted(xs, n - 1, cfg), picks - {n - 2})
    ensures StayAhead(xs, Accepted(xs, n, cfg), picks)
  {
    assert picks - {n - 2} == picks;
    hide IsPeak, ClearOfLast, KeepsGap;
  }

  /** One more sample keeps the strokes ahead of any picks. */
  lemma AheadStep(xs: seq<Sample>, n: nat, picks: set<nat>, cfg: Config)
    requires 3 <= n <= |xs| && NondecreasingTimes(xs) && KeepsGap(xs, n, picks, cfg)
    requires StayAhead(xs, Accepted(xs, n - 1, cfg), picks - {n - 2})
    ensures StayAhead(xs, Accepted(xs, n, cfg), picks)
  {
    hide IsPeak, ClearOfLast, KeepsGap, StayAhead, Accepted;
    if n - 2 !in picks {
      AheadWhenSkipped(xs, n, picks, cfg);
    } else if ClearOfLast(xs, Accepted(xs, n - 1, cfg), n - 2, cfg) {
      AheadWhenTaken(xs, n, picks, cfg);
    } else {
      AheadWhenBlocked(xs, n, picks, cfg);
    }
  }

  lemma KeptGap(xs: seq<Sample>, n: nat, picks: set<nat>, i: nat, j: nat, cfg: Config)
    requires n <= |xs| && KeepsGap(xs, n, picks, cfg) && i in picks && j in picks && i != j && j == n - 2
    ensures xs[j].t - xs[i].t >= cfg.gap
  {}

  lemma NoPicksYet(xs: seq<Sample>, n: nat, picks: set<nat>, cfg: Config)
    requires n <= |xs| && n < 3 && KeepsGap(xs, n, picks, cfg)
    ensures picks == {}
  {
    assert forall i :: i in picks ==> i < n - 1 && IsPeak(xs, i, cfg);
  }

  lemma {:induction false} StrokesStayAhead(xs: seq<Sample>, n: nat, picks: set<nat>, cfg: Config)
    requires n <= |xs| && NondecreasingTimes(xs) && KeepsGap(xs, n, picks, cfg)
    ensures StayAhead(xs, Accepted(xs, n, cfg), picks)
  {
    if n < 3 {
      NoPicksYet(xs, n, picks, cfg);
    } else {
      hide IsPeak, StayAhead;
      StrokesStayAhead(xs, n - 1, picks - {n - 2}, cfg);
      AheadStep(xs, n, picks, cfg);
    }
  }

  /** No set of peaks that keeps the gap has more members than there are strokes. */
  lemma StrokesAreMost(xs: seq<Sample>, picks: set<nat>, cfg: Config)
    requires NondecreasingTimes(xs) && KeepsGap(xs, |xs|, picks, cfg)
    ensures |picks| <= |StrokeTimes(xs, cfg)|
  {
    hide IsPeak, KeepsGap, Accepted;
    StrokesStayAhead(xs, |xs|, picks, cfg);
  }

  /** And the strokes themselves are such a set, when the gap is not negative. */
  lemma StrokesKeepGap(xs: seq<Sample>, cfg: Config)
    requires cfg.gap >= 0
    ensures KeepsGap(xs, |xs|, Positions(Accepted(xs, |xs|, cfg)), cfg)
  {
    hide IsPeak, Positions, Accepted;
    AcceptedIsEarliestFirst(xs, |xs|, cfg);
  }

  // ---------- rates ----------

  function CountFrom(s: seq<int>, start: int): (n: nat)
    ensures n <= |s|
  {
    if s == [] then 0 else (if s[0] >= start then 1 else 0) + CountFrom(s[1..], start)
  }

  /** How many strokes lie in the window that ends at `now`. */
  function CountWithin(s: seq<int>, start: int, now: int): (n: nat)
    ensures n <= |s|
  {
    if s == [] then 0 else (if start <= s[0] <= now then 1 else 0) + CountWithin(s[1..], start, now)
  }

  /** What counting backwards until the first stroke before `start` gives. */
  function CountBack(s: seq<int>, start: int): (n: nat)
    ensures n <= |s|
  {
    if s == [] || s[|s| - 1] < start then 0 else 1 + CountBack(s[..|s| - 1], start)
  }

  function RateOf(n: nat, window: int): real {
    if window <= 0 then 0.0 else (n as real / window as real) * 60000.0
  }

  lemma {:induction false} CountFromAppend(s: seq<int>, t: seq<int>, start: int)
    ensures CountFrom(s + t, start) == CountFrom(s, start) + CountFrom(t, start)
  {
    if s == [] {
      assert s + t == t;
    } else {
      assert (s + t)[1..] == s[1..] + t;
      CountFromAppend(s[1..], t, start);
    }
  }

  /** The strokes at or after `start`, as a set of positions. */
  ghost function PositionsFrom(s: seq<int>, start: int): set<int> {
    set k | 0 <= k < |s| && s[k] >= start
  }

  /** Counting is counting positions. */
  lemma {:induction false} CountFromIsSize(s: seq<int>, start: int)
    ensures CountFrom(s, start) == |PositionsFrom(s, start)|
    decreases |s|
  {
    if s != [] {
      var r, n := s[..|s| - 1], |s| - 1;
      CountFromIsSize(r, start);
      assert s == r + [s[n]];
      CountFromAppend(r, [s[n]], start);
      CountOne(s[n], start);
      if s[n] >= start {
        assert PositionsFrom(s, start) == PositionsFrom(r, start) + {n};
      } else {
        assert PositionsFrom(s, start) == PositionsFrom(r, start);
      }
    }
  }

  lemma CountOne(t: int, start: int)
    ensures CountFrom([t], start) == if t >= start then 1 else 0
  {
    assert CountFrom([t], start) == (if t >= start then 1 else 0) + CountFrom([], start);
  }

  ghost predicate Evenly(s: seq<int>, d: int) {
    forall k :: 0 < k < |s| ==> s[k] - s[k - 1] == d
  }

  lemma {:induction false} EvenlyApart(s: seq<int>, d: int, k: nat, m: nat)
    requires Evenly(s, d) && k <= m < |s|
    ensures s[m] - s[k] == (m - k) * d
    decreases m
  {
    if k < m {
      EvenlyApart(s, d, k, m - 1);
      assert (m - k) * d == (m - 1 - k) * d + d;
    }
  }

  /** Of strokes `d` apart, the last one at most `d` before `now`, exactly the last `n` lie in a window of `n` gaps. */
  lemma EvenCount(s: seq<int>, d: int, n: nat, now: int)
    requires Evenly(s, d) && d > 0 && 0 < n <= |s| && 0 < now - s[|s| - 1] <= d
    ensures CountFrom(s, now - n * d) == n
  {
    hide CountFrom, Evenly;
    var start := now - n * d;
    var m := |s| - n;
    forall k | 0 <= k < |s|
      ensures s[k] >= start <==> k >= m
    {
      EvenPosition(s, d, n, now, k);
    }
    assert s == s[..m] + s[m..];
    CountFromAppend(s[..m], s[m..], start);
    NoneFrom(s[..m], start);
    AllFrom(s[m..], start);
  }

  lemma EvenPosition(s: seq<int>, d: int, n: nat, now: int, k: nat)
    requires Evenly(s, d) && d > 0 && 0 < n <= |s| && 0 < now - s[|s| - 1] <= d && k < |s|
    ensures s[k] >= now - n * d <==> k >= |s| - n
  {
    var j := |s| - 1 - k;
    EvenlyApart(s, d, k, |s| - 1);
    assert s[k] == s[|s| - 1] - j * d;
    if j >= n {
      MultiplyMonotone(n, j, d);
    } else {
      MultiplyMonotone(j, n - 1, d);
      assert (n - 1) * d == n * d - d;
    }
  }

  lemma {:induction false} AllFrom(s: seq<int>, start: int)
    requires forall k :: 0 <= k < |s| ==> s[k] >= start
    ensures CountFrom(s, start) == |s|
  {
    if s != [] {
      AllFrom(s[1..], start);
    }
  }

  lemma {:induction false} NoneFrom(s: seq<int>, start: int)
    ensures CountFrom(s, start) == 0 <==> forall k :: 0 <= k < |s| ==> s[k] < start
  {
    if s != [] {
      NoneFrom(s[1..], start);
      assert forall k :: 0 < k < |s| ==> s[k] == s[1..][k - 1];
      assert forall k :: 0 <= k < |s| - 1 ==> s[1..][k] == s[k + 1];
    }
  }

  /** On ascending strokes the early exit of the counting loop loses nothing. */
  lemma {:induction false} CountBackIsCount(s: seq<int>, start: int)
    requires Ascending(s)
    ensures CountBack(s, start) == CountFrom(s, start)
    decreases |s|
  {
    if s != [] {
      var r, l := s[..|s| - 1], s[|s| - 1];
      assert s == r + [l];
      CountFromAppend(r, [l], start);
      if l < start {
        NoneFrom(r, start);
      } else {
        CountBackIsCount(r, start);
      }
    }
  }

  /** After pruning, the count is right exactly when no pruned stroke is in the window. */
  lemma PrunedCountExact(s: seq<int>, dropped: nat, start: int)
    requires Ascending(s) && dropped <= |s|
    ensures CountBack(s[dropped..], start) == CountFrom(s, start) <==> dropped == 0 || s[dropped - 1] < start
  {
    assert s == s[..dropped] + s[dropped..];
    CountFromAppend(s[..dropped], s[dropped..], start);
    CountBackIsCount(s[dropped..], start);
    NoneFrom(s[..dropped], start);
    if dropped > 0 {
      assert s[..dropped][dropped - 1] == s[dropped - 1];
    }
  }

  lemma {:induction false} CountWithinAppend(s: seq<int>, t: seq<int>, start: int, now: int)
    ensures CountWithin(s + t, start, now) == CountWithin(s, start, now) + CountWithin(t, start, now)
  {
    if s == [] {
      assert s + t == t;
    } else {
      assert (s + t)[1..] == s[1..] + t;
      CountWithinAppend(s[1..], t, start, now);
    }
  }

  /** What is not before the window is in it or later than it. */
  lemma {:induction false} WithinOrLater(s: seq<int>, start: int, now: int)
    requires start <= now + 1
    ensures CountFrom(s, start) == CountWithin(s, start, now) + CountFrom(s, now + 1)
  {
    if s != [] {
      WithinOrLater(s[1..], start, now);
    }
  }

  /**
    What counting backwards in the pruned strokes makes of the window that ends at `now`: it is
    right exactly when as many strokes of the window have been pruned as later ones are counted.
   */
  lemma PrunedWindowExact(s: seq<int>, dropped: nat, start: int, now: int)
    requires Ascending(s) && dropped <= |s| && start <= now
    ensures CountBack(s[dropped..], start) == CountWithin(s, start, now)
       <==> CountWithin(s[..dropped], start, now) == CountFrom(s[dropped..], now + 1)
  {
    hide CountBack, CountWithin, CountFrom;
    assert s == s[..dropped] + s[dropped..];
    CountWithinAppend(s[..dropped], s[dropped..], start, now);
    CountBackIsCount(s[dropped..], start);
    WithinOrLater(s[dropped..], start, now);
  }

  /** Pruning strokes that are before the window changes neither side of that. */
  lemma PruningBefore(s: seq<int>, k: nat, m: nat, start: int, now: int)
    requires k <= m <= |s| && start <= now && forall j :: k <= j < m ==> s[j] < start
    ensures CountWithin(s[..m], start, now) == CountWithin(s[..k], start, now)
    ensures CountFrom(s[m..], now + 1) == CountFrom(s[k..], now + 1)
  {
    hide CountWithin, CountFrom;
    var mid := s[k..m];
    NoneFrom(mid, start);
    NoneFrom(mid, now + 1);
    WithinOrLater(mid, start, now);
    assert s[..m] == s[..k] + mid;
    assert s[k..] == mid + s[m..];
    CountWithinAppend(s[..k], mid, start, now);
    CountFromAppend(mid, s[m..], now + 1);
  }

  /** The window really ends at `now` exactly when no stroke is later than `now`. */
  lemma WindowEndsAtNow(s: seq<int>, start: int, now: int)
    requires start <= now
    ensures CountFrom(s, start) >= CountWithin(s, start, now)
    ensures CountFrom(s, start) == CountWithin(s, start, now) <==> forall k :: 0 <= k < |s| ==> s[k] <= now
  {
    hide CountWithin, CountFrom;
    WithinOrLater(s, start, now);
    NoneFrom(s, now + 1);
  }

  lemma DivisionBound(n: nat, d: int, w: int)
    requires d > 0 && n * d <= w
    ensures n <= w / d
  {
    assert w == d * (w / d) + w % d;
    assert (w / d + 1) * d == d * (w / d) + d;
    if n > w / d {
      MultiplyMonotone(w / d + 1, n, d);
    }
  }

  lemma MultiplyMonotone(a: int, b: int, d: int)
    requires a <= b && d > 0
    ensures a * d <= b * d
  {}

  ghost predicate NoneAfter(s: seq<int>, end: int) {
    forall k :: 0 <= k < |s| ==> s[k] <= end
  }

  /**
    With a positive gap, only so many strokes fit between the start of the window and `end`, however
    many have been pruned.
   */
  lemma WindowHoldsFew(s: seq<int>, gap: int, dropped: nat, start: int, end: int)
    requires Spaced(s, gap) && gap > 0 && dropped <= |s| && start <= end && NoneAfter(s, end)
    ensures CountBack(s[dropped..], start) <= (end - start) / gap + 1
  {
    var t := s[dropped..];
    var n := CountBack(t, start);
    CountBackAre(t, start);
    if n > 0 {
      SpacedApart(t, gap, |t| - n, |t| - 1);
      DivisionBound(n - 1, gap, end - start);
    } else {
      DivisionBound(0, gap, end - start);
    }
  }

  lemma {:induction false} CountBackAre(s: seq<int>, start: int)
    ensures forall k :: |s| - CountBack(s, start) <= k < |s| ==> s[k] >= start
    decreases |s|
  {
    if s != [] && s[|s| - 1] >= start {
      CountBackAre(s[..|s| - 1], start);
    }
  }
}
