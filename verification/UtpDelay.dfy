/**
 Delay history of a uTP connection: the per-minute base delays, the samples of the
 current round trip, and the queuing delay that LEDBAT derives from both.

 Everything is stated against `h`, the history of all samples ever taken.
 */
module UtpDelay {
  import opened Sequences
  // Microseconds; a base delay covers the samples of one minute.
  const MAX_BASE_DELAY_AGE := 60_000_000
  // How many per-minute base delays are kept.
  const BASE_HISTORY := 10
  // Largest round trip (in milliseconds) that a 32-bit microsecond difference can give.
  const MAX_RTT := 4_294_967

  datatype Sample = Sample(receivedAt: int, difference: int)

  // ----- reference definition: rollover periods -----

  /** Splits a history into rollover periods: a period is opened by the first sample that is
      more than a minute younger than the sample that opened the previous one. */
  function Periods(h: seq<Sample>): (ps: seq<seq<Sample>>)
    ensures forall i :: 0 <= i < |ps| ==> ps[i] != []
    ensures h != [] ==> ps != []
    ensures Flatten(ps) == h
    decreases |h|
  {
    if h == [] then []
    else
      var ps := Periods(h[..|h| - 1]);
      var s := h[|h| - 1];
      assert h == h[..|h| - 1] + [s];
      if Opens(ps, s) then
        FlattenSnoc(ps, [s]);
        ps + [[s]]
      else
        var n := |ps| - 1;
        FlattenSnoc(ps[..n], ps[n]);
        FlattenSnoc(ps[..n], ps[n] + [s]);
        assert ps == ps[..n] + [ps[n]];
        ps[..n] + [ps[n] + [s]]
  }

  /** Does sample `s` open a new period after the periods `ps`? */
  predicate Opens(ps: seq<seq<Sample>>, s: Sample)
    requires forall i :: 0 <= i < |ps| ==> ps[i] != []
  {
    ps == [] || s.receivedAt - ps[|ps| - 1][0].receivedAt > MAX_BASE_DELAY_AGE
  }

  /** The periods whose base delay is still kept. */
  function Retained(ps: seq<seq<Sample>>): seq<seq<Sample>> {
    if |ps| <= BASE_HISTORY then ps else ps[|ps| - BASE_HISTORY..]
  }

  function RetainedSamples(h: seq<Sample>): seq<Sample> {
    Flatten(Retained(Periods(h)))
  }

  // ----- minima -----

  /** `m` is the least difference among the samples `p`. */
  ghost predicate IsMinDifference(m: int, p: seq<Sample>) {
    && (exists i :: 0 <= i < |p| && p[i].difference == m)
    && (forall i :: 0 <= i < |p| ==> m <= p[i].difference)
  }

  lemma MinDifferenceExtend(m: int, p: seq<Sample>, s: Sample)
    requires IsMinDifference(m, p)
    ensures IsMinDifference(if s.difference < m then s.difference else m, p + [s])
  {
    var i :| 0 <= i < |p| && p[i].difference == m;
    assert (p + [s])[i].difference == m;
    assert (p + [s])[|p|].difference == s.difference;
  }

  lemma MinDifferenceConcat(m: int, p: seq<Sample>, m': int, q: seq<Sample>)
    requires IsMinDifference(m, p) && IsMinDifference(m', q)
    ensures IsMinDifference(if m' < m then m' else m, p + q)
  {
    var i :| 0 <= i < |p| && p[i].difference == m;
    var j :| 0 <= j < |q| && q[j].difference == m';
    assert (p + q)[i].difference == m;
    assert (p + q)[|p| + j].difference == m';
    forall k | 0 <= k < |p + q|
      ensures (if m' < m then m' else m) <= (p + q)[k].difference
    {
      assert (p + q)[k] == if k < |p| then p[k] else q[k - |p|];
    }
  }

  /** `min_base_delay`: the least base delay kept, 0 if there is none. */
  function MinBaseDelay(base: seq<int>): int {
    if base == [] then 0
    else if |base| == 1 then base[0]
    else
      var m := MinBaseDelay(base[1..]);
      if m < base[0] then m else base[0]
  }

  // ----- the base delay list -----

  /** Invariant of `base_delays` and `last_rollover` after the periods `ps`: entry i is the least
      sample of the i-th retained period, and the last rollover opened the last period. */
  ghost predicate MinimaOf(base: seq<int>, lastRollover: int, ps: seq<seq<Sample>>)
    requires forall i :: 0 <= i < |ps| ==> ps[i] != []
  {
    var kept := Retained(ps);
    && |base| == |kept| <= BASE_HISTORY
    && (forall i :: 0 <= i < |base| ==> IsMinDifference(base[i], kept[i]))
    && (ps != [] ==> lastRollover == ps[|ps| - 1][0].receivedAt)
  }

  /** The same, for the history of all samples. */
  ghost predicate BaseDelaysFor(base: seq<int>, lastRollover: int, h: seq<Sample>) {
    MinimaOf(base, lastRollover, Periods(h))
  }

  /** The value `update_base_delay` gives the list, and the rollover time. */
  function NextBaseDelays(base: seq<int>, lastRollover: int, s: Sample): (r: (seq<int>, int))
    ensures |base| <= BASE_HISTORY ==> 0 < |r.0| <= BASE_HISTORY
  {
    if base == [] || s.receivedAt - lastRollover > MAX_BASE_DELAY_AGE then
      ((if |base| == BASE_HISTORY then base[1..] else base) + [s.difference], s.receivedAt)
    else
      var n := |base| - 1;
      (if s.difference < base[n] then base[n := s.difference] else base, lastRollover)
  }

  lemma PeriodsSnoc(h: seq<Sample>, s: Sample)
    ensures var ps := Periods(h);
            Periods(h + [s]) == if Opens(ps, s) then ps + [[s]] else ps[..|ps| - 1] + [ps[|ps| - 1] + [s]]
  {
    assert (h + [s])[..|h + [s]| - 1] == h;
  }

  lemma MinimaOpen(base: seq<int>, lastRollover: int, ps: seq<seq<Sample>>, s: Sample)
    requires forall i :: 0 <= i < |ps| ==> ps[i] != []
    requires MinimaOf(base, lastRollover, ps) && Opens(ps, s)
    ensures var r := NextBaseDelays(base, lastRollover, s);
            MinimaOf(r.0, r.1, ps + [[s]])
  {
    var kept := Retained(ps);
    assert Retained(ps + [[s]]) == (if |kept| == BASE_HISTORY then kept[1..] else kept) + [[s]];
    assert [s][0].difference == s.difference;
  }

  lemma MinimaExtend(base: seq<int>, lastRollover: int, ps: seq<seq<Sample>>, s: Sample)
    requires forall i :: 0 <= i < |ps| ==> ps[i] != []
    requires MinimaOf(base, lastRollover, ps) && !Opens(ps, s)
    ensures var r := NextBaseDelays(base, lastRollover, s);
            MinimaOf(r.0, r.1, ps[..|ps| - 1] + [ps[|ps| - 1] + [s]])
  {
    var kept, n := Retained(ps), |ps| - 1;
    var k := |kept| - 1;
    var qs := ps[..n] + [ps[n] + [s]];
    assert kept[k] == ps[n] && qs[n][0] == ps[n][0];
    assert Retained(qs) == kept[..k] + [kept[k] + [s]];
    MinDifferenceExtend(base[k], kept[k], s);
  }

  /** One step of the list keeps the invariant, whatever the clock does. */
  lemma BaseDelaysStep(base: seq<int>, lastRollover: int, h: seq<Sample>, s: Sample)
    requires BaseDelaysFor(base, lastRollover, h)
    ensures var r := NextBaseDelays(base, lastRollover, s);
            BaseDelaysFor(r.0, r.1, h + [s])
  {
    PeriodsSnoc(h, s);
    if Opens(Periods(h), s) {
      MinimaOpen(base, lastRollover, Periods(h), s);
    } else {
      MinimaExtend(base, lastRollover, Periods(h), s);
    }
  }

  /** `min_base_delay` is the least of all samples of the retained periods. */
  lemma MinBaseDelayIsLeastRetained(base: seq<int>, lastRollover: int, h: seq<Sample>)
    requires BaseDelaysFor(base, lastRollover, h)
    requires h != []
    ensures IsMinDifference(MinBaseDelay(base), RetainedSamples(h))
  {
    MinOfMinima(base, Retained(Periods(h)));
  }

  lemma {:induction false} MinOfMinima(base: seq<int>, ps: seq<seq<Sample>>)
    requires |base| == |ps| > 0
    requires forall i :: 0 <= i < |base| ==> IsMinDifference(base[i], ps[i])
    ensures IsMinDifference(MinBaseDelay(base), Flatten(ps))
  {
    assert Flatten(ps) == ps[0] + Flatten(ps[1..]);
    if |ps| == 1 {
      assert Flatten(ps[1..]) == [];
      assert Flatten(ps) == ps[0];
    } else {
      MinOfMinima(base[1..], ps[1..]);
      MinDifferenceConcat(base[0], ps[0], MinBaseDelay(base[1..]), Flatten(ps[1..]));
    }
  }

  // ----- the current delay list -----

  ghost predicate IsSuffix<T>(s: seq<T>, t: seq<T>) {
    |s| <= |t| && s == t[|t| - |s|..]
  }

  /** Samples were received in order: the clock did not step back or wrap. */
  ghost predicate InOrder(h: seq<Sample>) {
    forall i, j :: 0 <= i < j < |h| ==> h[i].receivedAt <= h[j].receivedAt
  }

  ghost predicate NoOlderThan(c: seq<Sample>, now: int, limit: int) {
    forall i :: 0 <= i < |c| ==> now - c[i].receivedAt <= limit
  }

  /** What `update_current_delay` drops from the front of the list. */
  function DropOld(c: seq<Sample>, now: int, limit: int): (r: seq<Sample>)
    ensures IsSuffix(r, c)
    ensures r == [] || now - r[0].receivedAt <= limit
  {
    if c != [] && now - c[0].receivedAt > limit then
      SuffixTrans(DropOld(c[1..], now, limit), c[1..], c);
      DropOld(c[1..], now, limit)
    else c
  }

  lemma CurrentDelaysStep(c: seq<Sample>, h: seq<Sample>, s: Sample, limit: int)
    requires IsSuffix(c, h)
    requires 0 <= limit
    ensures IsSuffix(DropOld(c, s.receivedAt, limit) + [s], h + [s])
    ensures InOrder(h + [s]) ==> NoOlderThan(DropOld(c, s.receivedAt, limit) + [s], s.receivedAt, limit)
  {
    var d := DropOld(c, s.receivedAt, limit);
    SuffixTrans(d, c, h);
    SuffixSnoc(d, h, s);
    if InOrder(h + [s]) {
      AgesFromFirst(d + [s], h + [s], s.receivedAt, limit);
    }
  }

  lemma SuffixTrans<T>(a: seq<T>, b: seq<T>, c: seq<T>)
    requires IsSuffix(a, b) && IsSuffix(b, c)
    ensures IsSuffix(a, c)
  {
  }

  lemma SuffixSnoc<T>(a: seq<T>, b: seq<T>, x: T)
    requires IsSuffix(a, b)
    ensures IsSuffix(a + [x], b + [x])
  {
  }

  lemma AgesFromFirst(c: seq<Sample>, h: seq<Sample>, now: int, limit: int)
    requires InOrder(h) && IsSuffix(c, h)
    requires c != [] && now - c[0].receivedAt <= limit
    ensures NoOlderThan(c, now, limit)
  {
    forall i | 0 <= i < |c|
      ensures now - c[i].receivedAt <= limit
    {
      assert c[i] == h[|h| - |c| + i];
      assert c[0] == h[|h| - |c|];
    }
  }

  // ----- moving average -----

  const ALPHA := 0.333

  function Ewma(c: seq<Sample>): real {
    if c == [] then 0.0
    else if |c| == 1 then c[0].difference as real
    else ALPHA * (c[|c| - 1].difference as real) + (1.0 - ALPHA) * Ewma(c[..|c| - 1])
  }

  /** The average stays between the extremes of its inputs. */
  lemma {:induction false} EwmaBetween(c: seq<Sample>, lo: int, hi: int)
    requires c != []
    requires forall i :: 0 <= i < |c| ==> lo <= c[i].difference <= hi
    ensures lo as real <= Ewma(c) <= hi as real
  {
    if |c| > 1 {
      EwmaBetween(c[..|c| - 1], lo, hi);
      var last, rest := c[|c| - 1].difference as real, Ewma(c[..|c| - 1]);
      assert ALPHA * (lo as real) <= ALPHA * last <= ALPHA * (hi as real);
    }
  }

  /** `filtered_current_delay`: the average, truncated to whole microseconds. */
  function FilteredCurrentDelay(c: seq<Sample>): int {
    Truncate(Ewma(c))
  }

  /** Rust's `as i64` on a float rounds toward zero. */
  function Truncate(x: real): int {
    if x >= 0.0 then x.Floor else -((-x).Floor)
  }

  lemma FilteredBetween(c: seq<Sample>, lo: int, hi: int)
    requires c != []
    requires forall i :: 0 <= i < |c| ==> lo <= c[i].difference <= hi
    ensures lo <= FilteredCurrentDelay(c) <= hi
  {
    EwmaBetween(c, lo, hi);
  }

  function QueuingDelay(c: seq<Sample>, base: seq<int>): int {
    FilteredCurrentDelay(c) - MinBaseDelay(base)
  }

  // ----- eviction is slower than sample expiry -----

  /** Shape of a period list made from an in-order history. */
  ghost predicate WellSpaced(ps: seq<seq<Sample>>) {
    && (forall i :: 0 <= i < |ps| ==> ps[i] != [])
    && (forall i :: 0 <= i < |ps| - 1 ==>
          ps[i + 1][0].receivedAt - ps[i][0].receivedAt > MAX_BASE_DELAY_AGE)
    && (forall i, j :: 0 <= i < |ps| && 0 <= j < |ps[i]| ==>
          ps[i][j].receivedAt - ps[i][0].receivedAt <= MAX_BASE_DELAY_AGE)
  }

  lemma WellSpacedOpen(ps: seq<seq<Sample>>, s: Sample)
    requires WellSpaced(ps) && Opens(ps, s)
    ensures WellSpaced(ps + [[s]])
  {
    var qs := ps + [[s]];
    assert forall i :: 0 <= i < |ps| ==> qs[i] == ps[i];
    assert qs[|ps|] == [s];
  }

  lemma WellSpacedExtend(ps: seq<seq<Sample>>, s: Sample)
    requires WellSpaced(ps) && !Opens(ps, s)
    ensures WellSpaced(ps[..|ps| - 1] + [ps[|ps| - 1] + [s]])
  {
    var n := |ps| - 1;
    var qs := ps[..n] + [ps[n] + [s]];
    assert forall i :: 0 <= i < n ==> qs[i] == ps[i];
    assert qs[n][0] == ps[n][0];
  }

  lemma {:induction false} PeriodsWellSpaced(h: seq<Sample>)
    ensures WellSpaced(Periods(h))
    decreases |h|
  {
    if h != [] {
      var h', s := h[..|h| - 1], h[|h| - 1];
      assert h == h' + [s];
      PeriodsWellSpaced(h');
      PeriodsSnoc(h', s);
      hide WellSpaced, Periods;
      if Opens(Periods(h'), s) {
        WellSpacedOpen(Periods(h'), s);
      } else {
        WellSpacedExtend(Periods(h'), s);
      }
    }
  }

  lemma {:induction false} PeriodStartsApart(ps: seq<seq<Sample>>, i: nat, k: nat)
    requires WellSpaced(ps)
    requires i + k < |ps|
    ensures ps[i + k][0].receivedAt - ps[i][0].receivedAt >= k * MAX_BASE_DELAY_AGE
    ensures k > 0 ==> ps[i + k][0].receivedAt - ps[i][0].receivedAt > k * MAX_BASE_DELAY_AGE
  {
    if k > 0 {
      PeriodStartsApart(ps, i, k - 1);
      assert ps[i + (k - 1) + 1][0].receivedAt - ps[i + (k - 1)][0].receivedAt > MAX_BASE_DELAY_AGE;
    }
  }

  /** The history is the evicted samples followed by the retained ones. */
  lemma RetainedFromHistory(h: seq<Sample>)
    ensures IsSuffix(RetainedSamples(h), h)
    ensures |Periods(h)| > BASE_HISTORY ==>
              h == Flatten(Periods(h)[..|Periods(h)| - BASE_HISTORY]) + RetainedSamples(h)
  {
    var ps := Periods(h);
    if |ps| > BASE_HISTORY {
      var n := |ps| - BASE_HISTORY;
      assert ps == ps[..n] + ps[n..];
      FlattenConcat(ps[..n], ps[n..]);
    }
  }

  /** Where the n-th part starts in the flattened sequence. */
  lemma FlattenSplit<T>(ps: seq<seq<T>>, n: nat)
    requires n < |ps|
    ensures Flatten(ps[..n]) + ps[n] <= Flatten(ps)
  {
    assert ps == ps[..n] + ps[n..] && ps[n..] == [ps[n]] + ps[n + 1..];
    FlattenConcat(ps[..n], ps[n..]);
  }

  /** With ten or more periods after it, a period's samples are over nine minutes old. */
  lemma SamplesBeforeTenPeriodsAreOld(ps: seq<seq<Sample>>, n: nat, h: seq<Sample>, r: seq<Sample>)
    requires WellSpaced(ps) && 0 < n && n + BASE_HISTORY == |ps|
    requires h == Flatten(ps) == Flatten(ps[..n]) + r && h != [] && InOrder(h)
    ensures |r| < |h|
    ensures h[|h| - 1].receivedAt - h[|h| - |r| - 1].receivedAt > (BASE_HISTORY - 1) * MAX_BASE_DELAY_AGE
  {
    assert ps[n - 1] != [] && ps[|ps| - 1] != [];
    hide Flatten, WellSpaced, InOrder;
    PeriodStartsApart(ps, n - 1, BASE_HISTORY);
    LastOfPeriods(ps, n);
    OpenerIsInHistory(ps, h);
    LastOfFirst(Flatten(ps[..n]), r);
  }

  lemma LastOfFirst<T>(a: seq<T>, b: seq<T>)
    requires a != []
    ensures |b| < |a + b| && (a + b)[|a + b| - |b| - 1] == a[|a| - 1]
  {
  }

  /** The last sample of the first `n` periods was taken in the last of them. */
  lemma LastOfPeriods(ps: seq<seq<Sample>>, n: nat)
    requires WellSpaced(ps) && 0 < n <= |ps|
    ensures var gone := Flatten(ps[..n]);
            gone != [] && gone[|gone| - 1].receivedAt - ps[n - 1][0].receivedAt <= MAX_BASE_DELAY_AGE
  {
    hide Flatten;
    assert ps[..n] == ps[..n - 1] + [ps[n - 1]];
    FlattenSnoc(ps[..n - 1], ps[n - 1]);
    var gone := Flatten(ps[..n]);
    assert gone[|gone| - 1] == ps[n - 1][|ps[n - 1]| - 1];
  }

  lemma OpenerIsInHistory(ps: seq<seq<Sample>>, h: seq<Sample>)
    requires WellSpaced(ps) && ps != [] && h == Flatten(ps) && InOrder(h)
    ensures h != [] && ps[|ps| - 1][0].receivedAt <= h[|h| - 1].receivedAt
  {
    hide Flatten;
    var m := |ps| - 1;
    FlattenSplit(ps, m);
    var k := |Flatten(ps[..m])|;
    assert ps[m][0] == (Flatten(ps[..m]) + ps[m])[k] == h[k];
  }

  /** The last evicted sample, and so every evicted one, is more than nine minutes old. */
  lemma LastEvictedIsOld(h: seq<Sample>, now: int)
    requires h != [] && InOrder(h) && h[|h| - 1].receivedAt == now
    requires |Periods(h)| > BASE_HISTORY
    ensures |RetainedSamples(h)| < |h|
    ensures now - h[|h| - |RetainedSamples(h)| - 1].receivedAt > (BASE_HISTORY - 1) * MAX_BASE_DELAY_AGE
  {
    RetainedFromHistory(h);
    PeriodsWellSpaced(h);
    hide Periods, WellSpaced, RetainedSamples, Flatten;
    SamplesBeforeTenPeriodsAreOld(Periods(h), |Periods(h)| - BASE_HISTORY, h, RetainedSamples(h));
  }

  /** A sample that is at most 540 s old always sits in a retained period. */
  lemma YoungSamplesAreRetained(h: seq<Sample>, c: seq<Sample>, now: int)
    requires h != [] && InOrder(h) && h[|h| - 1].receivedAt == now
    requires IsSuffix(c, h)
    requires NoOlderThan(c, now, (BASE_HISTORY - 1) * MAX_BASE_DELAY_AGE)
    ensures IsSuffix(c, RetainedSamples(h))
  {
    var r := RetainedSamples(h);
    RetainedFromHistory(h);
    if |Periods(h)| > BASE_HISTORY {
      LastEvictedIsOld(h, now);
    }
  }

  /** LEDBAT's estimate is sound: over any in-order history, whatever round-trip times were in
      force when older samples were dropped, the queuing delay is never negative, and never
      exceeds the largest sample of the last round trip. */
  lemma QueuingDelayNonNegative(h: seq<Sample>, c: seq<Sample>, base: seq<int>, lastRollover: int,
                                now: int, rtt: int, hi: int)
    requires h != [] && InOrder(h) && h[|h| - 1].receivedAt == now
    requires BaseDelaysFor(base, lastRollover, h)
    requires c != [] && IsSuffix(c, h) && NoOlderThan(c, now, rtt * 100)
    requires 0 <= rtt <= MAX_RTT
    requires forall i :: 0 <= i < |h| ==> 0 <= h[i].difference <= hi
    ensures 0 <= MinBaseDelay(base)
    ensures 0 <= QueuingDelay(c, base) <= hi
  {
    hide RetainedSamples, BaseDelaysFor, MinBaseDelay, FilteredCurrentDelay;
    var r, lo := RetainedSamples(h), MinBaseDelay(base);
    YoungSamplesAreRetained(h, c, now);
    MinBaseDelayIsLeastRetained(base, lastRollover, h);
    RetainedFromHistory(h);
    forall i | 0 <= i < |c|
      ensures lo <= c[i].difference <= hi
    {
      assert c[i] == r[|r| - |c| + i];
      assert c[i] == h[|h| - |c| + i];
    }
    FilteredBetween(c, lo, hi);
    var k :| 0 <= k < |r| && r[k].difference == lo;
    assert r[k] == h[|h| - |r| + k];
  }
}
