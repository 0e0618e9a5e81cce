/**
 LEDBAT congestion control of a uTP connection: round-trip estimate, retransmission timeout and
 congestion window. `f64` is `real`; `i32` division truncates toward zero.
 */
module UtpCongestion {
  import opened UtpDelay
  import opened Wrappers

  const MSS := 1400
  const MIN_CWND := 2
  const INIT_CWND := 2
  const ALLOWED_INCREASE := 1
  const TARGET := 100_000
  const INITIAL_CONGESTION_TIMEOUT := 2000
  const MIN_CONGESTION_TIMEOUT := 500
  const MAX_CONGESTION_TIMEOUT := 60_000

  const U32_RANGE := 0x1_0000_0000
  const I32_MAX := 0x7FFF_FFFF

  function Min(a: int, b: int): int { if a < b then a else b }
  function Max(a: int, b: int): int { if a < b then b else a }
  function Abs(a: int): nat { if a < 0 then -a else a }

  /** `i64 as u32`: the low 32 bits. */
  function AsU32(x: int): nat { x % U32_RANGE }

  /** `f64 as u32`: truncated and saturated. */
  function SaturatingU32(x: real): nat {
    if x < 0.0 then 0 else if x >= U32_RANGE as real then U32_RANGE - 1 else x.Floor
  }

  // ----- round-trip time and timeout -----

  /** The sample that an acknowledgement contributes, in milliseconds. */
  function RttSample(ourDelay: int, queuingDelay: int): (ms: int)
    ensures 0 <= ms <= MAX_RTT
  {
    AsU32(ourDelay - queuingDelay) / 1000
  }

  function NextRttVariance(rtt: int, variance: int, sample: int): int {
    variance + DivTrunc(Abs(rtt - sample) - variance, 4)
  }

  function NextRtt(rtt: int, sample: int): int {
    rtt + DivTrunc(sample - rtt, 8)
  }

  function TimeoutFor(rtt: int, variance: int): (ms: int)
    ensures MIN_CONGESTION_TIMEOUT <= ms <= MAX_CONGESTION_TIMEOUT
  {
    Min(Max(rtt + variance * 4, MIN_CONGESTION_TIMEOUT), MAX_CONGESTION_TIMEOUT)
  }

  ghost predicate RttInRange(rtt: int, variance: int) {
    0 <= rtt <= MAX_RTT && 0 <= variance <= MAX_RTT
  }

  /** Every estimate stays in range and no intermediate value leaves the `i32` range. */
  lemma RttStepInRange(rtt: int, variance: int, sample: int)
    requires RttInRange(rtt, variance) && 0 <= sample <= MAX_RTT
    ensures RttInRange(NextRtt(rtt, sample), NextRttVariance(rtt, variance, sample))
    ensures Min(rtt, sample) <= NextRtt(rtt, sample) <= Max(rtt, sample)
    ensures -I32_MAX <= rtt - sample <= I32_MAX
    ensures -I32_MAX <= Abs(rtt - sample) - variance <= I32_MAX
    ensures 0 <= NextRtt(rtt, sample) + NextRttVariance(rtt, variance, sample) * 4 <= I32_MAX
  {
  }

  /** The estimate after `n` acknowledgements that all measured `sample`. */
  function RttAfter(rtt: int, sample: int, n: nat): int {
    if n == 0 then rtt else NextRtt(RttAfter(rtt, sample, n - 1), sample)
  }

  /** Under a constant sample the estimate comes at least 1 ms closer with every acknowledgement
      until it is less than 8 ms away, where the truncated division leaves it. */
  lemma {:induction false} RttConverges(rtt: int, sample: int, n: nat)
    ensures Abs(RttAfter(rtt, sample, n) - sample) <= Max(7, Abs(rtt - sample) - n)
    ensures (RttAfter(rtt, sample, n) - sample) * (rtt - sample) >= 0
  {
    if n > 0 {
      RttConverges(rtt, sample, n - 1);
      var r := RttAfter(rtt, sample, n - 1);
      var d, e := r - sample, NextRtt(r, sample) - sample;
      assert Abs(e) <= Max(7, Abs(d) - 1);
      assert (d >= 0 ==> 0 <= e <= d) && (d <= 0 ==> d <= e <= 0);
      SameSign(e, d, rtt - sample);
    }
  }

  lemma SameSign(e: int, d: int, a: int)
    requires (d >= 0 ==> 0 <= e <= d) && (d <= 0 ==> d <= e <= 0)
    requires d * a >= 0
    ensures e * a >= 0
  {
    if a > 0 {
      assert d >= 0;
    } else if a < 0 {
      assert d <= 0;
    }
  }

  /** The sample is the measured delay without its queuing part exactly when the queuing delay
      does not exceed the measured delay; otherwise the subtraction wraps in 32 bits. */
  lemma RttSampleExact(ourDelay: int, queuingDelay: int)
    requires 0 <= ourDelay < U32_RANGE && 0 <= queuingDelay < U32_RANGE
    ensures RttSample(ourDelay, queuingDelay) == (ourDelay - queuingDelay) / 1000 <==> queuingDelay <= ourDelay
    ensures queuingDelay > ourDelay ==>
              RttSample(ourDelay, queuingDelay) == (U32_RANGE - (queuingDelay - ourDelay)) / 1000
  {
    if queuingDelay <= ourDelay {
      assert AsU32(ourDelay - queuingDelay) == ourDelay - queuingDelay;
    } else {
      assert AsU32(ourDelay - queuingDelay) == U32_RANGE + (ourDelay - queuingDelay);
    }
  }

  /** A single fast acknowledgement after a slow one is enough: on a new connection, delays of 3 s and
      then 0 s give a round trip of more than 71 minutes. */
  lemma RttSampleWrapExample()
    ensures var (s, t) := (Sample(10_000_000, 3_000_000), Sample(10_000_001, 0));
            var (base, rollover) := NextBaseDelays([], 0, s);
            var c := DropOld([], s.receivedAt, 0) + [s];
            var rtt := NextRtt(0, RttSample(s.difference, QueuingDelay(c, base)));
            var (base', _) := NextBaseDelays(base, rollover, t);
            var c' := DropOld(c, t.receivedAt, rtt * 100) + [t];
            RttSample(t.difference, QueuingDelay(c', base')) == 4_292_966
  {
    var (s, t) := (Sample(10_000_000, 3_000_000), Sample(10_000_001, 0));
    assert [] + [s] == [s];
    assert NextBaseDelays([], 0, s) == ([3_000_000], 10_000_000) by {
      assert [] + [3_000_000] == [3_000_000];
    }
    assert Ewma([s]) == 3_000_000.0 && QueuingDelay([s], [3_000_000]) == 0;
    assert NextRtt(0, 3000) == 375;
    assert NextBaseDelays([3_000_000], 10_000_000, t) == ([0], 10_000_000) by {
      assert [3_000_000][0 := 0] == [0];
    }
    assert DropOld([s], t.receivedAt, 37_500) + [t] == [s, t];
    assert [s, t][..1] == [s];
    assert Ewma([s, t]) == (1.0 - ALPHA) * 3_000_000.0 == 2_001_000.0;
    assert QueuingDelay([s, t], [0]) == 2_001_000;
  }

  // ----- congestion window -----

  /** Normalised distance from the target delay. */
  function OffTarget(queuingDelay: int): real {
    ((TARGET - AsU32(queuingDelay)) as real) / (TARGET as real)
  }

  /** `off_target` is at most 1. It also is at least -1, as its documentation says, exactly when
      the queuing delay is at most twice the target. */
  lemma OffTargetRange(queuingDelay: int)
    requires 0 <= queuingDelay < U32_RANGE
    ensures OffTarget(queuingDelay) <= 1.0
    ensures OffTarget(queuingDelay) >= -1.0 <==> queuingDelay <= 2 * TARGET
    ensures OffTarget(queuingDelay) >= 0.0 <==> queuingDelay <= TARGET
  {
    var x := (TARGET - queuingDelay) as real;
    var t := TARGET as real;
    assert AsU32(queuingDelay) == queuingDelay;
    assert x <= t;
    assert OffTarget(queuingDelay) == x / t;
    assert x / t >= -1.0 <==> x >= -t;
  }

  function CwndIncrease(cwnd: nat, offTarget: real, bytesNewlyAcked: nat): real
    requires cwnd > 0
  {
    offTarget * (bytesNewlyAcked as real) * (MSS as real) / (cwnd as real)
  }

  function NextCwnd(cwnd: nat, flightSize: nat, offTarget: real, bytesNewlyAcked: nat): (r: nat)
    requires cwnd > 0
    ensures MIN_CWND * MSS <= r <= Max(MIN_CWND * MSS, flightSize + ALLOWED_INCREASE * MSS)
  {
    var grown := SaturatingU32(cwnd as real + CwndIncrease(cwnd, offTarget, bytesNewlyAcked));
    Max(Min(grown, flightSize + ALLOWED_INCREASE * MSS), MIN_CWND * MSS)
  }

  lemma IncreaseSign(cwnd: nat, offTarget: real, bytesNewlyAcked: nat)
    requires cwnd > 0
    ensures offTarget <= 0.0 ==> CwndIncrease(cwnd, offTarget, bytesNewlyAcked) <= 0.0
    ensures offTarget >= 0.0 ==> CwndIncrease(cwnd, offTarget, bytesNewlyAcked) >= 0.0
    ensures 0.0 <= offTarget <= 1.0 && bytesNewlyAcked <= cwnd ==>
              CwndIncrease(cwnd, offTarget, bytesNewlyAcked) <= MSS as real
  {
    var b, m, w := bytesNewlyAcked as real, MSS as real, cwnd as real;
    var x, y := IncreaseIs(cwnd, offTarget, bytesNewlyAcked);
    var r := CwndIncrease(cwnd, offTarget, bytesNewlyAcked);
    hide CwndIncrease;
    IncreaseSignOf(offTarget, b, m, w, x, y, r);
    if 0.0 <= offTarget <= 1.0 && bytesNewlyAcked <= cwnd {
      IncreaseCap(offTarget, b, m, w, x, y, r);
    }
  }

  lemma IncreaseIs(cwnd: nat, offTarget: real, bytesNewlyAcked: nat) returns (x: real, y: real)
    requires cwnd > 0
    ensures x == offTarget * (bytesNewlyAcked as real) && y == x * (MSS as real)
    ensures CwndIncrease(cwnd, offTarget, bytesNewlyAcked) == y / (cwnd as real)
  {
    x := offTarget * (bytesNewlyAcked as real);
    y := x * (MSS as real);
  }

  lemma IncreaseSignOf(offTarget: real, b: real, m: real, w: real, x: real, y: real, r: real)
    requires b >= 0.0 && m >= 0.0 && w > 0.0 && x == offTarget * b && y == x * m && r == y / w
    ensures (offTarget <= 0.0 ==> r <= 0.0) && (offTarget >= 0.0 ==> r >= 0.0)
  {
    ProductSign(offTarget, b, x);
    ProductSign(x, m, y);
    QuotientSign(y, w, r);
  }

  lemma IncreaseCap(offTarget: real, b: real, m: real, w: real, x: real, y: real, r: real)
    requires 0.0 <= b <= w && m >= 0.0 && w > 0.0 && x == offTarget * b && y == x * m && r == y / w
    requires offTarget <= 1.0
    ensures r <= m
  {
    FractionOf(offTarget, b, x);
    ShareOf(x, m, w, y, r);
  }

  lemma ProductSign(x: real, y: real, z: real)
    requires y >= 0.0 && z == x * y
    ensures (x <= 0.0 ==> z <= 0.0) && (x >= 0.0 ==> z >= 0.0)
  {
  }

  lemma QuotientSign(x: real, w: real, z: real)
    requires w > 0.0 && z == x / w
    ensures (x <= 0.0 ==> z <= 0.0) && (x >= 0.0 ==> z >= 0.0)
  {
  }

  lemma FractionOf(x: real, y: real, z: real)
    requires x <= 1.0 && y >= 0.0 && z == x * y
    ensures z <= y
  {
    ProductSign(1.0 - x, y, y - z);
  }

  /** At most `w` times `m`, divided by `w`, is at most `m`. */
  lemma ShareOf(x: real, m: real, w: real, y: real, z: real)
    requires x <= w && m >= 0.0 && w > 0.0 && y == x * m && z == y / w
    ensures z <= m
  {
    ProductSign(w - x, m, w * m - y);
    assert z * w == y;
    CancelFactor(z, m, w);
  }

  lemma CancelFactor(z: real, m: real, w: real)
    requires w > 0.0 && z * w <= m * w
    ensures z <= m
  {
  }

  /** The direction of LEDBAT: above the target delay the window never grows, below it the window
      never shrinks (beyond its two caps), and one window's worth of acknowledgements adds at most
      one segment. */
  lemma CwndFollowsTarget(cwnd: nat, flightSize: nat, queuingDelay: int, bytesNewlyAcked: nat)
    requires 0 < cwnd < U32_RANGE - MSS && 0 <= queuingDelay < U32_RANGE
    ensures var next := NextCwnd(cwnd, flightSize, OffTarget(queuingDelay), bytesNewlyAcked);
            && (queuingDelay >= TARGET ==> next <= Max(cwnd, MIN_CWND * MSS))
            && (queuingDelay <= TARGET ==> next >= Min(cwnd, flightSize + ALLOWED_INCREASE * MSS))
            && (bytesNewlyAcked <= cwnd ==> next <= Max(cwnd + MSS, MIN_CWND * MSS))
  {
    OffTargetRange(queuingDelay);
    var off := OffTarget(queuingDelay);
    var inc := CwndIncrease(cwnd, off, bytesNewlyAcked);
    IncreaseSign(cwnd, off, bytesNewlyAcked);
    var x := cwnd as real + inc;
    if queuingDelay >= TARGET {
      assert off <= 0.0;
      assert SaturatingU32(x) <= cwnd;
    }
    if queuingDelay <= TARGET {
      assert SaturatingU32(x) >= cwnd;
    }
    if bytesNewlyAcked <= cwnd {
      assert inc <= MSS as real;
      assert SaturatingU32(x) <= cwnd + MSS;
    }
  }
}
