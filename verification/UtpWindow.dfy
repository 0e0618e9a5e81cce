/**
 The send window of a uTP connection: packets in flight, numbered consecutively modulo 2^16, and
 the cumulative acknowledgement that removes a prefix of them.
 */
module UtpWindow {
  import opened Bytes
  import opened Sequences
  import opened UtpPacket

  /** Packet i carries number first+i, modulo 2^16. */
  ghost predicate NumberedFrom(ps: seq<Packet>, first: U16) {
    forall i :: 0 <= i < |ps| ==> ps[i].seqNr == (first + i) % SEQ
  }

  lemma NumberedPart(ps: seq<Packet>, first: U16, a: nat, b: nat)
    requires NumberedFrom(ps, first) && a <= b <= |ps|
    ensures NumberedFrom(ps[a..b], (first + a) % SEQ)
  {
    forall i | 0 <= i < b - a
      ensures ps[a..b][i].seqNr == ((first + a) % SEQ + i) % SEQ
    {
      assert ps[a..b][i] == ps[a + i];
      ModAdd(first + a, i);
    }
  }

  lemma ModAdd(x: nat, i: nat)
    ensures (x % SEQ + i) % SEQ == (x + i) % SEQ
  {
    assert x == x / SEQ * SEQ + x % SEQ;
    ModMultiple(x % SEQ + i, x / SEQ);
  }

  lemma {:induction false} ModMultiple(y: nat, k: nat)
    ensures (k * SEQ + y) % SEQ == y % SEQ
    decreases k
  {
    if k > 0 {
      ModMultiple(y, k - 1);
      assert k * SEQ + y == ((k - 1) * SEQ + y) + SEQ;
    }
  }

  // ----- bytes -----

  function SumLen(ps: seq<Packet>): nat {
    if ps == [] then 0 else Len(ps[0]) + SumLen(ps[1..])
  }

  lemma {:induction false} SumLenConcat(ps: seq<Packet>, qs: seq<Packet>)
    ensures SumLen(ps + qs) == SumLen(ps) + SumLen(qs)
  {
    if ps == [] {
      assert ps + qs == qs;
    } else {
      assert (ps + qs)[1..] == ps[1..] + qs;
      calc {
        SumLen(ps + qs);
        Len(ps[0]) + SumLen(ps[1..] + qs);
        { hide Len; SumLenConcat(ps[1..], qs); }
        Len(ps[0]) + SumLen(ps[1..]) + SumLen(qs);
        SumLen(ps) + SumLen(qs);
      }
    }
  }

  /** All packets of at most `size` bytes. */
  ghost predicate NoLongerThan(ps: seq<Packet>, size: nat) {
    forall i :: 0 <= i < |ps| ==> Len(ps[i]) <= size
  }

  lemma {:induction false} SumLenBound(ps: seq<Packet>, size: nat)
    requires NoLongerThan(ps, size)
    ensures SumLen(ps) <= |ps| * size
  {
    if ps != [] {
      var len, n := Len(ps[0]), |ps| - 1;
      SumLenBound(ps[1..], size);
      assert (n + 1) * size == n * size + size;
    }
  }

  function Payloads(ps: seq<Packet>): seq<Byte> {
    if ps == [] then [] else Payloads(ps[..|ps| - 1]) + ps[|ps| - 1].payload
  }

  lemma PayloadsSnoc(ps: seq<Packet>, p: Packet)
    ensures Payloads(ps + [p]) == Payloads(ps) + p.payload
  {
    assert (ps + [p])[..|ps|] == ps;
  }

  // ----- cumulative acknowledgement -----

  /** Index of the first packet with number `n`, or the length if there is none. */
  function PositionOf(ps: seq<Packet>, n: U16): (k: nat)
    ensures k <= |ps|
    ensures k < |ps| ==> ps[k].seqNr == n
    ensures forall i :: 0 <= i < k ==> ps[i].seqNr != n
  {
    if ps == [] || ps[0].seqNr == n then 0 else 1 + PositionOf(ps[1..], n)
  }

  /** How many packets an acknowledgement of `n` removes from the window. */
  function AckedCount(ps: seq<Packet>, n: U16): (k: nat)
    ensures k <= |ps|
  {
    var i := PositionOf(ps, n);
    if i < |ps| then i + 1 else 0
  }

  /** In a window of at most 2^16 packets a number stands where its distance from the first says,
      also across the wraparound. */
  lemma PositionIsDistance(ps: seq<Packet>, first: U16, n: U16)
    requires NumberedFrom(ps, first) && |ps| <= SEQ
    ensures var d := (n - first) % SEQ;
            PositionOf(ps, n) == if d < |ps| then d else |ps|
  {
    hide PositionOf;
    var d, k := (n - first) % SEQ, PositionOf(ps, n);
    DistanceIs(first, n, d);
    if d < |ps| {
      assert ps[d].seqNr == n;
    }
    if k < |ps| {
      DistanceIs(first, n, k);
    }
  }

  /** A number has one distance below 2^16. */
  lemma DistanceIs(first: U16, n: U16, k: nat)
    requires k < SEQ
    ensures (first + k) % SEQ == n <==> k == (n - first) % SEQ
  {
    assert (first + k) % SEQ == if first + k < SEQ then first + k else first + k - SEQ;
    assert (n - first) % SEQ == if n >= first then n - first else n - first + SEQ;
  }

  /** In a window of at most 2^16 packets an acknowledgement removes the packets up to its distance from
      the first one, and nothing if that is beyond the window. */
  lemma AckedByDistance(ps: seq<Packet>, first: U16, ack: U16)
    requires NumberedFrom(ps, first) && |ps| <= SEQ
    ensures var d := (ack - first) % SEQ;
            AckedCount(ps, ack) == if d < |ps| then d + 1 else 0
  {
    hide PositionOf, NumberedFrom;
    PositionIsDistance(ps, first, ack);
  }

  /** Serial number comparison (RFC 1982): `a` is `b` or comes before it. */
  predicate SerialLe(a: U16, b: U16) { (b - a) % SEQ < SEQ / 2 }

  predicate SerialLt(a: U16, b: U16) { a != b && SerialLe(a, b) }

  /** The packets an acknowledgement removes are those up to it in serial order. */
  predicate PrefixIsSerial(ps: seq<Packet>, ack: U16) {
    forall i :: 0 <= i < |ps| ==> (i < AckedCount(ps, ack) <==> SerialLe(ps[i].seqNr, ack))
  }

  /** An acknowledgement removes exactly the packets up to it in serial order, if and only if it
      does not run ahead of the last packet in the window; one that does removes nothing. */
  lemma CumulativeAckIsSerialPrefix(ps: seq<Packet>, first: U16, ack: U16)
    requires NumberedFrom(ps, first) && 0 < |ps| <= SEQ / 2
    ensures PrefixIsSerial(ps, ack) <==> !SerialLt(ps[|ps| - 1].seqNr, ack)
    ensures SerialLt(ps[|ps| - 1].seqNr, ack) ==> AckedCount(ps, ack) == 0
  {
    var d, n := (ack - first) % SEQ, |ps|;
    AckedByDistance(ps, first, ack);
    hide AckedCount;
    forall i | 0 <= i < n
      ensures SerialLe(ps[i].seqNr, ack) <==> i <= d < i + SEQ / 2
    {
      SerialDistance(first, ack, i);
    }
    assert ps[n - 1].seqNr == ack <==> d == n - 1 by {
      SerialDistance(first, ack, n - 1);
    }
    assert SerialLt(ps[n - 1].seqNr, ack) <==> n <= d < n - 1 + SEQ / 2;
    assert SerialLe(ps[n - 1].seqNr, ack) <==> n - 1 <= d < n - 1 + SEQ / 2;
  }

  /** An acknowledgement is for the packets up to its distance from the first one, and for none if that is
      beyond the window; at most 2^15 packets are those up to it in serial order, if and only if it does
      not run ahead of the last one. */
  predicate AcksByDistance(ps: seq<Packet>, ack: U16)
    requires ps != []
  {
    && (var d := (ack - ps[0].seqNr) % SEQ; AckedCount(ps, ack) == if d < |ps| then d + 1 else 0)
    && (|ps| <= SEQ / 2 ==> (PrefixIsSerial(ps, ack) <==> !SerialLt(ps[|ps| - 1].seqNr, ack)))
  }

  lemma NumberedAcks(ps: seq<Packet>, ack: U16)
    requires 0 < |ps| <= SEQ && NumberedFrom(ps, ps[0].seqNr)
    ensures AcksByDistance(ps, ack)
  {
    hide NumberedFrom, AckedCount, PrefixIsSerial, SerialLt;
    AckedByDistance(ps, ps[0].seqNr, ack);
    if |ps| <= SEQ / 2 {
      CumulativeAckIsSerialPrefix(ps, ps[0].seqNr, ack);
    }
  }

  lemma SerialDistance(first: U16, ack: U16, i: nat)
    requires i < SEQ / 2
    ensures var d := (ack - first) % SEQ;
            && (SerialLe((first + i) % SEQ, ack) <==> i <= d < i + SEQ / 2)
            && ((first + i) % SEQ == ack <==> d == i)
  {
    var d := (ack - first) % SEQ;
    assert (ack - (first + i) % SEQ) % SEQ == (d - i) % SEQ;
  }

  // ----- packets as queued, and as they are now -----

  /** A packet without its time stamps, which every transmission rewrites. */
  function Unstamp(p: Packet): Packet { p.(timestamp := 0, timestampDifference := 0) }

  /** The packets `now` are the queued ones up to time stamps. */
  ghost predicate Restamped(now: seq<Packet>, queued: seq<Packet>) {
    && |now| == |queued|
    && forall i :: 0 <= i < |now| ==> Unstamp(now[i]) == Unstamp(queued[i])
  }

  lemma RestampedNumbers(now: seq<Packet>, queued: seq<Packet>, first: U16)
    requires Restamped(now, queued) && NumberedFrom(queued, first)
    ensures NumberedFrom(now, first)
  {
    forall i | 0 <= i < |now|
      ensures now[i].seqNr == (first + i) % SEQ
    {
      assert Unstamp(now[i]).seqNr == Unstamp(queued[i]).seqNr;
    }
  }

  lemma RestampedSizes(now: seq<Packet>, queued: seq<Packet>, size: nat)
    requires Restamped(now, queued) && NoLongerThan(queued, size)
    ensures NoLongerThan(now, size)
  {
    forall i | 0 <= i < |now|
      ensures Len(now[i]) <= size
    {
      SameLen(now[i], queued[i]);
    }
  }

  lemma SameLen(p: Packet, q: Packet)
    requires Unstamp(p) == Unstamp(q)
    ensures Len(p) == Len(q)
  {
    assert Unstamp(p).extensions == p.extensions && Unstamp(q).extensions == q.extensions;
    assert Unstamp(p).payload == p.payload && Unstamp(q).payload == q.payload;
  }

  lemma {:induction false} RestampedPayloads(now: seq<Packet>, queued: seq<Packet>)
    requires Restamped(now, queued)
    ensures Payloads(now) == Payloads(queued)
  {
    if now != [] {
      var n := |now| - 1;
      RestampedPayloads(now[..n], queued[..n]);
      assert Unstamp(now[n]).payload == Unstamp(queued[n]).payload;
    }
  }

  lemma {:induction false} PayloadsConcat(ps: seq<Packet>, qs: seq<Packet>)
    ensures Payloads(ps + qs) == Payloads(ps) + Payloads(qs)
    decreases |qs|
  {
    hide Payloads;
    if qs == [] {
      NoPayloads(ps, qs);
    } else {
      var (init, last) := (qs[..|qs| - 1], qs[|qs| - 1]);
      PayloadsConcat(ps, init);
      ConcatAssoc(ps, init, [last]);
      PayloadsSnoc(ps + init, last);
      PayloadsSnoc(init, last);
      ConcatAssoc(Payloads(ps), Payloads(init), last.payload);
      assert qs == init + [last];
    }
  }

  lemma NoPayloads(ps: seq<Packet>, qs: seq<Packet>)
    requires qs == []
    ensures Payloads(ps + qs) == Payloads(ps) + Payloads(qs)
  {
    assert ps + qs == ps;
  }

  /** Stamping one packet of the window changes neither its size nor the queued packets. */
  lemma StampOne(done: seq<Packet>, w: seq<Packet>, rest: seq<Packet>, queued: seq<Packet>, k: nat, p: Packet)
    requires k < |w| && Unstamp(p) == Unstamp(w[k])
    ensures SumLen(w[k := p]) == SumLen(w)
    ensures Restamped(done + w + rest, queued) ==> Restamped(done + w[k := p] + rest, queued)
  {
    hide Len, SumLen, Unstamp;
    SameLen(p, w[k]);
    assert w == w[..k] + [w[k]] + w[k + 1..] && w[k := p] == w[..k] + [p] + w[k + 1..];
    SumLenAround(w[..k], w[k], w[k + 1..]);
    SumLenAround(w[..k], p, w[k + 1..]);
    if Restamped(done + w + rest, queued) {
      StampKeeps(done, w, rest, k, p);
      var was, now := done + w + rest, done + w[k := p] + rest;
      forall i | 0 <= i < |now|
        ensures Unstamp(now[i]) == Unstamp(queued[i])
      {
      }
    }
  }

  lemma StampKeeps(done: seq<Packet>, w: seq<Packet>, rest: seq<Packet>, k: nat, p: Packet)
    requires k < |w|
    ensures done + w[k := p] + rest == (done + w + rest)[|done| + k := p]
  {
  }

  lemma SumLenAround(a: seq<Packet>, p: Packet, b: seq<Packet>)
    ensures SumLen(a + [p] + b) == SumLen(a) + Len(p) + SumLen(b)
  {
    SumLenConcat(a + [p], b);
    SumLenConcat(a, [p]);
  }

  lemma SumLenSnoc(w: seq<Packet>, p: Packet)
    ensures SumLen(w + [p]) == SumLen(w) + Len(p)
  {
    SumLenConcat(w, [p]);
    SumLenOne(p);
    hide SumLen;
  }

  /** Removing an acknowledged prefix moves it to the packets done. */
  lemma RemovePrefix(done: seq<Packet>, w: seq<Packet>, rest: seq<Packet>, k: nat)
    requires k <= |w|
    ensures (done + w[..k]) + w[k..] + rest == done + w + rest
    ensures SumLen(w) == SumLen(w[..k]) + SumLen(w[k..])
  {
    SplitMiddle(done, w, k);
    SumLenSplit(w, k);
  }

  lemma SplitMiddle<T>(a: seq<T>, w: seq<T>, k: nat)
    requires k <= |w|
    ensures (a + w[..k]) + w[k..] == a + w
  {
  }

  lemma SumLenOne(p: Packet)
    ensures SumLen([p]) == Len(p)
  {
    hide Len;
    assert [p][1..] == [];
  }

  lemma SumLenSplit(w: seq<Packet>, k: nat)
    requires k <= |w|
    ensures SumLen(w) == SumLen(w[..k]) + SumLen(w[k..])
  {
    hide SumLen;
    assert w == w[..k] + w[k..];
    SumLenConcat(w[..k], w[k..]);
  }
}
