/**
 The accounts of a uTP connection: which queued packets are still carried by its lists, what of the
 bytes copied out reached the application, and what was put on the wire.
 */
module UtpAccounts {
  import opened Bytes
  import opened Sequences
  import opened UtpPacket
  import opened UtpWindow
  import C = UtpCongestion

  // ----- queued packets -----

  /** Ascending indices below `n`. */
  ghost predicate Increasing(live: seq<nat>, n: nat) {
    && (forall i :: 0 <= i < |live| ==> live[i] < n)
    && (forall i, j :: 0 <= i < j < |live| ==> live[i] < live[j])
  }

  /** The packets at the given indices. */
  ghost function Picked(queued: seq<Packet>, live: seq<nat>): seq<Packet>
    requires Increasing(live, |queued|)
  {
    seq(|live|, i requires 0 <= i < |live| => queued[live[i]])
  }

  function RemoveAt<T>(s: seq<T>, k: nat): seq<T>
    requires k < |s|
  {
    s[..k] + s[k + 1..]
  }

  /** The lists carry exactly the live packets, in order and up to time stamps. */
  ghost predicate Carries(lists: seq<Packet>, queued: seq<Packet>, live: seq<nat>) {
    Increasing(live, |queued|) && Restamped(lists, Picked(queued, live))
  }

  /** Ascending indices below `n` are at least their positions, and all of them if there are `n`. */
  lemma {:induction false} AllIfAsMany(live: seq<nat>, n: nat, i: nat)
    requires Increasing(live, n) && i < |live|
    ensures i <= live[i] <= n - |live| + i
    decreases |live| - i
  {
    AtLeast(live, n, i);
    if i + 1 < |live| {
      AllIfAsMany(live, n, i + 1);
    }
  }

  lemma {:induction false} AtLeast(live: seq<nat>, n: nat, i: nat)
    requires Increasing(live, n) && i < |live|
    ensures i <= live[i]
  {
    if i > 0 {
      AtLeast(live, n, i - 1);
    }
  }

  lemma NothingDropped(queued: seq<Packet>, live: seq<nat>)
    requires Increasing(live, |queued|) && |live| == |queued|
    ensures Picked(queued, live) == queued
  {
    forall i | 0 <= i < |live|
      ensures live[i] == i
    {
      AllIfAsMany(live, |queued|, i);
    }
  }

  lemma CarriesNothing()
    ensures Carries([], [], [])
  {
  }

  lemma StoreKeeps(done: seq<Packet>, w: seq<Packet>, hand: Packet, p: Packet, rest: seq<Packet>, queued: seq<Packet>,
                   live: seq<nat>)
    requires Unstamp(p) == Unstamp(hand) && Carries(done + w + ([hand] + rest), queued, live)
    ensures Carries(done + (w + [p]) + ([] + rest), queued, live)
  {
    hide Unstamp, Picked;
    var was, now := done + w + ([hand] + rest), done + (w + [p]) + ([] + rest);
    assert now == was[|done + w| := p];
  }

  lemma StampIs(p: Packet, t: U32)
    ensures Unstamp(p.(timestamp := t)) == Unstamp(p)
  {
  }

  lemma StampCarries(done: seq<Packet>, w: seq<Packet>, rest: seq<Packet>, queued: seq<Packet>, live: seq<nat>, k: nat,
                     p: Packet)
    requires k < |w| && Unstamp(p) == Unstamp(w[k]) && Carries(done + w + rest, queued, live)
    ensures Carries(done + w[k := p] + rest, queued, live) && SumLen(w[k := p]) == SumLen(w)
  {
    hide Restamped, Picked, SumLen, Unstamp;
    StampOne(done, w, rest, Picked(queued, live), k, p);
  }

  lemma PickedSnoc(queued: seq<Packet>, live: seq<nat>, p: Packet)
    requires Increasing(live, |queued|)
    ensures Increasing(live + [|queued|], |queued| + 1)
    ensures Picked(queued + [p], live + [|queued|]) == Picked(queued, live) + [p]
  {
  }

  lemma EnqueueKeeps(done: seq<Packet>, rest: seq<Packet>, queued: seq<Packet>, live: seq<nat>, p: Packet)
    requires Carries(done + rest, queued, live)
    ensures Carries(done + (rest + [p]), queued + [p], live + [|queued|])
  {
    hide Unstamp, Picked;
    PickedSnoc(queued, live, p);
    var now := done + (rest + [p]);
    assert now == (done + rest) + [p];
  }

  lemma EnqueueNumbers(queued: seq<Packet>, first: U16, p: Packet)
    requires NumberedFrom(queued, first) && NoLongerThan(queued, C.MSS)
    requires p.seqNr == (first + |queued|) % SEQ && Len(p) <= C.MSS
    ensures NumberedFrom(queued + [p], first) && NoLongerThan(queued + [p], C.MSS)
    ensures (p.seqNr + 1) % SEQ == (first + |queued + [p]|) % SEQ
  {
    hide Len;
    ModAdd(first + |queued|, 1);
  }

  lemma RemovedIncreasing(live: seq<nat>, n: nat, k: nat)
    requires Increasing(live, n) && k < |live|
    ensures Increasing(RemoveAt(live, k), n)
  {
    var r := RemoveAt(live, k);
    forall i | 0 <= i < |r|
      ensures r[i] == live[if i < k then i else i + 1]
    {
    }
  }

  /** An error drops the packet in hand and no other. */
  lemma DropKeeps(done: seq<Packet>, hand: Packet, rest: seq<Packet>, queued: seq<Packet>, live: seq<nat>)
    requires Carries(done + ([hand] + rest), queued, live)
    ensures |done| < |live| && Carries(done + ([] + rest), queued, RemoveAt(live, |done|))
  {
    hide Unstamp;
    var k := |done|;
    var was, now := done + ([hand] + rest), done + ([] + rest);
    RemovedIncreasing(live, |queued|, k);
    var r := RemoveAt(live, k);
    forall i | 0 <= i < |now|
      ensures Unstamp(now[i]) == Unstamp(Picked(queued, r)[i])
    {
      var j := if i < k then i else i + 1;
      assert now[i] == was[j] && r[i] == live[j];
      assert Unstamp(was[j]) == Unstamp(Picked(queued, live)[j]);
    }
  }

  lemma CarriedIsQueued(lists: seq<Packet>, queued: seq<Packet>, live: seq<nat>, i: nat)
    requires Carries(lists, queued, live) && i < |lists|
    ensures i < |live| && live[i] < |queued| && Unstamp(lists[i]) == Unstamp(queued[live[i]])
  {
  }

  // ----- what the lists add up to -----

  lemma AccountForPayloads(done: seq<Packet>, w: seq<Packet>, u: seq<Packet>, queued: seq<Packet>)
    requires Restamped(done + (w + u), queued)
    ensures Payloads(done) + Payloads(w) + Payloads(u) == Payloads(queued)
  {
    hide Payloads, Restamped;
    RestampedPayloads(done + (w + u), queued);
    PayloadsConcat(done, w + u);
    PayloadsConcat(w, u);
    ConcatAssoc(Payloads(done), Payloads(w), Payloads(u));
  }

  lemma AccountForNumbers(done: seq<Packet>, w: seq<Packet>, u: seq<Packet>, queued: seq<Packet>, first: U16)
    requires Restamped(done + (w + u), queued) && NumberedFrom(queued, first)
    ensures NumberedFrom(w + u, (first + |done|) % SEQ)
    ensures |queued| == |done| + |w| + |u|
  {
    hide NumberedFrom, Unstamp;
    var all := done + (w + u);
    RestampedNumbers(all, queued, first);
    NumberedPart(all, first, |done|, |all|);
    SecondPart(done, w + u);
  }

  lemma SecondPart<T>(a: seq<T>, b: seq<T>)
    ensures (a + b)[|a|..|a + b|] == b
  {
  }

  lemma AccountForSizes(done: seq<Packet>, w: seq<Packet>, u: seq<Packet>, queued: seq<Packet>)
    requires Restamped(done + (w + u), queued) && NoLongerThan(queued, C.MSS)
    ensures SumLen(w) <= |w| * C.MSS
  {
    hide SumLen, NoLongerThan, Restamped;
    RestampedSizes(done + (w + u), queued, C.MSS);
    SizesOfPart(done, w, u, C.MSS);
    SumLenBound(w, C.MSS);
  }

  lemma SizesOfPart(a: seq<Packet>, b: seq<Packet>, c: seq<Packet>, size: nat)
    requires NoLongerThan(a + (b + c), size)
    ensures NoLongerThan(b, size)
  {
    hide Len;
    forall i | 0 <= i < |b|
      ensures Len(b[i]) <= size
    {
      assert b[i] == (a + (b + c))[|a| + i];
    }
  }

  lemma PickedSizes(queued: seq<Packet>, live: seq<nat>)
    requires Increasing(live, |queued|) && NoLongerThan(queued, C.MSS)
    ensures NoLongerThan(Picked(queued, live), C.MSS)
  {
    hide Len;
  }

  // ----- the wire -----

  /** Some packet sent is `p`, up to time stamps. */
  ghost predicate OnWire(p: Packet, outbox: seq<Packet>) {
    exists j :: 0 <= j < |outbox| && Unstamp(outbox[j]) == Unstamp(p)
  }

  ghost predicate AllOnWire(ps: seq<Packet>, outbox: seq<Packet>) {
    forall i :: 0 <= i < |ps| ==> OnWire(ps[i], outbox)
  }

  lemma WireGrows(ps: seq<Packet>, outbox: seq<Packet>, p: Packet)
    requires AllOnWire(ps, outbox)
    ensures AllOnWire(ps, outbox + [p])
  {
    hide Unstamp;
    forall i | 0 <= i < |ps|
      ensures OnWire(ps[i], outbox + [p])
    {
      var j :| 0 <= j < |outbox| && Unstamp(outbox[j]) == Unstamp(ps[i]);
      assert (outbox + [p])[j] == outbox[j];
    }
  }

  lemma SentIsOnWire(ps: seq<Packet>, outbox: seq<Packet>, p: Packet)
    requires AllOnWire(ps, outbox) && outbox != [] && outbox[|outbox| - 1] == p
    ensures AllOnWire(ps + [p], outbox)
  {
    hide Unstamp;
    assert OnWire(p, outbox);
  }

  lemma StampedOnWire(ps: seq<Packet>, outbox: seq<Packet>, k: nat, p: Packet)
    requires AllOnWire(ps, outbox) && k < |ps| && Unstamp(p) == Unstamp(ps[k])
    ensures AllOnWire(ps[k := p], outbox)
  {
    hide Unstamp;
    assert OnWire(ps[k], outbox);
    assert OnWire(p, outbox);
  }

  lemma MovedOnWire(done: seq<Packet>, w: seq<Packet>, k: nat, outbox: seq<Packet>)
    requires AllOnWire(done, outbox) && AllOnWire(w, outbox) && k <= |w|
    ensures AllOnWire(done + w[..k], outbox) && AllOnWire(w[k..], outbox)
  {
    hide OnWire;
  }

  /** What is carried by lists that are on the wire was sent. */
  lemma CarriedOnWire(lists: seq<Packet>, queued: seq<Packet>, live: seq<nat>, outbox: seq<Packet>)
    requires Carries(lists, queued, live) && AllOnWire(lists, outbox)
    ensures AllOnWire(Picked(queued, live), outbox)
  {
    hide Unstamp;
    forall i | 0 <= i < |live|
      ensures OnWire(Picked(queued, live)[i], outbox)
    {
      assert OnWire(lists[i], outbox);
      assert Unstamp(lists[i]) == Unstamp(Picked(queued, live)[i]);
    }
  }

  // ----- bytes copied out -----

  /** Bytes copied out, into a buffer of the application or one that nobody reads. */
  datatype Copy = Copy(app: bool, data: seq<Byte>)

  /** The bytes of all copies, of those for the application, and the number of the others. */
  function Copied(copies: seq<Copy>): seq<Byte> {
    if copies == [] then [] else Copied(copies[..|copies| - 1]) + copies[|copies| - 1].data
  }

  function HandedOut(copies: seq<Copy>): seq<Byte> {
    if copies == [] then []
    else
      var c := copies[|copies| - 1];
      HandedOut(copies[..|copies| - 1]) + if c.app then c.data else []
  }

  function ThrownAway(copies: seq<Copy>): nat {
    if copies == [] then 0
    else
      var c := copies[|copies| - 1];
      ThrownAway(copies[..|copies| - 1]) + if c.app then 0 else |c.data|
  }

  lemma CopySnoc(copies: seq<Copy>, c: Copy)
    ensures Copied(copies + [c]) == Copied(copies) + c.data
    ensures HandedOut(copies + [c]) == HandedOut(copies) + if c.app then c.data else []
    ensures ThrownAway(copies + [c]) == ThrownAway(copies) + if c.app then 0 else |c.data|
  {
    assert (copies + [c])[..|copies|] == copies;
  }

  /** What was not thrown away was handed out. */
  lemma {:induction false} CopiesAdd(copies: seq<Copy>)
    ensures |HandedOut(copies)| + ThrownAway(copies) == |Copied(copies)|
    ensures HandedOut(copies) == Copied(copies) <==> ThrownAway(copies) == 0
  {
    if copies != [] {
      CopiesAdd(copies[..|copies| - 1]);
    }
  }
}
