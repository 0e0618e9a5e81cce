/**
 An established uTP connection. The datagrams and timeouts that the UDP socket will produce are
 given in advance as `inbox`, so that a run is a sequence of calls on an arbitrary inbox; an
 exhausted inbox is an I/O error. Clock readings are arbitrary; `monotone` records whether they have
 ever gone back (or wrapped).

 Waiting for room in the window happens inside sending and resending, so receiving, acknowledging
 and resending call each other, and every call may handle further datagrams.
 */
module UtpSocket {
  import opened Bytes
  import opened Sequences
  import opened UtpPacket
  import opened UtpAccounts
  import opened UtpProtocol
  import opened UtpSack
  import opened UtpWindow
  import opened Wrappers
  import C = UtpCongestion
  import D = UtpDelay
  import R = UtpReorder

  datatype Fixture = Fixture(unsentQueue: seq<Packet>, seqNr: U16, queued: seq<Packet>, written: seq<Byte>,
                             inHand: seq<Packet>, live: seq<nat>, maxRetries: nat)

  datatype Flowing = Flowing(sendWindow: seq<Packet>, acked: seq<Packet>, currWindow: nat, lastAcked: U16,
                             duplicateAckCount: nat, cwnd: nat, rtt: int, samples: seq<D.Sample>, remoteWndSize: U32,
                             handed: seq<Byte>, discarded: nat, view: R.Receiver)

  class UtpSocket {
    const senderId: U16
    const receiverId: U16
    var state: SocketState
    var maxRetries: nat

    // sending
    var seqNr: U16
    var sendWindow: seq<Packet>
    var unsentQueue: seq<Packet>
    var currWindow: nat
    var remoteWndSize: U32
    var duplicateAckCount: nat
    var lastAcked: U16

    // receiving
    var ackNr: U16
    var lastDropped: U16
    var incomingBuffer: seq<Packet>
    var pendingData: seq<Byte>
    var theirDelay: U32

    // congestion control
    var baseDelays: seq<int>
    var currentDelays: seq<D.Sample>
    var lastRollover: int
    var rtt: int
    var rttVariance: int
    var congestionTimeout: nat
    var cwnd: nat

    // the UDP socket and the clock
    var inbox: seq<Event>
    var outbox: seq<Packet>
    var clock: U32
    ghost var monotone: bool

    // everything queued so far, and the packets acknowledged and taken out of the window
    ghost const firstSeq: U16
    ghost var queued: seq<Packet>
    ghost var written: seq<Byte>
    ghost var acked: seq<Packet>
    // the packet that `Send` holds outside of both lists, and which queued packets no error made it drop
    ghost var inHand: seq<Packet>
    ghost var live: seq<nat>

    // every packet received so far, and what was done with them
    ghost const start: R.Receiver
    ghost var arrived: seq<Packet>
    ghost var ops: seq<R.Op>
    ghost var removed: seq<Packet>
    ghost var delivered: seq<Byte>
    // every copy out of the buffer, what reached the application, and how much was thrown away
    ghost var copies: seq<Copy>
    ghost var handed: seq<Byte>
    ghost var discarded: nat
    ghost var samples: seq<D.Sample>

    // ----- invariants -----

    /** Acknowledged, in flight, in hand and waiting packets are, in this order, what was queued and not
        dropped; `curr_window` is the size of those in flight. */
    ghost predicate ValidSend()
      reads `sendWindow, `unsentQueue, `currWindow, `seqNr, `queued, `written, `acked, `inHand, `live
    {
      && currWindow == SumLen(sendWindow)
      && Carries(acked + sendWindow + (inHand + unsentQueue), queued, live)
      && NumberedFrom(queued, firstSeq)
      && seqNr == (firstSeq + |queued|) % SEQ
      && Payloads(queued) == written
      && NoLongerThan(queued, C.MSS)
    }

    ghost function View(): R.Receiver
      reads `incomingBuffer, `pendingData, `ackNr, `lastDropped, `removed, `delivered
    {
      R.Receiver(incomingBuffer, pendingData, ackNr, lastDropped, removed, delivered)
    }

    /** The receiving side is where the reference model gets by the operations so far, and these only
        handle packets that arrived. */
    ghost predicate ValidReceive()
      reads `incomingBuffer, `pendingData, `ackNr, `lastDropped, `removed, `delivered, `ops, `arrived
    {
      && R.Conserves(start) && start.buffer == [] && start.removed == []
      && View() == R.Run(start, ops) && R.From(ops, arrived)
    }

    /** Bytes copied out are those delivered; each copy was handed out or thrown away. */
    ghost predicate ValidHanded()
      reads `delivered, `copies, `handed, `discarded
    {
      delivered == Copied(copies) && handed == HandedOut(copies) && discarded == ThrownAway(copies)
    }

    ghost predicate ValidDelay()
      reads `baseDelays, `currentDelays, `lastRollover, `rtt, `rttVariance, `congestionTimeout, `cwnd, `samples
    {
      && D.BaseDelaysFor(baseDelays, lastRollover, samples)
      && D.IsSuffix(currentDelays, samples)
      && C.RttInRange(rtt, rttVariance)
      && C.MIN_CONGESTION_TIMEOUT <= congestionTimeout
      && C.MSS <= cwnd
    }

    /** As long as the clock never went back, samples are in order and not negative, and neither is
        the queuing delay. */
    ghost predicate ValidClock()
      reads `monotone, `clock, `samples, `sendWindow, `currentDelays, `baseDelays
    {
      monotone ==>
        && TakenBy(samples, clock)
        && SentBy(sendWindow, clock)
        && (samples != [] ==> 0 <= D.QueuingDelay(currentDelays, baseDelays) < C.U32_RANGE)
    }

    /** A queued packet, up to time stamps. */
    ghost predicate FromQueue(p: Packet)
      reads `queued
    {
      exists i :: 0 <= i < |queued| && Unstamp(p) == Unstamp(queued[i])
    }

    /** Every data packet ever put on the wire is one of the queued ones. */
    ghost predicate ValidOutbox()
      reads `outbox, `queued
    {
      forall i :: 0 <= i < |outbox| && outbox[i].ty.Data? ==> FromQueue(outbox[i])
    }

    /** What counts as in flight or acknowledged was put on the wire. */
    ghost predicate ValidWire()
      reads `outbox, `acked, `sendWindow
    {
      AllOnWire(acked, outbox) && AllOnWire(sendWindow, outbox)
    }

    ghost predicate Valid()
      reads this
    {
      && ValidSend() && ValidReceive() && ValidHanded() && ValidDelay() && ValidClock() && ValidOutbox() && ValidWire()
    }

    /** What receiving never touches. */
    ghost function Fixed(): Fixture
      reads `unsentQueue, `seqNr, `queued, `written, `inHand, `live, `maxRetries
    {
      Fixture(unsentQueue, seqNr, queued, written, inHand, live, maxRetries)
    }

    /** Receiving keeps these; the logs only grow, events are only used up. */
    twostate predicate Kept()
      reads this
    {
      && Fixed() == old(Fixed()) && MyTerms() == old(MyTerms())
      && old(acked) <= acked && old(outbox) <= outbox && old(arrived) <= arrived
      && (inbox == old(inbox) || |inbox| < old(|inbox|))
      && (monotone ==> old(monotone))
      && (state == old(state) || state.Closed? || state.ResetReceived?)
    }

    /** The sending side apart from what went out, and the receiving side. */
    ghost function Flow(): Flowing
      reads `sendWindow, `acked, `currWindow, `lastAcked, `duplicateAckCount, `cwnd, `rtt, `samples, `remoteWndSize,
            `handed, `discarded, `incomingBuffer, `pendingData, `ackNr, `lastDropped, `removed, `delivered
    {
      Flowing(sendWindow, acked, currWindow, lastAcked, duplicateAckCount, cwnd, rtt, samples, remoteWndSize,
              handed, discarded, View())
    }

    twostate predicate WindowKept()
      reads this
    {
      Flow() == old(Flow())
    }

    /** More may be put in flight without waiting. */
    predicate Room()
      reads `currWindow, `cwnd, `remoteWndSize
    {
      currWindow < C.Max(C.MIN_CWND * C.MSS, C.Min(cwnd, remoteWndSize))
    }

    /** The receiving side with state and events, and what stays the same while nothing is sent. */
    ghost function Mine(): Side
      reads this
    {
      Side(View(), state, inbox)
    }

    ghost function MyTerms(): Terms
      reads `seqNr, `maxRetries
    {
      Terms(senderId, receiverId, seqNr, maxRetries)
    }

    /** What was copied out was thrown away, unless it was for the application. */
    twostate predicate Discards(app: bool)
      reads `incomingBuffer, `pendingData, `ackNr, `lastDropped, `removed, `delivered, `discarded
    {
      var was, now := |old(View()).delivered|, |View().delivered|;
      was <= now && discarded == old(discarded) + if app then 0 else now - was
    }

    // ----- setting up -----

    /** Nothing was sent, received or measured yet. */
    ghost predicate Blank()
      reads this
    {
      && sendWindow == [] && unsentQueue == [] && currWindow == 0 && seqNr == firstSeq && outbox == []
      && queued == [] && written == [] && acked == [] && inHand == [] && live == []
      && arrived == [] && copies == [] && ops == []
      && incomingBuffer == [] && pendingData == [] && removed == [] && delivered == []
      && handed == [] && discarded == 0
      && start == R.Receiver([], [], ackNr, lastDropped, [], [])
      && samples == [] && baseDelays == [] && currentDelays == [] && rtt == 0 && rttVariance == 0
      && congestionTimeout == C.INITIAL_CONGESTION_TIMEOUT && cwnd == C.INIT_CWND * C.MSS
    }

    /** A connection that is set up: `from_raw_parts`, with the numbers agreed by the handshake. */
    constructor Established(ownSenderId: U16, ownReceiverId: U16, first: U16, ack: U16, dropped: U16,
                            peerAck: U16, wndSize: U32, events: seq<Event>)
      ensures Blank() && state == Connected && senderId == ownSenderId && receiverId == ownReceiverId
      ensures seqNr == first && ackNr == ack && lastDropped == dropped && lastAcked == peerAck
      ensures remoteWndSize == wndSize && inbox == events && maxRetries == MAX_RETRANSMISSION_RETRIES
    {
      senderId, receiverId := ownSenderId, ownReceiverId;
      state, maxRetries := Connected, MAX_RETRANSMISSION_RETRIES;
      seqNr, firstSeq, sendWindow, unsentQueue, currWindow := first, first, [], [], 0;
      remoteWndSize, duplicateAckCount, lastAcked := wndSize, 0, peerAck;
      ackNr, lastDropped, incomingBuffer, pendingData, theirDelay := ack, dropped, [], [], 0;
      baseDelays, currentDelays, lastRollover := [], [], 0;
      rtt, rttVariance, congestionTimeout := 0, 0, C.INITIAL_CONGESTION_TIMEOUT;
      cwnd := C.INIT_CWND * C.MSS;
      inbox, outbox, clock, monotone := events, [], 0, true;
      queued, written, acked, inHand, live := [], [], [], [], [];
      start := R.Receiver([], [], ack, dropped, [], []);
      ops, removed, delivered, samples := [], [], [], [];
      arrived, copies, handed, discarded := [], [], [], 0;
    }

    lemma BlankIsValid()
      requires Blank()
      ensures Valid()
    {
      NothingSent();
      NothingReceived();
      assert C.MSS <= cwnd && C.MIN_CONGESTION_TIMEOUT <= congestionTimeout;
      NothingMeasured();
      hide ValidSend, ValidReceive, ValidHanded, ValidDelay, ValidClock, ValidOutbox, ValidWire;
    }

    /** The accepting side, after it answered a SYN; its first number is chosen at random. */
    static method Accept(syn: Packet, randomSeq: U16, events: seq<Event>) returns (s: UtpSocket)
      ensures fresh(s) && s.Valid() && s.state == Connected && s.inHand == [] && s.inbox == events
      ensures s.Blank() && s.maxRetries == MAX_RETRANSMISSION_RETRIES
      ensures s.senderId == syn.connectionId && s.receiverId == (syn.connectionId + 1) % SEQ
      ensures s.seqNr == randomSeq && s.ackNr == s.lastDropped == syn.seqNr && R.InOrder(s.start)
    {
      s := new UtpSocket.Established(syn.connectionId, (syn.connectionId + 1) % SEQ, randomSeq, syn.seqNr, syn.seqNr,
                                     0, syn.wndSize, events);
      s.BlankIsValid();
    }

    /** The connecting side, after a STATE packet answered its SYN, which had number 1. */
    static method Connect(receiverId: U16, senderId: U16, reply: Packet, events: seq<Event>) returns (s: UtpSocket)
      ensures fresh(s) && s.Valid() && s.state == Connected && s.inHand == [] && s.inbox == events
      ensures s.seqNr == 2 && (s.ackNr + 1) % SEQ == reply.seqNr && s.lastAcked == reply.ackNr
    {
      var ack: U16 := (reply.seqNr - 1) % SEQ;
      PreviousNumber(reply.seqNr);
      s := new UtpSocket.Established(senderId, receiverId, 2, ack, 0, reply.ackNr, reply.wndSize, events);
      s.BlankIsValid();
    }

    lemma NothingSent()
      requires sendWindow == [] && unsentQueue == [] && inHand == [] && queued == [] && acked == [] && live == []
      requires written == [] && currWindow == 0 && seqNr == firstSeq && outbox == []
      ensures ValidSend() && ValidOutbox() && ValidWire()
    {
      assert acked + sendWindow + (inHand + unsentQueue) == [];
      CarriesNothing();
    }

    lemma NothingReceived()
      requires ops == [] && incomingBuffer == [] && pendingData == [] && removed == [] && delivered == []
      requires start == R.Receiver([], [], ackNr, lastDropped, [], []) && copies == [] && handed == [] && discarded == 0
      ensures ValidReceive() && ValidHanded()
    {
      assert R.Run(start, []) == start;
    }

    lemma NothingMeasured()
      requires samples == [] && baseDelays == [] && currentDelays == [] && sendWindow == []
      requires rtt == 0 && rttVariance == 0 && congestionTimeout >= C.MIN_CONGESTION_TIMEOUT && cwnd >= C.MSS
      ensures ValidDelay() && ValidClock()
    {
      assert D.Periods([]) == [];
    }

    /** A clock reading. */
    method Now() returns (t: U32)
      requires ValidClock()
      modifies `clock, `monotone
      ensures t == clock && ValidClock()
      ensures monotone == (old(monotone) && old(clock) <= t)
    {
      t := *;
      monotone := monotone && clock <= t;
      clock := t;
    }

    method Transmit(p: Packet)
      requires ValidOutbox() && ValidWire() && (p.ty.Data? ==> FromQueue(p))
      modifies `outbox
      ensures ValidOutbox() && ValidWire() && outbox == old(outbox) + [p]
    {
      WireGrows(acked, outbox, p);
      WireGrows(sendWindow, outbox, p);
      outbox := outbox + [p];
    }

    // ----- steps that keep the whole invariant -----

    method Tick() returns (t: U32)
      requires Valid()
      modifies `clock, `monotone
      ensures Valid() && t == clock && monotone == (old(monotone) && old(clock) <= t)
    {
      hide ValidSend, ValidReceive, ValidHanded, ValidDelay, ValidClock, ValidOutbox, ValidWire;
      t := Now();
    }

    method Emit(p: Packet)
      requires Valid() && (p.ty.Data? ==> FromQueue(p))
      modifies `outbox
      ensures Valid() && outbox == old(outbox) + [p]
    {
      hide ValidSend, ValidReceive, ValidHanded, ValidDelay, ValidClock, ValidOutbox, ValidWire;
      Transmit(p);
    }

    method Enter(next: SocketState)
      requires Valid()
      modifies `state
      ensures Valid() && state == next
    {
      hide ValidSend, ValidReceive, ValidHanded, ValidDelay, ValidClock, ValidOutbox, ValidWire;
      state := next;
    }

    method NextEvent() returns (event: Event)
      requires Valid() && inbox != []
      modifies `inbox
      ensures Valid() && event == old(inbox)[0] && inbox == old(inbox)[1..]
    {
      hide ValidSend, ValidReceive, ValidHanded, ValidDelay, ValidClock, ValidOutbox, ValidWire;
      event := inbox[0];
      inbox := inbox[1..];
    }

    method Halve()
      requires Valid()
      modifies `cwnd
      ensures Valid() && cwnd == C.Max(old(cwnd) / 2, C.MIN_CWND * C.MSS)
    {
      hide ValidSend, ValidReceive, ValidHanded, ValidClock, ValidOutbox, ValidWire, D.BaseDelaysFor, D.IsSuffix;
      cwnd := C.Max(cwnd / 2, C.MIN_CWND * C.MSS);
    }

    ghost method Log(packet: Packet)
      requires Valid()
      modifies `arrived
      ensures Valid() && arrived == old(arrived) + [packet]
    {
      hide ValidSend, ValidHanded, ValidDelay, ValidClock, ValidOutbox, ValidWire, R.From, R.Run, R.Conserves, View;
      R.FromGrows(ops, arrived, packet);
      arrived := arrived + [packet];
    }

    /** Copies at most `n` bytes out. */
    method ReadOut(n: nat, ghost app: bool) returns (data: seq<Byte>)
      requires Valid()
      modifies `incomingBuffer, `pendingData, `ackNr, `lastDropped, `removed, `delivered, `ops, `copies, `handed, `discarded
      ensures Valid() && |data| <= n && handed == if app then old(handed) + data else old(handed)
      ensures View() == R.Flush(old(View()), n) && Discards(app)
    {
      hide ValidSend, ValidReceive, ValidHanded, ValidDelay, ValidClock, ValidOutbox, ValidWire, R.Flush;
      data := FlushIncomingBuffer(n, app);
    }

    // ----- the receiving side -----

    method SetAckNr(n: U16)
      requires ValidReceive() && R.Bears(arrived, n)
      modifies `ackNr, `ops
      ensures ValidReceive() && ackNr == n && ops == old(ops) + [R.SetAck(n)]
    {
      R.RunSnoc(start, ops, R.SetAck(n));
      R.FromSnoc(ops, R.SetAck(n), arrived);
      ackNr := n;
      ops := ops + [R.SetAck(n)];
    }

    method InsertIntoBuffer(p: Packet)
      requires ValidReceive() && p in arrived && p.ty.Data?
      modifies `incomingBuffer, `ops
      ensures ValidReceive() && ops == old(ops) + [R.Insert(p)]
      ensures View() == R.Step(old(View()), R.Insert(p))
    {
      R.RunConserves(start, ops);
      R.RunSnoc(start, ops, R.Insert(p));
      R.FromSnoc(ops, R.Insert(p), arrived);
      var last := |incomingBuffer| - 1;
      if incomingBuffer != [] && p.seqNr > incomingBuffer[last].seqNr {
        R.InsertedAtEnd(incomingBuffer, p);
        incomingBuffer := incomingBuffer + [p];
      } else {
        var i := R.CountBelow(incomingBuffer, p.seqNr);
        if i == |incomingBuffer| || incomingBuffer[i].seqNr != p.seqNr {
          incomingBuffer := incomingBuffer[..i] + [p] + incomingBuffer[i..];
        }
      }
      ops := ops + [R.Insert(p)];
    }

    method AdvanceIncomingBuffer() returns (p: Option<Packet>)
      modifies `incomingBuffer, `ackNr, `lastDropped, `removed
      ensures p.None? <==> old(incomingBuffer) == []
      ensures p.None? ==> View() == old(View())
      ensures p.Some? ==> p.value == old(incomingBuffer)[0] && View() == R.Advance(old(View()))
    {
      if incomingBuffer != [] {
        var first := incomingBuffer[0];
        incomingBuffer := incomingBuffer[1..];
        ackNr := first.seqNr;
        lastDropped := ackNr;
        removed := removed + [first];
        return Some(first);
      } else {
        return None;
      }
    }

    /** Copies at most `n` bytes out, into a buffer of the application or (`!app`) one that nobody reads. */
    method FlushIncomingBuffer(n: nat, ghost app: bool) returns (data: seq<Byte>)
      requires ValidReceive() && ValidHanded()
      modifies `incomingBuffer, `pendingData, `ackNr, `lastDropped, `removed, `delivered, `ops, `copies, `handed, `discarded
      ensures ValidReceive() && ValidHanded() && ops == old(ops) + [R.Read(n)]
      ensures View() == R.Flush(old(View()), n)
      ensures |data| <= n && delivered == old(delivered) + data
      ensures handed == if app then old(handed) + data else old(handed)
      ensures discarded == if app then old(discarded) else old(discarded) + |data|
    {
      hide ValidReceive, View, Copied, HandedOut, ThrownAway, R.Flush;
      data := CopyOut(n);
      CopySnoc(copies, Copy(app, data));
      copies := copies + [Copy(app, data)];
      if app {
        handed := handed + data;
      } else {
        assert handed + [] == handed;
        discarded := discarded + |data|;
      }
    }

    method CopyOut(n: nat) returns (data: seq<Byte>)
      requires ValidReceive()
      modifies `incomingBuffer, `pendingData, `ackNr, `lastDropped, `removed, `delivered, `ops
      ensures ValidReceive() && ops == old(ops) + [R.Read(n)]
      ensures View() == R.Flush(old(View()), n)
      ensures |data| <= n && delivered == old(delivered) + data
    {
      R.RunSnoc(start, ops, R.Read(n));
      R.FromSnoc(ops, R.Read(n), arrived);
      hide R.From, R.Run, R.Conserves, R.Flush, View;
      ops := ops + [R.Read(n)];
      data := TakeOut(n);
    }

    /** The two branches: what is left of a packet partly read, else the packet next in line. */
    method TakeOut(n: nat) returns (data: seq<Byte>)
      modifies `incomingBuffer, `pendingData, `ackNr, `lastDropped, `removed, `delivered
      ensures View() == R.Flush(old(View()), n)
      ensures |data| <= n && delivered == old(delivered) + data
    {
      if pendingData != [] {
        var flushed := if |pendingData| < n then |pendingData| else n;
        data := pendingData[..flushed];
        delivered := delivered + data;
        if flushed == |pendingData| {
          pendingData := [];
          var p := AdvanceIncomingBuffer();
          if p.Some? {
            pendingData := p.value.payload;
          }
        } else {
          pendingData := pendingData[flushed..];
        }
      } else if incomingBuffer != [] &&
                (ackNr == incomingBuffer[0].seqNr || (ackNr + 1) % SEQ == incomingBuffer[0].seqNr) {
        var payload := incomingBuffer[0].payload;
        var flushed := if |payload| < n then |payload| else n;
        data := payload[..flushed];
        delivered := delivered + data;
        if flushed != |payload| {
          pendingData := payload[flushed..];
        }
        var p := AdvanceIncomingBuffer();
      } else {
        data := [];
        assert delivered == old(delivered) + data;
      }
    }

    // ----- delays and congestion -----

    method UpdateBaseDelay(delay: int, now: int)
      modifies `baseDelays, `lastRollover
      ensures (baseDelays, lastRollover) ==
              D.NextBaseDelays(old(baseDelays), old(lastRollover), D.Sample(now, delay))
    {
      if baseDelays == [] || now - lastRollover > D.MAX_BASE_DELAY_AGE {
        lastRollover := now;
        if |baseDelays| == D.BASE_HISTORY {
          baseDelays := baseDelays[1..];
        }
        baseDelays := baseDelays + [delay];
      } else {
        var last := |baseDelays| - 1;
        if delay < baseDelays[last] {
          baseDelays := baseDelays[last := delay];
        }
      }
    }

    method UpdateCurrentDelay(delay: int, now: int)
      modifies `currentDelays
      ensures currentDelays == D.DropOld(old(currentDelays), now, rtt * 100) + [D.Sample(now, delay)]
    {
      while currentDelays != [] && now - currentDelays[0].receivedAt > rtt * 100
        invariant D.DropOld(currentDelays, now, rtt * 100) == D.DropOld(old(currentDelays), now, rtt * 100)
        decreases |currentDelays|
      {
        currentDelays := currentDelays[1..];
      }
      currentDelays := currentDelays + [D.Sample(now, delay)];
    }

    /** Both delay lists take the sample, and the queuing delay stays sound. */
    method TakeSample(delay: int, now: int)
      requires ValidDelay() && ValidClock()
      requires now == clock && (monotone ==> 0 <= delay < C.U32_RANGE)
      modifies `baseDelays, `currentDelays, `lastRollover, `samples
      ensures ValidDelay() && ValidClock() && samples == old(samples) + [D.Sample(now, delay)]
      ensures currentDelays != []
    {
      hide D.BaseDelaysFor, D.IsSuffix, D.QueuingDelay, D.NextBaseDelays, D.DropOld, TakenBy, SentBy;
      ghost var s := D.Sample(now, delay);
      SampleStep(samples, currentDelays, baseDelays, lastRollover, rtt, s);
      if monotone {
        TakenBySnoc(samples, clock, s);
      }
      UpdateBaseDelay(delay, now);
      UpdateCurrentDelay(delay, now);
      samples := samples + [s];
    }

    method UpdateCongestionWindow(offTarget: real, bytesNewlyAcked: nat)
      requires ValidDelay()
      modifies `cwnd
      ensures ValidDelay() && cwnd == C.NextCwnd(old(cwnd), currWindow, offTarget, bytesNewlyAcked)
    {
      var increase := C.CwndIncrease(cwnd, offTarget, bytesNewlyAcked);
      cwnd := C.SaturatingU32(cwnd as real + increase);
      cwnd := C.Min(cwnd, currWindow + C.ALLOWED_INCREASE * C.MSS);
      cwnd := C.Max(cwnd, C.MIN_CWND * C.MSS);
    }

    method UpdateCongestionTimeout(sample: int)
      requires ValidDelay() && 0 <= sample <= D.MAX_RTT
      modifies `rtt, `rttVariance, `congestionTimeout
      ensures ValidDelay()
      ensures rtt == C.NextRtt(old(rtt), sample) && rttVariance == C.NextRttVariance(old(rtt), old(rttVariance), sample)
      ensures congestionTimeout == C.TimeoutFor(rtt, rttVariance) <= C.MAX_CONGESTION_TIMEOUT
    {
      C.RttStepInRange(rtt, rttVariance, sample);
      var delta := rtt - sample;
      rttVariance := rttVariance + DivTrunc(C.Abs(delta) - rttVariance, 4);
      rtt := rtt + DivTrunc(sample - rtt, 8);
      congestionTimeout := C.Max(rtt + rttVariance * 4, C.MIN_CONGESTION_TIMEOUT);
      congestionTimeout := C.Min(congestionTimeout, C.MAX_CONGESTION_TIMEOUT);
    }

    // ----- the send window -----

    /** Forgets the packets that the peer has acknowledged up to `lastAcked`. */
    method AdvanceSendWindow()
      requires Valid()
      modifies `sendWindow, `currWindow, `acked
      ensures Valid()
      ensures var k := AckedCount(old(sendWindow), lastAcked);
              && sendWindow == old(sendWindow)[k..] && acked == old(acked) + old(sendWindow)[..k]
              && currWindow == old(currWindow) - SumLen(old(sendWindow)[..k])
    {
      hide ValidReceive, ValidHanded, ValidDelay, ValidOutbox;
      hide NumberedFrom, Payloads, NoLongerThan, Carries, SumLen, TakenBy, D.QueuingDelay, AllOnWire;
      var position := PositionOf(sendWindow, lastAcked);
      if position < |sendWindow| {
        ghost var w := sendWindow;
        for j := 0 to position + 1
          invariant sendWindow == w[j..] && currWindow == SumLen(w[j..]) && acked == old(acked)
        {
          SumLenStep(w, j);
          currWindow := currWindow - Len(sendWindow[0]);
          sendWindow := sendWindow[1..];
        }
        var k := position + 1;
        RemovePrefix(acked, w, inHand + unsentQueue, k);
        MovedOnWire(acked, w, k, outbox);
        acked := acked + w[..k];
      } else {
        assert acked + sendWindow[..0] == acked && sendWindow[0..] == sendWindow;
        NoBytes();
      }
    }

    /** Waits until the window has room, but not for long; the wait handles whatever arrives. */
    method AwaitRoom() returns (r: Outcome<()>)
      requires Valid()
      modifies this
      ensures Valid() && Kept() && handed == old(handed)
      ensures inbox == old(inbox) ==> WindowKept() && outbox == old(outbox)
      ensures old(Room()) ==> r.Success? && inbox == old(inbox) && state == old(state)
      ensures AllThrownAway()
      decreases |inbox|, 1
    {
      hide Valid, Fixed, Flow, IsState, Received;
      Balance();
      var maxInflight := C.Max(C.MIN_CWND * C.MSS, C.Min(cwnd, remoteWndSize));
      var began := Tick();
      var now := Tick();
      while currWindow >= maxInflight && now - began < PRE_SEND_TIMEOUT
        invariant Valid() && Kept() && handed == old(handed)
        invariant inbox == old(inbox) ==> WindowKept() && outbox == old(outbox)
        invariant old(Room()) ==> inbox == old(inbox) && currWindow == old(currWindow) && state == old(state)
        decreases |inbox|
      {
        var n := Recv(BUF_SIZE, false);
        if n.Failure? {
          Balance();
          return Failure(n.error);
        }
        now := Tick();
      }
      Balance();
      return Success(());
    }

    /** Puts a packet on the wire with fresh stamps, after waiting for room. */
    method SendPacket(packet: Packet) returns (r: Outcome<Packet>)
      requires Valid() && (packet.ty.Data? ==> FromQueue(packet))
      modifies this
      ensures Valid() && Kept() && handed == old(handed)
      ensures inbox == old(inbox) ==> WindowKept()
      ensures r.Success? ==> Unstamp(r.value) == Unstamp(packet)
      ensures r.Success? ==> |outbox| > |old(outbox)| && outbox[|outbox| - 1] == r.value
      ensures r.Success? ==> monotone ==> r.value.timestamp <= clock
      ensures r.Success? && inbox == old(inbox) ==> outbox == old(outbox) + [r.value]
      ensures r.Failure? && inbox == old(inbox) ==> outbox == old(outbox)
      ensures old(Room()) ==> r.Success? && inbox == old(inbox) && state == old(state)
      decreases |inbox|, 2
    {
      hide Valid, Flow, Room;
      var ready := AwaitRoom();
      if ready.Failure? {
        return Failure(ready.error);
      }
      var t := Tick();
      var p := packet.(timestamp := t, timestampDifference := theirDelay);
      Emit(p);
      return Success(p);
    }

    /** Retransmits the packet with the given number, if it is still in the window; errors are
        ignored. */
    method ResendLostPacket(lost: U16)
      requires Valid()
      modifies this
      ensures Valid() && Kept() && handed == old(handed)
      ensures inbox == old(inbox) ==> WindowKept()
      ensures inbox == old(inbox) ==> outbox == old(outbox) || Resent(outbox, old(outbox), old(sendWindow), [lost])
      ensures old(Room()) ==>
                inbox == old(inbox) && state == old(state) && Resent(outbox, old(outbox), old(sendWindow), [lost])
      ensures old(sendWindow) == [] ==> inbox == old(inbox) && state == old(state)
      decreases |inbox|, 3
    {
      hide Valid, Fixed, Found, Room;
      FoundSingle(sendWindow, lost);
      var position := PositionOf(sendWindow, lost);
      if position < |sendWindow| {
        var packet := sendWindow[position];
        InFlightFromQueue(position);
        var r := SendPacket(packet);
      } else {
        assert outbox + [] == outbox;
      }
    }

    lemma StampFromQueue(p: Packet, q: Packet)
      requires FromQueue(p) && Unstamp(p) == Unstamp(q)
      ensures FromQueue(q)
    {
    }

    lemma InFlightFromQueue(position: nat)
      requires Valid() && position < |sendWindow|
      ensures FromQueue(sendWindow[position])
    {
      InFlightIsQueued(position);
    }

    lemma InFlightIsQueued(position: nat)
      requires ValidSend() && position < |sendWindow|
      ensures FromQueue(sendWindow[position])
    {
      var i := |acked| + position;
      var lists := acked + sendWindow + (inHand + unsentQueue);
      assert lists[i] == sendWindow[position];
      CarriedIsQueued(lists, queued, live, i);
    }

    // ----- handling packets -----

    method PrepareReply(original: Packet, ty: PacketType) returns (reply: Packet)
      requires Valid()
      modifies `clock, `monotone
      ensures Valid() && (monotone ==> old(monotone))
      ensures reply.ty == ty && reply.connectionId == senderId && reply.seqNr == seqNr && reply.ackNr == ackNr
      ensures reply.timestamp == clock && reply.timestampDifference == AbsDiff(clock, original.timestamp)
      ensures reply.extensions == [] && reply.payload == []
    {
      hide Valid;
      var now := Tick();
      reply := EMPTY_PACKET.(ty := ty, timestamp := now, timestampDifference := AbsDiff(now, original.timestamp),
                             connectionId := senderId, seqNr := seqNr, ackNr := ackNr);
    }

    /** Adds the selective ack to a reply when the packet answered is not the next one. */
    method AddSack(packet: Packet, reply: Packet) returns (r: Packet)
      requires Valid() && reply.extensions == []
      ensures r.(extensions := []) == reply
      ensures r.extensions == [] <==>
                (packet.seqNr - ackNr) % SEQ <= 1 || CountAhead(incomingBuffer, ackNr) == 0
      ensures r.extensions != [] ==>
                && |r.extensions| == 1 && r.extensions[0].ty == SELECTIVE_ACK
                && SackFor(r.extensions[0].data, incomingBuffer, ackNr)
    {
      hide ValidSend, ValidHanded, ValidDelay, ValidClock, ValidOutbox, ValidWire;
      r := reply;
      if (packet.seqNr - ackNr) % SEQ > 1 {
        R.RunConserves(start, ops);
        var sack := BuildSelectiveAck(incomingBuffer, ackNr);
        if sack != [] {
          r := WithSack(reply, sack);
        }
      }
    }

    method HandleDataPacket(packet: Packet) returns (reply: Packet)
      requires Valid()
      modifies `clock, `monotone
      ensures Valid() && (monotone ==> old(monotone))
      ensures reply.ty == (if state.FinSent? then Fin else State) && reply.ackNr == ackNr
      ensures reply.connectionId == senderId
      ensures reply.extensions == [] <==>
                (packet.seqNr - ackNr) % SEQ <= 1 || CountAhead(incomingBuffer, ackNr) == 0
      ensures reply.extensions != [] ==>
                && |reply.extensions| == 1 && reply.extensions[0].ty == SELECTIVE_ACK
                && SackFor(reply.extensions[0].data, incomingBuffer, ackNr)
    {
      hide Valid, SackFor, CountAhead;
      reply := PrepareReply(packet, if state.FinSent? then Fin else State);
      reply := AddSack(packet, reply);
    }

    /** The measurements that an acknowledgement of the packet at `index` triggers. */
    method MeasureAck(index: nat) returns (bytesNewlyAcked: nat)
      requires index < |sendWindow| && ValidDelay() && ValidClock()
      modifies `clock, `monotone, `baseDelays, `currentDelays, `lastRollover, `samples,
               `cwnd, `rtt, `rttVariance, `congestionTimeout
      ensures ValidDelay() && ValidClock() && (monotone ==> old(monotone)) && old(samples) <= samples
      ensures bytesNewlyAcked == SumLen(sendWindow[..index + 1])
      ensures C.MIN_CWND * C.MSS <= cwnd <= C.Max(C.MIN_CWND * C.MSS, currWindow + C.ALLOWED_INCREASE * C.MSS)
      ensures C.MIN_CONGESTION_TIMEOUT <= congestionTimeout <= C.MAX_CONGESTION_TIMEOUT
      ensures monotone ==> 0 <= D.QueuingDelay(currentDelays, baseDelays) < C.U32_RANGE
    {
      hide SumLen, TakenBy, D.BaseDelaysFor, D.IsSuffix, D.QueuingDelay;
      bytesNewlyAcked := SumLen(sendWindow[..index + 1]);
      var now := Now();
      var ourDelay := now - sendWindow[index].timestamp;
      TakeSample(ourDelay, now);
      var queuing := D.QueuingDelay(currentDelays, baseDelays);
      UpdateCongestionWindow(C.OffTarget(queuing), bytesNewlyAcked);
      UpdateCongestionTimeout(C.RttSample(ourDelay, queuing));
    }

    /** Resends what one selective ack reports missing; tells whether it reports anything. */
    method HandleSack(ack: U16, bits: seq<Byte>) returns (loss: bool)
      requires Valid()
      modifies this
      ensures Valid() && Kept() && handed == old(handed)
      ensures inbox == old(inbox) ==> WindowKept()
      ensures loss == (SackNumbers(old(sendWindow), ack, bits) != [])
      ensures old(Room()) || !loss ==>
                && inbox == old(inbox) && state == old(state)
                && Resent(outbox, old(outbox), old(sendWindow), SackNumbers(old(sendWindow), ack, bits))
      ensures old(sendWindow) == [] ==> inbox == old(inbox) && state == old(state)
      decreases |inbox|, 4
    {
      hide Valid, Fixed, PositionOf, Resent, LostFrom, CountOnes;
      loss := false;
      ghost var w := sendWindow;
      ghost var done: seq<U16> := [];
      ResentNothing(outbox, w);
      if CountOnes(bits) >= 3 {
        ResendLostPacket((ack + 1) % SEQ);
        loss := true;
        done := [(ack + 1) % SEQ];
      }
      ghost var first := done;
      assert first + [] == first;
      assert first == [] ==> sendWindow == w;
      if sendWindow != [] {
        var lost := LostPackets(ack, bits, sendWindow[|sendWindow| - 1].seqNr);
        for i := 0 to |lost|
          invariant Valid() && Kept() && handed == old(handed)
          invariant inbox == old(inbox) ==> WindowKept()
          invariant done == first + lost[..i] && old(sendWindow) != [] && loss == (done != [])
          invariant old(Room()) || !loss ==>
                      inbox == old(inbox) && state == old(state) && Resent(outbox, old(outbox), w, done)
        {
          ghost var was := outbox;
          ResendLostPacket(lost[i]);
          loss := true;
          if old(Room()) {
            ResentMore(outbox, was, old(outbox), w, done, [lost[i]]);
          }
          done := done + [lost[i]];
        }
        assert lost[..|lost|] == lost;
      }
      assert old(Room()) || first == [] ==> done == SackNumbers(w, ack, bits);
    }

    /** Goes through the extensions of an acknowledgement and the fast-resend rule. */
    method DetectLoss(packet: Packet) returns (loss: bool)
      requires Valid()
      modifies this
      ensures Valid() && Kept() && handed == old(handed)
      ensures inbox == old(inbox) ==> WindowKept()
      ensures loss == LossSeen(old(sendWindow), old(duplicateAckCount), packet)
      ensures old(Room()) || !loss ==>
                && inbox == old(inbox) && state == old(state)
                && Resent(outbox, old(outbox), old(sendWindow),
                          LossNumbers(old(sendWindow), old(duplicateAckCount), packet))
      ensures old(sendWindow) == [] ==> inbox == old(inbox) && state == old(state)
      decreases |inbox|, 5
    {
      hide Valid, Fixed, PositionOf, Resent, SackNumbers, ExtensionNumbers, HasSack;
      loss := sendWindow != [] && duplicateAckCount == 3;
      var hasSack := false;
      ghost var w := sendWindow;
      ghost var es := packet.extensions;
      ResentNothing(outbox, w);
      NoExtensions(w, packet.ackNr, es);
      for i := 0 to |packet.extensions|
        invariant Valid() && Kept() && handed == old(handed)
        invariant inbox == old(inbox) ==> WindowKept()
        invariant hasSack == HasSack(es[..i])
        invariant old(sendWindow) == [] ==> inbox == old(inbox) && state == old(state)
        invariant loss == ((w != [] && old(duplicateAckCount) == 3) || ExtensionNumbers(w, packet.ackNr, es[..i]) != [])
        invariant old(Room()) || ExtensionNumbers(w, packet.ackNr, es[..i]) == [] ==>
                    && inbox == old(inbox) && state == old(state)
                    && Resent(outbox, old(outbox), w, ExtensionNumbers(w, packet.ackNr, es[..i]))
      {
        ghost var was, done := outbox, ExtensionNumbers(w, packet.ackNr, es[..i]);
        ExtensionStep(w, packet.ackNr, es, i);
        assert done + [] == done;
        if packet.extensions[i].ty == SELECTIVE_ACK {
          hasSack := true;
          var l := HandleSack(packet.ackNr, packet.extensions[i].data);
          loss := loss || l;
          if old(Room()) || (done == [] && !l) {
            ResentMore(outbox, was, old(outbox), w, done, SackNumbers(w, packet.ackNr, es[i].data));
          }
        }
      }
      assert es[..|es|] == es;
      assert ExtensionNumbers(w, packet.ackNr, es) + [] == ExtensionNumbers(w, packet.ackNr, es);
      if sendWindow != [] && duplicateAckCount == 3 && !hasSack {
        ghost var was := outbox;
        var next := (packet.ackNr + 1) % SEQ;
        ResendLostPacket(next);
        if old(Room()) {
          ResentMore(outbox, was, old(outbox), w, ExtensionNumbers(w, packet.ackNr, es), [next]);
        }
      }
    }

    /** Resends what is lost, and halves the congestion window if anything is. With room, or if nothing is
        lost, nothing is received meanwhile. */
    method RespondToLoss(packet: Packet)
      requires Valid()
      modifies this
      ensures Valid() && Kept() && handed == old(handed)
      ensures inbox == old(inbox) ==>
                && sendWindow == old(sendWindow) && acked == old(acked) && currWindow == old(currWindow)
                && lastAcked == old(lastAcked)
                && (cwnd == AfterLoss(false, old(cwnd)) || cwnd == AfterLoss(true, old(cwnd)))
                && View() == old(View()) && discarded == old(discarded)
      ensures old(sendWindow) == [] ==> inbox == old(inbox) && state == old(state)
      ensures old(Room()) || !LossSeen(old(sendWindow), old(duplicateAckCount), packet) ==>
                var w, duplicates := old(sendWindow), old(duplicateAckCount);
                && inbox == old(inbox) && state == old(state) && Resent(outbox, old(outbox), w, LossNumbers(w, duplicates, packet))
                && cwnd == AfterLoss(LossSeen(w, duplicates, packet), old(cwnd))
      decreases |inbox|, 6
    {
      hide Valid, Fixed, Resent, LossNumbers, LossSeen;
      var loss := DetectLoss(packet);
      if loss {
        Halve();
      }
    }

    /** How often in a row the same number was acknowledged. */
    static function Duplicates(ack: U16, last: U16, count: nat): nat { if ack == last then count + 1 else 1 }

    method CountAck(ack: U16)
      requires ValidClock()
      modifies `duplicateAckCount, `lastAcked, `clock, `monotone
      ensures ValidClock() && (monotone ==> old(monotone)) && lastAcked == ack
      ensures duplicateAckCount == Duplicates(ack, old(lastAcked), old(duplicateAckCount))
    {
      if ack == lastAcked {
        duplicateAckCount := duplicateAckCount + 1;
      } else {
        lastAcked := ack;
        var now := Now();
        duplicateAckCount := 1;
      }
    }

    /** Counts the acknowledgement and, if it is for a packet in flight, measures it. */
    method Acknowledge(ack: U16) returns (bytesNewlyAcked: nat)
      requires Valid()
      modifies `duplicateAckCount, `lastAcked, `clock, `monotone, `baseDelays, `currentDelays, `lastRollover,
               `samples, `cwnd, `rtt, `rttVariance, `congestionTimeout
      ensures Valid() && (monotone ==> old(monotone)) && old(samples) <= samples
      ensures lastAcked == ack && duplicateAckCount == Duplicates(ack, old(lastAcked), old(duplicateAckCount))
      ensures AckedCount(sendWindow, ack) == 0 ==> cwnd == old(cwnd)
      ensures bytesNewlyAcked == SumLen(sendWindow[..AckedCount(sendWindow, ack)])
      ensures AckedCount(sendWindow, ack) > 0 ==>
                C.MIN_CWND * C.MSS <= cwnd <= C.Max(C.MIN_CWND * C.MSS, currWindow + C.MSS)
      ensures old(FindsRoom(ack)) ==> Room()
    {
      hide ValidSend, ValidReceive, ValidHanded, ValidDelay, ValidClock, ValidOutbox, ValidWire, SumLen;
      CountAck(ack);
      var index := PositionOf(sendWindow, ack);
      if index < |sendWindow| {
        bytesNewlyAcked := MeasureAck(index);
      } else {
        bytesNewlyAcked := 0;
        NoBytes();
      }
    }

    /** Whether an acknowledgement is sure to find room for what it makes the sender resend: little is
        in flight, or there is room and nothing newly acknowledged changes the congestion window. */
    predicate FindsRoom(ack: U16)
      reads `currWindow, `cwnd, `remoteWndSize, `sendWindow
    {
      currWindow < C.MIN_CWND * C.MSS || (AckedCount(sendWindow, ack) == 0 && Room())
    }

    /** The effect on the congestion window of an acknowledgement that is for nothing in flight. */
    static function AfterLoss(loss: bool, cwnd: nat): nat {
      if loss then C.Max(cwnd / 2, C.MIN_CWND * C.MSS) else cwnd
    }

    static lemma LossKeepsBounds(loss: bool, cwnd: nat, flight: nat)
      requires C.MIN_CWND * C.MSS <= cwnd <= C.Max(C.MIN_CWND * C.MSS, flight + C.MSS)
      ensures C.MIN_CWND * C.MSS <= AfterLoss(loss, cwnd) <= C.Max(C.MIN_CWND * C.MSS, flight + C.MSS)
    {
    }

    /** Measures the acknowledgement, then resends what it reports lost. */
    method MeasureAndRespond(packet: Packet) returns (bytesNewlyAcked: nat)
      requires Valid()
      modifies this
      ensures Valid() && Kept() && handed == old(handed)
      ensures bytesNewlyAcked == SumLen(old(sendWindow)[..AckedCount(old(sendWindow), packet.ackNr)])
      ensures inbox == old(inbox) ==>
                && lastAcked == packet.ackNr && sendWindow == old(sendWindow) && acked == old(acked)
                && currWindow == old(currWindow)
                && (AckedCount(old(sendWindow), packet.ackNr) > 0 ==>
                      C.MIN_CWND * C.MSS <= cwnd <= C.Max(C.MIN_CWND * C.MSS, old(currWindow) + C.MSS))
                && View() == old(View()) && discarded == old(discarded)
      ensures old(sendWindow) == [] ==> inbox == old(inbox) && state == old(state)
      ensures var w, duplicates := old(sendWindow), Duplicates(packet.ackNr, old(lastAcked), old(duplicateAckCount));
              old(FindsRoom(packet.ackNr)) || !LossSeen(w, duplicates, packet) ==>
                && inbox == old(inbox) && state == old(state) && Resent(outbox, old(outbox), w, LossNumbers(w, duplicates, packet))
                && (AckedCount(w, packet.ackNr) == 0 ==>
                      cwnd == AfterLoss(LossSeen(w, duplicates, packet), old(cwnd)))
      decreases |inbox|, 7
    {
      hide Valid, Fixed, SumLen, AckedCount, Resent, LossNumbers, LossSeen, Duplicates, View, AfterLoss, FindsRoom, Room,
           C.Max;
      bytesNewlyAcked := Acknowledge(packet.ackNr);
      if AckedCount(sendWindow, packet.ackNr) > 0 {
        LossKeepsBounds(false, cwnd, currWindow);
        LossKeepsBounds(true, cwnd, currWindow);
      }
      RespondToLoss(packet);
    }

    lemma UndisturbedAck(packet: Packet)
      requires packet.ty.State? && Undisturbed(packet)
      ensures || sendWindow == [] || FindsRoom(packet.ackNr)
              || !LossSeen(sendWindow, Duplicates(packet.ackNr, lastAcked, duplicateAckCount), packet)
    {
      hide LossSeen, AckedCount;
    }

    /** An acknowledgement that is sure not to make the sender wait leaves the receiving side alone. */
    method OnAck(packet: Packet)
      requires Valid() && packet.ty.State?
      modifies this
      ensures Valid() && Kept() && handed == old(handed)
      ensures old(Undisturbed(packet)) ==> state == old(state) && View() == old(View()) && Calm()
      decreases |inbox|, 8, 1
    {
      hide Valid, Kept, SumLen, AckedCount, Resent, LossNumbers, LossSeen, Duplicates, AfterLoss, FindsRoom, C.Max, View,
           Undisturbed;
      if Undisturbed(packet) {
        UndisturbedAck(packet);
      }
      var bytes := HandleStatePacket(packet);
    }

    /** An acknowledgement. If nothing else is received while resending, exactly the packets up to
        the acknowledged one leave the window, their size is what the congestion window was credited
        with, and that window is at most the flight size plus one segment. If there is room, what the
        acknowledgement reports lost goes out again, and the window is halved. */
    method HandleStatePacket(packet: Packet) returns (bytesNewlyAcked: nat)
      requires Valid()
      modifies this
      ensures Valid() && Kept() && handed == old(handed)
      ensures bytesNewlyAcked == SumLen(old(sendWindow)[..AckedCount(old(sendWindow), packet.ackNr)])
      ensures inbox == old(inbox) ==>
                var k := AckedCount(old(sendWindow), packet.ackNr);
                && lastAcked == packet.ackNr
                && sendWindow == old(sendWindow)[k..] && acked == old(acked) + old(sendWindow)[..k]
                && currWindow == old(currWindow) - bytesNewlyAcked
                && (k > 0 ==> C.MIN_CWND * C.MSS <= cwnd <= C.Max(C.MIN_CWND * C.MSS, old(currWindow) + C.MSS))
                && View() == old(View()) && discarded == old(discarded)
      ensures old(sendWindow) == [] ==> inbox == old(inbox) && state == old(state) && sendWindow == []
      ensures var w, duplicates := old(sendWindow), Duplicates(packet.ackNr, old(lastAcked), old(duplicateAckCount));
              old(FindsRoom(packet.ackNr)) || !LossSeen(w, duplicates, packet) ==>
                && inbox == old(inbox) && state == old(state) && Resent(outbox, old(outbox), w, LossNumbers(w, duplicates, packet))
                && (AckedCount(w, packet.ackNr) == 0 ==>
                      cwnd == AfterLoss(LossSeen(w, duplicates, packet), old(cwnd)))
      decreases |inbox|, 8, 0
    {
      hide Valid, Fixed, SumLen, AckedCount, Resent, LossNumbers, LossSeen, Duplicates, AfterLoss, FindsRoom, Room, C.Max,
           View;
      bytesNewlyAcked := MeasureAndRespond(packet);
      AdvanceSendWindow();
    }

    predicate KnownId(packet: Packet) {
      packet.connectionId == senderId || packet.connectionId == receiverId
    }

    /** Handling the packet receives nothing else: it is no acknowledgement, or little or nothing is in
        flight, or it reports no loss. */
    predicate Undisturbed(packet: Packet)
      reads `sendWindow, `currWindow, `lastAcked, `duplicateAckCount
    {
      || !packet.ty.State? || sendWindow == [] || currWindow < C.MIN_CWND * C.MSS
      || !LossSeen(sendWindow, Duplicates(packet.ackNr, lastAcked, duplicateAckCount), packet)
    }

    /** The same for a datagram. */
    predicate Quiet(bytes: seq<Byte>)
      reads `sendWindow, `currWindow, `lastAcked, `duplicateAckCount
    {
      Decode(bytes).Ok? ==> Undisturbed(Decode(bytes).value)
    }

    /** Everything a packet does before its type and the state decide what follows. */
    method NotePacket(packet: Packet)
      requires Valid() && packet in arrived
      modifies `ackNr, `ops
      ensures Valid() && View() == Noted(old(View()), packet)
    {
      hide ValidSend, ValidReceive, ValidHanded, ValidDelay, ValidClock, ValidOutbox, ValidWire;
      if (packet.seqNr - ackNr) % SEQ == 1 {
        SetAckNr(packet.seqNr);
      }
    }

    method NotePeer(packet: Packet)
      requires Valid()
      modifies `remoteWndSize, `theirDelay, `clock, `monotone
      ensures Valid() && (monotone ==> old(monotone)) && remoteWndSize == packet.wndSize
      ensures theirDelay == AbsDiff(clock, packet.timestamp)
    {
      hide ValidSend, ValidReceive, ValidHanded, ValidDelay, ValidClock, ValidOutbox, ValidWire;
      remoteWndSize := packet.wndSize;
      var now := Now();
      theirDelay := AbsDiff(now, packet.timestamp);
    }

    /** Handles a packet and produces the reply it calls for. */
    method HandlePacket(packet: Packet) returns (r: Outcome<Option<Packet>>)
      requires Valid() && packet in arrived
      modifies this
      ensures Valid() && Kept() && handed == old(handed)
      ensures Answers(r, Reply(old(state), packet, KnownId(packet)))
      ensures r.Success? && r.value.Some? ==> r.value.value.ackNr == ackNr
      ensures old(Undisturbed(packet)) ==>
                && state == NextState(old(state), packet, KnownId(packet), seqNr)
                && View() == Noted(old(View()), packet) && Calm()
      ensures !packet.ty.Syn? && !KnownId(packet) ==> sendWindow == old(sendWindow) && remoteWndSize == old(remoteWndSize)
      decreases |inbox|, 10
    {
      hide Valid, Fixed, Noted, NextState, Reply, Answers, View, Undisturbed;
      UnknownIsReset(state, packet, seqNr);
      NotePacket(packet);
      if !packet.ty.Syn? && !KnownId(packet) {
        var reply := PrepareReply(packet, Reset);
        r := Success(Some(reply));
        ResetAnswers(reply);
      } else {
        NotePeer(packet);
        r := Dispatch(packet);
      }
    }

    /** Nothing else was received, and nothing in flight changed hands. */
    twostate predicate Calm()
      reads `inbox, `discarded, `sendWindow
    {
      inbox == old(inbox) && discarded == old(discarded) && (old(sendWindow) == [] ==> sendWindow == [])
    }

    lemma ResetAnswers(reply: Packet)
      requires reply.ty.Reset?
      ensures Answers(Success(Some(reply)), Success(Some(PacketType.Reset)))
    {
    }

    /** What a packet does depending on its type and the state. */
    method Dispatch(packet: Packet) returns (r: Outcome<Option<Packet>>)
      requires Valid()
      modifies this
      ensures Valid() && Kept() && handed == old(handed)
      ensures Answers(r, Reply(old(state), packet, true))
      ensures r.Success? && r.value.Some? ==> r.value.value.ackNr == ackNr
      ensures old(Undisturbed(packet)) ==>
                state == NextState(old(state), packet, true, seqNr) && View() == old(View()) && Calm()
      decreases |inbox|, 9
    {
      hide Valid, Fixed, SumLen, AckedCount, SackFor, CountAhead, Resent, LossNumbers, LossSeen, FindsRoom, View, Undisturbed;
      match packet.ty {
        case Syn =>
          var reply := PrepareReply(packet, Reset);
          r := Success(Some(reply));
        case Data =>
          if state.Connected? || state.FinSent? {
            var reply := HandleDataPacket(packet);
            r := Success(Some(reply));
          } else {
            r := Failure(Other);
          }
        case State =>
          if state.Connected? || (state.FinSent? && packet.ackNr != seqNr) {
            OnAck(packet);
            r := Success(None);
          } else if state.FinSent? {
            Enter(Closed);
            r := Success(None);
          } else {
            r := Failure(Other);
          }
        case Fin =>
          r := HandleFin(packet);
        case Reset =>
          Enter(ResetReceived);
          r := Failure(ConnectionReset);
      }
    }

    method HandleFin(packet: Packet) returns (r: Outcome<Option<Packet>>)
      requires Valid() && packet.ty.Fin?
      modifies `state, `clock, `monotone
      ensures Valid() && (monotone ==> old(monotone))
      ensures Answers(r, Reply(old(state), packet, true))
      ensures r.Success? && r.value.Some? ==> r.value.value.ackNr == ackNr
      ensures state == NextState(old(state), packet, true, seqNr)
    {
      hide Valid, SackFor, CountAhead;
      if state.Connected? || state.FinSent? {
        var reply := PrepareReply(packet, State);
        reply := AddSack(packet, reply);
        Enter(Closed);
        return Success(Some(reply));
      } else if state.Closed? {
        var reply := PrepareReply(packet, State);
        return Success(Some(reply));
      } else {
        return Failure(Other);
      }
    }

    // ----- receiving -----

    /** Doubles the timeout, shrinks the congestion window to one segment and resends: the first
        packet in flight, else the FIN, else three times the last acknowledgement. */
    method HandleReceiveTimeout()
      requires Valid()
      modifies `congestionTimeout, `cwnd, `sendWindow, `clock, `monotone, `outbox
      ensures Valid() && (monotone ==> old(monotone)) && old(outbox) <= outbox
      ensures congestionTimeout == 2 * old(congestionTimeout) && cwnd == C.MSS
      ensures old(sendWindow) == [] && state.FinSent? ==>
                sendWindow == [] && |outbox| == |old(outbox)| + 1 && outbox[|old(outbox)|].ty.Fin?
      ensures old(sendWindow) == [] && !state.FinSent? ==>
                && sendWindow == [] && |outbox| == |old(outbox)| + 3
                && forall i :: |old(outbox)| <= i < |outbox| ==> outbox[i].ty.State? && outbox[i].ackNr == ackNr
      ensures old(sendWindow) != [] ==>
                && sendWindow[1..] == old(sendWindow)[1..] && Unstamp(sendWindow[0]) == Unstamp(old(sendWindow)[0])
                && outbox == old(outbox) + [sendWindow[0]]
    {
      hide Valid;
      BackOff();
      if sendWindow == [] {
        if state.FinSent? {
          SendFin();
        } else {
          SendFastResendRequest();
        }
      } else {
        ResendFirst();
      }
    }

    method BackOff()
      requires Valid()
      modifies `congestionTimeout, `cwnd
      ensures Valid() && congestionTimeout == 2 * old(congestionTimeout) && cwnd == C.MSS
    {
      hide ValidSend, ValidReceive, ValidHanded, ValidClock, ValidOutbox, ValidWire, D.BaseDelaysFor, D.IsSuffix;
      congestionTimeout := congestionTimeout * 2;
      cwnd := C.MSS;
    }

    method ResendFirst()
      requires sendWindow != [] && Valid()
      modifies `sendWindow, `clock, `monotone, `outbox
      ensures Valid() && (monotone ==> old(monotone))
      ensures sendWindow != []
      ensures sendWindow[1..] == old(sendWindow)[1..] && Unstamp(sendWindow[0]) == Unstamp(old(sendWindow)[0])
      ensures outbox == old(outbox) + [sendWindow[0]]
    {
      hide ValidReceive, ValidHanded, ValidDelay;
      hide NumberedFrom, Payloads, NoLongerThan, SumLen, TakenBy, D.QueuingDelay, Carries, AllOnWire, FromQueue, Unstamp;
      var t := Now();
      var p := sendWindow[0].(timestamp := t);
      StampIs(sendWindow[0], t);
      StampCarries(acked, sendWindow, inHand + unsentQueue, queued, live, 0, p);
      InFlightIsQueued(0);
      StampedOnWire(sendWindow, outbox, 0, p);
      StampFromQueue(sendWindow[0], p);
      sendWindow := sendWindow[0 := p];
      Transmit(p);
    }

    method SendFin()
      requires Valid()
      modifies `clock, `monotone, `outbox
      ensures Valid() && (monotone ==> old(monotone)) && old(outbox) <= outbox
      ensures |outbox| == |old(outbox)| + 1 && outbox[|old(outbox)|].ty.Fin?
    {
      hide Valid;
      var t := Tick();
      Emit(EMPTY_PACKET.(ty := Fin, connectionId := senderId, seqNr := seqNr, ackNr := ackNr, timestamp := t));
    }

    method SendFastResendRequest()
      requires Valid()
      modifies `clock, `monotone, `outbox
      ensures Valid() && (monotone ==> old(monotone)) && old(outbox) <= outbox
      ensures |outbox| == |old(outbox)| + 3
      ensures forall i :: |old(outbox)| <= i < |outbox| ==> outbox[i].ty.State? && outbox[i].ackNr == ackNr
    {
      hide Valid;
      for k := 0 to 3
        invariant Valid() && (monotone ==> old(monotone)) && old(outbox) <= outbox
        invariant |outbox| == |old(outbox)| + k
        invariant forall i :: |old(outbox)| <= i < |outbox| ==> outbox[i].ty.State? && outbox[i].ackNr == ackNr
      {
        var t := Tick();
        Emit(EMPTY_PACKET.(ty := State, timestamp := t, timestampDifference := theirDelay,
                               connectionId := senderId, seqNr := seqNr, ackNr := ackNr));
      }
    }

    /** Waits for a datagram, handling timeouts; gives up and closes after too many of them. */
    method AwaitDatagram() returns (r: Outcome<seq<Byte>>)
      requires Valid()
      modifies `state, `inbox, `congestionTimeout, `cwnd, `sendWindow, `clock, `monotone, `outbox
      ensures Valid() && Kept() && (r, inbox) == NextDatagram(old(inbox), maxRetries)
      ensures state == if r == Failure(ConnectionTimedOut) then Closed else old(state)
      ensures inbox == old(inbox) ==> WindowKept() && outbox == old(outbox)
      ensures old(sendWindow) == [] ==> sendWindow == []
      ensures old(inbox) != [] && old(inbox)[0].Datagram? ==> sendWindow == old(sendWindow)
    {
      hide Valid, Fixed, Flow, NextDatagram, View;
      var retries := 0;
      while true
        invariant Valid() && Kept() && state == old(state) && retries <= maxRetries
        invariant NextDatagram(inbox, maxRetries - retries) == NextDatagram(old(inbox), maxRetries)
        invariant inbox == old(inbox) ==> WindowKept() && outbox == old(outbox)
        invariant old(sendWindow) == [] ==> sendWindow == []
        invariant old(inbox) != [] && old(inbox)[0].Datagram? ==> inbox == old(inbox) && sendWindow == old(sendWindow)
        decreases |inbox|
      {
        NextDatagramIs(inbox, maxRetries - retries);
        if retries >= maxRetries {
          Enter(Closed);
          return Failure(ConnectionTimedOut);
        }
        if inbox == [] {
          return Failure(Io);
        }
        var event := NextEvent();
        if event.Datagram? {
          var limit := BUF_SIZE + HEADER_SIZE;
          return Success(if |event.bytes| <= limit then event.bytes else event.bytes[..limit]);
        }
        HandleReceiveTimeout();
        retries := retries + 1;
      }
    }

    lemma NoAckIsQuiet(bytes: seq<Byte>)
      ensures sendWindow == [] || !IsState(bytes) ==> Quiet(bytes)
    {
      hide Decode;
    }

    /** Receives one packet and copies out at most `n` bytes. Unless an acknowledgement makes the sender
        wait, the receiving side does exactly what `Received` says. After timeouts, which shrink the
        congestion window, this is said of acknowledgements only if nothing is in flight. */
    method Recv(n: nat, ghost app: bool) returns (r: Outcome<seq<Byte>>)
      requires Valid()
      modifies this
      ensures Valid() && Kept()
      ensures r.Success? ==> |inbox| < old(|inbox|) && |r.value| <= n
      ensures inbox == old(inbox) ==> WindowKept() && outbox == old(outbox)
      ensures handed == if app && r.Success? then old(handed) + r.value else old(handed)
      ensures var datagram := NextDatagram(old(inbox), maxRetries).0;
              || old(sendWindow) == [] || !(datagram.Success? && IsState(datagram.value))
              || (old(inbox)[0].Datagram? && old(Quiet(datagram.value))) ==>
                && (Mine(), Ended(r)) == Received(old(Mine()), MyTerms(), n) && Discards(app)
                && (old(sendWindow) == [] ==> sendWindow == [])
      decreases |inbox|, 0
    {
      hide Valid, Fixed, Flow, IsState, NextDatagram, Opened, View, Quiet;
      var datagram := AwaitDatagram();
      if datagram.Failure? {
        return Failure(datagram.error);
      }
      NoAckIsQuiet(datagram.value);
      r := HandleDatagram(datagram.value, n, app);
    }

    /** Handles a datagram; one that is not a packet is ignored. */
    method HandleDatagram(bytes: seq<Byte>, n: nat, ghost app: bool) returns (r: Outcome<seq<Byte>>)
      requires Valid()
      modifies this
      ensures Valid() && Kept() && (r.Success? ==> |r.value| <= n)
      ensures handed == if app && r.Success? then old(handed) + r.value else old(handed)
      ensures old(Quiet(bytes)) ==>
                && (Mine(), Ended(r)) == Opened(old(Mine()), MyTerms(), bytes, n) && Discards(app)
                && (old(sendWindow) == [] ==> sendWindow == [])
      decreases |inbox|, 13
    {
      hide Valid, Fixed, View, Decode, Taken;
      var decoded := Decode(bytes);
      if decoded.Err? {
        assert handed + [] == handed;
        return Success([]);
      }
      r := HandleAndAdmit(decoded.value, n, app);
    }

    /** A packet arrives: it is handled, answered and offered to the buffer. */
    method HandleAndAdmit(packet: Packet, n: nat, ghost app: bool) returns (r: Outcome<seq<Byte>>)
      requires Valid()
      modifies this
      ensures Valid() && Kept() && (r.Success? ==> |r.value| <= n)
      ensures handed == if app && r.Success? then old(handed) + r.value else old(handed)
      ensures r.Failure? <==> Reply(old(state), packet, KnownId(packet)).Failure?
      ensures old(Undisturbed(packet)) ==>
                && (Mine(), Ended(r)) == Taken(old(Mine()), MyTerms(), packet, n) && Discards(app)
                && (old(sendWindow) == [] ==> sendWindow == [])
      decreases |inbox|, 12
    {
      hide Valid, Fixed, Flow, Taken, Reply, View;
      Log(packet);
      r := HandleLogged(packet, n, app);
    }

    method HandleLogged(packet: Packet, n: nat, ghost app: bool) returns (r: Outcome<seq<Byte>>)
      requires Valid() && packet in arrived
      modifies this
      ensures Valid() && Kept() && (r.Success? ==> |r.value| <= n)
      ensures handed == if app && r.Success? then old(handed) + r.value else old(handed)
      ensures r.Failure? <==> Reply(old(state), packet, KnownId(packet)).Failure?
      ensures old(Undisturbed(packet)) ==>
                && (Mine(), Ended(r)) == Taken(old(Mine()), MyTerms(), packet, n) && Discards(app)
                && (old(sendWindow) == [] ==> sendWindow == [])
      decreases |inbox|, 11
    {
      hide Valid, Fixed, Flow, Admitted, Noted, NextState, Reply, View, Answers;
      NotedDelivers(View(), packet);
      var reply := HandlePacket(packet);
      NeverData(reply, old(state), packet, KnownId(packet));
      if reply.Failure? {
        return Failure(reply.error);
      }
      var data := ReplyAndAdmit(reply.value, packet, n, app);
      return Success(data);
    }

    method ReplyAndAdmit(reply: Option<Packet>, packet: Packet, n: nat, ghost app: bool) returns (data: seq<Byte>)
      requires Valid() && packet in arrived
      requires reply.Some? ==> !reply.value.ty.Data?
      modifies `outbox, `incomingBuffer, `pendingData, `ackNr, `lastDropped, `removed, `delivered, `ops,
               `copies, `handed, `discarded
      ensures Valid() && |data| <= n && old(outbox) <= outbox
      ensures handed == if app then old(handed) + data else old(handed)
      ensures View() == Admitted(old(View()), packet, n) && Discards(app)
      ensures outbox == old(outbox) + if reply.Some? then [reply.value.(wndSize := WINDOW_SIZE)] else []
    {
      hide Valid, Admitted, View;
      if reply.Some? {
        Emit(reply.value.(wndSize := WINDOW_SIZE));
      } else {
        assert outbox + [] == outbox;
      }
      data := Admit(packet, n, app);
    }

    /** Takes a data packet into the buffer, unless it is the last one removed, and flushes. */
    method Admit(packet: Packet, n: nat, ghost app: bool) returns (data: seq<Byte>)
      requires Valid() && packet in arrived
      modifies `incomingBuffer, `pendingData, `ackNr, `lastDropped, `removed, `delivered, `ops,
               `copies, `handed, `discarded
      ensures Valid() && |data| <= n && delivered == old(delivered) + data
      ensures handed == if app then old(handed) + data else old(handed)
      ensures View() == Admitted(old(View()), packet, n) && Discards(app)
    {
      hide ValidSend, ValidReceive, ValidHanded, ValidDelay, ValidClock, ValidOutbox, ValidWire, R.Flush, R.Step;
      if packet.ty.Data? && (packet.seqNr - lastDropped) % SEQ > 0 {
        InsertIntoBuffer(packet);
      }
      data := FlushIncomingBuffer(n, app);
    }

    // ----- the socket's interface -----

    /** Sends every packet of the unsent queue. An error loses the packet in hand. */
    method Send() returns (r: Outcome<()>)
      requires Valid() && inHand == []
      modifies this
      ensures Valid() && inHand == [] && queued == old(queued) && written == old(written)
      ensures r.Success? ==> unsentQueue == [] && live == old(live) && LiveOnWire()
      ensures r.Failure? ==> |acked| + |sendWindow| < |old(live)| && live == RemoveAt(old(live), |acked| + |sendWindow|)
      ensures old(acked) <= acked && handed == old(handed)
    {
      hide Valid, Flow, LiveOnWire, ValidSend, ValidWire;
      while unsentQueue != []
        invariant Valid() && inHand == [] && queued == old(queued) && written == old(written)
        invariant live == old(live) && old(acked) <= acked && handed == old(handed)
        decreases |unsentQueue|
      {
        var packet := Take();
        var sent := SendPacket(packet);
        if sent.Failure? {
          Drop();
          return Failure(sent.error);
        }
        Store(sent.value);
      }
      AllSent();
      return Success(());
    }

    /** Every packet queued and not dropped was put on the wire. */
    ghost predicate LiveOnWire()
      reads `queued, `live, `outbox
    {
      Increasing(live, |queued|) && AllOnWire(Picked(queued, live), outbox)
    }

    lemma AllSent()
      requires Valid() && inHand == [] && unsentQueue == []
      ensures LiveOnWire()
    {
      hide OnWire;
      assert acked + sendWindow + (inHand + unsentQueue) == acked + sendWindow;
      CarriedOnWire(acked + sendWindow, queued, live, outbox);
    }

    method Take() returns (p: Packet)
      requires Valid() && inHand == [] && unsentQueue != []
      modifies `unsentQueue, `inHand
      ensures Valid() && inHand == [p] && unsentQueue == old(unsentQueue)[1..]
      ensures p.ty.Data? ==> FromQueue(p)
    {
      hide NumberedFrom, Payloads, NoLongerThan, SumLen, Carries, ValidClock, ValidReceive, ValidHanded, ValidDelay,
           ValidOutbox, ValidWire;
      p := unsentQueue[0];
      assert [p] + unsentQueue[1..] == [] + unsentQueue;
      var i := |acked + sendWindow|;
      ghost var lists := acked + sendWindow + (inHand + unsentQueue);
      assert lists[i] == p;
      CarriedIsQueued(lists, queued, live, i);
      assert Unstamp(p) == Unstamp(queued[live[i]]);
      unsentQueue := unsentQueue[1..];
      inHand := [p];
    }

    ghost method Drop()
      requires Valid() && |inHand| == 1
      modifies `inHand, `live
      ensures Valid() && inHand == []
      ensures |acked| + |sendWindow| < |old(live)| && live == RemoveAt(old(live), |acked| + |sendWindow|)
    {
      hide NumberedFrom, Payloads, NoLongerThan, SumLen, Carries, ValidClock, ValidReceive, ValidHanded, ValidDelay,
           ValidOutbox, ValidWire;
      assert inHand == [inHand[0]];
      DropKeeps(acked + sendWindow, inHand[0], unsentQueue, queued, live);
      live := RemoveAt(live, |acked| + |sendWindow|);
      inHand := [];
    }

    /** The packet in hand, stamped and sent as `p`, joins the packets in flight. */
    method Store(p: Packet)
      requires Valid() && |inHand| == 1 && Unstamp(p) == Unstamp(inHand[0])
      requires monotone ==> p.timestamp <= clock
      requires outbox != [] && outbox[|outbox| - 1] == p
      modifies `sendWindow, `currWindow, `inHand
      ensures Valid() && inHand == [] && sendWindow == old(sendWindow) + [p]
    {
      hide NumberedFrom, Payloads, NoLongerThan, SumLen, Carries, ValidReceive, ValidHanded, ValidDelay, ValidOutbox,
           AllOnWire, TakenBy, D.QueuingDelay;
      assert inHand == [inHand[0]];
      StoreKeeps(acked, sendWindow, inHand[0], p, unsentQueue, queued, live);
      SumLenSnoc(sendWindow, p);
      SentIsOnWire(sendWindow, outbox, p);
      currWindow := currWindow + Len(p);
      sendWindow := sendWindow + [p];
      inHand := [];
    }

    /** Queues `data` in packets of at most one segment and sends them. */
    method SendTo(data: seq<Byte>) returns (r: Outcome<nat>)
      requires Valid() && inHand == []
      modifies this
      ensures Valid() && inHand == []
      ensures old(state).Closed? ==> r == Failure(ConnectionClosed) && written == old(written) && queued == old(queued)
      ensures !old(state).Closed? ==> written == old(written) + data
      ensures r.Success? ==> r.value == |data| && unsentQueue == [] && LiveOnWire()
      ensures Dropped() == old(Dropped()) + if r.Success? || old(state).Closed? then 0 else 1
      ensures old(queued) <= queued && old(acked) <= acked && handed == old(handed)
    {
      hide Valid, LiveOnWire;
      if state.Closed? {
        return Failure(ConnectionClosed);
      }
      var i := 0;
      while i < |data|
        invariant i <= |data| && Valid() && inHand == [] && Dropped() == old(Dropped()) && acked == old(acked)
        invariant handed == old(handed)
        invariant written == old(written) + data[..i] && old(queued) <= queued
      {
        var j := if i + CHUNK < |data| then i + CHUNK else |data|;
        Enqueue(data[i..j]);
        assert data[..i] + data[i..j] == data[..j];
        i := j;
      }
      assert data[..i] == data;
      var sent := Send();
      if sent.Failure? {
        return Failure(sent.error);
      }
      return Success(|data|);
    }

    /** How many queued packets were dropped by errors. */
    ghost function Dropped(): int
      reads `queued, `live
    {
      |queued| - |live|
    }

    method Enqueue(chunk: seq<Byte>)
      requires Valid() && |chunk| <= CHUNK
      modifies `unsentQueue, `seqNr, `queued, `written, `live
      ensures Valid() && written == old(written) + chunk && old(queued) <= queued && Dropped() == old(Dropped())
    {
      hide ValidReceive, ValidHanded, ValidDelay, ValidClock, ValidWire, ValidSend, ValidOutbox;
      var packet := EMPTY_PACKET.(payload := chunk, wndSize := (WINDOW_SIZE - |sendWindow|) % C.U32_RANGE,
                                  seqNr := seqNr, ackNr := ackNr, connectionId := senderId);
      Push(packet);
    }

    method Push(packet: Packet)
      requires ValidSend() && ValidOutbox() && Len(packet) <= C.MSS && packet.seqNr == seqNr
      modifies `unsentQueue, `seqNr, `queued, `written, `live
      ensures ValidSend() && ValidOutbox()
      ensures written == old(written) + packet.payload && queued == old(queued) + [packet]
      ensures live == old(live) + [|old(queued)|]
    {
      hide NumberedFrom, Payloads, NoLongerThan, SumLen, Carries, Len;
      EnqueueKeeps(acked + sendWindow, inHand + unsentQueue, queued, live, packet);
      EnqueueNumbers(queued, firstSeq, packet);
      PayloadsSnoc(queued, packet);
      assert (inHand + unsentQueue) + [packet] == inHand + (unsentQueue + [packet]);
      assert forall i :: 0 <= i < |queued| ==> queued[i] == (queued + [packet])[i];
      unsentQueue := unsentQueue + [packet];
      seqNr := (seqNr + 1) % SEQ;
      live := live + [|queued|];
      queued := queued + [packet];
      written := written + packet.payload;
    }

    /** Waits until everything in flight is acknowledged. */
    method Flush() returns (r: Outcome<()>)
      requires Valid()
      modifies this
      ensures Valid() && Kept() && handed == old(handed)
      ensures r.Success? ==> sendWindow == []
      ensures old(sendWindow) == [] ==>
                r.Success? && WindowKept() && outbox == old(outbox) && inbox == old(inbox) && state == old(state)
    {
      hide Valid, Fixed, IsState, Received;
      while sendWindow != []
        invariant Valid() && Kept() && handed == old(handed)
        invariant old(sendWindow) == [] ==>
                    WindowKept() && outbox == old(outbox) && inbox == old(inbox) && state == old(state)
        decreases |inbox|
      {
        var n := Recv(0, false);
        if n.Failure? {
          return Failure(n.error);
        }
      }
      return Success(());
    }

    /** Reads at most `n` bytes; an empty result means that the connection is closed. */
    method RecvFrom(n: nat) returns (r: Outcome<seq<Byte>>)
      requires Valid()
      modifies this
      ensures Valid() && Kept()
      ensures r.Success? ==> |r.value| <= n && (r.value == [] ==> state.Closed?)
      ensures handed == if r.Success? then old(handed) + r.value else old(handed)
    {
      hide Valid, Fixed, Flow, R.Flush, IsState, Received;
      var data := ReadOut(n, true);
      if |data| > 0 {
        return Success(data);
      }
      assert handed == old(handed) + [] == old(handed);
      if state.ResetReceived? {
        return Failure(ConnectionReset);
      }
      while true
        invariant Valid() && Kept() && handed == old(handed)
        decreases |inbox|
      {
        if state.Closed? {
          return Success([]);
        }
        r := Recv(n, true);
        if r.Failure? || r.value != [] {
          return;
        }
      }
    }

    /** Waits for what is in flight, sends a FIN and waits until the peer closes too. With nothing in
        flight, what arrives meanwhile is exactly what `Settled` says, and all that is copied out is
        thrown away. */
    method Close() returns (r: Outcome<()>)
      requires Valid()
      modifies this
      ensures Valid() && Fixed() == old(Fixed()) && MyTerms() == old(MyTerms())
      ensures old(acked) <= acked && old(outbox) <= outbox && handed == old(handed)
      ensures r.Success? ==> state.Closed?
      ensures AllThrownAway()
      ensures r.Success? && !old(state).Closed? ==> exists i :: |old(outbox)| <= i < |outbox| && outbox[i].ty.Fin?
      ensures !old(state).Closed? && old(sendWindow) == [] ==>
                && |outbox| > |old(outbox)| && outbox[|old(outbox)|].ty.Fin?
                && (Mine(), r) == Settled(Side(old(View()), FinSent, old(inbox)), MyTerms()) && Discards(false)
    {
      hide Valid, Settled, View, Fixed;
      Balance();
      if state.Closed? {
        return Success(());
      }
      var flushed := Flush();
      if flushed.Failure? {
        Balance();
        return flushed;
      }
      ghost var fin := |outbox|;
      SendFin();
      Enter(FinSent);
      r := AwaitClose();
      Balance();
      assert outbox[fin].ty.Fin?;
    }

    /** Closing a new connection. */
    method CloseBlank() returns (r: Outcome<()>)
      requires Valid() && Blank() && state == Connected
      modifies this
      ensures var view := Settled(Side(old(View()), FinSent, old(inbox)), old(MyTerms())).0.view;
              removed == view.removed && delivered == view.delivered && handed == [] && discarded == |delivered|
    {
      assert !state.Closed? && sendWindow == [] && handed == [] && discarded == 0 && View().delivered == [];
      hide Valid, Blank, Settled, Fixed;
      r := Close();
    }

    method AwaitClose() returns (r: Outcome<()>)
      requires Valid()
      modifies this
      ensures Valid() && Kept() && handed == old(handed)
      ensures r.Success? ==> state.Closed?
      ensures old(sendWindow) == [] ==> (Mine(), r) == Settled(old(Mine()), MyTerms()) && Discards(false)
    {
      hide Valid, Fixed, Flow, View, Received, NextDatagram, IsState;
      while !state.Closed?
        invariant Valid() && Kept() && handed == old(handed)
        invariant old(sendWindow) == [] ==>
                    sendWindow == [] && Settled(Mine(), MyTerms()) == Settled(old(Mine()), MyTerms()) && Discards(false)
        decreases |inbox|
      {
        var n := Recv(BUF_SIZE, false);
        if n.Failure? {
          return Failure(n.error);
        }
      }
      return Success(());
    }

    // ----- what the invariants amount to -----

    /** Sending loses nothing but what errors drop, and duplicates and reorders nothing: the payloads
        acknowledged, in flight and waiting are those queued and not dropped, in order; what counts as in
        flight or acknowledged went out. Without errors they are the bytes written, numbered
        consecutively modulo 2^16 up to `seqNr`. */
    lemma SendingConserves()
      requires Valid() && inHand == []
      ensures Increasing(live, |queued|)
      ensures Payloads(acked) + Payloads(sendWindow) + Payloads(unsentQueue) == Payloads(Picked(queued, live))
      ensures AllOnWire(acked, outbox) && AllOnWire(sendWindow, outbox)
      ensures currWindow == SumLen(sendWindow) <= |sendWindow| * C.MSS
      ensures Dropped() == 0 ==>
                && Payloads(acked) + Payloads(sendWindow) + Payloads(unsentQueue) == written
                && NumberedFrom(sendWindow + unsentQueue, (firstSeq + |acked|) % SEQ)
                && (firstSeq + |acked| + |sendWindow| + |unsentQueue|) % SEQ == seqNr
    {
      hide ValidReceive, ValidHanded, ValidDelay, ValidClock, ValidOutbox, Payloads, SumLen, NumberedFrom, NoLongerThan,
           Restamped, Picked;
      assert acked + sendWindow + (inHand + unsentQueue) == acked + (sendWindow + unsentQueue);
      AccountForPayloads(acked, sendWindow, unsentQueue, Picked(queued, live));
      PickedSizes(queued, live);
      AccountForSizes(acked, sendWindow, unsentQueue, Picked(queued, live));
      if Dropped() == 0 {
        NothingDropped(queued, live);
        AccountForNumbers(acked, sendWindow, unsentQueue, queued, firstSeq);
      }
    }

    /** The window is numbered as the lemmas about acknowledgements want it: without errors, and with at
        most 2^16 packets in flight, an acknowledgement is for the packets up to its distance from the
        first one, and for none if that is beyond the window. With at most 2^15 these are the packets up
        to it in serial order, if and only if it does not run ahead of the last one. */
    lemma AcknowledgesByDistance(ack: U16)
      requires Valid() && inHand == [] && Dropped() == 0 && 0 < |sendWindow| <= SEQ
      ensures AcksByDistance(sendWindow, ack)
    {
      InFlightNumbered();
      hide *;
      NumberedAcks(sendWindow, ack);
    }

    lemma InFlightNumbered()
      requires Valid() && inHand == [] && Dropped() == 0 && sendWindow != []
      ensures NumberedFrom(sendWindow, sendWindow[0].seqNr)
    {
      SendingConserves();
      hide Valid, Payloads, SumLen, Picked, AllOnWire;
      NumberedFront(sendWindow, unsentQueue, (firstSeq + |acked|) % SEQ);
    }

    /** Every byte copied out was handed to the application or thrown away. */
    lemma Balance()
      requires Valid()
      ensures |handed| + discarded == |delivered|
    {
      hide ValidSend, ValidReceive, ValidDelay, ValidClock, ValidOutbox, ValidWire;
      CopiesAdd(copies);
    }

    /** Everything copied out since then was thrown away. */
    twostate predicate AllThrownAway()
      reads `delivered, `discarded
    {
      discarded - old(discarded) == |delivered| - |old(delivered)|
    }

    /** Receiving conserves bytes: what was copied out, followed by what is pending, are the payloads of
        the packets taken out of the sorted buffer; all these arrived as data, and the number
        acknowledged arrived too; if only newer packets were ever admitted, they left in ascending
        order. The application got the copies made for it, and all bytes if and only if no copy thrown
        away had any. */
    lemma ReceivingConserves()
      requires Valid()
      ensures Sorted(incomingBuffer) && delivered + pendingData == Payloads(removed)
      ensures forall p :: p in incomingBuffer || p in removed ==> p in arrived && p.ty.Data?
      ensures ackNr == start.ackNr || R.Bears(arrived, ackNr)
      ensures R.InOrder(start) && R.AdmitsOnlyNewer(start, ops) ==> Sorted(removed)
      ensures delivered == Copied(copies) && handed == HandedOut(copies) && |handed| + discarded == |delivered|
      ensures handed == delivered <==> discarded == 0
    {
      hide ValidSend, ValidDelay, ValidClock, ValidOutbox, ValidWire;
      R.RunConserves(start, ops);
      R.RunKnown(start, ops, arrived, start.ackNr);
      if R.InOrder(start) && R.AdmitsOnlyNewer(start, ops) {
        R.RunInOrder(start, ops);
      }
      CopiesAdd(copies);
    }
  }

  /** A run of `Close`: the byte of a data packet that arrives before the peer closes is copied into a
      buffer that nobody reads, and never reaches the application. */
  method CloseDiscardsExample(p: Packet) returns (s: UtpSocket, r: Outcome<()>)
    requires p.ty.Data? && p.extensions == [] && p.payload == [7] && p.seqNr == 6 && p.connectionId == 1
    ensures s.removed == [p] && s.delivered == [7] && s.handed == [] && s.discarded == 1
  {
    s := AcceptedAtFive([Datagram(Encode(p))]);
    LostWhileClosing(s.MyTerms(), p);
    hide *;
    r := s.CloseBlank();
  }

  method AcceptedAtFive(events: seq<Event>) returns (s: UtpSocket)
    ensures fresh(s) && s.Valid() && s.Blank() && s.state == Connected && s.inbox == events
    ensures s.View() == R.Start(5) && s.MyTerms().senderId == 1 && s.MyTerms().tries == MAX_RETRANSMISSION_RETRIES
  {
    var syn := EMPTY_PACKET.(ty := Syn, connectionId := 1, seqNr := 5);
    hide UtpSocket.Valid;
    s := UtpSocket.Accept(syn, 0, events);
  }

  lemma LostWhileClosing(terms: Terms, p: Packet)
    requires terms.senderId == 1 && terms.tries > 0
    requires p.ty.Data? && p.extensions == [] && p.payload == [7] && p.seqNr == 6 && p.connectionId == 1
    ensures Settled(Side(R.Start(5), FinSent, [Datagram(Encode(p))]), terms).0.view == R.Receiver([], [], 6, 6, [p], [7])
  {
    var (s, t) := (Side(R.Start(5), FinSent, [Datagram(Encode(p))]), Side(R.Receiver([], [], 6, 6, [p], [7]), FinSent, []));
    OneDatagram(Encode(p), terms.tries);
    OneByteTaken(terms, p);
    NextDatagramIs([], terms.tries);
    DecodeEncode(p);
    hide Decode, Encode, NextDatagram, Taken;
    assert Received(s, terms, BUF_SIZE) == (t, Success(()));
    assert Received(t, terms, BUF_SIZE) == (t, Failure(Io));
  }

  lemma OneDatagram(bytes: seq<Byte>, tries: nat)
    requires tries > 0
    ensures |bytes| <= BUF_SIZE + HEADER_SIZE ==> NextDatagram([Datagram(bytes)], tries) == (Success(bytes), [])
  {
    NextDatagramIs([Datagram(bytes)], tries);
    assert [Datagram(bytes)][1..] == [];
  }

  /** What the packet of the example does to a connection that is closing. */
  lemma OneByteTaken(terms: Terms, p: Packet)
    requires terms.senderId == 1
    requires p.ty.Data? && p.extensions == [] && p.payload == [7] && p.seqNr == 6 && p.connectionId == 1
    ensures |Encode(p)| <= BUF_SIZE + HEADER_SIZE
    ensures Taken(Side(R.Start(5), FinSent, []), terms, p, BUF_SIZE)
         == (Side(R.Receiver([], [], 6, 6, [p], [7]), FinSent, []), Success(()))
  {
    assert Len(p) == |Encode(p)|;
    FirstArrival(R.Start(5), p);
    hide Arrived, Noted;
  }

  lemma FirstArrival(s: R.Receiver, p: Packet)
    requires s == R.Receiver([], [], 5, 5, [], [])
    requires p.ty.Data? && p.payload == [7] && p.seqNr == 6
    ensures Arrived(s, p, BUF_SIZE) == R.Receiver([], [], 6, 6, [p], [7])
  {
    var t := Noted(s, p);
    assert R.Inserted([], p) == [p];
    assert [p][1..] == [];
  }

  lemma PreviousNumber(n: U16)
    ensures ((n - 1) % SEQ + 1) % SEQ == n
  {
    assert (n - 1) % SEQ == if n == 0 then SEQ - 1 else n - 1;
  }

  lemma NumberedFront(a: seq<Packet>, b: seq<Packet>, first: U16)
    requires NumberedFrom(a + b, first) && a != []
    ensures NumberedFrom(a, a[0].seqNr)
  {
    forall i | 0 <= i < |a|
      ensures a[i].seqNr == (first + i) % SEQ
    {
      assert a[i] == (a + b)[i];
    }
  }

  lemma SumLenStep(w: seq<Packet>, j: nat)
    requires j < |w|
    ensures SumLen(w[j..]) == Len(w[j]) + SumLen(w[j + 1..])
  {
    assert w[j..][1..] == w[j + 1..];
  }

  lemma NoBytes()
    ensures SumLen([]) == 0
  {
  }
}
