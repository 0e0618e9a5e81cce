/**
 What the events of a uTP connection do, as functions of values: states and replies, what an
 acknowledgement makes the sender resend, and what receiving does to the receiving side.
 */
module UtpProtocol {
  import opened Bytes
  import opened Sequences
  import opened UtpPacket
  import opened UtpSack
  import opened UtpWindow
  import opened Wrappers
  import C = UtpCongestion
  import D = UtpDelay
  import R = UtpReorder

  const WINDOW_SIZE: U32 := 1024 * 1024
  const PRE_SEND_TIMEOUT := 500_000
  const MAX_RETRANSMISSION_RETRIES := 5
  const BUF_SIZE := 1500
  const CHUNK := C.MSS - HEADER_SIZE

  datatype SocketState = Connected | FinSent | ResetReceived | Closed
  datatype SocketError = ConnectionClosed | ConnectionReset | ConnectionTimedOut | Other | Io
  datatype Outcome<+T> = Success(value: T) | Failure(error: SocketError)

  /** What the UDP socket yields to one receive call. */
  datatype Event = Timeout | Datagram(bytes: seq<Byte>)

  const EMPTY_PACKET := Packet(Data, 0, 0, 0, 0, 0, 0, [], [])

  /** Samples taken in order, the last one by `now`, with differences that fit 32 bits. */
  ghost predicate TakenBy(h: seq<D.Sample>, now: int) {
    && D.InOrder(h)
    && forall i :: 0 <= i < |h| ==> h[i].receivedAt <= now && 0 <= h[i].difference < C.U32_RANGE
  }

  lemma TakenBySnoc(h: seq<D.Sample>, now: int, s: D.Sample)
    requires TakenBy(h, now) && now <= s.receivedAt && 0 <= s.difference < C.U32_RANGE
    ensures TakenBy(h + [s], s.receivedAt)
  {
  }

  ghost predicate SentBy(w: seq<Packet>, now: int) {
    forall i :: 0 <= i < |w| ==> w[i].timestamp <= now
  }

  /** One more sample in both delay lists: they still describe the history, and the queuing delay is
      sound if the history is. */
  lemma SampleStep(h: seq<D.Sample>, c: seq<D.Sample>, base: seq<int>, rollover: int, rtt: int, s: D.Sample)
    requires D.BaseDelaysFor(base, rollover, h) && D.IsSuffix(c, h) && 0 <= rtt <= D.MAX_RTT
    ensures var r := D.NextBaseDelays(base, rollover, s);
            var c' := D.DropOld(c, s.receivedAt, rtt * 100) + [s];
            && D.BaseDelaysFor(r.0, r.1, h + [s]) && D.IsSuffix(c', h + [s])
            && (TakenBy(h + [s], s.receivedAt) ==> 0 <= D.QueuingDelay(c', r.0) < C.U32_RANGE)
  {
    D.BaseDelaysStep(base, rollover, h, s);
    D.CurrentDelaysStep(c, h, s, rtt * 100);
    if TakenBy(h + [s], s.receivedAt) {
      var r := D.NextBaseDelays(base, rollover, s);
      var c' := D.DropOld(c, s.receivedAt, rtt * 100) + [s];
      D.QueuingDelayNonNegative(h + [s], c', r.0, r.1, s.receivedAt, rtt, C.U32_RANGE - 1);
    }
  }

  // ----- what an acknowledgement makes the sender resend -----

  function FoundOne(w: seq<Packet>, n: U16): seq<Packet> {
    var k := PositionOf(w, n);
    if k < |w| then [w[k]] else []
  }

  /** The packets of the window with the given numbers, in the order of the numbers. */
  function Found(w: seq<Packet>, numbers: seq<U16>): seq<Packet> {
    if numbers == [] then []
    else Found(w, numbers[..|numbers| - 1]) + FoundOne(w, numbers[|numbers| - 1])
  }

  /** What one selective ack reports missing: the next packet, if three later ones arrived, and every
      unset bit below the end of the window. */
  function SackNumbers(w: seq<Packet>, ack: U16, bits: seq<Byte>): seq<U16> {
    (if CountOnes(bits) >= 3 then [(ack + 1) % SEQ] else [])
    + (if w == [] then [] else LostFrom(ack, bits, w[|w| - 1].seqNr, 0))
  }

  function ExtensionNumbers(w: seq<Packet>, ack: U16, es: seq<Extension>): seq<U16> {
    if es == [] then []
    else
      var e := es[|es| - 1];
      ExtensionNumbers(w, ack, es[..|es| - 1]) + if e.ty == SELECTIVE_ACK then SackNumbers(w, ack, e.data) else []
  }

  predicate HasSack(es: seq<Extension>) { exists i :: 0 <= i < |es| && es[i].ty == SELECTIVE_ACK }

  /** Everything an acknowledgement makes the sender resend: without selective acks, the third one in
      a row for the same packet asks for the next packet. */
  function LossNumbers(w: seq<Packet>, duplicates: nat, p: Packet): seq<U16> {
    ExtensionNumbers(w, p.ackNr, p.extensions)
    + if w != [] && duplicates == 3 && !HasSack(p.extensions) then [(p.ackNr + 1) % SEQ] else []
  }

  predicate LossSeen(w: seq<Packet>, duplicates: nat, p: Packet) {
    (w != [] && duplicates == 3) || ExtensionNumbers(w, p.ackNr, p.extensions) != []
  }

  /** `now` continues `before` with the packets that have the given numbers, with fresh stamps. */
  ghost predicate Resent(now: seq<Packet>, before: seq<Packet>, w: seq<Packet>, numbers: seq<U16>) {
    before <= now && Restamped(now, before + Found(w, numbers))
  }

  lemma ResentNothing(before: seq<Packet>, w: seq<Packet>)
    ensures Resent(before, before, w, [])
  {
    assert before + [] == before;
  }

  lemma FoundSnoc(w: seq<Packet>, numbers: seq<U16>, n: U16)
    ensures Found(w, numbers + [n]) == Found(w, numbers) + FoundOne(w, n)
  {
    assert (numbers + [n])[..|numbers|] == numbers;
  }

  lemma {:induction false} FoundConcat(w: seq<Packet>, a: seq<U16>, b: seq<U16>)
    ensures Found(w, a + b) == Found(w, a) + Found(w, b)
    decreases |b|
  {
    hide Found, FoundOne;
    if b == [] {
      FoundNone(w, a, b);
    } else {
      var (init, last) := (b[..|b| - 1], b[|b| - 1]);
      FoundConcat(w, a, init);
      ConcatAssoc(a, init, [last]);
      FoundSnoc(w, a + init, last);
      FoundSnoc(w, init, last);
      ConcatAssoc(Found(w, a), Found(w, init), FoundOne(w, last));
      assert b == init + [last];
    }
  }

  lemma FoundNone(w: seq<Packet>, a: seq<U16>, b: seq<U16>)
    requires b == []
    ensures Found(w, a + b) == Found(w, a) + Found(w, b)
  {
    assert a + b == a;
  }

  lemma ResentMore(now: seq<Packet>, then_: seq<Packet>, before: seq<Packet>, w: seq<Packet>, a: seq<U16>, b: seq<U16>)
    requires Resent(then_, before, w, a) && Resent(now, then_, w, b)
    ensures Resent(now, before, w, a + b)
  {
    FoundConcat(w, a, b);
    var (x, y) := (Found(w, a), Found(w, b));
    hide Found, Unstamp;
    assert before + (x + y) == (before + x) + y;
    forall i | 0 <= i < |now|
      ensures Unstamp(now[i]) == Unstamp((before + (x + y))[i])
    {
      assert Unstamp(now[i]) == Unstamp((then_ + y)[i]);
    }
  }

  lemma ExtensionStep(w: seq<Packet>, ack: U16, es: seq<Extension>, i: nat)
    requires i < |es|
    ensures ExtensionNumbers(w, ack, es[..i + 1]) ==
            ExtensionNumbers(w, ack, es[..i]) + if es[i].ty == SELECTIVE_ACK then SackNumbers(w, ack, es[i].data) else []
    ensures HasSack(es[..i + 1]) == (HasSack(es[..i]) || es[i].ty == SELECTIVE_ACK)
  {
    hide SackNumbers;
    var init := es[..i + 1];
    assert init[..i] == es[..i] && init[i] == es[i];
    assert es[i].ty == SELECTIVE_ACK ==> HasSack(init);
    assert HasSack(es[..i]) ==> HasSack(init) by {
      if j :| 0 <= j < i && es[..i][j].ty == SELECTIVE_ACK {
        assert init[j].ty == SELECTIVE_ACK;
      }
    }
  }

  lemma NoExtensions(w: seq<Packet>, ack: U16, es: seq<Extension>)
    ensures ExtensionNumbers(w, ack, es[..0]) == [] && !HasSack(es[..0])
  {
  }

  lemma FoundSingle(w: seq<Packet>, n: U16)
    ensures Found(w, [n]) == FoundOne(w, n)
  {
    assert [n][..0] == [];
  }

  /** `abs_diff`. */
  function AbsDiff(a: U32, b: U32): U32 { if a > b then a - b else b - a }

  /** How a call ended, whatever it returned. */
  function Ended<T>(r: Outcome<T>): Outcome<()> { if r.Success? then Success(()) else Failure(r.error) }

  // ----- states and replies -----

  /** The state after a packet; `seqNr` is the number after the last one sent. */
  function NextState(s: SocketState, packet: Packet, known: bool, seqNr: U16): SocketState {
    match packet.ty
    case Fin => if known && (s.Connected? || s.FinSent?) then Closed else s
    case Reset => if known then ResetReceived else s
    case State => if known && s.FinSent? && packet.ackNr == seqNr then Closed else s
    case _ => s
  }

  /** The type of the reply to a packet, if any, or the error. */
  function Reply(s: SocketState, packet: Packet, known: bool): Outcome<Option<PacketType>> {
    var open := s.Connected? || s.FinSent?;
    if packet.ty.Syn? || !known then Success(Some(PacketType.Reset))
    else
      match packet.ty
      case Data => if open then Success(Some(if s.FinSent? then PacketType.Fin else PacketType.State)) else Failure(Other)
      case State => if open then Success(None) else Failure(Other)
      case Fin => if open || s.Closed? then Success(Some(PacketType.State)) else Failure(Other)
      case _ => Failure(ConnectionReset)
  }

  /** A result is what `Reply` says. */
  predicate Answers(r: Outcome<Option<Packet>>, e: Outcome<Option<PacketType>>) {
    match e
    case Failure(error) => r == Failure(error)
    case Success(None) => r == Success(None)
    case Success(Some(ty)) => r.Success? && r.value.Some? && r.value.value.ty == ty
  }

  lemma NeverData(r: Outcome<Option<Packet>>, s: SocketState, packet: Packet, known: bool)
    requires Answers(r, Reply(s, packet, known))
    ensures r.Success? && r.value.Some? ==> !r.value.value.ty.Data?
    ensures Ended(r) == Ended(Reply(s, packet, known))
  {
  }

  /** Without a connection id of ours a packet is answered by a reset and changes no state. */
  lemma UnknownIsReset(s: SocketState, packet: Packet, seqNr: U16)
    ensures Reply(s, packet, false) == Success(Some(PacketType.Reset)) && NextState(s, packet, false, seqNr) == s
    ensures packet.ty.Syn? ==> NextState(s, packet, true, seqNr) == s
    ensures packet.ty.Syn? ==> Reply(s, packet, true) == Reply(s, packet, false)
  {
  }

  // ----- one packet at the receiving side -----

  /** The next number in line is acknowledged as soon as any packet bears it. */
  function Noted(s: R.Receiver, packet: Packet): R.Receiver {
    if packet.seqNr == (s.ackNr + 1) % SEQ then s.(ackNr := packet.seqNr) else s
  }

  lemma NotedDelivers(s: R.Receiver, packet: Packet)
    ensures Noted(s, packet).delivered == s.delivered
  {
  }

  /** A data packet joins the buffer unless it bears the last number removed. */
  function Offered(s: R.Receiver, packet: Packet): R.Receiver {
    if packet.ty.Data? && R.Admits(s, packet) then R.Step(s, R.Insert(packet)) else s
  }

  function Admitted(s: R.Receiver, packet: Packet, n: nat): R.Receiver { R.Flush(Offered(s, packet), n) }

  /** What the arrival of a packet does to the receiving side. */
  function Arrived(s: R.Receiver, packet: Packet, n: nat): R.Receiver { Admitted(Noted(s, packet), packet, n) }

  lemma ArrivedIsHeldIff(s: R.Receiver, packet: Packet, n: nat)
    requires Sorted(s.buffer) && packet.seqNr == (s.ackNr + 1) % SEQ
    ensures R.Holds(Arrived(s, packet, n), packet.seqNr)
            <==> (packet.ty.Data? && R.Admits(s, packet)) || R.Holds(s, packet.seqNr)
  {
    var t := Noted(s, packet);
    R.FlushHolds(Offered(t, packet), n, packet.seqNr);
    R.InsertHolds(t, packet, packet.seqNr);
  }

  lemma AdmittedGrows(s: R.Receiver, packet: Packet, n: nat)
    ensures Admitted(s, packet, n).delivered == s.delivered <==> R.Silent(Offered(s, packet), n)
    ensures s.delivered <= Admitted(s, packet, n).delivered
  {
    R.CopiesNothingIff(Offered(s, packet), n);
  }

  // ----- one receive -----

  /** What a receive waits for: the next datagram, cut to the size of the buffer, unless there are too
      many timeouts before it. */
  function NextDatagram(inbox: seq<Event>, tries: nat): (r: (Outcome<seq<Byte>>, seq<Event>))
    ensures |r.1| <= |inbox| && (r.0.Success? ==> |r.1| < |inbox|)
    decreases |inbox|
  {
    if tries == 0 then (Failure(ConnectionTimedOut), inbox)
    else if inbox == [] then (Failure(Io), [])
    else
      match inbox[0]
      case Timeout => NextDatagram(inbox[1..], tries - 1)
      case Datagram(bytes) =>
        var limit := BUF_SIZE + HEADER_SIZE;
        (Success(if |bytes| <= limit then bytes else bytes[..limit]), inbox[1..])
  }

  /** One event at a time. */
  lemma NextDatagramIs(inbox: seq<Event>, tries: nat)
    ensures tries == 0 ==> NextDatagram(inbox, tries) == (Failure(ConnectionTimedOut), inbox)
    ensures tries > 0 && inbox == [] ==> NextDatagram(inbox, tries) == (Failure(Io), [])
    ensures tries > 0 && inbox != [] && inbox[0].Timeout? ==>
              NextDatagram(inbox, tries) == NextDatagram(inbox[1..], tries - 1)
    ensures tries > 0 && inbox != [] && inbox[0].Datagram? ==>
              var (bytes, limit) := (inbox[0].bytes, BUF_SIZE + HEADER_SIZE);
              NextDatagram(inbox, tries) == (Success(if |bytes| <= limit then bytes else bytes[..limit]), inbox[1..])
  {
  }

  predicate IsState(bytes: seq<Byte>) { Decode(bytes).Ok? && Decode(bytes).value.ty.State? }

  /** The receiving side with the state and the events to come. */
  datatype Side = Side(view: R.Receiver, state: SocketState, inbox: seq<Event>)

  /** What does not change while nothing is sent: the two ids, the next number and the number of tries. */
  datatype Terms = Terms(senderId: U16, receiverId: U16, seqNr: U16, tries: nat)

  predicate Knows(terms: Terms, packet: Packet) {
    packet.connectionId == terms.senderId || packet.connectionId == terms.receiverId
  }

  /** A packet arrives while nothing is in flight, or is no acknowledgement. */
  function Taken(s: Side, terms: Terms, packet: Packet, n: nat): (Side, Outcome<()>) {
    var known := Knows(terms, packet);
    var state := NextState(s.state, packet, known, terms.seqNr);
    match Reply(s.state, packet, known)
    case Failure(e) => (s.(view := Noted(s.view, packet), state := state), Failure(e))
    case Success(_) => (s.(view := Arrived(s.view, packet, n), state := state), Success(()))
  }

  /** A packet that bears the next number is acknowledged whatever it is. Data with that number is held
      afterwards if and only if the packet is data, not the last one removed, and not refused for the
      state of the connection, or such data was held before. */
  lemma AcknowledgedIsHeldIff(s: Side, terms: Terms, packet: Packet, n: nat)
    requires Sorted(s.view.buffer) && packet.seqNr == (s.view.ackNr + 1) % SEQ
    ensures Noted(s.view, packet).ackNr == packet.seqNr
    ensures R.Holds(Taken(s, terms, packet, n).0.view, packet.seqNr)
            <==> || (packet.ty.Data? && R.Admits(s.view, packet) && Reply(s.state, packet, Knows(terms, packet)).Success?)
                 || R.Holds(s.view, packet.seqNr)
  {
    ArrivedIsHeldIff(s.view, packet, n);
    hide Arrived, Reply, NextState;
  }

  /** A STATE packet with the next number: 6 is acknowledged, but nothing was received. */
  lemma AcknowledgedUnseenExample(terms: Terms, packet: Packet)
    requires packet.ty.State? && packet.seqNr == 6 && Knows(terms, packet)
    ensures Taken(Side(R.Start(5), Connected, []), terms, packet, BUF_SIZE)
         == (Side(R.Start(5).(ackNr := 6), Connected, []), Success(()))
    ensures !R.Holds(R.Start(5).(ackNr := 6), 6)
  {
  }

  /** A FIN closes the connection; the data packet with the next number that comes after it is
      acknowledged and refused. The same happens after a reset. */
  lemma AcknowledgedRefusedExample(terms: Terms, end: Packet, packet: Packet, n: nat)
    requires (end.ty.Fin? || end.ty.Reset?) && end.seqNr == 5 && Knows(terms, end)
    requires packet.ty.Data? && packet.seqNr == 6 && Knows(terms, packet)
    ensures var ended := Taken(Side(R.Start(5), Connected, []), terms, end, n).0;
            && ended == Side(R.Start(5), if end.ty.Fin? then Closed else ResetReceived, [])
            && Taken(ended, terms, packet, n) == (ended.(view := R.Start(5).(ackNr := 6)), Failure(Other))
            && R.Admits(R.Start(5), packet) && !R.Holds(R.Start(5).(ackNr := 6), 6)
  {
  }

  /** A datagram that is not a packet is ignored. */
  function Opened(s: Side, terms: Terms, bytes: seq<Byte>, n: nat): (Side, Outcome<()>) {
    match Decode(bytes)
    case Err(_) => (s, Success(()))
    case Ok(packet) => Taken(s, terms, packet, n)
  }

  /** One receive into a buffer of `n` bytes. */
  function Received(s: Side, terms: Terms, n: nat): (r: (Side, Outcome<()>))
    ensures r.1.Success? ==> |r.0.inbox| < |s.inbox|
  {
    var (datagram, rest) := NextDatagram(s.inbox, terms.tries);
    match datagram
    case Failure(e) => (s.(inbox := rest, state := if e.ConnectionTimedOut? then Closed else s.state), Failure(e))
    case Success(bytes) => Opened(s.(inbox := rest), terms, bytes, n)
  }

  // ----- closing -----

  /** Receiving into a buffer that nobody reads until the connection is closed or an error ends it. */
  function Settled(s: Side, terms: Terms): (Side, Outcome<()>)
    decreases |s.inbox|
  {
    if s.state.Closed? then (s, Success(()))
    else
      var (t, outcome) := Received(s, terms, BUF_SIZE);
      if outcome.Failure? then (t, outcome) else Settled(t, terms)
  }

  /** No packet taken on the way makes a read yield anything. */
  predicate SettlesSilently(s: Side, terms: Terms)
    decreases |s.inbox|
  {
    s.state.Closed? ||
    var (t, outcome) := Received(s, terms, BUF_SIZE);
    outcome.Failure? || (ArrivesSilently(s, terms) && SettlesSilently(t, terms))
  }

  /** What the next receive reads from has nothing to yield. */
  predicate ArrivesSilently(s: Side, terms: Terms) {
    var datagram := NextDatagram(s.inbox, terms.tries).0;
    datagram.Success? && Decode(datagram.value).Ok? ==>
      R.Silent(Offered(Noted(s.view, Decode(datagram.value).value), Decode(datagram.value).value), BUF_SIZE)
  }

  lemma ReceivedGrows(s: Side, terms: Terms)
    ensures var (t, outcome) := Received(s, terms, BUF_SIZE);
            && s.view.delivered <= t.view.delivered
            && (outcome.Failure? ==> t.view.delivered == s.view.delivered)
            && (outcome.Success? ==> (t.view.delivered == s.view.delivered <==> ArrivesSilently(s, terms)))
  {
    var datagram := NextDatagram(s.inbox, terms.tries).0;
    if datagram.Success? && Decode(datagram.value).Ok? {
      var packet := Decode(datagram.value).value;
      hide Decode, NextDatagram, R.Silent, Offered, Reply, NextState;
      AdmittedGrows(Noted(s.view, packet), packet, BUF_SIZE);
    }
  }

  lemma {:induction false} SettledGrows(s: Side, terms: Terms)
    ensures s.view.delivered <= Settled(s, terms).0.view.delivered
    decreases |s.inbox|
  {
    hide Received;
    if !s.state.Closed? {
      ReceivedGrows(s, terms);
      var (t, outcome) := Received(s, terms, BUF_SIZE);
      if outcome.Success? {
        SettledGrows(t, terms);
      }
    }
  }

  /** Closing copies nothing into the buffer that nobody reads if and only if nothing is pending and no
      packet that arrives is in line with bytes to read. */
  lemma {:induction false} SettlesSilentlyIff(s: Side, terms: Terms)
    ensures Settled(s, terms).0.view.delivered == s.view.delivered <==> SettlesSilently(s, terms)
    decreases |s.inbox|
  {
    hide Received, ArrivesSilently;
    if !s.state.Closed? {
      ReceivedGrows(s, terms);
      var (t, outcome) := Received(s, terms, BUF_SIZE);
      if outcome.Success? {
        SettledGrows(t, terms);
        SettlesSilentlyIff(t, terms);
      }
    }
  }
}
