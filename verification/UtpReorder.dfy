/**
 The receiving side of a uTP connection: the reorder buffer, the partly read packet, and what a
 reader gets out of them. `removed` and `delivered` record the packets taken out of the buffer and
 the bytes handed to the reader since the connection was set up.
 */
module UtpReorder {
  import opened Bytes
  import opened UtpPacket
  import opened UtpSack
  import opened UtpWindow
  import opened Wrappers

  datatype Receiver = Receiver(buffer: seq<Packet>, pending: seq<Byte>, ackNr: U16, lastDropped: U16,
                               removed: seq<Packet>, delivered: seq<Byte>)

  // ----- insertion -----

  /** How many buffered packets have a smaller number than `n`. */
  function CountBelow(buffer: seq<Packet>, n: U16): (k: nat)
    ensures k <= |buffer|
  {
    if buffer == [] then 0 else (if buffer[0].seqNr < n then 1 else 0) + CountBelow(buffer[1..], n)
  }

  /** In a sorted buffer the smaller numbers come first. */
  lemma {:induction false} CountBelowSplits(buffer: seq<Packet>, n: U16)
    requires Sorted(buffer)
    ensures forall i :: 0 <= i < |buffer| ==> (buffer[i].seqNr < n <==> i < CountBelow(buffer, n))
  {
    if buffer != [] {
      CountBelowSplits(buffer[1..], n);
      forall i | 0 <= i < |buffer|
        ensures buffer[i].seqNr < n <==> i < CountBelow(buffer, n)
      {
        if i > 0 {
          assert buffer[i] == buffer[1..][i - 1];
          assert buffer[0].seqNr < buffer[i].seqNr;
        } else if buffer[0].seqNr >= n {
          assert forall k :: 0 <= k < |buffer| - 1 ==> buffer[1..][k].seqNr == buffer[k + 1].seqNr > buffer[0].seqNr;
        }
      }
    }
  }

  function InsertAt<T>(s: seq<T>, i: nat, x: T): seq<T>
    requires i <= |s|
  {
    s[..i] + [x] + s[i..]
  }

  /** The buffer after `insert_into_buffer`: a packet with a number already present is dropped. */
  function Inserted(buffer: seq<Packet>, p: Packet): seq<Packet> {
    var i := CountBelow(buffer, p.seqNr);
    if i < |buffer| && buffer[i].seqNr == p.seqNr then buffer else InsertAt(buffer, i, p)
  }

  /** The buffer stays sorted and gains exactly the new packet, unless its number is taken. */
  lemma InsertedIsSortedUnion(buffer: seq<Packet>, p: Packet)
    requires Sorted(buffer)
    ensures Sorted(Inserted(buffer, p))
    ensures forall q :: q in Inserted(buffer, p) <==> q in buffer || (q == p && !HasSeq(buffer, p.seqNr))
  {
    CountBelowSplits(buffer, p.seqNr);
    var k := CountBelow(buffer, p.seqNr);
    if k < |buffer| && buffer[k].seqNr == p.seqNr {
    } else {
      assert !HasSeq(buffer, p.seqNr) by {
        assert k < |buffer| ==> buffer[k].seqNr > p.seqNr;
      }
      InsertSorted(buffer, k, p);
      assert buffer == buffer[..k] + buffer[k..];
    }
  }

  lemma InsertSorted(buffer: seq<Packet>, k: nat, p: Packet)
    requires Sorted(buffer) && k <= |buffer|
    requires forall i :: 0 <= i < k ==> buffer[i].seqNr < p.seqNr
    requires forall i :: k <= i < |buffer| ==> p.seqNr < buffer[i].seqNr
    ensures Sorted(InsertAt(buffer, k, p))
  {
    var r := InsertAt(buffer, k, p);
    forall i, j | 0 <= i < j < |r|
      ensures r[i].seqNr < r[j].seqNr
    {
      assert r[i] == if i < k then buffer[i] else if i == k then p else buffer[i - 1];
      assert r[j] == if j < k then buffer[j] else if j == k then p else buffer[j - 1];
    }
  }

  /** Appending at the end is the same insertion when the number exceeds the last one. */
  lemma InsertedAtEnd(buffer: seq<Packet>, p: Packet)
    requires Sorted(buffer) && buffer != [] && p.seqNr > buffer[|buffer| - 1].seqNr
    ensures Inserted(buffer, p) == buffer + [p]
  {
    CountBelowSplits(buffer, p.seqNr);
    assert buffer[|buffer| - 1].seqNr < p.seqNr;
  }

  // ----- removal -----

  /** `advance_incoming_buffer` on a buffer that is not empty. */
  function Advance(s: Receiver): Receiver
    requires s.buffer != []
  {
    var p := s.buffer[0];
    s.(buffer := s.buffer[1..], ackNr := p.seqNr, lastDropped := p.seqNr, removed := s.removed + [p])
  }

  predicate NextInLine(s: Receiver) {
    s.buffer != [] && (s.ackNr == s.buffer[0].seqNr || (s.ackNr + 1) % SEQ == s.buffer[0].seqNr)
  }

  /** `flush_incoming_buffer` into a slice of `n` bytes. */
  function Flush(s: Receiver, n: nat): Receiver {
    if s.pending != [] then
      var k := if |s.pending| < n then |s.pending| else n;
      var t := s.(delivered := s.delivered + s.pending[..k]);
      if k == |s.pending| then
        if s.buffer == [] then t.(pending := []) else Advance(t).(pending := s.buffer[0].payload)
      else t.(pending := s.pending[k..])
    else if NextInLine(s) then
      var data := s.buffer[0].payload;
      var k := if |data| < n then |data| else n;
      Advance(s).(pending := data[k..], delivered := s.delivered + data[..k])
    else s
  }

  // ----- runs -----

  /** What happens to the receiving side: a packet is admitted, the reader asks for up to `n` bytes,
      or the acknowledgement number moves. */
  datatype Op = Insert(p: Packet) | Read(n: nat) | SetAck(ack: U16)

  function Step(s: Receiver, op: Op): Receiver {
    match op
    case Insert(p) => s.(buffer := Inserted(s.buffer, p))
    case Read(n) => Flush(s, n)
    case SetAck(n) => s.(ackNr := n)
  }

  function Run(s: Receiver, ops: seq<Op>): Receiver
    decreases |ops|
  {
    if ops == [] then s else Run(Step(s, ops[0]), ops[1..])
  }

  lemma {:induction false} RunSnoc(s: Receiver, ops: seq<Op>, op: Op)
    ensures Run(s, ops + [op]) == Step(Run(s, ops), op)
    decreases |ops|
  {
    if ops == [] {
      assert ([] + [op])[1..] == [] && ops + [op] == [op];
    } else {
      assert (ops + [op])[1..] == ops[1..] + [op];
      RunSnoc(Step(s, ops[0]), ops[1..], op);
    }
  }

  /** No byte is lost, duplicated or reordered between the packets removed and the reader. */
  ghost predicate Conserves(s: Receiver) {
    Sorted(s.buffer) && s.delivered + s.pending == Payloads(s.removed)
  }

  lemma SortedTail(buffer: seq<Packet>)
    requires Sorted(buffer) && buffer != []
    ensures Sorted(buffer[1..])
  {
    forall i, j | 0 <= i < j < |buffer| - 1
      ensures buffer[1..][i].seqNr < buffer[1..][j].seqNr
    {
      assert buffer[1..][i] == buffer[i + 1] && buffer[1..][j] == buffer[j + 1];
    }
  }

  /** Handing `k` of the bytes `data` to the reader keeps the rest pending. */
  lemma TakeSome(delivered: seq<Byte>, data: seq<Byte>, k: nat)
    requires k <= |data|
    ensures (delivered + data[..k]) + data[k..] == delivered + data
  {
    assert data[..k] + data[k..] == data;
    assert (delivered + data[..k]) + data[k..] == delivered + (data[..k] + data[k..]);
  }

  lemma FlushConserves(s: Receiver, n: nat)
    requires Conserves(s)
    ensures Conserves(Flush(s, n))
    ensures |Flush(s, n).delivered| <= |s.delivered| + n
  {
    hide Sorted, Payloads;
    if s.buffer != [] {
      SortedTail(s.buffer);
      PayloadsSnoc(s.removed, s.buffer[0]);
    }
    if s.pending != [] {
      var k := if |s.pending| < n then |s.pending| else n;
      TakeSome(s.delivered, s.pending, k);
    } else if NextInLine(s) {
      var data := s.buffer[0].payload;
      TakeSome(s.delivered, data, if |data| < n then |data| else n);
    }
  }

  /** In every interleaving of admissions, reads of any size and acknowledgement moves, the buffer
      stays sorted without duplicates and the delivered bytes followed by the pending ones are the
      payloads of the removed packets in removal order. */
  lemma {:induction false} RunConserves(s: Receiver, ops: seq<Op>)
    requires Conserves(s)
    ensures Conserves(Run(s, ops))
    decreases |ops|
  {
    if ops != [] {
      StepConserves(s, ops[0]);
      RunConserves(Step(s, ops[0]), ops[1..]);
    }
  }

  lemma StepConserves(s: Receiver, op: Op)
    requires Conserves(s)
    ensures Conserves(Step(s, op))
  {
    match op {
      case Insert(p) => InsertedIsSortedUnion(s.buffer, p);
      case Read(n) => FlushConserves(s, n);
      case SetAck(n) =>
    }
  }

  /** Every admitted packet is newer (as a plain number) than the last one removed. */
  ghost predicate AdmitsOnlyNewer(s: Receiver, ops: seq<Op>)
    decreases |ops|
  {
    ops != [] ==>
      && (ops[0].Insert? ==> ops[0].p.seqNr > s.lastDropped)
      && AdmitsOnlyNewer(Step(s, ops[0]), ops[1..])
  }

  ghost predicate InOrder(s: Receiver) {
    && Sorted(s.buffer) && Sorted(s.removed)
    && (forall i :: 0 <= i < |s.buffer| ==> s.buffer[i].seqNr > s.lastDropped)
    && (s.removed != [] ==> s.lastDropped == s.removed[|s.removed| - 1].seqNr)
  }

  lemma AdvanceInOrder(s: Receiver)
    requires InOrder(s) && s.buffer != []
    ensures InOrder(Advance(s))
  {
    SortedTail(s.buffer);
    var r := s.removed + [s.buffer[0]];
    forall i, j | 0 <= i < j < |r|
      ensures r[i].seqNr < r[j].seqNr
    {
      if j == |s.removed| {
        assert r[i] == s.removed[i];
        assert s.removed[i].seqNr <= s.lastDropped < s.buffer[0].seqNr;
      }
    }
    forall i | 0 <= i < |s.buffer| - 1
      ensures s.buffer[1..][i].seqNr > s.buffer[0].seqNr
    {
      assert s.buffer[1..][i] == s.buffer[i + 1];
    }
  }

  lemma FlushInOrder(s: Receiver, n: nat)
    requires InOrder(s)
    ensures InOrder(Flush(s, n))
  {
    if s.buffer != [] {
      AdvanceInOrder(s);
    }
  }

  /** If every admitted number exceeds the last one removed, packets leave in ascending order. */
  lemma {:induction false} RunInOrder(s: Receiver, ops: seq<Op>)
    requires InOrder(s) && AdmitsOnlyNewer(s, ops)
    ensures InOrder(Run(s, ops))
    decreases |ops|
  {
    if ops != [] {
      match ops[0] {
        case Insert(p) =>
          InsertedIsSortedUnion(s.buffer, p);
          var b := Inserted(s.buffer, p);
          forall i | 0 <= i < |b|
            ensures b[i].seqNr > s.lastDropped
          {
            assert b[i] in b;
          }
        case Read(n) => FlushInOrder(s, n);
        case SetAck(n) =>
      }
      RunInOrder(Step(s, ops[0]), ops[1..]);
    }
  }

  // ----- where everything comes from -----

  ghost predicate Bears(arrived: seq<Packet>, n: U16) { exists p :: p in arrived && p.seqNr == n }

  /** Only data packets that arrived are inserted, and only their numbers acknowledged. */
  ghost predicate From(ops: seq<Op>, arrived: seq<Packet>) {
    forall i :: 0 <= i < |ops| ==>
      match ops[i]
      case Insert(p) => p in arrived && p.ty.Data?
      case Read(_) => true
      case SetAck(n) => Bears(arrived, n)
  }

  /** Everything held and removed arrived as data; the number acknowledged is that of the start or of
      something that arrived. */
  ghost predicate Known(s: Receiver, arrived: seq<Packet>, ack: U16) {
    && (forall p :: p in s.buffer || p in s.removed ==> p in arrived && p.ty.Data?)
    && (s.ackNr == ack || Bears(arrived, s.ackNr))
  }

  lemma StepKnown(s: Receiver, op: Op, arrived: seq<Packet>, ack: U16)
    requires Sorted(s.buffer) && Known(s, arrived, ack) && From([op], arrived)
    ensures Known(Step(s, op), arrived, ack)
  {
    assert [op][0] == op;
    match op {
      case Insert(p) => InsertedIsSortedUnion(s.buffer, p);
      case Read(n) =>
        if s.buffer != [] {
          assert s.buffer[0] in s.buffer;
        }
      case SetAck(n) =>
    }
  }

  lemma {:induction false} RunKnown(s: Receiver, ops: seq<Op>, arrived: seq<Packet>, ack: U16)
    requires Conserves(s) && Known(s, arrived, ack) && From(ops, arrived)
    ensures Known(Run(s, ops), arrived, ack)
    decreases |ops|
  {
    if ops != [] {
      assert From([ops[0]], arrived) && From(ops[1..], arrived) by {
        assert forall i :: 0 <= i < |ops| - 1 ==> ops[1..][i] == ops[i + 1];
      }
      hide Known, From, Step;
      StepKnown(s, ops[0], arrived, ack);
      StepConserves(s, ops[0]);
      RunKnown(Step(s, ops[0]), ops[1..], arrived, ack);
    }
  }

  lemma FromSnoc(ops: seq<Op>, op: Op, arrived: seq<Packet>)
    requires From(ops, arrived)
    requires match op
             case Insert(p) => p in arrived && p.ty.Data?
             case Read(_) => true
             case SetAck(n) => Bears(arrived, n)
    ensures From(ops + [op], arrived)
  {
  }

  lemma FromGrows(ops: seq<Op>, arrived: seq<Packet>, p: Packet)
    requires From(ops, arrived)
    ensures From(ops, arrived + [p])
  {
    forall i | 0 <= i < |ops| && ops[i].SetAck?
      ensures Bears(arrived + [p], ops[i].ack)
    {
      var q :| q in arrived && q.seqNr == ops[i].ack;
      assert q in arrived + [p];
    }
  }

  // ----- which numbers are held -----

  ghost predicate Holds(s: Receiver, n: U16) { HasSeq(s.buffer, n) || HasSeq(s.removed, n) }

  /** A read holds on to the numbers it takes out of the buffer. */
  lemma FlushHolds(s: Receiver, k: nat, n: U16)
    ensures Holds(Flush(s, k), n) <==> Holds(s, n)
  {
    if s.buffer != [] {
      var (p, rest) := (s.buffer[0], s.buffer[1..]);
      HasSeqConcat([p], rest, n);
      assert s.buffer == [p] + rest;
      HasSeqConcat(s.removed, [p], n);
    }
  }

  lemma HasSeqConcat(a: seq<Packet>, b: seq<Packet>, n: int)
    ensures HasSeq(a + b, n) <==> HasSeq(a, n) || HasSeq(b, n)
  {
    if HasSeq(a, n) {
      var i :| 0 <= i < |a| && a[i].seqNr == n;
      assert (a + b)[i].seqNr == n;
    }
    if HasSeq(b, n) {
      var i :| 0 <= i < |b| && b[i].seqNr == n;
      assert (a + b)[|a| + i].seqNr == n;
    }
  }

  lemma InsertHolds(s: Receiver, p: Packet, n: U16)
    requires Sorted(s.buffer)
    ensures Holds(Step(s, Insert(p)), n) <==> p.seqNr == n || Holds(s, n)
  {
    InsertedIsSortedUnion(s.buffer, p);
    var b := Inserted(s.buffer, p);
    if HasSeq(b, n) {
      var i :| 0 <= i < |b| && b[i].seqNr == n;
      assert b[i] in b;
    }
    if HasSeq(s.buffer, n) {
      var i :| 0 <= i < |s.buffer| && s.buffer[i].seqNr == n;
      assert s.buffer[i] in b;
    }
    if p.seqNr == n && !HasSeq(s.buffer, n) {
      assert p in b;
    }
  }

  // ----- what is not promised -----

  /** A read takes only the packet that is next in line if and only if it does not finish a partly
      read packet while some other packet heads the buffer: that branch does not look at the
      number. */
  lemma ReadInLineIff(s: Receiver, n: nat)
    ensures (Flush(s, n).removed != s.removed ==> NextInLine(s))
            <==> !(s.pending != [] && n >= |s.pending| && s.buffer != [] && !NextInLine(s))
  {
    if s.pending != [] && n >= |s.pending| && s.buffer != [] {
      assert |Flush(s, n).removed| == |s.removed| + 1;
    }
  }

  /** A new connection that waits for number `ack` + 1. */
  function Start(ack: U16): Receiver { Receiver([], [], ack, ack, [], []) }

  function RunTwo(s: Receiver, a: Op, b: Op): Receiver { Step(Step(s, a), b) }

  lemma RunOfTwo(s: Receiver, a: Op, b: Op)
    ensures Run(s, [a, b]) == RunTwo(s, a, b)
  {
    assert [a, b][1..] == [b] && [b][1..] == [];
    assert Run(Step(s, a), [b]) == Run(RunTwo(s, a, b), []);
  }

  lemma {:induction false} RunConcat(s: Receiver, ops: seq<Op>, more: seq<Op>)
    ensures Run(s, ops + more) == Run(Run(s, ops), more)
    decreases |ops|
  {
    if ops == [] {
      assert ops + more == more;
    } else {
      assert (ops + more)[1..] == ops[1..] + more;
      RunConcat(Step(s, ops[0]), ops[1..], more);
    }
  }

  /** A run that reads over a gap: 6 is read in two parts, and finishing it takes 8 out although 7 is
      missing. */
  lemma GapExample(p: Packet, q: Packet)
    requires p.seqNr == 6 && p.payload == [1, 2] && q.seqNr == 8
    ensures var t := Run(Start(5), [Insert(p), Read(1)] + [Insert(q), Read(10)]);
            t.removed == [p, q] && t.delivered == [1, 2] && t.pending == q.payload
  {
    var s, a, b := Start(5), [Insert(p), Read(1)], [Insert(q), Read(10)];
    RunConcat(s, a, b);
    RunOfTwo(s, Insert(p), Read(1));
    FirstInto(p);
    var t := RunTwo(s, Insert(p), Read(1));
    assert [p][1..] == [] && p.payload[..1] == [1] && p.payload[1..] == [2];
    assert t == Receiver([], [2], 6, 6, [p], [1]);
    RunOfTwo(t, Insert(q), Read(10));
    FirstInto(q);
    assert [q][1..] == [] && [p] + [q] == [p, q] && [1] + [2][..1] == [1, 2];
  }

  lemma FirstInto(p: Packet)
    ensures Inserted([], p) == [p]
  {
  }

  // ----- when a read yields nothing -----

  /** The reader's slice is empty, or nothing is pending and no packet is next in line or only an empty
      one. */
  predicate Silent(s: Receiver, n: nat) {
    n == 0 || (s.pending == [] && (!NextInLine(s) || s.buffer[0].payload == []))
  }

  /** Exactly then a read copies nothing out. */
  lemma CopiesNothingIff(s: Receiver, n: nat)
    ensures Flush(s, n).delivered == s.delivered <==> Silent(s, n)
    ensures s.delivered <= Flush(s, n).delivered
  {
    if s.pending != [] {
      assert |Flush(s, n).delivered| == |s.delivered| + if |s.pending| < n then |s.pending| else n;
    } else if NextInLine(s) {
      var data := s.buffer[0].payload;
      assert |Flush(s, n).delivered| == |s.delivered| + if |data| < n then |data| else n;
    }
  }

  /** `recv` admits any number but the last one removed. */
  predicate Admits(s: Receiver, p: Packet) { (p.seqNr - s.lastDropped) % SEQ > 0 }

  /** The number at the head of the buffer. */
  function HeadOf(buffer: seq<Packet>): Option<U16> {
    if buffer == [] then None else Some(buffer[0].seqNr)
  }

  /** The head after one more number is inserted: the least one. */
  function LesserHead(head: Option<U16>, n: U16): Option<U16> {
    if head.None? || n < head.value then Some(n) else head
  }

  /** Some read of the run finds the head of the buffer in line. Insertions only lower the head, and
      only acknowledgement moves change the line. */
  predicate ReadInLine(ack: U16, head: Option<U16>, ops: seq<Op>)
    decreases |ops|
  {
    ops != [] &&
    match ops[0]
    case Insert(p) => ReadInLine(ack, LesserHead(head, p.seqNr), ops[1..])
    case Read(_) => (head.Some? && (ack == head.value || (ack + 1) % SEQ == head.value)) || ReadInLine(ack, head, ops[1..])
    case SetAck(a) => ReadInLine(a, head, ops[1..])
  }

  /** With nothing pending, a run takes nothing out of the buffer if and only if none of its reads finds
      the head in line; then it delivers nothing either. */
  lemma {:induction false} BlockedIff(s: Receiver, ops: seq<Op>)
    requires Sorted(s.buffer) && s.pending == []
    ensures Run(s, ops).removed == s.removed <==> !ReadInLine(s.ackNr, HeadOf(s.buffer), ops)
    ensures Run(s, ops).removed == s.removed ==> Run(s, ops).delivered == s.delivered
    decreases |ops|
  {
    if ops != [] {
      var t := Step(s, ops[0]);
      match ops[0] {
        case Insert(p) =>
          HeadAfter(s.buffer, p);
          BlockedIff(t, ops[1..]);
        case Read(n) =>
          if NextInLine(s) {
            RemovedGrows(t, ops[1..]);
          } else {
            BlockedIff(t, ops[1..]);
          }
        case SetAck(a) => BlockedIff(t, ops[1..]);
      }
    }
  }

  lemma {:induction false} RemovedGrows(s: Receiver, ops: seq<Op>)
    ensures |s.removed| <= |Run(s, ops).removed|
    decreases |ops|
  {
    if ops != [] {
      RemovedGrows(Step(s, ops[0]), ops[1..]);
    }
  }

  lemma HeadAfter(buffer: seq<Packet>, p: Packet)
    requires Sorted(buffer)
    ensures Sorted(Inserted(buffer, p)) && HeadOf(Inserted(buffer, p)) == LesserHead(HeadOf(buffer), p.seqNr)
  {
    InsertedIsSortedUnion(buffer, p);
    CountBelowSplits(buffer, p.seqNr);
    if buffer != [] {
      assert buffer[0].seqNr < p.seqNr <==> 0 < CountBelow(buffer, p.seqNr);
    }
  }

  /** No operation of the run brings the acknowledgement number next to `head`, nor admits a packet
      in front of it. */
  ghost predicate LeavesBehind(head: U16, ops: seq<Op>) {
    forall i :: 0 <= i < |ops| ==>
      match ops[i]
      case Insert(p) => p.seqNr >= head
      case Read(_) => true
      case SetAck(a) => a != head && (a + 1) % SEQ != head
  }

  /** A stale packet that reaches the head of the buffer blocks it: as long as the acknowledgement
      number does not come round to it, nothing more is delivered in any run, whatever arrives. */
  lemma StaleHeadBlocks(s: Receiver, ops: seq<Op>)
    requires Sorted(s.buffer) && s.buffer != [] && !NextInLine(s) && s.pending == []
    requires LeavesBehind(s.buffer[0].seqNr, ops)
    ensures Run(s, ops).delivered == s.delivered && Run(s, ops).removed == s.removed
  {
    LeftBehind(s.ackNr, s.buffer[0].seqNr, ops);
    BlockedIff(s, ops);
  }

  lemma {:induction false} LeftBehind(ack: U16, head: U16, ops: seq<Op>)
    requires ack != head && (ack + 1) % SEQ != head && LeavesBehind(head, ops)
    ensures !ReadInLine(ack, Some(head), ops)
    decreases |ops|
  {
    if ops != [] {
      assert forall i :: 0 <= i < |ops| - 1 ==> ops[1..][i] == ops[i + 1];
      LeftBehind(if ops[0].SetAck? then ops[0].ack else ack, head, ops[1..]);
    }
  }

  /** Such a packet is admitted: 3 and 4 are received and read, then 3 arrives once more. Whatever comes
      after it, nothing is delivered until the line comes round. */
  lemma StaleHeadIsReachable(p: Packet, q: Packet, n: nat, more: seq<Op>)
    requires p.seqNr == 3 && q.seqNr == 4 && n >= |p.payload| && n >= |q.payload|
    requires LeavesBehind(3, more)
    ensures var s := Run(Start(2), [Insert(p), Read(n)] + [Insert(q), Read(n)]);
            && s.removed == [p, q] && Admits(s, p)
            && Run(s, [Insert(p)] + more).delivered == s.delivered
            && Run(s, [Insert(p)] + more).removed == [p, q]
  {
    RunConcat(Start(2), [Insert(p), Read(n)], [Insert(q), Read(n)]);
    RunOfTwo(Start(2), Insert(p), Read(n));
    ReadWhole(Start(2), p, n);
    var s := RunTwo(Start(2), Insert(p), Read(n));
    RunOfTwo(s, Insert(q), Read(n));
    ReadWhole(s, q, n);
    var t := RunTwo(s, Insert(q), Read(n));
    assert [p] + [q] == [p, q];
    RunConcat(t, [Insert(p)], more);
    FirstInto(p);
    assert [Insert(p)][1..] == [];
    StaleHeadBlocks(Step(t, Insert(p)), more);
  }

  /** The next packet is received and read whole. */
  lemma ReadWhole(s: Receiver, p: Packet, n: nat)
    requires s.buffer == [] && s.pending == [] && p.seqNr == (s.ackNr + 1) % SEQ && n >= |p.payload|
    ensures RunTwo(s, Insert(p), Read(n))
         == Receiver([], [], p.seqNr, p.seqNr, s.removed + [p], s.delivered + p.payload)
  {
    FirstInto(p);
    assert [p][1..] == [] && p.payload[..|p.payload|] == p.payload && p.payload[|p.payload|..] == [];
  }
}
