/**
 Selective acks of uTP (the "Selective ACK" section of BEP 29): the bitmap that a receiver builds
 from its reorder buffer, and the lost packets that a sender reads out of it.

 Sequence numbers are 16 bits wide; plain additions wrap, as in release builds.
 */
module UtpSack {
  import opened Bits
  import opened Bytes
  import opened UtpPacket
  import opened Sequences

  // ----- bitmaps -----

  /** Bit `idx` of a bitmap, as the bit iterator yields it. */
  predicate BitAt(bytes: seq<Byte>, idx: nat)
    requires idx < 8 * |bytes|
  {
    Bit(bytes[idx / 8], idx % 8)
  }

  /** `BitIterator::count_ones`. */
  function CountOnes(bytes: seq<Byte>): nat {
    if bytes == [] then 0 else CountOnes(bytes[..|bytes| - 1]) + ByteOnes(bytes[|bytes| - 1])
  }

  function SetAt(bytes: seq<Byte>, idx: nat): (r: seq<Byte>)
    requires idx < 8 * |bytes|
    ensures |r| == |bytes|
  {
    ByteRange();
    SetBitSets(bytes[idx / 8], idx % 8, 8);
    bytes[idx / 8 := SetBit(bytes[idx / 8], idx % 8)]
  }

  lemma SetAtBits(bytes: seq<Byte>, idx: nat, j: nat)
    requires idx < 8 * |bytes| && j < 8 * |bytes|
    ensures BitAt(SetAt(bytes, idx), j) <==> j == idx || BitAt(bytes, j)
  {
    if j / 8 == idx / 8 {
      ByteRange();
      SetBitSets(bytes[idx / 8], idx % 8, 8);
      if j % 8 != idx % 8 {
        SetBitKeepsOthers(bytes[idx / 8], idx % 8, j % 8);
      }
    }
  }

  lemma {:induction false} SetAtCounts(bytes: seq<Byte>, idx: nat)
    requires idx < 8 * |bytes|
    ensures CountOnes(SetAt(bytes, idx)) == CountOnes(bytes) + if BitAt(bytes, idx) then 0 else 1
    decreases |bytes|
  {
    var n, k := |bytes| - 1, idx / 8;
    if k == n {
      assert SetAt(bytes, idx)[..n] == bytes[..n];
      SetBitCounts(bytes[k], idx % 8);
    } else {
      assert SetAt(bytes, idx)[..n] == SetAt(bytes[..n], idx);
      SetAtCounts(bytes[..n], idx);
    }
  }

  lemma AppendZero(bytes: seq<Byte>, j: nat)
    requires j < 8 * |bytes| + 8
    ensures BitAt(bytes + [0], j) <==> j < 8 * |bytes| && BitAt(bytes, j)
    ensures CountOnes(bytes + [0]) == CountOnes(bytes)
  {
    assert (bytes + [0])[..|bytes|] == bytes;
    if j >= 8 * |bytes| {
      ZeroHasNoBits(j % 8);
    }
  }

  // ----- the receiver's bitmap -----

  /** Is sequence number `n` past the first missing one, as the receiver's filter decides? */
  predicate Ahead(n: U16, ack: U16) { n > (ack + 1) % SEQ }

  /** The bit that stands for `n`. */
  function BitIndex(n: U16, ack: U16): nat { (n - ack - 2) % SEQ }

  ghost predicate Stashed(buffer: seq<Packet>, ack: U16, idx: nat) {
    exists i :: 0 <= i < |buffer| && Ahead(buffer[i].seqNr, ack) && BitIndex(buffer[i].seqNr, ack) == idx
  }

  ghost predicate HasSeq(buffer: seq<Packet>, n: int) {
    exists i :: 0 <= i < |buffer| && buffer[i].seqNr == n
  }

  /** Buffers are strictly sorted by sequence number. */
  ghost predicate Sorted(buffer: seq<Packet>) {
    forall i, j :: 0 <= i < j < |buffer| ==> buffer[i].seqNr < buffer[j].seqNr
  }

  /** How many buffered packets are past the first missing one. */
  function CountAhead(buffer: seq<Packet>, ack: U16): nat {
    if buffer == [] then 0
    else CountAhead(buffer[..|buffer| - 1], ack) + if Ahead(buffer[|buffer| - 1].seqNr, ack) then 1 else 0
  }

  /** A bitmap that says exactly which packets are stashed. */
  ghost predicate SackFor(sack: seq<Byte>, buffer: seq<Packet>, ack: U16) {
    && |sack| % 4 == 0
    && (forall idx :: 0 <= idx < 8 * |sack| ==> (BitAt(sack, idx) <==> Stashed(buffer, ack, idx)))
    && (forall idx: nat :: idx >= 8 * |sack| ==> !Stashed(buffer, ack, idx))
  }

  /** What a bit stands for: number ack+2+idx, except that the plain comparison reports nothing
      beyond 65535 unless the ack number itself is 65535. */
  lemma BitMeaning(ack: U16, idx: nat, n: U16)
    requires idx < SEQ
    ensures Ahead(n, ack) && BitIndex(n, ack) == idx <==>
            n == (ack + 2 + idx) % SEQ && if ack == SEQ - 1 then idx < SEQ - 1 else ack + 2 + idx < SEQ
  {
  }

  lemma DistinctBits(ack: U16, m: U16, n: U16)
    requires BitIndex(m, ack) == BitIndex(n, ack)
    ensures m == n
  {
  }

  /** Growing the bitmap to hold `byte`, in multiples of four. */
  method Grow(sack: seq<Byte>, byte: nat) returns (r: seq<Byte>)
    requires |sack| % 4 == 0
    ensures byte < |r| && |r| % 4 == 0 && Padded(r, sack)
  {
    r := sack;
    while byte >= |r| || |r| % 4 != 0
      invariant Padded(r, sack)
      decreases if byte >= |r| then byte - |r| + 4 else (4 - |r| % 4) % 4
    {
      forall idx | 0 <= idx < 8 * |r| + 8
        ensures BitAt(r + [0], idx) <==> idx < 8 * |r| && BitAt(r, idx)
      {
        AppendZero(r, idx);
      }
      AppendZero(r, 0);
      r := r + [0];
    }
  }

  /** `build_selective_ack`. */
  method BuildSelectiveAck(buffer: seq<Packet>, ack: U16) returns (sack: seq<Byte>)
    requires Sorted(buffer)
    ensures SackFor(sack, buffer, ack)
    ensures CountOnes(sack) == CountAhead(buffer, ack)
    ensures sack == [] <==> CountAhead(buffer, ack) == 0
  {
    sack := [];
    for i := 0 to |buffer|
      invariant SackFor(sack, buffer[..i], ack)
      invariant CountOnes(sack) == CountAhead(buffer[..i], ack)
      invariant sack == [] <==> CountAhead(buffer[..i], ack) == 0
    {
      var n := buffer[i].seqNr;
      assert buffer[..i + 1][..i] == buffer[..i];
      if Ahead(n, ack) {
        var diff := BitIndex(n, ack);
        var grown := Grow(sack, diff / 8);
        SackStep(sack, grown, buffer, i, ack);
        sack := SetAt(grown, diff);
      } else {
        NotAheadStep(sack, buffer, i, ack);
      }
    }
    assert buffer[..|buffer|] == buffer;
  }

  /** The bitmap `r` is `sack`, padded with zeros. */
  ghost predicate Padded(r: seq<Byte>, sack: seq<Byte>) {
    && |sack| <= |r|
    && (forall idx :: 0 <= idx < 8 * |r| ==> (BitAt(r, idx) <==> idx < 8 * |sack| && BitAt(sack, idx)))
    && CountOnes(r) == CountOnes(sack)
  }

  /** Setting the bit of one more stashed packet. */
  lemma SackStep(sack: seq<Byte>, grown: seq<Byte>, buffer: seq<Packet>, i: nat, ack: U16)
    requires Sorted(buffer) && i < |buffer| && Ahead(buffer[i].seqNr, ack)
    requires SackFor(sack, buffer[..i], ack)
    requires Padded(grown, sack) && |grown| % 4 == 0 && BitIndex(buffer[i].seqNr, ack) / 8 < |grown|
    ensures SackFor(SetAt(grown, BitIndex(buffer[i].seqNr, ack)), buffer[..i + 1], ack)
    ensures CountOnes(SetAt(grown, BitIndex(buffer[i].seqNr, ack))) == CountOnes(sack) + 1
  {
    var diff := BitIndex(buffer[i].seqNr, ack);
    NotStashedYet(buffer, i, ack);
    assert !BitAt(grown, diff);
    SetAtCounts(grown, diff);
    forall j | 0 <= j < 8 * |grown|
      ensures BitAt(SetAt(grown, diff), j) <==> Stashed(buffer[..i + 1], ack, j)
    {
      SetAtBits(grown, diff, j);
      StashedSnoc(buffer, i, ack, j);
    }
    forall j: nat {:trigger Stashed(buffer[..i + 1], ack, j)} | j >= 8 * |grown|
      ensures !Stashed(buffer[..i + 1], ack, j)
    {
      StashedSnoc(buffer, i, ack, j);
    }
  }

  lemma StashedSnoc(buffer: seq<Packet>, i: nat, ack: U16, idx: nat)
    requires i < |buffer|
    ensures Stashed(buffer[..i + 1], ack, idx) <==>
            Stashed(buffer[..i], ack, idx)
            || (Ahead(buffer[i].seqNr, ack) && idx == BitIndex(buffer[i].seqNr, ack))
  {
    assert buffer[..i + 1][i] == buffer[i];
    assert forall k :: 0 <= k < i ==> buffer[..i + 1][k] == buffer[..i][k];
  }

  lemma NotAheadStep(sack: seq<Byte>, buffer: seq<Packet>, i: nat, ack: U16)
    requires i < |buffer| && !Ahead(buffer[i].seqNr, ack) && SackFor(sack, buffer[..i], ack)
    ensures SackFor(sack, buffer[..i + 1], ack)
  {
    forall j | 0 <= j < 8 * |sack|
      ensures BitAt(sack, j) <==> Stashed(buffer[..i + 1], ack, j)
    {
      StashedSnoc(buffer, i, ack, j);
    }
    forall j: nat {:trigger Stashed(buffer[..i + 1], ack, j)} | j >= 8 * |sack|
      ensures !Stashed(buffer[..i + 1], ack, j)
    {
      StashedSnoc(buffer, i, ack, j);
    }
  }

  lemma NotStashedYet(buffer: seq<Packet>, i: nat, ack: U16)
    requires Sorted(buffer) && i < |buffer|
    ensures !Stashed(buffer[..i], ack, BitIndex(buffer[i].seqNr, ack))
  {
    forall k | 0 <= k < i
      ensures BitIndex(buffer[..i][k].seqNr, ack) != BitIndex(buffer[i].seqNr, ack)
    {
      assert buffer[k].seqNr < buffer[i].seqNr;
      if BitIndex(buffer[k].seqNr, ack) == BitIndex(buffer[i].seqNr, ack) {
        DistinctBits(ack, buffer[k].seqNr, buffer[i].seqNr);
      }
    }
  }

  // ----- the sender's reading of it -----

  /** The numbers of the unset bits from `idx` on, up to the first that is not below `last`. */
  function LostFrom(ack: U16, sack: seq<Byte>, last: U16, idx: nat): seq<U16>
    decreases 8 * |sack| - idx
  {
    if idx >= 8 * |sack| then []
    else if BitAt(sack, idx) then LostFrom(ack, sack, last, idx + 1)
    else
      var n := (ack + 2 + idx) % SEQ;
      if n < last then [n] + LostFrom(ack, sack, last, idx + 1) else []
  }

  /** The loop over `lost_packets`. */
  method LostPackets(ack: U16, sack: seq<Byte>, last: U16) returns (lost: seq<U16>)
    ensures lost == LostFrom(ack, sack, last, 0)
  {
    lost := [];
    var idx := 0;
    while idx < 8 * |sack|
      invariant idx <= 8 * |sack|
      invariant lost + LostFrom(ack, sack, last, idx) == LostFrom(ack, sack, last, 0)
    {
      if !BitAt(sack, idx) {
        var n := (ack + 2 + idx) % SEQ;
        if n >= last {
          return;
        }
        SnocAssoc(lost, n, LostFrom(ack, sack, last, idx + 1));
        lost := lost + [n];
      }
      idx := idx + 1;
    }
  }

  /** The number that bit `idx` stands for. */
  function Number(ack: U16, idx: nat): U16 { (ack + 2 + idx) % SEQ }

  /** Bit `idx` is unset, and no unset bit up to it, from `first` on, has a number that is not below `last`. */
  ghost predicate Reached(ack: U16, sack: seq<Byte>, last: U16, first: nat, idx: nat) {
    && first <= idx < 8 * |sack| && !BitAt(sack, idx)
    && forall j :: first <= j <= idx && !BitAt(sack, j) ==> Number(ack, j) < last
  }

  ghost predicate ReachedNumber(ack: U16, sack: seq<Byte>, last: U16, first: nat, n: int) {
    exists idx :: Reached(ack, sack, last, first, idx) && n == Number(ack, idx)
  }

  /** The sender picks exactly the numbers of the unset bits before the first one whose number is not
      below the last one sent. */
  lemma {:induction false} LostExactly(ack: U16, sack: seq<Byte>, last: U16, first: nat)
    ensures forall n: int :: n in LostFrom(ack, sack, last, first) <==> ReachedNumber(ack, sack, last, first, n)
    decreases 8 * |sack| - first
  {
    if first < 8 * |sack| {
      LostExactly(ack, sack, last, first + 1);
      forall n: int
        ensures n in LostFrom(ack, sack, last, first) <==> ReachedNumber(ack, sack, last, first, n)
      {
        LostOneMore(ack, sack, last, first, n);
      }
    }
  }

  lemma LostOneMore(ack: U16, sack: seq<Byte>, last: U16, first: nat, n: int)
    requires first < 8 * |sack|
    requires n in LostFrom(ack, sack, last, first + 1) <==> ReachedNumber(ack, sack, last, first + 1, n)
    ensures n in LostFrom(ack, sack, last, first) <==> ReachedNumber(ack, sack, last, first, n)
  {
    ReachedOneMore(ack, sack, last, first, n);
    hide BitAt, ReachedNumber;
  }

  lemma ReachedOneMore(ack: U16, sack: seq<Byte>, last: U16, first: nat, n: int)
    requires first < 8 * |sack|
    ensures ReachedNumber(ack, sack, last, first, n) <==>
              if BitAt(sack, first) then ReachedNumber(ack, sack, last, first + 1, n)
              else Number(ack, first) < last && (n == Number(ack, first) || ReachedNumber(ack, sack, last, first + 1, n))
  {
    forall idx: nat
      ensures Reached(ack, sack, last, first, idx) <==>
                if idx == first then !BitAt(sack, first) && Number(ack, first) < last
                else Reached(ack, sack, last, first + 1, idx) && (BitAt(sack, first) || Number(ack, first) < last)
    {
      ReachedFrom(ack, sack, last, first, idx);
    }
    hide BitAt, Number, Reached;
  }

  lemma ReachedFrom(ack: U16, sack: seq<Byte>, last: U16, first: nat, idx: nat)
    requires first < 8 * |sack|
    ensures Reached(ack, sack, last, first, idx) <==>
              if idx == first then !BitAt(sack, first) && Number(ack, first) < last
              else Reached(ack, sack, last, first + 1, idx) && (BitAt(sack, first) || Number(ack, first) < last)
  {
    hide BitAt, Number;
  }

  /** How many numbers lie from the first one the bitmap covers up to the last one sent. */
  function Span(ack: U16, last: U16): nat { (last - ack - 2) % SEQ }

  /** Bit `idx` stands for a number sent before the last one, and is not set. If the last number sent is
      not after the acknowledged one in serial order, or just after it, there is no such bit. */
  ghost predicate Missing(ack: U16, sack: seq<Byte>, last: U16, idx: nat) {
    idx < Span(ack, last) < SEQ / 2 && idx < 8 * |sack| && !BitAt(sack, idx)
  }

  /** With the last number acknowledged, or the next one, or one beyond, nothing is missing. */
  lemma NothingToMiss(ack: U16, sack: seq<Byte>, last: U16, idx: nat)
    requires (last - ack) % SEQ < 2 || (last - ack) % SEQ >= SEQ / 2 + 2
    ensures !Missing(ack, sack, last, idx)
  {
    var d := (last - ack) % SEQ;
    assert d == if last >= ack then last - ack else last - ack + SEQ;
    assert Span(ack, last) == if d >= 2 then d - 2 else d - 2 + SEQ;
  }

  /** Everything reported missing is resent if and only if the numbers do not wrap before the last one
      sent, or nothing before the wrap is missing. */
  lemma ResentAllIff(ack: U16, sack: seq<Byte>, last: U16)
    ensures (forall idx :: Missing(ack, sack, last, idx) ==> Number(ack, idx) in LostFrom(ack, sack, last, 0))
            <==> Number(ack, 0) <= last
                 || (forall idx :: Missing(ack, sack, last, idx) ==> Number(ack, 0) + idx >= SEQ)
  {
    LostExactly(ack, sack, last, 0);
    forall idx: nat | idx < Span(ack, last)
      ensures Number(ack, idx) < last <==> Number(ack, 0) <= last || Number(ack, 0) + idx >= SEQ
    {
      BelowLast(ack, last, idx);
    }
    hide BitAt, LostFrom, Number, Span;
    if Number(ack, 0) <= last || (forall idx :: Missing(ack, sack, last, idx) ==> Number(ack, 0) + idx >= SEQ) {
      forall idx | Missing(ack, sack, last, idx)
        ensures Number(ack, idx) in LostFrom(ack, sack, last, 0)
      {
        assert forall j :: 0 <= j <= idx && !BitAt(sack, j) ==> Missing(ack, sack, last, j);
        assert Reached(ack, sack, last, 0, idx);
        assert ReachedNumber(ack, sack, last, 0, Number(ack, idx));
      }
    } else {
      var idx :| Missing(ack, sack, last, idx) && Number(ack, 0) + idx < SEQ;
      assert !(Number(ack, idx) < last);
      assert !ReachedNumber(ack, sack, last, 0, Number(ack, idx));
    }
  }

  lemma BelowLast(ack: U16, last: U16, idx: nat)
    requires idx < Span(ack, last)
    ensures Number(ack, idx) < last <==> Number(ack, 0) <= last || Number(ack, 0) + idx >= SEQ
  {
    var a := Number(ack, 0);
    assert Number(ack, idx) == if a + idx < SEQ then a + idx else a + idx - SEQ;
    assert Span(ack, last) == if a <= last then last - a else last - a + SEQ;
  }

  /** Nothing is resent although 65535 is missing and 0, 1, 2 and 3 were sent after it. */
  lemma WrappedSackExample()
    ensures LostFrom(65533, [0, 0, 0, 0], 3, 0) == []
    ensures Missing(65533, [0, 0, 0, 0], 3, 0) && Number(65533, 0) == 65535
  {
    ZeroHasNoBits(0);
  }

  /** The receiver's buffer has no packet for bit `idx`, and none for earlier bits without one has a
      number that is not below `last`. */
  ghost predicate Wanting(buffer: seq<Packet>, ack: U16, sack: seq<Byte>, last: U16, idx: nat) {
    && idx < 8 * |sack| && !Stashed(buffer, ack, idx)
    && forall j :: 0 <= j <= idx && !Stashed(buffer, ack, j) ==> Number(ack, j) < last
  }

  /** End to end: a receiver makes the sender resend exactly the numbers, as far as its bitmap goes, that
      it has not stashed, up to the first of them that is not below the last one sent. */
  lemma SackEndToEnd(buffer: seq<Packet>, ack: U16, sack: seq<Byte>, last: U16)
    requires SackFor(sack, buffer, ack)
    ensures forall n: int :: n in LostFrom(ack, sack, last, 0)
              <==> exists idx :: Wanting(buffer, ack, sack, last, idx) && n == Number(ack, idx)
  {
    LostExactly(ack, sack, last, 0);
    hide BitAt, Stashed, LostFrom, Number;
    forall idx
      ensures Reached(ack, sack, last, 0, idx) <==> idx >= 0 && Wanting(buffer, ack, sack, last, idx)
    {
    }
    forall n: int
      ensures n in LostFrom(ack, sack, last, 0)
              <==> exists idx :: Wanting(buffer, ack, sack, last, idx) && n == Number(ack, idx)
    {
      assert n in LostFrom(ack, sack, last, 0) <==> ReachedNumber(ack, sack, last, 0, n);
    }
  }

  /** Without wraparound these are the numbers below the last one sent that are not in the buffer. */
  lemma SackInOrder(buffer: seq<Packet>, ack: U16, sack: seq<Byte>, last: U16)
    requires SackFor(sack, buffer, ack)
    requires ack + 2 + 8 * |sack| <= SEQ
    ensures forall n: int :: n in LostFrom(ack, sack, last, 0) <==>
              ack + 2 <= n < last && n < ack + 2 + 8 * |sack| && !HasSeq(buffer, n)
  {
    SackEndToEnd(buffer, ack, sack, last);
    forall idx: nat | idx < 8 * |sack|
      ensures Number(ack, idx) == ack + 2 + idx && (Stashed(buffer, ack, idx) <==> HasSeq(buffer, ack + 2 + idx))
    {
      StashedIffPresent(buffer, ack, ack + 2 + idx);
    }
    hide Stashed, LostFrom, Number, HasSeq;
    forall n: int
      ensures n in LostFrom(ack, sack, last, 0) <==>
              ack + 2 <= n < last && n < ack + 2 + 8 * |sack| && !HasSeq(buffer, n)
    {
      if ack + 2 <= n < last && n < ack + 2 + 8 * |sack| && !HasSeq(buffer, n) {
        assert Wanting(buffer, ack, sack, last, n - ack - 2);
      }
    }
  }

  lemma StashedIffPresent(buffer: seq<Packet>, ack: U16, n: U16)
    requires ack + 2 <= n
    ensures Stashed(buffer, ack, n - ack - 2) <==> HasSeq(buffer, n)
  {
    BitMeaning(ack, n - ack - 2, n);
    if HasSeq(buffer, n) {
      var i :| 0 <= i < |buffer| && buffer[i].seqNr == n;
      assert Ahead(buffer[i].seqNr, ack);
    }
    if Stashed(buffer, ack, n - ack - 2) {
      var i :| 0 <= i < |buffer| && Ahead(buffer[i].seqNr, ack) && BitIndex(buffer[i].seqNr, ack) == n - ack - 2;
      BitMeaning(ack, n - ack - 2, buffer[i].seqNr);
    }
  }

  /** A buffered packet is reported exactly when its number does not lie beyond the wraparound,
      or the ack number is 65535. */
  lemma ReportedIffNotWrapped(buffer: seq<Packet>, ack: U16, idx: nat)
    requires idx < SEQ && HasSeq(buffer, Number(ack, idx))
    ensures Stashed(buffer, ack, idx) <==> if ack == SEQ - 1 then idx < SEQ - 1 else ack + 2 + idx < SEQ
  {
    var i :| 0 <= i < |buffer| && buffer[i].seqNr == Number(ack, idx);
    BitMeaning(ack, idx, buffer[i].seqNr);
    if Stashed(buffer, ack, idx) {
      var k :| 0 <= k < |buffer| && Ahead(buffer[k].seqNr, ack) && BitIndex(buffer[k].seqNr, ack) == idx;
      BitMeaning(ack, idx, buffer[k].seqNr);
    }
  }

  /** Number 0 is held but not reported under acknowledgement 65534. */
  lemma UnreportedExample(p: Packet, sack: seq<Byte>)
    requires p.seqNr == 0 && SackFor(sack, [p], 65534)
    ensures HasSeq([p], Number(65534, 0)) && !Stashed([p], 65534, 0) && (sack != [] ==> !BitAt(sack, 0))
  {
    assert [p][0].seqNr == Number(65534, 0);
    ReportedIffNotWrapped([p], 65534, 0);
  }

  /** One stashed packet 2042 numbers ahead makes the bitmap too long for its length byte: no reply
      reads back with it. */
  lemma LongSackExample(p: Packet, sack: seq<Byte>, reply: Packet)
    requires p.seqNr == 2042 && SackFor(sack, [p], 0) && ValidExtensions(reply.extensions)
    ensures |sack| >= 256 && Decode(Encode(WithSack(reply, sack))) != Ok(WithSack(reply, sack))
  {
    assert Ahead([p][0].seqNr, 0) && BitIndex([p][0].seqNr, 0) == 2040;
    assert Stashed([p], 0, 2040);
    SetSackFaithfulIffShort(reply, sack);
  }
}
