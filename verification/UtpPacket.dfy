/**
 uTP packets (the header and extension layout of BEP 29): the record that the connection works
 on, the bytes on the wire, validation of received bytes, and insertion of a selective ack.
 */
module UtpPacket {
  import opened Bytes

  // Sequence numbers count modulo this.
  const SEQ := 0x1_0000
  const HEADER_SIZE := 20
  const VERSION := 1
  const NONE: Byte := 0
  const SELECTIVE_ACK: Byte := 1

  datatype PacketType = Data | Fin | State | Reset | Syn

  /** An extension and the type byte that announces it; 0 would end the chain. */
  datatype Extension = Extension(ty: Byte, data: seq<Byte>)

  datatype Packet = Packet(ty: PacketType, connectionId: U16, timestamp: U32, timestampDifference: U32,
                           wndSize: U32, seqNr: U16, ackNr: U16,
                           extensions: seq<Extension>, payload: seq<Byte>)

  datatype ParseError = InvalidPacketLength | InvalidExtensionLength | InvalidPacketType | UnsupportedVersion
  datatype Result<+T> = Ok(value: T) | Err(error: ParseError)

  // ----- wire layout of a record -----

  function TypeNumber(t: PacketType): (n: nat)
    ensures n <= 4
  {
    match t case Data => 0 case Fin => 1 case State => 2 case Reset => 3 case Syn => 4
  }

  /** Type byte of the first of `es`. */
  function FirstType(es: seq<Extension>): Byte {
    if es == [] then NONE else es[0].ty
  }

  predicate ValidExtension(e: Extension) {
    e.ty != NONE && 0 < |e.data| < 256 && |e.data| % 4 == 0
  }

  ghost predicate ValidExtensions(es: seq<Extension>) {
    forall i :: 0 <= i < |es| ==> ValidExtension(es[i])
  }

  /** Each extension carries the type of the next one, its own length and its data. */
  function Body(es: seq<Extension>): seq<Byte> {
    if es == [] then [] else Link(es[0], FirstType(es[1..])) + Body(es[1..])
  }

  function Link(e: Extension, next: Byte): seq<Byte> {
    [next, |e.data| % 256] + e.data
  }

  function Header(p: Packet): (h: seq<Byte>)
    ensures |h| == HEADER_SIZE
  {
    [TypeNumber(p.ty) * 16 + VERSION, FirstType(p.extensions)] + Be(p.connectionId, 2)
    + Be(p.timestamp, 4) + Be(p.timestampDifference, 4) + Be(p.wndSize, 4) + Be(p.seqNr, 2) + Be(p.ackNr, 2)
  }

  function Encode(p: Packet): seq<Byte> {
    Header(p) + Body(p.extensions) + p.payload
  }

  /** `Packet::len`. */
  function Len(p: Packet): (n: nat)
    ensures n == |Encode(p)|
  {
    HEADER_SIZE + |Body(p.extensions)| + |p.payload|
  }

  // ----- reading -----

  /** The extensions announced by type `ty` from index `i` on, and where they end. */
  function Chain(data: seq<Byte>, i: nat, ty: Byte): (r: Result<(seq<Extension>, nat)>)
    ensures r.Ok? && i <= |data| ==> i <= r.value.1 <= |data|
    decreases |data| - i
  {
    if ty == NONE then Ok(([], i))
    else if i >= |data| then Err(if i == HEADER_SIZE then InvalidExtensionLength else InvalidPacketLength)
    else if |data| < i + 2 then Err(InvalidPacketLength)
    else
      var end := i + 2 + data[i + 1];
      if data[i + 1] == 0 || data[i + 1] % 4 != 0 || end > |data| then Err(InvalidExtensionLength)
      else
        match Chain(data, end, data[i])
        case Err(e) => Err(e)
        case Ok((es, stop)) => Ok(([Extension(ty, data[i + 2..end])] + es, stop))
  }

  lemma BodyCons(e: Extension, es: seq<Extension>)
    ensures Body([e] + es) == Link(e, FirstType(es)) + Body(es)
  {
    assert ([e] + es)[1..] == es;
  }

  lemma SplitLink(data: seq<Byte>, i: nat, end: nat, stop: nat)
    requires i + 2 <= end <= stop <= |data| && data[i + 1] == end - i - 2
    ensures data[i..stop] == Link(Extension(NONE, data[i + 2..end]), data[i]) + data[end..stop]
  {
  }

  /** The chain found is exactly the bytes it was read from. */
  lemma {:induction false} ChainIsBody(data: seq<Byte>, i: nat, ty: Byte)
    requires i <= |data| && Chain(data, i, ty).Ok?
    ensures var (es, stop) := Chain(data, i, ty).value;
            ValidExtensions(es) && FirstType(es) == ty && data[i..stop] == Body(es)
    decreases |data| - i
  {
    if ty != NONE {
      var end := i + 2 + data[i + 1];
      ChainIsBody(data, end, data[i]);
      var (es, stop) := Chain(data, end, data[i]).value;
      BodyCons(Extension(ty, data[i + 2..end]), es);
      SplitLink(data, i, end, stop);
    }
  }

  function TypeOf(n: nat): Result<PacketType> {
    match n
    case 0 => Ok(Data) case 1 => Ok(Fin) case 2 => Ok(State) case 3 => Ok(Reset) case 4 => Ok(Syn)
    case _ => Err(InvalidPacketType)
  }

  /** `Packet::try_from_type`, with the accepted bytes read into a record. */
  function Decode(data: seq<Byte>): Result<Packet> {
    if |data| < HEADER_SIZE then Err(InvalidPacketLength)
    else if data[0] % 16 != VERSION then Err(UnsupportedVersion)
    else
      match TypeOf(data[0] / 16)
      case Err(e) => Err(e)
      case Ok(t) =>
        match Chain(data, HEADER_SIZE, data[1])
        case Err(e) => Err(e)
        case Ok((es, end)) =>
          Ok(Fields(data, t, es, data[end..]))
  }

  function Fields(d: seq<Byte>, t: PacketType, es: seq<Extension>, payload: seq<Byte>): Packet
    requires HEADER_SIZE <= |d|
  {
    Packet(t, Read16(d[2..4]), Read32(d[4..8]), Read32(d[8..12]), Read32(d[12..16]),
           Read16(d[16..18]), Read16(d[18..20]), es, payload)
  }

  // ----- records and accepted bytes are the same thing -----

  lemma SubSlice<T>(s: seq<T>, i: nat, j: nat, a: nat, b: nat)
    requires i <= j <= |s| && a <= b <= j - i
    ensures s[i..j][a..b] == s[i + a..i + b]
  {
    forall k | 0 <= k < b - a
      ensures s[i..j][a..b][k] == s[i + a..i + b][k]
    {
    }
  }

  lemma SlicePoint<T>(s: seq<T>, i: nat, j: nat, a: nat)
    requires i <= j <= |s| && a < j - i
    ensures s[i..j][a] == s[i + a]
  {
  }

  /** One extension in front of a chain that is read already. */
  lemma ChainUnfold(data: seq<Byte>, i: nat, e: Extension, es: seq<Extension>, stop: nat)
    requires ValidExtension(e) && i + 2 + |e.data| <= |data|
    requires data[i + 1] == |e.data| && data[i + 2..i + 2 + |e.data|] == e.data
    requires Chain(data, i + 2 + |e.data|, data[i]) == Ok((es, stop))
    ensures Chain(data, i, e.ty) == Ok(([e] + es, stop))
  {
  }

  lemma BodyParts(es: seq<Extension>)
    requires es != [] && ValidExtension(es[0])
    ensures var body, n := Body(es), 2 + |es[0].data|;
            && |body| == n + |Body(es[1..])|
            && body[0] == FirstType(es[1..]) && body[1] == |es[0].data|
            && body[2..n] == es[0].data && body[n..] == Body(es[1..])
  {
  }

  /** Where the first extension of a body and the rest of it stand. */
  lemma BodyAt(data: seq<Byte>, i: nat, es: seq<Extension>)
    requires es != [] && ValidExtension(es[0])
    requires i + |Body(es)| <= |data| && data[i..i + |Body(es)|] == Body(es)
    ensures var end := i + 2 + |es[0].data|;
            && i + |Body(es)| == end + |Body(es[1..])|
            && data[i] == FirstType(es[1..]) && data[i + 1] == |es[0].data|
            && data[i + 2..end] == es[0].data && data[end..end + |Body(es[1..])|] == Body(es[1..])
  {
    hide *;
    var body, n := Body(es), 2 + |es[0].data|;
    BodyParts(es);
    SlicePoint(data, i, i + |body|, 0);
    SlicePoint(data, i, i + |body|, 1);
    SubSlice(data, i, i + |body|, 2, n);
    SubSlice(data, i, i + |body|, n, |body|);
    assert body[n..] == body[n..|body|];
  }

  /** A well-formed body is read back, wherever it stands. */
  lemma {:induction false} ChainReadsBody(data: seq<Byte>, i: nat, es: seq<Extension>)
    requires ValidExtensions(es)
    requires i + |Body(es)| <= |data| && data[i..i + |Body(es)|] == Body(es)
    ensures Chain(data, i, FirstType(es)) == Ok((es, i + |Body(es)|))
    decreases |es|
  {
    hide Body, Chain;
    if es == [] {
      ChainEmpty(data, i);
    } else {
      BodyAt(data, i, es);
      ChainReadsBody(data, i + 2 + |es[0].data|, es[1..]);
      ChainUnfold(data, i, es[0], es[1..], i + |Body(es)|);
      assert es == [es[0]] + es[1..];
    }
  }

  lemma ChainEmpty(data: seq<Byte>, i: nat)
    ensures Body([]) == [] && Chain(data, i, NONE) == Ok(([], i))
  {
  }

  lemma HeaderSlices(p: Packet, d: seq<Byte>)
    requires |d| >= HEADER_SIZE && d[..HEADER_SIZE] == Header(p)
    ensures d[0] == TypeNumber(p.ty) * 16 + VERSION && d[1] == FirstType(p.extensions)
    ensures d[2..4] == Be(p.connectionId, 2) && d[4..8] == Be(p.timestamp, 4)
    ensures d[8..12] == Be(p.timestampDifference, 4) && d[12..16] == Be(p.wndSize, 4)
    ensures d[16..18] == Be(p.seqNr, 2) && d[18..20] == Be(p.ackNr, 2)
  {
    hide Be;
    var h := Header(p);
    assert d[0] == h[0] && d[1] == h[1];
    assert d[2..4] == h[2..4] && d[4..8] == h[4..8] && d[8..12] == h[8..12];
    assert d[12..16] == h[12..16] && d[16..18] == h[16..18] && d[18..20] == h[18..20];
  }

  lemma HeaderFields(p: Packet, d: seq<Byte>)
    requires |d| >= HEADER_SIZE && d[..HEADER_SIZE] == Header(p)
    ensures d[0] / 16 == TypeNumber(p.ty) && d[0] % 16 == VERSION && d[1] == FirstType(p.extensions)
    ensures Fields(d, p.ty, p.extensions, p.payload) == p
  {
    hide Be, FromBe, Header;
    HeaderSlices(p, d);
    RoundTrip16(p.connectionId); RoundTrip32(p.timestamp); RoundTrip32(p.timestampDifference);
    RoundTrip32(p.wndSize); RoundTrip16(p.seqNr); RoundTrip16(p.ackNr);
  }

  /** Every record with valid extensions is accepted and read back unchanged. */
  lemma DecodeEncode(p: Packet)
    requires ValidExtensions(p.extensions)
    ensures Decode(Encode(p)) == Ok(p)
  {
    var data := Encode(p);
    assert data[..HEADER_SIZE] == Header(p);
    HeaderFields(p, data);
    assert data[HEADER_SIZE..HEADER_SIZE + |Body(p.extensions)|] == Body(p.extensions);
    ChainReadsBody(data, HEADER_SIZE, p.extensions);
    assert data[HEADER_SIZE + |Body(p.extensions)|..] == p.payload;
    assert TypeOf(data[0] / 16) == Ok(p.ty);
  }

  lemma HeaderOfFields(d: seq<Byte>, t: PacketType, es: seq<Extension>, payload: seq<Byte>)
    requires |d| >= HEADER_SIZE
    requires d[0] == TypeNumber(t) * 16 + VERSION && d[1] == FirstType(es)
    ensures Header(Fields(d, t, es, payload)) == d[..HEADER_SIZE]
  {
    hide Be, FromBe;
    BeOfFromBe(d[2..4]); BeOfFromBe(d[4..8]); BeOfFromBe(d[8..12]);
    BeOfFromBe(d[12..16]); BeOfFromBe(d[16..18]); BeOfFromBe(d[18..20]);
  }

  /** Accepted bytes carry nothing the record loses: writing the record gives the bytes back. */
  lemma EncodeDecode(data: seq<Byte>)
    requires Decode(data).Ok?
    ensures ValidExtensions(Decode(data).value.extensions)
    ensures Encode(Decode(data).value) == data
  {
    hide Body, Be, FromBe;
    var t := TypeOf(data[0] / 16).value;
    var (es, end) := Chain(data, HEADER_SIZE, data[1]).value;
    ChainIsBody(data, HEADER_SIZE, data[1]);
    HeaderOfFields(data, t, es, data[end..]);
    assert data == data[..HEADER_SIZE] + data[HEADER_SIZE..end] + data[end..];
  }

  // ----- validation and traversal of received bytes -----

  /** `check_extensions`: accepts exactly the bytes whose extension chain is well formed. */
  method CheckExtensions(data: seq<Byte>) returns (r: Result<()>)
    ensures |data| < HEADER_SIZE ==> r == Err(InvalidPacketLength)
    ensures |data| >= HEADER_SIZE ==>
              match Chain(data, HEADER_SIZE, data[1])
              case Ok(_) => r == Ok(())
              case Err(e) => r == Err(e)
  {
    if |data| < HEADER_SIZE {
      return Err(InvalidPacketLength);
    }
    var index, ty: Byte := HEADER_SIZE, data[1];
    ghost var whole := Chain(data, index, ty);
    if |data| == HEADER_SIZE && ty != NONE {
      return Err(InvalidExtensionLength);
    }
    while index < |data| && ty != NONE
      invariant HEADER_SIZE <= index <= |data|
      invariant index == HEADER_SIZE == |data| ==> ty == NONE
      invariant match Chain(data, index, ty)
                case Ok(_) => whole.Ok?
                case Err(e) => whole == Err(e)
    {
      if |data| < index + 2 {
        return Err(InvalidPacketLength);
      }
      var len := data[index + 1];
      if len == 0 || len % 4 != 0 || index + 2 + len > |data| {
        return Err(InvalidExtensionLength);
      }
      ty := data[index];
      index := index + len + 2;
    }
    if ty != NONE {
      return Err(InvalidPacketLength);
    }
    return Ok(());
  }

  /** `Packet::payload` of accepted bytes. */
  method Payload(data: seq<Byte>) returns (payload: seq<Byte>)
    requires Decode(data).Ok?
    ensures payload == Decode(data).value.payload
  {
    var index, ty: Byte := HEADER_SIZE, data[1];
    ghost var end := Chain(data, index, ty).value.1;
    while index < |data| && ty != NONE
      invariant HEADER_SIZE <= index <= |data|
      invariant Chain(data, index, ty).Ok? && Chain(data, index, ty).value.1 == end
    {
      var len := data[index + 1];
      ty := data[index];
      index := index + len + 2;
    }
    payload := data[index..];
  }

  /** Iterator over the extensions of accepted bytes. */
  class ExtensionIterator {
    const raw: seq<Byte>
    var next: Byte
    var index: nat
    ghost const end: nat

    /** The chain still ahead is well formed and stops where the payload starts. */
    ghost predicate Valid()
      reads this
    {
      index <= |raw| && Chain(raw, index, next).Ok? && Chain(raw, index, next).value.1 == end
    }

    ghost function Remaining(): seq<Extension>
      requires Valid()
      reads this
    {
      Chain(raw, index, next).value.0
    }

    constructor (data: seq<Byte>)
      requires Decode(data).Ok?
      ensures Valid() && raw == data
      ensures Remaining() == Decode(data).value.extensions
      ensures end == |data| - |Decode(data).value.payload|
    {
      raw := data;
      next := data[1];
      index := HEADER_SIZE;
      end := Chain(data, HEADER_SIZE, data[1]).value.1;
    }

    method Next() returns (found: bool, e: Extension)
      requires Valid()
      modifies this
      ensures Valid()
      ensures found <==> old(Remaining()) != []
      ensures found ==> old(Remaining()) == [e] + Remaining()
      ensures !found ==> index == end && Remaining() == []
    {
      if next == NONE {
        return false, Extension(NONE, []);
      } else if index < |raw| {
        var len := raw[index + 1];
        e := Extension(next, raw[index + 2..index + 2 + len]);
        next := raw[index];
        index := index + len + 2;
        return true, e;
      } else {
        return false, Extension(NONE, []);
      }
    }
  }

  // ----- adding a selective ack -----

  /** Index, in the packet, of the byte that ends the chain `es`. */
  function LastMarker(es: seq<Extension>): nat {
    if es == [] then 1 else HEADER_SIZE + |Body(es[..|es| - 1])|
  }

  function WithSack(p: Packet, bv: seq<Byte>): Packet {
    p.(extensions := p.extensions + [Extension(SELECTIVE_ACK, bv)])
  }

  lemma {:induction false} BodyLength(es: seq<Extension>, k: nat)
    requires k < |es|
    ensures |Body(es[..k + 1])| == |Body(es[..k])| + 2 + |es[k].data|
  {
    if k > 0 {
      BodyLength(es[1..], k - 1);
      assert es[..k + 1][1..] == es[1..][..k] && es[..k][1..] == es[1..][..k - 1];
    }
  }

  /** Announcing `x` in the last extension and writing it after the body appends it. */
  lemma {:induction false} BodySnoc(es: seq<Extension>, x: Extension)
    requires es != []
    ensures |Body(es[..|es| - 1])| < |Body(es)|
    ensures Body(es + [x]) == Body(es)[|Body(es[..|es| - 1])| := x.ty] + Link(x, NONE)
    decreases |es|
  {
    var n := |es| - 1;
    assert Body([]) == [];
    hide Body;
    if n == 0 {
      BodyPair(es[0], x);
      assert es == [es[0]] && es + [x] == [es[0], x] && es[..0] == [];
    } else {
      BodySnoc(es[1..], x);
      FirstAndRest(es, n);
      BodyCons(es[0], es[1..]);
      BodyCons(es[0], es[1..][..n - 1]);
      BodySnocStep(es, x, |Body(es[1..][..n - 1])|);
    }
  }

  lemma BodyPair(e: Extension, x: Extension)
    ensures Body([e]) == Link(e, NONE) && Body([e, x]) == Link(e, x.ty) + Link(x, NONE)
    ensures Link(e, NONE)[0 := x.ty] == Link(e, x.ty)
  {
    assert [e][1..] == [] && [x][1..] == [] && [e, x][1..] == [x];
    assert Body([x]) == Link(x, NONE);
  }

  lemma BodySnocStep(es: seq<Extension>, x: Extension, k: nat)
    requires |es| > 1 && k < |Body(es[1..])|
    requires Body(es[1..] + [x]) == Body(es[1..])[k := x.ty] + Link(x, NONE)
    ensures Body(es + [x]) == Body(es)[2 + |es[0].data| + k := x.ty] + Link(x, NONE)
  {
    hide Body;
    var rest, first := es[1..], Link(es[0], FirstType(es[1..]));
    assert es + [x] == [es[0]] + (rest + [x]) && es == [es[0]] + rest;
    BodyCons(es[0], rest);
    BodyCons(es[0], rest + [x]);
    calc {
      Body(es + [x]);
      first + Body(rest + [x]);
      first + (Body(rest)[k := x.ty] + Link(x, NONE));
      (first + Body(rest)[k := x.ty]) + Link(x, NONE);
      { UpdateRight(first, Body(rest), k, x.ty); }
      Body(es)[2 + |es[0].data| + k := x.ty] + Link(x, NONE);
    }
  }

  lemma UpdateRight<T>(a: seq<T>, b: seq<T>, k: nat, v: T)
    requires k < |b|
    ensures (a + b)[|a| + k := v] == a + b[k := v]
  {
  }

  lemma SuffixOfSuffix<T>(a: seq<T>, b: seq<T>, k: nat)
    requires k <= |b|
    ensures (a + b)[|a| + k..] == b[k..]
  {
  }

  lemma FirstAndRest<T>(s: seq<T>, k: nat)
    requires 0 < k <= |s|
    ensures s == [s[0]] + s[1..] && s[..k] == [s[0]] + s[1..][..k - 1] && s[k..] == s[1..][k - 1..]
  {
  }

  /** The body of the extensions from the k-th on ends the whole body. */
  lemma {:induction false} BodySuffix(es: seq<Extension>, k: nat)
    requires k <= |es|
    ensures |Body(es)| == |Body(es[..k])| + |Body(es[k..])|
    ensures Body(es)[|Body(es[..k])|..] == Body(es[k..])
    decreases k
  {
    if k == 0 {
      assert es[..k] == [] && es[k..] == es;
    } else {
      hide Body, Link;
      var tail := es[1..];
      BodySuffix(tail, k - 1);
      FirstAndRest(es, k);
      BodyCons(es[0], tail);
      BodyCons(es[0], tail[..k - 1]);
      SuffixOfSuffix(Link(es[0], FirstType(tail)), Body(tail), |Body(tail[..k - 1])|);
    }
  }

  /** Index, in the packet, of the k-th of the extensions `es`. */
  ghost function StartOf(es: seq<Extension>, k: nat): nat
    requires k <= |es|
  {
    HEADER_SIZE + |Body(es[..k])|
  }

  /** The type and length bytes of the k-th extension stand where the chain expects them. */
  ghost predicate MarkerAt(data: seq<Byte>, es: seq<Extension>, k: nat)
    requires k < |es|
  {
    var i := StartOf(es, k);
    && i + 2 + |es[k].data| <= |data|
    && data[i] == (if k + 1 < |es| then es[k + 1].ty else NONE) && data[i + 1] == |es[k].data|
    && StartOf(es, k + 1) == i + 2 + |es[k].data|
  }

  ghost predicate MarkersOf(data: seq<Byte>, es: seq<Extension>) {
    && |data| >= HEADER_SIZE && data[1] == FirstType(es)
    && forall k :: 0 <= k < |es| ==> MarkerAt(data, es, k)
  }

  lemma MarkerInEncoding(p: Packet, k: nat)
    requires ValidExtensions(p.extensions) && k < |p.extensions|
    ensures MarkerAt(Encode(p), p.extensions, k)
  {
    hide Body, Header;
    var es := p.extensions;
    var n, body, tail := |Body(es[..k])|, Body(es), Body(es[k..]);
    BodySuffix(es, k);
    BodyParts(es[k..]);
    BodyLength(es, k);
    assert es[k..][1..] == es[k + 1..];
    assert body[n] == body[n..][0] && body[n + 1] == body[n..][1];
    assert Encode(p)[HEADER_SIZE + n] == body[n] && Encode(p)[HEADER_SIZE + n + 1] == body[n + 1];
  }

  lemma MarkersInEncoding(p: Packet)
    requires ValidExtensions(p.extensions)
    ensures MarkersOf(Encode(p), p.extensions)
  {
    forall k | 0 <= k < |p.extensions|
      ensures MarkerAt(Encode(p), p.extensions, k)
    {
      MarkerInEncoding(p, k);
    }
  }

  lemma MarkerInside(data: seq<Byte>, es: seq<Extension>, k: nat)
    requires MarkersOf(data, es) && ValidExtensions(es)
    ensures k < |es| ==> StartOf(es, k) < |data| && es[k].ty != NONE
  {
    assert k < |es| ==> MarkerAt(data, es, k) && ValidExtension(es[k]);
  }

  /** Finds the end of the chain and announces a selective ack in its last marker. */
  method MarkLast(data: seq<Byte>, ghost es: seq<Extension>) returns (d: seq<Byte>, index: nat)
    requires MarkersOf(data, es) && ValidExtensions(es)
    ensures LastMarker(es) < |data|
    ensures index == StartOf(es, |es|) && d == data[LastMarker(es) := SELECTIVE_ACK]
  {
    d, index := data, HEADER_SIZE;
    var ty: Byte := data[1];
    if ty == NONE {
      d := d[1 := SELECTIVE_ACK];
    } else {
      ghost var k := 0;
      while index < |d| && ty != NONE
        invariant k <= |es| && ty == if k < |es| then es[k].ty else NONE
        invariant index == StartOf(es, k)
        invariant k < |es| ==> d == data
        invariant k == |es| ==> LastMarker(es) < |data| && d == data[LastMarker(es) := SELECTIVE_ACK]
      {
        assert ValidExtension(es[k]) && MarkerAt(data, es, k);
        assert k + 1 < |es| ==> ValidExtension(es[k + 1]);
        var len := d[index + 1];
        ty := d[index];
        if ty == NONE {
          d := d[index := SELECTIVE_ACK];
        }
        index := index + len + 2;
        k := k + 1;
      }
      MarkerInside(data, es, k);
    }
  }

  /** `Packet::set_sack` on accepted bytes: exactly one selective ack is appended to the
      extensions; header fields, earlier extensions and payload stay as they are. The length byte
      holds the length modulo 256. */
  method SetSack(data: seq<Byte>, bv: seq<Byte>) returns (out: seq<Byte>)
    requires Decode(data).Ok?
    requires |bv| >= 4 && |bv| % 4 == 0
    ensures out == Encode(WithSack(Decode(data).value, bv))
  {
    SplicedIsEncoded(data, bv);
    ghost var p := Decode(data).value;
    MarkersInEncoding(p);
    var d, index := MarkLast(data, p.extensions);
    assert p.extensions[..|p.extensions|] == p.extensions;
    out := InsertLast(d, index, bv);
  }

  /** Writes an extension with data `bv`, and no successor, at `index`. */
  method InsertLast(data: seq<Byte>, index: nat, bv: seq<Byte>) returns (d: seq<Byte>)
    requires index <= |data|
    ensures d == data[..index] + [NONE, |bv| % 256] + bv + data[index..]
  {
    d := data[..index] + [NONE] + data[index..];
    d := d[..index + 1] + [|bv| % 256] + d[index + 1..];
    for i := 0 to |bv|
      invariant d == data[..index] + [NONE, |bv| % 256] + bv[..i] + data[index..]
    {
      d := d[..index + 2 + i] + [bv[i]] + d[index + 2 + i..];
    }
    assert bv[..|bv|] == bv;
  }

  /** The bytes of `p` with its chain extended by the marker and the written extension. */
  function Spliced(p: Packet, bv: seq<Byte>): seq<Byte>
    requires LastMarker(p.extensions) < |Encode(p)|
  {
    var d := Encode(p)[LastMarker(p.extensions) := SELECTIVE_ACK];
    var end := HEADER_SIZE + |Body(p.extensions)|;
    d[..end] + [NONE, |bv| % 256] + bv + d[end..]
  }

  lemma SpliceFirst(p: Packet, bv: seq<Byte>)
    requires p.extensions == []
    ensures Spliced(p, bv) == Encode(WithSack(p, bv))
  {
    var x := Extension(SELECTIVE_ACK, bv);
    var q := WithSack(p, bv);
    FirstHeader(p, bv);
    BodyPair(x, x);
    assert q.extensions == [x];
    assert Encode(p) == Header(p) + p.payload;
    hide Header, Body;
    assert Encode(p)[1 := SELECTIVE_ACK] == Header(q) + p.payload;
  }

  lemma FirstHeader(p: Packet, bv: seq<Byte>)
    requires p.extensions == []
    ensures Header(p)[1 := SELECTIVE_ACK] == Header(WithSack(p, bv))
  {
    hide Be;
    var q := WithSack(p, bv);
    assert FirstType(q.extensions) == SELECTIVE_ACK;
    var rest := Be(p.connectionId, 2) + Be(p.timestamp, 4) + Be(p.timestampDifference, 4) + Be(p.wndSize, 4)
                + Be(p.seqNr, 2) + Be(p.ackNr, 2);
    assert Header(p) == [TypeNumber(p.ty) * 16 + VERSION, NONE] + rest;
    assert Header(q) == [TypeNumber(p.ty) * 16 + VERSION, SELECTIVE_ACK] + rest;
  }

  lemma SameHeader(p: Packet, bv: seq<Byte>)
    requires p.extensions != []
    ensures Header(p) == Header(WithSack(p, bv))
  {
  }

  lemma SpliceLast(p: Packet, bv: seq<Byte>)
    requires p.extensions != []
    ensures HEADER_SIZE <= LastMarker(p.extensions) < HEADER_SIZE + |Body(p.extensions)|
    ensures Spliced(p, bv) == Encode(WithSack(p, bv))
  {
    hide Body, Header;
    var es, x := p.extensions, Extension(SELECTIVE_ACK, bv);
    BodySnoc(es, x);
    var k := |Body(es[..|es| - 1])|;
    UpdateMiddle(Header(p), Body(es), p.payload, k, SELECTIVE_ACK);
    var b := Body(es)[k := SELECTIVE_ACK];
    SameHeader(p, bv);
    assert Encode(WithSack(p, bv)) == Header(p) + (b + Link(x, NONE)) + p.payload;
    assert (Header(p) + b + p.payload)[..HEADER_SIZE + |b|] == Header(p) + b;
  }

  lemma SplicedIsEncoded(data: seq<Byte>, bv: seq<Byte>)
    requires Decode(data).Ok?
    ensures var (p, (es, end)) := (Decode(data).value, Chain(data, HEADER_SIZE, data[1]).value);
            && data == Encode(p) && ValidExtensions(p.extensions) && end == HEADER_SIZE + |Body(es)| && es == p.extensions
            && LastMarker(es) < end
            && Spliced(p, bv) == Encode(WithSack(p, bv))
  {
    EncodeDecode(data);
    ChainIsBody(data, HEADER_SIZE, data[1]);
    var p := Decode(data).value;
    if p.extensions == [] {
      SpliceFirst(p, bv);
    } else {
      SpliceLast(p, bv);
    }
  }

  lemma UpdateMiddle<T>(a: seq<T>, b: seq<T>, c: seq<T>, k: nat, v: T)
    requires k < |b|
    ensures (a + b + c)[|a| + k := v] == a + b[k := v] + c
  {
  }

  predicate StandsAt(data: seq<Byte>, i: nat, part: seq<Byte>) {
    i + |part| <= |data| && data[i..i + |part|] == part
  }

  /** Past valid extensions, the chain is accepted if and only if its last link is. */
  lemma {:induction false} ChainPast(data: seq<Byte>, i: nat, es: seq<Extension>)
    requires es != [] && AllButLastValid(es) && StandsAt(data, i, Body(es))
    ensures var x := es[|es| - 1];
            var j := i + |Body(es)| - |Link(x, NONE)|;
            && i <= j && StandsAt(data, j, Link(x, NONE))
            && (Chain(data, i, FirstType(es)).Ok? <==> Chain(data, j, x.ty).Ok?)
    decreases |es|
  {
    assert FirstType(es) == es[0].ty;
    hide *;
    if |es| == 1 {
      assert es == [es[0]];
      SingleLink(es[0]);
    } else {
      ButLastOfTail(es);
      var end := NextLink(data, i, es);
      ChainPast(data, end, es[1..]);
    }
  }

  /** Past the first link the rest of the body follows, and the chain is accepted if and only if it is from there on. */
  lemma NextLink(data: seq<Byte>, i: nat, es: seq<Extension>) returns (end: nat)
    requires es != [] && ValidExtension(es[0]) && StandsAt(data, i, Body(es))
    ensures i <= end && i + |Body(es)| == end + |Body(es[1..])| && StandsAt(data, end, Body(es[1..]))
    ensures Chain(data, i, es[0].ty).Ok? <==> Chain(data, end, FirstType(es[1..])).Ok?
  {
    hide Body, Chain, ValidExtension, FirstType;
    end := i + 2 + |es[0].data|;
    BodyAt(data, i, es);
    ChainLink(data, i, es[0]);
  }

  ghost predicate AllButLastValid(es: seq<Extension>) {
    forall k :: 0 <= k < |es| - 1 ==> ValidExtension(es[k])
  }

  lemma ButLastOfTail(es: seq<Extension>)
    requires |es| > 1 && AllButLastValid(es)
    ensures ValidExtension(es[0]) && AllButLastValid(es[1..]) && es[1..][|es[1..]| - 1] == es[|es| - 1]
  {
    hide ValidExtension;
  }

  lemma SingleLink(x: Extension)
    ensures Body([x]) == Link(x, NONE) && FirstType([x]) == x.ty
  {
    BodyPair(x, x);
  }

  lemma ChainLink(data: seq<Byte>, i: nat, e: Extension)
    requires ValidExtension(e) && i + 2 + |e.data| <= |data| && data[i + 1] == |e.data|
    ensures Chain(data, i, e.ty).Ok? <==> Chain(data, i + 2 + |e.data|, data[i]).Ok?
  {
  }

  /** A link without successor is accepted if and only if its length byte is not zero. */
  lemma LastLink(data: seq<Byte>, j: nat, x: Extension)
    requires x.ty != NONE && |x.data| % 4 == 0 && StandsAt(data, j, Link(x, NONE))
    ensures Chain(data, j, x.ty).Ok? <==> |x.data| % 256 != 0
  {
    var link := data[j..j + |Link(x, NONE)|];
    assert data[j] == link[0] == NONE && data[j + 1] == link[1] == |x.data| % 256;
    assert |x.data| % 256 % 4 == 0 && |x.data| % 256 <= |x.data|;
  }

  /** The result is accepted at all exactly when the truncated length is not zero. */
  lemma SetSackAcceptedIff(p: Packet, bv: seq<Byte>)
    requires ValidExtensions(p.extensions)
    requires |bv| >= 4 && |bv| % 4 == 0
    ensures Decode(Encode(WithSack(p, bv))).Ok? <==> |bv| % 256 != 0
  {
    var q, x := WithSack(p, bv), Extension(SELECTIVE_ACK, bv);
    var d, body := Encode(q), Body(q.extensions);
    hide Body, Header, Encode, Chain, Link, StandsAt;
    EncodedParts(q);
    HeaderFields(q, d);
    ChainPast(d, HEADER_SIZE, q.extensions);
    LastLink(d, HEADER_SIZE + |body| - |Link(x, NONE)|, x);
  }

  lemma EncodedParts(p: Packet)
    ensures var d, body := Encode(p), Body(p.extensions);
            |d| >= HEADER_SIZE && d[..HEADER_SIZE] == Header(p) && StandsAt(d, HEADER_SIZE, body)
  {
    hide Body, Be;
  }

  /** The result reads back as the packet with the selective ack exactly when the data fits the
      one-byte length. */
  lemma SetSackFaithfulIffShort(p: Packet, bv: seq<Byte>)
    requires ValidExtensions(p.extensions)
    requires |bv| >= 4 && |bv| % 4 == 0
    ensures Decode(Encode(WithSack(p, bv))) == Ok(WithSack(p, bv)) <==> |bv| < 256
  {
    var q := WithSack(p, bv);
    if |bv| < 256 {
      DecodeEncode(q);
    } else {
      assert !ValidExtension(q.extensions[|p.extensions|]);
      if Decode(Encode(q)) == Ok(q) {
        EncodeDecode(Encode(q));
      }
    }
  }
}
