/**
 UDP tracker requests (BEP 15) with their options (BEP 41): writers, parsers, and exactly when a
 request that is written reads back, up to the code's canonical forms.

 Parsers yield a value and the rest of the input, or report that input is missing or wrong.
 */
module Tracker {
  import opened Bytes
  import opened Sequences

  type I32 = x: int | -0x8000_0000 <= x < 0x8000_0000
  type I64 = x: int | -0x8000_0000_0000_0000 <= x < 0x8000_0000_0000_0000

  const CONNECT_ID_PROTOCOL_ID := 0x417_2710_1980
  const CONNECT_ACTION_ID := 0
  const ANNOUNCE_IPV4_ACTION_ID := 1
  const SCRAPE_ACTION_ID := 2
  const ANNOUNCE_IPV6_ACTION_ID := 4
  const HASH_LEN := 20
  const CHUNK := 255
  const DEFAULT_NUM_WANT := -1
  const END_OF_OPTIONS: Byte := 0
  const NO_OPERATION: Byte := 1

  datatype Parsed<+T> = Done(value: T, rest: seq<Byte>) | Incomplete | Error {
    predicate IsFailure() { !Done? }
    function PropagateFailure<U>(): Parsed<U>
      requires IsFailure()
    {
      if Incomplete? then Incomplete else Error
    }
    function Extract(): (T, seq<Byte>)
      requires !IsFailure()
    {
      (value, rest)
    }
  }

  datatype Event = NoEvent | Completed | Started | Stopped
  datatype ClientState = ClientState(downloaded: I64, left: I64, uploaded: I64, event: Event)
  datatype SourceIp = ImpliedV4 | ExplicitV4(v4: seq<Byte>) | ImpliedV6 | ExplicitV6(v6: seq<Byte>)
  datatype DesiredPeers = Default | Specified(count: I32)
  type Options = map<Byte, seq<Byte>>

  datatype AnnounceRequest = AnnounceRequest(infoHash: seq<Byte>, peerId: seq<Byte>, state: ClientState,
                                             ip: SourceIp, key: U32, numWant: DesiredPeers, port: U16, options: Options)

  datatype RequestType = Connect | Announce(request: AnnounceRequest) | Scrape(hashes: seq<Byte>)
  datatype TrackerRequest = TrackerRequest(connectionId: U64, transactionId: U32, ty: RequestType)

  /** What the types of hashes and addresses guarantee. */
  predicate WellTyped(r: TrackerRequest) {
    r.ty.Announce? ==>
      var a := r.ty.request;
      && |a.infoHash| == HASH_LEN && |a.peerId| == HASH_LEN
      && (a.ip.ExplicitV4? ==> |a.ip.v4| == 4) && (a.ip.ExplicitV6? ==> |a.ip.v6| == 16)
  }

  // ----- numbers -----

  /** Two's complement. */
  function I32Bytes(x: I32): seq<Byte> { Be(if x < 0 then x + 0x1_0000_0000 else x, 4) }
  function I64Bytes(x: I64): seq<Byte> { Be(if x < 0 then x + 0x1_0000_0000_0000_0000 else x, 8) }

  function ToI32(x: U32): I32 { if x < 0x8000_0000 then x else x - 0x1_0000_0000 }
  function ToI64(x: U64): I64 { if x < 0x8000_0000_0000_0000 then x else x - 0x1_0000_0000_0000_0000 }

  function Take(b: seq<Byte>, n: nat): Parsed<seq<Byte>> {
    if |b| < n then Incomplete else Done(b[..n], b[n..])
  }

  function ParseU16(b: seq<Byte>): Parsed<U16> {
    var (x, r) :- Take(b, 2);
    Done(Read16(x), r)
  }

  function ParseU32(b: seq<Byte>): Parsed<U32> {
    var (x, r) :- Take(b, 4);
    Done(Read32(x), r)
  }

  function ParseU64(b: seq<Byte>): Parsed<U64> {
    var (x, r) :- Take(b, 8);
    Done(Read64(x), r)
  }

  function ParseI32(b: seq<Byte>): Parsed<I32> {
    var (x, r) :- ParseU32(b);
    Done(ToI32(x), r)
  }

  function ParseI64(b: seq<Byte>): Parsed<I64> {
    var (x, r) :- ParseU64(b);
    Done(ToI64(x), r)
  }

  lemma TakeFront(a: seq<Byte>, b: seq<Byte>)
    ensures Take(a + b, |a|) == Done(a, b)
  {
  }

  lemma NumbersReadBack(x: U16, y: U32, z: U64, rest: seq<Byte>)
    ensures ParseU16(Be(x, 2) + rest) == Done(x, rest)
    ensures ParseU32(Be(y, 4) + rest) == Done(y, rest)
    ensures ParseU64(Be(z, 8) + rest) == Done(z, rest)
  {
    hide Be, FromBe, Take;
    TakeFront(Be(x, 2), rest); RoundTrip16(x);
    TakeFront(Be(y, 4), rest); RoundTrip32(y);
    TakeFront(Be(z, 8), rest); RoundTrip64(z);
  }

  lemma SignedReadBack(y: I32, z: I64, rest: seq<Byte>)
    ensures ParseI32(I32Bytes(y) + rest) == Done(y, rest)
    ensures ParseI64(I64Bytes(z) + rest) == Done(z, rest)
  {
    hide Be, ParseU32, ParseU64;
    NumbersReadBack(0, if y < 0 then y + 0x1_0000_0000 else y,
                    if z < 0 then z + 0x1_0000_0000_0000_0000 else z, rest);
  }

  // ----- client state, address, number of peers -----

  function EventId(e: Event): I32 {
    match e case NoEvent => 0 case Completed => 1 case Started => 2 case Stopped => 3
  }

  function ParseEvent(b: seq<Byte>): Parsed<Event> {
    var (x, r) :- ParseI32(b);
    match x
    case 0 => Done(NoEvent, r) case 1 => Done(Completed, r)
    case 2 => Done(Started, r) case 3 => Done(Stopped, r)
    case _ => Error
  }

  function StateBytes(s: ClientState): seq<Byte> {
    I64Bytes(s.downloaded) + (I64Bytes(s.left) + (I64Bytes(s.uploaded) + I32Bytes(EventId(s.event))))
  }

  function ParseState(b: seq<Byte>): Parsed<ClientState> {
    var (downloaded, b1) :- ParseI64(b);
    var (left, b2) :- ParseI64(b1);
    var (uploaded, b3) :- ParseI64(b2);
    var (event, b4) :- ParseEvent(b3);
    Done(ClientState(downloaded, left, uploaded, event), b4)
  }

  lemma StateReadsBack(s: ClientState, rest: seq<Byte>)
    ensures ParseState(StateBytes(s) + rest) == Done(s, rest)
  {
    hide I64Bytes, I32Bytes, ParseI64, ParseI32;
    var d, l, u, e := I64Bytes(s.downloaded), I64Bytes(s.left), I64Bytes(s.uploaded), I32Bytes(EventId(s.event));
    var r3 := e + rest;
    var r2 := u + r3;
    var r1 := l + r2;
    assert StateBytes(s) + rest == d + r1;
    SignedReadBack(0, s.downloaded, r1);
    SignedReadBack(0, s.left, r2);
    SignedReadBack(0, s.uploaded, r3);
    SignedReadBack(EventId(s.event), 0, rest);
  }

  function Zeros(n: nat): seq<Byte> { seq(n, _ => 0) }

  function IpBytes(ip: SourceIp): seq<Byte> {
    match ip
    case ImpliedV4 => Zeros(4)
    case ExplicitV4(a) => a
    case ImpliedV6 => Zeros(16)
    case ExplicitV6(a) => a
  }

  predicate IsV4(ip: SourceIp) { ip.ImpliedV4? || ip.ExplicitV4? }

  function ParseIp(b: seq<Byte>, v4: bool): Parsed<SourceIp> {
    var n := if v4 then 4 else 16;
    var (a, r) :- Take(b, n);
    Done(if a == Zeros(n) then (if v4 then ImpliedV4 else ImpliedV6) else (if v4 then ExplicitV4(a) else ExplicitV6(a)), r)
  }

  /** An explicit address of zeros reads back as an implied one. */
  function CanonicalIp(ip: SourceIp): SourceIp {
    match ip
    case ExplicitV4(a) => if a == Zeros(4) then ImpliedV4 else ip
    case ExplicitV6(a) => if a == Zeros(16) then ImpliedV6 else ip
    case _ => ip
  }

  lemma IpReadsBack(ip: SourceIp, rest: seq<Byte>)
    requires (ip.ExplicitV4? ==> |ip.v4| == 4) && (ip.ExplicitV6? ==> |ip.v6| == 16)
    ensures ParseIp(IpBytes(ip) + rest, IsV4(ip)) == Done(CanonicalIp(ip), rest)
  {
    hide Take;
    TakeFront(IpBytes(ip), rest);
  }

  function WantBytes(d: DesiredPeers): seq<Byte> {
    I32Bytes(if d.Default? then DEFAULT_NUM_WANT else d.count)
  }

  function ParseWant(b: seq<Byte>): Parsed<DesiredPeers> {
    var (x, r) :- ParseI32(b);
    Done(if x == DEFAULT_NUM_WANT then Default else Specified(x), r)
  }

  function CanonicalWant(d: DesiredPeers): DesiredPeers {
    if d == Specified(DEFAULT_NUM_WANT) then Default else d
  }

  lemma WantReadsBack(d: DesiredPeers, rest: seq<Byte>)
    ensures ParseWant(WantBytes(d) + rest) == Done(CanonicalWant(d), rest)
  {
    hide I32Bytes, ParseI32;
    SignedReadBack(if d.Default? then DEFAULT_NUM_WANT else d.count, 0, rest);
  }

  // ----- options -----

  /** One option: its content in chunks of at most 255 bytes, each with key and length. */
  function OptionBytes(key: Byte, content: seq<Byte>): seq<Byte> {
    if content == [] then []
    else
      var n := if |content| < CHUNK then |content| else CHUNK;
      [key, n] + content[..n] + OptionBytes(key, content[n..])
  }

  /** All options, in the order in which the map happens to be walked, and the end marker. */
  function OptionsBytes(options: Options, order: seq<Byte>): seq<Byte>
    requires forall k :: k in order ==> k in options
  {
    if order == [] then [END_OF_OPTIONS]
    else OptionBytes(order[0], options[order[0]]) + OptionsBytes(options, order[1..])
  }

  /** `write_bytes` of the options. */
  method WriteOptions(options: Options, order: seq<Byte>) returns (out: seq<Byte>)
    requires forall k :: k in order ==> k in options
    ensures out == OptionsBytes(options, order)
  {
    hide OptionsBytes, OptionBytes;
    out := [];
    assert order[0..] == order;
    for i := 0 to |order|
      invariant out + OptionsBytes(options, order[i..]) == OptionsBytes(options, order)
    {
      OptionsFrom(options, order, i);
      var chunks := WriteOption(order[i], options[order[i]]);
      ConcatAssoc(out, chunks, OptionsBytes(options, order[i + 1..]));
      out := out + chunks;
    }
    OptionsEnd(options, order);
    out := out + [END_OF_OPTIONS];
  }

  lemma OptionsFrom(options: Options, order: seq<Byte>, i: nat)
    requires i < |order| && forall k :: k in order ==> k in options
    ensures OptionsBytes(options, order[i..])
         == OptionBytes(order[i], options[order[i]]) + OptionsBytes(options, order[i + 1..])
  {
    assert order[i..][0] == order[i] && order[i..][1..] == order[i + 1..];
  }

  lemma OptionsEnd(options: Options, order: seq<Byte>)
    ensures OptionsBytes(options, order[|order|..]) == [END_OF_OPTIONS]
  {
  }

  method WriteOption(key: Byte, content: seq<Byte>) returns (out: seq<Byte>)
    ensures out == OptionBytes(key, content)
  {
    hide OptionBytes;
    out := [];
    var i := 0;
    assert content[0..] == content;
    while i < |content|
      invariant i <= |content|
      invariant out + OptionBytes(key, content[i..]) == OptionBytes(key, content)
    {
      var j := if i + CHUNK < |content| then i + CHUNK else |content|;
      ChunkFrom(key, content, i, j, out);
      out := out + ([key, j - i] + content[i..j]);
      i := j;
    }
    EmptyOption(key, []);
    assert content[i..] == [];
  }

  lemma ChunkFrom(key: Byte, content: seq<Byte>, i: nat, j: nat, out: seq<Byte>)
    requires i < |content| && j == if i + CHUNK < |content| then i + CHUNK else |content|
    ensures out + OptionBytes(key, content[i..])
         == out + ([key, j - i] + content[i..j]) + OptionBytes(key, content[j..])
  {
    NextChunk(key, content, i, j);
    hide OptionBytes;
    ConcatAssoc(out, [key, j - i] + content[i..j], OptionBytes(key, content[j..]));
  }

  lemma NextChunk(key: Byte, content: seq<Byte>, i: nat, j: nat)
    requires i < |content| && j == if i + CHUNK < |content| then i + CHUNK else |content|
    ensures OptionBytes(key, content[i..]) == [key, j - i] + content[i..j] + OptionBytes(key, content[j..])
  {
    var tail := content[i..];
    assert tail[..j - i] == content[i..j] && tail[j - i..] == content[j..];
  }

  function Extended(options: Options, key: Byte, content: seq<Byte>): Options {
    options[key := (if key in options then options[key] else []) + content]
  }

  /** Options read from the front of the input, on top of those read before. */
  function ParseOptions(b: seq<Byte>, sofar: Options): Parsed<Options>
    decreases |b|
  {
    if b == [] then Done(sofar, [])
    else if b[0] == END_OF_OPTIONS then Done(sofar, b[1..])
    else if b[0] == NO_OPERATION then ParseOptions(b[1..], sofar)
    else if |b| < 2 || |b| - 2 < b[1] then Incomplete
    else ParseOptions(b[2 + b[1]..], Extended(sofar, b[0], b[2..2 + b[1]]))
  }

  /** `parse_options`. */
  method ReadOptions(bytes: seq<Byte>) returns (r: Parsed<Options>)
    ensures r == ParseOptions(bytes, map[])
  {
    var curr, options: Options := bytes, map[];
    while curr != [] && curr[0] != END_OF_OPTIONS
      invariant ParseOptions(curr, options) == ParseOptions(bytes, map[])
      decreases |curr|
    {
      if curr[0] == NO_OPERATION {
        curr := curr[1..];
      } else {
        if |curr| < 2 || |curr| - 2 < curr[1] {
          return Incomplete;
        }
        var len: nat := curr[1];
        var n := 2 + len;
        options := Extended(options, curr[0], curr[2..n]);
        curr := curr[n..];
      }
    }
    return Done(options, if curr == [] then [] else curr[1..]);
  }

  predicate Reserved(key: Byte) { key == END_OF_OPTIONS || key == NO_OPERATION }

  lemma ParseChunk(key: Byte, chunk: seq<Byte>, rest: seq<Byte>, sofar: Options)
    requires !Reserved(key) && |chunk| <= CHUNK
    ensures ParseOptions([key, |chunk|] + chunk + rest, sofar) == ParseOptions(rest, Extended(sofar, key, chunk))
  {
    var b := [key, |chunk|] + chunk + rest;
    assert b[2..2 + |chunk|] == chunk && b[2 + |chunk|..] == rest;
  }

  lemma EmptyOption(key: Byte, rest: seq<Byte>)
    ensures OptionBytes(key, []) + rest == rest
  {
  }

  lemma FirstChunk(key: Byte, content: seq<Byte>, rest: seq<Byte>)
    requires content != []
    ensures var n := if |content| < CHUNK then |content| else CHUNK;
            OptionBytes(key, content) + rest == [key, n] + content[..n] + (OptionBytes(key, content[n..]) + rest)
  {
  }

  lemma ExtendedTwice(options: Options, key: Byte, a: seq<Byte>, b: seq<Byte>)
    ensures Extended(Extended(options, key, a), key, b) == Extended(options, key, a + b)
  {
    var before := if key in options then options[key] else [];
    assert (before + a) + b == before + (a + b);
  }

  /** The chunks of one option come together again. */
  lemma {:induction false} OptionReadsBack(key: Byte, content: seq<Byte>, rest: seq<Byte>, sofar: Options)
    requires !Reserved(key)
    ensures ParseOptions(OptionBytes(key, content) + rest, sofar)
         == ParseOptions(rest, if content == [] then sofar else Extended(sofar, key, content))
    decreases |content|
  {
    hide ParseOptions, OptionBytes, Extended, Reserved;
    if content == [] {
      EmptyOption(key, rest);
    } else {
      var n := if |content| < CHUNK then |content| else CHUNK;
      var chunk, tail := content[..n], content[n..];
      FirstChunk(key, content, rest);
      ParseChunk(key, chunk, OptionBytes(key, tail) + rest, sofar);
      OptionReadsBack(key, tail, rest, Extended(sofar, key, chunk));
      assert content == chunk + tail;
      if tail == [] {
        assert content == chunk;
      } else {
        ExtendedTwice(sofar, key, chunk, tail);
      }
    }
  }

  /** The options that are written at all. */
  function NonEmpty(options: Options): Options { map k | k in options && options[k] != [] :: options[k] }

  /** The order lists every key once. */
  ghost predicate Walks(order: seq<Byte>, options: Options) {
    && (forall k :: k in order <==> k in options)
    && (forall i, j :: 0 <= i < j < |order| ==> order[i] != order[j])
  }

  lemma {:induction false} OptionsReadBack(options: Options, order: seq<Byte>, i: nat)
    requires Walks(order, options) && i <= |order|
    requires forall k :: k in options && options[k] != [] ==> !Reserved(k)
    ensures ParseOptions(OptionsBytes(options, order[i..]), Partial(options, order, i))
         == Done(NonEmpty(options), [])
    decreases |order| - i
  {
    if i == |order| {
      assert order[i..] == [];
      WholeIsNonEmpty(options, order);
    } else {
      hide ParseOptions, OptionBytes;
      var key := order[i];
      assert order[i..][0] == key && order[i..][1..] == order[i + 1..];
      OptionsReadBack(options, order, i + 1);
      PartialStep(options, order, i);
      if options[key] == [] {
        EmptyOption(key, OptionsBytes(options, order[i + 1..]));
      } else {
        OptionReadsBack(key, options[key], OptionsBytes(options, order[i + 1..]), Partial(options, order, i));
      }
    }
  }

  /** The non-empty options among the first i keys. */
  function Partial(options: Options, order: seq<Byte>, i: nat): Options
    requires i <= |order| && forall k :: k in order ==> k in options
  {
    map k | k in order[..i] && options[k] != [] :: options[k]
  }

  lemma PartialStep(options: Options, order: seq<Byte>, i: nat)
    requires Walks(order, options) && i < |order|
    ensures var key, p := order[i], Partial(options, order, i);
            Partial(options, order, i + 1) == if options[key] == [] then p else Extended(p, key, options[key])
  {
    var key, p, q := order[i], Partial(options, order, i), Partial(options, order, i + 1);
    assert order[..i + 1] == order[..i] + [key];
    assert key !in order[..i];
    assert q.Keys == if options[key] == [] then p.Keys else p.Keys + {key};
    assert options[key] != [] ==> Extended(p, key, options[key]) == p[key := options[key]] by {
      assert [] + options[key] == options[key];
    }
  }

  lemma WholeIsNonEmpty(options: Options, order: seq<Byte>)
    requires Walks(order, options)
    ensures Partial(options, order, |order|) == NonEmpty(options)
  {
    assert order[..|order|] == order;
  }

  /** No input ever yields an option under one of the two reserved keys. */
  lemma {:induction false} NeverReserved(b: seq<Byte>, sofar: Options)
    requires forall k :: k in sofar ==> !Reserved(k)
    ensures var r := ParseOptions(b, sofar);
            r.Done? ==> forall k :: k in r.value ==> !Reserved(k)
    decreases |b|
  {
    if b != [] && b[0] != END_OF_OPTIONS {
      if b[0] == NO_OPERATION {
        NeverReserved(b[1..], sofar);
      } else if |b| >= 2 && |b| - 2 >= b[1] {
        NeverReserved(b[2 + b[1]..], Extended(sofar, b[0], b[2..2 + b[1]]));
      }
    }
  }

  /** Options read back, whatever the order of walking the map and however long they are, if and only
      if no non-empty one has a reserved key. */
  lemma OptionsReadBackIff(options: Options, order: seq<Byte>)
    requires Walks(order, options)
    ensures ParseOptions(OptionsBytes(options, order), map[]) == Done(NonEmpty(options), [])
            <==> forall k :: k in options && options[k] != [] ==> !Reserved(k)
  {
    assert order[0..] == order;
    if forall k :: k in options && options[k] != [] ==> !Reserved(k) {
      OptionsReadBack(options, order, 0);
      assert Partial(options, order, 0) == map[];
    } else {
      var k :| k in options && options[k] != [] && Reserved(k);
      NeverReserved(OptionsBytes(options, order), map[]);
      assert k in NonEmpty(options);
    }
  }

  /** Under key 0 a content is taken for the end of the options; under key 1 it is read as another option. */
  lemma ReservedOptionExample()
    ensures ParseOptions(OptionsBytes(map[0 := [7]], [0]), map[]) == Done(map[], [1, 7, 0])
    ensures ParseOptions(OptionsBytes(map[1 := [7]], [1]), map[]) == Done(map[7 := []], [])
  {
    ReservedBytes(0);
    ReservedBytes(1);
    var b: seq<Byte> := [1, 1, 7, 0];
    assert b[1..][1..] == [7, 0];
    assert ParseOptions([7, 0], map[]) == Done(map[7 := []], []);
  }

  lemma ReservedBytes(key: Byte)
    ensures OptionsBytes(map[key := [7]], [key]) == [key, 1, 7, 0]
  {
    var content: seq<Byte> := [7];
    assert content[..1] == [7] && content[1..] == [];
    assert OptionBytes(key, content) == [key, 1, 7];
  }

  // ----- announce requests -----

  function AnnounceBytes(a: AnnounceRequest, order: seq<Byte>): seq<Byte>
    requires forall k :: k in order ==> k in a.options
  {
    a.infoHash + (a.peerId + (StateBytes(a.state) + (IpBytes(a.ip) + (Be(a.key, 4) + (WantBytes(a.numWant)
      + (Be(a.port, 2) + OptionsBytes(a.options, order)))))))
  }

  function ParseAnnounce(b: seq<Byte>, v4: bool): Parsed<AnnounceRequest> {
    var (infoHash, b1) :- Take(b, HASH_LEN);
    var (peerId, b2) :- Take(b1, HASH_LEN);
    var (state, b3) :- ParseState(b2);
    var (ip, b4) :- ParseIp(b3, v4);
    var (key, b5) :- ParseU32(b4);
    var (numWant, b6) :- ParseWant(b5);
    var (port, b7) :- ParseU16(b6);
    var (options, b8) :- ParseOptions(b7, map[]);
    Done(AnnounceRequest(infoHash, peerId, state, ip, key, numWant, port, options), b8)
  }

  function CanonicalAnnounce(a: AnnounceRequest): AnnounceRequest {
    a.(ip := CanonicalIp(a.ip), numWant := CanonicalWant(a.numWant), options := NonEmpty(a.options))
  }

  /** Up to the options, an announce request always reads back. */
  lemma AnnounceReadsUpToOptions(a: AnnounceRequest, order: seq<Byte>)
    requires |a.infoHash| == HASH_LEN && |a.peerId| == HASH_LEN
    requires (a.ip.ExplicitV4? ==> |a.ip.v4| == 4) && (a.ip.ExplicitV6? ==> |a.ip.v6| == 16)
    requires forall k :: k in order ==> k in a.options
    ensures ParseAnnounce(AnnounceBytes(a, order), IsV4(a.ip))
         == match ParseOptions(OptionsBytes(a.options, order), map[])
            case Done(o, rest) => Done(a.(ip := CanonicalIp(a.ip), numWant := CanonicalWant(a.numWant), options := o), rest)
            case Incomplete => Incomplete
            case Error => Error
  {
    hide Take, ParseState, ParseIp, ParseU32, ParseU16, ParseWant, ParseOptions, OptionsBytes, Be, StateBytes, IpBytes,
         WantBytes, CanonicalIp, CanonicalWant;
    var options := OptionsBytes(a.options, order);
    var r6 := Be(a.port, 2) + options;
    var r5 := WantBytes(a.numWant) + r6;
    var r4 := Be(a.key, 4) + r5;
    var r3 := IpBytes(a.ip) + r4;
    var r2 := StateBytes(a.state) + r3;
    TakeFront(a.infoHash, a.peerId + r2);
    TakeFront(a.peerId, r2);
    StateReadsBack(a.state, r3);
    IpReadsBack(a.ip, r4);
    NumbersReadBack(0, a.key, 0, r5);
    WantReadsBack(a.numWant, r6);
    NumbersReadBack(a.port, 0, 0, options);
  }

  // ----- whole requests -----

  function ActionId(ty: RequestType): U32 {
    match ty
    case Connect => CONNECT_ACTION_ID
    case Announce(a) => if IsV4(a.ip) then ANNOUNCE_IPV4_ACTION_ID else ANNOUNCE_IPV6_ACTION_ID
    case Scrape(_) => SCRAPE_ACTION_ID
  }

  /** The order concerns the options of announce requests only. */
  ghost predicate Orders(order: seq<Byte>, r: TrackerRequest) {
    if r.ty.Announce? then Walks(order, r.ty.request.options) else order == []
  }

  function BodyBytes(ty: RequestType, order: seq<Byte>): seq<Byte>
    requires ty.Announce? ==> forall k :: k in order ==> k in ty.request.options
  {
    match ty
    case Connect => []
    case Announce(a) => AnnounceBytes(a, order)
    case Scrape(hashes) => hashes
  }

  function RequestBytes(r: TrackerRequest, order: seq<Byte>): seq<Byte>
    requires r.ty.Announce? ==> forall k :: k in order ==> k in r.ty.request.options
  {
    Be(r.connectionId, 8) + (Be(ActionId(r.ty), 4) + (Be(r.transactionId, 4) + BodyBytes(r.ty, order)))
  }

  function ParseScrape(b: seq<Byte>): Parsed<seq<Byte>> {
    if |b| % HASH_LEN != 0 then Incomplete else Done(b, [])
  }

  function ParseBody(cid: U64, action: U32, b: seq<Byte>): Parsed<RequestType> {
    if cid == CONNECT_ID_PROTOCOL_ID && action == CONNECT_ACTION_ID then Done(Connect, b)
    else if action == ANNOUNCE_IPV4_ACTION_ID || action == ANNOUNCE_IPV6_ACTION_ID then
      var (a, r) :- ParseAnnounce(b, action == ANNOUNCE_IPV4_ACTION_ID);
      Done(Announce(a), r)
    else if action == SCRAPE_ACTION_ID then
      var (hashes, r) :- ParseScrape(b);
      Done(Scrape(hashes), r)
    else Error
  }

  function ParseRequest(b: seq<Byte>): Parsed<TrackerRequest> {
    var (cid, b1) :- ParseU64(b);
    var (action, b2) :- ParseU32(b1);
    var (tid, b3) :- ParseU32(b2);
    var (ty, b4) :- ParseBody(cid, action, b3);
    Done(TrackerRequest(cid, tid, ty), b4)
  }

  function Canonical(r: TrackerRequest): TrackerRequest {
    if r.ty.Announce? then r.(ty := Announce(CanonicalAnnounce(r.ty.request))) else r
  }

  /** What a caller has to respect: connect requests carry the protocol id, options stay off the two
      reserved keys, scrapes list whole hashes. */
  ghost predicate Sendable(r: TrackerRequest) {
    match r.ty
    case Connect => r.connectionId == CONNECT_ID_PROTOCOL_ID
    case Announce(a) => forall k :: k in a.options && a.options[k] != [] ==> !Reserved(k)
    case Scrape(hashes) => |hashes| % HASH_LEN == 0
  }

  lemma BodyReadsBackIff(r: TrackerRequest, order: seq<Byte>)
    requires WellTyped(r) && Orders(order, r)
    ensures ParseBody(r.connectionId, ActionId(r.ty), BodyBytes(r.ty, order)) == Done(Canonical(r).ty, [])
            <==> Sendable(r)
  {
    hide ParseAnnounce, AnnounceBytes, CanonicalAnnounce, Walks;
    if r.ty.Announce? {
      AnnounceReadsBackIff(r.ty.request, order);
    }
  }

  lemma AnnounceReadsBackIff(a: AnnounceRequest, order: seq<Byte>)
    requires |a.infoHash| == HASH_LEN && |a.peerId| == HASH_LEN
    requires (a.ip.ExplicitV4? ==> |a.ip.v4| == 4) && (a.ip.ExplicitV6? ==> |a.ip.v6| == 16)
    requires Walks(order, a.options)
    ensures ParseAnnounce(AnnounceBytes(a, order), IsV4(a.ip)) == Done(CanonicalAnnounce(a), [])
            <==> forall k :: k in a.options && a.options[k] != [] ==> !Reserved(k)
  {
    AnnounceReadsUpToOptions(a, order);
    OptionsReadBackIff(a.options, order);
    hide ParseOptions, OptionsBytes, ParseAnnounce, AnnounceBytes, Walks, CanonicalIp, CanonicalWant, NonEmpty, Reserved;
  }

  /** The header of a written request selects the parser for what follows it. */
  lemma HeaderReadsBack(r: TrackerRequest, order: seq<Byte>)
    requires r.ty.Announce? ==> forall k :: k in order ==> k in r.ty.request.options
    ensures ParseRequest(RequestBytes(r, order))
         == match ParseBody(r.connectionId, ActionId(r.ty), BodyBytes(r.ty, order))
            case Done(ty, rest) => Done(r.(ty := ty), rest)
            case Incomplete => Incomplete
            case Error => Error
  {
    hide ParseU64, ParseU32, Be, ParseBody, BodyBytes, ActionId;
    var body := BodyBytes(r.ty, order);
    var r2 := Be(r.transactionId, 4) + body;
    var r1 := Be(ActionId(r.ty), 4) + r2;
    NumbersReadBack(0, 0, r.connectionId, r1);
    NumbersReadBack(0, ActionId(r.ty), 0, r2);
    NumbersReadBack(0, r.transactionId, 0, body);
  }

  /** A written request is consumed whole and read back up to canonical forms, for every order of
      walking the option map, if and only if it respects `Sendable`. */
  lemma RequestReadsBackIff(r: TrackerRequest, order: seq<Byte>)
    requires WellTyped(r) && Orders(order, r)
    ensures ParseRequest(RequestBytes(r, order)) == Done(Canonical(r), []) <==> Sendable(r)
  {
    HeaderReadsBack(r, order);
    BodyReadsBackIff(r, order);
    hide ParseRequest, RequestBytes, ParseBody, BodyBytes, Sendable, CanonicalAnnounce, WellTyped, Orders, ActionId;
    assert Canonical(r) == r.(ty := Canonical(r).ty);
  }

  lemma CanonicalIsFixed(r: TrackerRequest)
    ensures Canonical(Canonical(r)) == Canonical(r)
    ensures WellTyped(r) ==> WellTyped(Canonical(r))
    ensures Sendable(r) <==> Sendable(Canonical(r))
  {
    if r.ty.Announce? {
      var options := r.ty.request.options;
      assert NonEmpty(NonEmpty(options)) == NonEmpty(options);
    }
  }

  /** A request that was read back can be written in any order and is read back unchanged: the canonical
      forms are the only thing ever lost. */
  lemma CanonicalReadsBack(r: TrackerRequest, order: seq<Byte>)
    requires WellTyped(r) && Orders(order, Canonical(r))
    ensures ParseRequest(RequestBytes(Canonical(r), order)) == Done(Canonical(r), []) <==> Sendable(r)
  {
    CanonicalIsFixed(r);
    RequestReadsBackIff(Canonical(r), order);
  }
}
