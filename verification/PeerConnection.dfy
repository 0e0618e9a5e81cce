/**
 One peer connection of the demo client (the peer protocol of BEP 3): which blocks are wanted and in
 flight, choking and interest, and one upload at a time.

 The answers of the shared download about missing blocks, which other connections change at any time,
 are given in advance as an arbitrary list; what else it answers and the random choice of the next
 block are arbitrary. `outgoing` is everything sent to the peer.
 */
module PeerConnection {
  import opened Bits
  import opened Bytes
  import opened PeerMessages
  import Q = RequestQueue

  const MAX_CONCURRENT_REQUESTS := 10
  const REQUEST_SIZE := 8

  type BlockId = (nat, nat)

  // ----- bit fields, most significant bit first -----

  predicate HasPiece(bits: seq<Byte>, i: nat)
    requires i < 8 * |bits|
  {
    Bit(bits[i / 8], 7 - i % 8)
  }

  function SetPiece(bits: seq<Byte>, i: nat): (r: seq<Byte>)
    requires i < 8 * |bits|
    ensures |r| == |bits|
  {
    ByteRange();
    SetBitSets(bits[i / 8], 7 - i % 8, 8);
    bits[i / 8 := SetBit(bits[i / 8], 7 - i % 8)]
  }

  lemma SetPieceSets(bits: seq<Byte>, i: nat, j: nat)
    requires i < 8 * |bits| && j < 8 * |bits|
    ensures HasPiece(SetPiece(bits, i), j) <==> j == i || HasPiece(bits, j)
  {
    if j / 8 == i / 8 {
      ByteRange();
      SetBitSets(bits[i / 8], 7 - i % 8, 8);
      if j % 8 != i % 8 {
        SetBitKeepsOthers(bits[i / 8], 7 - i % 8, 7 - j % 8);
      }
    }
  }

  /** `send_bitfield`: what the peer reads back is exactly what is there. */
  method EncodeBitfield(has: seq<bool>) returns (bits: seq<Byte>)
    ensures |bits| == (|has| + 7) / 8
    ensures forall i :: 0 <= i < |has| ==> HasPiece(bits, i) == has[i]
  {
    bits := seq((|has| + 7) / 8, _ => 0);
    forall j | 0 <= j < 8 * |bits|
      ensures !HasPiece(bits, j)
    {
      ZeroHasNoBits(7 - j % 8);
    }
    for i := 0 to |has|
      invariant |bits| == (|has| + 7) / 8
      invariant forall j :: 0 <= j < 8 * |bits| ==> HasPiece(bits, j) == (j < i && has[j])
    {
      if has[i] {
        forall j | 0 <= j < 8 * |bits|
          ensures HasPiece(SetPiece(bits, i), j) <==> j == i || HasPiece(bits, j)
        {
          SetPieceSets(bits, i, j);
        }
        bits := SetPiece(bits, i);
      }
    }
  }

  // ----- what a message log says -----

  /** The blocks requested in a log, with multiplicity. */
  ghost function Requested(log: seq<Message>): multiset<BlockId> {
    if log == [] then multiset{}
    else Requested(log[..|log| - 1]) + match log[|log| - 1]
                                       case Request(p, o, _) => multiset{(p, o / BLOCK_SIZE)}
                                       case _ => multiset{}
  }

  ghost function Cancelled(log: seq<Message>): multiset<BlockId> {
    if log == [] then multiset{}
    else Cancelled(log[..|log| - 1]) + match log[|log| - 1]
                                       case Cancel(p, o, _) => multiset{(p, o / BLOCK_SIZE)}
                                       case _ => multiset{}
  }

  /** Whether the last word on interest in a log was "interested". */
  ghost predicate SaysInterested(log: seq<Message>) {
    log != [] && match log[|log| - 1]
                 case Interested => true
                 case NotInterested => false
                 case _ => SaysInterested(log[..|log| - 1])
  }

  ghost function Uploads(log: seq<Message>): nat {
    if log == [] then 0 else Uploads(log[..|log| - 1]) + if log[|log| - 1].Piece? then 1 else 0
  }

  lemma LogSnoc(log: seq<Message>, m: Message)
    ensures Requested(log + [m]) == Requested(log) + match m
                                                     case Request(p, o, _) => multiset{(p, o / BLOCK_SIZE)}
                                                     case _ => multiset{}
    ensures Cancelled(log + [m]) == Cancelled(log) + match m
                                                     case Cancel(p, o, _) => multiset{(p, o / BLOCK_SIZE)}
                                                     case _ => multiset{}
    ensures SaysInterested(log + [m]) == match m
                                         case Interested => true
                                         case NotInterested => false
                                         case _ => SaysInterested(log)
    ensures Uploads(log + [m]) == Uploads(log) + if m.Piece? then 1 else 0
  {
    assert (log + [m])[..|log|] == log;
  }

  /** One element less in both parts. Whether a flag says that something is left changes exactly with
      the last one. */
  lemma WithoutOne(a: set<BlockId>, b: set<BlockId>, flag: bool, k: BlockId)
    ensures (a - {k}) + (b - {k}) == (a + b) - {k}
    ensures (flag <==> a + b != {}) ==> ((flag <==> (a + b) - {k} != {}) <==> a + b != {k})
  {
    if (a + b) - {k} == {} && a + b != {} {
      assert a + b == {k};
    }
  }

  lemma MoveOne(a: set<BlockId>, b: set<BlockId>, k: BlockId)
    requires k in b
    ensures (a + {k}) + (b - {k}) == a + b && |b - {k}| < |b|
  {
  }

  // ----- what the download answers -----

  /** A piece that was asked about, and its missing blocks with their lengths. */
  type Report = (nat, seq<(nat, nat)>)

  ghost function BlocksOf(r: Report): set<BlockId> { set e | e in r.1 :: (r.0, e.0) }

  ghost function Wanted(reports: seq<Report>): set<BlockId> {
    if reports == [] then {} else Wanted(reports[..|reports| - 1]) + BlocksOf(reports[|reports| - 1])
  }

  lemma WantedSnoc(reports: seq<Report>, r: Report)
    ensures Wanted(reports + [r]) == Wanted(reports) + BlocksOf(r)
  {
    assert (reports + [r])[..|reports|] == reports;
  }

  /** One more answer, in the middle of an event that began with `start`. */
  lemma ReportsStep(start: seq<Report>, was: seq<Report>, now: seq<Report>)
    requires start <= was && |now| == |was| + 1 && now[..|was|] == was
    ensures start <= now && now[|start|..] == was[|start|..] + [now[|was|]]
    ensures Wanted(now[|start|..]) == Wanted(was[|start|..]) + BlocksOf(now[|was|])
  {
    assert now == was + [now[|was|]];
    WantedSnoc(was[|start|..], now[|was|]);
  }

  lemma NothingWanted(reports: seq<Report>)
    ensures reports[|reports|..] == [] && Wanted([]) == {}
  {
  }

  lemma BlocksOfSnoc(piece: nat, missing: seq<(nat, nat)>, i: nat)
    requires i < |missing|
    ensures BlocksOf((piece, missing[..i + 1])) == BlocksOf((piece, missing[..i])) + {(piece, missing[i].0)}
  {
    assert missing[..i + 1] == missing[..i] + [missing[i]];
  }

  /** The i-th answer to come; without one, nothing is missing. */
  function Answer(answers: seq<seq<(nat, nat)>>, i: nat): seq<(nat, nat)> { if i < |answers| then answers[i] else [] }

  /** The download was asked about these pieces, in this order, and gave these answers. */
  ghost predicate AskedAbout(reports: seq<Report>, pieces: seq<nat>, answers: seq<seq<(nat, nat)>>) {
    && |reports| == |pieces|
    && forall i :: 0 <= i < |reports| ==> reports[i] == (pieces[i], Answer(answers, i))
  }

  function Later(answers: seq<seq<(nat, nat)>>, k: nat): seq<seq<(nat, nat)>> {
    if k <= |answers| then answers[k..] else []
  }

  lemma LaterAnswers(answers: seq<seq<(nat, nat)>>, k: nat)
    ensures Answer(Later(answers, k), 0) == Answer(answers, k) && Later(Later(answers, k), 1) == Later(answers, k + 1)
    ensures Later(answers, 0) == answers
  {
  }

  lemma NothingAsked(answers: seq<seq<(nat, nat)>>)
    ensures AskedAbout([], [], answers)
  {
  }

  /** One more question. */
  lemma AskedOneMore(was: seq<Report>, now: seq<Report>, pieces: seq<nat>, piece: nat, answers: seq<seq<(nat, nat)>>)
    requires AskedAbout(was, pieces, answers) && now == was + [(piece, Answer(answers, |pieces|))]
    ensures AskedAbout(now, pieces + [piece], answers)
  {
  }

  /** The last `k` elements, last one first: what `k` pops yield. */
  ghost function Popped(list: seq<nat>, k: nat): seq<nat>
    requires k <= |list|
  {
    seq(k, i requires 0 <= i < k => list[|list| - 1 - i])
  }

  /** The download was asked about piece `p`. */
  ghost predicate Reported(reports: seq<Report>, p: nat) { exists i :: 0 <= i < |reports| && reports[i].0 == p }

  /** Popping a whole list asks about exactly what is on it. */
  lemma AllReported(reports: seq<Report>, list: seq<nat>, answers: seq<seq<(nat, nat)>>)
    requires AskedAbout(reports, Popped(list, |list|), answers)
    ensures forall p :: Reported(reports, p) <==> p in list
  {
    var n := |list|;
    assert forall i :: 0 <= i < n ==> reports[i].0 == list[n - 1 - i];
    forall p | p in list
      ensures Reported(reports, p)
    {
      var j :| 0 <= j < n && list[j] == p;
      assert reports[n - 1 - j].0 == p;
    }
  }

  /** The pieces marked in `has`, in ascending order, below or not below `split`. */
  function Chosen(has: seq<bool>, split: nat, below: bool): seq<nat> {
    if has == [] then []
    else
      var i := |has| - 1;
      Chosen(has[..i], split, below) + if has[i] && (i < split) == below then [i] else []
  }

  lemma NoneChosen(split: nat)
    ensures Chosen([], split, true) == [] && Chosen([], split, false) == []
  {
  }

  lemma ChosenStep(has: seq<bool>, i: nat, split: nat, below: bool)
    requires i < |has|
    ensures Chosen(has[..i + 1], split, below) ==
            Chosen(has[..i], split, below) + if has[i] && (i < split) == below then [i] else []
  {
    assert has[..i + 1][..i] == has[..i];
  }

  /** `list` is `start` followed by the chosen ones among the first `i` pieces. */
  ghost predicate Extends(list: seq<nat>, start: seq<nat>, has: seq<bool>, i: nat, split: nat, below: bool) {
    i <= |has| && list == start + Chosen(has[..i], split, below)
  }

  lemma ExtendsStep(list: seq<nat>, start: seq<nat>, has: seq<bool>, i: nat, v: bool, split: nat, below: bool)
    requires Extends(list, start, has, i, split, below) && i < |has|
    ensures Extends(list + if v && (i < split) == below then [i] else [], start, has[i := v], i + 1, split, below)
  {
    ChosenStep(has[i := v], i, split, below);
    assert has[i := v][..i] == has[..i];
  }

  lemma ExtendsAll(list: seq<nat>, start: seq<nat>, has: seq<bool>, split: nat, below: bool)
    requires Extends(list, start, has, |has|, split, below)
    ensures list == start + Chosen(has, split, below)
  {
    assert has[..|has|] == has;
  }

  lemma ExtendsNone(list: seq<nat>, has: seq<bool>, split: nat, below: bool)
    ensures Extends(list, list, has, 0, split, below)
  {
  }

  lemma {:induction false} ChosenAre(has: seq<bool>, split: nat, below: bool)
    ensures forall i :: i in Chosen(has, split, below) <==> 0 <= i < |has| && has[i] && (i < split) == below
  {
    if has != [] {
      ChosenAre(has[..|has| - 1], split, below);
    }
  }

  class PeerConnection {
    const numPieces: nat
    const myRequests: Q.RequestQueue
    const theirRequests: Q.RequestQueue
    var halt: bool
    var amChoked: bool
    var amInterested: bool
    var myPieces: seq<bool>
    var theyAreChoked: bool
    var theyAreInterested: bool
    var theirPieces: seq<bool>
    var uploadInProgress: bool
    var toRequest: map<BlockId, nat>
    var catNum: nat
    var catStatus: bool
    var catNumList: seq<nat>
    var unCatNumList: seq<nat>
    var outgoing: seq<Message>
    // what the download will answer about missing blocks
    var answers: seq<seq<(nat, nat)>>

    // pieces the peer has ever announced, blocks it has answered, uploads reported as finished
    ghost var announced: set<nat>
    ghost var answered: multiset<BlockId>
    ghost var uploaded: nat
    // every answer of the download about missing blocks
    ghost var reports: seq<Report>

    /** The blocks that are wanted or in flight. */
    ghost function Pursued(): set<BlockId>
      reads `toRequest, myRequests
    {
      Q.Keys(myRequests.requests) + toRequest.Keys
    }

    /** The answers since then. */
    twostate function NewReports(): seq<Report>
      reads `reports
    {
      if |old(reports)| <= |reports| then reports[|old(reports)|..] else []
    }

    /** Everything reported missing since then is pursued, and nothing was dropped. */
    twostate predicate PursuesReports()
      reads `reports, `toRequest, myRequests
    {
      old(reports) <= reports && Pursued() == old(Pursued()) + Wanted(NewReports())
    }

    // ----- invariants -----

    /** Blocks are wanted or in flight, not both; few are in flight; all are of announced pieces. */
    ghost predicate ValidRequests()
      reads `toRequest, `announced, myRequests
    {
      && myRequests.Valid() && |myRequests.requests| <= MAX_CONCURRENT_REQUESTS
      && toRequest.Keys !! Q.Keys(myRequests.requests)
      && (forall k :: k in toRequest ==> k.0 in announced)
      && (forall r :: r in myRequests.requests ==> r.piece in announced && r.offset == r.block * BLOCK_SIZE)
    }

    /** Every request sent is in flight, was answered or was cancelled. */
    ghost predicate ValidLog()
      reads `outgoing, `answered, `amInterested, `uploadInProgress, `uploaded, myRequests
    {
      && Requested(outgoing) == Q.KeyCounts(myRequests.requests) + answered + Cancelled(outgoing)
      && (amInterested <==> SaysInterested(outgoing))
      && Uploads(outgoing) == uploaded + if uploadInProgress then 1 else 0
    }

    ghost predicate ValidPieces()
      reads `myPieces, `theirPieces, `announced, `catNumList, `unCatNumList
    {
      && |myPieces| == |theirPieces| == numPieces
      && (forall i :: 0 <= i < numPieces && theirPieces[i] ==> i in announced)
      && (forall i :: i in catNumList ==> i in announced)
      && (forall i :: i in unCatNumList ==> i in announced)
    }

    ghost predicate Valid()
      reads this, myRequests, theirRequests
    {
      && myRequests != theirRequests && theirRequests.Valid()
      && ValidRequests() && ValidLog() && ValidPieces()
    }

    /** Something pursued is told to the peer as interest. */
    ghost predicate Eager()
      reads `amInterested, `toRequest, myRequests
    {
      Pursued() != {} ==> amInterested
    }

    /** Interest is exactly that something is pursued. */
    ghost predicate Candid()
      reads `amInterested, `toRequest, myRequests
    {
      amInterested <==> Pursued() != {}
    }

    /** Nothing more can be requested right now. */
    predicate Saturated()
      reads `amChoked, `amInterested, `toRequest, myRequests
    {
      || amChoked || !amInterested || toRequest.Keys == {}
      || |myRequests.requests| >= MAX_CONCURRENT_REQUESTS
    }

    constructor (split: nat, have: seq<bool>, replies: seq<seq<(nat, nat)>>)
      ensures Valid() && Eager() && amChoked && !amInterested && outgoing == [] && announced == {} && toRequest == map[]
      ensures numPieces == |have| && catNum == split && catNumList == [] && answers == replies && reports == []
      ensures unCatNumList == [] && !catStatus
      ensures myRequests.requests == []
      ensures fresh(myRequests) && fresh(theirRequests)
    {
      numPieces := |have|;
      myRequests := new Q.RequestQueue();
      theirRequests := new Q.RequestQueue();
      halt, amChoked, amInterested, theyAreChoked, theyAreInterested := false, true, false, true, false;
      myPieces, theirPieces := have, seq(|have|, _ => false);
      uploadInProgress, toRequest, catNum, catStatus := false, map[], split, false;
      catNumList, unCatNumList, outgoing, answers := [], [], [], replies;
      announced, answered, uploaded, reports := {}, multiset{}, 0, [];
      new;
      hide Q.Keys;
    }

    // ----- sending -----

    /** A message that is neither a request, a cancel, an upload nor about interest. */
    method SendPlain(m: Message)
      requires ValidLog() && !(m.Request? || m.Cancel? || m.Piece? || m.Interested? || m.NotInterested?)
      modifies `outgoing
      ensures ValidLog() && outgoing == old(outgoing) + [m]
    {
      LogSnoc(outgoing, m);
      outgoing := outgoing + [m];
    }

    method UpdateMyInterestedStatus()
      requires ValidLog()
      modifies `amInterested, `outgoing
      ensures ValidLog() && NoRequestsSent()
      ensures amInterested <==> |myRequests.requests| > 0 || toRequest.Keys != {}
      ensures amInterested == old(amInterested) <==> outgoing == old(outgoing)
    {
      hide Q.KeyCounts, Requested, Cancelled, SaysInterested, Uploads;
      var wanted := |myRequests.requests| > 0 || toRequest.Keys != {};
      if amInterested != wanted {
        amInterested := wanted;
        var m := if wanted then Interested else NotInterested;
        LogSnoc(outgoing, m);
        outgoing := outgoing + [m];
      }
    }

    /** The log only grew, and not by requests. */
    twostate predicate NoRequestsSent()
      reads `outgoing
    {
      && old(outgoing) <= outgoing
      && forall i :: |old(outgoing)| <= i < |outgoing| ==> !outgoing[i].Request?
    }

    /** The log only grew, and requests in it were sent while unchoked, for announced pieces. */
    twostate predicate RequestsAllowed()
      reads `outgoing, `amChoked, `announced
    {
      && old(outgoing) <= outgoing
      && forall i :: |old(outgoing)| <= i < |outgoing| && outgoing[i].Request? ==>
           !amChoked && outgoing[i].piece in announced
    }

    /** Fills the pipeline with wanted blocks, in random order. */
    method RequestMoreBlocks()
      requires ValidRequests() && ValidLog()
      modifies `toRequest, `outgoing, myRequests
      ensures ValidRequests() && ValidLog() && RequestsAllowed() && Saturated()
      ensures Pursued() == old(Pursued())
    {
      hide ValidLog, Q.Keys;
      if amChoked || !amInterested || |toRequest| == 0 {
        assert |toRequest| == 0 ==> toRequest.Keys == {};
        return;
      }
      hide ValidRequests;
      while |myRequests.requests| < MAX_CONCURRENT_REQUESTS
        invariant ValidRequests() && ValidLog() && RequestsAllowed()
        invariant Pursued() == old(Pursued())
        decreases |toRequest|
      {
        if |toRequest| == 0 {
          assert toRequest.Keys == {};
          return;
        }
        var k :| k in toRequest;
        RequestBlock(k);
      }
    }

    /** Moves one wanted block into flight; adding it never fails. */
    method RequestBlock(k: BlockId)
      requires ValidRequests() && ValidLog() && k in toRequest
      requires |myRequests.requests| < MAX_CONCURRENT_REQUESTS
      modifies `toRequest, `outgoing, myRequests
      ensures ValidRequests() && ValidLog() && |toRequest| < old(|toRequest|)
      ensures Pursued() == old(Pursued())
      ensures |outgoing| == |old(outgoing)| + 1 && old(outgoing) <= outgoing
      ensures outgoing[|old(outgoing)|].Request? && outgoing[|old(outgoing)|].piece in announced
    {
      assert k.0 in announced && k !in Q.Keys(myRequests.requests);
      hide ValidRequests, ValidLog, Q.Keys, Q.Distinct;
      var length := toRequest[k];
      MoveOne(Q.Keys(myRequests.requests), toRequest.Keys, k);
      Unwant(k);
      AddInFlight(k, length);
    }

    method AddInFlight(k: BlockId, length: nat)
      requires ValidRequests() && ValidLog() && k.0 in announced && k !in toRequest
      requires k !in Q.Keys(myRequests.requests) && |myRequests.requests| < MAX_CONCURRENT_REQUESTS
      modifies `outgoing, myRequests
      ensures ValidRequests() && ValidLog()
      ensures Q.Keys(myRequests.requests) == old(Q.Keys(myRequests.requests)) + {k}
      ensures outgoing == old(outgoing) + [Request(k.0, k.1 * BLOCK_SIZE, length)]
    {
      hide Q.KeyCounts, Requested, Cancelled, SaysInterested, Uploads, Q.Distinct, Q.Keys;
      var offset := k.1 * BLOCK_SIZE;
      Q.KeyCountsSnoc(myRequests.requests, Q.Request(k.0, k.1, offset, length));
      var added := myRequests.Add(k.0, k.1, offset, length);
      if added {
        LogSnoc(outgoing, Request(k.0, offset, length));
        outgoing := outgoing + [Request(k.0, offset, length)];
      } else {
        assert false;
      }
    }

    /** Wants the blocks of an announced piece that the download reports missing and that are not in
        flight. */
    method QueueBlocks(piece: nat) returns (queued: nat)
      requires ValidRequests() && piece in announced
      modifies `toRequest, `reports, `answers
      ensures ValidRequests() && |reports| == |old(reports)| + 1 && reports[..|old(reports)|] == old(reports)
      ensures reports[|old(reports)|] == (piece, Answer(old(answers), 0)) && answers == Later(old(answers), 1)
      ensures Pursued() == old(Pursued()) + BlocksOf(reports[|old(reports)|])
    {
      var missing := Answer(answers, 0);
      answers := Later(answers, 1);
      queued := QueueMissing(piece, missing);
      reports := reports + [(piece, missing)];
    }

    method QueueMissing(piece: nat, missing: seq<(nat, nat)>) returns (queued: nat)
      requires ValidRequests() && piece in announced
      modifies `toRequest
      ensures ValidRequests() && Pursued() == old(Pursued()) + BlocksOf((piece, missing))
    {
      hide Q.Distinct, BlocksOf, Q.Keys;
      queued := 0;
      NoBlocks(piece, missing);
      for i := 0 to |missing|
        invariant ValidRequests() && Pursued() == old(Pursued()) + BlocksOf((piece, missing[..i]))
      {
        var has := myRequests.Has(piece, missing[i].0);
        BlocksOfSnoc(piece, missing, i);
        if !has {
          toRequest := toRequest[(piece, missing[i].0) := missing[i].1];
          queued := queued + 1;
        }
      }
      assert missing[..|missing|] == missing;
    }

    lemma NoBlocks(piece: nat, missing: seq<(nat, nat)>)
      ensures BlocksOf((piece, missing[..0])) == {}
    {
    }

    /** Wants the blocks of up to `n` pieces from the end of the list. */
    method QueueFromList(n: nat)
      requires ValidRequests() && ValidPieces()
      modifies `toRequest, `catNumList, `reports, `answers
      ensures ValidRequests() && ValidPieces() && PursuesReports()
      ensures var k := if n < |old(catNumList)| then n else |old(catNumList)|;
              && catNumList == old(catNumList)[..|old(catNumList)| - k]
              && AskedAbout(NewReports(), Popped(old(catNumList), k), old(answers)) && answers == Later(old(answers), k)
    {
      hide ValidRequests, Wanted, BlocksOf, Pursued, AskedAbout, Answer, Later;
      NothingAsked(answers);
      assert Popped(catNumList, 0) == [];
      var i := 0;
      NothingWanted(reports);
      LaterAnswers(answers, 0);
      while i < n && |catNumList| > 0
        invariant ValidRequests() && ValidPieces() && PursuesReports()
        invariant i <= n && i <= |old(catNumList)| && catNumList == old(catNumList)[..|old(catNumList)| - i]
        invariant AskedAbout(NewReports(), Popped(old(catNumList), i), old(answers)) && answers == Later(old(answers), i)
        decreases n - i
      {
        var last := |catNumList| - 1;
        var piece := catNumList[last];
        assert piece in catNumList;
        catNumList := catNumList[..last];
        ghost var was := reports;
        var queued := QueueBlocks(piece);
        ReportsStep(old(reports), was, reports);
        LaterAnswers(old(answers), i);
        AskedOneMore(was[|old(reports)|..], NewReports(), Popped(old(catNumList), i), piece, old(answers));
        assert Popped(old(catNumList), i + 1) == Popped(old(catNumList), i) + [piece];
        i := i + 1;
      }
    }

    /** Interest first, then requests, as at the end of most messages. */
    method Refresh()
      requires ValidRequests() && ValidLog()
      modifies `amInterested, `toRequest, `outgoing, myRequests
      ensures ValidRequests() && ValidLog() && RequestsAllowed() && Saturated()
      ensures Pursued() == old(Pursued()) && Candid()
    {
      hide ValidLog, Q.Keys;
      UpdateMyInterestedStatus();
      WantedIff();
      hide ValidRequests;
      RequestMoreBlocks();
    }

    lemma Separate()
      requires Valid()
      ensures toRequest.Keys !! Q.Keys(myRequests.requests) && |myRequests.requests| <= MAX_CONCURRENT_REQUESTS
      ensures |theirPieces| == numPieces
    {
    }

    lemma SaysSo()
      requires Valid()
      ensures amInterested <==> SaysInterested(outgoing)
    {
    }

    lemma WantedIff()
      ensures |myRequests.requests| > 0 || toRequest.Keys != {} <==> Pursued() != {}
    {
      if |myRequests.requests| > 0 {
        assert myRequests.requests[0] in myRequests.requests;
        assert Q.Key(myRequests.requests[0]) in Q.Keys(myRequests.requests);
      }
    }

    // ----- uploading -----

    /** Starts the next upload if none is running and the peer may have one. The download may refuse
        the data, which ends the connection. */
    method UploadNextBlock() returns (ok: bool)
      requires ValidLog() && theirRequests.Valid() && theirRequests != myRequests
      modifies `uploadInProgress, `outgoing, theirRequests
      ensures ValidLog() && theirRequests.Valid() && NoRequestsSent()
      ensures !old(MayUpload()) ==>
                && ok && theirRequests.requests == old(theirRequests.requests)
                && outgoing == old(outgoing) && uploadInProgress == old(uploadInProgress)
      ensures old(MayUpload()) ==>
                var first := old(theirRequests.requests)[0];
                && theirRequests.requests == old(theirRequests.requests)[1..] && uploadInProgress == ok
                && (!ok ==> outgoing == old(outgoing))
                && (ok ==> Uploaded(first.piece, first.offset))
    {
      hide Q.KeyCounts, Requested, Cancelled, SaysInterested, Uploads, Q.Distinct;
      if uploadInProgress || theyAreChoked || !theyAreInterested {
        return true;
      }
      var r := theirRequests.Pop();
      if r.None? {
        return true;
      }
      ok := *;
      if ok {
        var data: seq<Byte> := *;
        uploadInProgress := true;
        var m := Piece(r.value.piece, r.value.offset, data);
        LogSnoc(outgoing, m);
        outgoing := outgoing + [m];
      }
    }

    /** One block went out, from that place. */
    twostate predicate Uploaded(piece: nat, offset: nat)
      reads `outgoing
    {
      && |outgoing| == |old(outgoing)| + 1 && outgoing[..|old(outgoing)|] == old(outgoing)
      && var m := outgoing[|old(outgoing)|];
         m.Piece? && m.piece == piece && m.offset == offset
    }

    /** The peer has asked for a block, may have one, and is not being served. */
    predicate MayUpload()
      reads `uploadInProgress, `theyAreChoked, `theyAreInterested, theirRequests
    {
      !uploadInProgress && !theyAreChoked && theyAreInterested && theirRequests.requests != []
    }

    method UnchokeThem() returns (ok: bool)
      requires ValidLog() && theirRequests.Valid() && theirRequests != myRequests
      modifies `theyAreChoked, `uploadInProgress, `outgoing, theirRequests
      ensures ValidLog() && theirRequests.Valid() && NoRequestsSent() && !theyAreChoked
      ensures !old(theyAreChoked) ==>
                ok && outgoing == old(outgoing) && theirRequests.requests == old(theirRequests.requests)
      ensures old(theyAreChoked) ==> |outgoing| > |old(outgoing)| && outgoing[|old(outgoing)|] == Unchoke
    {
      hide ValidLog, Q.Distinct, Uploads;
      ok := true;
      if theyAreChoked {
        theyAreChoked := false;
        SendPlain(Unchoke);
        ok := UploadNextBlock();
      }
    }

    // ----- events -----

    /** Another connection stored a block. It is no longer wanted, and cancelled if it was in flight. The
        pipeline is not refilled: it is saturated afterwards exactly when no block is left to want or
        the request was not among a full set. */
    method OnBlockComplete(piece: nat, block: nat)
      requires Valid()
      modifies `toRequest, `outgoing, myRequests
      ensures Valid() && NoRequestsSent()
      ensures toRequest.Keys == old(toRequest.Keys) - {(piece, block)}
      ensures Q.Keys(myRequests.requests) == old(Q.Keys(myRequests.requests)) - {(piece, block)}
      ensures Cancelled(outgoing) == old(Cancelled(outgoing)) +
                if (piece, block) in old(Q.Keys(myRequests.requests)) then multiset{(piece, block)} else multiset{}
      ensures |myRequests.requests| ==
                old(|myRequests.requests|) - if (piece, block) in old(Q.Keys(myRequests.requests)) then 1 else 0
      ensures amInterested == old(amInterested) && Pursued() == old(Pursued()) - {(piece, block)}
      ensures old(Candid()) ==> (Candid() <==> old(Pursued()) != {(piece, block)})
      ensures Saturated() <==>
                || amChoked || !amInterested || old(toRequest.Keys) - {(piece, block)} == {}
                || (old(|myRequests.requests|) >= MAX_CONCURRENT_REQUESTS
                    && (piece, block) !in old(Q.Keys(myRequests.requests)))
    {
      assert |myRequests.requests| <= MAX_CONCURRENT_REQUESTS;
      hide ValidPieces, ValidRequests, ValidLog, Cancelled, Q.Keys, Q.Distinct;
      WithoutOne(Q.Keys(myRequests.requests), toRequest.Keys, amInterested, (piece, block));
      Unwant((piece, block));
      CancelRequest(piece, block);
    }

    method Unwant(k: BlockId)
      requires ValidRequests()
      modifies `toRequest
      ensures ValidRequests() && toRequest.Keys == old(toRequest.Keys) - {k}
    {
      hide Q.Distinct, Q.Keys;
      toRequest := toRequest - {k};
      assert toRequest.Keys == old(toRequest.Keys) - {k};
    }

    method CancelRequest(piece: nat, block: nat)
      requires ValidRequests() && ValidLog()
      modifies `outgoing, myRequests
      ensures ValidRequests() && ValidLog() && NoRequestsSent()
      ensures Q.Keys(myRequests.requests) == old(Q.Keys(myRequests.requests)) - {(piece, block)}
      ensures |myRequests.requests| ==
                old(|myRequests.requests|) - if (piece, block) in old(Q.Keys(myRequests.requests)) then 1 else 0
      ensures Cancelled(outgoing) == old(Cancelled(outgoing)) +
                if (piece, block) in old(Q.Keys(myRequests.requests)) then multiset{(piece, block)} else multiset{}
    {
      hide Q.KeyCounts, Requested, Cancelled, SaysInterested, Uploads, Q.Distinct, Q.Keys;
      var r := myRequests.Remove(piece, block);
      if r.Some? {
        assert r.value.offset / BLOCK_SIZE == block;
        var m := Cancel(r.value.piece, r.value.offset, r.value.length);
        LogSnoc(outgoing, m);
        outgoing := outgoing + [m];
      }
    }

    method OnPieceComplete(piece: nat)
      requires Valid() && piece < numPieces
      modifies `myPieces, `amInterested, `outgoing
      ensures Valid() && NoRequestsSent() && myPieces == old(myPieces)[piece := true]
      ensures Candid() && outgoing != [] && outgoing[|outgoing| - 1] == Have(piece)
    {
      hide ValidLog, ValidRequests;
      myPieces := myPieces[piece := true];
      UpdateMyInterestedStatus();
      WantedIff();
      SendPlain(Have(piece));
    }

    /** The download has split all pieces: it is asked about exactly the pieces on the two lists. A piece
        that was announced before, but by a Have and not by a bit field, is on neither. */
    method OnCatComplete()
      requires Valid()
      modifies `myPieces, `catStatus, `catNumList, `unCatNumList, `toRequest, `amInterested, `outgoing, `reports, `answers, myRequests
      ensures Valid() && RequestsAllowed() && Saturated() && catStatus && catNumList == [] && unCatNumList == []
      ensures PursuesReports() && Candid()
      ensures var all := old(catNumList + unCatNumList);
              AskedAbout(NewReports(), Popped(all, |all|), old(answers))
      ensures forall p :: Reported(NewReports(), p) <==> p in old(catNumList) || p in old(unCatNumList)
      ensures announced == old(announced)
    {
      hide ValidLog, ValidRequests, Q.Keys, Wanted, Pursued, Popped, AskedAbout, Reported;
      var have: seq<bool> :| |have| == numPieces;
      myPieces := have;
      catStatus := true;
      catNumList := catNumList + unCatNumList;
      unCatNumList := [];
      QueueFromList(|catNumList|);
      AllReported(NewReports(), old(catNumList + unCatNumList), old(answers));
      Refresh();
    }

    method OnHave(index: nat)
      requires Valid() && index < numPieces
      modifies `theirPieces, `announced, `toRequest, `amInterested, `outgoing, `reports, `answers, myRequests
      ensures Valid() && RequestsAllowed() && announced == old(announced) + {index}
      ensures theirPieces == old(theirPieces)[index := true] && PursuesReports()
      ensures AskedAbout(NewReports(), if catStatus then [index] else [], old(answers))
      ensures catStatus ==> Saturated() && Candid()
      ensures old(Eager()) ==> Eager()
    {
      hide ValidLog, ValidRequests, ValidPieces, Q.Keys, Q.Distinct, Wanted, BlocksOf, Pursued;
      Learn(index);
      NothingWanted(reports);
      if catStatus {
        var queued := QueueBlocks(index);
        ReportsStep(old(reports), old(reports), reports);
        Refresh();
      }
    }

    method Learn(index: nat)
      requires Valid() && index < numPieces
      modifies `theirPieces, `announced
      ensures Valid() && announced == old(announced) + {index} && theirPieces == old(theirPieces)[index := true]
    {
      hide ValidLog, Q.Keys, Q.Distinct;
      theirPieces := theirPieces[index := true];
      announced := announced + {index};
    }

    /** The peer lists its pieces; those already split are queued, a few at a time. */
    method OnBitfield(bits: seq<Byte>)
      requires Valid() && numPieces <= 8 * |bits|
      modifies `theirPieces, `announced, `catNumList, `unCatNumList, `toRequest, `amInterested, `outgoing, `reports, `answers, myRequests
      ensures Valid() && RequestsAllowed() && Saturated() && PursuesReports() && Candid()
      ensures forall i :: 0 <= i < numPieces ==> theirPieces[i] == HasPiece(bits, i)
      ensures old(announced) <= announced <= old(announced) + PiecesIn(bits)
      ensures unCatNumList == old(unCatNumList) + Chosen(theirPieces, catNum, false)
      ensures var all := old(catNumList) + Chosen(theirPieces, catNum, true);
              var k := if REQUEST_SIZE < |all| then REQUEST_SIZE else |all|;
              catNumList == all[..|all| - k] && AskedAbout(NewReports(), Popped(all, k), old(answers))
    {
      hide ValidLog, ValidRequests, ValidPieces, Q.Keys, Q.Distinct, HasPiece, Wanted, Pursued, Chosen;
      ReadBitfield(bits);
      QueueFromList(REQUEST_SIZE);
      Refresh();
    }

    ghost function PiecesIn(bits: seq<Byte>): set<nat>
      requires numPieces <= 8 * |bits|
    {
      set i: nat | i < numPieces && HasPiece(bits, i)
    }

    /** The first `i` bits were read, and only pieces in the bitfield were added to those announced before. */
    ghost predicate BitsRead(has: seq<bool>, said: set<nat>, before: set<nat>, bits: seq<Byte>, i: nat) {
      && i <= |has| == numPieces <= 8 * |bits| && before <= said <= before + PiecesIn(bits)
      && forall j :: 0 <= j < i ==> has[j] == HasPiece(bits, j)
    }

    lemma BitsNext(has: seq<bool>, said: set<nat>, before: set<nat>, bits: seq<Byte>, i: nat)
      requires i < |has| && BitsRead(has, said, before, bits, i)
      ensures var value := HasPiece(bits, i);
              BitsRead(has[i := value], said + if value then {i} else {}, before, bits, i + 1)
    {
      hide HasPiece;
    }

    method ReadBitfield(bits: seq<Byte>)
      requires Valid() && numPieces <= 8 * |bits|
      modifies `theirPieces, `announced, `catNumList, `unCatNumList
      ensures Valid() && old(announced) <= announced <= old(announced) + PiecesIn(bits)
      ensures forall i :: 0 <= i < numPieces ==> theirPieces[i] == HasPiece(bits, i)
      ensures catNumList == old(catNumList) + Chosen(theirPieces, catNum, true)
      ensures unCatNumList == old(unCatNumList) + Chosen(theirPieces, catNum, false)
    {
      assert |theirPieces| == numPieces;
      ExtendsNone(catNumList, theirPieces, catNum, true);
      ExtendsNone(unCatNumList, theirPieces, catNum, false);
      assert BitsRead(theirPieces, announced, announced, bits, 0);
      hide Valid, HasPiece, Chosen, BitsRead, Extends;
      for i := 0 to numPieces
        invariant Valid() && |theirPieces| == numPieces
        invariant BitsRead(theirPieces, announced, old(announced), bits, i)
        invariant Extends(catNumList, old(catNumList), theirPieces, i, catNum, true)
        invariant Extends(unCatNumList, old(unCatNumList), theirPieces, i, catNum, false)
      {
        BitsNext(theirPieces, announced, old(announced), bits, i);
        NoteNext(i, HasPiece(bits, i), old(catNumList), old(unCatNumList));
      }
      ExtendsAll(catNumList, old(catNumList), theirPieces, catNum, true);
      ExtendsAll(unCatNumList, old(unCatNumList), theirPieces, catNum, false);
      BitsDone(theirPieces, announced, old(announced), bits);
    }

    lemma BitsDone(has: seq<bool>, said: set<nat>, before: set<nat>, bits: seq<Byte>)
      requires BitsRead(has, said, before, bits, numPieces)
      ensures |has| == numPieces <= 8 * |bits| && before <= said <= before + PiecesIn(bits)
      ensures forall i :: 0 <= i < numPieces ==> has[i] == HasPiece(bits, i)
    {
    }

    method NoteNext(i: nat, value: bool, ghost listed: seq<nat>, ghost aside: seq<nat>)
      requires Valid() && i < numPieces
      requires Extends(catNumList, listed, theirPieces, i, catNum, true)
      requires Extends(unCatNumList, aside, theirPieces, i, catNum, false)
      modifies `theirPieces, `announced, `catNumList, `unCatNumList
      ensures Valid() && announced == old(announced) + if value then {i} else {}
      ensures |theirPieces| == numPieces && theirPieces == old(theirPieces)[i := value]
      ensures Extends(catNumList, listed, theirPieces, i + 1, catNum, true)
      ensures Extends(unCatNumList, aside, theirPieces, i + 1, catNum, false)
    {
      ExtendsStep(catNumList, listed, theirPieces, i, value, catNum, true);
      ExtendsStep(unCatNumList, aside, theirPieces, i, value, catNum, false);
      hide Valid, Extends;
      NotePiece(i, value);
    }

    method NotePiece(i: nat, value: bool)
      requires Valid() && i < numPieces
      modifies `theirPieces, `announced, `catNumList, `unCatNumList
      ensures Valid() && announced == old(announced) + if value then {i} else {}
      ensures |theirPieces| == numPieces && theirPieces == old(theirPieces)[i := value]
      ensures catNumList == old(catNumList) + if value && i < catNum then [i] else []
      ensures unCatNumList == old(unCatNumList) + if value && i >= catNum then [i] else []
    {
      hide ValidLog, Q.Keys, Q.Distinct;
      theirPieces := theirPieces[i := value];
      if value {
        announced := announced + {i};
        if i < catNum {
          catNumList := catNumList + [i];
        } else {
          unCatNumList := unCatNumList + [i];
        }
      }
    }

    /** A request joins the peer's queue, unless it is there already; the first of the queue is served if
        no upload is running and the peer may have one. */
    method OnRequest(piece: nat, offset: nat, length: nat) returns (ok: bool)
      requires Valid()
      modifies `uploadInProgress, `outgoing, theirRequests
      ensures Valid() && NoRequestsSent()
      ensures var block := offset / BLOCK_SIZE;
              var queue := old(theirRequests.requests)
                           + if (piece, block) in Q.Keys(old(theirRequests.requests)) then []
                             else [Q.Request(piece, block, offset, length)];
              if old(uploadInProgress) || theyAreChoked || !theyAreInterested || queue == []
              then ok && theirRequests.requests == queue && outgoing == old(outgoing)
              else
                && theirRequests.requests == queue[1..] && uploadInProgress == ok
                && (!ok ==> outgoing == old(outgoing)) && (ok ==> Uploaded(queue[0].piece, queue[0].offset))
    {
      hide ValidLog, ValidRequests, Q.Distinct, Uploads, Q.Keys;
      var added := theirRequests.Add(piece, offset / BLOCK_SIZE, offset, length);
      ok := UploadNextBlock();
    }

    /** A block arrives: a request for it counts as answered, and the pipeline is refilled unless the
        download fails to store it. */
    method OnPiece(piece: nat, offset: nat, data: seq<Byte>) returns (ok: bool)
      requires Valid()
      modifies `answered, `toRequest, `amInterested, `outgoing, myRequests
      ensures Valid() && RequestsAllowed() && (ok ==> Saturated() && Candid())
      ensures old(Eager()) ==> Eager()
      ensures Pursued() == (old(Q.Keys(myRequests.requests)) - {(piece, offset / BLOCK_SIZE)}) + old(toRequest.Keys)
      ensures answered == old(answered) +
                if (piece, offset / BLOCK_SIZE) in old(Q.Keys(myRequests.requests))
                then multiset{(piece, offset / BLOCK_SIZE)} else multiset{}
    {
      hide ValidLog, ValidRequests, ValidPieces, Q.Keys, Q.Distinct;
      TakeAnswer(piece, offset / BLOCK_SIZE);
      ok := *;
      if ok {
        Refresh();
      }
    }

    method TakeAnswer(piece: nat, block: nat)
      requires ValidRequests() && ValidLog()
      modifies `answered, myRequests
      ensures ValidRequests() && ValidLog()
      ensures Q.Keys(myRequests.requests) == old(Q.Keys(myRequests.requests)) - {(piece, block)}
      ensures answered == old(answered) +
                if (piece, block) in old(Q.Keys(myRequests.requests)) then multiset{(piece, block)} else multiset{}
    {
      hide Q.KeyCounts, Requested, Cancelled, SaysInterested, Uploads, Q.Distinct, Q.Keys;
      var r := myRequests.Remove(piece, block);
      if r.Some? {
        answered := answered + multiset{(piece, block)};
      }
    }

    /** Idle peers trigger a new look at what is split and what is missing. Once everything is split, the
        download is asked about every announced piece; before, about a few of the old list, which is
        then made anew. */
    method OnKeepAlive()
      requires Valid()
      modifies `myPieces, `catNum, `catNumList, `unCatNumList, `toRequest, `amInterested, `outgoing, `reports, `answers, myRequests
      ensures Valid() && RequestsAllowed() && Saturated() && PursuesReports() && Candid()
      ensures catNum == numPieces ==>
                && catNumList == [] && unCatNumList == []
                && AskedAbout(NewReports(), Chosen(theirPieces, numPieces, true), old(answers))
      ensures catNum != numPieces ==>
                var k := if REQUEST_SIZE < |old(catNumList)| then REQUEST_SIZE else |old(catNumList)|;
                && catNumList == Chosen(theirPieces, catNum, true) && unCatNumList == Chosen(theirPieces, catNum, false)
                && AskedAbout(NewReports(), Popped(old(catNumList), k), old(answers))
    {
      hide ValidLog, ValidRequests, Q.Keys, Wanted, Pursued, Chosen;
      var split: nat := *;
      var have: seq<bool> :| |have| == numPieces;
      var list, unsplit: seq<nat> := [], [];
      if split == numPieces {
        QueueAnnounced();
      } else {
        list, unsplit := Sorted(split);
        QueueFromList(REQUEST_SIZE);
      }
      Relist(split, have, list, unsplit);
      Refresh();
    }

    method Relist(split: nat, have: seq<bool>, list: seq<nat>, unsplit: seq<nat>)
      requires ValidPieces() && |have| == numPieces && forall i :: i in list || i in unsplit ==> i in announced
      modifies `myPieces, `catNum, `catNumList, `unCatNumList
      ensures ValidPieces() && catNum == split && myPieces == have && catNumList == list && unCatNumList == unsplit
    {
      catNum, myPieces, catNumList, unCatNumList := split, have, list, unsplit;
    }

    method QueueAnnounced()
      requires ValidRequests() && ValidPieces()
      modifies `toRequest, `reports, `answers
      ensures ValidRequests() && PursuesReports()
      ensures AskedAbout(NewReports(), Chosen(theirPieces, numPieces, true), old(answers))
    {
      NoneChosen(numPieces);
      hide ValidRequests, Wanted, BlocksOf, Pursued, Chosen, AskedAbout, Answer, Later;
      NothingWanted(reports);
      NothingAsked(answers);
      LaterAnswers(answers, 0);
      for i := 0 to numPieces
        invariant ValidRequests() && PursuesReports()
        invariant var asked := Chosen(theirPieces[..i], numPieces, true);
                  AskedAbout(NewReports(), asked, old(answers)) && answers == Later(old(answers), |asked|)
      {
        ChosenStep(theirPieces, i, numPieces, true);
        if theirPieces[i] {
          ghost var was := reports;
          var queued := QueueBlocks(i);
          ReportsStep(old(reports), was, reports);
          ghost var asked := Chosen(theirPieces[..i], numPieces, true);
          LaterAnswers(old(answers), |asked|);
          AskedOneMore(was[|old(reports)|..], NewReports(), asked, i, old(answers));
        } else {
          assert Chosen(theirPieces[..i], numPieces, true) + [] == Chosen(theirPieces[..i], numPieces, true);
        }
      }
      assert theirPieces[..numPieces] == theirPieces;
    }

    /** The announced pieces, divided by whether they are split yet. */
    method Sorted(split: nat) returns (list: seq<nat>, unsplit: seq<nat>)
      requires ValidPieces()
      ensures list == Chosen(theirPieces, split, true) && unsplit == Chosen(theirPieces, split, false)
      ensures forall i :: i in list || i in unsplit ==> i in announced
    {
      NoneChosen(split);
      hide Chosen;
      list, unsplit := [], [];
      for i := 0 to numPieces
        invariant list == Chosen(theirPieces[..i], split, true) && unsplit == Chosen(theirPieces[..i], split, false)
        invariant forall j :: j in list || j in unsplit ==> j in announced
      {
        ChosenStep(theirPieces, i, split, true);
        ChosenStep(theirPieces, i, split, false);
        if theirPieces[i] {
          if i < split {
            list := list + [i];
          } else {
            unsplit := unsplit + [i];
          }
        }
      }
      assert theirPieces[..numPieces] == theirPieces;
    }

    /** Events that can come: indices are within the torrent, or the code panics; and the sending thread
        reports a finished upload once for each block it was given, so only while one is running. */
    predicate Acceptable(ipc: Ipc)
      reads `uploadInProgress
    {
      match ipc
      case Incoming(Have(i)) => i < numPieces
      case Incoming(Bitfield(bits)) => numPieces <= 8 * |bits|
      case PieceComplete(i) => i < numPieces
      case BlockUploaded => uploadInProgress
      case _ => true
    }

    method OnMessage(m: Message) returns (ok: bool)
      requires Valid() && Acceptable(Incoming(m))
      modifies this, myRequests, theirRequests
      ensures Valid() && RequestsAllowed() && old(announced) <= announced
      ensures ok && ((m.Unchoke? && old(amChoked)) || m.Bitfield? || m.Piece? || m.KeepAlive? || (m.Have? && catStatus)) ==>
                Saturated()
      ensures ok && (m.Bitfield? || m.Piece? || m.KeepAlive? || (m.Have? && catStatus)) ==> Candid()
      ensures old(Eager()) ==> Eager()
      ensures halt == old(halt) && (m.Port? ==> !ok)
      ensures !ok ==> m.Port? || m.Interested? || m.Request? || m.Piece?
      ensures amChoked == (m.Choke? || (old(amChoked) && !m.Unchoke?))
      ensures theyAreInterested == (m.Interested? || (old(theyAreInterested) && !m.NotInterested?))
      ensures theyAreChoked == (old(theyAreChoked) && !m.Interested?)
      ensures m.Have? || m.Bitfield? || m.KeepAlive? ==> PursuesReports()
      ensures !(m.Have? || m.Bitfield? || m.KeepAlive? || m.Piece?) ==> Pursued() == old(Pursued())
      ensures m.Cancel? ==> (m.piece, m.offset / BLOCK_SIZE) !in Q.Keys(theirRequests.requests)
    {
      hide ValidLog, ValidRequests, ValidPieces, Uploads, Q.Keys, HasPiece, Q.Distinct, Wanted, Pursued, Chosen, Popped,
           PiecesIn, AskedAbout, PursuesReports, Answer;
      ok := true;
      match m {
        case Have(i) => OnHave(i);
        case Bitfield(bits) => OnBitfield(bits);
        case Piece(p, o, d) => ok := OnPiece(p, o, d);
        case KeepAlive => OnKeepAlive();
        case Port => ok := false;
        case _ => ok := OnStatus(m);
      }
    }

    /** Messages that bring neither pieces nor blocks. */
    method OnStatus(m: Message) returns (ok: bool)
      requires Valid()
      requires m.Choke? || m.Unchoke? || m.Interested? || m.NotInterested? || m.Request? || m.Cancel?
      modifies `amChoked, `theyAreInterested, `theyAreChoked, `toRequest, `outgoing, `uploadInProgress,
               myRequests, theirRequests
      ensures Valid() && RequestsAllowed() && Pursued() == old(Pursued())
      ensures m.Unchoke? && old(amChoked) ==> Saturated()
      ensures !ok ==> m.Interested? || m.Request?
      ensures amChoked == (m.Choke? || (old(amChoked) && !m.Unchoke?))
      ensures theyAreInterested == (m.Interested? || (old(theyAreInterested) && !m.NotInterested?))
      ensures theyAreChoked == (old(theyAreChoked) && !m.Interested?)
      ensures m.Cancel? ==> (m.piece, m.offset / BLOCK_SIZE) !in Q.Keys(theirRequests.requests)
    {
      hide ValidLog, ValidRequests, ValidPieces, Uploads, Q.Keys, Q.Distinct, Pursued;
      ok := true;
      match m {
        case Choke => amChoked := true;
        case Unchoke =>
          if amChoked {
            amChoked := false;
            RequestMoreBlocks();
          }
        case Interested =>
          theyAreInterested := true;
          ok := UnchokeThem();
        case NotInterested => theyAreInterested := false;
        case Request(p, o, l) => ok := OnRequest(p, o, l);
        case Cancel(p, o, _) => var r := theirRequests.Remove(p, o / BLOCK_SIZE);
      }
    }

    /** One event of the connection's loop. */
    method Process(ipc: Ipc) returns (ok: bool)
      requires Valid() && Acceptable(ipc)
      modifies this, myRequests, theirRequests
      ensures Valid() && RequestsAllowed() && old(announced) <= announced
      ensures ipc.CatComplete? ==> Saturated() && PursuesReports()
      ensures ipc.CatComplete? || ipc.PieceComplete? || ipc.DownloadComplete? ==> Candid()
      ensures old(Eager()) ==> Eager()
      ensures halt == (old(halt) || ipc.DownloadComplete?)
      ensures ipc.BlockComplete? ==> Pursued() == old(Pursued()) - {(ipc.piece, ipc.block)}
      ensures ipc.PieceComplete? ==> myPieces == old(myPieces)[ipc.piece := true]
      ensures ipc.BlockUploaded? ==> uploaded == old(uploaded) + 1
    {
      hide ValidLog, ValidRequests, ValidPieces, Uploads, Q.Keys, Cancelled, Q.Distinct, Wanted, Chosen, Popped,
           AskedAbout, PursuesReports, HasPiece;
      ok := true;
      match ipc {
        case Incoming(m) => ok := OnMessage(m);
        case BlockComplete(p, b) => OnBlockComplete(p, b);
        case PieceComplete(p) => OnPieceComplete(p);
        case CatComplete => OnCatComplete();
        case DownloadComplete =>
          halt := true;
          UpdateMyInterestedStatus();
          WantedIff();
        case BlockUploaded =>
          FinishUpload();
          ok := UploadNextBlock();
        case StreamError =>
      }
    }

    method FinishUpload()
      requires ValidLog() && uploadInProgress
      modifies `uploadInProgress, `uploaded
      ensures ValidLog() && !uploadInProgress && uploaded == old(uploaded) + 1
    {
      uploaded := uploaded + 1;
      uploadInProgress := false;
    }

    // ----- what the invariants amount to -----

    /** In every reachable state: at most ten requests are in flight, none of them for a block that is
        also waiting to be requested; requests sent are in flight, answered or cancelled, counted block
        by block; at most one upload is unfinished; the last thing said about interest is what the flag
        says, and it is "interested" whenever something is pursued. */
    lemma Accounts()
      requires Valid()
      ensures |myRequests.requests| <= MAX_CONCURRENT_REQUESTS
      ensures |Requested(outgoing)| == |myRequests.requests| + |answered| + |Cancelled(outgoing)|
      ensures forall k :: k in toRequest ==> Q.KeyCounts(myRequests.requests)[k] == 0
      ensures Uploads(outgoing) - uploaded <= 1
      ensures SaysInterested(outgoing) <==> amInterested
      ensures Eager() && Pursued() != {} ==> SaysInterested(outgoing)
    {
      var rs := myRequests.requests;
      assert |Q.KeyCounts(rs)| == |Q.KeySeq(rs)| == |rs|;
      assert Requested(outgoing) == Q.KeyCounts(rs) + answered + Cancelled(outgoing);
      forall k | k in toRequest
        ensures Q.KeyCounts(rs)[k] == 0
      {
        Q.CountsAndKeys(rs, k);
      }
    }
  }

  /** Blocks 0 to 10 of a piece. */
  function ElevenBlocks(): seq<(nat, nat)> { seq(11, i => (i, BLOCK_SIZE)) }

  lemma ElevenWanted(reports: seq<Report>)
    requires AskedAbout(reports, [0], [ElevenBlocks()])
    ensures Wanted(reports) == set i: nat | i < 11 :: (0, i)
    ensures |Wanted(reports)| == 11
  {
    var r: Report := (0, ElevenBlocks());
    assert reports == [r] && [r][..0] == [];
    assert BlocksOf(r) == set i: nat | i < 11 :: (0, i) by {
      forall i: nat | i < 11
        ensures (0, i) in BlocksOf(r)
      {
        assert ElevenBlocks()[i] in r.1;
      }
    }
    CountPairs(11);
  }

  lemma {:induction false} CountPairs(n: nat)
    ensures |set i: nat | i < n :: (0, i)| == n
  {
    if n > 0 {
      CountPairs(n - 1);
      assert (set i: nat | i < n :: (0, i)) == (set i: nat | i < n - 1 :: (0, i)) + {(0, n - 1)};
    }
  }

  lemma {:induction false} FewKeys(rs: seq<Q.Request>)
    ensures |Q.Keys(rs)| <= |rs|
  {
    if rs != [] {
      var n := |rs| - 1;
      FewKeys(rs[..n]);
      assert rs == rs[..n] + [rs[n]];
      assert Q.Keys(rs) == Q.Keys(rs[..n]) + {Q.Key(rs[n])};
    }
  }

  lemma FirstBit()
    ensures HasPiece([128], 0) && Chosen([true], 1, true) == [0]
    ensures [] + Chosen([true], 1, true) == [0] && Popped([0], 1) == [0]
  {
    assert Bit(128, 7) by {
      assert Bit(128, 7) == Bit(64, 6) == Bit(32, 5) == Bit(16, 4) == Bit(8, 3) == Bit(4, 2) == Bit(2, 1) == Bit(1, 0);
    }
    assert [true][..0] == [];
  }

  /** One block is reported missing. */
  lemma OneWanted(reports: seq<Report>)
    requires AskedAbout(reports, [0], [[(0, BLOCK_SIZE)]])
    ensures Wanted(reports) == {(0, 0)}
  {
    var r: Report := (0, [(0, BLOCK_SIZE)]);
    assert reports == [r] && [r][..0] == [];
    assert r.1[0] == (0, BLOCK_SIZE);
    assert BlocksOf(r) == {(0, 0)};
  }

  /** Interest that goes stale: the only missing block of the peer's only piece is completed by another
      connection. Nothing is pursued any more, and the peer was not told. */
  method StaleInterestExample() returns (c: PeerConnection)
    ensures c.Valid() && c.amInterested && SaysInterested(c.outgoing) && c.Pursued() == {}
  {
    c := new PeerConnection(1, [false], [[(0, BLOCK_SIZE)]]);
    assert c.Pursued() == {} by {
      assert Q.Keys([]) == {};
    }
    hide HasPiece, Chosen, AskedAbout, Wanted, PeerConnection.Pursued, Popped, PeerConnection.Valid;
    FirstBit();
    c.OnBitfield([128]);
    c.Separate();
    assert c.theirPieces == [true];
    OneWanted(c.reports);
    c.OnBlockComplete(0, 0);
    c.SaysSo();
  }

  /** A piece that is never asked about: the peer announces it by a Have before splitting is over. */
  method UnaskedExample() returns (c: PeerConnection)
    ensures c.Valid() && 0 in c.announced && c.catStatus && !Reported(c.reports, 0) && c.Pursued() == {}
  {
    c := new PeerConnection(0, [false], []);
    assert c.Pursued() == {} && !c.catStatus by {
      assert Q.Keys([]) == {};
    }
    hide Wanted, PeerConnection.Pursued, Popped, PeerConnection.Valid;
    c.OnHave(0);
    assert c.reports == [];
    c.OnCatComplete();
    assert c.reports == [];
  }

  /** Eleven pursued blocks do not fit into the pipeline. */
  lemma TenInFlight(pursued: set<BlockId>, inFlight: seq<Q.Request>, wanted: set<BlockId>)
    requires pursued == Q.Keys(inFlight) + wanted && |pursued| == 11 && |inFlight| <= MAX_CONCURRENT_REQUESTS
    ensures wanted != {}
  {
    FewKeys(inFlight);
    assert wanted == {} ==> pursued == Q.Keys(inFlight);
  }

  method NewPeer() returns (c: PeerConnection)
    ensures fresh(c) && fresh(c.myRequests) && fresh(c.theirRequests) && c.Valid() && c.amChoked && c.Pursued() == {}
    ensures c.numPieces == 1 && c.catNum == 1 && c.catNumList == [] && c.answers == [ElevenBlocks()] && c.reports == []
  {
    c := new PeerConnection(1, [false], [ElevenBlocks()]);
    hide PeerConnection.Valid;
    assert Q.Keys([]) == {};
  }

  /** The peer announces its only piece, of which eleven blocks are missing. */
  method AnnouncedPeer() returns (c: PeerConnection)
    ensures fresh(c) && fresh(c.myRequests) && fresh(c.theirRequests)
    ensures c.Valid() && c.Eager() && c.amChoked && |c.Pursued()| == 11
  {
    hide PeerConnection.Valid, HasPiece, Chosen, AskedAbout, Wanted, PeerConnection.Pursued, Popped, ElevenBlocks;
    c := NewPeer();
    FirstBit();
    c.OnBitfield([128]);
    c.Separate();
    assert c.theirPieces == [true];
    ElevenWanted(c.reports);
  }

  /** A peer with one piece of eleven missing blocks unchokes us: ten requests go out. When another
      connection completes one of them, the free place is not used although a block is wanted. */
  method StalledExample() returns (c: PeerConnection)
    ensures c.Valid() && !c.Saturated() && !c.amChoked && c.amInterested && c.toRequest.Keys != {}
    ensures |c.myRequests.requests| == MAX_CONCURRENT_REQUESTS - 1
  {
    c := AnnouncedPeer();
    UnchokeAndStall(c);
  }

  method UnchokeAndStall(c: PeerConnection)
    requires c.Valid() && c.Eager() && c.amChoked && |c.Pursued()| == 11
    modifies c, c.myRequests, c.theirRequests
    ensures c.Valid() && !c.Saturated() && !c.amChoked && c.amInterested && c.toRequest.Keys != {}
    ensures |c.myRequests.requests| == MAX_CONCURRENT_REQUESTS - 1
  {
    hide PeerConnection.Valid, PeerConnection.ValidRequests, PeerConnection.ValidPieces, PeerConnection.ValidLog, Q.Keys;
    FillPipeline(c);
    var r := c.myRequests.requests[0];
    InKeys(c.myRequests.requests);
    c.Separate();
    hide PeerConnection.Pursued, Cancelled;
    c.OnBlockComplete(r.piece, r.block);
  }

  lemma InKeys(rs: seq<Q.Request>)
    requires rs != []
    ensures (rs[0].piece, rs[0].block) in Q.Keys(rs)
  {
    assert rs[0] in rs;
    assert Q.Key(rs[0]) in Q.Keys(rs);
  }

  method FillPipeline(c: PeerConnection)
    requires c.Valid() && c.Eager() && c.amChoked && |c.Pursued()| == 11
    modifies c, c.myRequests, c.theirRequests
    ensures c.Valid() && !c.amChoked && c.amInterested && c.toRequest.Keys != {}
    ensures |c.myRequests.requests| == MAX_CONCURRENT_REQUESTS
  {
    hide Q.Keys, PeerConnection.Valid, Q.Distinct, PeerConnection.PursuesReports;
    var ok := c.OnMessage(Unchoke);
    c.Separate();
    TenInFlight(c.Pursued(), c.myRequests.requests, c.toRequest.Keys);
  }
}
