/** The queue of block requests that each side of a peer connection keeps: at most one per block. */
module RequestQueue {
  import opened Wrappers

  datatype Request = Request(piece: nat, block: nat, offset: nat, length: nat)

  function Key(r: Request): (nat, nat) { (r.piece, r.block) }

  ghost function Keys(rs: seq<Request>): set<(nat, nat)> { set r | r in rs :: Key(r) }

  ghost function KeySeq(rs: seq<Request>): seq<(nat, nat)> { seq(|rs|, i requires 0 <= i < |rs| => Key(rs[i])) }

  /** How often each block is requested. */
  ghost function KeyCounts(rs: seq<Request>): multiset<(nat, nat)> { multiset(KeySeq(rs)) }

  lemma CountsAndKeys(rs: seq<Request>, k: (nat, nat))
    ensures KeyCounts(rs)[k] > 0 ==> k in Keys(rs)
  {
    if KeyCounts(rs)[k] > 0 {
      assert k in KeySeq(rs);
      var i :| 0 <= i < |rs| && KeySeq(rs)[i] == k;
      assert rs[i] in rs;
    }
  }

  ghost predicate Distinct(rs: seq<Request>) {
    forall i, j :: 0 <= i < j < |rs| ==> Key(rs[i]) != Key(rs[j])
  }

  function PositionOf(rs: seq<Request>, k: (nat, nat)): (i: nat)
    ensures i <= |rs|
    ensures i < |rs| ==> Key(rs[i]) == k
    ensures i == |rs| ==> forall j :: 0 <= j < |rs| ==> Key(rs[j]) != k
  {
    if rs == [] || Key(rs[0]) == k then 0 else 1 + PositionOf(rs[1..], k)
  }

  lemma PositionTells(rs: seq<Request>, k: (nat, nat))
    ensures PositionOf(rs, k) < |rs| <==> k in Keys(rs)
  {
    if PositionOf(rs, k) < |rs| {
      assert rs[PositionOf(rs, k)] in rs;
    }
  }

  function RemoveAt(rs: seq<Request>, i: nat): seq<Request>
    requires i < |rs|
  {
    rs[..i] + rs[i + 1..]
  }

  lemma KeyCountsSnoc(rs: seq<Request>, r: Request)
    ensures KeyCounts(rs + [r]) == KeyCounts(rs) + multiset{Key(r)}
    ensures Keys(rs + [r]) == Keys(rs) + {Key(r)}
  {
    assert KeySeq(rs + [r]) == KeySeq(rs) + [Key(r)];
    assert forall x :: x in rs + [r] <==> x in rs || x == r;
  }

  lemma RemoveAtKeys(rs: seq<Request>, i: nat)
    requires i < |rs| && Distinct(rs)
    ensures Distinct(RemoveAt(rs, i))
    ensures KeyCounts(rs) == KeyCounts(RemoveAt(rs, i)) + multiset{Key(rs[i])}
    ensures Keys(RemoveAt(rs, i)) == Keys(rs) - {Key(rs[i])}
  {
    var a, b := KeySeq(rs[..i]), KeySeq(rs[i + 1..]);
    assert KeySeq(rs) == a + [Key(rs[i])] + b;
    assert KeySeq(RemoveAt(rs, i)) == a + b;
    RemoveAtDistinct(rs, i);
  }

  lemma RemoveAtDistinct(rs: seq<Request>, i: nat)
    requires i < |rs| && Distinct(rs)
    ensures Distinct(RemoveAt(rs, i))
    ensures Keys(RemoveAt(rs, i)) == Keys(rs) - {Key(rs[i])}
  {
    var s := RemoveAt(rs, i);
    assert forall j :: 0 <= j < |s| ==> s[j] == rs[if j < i then j else j + 1];
    forall k | k in Keys(rs) - {Key(rs[i])}
      ensures k in Keys(s)
    {
      var r :| r in rs && Key(r) == k;
      var j :| 0 <= j < |rs| && rs[j] == r;
      assert s[if j < i then j else j - 1] == r;
    }
    forall k | k in Keys(s)
      ensures k in Keys(rs) - {Key(rs[i])}
    {
      var r :| r in s && Key(r) == k;
      var j :| 0 <= j < |s| && s[j] == r;
      assert rs[if j < i then j else j + 1] == r;
    }
  }

  class RequestQueue {
    var requests: seq<Request>

    ghost predicate Valid()
      reads this
    {
      Distinct(requests)
    }

    constructor ()
      ensures Valid() && requests == []
    {
      requests := [];
    }

    method Has(piece: nat, block: nat) returns (found: bool)
      ensures found <==> (piece, block) in Keys(requests)
    {
      PositionTells(requests, (piece, block));
      found := PositionOf(requests, (piece, block)) < |requests|;
    }

    /** Adds a request unless there is one for the block. */
    method Add(piece: nat, block: nat, offset: nat, length: nat) returns (added: bool)
      requires Valid()
      modifies this
      ensures Valid() && (added <==> (piece, block) !in Keys(old(requests)))
      ensures requests == if added then old(requests) + [Request(piece, block, offset, length)] else old(requests)
    {
      var found := Has(piece, block);
      if !found {
        assert forall i :: 0 <= i < |requests| ==> requests[i] in requests;
        requests := requests + [Request(piece, block, offset, length)];
      }
      added := !found;
    }

    /** Takes the oldest request. */
    method Pop() returns (r: Option<Request>)
      requires Valid()
      modifies this
      ensures Valid() && (r.None? <==> old(requests) == [])
      ensures r.Some? ==> old(requests) == [r.value] + requests
      ensures r.None? ==> requests == []
    {
      if |requests| > 0 {
        r := Some(requests[0]);
        RemoveAtDistinct(requests, 0);
        assert RemoveAt(requests, 0) == requests[1..];
        requests := requests[1..];
      } else {
        r := None;
      }
    }

    /** Takes the request for one block out, wherever it stands. */
    method Remove(piece: nat, block: nat) returns (r: Option<Request>)
      requires Valid()
      modifies this
      ensures Valid() && (r.Some? <==> (piece, block) in Keys(old(requests)))
      ensures r.None? ==> requests == old(requests)
      ensures r.Some? ==>
                && r.value in old(requests) && Key(r.value) == (piece, block)
                && |requests| == |old(requests)| - 1
                && Keys(requests) == Keys(old(requests)) - {(piece, block)}
                && KeyCounts(old(requests)) == KeyCounts(requests) + multiset{(piece, block)}
                && forall q :: q in requests ==> q in old(requests)
    {
      PositionTells(requests, (piece, block));
      var i := PositionOf(requests, (piece, block));
      if i < |requests| {
        RemoveAtKeys(requests, i);
        r := Some(requests[i]);
        requests := requests[..i] + requests[i + 1..];
      } else {
        r := None;
      }
    }
  }
}
