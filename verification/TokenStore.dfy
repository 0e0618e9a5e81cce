/**
 Announce tokens of the DHT. A token is a hash of the requester's address and the current secret;
 a lazily rotated pair of secrets decides which tokens are still accepted.

 Clock readings and random draws are parameters. A refresh reads the clock twice, first to decide
 and then to stamp; `lag` bounds the time between the two readings.
 */
module TokenStore {
  import opened Bytes
  import opened Wrappers

  // Milliseconds.
  const MINUTE := 60_000
  const REFRESH_INTERVAL_MINS := 10
  const REFRESH := REFRESH_INTERVAL_MINS * MINUTE

  datatype Store = Store(curr: U32, last: U32, lastRefresh: int)

  /** What one call observes: two clock readings and up to two random draws. */
  datatype Call = Call(now: int, later: int, draw: U32, secondDraw: U32)

  function IntervalsPassed(lastRefresh: int, now: int): int {
    DivTrunc(DivTrunc(now - lastRefresh, MINUTE), REFRESH_INTERVAL_MINS)
  }

  lemma IntervalsAre(lastRefresh: int, now: int)
    requires lastRefresh <= now
    ensures IntervalsPassed(lastRefresh, now) == 0 <==> now - lastRefresh < REFRESH
    ensures IntervalsPassed(lastRefresh, now) == 1 <==> REFRESH <= now - lastRefresh < 2 * REFRESH
  {
  }

  /** `refresh_check`. */
  function Refresh(s: Store, c: Call): Store {
    var n := IntervalsPassed(s.lastRefresh, c.now);
    if n == 0 then s
    else if n == 1 then Store(c.draw, s.curr, c.later)
    else Store(c.secondDraw, c.draw, c.later)
  }

  function Run(s: Store, calls: seq<Call>): Store
    decreases |calls|
  {
    if calls == [] then s else Run(Refresh(s, calls[0]), calls[1..])
  }

  // ----- tokens -----

  type Token = seq<Byte>
  type Sha = seq<Byte> -> Token

  /** The hashed buffer: the address, 4 or 16 bytes long, followed by the secret. */
  function Buffer(addr: seq<Byte>, secret: U32): seq<Byte> { addr + Be(secret, 4) }

  function TokenFor(sha: Sha, addr: seq<Byte>, secret: U32): Token { sha(Buffer(addr, secret)) }

  predicate Accepts(sha: Sha, s: Store, addr: seq<Byte>, token: Token) {
    TokenFor(sha, addr, s.curr) == token || TokenFor(sha, addr, s.last) == token
  }

  /** For this address different secrets give different tokens. */
  ghost predicate Injective(sha: Sha, addr: seq<Byte>) {
    forall s, t :: TokenFor(sha, addr, s) == TokenFor(sha, addr, t) ==> s == t
  }

  class TokenStore {
    const sha: Sha
    var curr: U32
    var last: U32
    var lastRefresh: int

    function View(): Store
      reads this
    {
      Store(curr, last, lastRefresh)
    }

    constructor (hash: Sha, c: Call)
      ensures sha == hash && View() == Store(c.draw, c.secondDraw, c.now)
    {
      sha, curr, last, lastRefresh := hash, c.draw, c.secondDraw, c.now;
    }

    method RefreshCheck(c: Call)
      modifies this
      ensures View() == Refresh(old(View()), c)
    {
      var n := IntervalsPassed(lastRefresh, c.now);
      if n == 1 {
        last := curr;
        curr := c.draw;
        lastRefresh := c.later;
      } else if n != 0 {
        last := c.draw;
        curr := c.secondDraw;
        lastRefresh := c.later;
      }
    }

    method Checkout(addr: seq<Byte>, c: Call) returns (token: Token)
      modifies this
      ensures View() == Refresh(old(View()), c) && token == TokenFor(sha, addr, View().curr)
    {
      RefreshCheck(c);
      token := TokenFor(sha, addr, curr);
    }

    method Checkin(addr: seq<Byte>, token: Token, c: Call) returns (ok: bool)
      modifies this
      ensures View() == Refresh(old(View()), c) && ok == Accepts(sha, View(), addr, token)
    {
      RefreshCheck(c);
      ok := TokenFor(sha, addr, curr) == token || TokenFor(sha, addr, last) == token;
    }
  }

  // ----- the life of a secret, told by the clock alone -----

  datatype Phase = Current | Last | Gone

  /** Where a secret is, and when the secrets were last refreshed, after one more call. */
  function Age(p: Phase, lastRefresh: int, c: Call): (Phase, int) {
    var n := IntervalsPassed(lastRefresh, c.now);
    if n == 0 then (p, lastRefresh)
    else if n == 1 then (if p == Current then Last else Gone, c.later)
    else (Gone, c.later)
  }

  function PhaseAfter(p: Phase, lastRefresh: int, calls: seq<Call>): Phase
    decreases |calls|
  {
    if calls == [] then p
    else
      var (q, r) := Age(p, lastRefresh, calls[0]);
      PhaseAfter(q, r, calls[1..])
  }

  /** `secret` is not drawn (again) in any of the calls. */
  ghost predicate NotDrawn(secret: U32, calls: seq<Call>) {
    forall i :: 0 <= i < |calls| ==> calls[i].draw != secret && calls[i].secondDraw != secret
  }

  ghost predicate Holds(s: Store, secret: U32, p: Phase) {
    match p
    case Current => s.curr == secret
    case Last => s.last == secret && s.curr != secret
    case Gone => s.curr != secret && s.last != secret
  }

  lemma {:induction false} PhaseTells(s: Store, secret: U32, p: Phase, calls: seq<Call>)
    requires Holds(s, secret, p) && NotDrawn(secret, calls)
    ensures Holds(Run(s, calls), secret, PhaseAfter(p, s.lastRefresh, calls))
    decreases |calls|
  {
    if calls != [] {
      var (q, r) := Age(p, s.lastRefresh, calls[0]);
      assert calls[0].draw != secret && calls[0].secondDraw != secret;
      assert forall i :: 0 <= i < |calls| - 1 ==> calls[1..][i] == calls[i + 1];
      PhaseTells(Refresh(s, calls[0]), secret, q, calls[1..]);
    }
  }

  /** A secret that is not gone is still one of the two, even if a draw repeats it. */
  lemma {:induction false} PhaseKeeps(s: Store, secret: U32, p: Phase, calls: seq<Call>)
    requires (p == Current ==> s.curr == secret) && (p == Last ==> s.last == secret)
    ensures PhaseAfter(p, s.lastRefresh, calls) != Gone ==>
              Run(s, calls).curr == secret || Run(s, calls).last == secret
    decreases |calls|
  {
    if calls != [] {
      var (q, r) := Age(p, s.lastRefresh, calls[0]);
      PhaseKeeps(Refresh(s, calls[0]), secret, q, calls[1..]);
    }
  }

  /** The exact rule: with a hash that tells the secrets apart, and secrets that do not repeat, a token issued in
      state `s` is accepted after any further calls if and only if its secret is not gone, which
      depends on nothing but when those calls were made. */
  lemma AcceptedIffNotGone(sha: Sha, s: Store, addr: seq<Byte>, calls: seq<Call>)
    requires Injective(sha, addr) && NotDrawn(s.curr, calls)
    ensures Accepts(sha, Run(s, calls), addr, TokenFor(sha, addr, s.curr))
            <==> PhaseAfter(Current, s.lastRefresh, calls) != Gone
  {
    PhaseTells(s, s.curr, Current, calls);
    var e := Run(s, calls);
    hide TokenFor, Run;
    assert Accepts(sha, e, addr, TokenFor(sha, addr, s.curr)) <==> e.curr == s.curr || e.last == s.curr;
  }

  // ----- runs against the clock -----

  /** Readings never go back, and the second reading of a call follows the first within `lag`. */
  ghost predicate Clocked(from: int, lag: nat, calls: seq<Call>)
    decreases |calls|
  {
    calls != [] ==>
      && from <= calls[0].now <= calls[0].later <= calls[0].now + lag
      && Clocked(calls[0].later, lag, calls[1..])
  }

  lemma {:induction false} LastReadingIsLatest(from: int, lag: nat, calls: seq<Call>)
    requires Clocked(from, lag, calls) && calls != []
    ensures from <= calls[0].now <= calls[|calls| - 1].now
    decreases |calls|
  {
    if |calls| > 1 {
      LastReadingIsLatest(calls[0].later, lag, calls[1..]);
    }
  }

  lemma {:induction false} Survives(p: Phase, lastRefresh: int, from: int, lag: nat, calls: seq<Call>, issued: int)
    requires Clocked(from, lag, calls) && calls != [] && p != Gone
    requires lastRefresh <= from && issued <= from
    requires var end := calls[|calls| - 1].now;
             end - issued < REFRESH && end - lastRefresh < if p == Current then 2 * REFRESH else REFRESH
    ensures PhaseAfter(p, lastRefresh, calls) != Gone
    decreases |calls|
  {
    LastReadingIsLatest(from, lag, calls);
    IntervalsAre(lastRefresh, calls[0].now);
    var (q, r) := Age(p, lastRefresh, calls[0]);
    if |calls| > 1 {
      assert calls[1..][|calls| - 2] == calls[|calls| - 1];
      Survives(q, r, calls[0].later, lag, calls[1..], issued);
    } else {
      assert calls[1..] == [];
    }
  }

  lemma {:induction false} Dies(p: Phase, lastRefresh: int, from: int, lag: nat, calls: seq<Call>)
    requires Clocked(from, lag, calls) && calls != [] && lastRefresh <= from
    requires var end := calls[|calls| - 1].now;
             match p
             case Current => end - lastRefresh >= 3 * REFRESH + lag
             case Last => end - lastRefresh >= REFRESH
             case Gone => true
    ensures PhaseAfter(p, lastRefresh, calls) == Gone
    decreases |calls|
  {
    LastReadingIsLatest(from, lag, calls);
    IntervalsAre(lastRefresh, calls[0].now);
    var (q, r) := Age(p, lastRefresh, calls[0]);
    if |calls| > 1 {
      assert calls[1..][|calls| - 2] == calls[|calls| - 1];
      Dies(q, r, calls[0].later, lag, calls[1..]);
    } else {
      assert calls[1..] == [];
    }
  }

  /** Whatever happens in between, a token is accepted less than 10 minutes after its checkout. */
  lemma AcceptedWithinTenMinutes(sha: Sha, s: Store, addr: seq<Byte>, out: Call, calls: seq<Call>, lag: nat)
    requires s.lastRefresh <= out.now <= out.later && calls != [] && Clocked(out.later, lag, calls)
    requires calls[|calls| - 1].now - out.now < REFRESH
    ensures var issued := Refresh(s, out);
            Accepts(sha, Run(issued, calls), addr, TokenFor(sha, addr, issued.curr))
  {
    var issued := Refresh(s, out);
    IntervalsAre(s.lastRefresh, out.now);
    Survives(Current, issued.lastRefresh, out.later, lag, calls, out.now);
    PhaseKeeps(issued, issued.curr, Current, calls);
  }

  /** A token is refused 30 minutes (and twice the lag) after its checkout, whatever happens in
      between. */
  lemma RefusedAfterThirtyMinutes(sha: Sha, s: Store, addr: seq<Byte>, out: Call, calls: seq<Call>, lag: nat)
    requires Injective(sha, addr)
    requires s.lastRefresh <= out.now <= out.later <= out.now + lag
    requires calls != [] && Clocked(out.later, lag, calls)
    requires calls[|calls| - 1].now - out.now >= 3 * REFRESH + 2 * lag
    requires NotDrawn(Refresh(s, out).curr, calls)
    ensures var issued := Refresh(s, out);
            !Accepts(sha, Run(issued, calls), addr, TokenFor(sha, addr, issued.curr))
  {
    var issued := Refresh(s, out);
    IntervalsAre(s.lastRefresh, out.now);
    Dies(Current, issued.lastRefresh, out.later, lag, calls);
    AcceptedIffNotGone(sha, issued, addr, calls);
  }

  /** The 20 minutes that the store's documentation gives are not an upper bound, and 30 minutes is
      the least one: at every age up to 2 ms short of it, some run accepts a token of that age. */
  lemma AcceptedJustBelowThirty(sha: Sha, s: Store, addr: seq<Byte>, age: nat, draw: U32)
    requires REFRESH <= age <= 3 * REFRESH - 2
    ensures exists calls: seq<Call> :: calls != [] && Clocked(s.lastRefresh, 0, calls)
              && calls[|calls| - 1].now - s.lastRefresh == age
              && Accepts(sha, Run(s, calls), addr, TokenFor(sha, addr, s.curr))
  {
    var t := s.lastRefresh;
    var middle := if age < 2 * REFRESH then age else 2 * REFRESH - 1;
    var first, last := Call(t + middle, t + middle, draw, draw), Call(t + age, t + age, draw, draw);
    var calls := [first, last];
    hide IntervalsPassed, TokenFor;
    IntervalsAre(t, t + middle);
    IntervalsAre(t + middle, t + age);
    assert calls[1..] == [last] && [last][1..] == [];
    assert Clocked(t + age, 0, []);
    assert Clocked(t + middle, 0, [last]);
    var rotated := Refresh(s, first);
    assert rotated == Store(draw, s.curr, t + middle) && Refresh(rotated, last) == rotated;
    assert Run(rotated, [last]) == Run(rotated, []);
    assert Run(s, calls) == rotated;
  }
}
