/**
 Transaction ids of the DHT: ids are handed out from shuffled blocks of consecutive numbers, for
 actions (5 bytes) and, within each action, for messages (3 bytes).
 */
module TransactionIds {
  import opened Bytes
  import opened Sequences

  const MAX_ACTION_ID := 0x100_0000_0000
  const MAX_MESSAGE_ID := 0x100_0000
  const PREALLOC_LEN := 2048

  // ----- shuffling -----

  /** Fisher-Yates, with the random draws given: a permutation, whatever they are. */
  method FisherShuffle(list: array<nat>, draws: seq<nat>)
    requires |draws| == list.Length
    modifies list
    ensures multiset(list[..]) == old(multiset(list[..]))
  {
    for i := 0 to list.Length
      invariant multiset(list[..]) == old(multiset(list[..]))
    {
      var swap := draws[i] % (list.Length - i) + i;
      Swap(list, i, swap);
    }
  }

  /** The exchange by way of default values, also when both indices are the same. */
  method Swap(list: array<nat>, i: nat, j: nat)
    requires i <= j < list.Length
    modifies list
    ensures multiset(list[..]) == old(multiset(list[..]))
    ensures list[..] == Swapped(old(list[..]), i, j)
  {
    ghost var s := list[..];
    var source := list[i];
    list[i] := 0;
    var target := list[j];
    list[j] := 0;
    list[i] := target;
    list[j] := source;
    forall k | 0 <= k < |s|
      ensures list[k] == Swapped(s, i, j)[k]
    {
    }
    assert list[..] == Swapped(s, i, j);
    SwappedIsPermutation(s, i, j);
  }

  function Swapped(s: seq<nat>, i: nat, j: nat): seq<nat>
    requires i < |s| && j < |s|
  {
    s[i := s[j]][j := s[i]]
  }

  lemma SwappedIsPermutation(s: seq<nat>, i: nat, j: nat)
    requires i < |s| && j < |s|
    ensures multiset(Swapped(s, i, j)) == multiset(s)
  {
  }

  // ----- blocks -----

  /** `block` is a permutation of the numbers from `first` on. */
  ghost predicate IsBlock(block: seq<nat>, first: nat) {
    && (forall i :: 0 <= i < |block| ==> first <= block[i] < first + |block|)
    && (forall i, j :: 0 <= i < j < |block| ==> block[i] != block[j])
  }

  lemma {:induction false} DistinctFromMultiset(s: seq<nat>)
    requires forall x :: multiset(s)[x] <= 1
    ensures forall i, j :: 0 <= i < j < |s| ==> s[i] != s[j]
    decreases |s|
  {
    if s != [] {
      var n := |s| - 1;
      assert s == s[..n] + [s[n]];
      forall x
        ensures multiset(s[..n])[x] <= 1
      {
        assert multiset(s)[x] >= multiset(s[..n])[x];
      }
      DistinctFromMultiset(s[..n]);
      forall i | 0 <= i < n
        ensures s[i] != s[n]
      {
        assert s[i] in multiset(s[..n]);
        assert multiset(s)[s[n]] == multiset(s[..n])[s[n]] + 1;
      }
    }
  }

  lemma {:induction false} OnceEach(s: seq<nat>, first: nat)
    requires forall i :: 0 <= i < |s| ==> s[i] == first + i
    ensures forall x :: multiset(s)[x] <= 1
    decreases |s|
  {
    if s != [] {
      var n := |s| - 1;
      assert s == s[..n] + [s[n]];
      OnceEach(s[..n], first);
      assert forall i :: 0 <= i < n ==> s[..n][i] != s[n];
      assert s[n] !in multiset(s[..n]);
    }
  }

  lemma ShuffledIsBlock(s: seq<nat>, t: seq<nat>, first: nat)
    requires forall i :: 0 <= i < |s| ==> s[i] == first + i
    requires multiset(t) == multiset(s)
    ensures |t| == |s| && IsBlock(t, first)
  {
    assert |multiset(t)| == |t| && |multiset(s)| == |s|;
    OnceEach(s, first);
    DistinctFromMultiset(t);
    forall i | 0 <= i < |t|
      ensures first <= t[i] < first + |t|
    {
      assert t[i] in multiset(t);
      assert t[i] in multiset(s);
      assert t[i] in s;
    }
  }

  /** Numbers below `limit`, none twice. */
  ghost predicate Unrepeated(s: seq<nat>, limit: nat) {
    && (forall i :: 0 <= i < |s| ==> s[i] < limit)
    && (forall i, j :: 0 <= i < j < |s| ==> s[i] != s[j])
  }

  lemma AppendBlock(done: seq<nat>, block: seq<nat>, first: nat)
    requires Unrepeated(done, first) && IsBlock(block, first)
    ensures Unrepeated(done + block, first + |block|)
  {
  }

  /** Full rounds through all ids. */
  ghost predicate Rounds(rounds: seq<seq<nat>>, max: nat) {
    forall k :: 0 <= k < |rounds| ==> |rounds[k]| == max && Unrepeated(rounds[k], max)
  }

  /** A source of ids below `max`, handed out from shuffled blocks of `len`; `max` is a multiple of
      `len`. */
  class IdBlocks {
    const max: nat
    const len: nat
    var nextAlloc: nat
    var currIndex: nat
    var ids: seq<nat>
    // how many blocks there are and how many this round has used; the full rounds so far, the ids of
    // this round before the current block, and all ids handed out
    ghost const count: nat
    ghost var allotted: nat
    ghost var rounds: seq<seq<nat>>
    ghost var done: seq<nat>
    ghost var issued: seq<nat>

    ghost predicate Valid()
      reads this
    {
      && 0 < len && IsMultiple(max, count, len) && 0 < count
      && currIndex <= |ids| == len
      && IsMultiple(nextAlloc, allotted, len) && allotted <= count
      && Rounds(rounds, max)
      && (allotted == 0 ==> nextAlloc == 0 && rounds == [] && done == [] && issued == [] && currIndex == len)
      && (allotted > 0 ==>
            && len <= nextAlloc && |done| == nextAlloc - len
            && Unrepeated(done, nextAlloc - len) && IsBlock(ids, nextAlloc - len)
            && issued == Flatten(rounds) + (done + ids[..currIndex]))
    }

    /** `MIDGenerator::new`: the first block is made when it is needed. */
    constructor (limit: nat, blockLen: nat, ghost blocks: nat)
      requires 0 < blockLen && 0 < blocks && IsMultiple(limit, blocks, blockLen)
      ensures Valid() && issued == [] && max == limit && len == blockLen && currIndex == len
    {
      max, len, count, allotted := limit, blockLen, blocks, 0;
      nextAlloc, currIndex, ids := 0, blockLen, seq(blockLen, _ => 0);
      rounds, done, issued := [], [], [];
    }

    /** A shuffled block of the numbers from `first` on. */
    method Block(first: nat, draws: seq<nat>) returns (block: seq<nat>)
      requires |draws| == len
      ensures |block| == len && IsBlock(block, first)
    {
      var list := new nat[len];
      for i := 0 to len
        invariant forall j :: 0 <= j < i ==> list[j] == first + j
      {
        list[i] := first + i;
      }
      ghost var inOrder := list[..];
      FisherShuffle(list, draws);
      block := list[..];
      ShuffledIsBlock(inOrder, block, first);
    }

    /** Allocates and shuffles the next block; whether to wrap is decided by comparing for equality. */
    method Refill(draws: seq<nat>)
      requires Valid() && currIndex == len && |draws| == len
      modifies this
      ensures Valid() && currIndex == 0 && issued == old(issued)
    {
      hide Unrepeated, IsBlock, Rounds, Flatten, IsMultiple;
      var first := if nextAlloc == max then 0 else nextAlloc;
      var block := Block(first, draws);
      NextFits(nextAlloc, allotted, max, count, len);
      if nextAlloc == max {
        FinishRound();
        allotted := 1;
      } else {
        FinishBlock();
        allotted := allotted + 1;
      }
      nextAlloc := first + len;
      ids := block;
      currIndex := 0;
      assert done + block[..0] == done;
    }

    /** The last block of a round is used up. */
    ghost method FinishRound()
      requires Valid() && currIndex == len && nextAlloc == max && allotted > 0
      modifies `rounds, `done
      ensures Rounds(rounds, max) && done == [] && issued == Flatten(rounds) + done && Unrepeated(done, 0)
    {
      hide Unrepeated, IsBlock, Rounds, Flatten, IsMultiple;
      assert ids[..len] == ids;
      AppendBlock(done, ids, nextAlloc - len);
      RoundsSnoc(rounds, done + ids, max);
      FlattenSnoc(rounds, done + ids);
      NothingDone();
      rounds := rounds + [done + ids];
      done := [];
      assert issued + [] == issued;
    }

    /** Another block of a round is used up, or the first one is still to come. */
    ghost method FinishBlock()
      requires Valid() && currIndex == len
      modifies `done
      ensures |done| == nextAlloc && Unrepeated(done, nextAlloc) && issued == Flatten(rounds) + done
    {
      hide Unrepeated, IsBlock, Rounds, Flatten, IsMultiple;
      NothingDone();
      if allotted > 0 {
        assert ids[..len] == ids;
        AppendBlock(done, ids, nextAlloc - len);
        done := done + ids;
      }
    }

    method Generate(draws: seq<nat>) returns (id: nat)
      requires Valid() && |draws| == len
      modifies this
      ensures Valid() && issued == old(issued) + [id] && id < max
    {
      if currIndex == len {
        Refill(draws);
      }
      id := ids[currIndex];
      NextFits(nextAlloc, allotted, max, count, len);
      hide Rounds, Unrepeated, Flatten, IsMultiple;
      assert ids[..currIndex + 1] == ids[..currIndex] + [id];
      IssueNext(Flatten(rounds), done, ids[..currIndex], id);
      currIndex := currIndex + 1;
      issued := issued + [id];
    }

    /** No id is handed out twice before `max` ids have been, and all are below `max`. */
    lemma NoRepeats()
      requires Valid() && |issued| <= max
      ensures Unrepeated(issued, max)
    {
      hide IsMultiple;
      NextFits(nextAlloc, allotted, max, count, len);
      if allotted > 0 {
        AppendBlock(done, ids, nextAlloc - len);
        hide IsBlock, Flatten;
        var current := done + ids[..currIndex];
        PrefixUnrepeated(done, ids, currIndex, nextAlloc, max);
        if rounds == [] {
          NothingDone();
          assert issued == current;
        } else {
          OneRound(rounds, max, current);
          assert issued == rounds[0];
        }
      }
    }
  }

  lemma NothingDone()
    ensures Flatten<nat>([]) == [] && Unrepeated([], 0)
  {
  }

  lemma RoundsSnoc(rounds: seq<seq<nat>>, round: seq<nat>, max: nat)
    requires Rounds(rounds, max) && |round| == max && Unrepeated(round, max)
    ensures Rounds(rounds + [round], max)
  {
  }

  lemma IssueNext(a: seq<nat>, b: seq<nat>, c: seq<nat>, x: nat)
    ensures a + (b + (c + [x])) == (a + (b + c)) + [x]
  {
  }

  lemma TwoRoundsAreLong(rounds: seq<seq<nat>>, max: nat)
    requires Rounds(rounds, max) && max > 0
    ensures |rounds| > 1 ==> |Flatten(rounds)| > max
  {
    if |rounds| > 1 {
      var n := |rounds| - 1;
      assert |rounds[n]| == max && |rounds[n - 1]| == max;
      assert |Flatten(rounds[..n])| >= |rounds[..n][n - 1]|;
    }
  }

  lemma OneRound(rounds: seq<seq<nat>>, max: nat, current: seq<nat>)
    requires Rounds(rounds, max) && rounds != [] && max > 0 && |Flatten(rounds) + current| <= max
    ensures |rounds| == 1 && current == [] && Flatten(rounds) == rounds[0]
  {
    assert |rounds[|rounds| - 1]| == max;
    TwoRoundsAreLong(rounds, max);
  }

  lemma PrefixUnrepeated(done: seq<nat>, ids: seq<nat>, k: nat, limit: nat, max: nat)
    requires Unrepeated(done + ids, limit) && k <= |ids| && limit <= max
    ensures Unrepeated(done + ids[..k], max)
  {
    var s, r := done + ids, done + ids[..k];
    assert r == s[..|done| + k];
  }

  /** x is k times `len`. */
  ghost predicate IsMultiple(x: nat, k: nat, len: nat) { x == k * len }

  lemma MulMonotone(x: nat, y: nat, len: nat)
    requires x <= y
    ensures x * len <= y * len
  {
  }

  /** Because `max` is a multiple of the block length, a block that does not start at `max` fits. */
  lemma NextFits(next: nat, k: nat, max: nat, count: nat, len: nat)
    requires 0 < len && IsMultiple(next, k, len) && IsMultiple(max, count, len) && k <= count && 0 < count
    ensures next == max ==> k == count && 0 < k
    ensures next != max ==> next + len <= max && k < count && IsMultiple(next + len, k + 1, len)
    ensures next <= max && len <= max && IsMultiple(len, 1, len)
  {
    MulMonotone(k, count, len);
    MulMonotone(1, count, len);
    assert (k + 1) * len == k * len + len;
    if k < count {
      MulMonotone(k + 1, count, len);
    }
  }

  // ----- transaction ids -----

  /** `action << 24 | message`: the shifted action leaves the low 24 bits free. */
  function TransactionId(action: nat, message: nat): nat { action * MAX_MESSAGE_ID + message }

  function ActionOf(id: nat): nat { id / MAX_MESSAGE_ID }
  function MessageOf(id: nat): nat { id % MAX_MESSAGE_ID }

  /** Action and message are recovered from the id, and the id from its eight bytes. */
  lemma IdsAreRecovered(action: nat, message: nat)
    requires action < MAX_ACTION_ID && message < MAX_MESSAGE_ID
    ensures var id := TransactionId(action, message);
            ActionOf(id) == action && MessageOf(id) == message && FromBe(Be(id, 8)) == id
  {
    var id := TransactionId(action, message);
    assert id < 0x1_0000_0000_0000_0000;
    RoundTrip64(id);
  }

  /** `TransactionID::from_bytes`. */
  method IdFromBytes(bytes: seq<Byte>) returns (found: bool, id: nat)
    ensures found <==> |bytes| == 8
    ensures found ==> id == FromBe(bytes) && Be(id, 8) == bytes
  {
    if |bytes| != 8 {
      return false, 0;
    }
    id := 0;
    for i := 0 to |bytes|
      invariant id == FromBe(bytes[..i])
    {
      assert bytes[..i + 1][..i] == bytes[..i];
      id := id * 256 + bytes[i];
    }
    assert bytes[..|bytes|] == bytes;
    BeOfFromBe(bytes);
    found := true;
  }

  /** `AIDGenerator` and its `MIDGenerator`s, driven by any schedule of new actions and messages. */
  class Generator {
    const actionIds: IdBlocks
    // one message generator per action, in order of creation
    var actions: seq<nat>
    var messageIds: seq<IdBlocks>

    ghost predicate Valid()
      reads this, actionIds, messageIds
    {
      && actionIds.Valid() && actionIds.max == MAX_ACTION_ID && actionIds.len == PREALLOC_LEN
      && actions == actionIds.issued && |messageIds| == |actions|
      && (forall i :: 0 <= i < |messageIds| ==>
            && messageIds[i].Valid() && messageIds[i] != actionIds
            && messageIds[i].max == MAX_MESSAGE_ID && messageIds[i].len == PREALLOC_LEN)
      && (forall i, j :: 0 <= i < j < |messageIds| ==> messageIds[i] != messageIds[j])
    }

    /** `AIDGenerator::new`: the first block is made at once. */
    constructor (draws: seq<nat>)
      requires |draws| == PREALLOC_LEN
      ensures Valid() && fresh(actionIds) && actions == [] && messageIds == []
    {
      actionIds := new IdBlocks(MAX_ACTION_ID, PREALLOC_LEN, MAX_ACTION_ID / PREALLOC_LEN);
      actions, messageIds := [], [];
      new;
      actionIds.Refill(draws);
    }

    /** `AIDGenerator::generate`. */
    method NewAction(draws: seq<nat>) returns (k: nat)
      requires Valid() && |draws| == PREALLOC_LEN
      modifies this, actionIds
      ensures Valid() && k == old(|actions|) && |actions| == k + 1 && actions[..k] == old(actions)
      ensures messageIds[..k] == old(messageIds) && fresh(messageIds[k]) && messageIds[k].issued == []
    {
      k := |actions|;
      var id := actionIds.Generate(draws);
      var mids := new IdBlocks(MAX_MESSAGE_ID, PREALLOC_LEN, MAX_MESSAGE_ID / PREALLOC_LEN);
      actions := actions + [id];
      messageIds := messageIds + [mids];
    }

    /** `MIDGenerator::generate` for the k-th action. */
    method NewMessage(k: nat, draws: seq<nat>) returns (id: nat)
      requires Valid() && k < |actions| && |draws| == PREALLOC_LEN
      modifies messageIds[k]
      ensures Valid()
      ensures exists m: nat :: m < MAX_MESSAGE_ID && messageIds[k].issued == old(messageIds[k].issued) + [m]
                          && id == TransactionId(actions[k], m)
    {
      var m := messageIds[k].Generate(draws);
      id := TransactionId(actions[k], m);
    }

    /** In every reachable state with at most 2^40 actions and 2^24 messages each, all transaction ids
        handed out differ, and so do their bytes. */
    lemma AllDiffer(a: nat, m: nat, b: nat, n: nat)
      requires Valid() && |actions| <= MAX_ACTION_ID
      requires forall i :: 0 <= i < |messageIds| ==> |messageIds[i].issued| <= MAX_MESSAGE_ID
      requires a < |actions| && m < |messageIds[a].issued| && b < |actions| && n < |messageIds[b].issued|
      requires (a, m) != (b, n)
      ensures var x, y := TransactionId(actions[a], messageIds[a].issued[m]), TransactionId(actions[b], messageIds[b].issued[n]);
              x != y && Be(x, 8) != Be(y, 8)
    {
      actionIds.NoRepeats();
      messageIds[a].NoRepeats();
      messageIds[b].NoRepeats();
      IdsAreRecovered(actions[a], messageIds[a].issued[m]);
      IdsAreRecovered(actions[b], messageIds[b].issued[n]);
    }
  }
}
