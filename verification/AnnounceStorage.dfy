/**
 The DHT's store of announced contacts. Contacts expire 24 hours after their last announcement.
 It is checked against `added`, a plain map from contact to the time of its last accepted
 announcement that nothing is ever removed from.
 */
module AnnounceStorage {
  // Only the identity of hashes and addresses matters.
  type InfoHash = nat
  type Address = nat

  const MAX_ITEMS_STORED := 500
  // Milliseconds.
  const EXPIRATION_TIME := 24 * 60 * 60 * 1000

  datatype Item = Item(hash: InfoHash, address: Address, inserted: int)

  function Key(i: Item): (InfoHash, Address) { (i.hash, i.address) }

  predicate Expired(i: Item, now: int) { now - i.inserted >= EXPIRATION_TIME }

  function Keys(es: seq<Item>): set<(InfoHash, Address)> {
    set i | 0 <= i < |es| :: Key(es[i])
  }

  /** No contact twice. */
  ghost predicate Distinct(es: seq<Item>) {
    forall i, j :: 0 <= i < j < |es| ==> Key(es[i]) != Key(es[j])
  }

  ghost predicate SortedByTime(es: seq<Item>) {
    forall i, j :: 0 <= i < j < |es| ==> es[i].inserted <= es[j].inserted
  }

  // ----- lists of contacts -----

  /** `retain`: drops the entries for one contact. */
  function Without(es: seq<Item>, k: (InfoHash, Address)): (r: seq<Item>)
    ensures |r| <= |es|
  {
    if es == [] then []
    else if Key(es[0]) == k then Without(es[1..], k)
    else [es[0]] + Without(es[1..], k)
  }

  lemma {:induction false} WithoutMembers(es: seq<Item>, k: (InfoHash, Address))
    ensures forall x :: x in Without(es, k) <==> x in es && Key(x) != k
  {
    if es != [] {
      WithoutMembers(es[1..], k);
      assert forall x :: x in es <==> x == es[0] || x in es[1..];
      assert forall x :: x in [es[0]] + Without(es[1..], k) <==> x == es[0] || x in Without(es[1..], k);
    }
  }

  lemma {:induction false} WithoutKeeps(es: seq<Item>, k: (InfoHash, Address))
    ensures forall x :: x in Without(es, k) <==> x in es && Key(x) != k
    ensures Distinct(es) ==> Distinct(Without(es, k))
    ensures SortedByTime(es) ==> SortedByTime(Without(es, k))
  {
    WithoutMembers(es, k);
    if es != [] {
      var tail := es[1..];
      WithoutKeeps(tail, k);
      assert es == [es[0]] + tail;
      assert Distinct(es) ==> Distinct(tail);
      assert SortedByTime(es) ==> SortedByTime(tail);
      if Key(es[0]) != k {
        Prepend(es[0], Without(tail, k), tail);
      }
    }
  }

  lemma Prepend(x: Item, r: seq<Item>, tail: seq<Item>)
    requires forall y :: y in r ==> y in tail
    ensures Distinct([x] + tail) && Distinct(r) ==> Distinct([x] + r)
    ensures SortedByTime([x] + tail) && SortedByTime(r) ==> SortedByTime([x] + r)
  {
    if Distinct([x] + tail) && Distinct(r) {
      PrependDistinct(x, r, tail);
    }
    if SortedByTime([x] + tail) && SortedByTime(r) {
      PrependSorted(x, r, tail);
    }
  }

  lemma PrependDistinct(x: Item, r: seq<Item>, tail: seq<Item>)
    requires Distinct([x] + tail) && Distinct(r) && forall y :: y in r ==> y in tail
    ensures Distinct([x] + r)
  {
    forall j | 0 <= j < |r|
      ensures Key(x) != Key(r[j])
    {
      assert r[j] in tail;
      var i :| 0 <= i < |tail| && tail[i] == r[j];
      assert ([x] + tail)[0] == x && ([x] + tail)[i + 1] == r[j];
    }
  }

  lemma PrependSorted(x: Item, r: seq<Item>, tail: seq<Item>)
    requires SortedByTime([x] + tail) && SortedByTime(r) && forall y :: y in r ==> y in tail
    ensures SortedByTime([x] + r)
  {
    forall j | 0 <= j < |r|
      ensures x.inserted <= r[j].inserted
    {
      assert r[j] in tail;
      var i :| 0 <= i < |tail| && tail[i] == r[j];
      assert ([x] + tail)[0] == x && ([x] + tail)[i + 1] == r[j];
    }
  }

  lemma {:induction false} KeysCount(es: seq<Item>)
    requires Distinct(es)
    ensures |Keys(es)| == |es|
    decreases |es|
  {
    if es != [] {
      var n := |es| - 1;
      KeysCount(es[..n]);
      assert Keys(es) == Keys(es[..n]) + {Key(es[n])};
    }
  }

  lemma KeysMember(es: seq<Item>, k: (InfoHash, Address))
    ensures k in Keys(es) <==> exists x :: x in es && Key(x) == k
  {
    if k in Keys(es) {
      var i :| 0 <= i < |es| && Key(es[i]) == k;
      assert es[i] in es;
    }
  }

  // ----- the table by info hash -----

  predicate Has(storage: map<InfoHash, seq<Item>>, k: (InfoHash, Address)) {
    k.0 in storage && k in Keys(storage[k.0])
  }

  /** The table lists exactly the contacts `ks`, each once, under its own hash. */
  ghost predicate Lists(storage: map<InfoHash, seq<Item>>, ks: set<(InfoHash, Address)>) {
    && (forall h :: h in storage ==> storage[h] != [] && Distinct(storage[h]) && AllUnder(storage[h], h))
    && (forall k :: Has(storage, k) <==> k in ks)
  }

  ghost predicate AllUnder(es: seq<Item>, h: InfoHash) {
    forall x :: x in es ==> x.hash == h
  }

  /** What removing one contact leaves of the table. */
  function Removed(storage: map<InfoHash, seq<Item>>, k: (InfoHash, Address)): map<InfoHash, seq<Item>> {
    if k.0 !in storage then storage
    else
      var rest := Without(storage[k.0], k);
      if rest == [] then storage - {k.0} else storage[k.0 := rest]
  }

  lemma RemovedLists(storage: map<InfoHash, seq<Item>>, ks: set<(InfoHash, Address)>, k: (InfoHash, Address))
    requires Lists(storage, ks)
    ensures Lists(Removed(storage, k), ks - {k})
  {
    var r := Removed(storage, k);
    if k.0 in storage {
      WithoutKeeps(storage[k.0], k);
      var rest := Without(storage[k.0], k);
      forall m
        ensures Has(r, m) <==> m in ks - {k}
      {
        assert Has(storage, m) <==> m in ks;
        if m.0 == k.0 {
          KeysMember(storage[k.0], m);
          KeysMember(rest, m);
        }
      }
    } else {
      assert !Has(storage, k);
      assert ks - {k} == ks;
    }
  }

  lemma InsertedLists(storage: map<InfoHash, seq<Item>>, ks: set<(InfoHash, Address)>, x: Item)
    requires Lists(storage, ks) && Key(x) !in ks
    ensures var before := if x.hash in storage then storage[x.hash] else [];
            Lists(storage[x.hash := before + [x]], ks + {Key(x)})
  {
    var before := if x.hash in storage then storage[x.hash] else [];
    var r := storage[x.hash := before + [x]];
    assert !Has(storage, Key(x));
    assert Key(x) !in Keys(before);
    assert Distinct(before + [x]) by {
      assert forall i :: 0 <= i < |before| ==> Key(before[i]) in Keys(before);
    }
    forall m
      ensures Has(r, m) <==> m in ks + {Key(x)}
    {
      assert Has(storage, m) <==> m in ks;
      if m.0 == x.hash {
        KeysMember(before, m);
        KeysMember(before + [x], m);
      }
    }
  }

  // ----- the reference -----

  type Reference = map<(InfoHash, Address), int>

  /** The contacts announced less than 24 hours ago. */
  function Live(added: Reference, now: int): set<(InfoHash, Address)> {
    set k | k in added && now - added[k] < EXPIRATION_TIME
  }

  /** The expiration list holds, in order, exactly the contacts live at `now`. */
  ghost predicate Agrees(es: seq<Item>, added: Reference, now: int) {
    && Distinct(es) && SortedByTime(es)
    && (forall x :: x in es ==> Key(x) in added && added[Key(x)] == x.inserted <= now)
    && (forall k :: k in added && k !in Keys(es) ==> now - added[k] >= EXPIRATION_TIME)
  }

  /** Dropping the expired front of the list leaves exactly the live contacts. */
  lemma PrunedIsLive(es: seq<Item>, n: nat, added: Reference, past: int, now: int)
    requires Agrees(es, added, past) && past <= now && n <= |es|
    requires forall i :: 0 <= i < n ==> Expired(es[i], now)
    requires n < |es| ==> !Expired(es[n], now)
    ensures Agrees(es[n..], added, now)
    ensures Keys(es[n..]) == Live(added, now) && |es[n..]| == |Live(added, now)|
  {
    var r := es[n..];
    forall i, j | 0 <= i < j < |r|
      ensures Key(r[i]) != Key(r[j]) && r[i].inserted <= r[j].inserted
    {
      assert r[i] == es[n + i] && r[j] == es[n + j];
    }
    forall x | x in r
      ensures x in es && !Expired(x, now)
    {
      var i :| 0 <= i < |r| && r[i] == x;
      assert r[i] == es[n + i] && es[n].inserted <= es[n + i].inserted;
    }
    forall j | n <= j < |es|
      ensures Key(es[j]) in Keys(r)
    {
      assert r[j - n] == es[j];
    }
    forall k | k in added && k !in Keys(r)
      ensures now - added[k] >= EXPIRATION_TIME
    {
      if k in Keys(es) {
        var i :| 0 <= i < |es| && Key(es[i]) == k;
        assert es[i] in es;
      }
    }
    forall k
      ensures k in Keys(r) <==> k in Live(added, now)
    {
      KeysMember(r, k);
    }
    KeysCount(r);
  }

  /** An accepted announcement moves the contact to the end of the list. */
  lemma RenewedAgrees(es: seq<Item>, added: Reference, now: int, x: Item)
    requires Agrees(es, added, now) && now <= x.inserted
    ensures Agrees(Without(es, Key(x)) + [x], added[Key(x) := x.inserted], x.inserted)
    ensures Keys(Without(es, Key(x)) + [x]) == Keys(es) + {Key(x)}
  {
    var k, w := Key(x), Without(es, Key(x));
    RenewedKeys(es, x);
    WithoutKeeps(es, k);
    hide Without, Keys, Distinct, SortedByTime;
    AppendNewest(w, x);
  }

  lemma RenewedKeys(es: seq<Item>, x: Item)
    ensures Keys(Without(es, Key(x)) + [x]) == Keys(es) + {Key(x)}
  {
    var k, w := Key(x), Without(es, Key(x));
    WithoutMembers(es, k);
    hide Without;
    forall m
      ensures m in Keys(w + [x]) <==> m in Keys(es) + {k}
    {
      KeysMember(w + [x], m);
      KeysMember(es, m);
      if m in Keys(es) && m != k {
        var y :| y in es && Key(y) == m;
        assert y in w && y in w + [x];
      }
      assert x in w + [x];
    }
  }

  lemma AppendNewest(w: seq<Item>, x: Item)
    requires Distinct(w) && SortedByTime(w)
    requires forall y :: y in w ==> Key(y) != Key(x) && y.inserted <= x.inserted
    ensures Distinct(w + [x]) && SortedByTime(w + [x])
  {
    var r := w + [x];
    forall i, j | 0 <= i < j < |r|
      ensures Key(r[i]) != Key(r[j]) && r[i].inserted <= r[j].inserted
    {
      assert r[i] == w[i] && w[i] in w;
    }
  }

  lemma WithoutAbsent(es: seq<Item>, k: (InfoHash, Address))
    requires k !in Keys(es)
    ensures Without(es, k) == es
  {
    if es != [] {
      assert Key(es[0]) in Keys(es);
      assert forall i :: 0 <= i < |es| - 1 ==> es[1..][i] == es[i + 1];
      assert k !in Keys(es[1..]);
      WithoutAbsent(es[1..], k);
    }
  }

  lemma WithoutShorter(es: seq<Item>, k: (InfoHash, Address))
    requires k in Keys(es)
    ensures |Without(es, k)| < |es|
  {
    if Key(es[0]) != k {
      var i :| 0 <= i < |es| && Key(es[i]) == k;
      assert es[1..][i - 1] == es[i];
      WithoutShorter(es[1..], k);
    }
  }

  lemma AgreesDistinct(es: seq<Item>, added: Reference, now: int)
    requires Agrees(es, added, now)
    ensures Distinct(es)
  {
  }

  lemma DropFirst(es: seq<Item>, i: nat)
    requires Distinct(es) && i < |es|
    ensures Keys(es[i + 1..]) == Keys(es[i..]) - {Key(es[i])}
  {
    var r := es[i..];
    assert r[0] == es[i] && r[1..] == es[i + 1..];
    forall j | 0 < j < |r|
      ensures Key(r[j]) != Key(es[i])
    {
      assert r[j] == es[i + j];
    }
    assert forall j :: 0 <= j < |r| - 1 ==> r[1..][j] == r[j + 1];
  }

  class AnnounceStorage {
    var storage: map<InfoHash, seq<Item>>
    var expires: seq<Item>
    ghost var added: Reference
    // the last moment the store was looked at
    ghost var latest: int

    ghost predicate Valid()
      reads this
    {
      && Agrees(expires, added, latest)
      && Lists(storage, Keys(expires))
      && |expires| <= MAX_ITEMS_STORED
    }

    constructor (now: int)
      ensures Valid() && added == map[] && latest == now
    {
      storage, expires := map[], [];
      added, latest := map[], now;
    }

    method RemoveExpiredItems(now: int)
      requires Valid() && latest <= now
      modifies this
      ensures Valid() && latest == now && added == old(added)
      ensures Keys(expires) == Live(added, now) && |expires| == |Live(added, now)|
    {
      hide Agrees, Lists, Live, Removed;
      var n := 0;
      while n < |expires| && Expired(expires[n], now)
        invariant n <= |expires| && expires == old(expires) && storage == old(storage) && added == old(added)
        invariant forall i :: 0 <= i < n ==> Expired(expires[i], now)
      {
        n := n + 1;
      }
      PrunedIsLive(expires, n, added, latest, now);
      ghost var all := expires;
      assert Distinct(all) by { AgreesDistinct(all, added, latest); }
      for i := 0 to n
        invariant Lists(storage, Keys(all[i..])) && expires == all && added == old(added)
      {
        var k := Key(expires[i]);
        RemovedLists(storage, Keys(all[i..]), k);
        DropFirst(all, i);
        storage := Removed(storage, k);
      }
      expires := expires[n..];
      latest := now;
    }

    /** Whether the contact is listed already, or was inserted, or did not fit. */
    method InsertContact(item: Item) returns (known: bool, ok: bool)
      requires Lists(storage, Keys(expires))
      modifies `storage
      ensures known <==> Key(item) in Keys(expires)
      ensures ok <==> known || |expires| < MAX_ITEMS_STORED
      ensures ok ==> Lists(storage, Keys(expires) + {Key(item)})
      ensures !ok || known ==> storage == old(storage)
    {
      known := item.hash in storage && Key(item) in Keys(storage[item.hash]);
      assert known <==> Has(storage, Key(item));
      hide Lists;
      if known {
        assert Keys(expires) + {Key(item)} == Keys(expires);
        return true, true;
      }
      if |expires| < MAX_ITEMS_STORED {
        InsertedLists(storage, Keys(expires), item);
        var items := if item.hash in storage then storage[item.hash] else [];
        storage := storage[item.hash := items + [item]];
        return false, true;
      }
      return false, false;
    }

    /** An announcement at `now`, stamped at `stamp`: it is refused exactly when the contact is not
        live and as many as fit are. */
    method Add(hash: InfoHash, address: Address, now: int, stamp: int) returns (ok: bool)
      requires Valid() && latest <= now <= stamp
      modifies this
      ensures Valid()
      ensures ok <==> (hash, address) in Live(old(added), now) || |Live(old(added), now)| < MAX_ITEMS_STORED
      ensures added == if ok then old(added)[(hash, address) := stamp] else old(added)
      ensures latest == if ok then stamp else now
    {
      RemoveExpiredItems(now);
      var item := Item(hash, address, stamp);
      hide Agrees, Lists, Live;
      var known;
      known, ok := InsertContact(item);
      if ok {
        RenewedAgrees(expires, added, latest, item);
        if known {
          WithoutShorter(expires, Key(item));
          expires := Without(expires, Key(item));
          expires := expires + [item];
        } else {
          WithoutAbsent(expires, Key(item));
          expires := expires + [item];
        }
        added := added[Key(item) := stamp];
        latest := stamp;
      }
    }

    /** The contacts announced for `hash` less than 24 hours ago, each once. */
    method Find(hash: InfoHash, now: int) returns (found: seq<Address>)
      requires Valid() && latest <= now
      modifies this
      ensures Valid() && added == old(added) && latest == now
      ensures forall a :: a in found <==> (hash, a) in Live(added, now)
      ensures forall i, j :: 0 <= i < j < |found| ==> found[i] != found[j]
    {
      RemoveExpiredItems(now);
      found := [];
      assert forall a: Address :: Has(storage, (hash, a)) <==> (hash, a) in Live(added, now);
      if hash in storage {
        assert AllUnder(storage[hash], hash);
        found := Addresses(storage[hash], hash);
      }
    }
  }

  /** Hands out the address of each item of one hash. */
  method Addresses(items: seq<Item>, hash: InfoHash) returns (found: seq<Address>)
    requires AllUnder(items, hash) && Distinct(items)
    ensures forall a :: a in found <==> (hash, a) in Keys(items)
    ensures forall i, j :: 0 <= i < j < |found| ==> found[i] != found[j]
  {
    found := [];
    for i := 0 to |items|
      invariant |found| == i && forall j :: 0 <= j < i ==> found[j] == items[j].address
    {
      found := found + [items[i].address];
    }
    assert forall i :: 0 <= i < |items| ==> items[i] in items && items[i].hash == hash;
    forall a
      ensures a in found <==> (hash, a) in Keys(items)
    {
      if (hash, a) in Keys(items) {
        var i :| 0 <= i < |items| && Key(items[i]) == (hash, a);
        assert found[i] == a;
      }
      if a in found {
        var i :| 0 <= i < |found| && found[i] == a;
        assert Key(items[i]) == (hash, a);
      }
    }
    forall i, j | 0 <= i < j < |found|
      ensures found[i] != found[j]
    {
      assert Key(items[i]) != Key(items[j]);
    }
  }
}
