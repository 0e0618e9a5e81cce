/**
 The timer queue: a sorted queue of timeouts with its head cached while a sleep for it is running.
 The sleep is ready once the clock reading of the poll has reached its deadline.
 */
module Timer {
  import opened Wrappers

  datatype Timeout = Timeout(deadline: int, id: nat)

  /** The derived order: by deadline, then by id. */
  predicate Below(a: Timeout, b: Timeout) {
    a.deadline < b.deadline || (a.deadline == b.deadline && a.id < b.id)
  }

  datatype Entry<+T> = Entry(key: Timeout, value: T)
  datatype Polled<+T> = Ready(value: T) | Pending | Finished

  const IDS := 0x1_0000_0000_0000_0000

  ghost predicate IsLeast(k: Timeout, ks: set<Timeout>) {
    k in ks && forall other :: other in ks && other != k ==> Below(k, other)
  }

  /** The first key of an ordered map. */
  method FirstKey<T>(queue: map<Timeout, T>) returns (k: Timeout)
    requires queue.Keys != {}
    ensures IsLeast(k, queue.Keys)
  {
    var rest := queue.Keys;
    k :| k in rest;
    rest := rest - {k};
    while rest != {}
      invariant k in queue.Keys && rest <= queue.Keys && k !in rest
      invariant forall other :: other in queue.Keys && other !in rest && other != k ==> Below(k, other)
      decreases |rest|
    {
      var next :| next in rest;
      rest := rest - {next};
      if Below(next, k) {
        k := next;
      }
    }
  }

  function EmittedSet(emitted: seq<Timeout>): set<Timeout> { set k | k in emitted }

  /** Every key of `all` is waiting, or was emitted once, or was cancelled. */
  ghost predicate Accounted(all: set<Timeout>, waiting: set<Timeout>, emitted: seq<Timeout>, cancelled: set<Timeout>) {
    && all == waiting + EmittedSet(emitted) + cancelled
    && waiting !! EmittedSet(emitted) && waiting !! cancelled && EmittedSet(emitted) !! cancelled
    && forall i, j :: 0 <= i < j < |emitted| ==> emitted[i] != emitted[j]
  }

  lemma AccountEmitted(all: set<Timeout>, waiting: set<Timeout>, emitted: seq<Timeout>, cancelled: set<Timeout>, k: Timeout)
    requires Accounted(all, waiting, emitted, cancelled) && k in waiting
    ensures Accounted(all, waiting - {k}, emitted + [k], cancelled)
  {
    assert EmittedSet(emitted + [k]) == EmittedSet(emitted) + {k};
    assert forall i :: 0 <= i < |emitted| ==> emitted[i] in EmittedSet(emitted);
  }

  lemma AccountCancelled(all: set<Timeout>, waiting: set<Timeout>, emitted: seq<Timeout>, cancelled: set<Timeout>, k: Timeout)
    requires Accounted(all, waiting, emitted, cancelled) && k in waiting
    ensures Accounted(all, waiting - {k}, emitted, cancelled + {k})
  {
  }

  lemma AccountScheduled(all: set<Timeout>, waiting: set<Timeout>, emitted: seq<Timeout>, cancelled: set<Timeout>, k: Timeout)
    requires Accounted(all, waiting, emitted, cancelled) && k !in all
    ensures Accounted(all + {k}, waiting + {k}, emitted, cancelled)
  {
  }

  /** Ids were given out in order and never reused. */
  ghost predicate OwnIds(all: set<Timeout>, nextId: nat) {
    && (forall k :: k in all ==> k.id < nextId)
    && (forall k, m :: k in all && m in all && k.id == m.id ==> k == m)
  }

  lemma IdsGrow(all: set<Timeout>, k: Timeout)
    requires OwnIds(all, k.id)
    ensures OwnIds(all + {k}, k.id + 1) && k !in all
  {
  }

  class Timer<T> {
    var nextId: nat
    var current: Option<Entry<T>>
    var queue: map<Timeout, T>

    // how many timeouts were scheduled, all of them, what was emitted, in order, and what was cancelled
    ghost var count: nat
    ghost var scheduled: map<Timeout, T>
    ghost var emitted: seq<Timeout>
    ghost var cancelled: set<Timeout>

    ghost function Waiting(): set<Timeout>
      reads this
    {
      queue.Keys + if current.Some? then {current.value.key} else {}
    }

    ghost predicate Valid()
      reads this
    {
      && ValidHead() && ValidQueue() && OwnIds(scheduled.Keys, count) && nextId == count % IDS
      && Accounted(scheduled.Keys, Waiting(), emitted, cancelled)
    }

    /** The cached head comes before everything queued. */
    ghost predicate ValidHead()
      reads `current, `queue, `scheduled
    {
      current.Some? ==>
        && current.value.key in scheduled && current.value.value == scheduled[current.value.key]
        && forall k :: k in queue ==> Below(current.value.key, k)
    }

    ghost predicate ValidQueue()
      reads `queue, `scheduled
    {
      forall k :: k in queue ==> k in scheduled && queue[k] == scheduled[k]
    }

    constructor ()
      ensures Valid() && count == 0 && scheduled == map[] && emitted == [] && cancelled == {}
    {
      nextId, current, queue := 0, None, map[];
      count, scheduled, emitted, cancelled := 0, map[], [], {};
    }

    method IsEmpty() returns (empty: bool)
      requires Valid()
      ensures empty <==> Waiting() == {}
    {
      empty := current.None? && queue.Keys == {};
    }

    /** Up to 2^64 timeouts are scheduled, so that no two have the same id. */
    method ScheduleAt(deadline: int, value: T) returns (key: Timeout)
      requires Valid() && count < IDS
      modifies this
      ensures Valid() && key == Timeout(deadline, old(nextId)) && key !in old(scheduled) && count == old(count) + 1
      ensures scheduled == old(scheduled)[key := value] && Waiting() == old(Waiting()) + {key}
      ensures emitted == old(emitted) && cancelled == old(cancelled)
    {
      hide ValidHead, ValidQueue, OwnIds, Accounted;
      PushBack(deadline);
      key := Timeout(deadline, nextId);
      nextId := (nextId + 1) % IDS;
      count := count + 1;
      Enqueue(key, value, old(count));
    }

    method Enqueue(key: Timeout, value: T, ghost id: nat)
      requires ValidHead() && ValidQueue() && OwnIds(scheduled.Keys, id)
      requires Accounted(scheduled.Keys, Waiting(), emitted, cancelled)
      requires key.id == id && count == id + 1 && nextId == count % IDS
      requires current.Some? ==> current.value.key.deadline <= key.deadline
      modifies `queue, `scheduled
      ensures Valid() && key !in old(scheduled)
      ensures scheduled == old(scheduled)[key := value] && Waiting() == old(Waiting()) + {key}
    {
      IdsGrow(scheduled.Keys, key);
      AccountScheduled(scheduled.Keys, Waiting(), emitted, cancelled, key);
      assert current.Some? ==> current.value.key.id < key.id;
      hide Accounted, OwnIds, ValidHead, ValidQueue;
      Insert(key, value);
    }

    method Insert(key: Timeout, value: T)
      requires ValidHead() && ValidQueue() && key !in scheduled
      requires current.Some? ==> Below(current.value.key, key)
      modifies `queue, `scheduled
      ensures ValidHead() && ValidQueue() && scheduled == old(scheduled)[key := value]
      ensures scheduled.Keys == old(scheduled.Keys) + {key} && Waiting() == old(Waiting()) + {key}
    {
      hide Below;
      queue := queue[key := value];
      scheduled := scheduled[key := value];
      assert queue.Keys == old(queue.Keys) + {key};
    }

    /** A head that is later than the new deadline goes back into the queue. */
    method PushBack(deadline: int)
      requires Valid()
      modifies `current, `queue
      ensures Valid() && Waiting() == old(Waiting())
      ensures current.Some? ==> current.value.key.deadline <= deadline
    {
      hide Accounted, OwnIds;
      if current.Some? && deadline < current.value.key.deadline {
        var head := current.value;
        current := None;
        queue := queue[head.key := head.value];
        assert Waiting() == old(Waiting());
      }
    }

    /** Cancels a timeout if and only if it is still waiting. */
    method Cancel(timeout: Timeout) returns (found: bool)
      requires Valid()
      modifies this
      ensures Valid() && (found <==> timeout in old(Waiting()))
      ensures Waiting() == old(Waiting()) - {timeout}
      ensures cancelled == if found then old(cancelled) + {timeout} else old(cancelled)
      ensures emitted == old(emitted) && scheduled == old(scheduled)
    {
      if timeout in Waiting() {
        AccountCancelled(scheduled.Keys, Waiting(), emitted, cancelled, timeout);
      }
      hide Accounted, OwnIds, Below;
      ghost var was := Waiting();
      found := Discard(timeout);
      if found {
        cancelled := cancelled + {timeout};
      } else {
        assert was - {timeout} == was;
      }
    }

    method Discard(timeout: Timeout) returns (found: bool)
      requires ValidHead() && ValidQueue()
      modifies `current, `queue
      ensures ValidHead() && ValidQueue() && (found <==> timeout in old(Waiting()))
      ensures Waiting() == old(Waiting()) - {timeout}
    {
      if current.Some? && current.value.key == timeout {
        assert timeout !in queue;
        current := None;
        assert queue.Keys == (queue.Keys + {timeout}) - {timeout};
        return true;
      }
      hide Below;
      found := timeout in queue;
      queue := queue - {timeout};
      assert queue.Keys == old(queue.Keys) - {timeout};
    }

    /** Emits the least waiting timeout once its deadline is reached, and nothing else. */
    method PollNext(now: int) returns (r: Polled<T>)
      requires Valid()
      modifies this
      ensures Valid() && scheduled == old(scheduled) && cancelled == old(cancelled)
      ensures r.Finished? <==> old(Waiting()) == {}
      ensures r.Ready? ==>
                && |emitted| == |old(emitted)| + 1 && emitted[..|old(emitted)|] == old(emitted)
                && var k := emitted[|old(emitted)|];
                   && IsLeast(k, old(Waiting())) && k.deadline <= now && r.value == scheduled[k]
                   && Waiting() == old(Waiting()) - {k}
      ensures !r.Ready? ==> Waiting() == old(Waiting()) && emitted == old(emitted)
      ensures r.Pending? ==> forall k :: k in old(Waiting()) ==> now < k.deadline
    {
      hide Accounted, OwnIds;
      if current.None? {
        if queue.Keys == {} {
          return Finished;
        }
        LoadHead();
      }
      var head := current.value;
      assert IsLeast(head.key, Waiting());
      if head.key.deadline <= now {
        Emit();
        return Ready(head.value);
      }
      return Pending;
    }

    method Emit()
      requires Valid() && current.Some?
      modifies this
      ensures Valid() && scheduled == old(scheduled) && cancelled == old(cancelled)
      ensures emitted == old(emitted) + [old(current.value.key)]
      ensures Waiting() == old(Waiting()) - {old(current.value.key)}
    {
      ghost var k := current.value.key;
      AccountEmitted(scheduled.Keys, Waiting(), emitted, cancelled, k);
      hide Accounted, OwnIds;
      emitted := emitted + [k];
      current := None;
      assert Waiting() == old(Waiting()) - {k};
    }

    method LoadHead()
      requires Valid() && current.None? && queue.Keys != {}
      modifies `current, `queue
      ensures Valid() && current.Some? && Waiting() == old(Waiting())
    {
      hide Accounted, OwnIds;
      var k := FirstKey(queue);
      var v := queue[k];
      queue := queue - {k};
      current := Some(Entry(k, v));
      assert Waiting() == old(Waiting());
    }

    /** Conservation: everything scheduled was emitted, was cancelled or is waiting. */
    lemma Accounts()
      requires Valid()
      ensures Accounted(scheduled.Keys, Waiting(), emitted, cancelled)
      ensures |scheduled| == |emitted| + |cancelled| + |Waiting()|
    {
      CountDistinct(emitted);
      assert |scheduled.Keys| == |Waiting() + EmittedSet(emitted)| + |cancelled|;
    }
  }

  lemma {:induction false} CountDistinct(s: seq<Timeout>)
    requires forall i, j :: 0 <= i < j < |s| ==> s[i] != s[j]
    ensures |EmittedSet(s)| == |s|
    decreases |s|
  {
    if s != [] {
      var n := |s| - 1;
      CountDistinct(s[..n]);
      assert s == s[..n] + [s[n]];
      assert EmittedSet(s) == EmittedSet(s[..n]) + {s[n]};
    }
  }
}
