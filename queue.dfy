/** The per-message action lock. A key (a message timestamp) sits in the
    queue while an Accept or Reject click on that message is being handled;
    a second click on the same message is refused meanwhile. Timers are
    abstract events: scheduling one records its callback under a fresh id,
    cancelling it forgets the id, and the event loop runs a pending callback
    by calling `Fire`. */
module Queue {
  import opened Seqs

  /** Delay of the expiry removal scheduled when a key is pushed. */
  const EXPIRY_MS: nat := 5000
  /** Delay of the removal scheduled when a click's handling ends. */
  const GRACE_MS: nat := 3000

  /** A scheduled callback: after `delayMs`, remove `key` from the queue. */
  datatype Removal = Removal(key: string, delayMs: nat)

  class ActionQueue {
    /** `ACTION_QUEUE`: the keys currently held, in push order. */
    var queue: seq<string>
    /** `TIMEOUT_ID`: the expiry timer registered for a key. */
    var timeoutId: map<string, nat>
    /** The callbacks scheduled and not yet run or cancelled, by timer id. */
    var timers: map<nat, Removal>
    /** The id the next scheduled timer gets. */
    var nextTimer: nat

    /** No key is held twice; timer ids are never reused; an id registered in
        `timeoutId` names, while it is pending, that key's expiry removal; and
        every held key has some removal pending, so no key stays locked
        forever. */
    ghost predicate Valid()
      reads this
    {
      && NoDup(queue)
      && (forall id :: id in timers ==> id < nextTimer)
      && (forall k :: k in timeoutId ==> timeoutId[k] < nextTimer)
      && (forall k :: k in timeoutId && timeoutId[k] in timers ==> timers[timeoutId[k]] == Removal(k, EXPIRY_MS))
      && (forall k :: k in queue ==> PendingRemoval(k))
    }

    /** Some scheduled callback will remove `key`. */
    ghost predicate PendingRemoval(key: string)
      reads this
    {
      exists id :: id in timers && timers[id].key == key
    }

    /** The module-level state at start-up: nothing held, nothing scheduled. */
    constructor ()
      ensures Valid()
      ensures queue == [] && timeoutId == map[] && timers == map[] && nextTimer == 0
    {
      queue, timeoutId, timers, nextTimer := [], map[], map[], 0;
    }

    /** Whether `key` is currently held. */
    predicate Holds(key: string)
      reads this
    {
      key in queue
    }

    /** `pushActionQueue`: a non-blocking test-and-set. A held key is refused
        and nothing changes; a free key is appended, and its expiry removal is
        scheduled and registered under it. */
    method Push(key: string) returns (ok: bool)
      requires Valid()
      modifies this
      ensures Valid()
      ensures ok <==> key !in old(queue)
      ensures ok ==> Holds(key)
      ensures !ok ==> unchanged(this)
      ensures ok ==> && queue == old(queue) + [key]
                     && timeoutId == old(timeoutId)[key := old(nextTimer)]
                     && timers == old(timers)[old(nextTimer) := Removal(key, EXPIRY_MS)]
                     && nextTimer == old(nextTimer) + 1
    {
      var index := IndexOf(queue, key);
      if index != -1 {
        return false;
      }
      queue := queue + [key];
      timers := timers[nextTimer := Removal(key, EXPIRY_MS)];
      timeoutId := timeoutId[key := nextTimer];
      nextTimer := nextTimer + 1;
      assert timers[nextTimer - 1].key == key;
      forall k | k in queue ensures PendingRemoval(k) {
        if k != key {
          assert k in old(queue) && old(PendingRemoval(k));
          var id :| id in old(timers) && old(timers)[id].key == k;
          assert id in timers;
        }
      }
      return true;
    }

    /** `endActionQueue`: cancels the timer registered under the key (which
        may belong to a later push of the key) and unregisters it, then
        schedules a grace removal. The key itself stays held until a removal
        fires. */
    method End(key: string)
      requires Valid()
      modifies this
      ensures Valid()
      ensures queue == old(queue)
      ensures timeoutId == old(timeoutId) - {key}
      ensures timers == (if key in old(timeoutId) then old(timers) - {old(timeoutId)[key]} else old(timers))
                        [old(nextTimer) := Removal(key, GRACE_MS)]
      ensures nextTimer == old(nextTimer) + 1
    {
      if key in timeoutId {
        timers := timers - {timeoutId[key]};
      }
      timeoutId := timeoutId - {key};
      timers := timers[nextTimer := Removal(key, GRACE_MS)];
      nextTimer := nextTimer + 1;
      assert timers[nextTimer - 1].key == key;
      forall k | k in queue ensures PendingRemoval(k) {
        if k != key {
          assert old(PendingRemoval(k));
          var id :| id in old(timers) && old(timers)[id].key == k;
          assert id in timers;
        }
      }
    }

    /** The event loop runs the pending callback `id` (an expiry or a grace
        removal): the key is removed if it is held, other keys keep their
        order, and `timeoutId` is left as it was. */
    method Fire(id: nat)
      requires Valid() && id in timers
      modifies this
      ensures Valid()
      ensures queue == RemoveKey(old(queue), old(timers)[id].key)
      ensures !Holds(old(timers)[id].key)
      ensures timers == old(timers) - {id}
      ensures timeoutId == old(timeoutId) && nextTimer == old(nextTimer)
    {
      var key := timers[id].key;
      timers := timers - {id};
      var index := IndexOf(queue, key);
      if index != -1 {
        queue := queue[..index] + queue[index + 1..];
      }
      assert queue == RemoveKey(old(queue), key);
      forall k | k in queue ensures PendingRemoval(k) {
        assert k in old(queue) && k != key && old(PendingRemoval(k));
        var id' :| id' in old(timers) && old(timers)[id'].key == k;
        assert id' in timers;
      }
    }
  }

  /** A click while the key is held is refused; the key stays held through
      the end of the first click's handling, and is free again once the grace
      removal has run. */
  method GraceWindow(key: string) returns (first: bool, duplicate: bool, afterEnd: bool, afterGrace: bool)
    ensures first && !duplicate && !afterEnd && afterGrace
  {
    var q := new ActionQueue();
    first := q.Push(key);
    duplicate := q.Push(key);
    var grace := q.nextTimer;
    q.End(key);
    afterEnd := q.Push(key);
    q.Fire(grace);
    afterGrace := q.Push(key);
  }

  /** With no end, the key is freed by its expiry removal. */
  method ExpiryFreesKey(key: string) returns (first: bool, blocked: bool, afterExpiry: bool)
    ensures first && !blocked && afterExpiry
  {
    var q := new ActionQueue();
    var expiry := q.nextTimer;
    first := q.Push(key);
    blocked := q.Push(key);
    q.Fire(expiry);
    afterExpiry := q.Push(key);
  }

  /** Two ends for one push schedule two grace removals; the second one runs
      after the key has been pushed again and frees it while that later click
      is still being handled. */
  method DoubleEnd(key: string) returns (reacquired: bool, heldAfterStaleGrace: bool)
    ensures reacquired && !heldAfterStaleGrace
  {
    var q := new ActionQueue();
    var _ := q.Push(key);
    var grace1 := q.nextTimer;
    q.End(key);
    var grace2 := q.nextTimer;
    q.End(key);
    q.Fire(grace1);
    reacquired := q.Push(key);
    q.Fire(grace2);
    heldAfterStaleGrace := q.Holds(key);
  }

  /** The expiry removal leaves its id registered. When the key is pushed
      again and the first click then ends, that end cancels the second
      push's expiry timer, not its own. */
  method EndCancelsLaterTimer(key: string) returns (secondExpiryCancelled: bool, stillHeld: bool)
    ensures secondExpiryCancelled && stillHeld
  {
    var q := new ActionQueue();
    var expiry1 := q.nextTimer;
    var _ := q.Push(key);
    q.Fire(expiry1);
    var expiry2 := q.nextTimer;
    var _ := q.Push(key);
    q.End(key);
    secondExpiryCancelled := expiry2 !in q.timers;
    stillHeld := q.Holds(key);
  }

  /** Keys of different messages do not interfere: ending or expiring one
      leaves another held. */
  method KeysIndependent(a: string, b: string) returns (bHeld: bool, bStillHeld: bool)
    requires a != b
    ensures bHeld && bStillHeld
  {
    var q := new ActionQueue();
    var expiryA := q.nextTimer;
    var _ := q.Push(a);
    var _ := q.Push(b);
    bHeld := q.Holds(b);
    q.Fire(expiryA);
    q.End(a);
    bStillHeld := q.Holds(b);
  }
}
