/**
 The cache store itself: two maps of mutable records changed in place inside the
 critical sections.  Each method is one critical section (or, for `Answer`, what a
 waiter reads after the channel closed) and moves the abstract view exactly as the
 transition system of `CacheProtocol` says, so the results about schedules are
 results about these methods.
 */
module CacheStore {
  import P = CacheProtocol
  import opened Optional

  class Call {
    ghost const id: nat      // position in the order of creation
    ghost const key: P.Key
    var waiters: int
    var abandoned: bool
    var cancelled: bool      // the load context has been cancelled
    var done: bool           // the channel has been closed
    var outcome: Option<P.Outcome>
    var loadedAt: P.Time
    var stale: Option<P.Entry>

    constructor (ghost id: nat, ghost key: P.Key)
      ensures this.id == id && this.key == key && View() == P.NewCall(key)
    {
      this.id, this.key := id, key;
      waiters, abandoned, cancelled, done := 1, false, false, false;
      outcome, loadedAt, stale := None, 0, None;
    }

    ghost function View(): P.Call
      reads this
    {
      P.Call(key, waiters, abandoned, cancelled, done, outcome, loadedAt, stale)
    }
  }

  class Store {
    var entries: map<P.Key, P.Entry>
    var inFlight: map<P.Key, Call>
    ghost var issued: seq<Call>   // every call ever created, oldest first

    ghost predicate Valid()
      reads this, issued
    {
      && (forall i | 0 <= i < |issued| :: issued[i].id == i)
      && (forall k <- inFlight :: inFlight[k].key == k && Known(inFlight[k]))
    }

    ghost predicate Known(call: Call)
      reads this
    {
      call.id < |issued| && issued[call.id] == call
    }

    ghost function View(): (s: P.Shared)
      requires Valid()
      reads this, issued
      ensures P.WellFormed(s)
    {
      P.Shared(entries, Flights(), Calls())
    }

    ghost function Flights(): map<P.Key, nat>
      reads this
    {
      map k <- inFlight :: inFlight[k].id
    }

    ghost function Calls(): (views: seq<P.Call>)
      reads this, issued
      ensures |views| == |issued|
      ensures forall i | 0 <= i < |issued| :: views[i] == issued[i].View()
    {
      seq(|issued|, i requires 0 <= i < |issued| reads this, issued => issued[i].View())
    }

    constructor ()
      ensures Valid() && View() == P.Initial(0).shared
    {
      entries, inFlight, issued := map[], map[], [];
    }

    /** When a critical section touches one call only, exactly that call's view moves. */
    twostate lemma OneCallMoved(pending: Call)
      requires old(Valid()) && issued == old(issued) && old(Known(pending))
      requires forall i | 0 <= i < |issued| :: issued[i] == pending || unchanged(issued[i])
      ensures Calls() == old(Calls())[pending.id := pending.View()]
    {
    }

    twostate lemma OneCallAdded(new pending: Call)
      requires old(Valid()) && issued == old(issued) + [pending]
      requires forall i | 0 <= i < |old(issued)| :: unchanged(old(issued)[i])
      ensures Calls() == old(Calls()) + [pending.View()]
    {
    }

    twostate lemma CallMoved(pending: Call)
      requires old(Valid()) && old(Known(pending)) && issued == old(issued) && Valid()
      requires forall i | 0 <= i < |issued| :: issued[i] == pending || unchanged(issued[i])
      requires entries == old(entries) && inFlight == old(inFlight)
      ensures View() == old(View()).(calls := old(View()).calls[pending.id := pending.View()])
    {
      OneCallMoved(pending);
      assert Flights() == old(Flights());
    }

    twostate lemma CallOpened(new pending: Call)
      requires old(Valid()) && issued == old(issued) + [pending] && Valid()
      requires forall i | 0 <= i < |old(issued)| :: unchanged(old(issued)[i])
      requires entries == old(entries) && inFlight == old(inFlight)[pending.key := pending]
      ensures View() == P.Shared(old(View()).entries, old(View()).inFlight[pending.key := pending.id],
          old(View()).calls + [pending.View()])
    {
      OneCallAdded(pending);
      assert Flights() == old(Flights())[pending.key := pending.id];
    }

    twostate lemma FlightDropped(pending: Call)
      requires old(Valid()) && old(Known(pending)) && issued == old(issued) && Valid()
      requires forall i | 0 <= i < |issued| :: issued[i] == pending || unchanged(issued[i])
      requires entries == old(entries) && inFlight == old(inFlight) - {pending.key}
      ensures View() == P.Shared(old(View()).entries, old(View()).inFlight - {pending.key},
          old(View()).calls[pending.id := pending.View()])
    {
      OneCallMoved(pending);
      assert Flights() == old(Flights()) - {pending.key};
    }

    /** Under the lock: answer from the cache, join the call in flight, or put a new one in flight. */
    method Enter(key: P.Key, ttl: int, now: P.Time) returns (hit: Option<P.Entry>, pending: Call?)
      requires Valid()
      modifies this, issued
      ensures Valid()
      ensures View() == P.Lookup(old(View()), key, ttl, now).0
      ensures var reply := P.Lookup(old(View()), key, ttl, now).1;
        && (reply.Hit? ==> hit == Some(reply.entry) && pending == null)
        && (reply.Attached? ==>
              hit == None && pending != null && Known(pending) && pending.id == reply.call && pending.key == key)
      ensures hit.Some? <==> key in old(entries) && now - old(entries)[key].storedAt < ttl
      ensures hit.Some? ==> hit.value == old(entries)[key] && pending == null
      ensures hit.None? ==> key in inFlight && inFlight[key] == pending
      ensures hit.None? && key in old(inFlight) ==> pending == old(inFlight)[key]
      ensures old(issued) <= issued && fresh(issued[|old(issued)|..])
    {
      hit, pending := None, null;
      if key in entries && now - entries[key].storedAt < ttl {
        hit := Some(entries[key]);
        return;
      }
      if key in inFlight {
        pending := inFlight[key];
        pending.waiters := pending.waiters + 1;
        CallMoved(pending);
        return;
      }
      pending := new Call(|issued|, key);
      inFlight := inFlight[key := pending];
      issued := issued + [pending];
      CallOpened(pending);
    }

    /** A loader that lost its call only closes it. */
    twostate lemma LostCallClosed(pending: Call)
      requires old(Valid()) && old(Known(pending)) && issued == old(issued) && Valid()
      requires forall i | 0 <= i < |issued| :: issued[i] == pending || unchanged(issued[i])
      requires pending.done && pending.outcome.Some?
      requires unchanged(pending`waiters, pending`abandoned, pending`cancelled)
      requires pending.abandoned || !(pending.key in inFlight && inFlight[pending.key] == pending)
      requires entries == old(entries) && inFlight == old(inFlight) && pending.stale == old(pending.stale)
      ensures View() == P.Complete(old(View()), pending.id, pending.outcome.value, pending.loadedAt)
    {
      OneCallMoved(pending);
      assert Flights() == old(Flights());
    }

    /** A loader in charge publishes its value or the entry to fall back on, and ends the flight. */
    twostate lemma FlightEnded(pending: Call)
      requires old(Valid()) && old(Known(pending)) && issued == old(issued) && Valid()
      requires forall i | 0 <= i < |issued| :: issued[i] == pending || unchanged(issued[i])
      requires pending.done && pending.outcome.Some?
      requires unchanged(pending`waiters, pending`abandoned, pending`cancelled)
      requires !pending.abandoned && old(pending.key in inFlight && inFlight[pending.key] == pending)
      requires inFlight == old(inFlight) - {pending.key}
      requires pending.outcome.value.Loaded? ==>
          entries == old(entries)[pending.key := P.Entry(pending.outcome.value.value, pending.loadedAt)] &&
          pending.stale == old(pending.stale)
      requires pending.outcome.value.Failed? ==> entries == old(entries)
      requires pending.outcome.value.Failed? ==>
                 pending.stale == if pending.key in entries then Some(entries[pending.key]) else old(pending.stale)
      ensures View() == P.Complete(old(View()), pending.id, pending.outcome.value, pending.loadedAt)
    {
      OneCallMoved(pending);
      assert old(Flights())[pending.key] == pending.id;
      assert Flights() == old(Flights()) - {pending.key};
    }

    /** Under the lock: record the outcome, publish it unless the call was abandoned, wake the waiters. */
    method Complete(key: P.Key, outcome: P.Outcome, now: P.Time, pending: Call)
      requires Valid() && Known(pending) && pending.key == key
      modifies this`entries, this`inFlight, pending
      ensures Valid() && issued == old(issued)
      ensures View() == P.Complete(old(View()), pending.id, outcome, now)
      ensures pending.done && pending.outcome == Some(outcome) && pending.loadedAt == now
      ensures var wanted := !old(pending.abandoned) && key in old(inFlight) && old(inFlight)[key] == pending;
        && inFlight == (if wanted then old(inFlight) - {key} else old(inFlight))
        && entries == (if wanted && outcome.Loaded? then old(entries)[key := P.Entry(outcome.value, now)]
                       else old(entries))
        && (wanted && outcome.Failed? && key in old(entries) ==> pending.stale == Some(old(entries)[key]))
    {
      pending.outcome := Some(outcome);
      pending.loadedAt := now;
      if pending.abandoned || !(key in inFlight && inFlight[key] == pending) {
        pending.done := true;
        LostCallClosed(pending);
        return;
      }
      match outcome {
        case Loaded(value) =>
          entries := entries[key := P.Entry(value, now)];
        case Failed(_) =>
          if key in entries {
            pending.stale := Some(entries[key]);
          }
      }
      inFlight := inFlight - {key};
      pending.done := true;
      FlightEnded(pending);
    }

    /** Under the lock, after the caller's own context ended. */
    method GiveUp(key: P.Key, pending: Call)
      requires Valid() && Known(pending) && pending.key == key
      modifies this`inFlight, pending
      ensures Valid() && issued == old(issued)
      ensures View() == P.Leave(old(View()), pending.id)
      ensures var counted := key in old(inFlight) && old(inFlight)[key] == pending;
        var last := counted && old(pending.waiters) == 1;
        && pending.waiters == old(pending.waiters) - (if counted then 1 else 0)
        && inFlight == (if last then old(inFlight) - {key} else old(inFlight))
        && (last ==> pending.abandoned && pending.cancelled)
        && (!last ==> unchanged(pending`abandoned, pending`cancelled))
    {
      if key in inFlight && inFlight[key] == pending {
        pending.waiters := pending.waiters - 1;
        if pending.waiters == 0 {
          inFlight := inFlight - {key};
          pending.abandoned := true;
          pending.cancelled := true;
          FlightDropped(pending);
        } else {
          CallMoved(pending);
        }
      }
    }

    /** A waiter's reading of a closed call; it needs no lock. */
    method Answer(pending: Call, maxStale: int) returns (reply: P.Reply)
      requires Valid() && Known(pending) && pending.outcome.Some?
      ensures reply == P.Answer(View().calls[pending.id], maxStale)
      ensures match pending.outcome.value
        case Loaded(value) => reply == P.Got(value, P.Fresh, pending.loadedAt)
        case Failed(error) =>
          if pending.stale.Some? && pending.loadedAt - pending.stale.value.storedAt <= maxStale
          then reply == P.Got(pending.stale.value.value, P.Stale, pending.stale.value.storedAt)
          else reply == P.LoadError(error)
    {
      match pending.outcome.value {
        case Loaded(value) =>
          return P.Got(value, P.Fresh, pending.loadedAt);
        case Failed(error) =>
          if pending.stale.Some? && pending.loadedAt - pending.stale.value.storedAt <= maxStale {
            return P.Got(pending.stale.value.value, P.Stale, pending.stale.value.storedAt);
          }
          return P.LoadError(error);
      }
    }
  }
}
