/**
 * `zedio::time::detail::Timer` of `zedio/time/timer.hpp`: timer events kept in a `std::set`,
 * polled in set order. The set is modelled as the sequence its iterators visit. The `Event`
 * type and its ordering live in `zedio/time/event.hpp`, which is not part of this model;
 * events are taken to be ordered by deadline, then by handle. Time points are whole units of
 * the steady clock, read by the caller and passed in as `now`.
 */
module EventTimer {
  import opened Wrappers
  import opened Seqs

  /** A timer event: the coroutine handle (an opaque id) to resume and its deadline. */
  datatype Event = Event(handle: nat, expiry: int)

  /** The set's ordering: earlier deadline first, ties broken by handle. */
  predicate Before(a: Event, b: Event)
  {
    a.expiry < b.expiry || (a.expiry == b.expiry && a.handle < b.handle)
  }

  /** Strictly increasing in the set's ordering, so no event occurs twice. */
  predicate Ordered(s: seq<Event>)
  {
    forall j, k :: 0 <= j < k < |s| ==> Before(s[j], s[k])
  }

  /** The handles of the events, in order. */
  function Handles(s: seq<Event>): seq<nat>
  {
    seq(|s|, k requires 0 <= k < |s| => s[k].handle)
  }

  /** `std::set::emplace` of an event not yet present: it takes its place in the ordering. */
  function InsertEvent(s: seq<Event>, e: Event): (r: seq<Event>)
    requires Ordered(s) && e !in s
    ensures Ordered(r) && multiset(r) == multiset(s) + multiset{e}
  {
    if s == [] || Before(e, s[0]) then
      [e] + s
    else
      var t := InsertEvent(s[1..], e);
      InsertBehind(s, e, t);
      [s[0]] + t
  }

  /** An event that does not go before the first one goes after it, into the rest. */
  lemma InsertBehind(s: seq<Event>, e: Event, t: seq<Event>)
    requires Ordered(s) && s != [] && !Before(e, s[0]) && e !in s
    requires Ordered(t) && multiset(t) == multiset(s[1..]) + multiset{e}
    ensures Ordered([s[0]] + t) && multiset([s[0]] + t) == multiset(s) + multiset{e}
  {
    assert s == [s[0]] + s[1..];
    forall k | 0 <= k < |t| ensures Before(s[0], t[k]) {
      assert t[k] in multiset(t);
      if t[k] != e {
        assert t[k] in s[1..];
      }
    }
  }

  /** In an ordered sequence no later event is due before an earlier one. */
  lemma OrderedDeadlines(s: seq<Event>, j: nat, k: nat)
    requires Ordered(s) && j <= k < |s|
    ensures s[j].expiry <= s[k].expiry
  {
  }

  class Timer {
    var events: seq<Event>

    predicate Valid()
      reads this
    {
      Ordered(events)
    }

    /** `Timer()`: no event. */
    constructor()
      ensures Valid() && events == []
    {
      events := [];
    }

    /** `add_timer_event(handle, expired_time)`: the event, which must be new, joins the set. */
    method AddTimerEvent(handle: nat, expiry: int) returns (it: Event)
      requires Valid() && Event(handle, expiry) !in events
      modifies this
      ensures Valid() && it == Event(handle, expiry)
      ensures multiset(events) == multiset(old(events)) + multiset{it}
    {
      it := Event(handle, expiry);
      events := InsertEvent(events, it);
    }

    /** `cancel(it)`: the event the iterator points at, and no other, leaves the set. */
    method Cancel(it: Event)
      requires Valid() && it in events
      modifies this
      ensures Valid() && events == EraseFirst(old(events), it)
      ensures multiset(events) == multiset(old(events)) - multiset{it}
    {
      EraseFirstMultiset(events, it);
      EraseOrdered(events, it);
      events := EraseFirst(events, it);
    }

    /**
     * `get_first_expired_time()`: none without events; otherwise the time from now to the
     * earliest deadline, negative when it has passed.
     */
    function GetFirstExpiredTime(now: int): (r: Option<int>)
      reads this
      requires Valid()
      ensures r.None? <==> events == []
      ensures r.Some? ==> exists k :: 0 <= k < |events| && r.value == events[k].expiry - now
      ensures r.Some? ==> forall k :: 0 <= k < |events| ==> now + r.value <= events[k].expiry
    {
      if events == [] then None
      else
        assert forall k :: 0 <= k < |events| ==> events[0].expiry <= events[k].expiry by {
          forall k | 0 <= k < |events| ensures events[0].expiry <= events[k].expiry {
            OrderedDeadlines(events, 0, k);
          }
        }
        Some(events[0].expiry - now)
    }

    /**
     * `poll_batch(...)`: walks the set from the beginning while the deadline is no later than
     * `now`, handing each handle on in set order, then erases what it walked: exactly the
     * events due by `now` leave, and every event left is due after `now`.
     */
    method PollBatch(now: int) returns (fired: seq<nat>, cnt: nat)
      requires Valid()
      modifies this
      ensures Valid() && cnt == |fired| && cnt <= |old(events)|
      ensures fired == Handles(old(events)[..cnt]) && events == old(events)[cnt..]
      ensures forall k :: 0 <= k < cnt ==> old(events)[k].expiry <= now
      ensures forall k :: 0 <= k < |events| ==> events[k].expiry > now
    {
      var i := 0;
      fired := [];
      while i < |events| && events[i].expiry <= now
        invariant 0 <= i <= |events|
        invariant fired == Handles(events[..i])
        invariant forall k :: 0 <= k < i ==> events[k].expiry <= now
      {
        assert events[..i + 1] == events[..i] + [events[i]];
        fired := fired + [events[i].handle];
        i := i + 1;
      }
      cnt := i;
      forall k | i <= k < |events| ensures events[k].expiry > now {
        OrderedDeadlines(events, i, k);
      }
      events := events[i..];
    }
  }

  /** Erasing an event keeps the rest in order. */
  lemma EraseOrdered(s: seq<Event>, e: Event)
    requires Ordered(s)
    ensures Ordered(EraseFirst(s, e))
  {
    if e in s {
      var i :| 0 <= i < |s| && s[i] == e;
      OnlyOnce(s, i);
      EraseFirstAt(s, e, i);
      DropOrdered(s, i);
    }
  }

  /** In an ordered sequence an event occurs once: not before its position. */
  lemma OnlyOnce(s: seq<Event>, i: nat)
    requires Ordered(s) && i < |s|
    ensures s[i] !in s[..i]
  {
    forall j | 0 <= j < i ensures s[..i][j] != s[i] {
      assert Before(s[j], s[i]);
    }
  }

  /** Dropping one position keeps an ordered sequence ordered. */
  lemma DropOrdered(s: seq<Event>, i: nat)
    requires Ordered(s) && i < |s|
    ensures Ordered(s[..i] + s[i + 1..])
  {
    var r := s[..i] + s[i + 1..];
    forall j, k | 0 <= j < k < |r| ensures Before(r[j], r[k]) {
      var j' := if j < i then j else j + 1;
      var k' := if k < i then k else k + 1;
      assert r[j] == s[j'] && r[k] == s[k'];
    }
  }
}
