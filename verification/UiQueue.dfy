/** The input queue of a user-interface session: bounded, ordered, dropping its oldest event. */
module UiQueue {
  import opened Bytes

  const EVENT_QUEUE_CAPACITY: nat := 512

  /**
   An input event. `origin` is no field of the source: it names the session in which the event's
   epoch was sampled, so that the routing properties can speak of it. `body` is the rest.
   */
  datatype Event = Event(sequence: u64, overflow: bool, body: nat, origin: nat)

  /** The event after this one in sequence; zero is skipped when the counter wraps. */
  function Advance(n: u64): (r: u64)
    ensures r != 0
  {
    var wrapped := (n + 1) % 0x1_0000_0000_0000_0000;
    if wrapped == 0 then 1 else wrapped
  }

  datatype Queue = Queue(events: seq<Event>, next: u64, waiter: Option<nat>, dropped: u64, overflowPending: bool) {

    function Reset(): Queue { Queue([], next, None, 0, false) }

    function Push(body: nat, origin: nat): Queue {
      var e := Event(next, false, body, origin);
      if |events| < EVENT_QUEUE_CAPACITY then this.(events := events + [e], next := Advance(next))
      else
        this.(events := events[1..] + [e],
        next := Advance(next),
        dropped := if dropped + 1 < U64_LIMIT then dropped + 1 else dropped,
        overflowPending := true)
    }

    function StageCount(room: nat): (n: nat)
    {
      if room < |events| then room else |events|
    }

    /** What a read of this size is given: the oldest events, the first one carrying the flag. */
    function Staged(room: nat): (r: seq<Event>)
      ensures |r| == StageCount(room)
    {
      var n := StageCount(room);
      if n == 0 then [] else events[..n][0 := events[0].(overflow := events[0].overflow || overflowPending)]
    }

    function Commit(count: nat): Queue
      requires count <= |events|
    {
      this.(events := events[count..], overflowPending := overflowPending && count == 0)
    }

    function ClearWaiter(task: nat): Queue { if waiter == Some(task) then this.(waiter := None) else this }
  }

  /** The queue object, changed in place under its lock. */
  class EventState {
    var events: seq<Event>
    var nextSequence: u64
    var waiter: Option<nat>
    var dropped: u64
    var overflowPending: bool

    ghost function View(): Queue
      reads this
    {
      Queue(events, nextSequence, waiter, dropped, overflowPending)
    }

    ghost predicate Valid()
      reads this
    {
      |events| <= EVENT_QUEUE_CAPACITY
    }

    constructor ()
      ensures Valid() && View() == Queue([], 1, None, 0, false)
    {
      events, nextSequence, waiter, dropped, overflowPending := [], 1, None, 0, false;
    }

    method Reset() returns (previous: Option<nat>)
      modifies this
      ensures Valid() && View() == old(View()).Reset() && previous == old(waiter)
    {
      previous := waiter;
      waiter := None;
      events := [];
      dropped := 0;
      overflowPending := false;
    }

    method ArmWaiter(task: nat)
      requires Valid()
      modifies this
      ensures Valid() && View() == old(View()).(waiter := Some(task))
    {
      waiter := Some(task);
    }

    /** The ring's own push: it refuses when full. */
    method TryPush(e: Event) returns (ok: bool)
      requires Valid()
      modifies this`events
      ensures Valid() && ok == (|old(events)| < EVENT_QUEUE_CAPACITY)
      ensures events == if ok then old(events) + [e] else old(events)
    {
      ok := |events| < EVENT_QUEUE_CAPACITY;
      if ok {
        events := events + [e];
      }
    }

    method Pop() returns (e: Option<Event>)
      requires Valid()
      modifies this`events
      ensures Valid()
      ensures old(events) == [] ==> e == None && events == []
      ensures old(events) != [] ==> e == Some(old(events)[0]) && events == old(events)[1..]
    {
      if |events| == 0 {
        return None;
      }
      e := Some(events[0]);
      events := events[1..];
    }

    method Push(body: nat, origin: nat)
      requires Valid()
      modifies this
      ensures Valid() && View() == old(View()).Push(body, origin)
    {
      var e := Event(nextSequence, false, body, origin);
      nextSequence := Advance(nextSequence);
      var ok := TryPush(e);
      if !ok {
        var _ := Pop();
        var _ := TryPush(e);
        dropped := if dropped + 1 < U64_LIMIT then dropped + 1 else dropped;
        overflowPending := true;
      }
    }

    /** Copies without removing: a read that faults afterwards has changed nothing. */
    method Stage(destination: array<Event>, room: nat) returns (count: nat)
      requires Valid() && room <= destination.Length
      modifies destination
      ensures View() == old(View())
      ensures count == View().StageCount(room) && destination[..count] == View().Staged(room)
    {
      count := if room < |events| then room else |events|;
      for index := 0 to count
        invariant destination[..index] == events[..index]
      {
        destination[index] := events[index];
      }
      if count != 0 && overflowPending {
        destination[0] := destination[0].(overflow := true);
      }
    }

    method Commit(count: nat)
      requires Valid() && count <= |events|
      modifies this
      ensures Valid() && View() == old(View()).Commit(count)
    {
      ghost var all := events;
      for k := 0 to count
        invariant Valid() && events == all[k..]
        invariant nextSequence == old(nextSequence) && waiter == old(waiter)
        invariant dropped == old(dropped) && overflowPending == old(overflowPending)
      {
        var _ := Pop();
      }
      if count != 0 {
        overflowPending := false;
      }
    }
  }

  // ---------------------------------------------------------------- sequence numbers

  /** The k-th number after base in the cycle 1, ..., 2^64 - 1. */
  function SequenceAt(base: u64, k: nat): (r: u64)
    requires base > 0
    ensures r > 0
  {
    (base - 1 + k) % 0xFFFF_FFFF_FFFF_FFFF + 1
  }

  lemma SequenceStep(base: u64, k: nat)
    requires base > 0
    ensures Advance(SequenceAt(base, k)) == SequenceAt(base, k + 1)
  {
    var m := 0xFFFF_FFFF_FFFF_FFFF;
    var q, r := (base - 1 + k) / m, (base - 1 + k) % m;
    if r + 1 < m {
      ModUnique(base + k, m, q, r + 1);
    } else {
      ModUnique(base + k, m, q + 1, 0);
    }
  }

  lemma SequenceAdd(base: u64, j: nat, k: nat)
    requires base > 0
    ensures SequenceAt(SequenceAt(base, j), k) == SequenceAt(base, j + k)
  {
    var m := 0xFFFF_FFFF_FFFF_FFFF;
    var x := base - 1 + j;
    var q, r := x / m, x % m;
    var q', r' := (r + k) / m, (r + k) % m;
    ModUnique(x + k, m, q + q', r');
  }

  lemma SequenceStart(base: u64)
    requires base > 0
    ensures SequenceAt(base, 0) == base
  {
    ModUnique(base - 1, 0xFFFF_FFFF_FFFF_FFFF, 0, base - 1);
  }

  lemma SequenceDistinct(base: u64, k: nat)
    requires base > 0 && 0 < k < 0xFFFF_FFFF_FFFF_FFFF
    ensures SequenceAt(base, k) != base
  {
    var m := 0xFFFF_FFFF_FFFF_FFFF;
    if base - 1 + k < m {
      ModUnique(base - 1 + k, m, 0, base - 1 + k);
    } else {
      ModUnique(base - 1 + k, m, 1, base - 1 + k - m);
    }
  }

  // ---------------------------------------------------------------- accounting within a session

  /**
   What happened to the events of a session: `first` is the number the first one got, `skipped`
   counts the drops since the last delivery, and `last` is the number delivered last.
   */
  datatype Ledger = Ledger(first: u64, pushed: nat, delivered: nat, drops: nat, skipped: nat, last: Option<u64>) {

    function Push(full: bool): Ledger {
      if full then this.(pushed := pushed + 1, drops := drops + 1, skipped := skipped + 1)
      else this.(pushed := pushed + 1)
    }

    function Deliver(events: seq<Event>): Ledger {
      if events == [] then this
      else this.(delivered := delivered + |events|, skipped := 0, last := Some(events[|events| - 1].sequence))
    }
  }

  function FreshLedger(q: Queue): Ledger { Ledger(q.next, 0, 0, 0, 0, None) }

  ghost predicate Accounted(q: Queue, l: Ledger) {
    && |q.events| <= EVENT_QUEUE_CAPACITY
    && l.first > 0 && q.next == SequenceAt(l.first, l.pushed)
    && l.pushed == l.delivered + |q.events| + l.drops
    && (forall i :: 0 <= i < |q.events| ==>
          q.events[i].sequence == SequenceAt(l.first, l.delivered + l.drops + i) && !q.events[i].overflow)
    && (q.overflowPending <==> l.skipped > 0)
    && q.dropped == (if l.drops < U64_LIMIT then l.drops else U64_LIMIT - 1)
    && l.skipped <= l.drops
    && (l.delivered == 0 ==> l.last == None && l.skipped == l.drops)
    && (l.delivered > 0 ==>
          && l.delivered + l.drops - l.skipped >= 1
          && l.last == Some(SequenceAt(l.first, l.delivered + l.drops - l.skipped - 1)))
  }

  lemma PushAccounted(q: Queue, l: Ledger, body: nat, origin: nat)
    requires Accounted(q, l)
    ensures Accounted(q.Push(body, origin), l.Push(|q.events| == EVENT_QUEUE_CAPACITY))
  {
    hide SequenceAt;
    SequenceStep(l.first, l.pushed);
  }

  lemma DeliverAccounted(q: Queue, l: Ledger, room: nat)
    requires Accounted(q, l)
    ensures Accounted(q.Commit(q.StageCount(room)), l.Deliver(q.Staged(room)))
  {
    hide SequenceAt, Advance;
  }

  lemma ResetAccounted(q: Queue)
    requires q.next > 0
    ensures Accounted(q.Reset(), FreshLedger(q.Reset()))
  {
    SequenceStart(q.next);
  }

  /**
   The overflow flag is exact: the first event of a read is flagged exactly when events were
   dropped since the last delivery, and its number lies exactly that many past the next one due.
   The events that follow it are consecutive and carry no flag.
   */
  lemma OverflowFlagExact(q: Queue, l: Ledger, room: nat)
    requires Accounted(q, l) && room > 0 && q.events != []
    ensures var r := q.Staged(room);
            && r != []
            && (r[0].overflow <==> l.skipped > 0)
            && r[0].sequence == (if l.last.Some? then SequenceAt(Advance(l.last.value), l.skipped)
                                 else SequenceAt(l.first, l.skipped))
            && (forall i :: 0 <= i < |r| ==> r[i].sequence == SequenceAt(r[0].sequence, i))
            && (forall i :: 1 <= i < |r| ==> !r[i].overflow)
  {
    hide SequenceAt, Advance;
    var r := q.Staged(room);
    var head := l.delivered + l.drops;
    forall i | 0 <= i < |r|
      ensures r[i].sequence == SequenceAt(r[0].sequence, i)
    {
      SequenceAdd(l.first, head, i);
    }
    if l.last.Some? {
      SequenceStep(l.first, head - l.skipped - 1);
      SequenceAdd(l.first, head - l.skipped, l.skipped);
    }
  }

  /** As long as fewer than a full cycle was dropped, the flag says that a number was skipped. */
  lemma FlagMeansGap(q: Queue, l: Ledger, room: nat)
    requires Accounted(q, l) && room > 0 && q.events != [] && l.last.Some? && l.skipped < 0xFFFF_FFFF_FFFF_FFFF
    ensures q.Staged(room)[0].overflow <==> q.Staged(room)[0].sequence != Advance(l.last.value)
  {
    hide SequenceAt, Accounted;
    OverflowFlagExact(q, l, room);
    if l.skipped == 0 {
      SequenceStart(Advance(l.last.value));
    } else {
      SequenceDistinct(Advance(l.last.value), l.skipped);
    }
  }
}
