/** What each step of the seat gives its caller, in every run and in terms of the state before it. */
module UiOutcomes {
  import opened Bytes
  import opened UiQueue
  import opened UiSeat
  import opened UiProtocol

  function Min(a: nat, b: nat): nat { if a < b then a else b }

  /** The same event, but for the overflow mark a read may put on it. */
  predicate SameEvent(a: Event, b: Event) { a.sequence == b.sequence && a.body == b.body && a.origin == b.origin }

  /** The answer of the read at step i. */
  function AnswerAt(states: seq<Sys>, steps: seq<Step>, i: nat): ReadResult
    requires |states| == |steps| + 1 && i < |steps| && steps[i].Read? && steps[i].pid in states[i].readers
  {
    states[i].seat.Read(steps[i].pid, states[i].readers[steps[i].pid], steps[i].pass).1
  }

  /**
   When a read delivers: exactly the owner with events queued whose copy works, and then the oldest that
   fit, in order; a copy that fails leaves everything in place.
   */
  lemma ReadDelivers(states: seq<Sys>, steps: seq<Step>, i: nat)
    requires Behavior(states, steps) && i < |steps| && steps[i].Read?
    ensures steps[i].pid in states[i].readers
    ensures var s, t, pid, pass, r := states[i], states[i + 1], steps[i].pid, steps[i].pass, AnswerAt(states, steps, i);
            var before, after := s.seat.queue.events, t.seat.queue.events;
            var n := Min(pass.room, |before|);
            && (r.NotOwner? <==> s.seat.owner != pid)
            && (r.Delivered? <==> s.seat.owner == pid && before != [] && pass.copies)
            && (r.Fault? <==> s.seat.owner == pid && before != [] && !pass.copies)
            && (r.Delivered? ==>
                  && |r.events| == n > 0 && (forall k :: 0 <= k < n ==> SameEvent(r.events[k], before[k]))
                  && after == before[n..])
            && (!r.Delivered? ==> after == before && t.ledger == s.ledger)
            && (r.Fault? ==> t == s)
  {
    StepFrom(states, steps, i);
    BehaviorInv(states, steps, i);
    if AnswerAt(states, steps, i).Fault? {
      FaultChangesNothing(states, steps, i);
    }
    hide Inv, Accounted, EpochsOk, WaitersOk, Behavior;
  }

  /** What a read of an empty queue answers, and that only a read that parks is registered. */
  lemma EmptyRead(states: seq<Sys>, steps: seq<Step>, i: nat)
    requires Behavior(states, steps) && i < |steps| && steps[i].Read?
    requires states[i].seat.owner == steps[i].pid && states[i].seat.queue.events == []
    ensures steps[i].pid in states[i].readers
    ensures var s, t, pid, pass, r := states[i], states[i + 1], steps[i].pid, steps[i].pass, AnswerAt(states, steps, i);
            var task := s.readers[pid];
            && (r.Interrupted? <==> !pass.immediate && pid in s.signalled)
            && (r.Nothing? <==> pass.immediate || (pid !in s.signalled && pass.expired))
            && (r.Parked? <==> !pass.immediate && pid !in s.signalled && !pass.expired)
            && (r.Parked? ==> t.seat.queue.waiter == Some(task) && t.parked == s.parked + {task})
            && (!r.Parked? ==> t.seat.queue.waiter != Some(task) && t.parked == s.parked)
  {
    StepFrom(states, steps, i);
    hide Behavior;
  }

  lemma StepFrom(states: seq<Sys>, steps: seq<Step>, i: nat)
    requires Behavior(states, steps) && i < |steps|
    ensures |states| == |steps| + 1 && Enabled(states[i], steps[i]) && states[i + 1] == Next(states[i], steps[i])
  {
  }

  /**
   Where a sampled event goes: into the session's queue at its end, with the oldest event dropped only from
   a full queue; to its own console queue when there is no session; nowhere when its epoch is over.
   */
  lemma RouteOutcome(states: seq<Sys>, steps: seq<Step>, i: nat)
    requires Behavior(states, steps) && i < |steps| && steps[i].Route?
    ensures var s, t, step := states[i], states[i + 1], steps[i];
            var epoch, before, after := step.sample.epoch, s.seat.queue.events, t.seat.queue.events;
            && (epoch == s.seat.activeEpoch != 0 ==>
                  && after == (if |before| < 512 then before else before[1..])
                              + [Event(s.seat.queue.next, false, step.body, step.sample.origin)]
                  && t.seat.queue.waiter == None && t.waking == s.waking + Taken(s.seat.queue.waiter)
                  && t.seat.keyboard == s.seat.keyboard && t.seat.mouse == s.seat.mouse)
            && (epoch == s.seat.activeEpoch == 0 ==>
                  && t.seat.queue == s.seat.queue && t.waking == s.waking
                  && t.seat.keyboard == s.seat.keyboard
                      + (if step.stored && step.device.Keyboard? then [step.body] else [])
                  && t.seat.mouse == s.seat.mouse + (if step.stored && step.device.Mouse? then [step.body] else []))
            && (epoch != s.seat.activeEpoch ==> t.seat == s.seat && t.waking == s.waking)
  {
    StepFrom(states, steps, i);
    hide Behavior;
    var s := states[i];
    assert s.waking + multiset{} == s.waking;
    assert s.seat.keyboard + [] == s.seat.keyboard && s.seat.mouse + [] == s.seat.mouse;
  }

  /** What arming a wait answers: hangup for anyone but the owner, ready input, another waiter, or armed. */
  lemma ArmOutcome(seat: Seat, pid: u64, task: nat)
    ensures var (after, r) := seat.Arm(pid, task);
            && (r.Hangup? <==> pid == 0 || seat.owner != pid)
            && (r.InputReady? <==> pid != 0 && seat.owner == pid && seat.queue.events != [])
            && (r.Busy? <==>
                  && pid != 0 && seat.owner == pid && seat.queue.events == []
                  && seat.queue.waiter.Some? && seat.queue.waiter.value != task)
            && (r.Armed? ==> after == seat.(queue := seat.queue.(waiter := Some(task))))
            && (!r.Armed? ==> after == seat)
  {
  }

  /** What acquiring and releasing leave: the new owner, or none, and nothing queued from before. */
  lemma SessionOutcome(states: seq<Sys>, steps: seq<Step>, i: nat)
    requires Behavior(states, steps) && i < |steps| && (steps[i].AcquireCommit? || steps[i].ReleaseCommit?)
    ensures var s, seat := states[i], states[i + 1].seat;
            && seat.queue.events == [] && seat.queue.waiter == None && seat.keyboard == [] && seat.mouse == []
            && seat.queue.dropped == 0 && !seat.queue.overflowPending && seat.queue.next == s.seat.queue.next
            && (steps[i].AcquireCommit? ==>
                  && s.lock.Acquiring? && seat.owner == s.lock.pid != 0 && seat.activeEpoch != 0
                  && states[i + 1].session == s.session + 1)
            && (steps[i].ReleaseCommit? ==>
                  && s.lock.Releasing? && s.seat.owner == s.lock.pid && seat.owner == 0 && seat.activeEpoch == 0
                  && states[i + 1].waking == s.waking + Taken(s.seat.queue.waiter))
  {
    StepFrom(states, steps, i);
    BehaviorInv(states, steps, i);
    hide Behavior, Accounted, WaitersOk, EpochOf;
  }

  /** A signal takes the owner's registration along and nobody else's. */
  lemma NotifyOutcome(states: seq<Sys>, steps: seq<Step>, i: nat)
    requires Behavior(states, steps) && i < |steps| && steps[i].Notify?
    ensures var s, t, mine := states[i], states[i + 1], states[i].seat.owner == steps[i].pid;
            && t.seat == s.seat.(queue := s.seat.queue.(waiter := if mine then None else s.seat.queue.waiter))
            && t.waking == s.waking + (if mine then Taken(s.seat.queue.waiter) else multiset{})
  {
    StepFrom(states, steps, i);
    hide Behavior;
  }
}
