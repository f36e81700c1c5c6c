/**
 The seat under concurrency. Every section under the event lock, every atomic load and every
 scheduler action is one step, and the steps of interrupts, processes and readers interleave in
 any order. Each process has at most one reader task.
 */
module UiProtocol {
  import opened Bytes
  import opened UiQueue
  import opened UiSeat

  /** An epoch an interrupt has sampled, and the session it was sampled in (0 for none). */
  datatype Sample = Sample(epoch: u64, origin: nat)

  /** The mutex that serialises acquire and release. */
  datatype SessionLock = Free | Acquiring(pid: u64) | Releasing(pid: u64) | Finishing

  datatype Sys = Sys(
    seat: Seat,
    session: nat,               // acquisitions so far
    ledger: Ledger,
    lock: SessionLock,
    inFlight: multiset<Sample>, // sampled by an interrupt, not yet routed
    readers: map<u64, nat>,     // the reader task of each process
    parked: set<nat>,           // readers blocked by the scheduler
    waking: multiset<nat>,      // wakes taken from the queue, not yet delivered
    signalled: set<u64>,        // processes with an interrupting signal
    notifying: multiset<u64>)   // accepted signals whose notification is still to come

  datatype Step =
    | SampleEpoch
    | Route(sample: Sample, device: Device, body: nat, stored: bool)
    | ConsoleRead(device: Device)
    | AcquireLock(pid: u64)
    | AcquireCommit
    | AcquireAbort
    | ReleaseLock(pid: u64)
    | ReleaseCommit
    | ReleaseUnlock
    | AcceptSignal(pid: u64)
    | SettleSignal(pid: u64)
    | Notify(pid: u64)
    | Read(pid: u64, pass: Pass)
    | Arm(pid: u64)
    | Disarm(task: nat)
    | Wake(task: nat)
    | Expire(task: nat)

  function Taken(waiter: Option<nat>): multiset<nat> {
    if waiter.Some? then multiset{waiter.value} else multiset{}
  }

  predicate Enabled(s: Sys, step: Step) {
    match step
    case Route(sample, _, _, _) => sample in s.inFlight
    case AcquireLock(pid) => s.lock.Free? && pid != 0
    case AcquireCommit => s.lock.Acquiring?
    case AcquireAbort => s.lock.Acquiring?
    case ReleaseLock(pid) => s.lock.Free? && pid != 0
    case ReleaseCommit => s.lock.Releasing?
    case ReleaseUnlock => s.lock.Finishing?
    case Notify(pid) => pid in s.notifying
    case Read(pid, pass) =>
      && pid != 0 && pid in s.readers && s.readers[pid] !in s.parked
      && 1 <= pass.room <= UI_MAX_EVENTS_PER_READ && pass.interrupted == (pid in s.signalled)
    case Arm(pid) => pid != 0 && pid in s.readers && s.readers[pid] !in s.parked
    case Disarm(task) => task !in s.parked
    case Wake(task) => task in s.waking
    case _ => true
  }

  function NextRoute(s: Sys, sample: Sample, device: Device, body: nat, stored: bool): Sys {
    var user := ClassifyEventRoute(sample.epoch, s.seat.activeEpoch).Userspace?;
    s.(seat := s.seat.Route(sample.epoch, device, body, sample.origin, stored),
    ledger := if user then s.ledger.Push(|s.seat.queue.events| == EVENT_QUEUE_CAPACITY) else s.ledger,
    inFlight := s.inFlight - multiset{sample},
    waking := s.waking + Taken(s.seat.RouteWakes(sample.epoch)))
  }

  function NextRead(s: Sys, pid: u64, pass: Pass): Sys
    requires pid in s.readers
  {
    var task := s.readers[pid];
    var (seat, r) := s.seat.Read(pid, task, pass);
    s.(seat := seat,
    ledger := if r.Delivered? then s.ledger.Deliver(r.events) else s.ledger,
    parked := if r.Parked? then s.parked + {task} else s.parked)
  }

  function Rest(q: seq<nat>): seq<nat> { if q == [] then q else q[1..] }

  function Next(s: Sys, step: Step): Sys
    requires Enabled(s, step)
  {
    match step
    case SampleEpoch =>
      s.(inFlight := s.inFlight + multiset{Sample(s.seat.activeEpoch, if s.seat.owner == 0 then 0 else s.session)})
    case Route(sample, device, body, stored) => NextRoute(s, sample, device, body, stored)
    case ConsoleRead(Keyboard) => s.(seat := s.seat.(keyboard := Rest(s.seat.keyboard)))
    case ConsoleRead(Mouse) => s.(seat := s.seat.(mouse := Rest(s.seat.mouse)))
    case AcquireLock(pid) => if s.seat.owner != 0 then s else s.(lock := Acquiring(pid))
    case AcquireCommit =>
      var seat := s.seat.Acquire(s.lock.pid);
      s.(seat := seat, session := s.session + 1, ledger := FreshLedger(seat.queue), lock := Free)
    case AcquireAbort => s.(lock := Free)
    case ReleaseLock(pid) => if s.seat.owner != pid then s else s.(lock := Releasing(pid))
    case ReleaseCommit =>
      s.(seat := s.seat.Release(),
      ledger := FreshLedger(s.seat.Release().queue),
      lock := Finishing,
      waking := s.waking + Taken(s.seat.queue.waiter))
    case ReleaseUnlock => s.(lock := Free)
    case AcceptSignal(pid) => s.(signalled := s.signalled + {pid}, notifying := s.notifying + multiset{pid})
    case SettleSignal(pid) => s.(signalled := s.signalled - {pid})
    case Notify(pid) =>
      s.(seat := s.seat.Notify(pid),
      notifying := s.notifying - multiset{pid},
      waking := s.waking + Taken(s.seat.NotifyWakes(pid)))
    case Read(pid, pass) => NextRead(s, pid, pass)
    case Arm(pid) => s.(seat := s.seat.Arm(pid, s.readers[pid]).0)
    case Disarm(task) => s.(seat := s.seat.ClearWaiter(task))
    case Wake(task) => s.(waking := s.waking - multiset{task}, parked := s.parked - {task})
    case Expire(task) => s.(parked := s.parked - {task})
  }

  predicate Initial(s: Sys) {
    && s.seat == Seat(0, 0, 1, Queue([], 1, None, 0, false), [], [])
    && s.session == 0 && s.ledger == FreshLedger(s.seat.queue) && s.lock.Free?
    && s.inFlight == multiset{} && s.parked == {} && s.waking == multiset{}
    && s.notifying == multiset{} && OneReaderEach(s.readers)
  }

  /** No task reads for two processes. */
  predicate OneReaderEach(readers: map<u64, nat>) {
    forall p, q :: p in readers && q in readers && p != q ==> readers[p] != readers[q]
  }

  ghost predicate Behavior(states: seq<Sys>, steps: seq<Step>) {
    && |states| == |steps| + 1
    && Initial(states[0])
    && forall i :: 0 <= i < |steps| ==> Enabled(states[i], steps[i]) && states[i + 1] == Next(states[i], steps[i])
  }

  // ---------------------------------------------------------------- what every step keeps

  /** The epoch of the k-th session: 1, 2, ... and from 1 again after 2^64 - 1 of them. */
  function EpochOf(k: nat): (r: u64)
    ensures r > 0 <==> k > 0
  {
    if k == 0 then 0 else SequenceAt(1, k - 1)
  }

  predicate EpochsOk(s: Sys) {
    && s.seat.activeEpoch == (if s.seat.owner == 0 then 0 else EpochOf(s.session))
    && (s.seat.owner != 0 ==> s.session > 0)
    && s.seat.nextEpoch == (EpochOf(s.session) + 1) % 0x1_0000_0000_0000_0000
    && (forall m :: m in s.inFlight ==> m.epoch == EpochOf(m.origin) && m.origin <= s.session)
    && (forall e :: e in s.seat.queue.events ==> EpochOf(e.origin) == s.seat.activeEpoch && e.origin <= s.session)
    && (s.seat.owner == 0 ==> s.seat.queue.events == [] && s.seat.queue.waiter == None)
    && (s.seat.owner != 0 ==> s.seat.keyboard == [] && s.seat.mouse == [])
    && (s.lock.Acquiring? ==> s.seat.owner == 0 && s.lock.pid != 0)
    && (s.lock.Releasing? ==> s.seat.owner == s.lock.pid != 0)
  }

  predicate WaitersOk(s: Sys) {
    && OneReaderEach(s.readers)
    && (s.seat.queue.waiter.Some? ==>
          && s.seat.owner != 0 && s.seat.queue.events == []
          && s.seat.owner in s.readers && s.seat.queue.waiter.value == s.readers[s.seat.owner])
    && (forall t :: t in s.parked ==> s.seat.queue.waiter == Some(t) || t in s.waking)
    && (forall p :: p in s.readers && s.readers[p] in s.parked && p in s.signalled ==>
          s.readers[p] in s.waking || p in s.notifying)
  }

  ghost predicate Inv(s: Sys) {
    EpochsOk(s) && WaitersOk(s) && Accounted(s.seat.queue, s.ledger)
  }

  lemma EpochStep(k: nat)
    ensures var next := (EpochOf(k) + 1) % 0x1_0000_0000_0000_0000;
            TakeEpoch(next) == (EpochOf(k + 1), (EpochOf(k + 1) + 1) % 0x1_0000_0000_0000_0000)
  {
    if k == 0 {
      SequenceStart(1);
    } else {
      SequenceStep(1, k - 1);
    }
  }

  /** Up to 2^64 - 1 sessions have different epochs. */
  lemma EpochsDistinct(j: nat, k: nat)
    requires j < U64_LIMIT && k < U64_LIMIT && EpochOf(j) == EpochOf(k)
    ensures j == k
  {
    if j > 0 {
      ModUnique(j - 1, 0xFFFF_FFFF_FFFF_FFFF, 0, j - 1);
    }
    if k > 0 {
      ModUnique(k - 1, 0xFFFF_FFFF_FFFF_FFFF, 0, k - 1);
    }
  }

  /** Epochs repeat exactly after 2^64 - 1 sessions. */
  lemma EpochsRepeat(j: nat, k: nat)
    requires 1 <= j && 1 <= k
    ensures EpochOf(j) == EpochOf(k) <==> j % 0xFFFF_FFFF_FFFF_FFFF == k % 0xFFFF_FFFF_FFFF_FFFF
  {
    EpochResidue(j);
    EpochResidue(k);
  }

  lemma EpochResidue(k: nat)
    requires k >= 1
    ensures var m, e := 0xFFFF_FFFF_FFFF_FFFF, EpochOf(k); 1 <= e <= m && k % m == if e == m then 0 else e
  {
    var m := 0xFFFF_FFFF_FFFF_FFFF;
    var q, r := (k - 1) / m, (k - 1) % m;
    if r + 1 == m {
      ModUnique(k, m, q + 1, 0);
    } else {
      ModUnique(k, m, q, r + 1);
    }
  }

  lemma InitialInv(s: Sys)
    requires Initial(s)
    ensures Inv(s)
  {
    SequenceStart(1);
  }

  /** The part of the invariant about epochs and waiters. */
  predicate SessionOk(s: Sys) { EpochsOk(s) && WaitersOk(s) }

  lemma RouteEpochs(s: Sys, sample: Sample, device: Device, body: nat, stored: bool)
    requires SessionOk(s) && sample in s.inFlight
    ensures EpochsOk(NextRoute(s, sample, device, body, stored))
  {
    hide EpochOf, Advance, WaitersOk;
    var t := NextRoute(s, sample, device, body, stored);
    assert forall m :: m in t.inFlight ==> m in s.inFlight;
    assert forall e :: e in t.seat.queue.events ==> e in s.seat.queue.events || e.origin == sample.origin;
  }

  lemma RouteWaiters(s: Sys, sample: Sample, device: Device, body: nat, stored: bool)
    requires SessionOk(s) && sample in s.inFlight
    ensures WaitersOk(NextRoute(s, sample, device, body, stored))
  {
    hide EpochOf, Advance, EpochsOk, OneReaderEach, Queue.Push;
    var t := NextRoute(s, sample, device, body, stored);
    assert forall k :: k in s.waking ==> k in t.waking;
  }

  lemma ReadKeeps(s: Sys, pid: u64, pass: Pass)
    requires SessionOk(s) && Enabled(s, Read(pid, pass))
    ensures SessionOk(NextRead(s, pid, pass))
  {
    hide EpochOf;
  }

  lemma AcquireKeeps(s: Sys)
    requires SessionOk(s) && s.lock.Acquiring?
    ensures SessionOk(Next(s, AcquireCommit))
  {
    hide EpochOf;
    EpochStep(s.session);
    hide TakeEpoch;
  }

  lemma ReleaseKeeps(s: Sys)
    requires SessionOk(s) && s.lock.Releasing?
    ensures SessionOk(Next(s, ReleaseCommit))
  {
    hide EpochOf;
  }

  /** Taking the registration away turns it into a wake under way. */
  lemma TakeWaiter(s: Sys)
    requires WaitersOk(s)
    ensures forall t :: t in s.parked ==> t in s.waking + Taken(s.seat.queue.waiter)
    ensures forall t :: t in s.waking ==> t in s.waking + Taken(s.seat.queue.waiter)
  {
    hide OneReaderEach;
  }

  lemma NotifyKeeps(s: Sys, pid: u64)
    requires SessionOk(s) && pid in s.notifying
    ensures SessionOk(Next(s, Notify(pid)))
  {
    hide EpochOf, OneReaderEach;
    if s.seat.owner == pid {
      TakeWaiter(s);
    } else {
      NotifyOther(s, pid);
    }
  }

  lemma EpochsSame(s: Sys, t: Sys)
    requires EpochsOk(s) && t.seat == s.seat && t.session == s.session && t.inFlight == s.inFlight && t.lock == s.lock
    ensures EpochsOk(t)
  {
    hide EpochOf;
  }

  lemma NotifyOther(s: Sys, pid: u64)
    requires SessionOk(s) && pid in s.notifying && s.seat.owner != pid
    ensures SessionOk(Next(s, Notify(pid)))
  {
    hide EpochsOk, OneReaderEach;
    var t := Next(s, Notify(pid));
    assert t == s.(notifying := s.notifying - multiset{pid});
    hide Next;
    EpochsSame(s, t);
    assert forall p :: p in s.notifying && p != pid ==> p in t.notifying;
    OthersDoNotWait(s, pid);
  }

  lemma OthersDoNotWait(s: Sys, pid: u64)
    requires WaitersOk(s) && s.seat.owner != pid
    ensures pid in s.readers && s.readers[pid] in s.parked ==> s.readers[pid] in s.waking
  {
  }

  lemma ArmKeeps(s: Sys, pid: u64)
    requires SessionOk(s) && Enabled(s, Arm(pid))
    ensures SessionOk(Next(s, Arm(pid)))
  {
    hide EpochOf;
  }

  lemma LockKeeps(s: Sys, lock: SessionLock)
    requires SessionOk(s)
    requires lock.Acquiring? ==> s.seat.owner == 0 && lock.pid != 0
    requires lock.Releasing? ==> s.seat.owner == lock.pid != 0
    ensures SessionOk(s.(lock := lock))
  {
    hide EpochOf;
  }

  lemma SignalKeeps(s: Sys, pid: u64)
    requires SessionOk(s)
    ensures SessionOk(Next(s, AcceptSignal(pid))) && SessionOk(Next(s, SettleSignal(pid)))
  {
    hide EpochsOk, OneReaderEach;
    var accepted := Next(s, AcceptSignal(pid));
    EpochsSame(s, accepted);
    EpochsSame(s, Next(s, SettleSignal(pid)));
    assert forall p :: p in s.notifying ==> p in accepted.notifying;
  }

  lemma TaskKeeps(s: Sys, task: nat)
    requires SessionOk(s)
    ensures task !in s.parked ==> SessionOk(Next(s, Disarm(task)))
    ensures SessionOk(Next(s, Expire(task)))
  {
    hide EpochOf;
  }

  lemma WakeKeeps(s: Sys, task: nat)
    requires SessionOk(s) && task in s.waking
    ensures SessionOk(Next(s, Wake(task)))
  {
    hide EpochOf;
    var t := Next(s, Wake(task));
    assert forall k :: k in s.waking && k != task ==> k in t.waking;
  }

  lemma InputKeeps(s: Sys, device: Device)
    requires SessionOk(s)
    ensures SessionOk(Next(s, SampleEpoch)) && SessionOk(Next(s, ConsoleRead(device)))
  {
    assert EpochOf(0) == 0;
    hide EpochOf;
  }

  lemma StepSession(s: Sys, step: Step)
    requires SessionOk(s) && Enabled(s, step)
    ensures SessionOk(Next(s, step))
  {
    hide EpochsOk, WaitersOk, NextRoute, NextRead;
    match step
    case Route(sample, device, body, stored) =>
      RouteEpochs(s, sample, device, body, stored);
      RouteWaiters(s, sample, device, body, stored);
    case Read(pid, pass) => ReadKeeps(s, pid, pass);
    case AcquireCommit => AcquireKeeps(s);
    case ReleaseCommit => ReleaseKeeps(s);
    case Notify(pid) => NotifyKeeps(s, pid);
    case Arm(pid) => ArmKeeps(s, pid);
    case SampleEpoch => InputKeeps(s, Keyboard);
    case ConsoleRead(device) => InputKeeps(s, device);
    case AcceptSignal(pid) => SignalKeeps(s, pid);
    case SettleSignal(pid) => SignalKeeps(s, pid);
    case Disarm(task) => TaskKeeps(s, task);
    case Expire(task) => TaskKeeps(s, task);
    case Wake(task) => WakeKeeps(s, task);
    case _ => LockKeeps(s, Next(s, step).lock);
  }

  lemma RouteAccounted(s: Sys, sample: Sample, device: Device, body: nat, stored: bool)
    requires Accounted(s.seat.queue, s.ledger)
    ensures var t := NextRoute(s, sample, device, body, stored); Accounted(t.seat.queue, t.ledger)
  {
    var pushed := s.seat.queue.Push(body, sample.origin);
    PushAccounted(s.seat.queue, s.ledger, body, sample.origin);
    WaiterUnaccounted(pushed, s.ledger.Push(|s.seat.queue.events| == EVENT_QUEUE_CAPACITY), None);
    hide Accounted, Queue.Push;
  }

  /** Who waits does not matter to the accounting. */
  lemma WaiterUnaccounted(q: Queue, l: Ledger, waiter: Option<nat>)
    requires Accounted(q, l)
    ensures Accounted(q.(waiter := waiter), l)
  {
    hide SequenceAt;
  }

  lemma ReadAccounted(s: Sys, pid: u64, pass: Pass)
    requires Accounted(s.seat.queue, s.ledger) && pid in s.readers
    ensures var t := NextRead(s, pid, pass); Accounted(t.seat.queue, t.ledger)
  {
    var q := s.seat.queue;
    var task := s.readers[pid];
    DeliverAccounted(q, s.ledger, pass.room);
    WaiterUnaccounted(q, s.ledger, None);
    WaiterUnaccounted(q, s.ledger, Some(task));
    WaiterUnaccounted(q.Commit(q.StageCount(pass.room)), s.ledger.Deliver(q.Staged(pass.room)), None);
    hide Accounted, Queue.Commit, Queue.Staged, Ledger.Deliver;
  }

  lemma StepAccounted(s: Sys, step: Step)
    requires Accounted(s.seat.queue, s.ledger) && Enabled(s, step)
    ensures Accounted(Next(s, step).seat.queue, Next(s, step).ledger)
  {
    hide Accounted, NextRoute, NextRead;
    if step.Route? {
      RouteAccounted(s, step.sample, step.device, step.body, step.stored);
    } else if step.Read? {
      ReadAccounted(s, step.pid, step.pass);
    } else if step.AcquireCommit? || step.ReleaseCommit? {
      SessionAccounted(s, step);
    } else {
      OnlyWaiter(s, step);
      WaiterUnaccounted(s.seat.queue, s.ledger, Next(s, step).seat.queue.waiter);
    }
  }

  lemma SessionAccounted(s: Sys, step: Step)
    requires Accounted(s.seat.queue, s.ledger) && Enabled(s, step) && (step.AcquireCommit? || step.ReleaseCommit?)
    ensures Accounted(Next(s, step).seat.queue, Next(s, step).ledger)
  {
    assert s.seat.queue.next > 0;
    hide Accounted, SequenceAt, TakeEpoch;
    ResetAccounted(s.seat.queue);
  }

  /** The other steps change nothing about the queue but who waits for it. */
  lemma OnlyWaiter(s: Sys, step: Step)
    requires Enabled(s, step) && !step.Route? && !step.Read? && !step.AcquireCommit? && !step.ReleaseCommit?
    ensures var t := Next(s, step);
            t.ledger == s.ledger && t.seat.queue == s.seat.queue.(waiter := t.seat.queue.waiter)
  {
    hide NextRoute, NextRead, Seat.Acquire, Seat.Release, FreshLedger;
    if !step.Notify? && !step.Arm? && !step.Disarm? {
      hide Seat.Notify, Seat.Arm, Seat.ClearWaiter;
      assert Next(s, step).seat.queue == s.seat.queue;
    }
  }

  /** Every step of every interleaving keeps the invariant. */
  lemma StepInv(s: Sys, step: Step)
    requires Inv(s) && Enabled(s, step)
    ensures Inv(Next(s, step))
  {
    hide Next, EpochsOk, WaitersOk, Accounted;
    StepSession(s, step);
    StepAccounted(s, step);
  }

  lemma {:induction false} BehaviorInv(states: seq<Sys>, steps: seq<Step>, i: nat)
    requires Behavior(states, steps) && i < |states|
    ensures Inv(states[i])
  {
    hide Inv;
    if i == 0 {
      InitialInv(states[0]);
    } else {
      BehaviorInv(states, steps, i - 1);
      StepInv(states[i - 1], steps[i - 1]);
    }
  }

  // ---------------------------------------------------------------- main results

  /**
   No lost wakeup: a registered waiter means an owned session with nothing to read, a parked reader
   is registered or already being woken, and a parked reader whose process has an interrupting
   signal is being woken or about to be notified.
   */
  lemma NoLostWakeup(states: seq<Sys>, steps: seq<Step>, i: nat)
    requires Behavior(states, steps) && i < |states|
    ensures var s := states[i];
            && (s.seat.queue.waiter.Some? ==> s.seat.owner != 0 && s.seat.queue.events == [])
            && (forall t :: t in s.parked && t !in s.waking ==> s.seat.queue.waiter == Some(t))
            && (forall p :: p in s.readers && s.readers[p] in s.parked && p in s.signalled ==>
                  s.readers[p] in s.waking || p in s.notifying)
  {
    BehaviorInv(states, steps, i);
  }

  /** The steps that give a reader something to see. */
  predicate Wakes(s: Sys, step: Step) {
    || (step.Route? && ClassifyEventRoute(step.sample.epoch, s.seat.activeEpoch).Userspace?)
    || step.ReleaseCommit?
    || (step.Notify? && step.pid == s.seat.owner)
  }

  predicate AllWaking(s: Sys) { forall t :: t in s.parked ==> t in s.waking }

  /** Every push, release and signal notification of the owner leaves each parked reader with a wake under way. */
  lemma WakesEveryReader(states: seq<Sys>, steps: seq<Step>, i: nat)
    requires Behavior(states, steps) && i < |steps| && Wakes(states[i], steps[i])
    ensures AllWaking(states[i + 1])
  {
    BehaviorInv(states, steps, i);
    hide Accounted, EpochsOk;
    TakeWaiter(states[i]);
    hide WaitersOk;
  }

  /** Skipping the notification of a process that is not the owner loses nothing. */
  lemma NotOwnerNotWaiting(states: seq<Sys>, steps: seq<Step>, i: nat, pid: u64)
    requires Behavior(states, steps) && i < |states| && states[i].seat.owner != pid && pid in states[i].readers
    ensures states[i].seat.queue.waiter != Some(states[i].readers[pid])
  {
    BehaviorInv(states, steps, i);
    hide Accounted, EpochsOk;
  }

  /**
   Epoch isolation: an event in the user queue was sampled in a session with the current epoch; with
   fewer than 2^64 acquisitions that is the current session itself.
   */
  lemma EpochIsolation(states: seq<Sys>, steps: seq<Step>, i: nat)
    requires Behavior(states, steps) && i < |states|
    ensures var s := states[i];
            && (s.seat.owner != 0 <==> s.seat.activeEpoch != 0)
            && (s.seat.owner != 0 ==> s.seat.keyboard == [] && s.seat.mouse == [])
            && (forall e :: e in s.seat.queue.events ==> s.seat.owner != 0 && EpochOf(e.origin) == EpochOf(s.session))
            && (s.session < U64_LIMIT ==> forall e :: e in s.seat.queue.events ==> e.origin == s.session)
  {
    BehaviorInv(states, steps, i);
    hide Accounted, WaitersOk;
    var s := states[i];
    if s.session < U64_LIMIT {
      forall e | e in s.seat.queue.events
        ensures e.origin == s.session
      {
        EpochsDistinct(e.origin, s.session);
      }
    }
  }

  /** What a read hands out, in any run: events of the session, in order, with an exact overflow flag. */
  lemma ReadsAreExact(states: seq<Sys>, steps: seq<Step>, i: nat)
    requires Behavior(states, steps) && i < |steps| && steps[i].Read?
    requires states[i].seat.Read(steps[i].pid, states[i].readers[steps[i].pid], steps[i].pass).1.Delivered?
    ensures var s := states[i];
            var r := s.seat.Read(steps[i].pid, s.readers[steps[i].pid], steps[i].pass).1.events;
            && r != [] && s.seat.owner == steps[i].pid && s.ledger.first > 0
            && (forall j :: 0 <= j < |r| ==> r[j].(overflow := false) == s.seat.queue.events[j])
            && states[i + 1].seat.queue.events == s.seat.queue.events[|r|..]
            && (r[0].overflow <==> s.ledger.skipped > 0)
            && r[0].sequence
               == (if s.ledger.last.Some? then SequenceAt(Advance(s.ledger.last.value), s.ledger.skipped)
                   else SequenceAt(s.ledger.first, s.ledger.skipped))
            && (forall j :: 0 <= j < |r| ==> r[j].sequence == SequenceAt(r[0].sequence, j))
            && (s.ledger.last.Some? && s.ledger.skipped < 0xFFFF_FFFF_FFFF_FFFF ==>
                  (r[0].overflow <==> r[0].sequence != Advance(s.ledger.last.value)))
            && states[i + 1].ledger.last == Some(r[|r| - 1].sequence) && states[i + 1].ledger.skipped == 0
  {
    hide EpochsOk, WaitersOk, SequenceAt, Advance;
    BehaviorInv(states, steps, i);
    hide Behavior;
    OverflowFlagExact(states[i].seat.queue, states[i].ledger, steps[i].pass.room);
    if states[i].ledger.last.Some? && states[i].ledger.skipped < 0xFFFF_FFFF_FFFF_FFFF {
      FlagMeansGap(states[i].seat.queue, states[i].ledger, steps[i].pass.room);
    }
  }

  /** A read whose copy faults changes nothing at all. */
  lemma FaultChangesNothing(states: seq<Sys>, steps: seq<Step>, i: nat)
    requires Behavior(states, steps) && i < |steps| && steps[i].Read?
    requires states[i].seat.Read(steps[i].pid, states[i].readers[steps[i].pid], steps[i].pass).1.Fault?
    ensures states[i + 1] == states[i]
  {
    BehaviorInv(states, steps, i);
    hide EpochsOk, Accounted;
  }

  /** Nothing gets lost or made up: pushed events are delivered, queued or counted as dropped. */
  lemma EventsConserved(states: seq<Sys>, steps: seq<Step>, i: nat)
    requires Behavior(states, steps) && i < |states|
    ensures var s := states[i];
            && s.ledger.pushed == s.ledger.delivered + |s.seat.queue.events| + s.ledger.drops
            && s.seat.queue.dropped == (if s.ledger.drops < U64_LIMIT then s.ledger.drops else U64_LIMIT - 1)
            && |s.seat.queue.events| <= EVENT_QUEUE_CAPACITY && s.ledger.first > 0
            && forall j :: 0 <= j < |s.seat.queue.events| ==>
                 s.seat.queue.events[j].sequence == SequenceAt(s.ledger.first, s.ledger.delivered + s.ledger.drops + j)
  {
    BehaviorInv(states, steps, i);
    hide EpochsOk, WaitersOk, SequenceAt;
  }

  // ---------------------------------------------------------------- how far isolation by session goes

  /** Every queued event was sampled in the current session. */
  predicate Isolated(s: Sys) { forall e :: e in s.seat.queue.events ==> e.origin == s.session }

  /** A seat owned by process 1 at the start of its k-th session, with nothing queued. */
  predicate FreshSession(s: Sys, k: nat) {
    && s.session == k && s.seat.owner == 1 && s.lock.Free? && s.seat.queue.events == []
  }

  lemma Extend(states: seq<Sys>, steps: seq<Step>, step: Step) returns (states': seq<Sys>, steps': seq<Step>)
    requires Behavior(states, steps) && Enabled(states[|steps|], step)
    ensures Behavior(states', steps') && steps' == steps + [step]
    ensures states'[|steps'|] == Next(states[|steps|], step)
  {
    hide Enabled, Next, Initial;
    states', steps' := states + [Next(states[|steps|], step)], steps + [step];
  }

  /** The first acquisition. */
  lemma FirstSession() returns (states: seq<Sys>, steps: seq<Step>)
    ensures Behavior(states, steps) && FreshSession(states[|steps|], 1)
  {
    var seat := Seat(0, 0, 1, Queue([], 1, None, 0, false), [], []);
    var start := Sys(seat, 0, FreshLedger(seat.queue), Free, multiset{}, map[], {}, multiset{}, {}, multiset{});
    states, steps := [start], [];
    states, steps := Extend(states, steps, AcquireLock(1));
    states, steps := Extend(states, steps, AcquireCommit);
  }

  /** Releasing and acquiring once more; what is in flight stays in flight. */
  lemma NextSession(states: seq<Sys>, steps: seq<Step>, k: nat) returns (states': seq<Sys>, steps': seq<Step>)
    requires Behavior(states, steps) && FreshSession(states[|steps|], k)
    ensures Behavior(states', steps') && FreshSession(states'[|steps'|], k + 1)
    ensures states'[|steps'|].inFlight == states[|steps|].inFlight
  {
    hide Behavior;
    states', steps' := Extend(states, steps, ReleaseLock(1));
    states', steps' := Extend(states', steps', ReleaseCommit);
    states', steps' := Extend(states', steps', ReleaseUnlock);
    states', steps' := Extend(states', steps', AcquireLock(1));
    states', steps' := Extend(states', steps', AcquireCommit);
  }

  lemma {:induction false} ReachSession(k: nat) returns (states: seq<Sys>, steps: seq<Step>)
    requires k >= 1
    ensures Behavior(states, steps) && FreshSession(states[|steps|], k)
  {
    hide Behavior, FreshSession;
    if k == 1 {
      states, steps := FirstSession();
    } else {
      states, steps := ReachSession(k - 1);
      states, steps := NextSession(states, steps, k - 1);
    }
  }

  lemma TakeSample(states: seq<Sys>, steps: seq<Step>, k: nat) returns (states': seq<Sys>, steps': seq<Step>)
    requires Behavior(states, steps) && FreshSession(states[|steps|], k)
    ensures Behavior(states', steps') && FreshSession(states'[|steps'|], k)
    ensures Sample(EpochOf(k), k) in states'[|steps'|].inFlight
  {
    hide Initial, EpochOf, NextRoute, NextRead;
    BehaviorLast(states, steps);
    var s := states[|steps|];
    assert Next(s, SampleEpoch) == s.(inFlight := s.inFlight + multiset{Sample(EpochOf(k), k)});
    states', steps' := Extend(states, steps, SampleEpoch);
  }

  /** Session k with a sample of session j still in flight. */
  lemma {:induction false} ReachSample(k: nat, j: nat) returns (states: seq<Sys>, steps: seq<Step>)
    requires 1 <= j <= k
    ensures Behavior(states, steps) && FreshSession(states[|steps|], k)
    ensures Sample(EpochOf(j), j) in states[|steps|].inFlight
    decreases k
  {
    hide Initial, Enabled, Next, EpochOf;
    if j == k {
      states, steps := ReachSession(k);
      states, steps := TakeSample(states, steps, k);
    } else {
      states, steps := ReachSample(k - 1, j);
      states, steps := NextSession(states, steps, k - 1);
    }
  }

  lemma BehaviorLast(states: seq<Sys>, steps: seq<Step>)
    requires Behavior(states, steps)
    ensures var s := states[|steps|]; s.seat.activeEpoch == if s.seat.owner == 0 then 0 else EpochOf(s.session)
  {
    BehaviorInv(states, steps, |steps|);
    hide WaitersOk, Accounted, EpochOf;
  }

  /** From 2^64 acquisitions on there is a run in which an event of an earlier session gets into the queue. */
  lemma SessionsMeet(k: nat) returns (states: seq<Sys>, steps: seq<Step>)
    requires k >= U64_LIMIT
    ensures Behavior(states, steps) && states[|steps|].session == k && !Isolated(states[|steps|])
  {
    var j := k - 0xFFFF_FFFF_FFFF_FFFF;
    states, steps := ReachSample(k, j);
    BehaviorLast(states, steps);
    SameEpoch(j, k);
    hide Behavior, EpochOf;
    var step := Route(Sample(EpochOf(j), j), Keyboard, 0, true);
    var s := states[|steps|];
    states, steps := Extend(states, steps, step);
    var e := Event(s.seat.queue.next, false, 0, j);
    assert e in states[|steps|].seat.queue.events;
  }

  lemma SameEpoch(j: nat, k: nat)
    requires 1 <= j && k == j + 0xFFFF_FFFF_FFFF_FFFF
    ensures EpochOf(j) == EpochOf(k) && EpochOf(j) > 0
  {
    var m := 0xFFFF_FFFF_FFFF_FFFF;
    ModUnique(k - 1, m, (j - 1) / m + 1, (j - 1) % m);
  }

  /** Isolation by session holds in every run that ends in session k exactly when k is below 2^64. */
  lemma IsolationExact(k: nat)
    ensures (forall states: seq<Sys>, steps: seq<Step> :: Behavior(states, steps) && states[|steps|].session == k ==>
             Isolated(states[|steps|]))
       <==> k < U64_LIMIT
  {
    hide Initial, Enabled, Next, EpochOf;
    if k < U64_LIMIT {
      forall states: seq<Sys>, steps: seq<Step> | Behavior(states, steps) && states[|steps|].session == k
        ensures Isolated(states[|steps|])
      {
        EpochIsolation(states, steps, |steps|);
      }
    } else {
      var states, steps := SessionsMeet(k);
    }
  }
}
