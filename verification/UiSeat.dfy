/** The display and input seat: ownership, the routing epoch and the sections under the event lock. */
module UiSeat {
  import opened Bytes
  import opened UiQueue

  const UI_MAX_EVENTS_PER_READ: nat := 32

  datatype Device = Keyboard | Mouse
  datatype EventRoute = Userspace | Kernel | Stale
  datatype ArmResult = Armed | Hangup | InputReady | Busy
  datatype ReadResult = Delivered(events: seq<Event>) | NotOwner | Fault | Interrupted | Nothing | Parked

  function ClassifyEventRoute(sampled: u64, active: u64): EventRoute {
    if sampled != active then Stale else if active == 0 then Kernel else Userspace
  }

  /** The first nonzero counter value at or after this one, and the counter left behind. */
  function TakeEpoch(next: u64): (r: (u64, u64))
    ensures r.0 != 0
  {
    var epoch := if next == 0 then 1 else next;
    (epoch, (epoch + 1) % 0x1_0000_0000_0000_0000)
  }

  /** What the world outside decides during one pass of a read. */
  datatype Pass = Pass(room: nat, immediate: bool, copies: bool, interrupted: bool, expired: bool)

  datatype Seat = Seat(owner: u64, activeEpoch: u64, nextEpoch: u64, queue: Queue, keyboard: seq<nat>,
                       mouse: seq<nat>) {

    function Acquire(pid: u64): Seat {
      var (epoch, next) := TakeEpoch(nextEpoch);
      Seat(pid, epoch, next, queue.Reset(), [], [])
    }

    function Release(): Seat { Seat(0, 0, nextEpoch, queue.Reset(), [], []) }

    function Fallback(device: Device, body: nat, stored: bool): Seat {
      if !stored then this
      else match device
        case Keyboard => this.(keyboard := keyboard + [body])
        case Mouse => this.(mouse := mouse + [body])
    }

    function Route(sampled: u64, device: Device, body: nat, origin: nat, stored: bool): Seat {
      match ClassifyEventRoute(sampled, activeEpoch)
      case Kernel => Fallback(device, body, stored)
      case Stale => this
      case Userspace => this.(queue := queue.Push(body, origin).(waiter := None))
    }

    /** The registration a route takes with it. */
    function RouteWakes(sampled: u64): Option<nat> {
      if ClassifyEventRoute(sampled, activeEpoch).Userspace? then queue.waiter else None
    }

    function Notify(pid: u64): Seat { if owner == pid then this.(queue := queue.(waiter := None)) else this }

    function NotifyWakes(pid: u64): Option<nat> { if owner == pid then queue.waiter else None }

    function Arm(pid: u64, task: nat): (r: (Seat, ArmResult)) {
      if owner != pid || pid == 0 then (this, Hangup)
      else if queue.events != [] then (this, InputReady)
      else if queue.waiter == None || queue.waiter == Some(task)
        then (this.(queue := queue.(waiter := Some(task))), Armed)
      else (this, Busy)
    }

    function ClearWaiter(task: nat): Seat { this.(queue := queue.ClearWaiter(task)) }

    /** One pass of the read loop under the event lock. */
    function Read(pid: u64, task: nat, pass: Pass): (r: (Seat, ReadResult)) {
      if owner != pid then (ClearWaiter(task), NotOwner)
      else if queue.StageCount(pass.room) != 0 then
        if !pass.copies then (ClearWaiter(task), Fault)
        else
          (this.(queue := queue.Commit(queue.StageCount(pass.room))).ClearWaiter(task),
           Delivered(queue.Staged(pass.room)))
      else if pass.immediate then (ClearWaiter(task), Nothing)
      else if pass.interrupted then (ClearWaiter(task), Interrupted)
      else if pass.expired then (ClearWaiter(task), Nothing)
      else (this.(queue := queue.(waiter := Some(task))), Parked)
    }
  }

  /** The seat in memory; each method is one section under the event lock. */
  class Ui {
    var owner: u64
    var activeEpoch: u64
    var nextEpoch: u64
    const events: EventState
    var keyboard: seq<nat>
    var mouse: seq<nat>

    ghost function View(): Seat
      reads this, events
    {
      Seat(owner, activeEpoch, nextEpoch, events.View(), keyboard, mouse)
    }

    ghost predicate Valid()
      reads this, events
    {
      events.Valid()
    }

    constructor ()
      ensures Valid() && fresh(events) && View() == Seat(0, 0, 1, Queue([], 1, None, 0, false), [], [])
    {
      events := new EventState();
      owner, activeEpoch, nextEpoch := 0, 0, 1;
      keyboard, mouse := [], [];
    }

    /** Takes counter values until one is not zero. */
    method NextInputEpoch() returns (epoch: u64)
      modifies this`nextEpoch
      ensures (epoch, nextEpoch) == TakeEpoch(old(nextEpoch))
    {
      epoch := 0;
      var turns := 0;
      while epoch == 0
        invariant turns <= 2
        invariant turns == 0 ==> epoch == 0 && nextEpoch == old(nextEpoch)
        invariant turns == 1 ==> epoch == old(nextEpoch) && nextEpoch == (epoch + 1) % 0x1_0000_0000_0000_0000
        invariant turns == 2 ==> old(nextEpoch) == 0 && epoch == 1 && nextEpoch == 2
        decreases 2 - turns
      {
        epoch := nextEpoch;
        nextEpoch := (nextEpoch + 1) % 0x1_0000_0000_0000_0000;
        turns := turns + 1;
      }
    }

    method AcquireSection(pid: u64)
      requires Valid()
      modifies this, events
      ensures Valid() && View() == old(View()).Acquire(pid)
    {
      var _ := events.Reset();
      keyboard := [];
      mouse := [];
      owner := pid;
      activeEpoch := NextInputEpoch();
    }

    method ReleaseSection() returns (waiter: Option<nat>)
      requires Valid()
      modifies this, events
      ensures Valid() && View() == old(View()).Release() && waiter == old(events.waiter)
    {
      activeEpoch := 0;
      owner := 0;
      waiter := events.Reset();
      keyboard := [];
      mouse := [];
    }

    method RouteEvent(sampled: u64, device: Device, body: nat, origin: nat, stored: bool) returns (waiter: Option<nat>)
      requires Valid()
      modifies this, events
      ensures Valid() && View() == old(View()).Route(sampled, device, body, origin, stored)
      ensures waiter == old(View()).RouteWakes(sampled)
    {
      waiter := None;
      match ClassifyEventRoute(sampled, activeEpoch)
      case Kernel =>
        if stored {
          if device.Keyboard? {
            keyboard := keyboard + [body];
          } else {
            mouse := mouse + [body];
          }
        }
      case Stale =>
      case Userspace =>
        events.Push(body, origin);
        waiter := events.waiter;
        events.waiter := None;
    }

    method NotifySignal(pid: u64) returns (waiter: Option<nat>)
      requires Valid()
      modifies events
      ensures Valid() && View() == old(View()).Notify(pid) && waiter == old(View()).NotifyWakes(pid)
    {
      waiter := None;
      if owner == pid {
        waiter := events.waiter;
        events.waiter := None;
      }
    }

    method ArmExternalWait(pid: u64, task: nat) returns (r: ArmResult)
      requires Valid()
      modifies events
      ensures Valid() && (View(), r) == old(View()).Arm(pid, task)
    {
      if owner != pid || pid == 0 {
        return Hangup;
      }
      if |events.events| != 0 {
        return InputReady;
      }
      match events.waiter
      case None => events.waiter := Some(task); return Armed;
      case Some(existing) => return if existing == task then Armed else Busy;
    }

    method DisarmExternalWait(task: nat)
      requires Valid()
      modifies events
      ensures Valid() && View() == old(View()).ClearWaiter(task)
    {
      if events.waiter == Some(task) {
        events.waiter := None;
      }
    }

    /** One pass of the read loop; the copy to user memory has been prepared by the caller. */
    method ReadPass(pid: u64, task: nat, pass: Pass, staged: array<Event>) returns (r: ReadResult)
      requires Valid() && pass.room <= staged.Length
      modifies events, staged
      ensures Valid() && (View(), r) == old(View()).Read(pid, task, pass)
    {
      if owner != pid {
        DisarmExternalWait(task);
        return NotOwner;
      }
      var count := events.Stage(staged, pass.room);
      if count != 0 {
        if !pass.copies {
          DisarmExternalWait(task);
          return Fault;
        }
        r := Delivered(staged[..count]);
        events.Commit(count);
        DisarmExternalWait(task);
        return;
      }
      if pass.immediate {
        DisarmExternalWait(task);
        return Nothing;
      }
      if pass.interrupted {
        DisarmExternalWait(task);
        return Interrupted;
      }
      if pass.expired {
        DisarmExternalWait(task);
        return Nothing;
      }
      events.ArmWaiter(task);
      r := Parked;
    }
  }
}
