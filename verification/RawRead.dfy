/** The MIN and TIME rules of raw reads: the polled timer decides at the required moment. */
module RawRead {
  import opened Bytes

  datatype Decision = Wait | Read
  datatype Timer = Timer(deadline: Option<u64>, observed: nat)

  /** What a reader asks for: VMIN, VTIME in tenths of a second, and the size of its buffer. */
  datatype Request = Request(vmin: byte, vtime: byte, capacity: nat) {
    function Minimum(): nat { if vmin < capacity then vmin else capacity }
    function TimeoutNs(): nat { vtime * 100_000_000 }
  }

  datatype Poll = Poll(now: u64, available: nat)

  function SaturatingAdd(a: u64, b: nat): u64 { if a + b < U64_LIMIT then a + b else U64_LIMIT - 1 }

  function DecideTimer(q: Request, p: Poll, timer: Timer): (r: (Timer, Decision))
  {
    var minimum := q.Minimum();
    if q.vtime == 0 then (timer, if p.available >= minimum then Read else Wait)
    else if minimum == 0 then
      if p.available != 0 then (timer, Read)
      else
        var deadline := if timer.deadline.Some? then timer.deadline.value else SaturatingAdd(p.now, q.TimeoutNs());
        (timer.(deadline := Some(deadline)), if p.now >= deadline then Read else Wait)
    else if p.available >= minimum then (timer, Read)
    else
      var next := if p.available > timer.observed then Timer(Some(SaturatingAdd(p.now, q.TimeoutNs())), p.available)
                  else timer;
      (next, if next.deadline.Some? && p.now >= next.deadline.value then Read else Wait)
  }

  /** The timer a reader keeps between polls. */
  class RawReadTimer {
    var deadline: Option<u64>
    var observed: nat

    ghost function View(): Timer
      reads this
    {
      Timer(deadline, observed)
    }

    constructor ()
      ensures View() == Timer(None, 0)
    {
      deadline, observed := None, 0;
    }

    method Decide(q: Request, available: nat, now: u64) returns (r: Decision)
      modifies this
      ensures (View(), r) == DecideTimer(q, Poll(now, available), old(View()))
    {
      var minimum := if q.vmin < q.capacity then q.vmin else q.capacity;
      if q.vtime == 0 {
        return if available >= minimum then Read else Wait;
      }
      var timeout := q.vtime * 100_000_000;
      if minimum == 0 {
        if available != 0 {
          return Read;
        }
        if deadline.None? {
          deadline := Some(SaturatingAdd(now, timeout));
        }
        return if now >= deadline.value then Read else Wait;
      }
      if available >= minimum {
        return Read;
      }
      if available > observed {
        observed := available;
        deadline := Some(SaturatingAdd(now, timeout));
      }
      r := if deadline.Some? && now >= deadline.value then Read else Wait;
    }
  }

  // ---------------------------------------------------------------- polling

  /** Time and availability never go back. */
  ghost predicate Steady(polls: seq<Poll>) {
    forall i, j :: 0 <= i < j < |polls| ==>
      polls[i].now <= polls[j].now && polls[i].available <= polls[j].available
  }

  /** A fresh timer after the first k polls. */
  function TimerAfter(q: Request, polls: seq<Poll>, k: nat): Timer
    requires k <= |polls|
  {
    if k == 0 then Timer(None, 0) else DecideTimer(q, polls[k - 1], TimerAfter(q, polls, k - 1)).0
  }

  function DecisionAt(q: Request, polls: seq<Poll>, k: nat): Decision
    requires k < |polls|
  {
    DecideTimer(q, polls[k], TimerAfter(q, polls, k)).1
  }

  /** The poll up to k at which the reader last saw new bytes, if it ever saw one. */
  function LastIncrease(polls: seq<Poll>, k: nat): (r: Option<nat>)
    requires k < |polls|
    ensures r.Some? ==> r.value <= k
  {
    if polls[k].available > (if k == 0 then 0 else polls[k - 1].available) then Some(k)
    else if k == 0 then None
    else LastIncrease(polls, k - 1)
  }

  /** The time is up: the timeout has passed, or the clock has reached its last instant. */
  predicate Elapsed(q: Request, start: u64, now: u64) {
    var tenths: nat := q.vtime;
    now >= start + tenths * 100_000_000 || now == U64_LIMIT - 1
  }

  /** As many bytes as MIN asks for, or as the buffer takes. */
  predicate Enough(q: Request, available: nat) { available >= q.vmin || available >= q.capacity }

  /** The four cases of MIN and TIME: when a read that has waited until poll k must return there. */
  predicate Due(q: Request, polls: seq<Poll>, k: nat)
    requires k < |polls|
  {
    var p := polls[k];
    if q.vtime == 0 then Enough(q, p.available)
    else if q.vmin == 0 || q.capacity == 0 then p.available > 0 || Elapsed(q, polls[0].now, p.now)
    else
      || Enough(q, p.available)
      || (LastIncrease(polls, k).Some? && Elapsed(q, polls[LastIncrease(polls, k).value].now, p.now))
  }

  /** As long as nothing is due the timer holds the last increase and its deadline. */
  lemma {:induction false} TimerHolds(q: Request, polls: seq<Poll>, k: nat)
    requires Steady(polls) && k <= |polls| && q.vtime > 0
    requires forall i :: 0 <= i < k ==> !Due(q, polls, i)
    ensures q.Minimum() == 0 ==>
              TimerAfter(q, polls, k)
              == Timer(if k == 0 then None else Some(SaturatingAdd(polls[0].now, q.TimeoutNs())), 0)
    ensures q.Minimum() > 0 ==>
              TimerAfter(q, polls, k)
              == Timer(if k > 0 && LastIncrease(polls, k - 1).Some?
                       then Some(SaturatingAdd(polls[LastIncrease(polls, k - 1).value].now, q.TimeoutNs())) else None,
                       if k > 0 then polls[k - 1].available else 0)
  {
    if k == 0 {
    } else {
      TimerHolds(q, polls, k - 1);
      assert !Due(q, polls, k - 1);
    }
  }

  /** Read is returned at exactly the first poll at which the rules require it. */
  lemma DecidesWhenDue(q: Request, polls: seq<Poll>, k: nat)
    requires Steady(polls) && k < |polls|
    requires forall i :: 0 <= i < k ==> !Due(q, polls, i)
    ensures DecisionAt(q, polls, k) == Read <==> Due(q, polls, k)
  {
    if q.vtime > 0 {
      assert q.TimeoutNs() > 0;
      TimerHolds(q, polls, k);
    }
  }

  /** The same by the decisions alone: the first Read comes at the first poll that is due. */
  lemma {:induction false} FirstReadIsFirstDue(q: Request, polls: seq<Poll>, k: nat)
    requires Steady(polls) && k <= |polls|
    ensures (forall i :: 0 <= i < k ==> DecisionAt(q, polls, i) == Wait)
            <==> (forall i :: 0 <= i < k ==> !Due(q, polls, i))
  {
    hide Due, DecisionAt;
    if k == 0 {
    } else {
      FirstReadIsFirstDue(q, polls, k - 1);
      if forall i :: 0 <= i < k - 1 ==> !Due(q, polls, i) {
        DecidesWhenDue(q, polls, k - 1);
      } else {
        var i :| 0 <= i < k - 1 && Due(q, polls, i);
        var j :| 0 <= j < k - 1 && DecisionAt(q, polls, j) != Wait;
      }
    }
  }

  /** With both positive the read never expires before it has seen a byte. */
  lemma {:induction false} NoExpiryWithoutByte(q: Request, polls: seq<Poll>, k: nat)
    requires Steady(polls) && k < |polls| && q.vtime > 0 && q.Minimum() > 0 && polls[k].available == 0
    ensures LastIncrease(polls, k).None? && DecisionAt(q, polls, k) == Wait
    ensures TimerAfter(q, polls, k + 1) == Timer(None, 0)
  {
    if k == 0 {
    } else {
      assert polls[k - 1].available <= polls[k].available;
      NoExpiryWithoutByte(q, polls, k - 1);
    }
  }
}
