/** Interrupt entry, return and the run cycle of the interpreter, over a flat byte memory. */
module CpuInterrupts {
  import opened Bytes

  datatype Fault = Memory | InvalidInterruptGate(vector: byte) | InvalidTaskState
  datatype Result<+T> = Ok(value: T) | Err(fault: Fault)

  datatype Table = Table(base: u64, limit: u16)

  /** The part of the processor state that interrupts read or write. */
  datatype CpuState = CpuState(
    rip: u64, cs: u16, ss: u16, rflags: u64, rsp: u64, halted: bool, idtr: Table, gdtr: Table, tr: u16)

  datatype Gate = Gate(offset: u64, selector: u16, ist: nat, gateType: nat)

  /** The byte memory an address space shows; what lies outside cannot be read or written. */
  type Memory = seq<byte>

  function ReadLinear(m: Memory, address: u64, n: nat): (r: Option<seq<byte>>)
    ensures r.Some? ==> |r.value| == n
  {
    if address + n > |m| then None else Some(m[address..address + n])
  }

  function WriteLinear(m: Memory, address: u64, bytes: seq<byte>): (r: Option<Memory>)
    ensures r.Some? ==> |r.value| == |m|
  {
    if address + |bytes| > |m| then None else Some(m[..address] + bytes + m[address + |bytes|..])
  }

  predicate IsCanonical(address: u64) {
    if address / 0x8000_0000_0000 % 2 == 0 then address / 0x1_0000_0000_0000 == 0
    else address / 0x1_0000_0000_0000 == 0xFFFF
  }

  function LeWord(b: seq<byte>): u16
    requires |b| == 2
  {
    LeValueBound(b);
    Pow256Values();
    LeValue(b)
  }

  function LeQuad(b: seq<byte>): u64
    requires |b| == 8
  {
    LeValueBound(b);
    Pow256Values();
    LeValue(b)
  }

  lemma LeQuadOf(v: u64)
    ensures LeQuad(LeBytes(v, 8)) == v
  {
    LeRoundTrip(v, 8);
    Pow256Values();
  }

  function Wrap(v: nat): u64 { v % 0x1_0000_0000_0000_0000 }

  // ---------------------------------------------------------------- descriptor tables

  function ReadInterruptGate(s: CpuState, m: Memory, vector: byte): Result<Gate> {
    var bad := Err(InvalidInterruptGate(vector));
    var offset: nat := vector * 16;
    if offset + 15 > s.idtr.limit then bad
    else
      var entry := ReadLinear(m, Wrap(s.idtr.base + offset), 16);
      if entry.None? then Err(Memory)
      else
        var b := entry.value;
        var selector := LeWord(b[2..4]);
        var gateType: nat := b[5] % 16;
        if b[4] >= 8 || b[12..16] != [0, 0, 0, 0] then bad
        else if b[5] < 128 then bad
        else if b[5] / 16 % 2 != 0 || (gateType != 14 && gateType != 15) then bad
        else if selector < 4 then bad
        else
          var handler := LeQuad(b[0..2] + b[6..8] + b[8..12]);
          if !IsCanonical(handler) then bad else Ok(Gate(handler, selector, b[4] % 8, gateType))
  }

  /** The privilege level of the code segment a gate selects. */
  function ValidateCodeSegment(s: CpuState, m: Memory, vector: byte, selector: u16): (r: Result<nat>)
    ensures r.Ok? ==> r.value < 4
  {
    var bad := Err(InvalidInterruptGate(vector));
    var offset: nat := selector / 8 * 8;
    if selector / 4 % 2 != 0 then bad
    else if offset + 7 > s.gdtr.limit then bad
    else
      var entry := ReadLinear(m, Wrap(s.gdtr.base + offset), 8);
      if entry.None? then Err(Memory)
      else
        var access, flags: nat := entry.value[5], entry.value[6];
        if access < 128 || access / 16 % 2 == 0 || access / 8 % 2 == 0 || flags / 32 % 2 == 0 || flags / 64 % 2 != 0
          then bad
        else Ok(access / 32 % 4)
  }

  function ReadTaskStack(s: CpuState, m: Memory, offset: nat): (r: Result<u64>) {
    var selector: nat := s.tr / 8 * 8;
    if selector == 0 || s.tr / 4 % 2 != 0 || selector + 15 > s.gdtr.limit then Err(InvalidTaskState)
    else
      var entry := ReadLinear(m, Wrap(s.gdtr.base + selector), 16);
      if entry.None? then Err(Memory)
      else
        var d := entry.value;
        var high: nat := d[6] % 16;
        var limit: nat := LeWord(d[0..2]) + 0x1_0000 * high;
        if d[5] < 128 || d[5] / 16 % 2 != 0 || (d[5] % 16 != 9 && d[5] % 16 != 11) then Err(InvalidTaskState)
        else if limit < offset + 7 then Err(InvalidTaskState)
        else
          var base := LeQuad(d[2..5] + [d[7]] + d[8..12]);
          var pointer := ReadLinear(m, Wrap(base + offset), 8);
          if pointer.None? then Err(Memory)
          else
            var p := LeQuad(pointer.value);
            if p == 0 || !IsCanonical(p) then Err(InvalidTaskState) else Ok(p)
  }

  // ---------------------------------------------------------------- delivery and return

  function SelectStack(s: CpuState, m: Memory, vector: byte, gate: Gate, targetCpl: nat): (r: Result<u64>) {
    if gate.ist != 0 then ReadTaskStack(s, m, 0x24 + 8 * (gate.ist - 1))
    else if targetCpl < s.cs % 4 then
      if targetCpl != 0 then Err(InvalidInterruptGate(vector)) else ReadTaskStack(s, m, 4)
    else Ok(s.rsp)
  }

  function Frame(s: CpuState): (f: seq<byte>)
    ensures |f| == 40
  {
    LeBytes(s.rip, 8) + LeBytes(s.cs, 8) + LeBytes(s.rflags, 8) + LeBytes(s.rsp, 8) + LeBytes(s.ss, 8)
  }

  function ClearIf(rflags: u64): (r: u64)
    ensures !IfSet(r)
  {
    if rflags / 512 % 2 == 1 then rflags - 512 else rflags
  }
  function SetIf(rflags: u64): (r: u64)
    ensures IfSet(r)
  {
    if rflags / 512 % 2 == 1 then rflags else rflags + 512
  }
  function SetOne(rflags: u64): (r: u64)
    ensures r / 2 % 2 == 1
  {
    if rflags / 2 % 2 == 1 then rflags else rflags + 2
  }
  predicate IfSet(rflags: u64) { rflags / 512 % 2 == 1 }

  /** Setting and clearing the interrupt flag, and setting the fixed bit, touch no other bit of the flags. */
  lemma OtherFlagsKept(rflags: u64)
    ensures ClearIf(rflags) % 512 == SetIf(rflags) % 512 == rflags % 512
    ensures ClearIf(rflags) / 1024 == SetIf(rflags) / 1024 == rflags / 1024
    ensures SetOne(rflags) % 2 == rflags % 2 && SetOne(rflags) / 4 == rflags / 4
  {
    var q, p := rflags / 512, rflags / 2;
    InterruptBit(q / 2, q % 2, rflags % 512, rflags);
    FixedBit(p / 2, p % 2, rflags % 2, rflags);
  }

  lemma InterruptBit(up: nat, bit: nat, low: nat, v: nat)
    requires bit < 2 && low < 512 && v == 1024 * up + 512 * bit + low
    ensures v % 512 == low && v / 512 == 2 * up + bit && v / 1024 == up
    ensures bit == 1 ==> v >= 512 && (v - 512) % 512 == low && (v - 512) / 1024 == up
    ensures bit == 0 ==> (v + 512) % 512 == low && (v + 512) / 1024 == up
  {
    ModUnique(v, 512, 2 * up + bit, low);
    ModUnique(v, 1024, up, 512 * bit + low);
    if bit == 1 {
      ModUnique(v - 512, 512, 2 * up, low);
      ModUnique(v - 512, 1024, up, low);
    } else {
      ModUnique(v + 512, 512, 2 * up + 1, low);
      ModUnique(v + 512, 1024, up, 512 + low);
    }
  }

  lemma FixedBit(up: nat, bit: nat, low: nat, v: nat)
    requires bit < 2 && low < 2 && v == 4 * up + 2 * bit + low
    ensures v / 4 == up
    ensures bit == 0 ==> (v + 2) % 2 == low && (v + 2) / 4 == up
  {
    ModUnique(v, 4, up, 2 * bit + low);
    if bit == 0 {
      ModUnique(v + 2, 2, 2 * up + 1, low);
      ModUnique(v + 2, 4, up, 2 + low);
    }
  }

  /** Interrupt entry: every check before the first change to the processor state. */
  function Deliver(s: CpuState, m: Memory, vector: byte): (r: Result<(CpuState, Memory)>) {
    var gate := ReadInterruptGate(s, m, vector);
    if gate.Err? then Err(gate.fault)
    else
      var target := ValidateCodeSegment(s, m, vector, gate.value.selector);
      if target.Err? then Err(target.fault)
      else if target.value > s.cs % 4 then Err(InvalidInterruptGate(vector))
      else
        var stack := SelectStack(s, m, vector, gate.value, target.value);
        if stack.Err? then Err(stack.fault)
        else
          var top := stack.value - stack.value % 16;
          if top < 40 then Err(InvalidTaskState)
          else
            var written := WriteLinear(m, top - 40, Frame(s));
            if written.None? then Err(Memory)
            else Ok((Entered(s, gate.value, target.value, top - 40), written.value))
  }

  /** The requested privilege level goes into the low bits of the selector. */
  function CodeSelector(selector: u16, cpl: nat): u16
    requires cpl < 4
  {
    selector - selector % 4 + cpl
  }

  function Entered(s: CpuState, gate: Gate, targetCpl: nat, frameRsp: u64): CpuState
    requires targetCpl < 4
  {
    s.(rsp := frameRsp,
    cs := CodeSelector(gate.selector, targetCpl),
    ss := if targetCpl < s.cs % 4 then 0 else s.ss,
    rip := gate.offset,
    rflags := if gate.gateType == 14 then ClearIf(s.rflags) else s.rflags,
    halted := false)
  }

  function Pop(s: CpuState, m: Memory): (r: Result<(CpuState, u64)>) {
    var bytes := ReadLinear(m, s.rsp, 8);
    if bytes.None? then Err(Memory)
    else Ok((s.(rsp := Wrap(s.rsp + 8)), LeQuad(bytes.value)))
  }

  /** IRETQ: the state it leaves and the fault of the first pop that fails, which keeps the earlier pops. */
  function Iretq(s: CpuState, m: Memory): (r: (CpuState, Option<Fault>)) {
    var p0 := Pop(s, m);
    if p0.Err? then (s, Some(p0.fault)) else
    var p1 := Pop(p0.value.0, m);
    if p1.Err? then (p0.value.0, Some(p1.fault)) else
    var p2 := Pop(p1.value.0, m);
    if p2.Err? then (p1.value.0, Some(p2.fault)) else
    var p3 := Pop(p2.value.0, m);
    if p3.Err? then (p2.value.0, Some(p3.fault)) else
    var p4 := Pop(p3.value.0, m);
    if p4.Err? then (p3.value.0, Some(p4.fault)) else
    (p4.value.0.(rip := p0.value.1, cs := p1.value.1 % 0x1_0000, rflags := SetOne(p2.value.1),
                 ss := p4.value.1 % 0x1_0000, rsp := p3.value.1), None)
  }

  // ---------------------------------------------------------------- the machine

  lemma WriteNext(m: Memory, bytes: seq<byte>, address: nat, i: nat)
    requires i < |bytes| && address + |bytes| <= |m|
    ensures (m[..address] + bytes[..i] + m[address + i..])[address + i := bytes[i]]
         == m[..address] + bytes[..i + 1] + m[address + i + 1..]
  {
  }

  class Machine {
    var state: CpuState
    var shadow: nat
    const cells: array<byte>

    method WriteBytes(address: u64, bytes: seq<byte>) returns (ok: bool)
      modifies cells
      ensures ok <==> WriteLinear(old(cells[..]), address, bytes).Some?
      ensures cells[..] == if ok then WriteLinear(old(cells[..]), address, bytes).value else old(cells[..])
    {
      if address + |bytes| > cells.Length {
        return false;
      }
      ghost var before := cells[..];
      for i := 0 to |bytes|
        invariant cells[..] == before[..address] + bytes[..i] + before[address + i..]
      {
        WriteNext(before, bytes, address, i);
        cells[address + i] := bytes[i];
      }
      assert bytes[..|bytes|] == bytes;
      ok := true;
    }

    method DeliverInterrupt(vector: byte) returns (r: Option<Fault>)
      requires cells.Length <= 0x1_0000_0000_0000_0000
      modifies this`state, cells
      ensures match Deliver(old(state), old(cells[..]), vector)
              case Ok(next) => r == None && state == next.0 && cells[..] == next.1
              case Err(fault) => r == Some(fault) && state == old(state) && cells[..] == old(cells[..])
    {
      hide ReadInterruptGate, ValidateCodeSegment, SelectStack, WriteLinear, Frame, CodeSelector, ClearIf;
      var gate := ReadInterruptGate(state, cells[..], vector);
      if gate.Err? {
        return Some(gate.fault);
      }
      var target := ValidateCodeSegment(state, cells[..], vector, gate.value.selector);
      if target.Err? {
        return Some(target.fault);
      }
      var currentCpl := state.cs % 4;
      if target.value > currentCpl {
        return Some(InvalidInterruptGate(vector));
      }
      var stack := SelectStack(state, cells[..], vector, gate.value, target.value);
      if stack.Err? {
        return Some(stack.fault);
      }
      var top := stack.value - stack.value % 16;
      if top < 40 {
        return Some(InvalidTaskState);
      }
      var frameRsp := top - 40;
      var frame := Frame(state);
      var written := WriteBytes(frameRsp, frame);
      if !written {
        return Some(Memory);
      }
      var changes := target.value < currentCpl;
      state := state.(rsp := frameRsp, cs := CodeSelector(gate.value.selector, target.value));
      if changes {
        state := state.(ss := 0);
      }
      state := state.(rip := gate.value.offset);
      if gate.value.gateType == 14 {
        state := state.(rflags := ClearIf(state.rflags));
      }
      state := state.(halted := false);
      r := None;
    }

    ghost function View(): Core
      reads this
    {
      Core(IfSet(state.rflags), shadow, state.halted)
    }

    /**
     One cycle: deliver a pending interrupt if it may be, idle if halted, else step. `left` is what the
     step leaves: its RIP lies behind the fetched instruction, and an instruction without a case of its
     own, or one that faults, may have changed anything but `halted` and the shadow.
     */
    method RunCycle(pending: Option<byte>, instruction: Instruction, left: Effect) returns (e: Event)
      requires cells.Length <= 0x1_0000_0000_0000_0000 && |left.memory| == cells.Length
      requires instruction.Other? || instruction.Faulting? ==>
                 left.state.halted == state.halted && IfSet(left.state.rflags) == instruction.interruptsAfter
      modifies this, cells
      ensures var delivery := if pending.Some? then DeliveryOf(old(state), old(cells[..]), pending.value) else Fails;
              (View(), e) == Cycle(old(View()), Input(pending, delivery, instruction))
      ensures match e
              case Delivered =>
                pending.Some? && Ok((state, cells[..])) == Deliver(old(state), old(cells[..]), pending.value)
              case DeliveryFault => state == old(state) && cells[..] == old(cells[..])
              case Idle => state == old(state) && cells[..] == old(cells[..])
              case StepFault => state == left.state && cells[..] == left.memory
              case Executed(Other(_)) => state == left.state && cells[..] == left.memory
              case Executed(i) =>
                && cells[..] == old(cells[..])
                && state == Special(old(state), i).(rip := left.state.rip)
    {
      hide Deliver;
      var inhibited := shadow != 0;
      shadow := if shadow == 0 then 0 else shadow - 1;
      if !inhibited && IfSet(state.rflags) {
        if pending.Some? {
          DeliveredCore(state, cells[..], pending.value);
          var fault := DeliverInterrupt(pending.value);
          return if fault.Some? then DeliveryFault else Delivered;
        }
      }
      if state.halted {
        return Idle;
      }
      e := Step(instruction, left);
    }

    /** Fetching and executing one instruction. */
    method Step(instruction: Instruction, left: Effect) returns (e: Event)
      requires |left.memory| == cells.Length
      modifies this, cells
      ensures e == if instruction.Faulting? then StepFault else Executed(instruction)
      ensures shadow == if instruction.Sti? then 1 else old(shadow)
      ensures instruction.Other? || instruction.Faulting? ==> state == left.state && cells[..] == left.memory
      ensures !instruction.Other? && !instruction.Faulting? ==>
                cells[..] == old(cells[..]) && state == Special(old(state), instruction).(rip := left.state.rip)
    {
      state := state.(rip := left.state.rip);
      match instruction {
        case Sti =>
          state := state.(rflags := SetIf(state.rflags));
          shadow := 1;
        case Hlt => state := state.(halted := true);
        case Cli => state := state.(rflags := ClearIf(state.rflags));
        case _ =>
          state := left.state;
          var _ := WriteBytes(0, left.memory);
      }
      e := if instruction.Faulting? then StepFault else Executed(instruction);
    }

    method PopValue() returns (r: Result<u64>)
      modifies this`state
      ensures match Pop(old(state), cells[..])
              case Ok(next) => r == Ok(next.1) && state == next.0
              case Err(fault) => r == Err(fault) && state == old(state)
    {
      var bytes := ReadLinear(cells[..], state.rsp, 8);
      if bytes.None? {
        return Err(Memory);
      }
      state := state.(rsp := Wrap(state.rsp + 8));
      r := Ok(LeQuad(bytes.value));
    }

    method ReturnFromInterrupt() returns (r: Option<Fault>)
      modifies this`state
      ensures (state, r) == Iretq(old(state), cells[..])
    {
      hide Pop;
      var rip := PopValue();
      if rip.Err? {
        return Some(rip.fault);
      }
      var cs := PopValue();
      if cs.Err? {
        return Some(cs.fault);
      }
      var rflags := PopValue();
      if rflags.Err? {
        return Some(rflags.fault);
      }
      var rsp := PopValue();
      if rsp.Err? {
        return Some(rsp.fault);
      }
      var ss := PopValue();
      if ss.Err? {
        return Some(ss.fault);
      }
      state := state.(rip := rip.value, cs := cs.value % 0x1_0000, rflags := SetOne(rflags.value),
      ss := ss.value % 0x1_0000, rsp := rsp.value);
      r := None;
    }
  }

  lemma FrameFields(s: CpuState)
    ensures var f := Frame(s);
            && LeQuad(f[0..8]) == s.rip && LeQuad(f[8..16]) == s.cs && LeQuad(f[16..24]) == s.rflags
            && LeQuad(f[24..32]) == s.rsp && LeQuad(f[32..40]) == s.ss
  {
    hide LeBytes, LeQuad;
    LeQuadOf(s.rip);
    LeQuadOf(s.cs);
    LeQuadOf(s.rflags);
    LeQuadOf(s.rsp);
    LeQuadOf(s.ss);
    var f := Frame(s);
    assert f[0..8] == LeBytes(s.rip, 8);
    assert f[8..16] == LeBytes(s.cs, 8);
    assert f[16..24] == LeBytes(s.rflags, 8);
    assert f[24..32] == LeBytes(s.rsp, 8);
    assert f[32..40] == LeBytes(s.ss, 8);
  }

  lemma SliceOfSlice(m: seq<byte>, at: nat, n: nat, i: nat, j: nat)
    requires i <= j <= n && at + n <= |m|
    ensures m[at..at + n][i..j] == m[at + i..at + j]
  {
    var x, y := m[at..at + n][i..j], m[at + i..at + j];
    forall k | 0 <= k < j - i
      ensures x[k] == y[k]
    {
      assert x[k] == m[at..at + n][i + k] == m[at + (i + k)];
      assert y[k] == m[(at + i) + k];
    }
  }

  lemma PopStep(s: CpuState, m: Memory, at: u64, f: seq<byte>, k: nat)
    requires at + 40 <= |m| <= 0x1_0000_0000_0000_0000 && |f| == 40 && m[at..at + 40] == f
    requires k < 5 && s.rsp == at + 8 * k
    ensures Pop(s, m) == Ok((s.(rsp := Wrap(s.rsp + 8)), LeQuad(f[8 * k..8 * k + 8])))
    ensures k < 4 ==> Wrap(s.rsp + 8) == at + 8 * (k + 1)
  {
    hide LeQuad;
    SliceOfSlice(m, at, 40, 8 * k, 8 * k + 8);
  }

  /** Popping five values off an intact frame gives back what was pushed. */
  lemma IretqReadsFrame(s: CpuState, before: CpuState, m: Memory)
    requires s.rsp + 40 <= |m| <= 0x1_0000_0000_0000_0000 && m[s.rsp..s.rsp + 40] == Frame(before)
    ensures Iretq(s, m)
         == (s.(rip := before.rip, cs := before.cs, rflags := SetOne(before.rflags), ss := before.ss,
                rsp := before.rsp), None)
  {
    FrameFields(before);
    var f, a := Frame(before), s.rsp;
    hide Frame, LeQuad, SetOne, Pop, Wrap;
    PopStep(s, m, a, f, 0);
    PopStep(s.(rsp := a + 8), m, a, f, 1);
    PopStep(s.(rsp := a + 16), m, a, f, 2);
    PopStep(s.(rsp := a + 24), m, a, f, 3);
    PopStep(s.(rsp := a + 32), m, a, f, 4);
  }

  /**
   For every kind of entry (same stack, RSP0, IST): whatever the handler does, IRETQ with the stack
   pointer back at an untouched frame restores RIP, CS, SS, RSP and RFLAGS with its fixed bit.
   */
  lemma DeliverThenReturn(s: CpuState, m: Memory, vector: byte, after: CpuState, m': Memory)
    requires Deliver(s, m, vector).Ok? && |m'| == |m| <= 0x1_0000_0000_0000_0000
    requires after.rsp == Deliver(s, m, vector).value.0.rsp
    requires m'[after.rsp..after.rsp + 40] == Deliver(s, m, vector).value.1[after.rsp..after.rsp + 40]
    ensures Iretq(after, m')
         == (after.(rip := s.rip, cs := s.cs, rflags := SetOne(s.rflags), ss := s.ss, rsp := s.rsp), None)
  {
    hide ReadInterruptGate, ValidateCodeSegment, SelectStack, Frame, Iretq, CodeSelector;
    var (s1, m1) := Deliver(s, m, vector).value;
    assert m1[s1.rsp..s1.rsp + 40] == Frame(s);
    IretqReadsFrame(after, s, m');
  }

  /** The frame lies on a 16-byte boundary below the selected stack, inside memory. */
  lemma DeliveredStack(s: CpuState, m: Memory, vector: byte)
    requires Deliver(s, m, vector).Ok?
    ensures var (s1, m1) := Deliver(s, m, vector).value;
            && (s1.rsp + 40) % 16 == 0 && s1.rsp + 40 <= |m|
            && m1[..s1.rsp] == m[..s1.rsp] && m1[s1.rsp + 40..] == m[s1.rsp + 40..]
            && !s1.halted && s1.idtr == s.idtr && s1.gdtr == s.gdtr && s1.tr == s.tr
  {
    hide ReadInterruptGate, ValidateCodeSegment, SelectStack, Frame, ClearIf, CodeSelector, WriteLinear;
    if Deliver(s, m, vector).Ok? {
      WriteKeeps(m, Deliver(s, m, vector).value.0.rsp, Frame(s));
    }
  }

  lemma WriteKeeps(m: Memory, address: u64, bytes: seq<byte>)
    ensures WriteLinear(m, address, bytes).Some? <==> address + |bytes| <= |m|
    ensures address + |bytes| <= |m| ==>
              var w := WriteLinear(m, address, bytes).value;
              w[..address] == m[..address] && w[address + |bytes|..] == m[address + |bytes|..]
  {
  }

  // ---------------------------------------------------------------- the run cycle

  /**
   The instruction a cycle would execute. Those without a case of their own, and those that fault, may
   leave the interrupt flag either way; none of them halts or raises the shadow.
   */
  datatype Instruction = Sti | Hlt | Cli | Other(interruptsAfter: bool) | Faulting(interruptsAfter: bool)

  /** The processor state and memory a step leaves. */
  datatype Effect = Effect(state: CpuState, memory: Memory)

  /** What the three special instructions do to the state. */
  function Special(s: CpuState, i: Instruction): CpuState {
    match i
    case Sti => s.(rflags := SetIf(s.rflags))
    case Cli => s.(rflags := ClearIf(s.rflags))
    case Hlt => s.(halted := true)
    case _ => s
  }

  /** What the devices, the gates and the code offer to one cycle. */
  datatype Delivery = Enters(clears: bool) | Fails
  datatype Input = Input(pending: Option<byte>, delivery: Delivery, instruction: Instruction)

  datatype Event = Delivered | DeliveryFault | Idle | Executed(instruction: Instruction) | StepFault

  /** The part of the machine the cycle decides on. */
  datatype Core = Core(interrupts: bool, shadow: nat, halted: bool)

  /** Whether a vector can be delivered, and whether its gate turns interrupts off. */
  function DeliveryOf(s: CpuState, m: Memory, vector: byte): Delivery {
    match Deliver(s, m, vector)
    case Ok(next) => Enters(!IfSet(next.0.rflags))
    case Err(_) => Fails
  }

  lemma DeliveredCore(s: CpuState, m: Memory, vector: byte)
    ensures Deliver(s, m, vector).Ok? ==> !Deliver(s, m, vector).value.0.halted
  {
    hide ReadInterruptGate, ValidateCodeSegment, SelectStack, WriteLinear, Frame;
  }

  function Cycle(c: Core, input: Input): (r: (Core, Event)) {
    var inhibited := c.shadow != 0;
    var now := c.(shadow := if c.shadow == 0 then 0 else c.shadow - 1);
    if !inhibited && c.interrupts && input.pending.Some? then
      match input.delivery
      case Enters(clears) => (now.(interrupts := !clears, halted := false), Delivered)
      case Fails => (now, DeliveryFault)
    else if c.halted then (now, Idle)
    else
      match input.instruction
      case Sti => (now.(interrupts := true, shadow := 1), Executed(Sti))
      case Hlt => (now.(halted := true), Executed(Hlt))
      case Cli => (now.(interrupts := false), Executed(Cli))
      case Other(after) => (now.(interrupts := after), Executed(Other(after)))
      case Faulting(after) => (now.(interrupts := after), StepFault)
  }

  /** A machine is started without a shadow; every later state comes from cycles. */
  ghost predicate Run(states: seq<Core>, inputs: seq<Input>) {
    && |states| == |inputs| + 1
    && states[0].shadow == 0
    && forall i :: 0 <= i < |inputs| ==> states[i + 1] == Cycle(states[i], inputs[i]).0
  }

  function EventAt(states: seq<Core>, inputs: seq<Input>, i: nat): Event
    requires i < |inputs| && i < |states|
  {
    Cycle(states[i], inputs[i]).1
  }

  /** The shadow is up exactly after a cycle that executed STI. */
  lemma {:induction false} ShadowMeansSti(states: seq<Core>, inputs: seq<Input>, i: nat)
    requires Run(states, inputs) && i < |states|
    ensures states[i].shadow <= 1
    ensures states[i].shadow == 1 <==> i > 0 && EventAt(states, inputs, i - 1) == Executed(Sti)
    ensures states[i].shadow == 1 ==> states[i].interrupts && !states[i].halted
  {
    if i == 0 {
    } else {
      ShadowMeansSti(states, inputs, i - 1);
      assert states[i] == Cycle(states[i - 1], inputs[i - 1]).0;
    }
  }

  /** In every run no interrupt is delivered in the cycle right after STI. */
  lemma NoDeliveryAfterSti(states: seq<Core>, inputs: seq<Input>, i: nat)
    requires Run(states, inputs) && i + 1 < |inputs| && EventAt(states, inputs, i) == Executed(Sti)
    ensures EventAt(states, inputs, i + 1) != Delivered && EventAt(states, inputs, i + 1) != DeliveryFault
    ensures EventAt(states, inputs, i + 1)
         == if inputs[i + 1].instruction.Faulting? then StepFault else Executed(inputs[i + 1].instruction)
  {
    ShadowMeansSti(states, inputs, i + 1);
  }

  /** `sti; hlt` always halts first, with interrupts on, so that the next pending interrupt wakes it. */
  lemma StiHltHaltsFirst(states: seq<Core>, inputs: seq<Input>, i: nat)
    requires Run(states, inputs) && i + 1 < |inputs|
    requires EventAt(states, inputs, i) == Executed(Sti) && inputs[i + 1].instruction == Hlt
    ensures EventAt(states, inputs, i + 1) == Executed(Hlt)
    ensures states[i + 2] == Core(true, 0, true)
    ensures i + 2 < |inputs| ==>
              EventAt(states, inputs, i + 2)
              == (if inputs[i + 2].pending.None? then Idle else if inputs[i + 2].delivery.Enters? then Delivered
                  else DeliveryFault)
  {
    ShadowMeansSti(states, inputs, i + 1);
    assert states[i + 2] == Cycle(states[i + 1], inputs[i + 1]).0;
  }

  /** A halted processor executes nothing and resumes only by delivering an interrupt. */
  lemma {:induction false} HaltedUntilDelivery(states: seq<Core>, inputs: seq<Input>, i: nat, j: nat)
    requires Run(states, inputs) && i <= j < |states| && states[i].halted
    requires forall k :: i <= k < j ==> EventAt(states, inputs, k) != Delivered
    ensures states[j].halted && states[j].interrupts == states[i].interrupts
    ensures forall k :: i <= k < j ==> EventAt(states, inputs, k) == Idle || EventAt(states, inputs, k) == DeliveryFault
    decreases j
  {
    if j <= i {
    } else {
      HaltedUntilDelivery(states, inputs, i, j - 1);
      assert EventAt(states, inputs, j - 1) != Delivered;
      assert states[j] == Cycle(states[j - 1], inputs[j - 1]).0;
    }
  }

  /**
   What every cycle of a run does: a pending interrupt goes first unless interrupts are off or STI came
   right before, then a halted processor idles, and otherwise one instruction is executed.
   */
  lemma CycleExact(states: seq<Core>, inputs: seq<Input>, i: nat)
    requires Run(states, inputs) && i < |inputs|
    ensures var e, next := EventAt(states, inputs, i), states[i + 1];
            var open := states[i].interrupts && !(i > 0 && EventAt(states, inputs, i - 1) == Executed(Sti));
            && (e == Delivered <==> open && inputs[i].pending.Some? && inputs[i].delivery.Enters?)
            && (e == DeliveryFault <==> open && inputs[i].pending.Some? && inputs[i].delivery.Fails?)
            && (e == Idle <==> states[i].halted && !(open && inputs[i].pending.Some?))
            && (e == Delivered ==> !next.halted && (next.interrupts <==> !inputs[i].delivery.clears))
            && (e == DeliveryFault || e == Idle ==>
                  next.halted == states[i].halted && next.interrupts == states[i].interrupts)
            && (e == Executed(Sti) ==> next.interrupts && !next.halted)
            && (e == Executed(Cli) ==> !next.interrupts && !next.halted)
            && (e == Executed(Hlt) ==> next.halted && next.interrupts == states[i].interrupts)
            && (e.Executed? ==> e.instruction == inputs[i].instruction && !inputs[i].instruction.Faulting?)
            && (e == StepFault ==> inputs[i].instruction.Faulting? && !next.halted)
  {
    ShadowMeansSti(states, inputs, i);
    assert states[i + 1] == Cycle(states[i], inputs[i]).0;
  }

  /** Interrupts are delivered only while they are enabled and not shadowed. */
  lemma DeliveryNeedsEnable(states: seq<Core>, inputs: seq<Input>, i: nat)
    requires Run(states, inputs) && i < |inputs| && EventAt(states, inputs, i) == Delivered
    ensures states[i].interrupts && inputs[i].pending.Some?
            && !(i > 0 && EventAt(states, inputs, i - 1) == Executed(Sti))
    ensures !states[i + 1].halted
  {
    ShadowMeansSti(states, inputs, i);
    assert states[i + 1] == Cycle(states[i], inputs[i]).0;
  }
}
