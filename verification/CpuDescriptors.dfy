/**
 Where an interrupt goes, stated by the descriptors that system software writes: their byte layouts are
 given by separate encoders, and delivery is characterised by what lies in memory.
 */
module CpuDescriptors {
  import opened Bytes
  import opened CpuInterrupts

  // ---------------------------------------------------------------- descriptors as they are written

  predicate CanonicalAddress(a: u64) { a < 0x8000_0000_0000 || a >= 0xFFFF_8000_0000_0000 }

  /** A present 64-bit interrupt gate (type 14) or trap gate (type 15). */
  datatype GateDescriptor = GateDescriptor(handler: u64, selector: u16, ist: nat, dpl: nat, trap: bool) {
    predicate Legal() { ist < 8 && dpl < 4 }

    function Bytes(): (r: seq<byte>)
      requires Legal()
      ensures |r| == 16
    {
      LeBytes(handler % 0x1_0000, 2) + LeBytes(selector, 2) + [ist, 0x80 + 0x20 * dpl + (if trap then 15 else 14)]
      + LeBytes(handler / 0x1_0000 % 0x1_0000, 2) + LeBytes(handler / 0x1_0000_0000, 4) + [0, 0, 0, 0]
    }
  }

  /** A present 64-bit code segment; base, limit and the low attribute bits do not matter. */
  datatype CodeDescriptor = CodeDescriptor(low: seq<byte>, dpl: nat, attributes: nat, flags: byte, high: byte) {
    predicate Legal() { |low| == 5 && dpl < 4 && attributes < 8 && flags / 32 % 2 == 1 && flags / 64 % 2 == 0 }

    function Bytes(): (r: seq<byte>)
      requires Legal()
      ensures |r| == 8
    {
      low + [0x98 + 0x20 * dpl + attributes, flags, high]
    }
  }

  /** A present 64-bit task state segment, available or busy. */
  datatype TaskDescriptor = TaskDescriptor(base: u64, limit: nat, dpl: nat, busy: bool, flags: nat, tail: seq<byte>) {
    predicate Legal() { limit < 0x10_0000 && dpl < 4 && flags < 16 && |tail| == 4 }

    function Bytes(): (r: seq<byte>)
      requires Legal()
      ensures |r| == 16
    {
      LeBytes(limit % 0x1_0000, 2) + LeBytes(base % 0x100_0000, 3)
      + [0x80 + 0x20 * dpl + (if busy then 11 else 9), 16 * flags + limit / 0x1_0000, base / 0x100_0000 % 0x100]
      + LeBytes(base / 0x1_0000_0000, 4) + tail
    }
  }

  /** Memory holds these bytes at an address; addresses wrap at 64 bits. */
  predicate Holds(m: Memory, address: nat, bytes: seq<byte>) {
    var a := address % 0x1_0000_0000_0000_0000;
    a + |bytes| <= |m| && m[a..a + |bytes|] == bytes
  }

  /** The interrupt table has this gate for a vector. */
  predicate GateAt(s: CpuState, m: Memory, vector: byte, g: GateDescriptor) {
    && g.Legal() && CanonicalAddress(g.handler)
    && 16 * vector + 15 <= s.idtr.limit && Holds(m, s.idtr.base + 16 * vector, g.Bytes())
  }

  /** The selector names this code segment of the global table. */
  predicate CodeAt(s: CpuState, m: Memory, selector: u16, c: CodeDescriptor) {
    && c.Legal() && selector >= 4 && selector / 4 % 2 == 0
    && selector / 8 * 8 + 7 <= s.gdtr.limit && Holds(m, s.gdtr.base + selector / 8 * 8, c.Bytes())
  }

  /** The task register names this task state. */
  predicate TaskAt(s: CpuState, m: Memory, d: TaskDescriptor) {
    && d.Legal() && s.tr >= 8 && s.tr / 4 % 2 == 0
    && s.tr / 8 * 8 + 15 <= s.gdtr.limit && Holds(m, s.gdtr.base + s.tr / 8 * 8, d.Bytes())
  }

  /** The task state has this stack pointer at an offset inside its limit. */
  predicate SlotAt(s: CpuState, m: Memory, d: TaskDescriptor, offset: nat, pointer: u64) {
    && TaskAt(s, m, d) && offset + 7 <= d.limit && Holds(m, d.base + offset, LeBytes(pointer, 8))
    && pointer != 0 && CanonicalAddress(pointer)
  }

  ghost predicate TaskStack(s: CpuState, m: Memory, offset: nat, pointer: u64) {
    exists d :: SlotAt(s, m, d, offset, pointer)
  }

  /**
   The stack an entry uses: the gate's interrupt stack, else RSP0 on a change to level 0, else the stack
   it is on.
   */
  ghost predicate StackIs(s: CpuState, m: Memory, g: GateDescriptor, level: nat, stack: u64) {
    if g.ist != 0 then TaskStack(s, m, 36 + 8 * (g.ist - 1), stack)
    else if level < s.cs % 4 then level == 0 && TaskStack(s, m, 4, stack)
    else stack == s.rsp
  }

  /** Gate, code segment and stack that let an interrupt in. */
  ghost predicate Admits(s: CpuState, m: Memory, vector: byte, g: GateDescriptor, c: CodeDescriptor, stack: u64) {
    && GateAt(s, m, vector, g) && CodeAt(s, m, g.selector, c) && c.dpl <= s.cs % 4 && StackIs(s, m, g, c.dpl, stack)
    && 40 <= stack - stack % 16 <= |m|
  }

  // ---------------------------------------------------------------- layouts

  lemma {:induction false} LeConcat(a: seq<byte>, b: seq<byte>)
    ensures LeValue(a + b) == LeValue(a) + Pow256(|a|) * LeValue(b)
  {
    if a == [] {
      assert a + b == b;
    } else {
      LeConcat(a[1..], b);
      assert (a + b)[1..] == a[1..] + b;
      assert 256 * (Pow256(|a| - 1) * LeValue(b)) == Pow256(|a|) * LeValue(b);
    }
  }

  lemma CanonicalIs(a: u64)
    ensures IsCanonical(a) <==> CanonicalAddress(a)
  {
  }

  /** A number put together from a 16-bit, a 16-bit and a 32-bit piece. */
  lemma HandlerPieces(low: seq<byte>, middle: seq<byte>, high: seq<byte>)
    requires |low| == 2 && |middle| == 2 && |high| == 4
    ensures var h := LeQuad(low + middle + high);
            && h == LeValue(low) + 0x1_0000 * LeValue(middle) + 0x1_0000_0000 * LeValue(high)
            && h % 0x1_0000 == LeValue(low) && h / 0x1_0000 % 0x1_0000 == LeValue(middle)
            && h / 0x1_0000_0000 == LeValue(high)
  {
    hide LeValue;
    LeConcat(low + middle, high);
    LeConcat(low, middle);
    LeValueBound(low);
    LeValueBound(middle);
    LeValueBound(high);
    Pow256Values();
    var a, b, c := LeValue(low), LeValue(middle), LeValue(high);
    var h := a + 0x1_0000 * b + 0x1_0000_0000 * c;
    ModUnique(h, 0x1_0000, b + 0x1_0000 * c, a);
    ModUnique(b + 0x1_0000 * c, 0x1_0000, c, b);
    ModUnique(h, 0x1_0000_0000, c, a + 0x1_0000 * b);
  }

  lemma ValueOf(v: nat, n: nat)
    requires v < Pow256(n)
    ensures LeValue(LeBytes(v, n)) == v
  {
    LeRoundTrip(v, n);
    ModUnique(v, Pow256(n), 0, v);
  }

  /** The fields of a gate are where the processor looks for them. */
  lemma GateFields(g: GateDescriptor)
    requires g.Legal()
    ensures var b := g.Bytes();
            && LeWord(b[2..4]) == g.selector && b[4] == g.ist
            && b[5] == 0x80 + 0x20 * g.dpl + (if g.trap then 15 else 14)
            && b[12..16] == [0, 0, 0, 0] && LeQuad(b[0..2] + b[6..8] + b[8..12]) == g.handler
  {
    hide LeBytes, LeValue, Pow256;
    var b := g.Bytes();
    var low, middle, high := g.handler % 0x1_0000, g.handler / 0x1_0000 % 0x1_0000, g.handler / 0x1_0000_0000;
    assert b[0..2] == LeBytes(low, 2) && b[2..4] == LeBytes(g.selector, 2);
    assert b[6..8] == LeBytes(middle, 2) && b[8..12] == LeBytes(high, 4) && b[12..16] == [0, 0, 0, 0];
    Pow256Values();
    ValueOf(low, 2);
    ValueOf(middle, 2);
    ValueOf(high, 4);
    ValueOf(g.selector, 2);
    HandlerPieces(b[0..2], b[6..8], b[8..12]);
    ThreePieces(g.handler);
  }

  lemma ThreePieces(h: u64)
    ensures h == h % 0x1_0000 + 0x1_0000 * (h / 0x1_0000 % 0x1_0000) + 0x1_0000_0000 * (h / 0x1_0000_0000)
  {
    var q := h / 0x1_0000;
    var q2, r2 := q / 0x1_0000, q % 0x1_0000;
    ModUnique(h, 0x1_0000_0000, q2, 0x1_0000 * r2 + h % 0x1_0000);
  }

  lemma AttributeBits(dpl: nat, kind: nat)
    requires dpl < 4 && kind < 32
    ensures var a := 0x80 + 0x20 * dpl + kind;
            && 128 <= a < 256 && a / 32 % 4 == dpl && a % 32 == kind && a % 16 == kind % 16 && a / 16 % 2 == kind / 16
            && a / 8 % 2 == kind / 8 % 2
  {
  }

  lemma AttributeOf(a: byte)
    requires a >= 128
    ensures var dpl, kind := a / 32 % 4, a % 32; a == 0x80 + 0x20 * dpl + kind && kind / 16 == a / 16 % 2
    ensures a % 32 == a % 16 + 16 * (a / 16 % 2) && a % 16 == a % 8 + 8 * (a / 8 % 2)
  {
    var q, bit, low := a / 32, a / 16 % 2, a % 16;
    ModUnique(a, 32, q, 16 * bit + low);
    ModUnique(q, 4, 1, q - 4);
  }

  /** A gate in the table is the gate the processor reads. */
  lemma GateReads(s: CpuState, m: Memory, vector: byte, g: GateDescriptor)
    requires GateAt(s, m, vector, g) && g.selector >= 4
    ensures ReadInterruptGate(s, m, vector) == Ok(Gate(g.handler, g.selector, g.ist, if g.trap then 15 else 14))
  {
    hide GateDescriptor.Bytes, LeQuad, LeWord, IsCanonical, CanonicalAddress;
    GateFields(g);
    AttributeBits(g.dpl, if g.trap then 15 else 14);
    CanonicalIs(g.handler);
  }

  /** And a gate the processor accepts is one that could have been written there. */
  lemma GateFound(s: CpuState, m: Memory, vector: byte) returns (g: GateDescriptor)
    requires ReadInterruptGate(s, m, vector).Ok?
    ensures GateAt(s, m, vector, g) && g.selector >= 4
    ensures ReadInterruptGate(s, m, vector) == Ok(Gate(g.handler, g.selector, g.ist, if g.trap then 15 else 14))
  {
    hide LeQuad, LeWord, IsCanonical, CanonicalAddress, GateDescriptor.Bytes;
    var b := ReadLinear(m, Wrap(s.idtr.base + vector * 16), 16).value;
    g := GateDescriptor(LeQuad(b[0..2] + b[6..8] + b[8..12]), LeWord(b[2..4]), b[4], b[5] / 32 % 4, b[5] % 16 == 15);
    AttributeOf(b[5]);
    CanonicalIs(g.handler);
    GateBuilt(b, g);
  }

  lemma GateBuilt(b: seq<byte>, g: GateDescriptor)
    requires |b| == 16 && g.Legal() && b[12..16] == [0, 0, 0, 0]
    requires g.handler == LeQuad(b[0..2] + b[6..8] + b[8..12]) && g.selector == LeWord(b[2..4]) && g.ist == b[4]
    requires b[5] == 0x80 + 0x20 * g.dpl + (if g.trap then 15 else 14)
    ensures g.Bytes() == b
  {
    hide LeBytes, LeValue, LeQuad, Pow256;
    HandlerPieces(b[0..2], b[6..8], b[8..12]);
    LeBytesOfValue(b[0..2]);
    LeBytesOfValue(b[2..4]);
    LeBytesOfValue(b[6..8]);
    LeBytesOfValue(b[8..12]);
    assert b == b[0..2] + b[2..4] + [b[4], b[5]] + b[6..8] + b[8..12] + b[12..16];
  }

  lemma CodeReads(s: CpuState, m: Memory, vector: byte, selector: u16, c: CodeDescriptor)
    requires CodeAt(s, m, selector, c)
    ensures ValidateCodeSegment(s, m, vector, selector) == Ok(c.dpl)
  {
    AttributeBits(c.dpl, 0x18 + c.attributes);
    var b := c.Bytes();
    assert b[5] == 0x98 + 0x20 * c.dpl + c.attributes && b[6] == c.flags;
    hide CodeDescriptor.Bytes;
  }

  lemma CodeFound(s: CpuState, m: Memory, vector: byte, selector: u16) returns (c: CodeDescriptor)
    requires selector >= 4 && ValidateCodeSegment(s, m, vector, selector).Ok?
    ensures CodeAt(s, m, selector, c) && ValidateCodeSegment(s, m, vector, selector) == Ok(c.dpl)
  {
    var b := ReadLinear(m, Wrap(s.gdtr.base + selector / 8 * 8), 8).value;
    AttributeOf(b[5]);
    c := CodeDescriptor(b[..5], b[5] / 32 % 4, b[5] % 8, b[6], b[7]);
    assert b[5] == 0x98 + 0x20 * c.dpl + c.attributes;
    assert c.Bytes() == b;
  }

  /** A number put together from a 24-bit, an 8-bit and a 32-bit piece. */
  lemma BasePieces(low: seq<byte>, middle: byte, high: seq<byte>)
    requires |low| == 3 && |high| == 4
    ensures var h := LeQuad(low + [middle] + high);
            && h == LeValue(low) + 0x100_0000 * middle + 0x1_0000_0000 * LeValue(high)
            && h % 0x100_0000 == LeValue(low) && h / 0x100_0000 % 0x100 == middle && h / 0x1_0000_0000 == LeValue(high)
  {
    hide LeValue, Pow256;
    OneByteValue(middle);
    ThreeBytes();
    LeConcat(low + [middle], high);
    LeConcat(low, [middle]);
    LeValueBound(low);
    LeValueBound(high);
    Pow256Values();
    var a, c := LeValue(low), LeValue(high);
    var h := a + 0x100_0000 * middle + 0x1_0000_0000 * c;
    ModUnique(h, 0x100_0000, middle + 0x100 * c, a);
    ModUnique(middle + 0x100 * c, 0x100, c, middle);
    ModUnique(h, 0x1_0000_0000, c, a + 0x100_0000 * middle);
  }

  lemma OneByteValue(v: byte)
    ensures LeValue([v]) == v
  {
    assert [v][1..] == [];
  }

  lemma ThreeBytes()
    ensures Pow256(3) == 0x100_0000
  {
    assert Pow256(2) == 0x1_0000;
  }

  lemma BaseWhole(h: u64)
    ensures h == h % 0x100_0000 + 0x100_0000 * (h / 0x100_0000 % 0x100) + 0x1_0000_0000 * (h / 0x1_0000_0000)
  {
    var q := h / 0x100_0000;
    var q2, r2 := q / 0x100, q % 0x100;
    ModUnique(h, 0x1_0000_0000, q2, 0x100_0000 * r2 + h % 0x100_0000);
  }

  function LimitIn(b: seq<byte>): (r: nat)
    requires |b| == 16
    ensures r < 0x10_0000
  {
    var high: nat := b[6] % 16;
    LeWord(b[0..2]) + 0x1_0000 * high
  }

  lemma TaskFields(d: TaskDescriptor)
    requires d.Legal()
    ensures var b := d.Bytes();
            && LimitIn(b) == d.limit && b[5] == 0x80 + 0x20 * d.dpl + (if d.busy then 11 else 9)
            && LeQuad(b[2..5] + [b[7]] + b[8..12]) == d.base
  {
    hide LeBytes, LeValue, Pow256;
    ThreeBytes();
    var b := d.Bytes();
    var low, high := d.base % 0x100_0000, d.base / 0x1_0000_0000;
    assert b[0..2] == LeBytes(d.limit % 0x1_0000, 2) && b[2..5] == LeBytes(low, 3) && b[8..12] == LeBytes(high, 4);
    Pow256Values();
    ValueOf(d.limit % 0x1_0000, 2);
    ValueOf(low, 3);
    ValueOf(high, 4);
    BasePieces(b[2..5], b[7], b[8..12]);
    BaseWhole(d.base);
    ModUnique(16 * d.flags + d.limit / 0x1_0000, 16, d.flags, d.limit / 0x1_0000);
  }

  lemma TaskBuilt(b: seq<byte>, d: TaskDescriptor)
    requires |b| == 16 && d.Legal() && d.base == LeQuad(b[2..5] + [b[7]] + b[8..12])
    requires d.limit == LimitIn(b) && d.flags == b[6] / 16 && d.tail == b[12..16]
    requires b[5] == 0x80 + 0x20 * d.dpl + (if d.busy then 11 else 9)
    ensures d.Bytes() == b
  {
    hide LeBytes, LeValue, LeQuad, Pow256;
    BasePieces(b[2..5], b[7], b[8..12]);
    LeBytesOfValue(b[0..2]);
    LeBytesOfValue(b[2..5]);
    LeBytesOfValue(b[8..12]);
    ModUnique(d.limit, 0x1_0000, b[6] % 16, LeWord(b[0..2]));
    assert b == b[0..2] + b[2..5] + [b[5], b[6], b[7]] + b[8..12] + b[12..16];
  }

  lemma TaskReads(s: CpuState, m: Memory, d: TaskDescriptor, offset: nat, pointer: u64)
    requires SlotAt(s, m, d, offset, pointer)
    ensures ReadTaskStack(s, m, offset) == Ok(pointer)
  {
    hide TaskDescriptor.Bytes, LeWord, IsCanonical, CanonicalAddress, LeBytes;
    TaskFields(d);
    AttributeBits(d.dpl, if d.busy then 11 else 9);
    CanonicalIs(pointer);
    LeQuadOf(pointer);
    hide LeQuad;
  }

  /** What an accepted task state has shown on the way. */
  lemma TaskOpened(s: CpuState, m: Memory, offset: nat) returns (b: seq<byte>)
    requires ReadTaskStack(s, m, offset).Ok?
    ensures |b| == 16 && s.tr >= 8 && s.tr / 4 % 2 == 0
    ensures s.tr / 8 * 8 + 15 <= s.gdtr.limit && Holds(m, s.gdtr.base + s.tr / 8 * 8, b)
    ensures b[5] >= 128 && b[5] / 16 % 2 == 0 && (b[5] % 16 == 9 || b[5] % 16 == 11) && offset + 7 <= LimitIn(b)
    ensures var pointer := ReadTaskStack(s, m, offset).value;
            && pointer != 0 && IsCanonical(pointer)
            && Holds(m, LeQuad(b[2..5] + [b[7]] + b[8..12]) + offset, LeBytes(pointer, 8))
  {
    hide LeQuad, LeWord, IsCanonical, LeBytes;
    b := ReadLinear(m, Wrap(s.gdtr.base + s.tr / 8 * 8), 16).value;
    QuadBack(ReadLinear(m, Wrap(LeQuad(b[2..5] + [b[7]] + b[8..12]) + offset), 8).value);
  }

  lemma TaskFound(s: CpuState, m: Memory, offset: nat) returns (d: TaskDescriptor)
    requires ReadTaskStack(s, m, offset).Ok?
    ensures SlotAt(s, m, d, offset, ReadTaskStack(s, m, offset).value)
  {
    hide ReadTaskStack, TaskDescriptor.Bytes, IsCanonical, CanonicalAddress, LeQuad, Holds, LeBytes;
    var b := TaskOpened(s, m, offset);
    d := TaskDescriptor(LeQuad(b[2..5] + [b[7]] + b[8..12]), LimitIn(b), b[5] / 32 % 4, b[5] % 16 == 11, b[6] / 16,
    b[12..16]);
    AttributeOf(b[5]);
    CanonicalIs(ReadTaskStack(s, m, offset).value);
    TaskBuilt(b, d);
  }

  lemma QuadBack(b: seq<byte>)
    requires |b| == 8
    ensures LeBytes(LeQuad(b), 8) == b
  {
    LeBytesOfValue(b);
  }

  // ---------------------------------------------------------------- delivery

  lemma StackReads(s: CpuState, m: Memory, vector: byte, g: GateDescriptor, level: nat, stack: u64)
    requires StackIs(s, m, g, level, stack)
    ensures SelectStack(s, m, vector, Gate(g.handler, g.selector, g.ist, if g.trap then 15 else 14), level) == Ok(stack)
  {
    hide SlotAt, ReadTaskStack;
    if g.ist != 0 {
      var d :| SlotAt(s, m, d, 36 + 8 * (g.ist - 1), stack);
      TaskReads(s, m, d, 36 + 8 * (g.ist - 1), stack);
    } else if level < s.cs % 4 {
      var d :| SlotAt(s, m, d, 4, stack);
      TaskReads(s, m, d, 4, stack);
    }
  }

  lemma StackFound(s: CpuState, m: Memory, vector: byte, g: GateDescriptor, level: nat)
    requires SelectStack(s, m, vector, Gate(g.handler, g.selector, g.ist, if g.trap then 15 else 14), level).Ok?
    ensures StackIs(s, m, g, level,
                    SelectStack(s, m, vector, Gate(g.handler, g.selector, g.ist, if g.trap then 15 else 14),
                                level).value)
  {
    hide SlotAt, ReadTaskStack;
    if g.ist != 0 {
      var d := TaskFound(s, m, 36 + 8 * (g.ist - 1));
    } else if level < s.cs % 4 {
      var d := TaskFound(s, m, 4);
    }
  }

  /** The processor state at the handler's first instruction. */
  function AtHandler(s: CpuState, g: GateDescriptor, level: nat, frame: u64): CpuState
    requires level < 4
  {
    s.(rip := g.handler,
       cs := g.selector - g.selector % 4 + level,
       ss := if level < s.cs % 4 then 0 else s.ss,
       rflags := if !g.trap && s.rflags / 512 % 2 == 1 then s.rflags - 512 else s.rflags,
       rsp := frame,
       halted := false)
  }

  /** Memory with the five saved values at the frame. */
  function WithFrame(s: CpuState, m: Memory, frame: nat): Memory
    requires frame + 40 <= |m|
  {
    m[..frame] + LeBytes(s.rip, 8) + LeBytes(s.cs, 8) + LeBytes(s.rflags, 8) + LeBytes(s.rsp, 8) + LeBytes(s.ss, 8)
    + m[frame + 40..]
  }

  /** Where the entry leads: handler, code segment with the new level, flags, and the frame below the stack. */
  lemma DeliversTo(s: CpuState, m: Memory, vector: byte, g: GateDescriptor, c: CodeDescriptor, stack: u64)
    requires Admits(s, m, vector, g, c, stack)
    ensures c.dpl < 4 && 40 <= stack - stack % 16 <= |m|
    ensures var frame := stack - stack % 16 - 40;
            Deliver(s, m, vector) == Ok((AtHandler(s, g, c.dpl, frame), WithFrame(s, m, frame)))
  {
    hide GateAt, CodeAt, StackIs, ReadInterruptGate, ValidateCodeSegment, SelectStack, LeBytes, Frame;
    SelectorFits(s, m, g.selector, c);
    GateReads(s, m, vector, g);
    CodeReads(s, m, vector, g.selector, c);
    StackReads(s, m, vector, g, c.dpl, stack);
    var top := stack - stack % 16;
    FrameBytes(s, m[..top - 40], m[top..]);
  }

  lemma SelectorFits(s: CpuState, m: Memory, selector: u16, c: CodeDescriptor)
    requires CodeAt(s, m, selector, c)
    ensures selector >= 4 && c.dpl < 4
  {
  }

  lemma FrameBytes(s: CpuState, before: seq<byte>, after: seq<byte>)
    ensures before + Frame(s) + after
         == before + LeBytes(s.rip, 8) + LeBytes(s.cs, 8) + LeBytes(s.rflags, 8) + LeBytes(s.rsp, 8) + LeBytes(s.ss, 8)
            + after
  {
    hide LeBytes;
  }

  /** An interrupt is delivered exactly when a gate, a code segment and a stack admit it. */
  lemma DeliverExact(s: CpuState, m: Memory, vector: byte)
    ensures Deliver(s, m, vector).Ok? <==> exists g, c, stack: u64 :: Admits(s, m, vector, g, c, stack)
  {
    hide GateAt, CodeAt, StackIs, ReadInterruptGate, ValidateCodeSegment, SelectStack, Frame, Entered;
    if Deliver(s, m, vector).Ok? {
      var g := GateFound(s, m, vector);
      var c := CodeFound(s, m, vector, g.selector);
      StackFound(s, m, vector, g, c.dpl);
      var gate := ReadInterruptGate(s, m, vector).value;
      var stack := SelectStack(s, m, vector, gate, c.dpl).value;
      assert Admits(s, m, vector, g, c, stack);
    }
    if g, c, stack: u64 :| Admits(s, m, vector, g, c, stack) {
      hide Deliver;
      DeliversTo(s, m, vector, g, c, stack);
    }
  }

  // ---------------------------------------------------------------- refusal

  /** A table entry inside its limit that memory does not show. */
  predicate Unreadable(m: Memory, t: Table, offset: nat, n: nat) {
    offset + n - 1 <= t.limit && (t.base + offset) % 0x1_0000_0000_0000_0000 + n > |m|
  }

  ghost predicate HasGate(s: CpuState, m: Memory, vector: byte) {
    exists g: GateDescriptor :: GateAt(s, m, vector, g) && g.selector >= 4
  }

  ghost predicate HasCode(s: CpuState, m: Memory, selector: u16) {
    exists c: CodeDescriptor :: CodeAt(s, m, selector, c)
  }

  ghost predicate HasStack(s: CpuState, m: Memory, g: GateDescriptor, level: nat) {
    exists stack: u64 :: StackIs(s, m, g, level, stack)
  }

  /** A vector without a usable gate. */
  lemma GateRefused(s: CpuState, m: Memory, vector: byte)
    requires !HasGate(s, m, vector)
    ensures Deliver(s, m, vector)
         == Err(if Unreadable(m, s.idtr, 16 * vector, 16) then Memory else InvalidInterruptGate(vector))
  {
    if ReadInterruptGate(s, m, vector).Ok? {
      hide GateAt;
      var g := GateFound(s, m, vector);
      assert false;
    }
    hide ValidateCodeSegment, SelectStack, LeQuad, LeWord, IsCanonical;
  }

  /** A gate whose selector names no 64-bit code segment. */
  lemma CodeRefused(s: CpuState, m: Memory, vector: byte, g: GateDescriptor)
    requires GateAt(s, m, vector, g) && g.selector >= 4 && !HasCode(s, m, g.selector)
    ensures Deliver(s, m, vector)
         == Err(if g.selector / 4 % 2 == 0 && Unreadable(m, s.gdtr, g.selector / 8 * 8, 8) then Memory
                else InvalidInterruptGate(vector))
  {
    GateReads(s, m, vector, g);
    hide ReadInterruptGate, GateAt, CodeAt, SelectStack;
    if ValidateCodeSegment(s, m, vector, g.selector).Ok? {
      var c := CodeFound(s, m, vector, g.selector);
      assert false;
    }
  }

  /** Delivery never lowers the privilege, and has no stack for the levels between. */
  lemma LevelRefused(s: CpuState, m: Memory, vector: byte, g: GateDescriptor, c: CodeDescriptor)
    requires GateAt(s, m, vector, g) && CodeAt(s, m, g.selector, c)
    requires c.dpl > s.cs % 4 || (g.ist == 0 && 0 < c.dpl < s.cs % 4)
    ensures Deliver(s, m, vector) == Err(InvalidInterruptGate(vector))
  {
    hide GateAt, CodeAt, ReadInterruptGate, ValidateCodeSegment;
    SelectorFits(s, m, g.selector, c);
    GateReads(s, m, vector, g);
    CodeReads(s, m, vector, g.selector, c);
  }

  /** A stack that the task state does not give, or that has no room for the frame in memory. */
  lemma StackRefused(s: CpuState, m: Memory, vector: byte, g: GateDescriptor, c: CodeDescriptor, stack: u64)
    requires GateAt(s, m, vector, g) && CodeAt(s, m, g.selector, c) && c.dpl <= s.cs % 4
    requires g.ist != 0 || c.dpl == 0 || c.dpl == s.cs % 4
    ensures !HasStack(s, m, g, c.dpl) ==>
              Deliver(s, m, vector) == Err(Memory) || Deliver(s, m, vector) == Err(InvalidTaskState)
    ensures StackIs(s, m, g, c.dpl, stack) && stack - stack % 16 < 40 ==>
              Deliver(s, m, vector) == Err(InvalidTaskState)
    ensures StackIs(s, m, g, c.dpl, stack) && stack - stack % 16 >= 40 && stack - stack % 16 > |m| ==>
              Deliver(s, m, vector) == Err(Memory)
  {
    hide GateAt, CodeAt, StackIs, ReadInterruptGate, ValidateCodeSegment, ReadTaskStack, Frame;
    SelectorFits(s, m, g.selector, c);
    GateReads(s, m, vector, g);
    CodeReads(s, m, vector, g.selector, c);
    TaskFaults(s, m, if g.ist != 0 then 0x24 + 8 * (g.ist - 1) else 4);
    var selected := SelectStack(s, m, vector, Gate(g.handler, g.selector, g.ist, if g.trap then 15 else 14), c.dpl);
    if StackIs(s, m, g, c.dpl, stack) {
      StackReads(s, m, vector, g, c.dpl, stack);
    }
    if !HasStack(s, m, g, c.dpl) && selected.Ok? {
      StackFound(s, m, vector, g, c.dpl);
      assert false;
    }
  }

  lemma TaskFaults(s: CpuState, m: Memory, offset: nat)
    ensures var r := ReadTaskStack(s, m, offset); r.Ok? || r == Err(Memory) || r == Err(InvalidTaskState)
  {
    hide LeQuad, LeWord, IsCanonical;
  }

  // ---------------------------------------------------------------- return

  /** IRETQ takes five values from the stack, from the instruction pointer up, and keeps flag bit 1 set. */
  lemma IretqTakes(s: CpuState, m: Memory, rip: u64, cs: u64, rflags: u64, rsp: u64, ss: u64)
    requires Holds(m, s.rsp, LeBytes(rip, 8)) && Holds(m, s.rsp + 8, LeBytes(cs, 8))
    requires Holds(m, s.rsp + 16, LeBytes(rflags, 8)) && Holds(m, s.rsp + 24, LeBytes(rsp, 8))
    requires Holds(m, s.rsp + 32, LeBytes(ss, 8))
    ensures Iretq(s, m)
         == (s.(rip := rip, cs := cs % 0x1_0000, rflags := SetOne(rflags), rsp := rsp, ss := ss % 0x1_0000), None)
  {
    hide Pop, Holds, Wrap, LeBytes, Iretq, SetOne;
    WrapSmall(s.rsp);
    var r1, r2, r3, r4 := Wrap(s.rsp + 8), Wrap(s.rsp + 16), Wrap(s.rsp + 24), Wrap(s.rsp + 32);
    PopTakes(s, m, s.rsp, rip);
    PopTakes(s.(rsp := r1), m, s.rsp + 8, cs);
    PopTakes(s.(rsp := r2), m, s.rsp + 16, rflags);
    PopTakes(s.(rsp := r3), m, s.rsp + 24, rsp);
    PopTakes(s.(rsp := r4), m, s.rsp + 32, ss);
    IretqPops(s, s.(rsp := r1), s.(rsp := r2), s.(rsp := r3), s.(rsp := r4), m, rip, cs, rflags, rsp, ss);
  }

  lemma IretqPops(s: CpuState, s1: CpuState, s2: CpuState, s3: CpuState, s4: CpuState, m: Memory,
                  rip: u64, cs: u64, rflags: u64, rsp: u64, ss: u64)
    requires Pop(s, m) == Ok((s1, rip)) && Pop(s1, m) == Ok((s2, cs)) && Pop(s2, m) == Ok((s3, rflags))
    requires Pop(s3, m) == Ok((s4, rsp)) && Pop(s4, m).Ok? && Pop(s4, m).value.1 == ss
    ensures Iretq(s, m)
         == (s.(rip := rip, cs := cs % 0x1_0000, rflags := SetOne(rflags), rsp := rsp, ss := ss % 0x1_0000), None)
  {
    hide SetOne, LeQuad, Wrap;
  }

  lemma PopTakes(s: CpuState, m: Memory, at: nat, v: u64)
    requires s.rsp == Wrap(at) && Holds(m, at, LeBytes(v, 8))
    ensures Pop(s, m) == Ok((s.(rsp := Wrap(at + 8)), v))
  {
    hide LeBytes, LeQuad;
    LeQuadOf(v);
  }

  lemma WrapSmall(v: u64)
    ensures Wrap(v) == v
  {
  }

  lemma PopNext(s: CpuState, m: Memory, start: u64, k: nat)
    requires k < 5 && s.rsp == Wrap(start + 8 * k)
    ensures var r := Pop(s, m);
            if Wrap(start + 8 * k) + 8 <= |m| then r.Ok? && r.value.0 == s.(rsp := Wrap(start + 8 * (k + 1)))
            else r == Err(Memory)
  {
    hide LeQuad;
  }

  /** A value it cannot read stops it, with the values before it taken off the stack and nothing else changed. */
  lemma IretqStops(s: CpuState, m: Memory, k: nat)
    requires k < 5 && forall j: nat :: j < k ==> Wrap(s.rsp + 8 * j) + 8 <= |m|
    requires Wrap(s.rsp + 8 * k) + 8 > |m|
    ensures Iretq(s, m) == (s.(rsp := Wrap(s.rsp + 8 * k)), Some(Memory))
  {
    hide Pop, SetOne;
    WrapSmall(s.rsp);
    hide Wrap;
    PopNext(s, m, s.rsp, 0);
    PopNext(s.(rsp := Wrap(s.rsp + 8)), m, s.rsp, 1);
    PopNext(s.(rsp := Wrap(s.rsp + 16)), m, s.rsp, 2);
    PopNext(s.(rsp := Wrap(s.rsp + 24)), m, s.rsp, 3);
    PopNext(s.(rsp := Wrap(s.rsp + 32)), m, s.rsp, 4);
    assert 0 < k ==> Wrap(s.rsp + 8 * 0) + 8 <= |m|;
    assert 1 < k ==> Wrap(s.rsp + 8 * 1) + 8 <= |m|;
    assert 2 < k ==> Wrap(s.rsp + 8 * 2) + 8 <= |m|;
    assert 3 < k ==> Wrap(s.rsp + 8 * 3) + 8 <= |m|;
  }
}
