/**
 Decoding what the encoder emits. For every instruction the encoder accepts, the decoder reads
 back the same mnemonic and operands exactly when the instruction is Canonical.
 */
module X86RoundTrip {
  import opened Bytes
  import opened X86
  import opened X86Decode
  import opened X86Encode
  import X86PrefixLaw

  // ---------------------------------------------------------------- what a round trip means

  /** An immediate is read back at its encoded width; it must sign-extend to the written value. */
  predicate ImmediateMatches(decoded: Option<Operand>, value: u64, limit: nat)
    requires limit > 0
  {
    decoded.Some? && decoded.value.Imm? && decoded.value.value < decoded.value.size.Limit()
    && Signed(decoded.value.value, decoded.value.size.Limit()) % limit == value % limit
  }

  predicate OperandMatches(decoded: Option<Operand>, original: Option<Operand>, limit: nat)
    requires limit > 0
  {
    if original.Some? && original.value.Imm? then ImmediateMatches(decoded, original.value.value, limit)
    else decoded == original
  }

  /** The width immediates are extended to: that of the destination, or 64 bits for PUSH. */
  function Width(i: Instruction): (r: nat)
    ensures r > 0
  {
    if i.first.Some? && !i.first.value.Imm? then i.first.value.Size().Limit() else U64_LIMIT
  }

  predicate Matches(decoded: Parsed<Instruction>, i: Instruction, length: nat) {
    && decoded.Ok?
    && decoded.value.length == decoded.next == length
    && decoded.value.mnemonic == i.mnemonic
    && OperandMatches(decoded.value.first, i.first, Width(i))
    && OperandMatches(decoded.value.second, i.second, Width(i))
    && OperandMatches(decoded.value.third, i.third, Width(i))
  }

  /** The scale is only carried by a SIB byte. */
  predicate CanonicalMemory(m: MemoryOperand) {
    && (m.segment.Some? ==> IsSegmentPrefix(m.segment.value))
    && (m.ripRelative || !NeedsSib(m) ==> m.scale == 1)
  }

  predicate CanonicalRm(o: Operand) {
    o.Mem? ==> CanonicalMemory(o.memory)
  }

  predicate FitsRelative(displacement: int, size: OperandSize) {
    if size == Byte then FitsI8(displacement) else FitsI32(displacement)
  }

  /** Instructions that survive encoding; every clause can be read off the instruction. */
  predicate Canonical(i: Instruction) {
    && i.third.None?
    && match i.mnemonic
       case Bswap => true
       case Push => i.second.None? && (i.first.Some? && i.first.value.Reg? ==> i.first.value.size == Qword)
       case Pop => i.second.None? && (i.first.Some? && i.first.value.Reg? ==> i.first.value.size == Qword)
       case Jump => i.second.None? && CanonicalBranch(i.first)
       case Call => i.second.None? && CanonicalBranch(i.first)
       case JumpCondition(_) => i.second.None? && CanonicalBranch(i.first)
       case Mov => CanonicalPair(i.first, i.second)
       case Lea => CanonicalPair(i.first, i.second) && i.first.value.Size() != Byte
       case Imul => CanonicalPair(i.first, i.second) && i.first.value.Size() != Byte
       case Inc => i.second.None? && CanonicalUnary(i.first)
       case Dec => i.second.None? && CanonicalUnary(i.first)
       case Not => i.second.None? && CanonicalUnary(i.first)
       case Neg => i.second.None? && CanonicalUnary(i.first)
       case _ =>
         if IsArithmetic(i.mnemonic) then CanonicalArithmetic(i.first, i.second)
         else i.first.None? && i.second.None?
  }

  predicate CanonicalBranch(first: Option<Operand>) {
    first.Some? && first.value.Rel? ==> FitsRelative(first.value.displacement, first.value.size)
  }

  predicate CanonicalUnary(first: Option<Operand>) {
    first.Some? && first.value.Size() != Oword && CanonicalRm(first.value)
  }

  predicate CanonicalArithmetic(first: Option<Operand>, second: Option<Operand>) {
    && first.Some? && second.Some?
    && first.value.Size() != Oword
    && CanonicalRm(first.value) && CanonicalRm(second.value)
    && (first.value.Reg? ==> !first.value.high8)
    && (second.value.Reg? ==> !second.value.high8)
  }

  /** MOV also has the short form that moves an immediate to a register without a ModRM byte. */
  predicate CanonicalPair(first: Option<Operand>, second: Option<Operand>) {
    && CanonicalArithmetic(first, second)
    && !(first.value.Reg? && first.value.size == Byte && 4 <= first.value.register <= 7 && second.value.Imm?)
  }

  // ---------------------------------------------------------------- reading emitted bytes

  /** The bytes s lie in b at position at. */
  predicate At(b: seq<byte>, at: nat, s: seq<byte>) {
    at + |s| <= |b| && b[at..at + |s|] == s
  }

  lemma AtSplit(b: seq<byte>, at: nat, s: seq<byte>, t: seq<byte>)
    requires At(b, at, s + t)
    ensures At(b, at, s) && At(b, at + |s|, t)
  {
    var u := b[at..at + |s + t|];
    assert u == s + t;
    assert b[at..at + |s|] == u[..|s|] == s;
    assert b[at + |s|..at + |s| + |t|] == u[|s|..] == t;
  }

  lemma TailOf(a: seq<byte>, b: seq<byte>)
    ensures (a + b)[|a|..|a| + |b|] == b
  {
  }

  lemma AtByte(b: seq<byte>, at: nat, v: byte)
    requires At(b, at, [v])
    ensures at < |b| && b[at] == v
  {
    assert b[at..at + 1][0] == v;
  }

  lemma ImmReads(b: seq<byte>, at: nat, v: nat, size: OperandSize)
    requires size != Oword && At(b, at, LeBytes(v, size.Bytes()))
    ensures ImmAt(b, at, size) == Ok(v % size.Limit(), at + size.Bytes())
  {
    LeRoundTrip(v, size.Bytes());
    Pow256Values();
  }

  lemma SignedReads(b: seq<byte>, at: nat, d: int, size: OperandSize)
    requires size == Byte || size == Dword
    requires At(b, at, LeBytes(d % size.Limit(), size.Bytes()))
    requires FitsRelative(d, size)
    ensures SignedAt(b, at, size) == Ok(d, at + size.Bytes())
  {
    ImmReads(b, at, d % size.Limit(), size);
  }

  lemma ByteLe(v: nat)
    ensures LeBytes(v, 1) == [v % 256]
  {
    assert LeBytes(v / 256, 0) == [];
  }

  // ---------------------------------------------------------------- ModRM, SIB, displacement

  /** The prefixes agree with the registers a ModRM form names. */
  predicate RexAgrees(p: Prefixes, regField: nat, rm: Operand)
    requires regField < 16
  {
    && !p.addressSize
    && p.RexR() == regField / 8
    && (rm.Reg? ==> p.RexB() == rm.register / 8)
    && (rm.Mem? && rm.memory.base.Some? ==> p.RexB() == rm.memory.base.value / 8)
    && (rm.Mem? ==> p.RexX() == if rm.memory.index.Some? then rm.memory.index.value / 8 else 0)
    && (rm.Mem? ==> p.segment == rm.memory.segment)
  }

  /** What the decoder makes of an emitted memory operand. */
  function ReadMemory(m: MemoryOperand, size: OperandSize): MemoryOperand {
    m.(size := size, scale := if m.ripRelative || !NeedsSib(m) then 1 else m.scale)
  }

  lemma DisplacementReads(b: seq<byte>, at: nat, m: MemoryOperand, start: MemoryOperand)
    requires FitsI32(m.displacement) && m.base.Some? && start.displacement == 0
    requires At(b, at, MemoryTail(m).bytes)
    ensures WithDisplacement(b, at, Mode(m), start)
         == Ok(start.(displacement := m.displacement), at + |MemoryTail(m).bytes|)
  {
    if Mode(m) == 1 {
      ByteLe(m.displacement % 0x100);
      SignedReads(b, at, m.displacement, Byte);
    } else if Mode(m) == 2 {
      SignedReads(b, at, m.displacement, Dword);
    }
  }

  lemma SibOperandReads(b: seq<byte>, at: nat, p: Prefixes, m: MemoryOperand, start: MemoryOperand)
    requires RexAgrees(p, 8 * p.RexR(), Mem(m))
    requires LegalScale(m.scale) && m.index != Some(RSP) && FitsI32(m.displacement)
    requires at < |b| && b[at] == SibByte(m)
    requires start.base.None? && start.index.None? && start.displacement == 0
    requires m.base.None? ==> At(b, at + 1, Dword32(m.displacement))
    ensures SibOperand(b, at, p, Mode(m), start)
         == if m.base.None? then Ok(start.(scale := m.scale, index := m.index, displacement := m.displacement), at + 5)
            else Ok(start.(scale := m.scale, index := m.index, base := m.base), at + 1)
  {
    hide SibByte;
    if m.base.None? {
      SignedReads(b, at + 1, m.displacement, Dword);
    }
  }

  lemma SibReads(b: seq<byte>, at: nat, p: Prefixes, regField: nat, m: MemoryOperand, size: OperandSize)
    requires regField < 16 && RexAgrees(p, regField, Mem(m))
    requires MemoryModrm(regField, m).Ok() && !m.ripRelative && NeedsSib(m)
    requires At(b, at, MemoryModrm(regField, m).bytes)
    ensures b[at] == 64 * Mode(m) + 8 * (regField % 8) + 4
    ensures var a := AddressOperand(b, at + 1, p, Mode(m), 4, size);
            && a.Ok?
            && WithDisplacement(b, a.next, Mode(m), a.value)
               == Ok(ReadMemory(m, size), at + |MemoryModrm(regField, m).bytes|)
  {
    var head: seq<byte> := [64 * Mode(m) + 8 * (regField % 8) + 4];
    var tail := MemoryTail(m).bytes;
    assert MemoryModrm(regField, m).bytes == head + ([SibByte(m)] + tail);
    hide MemoryModrm, SibOperand, SibByte, WithDisplacement, MemoryTail;
    AtSplit(b, at, head, [SibByte(m)] + tail);
    AtByte(b, at, head[0]);
    AtSplit(b, at + 1, [SibByte(m)], tail);
    AtByte(b, at + 1, SibByte(m));
    NoBaseTail(m);
    var start := MemoryOperand(None, None, 1, 0, false, p.segment, size);
    SibOperandReads(b, at + 1, p, m, start);
    if m.base.None? {
      NoDisplacement(b, at + 6, ReadMemory(m, size));
    } else {
      DisplacementReads(b, at + 2, m, ReadMemory(m, size).(displacement := 0));
    }
  }

  lemma NoBaseTail(m: MemoryOperand)
    ensures m.base.None? ==> MemoryTail(m).bytes == Dword32(m.displacement) && |Dword32(m.displacement)| == 4
  {
  }

  lemma NoDisplacement(b: seq<byte>, at: nat, m: MemoryOperand)
    ensures WithDisplacement(b, at, 0, m) == Ok(m, at)
  {
  }

  lemma PlainReads(b: seq<byte>, at: nat, p: Prefixes, regField: nat, m: MemoryOperand, size: OperandSize)
    requires regField < 16 && RexAgrees(p, regField, Mem(m))
    requires MemoryModrm(regField, m).Ok() && (m.ripRelative || !NeedsSib(m))
    requires At(b, at, MemoryModrm(regField, m).bytes)
    ensures var mode := if m.ripRelative then 0 else Mode(m);
            var field := if m.ripRelative then 5 else m.base.value % 8;
            && b[at] == 64 * mode + 8 * (regField % 8) + field
            && var a := AddressOperand(b, at + 1, p, mode, field, size);
            && a.Ok?
            && WithDisplacement(b, a.next, mode, a.value)
               == Ok(ReadMemory(m, size), at + |MemoryModrm(regField, m).bytes|)
  {
    if m.ripRelative {
      RipReads(b, at, p, regField, m, size);
    } else {
      BaseReads(b, at, p, regField, m, size);
    }
  }

  lemma RipReads(b: seq<byte>, at: nat, p: Prefixes, regField: nat, m: MemoryOperand, size: OperandSize)
    requires regField < 16 && RexAgrees(p, regField, Mem(m))
    requires MemoryModrm(regField, m).Ok() && m.ripRelative
    requires At(b, at, MemoryModrm(regField, m).bytes)
    ensures b[at] == 8 * (regField % 8) + 5
    ensures var a := AddressOperand(b, at + 1, p, 0, 5, size);
            && a.Ok?
            && WithDisplacement(b, a.next, 0, a.value) == Ok(ReadMemory(m, size), at + |MemoryModrm(regField, m).bytes|)
  {
    var head: seq<byte> := [8 * (regField % 8) + 5];
    AtSplit(b, at, head, Dword32(m.displacement));
    AtByte(b, at, head[0]);
    SignedReads(b, at + 1, m.displacement, Dword);
  }

  lemma BaseReads(b: seq<byte>, at: nat, p: Prefixes, regField: nat, m: MemoryOperand, size: OperandSize)
    requires regField < 16 && RexAgrees(p, regField, Mem(m))
    requires MemoryModrm(regField, m).Ok() && !m.ripRelative && !NeedsSib(m)
    requires At(b, at, MemoryModrm(regField, m).bytes)
    ensures b[at] == 64 * Mode(m) + 8 * (regField % 8) + m.base.value % 8
    ensures var a := AddressOperand(b, at + 1, p, Mode(m), m.base.value % 8, size);
            && a.Ok?
            && WithDisplacement(b, a.next, Mode(m), a.value)
                == Ok(ReadMemory(m, size), at + |MemoryModrm(regField, m).bytes|)
  {
    var head: seq<byte> := [64 * Mode(m) + 8 * (regField % 8) + m.base.value % 8];
    var tail := MemoryTail(m).bytes;
    AtSplit(b, at, head, tail);
    AtByte(b, at, head[0]);
    DisplacementReads(b, at + 1, m, ReadMemory(m, size).(displacement := 0));
  }

  /** What the decoder makes of an emitted ModRM operand. */
  function ReadRm(rm: Operand, size: OperandSize): Operand
    requires rm.Reg? || rm.Mem?
  {
    if rm.Reg? then Reg(rm.register, size, false) else Mem(ReadMemory(rm.memory, size))
  }

  lemma ByteFields(v: byte, mode: nat, reg: nat, field: nat)
    requires mode < 4 && reg < 8 && field < 8 && v == 64 * mode + 8 * reg + field
    ensures v / 64 == mode && v / 8 % 8 == reg && v % 8 == field
  {
  }

  lemma ModrmReads(b: seq<byte>, at: nat, p: Prefixes, regField: nat, rm: Operand, rmSize: OperandSize,
                   regSize: OperandSize)
    requires regField < 16 && RexAgrees(p, regField, rm)
    requires Modrm(regField, rm).Ok()
    requires rm.Reg? && rmSize == Byte && 4 <= rm.register % 8 ==> p.rexPresent
    requires At(b, at, Modrm(regField, rm).bytes)
    ensures ModrmSized(b, at, p, rmSize, regSize)
         == Ok(ModrmFields(ReadRm(rm, rmSize), RegisterOperand(p, regField % 8, p.RexR(), regSize), regField % 8),
               at + |Modrm(regField, rm).bytes|)
  {
    if rm.Reg? {
      var v: byte := 0xC0 + 8 * (regField % 8) + rm.register % 8;
      AtByte(b, at, v);
      ByteFields(v, 3, regField % 8, rm.register % 8);
    } else {
      MemoryReads(b, at, p, regField, rm.memory, rmSize, regSize);
    }
  }

  lemma MemoryReads(b: seq<byte>, at: nat, p: Prefixes, regField: nat, m: MemoryOperand, rmSize: OperandSize,
                    regSize: OperandSize)
    requires regField < 16 && RexAgrees(p, regField, Mem(m))
    requires MemoryModrm(regField, m).Ok()
    requires At(b, at, MemoryModrm(regField, m).bytes)
    ensures ModrmSized(b, at, p, rmSize, regSize)
         == Ok(ModrmFields(Mem(ReadMemory(m, rmSize)), RegisterOperand(p, regField % 8, p.RexR(), regSize),
                           regField % 8),
               at + |MemoryModrm(regField, m).bytes|)
  {
    var plain := m.ripRelative || !NeedsSib(m);
    if plain {
      PlainReads(b, at, p, regField, m, rmSize);
    } else {
      SibReads(b, at, p, regField, m, rmSize);
    }
    var mode := if m.ripRelative then 0 else Mode(m);
    var field := if m.ripRelative then 5 else if plain then m.base.value % 8 else 4;
    hide AddressOperand, WithDisplacement, MemoryModrm, ReadMemory, RegisterOperand, RexAgrees, NeedsSib, Mode;
    ByteFields(b[at], mode, regField % 8, field);
    assert ByteAt(b, at) == Ok(b[at], at + 1);
  }

  // ---------------------------------------------------------------- prefixes

  function HeadPrefixes(segment: Option<byte>, word: bool, rex: Option<byte>): Prefixes
    requires rex.Some? ==> 0x40 <= rex.value <= 0x4F
  {
    NO_PREFIXES.(segment := segment, operandSize := word, rexPresent := rex.Some?,
                rex := if rex.Some? then rex.value - 0x40 else 0)
  }

  lemma ScanStep(b: seq<byte>, at: nat, p: Prefixes)
    requires at < 14 && LegalPrefixes(p) && at < |b| && IsPrefix(b[at])
    ensures LegalPrefixes(AddPrefix(p, b[at]))
    ensures ReadPrefixes(b, at, p) == ReadPrefixes(b, at + 1, AddPrefix(p, b[at]))
  {
  }

  lemma ScanEnd(b: seq<byte>, at: nat, p: Prefixes)
    requires at < 15 && LegalPrefixes(p) && at < |b| && !IsPrefix(b[at])
    ensures ReadPrefixes(b, at, p) == Ok(p, at)
  {
  }

  lemma ScanRex(b: seq<byte>, at: nat, p: Prefixes, rex: Option<byte>)
    requires at < 14 && LegalPrefixes(p)
    requires rex.Some? ==> 0x40 <= rex.value <= 0x4F && at < |b| && b[at] == rex.value
    requires at + |Head(None, false, rex)| < |b| && !IsPrefix(b[at + |Head(None, false, rex)|])
    ensures var q := if rex.Some? then p.(rexPresent := true, rex := rex.value - 0x40) else p;
            ReadPrefixes(b, at, p) == Ok(q, at + |Head(None, false, rex)|)
  {
    hide ReadPrefixes;
    if rex.Some? {
      ScanStep(b, at, p);
      ScanEnd(b, at + 1, AddPrefix(p, b[at]));
    } else {
      ScanEnd(b, at, p);
    }
  }

  lemma ScanHead(segment: Option<byte>, word: bool, rex: Option<byte>, b: seq<byte>)
    requires segment.Some? ==> IsSegmentPrefix(segment.value)
    requires rex.Some? ==> 0x40 <= rex.value <= 0x4F
    requires At(b, 0, Head(segment, word, rex))
    requires |Head(segment, word, rex)| < |b| && !IsPrefix(b[|Head(segment, word, rex)|])
    ensures ReadPrefixes(b, 0, NO_PREFIXES) == Ok(HeadPrefixes(segment, word, rex), |Head(segment, word, rex)|)
  {
    hide ReadPrefixes;
    var head := Head(segment, word, rex);
    assert b[0..|head|] == head;
    assert forall k :: 0 <= k < |head| ==> b[k] == head[k];
    var k := if segment.Some? then 1 else 0;
    var p := NO_PREFIXES.(segment := segment);
    if segment.Some? {
      ScanStep(b, 0, NO_PREFIXES);
    }
    if word {
      assert b[k] == head[k] == 0x66;
      ScanStep(b, k, p);
      ScanRex(b, k + 1, p.(operandSize := true), rex);
    } else {
      ScanRex(b, k, p, rex);
    }
  }

  function FormPrefixes(size: OperandSize, regField: nat, rm: Operand): Prefixes
    requires regField < 16 && (rm.Reg? || rm.Mem?)
  {
    HeadPrefixes(FormSegment(rm), size == Word, FormRex(size, regField, rm))
  }

  /** The operand size the decoder sees: only the 0x66 and REX.W prefixes carry it. */
  function SeenSize(size: OperandSize): OperandSize {
    if size == Word || size == Qword then size else Dword
  }

  lemma FormPrefixFacts(size: OperandSize, regField: nat, rm: Operand)
    requires regField < 16 && (rm.Reg? || rm.Mem?)
    ensures var p := FormPrefixes(size, regField, rm);
            && RexAgrees(p, regField, rm)
            && SizeFor(p, false) == SeenSize(size)
            && (size == Byte && 4 <= regField ==> p.rexPresent)
            && (rm.Reg? && size == Byte && 4 <= rm.register ==> p.rexPresent)
  {
  }

  lemma FormHead(size: OperandSize, regField: nat, rm: Operand)
    requires regField < 16 && OperandPrefixes(size, regField, rm).Ok()
    ensures (rm.Reg? && !rm.high8) || rm.Mem?
    ensures OperandPrefixes(size, regField, rm).bytes
         == Head(FormSegment(rm), size == Word, FormRex(size, regField, rm))
  {
  }

  // ---------------------------------------------------------------- forms with a ModRM operand

  predicate LegalSegment(rm: Operand) {
    rm.Mem? && rm.memory.segment.Some? ==> IsSegmentPrefix(rm.memory.segment.value)
  }

  /** Where the decoder stands after the prefixes and opcode of an emitted ModRM form. */
  lemma FormReads(opcode: seq<byte>, size: OperandSize, regField: nat, rm: Operand, tail: seq<byte>,
                  rmSize: OperandSize, regSize: OperandSize)
    requires regField < 16 && 1 <= |opcode| <= 2 && !IsPrefix(opcode[0])
    requires ModrmInstruction(opcode, size, regField, rm).Ok() && LegalSegment(rm)
    requires rmSize == Byte ==> size == Byte
    ensures rm.Reg? || rm.Mem?
    ensures var e := ModrmInstruction(opcode, size, regField, rm).bytes;
            var p := FormPrefixes(size, regField, rm);
            var k := |Head(FormSegment(rm), size == Word, FormRex(size, regField, rm))|;
            var b := e + tail;
            && ReadPrefixes(b, 0, NO_PREFIXES) == Ok(p, k)
            && k + |opcode| < |e|
            && b[k] == opcode[0]
            && (|opcode| == 2 ==> b[k + 1] == opcode[1])
            && ModrmSized(b, k + |opcode|, p, rmSize, regSize)
               == Ok(ModrmFields(ReadRm(rm, rmSize), RegisterOperand(p, regField % 8, p.RexR(), regSize), regField % 8),
                     |e|)
  {
    hide ReadPrefixes, ModrmSized, Modrm, OperandPrefixes, ModrmInstruction, FormRex, HeadPrefixes, RexAgrees, ReadRm,
         RegisterOperand, Head, SizeFor;
    FormShape(opcode, size, regField, rm);
    FormPrefixFacts(size, regField, rm);
    var head := Head(FormSegment(rm), size == Word, FormRex(size, regField, rm));
    var m := Modrm(regField, rm).bytes;
    var b := head + opcode + m + tail;
    FormLayout(head, opcode, m, tail);
    ScanHead(FormSegment(rm), size == Word, FormRex(size, regField, rm), b);
    ModrmReads(b, |head| + |opcode|, FormPrefixes(size, regField, rm), regField, rm, rmSize, regSize);
  }

  lemma FormShape(opcode: seq<byte>, size: OperandSize, regField: nat, rm: Operand)
    requires regField < 16 && ModrmInstruction(opcode, size, regField, rm).Ok()
    ensures (rm.Reg? && !rm.high8) || rm.Mem?
    ensures Modrm(regField, rm).Ok() && |Modrm(regField, rm).bytes| >= 1
    ensures ModrmInstruction(opcode, size, regField, rm).bytes
         == Head(FormSegment(rm), size == Word, FormRex(size, regField, rm)) + opcode + Modrm(regField, rm).bytes
  {
    FormHead(size, regField, rm);
    hide OperandPrefixes, FormRex, Head;
    ModrmNonempty(regField, rm);
  }

  lemma FormLayout(head: seq<byte>, opcode: seq<byte>, m: seq<byte>, tail: seq<byte>)
    ensures var b := head + opcode + m + tail;
            && At(b, 0, head) && At(b, |head| + |opcode|, m)
            && forall k :: 0 <= k < |opcode| ==> b[|head| + k] == opcode[k]
  {
    var b := head + opcode + m + tail;
    assert b[0..|head|] == head;
    assert b[|head| + |opcode|..|head| + |opcode| + |m|] == m;
  }

  lemma ModrmNonempty(regField: nat, rm: Operand)
    requires regField < 16 && Modrm(regField, rm).Ok()
    ensures |Modrm(regField, rm).bytes| >= 1
  {
  }

  // ---------------------------------------------------------------- one form at a time

  /** The decoder reads exactly this instruction from the n bytes of b. */
  predicate Reads(b: seq<byte>, mnemonic: Mnemonic, first: Option<Operand>, second: Option<Operand>, n: nat) {
    var r := Decode(b);
    && r.Ok? && r.next == r.value.length == n
    && r.value.mnemonic == mnemonic && r.value.first == first && r.value.second == second && r.value.third.None?
  }

  lemma DecodeAfterPrefixes(b: seq<byte>, p: Prefixes, k: nat, m: Mnemonic, first: Option<Operand>,
                            second: Option<Operand>)
    requires ReadPrefixes(b, 0, NO_PREFIXES) == Ok(p, k) && k < |b|
    requires Primary(b, k + 1, p, b[k]) == Ok(Instruction(m, first, second, None, NO_PREFIXES, 0), |b|)
    requires |b| <= 15
    ensures Reads(b, m, first, second, |b|)
  {
    hide Primary, ReadPrefixes;
  }

  lemma ModrmLength(regField: nat, rm: Operand)
    requires regField < 16
    ensures |Modrm(regField, rm).bytes| <= 6
  {
  }

  lemma FormLength(opcode: seq<byte>, size: OperandSize, regField: nat, rm: Operand)
    requires regField < 16 && ModrmInstruction(opcode, size, regField, rm).Ok()
    ensures |ModrmInstruction(opcode, size, regField, rm).bytes| <= 9 + |opcode|
  {
    FormShape(opcode, size, regField, rm);
    ModrmLength(regField, rm);
    hide Modrm, ModrmInstruction, OperandPrefixes, FormRex;
  }

  /** Opcodes whose meaning is BinaryModrm, with the opcode BinaryModrm is given. */
  predicate BinaryRow(mnemonic: Mnemonic, opcode: byte, passed: byte) {
    || (IsArithmeticModrm(opcode) && mnemonic == GroupOneMnemonic(opcode / 8) && passed == opcode)
    || (0x88 <= opcode <= 0x8B && mnemonic == Mov && passed == opcode)
    || ((opcode == 0x84 || opcode == 0x85) && mnemonic == Test && passed == opcode - 0x84)
    || (opcode == 0x8D && mnemonic == Lea && passed == 0x8B)
  }

  lemma PrimaryBinary(b: seq<byte>, at: nat, p: Prefixes, mnemonic: Mnemonic, opcode: byte, passed: byte)
    requires BinaryRow(mnemonic, opcode, passed)
    ensures !IsPrefix(opcode)
    ensures Primary(b, at, p, opcode) == BinaryModrm(b, at, p, mnemonic, passed)
  {
    hide Primary, BinaryModrm, GroupOneMnemonic;
    if IsArithmeticModrm(opcode) {
      PrimaryArithmetic(b, at, p, opcode);
    } else {
      hide IsArithmeticModrm;
      PrimaryTwoOperands(b, at, p, opcode);
    }
  }

  lemma PrimaryArithmetic(b: seq<byte>, at: nat, p: Prefixes, opcode: byte)
    requires IsArithmeticModrm(opcode)
    ensures Primary(b, at, p, opcode) == BinaryModrm(b, at, p, GroupOneMnemonic(opcode / 8), opcode)
  {
    hide BinaryModrm, GroupOneMnemonic, ImmAt, ModrmSized, Secondary, Relative, PrimaryFixed;
  }

  lemma PrimaryTwoOperands(b: seq<byte>, at: nat, p: Prefixes, opcode: byte)
    ensures 0x88 <= opcode <= 0x8B ==> Primary(b, at, p, opcode) == BinaryModrm(b, at, p, Mov, opcode)
    ensures opcode == 0x84 || opcode == 0x85 ==> Primary(b, at, p, opcode) == BinaryModrm(b, at, p, Test, opcode - 0x84)
    ensures opcode == 0x8D ==> Primary(b, at, p, opcode) == BinaryModrm(b, at, p, Lea, 0x8B)
  {
    hide BinaryModrm, ImmAt, ModrmSized, Secondary, Relative, PrimaryFixed;
  }

  /** The register named by the ModRM reg field. */
  lemma RegFieldReads(size: OperandSize, regField: nat, rm: Operand, seen: OperandSize)
    requires regField < 16 && (rm.Reg? || rm.Mem?)
    requires seen == Byte ==> size == Byte
    ensures var p := FormPrefixes(size, regField, rm);
            RegisterOperand(p, regField % 8, p.RexR(), seen) == Reg(regField, seen, false)
  {
    FormPrefixFacts(size, regField, rm);
    hide FormRex, HeadPrefixes;
  }

  lemma BinaryForm(mnemonic: Mnemonic, opcode: byte, passed: byte, size: OperandSize, regField: Register, rm: Operand)
    requires BinaryRow(mnemonic, opcode, passed)
    requires ModrmInstruction([opcode], size, regField, rm).Ok() && LegalSegment(rm)
    requires passed % 2 == 0 ==> size == Byte
    ensures rm.Reg? || rm.Mem?
    ensures var seen := if passed % 2 == 0 then Byte else SeenSize(size);
            var e := ModrmInstruction([opcode], size, regField, rm).bytes;
            var reg := Reg(regField, seen, false);
            if passed / 2 % 2 == 1 then Reads(e, mnemonic, Some(reg), Some(ReadRm(rm, seen)), |e|)
            else Reads(e, mnemonic, Some(ReadRm(rm, seen)), Some(reg), |e|)
  {
    hide *;
    var seen := if passed % 2 == 0 then Byte else SeenSize(size);
    var e := ModrmInstruction([opcode], size, regField, rm).bytes;
    FormNotByte(size);
    PrimaryBinary(e, 0, NO_PREFIXES, mnemonic, opcode, passed);
    var p, k := OneOpcodeForm(opcode, size, regField, rm, seen);
    RegFieldReads(size, regField, rm, seen);
    var reg := Reg(regField, seen, false);
    PrimaryBinary(e, k + 1, p, mnemonic, opcode, passed);
    SizeOfPassed(p, passed, seen);
    BinaryReads(e, k + 1, p, mnemonic, passed, ModrmFields(ReadRm(rm, seen), reg, regField % 8), |e|);
    if passed / 2 % 2 == 1 {
      DecodeAfterPrefixes(e, p, k, mnemonic, Some(reg), Some(ReadRm(rm, seen)));
    } else {
      DecodeAfterPrefixes(e, p, k, mnemonic, Some(ReadRm(rm, seen)), Some(reg));
    }
  }

  lemma SizeOfPassed(p: Prefixes, passed: byte, seen: OperandSize)
    requires if passed % 2 == 0 then seen == Byte else SizeFor(p, false) == seen
    ensures SizeFor(p, passed % 2 == 0) == seen
  {
  }

  lemma BinaryReads(b: seq<byte>, at: nat, p: Prefixes, m: Mnemonic, passed: byte, f: ModrmFields, at1: nat)
    requires var size := SizeFor(p, passed % 2 == 0); ModrmSized(b, at, p, size, size) == Ok(f, at1)
    ensures BinaryModrm(b, at, p, m, passed)
         == Ok(if passed / 2 % 2 == 1 then Instruction(m, Some(f.reg), Some(f.rm), None, NO_PREFIXES, 0)
               else Instruction(m, Some(f.rm), Some(f.reg), None, NO_PREFIXES, 0), at1)
  {
    hide ModrmSized, SizeFor;
  }

  /** ModRM forms that carry a /digit and an immediate. */
  predicate ImmediateRow(mnemonic: Mnemonic, opcode: byte, digit: nat) {
    || ((opcode == 0x80 || opcode == 0x81) && digit < 8 && mnemonic == GroupOneMnemonic(digit))
    || ((opcode == 0xC6 || opcode == 0xC7) && digit == 0 && mnemonic == Mov)
    || ((opcode == 0xF6 || opcode == 0xF7) && digit == 0 && mnemonic == Test)
  }

  predicate ByteRow(opcode: byte) { opcode % 2 == 0 }

  lemma PrimaryImmediate(b: seq<byte>, at: nat, p: Prefixes, mnemonic: Mnemonic, opcode: byte, f: ModrmFields, v: u64,
                         at1: nat, at2: nat)
    requires ImmediateRow(mnemonic, opcode, f.field)
    requires var size := SizeFor(p, ByteRow(opcode));
             && ModrmSized(b, at, p, size, size) == Ok(f, at1)
             && ImmAt(b, at1, ImmediateSize(size)) == Ok(v, at2)
    ensures Primary(b, at, p, opcode)
         == Ok(With2(mnemonic, f.rm, Imm(v, ImmediateSize(SizeFor(p, ByteRow(opcode))))), at2)
  {
    hide ModrmSized, ImmAt, SizeFor, Primary;
    PrimaryGroups(b, at, p, opcode);
  }

  /** Opcodes whose reading is left to a group of the one-byte map. */
  lemma PrimaryGroups(b: seq<byte>, at: nat, p: Prefixes, opcode: byte)
    ensures opcode == 0x80 || opcode == 0x81 ==> Primary(b, at, p, opcode) == GroupImmediate(b, at, p, opcode)
    ensures opcode == 0xC6 || opcode == 0xC7 ==> Primary(b, at, p, opcode) == MovImmediate(b, at, p, opcode)
    ensures opcode == 0xF6 || opcode == 0xF7 ==> Primary(b, at, p, opcode) == GroupThree(b, at, p, opcode)
    ensures opcode == 0xFE || opcode == 0xFF ==> Primary(b, at, p, opcode) == GroupFive(b, at, p, opcode)
  {
    hide ModrmSized, ImmAt, SizeFor, Secondary, BinaryModrm, Relative, PrimaryFixed, GroupImmediate, MovImmediate,
         GroupThree, GroupFive;
  }

  lemma FormImmediateShape(m: Emission, value: u64, size: OperandSize)
    requires m.Then(FormImmediate(value, size)).Ok() && size != Oword
    ensures m.Ok() && (size == Qword ==> SignExtends32(value))
    ensures m.Then(FormImmediate(value, size)).bytes == m.bytes + LeBytes(value, ImmediateSize(size).Bytes())
  {
    hide LeBytes;
  }

  lemma ImmediateForm(mnemonic: Mnemonic, opcode: byte, digit: nat, size: OperandSize, rm: Operand, value: u64)
    requires digit < 8 && ImmediateRow(mnemonic, opcode, digit) && (ByteRow(opcode) <==> size == Byte)
    requires LegalSegment(rm) && size != Oword
    requires ModrmInstruction([opcode], size, digit, rm).Ok()
    ensures rm.Reg? || rm.Mem?
    ensures var e := ModrmInstruction([opcode], size, digit, rm).bytes + LeBytes(value, ImmediateSize(size).Bytes());
            var short := ImmediateSize(size);
            Reads(e, mnemonic, Some(ReadRm(rm, size)), Some(Imm(value % short.Limit(), short)), |e|)
  {
    hide ModrmInstruction, FormRex, HeadPrefixes, ModrmSized, ReadPrefixes, Primary, ReadRm, RegisterOperand, Decode,
         Head, RexAgrees, LeBytes, ImmAt, SizeFor, ImmediateRow, LegalSegment;
    var m := ModrmInstruction([opcode], size, digit, rm).bytes;
    var short := ImmediateSize(size);
    var tail := LeBytes(value, short.Bytes());
    var e := m + tail;
    assert !IsPrefix(opcode) by { RowOpcode(mnemonic, opcode, digit); }
    FormReads([opcode], size, digit, rm, tail, size, size);
    FormPrefixFacts(size, digit, rm);
    FormLength([opcode], size, digit, rm);
    var p := FormPrefixes(size, digit, rm);
    var k := |Head(FormSegment(rm), size == Word, FormRex(size, digit, rm))|;
    TailAt(m, tail);
    ImmReads(e, |m|, value, short);
    var f := ModrmFields(ReadRm(rm, size), RegisterOperand(p, digit % 8, p.RexR(), size), digit % 8);
    SizeOfByteRow(p, opcode, size);
    PrimaryImmediate(e, k + 1, p, mnemonic, opcode, f, value % short.Limit(), |m|, |e|);
    DecodeAfterPrefixes(e, p, k, mnemonic, Some(ReadRm(rm, size)), Some(Imm(value % short.Limit(), short)));
  }

  lemma TailAt(m: seq<byte>, tail: seq<byte>)
    ensures At(m + tail, |m|, tail)
  {
    assert (m + tail)[|m|..|m| + |tail|] == tail;
  }

  lemma RowOpcode(mnemonic: Mnemonic, opcode: byte, digit: nat)
    requires ImmediateRow(mnemonic, opcode, digit)
    ensures !IsPrefix(opcode)
  {
  }

  lemma SizeOfByteRow(p: Prefixes, opcode: byte, size: OperandSize)
    requires (ByteRow(opcode) <==> size == Byte) && (size != Byte ==> SizeFor(p, false) == size)
    ensures SizeFor(p, ByteRow(opcode)) == size
  {
  }

  /** ModRM forms whose /digit selects a one-operand instruction. */
  predicate UnaryRow(mnemonic: Mnemonic, opcode: byte, digit: nat) {
    || ((opcode == 0xFE || opcode == 0xFF) && ((digit == 0 && mnemonic == Inc) || (digit == 1 && mnemonic == Dec)))
    || ((opcode == 0xF6 || opcode == 0xF7) && ((digit == 2 && mnemonic == Not) || (digit == 3 && mnemonic == Neg)))
  }

  lemma PrimaryUnary(b: seq<byte>, at: nat, p: Prefixes, mnemonic: Mnemonic, opcode: byte, f: ModrmFields, at1: nat)
    requires UnaryRow(mnemonic, opcode, f.field)
    requires var size := SizeFor(p, ByteRow(opcode));
             ModrmSized(b, at, p, size, size) == Ok(f, at1)
    ensures Primary(b, at, p, opcode) == Ok(With1(mnemonic, f.rm), at1)
  {
    hide ModrmSized, ImmAt, SizeFor, Primary;
    PrimaryGroups(b, at, p, opcode);
  }

  lemma UnaryOpcode(mnemonic: Mnemonic, opcode: byte, digit: nat)
    requires UnaryRow(mnemonic, opcode, digit)
    ensures !IsPrefix(opcode) && digit < 8
  {
  }

  lemma FormNotByte(size: OperandSize)
    ensures SeenSize(size) != Byte
  {
  }

  lemma WithOne(m: Mnemonic, o: Operand)
    ensures With1(m, o) == Instruction(m, Some(o), None, None, NO_PREFIXES, 0)
  {
  }

  lemma UnaryForm(mnemonic: Mnemonic, opcode: byte, digit: nat, size: OperandSize, rm: Operand)
    requires digit < 8 && UnaryRow(mnemonic, opcode, digit) && (ByteRow(opcode) <==> size == Byte)
    requires LegalSegment(rm)
    requires ModrmInstruction([opcode], size, digit, rm).Ok()
    ensures rm.Reg? || rm.Mem?
    ensures var e := ModrmInstruction([opcode], size, digit, rm).bytes;
            var seen := if size == Byte then Byte else SeenSize(size);
            Reads(e, mnemonic, Some(ReadRm(rm, seen)), None, |e|)
  {
    hide *;
    UnaryOpcode(mnemonic, opcode, digit);
    FormNotByte(size);
    var e := ModrmInstruction([opcode], size, digit, rm).bytes;
    var seen := if size == Byte then Byte else SeenSize(size);
    var p, k := OneOpcodeForm(opcode, size, digit, rm, seen);
    var f := ModrmFields(ReadRm(rm, seen), RegisterOperand(p, digit % 8, p.RexR(), seen), digit % 8);
    SizeOfByteRow(p, opcode, seen);
    PrimaryUnary(e, k + 1, p, mnemonic, opcode, f, |e|);
    WithOne(mnemonic, f.rm);
    DecodeAfterPrefixes(e, p, k, mnemonic, Some(ReadRm(rm, seen)), None);
  }

  /** The decoder in front of the ModRM byte of a form with one opcode byte and nothing behind it. */
  lemma OneOpcodeForm(opcode: byte, size: OperandSize, regField: nat, rm: Operand, seen: OperandSize)
      returns (p: Prefixes, k: nat)
    requires regField < 16 && !IsPrefix(opcode) && ModrmInstruction([opcode], size, regField, rm).Ok()
             && LegalSegment(rm)
    requires seen == Byte ==> size == Byte
    ensures rm.Reg? || rm.Mem?
    ensures var e := ModrmInstruction([opcode], size, regField, rm).bytes;
            && k < |e| <= 15 && ReadPrefixes(e, 0, NO_PREFIXES) == Ok(p, k) && e[k] == opcode
            && SizeFor(p, false) == SeenSize(size) && p == FormPrefixes(size, regField, rm)
            && ModrmSized(e, k + 1, p, seen, seen)
               == Ok(ModrmFields(ReadRm(rm, seen), RegisterOperand(p, regField % 8, p.RexR(), seen), regField % 8), |e|)
  {
    hide ModrmInstruction, FormRex, HeadPrefixes, ModrmSized, ReadPrefixes, ReadRm, RegisterOperand, Head, RexAgrees,
         IsPrefix, SizeFor, LegalSegment;
    var e := ModrmInstruction([opcode], size, regField, rm).bytes;
    assert e + [] == e;
    FormReads([opcode], size, regField, rm, [], seen, seen);
    FormPrefixFacts(size, regField, rm);
    FormLength([opcode], size, regField, rm);
    p := FormPrefixes(size, regField, rm);
    k := |Head(FormSegment(rm), size == Word, FormRex(size, regField, rm))|;
  }

  lemma PrimaryImul(b: seq<byte>, at: nat, p: Prefixes, f: ModrmFields, at2: nat)
    requires at < |b| && b[at] == 0xAF
    requires ModrmSized(b, at + 1, p, SizeFor(p, false), SizeFor(p, false)) == Ok(f, at2)
    ensures Primary(b, at, p, 0x0F) == Ok(With2(Imul, f.reg, f.rm), at2)
  {
    PrimaryIsSecondary(b, at, p);
    hide ModrmSized, SizeFor, Primary;
  }

  lemma ImulForm(size: OperandSize, regField: Register, rm: Operand)
    requires LegalSegment(rm)
    requires ModrmInstruction([0x0F, 0xAF], size, regField, rm).Ok()
    ensures rm.Reg? || rm.Mem?
    ensures var e := ModrmInstruction([0x0F, 0xAF], size, regField, rm).bytes;
            var seen := SeenSize(size);
            Reads(e, Imul, Some(Reg(regField, seen, false)), Some(ReadRm(rm, seen)), |e|)
  {
    hide ModrmInstruction, FormRex, HeadPrefixes, ModrmSized, ReadPrefixes, Primary, ReadRm, RegisterOperand, Decode,
         Head, RexAgrees;
    var opcode: seq<byte> := [0x0F, 0xAF];
    var e := ModrmInstruction(opcode, size, regField, rm).bytes;
    assert e + [] == e;
    var seen := SeenSize(size);
    FormReads(opcode, size, regField, rm, [], seen, seen);
    FormPrefixFacts(size, regField, rm);
    RegFieldReads(size, regField, rm, seen);
    FormLength(opcode, size, regField, rm);
    var p := FormPrefixes(size, regField, rm);
    var k := |Head(FormSegment(rm), size == Word, FormRex(size, regField, rm))|;
    var f := ModrmFields(ReadRm(rm, seen), RegisterOperand(p, regField % 8, p.RexR(), seen), regField % 8);
    PrimaryImul(e, k + 1, p, f, |e|);
    DecodeAfterPrefixes(e, p, k, Imul, Some(Reg(regField, seen, false)), Some(ReadRm(rm, seen)));
  }

  // ---------------------------------------------------------------- forms without ModRM

  function ShortPrefixes(word: bool, wide: bool, register: Register): Prefixes {
    HeadPrefixes(None, word, ShortRex(wide, register))
  }

  lemma ShortFacts(word: bool, wide: bool, register: Register)
    ensures RexBytes(wide, register) == Head(None, false, ShortRex(wide, register))
    ensures var p := ShortPrefixes(word, wide, register);
            && p.RexB() == register / 8
            && SizeFor(p, false) == (if wide then Qword else if word then Word else Dword)
            && (p.rexPresent <==> wide || register >= 8)
            && forall size ::
                 RegisterOperand(p, register % 8, p.RexB(), size)
                 == if size == Byte && !wide && 4 <= register <= 7 then Reg(register - 4, size, true)
                    else Reg(register, size, false)
  {
  }

  /** Prefixes, one opcode byte that names a register, then trailing bytes. */
  lemma ShortReads(word: bool, wide: bool, register: Register, rest: seq<byte>)
    requires rest != [] && !IsPrefix(rest[0])
    ensures var head := Head(None, word, ShortRex(wide, register));
            && |head| <= 2
            && head == (if word then [0x66] else []) + RexBytes(wide, register)
            && ReadPrefixes(head + rest, 0, NO_PREFIXES) == Ok(ShortPrefixes(word, wide, register), |head|)
            && (head + rest)[|head|] == rest[0]
  {
    var head := Head(None, word, ShortRex(wide, register));
    ShortFacts(word, wide, register);
    var b := head + rest;
    assert b[0..|head|] == head;
    assert b[|head|] == rest[0];
    hide ReadPrefixes;
    ScanHead(None, word, ShortRex(wide, register), b);
  }

  lemma PrimaryMovShort(b: seq<byte>, at: nat, p: Prefixes, opcode: byte, v: u64, at1: nat)
    requires 0xB0 <= opcode <= 0xBF
    requires var size := if opcode < 0xB8 then Byte else SizeFor(p, false);
             ImmAt(b, at, size) == Ok(v, at1)
    ensures var size := if opcode < 0xB8 then Byte else SizeFor(p, false);
            Primary(b, at, p, opcode)
                == Ok(With2(Mov, RegisterOperand(p, opcode % 8, p.RexB(), size), Imm(v, size)), at1)
  {
    hide ModrmSized, ImmAt, SizeFor, Secondary, BinaryModrm, Relative, PrimaryFixed, RegisterOperand;
  }

  function MovShortBytes(register: Register, size: OperandSize, value: u64): seq<byte>
    requires size != Oword
  {
    Head(None, size == Word, ShortRex(size == Qword, register))
    + ([(if size == Byte then 0xB0 else 0xB8) + register % 8] + LeBytes(value, size.Bytes()))
  }

  lemma HeadIs(word: bool, wide: bool, register: Register)
    ensures Head(None, word, ShortRex(wide, register)) == (if word then [0x66] else []) + RexBytes(wide, register)
  {
  }

  lemma MovShortShape(register: Register, size: OperandSize, source: Operand)
    requires size != Oword && source.Imm?
    ensures EncodeMov(Some(Reg(register, size, false)), Some(source))
         == Emit(MovShortBytes(register, size, source.value))
  {
    hide LeBytes, Head, RexBytes, ShortRex, ModrmInstruction, FormImmediate;
    HeadIs(size == Word, size == Qword, register);
    var head := (if size == Word then [0x66] else []) + RexBytes(size == Qword, register);
    var opcode := [(if size == Byte then 0xB0 else 0xB8) + register % 8];
    var tail := LeBytes(source.value, size.Bytes());
    assert head + opcode + tail == head + (opcode + tail);
  }

  lemma MovShortForm(register: Register, size: OperandSize, value: u64)
    requires size != Oword
    ensures var e := MovShortBytes(register, size, value);
            Reads(e, Mov,
                  Some(if size == Byte && 4 <= register <= 7 then Reg(register - 4, size, true)
                       else Reg(register, size, false)),
                  Some(Imm(value % size.Limit(), size)), |e|)
  {
    hide ReadPrefixes, ImmAt, Head, LeBytes, HeadPrefixes, RegisterOperand, SizeFor, Decode, RexBytes, Primary,
         ShortRex;
    var opcode: byte := (if size == Byte then 0xB0 else 0xB8) + register % 8;
    var tail := LeBytes(value, size.Bytes());
    var rest := [opcode] + tail;
    var word, wide := size == Word, size == Qword;
    ShortReads(word, wide, register, rest);
    ShortFacts(word, wide, register);
    var head := Head(None, word, ShortRex(wide, register));
    var b := head + rest;
    assert b == (head + [opcode]) + tail;
    TailOf(head + [opcode], tail);
    ImmReads(b, |head| + 1, value, size);
    var p := ShortPrefixes(word, wide, register);
    var first := if size == Byte && 4 <= register <= 7 then Reg(register - 4, size, true)
                 else Reg(register, size, false);
    assert b[|head|] == opcode && opcode % 8 == register % 8;
    assert (if opcode < 0xB8 then Byte else SizeFor(p, false)) == size;
    PrimaryMovShort(b, |head| + 1, p, opcode, value % size.Limit(), |b|);
    DecodeAfterPrefixes(b, p, |head|, Mov, Some(first), Some(Imm(value % size.Limit(), size)));
  }

  lemma PrimaryStack(b: seq<byte>, at: nat, p: Prefixes, m: Mnemonic, opcode: byte)
    requires (m == Push && 0x50 <= opcode <= 0x57) || (m == Pop && 0x58 <= opcode <= 0x5F)
    ensures Primary(b, at, p, opcode) == Ok(With1(m, RegisterOperand(p, opcode % 8, p.RexB(), Qword)), at)
  {
    hide Primary, SizeFor, RegisterOperand;
    PrimaryIsFixed(b, at, p, opcode);
  }

  /** PUSH and POP of a register: the operand is always read back as 64 bits wide. */
  lemma StackRegisterForm(m: Mnemonic, opcode: byte, operand: Operand)
    requires (m == Push && opcode == 0x50) || (m == Pop && opcode == 0x58)
    requires UnaryRegister(opcode, operand).Ok()
    ensures var e := UnaryRegister(opcode, operand).bytes;
            Reads(e, m, Some(Reg(operand.register, Qword, false)), None, |e|)
  {
    hide ReadPrefixes, Head, HeadPrefixes, RegisterOperand, SizeFor, Decode, RexBytes, ShortRex, Primary;
    var wide := operand.size == Qword;
    var last: byte := opcode + operand.register % 8;
    ShortReads(false, wide, operand.register, [last]);
    ShortFacts(false, wide, operand.register);
    var head := Head(None, false, ShortRex(wide, operand.register));
    var b := head + [last];
    assert UnaryRegister(opcode, operand).bytes == b;
    hide UnaryRegister;
    var p := ShortPrefixes(false, wide, operand.register);
    PrimaryStack(b, |b|, p, m, last);
    DecodeAfterPrefixes(b, p, |head|, m, Some(Reg(operand.register, Qword, false)), None);
  }

  lemma PrimaryBswap(b: seq<byte>, at: nat, p: Prefixes)
    requires at < |b| && 0xC8 <= b[at] <= 0xCF
    ensures Primary(b, at, p, 0x0F)
         == Ok(With1(Bswap, RegisterOperand(p, b[at] % 8, p.RexB(), SizeFor(p, false))), at + 1)
  {
    hide Primary, SizeFor, RegisterOperand, ModrmSized, ImmAt, BinaryModrm, Relative;
    PrimaryIsSecondary(b, at, p);
  }

  lemma BswapForm(first: Option<Operand>)
    requires EncodeBswap(first, None).Ok()
    ensures var e := EncodeBswap(first, None).bytes;
            Reads(e, Bswap, first, None, |e|)
  {
    hide ReadPrefixes, Head, HeadPrefixes, RegisterOperand, SizeFor, Decode, RexBytes, ShortRex, Primary;
    var register: Register, wide := first.value.register, first.value.size == Qword;
    var low: int := register % 8;
    var last: byte := 0xC8 + low;
    ShortReads(false, wide, register, [0x0F, last]);
    ShortFacts(false, wide, register);
    var head := Head(None, false, ShortRex(wide, register));
    var b := head + [0x0F, last];
    assert EncodeBswap(first, None).bytes == b;
    hide EncodeBswap;
    var p := ShortPrefixes(false, wide, register);
    assert b[|head| + 1] == last;
    PrimaryBswap(b, |head| + 1, p);
    DecodeAfterPrefixes(b, p, |head|, Bswap, first, None);
  }

  lemma NoPrefixReads(b: seq<byte>)
    requires b != [] && !IsPrefix(b[0])
    ensures ReadPrefixes(b, 0, NO_PREFIXES) == Ok(NO_PREFIXES, 0)
  {
  }

  lemma PrimaryPush(b: seq<byte>, at: nat, p: Prefixes, size: OperandSize, v: u64, at1: nat)
    requires (size == Byte || size == Dword) && ImmAt(b, at, size) == Ok(v, at1)
    ensures Primary(b, at, p, if size == Byte then 0x6A else 0x68) == Ok(With1(Push, Imm(v, size)), at1)
  {
    hide Secondary, ModrmSized, ImmAt, SizeFor, BinaryModrm, Relative, PrimaryFixed;
  }

  lemma PushBytes(operand: Operand)
    requires operand.Imm? && EncodePush(operand).Ok()
    ensures var size := if SignExtends8(operand.value) then Byte else Dword;
            var opcode: byte := if size == Byte then 0x6A else 0x68;
            && EncodePush(operand).bytes == [opcode] + LeBytes(operand.value, size.Bytes())
            && EncodePush(operand).bytes[..1] == [opcode]
  {
    hide LeBytes;
    ByteLe(operand.value);
  }

  lemma PushImmediateForm(operand: Operand)
    requires operand.Imm? && EncodePush(operand).Ok()
    ensures var e := EncodePush(operand).bytes;
            var size := if SignExtends8(operand.value) then Byte else Dword;
            Reads(e, Push, Some(Imm(operand.value % size.Limit(), size)), None, |e|)
  {
    hide ReadPrefixes, ImmAt, Decode, Primary, LeBytes, EncodePush;
    var e := EncodePush(operand).bytes;
    var size := if SignExtends8(operand.value) then Byte else Dword;
    PushBytes(operand);
    TailOf(e[..1], LeBytes(operand.value, size.Bytes()));
    NoPrefixReads(e);
    ImmReads(e, 1, operand.value, size);
    PrimaryPush(e, 1, NO_PREFIXES, size, operand.value % size.Limit(), |e|);
    DecodeAfterPrefixes(e, NO_PREFIXES, 0, Push, Some(Imm(operand.value % size.Limit(), size)), None);
  }

  /** The displacement a branch of this size can hold: the value wrapped to its width. */
  function WrapRelative(displacement: int, size: OperandSize): (r: i64)
    requires size == Byte || size == Dword
    ensures FitsRelative(displacement, size) <==> r == displacement
  {
    Signed(displacement % size.Limit(), size.Limit())
  }

  lemma ModOfMod(d: int, m: nat, k: nat)
    requires m > 0 && k > 0
    ensures d % (m * k) % m == d % m
  {
    var n := m * k;
    var q, r := d / n, d % n;
    assert r == m * (r / m) + r % m;
    assert d == n * q + r;
    assert n * q == m * (k * q);
    ModUniqueInt(d, m, k * q + r / m, r % m);
  }

  lemma ModUniqueInt(v: int, m: nat, q: int, r: nat)
    requires m > 0 && v == m * q + r && r < m
    ensures v % m == r
  {
    var d := v / m - q;
    assert m * d == r - v % m by {
      assert m * (v / m - q) == m * (v / m) - m * q;
    }
    if d >= 1 {
      MulAtLeast(m, d);
    } else if d <= -1 {
      assert m * (-d) == -(m * d);
      MulAtLeast(m, -d);
    }
  }

  lemma RelativeReads(b: seq<byte>, at: nat, d: int, size: OperandSize)
    requires size == Byte || size == Dword
    requires At(b, at, LeBytes(d % 0x1_0000_0000_0000_0000, size.Bytes()))
    ensures SignedAt(b, at, size) == Ok(WrapRelative(d, size), at + size.Bytes())
  {
    hide LeBytes, ImmAt;
    ImmReads(b, at, d % 0x1_0000_0000_0000_0000, size);
    if size == Byte {
      ModOfMod(d, 0x100, 0x100_0000_0000_0000);
    } else {
      ModOfMod(d, 0x1_0000_0000, 0x1_0000_0000);
    }
  }

  lemma CodeRoundTrip(c: Condition)
    ensures ConditionFromCode(0x70 + c.Code()) == c && ConditionFromCode(0x80 + c.Code()) == c
  {
  }

  lemma PrimaryBranch(b: seq<byte>, at: nat, p: Prefixes, m: Mnemonic, size: OperandSize, d: i64, at1: nat)
    requires m.Jump? || m.Call? || m.JumpCondition?
    requires var opcode := BranchOpcode(m, size);
             && opcode != []
             && (|opcode| == 2 ==> at < |b| && b[at] == opcode[1])
             && SignedAt(b, at + |opcode| - 1, size) == Ok(d, at1)
    ensures Primary(b, at, p, BranchOpcode(m, size)[0]) == Ok(With1(m, Rel(d, size)), at1)
  {
    hide Secondary, ModrmSized, ImmAt, SizeFor, BinaryModrm, PrimaryFixed, SignedAt, ConditionFromCode;
    if m.JumpCondition? {
      CodeRoundTrip(m.condition);
      if size == Dword {
        PrimaryIsSecondary(b, at, p);
        SecondaryBranch(b, at, p, m.condition);
      }
    }
  }

  lemma SecondaryBranch(b: seq<byte>, at: nat, p: Prefixes, c: Condition)
    requires at < |b| && b[at] == 0x80 + c.Code()
    ensures Secondary(b, at, p) == Relative(b, at + 1, JumpCondition(c), Dword)
  {
    CodeRoundTrip(c);
    hide ModrmSized, ImmAt, SizeFor, BinaryModrm, Relative, ConditionFromCode, SecondaryFixed;
  }

  lemma BranchForm(m: Mnemonic, first: Option<Operand>)
    requires m.Jump? || m.Call? || m.JumpCondition?
    requires EncodeBranch(m, first).Ok()
    ensures first.Some? && first.value.Rel? && (first.value.size == Byte || first.value.size == Dword)
    ensures var e := EncodeBranch(m, first).bytes;
            Reads(e, m, Some(Rel(WrapRelative(first.value.displacement, first.value.size), first.value.size)), None,
                  |e|)
  {
    hide ReadPrefixes, SignedAt, ImmAt, Decode, LeBytes, WrapRelative, Primary;
    var d: int := first.value.displacement;
    var size := first.value.size;
    var opcode := BranchOpcode(m, size);
    var tail := LeBytes(d % 0x1_0000_0000_0000_0000, size.Bytes());
    var e := opcode + tail;
    assert EncodeBranch(m, first).bytes == e;
    hide EncodeBranch, BranchOpcode;
    TailOf(opcode, tail);
    RelativeReads(e, |opcode|, d, size);
    NoPrefixReads(e);
    PrimaryBranch(e, 1, NO_PREFIXES, m, size, WrapRelative(d, size), |e|);
    DecodeAfterPrefixes(e, NO_PREFIXES, 0, m, Some(Rel(WrapRelative(d, size), size)), None);
  }

  /** The instructions without operands, by their one opcode byte or the byte behind 0F. */
  function PlainByOpcode(opcode: byte): Option<Mnemonic> {
    if opcode == 0x90 then Some(Nop)
    else if opcode == 0xF4 then Some(Hlt)
    else if opcode == 0xFA then Some(Cli)
    else if opcode == 0xFB then Some(Sti)
    else if opcode == 0xCC then Some(Int3)
    else if opcode == 0xC3 then Some(Return)
    else if opcode == 0xC9 then Some(Leave)
    else if opcode == 0xCF then Some(Iretq)
    else None
  }

  function PlainBySecond(opcode: byte): Option<Mnemonic> {
    if opcode == 0x05 then Some(Syscall)
    else if opcode == 0x07 then Some(Sysret)
    else if opcode == 0xA2 then Some(Cpuid)
    else if opcode == 0x09 then Some(Wbinvd)
    else if opcode == 0x32 then Some(Rdmsr)
    else if opcode == 0x30 then Some(Wrmsr)
    else None
  }

  lemma PlainCodes(m: Mnemonic)
    requires PlainOpcode(m).Some?
    ensures var c := PlainOpcode(m).value;
            if c < 0x100 then PlainByOpcode(c) == Some(m)
            else if c < 0x1_0000 then PlainBySecond(c % 0x100) == Some(m)
            else m == Swapgs
  {
  }

  lemma PlainOpcodes(m: Mnemonic)
    requires EncodePlain(m).Ok()
    ensures var e := EncodePlain(m).bytes;
            || (|e| == 1 && PlainByOpcode(e[0]) == Some(m))
            || (|e| == 2 && e[0] == 0x0F && PlainBySecond(e[1]) == Some(m))
            || (e == [0x0F, 0x01, 0xF8] && m == Swapgs)
  {
    hide PlainOpcode, PlainByOpcode, PlainBySecond;
    PlainCodes(m);
  }

  lemma FixedRow(opcode: byte)
    requires PlainByOpcode(opcode).Some?
    ensures IsFixed(opcode) && !IsPrefix(opcode)
    ensures PrimaryFixed(1, NO_PREFIXES, opcode) == Ok(Plain(PlainByOpcode(opcode).value), 1)
  {
    hide SizeFor, RegisterOperand, PortDx, SegmentsAre, Prefixes.RexB;
  }

  lemma SecondRow(b: seq<byte>)
    requires |b| == 2 && PlainBySecond(b[1]).Some?
    ensures Secondary(b, 1, NO_PREFIXES) == Ok(Plain(PlainBySecond(b[1]).value), 2)
  {
    hide SizeFor, RegisterOperand, ModrmSized, ImmAt, BinaryModrm, Relative, ShiftDouble, BitTestImmediate, StateGroup,
         SystemGroup, ControlMove, SecondaryModrm, ConditionFromCode, SegmentsAre;
  }

  lemma SwapgsRow(b: seq<byte>)
    requires b == [0x0F, 0x01, 0xF8]
    ensures Secondary(b, 1, NO_PREFIXES) == Ok(Plain(Swapgs), 3)
  {
    hide SizeFor, RegisterOperand, ModrmSized, ImmAt, BinaryModrm, Relative, ShiftDouble, BitTestImmediate, StateGroup,
         ControlMove, SecondaryModrm, SecondaryFixed, ConditionFromCode, SegmentsAre;
  }

  lemma PlainPrimary(m: Mnemonic)
    requires EncodePlain(m).Ok()
    ensures var e := EncodePlain(m).bytes;
            && 1 <= |e| <= 3 && !IsPrefix(e[0])
            && Primary(e, 1, NO_PREFIXES, e[0]) == Ok(Plain(m), |e|)
  {
    hide Primary, PrimaryFixed, Secondary, EncodePlain, PlainByOpcode, PlainBySecond, IsFixed;
    PlainOpcodes(m);
    var e := EncodePlain(m).bytes;
    if |e| == 1 {
      FixedRow(e[0]);
      PrimaryIsFixed(e, 1, NO_PREFIXES, e[0]);
    } else if |e| == 2 {
      SecondRow(e);
      PrimaryIsSecondary(e, 1, NO_PREFIXES);
    } else {
      SwapgsRow(e);
      PrimaryIsSecondary(e, 1, NO_PREFIXES);
    }
  }

  lemma PlainForm(m: Mnemonic)
    requires EncodePlain(m).Ok()
    ensures var e := EncodePlain(m).bytes;
            Reads(e, m, None, None, |e|)
  {
    hide ReadPrefixes, Decode, Primary, EncodePlain;
    PlainPrimary(m);
    var e := EncodePlain(m).bytes;
    NoPrefixReads(e);
    DecodeAfterPrefixes(e, NO_PREFIXES, 0, m, None, None);
  }

  lemma PrimaryIsSecondary(b: seq<byte>, at: nat, p: Prefixes)
    ensures Primary(b, at, p, 0x0F) == Secondary(b, at, p)
  {
    hide Secondary, ModrmSized, ImmAt, SizeFor, BinaryModrm, Relative, PrimaryFixed;
  }

  /** Opcodes that are complete in one byte. */
  predicate IsFixed(opcode: byte) {
    || 0x90 <= opcode <= 0x99 || opcode == 0xF4 || 0xFA <= opcode <= 0xFD || opcode == 0xCC || opcode == 0xC3
    || opcode == 0xCB || opcode == 0xC9 || opcode == 0xCF || 0x50 <= opcode <= 0x5F
  }

  lemma PrimaryIsFixed(b: seq<byte>, at: nat, p: Prefixes, opcode: byte)
    requires IsFixed(opcode)
    ensures Primary(b, at, p, opcode) == PrimaryFixed(at, p, opcode)
  {
    hide Secondary, ModrmSized, ImmAt, SizeFor, BinaryModrm, Relative, PrimaryFixed;
  }

  // ---------------------------------------------------------------- the theorem

  predicate LegalSegments(i: Instruction) {
    (i.first.Some? ==> LegalSegment(i.first.value)) && (i.second.Some? ==> LegalSegment(i.second.value))
  }

  /** No input decodes to an operand with a segment byte that is not a segment prefix. */
  lemma IllegalSegmentNeverMatches(b: seq<byte>, i: Instruction, n: nat)
    requires !LegalSegments(i)
    ensures !Matches(Decode(b), i, n)
  {
    hide Decode;
  }

  /** Comparing with an instruction when the decoder's reading is known. */
  lemma MatchesReading(e: seq<byte>, i: Instruction, m: Mnemonic, first: Option<Operand>, second: Option<Operand>,
                       n: nat)
    requires Reads(e, m, first, second, n)
    ensures Decode(e).Ok?
    ensures Matches(Decode(e), i, n)
       <==> (m == i.mnemonic && OperandMatches(first, i.first, Width(i)) && OperandMatches(second, i.second, Width(i))
             && i.third.None?)
  {
    hide Decode;
  }

  lemma ReadRmSame(rm: Operand, seen: OperandSize)
    requires ((rm.Reg? && !rm.high8) || rm.Mem?) && LegalSegment(rm)
    ensures ReadRm(rm, seen) == rm <==> rm.Size() == seen && CanonicalRm(rm)
  {
  }

  /** Reading a residue as a signed number does not change the residue. */
  lemma SignedResidue(v: nat, m: nat)
    requires m > 0
    ensures v % m < m && Signed(v % m, m) % m == v % m
  {
    var r := v % m;
    if 2 * r < m {
      ModUniqueInt(r, m, 0, r);
    } else {
      ModUniqueInt(r - m, m, -1, r);
    }
  }

  /** A value that sign-extends from 32 bits comes back from its low half. */
  lemma LowHalfExtends(value: u64)
    requires SignExtends32(value)
    ensures value % 0x1_0000_0000 < 0x1_0000_0000
    ensures Signed(value % 0x1_0000_0000, 0x1_0000_0000) % 0x1_0000_0000_0000_0000 == value % 0x1_0000_0000_0000_0000
  {
    ModUnique(value, 0x1_0000_0000_0000_0000, 0, value);
    if value < 0x8000_0000 {
      ModUnique(value, 0x1_0000_0000, 0, value);
    } else {
      ModUnique(value, 0x1_0000_0000, 0xFFFF_FFFF, value - 0xFFFF_FFFF_0000_0000);
      ModUniqueInt(value - 0x1_0000_0000_0000_0000, 0x1_0000_0000_0000_0000, -1, value);
    }
  }

  lemma ImmediateSame(value: u64, size: OperandSize)
    requires size != Oword && (size == Qword ==> SignExtends32(value))
    ensures ImmediateMatches(Some(Imm(value % ImmediateSize(size).Limit(), ImmediateSize(size))), value, size.Limit())
  {
    hide Signed;
    if size == Qword {
      LowHalfExtends(value);
    } else {
      SignedResidue(value, size.Limit());
    }
  }

  lemma BinaryCase(i: Instruction, opcode: byte, passed: byte, size: OperandSize, reg: Operand, rm: Operand)
    requires BinaryRow(i.mnemonic, opcode, passed) && reg.Reg? && reg.size == size == rm.Size()
    requires ModrmInstruction([opcode], size, reg.register, rm).Ok() && LegalSegment(rm)
    requires passed % 2 == 0 ==> size == Byte
    requires if passed / 2 % 2 == 1 then i.first == Some(reg) && i.second == Some(rm)
             else i.first == Some(rm) && i.second == Some(reg)
    ensures var e := ModrmInstruction([opcode], size, reg.register, rm).bytes;
            var seen := if passed % 2 == 0 then Byte else SeenSize(size);
            && Decode(e).Ok?
            && (Matches(Decode(e), i, |e|) <==> !reg.high8 && seen == size && CanonicalRm(rm) && i.third.None?)
  {
    hide Decode, ModrmInstruction, BinaryRow, ReadRm, CanonicalRm;
    BinaryForm(i.mnemonic, opcode, passed, size, reg.register, rm);
    var e := ModrmInstruction([opcode], size, reg.register, rm).bytes;
    var seen := if passed % 2 == 0 then Byte else SeenSize(size);
    var read := Reg(reg.register, seen, false);
    FormShape([opcode], size, reg.register, rm);
    ReadRmSame(rm, seen);
    if passed / 2 % 2 == 1 {
      MatchesReading(e, i, i.mnemonic, Some(read), Some(ReadRm(rm, seen)), |e|);
    } else {
      MatchesReading(e, i, i.mnemonic, Some(ReadRm(rm, seen)), Some(read), |e|);
    }
  }

  lemma ImmediateCase(i: Instruction, opcode: byte, digit: nat, size: OperandSize, rm: Operand, source: Operand)
    requires digit < 8 && ImmediateRow(i.mnemonic, opcode, digit) && (ByteRow(opcode) <==> size == Byte)
    requires LegalSegment(rm) && rm.Size() == size && source.Imm?
    requires i.first == Some(rm) && i.second == Some(source)
    requires ModrmInstruction([opcode], size, digit, rm).Then(FormImmediate(source.value, size)).Ok()
    ensures (rm.Reg? && !rm.high8) || rm.Mem?
    ensures var e := ModrmInstruction([opcode], size, digit, rm).Then(FormImmediate(source.value, size)).bytes;
            && Decode(e).Ok?
            && (Matches(Decode(e), i, |e|) <==> size != Oword && CanonicalRm(rm) && i.third.None?)
  {
    hide Decode, ModrmInstruction, ImmediateRow, ReadRm, CanonicalRm, ImmediateMatches, LeBytes, FormImmediate, Matches;
    if size == Oword {
      WideImmediateCase(i, opcode, digit, rm, source.value);
    } else {
      NarrowImmediateCase(i, opcode, digit, size, rm, source);
    }
  }

  lemma NarrowImmediateCase(i: Instruction, opcode: byte, digit: nat, size: OperandSize, rm: Operand, source: Operand)
    requires digit < 8 && ImmediateRow(i.mnemonic, opcode, digit) && (ByteRow(opcode) <==> size == Byte)
    requires LegalSegment(rm) && rm.Size() == size != Oword && source.Imm?
    requires i.first == Some(rm) && i.second == Some(source)
    requires ModrmInstruction([opcode], size, digit, rm).Then(FormImmediate(source.value, size)).Ok()
    ensures (rm.Reg? && !rm.high8) || rm.Mem?
    ensures var e := ModrmInstruction([opcode], size, digit, rm).Then(FormImmediate(source.value, size)).bytes;
            && Decode(e).Ok?
            && (Matches(Decode(e), i, |e|) <==> CanonicalRm(rm) && i.third.None?)
  {
    hide Decode, ModrmInstruction, ImmediateRow, ReadRm, CanonicalRm, ImmediateMatches, LeBytes, FormImmediate;
    var value := source.value;
    FormImmediateShape(ModrmInstruction([opcode], size, digit, rm), value, size);
    ImmediateForm(i.mnemonic, opcode, digit, size, rm, value);
    FormShape([opcode], size, digit, rm);
    var e := ModrmInstruction([opcode], size, digit, rm).Then(FormImmediate(value, size)).bytes;
    var short := ImmediateSize(size);
    ReadRmSame(rm, size);
    ImmediateSame(value, size);
    MatchesReading(e, i, i.mnemonic, Some(ReadRm(rm, size)), Some(Imm(value % short.Limit(), short)), |e|);
  }

  /** The bytes of a 16-byte immediate behind the four that a decoder reads. */
  function WideRest(value: u64): seq<byte> { LeBytes(value, 8)[4..] + LeBytes(value, 8) }

  lemma WideImmediate(value: u64)
    ensures Immediate(value, Oword).bytes == LeBytes(value, 4) + WideRest(value)
  {
    hide LeBytes;
    LePrefix(value, 4, 8);
    var all := LeBytes(value, 8);
    assert all == all[..4] + all[4..];
  }

  /** Bytes behind a complete reading make the instruction one the encoder did not mean. */
  lemma LongerNeverMatches(e: seq<byte>, rest: seq<byte>, i: Instruction, m: Mnemonic, first: Option<Operand>,
                           second: Option<Operand>)
    requires Reads(e, m, first, second, |e|) && rest != []
    ensures Decode(e + rest).Ok? && !Matches(Decode(e + rest), i, |e + rest|)
  {
    hide Decode;
    X86PrefixLaw.ExtensionStable(e, rest);
  }

  /** No prefix says that an operand has 128 bits. */
  lemma WideIsDword(opcode: seq<byte>, digit: nat, rm: Operand)
    requires digit < 16
    ensures ModrmInstruction(opcode, Oword, digit, rm) == ModrmInstruction(opcode, Dword, digit, rm)
  {
    hide Modrm;
  }

  lemma WideImmediateCase(i: Instruction, opcode: byte, digit: nat, rm: Operand, value: u64)
    requires digit < 8 && ImmediateRow(i.mnemonic, opcode, digit) && !ByteRow(opcode) && LegalSegment(rm)
    requires ModrmInstruction([opcode], Oword, digit, rm).Then(FormImmediate(value, Oword)).Ok()
    ensures (rm.Reg? && !rm.high8) || rm.Mem?
    ensures var e := ModrmInstruction([opcode], Oword, digit, rm).Then(FormImmediate(value, Oword)).bytes;
            Decode(e).Ok? && !Matches(Decode(e), i, |e|)
  {
    hide Decode, ModrmInstruction, ImmediateRow, ByteRow, ReadRm, LeBytes, Matches, Reads, WideRest, LegalSegment;
    var m := ModrmInstruction([opcode], Oword, digit, rm);
    WideIsDword([opcode], digit, rm);
    FormShape([opcode], Dword, digit, rm);
    ImmediateForm(i.mnemonic, opcode, digit, Dword, rm, value);
    WideImmediate(value);
    var e := m.bytes + LeBytes(value, 4);
    assert m.Then(FormImmediate(value, Oword)).bytes == e + WideRest(value);
    WideRestSome(value);
    LongerNeverMatches(e, WideRest(value), i, i.mnemonic, Some(ReadRm(rm, Dword)),
                       Some(Imm(value % Dword.Limit(), Dword)));
  }

  lemma WideRestSome(value: u64)
    ensures WideRest(value) != []
  {
    assert |LeBytes(value, 8)| == 8;
  }

  /** RoundTrip for one instruction without trailing bytes. */
  ghost predicate ExactTrip(i: Instruction)
    requires Encode(i).Ok()
  {
    var e := Encode(i).bytes;
    Decode(e).Ok? && (Matches(Decode(e), i, |e|) <==> Canonical(i))
  }

  lemma MovShortCase(i: Instruction)
    requires i.mnemonic == Mov && i.first.Some? && i.second.Some?
    requires i.first.value.Reg? && !i.first.value.high8 && i.second.value.Imm?
    requires Encode(i).Ok()
    ensures ExactTrip(i)
  {
    hide Decode, LeBytes, RexBytes;
    var register, size, value := i.first.value.register, i.first.value.size, i.second.value.value;
    if size == Oword {
      WideMovCase(i);
      return;
    }
    MovShortShape(register, size, i.second.value);
    hide EncodeMov;
    MovShortForm(register, size, value);
    var e := MovShortBytes(register, size, value);
    hide MovShortBytes;
    var first := if size == Byte && 4 <= register <= 7 then Reg(register - 4, size, true)
                 else Reg(register, size, false);
    MatchesReading(e, i, Mov, Some(first), Some(Imm(value % size.Limit(), size)), |e|);
    FullWidthSame(value, size);
  }

  lemma WideMovShape(register: Register, source: Operand)
    requires source.Imm?
    ensures EncodeMov(Some(Reg(register, Oword, false)), Some(source))
         == Emit(MovShortBytes(register, Dword, source.value) + WideRest(source.value))
  {
    hide LeBytes, Head, RexBytes, ShortRex, ModrmInstruction, FormImmediate, WideRest;
    HeadIs(false, false, register);
    WideImmediate(source.value);
    var head := RexBytes(false, register);
    var opcode := [0xB8 + register % 8];
    var tail := LeBytes(source.value, 4);
    assert [] + head + opcode + (tail + WideRest(source.value)) == head + (opcode + tail) + WideRest(source.value);
  }

  lemma WideMovCase(i: Instruction)
    requires i.mnemonic == Mov && i.first.Some? && i.second.Some?
    requires i.first.value.Reg? && !i.first.value.high8 && i.first.value.size == Oword && i.second.value.Imm?
    requires Encode(i).Ok()
    ensures ExactTrip(i)
  {
    hide Decode, LeBytes, RexBytes, Matches, WideRest, MovShortBytes, Reads, EncodeMov;
    var register, value := i.first.value.register, i.second.value.value;
    WideMovShape(register, i.second.value);
    MovShortForm(register, Dword, value);
    WideRestSome(value);
    var first := Reg(register, Dword, false);
    LongerNeverMatches(MovShortBytes(register, Dword, value), WideRest(value), i, Mov, Some(first),
                       Some(Imm(value % Dword.Limit(), Dword)));
  }

  lemma FullWidthSame(value: u64, size: OperandSize)
    requires size != Oword
    ensures ImmediateMatches(Some(Imm(value % size.Limit(), size)), value, size.Limit())
  {
    hide Signed;
    SignedResidue(value, size.Limit());
  }

  lemma MovCase(i: Instruction)
    requires i.mnemonic == Mov && Encode(i).Ok() && LegalSegments(i)
    ensures ExactTrip(i)
  {
    hide Decode, ModrmInstruction, LeBytes, RexBytes, FormImmediate, Matches, BinaryRow, ImmediateRow;
    var d, s := i.first.value, i.second.value;
    if d.Reg? && !d.high8 && s.Imm? {
      MovShortCase(i);
    } else if s.Reg? {
      var opcode: byte := if d.Size() == Byte then 0x88 else 0x89;
      MovRows();
      FormShape([opcode], d.Size(), s.register, d);
      BinaryCase(i, opcode, opcode, d.Size(), s, d);
    } else if s.Mem? {
      var opcode: byte := if d.Size() == Byte then 0x8A else 0x8B;
      MovRows();
      BinaryCase(i, opcode, opcode, d.Size(), d, s);
    } else {
      var opcode: byte := if d.Size() == Byte then 0xC6 else 0xC7;
      MovRows();
      ImmediateCase(i, opcode, 0, d.Size(), d, s);
    }
  }

  lemma MovRows()
    ensures forall k: byte | 0x88 <= k <= 0x8B :: BinaryRow(Mov, k, k)
    ensures ImmediateRow(Mov, 0xC6, 0) && ImmediateRow(Mov, 0xC7, 0)
  {
  }

  lemma ArithmeticCase(i: Instruction)
    requires IsArithmetic(i.mnemonic) && Encode(i).Ok() && LegalSegments(i)
    ensures ExactTrip(i)
  {
    hide Decode, ModrmInstruction, FormImmediate, Matches, EncodeArithmetic;
    assert Encode(i) == EncodeArithmetic(i.mnemonic, i.first, i.second);
    hide Encode;
    ArithmeticFormCase(i);
    assert Canonical(i) <==> i.third.None? && CanonicalArithmetic(i.first, i.second);
  }

  lemma ArithmeticFormCase(i: Instruction)
    requires IsArithmetic(i.mnemonic) && LegalSegments(i)
    requires EncodeArithmetic(i.mnemonic, i.first, i.second).Ok()
    ensures var e := EncodeArithmetic(i.mnemonic, i.first, i.second).bytes;
            && Decode(e).Ok?
            && (Matches(Decode(e), i, |e|) <==> i.third.None? && CanonicalArithmetic(i.first, i.second))
  {
    hide Decode, ModrmInstruction, FormImmediate, Matches, BinaryRow, ImmediateRow, CanonicalMemory;
    if !i.second.value.Imm? {
      hide EncodeArithmetic, CanonicalArithmetic;
      ArithmeticRegisterCase(i);
    } else {
      var m, d, s := i.mnemonic, i.first.value, i.second.value;
      var odd := Bit(d.Size() != Byte, 1);
      ArithmeticRows(m, odd);
      ImmediateCase(i, (if m.Test? then 0xF6 else 0x80) + odd, ArithmeticDigit(m), d.Size(), d, s);
    }
  }

  lemma ArithmeticRegisterCase(i: Instruction)
    requires IsArithmetic(i.mnemonic) && LegalSegments(i)
    requires EncodeArithmetic(i.mnemonic, i.first, i.second).Ok()
    requires !i.second.value.Imm?
    ensures var e := EncodeArithmetic(i.mnemonic, i.first, i.second).bytes;
            && Decode(e).Ok?
            && (Matches(Decode(e), i, |e|) <==> i.third.None? && CanonicalArithmetic(i.first, i.second))
  {
    hide Decode, ModrmInstruction, FormImmediate, Matches, CanonicalArithmetic, ArithmeticDigit, IsArithmetic,
         LegalSegment;
    if i.second.value.Reg? {
      ArithmeticFromRegister(i);
    } else {
      ArithmeticToRegister(i);
    }
  }

  lemma ArithmeticFromShape(m: Mnemonic, d: Operand, s: Operand)
    requires IsArithmetic(m) && s.Reg? && EncodeArithmetic(m, Some(d), Some(s)).Ok()
    ensures d.Size() == s.size && (d.Reg? || d.Mem?)
    ensures EncodeArithmetic(m, Some(d), Some(s))
         == ModrmInstruction([(if m.Test? then 0x84 else 8 * ArithmeticDigit(m)) + Bit(d.Size() != Byte, 1)],
                             d.Size(), s.register, d)
  {
    hide ModrmInstruction, ArithmeticDigit;
  }

  lemma ArithmeticFromRegister(i: Instruction)
    requires IsArithmetic(i.mnemonic) && LegalSegments(i)
    requires EncodeArithmetic(i.mnemonic, i.first, i.second).Ok()
    requires i.first.Some? && i.second.Some? && i.second.value.Reg?
    ensures var e := EncodeArithmetic(i.mnemonic, i.first, i.second).bytes;
            && Decode(e).Ok?
            && (Matches(Decode(e), i, |e|) <==> i.third.None? && CanonicalArithmetic(i.first, i.second))
  {
    hide Decode, ModrmInstruction, FormImmediate, Matches, BinaryRow, ImmediateRow, CanonicalMemory, ArithmeticDigit,
         IsArithmetic, SeenSize, EncodeArithmetic;
    var m, d, s := i.mnemonic, i.first.value, i.second.value;
    var size := d.Size();
    var odd := Bit(size != Byte, 1);
    var row := if m.Test? then 0x84 else 8 * ArithmeticDigit(m);
    ArithmeticFromShape(m, d, s);
    ArithmeticRows(m, odd);
    FormShape([row + odd], size, s.register, d);
    BinaryCase(i, row + odd, (if m.Test? then 0 else row) + odd, size, s, d);
    SeenFacts(size);
  }

  lemma ArithmeticToRegister(i: Instruction)
    requires IsArithmetic(i.mnemonic) && LegalSegments(i)
    requires EncodeArithmetic(i.mnemonic, i.first, i.second).Ok()
    requires !i.second.value.Imm? && !i.second.value.Reg?
    ensures var e := EncodeArithmetic(i.mnemonic, i.first, i.second).bytes;
            && Decode(e).Ok?
            && (Matches(Decode(e), i, |e|) <==> i.third.None? && CanonicalArithmetic(i.first, i.second))
  {
    hide Decode, ModrmInstruction, FormImmediate, Matches, BinaryRow, ImmediateRow, CanonicalMemory, ArithmeticDigit,
         IsArithmetic, SeenSize;
    var m, d, s := i.mnemonic, i.first.value, i.second.value;
    var size := d.Size();
    var odd := Bit(size != Byte, 1);
    var row := 8 * ArithmeticDigit(m);
    ArithmeticRows(m, 2 + odd);
    BinaryCase(i, row + 2 + odd, row + 2 + odd, size, d, s);
    SeenFacts(size);
  }

  lemma SeenFacts(size: OperandSize)
    ensures SeenSize(size) == size <==> size != Byte && size != Oword
  {
  }

  lemma ArithmeticRows(m: Mnemonic, k: nat)
    requires IsArithmetic(m) && k < 4
    ensures m.Test? ==> BinaryRow(m, 0x84, 0) && BinaryRow(m, 0x85, 1)
    ensures m.Test? ==> ImmediateRow(m, 0xF6, 0) && ImmediateRow(m, 0xF7, 0)
    ensures !m.Test? ==>
              && BinaryRow(m, 8 * ArithmeticDigit(m) + k, 8 * ArithmeticDigit(m) + k)
              && ImmediateRow(m, 0x80, ArithmeticDigit(m)) && ImmediateRow(m, 0x81, ArithmeticDigit(m))
  {
    if !m.Test? {
      var digit := ArithmeticDigit(m);
      assert GroupOneMnemonic(digit) == m;
      assert (8 * digit + k) / 8 == digit && (8 * digit + k) % 8 == k;
    }
  }

  lemma LeaCase(i: Instruction)
    requires i.mnemonic == Lea && Encode(i).Ok() && LegalSegments(i)
    ensures ExactTrip(i)
  {
    hide Decode, ModrmInstruction, Matches, BinaryRow;
    assert BinaryRow(Lea, 0x8D, 0x8B) by { LeaRow(); }
    BinaryCase(i, 0x8D, 0x8B, i.first.value.size, i.first.value, i.second.value);
  }

  lemma LeaRow()
    ensures BinaryRow(Lea, 0x8D, 0x8B)
  {
  }

  lemma ImulCase(i: Instruction)
    requires i.mnemonic == Imul && Encode(i).Ok() && LegalSegments(i)
    ensures ExactTrip(i)
  {
    hide Decode, ModrmInstruction, Matches, ReadRm, CanonicalMemory;
    var d, s := i.first.value, i.second.value;
    var seen := SeenSize(d.size);
    ImulForm(d.size, d.register, s);
    FormShape([0x0F, 0xAF], d.size, d.register, s);
    ReadRmSame(s, seen);
    var e := Encode(i).bytes;
    MatchesReading(e, i, Imul, Some(Reg(d.register, seen, false)), Some(ReadRm(s, seen)), |e|);
  }

  lemma UnaryCase(i: Instruction)
    requires i.mnemonic.Inc? || i.mnemonic.Dec? || i.mnemonic.Not? || i.mnemonic.Neg?
    requires Encode(i).Ok() && LegalSegments(i)
    ensures ExactTrip(i)
  {
    hide Decode, ModrmInstruction, Matches, ReadRm, CanonicalRm;
    var m := i.mnemonic;
    assert Encode(i) == EncodeGroupUnary(m, i.first);
    hide Encode;
    var rm := i.first.value;
    var size := rm.Size();
    var digit := match m case Inc => 0 case Dec => 1 case Not => 2 case _ => 3;
    var opcode: byte := (if m.Inc? || m.Dec? then 0xFE else 0xF6) + Bit(size != Byte, 1);
    assert UnaryRow(m, opcode, digit);
    UnaryForm(m, opcode, digit, size, rm);
    FormShape([opcode], size, digit, rm);
    var seen := if size == Byte then Byte else SeenSize(size);
    ReadRmSame(rm, seen);
    var e := Encode(i).bytes;
    MatchesReading(e, i, m, Some(ReadRm(rm, seen)), None, |e|);
  }

  lemma StackCase(i: Instruction)
    requires (i.mnemonic == Push || i.mnemonic == Pop) && Encode(i).Ok()
    ensures ExactTrip(i)
  {
    hide Decode, Matches, RexBytes, LeBytes;
    if i.first.value.Reg? {
      StackRegisterCase(i);
    } else {
      PushImmediateCase(i);
    }
  }

  lemma StackRegisterCase(i: Instruction)
    requires (i.mnemonic == Push || i.mnemonic == Pop) && Encode(i).Ok() && i.first.Some? && i.first.value.Reg?
    ensures ExactTrip(i)
  {
    hide Decode, Matches, RexBytes, LeBytes;
    var e := Encode(i).bytes;
    var o := i.first.value;
    StackRegisterForm(i.mnemonic, if i.mnemonic == Push then 0x50 else 0x58, o);
    MatchesReading(e, i, i.mnemonic, Some(Reg(o.register, Qword, false)), None, |e|);
  }

  lemma PopNeedsRegister(i: Instruction)
    requires (i.mnemonic == Push || i.mnemonic == Pop) && Encode(i).Ok() && i.first.Some? && !i.first.value.Reg?
    ensures i.mnemonic == Push
  {
  }

  lemma PushedSame(value: u64)
    requires SignExtends32(value)
    ensures var size := if SignExtends8(value) then Byte else Dword;
            ImmediateMatches(Some(Imm(value % size.Limit(), size)), value, U64_LIMIT)
  {
    if !SignExtends8(value) {
      hide Signed;
      LowHalfExtends(value);
    } else if value < 0x80 {
      ModUnique(value, 0x100, 0, value);
    } else {
      ModUnique(value, 0x100, 0xFF_FFFF_FFFF_FFFF, value - 0xFFFF_FFFF_FFFF_FF00);
      ModUniqueInt(value - 0x1_0000_0000_0000_0000, 0x1_0000_0000_0000_0000, -1, value);
    }
  }

  lemma PushImmediateCase(i: Instruction)
    requires (i.mnemonic == Push || i.mnemonic == Pop) && Encode(i).Ok() && i.first.Some? && !i.first.value.Reg?
    ensures ExactTrip(i)
  {
    hide Decode, Matches, LeBytes, UnaryRegister;
    var o := i.first.value;
    assert Encode(i) == EncodePush(o) && i.mnemonic == Push by { PopNeedsRegister(i); }
    hide Encode;
    var e := EncodePush(o).bytes;
    PushImmediateForm(o);
    assert o.Imm? && SignExtends32(o.value);
    PushedSame(o.value);
    hide EncodePush, Reads, ImmediateMatches;
    var size := if SignExtends8(o.value) then Byte else Dword;
    MatchesReading(e, i, Push, Some(Imm(o.value % size.Limit(), size)), None, |e|);
  }

  lemma RemainingCases(i: Instruction)
    requires Encode(i).Ok()
    requires i.mnemonic.Bswap? || i.mnemonic.Jump? || i.mnemonic.Call? || i.mnemonic.JumpCondition?
             || EncodePlain(i.mnemonic).Ok()
    ensures ExactTrip(i)
  {
    hide Decode, Matches, EncodeBranch, EncodeBswap, WrapRelative;
    var m := i.mnemonic;
    if m.Bswap? {
      BswapNoSecond(i);
      BswapForm(i.first);
      var e := Encode(i).bytes;
      MatchesReading(e, i, m, i.first, None, |e|);
    } else if m.Jump? || m.Call? || m.JumpCondition? {
      BranchForm(m, i.first);
      var e := Encode(i).bytes;
      var d, size := i.first.value.displacement, i.first.value.size;
      MatchesReading(e, i, m, Some(Rel(WrapRelative(d, size), size)), None, |e|);
    } else {
      PlainForm(m);
      assert Encode(i) == EncodePlain(m);
      hide EncodePlain;
      var e := Encode(i).bytes;
      MatchesReading(e, i, m, None, None, |e|);
    }
  }

  lemma BswapNoSecond(i: Instruction)
    requires i.mnemonic.Bswap? && Encode(i).Ok()
    ensures i.second.None? && i.first.Some? && i.first.value.Reg?
  {
  }

  lemma EveryCase(i: Instruction)
    requires Encode(i).Ok() && LegalSegments(i)
    ensures ExactTrip(i)
  {
    hide Decode, ExactTrip, EncodeMov, EncodeArithmetic, EncodePush, UnaryRegister, EncodeLea, EncodeImul,
         EncodeGroupUnary, EncodeBranch, EncodeBswap;
    var m := i.mnemonic;
    if IsArithmetic(m) {
      ArithmeticCase(i);
    } else if m.Mov? {
      MovCase(i);
    } else if m.Lea? {
      LeaCase(i);
    } else if m.Imul? {
      ImulCase(i);
    } else if m.Inc? || m.Dec? || m.Not? || m.Neg? {
      UnaryCase(i);
    } else if m.Push? || m.Pop? {
      StackCase(i);
    } else {
      RemainingCases(i);
    }
  }

  lemma IllegalNotCanonical(i: Instruction)
    requires Encode(i).Ok() && !LegalSegments(i)
    ensures !Canonical(i)
  {
    hide RexBytes, LeBytes, ModrmInstruction, FormImmediate;
  }

  /**
   For every instruction the encoder accepts and every byte string that follows it, the decoder
   reads back the same mnemonic, operands and length if and only if the instruction is canonical.
   */
  lemma RoundTrip(i: Instruction, tail: seq<byte>)
    requires Encode(i).Ok()
    ensures Matches(Decode(Encode(i).bytes + tail), i, |Encode(i).bytes|) <==> Canonical(i)
  {
    hide Decode, Encode, Canonical, Matches;
    var e := Encode(i).bytes;
    if LegalSegments(i) {
      EveryCase(i);
      X86PrefixLaw.ExtensionStable(e, tail);
    } else {
      IllegalSegmentNeverMatches(e + tail, i, |e|);
      IllegalNotCanonical(i);
    }
  }

  /** The short byte move to SPL is read back as a move to AH: no bare REX is emitted. */
  lemma ByteMoveToSplIsLost()
    ensures var i := With2(Mov, Reg(RSP, Byte, false), Imm(7, Byte));
            && Encode(i) == Emit([0xB4, 7])
            && Decode([0xB4, 7]).Ok?
            && Decode([0xB4, 7]).value.first == Some(Reg(RAX, Byte, true))
  {
    hide Decode, LeBytes;
    MovShortShape(RSP, Byte, Imm(7, Byte));
    ByteLe(7);
    assert MovShortBytes(RSP, Byte, 7) == [0xB4, 7];
    MovShortForm(RSP, Byte, 7);
  }
}
