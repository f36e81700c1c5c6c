/**
 The encoder, as functions from an instruction to the bytes it emits and how it stops.

 The source writes each byte as it goes and can stop with an error after some bytes are out; an
 Emission keeps both. X86EncodeBuffer writes emissions into a bounded buffer in place.
 */
module X86Encode {
  import opened Bytes
  import opened X86

  datatype EncodeError = BufferTooSmall | UnsupportedInstruction | InvalidOperand

  /** The bytes emitted, and the error that stopped the emission, if any. */
  datatype Emission = Emission(bytes: seq<byte>, stop: Option<EncodeError>) {
    predicate Ok() { stop.None? }

    /** This emission followed by another one, unless this one stopped. */
    function Then(next: Emission): Emission {
      if stop.Some? then this else Emission(bytes + next.bytes, next.stop)
    }
  }

  function Emit(bytes: seq<byte>): Emission { Emission(bytes, None) }
  function Stop(error: EncodeError): Emission { Emission([], Some(error)) }

  /** A 16-byte immediate repeats the eight bytes of its value, since shift counts wrap at 64. */
  function Immediate(value: u64, size: OperandSize): Emission {
    Emit(if size == Oword then LeBytes(value, 8) + LeBytes(value, 8) else LeBytes(value, size.Bytes()))
  }

  function Bit(condition: bool, weight: nat): (r: nat)
    ensures r == 0 || r == weight
  {
    if condition then weight else 0
  }

  /** The REX byte of a form that names its register in the opcode, if any. */
  function ShortRex(wide: bool, register: Register): (r: Option<byte>)
    ensures r.Some? ==> 0x40 <= r.value <= 0x4F
  {
    var rex := 0x40 + Bit(wide, 8) + Bit(register >= 8, 1);
    if rex != 0x40 then Some(rex) else None
  }

  function RexBytes(wide: bool, register: Register): seq<byte> {
    var rex := ShortRex(wide, register);
    if rex.Some? then [rex.value] else []
  }

  function UnaryRegister(opcode: byte, operand: Operand): Emission
    requires opcode <= 0xF8
  {
    if operand.Reg? && !operand.high8 then
      Emit(RexBytes(operand.size == Qword, operand.register) + [opcode + operand.register % 8])
    else Stop(InvalidOperand)
  }

  /** The REX byte of a ModRM form, if any. */
  function FormRex(size: OperandSize, regField: nat, rm: Operand): (r: Option<byte>)
    requires regField < 16 && (rm.Reg? || rm.Mem?)
    ensures r.Some? ==> 0x40 <= r.value <= 0x4F
  {
    var rexX := rm.Mem? && rm.memory.index.Some? && rm.memory.index.value >= 8;
    var rexB := if rm.Mem? then rm.memory.base.Some? && rm.memory.base.value >= 8 else rm.register >= 8;
    var force := rm.Reg? && size == Byte && 4 <= rm.register <= 7;
    var rex := 0x40 + Bit(size == Qword, 8) + Bit(regField >= 8, 4) + Bit(rexX, 2) + Bit(rexB, 1);
    if rex != 0x40 || force || (size == Byte && 4 <= regField <= 7) then Some(rex) else None
  }

  function FormSegment(rm: Operand): Option<byte> {
    if rm.Mem? then rm.memory.segment else None
  }

  /** The prefix bytes in the order they go out. */
  function Head(segment: Option<byte>, word: bool, rex: Option<byte>): seq<byte> {
    (if segment.Some? then [segment.value] else []) + (if word then [0x66] else [])
    + (if rex.Some? then [rex.value] else [])
  }

  function OperandPrefixes(size: OperandSize, regField: nat, rm: Operand): Emission
    requires regField < 16
  {
    if rm.Mem? || (rm.Reg? && !rm.high8) then Emit(Head(FormSegment(rm), size == Word, FormRex(size, regField, rm)))
    else Emission(Head(FormSegment(rm), size == Word, None), Some(InvalidOperand))
  }

  predicate FitsI32(d: int) { -0x8000_0000 <= d < 0x8000_0000 }
  predicate FitsI8(d: int) { -0x80 <= d < 0x80 }

  /** A 64-bit value that is the sign extension of its low 32 bits. */
  predicate SignExtends32(value: u64) {
    value < 0x8000_0000 || value >= 0xFFFF_FFFF_8000_0000
  }

  predicate SignExtends8(value: u64) {
    value < 0x80 || value >= 0xFFFF_FFFF_FFFF_FF80
  }

  function Dword32(d: int): seq<byte> { LeBytes(d % 0x1_0000_0000, 4) }

  predicate NeedsSib(m: MemoryOperand) {
    m.index.Some? || m.base.None? || m.base.value % 8 == 4
  }

  function Mode(m: MemoryOperand): (r: nat)
    ensures r < 3
  {
    if m.base.None? || (m.displacement == 0 && m.base.value % 8 != 5) then 0
    else if FitsI8(m.displacement) then 1
    else 2
  }

  predicate LegalScale(scale: byte) { scale == 1 || scale == 2 || scale == 4 || scale == 8 }

  function ScaleBits(scale: byte): (r: nat)
    requires LegalScale(scale)
    ensures r < 4
  {
    match scale case 1 => 0 case 2 => 1 case 4 => 2 case _ => 3
  }

  function SibByte(m: MemoryOperand): (r: byte)
    requires LegalScale(m.scale)
    ensures r / 64 == ScaleBits(m.scale)
    ensures r / 8 % 8 == if m.index.Some? then m.index.value % 8 else 4
    ensures r % 8 == if m.base.Some? then m.base.value % 8 else 5
  {
    64 * ScaleBits(m.scale)
    + 8 * (if m.index.Some? then m.index.value % 8 else 4)
    + (if m.base.Some? then m.base.value % 8 else 5)
  }

  function MemoryTail(m: MemoryOperand): Emission {
    if Mode(m) == 1 then Emit([m.displacement % 0x100])
    else if Mode(m) == 2 || m.base.None? then Emit(Dword32(m.displacement))
    else Emit([])
  }

  function MemoryModrm(regField: nat, m: MemoryOperand): Emission
    requires regField < 16
  {
    var reg := 8 * (regField % 8);
    if !FitsI32(m.displacement) then Stop(InvalidOperand)
    else if m.ripRelative then
      if m.base.Some? || m.index.Some? then Stop(InvalidOperand)
      else Emit([reg + 5] + Dword32(m.displacement))
    else if m.index == Some(RSP) then Stop(InvalidOperand)
    else if NeedsSib(m) then
      var sib := if LegalScale(m.scale) then Emit([SibByte(m)]) else Stop(InvalidOperand);
      Emit([64 * Mode(m) + reg + 4]).Then(sib).Then(MemoryTail(m))
    else Emit([64 * Mode(m) + reg + m.base.value % 8]).Then(MemoryTail(m))
  }

  function Modrm(regField: nat, rm: Operand): Emission
    requires regField < 16
  {
    if rm.Reg? && !rm.high8 then Emit([0xC0 + 8 * (regField % 8) + rm.register % 8])
    else if rm.Mem? then MemoryModrm(regField, rm.memory)
    else Stop(InvalidOperand)
  }

  function ModrmInstruction(opcode: seq<byte>, size: OperandSize, regField: nat, rm: Operand): Emission
    requires regField < 16
  {
    OperandPrefixes(size, regField, rm).Then(Emit(opcode)).Then(Modrm(regField, rm))
  }

  /** The immediate after a ModRM form: 64-bit forms take a sign-extended 32-bit one. */
  function FormImmediate(value: u64, size: OperandSize): Emission {
    if size == Qword then
      if SignExtends32(value) then Immediate(value, Dword) else Stop(InvalidOperand)
    else Immediate(value, size)
  }

  function EncodeMov(first: Option<Operand>, second: Option<Operand>): Emission {
    if first.None? || second.None? then Stop(UnsupportedInstruction)
    else
      var d, s := first.value, second.value;
      if d.Reg? && !d.high8 && s.Imm? then
        Emit((if d.size == Word then [0x66] else []) + RexBytes(d.size == Qword, d.register)
             + [(if d.size == Byte then 0xB0 else 0xB8) + d.register % 8])
        .Then(Immediate(s.value, d.size))
      else if (d.Reg? || d.Mem?) && s.Reg? && d.Size() == s.Size() then
        ModrmInstruction([if d.Size() == Byte then 0x88 else 0x89], d.Size(), s.register, d)
      else if d.Reg? && s.Mem? && d.Size() == s.Size() then
        ModrmInstruction([if d.Size() == Byte then 0x8A else 0x8B], d.Size(), d.register, s)
      else if d.Mem? && s.Imm? then
        ModrmInstruction([if d.Size() == Byte then 0xC6 else 0xC7], d.Size(), 0, d)
        .Then(FormImmediate(s.value, d.Size()))
      else Stop(UnsupportedInstruction)
  }

  function EncodePush(operand: Operand): Emission {
    if operand.Reg? then UnaryRegister(0x50, operand)
    else if operand.Imm? && SignExtends8(operand.value) then Emit([0x6A, operand.value % 0x100])
    else if operand.Imm? && SignExtends32(operand.value) then Emit([0x68]).Then(Immediate(operand.value, Dword))
    else Stop(InvalidOperand)
  }

  function EncodeBswap(first: Option<Operand>, second: Option<Operand>): Emission {
    if second.None? && first.Some? && first.value.Reg? && !first.value.high8
       && (first.value.size == Dword || first.value.size == Qword)
    then
      Emit(RexBytes(first.value.size == Qword, first.value.register) + [0x0F, 0xC8 + first.value.register % 8])
    else Stop(InvalidOperand)
  }

  predicate IsArithmetic(m: Mnemonic) {
    m.Add? || m.Or? || m.Adc? || m.Sbb? || m.And? || m.Sub? || m.Xor? || m.Cmp? || m.Test?
  }

  /** The /digit of the immediate form and the opcode row of the register form. */
  function ArithmeticDigit(m: Mnemonic): (r: nat)
    requires IsArithmetic(m)
    ensures r < 8
  {
    match m
    case Or => 1
    case Adc => 2
    case Sbb => 3
    case And => 4
    case Sub => 5
    case Xor => 6
    case Cmp => 7
    case _ => 0
  }

  function EncodeArithmetic(m: Mnemonic, first: Option<Operand>, second: Option<Operand>): Emission
    requires IsArithmetic(m)
  {
    if first.None? || second.None? then Stop(InvalidOperand)
    else
      var d, s := first.value, second.value;
      var size := d.Size();
      if s.Imm? then
        var opcode := if m.Test? then (if size == Byte then 0xF6 else 0xF7) else if size == Byte then 0x80 else 0x81;
        ModrmInstruction([opcode], size, ArithmeticDigit(m), d).Then(FormImmediate(s.value, size))
      else if size != s.Size() then Stop(InvalidOperand)
      else
        var row := if m.Test? then 0x84 else 8 * ArithmeticDigit(m);
        if (d.Reg? || d.Mem?) && s.Reg? then
          ModrmInstruction([row + Bit(size != Byte, 1)], size, s.register, d)
        else if d.Reg? && s.Mem? && !m.Test? then
          ModrmInstruction([row + 2 + Bit(size != Byte, 1)], size, d.register, s)
        else Stop(InvalidOperand)
  }

  function EncodeLea(first: Option<Operand>, second: Option<Operand>): Emission {
    if first.Some? && first.value.Reg? && second.Some? && second.value.Mem? && second.value.Size() == first.value.size
    then ModrmInstruction([0x8D], first.value.size, first.value.register, second.value)
    else Stop(InvalidOperand)
  }

  function EncodeImul(first: Option<Operand>, second: Option<Operand>): Emission {
    if first.Some? && first.value.Reg? && second.Some? && second.value.Size() == first.value.size
    then ModrmInstruction([0x0F, 0xAF], first.value.size, first.value.register, second.value)
    else Stop(InvalidOperand)
  }

  function EncodeGroupUnary(m: Mnemonic, first: Option<Operand>): Emission
    requires m.Inc? || m.Dec? || m.Not? || m.Neg?
  {
    if first.None? then Stop(InvalidOperand)
    else
      var size := first.value.Size();
      var digit := match m case Inc => 0 case Dec => 1 case Not => 2 case _ => 3;
      var opcode := (if m.Inc? || m.Dec? then 0xFE else 0xF6) + Bit(size != Byte, 1);
      ModrmInstruction([opcode], size, digit, first.value)
  }

  function BranchOpcode(m: Mnemonic, size: OperandSize): (r: seq<byte>)
    ensures |r| <= 2
  {
    if m.Jump? && size == Byte then [0xEB]
    else if m.Jump? && size == Dword then [0xE9]
    else if m.Call? && size == Dword then [0xE8]
    else if m.JumpCondition? && size == Byte then [0x70 + m.condition.Code()]
    else if m.JumpCondition? && size == Dword then [0x0F, 0x80 + m.condition.Code()]
    else []
  }

  function EncodeBranch(m: Mnemonic, first: Option<Operand>): Emission {
    if first.None? || !first.value.Rel? then Stop(InvalidOperand)
    else
      var size := first.value.size;
      var opcode := BranchOpcode(m, size);
      if opcode == [] then Stop(InvalidOperand)
      else Emit(opcode).Then(Immediate(first.value.displacement % 0x1_0000_0000_0000_0000, size))
  }

  /** The opcode bytes of the instructions without operands, most significant first. */
  function PlainOpcode(m: Mnemonic): Option<nat> {
    match m
    case Nop => Some(0x90)
    case Hlt => Some(0xF4)
    case Cli => Some(0xFA)
    case Sti => Some(0xFB)
    case Int3 => Some(0xCC)
    case Return => Some(0xC3)
    case Leave => Some(0xC9)
    case Iretq => Some(0xCF)
    case Syscall => Some(0x0F05)
    case Sysret => Some(0x0F07)
    case Cpuid => Some(0x0FA2)
    case Wbinvd => Some(0x0F09)
    case Rdmsr => Some(0x0F32)
    case Wrmsr => Some(0x0F30)
    case Swapgs => Some(0x0F01F8)
    case _ => None
  }

  function EncodePlain(m: Mnemonic): Emission {
    match PlainOpcode(m)
    case None => Stop(UnsupportedInstruction)
    case Some(c) =>
      if c < 0x100 then Emit([c])
      else if c < 0x1_0000 then Emit([0x0F, c % 0x100])
      else Emit([0x0F, 0x01, 0xF8])
  }

  function Encode(i: Instruction): Emission {
    match i.mnemonic
    case Bswap => EncodeBswap(i.first, i.second)
    case Push => if i.first.Some? then EncodePush(i.first.value) else Stop(InvalidOperand)
    case Pop => if i.first.Some? then UnaryRegister(0x58, i.first.value) else Stop(InvalidOperand)
    case Jump => EncodeBranch(i.mnemonic, i.first)
    case Call => EncodeBranch(i.mnemonic, i.first)
    case JumpCondition(_) => EncodeBranch(i.mnemonic, i.first)
    case Mov => EncodeMov(i.first, i.second)
    case Lea => EncodeLea(i.first, i.second)
    case Imul => EncodeImul(i.first, i.second)
    case Inc => EncodeGroupUnary(i.mnemonic, i.first)
    case Dec => EncodeGroupUnary(i.mnemonic, i.first)
    case Not => EncodeGroupUnary(i.mnemonic, i.first)
    case Neg => EncodeGroupUnary(i.mnemonic, i.first)
    case _ =>
      if IsArithmetic(i.mnemonic) then EncodeArithmetic(i.mnemonic, i.first, i.second)
      else EncodePlain(i.mnemonic)
  }
}
