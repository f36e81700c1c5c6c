/** Which instructions the encoder accepts, how it refuses the others, and how long an encoding is. */
module X86Encodable {
  import opened Bytes
  import opened X86
  import opened X86Encode

  // ---------------------------------------------------------------- what can be encoded

  predicate SignExtended(value: u64, size: OperandSize) {
    size == Qword ==> value < 0x8000_0000 || value >= 0xFFFF_FFFF_8000_0000
  }

  /** An address with a 32-bit displacement, RSP as no index, and a power of two where a scale is written. */
  predicate Addressable(m: MemoryOperand) {
    && -0x8000_0000 <= m.displacement < 0x8000_0000
    && (m.ripRelative ==> m.base.None? && m.index.None?)
    && (!m.ripRelative ==> m.index != Some(RSP))
    && (!m.ripRelative && (m.index.Some? || m.base.None? || m.base.value % 8 == 4) ==> m.scale in {1, 2, 4, 8})
  }

  /** An operand that fits the r/m field. */
  predicate FitsRm(o: Operand) { (o.Reg? && !o.high8) || (o.Mem? && Addressable(o.memory)) }

  predicate LowRegister(o: Option<Operand>) { o.Some? && o.value.Reg? && !o.value.high8 }

  /** Pairs of operands MOV has a form for. */
  predicate MovPair(d: Operand, s: Operand) {
    || (d.Reg? && !d.high8 && s.Imm?)
    || ((d.Reg? || d.Mem?) && s.Reg? && d.Size() == s.Size())
    || (d.Reg? && s.Mem? && d.Size() == s.Size())
    || (d.Mem? && s.Imm?)
  }

  predicate MovEncodable(d: Operand, s: Operand) {
    && MovPair(d, s)
    && (s.Reg? ==> FitsRm(d))
    && (s.Mem? ==> FitsRm(s))
    && (d.Mem? && s.Imm? ==> FitsRm(d) && SignExtended(s.value, d.Size()))
  }

  predicate ArithmeticEncodable(m: Mnemonic, d: Operand, s: Operand) {
    if s.Imm? then FitsRm(d) && SignExtended(s.value, d.Size())
    else d.Size() == s.Size() && ((s.Reg? && FitsRm(d)) || (d.Reg? && s.Mem? && FitsRm(s) && m != Test))
  }

  const PLAIN: set<Mnemonic> :=
    {Nop, Hlt, Cli, Sti, Int3, Return, Leave, Iretq, Syscall, Sysret, Cpuid, Wbinvd, Rdmsr, Wrmsr, Swapgs}

  const ARITHMETIC: set<Mnemonic> := {Add, Or, Adc, Sbb, And, Sub, Xor, Cmp, Test}

  predicate Encodable(i: Instruction) {
    match i.mnemonic
    case Bswap => i.second.None? && LowRegister(i.first) && i.first.value.size in {Dword, Qword}
    case Push => LowRegister(i.first)
        || (i.first.Some? && i.first.value.Imm? && SignExtended(i.first.value.value, Qword))
    case Pop => LowRegister(i.first)
    case Jump => i.first.Some? && i.first.value.Rel? && i.first.value.size in {Byte, Dword}
    case Call => i.first.Some? && i.first.value.Rel? && i.first.value.size == Dword
    case JumpCondition(_) => i.first.Some? && i.first.value.Rel? && i.first.value.size in {Byte, Dword}
    case Mov => i.first.Some? && i.second.Some? && MovEncodable(i.first.value, i.second.value)
    case Lea =>
      && i.first.Some? && i.second.Some? && i.first.value.Reg? && i.second.value.Mem?
      && i.second.value.Size() == i.first.value.size && FitsRm(i.second.value)
    case Imul =>
      && i.first.Some? && i.second.Some? && i.first.value.Reg?
      && i.second.value.Size() == i.first.value.size && FitsRm(i.second.value)
    case Inc => i.first.Some? && FitsRm(i.first.value)
    case Dec => i.first.Some? && FitsRm(i.first.value)
    case Not => i.first.Some? && FitsRm(i.first.value)
    case Neg => i.first.Some? && FitsRm(i.first.value)
    case _ =>
      if i.mnemonic in ARITHMETIC
        then i.first.Some? && i.second.Some? && ArithmeticEncodable(i.mnemonic, i.first.value, i.second.value)
      else i.mnemonic in PLAIN
  }

  /** Instructions the encoder has no form for, as opposed to forms with an operand it cannot write. */
  predicate Formless(i: Instruction) {
    if i.mnemonic == Mov then i.first.None? || i.second.None? || !MovPair(i.first.value, i.second.value)
    else
      && i.mnemonic !in ARITHMETIC && i.mnemonic !in PLAIN && !i.mnemonic.JumpCondition?
      && i.mnemonic !in {Bswap, Push, Pop, Jump, Call, Lea, Imul, Inc, Dec, Not, Neg}
  }

  function Refusal(i: Instruction): Option<EncodeError> {
    if Encodable(i) then None else if Formless(i) then Some(UnsupportedInstruction) else Some(InvalidOperand)
  }

  // ---------------------------------------------------------------- the encoder does just that

  lemma MemoryStops(field: nat, m: MemoryOperand)
    requires field < 16
    ensures MemoryModrm(field, m).stop == if Addressable(m) then None else Some(InvalidOperand)
  {
    hide Dword32, LeBytes, ScaleBits;
  }

  lemma FormStops(opcode: seq<byte>, size: OperandSize, field: nat, rm: Operand)
    requires field < 16
    ensures ModrmInstruction(opcode, size, field, rm).stop == if FitsRm(rm) then None else Some(InvalidOperand)
  {
    hide MemoryModrm, FormRex, Head;
    if rm.Mem? {
      MemoryStops(field, rm.memory);
    }
  }

  lemma ImmediateStops(value: u64, size: OperandSize)
    ensures FormImmediate(value, size).stop == if SignExtended(value, size) then None else Some(InvalidOperand)
  {
    hide LeBytes;
  }

  lemma MovStops(d: Operand, s: Operand)
    ensures EncodeMov(Some(d), Some(s)).stop
         == if MovEncodable(d, s) then None
            else Some(if MovPair(d, s) then InvalidOperand else UnsupportedInstruction)
  {
    hide ModrmInstruction, FormImmediate, LeBytes, RexBytes, Addressable;
    if s.Reg? {
      FormStops([if d.Size() == Byte then 0x88 else 0x89], d.Size(), s.register, d);
    } else if d.Reg? && s.Mem? {
      FormStops([if d.Size() == Byte then 0x8A else 0x8B], d.Size(), d.register, s);
    } else if d.Mem? && s.Imm? {
      FormStops([if d.Size() == Byte then 0xC6 else 0xC7], d.Size(), 0, d);
      ImmediateStops(s.value, d.Size());
    }
  }

  lemma FitsKinds(o: Operand)
    ensures FitsRm(o) ==> o.Reg? || o.Mem?
  {
  }

  lemma ArithmeticStops(m: Mnemonic, d: Operand, s: Operand)
    requires IsArithmetic(m)
    ensures EncodeArithmetic(m, Some(d), Some(s)).stop
         == if ArithmeticEncodable(m, d, s) then None else Some(InvalidOperand)
  {
    hide ModrmInstruction, FormImmediate, FitsRm, ArithmeticDigit, SignExtended, IsArithmetic;
    FitsKinds(d);
    var size := d.Size();
    var row := if m.Test? then 0x84 else 8 * ArithmeticDigit(m);
    if s.Imm? {
      FormStops([if m.Test? then (if size == Byte then 0xF6 else 0xF7) else if size == Byte then 0x80 else 0x81],
                size, ArithmeticDigit(m), d);
      ImmediateStops(s.value, size);
    } else if s.Reg? {
      FormStops([row + Bit(size != Byte, 1)], size, s.register, d);
    } else if d.Reg? && s.Mem? && !m.Test? {
      FormStops([row + 2 + Bit(size != Byte, 1)], size, d.register, s);
    }
  }

  lemma LeaStops(first: Operand, second: Operand)
    ensures EncodeLea(Some(first), Some(second)).stop
         == if first.Reg? && second.Mem? && second.Size() == first.size && FitsRm(second) then None
            else Some(InvalidOperand)
    ensures EncodeImul(Some(first), Some(second)).stop
         == if first.Reg? && second.Size() == first.size && FitsRm(second) then None else Some(InvalidOperand)
  {
    hide ModrmInstruction, FitsRm;
    if first.Reg? {
      FormStops([0x8D], first.size, first.register, second);
      FormStops([0x0F, 0xAF], first.size, first.register, second);
    }
  }

  lemma UnaryStops(m: Mnemonic, o: Operand)
    requires m.Inc? || m.Dec? || m.Not? || m.Neg?
    ensures EncodeGroupUnary(m, Some(o)).stop == if FitsRm(o) then None else Some(InvalidOperand)
  {
    hide ModrmInstruction, FitsRm;
    var odd := Bit(o.Size() != Byte, 1);
    if m.Inc? || m.Dec? {
      FormStops([0xFE + odd], o.Size(), if m.Inc? then 0 else 1, o);
    } else {
      FormStops([0xF6 + odd], o.Size(), if m.Not? then 2 else 3, o);
    }
  }

  lemma OtherStops(i: Instruction)
    requires i.mnemonic in {Lea, Imul, Inc, Dec, Not, Neg}
    ensures Encode(i).stop == Refusal(i)
  {
    hide FitsRm, ModrmInstruction, EncodeMov, EncodeArithmetic, EncodeBranch, EncodePlain, EncodePush, EncodeBswap,
         MovPair, MovEncodable, ArithmeticEncodable;
    if i.mnemonic == Lea || i.mnemonic == Imul {
      if i.first.Some? && i.second.Some? {
        LeaStops(i.first.value, i.second.value);
      }
    } else if i.first.Some? {
      UnaryStops(i.mnemonic, i.first.value);
    }
  }

  lemma PlainStops(i: Instruction)
    requires i.mnemonic !in {Lea, Imul, Inc, Dec, Not, Neg, Mov} && i.mnemonic !in ARITHMETIC
    ensures Encode(i).stop == Refusal(i)
  {
    hide EncodeMov, EncodeArithmetic, LeBytes, RexBytes, Condition.Code;
  }

  /** The encoder accepts exactly the encodable instructions, and names the class of every other. */
  lemma EncodeStops(i: Instruction)
    ensures Encode(i).stop == Refusal(i)
    ensures Encode(i).Ok() <==> Encodable(i)
  {
    hide EncodeMov, EncodeArithmetic, EncodeBranch, EncodePlain, EncodePush, EncodeBswap, EncodeLea, EncodeImul,
         EncodeGroupUnary, MovEncodable, ArithmeticEncodable, MovPair;
    if i.mnemonic == Mov {
      if i.first.Some? && i.second.Some? {
        MovStops(i.first.value, i.second.value);
      } else {
        MovNeedsBoth(i);
      }
    } else if i.mnemonic in ARITHMETIC {
      if i.first.Some? && i.second.Some? {
        ArithmeticStops(i.mnemonic, i.first.value, i.second.value);
      } else {
        ArithmeticNeedsBoth(i);
      }
    } else if i.mnemonic in {Lea, Imul, Inc, Dec, Not, Neg} {
      OtherStops(i);
    } else {
      PlainStops(i);
    }
  }

  lemma MovNeedsBoth(i: Instruction)
    requires i.first.None? || i.second.None?
    ensures EncodeMov(i.first, i.second) == Stop(UnsupportedInstruction)
  {
  }

  lemma ArithmeticNeedsBoth(i: Instruction)
    requires IsArithmetic(i.mnemonic) && (i.first.None? || i.second.None?)
    ensures EncodeArithmetic(i.mnemonic, i.first, i.second) == Stop(InvalidOperand)
  {
  }

  // ---------------------------------------------------------------- how long an encoding is

  function One(condition: bool): nat { if condition then 1 else 0 }

  /** No displacement where none is needed, one byte where it fits, else four. */
  function DisplacementLength(m: MemoryOperand): nat {
    if m.base.None? then 4
    else if m.displacement == 0 && m.base.value % 8 != 5 then 0
    else if -0x80 <= m.displacement < 0x80 then 1
    else 4
  }

  /** ModRM, SIB only where it is needed, and the displacement. */
  function RmLength(rm: Operand): nat {
    if !rm.Mem? then 1
    else
      var m := rm.memory;
      if m.ripRelative then 5
      else 1 + One(m.index.Some? || m.base.None? || m.base.value % 8 == 4) + DisplacementLength(m)
  }

  predicate Extended(r: Option<Register>) { r.Some? && r.value >= 8 }

  /** REX only for 64 bits, for registers 8 to 15, and where the byte forms of fields 4 to 7 need it. */
  predicate NeedsRex(size: OperandSize, field: nat, rm: Operand) {
    || size == Qword || field >= 8 || (rm.Reg? && rm.register >= 8)
    || (rm.Mem? && (Extended(rm.memory.base) || Extended(rm.memory.index)))
    || (size == Byte && (4 <= field <= 7 || (rm.Reg? && 4 <= rm.register <= 7)))
  }

  function FormLength(opcode: nat, size: OperandSize, field: nat, rm: Operand): nat {
    One(rm.Mem? && rm.memory.segment.Some?) + One(size == Word) + One(NeedsRex(size, field, rm)) + opcode + RmLength(rm)
  }

  function ShortLength(opcode: nat, size: OperandSize, r: Register): nat { One(size == Qword || r >= 8) + opcode }

  function ValueLength(size: OperandSize): nat { if size == Qword then 4 else size.Bytes() }

  function MovLength(d: Operand, s: Operand): nat
    requires MovEncodable(d, s)
  {
    if s.Reg? then FormLength(1, d.Size(), s.register, d)
    else if s.Mem? then FormLength(1, d.Size(), d.register, s)
    else if d.Mem? then FormLength(1, d.Size(), 0, d) + ValueLength(d.Size())
    else One(d.size == Word) + ShortLength(1, d.size, d.register) + d.size.Bytes()
  }

  function ArithmeticLength(m: Mnemonic, d: Operand, s: Operand): nat
    requires ArithmeticEncodable(m, d, s) && m in ARITHMETIC
  {
    if s.Imm? then FormLength(1, d.Size(), Extension(m), d) + ValueLength(d.Size())
    else if s.Reg? then FormLength(1, d.Size(), s.register, d)
    else FormLength(1, d.Size(), d.register, s)
  }

  /** The /digit of the immediate form. */
  function Extension(m: Mnemonic): nat {
    if m == Or then 1 else if m == Adc then 2 else if m == Sbb then 3 else if m == And then 4
    else if m == Sub then 5 else if m == Xor then 6 else if m == Cmp then 7 else 0
  }

  function StackLength(o: Operand): nat {
    if o.Reg? then ShortLength(1, o.size, o.register)
    else if o.Imm? && 0x80 <= o.value < 0xFFFF_FFFF_FFFF_FF80 then 5
    else 2
  }

  function BranchLength(m: Mnemonic, size: OperandSize): nat {
    if size == Byte then 2 else if m.JumpCondition? then 6 else 5
  }

  function PlainLength(m: Mnemonic): nat {
    if m == Swapgs then 3 else if m in {Syscall, Sysret, Cpuid, Wbinvd, Rdmsr, Wrmsr} then 2 else 1
  }

  function UnaryLength(m: Mnemonic, o: Operand): nat {
    FormLength(1, o.Size(), if m == Inc then 0 else if m == Dec then 1 else if m == Not then 2 else 3, o)
  }

  function LengthOf(i: Instruction): nat
    requires Encodable(i)
  {
    var m := i.mnemonic;
    if m == Bswap then ShortLength(2, i.first.value.size, i.first.value.register)
    else if m == Push || m == Pop then StackLength(i.first.value)
    else if m == Jump || m == Call || m.JumpCondition? then BranchLength(m, i.first.value.size)
    else if m == Mov then MovLength(i.first.value, i.second.value)
    else if m == Lea then FormLength(1, i.first.value.size, i.first.value.register, i.second.value)
    else if m == Imul then FormLength(2, i.first.value.size, i.first.value.register, i.second.value)
    else if m in {Inc, Dec, Not, Neg} then UnaryLength(m, i.first.value)
    else if m in ARITHMETIC then ArithmeticLength(m, i.first.value, i.second.value)
    else PlainLength(m)
  }

  lemma MemoryLong(field: nat, m: MemoryOperand)
    requires field < 16 && Addressable(m)
    ensures |MemoryModrm(field, m).bytes| == RmLength(Mem(m))
  {
    hide LeBytes, ScaleBits, SibByte;
  }

  lemma RexLong(size: OperandSize, field: nat, rm: Operand)
    requires field < 16 && (rm.Reg? || rm.Mem?)
    ensures FormRex(size, field, rm).Some? <==> NeedsRex(size, field, rm)
  {
  }

  lemma FormLong(opcode: seq<byte>, size: OperandSize, field: nat, rm: Operand)
    requires field < 16 && FitsRm(rm)
    ensures ModrmInstruction(opcode, size, field, rm).Ok()
    ensures |ModrmInstruction(opcode, size, field, rm).bytes| == FormLength(|opcode|, size, field, rm)
  {
    hide MemoryModrm, FormRex, Addressable, NeedsRex;
    FormStops(opcode, size, field, rm);
    RexLong(size, field, rm);
    if rm.Mem? {
      MemoryStops(field, rm.memory);
      MemoryLong(field, rm.memory);
    }
  }

  lemma ImmediateLong(value: u64, size: OperandSize)
    requires SignExtended(value, size)
    ensures FormImmediate(value, size).Ok() && |FormImmediate(value, size).bytes| == ValueLength(size)
  {
    hide LeBytes;
  }

  lemma MovLong(d: Operand, s: Operand)
    requires MovEncodable(d, s)
    ensures |EncodeMov(Some(d), Some(s)).bytes| == MovLength(d, s)
  {
    hide ModrmInstruction, FormImmediate, LeBytes, Addressable, FormLength, ValueLength;
    if s.Reg? {
      FormLong([if d.Size() == Byte then 0x88 else 0x89], d.Size(), s.register, d);
    } else if s.Mem? {
      FormLong([if d.Size() == Byte then 0x8A else 0x8B], d.Size(), d.register, s);
    } else if d.Mem? {
      FormLong([if d.Size() == Byte then 0xC6 else 0xC7], d.Size(), 0, d);
      ImmediateLong(s.value, d.Size());
    }
  }

  lemma ArithmeticImmediateLong(m: Mnemonic, d: Operand, s: Operand)
    requires IsArithmetic(m) && s.Imm? && ArithmeticEncodable(m, d, s)
    ensures |EncodeArithmetic(m, Some(d), Some(s)).bytes|
         == FormLength(1, d.Size(), ArithmeticDigit(m), d) + ValueLength(d.Size())
  {
    hide ModrmInstruction, FormImmediate, FitsRm, SignExtended, FormLength, ValueLength, ArithmeticDigit;
    var size := d.Size();
    FormLong([if m.Test? then (if size == Byte then 0xF6 else 0xF7) else if size == Byte then 0x80 else 0x81],
             size, ArithmeticDigit(m), d);
    ImmediateLong(s.value, size);
  }

  lemma DigitIs(m: Mnemonic)
    requires m in ARITHMETIC
    ensures IsArithmetic(m) && ArithmeticDigit(m) == Extension(m)
  {
  }

  lemma ArithmeticLong(m: Mnemonic, d: Operand, s: Operand)
    requires m in ARITHMETIC && ArithmeticEncodable(m, d, s)
    ensures IsArithmetic(m) && |EncodeArithmetic(m, Some(d), Some(s)).bytes| == ArithmeticLength(m, d, s)
  {
    hide ModrmInstruction, FormImmediate, FitsRm, SignExtended, FormLength, ValueLength;
    DigitIs(m);
    hide ArithmeticDigit, Extension, IsArithmetic, ARITHMETIC;
    FitsKinds(d);
    var size := d.Size();
    var row := if m.Test? then 0x84 else 8 * ArithmeticDigit(m);
    if s.Imm? {
      ArithmeticImmediateLong(m, d, s);
    } else if s.Reg? {
      FormLong([row + Bit(size != Byte, 1)], size, s.register, d);
    } else {
      FormLong([row + 2 + Bit(size != Byte, 1)], size, d.register, s);
    }
  }

  lemma OtherLong(i: Instruction)
    requires i.mnemonic in {Lea, Imul, Inc, Dec, Not, Neg} && Encodable(i)
    ensures |Encode(i).bytes| == LengthOf(i)
  {
    hide ModrmInstruction, Addressable, EncodeMov, EncodeArithmetic, EncodeBranch, EncodePlain, EncodePush, EncodeBswap,
         FormLength, MovLength, ArithmeticLength;
    var d := i.first.value;
    var odd := Bit(d.Size() != Byte, 1);
    if i.mnemonic == Lea {
      FormLong([0x8D], d.size, d.register, i.second.value);
    } else if i.mnemonic == Imul {
      FormLong([0x0F, 0xAF], d.size, d.register, i.second.value);
    } else if i.mnemonic == Inc || i.mnemonic == Dec {
      FormLong([0xFE + odd], d.Size(), if i.mnemonic == Inc then 0 else 1, d);
    } else {
      FormLong([0xF6 + odd], d.Size(), if i.mnemonic == Not then 2 else 3, d);
    }
  }

  lemma ShortLong(i: Instruction)
    requires i.mnemonic in {Bswap, Push, Pop} && Encodable(i)
    ensures |Encode(i).bytes| == LengthOf(i)
  {
    hide EncodeMov, EncodeArithmetic, EncodeBranch, EncodePlain, LeBytes;
  }

  lemma BranchLong(m: Mnemonic, o: Operand)
    requires o.Rel? && (m == Jump || m == Call || m.JumpCondition?)
    requires o.size == Dword || (o.size == Byte && m != Call)
    ensures |EncodeBranch(m, Some(o)).bytes| == BranchLength(m, o.size)
  {
    hide LeBytes, Condition.Code;
  }

  lemma PlainLong(m: Mnemonic)
    requires m in PLAIN
    ensures |EncodePlain(m).bytes| == PlainLength(m)
  {
    PlainClass(m);
    hide PlainOpcode, PlainLength;
  }

  lemma PlainClass(m: Mnemonic)
    requires m in PLAIN
    ensures var c := PlainOpcode(m);
            c.Some? && PlainLength(m) == if c.value < 0x100 then 1 else if c.value < 0x1_0000 then 2 else 3
  {
  }

  lemma SimpleLong(i: Instruction)
    requires Encodable(i) && i.mnemonic !in ARITHMETIC
             && i.mnemonic !in {Mov, Lea, Imul, Inc, Dec, Not, Neg, Bswap, Push, Pop}
    ensures |Encode(i).bytes| == LengthOf(i)
  {
    hide EncodeMov, EncodeArithmetic, EncodeBranch, EncodePlain, MovLength, ArithmeticLength, MovEncodable,
         ArithmeticEncodable, FormLength;
    if i.mnemonic in PLAIN {
      PlainLong(i.mnemonic);
    } else {
      BranchLong(i.mnemonic, i.first.value);
    }
  }

  /** Every accepted instruction is encoded in exactly this many bytes: no needless prefix, SIB or displacement. */
  lemma EncodeLength(i: Instruction)
    requires Encodable(i)
    ensures |Encode(i).bytes| == LengthOf(i)
  {
    hide EncodeMov, EncodeArithmetic, EncodeBranch, EncodePlain, MovLength, ArithmeticLength, MovEncodable,
         ArithmeticEncodable, FormLength;
    if i.mnemonic == Mov {
      MovLong(i.first.value, i.second.value);
    } else if i.mnemonic in ARITHMETIC {
      ArithmeticLong(i.mnemonic, i.first.value, i.second.value);
    } else if i.mnemonic in {Lea, Imul, Inc, Dec, Not, Neg} {
      OtherLong(i);
    } else if i.mnemonic in {Bswap, Push, Pop} {
      ShortLong(i);
    } else {
      SimpleLong(i);
    }
  }
}
