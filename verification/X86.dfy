/** Instructions, operands and prefixes of the xenith-x86 crate. */
module X86 {
  import opened Bytes

  datatype OperandSize = Byte | Word | Dword | Qword | Oword {
    function Bytes(): nat {
      match this
      case Byte => 1
      case Word => 2
      case Dword => 4
      case Qword => 8
      case Oword => 16
    }

    /** 2^bits; the mask of the source is one less, and Oword shares the 64-bit mask. */
    function Limit(): (r: nat)
      ensures r >= 0x100
    {
      match this
      case Byte => 0x100
      case Word => 0x1_0000
      case Dword => 0x1_0000_0000
      case Qword => 0x1_0000_0000_0000_0000
      case Oword => 0x1_0000_0000_0000_0000
    }
  }

  // Registers are named by their architectural index.
  type Register = r: nat | r < 16
  const RAX: Register := 0
  const RCX: Register := 1
  const RDX: Register := 2
  const RSP: Register := 4
  const RSI: Register := 6
  const RDI: Register := 7

  datatype Condition =
    | Overflow | NotOverflow | Below | AboveOrEqual | Equal | NotEqual | BelowOrEqual | Above
    | Sign | NotSign | Parity | NotParity | Less | GreaterOrEqual | LessOrEqual | Greater
  {
    function Code(): (c: byte)
      ensures c < 16
    {
      match this
      case Overflow => 0
      case NotOverflow => 1
      case Below => 2
      case AboveOrEqual => 3
      case Equal => 4
      case NotEqual => 5
      case BelowOrEqual => 6
      case Above => 7
      case Sign => 8
      case NotSign => 9
      case Parity => 10
      case NotParity => 11
      case Less => 12
      case GreaterOrEqual => 13
      case LessOrEqual => 14
      case Greater => 15
    }
  }

  /** Inverse of Code on the low four bits. */
  function ConditionFromCode(code: byte): (c: Condition)
    ensures c.Code() == code % 16
  {
    match code % 16
    case 0 => Overflow
    case 1 => NotOverflow
    case 2 => Below
    case 3 => AboveOrEqual
    case 4 => Equal
    case 5 => NotEqual
    case 6 => BelowOrEqual
    case 7 => Above
    case 8 => Sign
    case 9 => NotSign
    case 10 => Parity
    case 11 => NotParity
    case 12 => Less
    case 13 => GreaterOrEqual
    case 14 => LessOrEqual
    case _ => Greater
  }

  datatype MemoryOperand = MemoryOperand(
    base: Option<Register>,
    index: Option<Register>,
    scale: byte,
    displacement: i64,
    ripRelative: bool,
    segment: Option<byte>,
    size: OperandSize)

  datatype Operand =
    | Reg(register: Register, size: OperandSize, high8: bool)
    | Mem(memory: MemoryOperand)
    | Imm(value: u64, size: OperandSize)
    | Rel(displacement: i64, size: OperandSize)
    | Control(index: byte)
    | Segment(index: byte)
  {
    function Size(): OperandSize {
      match this
      case Reg(_, s, _) => s
      case Mem(m) => m.size
      case Imm(_, s) => s
      case Rel(_, s) => s
      case Control(_) => Qword
      case Segment(_) => Word
    }
  }

  datatype Mnemonic =
    | Nop | Fence | Hlt | Cli | Sti | Cld | Std | Int3 | Clts | Wbinvd | Fninit | Fxsave | Fxrstor
    | Mov | Xchg | Movzx | Movsx | SignExtendAccumulator | Lea
    | Add | Adc | Sub | Sbb | And | Or | Xor | Cmp | Cmpxchg | Xadd | Bswap | Bsf | Bsr
    | Bt | Bts | Btr | Btc | Test | Inc | Dec | Not | Neg | Mul | Imul | Div | Idiv
    | Shl | Shld | Shr | Sar | Rol | Ror | Push | Pop | PushFlags | PopFlags
    | Call | Return | ReturnFar | Jump
    | JumpCondition(condition: Condition)
    | MoveCondition(condition: Condition)
    | SetCondition(condition: Condition)
    | In | Out | Cpuid | Rdmsr | Wrmsr | Rdtsc | Syscall | Sysret | Swapgs
    | Lgdt | Lidt | Ltr | Invlpg | Iretq | Leave | Movs | Stos

  datatype Prefixes = Prefixes(
    lock: bool,
    repeat: bool,
    repeatNotEqual: bool,
    operandSize: bool,
    addressSize: bool,
    segment: Option<byte>,
    rexPresent: bool,
    rex: byte)
  {
    predicate RexW() { rex / 8 % 2 == 1 }
    function RexR(): (r: nat) ensures r < 2 { rex / 4 % 2 }
    function RexX(): (r: nat) ensures r < 2 { rex / 2 % 2 }
    function RexB(): (r: nat) ensures r < 2 { rex % 2 }
  }

  const NO_PREFIXES := Prefixes(false, false, false, false, false, None, false, 0)

  datatype Instruction = Instruction(
    mnemonic: Mnemonic,
    first: Option<Operand>,
    second: Option<Operand>,
    third: Option<Operand>,
    prefixes: Prefixes,
    length: nat)

  function Plain(mnemonic: Mnemonic): Instruction {
    Instruction(mnemonic, None, None, None, NO_PREFIXES, 0)
  }

  function With1(mnemonic: Mnemonic, first: Operand): Instruction {
    Instruction(mnemonic, Some(first), None, None, NO_PREFIXES, 0)
  }

  function With2(mnemonic: Mnemonic, first: Operand, second: Operand): Instruction {
    Instruction(mnemonic, Some(first), Some(second), None, NO_PREFIXES, 0)
  }

  function With3(mnemonic: Mnemonic, first: Operand, second: Operand, third: Operand): Instruction {
    Instruction(mnemonic, Some(first), Some(second), Some(third), NO_PREFIXES, 0)
  }

  predicate IsSegmentPrefix(value: byte) {
    value == 0x26 || value == 0x2E || value == 0x36 || value == 0x3E || value == 0x64 || value == 0x65
  }
}
