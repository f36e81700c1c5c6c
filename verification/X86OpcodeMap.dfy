/**
 The one-byte and two-byte opcode maps as a table in the notation of the processor manuals: for each
 opcode, and for each /digit where one selects, the mnemonic and where its operands come from.
 */
module X86OpcodeMap {
  import opened Bytes
  import opened X86
  import X86Decode

  /**
   Widths: byte, word, dword, qword, oword; V is the operand size, Z an immediate of the operand size
   but at most 32 bits, and H half the operand size.
   */
  datatype Width = B | W | D | Q | O | V | Z | H {
    function At(v: OperandSize): OperandSize {
      match this
      case B => Byte
      case W => Word
      case D => Dword
      case Q => Qword
      case O => Oword
      case V => v
      case Z => if v == Qword then Dword else v
      case H => if v == Qword then Dword else if v == Dword then Word else Byte
    }
  }

  /**
   Where an operand comes from: the r/m or the reg field of ModRM, the low bits of the opcode, a fixed
   register, the constant one, an immediate, a branch displacement, or the reg field as the number of a
   segment or control register.
   */
  datatype Arg =
    | E(w: Width) | G(w: Width) | OpcodeRegister(w: Width) | Fixed(register: Register, w: Width) | One
    | I(w: Width) | J(w: Width) | SegmentField | ControlField

  datatype Row = Row(mnemonic: Mnemonic, args: seq<Arg>) | Refused(kind: X86Decode.ErrorKind)

  /** What follows the opcode before the immediate: nothing, one byte, or ModRM with its address bytes. */
  datatype Tail = NoTail | ByteTail | ModrmTail(rm: Width, reg: Width)

  /** The conditions in the order of their codes, and the registers some opcodes imply. */
  const CONDITIONS: seq<Condition> :=
    [Overflow, NotOverflow, Below, AboveOrEqual, Equal, NotEqual, BelowOrEqual, Above,
     Sign, NotSign, Parity, NotParity, Less, GreaterOrEqual, LessOrEqual, Greater]
  const ACCUMULATOR: Register := 0
  const COUNT: Register := 1
  const DATA: Register := 2
  const SOURCE: Register := 6
  const DESTINATION: Register := 7

  const ALU: seq<Mnemonic> := [Add, Or, Adc, Sbb, And, Sub, Xor, Cmp]
  const UNSUPPORTED: Row := Refused(X86Decode.UnsupportedOpcode)
  const INVALID: Row := Refused(X86Decode.InvalidEncoding)

  function Digit(modrm: byte): (d: nat)
    ensures d < 8
  {
    modrm / 8 % 8
  }

  // ---------------------------------------------------------------- the one-byte map

  /** 00 to 3F: eight arithmetic operations in six forms each. */
  function Rows00(opcode: byte): Row
    requires opcode < 0x40
  {
    var m := ALU[opcode / 8];
    match opcode % 8
    case 0 => Row(m, [E(B), G(B)])
    case 1 => Row(m, [E(V), G(V)])
    case 2 => Row(m, [G(B), E(B)])
    case 3 => Row(m, [G(V), E(V)])
    case 4 => Row(m, [Fixed(ACCUMULATOR, B), I(B)])
    case 5 => Row(m, [Fixed(ACCUMULATOR, V), I(Z)])
    case _ => UNSUPPORTED
  }

  function Rows40(opcode: byte): Row
    requires 0x40 <= opcode < 0x80
  {
    if 0x50 <= opcode < 0x58 then Row(Push, [OpcodeRegister(Q)])
    else if 0x58 <= opcode < 0x60 then Row(Pop, [OpcodeRegister(Q)])
    else if opcode == 0x63 then Row(Movsx, [G(V), E(D)])
    else if opcode == 0x68 then Row(Push, [I(D)])
    else if opcode == 0x69 then Row(Imul, [G(V), E(V), I(Z)])
    else if opcode == 0x6A then Row(Push, [I(B)])
    else if opcode == 0x6B then Row(Imul, [G(V), E(V), I(B)])
    else if 0x70 <= opcode then Row(JumpCondition(CONDITIONS[opcode % 16]), [J(B)])
    else UNSUPPORTED
  }

  function Rows80(opcode: byte, modrm: byte): Row
    requires 0x80 <= opcode < 0xC0
  {
    var digit := Digit(modrm);
    if opcode == 0x80 then Row(ALU[digit], [E(B), I(B)])
    else if opcode == 0x81 then Row(ALU[digit], [E(V), I(Z)])
    else if opcode == 0x83 then Row(ALU[digit], [E(V), I(B)])
    else if opcode == 0x84 then Row(Test, [E(B), G(B)])
    else if opcode == 0x85 then Row(Test, [E(V), G(V)])
    else if opcode == 0x86 then Row(Xchg, [E(B), G(B)])
    else if opcode == 0x87 then Row(Xchg, [E(V), G(V)])
    else if opcode == 0x88 then Row(Mov, [E(B), G(B)])
    else if opcode == 0x89 then Row(Mov, [E(V), G(V)])
    else if opcode == 0x8A then Row(Mov, [G(B), E(B)])
    else if opcode == 0x8B then Row(Mov, [G(V), E(V)])
    else if opcode == 0x8C then if digit < 6 then Row(Mov, [E(W), SegmentField]) else INVALID
    else if opcode == 0x8D then Row(Lea, [G(V), E(V)])
    else if opcode == 0x8E then if digit < 6 && digit != 1 then Row(Mov, [SegmentField, E(W)]) else INVALID
    else if opcode == 0x90 then Row(Nop, [])
    else if 0x91 <= opcode < 0x98 then Row(Xchg, [Fixed(ACCUMULATOR, V), OpcodeRegister(V)])
    else if opcode == 0x98 then Row(Movsx, [Fixed(ACCUMULATOR, V), Fixed(ACCUMULATOR, H)])
    else if opcode == 0x99 then Row(SignExtendAccumulator, [Fixed(DATA, V), Fixed(ACCUMULATOR, V)])
    else if opcode == 0x9C then Row(PushFlags, [])
    else if opcode == 0x9D then Row(PopFlags, [])
    else if opcode == 0xA4 then Row(Movs, [Fixed(SOURCE, B), Fixed(DESTINATION, B)])
    else if opcode == 0xA5 then Row(Movs, [Fixed(SOURCE, V), Fixed(DESTINATION, V)])
    else if opcode == 0xA8 then Row(Test, [Fixed(ACCUMULATOR, B), I(B)])
    else if opcode == 0xA9 then Row(Test, [Fixed(ACCUMULATOR, V), I(Z)])
    else if opcode == 0xAA then Row(Stos, [Fixed(DESTINATION, B), Fixed(ACCUMULATOR, B)])
    else if opcode == 0xAB then Row(Stos, [Fixed(DESTINATION, V), Fixed(ACCUMULATOR, V)])
    else if 0xB0 <= opcode < 0xB8 then Row(Mov, [OpcodeRegister(B), I(B)])
    else if 0xB8 <= opcode then Row(Mov, [OpcodeRegister(V), I(V)])
    else UNSUPPORTED
  }

  function ShiftRow(digit: nat, args: seq<Arg>): Row {
    match digit
    case 0 => Row(Rol, args)
    case 1 => Row(Ror, args)
    case 4 => Row(Shl, args)
    case 5 => Row(Shr, args)
    case 6 => Row(Shl, args)
    case 7 => Row(Sar, args)
    case _ => UNSUPPORTED
  }

  function UnaryRow(digit: nat, w: Width, immediate: Width): Row {
    match digit
    case 0 => Row(Test, [E(w), I(immediate)])
    case 2 => Row(Not, [E(w)])
    case 3 => Row(Neg, [E(w)])
    case 4 => Row(Mul, [E(w)])
    case 5 => Row(Imul, [E(w)])
    case 6 => Row(Div, [E(w)])
    case 7 => Row(Idiv, [E(w)])
    case _ => INVALID
  }

  function IndirectRow(digit: nat, w: Width, target: Width): Row {
    match digit
    case 0 => Row(Inc, [E(w)])
    case 1 => Row(Dec, [E(w)])
    case 2 => Row(Call, [E(target)])
    case 4 => Row(Jump, [E(target)])
    case 6 => Row(Push, [E(target)])
    case _ => INVALID
  }

  function RowsC0(opcode: byte, modrm: byte): Row
    requires 0xC0 <= opcode
  {
    var digit := Digit(modrm);
    if opcode == 0xC0 then ShiftRow(digit, [E(B), I(B)])
    else if opcode == 0xC1 then ShiftRow(digit, [E(V), I(B)])
    else if opcode == 0xC3 then Row(Return, [])
    else if opcode == 0xC6 then if digit == 0 then Row(Mov, [E(B), I(B)]) else INVALID
    else if opcode == 0xC7 then if digit == 0 then Row(Mov, [E(V), I(Z)]) else INVALID
    else if opcode == 0xC9 then Row(Leave, [])
    else if opcode == 0xCB then Row(ReturnFar, [])
    else if opcode == 0xCC then Row(Int3, [])
    else if opcode == 0xCF then Row(Iretq, [])
    else if opcode == 0xD0 then ShiftRow(digit, [E(B), One])
    else if opcode == 0xD1 then ShiftRow(digit, [E(V), One])
    else if opcode == 0xD2 then ShiftRow(digit, [E(B), Fixed(COUNT, B)])
    else if opcode == 0xD3 then ShiftRow(digit, [E(V), Fixed(COUNT, B)])
    else if opcode == 0xDB then if modrm == 0xE3 then Row(Fninit, []) else UNSUPPORTED
    else if opcode == 0xE4 then Row(In, [Fixed(ACCUMULATOR, B), I(B)])
    else if opcode == 0xE5 then Row(In, [Fixed(ACCUMULATOR, V), I(B)])
    else if opcode == 0xE6 then Row(Out, [I(B), Fixed(ACCUMULATOR, B)])
    else if opcode == 0xE7 then Row(Out, [I(B), Fixed(ACCUMULATOR, V)])
    else if opcode == 0xE8 then Row(Call, [J(D)])
    else if opcode == 0xE9 then Row(Jump, [J(D)])
    else if opcode == 0xEB then Row(Jump, [J(B)])
    else if opcode == 0xEC then Row(In, [Fixed(ACCUMULATOR, B), Fixed(DATA, W)])
    else if opcode == 0xED then Row(In, [Fixed(ACCUMULATOR, V), Fixed(DATA, W)])
    else if opcode == 0xEE then Row(Out, [Fixed(DATA, W), Fixed(ACCUMULATOR, B)])
    else if opcode == 0xEF then Row(Out, [Fixed(DATA, W), Fixed(ACCUMULATOR, V)])
    else if opcode == 0xF4 then Row(Hlt, [])
    else if opcode == 0xF6 then UnaryRow(digit, B, B)
    else if opcode == 0xF7 then UnaryRow(digit, V, Z)
    else if opcode == 0xFA then Row(Cli, [])
    else if opcode == 0xFB then Row(Sti, [])
    else if opcode == 0xFC then Row(Cld, [])
    else if opcode == 0xFD then Row(Std, [])
    else if opcode == 0xFE then IndirectRow(digit, B, B)
    else if opcode == 0xFF then IndirectRow(digit, V, Q)
    else UNSUPPORTED
  }

  function OneByteRow(opcode: byte, modrm: byte): Row {
    if opcode < 0x40 then Rows00(opcode)
    else if opcode < 0x80 then Rows40(opcode)
    else if opcode < 0xC0 then Rows80(opcode, modrm)
    else RowsC0(opcode, modrm)
  }

  /** Which one-byte opcodes have a ModRM byte, and the widths of its two operands. */
  function OneByteTail(opcode: byte): Tail {
    if opcode < 0x40 && opcode % 8 < 4 then
      if opcode % 2 == 0 then ModrmTail(B, B) else ModrmTail(V, V)
    else if opcode == 0x63 then ModrmTail(D, V)
    else if opcode in {0x80, 0x84, 0x86, 0x88, 0x8A, 0xC0, 0xC6, 0xD0, 0xD2, 0xF6, 0xFE} then ModrmTail(B, B)
    else if opcode in {0x69, 0x6B, 0x81, 0x83, 0x85, 0x87, 0x89, 0x8B, 0x8D, 0xC1, 0xC7, 0xD1, 0xD3, 0xF7, 0xFF}
      then ModrmTail(V, V)
    else if opcode in {0x8C, 0x8E} then ModrmTail(W, W)
    else if opcode == 0xDB then ByteTail
    else NoTail
  }

  // ---------------------------------------------------------------- the two-byte map

  function BitRow(digit: nat): Row {
    match digit
    case 4 => Row(Bt, [E(V), I(B)])
    case 5 => Row(Bts, [E(V), I(B)])
    case 6 => Row(Btr, [E(V), I(B)])
    case 7 => Row(Btc, [E(V), I(B)])
    case _ => INVALID
  }

  function SystemRow(modrm: byte): Row {
    if modrm == 0xF8 then Row(Swapgs, [])
    else
      match Digit(modrm)
      case 2 => Row(Lgdt, [E(Q)])
      case 3 => Row(Lidt, [E(Q)])
      case 7 => Row(Invlpg, [E(Q)])
      case _ => INVALID
  }

  /** 0F AE: state images in memory, and the fences that look like registers. */
  function StateRow(modrm: byte): Row {
    if modrm < 0xC0 && Digit(modrm) == 0 then Row(Fxsave, [E(O)])
    else if modrm < 0xC0 && Digit(modrm) == 1 then Row(Fxrstor, [E(O)])
    else if modrm >= 0xC0 && Digit(modrm) >= 5 then Row(Fence, [])
    else UNSUPPORTED
  }

  function LowRows(opcode: byte, modrm: byte): Row
    requires opcode < 0x80
  {
    if opcode == 0x00 then if Digit(modrm) == 3 then Row(Ltr, [E(W)]) else UNSUPPORTED
    else if opcode == 0x01 then SystemRow(modrm)
    else if opcode == 0x05 then Row(Syscall, [])
    else if opcode == 0x06 then Row(Clts, [])
    else if opcode == 0x07 then Row(Sysret, [])
    else if opcode == 0x09 then Row(Wbinvd, [])
    else if opcode == 0x1F then Row(Nop, [])
    else if opcode == 0x20 then if modrm >= 0xC0 then Row(Mov, [E(Q), ControlField]) else INVALID
    else if opcode == 0x22 then if modrm >= 0xC0 then Row(Mov, [ControlField, E(Q)]) else INVALID
    else if opcode == 0x30 then Row(Wrmsr, [])
    else if opcode == 0x31 then Row(Rdtsc, [])
    else if opcode == 0x32 then Row(Rdmsr, [])
    else if 0x40 <= opcode < 0x50 then Row(MoveCondition(CONDITIONS[opcode % 16]), [G(V), E(V)])
    else UNSUPPORTED
  }

  function HighRows(opcode: byte, modrm: byte): Row
    requires 0x80 <= opcode
  {
    if opcode < 0x90 then Row(JumpCondition(CONDITIONS[opcode % 16]), [J(D)])
    else if opcode < 0xA0 then Row(SetCondition(CONDITIONS[opcode % 16]), [E(B)])
    else if opcode == 0xA2 then Row(Cpuid, [])
    else if opcode == 0xA3 then Row(Bt, [E(V), G(V)])
    else if opcode == 0xA4 then Row(Shld, [E(V), G(V), I(B)])
    else if opcode == 0xAB then Row(Bts, [E(V), G(V)])
    else if opcode == 0xAE then StateRow(modrm)
    else if opcode == 0xAF then Row(Imul, [G(V), E(V)])
    else if opcode == 0xB0 then Row(Cmpxchg, [E(B), G(B)])
    else if opcode == 0xB1 then Row(Cmpxchg, [E(V), G(V)])
    else if opcode == 0xB3 then Row(Btr, [E(V), G(V)])
    else if opcode == 0xB6 then Row(Movzx, [G(V), E(B)])
    else if opcode == 0xB7 then Row(Movzx, [G(V), E(W)])
    else if opcode == 0xBA then BitRow(Digit(modrm))
    else if opcode == 0xBB then Row(Btc, [E(V), G(V)])
    else if opcode == 0xBC then Row(Bsf, [G(V), E(V)])
    else if opcode == 0xBD then Row(Bsr, [G(V), E(V)])
    else if opcode == 0xBE then Row(Movsx, [G(V), E(B)])
    else if opcode == 0xBF then Row(Movsx, [G(V), E(W)])
    else if opcode == 0xC0 then Row(Xadd, [E(B), G(B)])
    else if opcode == 0xC1 then Row(Xadd, [E(V), G(V)])
    else if 0xC8 <= opcode < 0xD0 then Row(Bswap, [OpcodeRegister(V)])
    else UNSUPPORTED
  }

  function TwoByteRow(opcode: byte, modrm: byte): Row {
    if opcode < 0x80 then LowRows(opcode, modrm) else HighRows(opcode, modrm)
  }

  function TwoByteTail(opcode: byte): Tail {
    if opcode == 0x00 then ModrmTail(W, W)
    else if opcode == 0x01 then ModrmTail(Q, Q)
    else if opcode == 0x20 || opcode == 0x22 then ByteTail
    else if 0x90 <= opcode < 0xA0 || opcode == 0xB0 || opcode == 0xC0 then ModrmTail(B, B)
    else if opcode == 0xAE then ModrmTail(O, O)
    else if opcode == 0xB6 || opcode == 0xBE then ModrmTail(B, V)
    else if opcode == 0xB7 || opcode == 0xBF then ModrmTail(W, V)
    else if 0x40 <= opcode < 0x50 then ModrmTail(V, V)
    else if opcode in {0x1F, 0xA3, 0xA4, 0xAB, 0xAF, 0xB1, 0xB3, 0xBA, 0xBB, 0xBC, 0xBD, 0xC1} then ModrmTail(V, V)
    else NoTail
  }

  function TableRow(two: bool, opcode: byte, modrm: byte): Row {
    if two then TwoByteRow(opcode, modrm) else OneByteRow(opcode, modrm)
  }

  function TailOf(two: bool, opcode: byte): Tail {
    if two then TwoByteTail(opcode) else OneByteTail(opcode)
  }
}
