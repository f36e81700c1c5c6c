/** Decoding by the opcode table, and the proof that the decoder does exactly that on every input. */
module X86TableDecode {
  import opened Bytes
  import opened X86
  import opened X86Decode
  import opened X86OpcodeMap

  function Sized(o: Operand, size: OperandSize): Operand {
    match o
    case Reg(register, _, high8) => Reg(register, size, high8)
    case Mem(m) => Mem(m.(size := size))
    case _ => o
  }

  const NO_FIELDS: ModrmFields := ModrmFields(Imm(0, Byte), Imm(0, Byte), 0)

  /** The operand an argument stands for, given the ModRM operands and the immediate that were read. */
  function Taken(arg: Arg, p: Prefixes, opcode: byte, f: ModrmFields, value: u64): Operand
    requires f.field < 8
  {
    var size := SizeFor(p, false);
    match arg
    case E(w) => Sized(f.rm, w.At(size))
    case G(w) => Sized(f.reg, w.At(size))
    case OpcodeRegister(w) => RegisterOperand(p, opcode % 8, p.RexB(), w.At(size))
    case Fixed(register, w) => Reg(register, w.At(size), false)
    case One => Imm(1, Byte)
    case I(w) => Imm(value, w.At(size))
    case J(w) => Rel(SignedValue(value, w.At(size)), w.At(size))
    case SegmentField => Segment(f.field)
    case ControlField => Control(f.field + 8 * p.RexR())
  }

  function SignedValue(value: u64, size: OperandSize): i64 {
    if value < size.Limit() then Signed(value, size.Limit()) else 0
  }

  /** The width of the immediate or displacement a row reads, if it reads one. */
  function ImmediateWidth(args: seq<Arg>): Option<Width> {
    if |args| > 0 && (args[0].I? || args[0].J?) then Some(args[0].w)
    else if |args| > 1 && (args[1].I? || args[1].J?) then Some(args[1].w)
    else if |args| > 2 && (args[2].I? || args[2].J?) then Some(args[2].w)
    else None
  }

  function Assembled(row: Row, p: Prefixes, opcode: byte, f: ModrmFields, value: u64): Instruction
    requires row.Row? && f.field < 8
  {
    var a := row.args;
    Instruction(row.mnemonic,
                if |a| > 0 then Some(Taken(a[0], p, opcode, f, value)) else None,
                if |a| > 1 then Some(Taken(a[1], p, opcode, f, value)) else None,
                if |a| > 2 then Some(Taken(a[2], p, opcode, f, value)) else None,
                NO_PREFIXES, 0)
  }

  /** The row is known: refuse, or read the immediate and put the operands together. */
  function ByRow(b: seq<byte>, at: nat, p: Prefixes, opcode: byte, row: Row, f: ModrmFields): Parsed<Instruction>
    requires f.field < 8
  {
    match row
    case Refused(kind) => Err(kind, at)
    case Row(_, args) =>
      match ImmediateWidth(args)
      case None => Ok(Assembled(row, p, opcode, f, 0), at)
      case Some(w) =>
        var (v, at1) :- ImmAt(b, at, w.At(SizeFor(p, false)));
        Ok(Assembled(row, p, opcode, f, v), at1)
  }

  /** Decoding behind the opcode, by the table. */
  function ByOpcode(b: seq<byte>, at: nat, p: Prefixes, two: bool, opcode: byte): Parsed<Instruction> {
    match TailOf(two, opcode)
    case NoTail => ByRow(b, at, p, opcode, TableRow(two, opcode, 0), NO_FIELDS)
    case ByteTail =>
      var (v, at1) :- ByteAt(b, at);
      var rm := RegisterOperand(p, v % 8, p.RexB(), Qword);
      ByRow(b, at1, p, opcode, TableRow(two, opcode, v), ModrmFields(rm, rm, Digit(v)))
    case ModrmTail(rm, reg) =>
      var size := SizeFor(p, false);
      var (f, at1) :- ModrmSized(b, at, p, rm.At(size), reg.At(size));
      ModrmByte(b, at, p, rm.At(size), reg.At(size));
      ByRow(b, at1, p, opcode, TableRow(two, opcode, b[at]), f)
  }

  /** The decoder, by the table. */
  function ByTable(b: seq<byte>): Parsed<Instruction> {
    var (p, at) :- ReadPrefixes(b, 0, NO_PREFIXES);
    var (opcode, at1) :- ByteAt(b, at);
    var (i, at2) :-
      (if opcode != 0x0F then ByOpcode(b, at1, p, false, opcode)
       else
         var (second, at1') :- ByteAt(b, at1);
         ByOpcode(b, at1', p, true, second));
    if at2 > 15 then Err(TooLong, at2) else Ok(i.(prefixes := p, length := at2), at2)
  }

  // ---------------------------------------------------------------- facts about the readers

  /** What ModRM reading says about its first byte and the sizes. */
  lemma ModrmByte(b: seq<byte>, at: nat, p: Prefixes, rmSize: OperandSize, regSize: OperandSize)
    ensures ModrmSized(b, at, p, rmSize, regSize).Ok? ==>
              at < |b|
              && var f := ModrmSized(b, at, p, rmSize, regSize).value;
                 && f.field == Digit(b[at]) && (f.rm.Reg? <==> b[at] >= 0xC0)
                 && Sized(f.rm, rmSize) == f.rm && Sized(f.reg, regSize) == f.reg
    ensures at >= |b| ==> ModrmSized(b, at, p, rmSize, regSize) == Err(Truncated, at)
    ensures at < |b| && b[at] >= 0xC0 ==>
              ModrmSized(b, at, p, rmSize, regSize).Ok? && ModrmSized(b, at, p, rmSize, regSize).next == at + 1
  {
    hide AddressOperand, WithDisplacement;
  }

  // ---------------------------------------------------------------- the one-byte map

  /** The decoder's condition codes are those of the manuals. */
  lemma ConditionNames(code: byte)
    ensures ConditionFromCode(code) == CONDITIONS[code % 16]
  {
  }

  lemma SizeFacts(p: Prefixes)
    ensures SizeFor(p, true) == Byte && SizeFor(p, false) in {Word, Dword, Qword}
  {
  }

  lemma Dispatch00(b: seq<byte>, at: nat, p: Prefixes, opcode: byte)
    requires opcode < 0x40 && opcode != 0x0F
    ensures opcode % 8 < 4 ==>
              Primary(b, at, p, opcode) == BinaryModrm(b, at, p, GroupOneMnemonic(opcode / 8), opcode)
    ensures opcode % 8 == 4 || opcode % 8 == 5 ==>
              Primary(b, at, p, opcode) == AccumulatorImmediate(b, at, p, opcode)
    ensures opcode % 8 > 5 ==>
              Primary(b, at, p, opcode) == PrimaryFixed(at, p, opcode)
  {
    hide BinaryModrm, PrimaryFixed, Secondary, Relative, GroupImmediate, GroupTwo, GroupThree, GroupFive, MovImmediate,
         ImulImmediate, SegmentMove, AccumulatorImmediate, PortImmediate, ModrmSized, ImmAt, RegisterOperand,
         SegmentsAre, ConditionFromCode, SizeFor, GroupOneMnemonic;
  }

  lemma Dispatch40(b: seq<byte>, at: nat, p: Prefixes, opcode: byte)
    requires 0x40 <= opcode < 0x80
    ensures opcode == 0x69 || opcode == 0x6B ==>
              Primary(b, at, p, opcode) == ImulImmediate(b, at, p, opcode)
    ensures 0x70 <= opcode ==>
              Primary(b, at, p, opcode) == Relative(b, at, JumpCondition(ConditionFromCode(opcode)), Byte)
    ensures opcode < 0x68 && opcode != 0x63 ==>
              Primary(b, at, p, opcode) == PrimaryFixed(at, p, opcode)
    ensures 0x6C <= opcode < 0x70 ==>
              Primary(b, at, p, opcode) == PrimaryFixed(at, p, opcode)
  {
    hide BinaryModrm, PrimaryFixed, Secondary, Relative, GroupImmediate, GroupTwo, GroupThree, GroupFive, MovImmediate,
         ImulImmediate, SegmentMove, AccumulatorImmediate, PortImmediate, ModrmSized, ImmAt, RegisterOperand,
         SegmentsAre, ConditionFromCode, SizeFor, GroupOneMnemonic;
  }

  lemma Dispatch80(b: seq<byte>, at: nat, p: Prefixes, opcode: byte)
    requires 0x80 <= opcode < 0xC0
    ensures opcode in {0x80, 0x81, 0x83} ==>
              Primary(b, at, p, opcode) == GroupImmediate(b, at, p, opcode)
    ensures opcode == 0x84 || opcode == 0x85 ==>
              Primary(b, at, p, opcode) == BinaryModrm(b, at, p, Test, opcode - 0x84)
    ensures opcode == 0x86 || opcode == 0x87 ==>
              Primary(b, at, p, opcode) == BinaryModrm(b, at, p, Xchg, opcode - 0x86)
    ensures 0x88 <= opcode <= 0x8B ==>
              Primary(b, at, p, opcode) == BinaryModrm(b, at, p, Mov, opcode)
    ensures opcode == 0x8D ==>
              Primary(b, at, p, opcode) == BinaryModrm(b, at, p, Lea, 0x8B)
    ensures opcode == 0x8C || opcode == 0x8E ==>
              Primary(b, at, p, opcode) == SegmentMove(b, at, p, opcode)
    ensures opcode == 0xA8 || opcode == 0xA9 ==>
              Primary(b, at, p, opcode) == AccumulatorImmediate(b, at, p, opcode)
    ensures opcode in {0x82, 0x8F} || 0x90 <= opcode < 0xA8 || 0xAA <= opcode < 0xB0 ==>
              Primary(b, at, p, opcode) == PrimaryFixed(at, p, opcode)
  {
    hide BinaryModrm, PrimaryFixed, Secondary, Relative, GroupImmediate, GroupTwo, GroupThree, GroupFive, MovImmediate,
         ImulImmediate, SegmentMove, AccumulatorImmediate, PortImmediate, ModrmSized, ImmAt, RegisterOperand,
         SegmentsAre, ConditionFromCode, SizeFor, GroupOneMnemonic;
  }

  lemma DispatchC0(b: seq<byte>, at: nat, p: Prefixes, opcode: byte)
    requires 0xC0 <= opcode
    ensures opcode in {0xC0, 0xC1, 0xD0, 0xD1, 0xD2, 0xD3} ==>
              Primary(b, at, p, opcode) == GroupTwo(b, at, p, opcode)
    ensures opcode == 0xC6 || opcode == 0xC7 ==>
              Primary(b, at, p, opcode) == MovImmediate(b, at, p, opcode)
    ensures opcode == 0xE4 || opcode == 0xE5 ==>
              Primary(b, at, p, opcode) == PortImmediate(b, at, p, In, opcode == 0xE5)
    ensures opcode == 0xE6 || opcode == 0xE7 ==>
              Primary(b, at, p, opcode) == PortImmediate(b, at, p, Out, opcode == 0xE7)
    ensures opcode == 0xE8 || opcode == 0xE9 ==>
              Primary(b, at, p, opcode) == Relative(b, at, if opcode == 0xE8 then Call else Jump, Dword)
    ensures opcode == 0xEB ==>
              Primary(b, at, p, opcode) == Relative(b, at, Jump, Byte)
    ensures opcode == 0xF6 || opcode == 0xF7 ==>
              Primary(b, at, p, opcode) == GroupThree(b, at, p, opcode)
    ensures opcode == 0xFE || opcode == 0xFF ==>
              Primary(b, at, p, opcode) == GroupFive(b, at, p, opcode)
    ensures opcode !in {0xC0, 0xC1, 0xC6, 0xC7, 0xD0, 0xD1, 0xD2, 0xD3, 0xDB, 0xE4, 0xE5, 0xE6, 0xE7, 0xE8, 0xE9, 0xEB,
                        0xF6, 0xF7, 0xFE, 0xFF} ==>
              Primary(b, at, p, opcode) == PrimaryFixed(at, p, opcode)
  {
    hide BinaryModrm, PrimaryFixed, Secondary, Relative, GroupImmediate, GroupTwo, GroupThree, GroupFive, MovImmediate,
         ImulImmediate, SegmentMove, AccumulatorImmediate, PortImmediate, ModrmSized, ImmAt, RegisterOperand,
         SegmentsAre, ConditionFromCode, SizeFor, GroupOneMnemonic;
  }

  lemma ArithmeticRowsTable(opcode: byte, modrm: byte)
    requires opcode < 0x40 && opcode % 8 < 4
    ensures OneByteTail(opcode) == (if opcode % 2 == 0 then ModrmTail(B, B) else ModrmTail(V, V))
    ensures OneByteRow(opcode, modrm) == (var w := if opcode % 2 == 0 then B else V;
                Row(ALU[opcode / 8], if opcode / 2 % 2 == 0 then [E(w), G(w)] else [G(w), E(w)]))
  {
  }

  lemma ArithmeticRows(b: seq<byte>, at: nat, p: Prefixes, opcode: byte)
    requires opcode < 0x40 && opcode % 8 < 4
    ensures Primary(b, at, p, opcode) == ByOpcode(b, at, p, false, opcode)
  {
    hide SignedValue, ModrmSized, ImmAt, Primary, SizeFor, RegisterOperand, ConditionFromCode, SegmentsAre,
         PrimaryFixed, OneByteRow, OneByteTail;
    SizeFacts(p);
    Dispatch00(b, at, p, opcode);
    ArithmeticRowsTable(opcode, if at < |b| then b[at] else 0);
    var tail, size := TailOf(false, opcode), SizeFor(p, false);
    ModrmByte(b, at, p, tail.rm.At(size), tail.reg.At(size));
  }

  lemma AccumulatorRowsTable(opcode: byte, modrm: byte)
    requires opcode < 0x40 && (opcode % 8 == 4 || opcode % 8 == 5)
    ensures OneByteTail(opcode) == NoTail
    ensures OneByteRow(opcode, modrm)
         == Row(ALU[opcode / 8], if opcode % 2 == 0 then [Fixed(ACCUMULATOR, B), I(B)]
                else [Fixed(ACCUMULATOR, V), I(Z)])
  {
  }

  lemma AccumulatorRows(b: seq<byte>, at: nat, p: Prefixes, opcode: byte)
    requires opcode < 0x40 && (opcode % 8 == 4 || opcode % 8 == 5)
    ensures Primary(b, at, p, opcode) == ByOpcode(b, at, p, false, opcode)
  {
    hide SignedValue, ModrmSized, ImmAt, Primary, SizeFor, RegisterOperand, ConditionFromCode, SegmentsAre,
         PrimaryFixed, OneByteRow, OneByteTail;
    SizeFacts(p);
    Dispatch00(b, at, p, opcode);
    AccumulatorRowsTable(opcode, 0);
  }

  lemma TestAccumulatorRowsTable(opcode: byte, modrm: byte)
    requires opcode == 0xA8 || opcode == 0xA9
    ensures OneByteTail(opcode) == NoTail
    ensures OneByteRow(opcode, modrm)
         == Row(Test, if opcode % 2 == 0 then [Fixed(ACCUMULATOR, B), I(B)] else [Fixed(ACCUMULATOR, V), I(Z)])
  {
  }

  lemma TestAccumulatorRows(b: seq<byte>, at: nat, p: Prefixes, opcode: byte)
    requires opcode == 0xA8 || opcode == 0xA9
    ensures Primary(b, at, p, opcode) == ByOpcode(b, at, p, false, opcode)
  {
    hide SignedValue, ModrmSized, ImmAt, Primary, SizeFor, RegisterOperand, ConditionFromCode, SegmentsAre,
         PrimaryFixed, OneByteRow, OneByteTail;
    SizeFacts(p);
    Dispatch80(b, at, p, opcode);
    TestAccumulatorRowsTable(opcode, 0);
  }

  lemma TwoOperandRowsTable(opcode: byte, modrm: byte)
    requires opcode in {0x84, 0x85, 0x86, 0x87, 0x88, 0x89, 0x8A, 0x8B}
    ensures OneByteTail(opcode) == (if opcode % 2 == 0 then ModrmTail(B, B) else ModrmTail(V, V))
    ensures OneByteRow(opcode, modrm) == (var w := if opcode % 2 == 0 then B else V;
                Row(if opcode < 0x86 then Test else if opcode < 0x88 then Xchg else Mov,
                    if opcode < 0x8A then [E(w), G(w)] else [G(w), E(w)]))
  {
  }

  lemma LeaRowsTable(opcode: byte, modrm: byte)
    requires opcode == 0x8D
    ensures OneByteTail(opcode) == ModrmTail(V, V)
    ensures OneByteRow(opcode, modrm) == Row(Lea, [G(V), E(V)])
  {
  }

  lemma LeaRows(b: seq<byte>, at: nat, p: Prefixes, opcode: byte)
    requires opcode == 0x8D
    ensures Primary(b, at, p, opcode) == ByOpcode(b, at, p, false, opcode)
  {
    hide SignedValue, ModrmSized, ImmAt, Primary, SizeFor, RegisterOperand, ConditionFromCode, SegmentsAre,
         PrimaryFixed, OneByteRow, OneByteTail;
    SizeFacts(p);
    Dispatch80(b, at, p, opcode);
    LeaRowsTable(opcode, if at < |b| then b[at] else 0);
    var tail, size := TailOf(false, opcode), SizeFor(p, false);
    ModrmByte(b, at, p, tail.rm.At(size), tail.reg.At(size));
  }

  lemma SegmentRowsTable(opcode: byte, modrm: byte)
    requires opcode == 0x8C || opcode == 0x8E
    ensures OneByteTail(opcode) == ModrmTail(W, W)
    ensures OneByteRow(opcode, modrm)
         == (var digit := Digit(modrm);
             if digit > 5 || (opcode == 0x8E && digit == 1) then INVALID
             else Row(Mov, if opcode == 0x8C then [E(W), SegmentField] else [SegmentField, E(W)]))
  {
  }

  lemma SegmentRows(b: seq<byte>, at: nat, p: Prefixes, opcode: byte)
    requires opcode == 0x8C || opcode == 0x8E
    ensures Primary(b, at, p, opcode) == ByOpcode(b, at, p, false, opcode)
  {
    hide SignedValue, ModrmSized, ImmAt, Primary, SizeFor, RegisterOperand, ConditionFromCode, SegmentsAre,
         PrimaryFixed, OneByteRow, OneByteTail;
    SizeFacts(p);
    Dispatch80(b, at, p, opcode);
    SegmentRowsTable(opcode, if at < |b| then b[at] else 0);
    var tail, size := TailOf(false, opcode), SizeFor(p, false);
    ModrmByte(b, at, p, tail.rm.At(size), tail.reg.At(size));
  }

  lemma ImulRowsTable(opcode: byte, modrm: byte)
    requires opcode == 0x69 || opcode == 0x6B
    ensures OneByteTail(opcode) == ModrmTail(V, V)
    ensures OneByteRow(opcode, modrm) == Row(Imul, [G(V), E(V), I(if opcode == 0x69 then Z else B)])
  {
  }

  lemma ImulRows(b: seq<byte>, at: nat, p: Prefixes, opcode: byte)
    requires opcode == 0x69 || opcode == 0x6B
    ensures Primary(b, at, p, opcode) == ByOpcode(b, at, p, false, opcode)
  {
    hide SignedValue, ModrmSized, ImmAt, Primary, SizeFor, RegisterOperand, ConditionFromCode, SegmentsAre,
         PrimaryFixed, OneByteRow, OneByteTail;
    SizeFacts(p);
    Dispatch40(b, at, p, opcode);
    ImulRowsTable(opcode, if at < |b| then b[at] else 0);
    var tail, size := TailOf(false, opcode), SizeFor(p, false);
    ModrmByte(b, at, p, tail.rm.At(size), tail.reg.At(size));
  }

  lemma ImmediateRowsTable(opcode: byte, modrm: byte)
    requires opcode in {0x80, 0x81, 0x83}
    ensures OneByteTail(opcode) == (if opcode == 0x80 then ModrmTail(B, B) else ModrmTail(V, V))
    ensures OneByteRow(opcode, modrm)
         == Row(ALU[Digit(modrm)], [E(if opcode == 0x80 then B else V), I(if opcode == 0x81 then Z else B)])
  {
  }

  lemma MoveMemoryRowsTable(opcode: byte, modrm: byte)
    requires opcode == 0xC6 || opcode == 0xC7
    ensures OneByteTail(opcode) == (if opcode == 0xC6 then ModrmTail(B, B) else ModrmTail(V, V))
    ensures OneByteRow(opcode, modrm) == (if Digit(modrm) != 0 then INVALID
                 else Row(Mov, if opcode == 0xC6 then [E(B), I(B)] else [E(V), I(Z)]))
  {
  }

  lemma MoveMemoryRows(b: seq<byte>, at: nat, p: Prefixes, opcode: byte)
    requires opcode == 0xC6 || opcode == 0xC7
    ensures Primary(b, at, p, opcode) == ByOpcode(b, at, p, false, opcode)
  {
    hide SignedValue, ModrmSized, ImmAt, Primary, SizeFor, RegisterOperand, ConditionFromCode, SegmentsAre,
         PrimaryFixed, OneByteRow, OneByteTail;
    SizeFacts(p);
    DispatchC0(b, at, p, opcode);
    MoveMemoryRowsTable(opcode, if at < |b| then b[at] else 0);
    var tail, size := TailOf(false, opcode), SizeFor(p, false);
    ModrmByte(b, at, p, tail.rm.At(size), tail.reg.At(size));
  }

  lemma ShiftRowsTable(opcode: byte, modrm: byte)
    requires opcode in {0xC0, 0xC1, 0xD0, 0xD1, 0xD2, 0xD3}
    ensures OneByteTail(opcode) == (if opcode % 2 == 0 then ModrmTail(B, B) else ModrmTail(V, V))
    ensures var count := if opcode < 0xD0 then I(B) else if opcode < 0xD2 then One else Fixed(COUNT, B);
            OneByteRow(opcode, modrm) == ShiftRow(Digit(modrm), [E(if opcode % 2 == 0 then B else V), count])
  {
  }

  lemma UnaryRowsTable(opcode: byte, modrm: byte)
    requires opcode == 0xF6 || opcode == 0xF7
    ensures OneByteTail(opcode) == (if opcode % 2 == 0 then ModrmTail(B, B) else ModrmTail(V, V))
    ensures OneByteRow(opcode, modrm)
         == (if opcode == 0xF6 then UnaryRow(Digit(modrm), B, B) else UnaryRow(Digit(modrm), V, Z))
  {
  }

  lemma UnaryRows(b: seq<byte>, at: nat, p: Prefixes, opcode: byte)
    requires opcode == 0xF6 || opcode == 0xF7
    ensures Primary(b, at, p, opcode) == ByOpcode(b, at, p, false, opcode)
  {
    hide SignedValue, ModrmSized, ImmAt, Primary, SizeFor, RegisterOperand, ConditionFromCode, SegmentsAre,
         PrimaryFixed, OneByteRow, OneByteTail;
    SizeFacts(p);
    DispatchC0(b, at, p, opcode);
    UnaryRowsTable(opcode, if at < |b| then b[at] else 0);
    var tail, size := TailOf(false, opcode), SizeFor(p, false);
    ModrmByte(b, at, p, tail.rm.At(size), tail.reg.At(size));
  }

  lemma IndirectRowsTable(opcode: byte, modrm: byte)
    requires opcode == 0xFE || opcode == 0xFF
    ensures OneByteTail(opcode) == (if opcode % 2 == 0 then ModrmTail(B, B) else ModrmTail(V, V))
    ensures OneByteRow(opcode, modrm)
         == (if opcode == 0xFE then IndirectRow(Digit(modrm), B, B) else IndirectRow(Digit(modrm), V, Q))
  {
  }

  lemma IndirectRows(b: seq<byte>, at: nat, p: Prefixes, opcode: byte)
    requires opcode == 0xFE || opcode == 0xFF
    ensures Primary(b, at, p, opcode) == ByOpcode(b, at, p, false, opcode)
  {
    hide SignedValue, ModrmSized, ImmAt, Primary, SizeFor, RegisterOperand, ConditionFromCode, SegmentsAre,
         PrimaryFixed, OneByteRow, OneByteTail;
    SizeFacts(p);
    DispatchC0(b, at, p, opcode);
    IndirectRowsTable(opcode, if at < |b| then b[at] else 0);
    var tail, size := TailOf(false, opcode), SizeFor(p, false);
    ModrmByte(b, at, p, tail.rm.At(size), tail.reg.At(size));
  }

  lemma ConditionRowsTable(opcode: byte, modrm: byte)
    requires 0x70 <= opcode < 0x80
    ensures OneByteTail(opcode) == NoTail
    ensures OneByteRow(opcode, modrm) == Row(JumpCondition(CONDITIONS[opcode % 16]), [J(B)])
  {
  }

  lemma ConditionRows(b: seq<byte>, at: nat, p: Prefixes, opcode: byte)
    requires 0x70 <= opcode < 0x80
    ensures Primary(b, at, p, opcode) == ByOpcode(b, at, p, false, opcode)
  {
    hide ModrmSized, ImmAt, Primary, SizeFor, RegisterOperand, ConditionFromCode, SegmentsAre, PrimaryFixed, OneByteRow,
         OneByteTail;
    SizeFacts(p);
    ConditionNames(opcode);
    Dispatch40(b, at, p, opcode);
    ConditionRowsTable(opcode, 0);
  }

  lemma BranchRowsTable(opcode: byte, modrm: byte)
    requires opcode in {0xE8, 0xE9, 0xEB}
    ensures OneByteTail(opcode) == NoTail
    ensures OneByteRow(opcode, modrm)
         == Row(if opcode == 0xE8 then Call else Jump, [J(if opcode == 0xEB then B else D)])
  {
  }

  lemma BranchRows(b: seq<byte>, at: nat, p: Prefixes, opcode: byte)
    requires opcode in {0xE8, 0xE9, 0xEB}
    ensures Primary(b, at, p, opcode) == ByOpcode(b, at, p, false, opcode)
  {
    hide ModrmSized, ImmAt, Primary, SizeFor, RegisterOperand, ConditionFromCode, SegmentsAre, PrimaryFixed, OneByteRow,
         OneByteTail;
    SizeFacts(p);
    DispatchC0(b, at, p, opcode);
    BranchRowsTable(opcode, 0);
  }

  lemma PortRowsTable(opcode: byte, modrm: byte)
    requires opcode in {0xE4, 0xE5, 0xE6, 0xE7}
    ensures OneByteTail(opcode) == NoTail
    ensures OneByteRow(opcode, modrm) == (var a := Fixed(ACCUMULATOR, if opcode % 2 == 0 then B else V);
                if opcode < 0xE6 then Row(In, [a, I(B)]) else Row(Out, [I(B), a]))
  {
  }

  /** Opcodes without a helper of their own in the decoder. */
  lemma OwnRows(b: seq<byte>, at: nat, p: Prefixes, opcode: byte)
    requires opcode in {0x63, 0x68, 0x6A, 0xDB}
    ensures Primary(b, at, p, opcode) == ByOpcode(b, at, p, false, opcode)
  {
    hide SignedValue, ModrmSized, ImmAt, SizeFor, RegisterOperand, SegmentsAre, ConditionFromCode, PrimaryFixed,
         Secondary, Relative, BinaryModrm, GroupImmediate, GroupTwo, GroupThree, GroupFive, MovImmediate, ImulImmediate,
         SegmentMove, AccumulatorImmediate, PortImmediate;
    SizeFacts(p);
    if TailOf(false, opcode).ModrmTail? {
      var tail, size := TailOf(false, opcode), SizeFor(p, false);
      ModrmByte(b, at, p, tail.rm.At(size), tail.reg.At(size));
    }
  }

  lemma MoveImmediateRows(b: seq<byte>, at: nat, p: Prefixes, opcode: byte)
    requires 0xB0 <= opcode < 0xC0
    ensures Primary(b, at, p, opcode) == ByOpcode(b, at, p, false, opcode)
  {
    hide SignedValue, ModrmSized, ImmAt, SizeFor, RegisterOperand, SegmentsAre, ConditionFromCode, PrimaryFixed,
         Secondary, Relative, BinaryModrm, GroupImmediate, GroupTwo, GroupThree, GroupFive, MovImmediate, ImulImmediate,
         SegmentMove, AccumulatorImmediate, PortImmediate;
    SizeFacts(p);
  }

  lemma FixedRows00(b: seq<byte>, at: nat, p: Prefixes, opcode: byte)
    requires opcode < 0x40 && opcode != 0x0F && opcode % 8 > 5
    ensures Primary(b, at, p, opcode) == ByOpcode(b, at, p, false, opcode)
  {
    hide SignedValue, ModrmSized, ImmAt, Primary, SizeFor, RegisterOperand, ConditionFromCode, SegmentsAre;
    SizeFacts(p);
    Dispatch00(b, at, p, opcode);
  }

  lemma FixedRows40(b: seq<byte>, at: nat, p: Prefixes, opcode: byte)
    requires (0x40 <= opcode < 0x68 && opcode != 0x63) || 0x6C <= opcode < 0x70
    ensures Primary(b, at, p, opcode) == ByOpcode(b, at, p, false, opcode)
  {
    hide SignedValue, ModrmSized, ImmAt, Primary, SizeFor, RegisterOperand, ConditionFromCode, SegmentsAre;
    SizeFacts(p);
    Dispatch40(b, at, p, opcode);
  }

  lemma StringRows(b: seq<byte>, at: nat, p: Prefixes, opcode: byte)
    requires 0xA0 <= opcode < 0xA8 || 0xAA <= opcode < 0xB0
    ensures Primary(b, at, p, opcode) == ByOpcode(b, at, p, false, opcode)
  {
    hide SignedValue, ModrmSized, ImmAt, Primary, SizeFor, RegisterOperand, ConditionFromCode, SegmentsAre;
    SizeFacts(p);
    Dispatch80(b, at, p, opcode);
  }

  lemma FixedRowsC0(b: seq<byte>, at: nat, p: Prefixes, opcode: byte)
    requires 0xC0 <= opcode < 0xE0 && opcode !in {0xC0, 0xC1, 0xC6, 0xC7, 0xD0, 0xD1, 0xD2, 0xD3, 0xDB}
    ensures Primary(b, at, p, opcode) == ByOpcode(b, at, p, false, opcode)
  {
    hide SignedValue, ModrmSized, ImmAt, Primary, SizeFor, RegisterOperand, ConditionFromCode, SegmentsAre;
    SizeFacts(p);
    DispatchC0(b, at, p, opcode);
  }

  lemma FixedRowsF0(b: seq<byte>, at: nat, p: Prefixes, opcode: byte)
    requires 0xF0 <= opcode && opcode !in {0xF6, 0xF7, 0xFE, 0xFF}
    ensures Primary(b, at, p, opcode) == ByOpcode(b, at, p, false, opcode)
  {
    hide SignedValue, ModrmSized, ImmAt, Primary, SizeFor, RegisterOperand, ConditionFromCode, SegmentsAre;
    SizeFacts(p);
    DispatchC0(b, at, p, opcode);
  }

  lemma InByteRow(b: seq<byte>, at: nat, p: Prefixes, opcode: byte)
    requires opcode == 0xE4
    ensures Primary(b, at, p, opcode) == ByOpcode(b, at, p, false, opcode)
  {
    hide SignedValue, ModrmSized, ImmAt, Primary, SizeFor, RegisterOperand, ConditionFromCode, SegmentsAre,
         PrimaryFixed, OneByteRow, OneByteTail;
    SizeFacts(p);
    DispatchC0(b, at, p, opcode);
    PortRowsTable(opcode, 0);
  }

  lemma InRow(b: seq<byte>, at: nat, p: Prefixes, opcode: byte)
    requires opcode == 0xE5
    ensures Primary(b, at, p, opcode) == ByOpcode(b, at, p, false, opcode)
  {
    hide SignedValue, ModrmSized, ImmAt, Primary, SizeFor, RegisterOperand, ConditionFromCode, SegmentsAre,
         PrimaryFixed, OneByteRow, OneByteTail;
    SizeFacts(p);
    DispatchC0(b, at, p, opcode);
    PortRowsTable(opcode, 0);
  }

  lemma OutByteRow(b: seq<byte>, at: nat, p: Prefixes, opcode: byte)
    requires opcode == 0xE6
    ensures Primary(b, at, p, opcode) == ByOpcode(b, at, p, false, opcode)
  {
    hide SignedValue, ModrmSized, ImmAt, Primary, SizeFor, RegisterOperand, ConditionFromCode, SegmentsAre,
         PrimaryFixed, OneByteRow, OneByteTail;
    SizeFacts(p);
    DispatchC0(b, at, p, opcode);
    PortRowsTable(opcode, 0);
  }

  lemma OutRow(b: seq<byte>, at: nat, p: Prefixes, opcode: byte)
    requires opcode == 0xE7
    ensures Primary(b, at, p, opcode) == ByOpcode(b, at, p, false, opcode)
  {
    hide SignedValue, ModrmSized, ImmAt, Primary, SizeFor, RegisterOperand, ConditionFromCode, SegmentsAre,
         PrimaryFixed, OneByteRow, OneByteTail;
    SizeFacts(p);
    DispatchC0(b, at, p, opcode);
    PortRowsTable(opcode, 0);
  }

  lemma ShiftByteRow(b: seq<byte>, at: nat, p: Prefixes, opcode: byte)
    requires opcode == 0xC0
    ensures Primary(b, at, p, opcode) == ByOpcode(b, at, p, false, opcode)
  {
    hide SignedValue, ModrmSized, ImmAt, Primary, SizeFor, RegisterOperand, ConditionFromCode, SegmentsAre,
         PrimaryFixed, OneByteRow, OneByteTail;
    SizeFacts(p);
    DispatchC0(b, at, p, opcode);
    ShiftRowsTable(opcode, if at < |b| then b[at] else 0);
    var tail, size := TailOf(false, opcode), SizeFor(p, false);
    ModrmByte(b, at, p, tail.rm.At(size), tail.reg.At(size));
  }

  lemma ShiftImmediateRow(b: seq<byte>, at: nat, p: Prefixes, opcode: byte)
    requires opcode == 0xC1
    ensures Primary(b, at, p, opcode) == ByOpcode(b, at, p, false, opcode)
  {
    hide SignedValue, ModrmSized, ImmAt, Primary, SizeFor, RegisterOperand, ConditionFromCode, SegmentsAre,
         PrimaryFixed, OneByteRow, OneByteTail;
    SizeFacts(p);
    DispatchC0(b, at, p, opcode);
    ShiftRowsTable(opcode, if at < |b| then b[at] else 0);
    var tail, size := TailOf(false, opcode), SizeFor(p, false);
    ModrmByte(b, at, p, tail.rm.At(size), tail.reg.At(size));
  }

  lemma ShiftOneRows(b: seq<byte>, at: nat, p: Prefixes, opcode: byte)
    requires opcode == 0xD0 || opcode == 0xD1
    ensures Primary(b, at, p, opcode) == ByOpcode(b, at, p, false, opcode)
  {
    hide SignedValue, ModrmSized, ImmAt, Primary, SizeFor, RegisterOperand, ConditionFromCode, SegmentsAre,
         PrimaryFixed, OneByteRow, OneByteTail;
    SizeFacts(p);
    DispatchC0(b, at, p, opcode);
    ShiftRowsTable(opcode, if at < |b| then b[at] else 0);
    var tail, size := TailOf(false, opcode), SizeFor(p, false);
    ModrmByte(b, at, p, tail.rm.At(size), tail.reg.At(size));
  }

  lemma ShiftClRows(b: seq<byte>, at: nat, p: Prefixes, opcode: byte)
    requires opcode == 0xD2 || opcode == 0xD3
    ensures Primary(b, at, p, opcode) == ByOpcode(b, at, p, false, opcode)
  {
    hide SignedValue, ModrmSized, ImmAt, Primary, SizeFor, RegisterOperand, ConditionFromCode, SegmentsAre,
         PrimaryFixed, OneByteRow, OneByteTail;
    SizeFacts(p);
    DispatchC0(b, at, p, opcode);
    ShiftRowsTable(opcode, if at < |b| then b[at] else 0);
    var tail, size := TailOf(false, opcode), SizeFor(p, false);
    ModrmByte(b, at, p, tail.rm.At(size), tail.reg.At(size));
  }

  lemma InDxRows(b: seq<byte>, at: nat, p: Prefixes, opcode: byte)
    requires opcode == 0xEC || opcode == 0xED
    ensures Primary(b, at, p, opcode) == ByOpcode(b, at, p, false, opcode)
  {
    hide SignedValue, ModrmSized, ImmAt, Primary, SizeFor, RegisterOperand, ConditionFromCode, SegmentsAre;
    SizeFacts(p);
    DispatchC0(b, at, p, opcode);
  }

  lemma OutDxRows(b: seq<byte>, at: nat, p: Prefixes, opcode: byte)
    requires opcode == 0xEE || opcode == 0xEF
    ensures Primary(b, at, p, opcode) == ByOpcode(b, at, p, false, opcode)
  {
    hide SignedValue, ModrmSized, ImmAt, Primary, SizeFor, RegisterOperand, ConditionFromCode, SegmentsAre;
    SizeFacts(p);
    DispatchC0(b, at, p, opcode);
  }

  lemma FixedRowsE0(b: seq<byte>, at: nat, p: Prefixes, opcode: byte)
    requires 0xE0 <= opcode < 0xE4 || opcode == 0xEA
    ensures Primary(b, at, p, opcode) == ByOpcode(b, at, p, false, opcode)
  {
    hide SignedValue, ModrmSized, ImmAt, Primary, SizeFor, RegisterOperand, ConditionFromCode, SegmentsAre;
    SizeFacts(p);
    DispatchC0(b, at, p, opcode);
  }

  lemma TestRows(b: seq<byte>, at: nat, p: Prefixes, opcode: byte)
    requires opcode == 0x84 || opcode == 0x85
    ensures Primary(b, at, p, opcode) == ByOpcode(b, at, p, false, opcode)
  {
    hide SignedValue, ModrmSized, ImmAt, Primary, SizeFor, RegisterOperand, ConditionFromCode, SegmentsAre,
         PrimaryFixed, OneByteRow, OneByteTail;
    SizeFacts(p);
    Dispatch80(b, at, p, opcode);
    TwoOperandRowsTable(opcode, if at < |b| then b[at] else 0);
    var tail, size := TailOf(false, opcode), SizeFor(p, false);
    ModrmByte(b, at, p, tail.rm.At(size), tail.reg.At(size));
  }

  lemma XchgRows(b: seq<byte>, at: nat, p: Prefixes, opcode: byte)
    requires opcode == 0x86 || opcode == 0x87
    ensures Primary(b, at, p, opcode) == ByOpcode(b, at, p, false, opcode)
  {
    hide SignedValue, ModrmSized, ImmAt, Primary, SizeFor, RegisterOperand, ConditionFromCode, SegmentsAre,
         PrimaryFixed, OneByteRow, OneByteTail;
    SizeFacts(p);
    Dispatch80(b, at, p, opcode);
    TwoOperandRowsTable(opcode, if at < |b| then b[at] else 0);
    var tail, size := TailOf(false, opcode), SizeFor(p, false);
    ModrmByte(b, at, p, tail.rm.At(size), tail.reg.At(size));
  }

  lemma MoveRows(b: seq<byte>, at: nat, p: Prefixes, opcode: byte)
    requires 0x88 <= opcode <= 0x8B
    ensures Primary(b, at, p, opcode) == ByOpcode(b, at, p, false, opcode)
  {
    hide SignedValue, ModrmSized, ImmAt, Primary, SizeFor, RegisterOperand, ConditionFromCode, SegmentsAre,
         PrimaryFixed, OneByteRow, OneByteTail;
    SizeFacts(p);
    Dispatch80(b, at, p, opcode);
    TwoOperandRowsTable(opcode, if at < |b| then b[at] else 0);
    var tail, size := TailOf(false, opcode), SizeFor(p, false);
    ModrmByte(b, at, p, tail.rm.At(size), tail.reg.At(size));
  }

  lemma XchgAccumulatorRows(b: seq<byte>, at: nat, p: Prefixes, opcode: byte)
    requires 0x91 <= opcode < 0x98
    ensures Primary(b, at, p, opcode) == ByOpcode(b, at, p, false, opcode)
  {
    hide SignedValue, ModrmSized, ImmAt, Primary, SizeFor, RegisterOperand, ConditionFromCode, SegmentsAre;
    SizeFacts(p);
    Dispatch80(b, at, p, opcode);
  }

  lemma FixedRows80(b: seq<byte>, at: nat, p: Prefixes, opcode: byte)
    requires opcode in {0x82, 0x8F, 0x90} || 0x98 <= opcode < 0xA0
    ensures Primary(b, at, p, opcode) == ByOpcode(b, at, p, false, opcode)
  {
    hide SignedValue, ModrmSized, ImmAt, Primary, SizeFor, RegisterOperand, ConditionFromCode, SegmentsAre;
    SizeFacts(p);
    Dispatch80(b, at, p, opcode);
  }

  lemma ByteImmediateRows(b: seq<byte>, at: nat, p: Prefixes, opcode: byte)
    requires opcode == 0x80
    ensures Primary(b, at, p, opcode) == ByOpcode(b, at, p, false, opcode)
  {
    hide SignedValue, ModrmSized, ImmAt, Primary, SizeFor, RegisterOperand, ConditionFromCode, SegmentsAre,
         PrimaryFixed, OneByteRow, OneByteTail;
    SizeFacts(p);
    Dispatch80(b, at, p, opcode);
    ImmediateRowsTable(opcode, if at < |b| then b[at] else 0);
    var tail, size := TailOf(false, opcode), SizeFor(p, false);
    ModrmByte(b, at, p, tail.rm.At(size), tail.reg.At(size));
  }

  lemma ImmediateRows(b: seq<byte>, at: nat, p: Prefixes, opcode: byte)
    requires opcode == 0x81 || opcode == 0x83
    ensures Primary(b, at, p, opcode) == ByOpcode(b, at, p, false, opcode)
  {
    hide SignedValue, ModrmSized, ImmAt, Primary, SizeFor, RegisterOperand, ConditionFromCode, SegmentsAre,
         PrimaryFixed, OneByteRow, OneByteTail;
    SizeFacts(p);
    Dispatch80(b, at, p, opcode);
    ImmediateRowsTable(opcode, if at < |b| then b[at] else 0);
    var tail, size := TailOf(false, opcode), SizeFor(p, false);
    ModrmByte(b, at, p, tail.rm.At(size), tail.reg.At(size));
  }

  /** Every one-byte opcode decodes as its row says, refusals included. */
  lemma PrimaryIsTable(b: seq<byte>, at: nat, p: Prefixes, opcode: byte)
    requires opcode != 0x0F
    ensures Primary(b, at, p, opcode) == ByOpcode(b, at, p, false, opcode)
  {
    hide Primary, ByOpcode;
    if opcode < 0x40 {
      if opcode % 8 < 4 {
        ArithmeticRows(b, at, p, opcode);
      } else if opcode % 8 < 6 {
        AccumulatorRows(b, at, p, opcode);
      } else {
        FixedRows00(b, at, p, opcode);
      }
    } else if opcode < 0x80 {
      if opcode >= 0x70 {
        ConditionRows(b, at, p, opcode);
      } else if opcode == 0x69 || opcode == 0x6B {
        ImulRows(b, at, p, opcode);
      } else if opcode in {0x63, 0x68, 0x6A} {
        OwnRows(b, at, p, opcode);
      } else {
        FixedRows40(b, at, p, opcode);
      }
    } else if opcode < 0xC0 {
      PrimaryIsTable80(b, at, p, opcode);
    } else {
      PrimaryIsTableC0(b, at, p, opcode);
    }
  }

  lemma PrimaryIsTable80(b: seq<byte>, at: nat, p: Prefixes, opcode: byte)
    requires 0x80 <= opcode < 0xC0
    ensures Primary(b, at, p, opcode) == ByOpcode(b, at, p, false, opcode)
  {
    hide Primary, ByOpcode;
    if opcode == 0x80 {
      ByteImmediateRows(b, at, p, opcode);
    } else if opcode == 0x81 || opcode == 0x83 {
      ImmediateRows(b, at, p, opcode);
    } else if opcode == 0x84 || opcode == 0x85 {
      TestRows(b, at, p, opcode);
    } else if opcode == 0x86 || opcode == 0x87 {
      XchgRows(b, at, p, opcode);
    } else if 0x88 <= opcode <= 0x8B {
      MoveRows(b, at, p, opcode);
    } else if opcode == 0x8D {
      LeaRows(b, at, p, opcode);
    } else if opcode == 0x8C || opcode == 0x8E {
      SegmentRows(b, at, p, opcode);
    } else if 0x91 <= opcode < 0x98 {
      XchgAccumulatorRows(b, at, p, opcode);
    } else if opcode < 0xA0 {
      FixedRows80(b, at, p, opcode);
    } else if opcode == 0xA8 || opcode == 0xA9 {
      TestAccumulatorRows(b, at, p, opcode);
    } else if opcode < 0xB0 {
      StringRows(b, at, p, opcode);
    } else {
      MoveImmediateRows(b, at, p, opcode);
    }
  }

  lemma PrimaryIsTableC0(b: seq<byte>, at: nat, p: Prefixes, opcode: byte)
    requires 0xC0 <= opcode
    ensures Primary(b, at, p, opcode) == ByOpcode(b, at, p, false, opcode)
  {
    hide Primary, ByOpcode;
    if opcode == 0xC0 {
      ShiftByteRow(b, at, p, opcode);
    } else if opcode == 0xC1 {
      ShiftImmediateRow(b, at, p, opcode);
    } else if opcode == 0xC6 || opcode == 0xC7 {
      MoveMemoryRows(b, at, p, opcode);
    } else if opcode == 0xD0 || opcode == 0xD1 {
      ShiftOneRows(b, at, p, opcode);
    } else if opcode == 0xD2 || opcode == 0xD3 {
      ShiftClRows(b, at, p, opcode);
    } else if opcode == 0xDB {
      OwnRows(b, at, p, opcode);
    } else if opcode < 0xE0 {
      FixedRowsC0(b, at, p, opcode);
    } else if opcode == 0xE4 {
      InByteRow(b, at, p, opcode);
    } else if opcode == 0xE5 {
      InRow(b, at, p, opcode);
    } else if opcode == 0xE6 {
      OutByteRow(b, at, p, opcode);
    } else if opcode == 0xE7 {
      OutRow(b, at, p, opcode);
    } else if opcode in {0xE8, 0xE9, 0xEB} {
      BranchRows(b, at, p, opcode);
    } else if opcode == 0xEC || opcode == 0xED {
      InDxRows(b, at, p, opcode);
    } else if opcode == 0xEE || opcode == 0xEF {
      OutDxRows(b, at, p, opcode);
    } else if opcode < 0xF0 {
      FixedRowsE0(b, at, p, opcode);
    } else if opcode == 0xF6 || opcode == 0xF7 {
      UnaryRows(b, at, p, opcode);
    } else if opcode == 0xFE || opcode == 0xFF {
      IndirectRows(b, at, p, opcode);
    } else {
      FixedRowsF0(b, at, p, opcode);
    }
  }

  // ---------------------------------------------------------------- the two-byte map

  /** Two-byte opcodes that take no further bytes, or none at all. */
  predicate IsSecondaryPlain(opcode: byte) {
    && !IsSecondaryModrm(opcode) && !(0x80 <= opcode <= 0x8F)
    && opcode !in {0x01, 0x20, 0x22, 0xA4, 0xAE, 0xB0, 0xB1, 0xBA, 0xC0, 0xC1}
  }

  lemma DispatchSecondary(b: seq<byte>, at: nat, p: Prefixes)
    requires at < |b|
    ensures b[at] == 0xA4 ==>
              Secondary(b, at, p) == ShiftDouble(b, at + 1, p)
    ensures b[at] == 0xBA ==>
              Secondary(b, at, p) == BitTestImmediate(b, at + 1, p)
    ensures b[at] == 0xAE ==>
              Secondary(b, at, p) == StateGroup(b, at + 1, p)
    ensures b[at] == 0xB0 || b[at] == 0xB1 ==>
              Secondary(b, at, p) == BinaryModrm(b, at + 1, p, Cmpxchg, b[at])
    ensures b[at] == 0xC0 || b[at] == 0xC1 ==>
              Secondary(b, at, p) == BinaryModrm(b, at + 1, p, Xadd, b[at] - 0xC0)
    ensures 0x80 <= b[at] <= 0x8F ==>
              Secondary(b, at, p) == Relative(b, at + 1, JumpCondition(ConditionFromCode(b[at])), Dword)
    ensures b[at] == 0x01 ==>
              Secondary(b, at, p) == SystemGroup(b, at + 1, p)
    ensures b[at] == 0x20 || b[at] == 0x22 ==>
              Secondary(b, at, p) == ControlMove(b, at + 1, p, b[at])
    ensures IsSecondaryModrm(b[at]) ==>
              Secondary(b, at, p) == SecondaryModrm(b, at + 1, p, b[at])
    ensures IsSecondaryPlain(b[at]) ==>
              Secondary(b, at, p) == SecondaryFixed(at + 1, p, b[at])
  {
    hide ShiftDouble, BitTestImmediate, StateGroup, SystemGroup, ControlMove, SecondaryModrm, SecondaryFixed,
         BinaryModrm, Relative, ModrmSized, ImmAt, RegisterOperand, SegmentsAre, ConditionFromCode, SizeFor;
  }

  lemma ShiftDoubleRowsTable(opcode: byte, modrm: byte)
    requires opcode == 0xA4
    ensures TwoByteTail(opcode) == ModrmTail(V, V)
    ensures TwoByteRow(opcode, modrm) == Row(Shld, [E(V), G(V), I(B)])
  {
  }

  lemma ShiftDoubleRows(b: seq<byte>, at: nat, p: Prefixes)
    requires at < |b| && b[at] == 0xA4
    ensures Secondary(b, at, p) == ByOpcode(b, at + 1, p, true, b[at])
  {
    hide SignedValue, ModrmSized, ImmAt, Secondary, SizeFor, RegisterOperand, ConditionFromCode, SegmentsAre,
         TwoByteRow, TwoByteTail;
    SizeFacts(p);
    DispatchSecondary(b, at, p);
    var opcode := b[at];
    ShiftDoubleRowsTable(opcode, if at + 1 < |b| then b[at + 1] else 0);
    var tail, size := TailOf(true, opcode), SizeFor(p, false);
    ModrmByte(b, at + 1, p, tail.rm.At(size), tail.reg.At(size));
  }

  lemma BitImmediateRowsTable(opcode: byte, modrm: byte)
    requires opcode == 0xBA
    ensures TwoByteTail(opcode) == ModrmTail(V, V)
    ensures TwoByteRow(opcode, modrm) == BitRow(Digit(modrm))
  {
  }

  lemma BitImmediateRows(b: seq<byte>, at: nat, p: Prefixes)
    requires at < |b| && b[at] == 0xBA
    ensures Secondary(b, at, p) == ByOpcode(b, at + 1, p, true, b[at])
  {
    hide SignedValue, ModrmSized, ImmAt, Secondary, SizeFor, RegisterOperand, ConditionFromCode, SegmentsAre,
         TwoByteRow, TwoByteTail;
    SizeFacts(p);
    DispatchSecondary(b, at, p);
    var opcode := b[at];
    BitImmediateRowsTable(opcode, if at + 1 < |b| then b[at + 1] else 0);
    var tail, size := TailOf(true, opcode), SizeFor(p, false);
    ModrmByte(b, at + 1, p, tail.rm.At(size), tail.reg.At(size));
  }

  lemma StateRowsTable(opcode: byte, modrm: byte)
    requires opcode == 0xAE
    ensures TwoByteTail(opcode) == ModrmTail(O, O)
    ensures TwoByteRow(opcode, modrm) == StateRow(modrm)
  {
  }

  lemma StateRows(b: seq<byte>, at: nat, p: Prefixes)
    requires at < |b| && b[at] == 0xAE
    ensures Secondary(b, at, p) == ByOpcode(b, at + 1, p, true, b[at])
  {
    hide SignedValue, ModrmSized, ImmAt, Secondary, SizeFor, RegisterOperand, ConditionFromCode, SegmentsAre,
         TwoByteRow, TwoByteTail;
    SizeFacts(p);
    DispatchSecondary(b, at, p);
    var opcode := b[at];
    StateRowsTable(opcode, if at + 1 < |b| then b[at + 1] else 0);
    var tail, size := TailOf(true, opcode), SizeFor(p, false);
    ModrmByte(b, at + 1, p, tail.rm.At(size), tail.reg.At(size));
  }

  lemma ExchangeRowsTable(opcode: byte, modrm: byte)
    requires opcode in {0xB0, 0xB1, 0xC0, 0xC1}
    ensures TwoByteTail(opcode) == (if opcode % 2 == 0 then ModrmTail(B, B) else ModrmTail(V, V))
    ensures TwoByteRow(opcode, modrm) == (var w := if opcode % 2 == 0 then B else V;
             Row(if opcode < 0xC0 then Cmpxchg else Xadd, [E(w), G(w)]))
  {
  }

  lemma ExchangeRows(b: seq<byte>, at: nat, p: Prefixes)
    requires at < |b| && b[at] in {0xB0, 0xB1, 0xC0, 0xC1}
    ensures Secondary(b, at, p) == ByOpcode(b, at + 1, p, true, b[at])
  {
    hide SignedValue, ModrmSized, ImmAt, Secondary, SizeFor, RegisterOperand, ConditionFromCode, SegmentsAre,
         TwoByteRow, TwoByteTail;
    SizeFacts(p);
    DispatchSecondary(b, at, p);
    var opcode := b[at];
    ExchangeRowsTable(opcode, if at + 1 < |b| then b[at + 1] else 0);
    var tail, size := TailOf(true, opcode), SizeFor(p, false);
    ModrmByte(b, at + 1, p, tail.rm.At(size), tail.reg.At(size));
  }

  lemma FarConditionRowsTable(opcode: byte, modrm: byte)
    requires 0x80 <= opcode <= 0x8F
    ensures TwoByteTail(opcode) == NoTail
    ensures TwoByteRow(opcode, modrm) == Row(JumpCondition(CONDITIONS[opcode % 16]), [J(D)])
  {
  }

  lemma FarConditionRows(b: seq<byte>, at: nat, p: Prefixes)
    requires at < |b| && 0x80 <= b[at] <= 0x8F
    ensures Secondary(b, at, p) == ByOpcode(b, at + 1, p, true, b[at])
  {
    hide ModrmSized, ImmAt, Secondary, SizeFor, RegisterOperand, ConditionFromCode, SegmentsAre, TwoByteRow,
         TwoByteTail;
    SizeFacts(p);
    ConditionNames(b[at]);
    DispatchSecondary(b, at, p);
    var opcode := b[at];
    FarConditionRowsTable(opcode, 0);
  }

  lemma SystemRowsTable(opcode: byte, modrm: byte)
    requires opcode == 0x01
    ensures TwoByteTail(opcode) == ModrmTail(Q, Q)
    ensures TwoByteRow(opcode, modrm) == SystemRow(modrm)
  {
  }

  lemma SystemRows(b: seq<byte>, at: nat, p: Prefixes)
    requires at < |b| && b[at] == 0x01
    ensures Secondary(b, at, p) == ByOpcode(b, at + 1, p, true, b[at])
  {
    hide SignedValue, ModrmSized, ImmAt, Secondary, SizeFor, RegisterOperand, ConditionFromCode, SegmentsAre,
         TwoByteRow, TwoByteTail;
    SizeFacts(p);
    DispatchSecondary(b, at, p);
    var opcode := b[at];
    SystemRowsTable(opcode, if at + 1 < |b| then b[at + 1] else 0);
    var tail, size := TailOf(true, opcode), SizeFor(p, false);
    ModrmByte(b, at + 1, p, tail.rm.At(size), tail.reg.At(size));
  }

  lemma ControlRowsTable(opcode: byte, modrm: byte)
    requires opcode == 0x20 || opcode == 0x22
    ensures TwoByteTail(opcode) == ByteTail
    ensures TwoByteRow(opcode, modrm) == (if modrm < 0xC0 then INVALID
             else Row(Mov, if opcode == 0x20 then [E(Q), ControlField] else [ControlField, E(Q)]))
  {
  }

  lemma ControlRows(b: seq<byte>, at: nat, p: Prefixes)
    requires at < |b| && (b[at] == 0x20 || b[at] == 0x22)
    ensures Secondary(b, at, p) == ByOpcode(b, at + 1, p, true, b[at])
  {
    hide SignedValue, ModrmSized, ImmAt, Secondary, SizeFor, RegisterOperand, ConditionFromCode, SegmentsAre,
         TwoByteRow, TwoByteTail;
    SizeFacts(p);
    DispatchSecondary(b, at, p);
    var opcode := b[at];
    ControlRowsTable(opcode, if at + 1 < |b| then b[at + 1] else 0);
  }

  lemma BitRowsTable(opcode: byte, modrm: byte)
    requires opcode in {0xA3, 0xAB, 0xB3, 0xBB}
    ensures TwoByteTail(opcode) == ModrmTail(V, V)
    ensures TwoByteRow(opcode, modrm)
         == Row(if opcode == 0xA3 then Bt else if opcode == 0xAB then Bts else if opcode == 0xB3 then Btr
                else Btc, [E(V), G(V)])
  {
  }

  lemma BitRows(b: seq<byte>, at: nat, p: Prefixes)
    requires at < |b| && b[at] in {0xA3, 0xAB, 0xB3, 0xBB}
    ensures Secondary(b, at, p) == ByOpcode(b, at + 1, p, true, b[at])
  {
    hide SignedValue, ModrmSized, ImmAt, Secondary, SizeFor, RegisterOperand, ConditionFromCode, SegmentsAre,
         TwoByteRow, TwoByteTail;
    SizeFacts(p);
    DispatchSecondary(b, at, p);
    var opcode := b[at];
    BitRowsTable(opcode, if at + 1 < |b| then b[at + 1] else 0);
    var tail, size := TailOf(true, opcode), SizeFor(p, false);
    ModrmByte(b, at + 1, p, tail.rm.At(size), tail.reg.At(size));
  }

  lemma ScanRowsTable(opcode: byte, modrm: byte)
    requires opcode in {0x1F, 0xAF, 0xBC, 0xBD}
    ensures TwoByteTail(opcode) == ModrmTail(V, V)
    ensures TwoByteRow(opcode, modrm) == (if opcode == 0x1F then Row(Nop, [])
             else Row(if opcode == 0xAF then Imul else if opcode == 0xBC then Bsf else Bsr, [G(V), E(V)]))
  {
  }

  lemma NopAndImulRows(b: seq<byte>, at: nat, p: Prefixes)
    requires at < |b| && (b[at] == 0x1F || b[at] == 0xAF)
    ensures Secondary(b, at, p) == ByOpcode(b, at + 1, p, true, b[at])
  {
    hide SignedValue, ModrmSized, ImmAt, Secondary, SizeFor, RegisterOperand, ConditionFromCode, SegmentsAre,
         TwoByteRow, TwoByteTail;
    SizeFacts(p);
    DispatchSecondary(b, at, p);
    var opcode := b[at];
    ScanRowsTable(opcode, if at + 1 < |b| then b[at + 1] else 0);
    var tail, size := TailOf(true, opcode), SizeFor(p, false);
    ModrmByte(b, at + 1, p, tail.rm.At(size), tail.reg.At(size));
  }

  lemma ScanRows(b: seq<byte>, at: nat, p: Prefixes)
    requires at < |b| && (b[at] == 0xBC || b[at] == 0xBD)
    ensures Secondary(b, at, p) == ByOpcode(b, at + 1, p, true, b[at])
  {
    hide SignedValue, ModrmSized, ImmAt, Secondary, SizeFor, RegisterOperand, ConditionFromCode, SegmentsAre,
         TwoByteRow, TwoByteTail;
    SizeFacts(p);
    DispatchSecondary(b, at, p);
    var opcode := b[at];
    ScanRowsTable(opcode, if at + 1 < |b| then b[at + 1] else 0);
    var tail, size := TailOf(true, opcode), SizeFor(p, false);
    ModrmByte(b, at + 1, p, tail.rm.At(size), tail.reg.At(size));
  }

  lemma MoveConditionRowsTable(opcode: byte, modrm: byte)
    requires 0x40 <= opcode <= 0x4F
    ensures TwoByteTail(opcode) == ModrmTail(V, V)
    ensures TwoByteRow(opcode, modrm) == Row(MoveCondition(CONDITIONS[opcode % 16]), [G(V), E(V)])
  {
  }

  lemma MoveConditionRows(b: seq<byte>, at: nat, p: Prefixes)
    requires at < |b| && 0x40 <= b[at] <= 0x4F
    ensures Secondary(b, at, p) == ByOpcode(b, at + 1, p, true, b[at])
  {
    hide SignedValue, ModrmSized, ImmAt, Secondary, SizeFor, RegisterOperand, ConditionFromCode, SegmentsAre,
         TwoByteRow, TwoByteTail;
    SizeFacts(p);
    ConditionNames(b[at]);
    DispatchSecondary(b, at, p);
    var opcode := b[at];
    MoveConditionRowsTable(opcode, if at + 1 < |b| then b[at + 1] else 0);
    var tail, size := TailOf(true, opcode), SizeFor(p, false);
    ModrmByte(b, at + 1, p, tail.rm.At(size), tail.reg.At(size));
  }

  lemma SetConditionRowsTable(opcode: byte, modrm: byte)
    requires 0x90 <= opcode <= 0x9F
    ensures TwoByteTail(opcode) == ModrmTail(B, B)
    ensures TwoByteRow(opcode, modrm) == Row(SetCondition(CONDITIONS[opcode % 16]), [E(B)])
  {
  }

  lemma SetConditionRows(b: seq<byte>, at: nat, p: Prefixes)
    requires at < |b| && 0x90 <= b[at] <= 0x9F
    ensures Secondary(b, at, p) == ByOpcode(b, at + 1, p, true, b[at])
  {
    hide SignedValue, ModrmSized, ImmAt, Secondary, SizeFor, RegisterOperand, ConditionFromCode, SegmentsAre,
         TwoByteRow, TwoByteTail;
    SizeFacts(p);
    ConditionNames(b[at]);
    DispatchSecondary(b, at, p);
    var opcode := b[at];
    SetConditionRowsTable(opcode, if at + 1 < |b| then b[at + 1] else 0);
    var tail, size := TailOf(true, opcode), SizeFor(p, false);
    ModrmByte(b, at + 1, p, tail.rm.At(size), tail.reg.At(size));
  }

  lemma ExtendRowsTable(opcode: byte, modrm: byte)
    requires opcode in {0xB6, 0xB7, 0xBE, 0xBF}
    ensures TwoByteTail(opcode) == ModrmTail(if opcode % 2 == 0 then B else W, V)
    ensures TwoByteRow(opcode, modrm)
         == Row(if opcode < 0xBE then Movzx else Movsx, [G(V), E(if opcode % 2 == 0 then B else W)])
  {
  }

  lemma ExtendRows(b: seq<byte>, at: nat, p: Prefixes)
    requires at < |b| && b[at] in {0xB6, 0xB7, 0xBE, 0xBF}
    ensures Secondary(b, at, p) == ByOpcode(b, at + 1, p, true, b[at])
  {
    hide SignedValue, ModrmSized, ImmAt, Secondary, SizeFor, RegisterOperand, ConditionFromCode, SegmentsAre,
         TwoByteRow, TwoByteTail;
    SizeFacts(p);
    DispatchSecondary(b, at, p);
    var opcode := b[at];
    ExtendRowsTable(opcode, if at + 1 < |b| then b[at + 1] else 0);
    var tail, size := TailOf(true, opcode), SizeFor(p, false);
    ModrmByte(b, at + 1, p, tail.rm.At(size), tail.reg.At(size));
  }

  lemma TaskRowsTable(opcode: byte, modrm: byte)
    requires opcode == 0x00
    ensures TwoByteTail(opcode) == ModrmTail(W, W)
    ensures TwoByteRow(opcode, modrm) == (if Digit(modrm) == 3 then Row(Ltr, [E(W)]) else UNSUPPORTED)
  {
  }

  lemma TaskRows(b: seq<byte>, at: nat, p: Prefixes)
    requires at < |b| && b[at] == 0x00
    ensures Secondary(b, at, p) == ByOpcode(b, at + 1, p, true, b[at])
  {
    hide SignedValue, ModrmSized, ImmAt, Secondary, SizeFor, RegisterOperand, ConditionFromCode, SegmentsAre,
         TwoByteRow, TwoByteTail;
    SizeFacts(p);
    DispatchSecondary(b, at, p);
    var opcode := b[at];
    TaskRowsTable(opcode, if at + 1 < |b| then b[at + 1] else 0);
    var tail, size := TailOf(true, opcode), SizeFor(p, false);
    ModrmByte(b, at + 1, p, tail.rm.At(size), tail.reg.At(size));
  }

  lemma PlainRows(b: seq<byte>, at: nat, p: Prefixes)
    requires at < |b| && IsSecondaryPlain(b[at])
    ensures Secondary(b, at, p) == ByOpcode(b, at + 1, p, true, b[at])
  {
    hide SignedValue, ModrmSized, ImmAt, Secondary, SizeFor, RegisterOperand, ConditionFromCode, SegmentsAre;
    SizeFacts(p);
    DispatchSecondary(b, at, p);
    var opcode := b[at];
  }

  /** Every two-byte opcode decodes as its row says, refusals included. */
  lemma SecondaryIsTable(b: seq<byte>, at: nat, p: Prefixes)
    ensures Secondary(b, at, p)
         == if at < |b| then ByOpcode(b, at + 1, p, true, b[at]) else Err(Truncated, at)
  {
    if at >= |b| {
      return;
    }
    hide Secondary, ByOpcode;
    var opcode := b[at];
    if opcode == 0xA4 {
      ShiftDoubleRows(b, at, p);
    } else if opcode == 0xBA {
      BitImmediateRows(b, at, p);
    } else if opcode == 0xAE {
      StateRows(b, at, p);
    } else if opcode in {0xB0, 0xB1, 0xC0, 0xC1} {
      ExchangeRows(b, at, p);
    } else if 0x80 <= opcode <= 0x8F {
      FarConditionRows(b, at, p);
    } else if opcode == 0x01 {
      SystemRows(b, at, p);
    } else if opcode == 0x20 || opcode == 0x22 {
      ControlRows(b, at, p);
    } else if opcode in {0xA3, 0xAB, 0xB3, 0xBB} {
      BitRows(b, at, p);
    } else if opcode == 0x1F || opcode == 0xAF {
      NopAndImulRows(b, at, p);
    } else if opcode == 0xBC || opcode == 0xBD {
      ScanRows(b, at, p);
    } else if 0x40 <= opcode <= 0x4F {
      MoveConditionRows(b, at, p);
    } else if 0x90 <= opcode <= 0x9F {
      SetConditionRows(b, at, p);
    } else if opcode in {0xB6, 0xB7, 0xBE, 0xBF} {
      ExtendRows(b, at, p);
    } else if opcode == 0x00 {
      TaskRows(b, at, p);
    } else {
      PlainRows(b, at, p);
    }
  }

  /** The decoder is the opcode table, on every input: instructions, lengths and errors. */
  lemma DecodeIsTable(b: seq<byte>)
    ensures Decode(b) == ByTable(b)
  {
    hide Primary, Secondary, ByOpcode;
    var prefixes := ReadPrefixes(b, 0, NO_PREFIXES);
    hide ReadPrefixes;
    if prefixes.Ok? && prefixes.next < |b| {
      var p, at := prefixes.value, prefixes.next;
      if b[at] == 0x0F {
        PrimaryTwoByte(b, at + 1, p);
        SecondaryIsTable(b, at + 1, p);
      } else {
        PrimaryIsTable(b, at + 1, p, b[at]);
      }
    }
  }

  lemma PrimaryTwoByte(b: seq<byte>, at: nat, p: Prefixes)
    ensures Primary(b, at, p, 0x0F) == Secondary(b, at, p)
  {
    hide Secondary, ModrmSized, ImmAt, SizeFor, BinaryModrm, Relative, PrimaryFixed;
  }
}
