/** Flag arithmetic of the interpreter: additions, subtractions and the conditions that read their flags. */
module CpuFlags {
  import opened Bytes
  import opened X86

  /** The arithmetic flags; the other bits of the flags register are kept in `rest`. */
  datatype Flags = Flags(cf: bool, pf: bool, af: bool, zf: bool, sf: bool, of: bool, rest: nat)

  datatype Operation = Add | Adc | Sub | Sbb | Cmp | And | Or | Xor | Test {
    predicate Logical() { And? || Or? || Xor? || Test? }

    /** What a logical operation does to one pair of bits. */
    predicate OnBits(x: bool, y: bool) { if Or? then x || y else if Xor? then x != y else x && y }
  }

  /** The widths the interpreter computes with. */
  predicate Scalar(size: OperandSize) { size != Oword }

  function Bit(b: bool): nat { if b then 1 else 0 }

  predicate SignBit(v: nat, size: OperandSize)
    requires Scalar(size)
  {
    v >= size.Limit() / 2
  }

  function Ones(b: nat): nat { if b == 0 then 0 else b % 2 + Ones(b / 2) }

  function SignedValue(v: nat, size: OperandSize): int
    requires Scalar(size) && v < size.Limit()
  {
    if SignBit(v, size) then v - size.Limit() else v
  }

  predicate FitsSigned(v: int, size: OperandSize)
    requires Scalar(size)
  {
    0 - size.Limit() / 2 <= v < size.Limit() / 2
  }

  /** The adder and the flags it sets. */
  class Alu {
    var flags: Flags

    method CommonFlags(result: nat, size: OperandSize)
      requires Scalar(size) && result < size.Limit()
      modifies this
      ensures flags == old(flags).(zf := result == 0, sf := SignBit(result, size), pf := Ones(result % 256) % 2 == 0)
    {
      flags := flags.(zf := false, sf := false, pf := false);
      if result == 0 {
        flags := flags.(zf := true);
      }
      if SignBit(result, size) {
        flags := flags.(sf := true);
      }
      if Ones(result % 256) % 2 == 0 {
        flags := flags.(pf := true);
      }
    }

    /** Addition with carry-in: the result and the carry out together are the whole sum. */
    method AddFlags(left: u64, right: u64, carry: nat, size: OperandSize) returns (result: nat)
      requires Scalar(size) && left < size.Limit() && right < size.Limit() && carry <= 1
      modifies this
      ensures (result, flags) == Sum(left, right, carry, size, old(flags))
    {
      hide Ones, OperandSize.Limit;
      var intermediate := (left + right) % 0x1_0000_0000_0000_0000;
      var carry1 := left + right >= 0x1_0000_0000_0000_0000;
      var full := (intermediate + carry) % 0x1_0000_0000_0000_0000;
      var carry2 := intermediate + carry >= 0x1_0000_0000_0000_0000;
      AdderWraps(left, right, carry, size);
      result := full % size.Limit();
      var carryOut := carry1 || carry2 || left + right + carry > size.Limit() - 1;
      hide *;
      CommonFlags(result, size);
      flags := flags.(cf := false, af := false, of := false);
      if carryOut {
        flags := flags.(cf := true);
      }
      if (left / 16 + right / 16 + result / 16) % 2 != 0 {
        flags := flags.(af := true);
      }
      if SignBit(left, size) == SignBit(right, size) && SignBit(left, size) != SignBit(result, size) {
        flags := flags.(of := true);
      }
      SumIs(left, right, carry, size, old(flags), result, flags);
    }

    /** Subtraction with borrow-in. */
    method SubFlags(left: u64, right: u64, borrow: nat, size: OperandSize) returns (result: nat)
      requires Scalar(size) && left < size.Limit() && right < size.Limit() && borrow <= 1
      modifies this
      ensures (result, flags) == Difference(left, right, borrow, size, old(flags))
    {
      hide Ones;
      SubtractorWraps(left, right, borrow, size);
      result := (left - right - borrow) % 0x1_0000_0000_0000_0000 % size.Limit();
      CommonFlags(result, size);
      flags := flags.(cf := false, af := false, of := false);
      if left < right + borrow {
        flags := flags.(cf := true);
      }
      if (left / 16 + right / 16 + result / 16) % 2 != 0 {
        flags := flags.(af := true);
      }
      if SignBit(left, size) != SignBit(right, size) && SignBit(left, size) != SignBit(result, size) {
        flags := flags.(of := true);
      }
    }

    method LogicalFlags(result: nat, size: OperandSize)
      requires Scalar(size) && result < size.Limit()
      modifies this
      ensures flags == old(flags).(cf := false, of := false, af := false, zf := result == 0,
                                   sf := SignBit(result, size), pf := Ones(result % 256) % 2 == 0)
    {
      flags := flags.(cf := false, of := false, af := false);
      CommonFlags(result, size);
    }

    /**
     One instruction on operand values: a narrower source is extended by its sign, and compare and
     test compute without writing.
     */
    method Binary(operation: Operation, leftValue: u64, rightValue: u64, sourceSize: OperandSize, size: OperandSize)
      returns (result: nat, writes: bool)
      requires Scalar(size) && Scalar(sourceSize)
      modifies this
      ensures (result, flags)
           == Execute(operation, leftValue % size.Limit(), Extended(rightValue, sourceSize, size), size, old(flags))
      ensures writes == !(operation.Cmp? || operation.Test?)
    {
      hide Ones, Bitwise, Sum, Difference;
      var left := leftValue % size.Limit();
      var right: nat := rightValue;
      if sourceSize.Bytes() < size.Bytes() {
        right := SignExtend(right, sourceSize);
      }
      right := right % size.Limit();
      var carry := if flags.cf then 1 else 0;
      match operation {
        case Add => result := AddFlags(left, right, 0, size);
        case Adc => result := AddFlags(left, right, carry, size);
        case Sub => result := SubFlags(left, right, 0, size);
        case Cmp => result := SubFlags(left, right, 0, size);
        case Sbb => result := SubFlags(left, right, carry, size);
        case _ =>
          BitwiseBound(operation, left, right, size);
          result := Bitwise(operation, left, right);
          LogicalFlags(result, size);
      }
      writes := !(operation.Cmp? || operation.Test?);
    }
  }

  // ---------------------------------------------------------------- operands

  /** Reinterprets the low bits of a value as signed and widens it to 64 bits. */
  function SignExtend(v: nat, size: OperandSize): u64
    requires Scalar(size)
  {
    var low := v % size.Limit();
    if SignBit(low, size) then low + (0x1_0000_0000_0000_0000 - size.Limit()) else low
  }

  /** A source operand as an instruction of the given width sees it. */
  function Extended(v: nat, sourceSize: OperandSize, size: OperandSize): nat
    requires Scalar(size) && Scalar(sourceSize)
  {
    (if sourceSize.Bytes() < size.Bytes() then SignExtend(v, sourceSize) else v) % size.Limit()
  }

  /** Widening keeps the signed value; a source that is wide enough is only cut. */
  lemma ExtendedExact(v: nat, sourceSize: OperandSize, size: OperandSize)
    requires Scalar(size) && Scalar(sourceSize)
    ensures Extended(v, sourceSize, size) < size.Limit()
    ensures sourceSize.Bytes() < size.Bytes() ==>
              SignedValue(Extended(v, sourceSize, size), size) == SignedValue(v % sourceSize.Limit(), sourceSize)
    ensures sourceSize.Bytes() >= size.Bytes() ==> Extended(v, sourceSize, size) == v % size.Limit()
  {
    if sourceSize.Bytes() < size.Bytes() {
      var low, m, n := v % sourceSize.Limit(), sourceSize.Limit(), size.Limit();
      var k := if size == Word then 0x1_0000_0000_0000 else if size == Dword then 0x1_0000_0000 else 1;
      assert k * n == 0x1_0000_0000_0000_0000 && 2 * m <= n;
      if SignBit(low, sourceSize) {
        ModUnique(low + (k * n - m), n, k - 1, low + n - m);
      } else {
        ModUnique(low, n, 0, low);
      }
    }
  }

  // ---------------------------------------------------------------- logical operations

  predicate BitAt(v: nat, k: nat) { if k == 0 then v % 2 == 1 else BitAt(v / 2, k - 1) }

  function Bitwise(o: Operation, a: nat, b: nat): nat
    decreases a + b
  {
    if a == 0 && b == 0 then 0 else Bit(o.OnBits(a % 2 == 1, b % 2 == 1)) + 2 * Bitwise(o, a / 2, b / 2)
  }

  /** Each bit of the result depends on the two bits at its place and on nothing else. */
  lemma {:induction false} BitwiseBits(o: Operation, a: nat, b: nat, k: nat)
    ensures BitAt(Bitwise(o, a, b), k) == o.OnBits(BitAt(a, k), BitAt(b, k))
    decreases k
  {
    BitwiseStep(o, a, b);
    hide Bitwise;
    if a == 0 && b == 0 {
      ZeroBits(k);
    } else if k == 0 {
    } else {
      BitwiseBits(o, a / 2, b / 2, k - 1);
    }
  }

  /** The four logical operations, bit by bit. */
  lemma LogicalBits(a: nat, b: nat, k: nat)
    ensures BitAt(Bitwise(Operation.And, a, b), k) <==> BitAt(a, k) && BitAt(b, k)
    ensures BitAt(Bitwise(Operation.Test, a, b), k) <==> BitAt(a, k) && BitAt(b, k)
    ensures BitAt(Bitwise(Operation.Or, a, b), k) <==> BitAt(a, k) || BitAt(b, k)
    ensures BitAt(Bitwise(Operation.Xor, a, b), k) <==> BitAt(a, k) != BitAt(b, k)
  {
    hide Bitwise, BitAt;
    BitwiseBits(Operation.And, a, b, k);
    BitwiseBits(Operation.Test, a, b, k);
    BitwiseBits(Operation.Or, a, b, k);
    BitwiseBits(Operation.Xor, a, b, k);
  }

  lemma BitwiseStep(o: Operation, a: nat, b: nat)
    ensures Bitwise(o, 0, 0) == 0
    ensures a > 0 || b > 0 ==>
              && (Bitwise(o, a, b) % 2 == 1 <==> o.OnBits(a % 2 == 1, b % 2 == 1))
              && Bitwise(o, a, b) / 2 == Bitwise(o, a / 2, b / 2)
  {
    if a > 0 || b > 0 {
      var bit, rest := Bit(o.OnBits(a % 2 == 1, b % 2 == 1)), Bitwise(o, a / 2, b / 2);
      assert Bitwise(o, a, b) == bit + 2 * rest;
      hide *;
      ModUnique(bit + 2 * rest, 2, rest, bit);
    }
  }

  lemma {:induction false} ZeroBits(k: nat)
    ensures !BitAt(0, k)
  {
    if k == 0 {
    } else {
      ZeroBits(k - 1);
    }
  }

  lemma {:induction false} BitwiseBelow(o: Operation, a: nat, b: nat, n: nat)
    requires a < Power(2, n) && b < Power(2, n)
    ensures Bitwise(o, a, b) < Power(2, n)
  {
    if n == 0 {
    } else {
      BitwiseBelow(o, a / 2, b / 2, n - 1);
    }
  }

  lemma ByteLimit()
    ensures Power(2, 8) == 0x100
  {
  }

  lemma LimitIsPower(size: OperandSize)
    requires Scalar(size)
    ensures size.Limit() == Power(2, 8 * size.Bytes())
  {
    hide Power;
    ByteLimit();
    PowerSum(8, 8);
    PowerSum(16, 16);
    PowerSum(32, 32);
  }

  /** A logical operation stays inside its width. */
  lemma BitwiseBound(o: Operation, left: nat, right: nat, size: OperandSize)
    requires Scalar(size) && left < size.Limit() && right < size.Limit()
    ensures Bitwise(o, left, right) < size.Limit()
  {
    hide Power, Bitwise;
    LimitIsPower(size);
    BitwiseBelow(o, left, right, 8 * size.Bytes());
  }

  lemma {:induction false} PowerSum(m: nat, n: nat)
    ensures Power(2, m + n) == Power(2, m) * Power(2, n)
  {
    if m == 0 {
    } else {
      PowerSum(m - 1, n);
    }
  }

  lemma {:induction false} BitwiseSelf(o: Operation, a: nat)
    requires o.Logical()
    ensures Bitwise(o, a, a) == if o.Xor? then 0 else a
  {
    if a == 0 {
    } else {
      BitwiseSelf(o, a / 2);
    }
  }

  /** Testing a value against itself is comparing it with zero: the same result and the same flags. */
  lemma TestIsCompareWithZero(x: nat, size: OperandSize, f: Flags)
    requires Scalar(size) && x < size.Limit()
    ensures Execute(Operation.Test, x, x, size, f) == Execute(Operation.Cmp, x, 0, size, f)
  {
    hide Ones, Bitwise;
    BitwiseSelf(Operation.Test, x);
    OnceAround(x, size.Limit());
  }

  // ---------------------------------------------------------------- what the adder computes

  function WithFlags(f: Flags, result: nat, cf: bool, of: bool, left: nat, right: nat, size: OperandSize): Flags
    requires Scalar(size)
  {
    f.(cf := cf, pf := Ones(result % 256) % 2 == 0, af := (left / 16 + right / 16 + result / 16) % 2 != 0,
    zf := result == 0, sf := SignBit(result, size), of := of)
  }

  function Sum(left: nat, right: nat, carry: nat, size: OperandSize, f: Flags): (r: (nat, Flags))
    requires Scalar(size)
  {
    var result := (left + right + carry) % size.Limit();
    (result, WithFlags(f, result, left + right + carry >= size.Limit(),
                       SignBit(left, size) == SignBit(right, size)
                           && SignBit(left, size) != SignBit(result, size), left, right, size))
  }

  function Difference(left: nat, right: nat, borrow: nat, size: OperandSize, f: Flags): (r: (nat, Flags))
    requires Scalar(size)
  {
    var result := (left - right - borrow) % size.Limit();
    (result, WithFlags(f, result, left < right + borrow,
                       SignBit(left, size) != SignBit(right, size)
                           && SignBit(left, size) != SignBit(result, size), left, right, size))
  }

  lemma SumIs(left: nat, right: nat, carry: nat, size: OperandSize, f: Flags, result: nat, g: Flags)
    requires Scalar(size) && result == (left + right + carry) % size.Limit()
    requires g == f.(cf := left + right + carry >= size.Limit(), pf := Ones(result % 256) % 2 == 0,
                  af := (left / 16 + right / 16 + result / 16) % 2 != 0, zf := result == 0, sf := SignBit(result, size),
                  of := SignBit(left, size) == SignBit(right, size) && SignBit(left, size) != SignBit(result, size))
    ensures (result, g) == Sum(left, right, carry, size, f)
  {
    hide Ones, SignBit, OperandSize.Limit;
  }

  function Execute(operation: Operation, left: nat, right: nat, size: OperandSize, f: Flags): (r: (nat, Flags))
    requires Scalar(size)
  {
    match operation
    case Add => Sum(left, right, 0, size, f)
    case Adc => Sum(left, right, Bit(f.cf), size, f)
    case Sub => Difference(left, right, 0, size, f)
    case Cmp => Difference(left, right, 0, size, f)
    case Sbb => Difference(left, right, Bit(f.cf), size, f)
    case _ =>
      var result := Bitwise(operation, left, right);
      (result, f.(cf := false, of := false, af := false, zf := result == 0, sf := SignBit(result, size),
       pf := Ones(result % 256) % 2 == 0))
  }

  /** Adding in 64 bits first and truncating then gives the same as adding at the width itself. */
  lemma AdderWraps(left: u64, right: u64, carry: nat, size: OperandSize)
    requires Scalar(size) && left < size.Limit() && right < size.Limit() && carry <= 1
    ensures var full := ((left + right) % 0x1_0000_0000_0000_0000 + carry) % 0x1_0000_0000_0000_0000;
            full % size.Limit() == (left + right + carry) % size.Limit()
    ensures left + right >= 0x1_0000_0000_0000_0000
            || (left + right) % 0x1_0000_0000_0000_0000 + carry >= 0x1_0000_0000_0000_0000
            ==> left + right + carry >= size.Limit()
  {
    var m := 0x1_0000_0000_0000_0000;
    OnceAround(left + right, m);
    OnceAround((left + right) % m + carry, m);
    OnceAround(left + right + carry, size.Limit());
    OnceAround(((left + right) % m + carry) % m, size.Limit());
  }

  lemma SubtractorWraps(left: u64, right: u64, borrow: nat, size: OperandSize)
    requires Scalar(size) && left < size.Limit() && right < size.Limit() && borrow <= 1
    ensures (left - right - borrow) % 0x1_0000_0000_0000_0000 % size.Limit() == (left - right - borrow) % size.Limit()
  {
    var m, d := 0x1_0000_0000_0000_0000, left - right - borrow;
    OnceAround(d, m);
    if d < 0 {
      var k := if size == Byte then 0x100_0000_0000_0000 else if size == Word then 0x1_0000_0000_0000
               else if size == Dword then 0x1_0000_0000 else 1;
      ModUnique(d + m, size.Limit(), k - 1, d + size.Limit());
      OnceAround(d, size.Limit());
    }
  }

  /** A value less than one modulus away is reduced by adding or taking the modulus once. */
  lemma OnceAround(x: int, m: nat)
    requires m > 0 && 0 - m <= x < 2 * m
    ensures x % m == if x < 0 then x + m else if x < m then x else x - m
  {
    if x < 0 {
      ModUnique(x + m, m, 0, x + m);
      assert (x + m) % m == x % m;
    } else if x < m {
      ModUnique(x, m, 0, x);
    } else {
      ModUnique(x, m, 1, x - m);
    }
  }

  lemma Halves(size: OperandSize)
    requires Scalar(size)
    ensures size.Limit() == 2 * (size.Limit() / 2) && size.Limit() / 2 > 1
  {
  }

  /** Overflow of a sum, by the three sign bits. */
  lemma SumOverflow(l: nat, r: nat, carry: nat, result: nat, half: nat)
    requires half > 1 && l < 2 * half && r < 2 * half && carry <= 1
    requires result == (if l + r + carry < 2 * half then l + r + carry else l + r + carry - 2 * half)
    ensures var sl, sr := if l >= half then l - 2 * half else l, if r >= half then r - 2 * half else r;
            ((l >= half) == (r >= half) && (l >= half) != (result >= half)) <==> !(0 - half <= sl + sr + carry < half)
  {
  }

  lemma DifferenceOverflow(l: nat, r: nat, borrow: nat, result: nat, half: nat)
    requires half > 1 && l < 2 * half && r < 2 * half && borrow <= 1
    requires result == (if l - r - borrow < 0 then l - r - borrow + 2 * half else l - r - borrow)
    ensures var sl, sr := if l >= half then l - 2 * half else l, if r >= half then r - 2 * half else r;
            ((l >= half) != (r >= half) && (l >= half) != (result >= half)) <==> !(0 - half <= sl - sr - borrow < half)
  {
  }

  /** A result that is the sum or the difference up to a multiple of 32, cut into nibbles. */
  lemma SixteensParity(q: int, low: nat, carried: nat, m: int, d: int, result: nat)
    requires low < 16 && carried <= 1 && result == 16 * (q + carried - 2 * m) + low
    ensures (q + 2 * d + result / 16) % 2 != 0 <==> carried == 1
  {
    ModUnique(result, 16, q + carried - 2 * m, low);
  }

  lemma SumSixteens(left: nat, right: nat, carry: nat, result: nat, m: nat)
    requires carry <= 1 && (result == left + right + carry || result == left + right + carry - 32 * m)
    ensures (left / 16 + right / 16 + result / 16) % 2 != 0 <==> left % 16 + right % 16 + carry >= 16
  {
    var low := left % 16 + right % 16 + carry;
    SixteensParity(left / 16 + right / 16, low - 16 * Bit(low >= 16), Bit(low >= 16),
                   if result == left + right + carry then 0 else m, 0, result);
  }

  lemma DifferenceSixteens(left: nat, right: nat, borrow: nat, result: nat, m: nat)
    requires borrow <= 1 && (result == left - right - borrow || result == left - right - borrow + 32 * m)
    ensures (left / 16 + right / 16 + result / 16) % 2 != 0 <==> left % 16 < right % 16 + borrow
  {
    var low := left % 16 - right % 16 - borrow;
    var b := Bit(low < 0);
    SixteensParity(left / 16 - right / 16 - 2 * b, low + 16 * b, b,
                   if result == left - right - borrow then 0 else 0 - m, right / 16 + b, result);
  }

  lemma LimitSixteens(size: OperandSize) returns (m: nat)
    requires Scalar(size)
    ensures size.Limit() == 32 * m && m > 0
  {
    m := size.Limit() / 32;
  }

  /** The auxiliary flag is the carry, or the borrow, out of the low four bits. */
  lemma AuxiliaryExact(left: nat, right: nat, carry: nat, size: OperandSize, f: Flags)
    requires Scalar(size) && left < size.Limit() && right < size.Limit() && carry <= 1
    ensures Sum(left, right, carry, size, f).1.af <==> left % 16 + right % 16 + carry >= 16
    ensures Difference(left, right, carry, size, f).1.af <==> left % 16 < right % 16 + carry
  {
    hide Ones, OperandSize.Limit, SignBit;
    var m := LimitSixteens(size);
    OnceAround(left + right + carry, size.Limit());
    OnceAround(left - right - carry, size.Limit());
    SumSixteens(left, right, carry, Sum(left, right, carry, size, f).0, m);
    DifferenceSixteens(left, right, carry, Difference(left, right, carry, size, f).0, m);
  }

  /** The carry makes up for the truncation, and overflow says that the signed sum does not fit. */
  lemma SumExact(left: nat, right: nat, carry: nat, size: OperandSize, f: Flags)
    requires Scalar(size) && left < size.Limit() && right < size.Limit() && carry <= 1
    ensures var (result, g) := Sum(left, right, carry, size, f);
            && result < size.Limit() && result + size.Limit() * Bit(g.cf) == left + right + carry
            && (g.of <==> !FitsSigned(SignedValue(left, size) + SignedValue(right, size) + carry, size))
  {
    hide Ones;
    Halves(size);
    hide OperandSize.Limit;
    OnceAround(left + right + carry, size.Limit());
    SumOverflow(left, right, carry, Sum(left, right, carry, size, f).0, size.Limit() / 2);
  }

  lemma DifferenceExact(left: nat, right: nat, borrow: nat, size: OperandSize, f: Flags)
    requires Scalar(size) && left < size.Limit() && right < size.Limit() && borrow <= 1
    ensures var (result, g) := Difference(left, right, borrow, size, f);
            && result < size.Limit() && result == left - right - borrow + size.Limit() * Bit(g.cf)
            && (g.of <==> !FitsSigned(SignedValue(left, size) - SignedValue(right, size) - borrow, size))
  {
    hide Ones;
    Halves(size);
    hide OperandSize.Limit;
    OnceAround(left - right - borrow, size.Limit());
    DifferenceOverflow(left, right, borrow, Difference(left, right, borrow, size, f).0, size.Limit() / 2);
  }

  // ---------------------------------------------------------------- conditions

  predicate Holds(c: Condition, f: Flags) {
    match c
    case Overflow => f.of
    case NotOverflow => !f.of
    case Below => f.cf
    case AboveOrEqual => !f.cf
    case Equal => f.zf
    case NotEqual => !f.zf
    case BelowOrEqual => f.cf || f.zf
    case Above => !f.cf && !f.zf
    case Sign => f.sf
    case NotSign => !f.sf
    case Parity => f.pf
    case NotParity => !f.pf
    case Less => f.sf != f.of
    case GreaterOrEqual => f.sf == f.of
    case LessOrEqual => f.zf || f.sf != f.of
    case Greater => !f.zf && f.sf == f.of
  }

  /** After a compare every ordering condition is the comparison of the operands it is named for. */
  lemma CompareConditions(left: nat, right: nat, size: OperandSize, f: Flags)
    requires Scalar(size) && left < size.Limit() && right < size.Limit()
    ensures var g := Execute(Operation.Cmp, left, right, size, f).1;
            var l, r := SignedValue(left, size), SignedValue(right, size);
            && (Holds(Equal, g) <==> left == right) && (Holds(NotEqual, g) <==> left != right)
            && (Holds(Below, g) <==> left < right) && (Holds(AboveOrEqual, g) <==> left >= right)
            && (Holds(BelowOrEqual, g) <==> left <= right) && (Holds(Above, g) <==> left > right)
            && (Holds(Less, g) <==> l < r) && (Holds(GreaterOrEqual, g) <==> l >= r)
            && (Holds(LessOrEqual, g) <==> l <= r) && (Holds(Greater, g) <==> l > r)
  {
    hide Execute, Difference, SignedValue;
    CompareFlags(left, right, size, f);
  }

  lemma CompareFlags(left: nat, right: nat, size: OperandSize, f: Flags)
    requires Scalar(size) && left < size.Limit() && right < size.Limit()
    ensures var g := Execute(Operation.Cmp, left, right, size, f).1;
            var l, r := SignedValue(left, size), SignedValue(right, size);
            && (g.zf <==> left == right) && (g.cf <==> left < right)
            && (g.sf != g.of <==> l < r) && (l == r <==> left == right)
  {
    hide Ones;
    Halves(size);
    hide OperandSize.Limit;
    OnceAround(left - right, size.Limit());
    CompareSigns(left, right, Difference(left, right, 0, size, f).0, size.Limit() / 2);
  }

  /** The bits set in the low byte. */
  function LowOnes(v: nat, n: nat): set<nat> { set k: nat | k < n && BitAt(v, k) }

  lemma {:induction false} OnesCounted(v: nat, n: nat)
    requires v < Power(2, n)
    ensures Ones(v) == |LowOnes(v, n)|
  {
    if n == 0 {
    } else {
      OnesCounted(v / 2, n - 1);
      Shifted(v, n);
    }
  }

  lemma OneMore(v: nat, n: nat)
    ensures LowOnes(v, 0) == {}
    ensures |LowOnes(v, n + 1)| == |LowOnes(v, n)| + Bit(BitAt(v, n))
  {
    hide BitAt;
    assert LowOnes(v, n + 1) == LowOnes(v, n) + if BitAt(v, n) then {n} else {};
  }

  /** Dropping the lowest bit moves the others down one place. */
  lemma {:induction false} Shifted(v: nat, n: nat)
    requires n > 0
    ensures |LowOnes(v, n)| == v % 2 + |LowOnes(v / 2, n - 1)|
  {
    hide LowOnes;
    OneMore(v, n - 1);
    if n == 1 {
      OneMore(v / 2, 0);
    } else {
      Shifted(v, n - 1);
      OneMore(v / 2, n - 2);
    }
  }

  /** The low byte has the low eight bits. */
  lemma {:induction false} ByteBits(v: nat, n: nat, k: nat)
    requires k < n
    ensures BitAt(v % Power(2, n), k) == BitAt(v, k)
  {
    var half := Power(2, n - 1);
    var q, r := v / (2 * half), v % (2 * half);
    ModUnique(v / 2, half, q, r / 2);
    if k == 0 {
    } else {
      ByteBits(v / 2, n - 1, k - 1);
    }
  }

  lemma ParityCounts(v: nat)
    ensures Ones(v % 256) == |LowOnes(v, 8)|
  {
    assert Power(2, 8) == 256 by {
      assert Power(2, 4) == 16;
      PowerSum(4, 4);
    }
    OnesCounted(v % 256, 8);
    forall k: nat | k < 8
      ensures BitAt(v % 256, k) == BitAt(v, k)
    {
      ByteBits(v, 8, k);
    }
    assert LowOnes(v % 256, 8) == LowOnes(v, 8);
  }

  /** What the flags an operation leaves say of its result, whatever the operation. */
  lemma ResultConditions(operation: Operation, left: nat, right: nat, size: OperandSize, f: Flags)
    requires Scalar(size) && left < size.Limit() && right < size.Limit()
    ensures var (result, g) := Execute(operation, left, right, size, f);
            && result < size.Limit()
            && (Holds(Sign, g) <==> SignedValue(result, size) < 0)
            && (Holds(NotSign, g) <==> SignedValue(result, size) >= 0)
            && (Holds(Parity, g) <==> |LowOnes(result, 8)| % 2 == 0)
            && (Holds(NotParity, g) <==> |LowOnes(result, 8)| % 2 == 1)
            && (Holds(Equal, g) <==> result == 0) && (Holds(NotEqual, g) <==> result != 0)
            && (operation.Logical() ==> Holds(NotOverflow, g) && Holds(AboveOrEqual, g) && !g.af)
            && (Holds(Overflow, g) <==> !Holds(NotOverflow, g)) && g.rest == f.rest
  {
    hide Ones, Execute, LowOnes, OperandSize.Limit;
    ResultFlags(operation, left, right, size, f);
    ParityCounts(Execute(operation, left, right, size, f).0);
  }

  lemma ResultFlags(operation: Operation, left: nat, right: nat, size: OperandSize, f: Flags)
    requires Scalar(size) && left < size.Limit() && right < size.Limit()
    ensures var (result, g) := Execute(operation, left, right, size, f);
            && result < size.Limit() && (g.zf <==> result == 0) && (g.sf <==> SignBit(result, size))
            && (g.pf <==> Ones(result % 256) % 2 == 0) && g.rest == f.rest
            && (operation.Logical() ==> !g.of && !g.cf && !g.af)
  {
    hide Ones, Bitwise, OperandSize.Limit, SignBit;
    if operation.Logical() {
      BitwiseBound(operation, left, right, size);
    }
  }

  /** Overflow is the one condition that looks at the operands as signed numbers and not at the result. */
  lemma OverflowConditions(operation: Operation, left: nat, right: nat, size: OperandSize, f: Flags)
    requires Scalar(size) && left < size.Limit() && right < size.Limit() && !operation.Logical()
    ensures var g := Execute(operation, left, right, size, f).1;
            var l, r := SignedValue(left, size), SignedValue(right, size);
            Holds(NotOverflow, g) <==>
              FitsSigned(if operation.Add? then l + r else if operation.Adc? then l + r + Bit(f.cf)
                         else if operation.Sbb? then l - r - Bit(f.cf) else l - r, size)
  {
    hide Sum, Difference, SignedValue, FitsSigned, OperandSize.Limit;
    SumExact(left, right, if operation.Adc? then Bit(f.cf) else 0, size, f);
    DifferenceExact(left, right, if operation.Sbb? then Bit(f.cf) else 0, size, f);
  }

  /** Sign and overflow of a difference tell its signed order. */
  lemma CompareSigns(l: nat, r: nat, result: nat, half: nat)
    requires half > 1 && l < 2 * half && r < 2 * half
    requires result == (if l < r then l - r + 2 * half else l - r)
    ensures result == 0 <==> l == r
    ensures var sl, sr := if l >= half then l - 2 * half else l, if r >= half then r - 2 * half else r;
            var of := (l >= half) != (r >= half) && (l >= half) != (result >= half);
            && ((result >= half) != of <==> sl < sr) && (sl == sr <==> l == r)
  {
  }

  // ---------------------------------------------------------------- multi-word arithmetic

  function Power(b: nat, n: nat): (r: nat)
    ensures b > 0 ==> r > 0
  {
    if n == 0 then 1 else b * Power(b, n - 1)
  }

  /** The number little-endian limbs stand for. */
  function Value(limbs: seq<nat>, base: nat): nat {
    if limbs == [] then 0 else limbs[0] + base * Value(limbs[1..], base)
  }

  ghost predicate Limbs(a: seq<nat>, size: OperandSize) { forall i :: 0 <= i < |a| ==> a[i] < size.Limit() }

  /**
   A multi-word operation: the first pair of limbs with one instruction and the others with the
   instruction that takes the flag along.
   */
  function Chain(first: Operation, next: Operation, a: seq<nat>, b: seq<nat>, size: OperandSize,
                 f: Flags): (r: (seq<nat>, Flags))
    requires Scalar(size) && |a| == |b|
    ensures |r.0| == |a|
    decreases |a|
  {
    if a == [] then ([], f)
    else
      var (limb, g) := Execute(first, a[0], b[0], size, f);
      var (rest, h) := Chain(next, next, a[1..], b[1..], size, g);
      ([limb] + rest, h)
  }

  lemma {:induction false} AdcChain(a: seq<nat>, b: seq<nat>, size: OperandSize, f: Flags)
    requires Scalar(size) && |a| == |b| && Limbs(a, size) && Limbs(b, size)
    ensures var (r, g) := Chain(Operation.Adc, Operation.Adc, a, b, size, f);
            var m := size.Limit();
            Limbs(r, size) && Value(r, m) + Power(m, |a|) * Bit(g.cf) == Value(a, m) + Value(b, m) + Bit(f.cf)
    decreases |a|
  {
    hide OperandSize.Limit, Sum, Difference, Value, Power;
    NoLimbs(size.Limit());
    if a == [] {
    } else {
      var m := size.Limit();
      ValueCons(a, m);
      ValueCons(b, m);
      SumExact(a[0], b[0], Bit(f.cf), size, f);
      var (limb, g) := Sum(a[0], b[0], Bit(f.cf), size, f);
      AdcChain(a[1..], b[1..], size, g);
      var (rest, h) := Chain(Operation.Adc, Operation.Adc, a[1..], b[1..], size, g);
      ChainStep(limb, rest, Bit(h.cf), m, |a| - 1);
      assert ([limb] + rest)[1..] == rest;
      Distribute(m, Value(a[1..], m), Value(b[1..], m), Bit(g.cf));
    }
  }

  lemma NoLimbs(m: nat)
    ensures Value([], m) == 0 && Power(m, 0) == 1
  {
  }

  lemma ValueCons(a: seq<nat>, m: nat)
    requires a != []
    ensures Value(a, m) == a[0] + m * Value(a[1..], m)
  {
  }

  lemma Distribute(m: nat, x: nat, y: nat, z: nat)
    ensures m * (x + y + z) == m * x + m * y + m * z
  {
  }

  lemma ChainStep(limb: nat, rest: seq<nat>, carry: nat, m: nat, n: nat)
    ensures ([limb] + rest)[1..] == rest
    ensures Value([limb] + rest, m) + Power(m, n + 1) * carry == limb + m * (Value(rest, m) + Power(m, n) * carry)
  {
    assert ([limb] + rest)[1..] == rest;
    assert Power(m, n + 1) * carry == m * (Power(m, n) * carry);
  }

  lemma {:induction false} SbbChain(a: seq<nat>, b: seq<nat>, size: OperandSize, f: Flags)
    requires Scalar(size) && |a| == |b| && Limbs(a, size) && Limbs(b, size)
    ensures var (r, g) := Chain(Operation.Sbb, Operation.Sbb, a, b, size, f);
            var m := size.Limit();
            Limbs(r, size) && Value(r, m) + Value(b, m) + Bit(f.cf) == Value(a, m) + Power(m, |a|) * Bit(g.cf)
    decreases |a|
  {
    hide OperandSize.Limit, Sum, Difference, Value, Power;
    NoLimbs(size.Limit());
    if a == [] {
    } else {
      var m := size.Limit();
      ValueCons(b, m);
      DifferenceExact(a[0], b[0], Bit(f.cf), size, f);
      var (limb, g) := Difference(a[0], b[0], Bit(f.cf), size, f);
      SbbChain(a[1..], b[1..], size, g);
      var (rest, h) := Chain(Operation.Sbb, Operation.Sbb, a[1..], b[1..], size, g);
      ChainStep(limb, rest, 0, m, |a| - 1);
      ChainStep(a[0], a[1..], Bit(h.cf), m, |a| - 1);
      assert [a[0]] + a[1..] == a;
      Distribute(m, Value(rest, m), Value(b[1..], m), Bit(g.cf));
    }
  }

  /** Any number of limbs: ADD then ADC gives the sum, with the carry flag as its top. */
  lemma MultiWordAdd(a: seq<nat>, b: seq<nat>, size: OperandSize, f: Flags)
    requires Scalar(size) && |a| == |b| > 0 && Limbs(a, size) && Limbs(b, size)
    ensures var (r, g) := Chain(Operation.Add, Operation.Adc, a, b, size, f);
            var m := size.Limit();
            Limbs(r, size) && Value(r, m) + Power(m, |a|) * Bit(g.cf) == Value(a, m) + Value(b, m)
  {
    hide Value, Power, OperandSize.Limit, Chain;
    AdcChain(a, b, size, f.(cf := false));
    FirstLimb(a, b, size, f);
  }

  /** Without a carry the carrying instruction does what the plain one does. */
  lemma FirstLimb(a: seq<nat>, b: seq<nat>, size: OperandSize, f: Flags)
    requires Scalar(size) && |a| == |b| > 0
    ensures Chain(Operation.Add, Operation.Adc, a, b, size, f)
         == Chain(Operation.Adc, Operation.Adc, a, b, size, f.(cf := false))
    ensures Chain(Operation.Sub, Operation.Sbb, a, b, size, f)
         == Chain(Operation.Sbb, Operation.Sbb, a, b, size, f.(cf := false))
  {
    hide Ones, SignBit, OperandSize.Limit;
    var g := f.(cf := false);
    assert Execute(Operation.Adc, a[0], b[0], size, g) == Execute(Operation.Add, a[0], b[0], size, f);
    assert Execute(Operation.Sbb, a[0], b[0], size, g) == Execute(Operation.Sub, a[0], b[0], size, f);
  }

  lemma BorrowSign(va: nat, vb: nat, vr: nat, p: nat, c: bool)
    requires vr < p && vr + vb == va + p * Bit(c)
    ensures c <==> va < vb
  {
  }

  /** Any number of limbs: SUB then SBB gives the difference, with the carry flag as the borrow. */
  lemma MultiWordSub(a: seq<nat>, b: seq<nat>, size: OperandSize, f: Flags)
    requires Scalar(size) && |a| == |b| > 0 && Limbs(a, size) && Limbs(b, size)
    ensures var (r, g) := Chain(Operation.Sub, Operation.Sbb, a, b, size, f);
            var m := size.Limit();
            && Limbs(r, size) && Value(r, m) == Value(a, m) - Value(b, m) + Power(m, |a|) * Bit(g.cf)
            && (g.cf <==> Value(a, m) < Value(b, m))
  {
    hide Value, Power, OperandSize.Limit, Chain;
    SbbChain(a, b, size, f.(cf := false));
    FirstLimb(a, b, size, f);
    var (r, g) := Chain(Operation.Sub, Operation.Sbb, a, b, size, f);
    ValueBound(r, size);
    var m := size.Limit();
    BorrowSign(Value(a, m), Value(b, m), Value(r, m), Power(m, |a|), g.cf);
  }

  lemma {:induction false} ValueBound(a: seq<nat>, size: OperandSize)
    requires Limbs(a, size)
    ensures Value(a, size.Limit()) < Power(size.Limit(), |a|)
  {
    hide OperandSize.Limit;
    if a == [] {
    } else {
      ValueBound(a[1..], size);
      var m, v, p := size.Limit(), Value(a[1..], size.Limit()), Power(size.Limit(), |a| - 1);
      hide Value, Power;
      MulMono(m, v + 1, p);
      Distribute(m, v, 1, 0);
    }
  }

  lemma MulMono(m: nat, x: nat, y: nat)
    requires x <= y
    ensures m * x <= m * y
  {
  }
}
