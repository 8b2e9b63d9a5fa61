/** What the arithmetic and the jumps of RV64I mean as numbers. */
module Rv64Numbers {
  import opened Machine
  import opened Rv64
  import opened Words

  /** Two's complement reading of a 32-bit number. */
  function Signed32(v: int): int {
    if v < Pow2(31) then v else v - Pow2(32)
  }

  lemma {:induction false} SignBit(w: U32)
    ensures SignedValue(w) == Signed32(Value(w))
  {
    ValueInRange(w, 31);
    assert Value(w) == ValueBelow(w, 31) + if w[31] then Pow2(31) else 0;
  }

  /** A word operation: its 32-bit result, sign-extended. */
  lemma WordResult(w: U32)
    ensures SignedValue(Sext(w)) == Signed32(Value(w))
  {
    SextKeepsTheNumber(w);
    SignBit(w);
  }

  lemma LowValue(a: U64)
    ensures Value(Low(a)) == Value(a) % Pow2(32)
  {
    ValuePrefix(Low(a), a, 32);
    LowBitsAreRemainder(a, 32);
  }

  lemma RemainderOfSum(x: nat, y: nat, m: nat)
    requires m > 0
    ensures (x % m + y % m) % m == (x + y) % m
  {
    var q, r := (x % m + y % m) / m, (x % m + y % m) % m;
    assert x == m * (x / m) + x % m && y == m * (y / m) + y % m && x % m + y % m == m * q + r;
    assert m * (x / m) + m * (y / m) + m * q == m * (x / m + y / m + q);
    DivModIs(x + y, m, x / m + y / m + q, r);
  }

  lemma RemainderOfDifference(x: nat, y: nat, m: nat)
    requires m > 0
    ensures (x % m - y % m) % m == (x - y) % m
  {
    var q, r := (x % m - y % m) / m, (x % m - y % m) % m;
    assert x == m * (x / m) + x % m && y == m * (y / m) + y % m && x % m - y % m == m * q + r;
    assert m * (x / m) - m * (y / m) + m * q == m * (x / m - y / m + q);
    DivModIs(x - y, m, x / m - y / m + q, r);
  }

  /** The number or the bits that register arithmetic gives. */
  ghost predicate Meant(op: Op, a: U64, b: U64, r: U64) {
    match op
    case Add => Value(r) == (Value(a) + Value(b)) % Pow2(64)
    case Sub => Value(r) == (Value(a) - Value(b)) % Pow2(64)
    case Sll => Value(r) == Value(a) * Pow2(Value(b) % 64) % Pow2(64)
    case Slt => Value(r) == if SignedValue(a) < SignedValue(b) then 1 else 0
    case Sltu => Value(r) == if Value(a) < Value(b) then 1 else 0
    case Srl => Value(r) == Value(a) / Pow2(Value(b) % 64)
    case Sra => SignedValue(r) == SignedValue(a) / Pow2(Value(b) % 64)
    case Addw => SignedValue(r) == Signed32((Value(a) + Value(b)) % Pow2(32))
    case Subw => SignedValue(r) == Signed32((Value(a) - Value(b)) % Pow2(32))
    case Sllw => SignedValue(r) == Signed32(Value(a) % Pow2(32) * Pow2(Value(b) % 32) % Pow2(32))
    case Srlw => SignedValue(r) == Signed32(Value(a) % Pow2(32) / Pow2(Value(b) % 32))
    case Sraw => SignedValue(r) == Signed32(Value(a) % Pow2(32)) / Pow2(Value(b) % 32)
    case Xor => forall k | 0 <= k < 64 :: r[k] <==> (a[k] && !b[k]) || (!a[k] && b[k])
    case Or => forall k | 0 <= k < 64 :: r[k] <==> a[k] || b[k]
    case And => forall k | 0 <= k < 64 :: r[k] <==> a[k] && b[k]
  }

  lemma Amounts(b: U64)
    ensures Amount6(b) == Value(b) % 64 && Amount5(b) == Value(b) % 32
  {
    LowBitsAreRemainder(b, 6);
    LowBitsAreRemainder(b, 5);
    Powers();
  }

  lemma WordSum(a: U64, b: U64)
    ensures Meant(Addw, a, b, AluR(Addw, a, b))
  {
    LowValue(a);
    LowValue(b);
    AddWraps(Low(a), Low(b));
    RemainderOfSum(Value(a), Value(b), Pow2(32));
    WordResult(Words.Add(Low(a), Low(b)));
  }

  lemma WordDifference(a: U64, b: U64)
    ensures Meant(Subw, a, b, AluR(Subw, a, b))
  {
    LowValue(a);
    LowValue(b);
    SubWraps(Low(a), Low(b));
    RemainderOfDifference(Value(a), Value(b), Pow2(32));
    WordResult(Words.Sub(Low(a), Low(b)));
  }

  lemma WordShifts(a: U64, b: U64)
    ensures Meant(Sllw, a, b, AluR(Sllw, a, b))
    ensures Meant(Srlw, a, b, AluR(Srlw, a, b))
    ensures Meant(Sraw, a, b, AluR(Sraw, a, b))
  {
    Amounts(b);
    LowValue(a);
    var k := Amount5(b);
    ShlIsMultiplication(Low(a), k);
    WordResult(Shl(Low(a), k));
    ShrIsDivision(Low(a), k);
    WordResult(Shr(Low(a), k));
    SraIsFloorDivision(Low(a), k);
    SignBit(Low(a));
    SextKeepsTheNumber(Words.Sra(Low(a), k));
  }

  /** Register arithmetic is that of the numbers. */
  lemma AluIsNumeric(op: Op, a: U64, b: U64)
    ensures Meant(op, a, b, AluR(op, a, b))
  {
    match op {
      case Add => AddWraps(a, b);
      case Sub => SubWraps(a, b);
      case Sll => Amounts(b); ShlIsMultiplication(a, Amount6(b));
      case Slt => ComparisonsAreNumeric(a, b); ValueOfFlag(LessSigned(a, b), 64, 64);
      case Sltu => ComparisonsAreNumeric(a, b); ValueOfFlag(LessUnsigned(a, b), 64, 64);
      case Srl => Amounts(b); ShrIsDivision(a, Amount6(b));
      case Sra => Amounts(b); SraIsFloorDivision(a, Amount6(b));
      case Addw => WordSum(a, b);
      case Subw => WordDifference(a, b);
      case Sllw => WordShifts(a, b);
      case Srlw => WordShifts(a, b);
      case Sraw => WordShifts(a, b);
      case Xor =>
      case Or =>
      case And =>
    }
  }

  /** The register operation that an immediate operation is. */
  function Immediate(op: OpImm): Op {
    match op
    case Addi => Add case Slti => Slt case Sltiu => Sltu
    case Xori => Xor case Ori => Or case Andi => And case Addiw => Addw
  }

  /** Immediate arithmetic is register arithmetic on the sign-extended immediate. */
  lemma ImmediateIsNumeric(op: OpImm, a: U64, imm: U64)
    ensures Meant(Immediate(op), a, imm, AluI(op, a, imm))
  {
    AluIsNumeric(Immediate(op), a, imm);
  }

  /** The number that a shift by a constant gives. */
  ghost predicate ShiftMeant(op: OpShift, a: U64, k: nat, r: U64) {
    match op
    case Slli => Value(r) == Value(a) * Pow2(k) % Pow2(64)
    case Srli => Value(r) == Value(a) / Pow2(k)
    case Srai => SignedValue(r) == SignedValue(a) / Pow2(k)
  }

  ghost predicate ShiftWMeant(op: OpShiftW, a: U64, k: nat, r: U64) {
    match op
    case Slliw => SignedValue(r) == Signed32(Value(a) % Pow2(32) * Pow2(k) % Pow2(32))
    case Srliw => SignedValue(r) == Signed32(Value(a) % Pow2(32) / Pow2(k))
    case Sraiw => SignedValue(r) == Signed32(Value(a) % Pow2(32)) / Pow2(k)
  }

  lemma ShiftIsNumeric(op: OpShift, a: U64, k: Shamt6)
    ensures ShiftMeant(op, a, k, AluShift(op, a, k))
  {
    match op
    case Slli => ShlIsMultiplication(a, k);
    case Srli => ShrIsDivision(a, k);
    case Srai => SraIsFloorDivision(a, k);
  }

  lemma ShiftWIsNumeric(op: OpShiftW, a: U64, k: Shamt5)
    ensures ShiftWMeant(op, a, k, AluShiftW(op, a, k))
  {
    LowValue(a);
    match op
    case Slliw => ShlIsMultiplication(Low(a), k); WordResult(Shl(Low(a), k));
    case Srliw => ShrIsDivision(Low(a), k); WordResult(Shr(Low(a), k));
    case Sraiw =>
      SraIsFloorDivision(Low(a), k);
      SignBit(Low(a));
      SextKeepsTheNumber(Words.Sra(Low(a), k));
  }

  /** When a branch is taken, in numbers. */
  predicate BranchMeant(op: OpBranch, a: U64, b: U64) {
    match op
    case Beq => Value(a) == Value(b)
    case Bne => Value(a) != Value(b)
    case Blt => SignedValue(a) < SignedValue(b)
    case Bge => SignedValue(a) >= SignedValue(b)
    case Bltu => Value(a) < Value(b)
    case Bgeu => Value(a) >= Value(b)
  }

  lemma BranchIsNumeric(op: OpBranch, a: U64, b: U64)
    ensures Taken(op, a, b) <==> BranchMeant(op, a, b)
  {
    ComparisonsAreNumeric(a, b);
    if Value(a) == Value(b) { SameNumber(a, b); }
  }

  /** Words with the same number are the same. */
  lemma SameNumber(a: U64, b: U64)
    requires Value(a) == Value(b)
    ensures a == b
  {
    forall k | 0 <= k < 64 ensures a[k] == b[k] {
      BitIsDigit(a, k);
      BitIsDigit(b, k);
    }
  }

  // ---------- bytes ----------

  /** The number that bytes stand for, least significant first. */
  function Number(bytes: seq<Byte>): nat {
    if bytes == [] then 0
    else Number(bytes[..|bytes| - 1]) + Pow2(8 * (|bytes| - 1)) * bytes[|bytes| - 1]
  }

  /** One more binary digit of a remainder. */
  lemma NextDigit(x: nat, j: nat)
    ensures x % Pow2(j + 1) == x % Pow2(j) + if x / Pow2(j) % 2 == 1 then Pow2(j) else 0
  {
    var p, q, r := Pow2(j), x / Pow2(j), x % Pow2(j);
    assert x == p * q + r;
    assert q == 2 * (q / 2) + q % 2;
    assert p * q == 2 * p * (q / 2) + p * (q % 2) by { Distributes(p, 2 * (q / 2), q % 2); }
    DivModIs(x, 2 * p, q / 2, r + p * (q % 2));
  }

  lemma ScaledDigit(x: nat, j: nat, e: nat)
    ensures Pow2(e) * (x % Pow2(j + 1)) == Pow2(e) * (x % Pow2(j)) + if x / Pow2(j) % 2 == 1 then Pow2(e + j) else 0
  {
    NextDigit(x, j);
    PowerAdds(e, j);
    Distributes(Pow2(e), x % Pow2(j), Pow2(j));
  }

  lemma DigitAt(bytes: seq<Byte>, k: nat, j: nat)
    requires k < |bytes| <= 8 && j < 8
    ensures FromLittleEndian(bytes)[8 * k + j] <==> bytes[k] / Pow2(j) % 2 == 1
  {
    DigitOf(bytes, 8 * k + j, k, j);
  }

  lemma DigitOf(bytes: seq<Byte>, i: nat, k: nat, j: nat)
    requires k < |bytes| && i < 64 && i / 8 == k && i % 8 == j
    ensures FromLittleEndian(bytes)[i] <==> bytes[k] / Pow2(j) % 2 == 1
  {
  }

  lemma {:induction false} DigitsOfByte(bytes: seq<Byte>, k: nat, j: nat)
    requires k < |bytes| <= 8 && j <= 8
    ensures ValueBelow(FromLittleEndian(bytes), 8 * k + j)
            == ValueBelow(FromLittleEndian(bytes), 8 * k) + Pow2(8 * k) * (bytes[k] % Pow2(j))
  {
    if j == 0 {
      assert bytes[k] % 1 == 0;
    } else {
      DigitsOfByte(bytes, k, j - 1);
      DigitAt(bytes, k, j - 1);
      ScaledDigit(bytes[k], j - 1, 8 * k);
      NextBit(FromLittleEndian(bytes), 8 * k + (j - 1));
    }
  }

  lemma NextBit(a: Bits, i: nat)
    requires i < |a|
    ensures ValueBelow(a, i + 1) == ValueBelow(a, i) + if a[i] then Pow2(i) else 0
  {
  }

  lemma {:induction false} LittleEndianBelow(bytes: seq<Byte>, k: nat)
    requires k <= |bytes| <= 8
    ensures ValueBelow(FromLittleEndian(bytes), 8 * k) == Number(bytes[..k])
  {
    if k > 0 {
      LittleEndianBelow(bytes, k - 1);
      DigitsOfByte(bytes, k - 1, 8);
      WholeByte(bytes[k - 1]);
      NumberNext(bytes, k);
    }
  }

  lemma WholeByte(b: Byte)
    ensures b % Pow2(8) == b
  {
    Powers();
  }

  lemma NumberNext(bytes: seq<Byte>, k: nat)
    requires 0 < k <= |bytes|
    ensures Number(bytes[..k]) == Number(bytes[..k - 1]) + Pow2(8 * (k - 1)) * bytes[k - 1]
  {
    assert bytes[..k][..k - 1] == bytes[..k - 1];
  }

  lemma {:induction false} NothingAbove(bytes: seq<Byte>, i: nat)
    requires |bytes| <= 8 && 8 * |bytes| <= i <= 64
    ensures ValueBelow(FromLittleEndian(bytes), i) == ValueBelow(FromLittleEndian(bytes), 8 * |bytes|)
    decreases i
  {
    if i > 8 * |bytes| { NothingAbove(bytes, i - 1); }
  }

  /** Loaded bytes give their number. */
  lemma LittleEndianIsNumeric(bytes: seq<Byte>)
    requires |bytes| <= 8
    ensures Value(FromLittleEndian(bytes)) == Number(bytes)
  {
    LittleEndianBelow(bytes, |bytes|);
    assert bytes[..|bytes|] == bytes;
    NothingAbove(bytes, 64);
  }

  /** Two's complement reading of a number of `w` bits. */
  function Signed(v: int, w: nat): int
    requires w > 0
  {
    if v < Pow2(w - 1) then v else v - Pow2(w)
  }

  /** The low `w` bits, with the highest of them above. */
  function SignExtended(v: Bits, w: nat): Bits
    requires 0 < w <= |v|
  {
    seq(|v|, i requires 0 <= i < |v| => if i < w then v[i] else v[w - 1])
  }

  lemma {:induction false} ExtendedBelow(v: Bits, w: nat, i: nat)
    requires 0 < w <= i <= |v|
    ensures ValueBelow(SignExtended(v, w), i) == ValueBelow(v, w) + if v[w - 1] then Pow2(i) - Pow2(w) else 0
    decreases i
  {
    if i == w {
      assert SignExtended(v, w)[..w] == v[..w];
      ValuePrefix(SignExtended(v, w), v, w);
    } else {
      ExtendedBelow(v, w, i - 1);
      NextBit(SignExtended(v, w), i - 1);
    }
  }

  lemma HighestBit(v: Bits, w: nat)
    requires 0 < w <= |v|
    ensures v[w - 1] <==> ValueBelow(v, w) >= Pow2(w - 1)
  {
    ValueInRange(v, w - 1);
    NextBit(v, w - 1);
  }

  lemma ExtensionKeepsTheNumber(v: Bits, w: nat)
    requires 0 < w <= |v|
    ensures SignedValue(SignExtended(v, w)) == Signed(ValueBelow(v, w), w)
  {
    var r := SignExtended(v, w);
    assert r[|r| - 1] == v[w - 1];
    assert Value(r) == ValueBelow(v, w) + if v[w - 1] then Pow2(|r|) - Pow2(w) else 0 by {
      ExtendedBelow(v, w, |v|);
    }
    assert v[w - 1] <==> ValueBelow(v, w) >= Pow2(w - 1) by { HighestBit(v, w); }
  }

  predicate LoadsSigned(op: OpLoad) {
    op.Lb? || op.Lh? || op.Lw? || op.Ld?
  }

  /** What a load leaves in its register: the number of the bytes, signed or not. */
  ghost predicate LoadMeant(op: OpLoad, bytes: seq<Byte>, r: U64)
    requires |bytes| > 0
  {
    if LoadsSigned(op) then SignedValue(r) == Signed(Number(bytes), 8 * |bytes|) else Value(r) == Number(bytes)
  }

  lemma ExtendIs(op: OpLoad, v: U64)
    requires LoadsSigned(op)
    ensures Extend(op, v) == SignExtended(v, 8 * LoadSize(op))
  {
  }

  /** Loads extend the number of the bytes they read: one, two, four or eight of them. */
  lemma LoadIsNumeric(op: OpLoad, bytes: seq<Byte>)
    requires |bytes| == LoadSize(op)
    ensures |bytes| == match op case Lb => 1 case Lbu => 1 case Lh => 2 case Lhu => 2 case Lw => 4 case Lwu => 4 case Ld => 8
    ensures LoadMeant(op, bytes, Extend(op, FromLittleEndian(bytes)))
  {
    var v := FromLittleEndian(bytes);
    LittleEndianIsNumeric(bytes);
    if LoadsSigned(op) {
      ExtendIs(op, v);
      ExtensionKeepsTheNumber(v, 8 * |bytes|);
      LittleEndianBelow(bytes, |bytes|);
      assert bytes[..|bytes|] == bytes;
    }
  }

  lemma ByteIs(v: U64, i: nat)
    requires i < 8
    ensures ValueBelow(v, 8 * i + 8) == ValueBelow(v, 8 * i) + Pow2(8 * i) * ByteOf(v, i)
  {
    SplitBelow(v, 8 * i, 8);
    var slice := v[8 * i..8 * i + 8];
    assert Shr(v, 8 * i)[..8] == slice[..8];
    ValuePrefix(Shr(v, 8 * i), slice, 8);
  }

  lemma {:induction false} BytesBelow(v: U64, n: nat)
    requires n <= 8
    ensures Number(ToLittleEndian(v, n)) == ValueBelow(v, 8 * n)
  {
    if n > 0 {
      BytesBelow(v, n - 1);
      assert ToLittleEndian(v, n)[..n - 1] == ToLittleEndian(v, n - 1);
      ByteIs(v, n - 1);
    }
  }

  /** Stores write the low bytes of the register: one, two, four or eight of them. */
  lemma StoreIsNumeric(op: OpStore, v: U64)
    ensures StoreSize(op) == match op case Sb => 1 case Sh => 2 case Sw => 4 case Sd => 8
    ensures Number(ToLittleEndian(v, StoreSize(op))) == Value(v) % Pow2(8 * StoreSize(op))
  {
    BytesBelow(v, StoreSize(op));
    LowBitsAreRemainder(v, 8 * StoreSize(op));
  }

  // ---------- addresses ----------

  lemma WordOfAddress(n: nat)
    requires n < U64_LIMIT
    ensures Value(ToWord(n)) == n
  {
    FromNatIsModular(n, XLEN);
    PowerOfWidth();
  }

  lemma SumAddress(a: U64, b: U64)
    ensures Addr(Sum(a, b)) == (Value(a) + Value(b)) % U64_LIMIT
  {
    AddWraps(a, b);
    PowerOfWidth();
  }

  /** Target of `jal` and of a taken branch, and value of `auipc`: relative to the instruction itself. */
  lemma RelativeTarget(pc: nat, imm: U64)
    requires 4 <= pc < U64_LIMIT
    ensures Relative(pc, imm) == Value(Sum(OldPc(pc), imm)) == (pc - 4 + Value(imm)) % U64_LIMIT
  {
    WordOfAddress(pc - 4);
    SumAddress(OldPc(pc), imm);
  }

  lemma EvenAddress(w: U64)
    ensures Addr(Even(w)) == Value(w) - Value(w) % 2
  {
    LowBitsAreRemainder(w, 1);
    SplitBelow(w, 1, 63);
    SplitBelow(Even(w), 1, 63);
    assert Shr(w, 1) == Shr(Even(w), 1);
    assert Pow2(1) == 2;
    assert ValueBelow(Even(w), 1) == 0;
  }

  /** Target of `jalr`: a register plus an offset, with the lowest bit cleared. */
  lemma RegisterTarget(a: U64, imm: U64)
    ensures var t := (Value(a) + Value(imm)) % U64_LIMIT;
            ThroughRegister(a, imm) == t - t % 2
  {
    SumAddress(a, imm);
    EvenAddress(Sum(a, imm));
  }

  lemma {:induction false} ZeroBelow(n: nat)
    requires n <= 64
    ensures ValueBelow(Zero(), n) == 0
  {
    if n > 0 { ZeroBelow(n - 1); }
  }

  lemma TargetInRegister(x: nat)
    requires x < U64_LIMIT && x % 2 == 0
    ensures ThroughRegister(ToWord(x), Zero()) == x
  {
    assert Value(ToWord(x)) == x by { WordOfAddress(x); }
    assert Value(Zero()) == 0 by { ZeroBelow(64); }
    RegisterTarget(ToWord(x), Zero());
  }

  /** Storing a double word and loading it back gives it back. */
  lemma DoubleWordRoundTrip(v: U64)
    ensures FromLittleEndian(ToLittleEndian(v, 8)) == v
  {
    forall i | 0 <= i < 64 ensures FromLittleEndian(ToLittleEndian(v, 8))[i] == v[i] {
      BitIsDigit(v[8 * (i / 8)..8 * (i / 8) + 8], i % 8);
    }
  }
}
