/** Interpreting code with two instruction fetchers: one that decodes on every fetch, and one that
    decodes everything up front. Generic in the instruction set. */
module Machine {
  import opened Words
  import opened Options

  const U64_LIMIT: nat := 0x1_0000_0000_0000_0000
  /** Size of a decoded instruction in memory. */
  const DECODED_SIZE: nat := 8

  type Word = w: seq<Byte> | |w| == 4 witness [0, 0, 0, 0]

  // ---------- memory ----------

  /** No allocation is larger than the largest signed size. */
  type Data = d: seq<Byte> | |d| < 0x8000_0000_0000_0000 witness []

  datatype Memory = Memory(base: nat, data: Data)

  function SaturatingAdd(a: nat, b: nat): nat {
    if a + b < U64_LIMIT then a + b else U64_LIMIT - 1
  }

  /** Offset of an address: checked subtraction in the basic memory, wrapping in the fast one. */
  function CheckedOffset(m: Memory, address: nat): Option<nat> {
    if address < m.base then None else Some(address - m.base)
  }

  function WrappingOffset(m: Memory, address: nat): Option<nat> {
    Some((address - m.base) % U64_LIMIT)
  }

  function Offset(m: Memory, address: nat, wrapping: bool): Option<nat> {
    if wrapping then WrappingOffset(m, address) else CheckedOffset(m, address)
  }

  predicate InBounds(m: Memory, address: nat, size: nat, wrapping: bool) {
    match Offset(m, address, wrapping)
    case None => false
    case Some(offset) => SaturatingAdd(offset, size) <= |m.data|
  }

  function Load(m: Memory, address: nat, size: nat, wrapping: bool): Option<seq<Byte>> {
    if !InBounds(m, address, size, wrapping) then None
    else
      var offset := Offset(m, address, wrapping).value;
      Some(m.data[offset..offset + size])
  }

  function Store(m: Memory, address: nat, bytes: seq<Byte>, wrapping: bool): Option<Memory> {
    if !InBounds(m, address, |bytes|, wrapping) then None
    else
      var offset := Offset(m, address, wrapping).value;
      Some(Memory(m.base, m.data[..offset] + bytes + m.data[offset + |bytes|..]))
  }

  predicate Agree(m: Memory, address: nat, size: nat) {
    Load(m, address, size, true) == Load(m, address, size, false)
  }

  /** The wrapping and the checked bounds test agree on every address exactly when the memory does not
      extend beyond the address space, and for empty slices too exactly when it ends before it. */
  lemma BoundsTestsAgree(m: Memory)
    requires m.base < U64_LIMIT
    ensures (forall address, size | 0 <= address < U64_LIMIT && size > 0 :: Agree(m, address, size))
            <==> m.base + |m.data| <= U64_LIMIT
    ensures (forall address, size | 0 <= address < U64_LIMIT && size >= 0 :: Agree(m, address, size))
            <==> m.base + |m.data| < U64_LIMIT
  {
    if m.base + |m.data| <= U64_LIMIT {
      forall address, size | 0 <= address < U64_LIMIT && size > 0 ensures Agree(m, address, size) {
        BoundsTestsAgreeAt(m, address, size);
      }
    } else {
      var offset := U64_LIMIT - m.base;
      assert (0 - m.base) % U64_LIMIT == offset;
      assert !Agree(m, 0, 1);
    }
    if m.base + |m.data| >= U64_LIMIT {
      EmptySliceAtZero(m);
    } else {
      forall address | 0 <= address < U64_LIMIT ensures Agree(m, address, 0) { EmptySlicesAgree(m, address); }
    }
  }

  /** An empty slice at address zero separates the two tests when the memory reaches the end of the
      address space. */
  lemma EmptySliceAtZero(m: Memory)
    requires m.base < U64_LIMIT <= m.base + |m.data|
    ensures !Agree(m, 0, 0)
  {
    assert (0 - m.base) % U64_LIMIT == U64_LIMIT - m.base;
  }

  lemma EmptySlicesAgree(m: Memory, address: nat)
    requires m.base + |m.data| < U64_LIMIT && address < U64_LIMIT
    ensures Agree(m, address, 0)
  {
    if address < m.base {
      assert (address - m.base) % U64_LIMIT == address - m.base + U64_LIMIT;
    } else {
      assert (address - m.base) % U64_LIMIT == address - m.base;
    }
  }

  lemma BoundsTestsAgreeAt(m: Memory, address: nat, size: nat)
    requires m.base < U64_LIMIT && m.base + |m.data| <= U64_LIMIT && address < U64_LIMIT && size > 0
    ensures InBounds(m, address, size, true) == InBounds(m, address, size, false)
    ensures InBounds(m, address, size, true) ==> Offset(m, address, true) == Offset(m, address, false)
  {
    if address < m.base {
      assert (address - m.base) % U64_LIMIT == address - m.base + U64_LIMIT;
    } else {
      assert (address - m.base) % U64_LIMIT == address - m.base;
    }
  }

  lemma AccessSame(m: Memory, address: nat, bytes: seq<Byte>)
    requires m.base < U64_LIMIT && m.base + |m.data| <= U64_LIMIT && address < U64_LIMIT && bytes != []
    ensures Load(m, address, |bytes|, true) == Load(m, address, |bytes|, false)
    ensures Store(m, address, bytes, true) == Store(m, address, bytes, false)
    ensures var r := Store(m, address, bytes, false);
            r.Some? ==> r.value.base == m.base && |r.value.data| == |m.data|
  {
    BoundsTestsAgreeAt(m, address, |bytes|);
  }

  // ---------- instruction sets ----------

  datatype Error =
    | Illegal(address: nat)
    | Unaligned(address: nat)
    | OutOfBoundsRead(address: nat)
    | OutOfBoundsWrite(address: nat)

  /** What executing an instruction does next. */
  datatype Next<+V> =
    | Advance(rd: nat, value: V)
    | Jump(target: nat)
    | Fault(error: Error)

  /** Effect of executing an instruction: memory, an optional link register write, and what is next. */
  datatype Effect<+V> = Effect(memory: Memory, link: Option<(nat, V)>, next: Next<V>)

  /** Two bytes with compressed instructions, four without. */
  type Alignment = a: nat | a == 2 || a == 4 witness 2

  /** An instruction set with register values `V`; `exec` gets the operand values, the memory and the
      program counter after the fetch. */
  datatype Isa<!I, !V> = Isa(
    decode: Word -> Option<I>,
    size: I -> nat,
    operands: I -> (nat, nat),
    exec: (I, V, V, Memory, nat) -> Effect<V>,
    unimp: I,
    zero: V,
    alignment: Alignment)

  /** Instructions are two or four bytes long, and the placeholder for undecodable words is a four-byte
      instruction that reports its own address as illegal. */
  ghost predicate WellFormed<I(!new), V(!new)>(isa: Isa<I, V>) {
    && (forall i :: isa.size(i) == 2 || isa.size(i) == 4)
    && isa.size(isa.unimp) == 4
    && forall a, b, m, pc | pc >= 4 :: isa.exec(isa.unimp, a, b, m, pc) == Effect(m, None, Fault(Illegal(pc - 4)))
  }

  type Registers<+V> = seq<V>

  function ReadReg<I, V>(isa: Isa<I, V>, regs: Registers<V>, r: nat): V {
    if r == 0 || r >= |regs| then isa.zero else regs[r]
  }

  function WriteReg<V>(regs: Registers<V>, r: nat, v: V): Registers<V> {
    if r < |regs| then regs[r := v] else regs
  }

  /** A machine between two instructions, or how it ended. `at` is what the fetcher keeps. */
  datatype Status<+V> =
    | Running(regs: Registers<V>, memory: Memory, at: nat)
    | Stopped(regs: Registers<V>, memory: Memory)
    | Failed(regs: Registers<V>, memory: Memory, error: Error)

  /** Outcome of setting the program counter. */
  datatype SetPc = Continue(at: nat) | Break | Refused(error: Error)

  /** Execute a fetched instruction; `pc` is the program counter after the fetch, `after` what the
      fetcher keeps then, and `setPc` how it takes a jump. */
  function Finish<I, V>(isa: Isa<I, V>, i: I, regs: Registers<V>, memory: Memory, pc: nat, after: nat,
                        setPc: nat -> SetPc): Status<V>
  {
    var (rs1, rs2) := isa.operands(i);
    var e := isa.exec(i, ReadReg(isa, regs, rs1), ReadReg(isa, regs, rs2), memory, pc);
    var regs' := match e.link case None => regs case Some((rd, v)) => WriteReg(regs, rd, v);
    match e.next
    case Advance(rd, v) => Running(WriteReg(regs', rd, v), e.memory, after)
    case Fault(error) => Failed(regs', e.memory, error)
    case Jump(target) =>
      match setPc(target)
      case Continue(at) => Running(WriteReg(regs', 0, isa.zero), e.memory, at)
      case Break => Stopped(regs', e.memory)
      case Refused(error) => Failed(regs', e.memory, error)
  }

  // ---------- the basic fetcher ----------

  /** Jump targets are multiples of the alignment of the instruction set. */
  function BasicSetPc(alignment: Alignment, trap: nat, target: nat): SetPc {
    if target == trap then Break
    else if target % alignment != 0 then Refused(Unaligned(target))
    else Continue(target)
  }

  /** The word at `pc`, or a lone half-word that can only be a compressed instruction. */
  function FetchWord(m: Memory, pc: nat, wrapping: bool): Option<Word> {
    match Load(m, pc, 4, wrapping)
    case Some(w) => Some(w)
    case None =>
      match Load(m, pc, 2, wrapping)
      case Some(h) => if h[0] % 4 != 3 then Some(h + [0, 0]) else None
      case None => None
  }

  function BasicStep<I, V>(isa: Isa<I, V>, trap: nat, wrapping: bool, s: Status<V>): Status<V> {
    match s
    case Running(regs, memory, pc) =>
      (match FetchWord(memory, pc, wrapping)
       case None => Failed(regs, memory, OutOfBoundsRead(pc))
       case Some(w) =>
         match isa.decode(w)
         case None => Failed(regs, memory, Illegal(pc))
         case Some(i) =>
           var pc' := pc + isa.size(i);
           Finish(isa, i, regs, memory, pc', pc', (target: nat) => BasicSetPc(isa.alignment, trap, target)))
    case _ => s
  }

  // ---------- the eager fetcher ----------

  /** Code bytes from half-word `i` on, padded with zeros at the end. */
  function WordAt(code: seq<Byte>, i: nat): Word
    requires 2 * i + 2 <= |code|
  {
    if 2 * i + 4 <= |code| then code[2 * i..2 * i + 4] else code[2 * i..2 * i + 2] + [0, 0]
  }

  function DecodeOrUnimp<I, V>(isa: Isa<I, V>, w: Word): I {
    match isa.decode(w)
    case Some(instruction) => instruction
    case None => isa.unimp
  }

  function Entry<I, V>(isa: Isa<I, V>, code: seq<Byte>, i: nat): I
    requires 2 * i + 2 <= |code|
  {
    DecodeOrUnimp(isa, WordAt(code, i))
  }

  /** The decoded table of a program: one entry per half-word, with its base address. */
  datatype Table<I> = Table(entries: seq<I>, base: nat, trap: nat)

  predicate TableOf<I(==), V>(isa: Isa<I, V>, t: Table<I>, code: seq<Byte>) {
    |t.entries| == |code| / 2 && forall i | 0 <= i < |code| / 2 :: t.entries[i] == Entry(isa, code, i)
  }

  /** The fetcher keeps the byte offset of the next entry rather than an index. */
  function GetPc<I>(t: Table<I>, offset: nat): nat {
    t.base + offset * 2 / DECODED_SIZE
  }

  function EagerSetPc<I>(t: Table<I>, target: nat): SetPc {
    if target == t.trap then Break
    else if target % 2 != 0 then Refused(Unaligned(target))
    else if target < t.base then Refused(OutOfBoundsRead(target))
    else if (target - t.base) / 2 >= |t.entries| then Refused(OutOfBoundsRead(target))
    else Continue((target - t.base) / 2 * DECODED_SIZE)
  }

  /** The offset is that of an entry of the table; anything else makes the unchecked fetch undefined. */
  predicate Fetchable<I>(t: Table<I>, offset: nat) {
    offset % DECODED_SIZE == 0 && offset / DECODED_SIZE < |t.entries|
  }

  function EagerStep<I, V>(isa: Isa<I, V>, t: Table<I>, s: Status<V>): Status<V>
    requires s.Running? ==> Fetchable(t, s.at)
  {
    match s
    case Running(regs, memory, offset) =>
      var i := t.entries[offset / DECODED_SIZE];
      var offset' := offset + isa.size(i) / 2 * DECODED_SIZE;
      Finish(isa, i, regs, memory, GetPc(t, offset'), offset', (target: nat) => EagerSetPc(t, target))
    case _ => s
  }
}
