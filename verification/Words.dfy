/** Machine words as bits, least significant first, with the operations of an arithmetic unit of any width. */
module Words {
  type Bits = seq<bool>
  type Byte = b: nat | b < 256
  type U32 = w: Bits | |w| == 32 witness seq(32, i => false)
  type U64 = w: Bits | |w| == 64 witness seq(64, i => false)

  function Zero(): U64 { seq(64, i => false) }

  function Xor(a: Bits, b: Bits): Bits
    requires |a| == |b|
  {
    seq(|a|, i requires 0 <= i < |a| => a[i] != b[i])
  }

  function Or(a: Bits, b: Bits): Bits
    requires |a| == |b|
  {
    seq(|a|, i requires 0 <= i < |a| => a[i] || b[i])
  }

  function And(a: Bits, b: Bits): Bits
    requires |a| == |b|
  {
    seq(|a|, i requires 0 <= i < |a| => a[i] && b[i])
  }

  function Not(a: Bits): Bits {
    seq(|a|, i requires 0 <= i < |a| => !a[i])
  }

  /** Carry into bit `i` when adding with carry `c`. */
  predicate Carry(a: Bits, b: Bits, c: bool, i: nat)
    requires |a| == |b| && i <= |a|
  {
    if i == 0 then c
    else (a[i - 1] && b[i - 1]) || (Carry(a, b, c, i - 1) && (a[i - 1] || b[i - 1]))
  }

  function AddCarry(a: Bits, b: Bits, c: bool): Bits
    requires |a| == |b|
  {
    seq(|a|, i requires 0 <= i < |a| => (a[i] != b[i]) != Carry(a, b, c, i))
  }

  /** Wrapping addition and subtraction. */
  function Add(a: Bits, b: Bits): Bits
    requires |a| == |b|
  {
    AddCarry(a, b, false)
  }

  function Sub(a: Bits, b: Bits): Bits
    requires |a| == |b|
  {
    AddCarry(a, Not(b), true)
  }

  function Shl(a: Bits, k: nat): Bits {
    seq(|a|, i requires 0 <= i < |a| => i >= k && a[i - k])
  }

  function Shr(a: Bits, k: nat): Bits {
    seq(|a|, i requires 0 <= i < |a| => i + k < |a| && a[i + k])
  }

  /** Arithmetic shift right: the sign bit moves in. */
  function Sra(a: Bits, k: nat): Bits {
    seq(|a|, i requires 0 <= i < |a| => if i + k < |a| then a[i + k] else a[|a| - 1])
  }

  /** Unsigned comparison of the low `n` bits, the highest difference deciding. */
  predicate LessBelow(a: Bits, b: Bits, n: nat)
    requires |a| == |b| && n <= |a|
  {
    n > 0 && if a[n - 1] != b[n - 1] then b[n - 1] else LessBelow(a, b, n - 1)
  }

  predicate LessUnsigned(a: Bits, b: Bits)
    requires |a| == |b|
  {
    LessBelow(a, b, |a|)
  }

  predicate LessSigned(a: Bits, b: Bits)
    requires |a| == |b| > 0
  {
    if a[|a| - 1] != b[|b| - 1] then a[|a| - 1] else LessUnsigned(a, b)
  }

  /** A truth value as a word. */
  function Flag(f: bool, width: nat): Bits {
    seq(width, i => i == 0 && f)
  }

  // ---------- numbers ----------

  function Pow2(n: nat): (r: nat)
    ensures r > 0
  {
    if n == 0 then 1 else 2 * Pow2(n - 1)
  }

  lemma {:induction false} PowerAdds(n: nat, k: nat)
    ensures Pow2(n + k) == Pow2(n) * Pow2(k)
  {
    if k > 0 {
      PowerAdds(n, k - 1);
      assert Pow2(n + k) == 2 * Pow2(n + (k - 1));
    }
  }

  /** Value of the low `n` bits. */
  function ValueBelow(a: Bits, n: nat): nat
    requires n <= |a|
  {
    if n == 0 then 0 else ValueBelow(a, n - 1) + if a[n - 1] then Pow2(n - 1) else 0
  }

  function Value(a: Bits): nat { ValueBelow(a, |a|) }

  lemma {:induction false} ValueInRange(a: Bits, n: nat)
    requires n <= |a|
    ensures ValueBelow(a, n) < Pow2(n)
  {
    if n > 0 { ValueInRange(a, n - 1); }
  }

  /** The bits of a number. */
  function FromNat(x: nat, width: nat): (r: Bits)
    ensures |r| == width
  {
    if width == 0 then [] else [x % 2 == 1] + FromNat(x / 2, width - 1)
  }

  lemma {:induction false} ValueOfFlag(f: bool, width: nat, n: nat)
    requires 0 < width && n <= width
    ensures ValueBelow(Flag(f, width), n) == if f && n > 0 then 1 else 0
  {
    if n > 0 { ValueOfFlag(f, width, n - 1); }
  }

  /** Ripple-carry addition adds: the value of the sum and the carry out account for both operands. */
  lemma {:induction false} AddBelow(a: Bits, b: Bits, c: bool, n: nat)
    requires |a| == |b| && n <= |a|
    ensures ValueBelow(AddCarry(a, b, c), n) + (if Carry(a, b, c, n) then Pow2(n) else 0)
            == ValueBelow(a, n) + ValueBelow(b, n) + if c then 1 else 0
  {
    if n > 0 { AddBelow(a, b, c, n - 1); }
  }

  lemma {:induction false} NotBelow(a: Bits, n: nat)
    requires n <= |a|
    ensures ValueBelow(Not(a), n) + ValueBelow(a, n) == Pow2(n) - 1
  {
    if n > 0 { NotBelow(a, n - 1); }
  }

  lemma Wraps(x: int, y: nat, m: nat)
    requires 0 < m && 0 <= y < m && (x == y || x == y + m || x == y - m)
    ensures x % m == y
  {
    if x == y + m { assert (y + m) % m == y % m; }
    if x == y - m { assert (y - m) % m == y % m; }
  }

  /** Addition and subtraction are those of the numbers, modulo the width. */
  lemma AddWraps(a: Bits, b: Bits)
    requires |a| == |b|
    ensures Value(Add(a, b)) == (Value(a) + Value(b)) % Pow2(|a|)
  {
    var n := |a|;
    ValueInRange(Add(a, b), n);
    AddBelow(a, b, false, n);
    Wraps(Value(a) + Value(b), Value(Add(a, b)), Pow2(n));
  }

  lemma SubWraps(a: Bits, b: Bits)
    requires |a| == |b|
    ensures Value(Sub(a, b)) == (Value(a) - Value(b)) % Pow2(|a|)
  {
    var n := |a|;
    ValueInRange(Sub(a, b), n);
    AddBelow(a, Not(b), true, n);
    NotBelow(b, n);
    Wraps(Value(a) - Value(b), Value(Sub(a, b)), Pow2(n));
  }

  lemma {:induction false} LessBelowIsLess(a: Bits, b: Bits, n: nat)
    requires |a| == |b| && n <= |a|
    ensures LessBelow(a, b, n) <==> ValueBelow(a, n) < ValueBelow(b, n)
  {
    if n > 0 {
      LessBelowIsLess(a, b, n - 1);
      ValueInRange(a, n - 1);
      ValueInRange(b, n - 1);
    }
  }

  /** Two's complement value. */
  function SignedValue(a: Bits): int
    requires |a| > 0
  {
    Value(a) - if a[|a| - 1] then Pow2(|a|) else 0
  }

  /** Comparisons are those of the numbers. */
  lemma ComparisonsAreNumeric(a: Bits, b: Bits)
    requires |a| == |b| > 0
    ensures LessUnsigned(a, b) <==> Value(a) < Value(b)
    ensures LessSigned(a, b) <==> SignedValue(a) < SignedValue(b)
  {
    LessBelowIsLess(a, b, |a|);
    ValueInRange(a, |a|);
    ValueInRange(b, |b|);
    ValueInRange(a, |a| - 1);
    ValueInRange(b, |b| - 1);
  }

  // ---------- numbers and shifts ----------

  lemma Multiples(d: nat, a: int, b: int)
    ensures a < b ==> d * a + d <= d * b
  {
    if a < b { assert d * b == d * (a + 1) + d * (b - a - 1); }
  }

  lemma Distributes(d: int, a: int, b: int)
    ensures d * (a + b) == d * a + d * b
  {
  }

  /** Quotient and remainder are determined by what they satisfy. */
  lemma DivModIs(x: int, d: nat, q: int, r: nat)
    requires d > 0 && x == d * q + r && r < d
    ensures x / d == q && x % d == r
  {
    assert x == d * (x / d) + x % d;
    Multiples(d, x / d, q);
    Multiples(d, q, x / d);
  }

  lemma RemainderByHalves(x: nat, m: nat)
    requires m > 0
    ensures x % (2 * m) == 2 * (x / 2 % m) + x % 2
  {
    var q, r := x / 2 / m, x / 2 % m;
    assert x / 2 == m * q + r;
    assert 2 * (m * q) == 2 * m * q;
    DivModIs(x, 2 * m, q, 2 * r + x % 2);
  }

  lemma {:induction false} ValueCons(b: bool, rest: Bits, n: nat)
    requires n <= |rest|
    ensures ValueBelow([b] + rest, n + 1) == 2 * ValueBelow(rest, n) + if b then 1 else 0
  {
    if n > 0 {
      ValueCons(b, rest, n - 1);
      assert ([b] + rest)[n] == rest[n - 1];
    }
  }

  /** The bits of a number give it back, modulo the width. */
  lemma {:induction false} FromNatIsModular(x: nat, width: nat)
    ensures Value(FromNat(x, width)) == x % Pow2(width)
  {
    if width > 0 {
      FromNatIsModular(x / 2, width - 1);
      ValueCons(x % 2 == 1, FromNat(x / 2, width - 1), width - 1);
      RemainderByHalves(x, Pow2(width - 1));
    }
  }

  lemma {:induction false} ShlBelow(a: Bits, k: nat, i: nat)
    requires i <= |a|
    ensures ValueBelow(Shl(a, k), i) == if i <= k then 0 else Pow2(k) * ValueBelow(a, i - k)
  {
    if i > 0 {
      ShlBelow(a, k, i - 1);
      if i > k {
        PowerAdds(k, i - 1 - k);
        Distributes(Pow2(k), ValueBelow(a, i - k - 1), Pow2(i - 1 - k));
      }
    }
  }

  /** The low `k` bits and the rest. */
  lemma {:induction false} SplitBelow(a: Bits, k: nat, i: nat)
    requires k + i <= |a|
    ensures ValueBelow(a, k + i) == ValueBelow(a, k) + Pow2(k) * ValueBelow(Shr(a, k), i)
  {
    if i > 0 {
      SplitBelow(a, k, i - 1);
      PowerAdds(k, i - 1);
      Distributes(Pow2(k), ValueBelow(Shr(a, k), i - 1), Pow2(i - 1));
    }
  }

  /** The low bits are the remainder. */
  lemma LowBitsAreRemainder(a: Bits, k: nat)
    requires k <= |a|
    ensures ValueBelow(a, k) == Value(a) % Pow2(k)
  {
    SplitBelow(a, k, |a| - k);
    ValueInRange(a, k);
    DivModIs(Value(a), Pow2(k), ValueBelow(Shr(a, k), |a| - k), ValueBelow(a, k));
  }

  lemma ScaledSplit(v: nat, low: nat, high: nat, p: nat, q: nat, n: nat)
    requires v == low + p * high && n == p * q
    ensures v * q == n * high + q * low
  {
    assert p * high * q == p * q * high;
  }

  /** Shifting left multiplies, modulo the width. */
  lemma ShlIsMultiplication(a: Bits, k: nat)
    requires k <= |a|
    ensures Value(Shl(a, k)) == Value(a) * Pow2(k) % Pow2(|a|)
  {
    var n := |a|;
    var low, high := ValueBelow(a, n - k), ValueBelow(Shr(a, n - k), k);
    SplitBelow(a, n - k, k);
    ShlBelow(a, k, n);
    ValueInRange(Shl(a, k), n);
    PowerAdds(n - k, k);
    ScaledSplit(Value(a), low, high, Pow2(n - k), Pow2(k), Pow2(n));
    DivModIs(Value(a) * Pow2(k), Pow2(n), high, Value(Shl(a, k)));
  }

  lemma {:induction false} ShrAbove(a: Bits, k: nat, i: nat)
    requires k <= |a| && |a| - k <= i <= |a|
    ensures ValueBelow(Shr(a, k), i) == ValueBelow(Shr(a, k), |a| - k)
    decreases i
  {
    if i > |a| - k { ShrAbove(a, k, i - 1); }
  }

  /** Shifting right divides. */
  lemma ShrIsDivision(a: Bits, k: nat)
    requires k <= |a|
    ensures Value(Shr(a, k)) == Value(a) / Pow2(k)
  {
    SplitBelow(a, k, |a| - k);
    ShrAbove(a, k, |a|);
    ValueInRange(a, k);
    DivModIs(Value(a), Pow2(k), Value(Shr(a, k)), ValueBelow(a, k));
  }

  lemma {:induction false} SraBelow(a: Bits, k: nat, i: nat)
    requires k < |a| && i <= |a|
    ensures ValueBelow(Sra(a, k), i)
            == ValueBelow(Shr(a, k), i) + if i > |a| - k && a[|a| - 1] then Pow2(i) - Pow2(|a| - k) else 0
  {
    if i > 0 { SraBelow(a, k, i - 1); }
  }

  lemma SignedQuotient(v: nat, low: nat, high: nat, p: nat, m: nat, negative: bool)
    requires low < p && v == low + p * high
    ensures (v - if negative then p * m else 0) / p == high - if negative then m else 0
  {
    var q := high - if negative then m else 0;
    Distributes(p, high, 0 - m);
    DivModIs(v - if negative then p * m else 0, p, q, low);
  }

  lemma SraValue(a: Bits, k: nat)
    requires k < |a|
    ensures SignedValue(Sra(a, k)) == Value(Shr(a, k)) - if a[|a| - 1] then Pow2(|a| - k) else 0
  {
    SraBelow(a, k, |a|);
    assert Sra(a, k)[|a| - 1] == a[|a| - 1];
  }

  /** The arithmetic shift divides the signed number, rounding down. */
  lemma SraIsFloorDivision(a: Bits, k: nat)
    requires k < |a|
    ensures SignedValue(Sra(a, k)) == SignedValue(a) / Pow2(k)
  {
    SraValue(a, k);
    SplitBelow(a, k, |a| - k);
    ShrAbove(a, k, |a|);
    ValueInRange(a, k);
    PowerAdds(k, |a| - k);
    SignedQuotient(Value(a), ValueBelow(a, k), Value(Shr(a, k)), Pow2(k), Pow2(|a| - k), a[|a| - 1]);
  }

  /** A bit is the corresponding binary digit. */
  lemma BitIsDigit(a: Bits, k: nat)
    requires k < |a|
    ensures a[k] <==> Value(a) / Pow2(k) % 2 == 1
  {
    ShrIsDivision(a, k);
    LowBitsAreRemainder(Shr(a, k), 1);
    assert Pow2(1) == 2;
    assert ValueBelow(Shr(a, k), 1) == if a[k] then 1 else 0;
  }

  // ---------- 32 bits inside 64 ----------

  function Low(x: U64): U32 { x[..32] }

  function Sext(x: U32): U64 { x + seq(32, i => x[31]) }

  lemma LowOfSext(x: U32)
    ensures Low(Sext(x)) == x
  {
  }

  /** Sign extension keeps the number. */
  lemma {:induction false} SextBelow(x: U32, n: nat)
    requires 32 <= n <= 64
    ensures ValueBelow(Sext(x), n) == Value(x) + if x[31] then Pow2(n) - Pow2(32) else 0
  {
    if n == 32 {
      ValuePrefix(Sext(x), x, 32);
    } else {
      SextBelow(x, n - 1);
    }
  }

  lemma {:induction false} ValuePrefix(a: Bits, b: Bits, n: nat)
    requires n <= |a| && n <= |b| && a[..n] == b[..n]
    ensures ValueBelow(a, n) == ValueBelow(b, n)
  {
    if n > 0 {
      assert a[n - 1] == a[..n][n - 1] == b[..n][n - 1] == b[n - 1];
      assert a[..n - 1] == a[..n][..n - 1] == b[..n][..n - 1] == b[..n - 1];
      ValuePrefix(a, b, n - 1);
    }
  }

  lemma SextKeepsTheNumber(x: U32)
    ensures SignedValue(Sext(x)) == SignedValue(x)
  {
    SextBelow(x, 64);
  }

  lemma BitwiseOfSext(a: U32, b: U32)
    ensures Xor(Sext(a), Sext(b)) == Sext(Xor(a, b))
    ensures Or(Sext(a), Sext(b)) == Sext(Or(a, b))
    ensures And(Sext(a), Sext(b)) == Sext(And(a, b))
  {
  }

  lemma {:induction false} LessBelowOfSext(a: U32, b: U32, n: nat)
    requires n <= 32
    ensures LessBelow(Sext(a), Sext(b), n) == LessBelow(a, b, n)
  {
    if n > 0 { LessBelowOfSext(a, b, n - 1); }
  }

  lemma {:induction false} LessAboveOfSext(a: U32, b: U32, n: nat)
    requires 32 <= n <= 64
    ensures LessBelow(Sext(a), Sext(b), n) == LessBelow(a, b, 32)
  {
    if n == 32 {
      LessBelowOfSext(a, b, 32);
    } else {
      LessAboveOfSext(a, b, n - 1);
    }
  }

  /** Comparisons do not notice sign extension. */
  lemma LessOfSext(a: U32, b: U32)
    ensures LessUnsigned(Sext(a), Sext(b)) == LessUnsigned(a, b)
    ensures LessSigned(Sext(a), Sext(b)) == LessSigned(a, b)
    ensures (Sext(a) == Sext(b)) == (a == b)
  {
    LessAboveOfSext(a, b, 64);
    LowOfSext(a);
    LowOfSext(b);
  }

  lemma FlagOfSext(f: bool)
    ensures Sext(Flag(f, 32)) == Flag(f, 64)
  {
  }
}
