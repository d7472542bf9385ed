/** Fixed-width integers, two's complement, and the bitwise operators of C on natural numbers. */
module Words {
  const DWORD_MODULUS := 0x1_0000_0000
  const DWORD_MAX := 0xFFFF_FFFF

  type byte = x: int | 0 <= x < 0x100
  type word = x: int | 0 <= x < 0x1_0000
  type dword = x: int | 0 <= x < 0x1_0000_0000
  type qword = x: int | 0 <= x < 0x1_0000_0000_0000_0000
  type nibble = x: int | 0 <= x < 0x10

  /** Truncation to 32 bits. */
  function Wrap(x: int): dword {
    x % 0x1_0000_0000
  }

  function Signed32(x: dword): int {
    if x < 0x8000_0000 then x else x - 0x1_0000_0000
  }

  function Signed16(x: word): int {
    if x < 0x8000 then x else x - 0x1_0000
  }

  function Pow2(n: nat): (p: nat)
    ensures p >= 1
  {
    if n == 0 then 1 else 2 * Pow2(n - 1)
  }

  lemma {:induction false} Pow2Add(m: nat, n: nat)
    ensures Pow2(m + n) == Pow2(m) * Pow2(n)
  {
    if m > 0 {
      Pow2Add(m - 1, n);
      assert Pow2(m + n) == 2 * Pow2(m - 1 + n);
      MulAssoc(2, Pow2(m - 1), Pow2(n));
    }
  }

  lemma Pow2Step(n: nat)
    requires n > 0
    ensures Pow2(n) == 2 * Pow2(n - 1)
  {
  }

  lemma Pow2Zero()
    ensures Pow2(0) == 1
  {
  }

  lemma Pow2Values()
    ensures Pow2(4) == 0x10 && Pow2(6) == 0x40 && Pow2(8) == 0x100 && Pow2(12) == 0x1000
    ensures Pow2(16) == 0x1_0000 && Pow2(24) == 0x100_0000 && Pow2(32) == 0x1_0000_0000
  {
    assert Pow2(4) == 0x10 && Pow2(6) == 0x40 && Pow2(8) == 0x100;
    Pow2Add(8, 4);
    Pow2Add(8, 8);
    Pow2Add(16, 8);
    Pow2Add(16, 16);
  }

  lemma MulAssoc(x: int, y: int, z: int)
    ensures x * y * z == x * (y * z)
  {
  }

  lemma DivModUnique(x: int, d: int, q: int, r: int)
    requires 0 <= r < d && x == q * d + r
    ensures x / d == q && x % d == r
  {
    var e := x / d - q;
    assert e * d + x % d == r;
    MulSteps(e, d);
  }

  lemma HalveQuotient(a: nat, p: nat)
    requires p > 0
    ensures a / (2 * p) == a / 2 / p && a % (2 * p) == 2 * (a / 2 % p) + a % 2
  {
    var q, r := a / 2 / p, a / 2 % p;
    assert a / 2 == q * p + r;
    assert q * (2 * p) == 2 * (q * p);
    DivModUnique(a, 2 * p, q, 2 * r + a % 2);
  }

  /** Reducing an intermediate sum does not change a remainder. */
  lemma ModSum(x: int, y: int, m: int)
    requires m > 0
    ensures (x % m + y) % m == (x + y) % m
  {
    var q, r := (x % m + y) / m, (x % m + y) % m;
    assert x % m + y == q * m + r && x == x / m * m + x % m;
    assert (q + x / m) * m == q * m + x / m * m;
    DivModUnique(x + y, m, q + x / m, r);
  }

  lemma QuotientLess(a: nat, p: nat, m: nat)
    requires p > 0 && a < m * p
    ensures 0 <= a / p < m
  {
    var e := a / p - m;
    assert a == a / p * p + a % p;
    assert e * p == a / p * p - m * p;
    ProductSign(e, p);
  }

  lemma ProductSign(e: int, p: int)
    requires p > 0
    ensures e >= 0 ==> e * p >= 0
  {
  }

  lemma MulSteps(e: int, d: int)
    requires d > 0
    ensures e >= 1 ==> e * d >= d
    ensures e <= -1 ==> e * d <= -d
  {
  }

  // ----- single bits -----

  predicate Bit(x: nat, i: nat) {
    if i == 0 then x % 2 == 1 else Bit(x / 2, i - 1)
  }

  function PutBit(x: nat, i: nat, b: bool): nat {
    if i == 0 then x - x % 2 + (if b then 1 else 0) else 2 * PutBit(x / 2, i - 1, b) + x % 2
  }

  lemma PutBitStep(x: nat, i: nat, b: bool)
    ensures PutBit(x, i, b) == if i == 0 then x - x % 2 + (if b then 1 else 0) else 2 * PutBit(x / 2, i - 1, b) + x % 2
  {
  }

  lemma {:induction false} PutBitBound(x: nat, i: nat, b: bool, n: nat)
    requires i < n && x < Pow2(n)
    ensures PutBit(x, i, b) < Pow2(n)
  {
    Pow2Step(n);
    PutBitStep(x, i, b);
    hide Pow2, PutBit;
    assert x == 2 * (x / 2) + x % 2 && x / 2 < Pow2(n - 1);
    if i > 0 {
      PutBitBound(x / 2, i - 1, b, n - 1);
    }
  }

  /** Writing one bit changes that bit and no other. */
  lemma {:induction false} BitPutBit(x: nat, i: nat, b: bool, j: nat)
    ensures Bit(PutBit(x, i, b), j) == if i == j then b else Bit(x, j)
  {
    if i > 0 && j > 0 {
      BitPutBit(x / 2, i - 1, b, j - 1);
    }
  }

  /** Writing the bit that is there changes nothing. */
  lemma {:induction false} PutSameBit(x: nat, i: nat)
    ensures PutBit(x, i, Bit(x, i)) == x
  {
    PutBitStep(x, i, Bit(x, i));
    if i > 0 {
      PutSameBit(x / 2, i - 1);
    }
  }

  function PutBit32(x: dword, i: nat, b: bool): dword
    requires i < 32
  {
    Pow2Values();
    PutBitBound(x, i, b, 32);
    PutBit(x, i, b)
  }

  // ----- bitwise operators -----

  datatype Gate = Conj | Disj | Excl

  function GateBit(g: Gate, p: int, q: int): (r: nat)
    requires 0 <= p < 2 && 0 <= q < 2
    ensures r < 2
  {
    match g
    case Conj => p * q
    case Disj => if p + q > 0 then 1 else 0
    case Excl => if p == q then 0 else 1
  }

  function Bitwise(g: Gate, a: nat, b: nat): nat
    decreases a + b
  {
    if a == 0 && b == 0 then 0 else 2 * Bitwise(g, a / 2, b / 2) + GateBit(g, a % 2, b % 2)
  }

  function And(a: nat, b: nat): nat { Bitwise(Conj, a, b) }

  function Or(a: nat, b: nat): nat { Bitwise(Disj, a, b) }

  function Xor(a: nat, b: nat): nat { Bitwise(Excl, a, b) }

  function Not32(a: dword): dword { DWORD_MAX - a }

  /** Gluing one more bit below two numbers glues the combined bit below the result. */
  lemma BitwiseBit(g: Gate, a: nat, p: nat, b: nat, q: nat)
    requires p < 2 && q < 2
    ensures Bitwise(g, 2 * a + p, 2 * b + q) == 2 * Bitwise(g, a, b) + GateBit(g, p, q)
  {
    var x, y := 2 * a + p, 2 * b + q;
    assert x / 2 == a && x % 2 == p && y / 2 == b && y % 2 == q;
  }

  lemma BitwiseZero(g: Gate)
    ensures Bitwise(g, 0, 0) == 0
  {
  }

  lemma ShiftBit(x: nat, low: nat, p: nat)
    ensures x * p >= 0 && x * (2 * p) + low == 2 * (x * p + low / 2) + low % 2
  {
    assert x * (2 * p) == 2 * (x * p);
  }

  /** A bitwise operator works independently on the bits below and from position k. */
  lemma {:induction false} BitwiseSplit(g: Gate, k: nat, a1: nat, a0: nat, b1: nat, b0: nat)
    requires a0 < Pow2(k) && b0 < Pow2(k)
    ensures Bitwise(g, a0, b0) < Pow2(k)
    ensures a1 * Pow2(k) >= 0 && b1 * Pow2(k) >= 0
    ensures Bitwise(g, a1 * Pow2(k) + a0, b1 * Pow2(k) + b0) == Bitwise(g, a1, b1) * Pow2(k) + Bitwise(g, a0, b0)
  {
    BitwiseZero(g);
    hide Bitwise, GateBit;
    if k > 0 {
      var p := Pow2(k - 1);
      BitwiseSplit(g, k - 1, a1, a0 / 2, b1, b0 / 2);
      ShiftBit(a1, a0, p);
      ShiftBit(b1, b0, p);
      BitwiseBit(g, a1 * p + a0 / 2, a0 % 2, b1 * p + b0 / 2, b0 % 2);
      BitwiseBit(g, a0 / 2, a0 % 2, b0 / 2, b0 % 2);
      var high, low := Bitwise(g, a1, b1), Bitwise(g, a0, b0);
      assert low == 2 * Bitwise(g, a0 / 2, b0 / 2) + GateBit(g, a0 % 2, b0 % 2);
      ShiftBit(high, low, p);
    }
  }

  /** The result of a bitwise operator on two n-bit numbers has n bits. */
  lemma BitwiseBound(g: Gate, n: nat, a: nat, b: nat)
    requires a < Pow2(n) && b < Pow2(n)
    ensures Bitwise(g, a, b) < Pow2(n)
  {
    BitwiseSplit(g, n, 0, a, 0, b);
  }

  lemma {:induction false} BitwiseUnits(a: nat)
    ensures And(a, 0) == 0 && And(0, a) == 0 && Or(a, 0) == a && Or(0, a) == a && Xor(a, a) == 0 && Xor(a, 0) == a
    decreases a
  {
    if a > 0 {
      BitwiseUnits(a / 2);
    }
  }

  /** A mask with one more bit below keeps or clears the lowest bit. */
  lemma AndStep(x: nat, mask: nat)
    ensures And(x, 2 * mask + 1) == 2 * And(x / 2, mask) + x % 2
    ensures And(x, 2 * mask) == 2 * And(x / 2, mask)
  {
    hide Bitwise;
    BitwiseBit(Conj, x / 2, x % 2, mask, 1);
    BitwiseBit(Conj, x / 2, x % 2, mask, 0);
  }

  /** Masking with k ones is reduction modulo 2^k. */
  lemma {:induction false} MaskLow(a: nat, k: nat)
    ensures And(a, Pow2(k) - 1) == a % Pow2(k)
    decreases k
  {
    if k == 0 {
      Pow2Zero();
      BitwiseUnits(a);
    } else {
      Pow2Step(k);
      hide And, Pow2;
      MaskLow(a / 2, k - 1);
      AndStep(a, Pow2(k - 1) - 1);
      HalveQuotient(a, Pow2(k - 1));
    }
  }

  /** Shifting left by k and or-ing in k low bits is concatenation. */
  lemma OrConcat(k: nat, high: nat, low: nat)
    requires low < Pow2(k)
    ensures high * Pow2(k) >= 0 && Or(high * Pow2(k), low) == high * Pow2(k) + low
  {
    hide Bitwise, Pow2;
    BitwiseSplit(Disj, k, high, 0, 0, low);
    BitwiseUnits(high);
    BitwiseUnits(low);
  }

  lemma MaskSelf(low: nat, k: nat)
    requires low < Pow2(k)
    ensures And(low, Pow2(k) - 1) == low
  {
    MaskLow(low, k);
    DivModUnique(low, Pow2(k), 0, low);
  }

  /** Masking off the w low bits of an (n + w)-bit number. */
  lemma ClearLow(n: nat, w: nat, high: nat, mid: nat)
    requires high < Pow2(n) && mid < Pow2(w)
    ensures high * Pow2(w) >= 0 && (Pow2(n) - 1) * Pow2(w) >= 0
    ensures And(high * Pow2(w) + mid, (Pow2(n) - 1) * Pow2(w)) == high * Pow2(w)
  {
    hide Bitwise, Pow2;
    BitwiseSplit(Conj, w, high, mid, Pow2(n) - 1, 0);
    BitwiseUnits(mid);
    MaskSelf(high, n);
  }

  /** Masking and or-ing above position k leaves the k low bits alone. */
  lemma MaskAndInsert(k: nat, x1: nat, low: nat, m1: nat, v: nat)
    requires low < Pow2(k)
    ensures x1 * Pow2(k) >= 0 && m1 * Pow2(k) >= 0 && v * Pow2(k) >= 0
    ensures Or(And(x1 * Pow2(k) + low, m1 * Pow2(k) + (Pow2(k) - 1)), v * Pow2(k)) == Or(And(x1, m1), v) * Pow2(k) + low
  {
    hide Bitwise, Pow2;
    MaskSelf(low, k);
    BitwiseSplit(Conj, k, x1, low, m1, Pow2(k) - 1);
    assert And(x1 * Pow2(k) + low, m1 * Pow2(k) + (Pow2(k) - 1)) == And(x1, m1) * Pow2(k) + low;
    BitwiseSplit(Disj, k, And(x1, m1), low, v, 0);
    BitwiseUnits(low);
  }

  /** Replacing the w bits at position k, in the mask-and-or style of C. */
  lemma ReplaceField(n: nat, w: nat, k: nat, high: nat, mid: nat, low: nat, v: nat, x: nat, mask: nat, insert: nat)
    requires high < Pow2(n) && mid < Pow2(w) && low < Pow2(k) && v < Pow2(w)
    requires x == (high * Pow2(w) + mid) * Pow2(k) + low
    requires mask == (Pow2(n) - 1) * Pow2(w) * Pow2(k) + (Pow2(k) - 1)
    requires insert == v * Pow2(k)
    ensures Or(And(x, mask), insert) == (high * Pow2(w) + v) * Pow2(k) + low
  {
    hide Bitwise, Pow2;
    ClearLow(n, w, high, mid);
    OrConcat(w, high, v);
    MaskAndInsert(k, high * Pow2(w) + mid, low, (Pow2(n) - 1) * Pow2(w), v);
  }

  lemma {:induction false} BitwiseAtBit(g: Gate, a: nat, b: nat, i: nat)
    ensures Bit(Bitwise(g, a, b), i) == (GateBit(g, if Bit(a, i) then 1 else 0, if Bit(b, i) then 1 else 0) == 1)
    decreases i
  {
    BitwiseBit(g, a / 2, a % 2, b / 2, b % 2);
    var high, low := Bitwise(g, a / 2, b / 2), GateBit(g, a % 2, b % 2);
    assert (2 * high + low) / 2 == high && (2 * high + low) % 2 == low;
    if i > 0 {
      BitwiseAtBit(g, a / 2, b / 2, i - 1);
    }
  }

  /** The C idiom for testing one flag: and with a one-bit mask is non-zero exactly when the bit is set. */
  lemma {:induction false} TestMask(x: nat, i: nat)
    ensures And(x, Pow2(i)) == if Bit(x, i) then Pow2(i) else 0
  {
    if i == 0 {
      BitwiseBit(Conj, x / 2, x % 2, 0, 1);
      BitwiseUnits(x / 2);
    } else {
      TestMask(x / 2, i - 1);
      BitwiseBit(Conj, x / 2, x % 2, Pow2(i - 1), 0);
    }
  }

  /** The C idiom for setting one flag. */
  lemma {:induction false} OrMask(x: nat, i: nat)
    ensures Or(x, Pow2(i)) == PutBit(x, i, true)
  {
    if i == 0 {
      BitwiseBit(Disj, x / 2, x % 2, 0, 1);
      BitwiseUnits(x / 2);
    } else {
      OrMask(x / 2, i - 1);
      BitwiseBit(Disj, x / 2, x % 2, Pow2(i - 1), 0);
    }
  }

  /** The C idiom for clearing one flag of an n-bit word. */
  lemma {:induction false} AndNotMask(x: nat, i: nat, n: nat)
    requires i < n && x < Pow2(n)
    ensures Pow2(n) - 1 - Pow2(i) >= 0
    ensures And(x, Pow2(n) - 1 - Pow2(i)) == PutBit(x, i, false)
  {
    var p := Pow2(n - 1);
    Pow2Step(n);
    PutBitStep(x, i, false);
    Pow2Zero();
    hide And, Pow2, PutBit;
    if i == 0 {
      AndStep(x, p - 1);
      MaskSelf(x / 2, n - 1);
    } else {
      AndNotMask(x / 2, i - 1, n - 1);
      Pow2Step(i);
      AndStep(x, p - 1 - Pow2(i - 1));
    }
  }

  /** The k low bits, masked out, for the widths of the instruction fields. */
  function LowBits(v: nat, k: nat): (r: nat)
    requires k == 4 || k == 6 || k == 8 || k == 16
    ensures r == v % (if k == 4 then 0x10 else if k == 6 then 0x40 else if k == 8 then 0x100 else 0x1_0000)
  {
    Pow2Values();
    MaskLow(v, k);
    And(v, Pow2(k) - 1)
  }

  /** A high and a low byte joined by shift and or. */
  function OrBytes(high: nat, low: byte): (r: nat)
    ensures r == high * 0x100 + low
  {
    Pow2Values();
    OrConcat(8, high, low);
    Or(high * 0x100, low)
  }
}
