/** Shifts, divisions by powers of two, and parity, stated bit by bit and as integer arithmetic. */
module Shifts {
  import opened Words
  import opened Isa
  import opened Storage
  import opened Machine
  import opened Arithmetic

  // ----- bits of products, quotients and remainders -----

  lemma {:induction false} BitTimes(a: nat, k: nat, i: nat)
    ensures a * Pow2(k) >= 0 && Bit(a * Pow2(k), i) == (i >= k && Bit(a, i - k))
  {
    if k > 0 {
      var p := Pow2(k - 1);
      assert a * Pow2(k) == 2 * (a * p);
      BitTimes(a, k - 1, if i > 0 then i - 1 else 0);
    }
  }

  lemma {:induction false} BitQuotient(a: nat, k: nat, i: nat)
    ensures a / Pow2(k) >= 0 && Bit(a / Pow2(k), i) == Bit(a, i + k)
    decreases k
  {
    if k > 0 {
      HalveQuotient(a, Pow2(k - 1));
      BitQuotient(a / 2, k - 1, i);
    }
  }

  lemma {:induction false} BitRemainder(a: nat, n: nat, i: nat)
    ensures a % Pow2(n) >= 0 && Bit(a % Pow2(n), i) == (i < n && Bit(a, i))
    decreases n
  {
    if n == 0 {
      NoBits(i);
    } else {
      HalveQuotient(a, Pow2(n - 1));
      if i > 0 {
        BitRemainder(a / 2, n - 1, i - 1);
        GluedBit(a / 2 % Pow2(n - 1), a % 2, i);
      }
    }
  }

  lemma GluedBit(x: nat, p: nat, i: nat)
    requires p < 2 && i > 0
    ensures Bit(2 * x + p, i) == Bit(x, i - 1)
  {
    assert (2 * x + p) / 2 == x;
  }

  lemma {:induction false} NoBits(i: nat)
    ensures !Bit(0, i)
  {
    if i > 0 {
      NoBits(i - 1);
    }
  }

  lemma {:induction false} BitConcat(high: nat, low: nat, m: nat, i: nat)
    requires low < Pow2(m)
    ensures high * Pow2(m) >= 0 && Bit(high * Pow2(m) + low, i) == if i < m then Bit(low, i) else Bit(high, i - m)
    decreases m
  {
    if m > 0 {
      ShiftBit(high, low, Pow2(m - 1));
      if i > 0 {
        BitConcat(high, low / 2, m - 1, i - 1);
      }
    }
  }

  lemma {:induction false} BitOnes(k: nat, i: nat)
    ensures Bit(Pow2(k) - 1, i) == (i < k)
    decreases k
  {
    if k == 0 {
      NoBits(i);
    } else if i > 0 {
      assert (Pow2(k) - 1) / 2 == Pow2(k - 1) - 1;
      BitOnes(k - 1, i - 1);
    }
  }

  // ----- shifts move bits -----

  lemma Pow2Pos(k: nat, n: nat)
    requires k <= n
    ensures Pow2(n) == Pow2(k) * Pow2(n - k)
  {
    Pow2Add(k, n - k);
  }

  /** SHL moves bit i - k to bit i and fills with zeros. */
  lemma ShlBits(regs: registers, dst: nibble, a: dword, k: nat, i: nat)
    requires dst != REG_FLGS && k < 32 && i < 32
    ensures Bit(AluResult(Shl, regs, dst, a, k)[dst], i) == (i >= k && Bit(a, i - k))
  {
    Pow2Values();
    hide Pow2, Bit, Put;
    BitTimes(a, k, i);
    BitRemainder(a * Pow2(k), 32, i);
  }

  /** SHR moves bit i + k to bit i and fills with zeros. */
  lemma ShrBits(regs: registers, dst: nibble, a: dword, k: nat, i: nat)
    requires dst != REG_FLGS && k < 32
    ensures Bit(AluResult(Shr, regs, dst, a, k)[dst], i) == Bit(a, i + k)
  {
    BitQuotient(a, k, i);
  }

  /** SAR moves bit i + k to bit i and fills with the sign bit: the arithmetic shift is floor division. */
  lemma SarBits(regs: registers, dst: nibble, a: dword, k: nat, i: nat)
    requires dst != REG_FLGS && k < 32 && i < 32
    ensures Bit(AluResult(Sar, regs, dst, a, k)[dst], i) == if i + k < 32 then Bit(a, i + k) else a >= 0x8000_0000
  {
    SarResult(regs, dst, a, k);
    SarValue(a, k);
    BitQuotient(a, k, i);
    hide AluResult, Bit, Pow2;
    if a < 0x8000_0000 {
      HighBits(a, i + k);
    } else {
      QuotientBelow(a, k);
      BitConcat(Pow2(k) - 1, a / Pow2(k), 32 - k, i);
      if i + k >= 32 {
        BitOnes(k, i - (32 - k));
      }
    }
  }

  lemma SarResult(regs: registers, dst: nibble, a: dword, k: nat)
    requires dst != REG_FLGS && k < 32
    ensures AluResult(Sar, regs, dst, a, k)[dst] == Wrap(Signed32(a) / Pow2(k))
  {
    hide Put, Pow2;
  }

  lemma {:induction false} BitBeyond(x: nat, n: nat, i: nat)
    requires x < Pow2(n) && i >= n
    ensures !Bit(x, i)
    decreases n
  {
    if n == 0 {
      NoBits(i);
    } else {
      BitBeyond(x / 2, n - 1, i - 1);
    }
  }

  lemma HighBits(a: dword, j: nat)
    requires a < 0x8000_0000
    ensures j >= 31 ==> !Bit(a, j)
  {
    Pow2Values();
    assert Pow2(32) == 2 * Pow2(31);
    if j >= 31 {
      BitBeyond(a, 31, j);
    }
  }

  lemma QuotientBelow(a: dword, k: nat)
    requires k <= 32
    ensures 0 <= a / Pow2(k) < Pow2(32 - k)
  {
    Pow2Values();
    Pow2Pos(k, 32);
    assert Pow2(k) * Pow2(32 - k) == Pow2(32 - k) * Pow2(k);
    QuotientLess(a, Pow2(k), Pow2(32 - k));
  }

  lemma ProductOrder(q: int, m: int, p: nat)
    ensures q >= m ==> q * p >= m * p
  {
  }

  /** The value of an arithmetic shift, with the fill bits written out. */
  lemma SarValue(a: dword, k: nat)
    requires k < 32
    ensures (Pow2(k) - 1) * Pow2(32 - k) >= 0
    ensures Wrap(Signed32(a) / Pow2(k)) ==
            if a < 0x8000_0000 then a / Pow2(k) else (Pow2(k) - 1) * Pow2(32 - k) + a / Pow2(k)
  {
    Pow2Values();
    hide Pow2;
    Pow2Pos(k, 32);
    QuotientBelow(a, k);
    ProductSign(Pow2(k) - 1, Pow2(32 - k));
    if a < 0x8000_0000 {
      QuotientBound(a, Pow2(k));
    } else {
      NegativeQuotient(a, Pow2(k), Pow2(32 - k));
    }
  }

  lemma NegativeQuotient(a: dword, p: nat, m: nat)
    requires p > 0 && p * m == DWORD_MODULUS && 0 <= a / p < m
    ensures (a - DWORD_MODULUS) / p == a / p - m
    ensures (p - 1) * m == DWORD_MODULUS - m
    ensures m <= DWORD_MODULUS
  {
    var q, r := a / p, a % p;
    assert a == q * p + r;
    assert (q - m) * p == q * p - m * p && m * p == p * m;
    DivModUnique(a - DWORD_MODULUS, p, q - m, r);
    assert (p - 1) * m == p * m - m;
    ProductSign(p - 1, m);
  }

  // ----- division -----

  lemma QuotientHalves(n: nat, d: nat)
    requires d >= 2
    ensures 0 <= n / d && 2 * (n / d) <= n
  {
    var q := n / d;
    assert n == q * d + n % d;
    ProductOrder(d, 2, q);
  }

  lemma TruncMagnitude(x: int, y: int)
    requires y != 0
    ensures y == 1 ==> TruncDiv(x, y) == x
    ensures y == -1 ==> TruncDiv(x, y) == -x
    ensures y != 1 && y != -1 ==> -(if x < 0 then -x else x) <= 2 * TruncDiv(x, y) <= (if x < 0 then -x else x)
  {
    var n, d := if x < 0 then -x else x, if y < 0 then -y else y;
    SignOfDivisor(n, d);
    if d >= 2 {
      QuotientHalves(n, d);
    }
  }

  lemma SignOfDivisor(n: int, d: int)
    requires n >= 0 && d > 0
    ensures n / (-d) == -(n / d)
  {
    var q, r := n / d, n % d;
    assert n == q * d + r && q * d == (-q) * (-d);
    var e := n / (-d) + q;
    assert n == n / (-d) * (-d) + n % (-d);
    assert e * d == n / (-d) * d + q * d;
    assert n / (-d) * (-d) == -(n / (-d) * d);
    MulSteps(e, d);
  }

  lemma WrapSigned(x: int)
    ensures Signed32(Wrap(x)) == x <==> !SignedOverflow(x)
  {
    if !SignedOverflow(x) {
      if x >= 0 {
        DivModUnique(x, DWORD_MODULUS, 0, x);
      } else {
        DivModUnique(x, DWORD_MODULUS, -1, x + DWORD_MODULUS);
      }
    }
  }

  lemma QuotientOverflow(a: dword, b: dword)
    requires b != 0
    ensures SignedOverflow(TruncDiv(Signed32(a), Signed32(b))) <==> a == 0x8000_0000 && b == 0xFFFF_FFFF
  {
    TruncMagnitude(Signed32(a), Signed32(b));
  }

  /** SDIV sets O exactly for the most negative number divided by minus one and then leaves 0, else the quotient. */
  lemma SdivOverflow(regs: registers, dst: nibble, a: dword, b: dword)
    requires dst != REG_FLGS && b != 0
    ensures var r := AluResult(SDiv, regs, dst, a, b);
            && (Has(r[REG_FLGS], O) <==> a == 0x8000_0000 && b == 0xFFFF_FFFF)
            && (Has(r[REG_FLGS], O) ==> r[dst] == 0)
            && (!Has(r[REG_FLGS], O) ==> Signed32(r[dst]) == TruncDiv(Signed32(a), Signed32(b)))
  {
    hide Has, Put, TruncDiv;
    var q := TruncDiv(Signed32(a), Signed32(b));
    QuotientOverflow(a, b);
    WithFlagHas(regs, O, SignedOverflow(q), O);
    WrapSigned(q);
    hide SignedOverflow;
  }

  /** Truncation and floor differ by one, exactly for negative inexact dividends. */
  lemma TruncVersusFloor(x: int, p: nat)
    requires p > 0
    ensures TruncDiv(x, p) == x / p + if x < 0 && x % p != 0 then 1 else 0
  {
    var q, r := x / p, x % p;
    assert x == q * p + r;
    if x < 0 {
      assert (-q) * p == -(q * p) && (-q - 1) * p == -(q * p) - p;
      if r == 0 {
        DivModUnique(-x, p, -q, 0);
      } else {
        DivModUnique(-x, p, -q - 1, p - r);
      }
    }
  }

  lemma SmallPower(k: nat)
    requires k < 31
    ensures 0 < Pow2(k) < 0x8000_0000
  {
    Pow2Values();
    Pow2Pos(k, 31);
    assert Pow2(32) == 2 * Pow2(31);
    assert Pow2(31 - k) == 2 * Pow2(31 - k - 1);
    ProductOrder(Pow2(31 - k), 2, Pow2(k));
    assert Pow2(k) * Pow2(31 - k) == Pow2(31 - k) * Pow2(k);
  }

  /** SDIV by 2^k leaves what SAR by k leaves, plus one exactly for negative inexact dividends, and never overflows. */
  lemma SdivVersusSar(regs: registers, dst: nibble, a: dword, p: dword, k: nat)
    requires dst != REG_FLGS && k < 31 && p == Pow2(k)
    ensures p > 0
    ensures var q, s := AluResult(SDiv, regs, dst, a, p), AluResult(Sar, regs, dst, a, k);
            && Signed32(q[dst]) == Signed32(s[dst]) + (if Signed32(a) < 0 && Signed32(a) % p != 0 then 1 else 0)
            && !Has(q[REG_FLGS], O)
  {
    hide AluResult, Has, TruncDiv, Pow2, SignedOverflow;
    SmallPower(k);
    TruncVersusFloor(Signed32(a), p);
    SdivOverflow(regs, dst, a, p);
    SarResult(regs, dst, a, k);
    FloorFits(a, p);
    WrapSigned(Signed32(a) / p);
  }

  lemma FloorFits(a: dword, p: nat)
    requires p > 0
    ensures !SignedOverflow(Signed32(a) / p)
  {
    var x := Signed32(a);
    var q, r := x / p, x % p;
    assert x == q * p + r;
    ProductGrows(q, p);
    if q < -0x8000_0000 {
      ProductOrder(-0x8000_0001, q, p);
      ProductGrows(-0x8000_0001, p);
    }
  }

  /** Dividing by 2^k is shifting right by k. */
  lemma DivIsShr(regs: registers, dst: nibble, a: dword, p: dword, k: nat)
    requires dst != REG_FLGS && k < 32 && p == Pow2(k)
    ensures AluResult(Div, regs, dst, a, p)[dst] == AluResult(Shr, regs, dst, a, k)[dst]
  {
    hide Pow2, Put;
  }

  /** Multiplying by 2^k modulo 2^32 is shifting left by k. */
  lemma MulIsShl(regs: registers, dst: nibble, a: dword, p: dword, k: nat)
    requires dst != REG_FLGS && k < 32 && p == Pow2(k)
    ensures AluResult(Mul, regs, dst, a, p)[dst] == AluResult(Shl, regs, dst, a, k)[dst]
  {
    hide Pow2, Put;
  }

  /** The register form of MOD by 2^k is AND with the mask of the k low bits. */
  lemma ModIsAnd(regs: registers, dst: nibble, a: dword, p: dword, k: nat)
    requires dst != REG_FLGS && k < 32 && p == Pow2(k)
    ensures AluResult(Mod, regs, dst, a, p)[dst] == AluResult(BitAnd, regs, dst, a, p - 1)[dst]
  {
    hide Pow2, Bitwise;
    MaskLow(a, k);
  }

  // ----- parity -----

  /** The parity of a bitwise exclusive or is the exclusive or of the parities. */
  lemma XorPopCountBit(a: nat, p: nat, b: nat, q: nat)
    requires p < 2 && q < 2 && PopCount(Xor(a, b)) % 2 == (PopCount(a) + PopCount(b)) % 2
    ensures PopCount(Xor(2 * a + p, 2 * b + q)) % 2 == (PopCount(2 * a + p) + PopCount(2 * b + q)) % 2
  {
    hide PopCount, Bitwise, GateBit;
    var g := GateBit(Excl, p, q);
    BitwiseBit(Excl, a, p, b, q);
    PopCountBit(Xor(a, b), g);
    PopCountBit(a, p);
    PopCountBit(b, q);
    ParitySum(PopCount(Xor(a, b)), PopCount(a), PopCount(b), p, q);
  }

  lemma {:induction false} XorPopCount(a: nat, b: nat)
    ensures PopCount(Xor(a, b)) % 2 == (PopCount(a) + PopCount(b)) % 2
    decreases a + b
  {
    hide PopCount, Bitwise, Xor;
    if a != 0 || b != 0 {
      XorPopCount(a / 2, b / 2);
      XorPopCountBit(a / 2, a % 2, b / 2, b % 2);
    } else {
      BitwiseUnits(0);
      PopCountHalve(0);
    }
  }

  lemma ParitySum(x: nat, y: nat, z: nat, p: nat, q: nat)
    requires x % 2 == (y + z) % 2 && p < 2 && q < 2
    ensures (GateBit(Excl, p, q) + x) % 2 == ((p + y) + (q + z)) % 2
  {
  }

  lemma PopCountBit(x: nat, p: nat)
    requires p < 2
    ensures PopCount(2 * x + p) == p + PopCount(x)
  {
    assert (2 * x + p) / 2 == x && (2 * x + p) % 2 == p;
  }

  /** What TEST leaves in the flags. */
  lemma TestFlags(regs: registers, v: dword)
    ensures var f := TestResult(regs, v)[REG_FLGS];
            && (Has(f, Z) <==> v == 0) && (Has(f, S) <==> Signed32(v) < 0) && (Has(f, E) <==> v % 2 == 0)
            && (Has(f, P) <==> PopCount(v) % 2 == 1)
            && (Has(f, C) <==> Has(regs[REG_FLGS], C)) && (Has(f, O) <==> Has(regs[REG_FLGS], O))
  {
    var r1 := WithFlag(regs, Z, v == 0);
    var r2 := WithFlag(r1, S, v >= 0x8000_0000);
    var r3 := WithFlag(r2, E, v % 2 == 0);
    hide Has, Put, PopCount;
    forall y: Flag
      ensures Has(TestResult(regs, v)[REG_FLGS], y) ==
              if y == Z then v == 0 else if y == S then v >= 0x8000_0000 else if y == E then v % 2 == 0
              else if y == P then PopCount(v) % 2 == 1 else Has(regs[REG_FLGS], y)
    {
      WithFlagHas(regs, Z, v == 0, y);
      WithFlagHas(r1, S, v >= 0x8000_0000, y);
      WithFlagHas(r2, E, v % 2 == 0, y);
      WithFlagHas(r3, P, PopCount(v) % 2 == 1, y);
    }
  }

  /** TEST after XOR: the parity flag is set exactly when the operands' parities differ. */
  lemma XorThenTest(regs: registers, a: dword, b: dword)
    ensures Has(TestResult(regs, Gate32(Excl, a, b))[REG_FLGS], P) <==>
            Has(TestResult(regs, a)[REG_FLGS], P) != Has(TestResult(regs, b)[REG_FLGS], P)
  {
    hide Has, TestResult, PopCount, Bitwise;
    TestFlags(regs, a);
    TestFlags(regs, b);
    TestFlags(regs, Gate32(Excl, a, b));
    XorPopCount(a, b);
  }
}
