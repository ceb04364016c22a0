/**
 Signed division (`__divdi3`, `__moddi3`, `__divmoddi4`) and the branch-free bit counts (`__clzsi2`,
 `__ctzsi2`, `__clzdi2`, `__ctzdi2`).
 */
module Int64Signed {
  import opened Int64Bits
  import opened Int64Div

  const MIN: int := -0x8000_0000_0000_0000

  predicate IsSigned(x: int) { MIN <= x < TOP }

  function Abs(x: int): nat { if x < 0 then -x else x }

  /** Division truncating toward zero, and the remainder that goes with it. */
  function TruncDiv(a: int, b: int): int
    requires b != 0
  {
    var q := Abs(a) / Abs(b);
    if (a < 0) == (b < 0) then q else -q
  }

  function TruncMod(a: int, b: int): int
    requires b != 0
  {
    var r := Abs(a) % Abs(b);
    if a < 0 then -r else r
  }

  /** Together they divide: the remainder is smaller than the divisor and has the dividend's sign. */
  lemma TruncDivides(a: int, b: int)
    requires b != 0
    ensures a == TruncDiv(a, b) * b + TruncMod(a, b)
    ensures Abs(TruncMod(a, b)) < Abs(b)
    ensures a >= 0 ==> TruncMod(a, b) >= 0
    ensures a <= 0 ==> TruncMod(a, b) <= 0
  {
    var m, n := Abs(a), Abs(b);
    DivModDef(m, n);
    WithSigns(a, b, m / n, m % n);
  }

  lemma WithSigns(a: int, b: int, q: int, r: int)
    requires Abs(a) == q * Abs(b) + r
    ensures a == (if (a < 0) == (b < 0) then q else -q) * b + (if a < 0 then -r else r)
  {
    SignsOfProduct(q, Abs(b));
    if b < 0 { assert b == 0 - Abs(b); }
  }

  lemma SignsOfProduct(q: int, n: int)
    ensures (-q) * n == -(q * n) && q * (-n) == -(q * n) && (-q) * (-n) == q * n
  {
  }

  // ----- two's complement -----

  /** `x ^ s` and then `- s`, for a mask `s`, in 64-bit arithmetic: negation if `s` is -1. */
  function XorMask(x: int, s: int): int
    requires s == 0 || s == -1
  {
    if s == -1 then -x - 1 else x
  }

  function ToUnsigned(x: int): nat { x % B64 }

  /** A signed operand made non-negative, as the unsigned value that is passed on. */
  function Magnitude(x: int): nat { ToUnsigned(XorMask(x, SignMask(x)) - SignMask(x)) }

  /** An unsigned result given the sign of a mask. */
  function WithSign(u: nat, s: int): int
    requires s == 0 || s == -1
  {
    ToSigned(ToUnsigned(XorMask(u, s) - s))
  }

  lemma MagnitudeIsAbs(x: int)
    requires IsSigned(x)
    ensures Magnitude(x) == Abs(x) <= TOP
  {
    NoOverflow(Abs(x));
  }

  lemma WithSignValue(u: nat, s: int)
    requires u <= TOP && (s == 0 || s == -1)
    ensures s == -1 ==> WithSign(u, s) == 0 - u
    ensures s == 0 && u < TOP ==> WithSign(u, s) == u
    ensures s == 0 && u == TOP ==> WithSign(u, s) == MIN
  {
    if s == 0 {
      NoOverflow(u);
    } else {
      var x := 0 - u;
      assert XorMask(u, s) - s == x;
      WrapSigned(x);
    }
  }

  /** The quotient is right except for the one case whose result does not fit. */
  method Divdi3(a: int, b: int) returns (q: int)
    requires IsSigned(a) && IsSigned(b) && b != 0
    ensures q == TruncDiv(a, b) <==> !(a == MIN && b == -1)
    ensures a == MIN && b == -1 ==> q == MIN
  {
    var s_a, s_b := SignMask(a), SignMask(b);
    MagnitudeIsAbs(a);
    MagnitudeIsAbs(b);
    var u, _ := Udivmoddi4(Magnitude(a), Magnitude(b));
    var s := if s_a == s_b then 0 else -1;
    QuotientAtMost(Abs(a), Abs(b));
    WithSignValue(u, s);
    q := WithSign(u, s);
    if a == MIN && b == -1 {
      assert u == TOP / 1;
    } else if u == TOP {
      FullQuotient(Abs(a), Abs(b));
    }
  }

  lemma FullQuotient(m: nat, n: nat)
    requires 0 < n && m <= TOP && m / n == TOP
    ensures m == TOP && n == 1
  {
    assert m == TOP * n + m % n;
    assert TOP * n <= TOP;
    if n > 1 {
      Distribute(n - 1, 1, TOP);
    }
  }

  method Moddi3(a: int, b: int) returns (r: int)
    requires IsSigned(a) && IsSigned(b) && b != 0
    ensures r == TruncMod(a, b)
  {
    MagnitudeIsAbs(a);
    MagnitudeIsAbs(b);
    var _, u := Udivmoddi4(Magnitude(a), Magnitude(b));
    WithSignValue(u, SignMask(a));
    r := WithSign(u, SignMask(a));
  }

  /** `__divmoddi4` computes the remainder from the quotient, and agrees with the two above. */
  method Divmoddi4(a: int, b: int) returns (q: int, rem: int)
    requires IsSigned(a) && IsSigned(b) && b != 0
    ensures q == TruncDiv(a, b) <==> !(a == MIN && b == -1)
    ensures rem == TruncMod(a, b)
  {
    q := Divdi3(a, b);
    TruncDivides(a, b);
    rem := ToSigned(ToUnsigned(a - q * b));
    if a == MIN && b == -1 {
      assert a - q * b == MIN - TOP == 0 - B64;
      assert TruncMod(a, b) == 0;
    } else {
      WrapSigned(TruncMod(a, b));
    }
  }

  lemma WrapSigned(x: int)
    requires IsSigned(x)
    ensures ToSigned(ToUnsigned(x)) == x
  {
    if x < 0 { assert x % B64 == x + B64; } else { NoOverflow(x); }
  }

  // ----- counting zeros -----

  /** `j` ones above `k` zeros. */
  function Mask(j: nat, k: nat): nat { if k == 0 then Pow2(j) - 1 else 2 * Mask(j, k - 1) }

  lemma {:induction false} MaskProduct(j: nat, k: nat)
    ensures Mask(j, k) == (Pow2(j) - 1) * Pow2(k)
  {
    if k > 0 {
      MaskProduct(j, k - 1);
      Product3(Pow2(j) - 1, Pow2(k - 1), 2);
    }
  }

  /** Masking tells whether a number has more than `k` bits. */
  lemma {:induction false} HighMask(x: nat, j: nat, k: nat)
    requires x < Pow2(j + k)
    ensures BitAnd(x, Mask(j, k)) == 0 <==> x < Pow2(k)
  {
    if k == 0 {
      MaskIsMod(x, j);
      SmallMod(x, Pow2(j));
    } else {
      assert Pow2(j + k) == 2 * Pow2(j + (k - 1));
      HighMask(x / 2, j, k - 1);
      EvenMask(x, Mask(j, k - 1));
    }
  }

  lemma SmallMod(x: nat, p: nat)
    requires x < p
    ensures x % p == x
  {
  }

  lemma EvenMask(x: nat, m: nat)
    ensures BitAnd(x, 2 * m) == 2 * BitAnd(x / 2, m)
  {
    assert (2 * m) / 2 == m && (2 * m) % 2 == 0;
    if x == 0 && m == 0 { assert BitAnd(0, 0) == 0; }
  }

  lemma Powers()
    ensures Pow2(2) == 4 && Pow2(4) == 0x10 && Pow2(8) == 0x100 && Pow2(16) == 0x1_0000 && Pow2(32) == B32
  {
    assert Pow2(2) == 4;
    Pow2Add(2, 2);
    Pow2Add(4, 4);
    Pow2Add(8, 8);
    Pow2Word();
  }

  /** One halving step of `__clzsi2` on a word of `2 * k` bits: the high half is dropped if it is zero,
      otherwise the low half is. */
  function ClzStep(x: nat, mask: nat, k: nat): (r: (nat, nat))
    requires 0 < x < Pow2(k + k) && mask == Mask(k, k)
    ensures 0 < r.0 < Pow2(k) && r.1 + k - BitLength(r.0) == k + k - BitLength(x)
  {
    ClzStepCounts(x, k);
    var t := if BitAnd(x, mask) == 0 then k else 0;
    (Shr(x, k - t), t)
  }

  lemma ClzStepCounts(x: nat, k: nat)
    requires 0 < x < Pow2(k + k)
    ensures var t := if BitAnd(x, Mask(k, k)) == 0 then k else 0;
            var y := Shr(x, k - t);
            0 < y < Pow2(k) && t + k - BitLength(y) == k + k - BitLength(x)
  {
    HighMask(x, k, k);
    var p := Pow2(k);
    if x < p {
      assert Pow2(0) == 1 && Shr(x, 0) == x;
    } else {
      Pow2Add(k, k);
      TopPart(x, p);
      BitLengthShift(x / p, k, x % p);
    }
  }

  lemma DivModDef(x: nat, p: nat)
    requires p > 0
    ensures x == (x / p) * p + x % p && x / p >= 0 && 0 <= x % p < p
    ensures x >= p ==> x / p > 0
  {
    assert x == (x / p) * p + x % p;
  }

  lemma TopPart(x: nat, p: nat)
    requires 0 < p <= x < p * p
    ensures 0 < x / p < p && x == (x / p) * p + x % p && x % p < p
  {
    BelowProduct(x, p, p);
    DivModDef(x, p);
  }

  function Clzsi2(a: nat): (r: nat)
    requires 0 < a < B32
    ensures r == Clz(a)
  {
    Powers();
    MaskProduct(16, 16); MaskProduct(8, 8); MaskProduct(4, 4); MaskProduct(2, 2);
    var (x1, t1) := ClzStep(a, 0xFFFF_0000, 16);
    var (x2, t2) := ClzStep(x1, 0xFF00, 8);
    var (x3, t3) := ClzStep(x2, 0xF0, 4);
    var (x4, t4) := ClzStep(x3, 0xC, 2);
    BitLengthSmall(x4);
    t1 + t2 + t3 + t4 + Masked((2 - x4) % B32, if BitAnd(x4, 2) == 0 then -1 else 0)
  }

  lemma BitLengthSmall(x: nat)
    requires 0 < x < 4
    ensures BitLength(x) == (if x == 1 then 1 else 2) && (BitAnd(x, 2) == 0 <==> x == 1)
  {
    if x == 1 { assert BitAnd(0, 1) == 0; } else { assert BitAnd(1, 1) == 1; }
  }

  /** One step of `__ctzsi2`: a low half of zeros is shifted out. */
  function CtzStep(x: nat, mask: nat, k: nat): (r: (nat, nat))
    requires x > 0 && mask == Pow2(k) - 1
    ensures r.0 > 0 && r.1 + Ctz(r.0) == Ctz(x) && (Ctz(x) < k + k ==> Ctz(r.0) < k)
  {
    MaskIsMod(x, k);
    if BitAnd(x, mask) == 0 then CtzWhole(x, k); (Shr(x, k), k)
    else CtzPart(x, k); (Shr(x, 0), 0)
  }

  lemma {:induction false} CtzShift(x: nat, k: nat)
    requires x > 0
    ensures x * Pow2(k) > 0 && Ctz(x * Pow2(k)) == Ctz(x) + k
  {
    if k > 0 {
      CtzShift(x, k - 1);
      Product3(x, Pow2(k - 1), 2);
      CtzDouble(x * Pow2(k - 1));
    }
  }

  lemma CtzDouble(y: nat)
    requires y > 0
    ensures Ctz(2 * y) == 1 + Ctz(y) && Ctz(y * 2) == 1 + Ctz(y)
  {
    assert (2 * y) % 2 == 0 && (2 * y) / 2 == y;
  }

  lemma CtzWhole(x: nat, k: nat)
    requires x > 0 && x % Pow2(k) == 0
    ensures Shr(x, k) > 0 && k + Ctz(Shr(x, k)) == Ctz(x)
  {
    var p := Pow2(k);
    var y := x / p;
    WholePart(x, p);
    assert x == y * p;
    CtzShift(y, k);
  }

  lemma WholePart(x: nat, p: nat)
    requires x > 0 && p > 0 && x % p == 0
    ensures x / p > 0 && x == (x / p) * p
  {
    DivModDef(x, p);
    if x < p { SmallMod(x, p); }
  }

  lemma CtzPart(x: nat, k: nat)
    requires x > 0 && x % Pow2(k) != 0
    ensures Shr(x, 0) == x && Ctz(x) < k
  {
    assert Pow2(0) == 1;
    if Ctz(x) >= k { CtzDivides(x, k); }
  }

  lemma {:induction false} CtzDivides(x: nat, k: nat)
    requires x > 0 && Ctz(x) >= k
    ensures x % Pow2(k) == 0
  {
    if k > 0 {
      CtzDivides(x / 2, k - 1);
      HalfMod(x, Pow2(k - 1));
    } else {
      assert Pow2(0) == 1;
    }
  }

  lemma CtzWord(x: nat)
    requires 0 < x < B32
    ensures Ctz(x) < 32
  {
    PowerTest(x);
    Pow2Word();
    if Ctz(x) >= 32 { Pow2Monotone(32, Ctz(x)); }
  }

  lemma CtzSmall(x: nat)
    requires x > 0 && Ctz(x) < 2
    ensures BitAnd(x, 3) == x % 4
    ensures var y := x % 4; Shr(y, 1) == y / 2 && (BitAnd(y, 1) == 0 <==> Ctz(x) == 1) && (Ctz(x) == 1 ==> y == 2)
  {
    assert Pow2(1) == 2 && Pow2(2) == 4;
    MaskIsMod(x, 2);
    MaskIsMod(x % 4, 1);
    if x % 2 == 0 { assert Ctz(x / 2) == 0; }
  }

  function Ctzsi2(a: nat): (r: nat)
    requires 0 < a < B32
    ensures r == Ctz(a)
  {
    Powers();
    CtzWord(a);
    var (x1, t1) := CtzStep(a, 0xFFFF, 16);
    var (x2, t2) := CtzStep(x1, 0xFF, 8);
    var (x3, t3) := CtzStep(x2, 0xF, 4);
    var (x4, t4) := CtzStep(x3, 3, 2);
    t1 + t2 + t3 + t4 + CtzPair(x4)
  }

  /** The count for the last two bits. */
  function CtzPair(x: nat): (r: nat)
    requires x > 0 && Ctz(x) < 2
    ensures r == Ctz(x)
  {
    CtzSmall(x);
    var y := BitAnd(x, 3);
    Masked((2 - Shr(y, 1)) % B32, if BitAnd(y, 1) == 0 then -1 else 0)
  }

  // ----- double words -----

  /** `__clzdi2`: the count for the high word, or for the low word if the high one is zero. */
  function Clzdi2(a: nat): (r: nat)
    requires 0 < a < B64
    ensures r == 64 - BitLength(a)
  {
    var high, low := a / B32, a % B32;
    assert a == Double(high, low);
    var f := if high == 0 then -1 else 0;
    if high > 0 then LengthOf(high, low); Clzsi2(high)
    else Clzsi2(low) + Masked(32, f)
  }

  /** `__ctzdi2` */
  function Ctzdi2(a: nat): (r: nat)
    requires 0 < a < B64
    ensures r == Ctz(a)
  {
    var high, low := a / B32, a % B32;
    Pow2Word();
    var f := if low == 0 then -1 else 0;
    if low == 0 then CtzShift(high, 32); Ctzsi2(high) + Masked(32, f)
    else CtzOfLow(high, low, 32); Ctzsi2(low)
  }

  lemma {:induction false} CtzOfLow(high: nat, low: nat, k: nat)
    requires 0 < low < Pow2(k)
    ensures Ctz(high * Pow2(k) + low) == Ctz(low)
  {
    if k > 0 {
      Product3(high, Pow2(k - 1), 2);
      var x := high * Pow2(k - 1);
      assert high * Pow2(k) == 2 * x;
      if low % 2 == 0 {
        CtzOfLow(high, low / 2, k - 1);
        assert (2 * x + low) / 2 == x + low / 2;
      }
      assert (2 * x + low) % 2 == low % 2;
    }
  }
}
