/**
 Machine words as natural numbers: powers of two, bit operations, and shifts of a double word made of
 two 32-bit halves.
 */
module Int64Bits {

  function Pow2(n: nat): (p: nat)
    ensures p >= 1
  {
    if n == 0 then 1 else 2 * Pow2(n - 1)
  }

  const B32: nat := 0x1_0000_0000
  const B64: nat := 0x1_0000_0000_0000_0000

  function BitOr(x: nat, y: nat): nat {
    if x == 0 && y == 0 then 0 else 2 * BitOr(x / 2, y / 2) + if x % 2 == 1 || y % 2 == 1 then 1 else 0
  }

  function BitAnd(x: nat, y: nat): nat {
    if x == 0 && y == 0 then 0 else 2 * BitAnd(x / 2, y / 2) + if x % 2 == 1 && y % 2 == 1 then 1 else 0
  }

  /** The number of bits up to the highest one. */
  function BitLength(x: nat): nat { if x == 0 then 0 else 1 + BitLength(x / 2) }

  /** `__builtin_clz` of a 32-bit word. */
  function Clz(x: nat): int { 32 - BitLength(x) }

  /** `__builtin_ctz`. */
  function Ctz(x: nat): nat
    requires x > 0
  {
    if x % 2 == 1 then 0 else 1 + Ctz(x / 2)
  }

  function Shl32(x: nat, k: nat): nat { (x * Pow2(k)) % B32 }
  function Shr(x: nat, k: nat): nat {
    DivNonNegative(x, Pow2(k));
    x / Pow2(k)
  }
  function Double(high: nat, low: nat): nat { high * B32 + low }

  lemma DivNonNegative(x: nat, p: nat)
    requires p > 0
    ensures x / p >= 0
  {
  }

  // ----- powers of two -----

  lemma {:induction false} Pow2Add(m: nat, n: nat)
    ensures Pow2(m + n) == Pow2(m) * Pow2(n)
  {
    if m > 0 { Pow2Add(m - 1, n); }
  }

  lemma Pow2Monotone(m: nat, n: nat)
    requires m <= n
    ensures Pow2(m) <= Pow2(n)
  {
    if m < n { Pow2Monotone(m, n - 1); }
  }

  lemma Pow2Word()
    ensures Pow2(32) == B32 && Pow2(64) == B64
  {
    assert Pow2(8) == 256;
    Pow2Add(8, 8);
    Pow2Add(16, 16);
    Pow2Add(32, 32);
  }

  lemma {:induction false} BitLengthBounds(x: nat)
    ensures x < Pow2(BitLength(x))
    ensures x > 0 ==> BitLength(x) > 0 && Pow2(BitLength(x) - 1) <= x
  {
    if x > 0 { BitLengthBounds(x / 2); }
  }

  lemma BitLengthWord(x: nat, n: nat)
    requires x < Pow2(n)
    ensures BitLength(x) <= n
  {
    BitLengthBounds(x);
    if x > 0 && BitLength(x) > n { Pow2Monotone(n, BitLength(x) - 1); }
  }

  lemma HalfOfShifted(x: nat, p: nat, low: nat)
    requires x > 0 && p > 0
    ensures x * (2 * p) + low > 0 && (x * (2 * p) + low) / 2 == x * p + low / 2 && x * p > 0
  {
    assert x * (2 * p) == 2 * (x * p);
    NonNegative(x - 1, p);
    Distribute(x, 1, p);
  }

  lemma {:induction false} BitLengthShift(x: nat, n: nat, low: nat)
    requires x > 0 && low < Pow2(n)
    ensures BitLength(x * Pow2(n) + low) == BitLength(x) + n
  {
    if n > 0 {
      HalfOfShifted(x, Pow2(n - 1), low);
      BitLengthShift(x, n - 1, low / 2);
    } else {
      assert low == 0 && x * 1 == x;
    }
  }

  // ----- bit operations on particular operands -----

  lemma {:induction false} OrAdds(x: nat, y: nat, k: nat)
    requires x % Pow2(k) == 0 && y < Pow2(k)
    ensures BitOr(x, y) == x + y
    decreases k, x
  {
    if k > 0 {
      EvenMultiple(x, Pow2(k - 1));
      OrAdds(x / 2, y / 2, k - 1);
    } else {
      OrZero(x);
    }
  }

  lemma EvenMultiple(x: nat, p: nat)
    requires p > 0 && x % (2 * p) == 0
    ensures x % 2 == 0 && (x / 2) % p == 0
  {
    var m := x / (2 * p);
    assert x == (2 * p) * m;
    assert x == 2 * (p * m);
    assert x / 2 == p * m;
    MultipleMod(m, p, 0);
  }

  // ----- products -----

  lemma Product3(a: int, b: int, c: int)
    ensures a * b * c == a * (b * c) && a * b * c == a * c * b
  {
  }

  lemma Distribute(a: int, b: int, c: int)
    ensures (a + b) * c == a * c + b * c && (a - b) * c == a * c - b * c && c * (a + b) == c * a + c * b
  {
  }

  lemma AtLeast(k: int, p: int)
    requires p > 0
    ensures k >= 1 ==> k * p >= p
    ensures k >= 0 ==> k * p >= 0
    ensures k <= -1 ==> k * p <= -p
  {
    if k >= 1 {
      Distribute(k - 1, 1, p);
      NonNegative(k - 1, p);
    } else if k <= -1 {
      Distribute(k + 1, -1, p);
      NonNegative(-k - 1, p);
      Distribute(-k - 1, k + 1, p);
    }
  }

  lemma NonNegative(a: int, b: int)
    requires a >= 0 && b >= 0
    ensures a * b >= 0
  {
  }

  /** Quotient and remainder are determined by their defining equation. */
  lemma DivMod(x: nat, m: nat, p: nat, r: nat)
    requires p > 0 && r < p && x == m * p + r
    ensures x / p == m && x % p == r
  {
    var q, s := x / p, x % p;
    assert x == q * p + s;
    Distribute(q, m, p);
    assert (q - m) * p == r - s;
    AtLeast(q - m, p);
  }

  lemma MultipleMod(m: nat, p: nat, r: nat)
    requires p > 0 && r < p
    ensures (m * p + r) / p == m && (m * p + r) % p == r
    ensures (p * m + r) / p == m && (p * m + r) % p == r
  {
    NonNegative(m, p);
    Commute(m, p);
    DivMod(m * p + r, m, p, r);
  }

  lemma Commute(a: int, b: int)
    ensures a * b == b * a
  {
  }

  lemma MulLess(a: nat, b: nat, p: nat)
    requires a < b && p > 0
    ensures a * p + p <= b * p
  {
    Distribute(b, a, p);
    AtLeast(b - a, p);
  }

  lemma OrZero(x: nat)
    ensures BitOr(x, 0) == x
  {
    if x > 0 { OrZero(x / 2); }
  }

  lemma AndSelf(x: nat)
    ensures BitAnd(x, x) == x
  {
    if x > 0 { AndSelf(x / 2); }
  }

  /** The test for a power of two. */
  lemma {:induction false} PowerTest(x: nat)
    requires x > 0
    ensures BitAnd(x, x - 1) == 0 <==> x == Pow2(Ctz(x))
    ensures Pow2(Ctz(x)) <= x
  {
    if x % 2 == 1 {
      assert (x - 1) / 2 == x / 2;
      AndSelf(x / 2);
    } else {
      PowerTest(x / 2);
      assert (x - 1) / 2 == x / 2 - 1;
    }
  }

  /** Masking with one less than a power of two is the remainder. */
  lemma {:induction false} MaskIsMod(x: nat, k: nat)
    ensures BitAnd(x, Pow2(k) - 1) == x % Pow2(k)
  {
    if k == 0 {
      AndZero(x);
    } else {
      var p := Pow2(k - 1);
      MaskIsMod(x / 2, k - 1);
      assert (2 * p - 1) / 2 == p - 1;
      HalfMod(x, p);
    }
  }

  lemma AndZero(x: nat)
    ensures BitAnd(x, 0) == 0
  {
    if x > 0 { AndZero(x / 2); }
  }

  lemma HalfMod(x: nat, p: nat)
    requires p > 0
    ensures x % (2 * p) == 2 * ((x / 2) % p) + x % 2
  {
    var h := x / 2;
    var m := h / p;
    assert h == m * p + h % p;
    assert x == 2 * (m * p + h % p) + x % 2;
    assert x == m * (2 * p) + (2 * (h % p) + x % 2);
    MultipleMod(m, 2 * p, 2 * (h % p) + x % 2);
  }

  // ----- shifting a double word -----

  /** `Shl32(x, k)` keeps the low `32 - k` bits of `x`. */
  lemma ShlWord(x: nat, k: nat)
    requires k <= 32
    ensures Shl32(x, k) == (x % Pow2(32 - k)) * Pow2(k)
    ensures Shl32(x, k) % Pow2(k) == 0 && Shl32(x, k) < B32
  {
    var p, q := Pow2(32 - k), Pow2(k);
    Pow2Word();
    Pow2Add(32 - k, k);
    ShlProduct(x, p, q);
  }

  lemma ShlProduct(x: nat, p: nat, q: nat)
    requires p > 0 && q > 0 && p * q == B32
    ensures (x * q) % B32 == (x % p) * q && (x % p) * q < B32 && ((x % p) * q) % q == 0
  {
    var m, r := x / p, x % p;
    assert x == m * p + r;
    Distribute(m * p, r, q);
    Product3(m, p, q);
    MulLess(r, p, q);
    NonNegative(r, q);
    NonNegative(x, q);
    DivMod(x * q, m, B32, r * q);
    DivMod(r * q, r, q, 0);
  }

  lemma ShiftedParts(hq: nat, hr: nat, lq: nat, lr: nat, p: nat, q: nat)
    requires p * q == B32
    ensures (hq * p + hr) * B32 + (lq * p + lr) == (hq * B32 + (hr * q + lq)) * p + lr
  {
    Distribute(hq * p, hr, B32);
    Distribute(hq * B32, hr * q + lq, p);
    Distribute(hr * q, lq, p);
    Product3(hr, q, p);
    Product3(hq, B32, p);
  }

  /** The arithmetic of a right shift of `h * B32 + l` by `p`, where `p * q == B32`. */
  lemma ShiftProduct(h: nat, l: nat, p: nat, q: nat)
    requires p > 0 && q > 0 && p * q == B32 && l < B32
    ensures l / p < q && (h % p) * q + l / p < B32
    ensures Double(h, l) / p == (h / p) * B32 + ((h % p) * q + l / p)
    ensures Double(h, l) % p == l % p
  {
    var hq, hr, lq, lr := h / p, h % p, l / p, l % p;
    assert h == hq * p + hr && l == lq * p + lr;
    if lq >= q {
      Distribute(lq, q, p);
      NonNegative(lq - q, p);
    }
    assert lq < q;
    MulLess(hr, p, q);
    NonNegative(hr, q);
    NonNegative(hq, B32);
    var v := hq * B32 + (hr * q + lq);
    ShiftedParts(hq, hr, lq, lr, p, q);
    DivMod(Double(h, l), v, p, lr);
  }

  /** Shifting right by less than a word. */
  lemma ShiftRight(h: nat, l: nat, k: nat)
    requires l < B32 && 1 <= k <= 31
    ensures BitOr(Shl32(h, 32 - k), Shr(l, k)) == (h % Pow2(k)) * Pow2(32 - k) + l / Pow2(k)
    ensures BitOr(Shl32(h, 32 - k), Shr(l, k)) < B32
    ensures Double(Shr(h, k), BitOr(Shl32(h, 32 - k), Shr(l, k))) == Double(h, l) / Pow2(k)
    ensures Double(h, l) % Pow2(k) == l % Pow2(k)
  {
    var p, q := Pow2(k), Pow2(32 - k);
    Pow2Word();
    Pow2Add(k, 32 - k);
    ShlWord(h, 32 - k);
    assert 32 - (32 - k) == k;
    var up := Shl32(h, 32 - k);
    assert up == (h % p) * q;
    ShiftProduct(h, l, p, q);
    assert Shr(l, k) == l / p && Shr(h, k) == h / p;
    assert BitOr(up, l / p) == up + l / p by { OrAdds(up, l / p, 32 - k); }
  }

  /** What a right shift by less than a word pushes out, at the top of the quotient. */
  lemma ShiftedOut(h: nat, l: nat, k: nat)
    requires l < B32 && 1 <= k <= 31
    ensures Double(Shl32(l, 32 - k), 0) == (Double(h, l) % Pow2(k)) * Pow2(64 - k)
  {
    ShiftRight(h, l, k);
    ShlWord(l, 32 - k);
    Pow2Word();
    Pow2Add(32 - k, 32);
    Product3(l % Pow2(k), Pow2(32 - k), B32);
  }

  lemma ShiftMoreProduct(h: nat, l: nat, p: nat, q: nat)
    requires p > 0 && q > 0 && p * q == B32 && h < B32 && l < B32
    ensures Double(h, l) / (B32 * p) == h / p
    ensures (Double(h, l) % (B32 * p)) * q == ((h % p) * q + l / p) * B32 + (l % p) * q
  {
    var hq, hr, lq, lr := h / p, h % p, l / p, l % p;
    assert h == hq * p + hr && l == lq * p + lr;
    var low := hr * B32 + l;
    MulLess(hr, p, B32);
    NonNegative(hr, B32);
    assert Double(h, l) == hq * (B32 * p) + low by {
      Distribute(hq * p, hr, B32);
      Product3(hq, B32, p);
      Product3(hq, p, B32);
    }
    DivMod(Double(h, l), hq, B32 * p, low);
    Distribute(hr * B32, l, q);
    Distribute(lq * p, lr, q);
    Product3(lq, p, q);
    Distribute(hr * q, lq, B32);
    Product3(hr, q, B32);
    Product3(hr, B32, q);
  }

  /** The same for a shift by more than a word, `32 + k`. */
  lemma ShiftedOutMore(h: nat, l: nat, k: nat)
    requires h < B32 && l < B32 && 1 <= k <= 31
    ensures Double(0, Shr(h, k)) == Double(h, l) / Pow2(32 + k)
    ensures Double(BitOr(Shl32(h, 32 - k), Shr(l, k)), Shl32(l, 32 - k)) == (Double(h, l) % Pow2(32 + k)) * Pow2(32 - k)
    ensures BitOr(Shl32(h, 32 - k), Shr(l, k)) < B32 && Shl32(l, 32 - k) < B32
  {
    ShiftRight(h, l, k);
    ShlWord(l, 32 - k);
    Pow2Word();
    Pow2Add(k, 32 - k);
    Pow2Add(32, k);
    ShiftMoreProduct(h, l, Pow2(k), Pow2(32 - k));
  }
}
