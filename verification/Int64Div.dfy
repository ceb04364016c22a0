/**
 64-bit division in software: `__udivmoddi4`, by shifting and subtracting.
 */
module Int64Div {
  import opened Int64Bits

  const TOP: nat := 0x8000_0000_0000_0000

  // ----- one iteration -----

  function ToSigned(x: nat): int { if x >= TOP then x - B64 else x }

  /** The sign bit of a signed double word, spread over all bits: 0 or -1. */
  function SignMask(x: int): int { if x < 0 then -1 else 0 }

  /** `d & s` for a mask. */
  function Masked(d: nat, s: int): nat
    requires s == 0 || s == -1
  {
    if s == -1 then d else 0
  }

  /** The sign of `d - r - 1`, computed without an extra bit, tells whether `d` fits into `r`. */
  lemma SignTest(d: nat, r: nat)
    requires 0 < d < B64 && r < B64 && r < 2 * d && (d > TOP ==> r >= TOP)
    ensures SignMask(ToSigned((d - r - 1) % B64)) == if r >= d then -1 else 0
  {
    var x := d - r - 1;
    if x < 0 {
      assert x % B64 == x + B64;
    } else {
      assert x % B64 == x;
    }
  }

  lemma ShiftInBit(x: nat, y: nat)
    requires x < B32 && y < 2
    ensures BitOr(Shl32(x, 1), y) == (2 * x) % B32 + y
    ensures Shr(x, 31) == x / 0x8000_0000 && Shr(x, 31) < 2
  {
    HalfWord();
    DoubleWord(x);
    OrAdds((2 * x) % B32, y, 1);
  }

  lemma DoubleWord(x: nat)
    requires x < B32
    ensures Pow2(1) == 2 && Shl32(x, 1) == (2 * x) % B32 && ((2 * x) % B32) % 2 == 0
  {
    assert Pow2(1) == 2;
    assert (2 * x) % B32 == if x < 0x8000_0000 then 2 * x else 2 * x - B32;
  }

  lemma HalfWord()
    ensures Pow2(31) == 0x8000_0000
  {
    Pow2Word();
    Pow2Add(31, 1);
    assert Pow2(1) == 2;
  }

  /** Shifting a double word left by one, bringing in the bit `y`. */
  lemma ShiftDouble(h: nat, l: nat, y: nat)
    requires h < B32 && l < B32 && y < 2
    ensures var h' := BitOr(Shl32(h, 1), Shr(l, 31));
            var l' := BitOr(Shl32(l, 1), y);
            h' < B32 && l' < B32 && Double(h', l') == (2 * Double(h, l)) % B64 + y
    ensures Shr(h, 31) == Double(h, l) / TOP && Shr(h, 31) < 2
  {
    ShiftInBit(l, y);
    ShiftInBit(h, Shr(l, 31));
    var th, hr := TopBit(h);
    var tl, lr := TopBit(l);
    assert 2 * Double(h, l) == th * B64 + ((2 * hr + tl) * B32 + 2 * lr);
    DivMod(2 * Double(h, l), th, B64, (2 * hr + tl) * B32 + 2 * lr);
    assert Double(h, l) == th * TOP + (hr * B32 + l);
    DivMod(Double(h, l), th, TOP, hr * B32 + l);
  }

  lemma TopBit(x: nat) returns (t: nat, r: nat)
    requires x < B32
    ensures x == t * 0x8000_0000 + r && r < 0x8000_0000 && t == x / 0x8000_0000 < 2 && (2 * x) % B32 == 2 * r
  {
    t, r := x / 0x8000_0000, x % 0x8000_0000;
    DivMod(2 * x, t, B32, 2 * r);
  }

  // ----- the arithmetic of the loop -----

  /** After the quotient bits above position `k` are found: `z` holds all of them but the last, `c`. */
  ghost predicate Partial(a: nat, d: nat, k: nat, r: nat, q: nat, z: nat, c: nat)
    requires k <= 64
  {
    && r < d && c < 2 && z < Pow2(64 - k)
    && a / Pow2(k) == (2 * z + c) * d + r
    && q == (a % Pow2(k)) * Pow2(64 - k) + z
  }

  lemma NextBit(a: nat, k: nat) returns (bit: nat)
    requires k > 0
    ensures bit < 2
    ensures a % Pow2(k) == bit * Pow2(k - 1) + a % Pow2(k - 1)
    ensures a / Pow2(k - 1) == 2 * (a / Pow2(k)) + bit
  {
    bit := (a / Pow2(k - 1)) % 2;
    HalveQuotient(a, Pow2(k - 1));
  }

  lemma HalveQuotient(a: nat, p: nat)
    requires p > 0
    ensures var bit := (a / p) % 2;
            a % (2 * p) == bit * p + a % p && a / p == 2 * (a / (2 * p)) + bit
  {
    var m, bit := a / p, (a / p) % 2;
    assert a == m * p + a % p;
    HalveProduct(a, m, p, a % p, m / 2, bit);
    DivMod(a, m / 2, 2 * p, bit * p + a % p);
  }

  lemma HalveProduct(a: nat, m: nat, p: nat, low: nat, half: nat, bit: nat)
    requires p > 0 && a == m * p + low && low < p && m == 2 * half + bit && bit < 2
    ensures a == half * (2 * p) + (bit * p + low) && 0 <= bit * p + low < 2 * p
  {
    Distribute(2 * half, bit, p);
    Product3(half, 2, p);
    MulLess(bit, 2, p);
    NonNegative(bit, p);
  }

  lemma NextQuotient(low: nat, bit: nat, p: nat, t: nat, z: nat, c: nat)
    requires p > 0 && t > 0 && p * t == TOP && low < p && bit < 2 && z < t && c < 2
    ensures var q := (bit * p + low) * t + z;
            q / TOP == bit && (2 * q) % B64 + c == low * (2 * t) + (2 * z + c)
  {
    var q := (bit * p + low) * t + z;
    Distribute(bit * p, low, t);
    Product3(bit, p, t);
    MulLess(low, p, t);
    NonNegative(low, t);
    var rest := low * t + z;
    assert q == bit * TOP + rest && rest < TOP;
    DivMod(q, bit, TOP, rest);
    assert 2 * q == bit * B64 + 2 * rest;
    DivMod(2 * q, bit, B64, 2 * rest);
    Product3(low, t, 2);
    Product3(low, 2, t);
  }

  lemma Pow2Top(k: nat)
    requires 1 <= k <= 64
    ensures Pow2(k - 1) * Pow2(64 - k) == TOP && Pow2(64 - (k - 1)) == 2 * Pow2(64 - k)
  {
    Pow2Word();
    Pow2Add(k - 1, 64 - k);
    Pow2Add(63, 1);
    assert Pow2(1) == 2;
  }

  /** The quotient part: the top bit of `q` is the next bit of `a`, and `c` takes the place that is free. */
  lemma IterateQuotient(a: nat, k: nat, q: nat, z: nat, c: nat)
    requires 1 <= k <= 63 && c < 2 && z < Pow2(64 - k) && q == (a % Pow2(k)) * Pow2(64 - k) + z
    ensures q / TOP < 2 && a / Pow2(k - 1) == 2 * (a / Pow2(k)) + q / TOP
    ensures (2 * q) % B64 + c == (a % Pow2(k - 1)) * Pow2(64 - (k - 1)) + (2 * z + c) && 2 * z + c < Pow2(64 - (k - 1))
  {
    var bit := NextBit(a, k);
    var p, t := Pow2(k - 1), Pow2(64 - k);
    Pow2Top(k);
    NextQuotient(a % p, bit, p, t, z, c);
  }

  /** One iteration: the remainder with the next bit is below `2 * d` and never needs a 65th bit, and
      subtracting `d` where it fits gives the next quotient bit. */
  lemma Iterate(a: nat, d: nat, k: nat, r: nat, q: nat, z: nat, c: nat)
    requires a < B64 && 0 < d && 1 <= k <= 63 && Partial(a, d, k, r, q, z, c)
    ensures var r2 := 2 * r + q / TOP;
            var c2 := if r2 >= d then 1 else 0;
            r2 < 2 * d && Partial(a, d, k - 1, r2 - c2 * d, (2 * q) % B64 + c, 2 * z + c, c2)
  {
    IterateQuotient(a, k, q, z, c);
    NextRemainder(a / Pow2(k - 1), a / Pow2(k), d, r, 2 * z + c, q / TOP);
  }

  /** The new remainder fits into a word, and it has the top bit if the divisor has it. */
  lemma IterateFits(a: nat, d: nat, k: nat, r: nat, q: nat, z: nat, c: nat)
    requires a < B64 && 0 < d && 1 <= k <= 63 && Partial(a, d, k, r, q, z, c)
    requires d > TOP ==> k == 1 && a >= TOP && z == 0 && c == 0
    ensures 2 * r + q / TOP < B64 && (d > TOP ==> 2 * r + q / TOP >= TOP)
  {
    var p := Pow2(k - 1);
    IterateQuotient(a, k, q, z, c);
    NextRemainder(a / p, a / Pow2(k), d, r, 2 * z + c, q / TOP);
    QuotientAtMost(a, p);
    if d > TOP { assert p == Pow2(0) == 1; }
  }

  lemma NextRemainder(x: int, y: int, d: nat, r: nat, z: nat, bit: nat)
    requires d > 0 && r < d && bit < 2 && y == z * d + r && x == 2 * y + bit
    ensures var r2 := 2 * r + bit;
            var c2 := if r2 >= d then 1 else 0;
            && r2 < 2 * d && r2 <= x && 0 <= r2 - c2 * d < d
            && x == (2 * z + c2) * d + (r2 - c2 * d)
            && (z == 0 ==> r2 == x)
  {
    var r2 := 2 * r + bit;
    var c2 := if r2 >= d then 1 else 0;
    Product3(2, z, d);
    Distribute(2 * z, c2, d);
    NonNegative(z, d);
  }

  lemma QuotientAtMost(a: nat, p: nat)
    requires p > 0
    ensures a / p <= a
  {
    NonNegative(a / p, p - 1);
    Distribute(p, 1, a / p);
  }

  /** The body of the loop, on the halves of `r` and `q`. */
  method Step(d: nat, rh: nat, rl: nat, qh: nat, ql: nat, carry: nat)
    returns (rh': nat, rl': nat, qh': nat, ql': nat, carry': nat)
    requires 0 < d < B64 && rh < B32 && rl < B32 && qh < B32 && ql < B32 && carry < 2
    requires var r2 := 2 * Double(rh, rl) + Double(qh, ql) / TOP;
             r2 < 2 * d && r2 < B64 && (d > TOP ==> r2 >= TOP)
    ensures rh' < B32 && rl' < B32 && qh' < B32 && ql' < B32
    ensures Double(qh', ql') == (2 * Double(qh, ql)) % B64 + carry
    ensures var r2 := 2 * Double(rh, rl) + Double(qh, ql) / TOP;
            carry' == (if r2 >= d then 1 else 0) && Double(rh', rl') == r2 - carry' * d
  {
    ShiftDouble(qh, ql, carry);
    ShiftDouble(rh, rl, Shr(qh, 31));
    NoOverflow(2 * Double(rh, rl));
    rh', rl' := BitOr(Shl32(rh, 1), Shr(rl, 31)), BitOr(Shl32(rl, 1), Shr(qh, 31));
    qh', ql' := BitOr(Shl32(qh, 1), Shr(ql, 31)), BitOr(Shl32(ql, 1), carry);
    var r2 := Double(rh', rl');
    SignTest(d, r2);
    var s := SignMask(ToSigned((d - r2 - 1) % B64));
    carry' := if s == -1 then 1 else 0;
    var r3: nat := r2 - Masked(d, s);
    rh', rl' := r3 / B32, r3 % B32;
  }

  lemma NoOverflow(x: nat)
    ensures x < B64 ==> x % B64 == x
  {
  }

  /** The loop, on the halves of `r` and `q`. */
  method ShiftSubtract(ghost a: nat, d: nat, sr0: nat, rh0: nat, rl0: nat, qh0: nat, ql0: nat)
    returns (quotient: nat, rem: nat)
    requires a < B64 && 0 < d < B64 && 1 <= sr0 <= 63
    requires rh0 < B32 && rl0 < B32 && qh0 < B32 && ql0 < B32
    requires Double(rh0, rl0) == a / Pow2(sr0) < d
    requires Double(qh0, ql0) == (a % Pow2(sr0)) * Pow2(64 - sr0)
    requires d > TOP ==> sr0 == 1 && a >= TOP
    ensures quotient == a / d && rem == a % d
  {
    var rh: nat, rl: nat, qh: nat, ql: nat, sr: nat := rh0, rl0, qh0, ql0, sr0;
    var carry: nat := 0;
    ghost var z: nat := 0;
    assert (2 * z + carry) * d == 0;
    while sr > 0
      invariant sr <= 63 && rh < B32 && rl < B32 && qh < B32 && ql < B32
      invariant Partial(a, d, sr, Double(rh, rl), Double(qh, ql), z, carry)
      invariant d > TOP ==> sr <= 1 && a >= TOP && (sr == 1 ==> z == 0 && carry == 0)
    {
      rh, rl, qh, ql, carry, z := NextStep(a, d, sr, rh, rl, qh, ql, carry, z);
      sr := sr - 1;
    }
    quotient, rem := Finish(a, d, Double(qh, ql), Double(rh, rl), carry, z);
  }

  /** One step keeps the partial division. */
  method NextStep(ghost a: nat, d: nat, ghost sr: nat, rh: nat, rl: nat, qh: nat, ql: nat, carry: nat, ghost z: nat)
    returns (rh': nat, rl': nat, qh': nat, ql': nat, carry': nat, ghost z': nat)
    requires a < B64 && 0 < d < B64 && 1 <= sr <= 63 && rh < B32 && rl < B32 && qh < B32 && ql < B32
    requires Partial(a, d, sr, Double(rh, rl), Double(qh, ql), z, carry)
    requires d > TOP ==> sr == 1 && a >= TOP && z == 0 && carry == 0
    ensures rh' < B32 && rl' < B32 && qh' < B32 && ql' < B32
    ensures Partial(a, d, sr - 1, Double(rh', rl'), Double(qh', ql'), z', carry')
  {
    Iterate(a, d, sr, Double(rh, rl), Double(qh, ql), z, carry);
    IterateFits(a, d, sr, Double(rh, rl), Double(qh, ql), z, carry);
    z' := 2 * z + carry;
    rh', rl', qh', ql', carry' := Step(d, rh, rl, qh, ql, carry);
  }

  /** The last bit joins the quotient. */
  method Finish(ghost a: nat, ghost d: nat, q: nat, r: nat, carry: nat, ghost z: nat) returns (quotient: nat, rem: nat)
    requires a < B64 && 0 < d && Partial(a, d, 0, r, q, z, carry)
    ensures quotient == a / d && rem == a % d
  {
    LastBit(a, d, q, r, carry, z);
    quotient, rem := BitOr((2 * q) % B64, carry), r;
  }

  lemma LastBit(a: nat, d: nat, q: nat, r: nat, c: nat, z: nat)
    requires a < B64 && 0 < d && Partial(a, d, 0, r, q, z, c)
    ensures BitOr((2 * q) % B64, c) == a / d && r == a % d
  {
    assert Pow2(0) == 1 && q == z;
    DivMod(a, 2 * z + c, d, r);
    QuotientAtMost(a, d);
    AppendBit(q, c);
  }

  lemma AppendBit(q: nat, c: nat)
    requires c < 2 && 2 * q + c < B64
    ensures BitOr((2 * q) % B64, c) == 2 * q + c
  {
    NoOverflow(2 * q);
    assert Pow2(1) == 2;
    OrAdds(2 * q, c, 1);
  }

  // ----- what comes before the loop -----

  /** `r = n >> sr` and `q = n << (64 - sr)` on the halves of `n`. */
  method Setup(nh: nat, nl: nat, sr: nat) returns (rh: nat, rl: nat, qh: nat, ql: nat)
    requires nh < B32 && nl < B32 && 1 <= sr <= 63
    ensures rh < B32 && rl < B32 && qh < B32 && ql < B32
    ensures Double(rh, rl) == Double(nh, nl) / Pow2(sr)
    ensures Double(qh, ql) == (Double(nh, nl) % Pow2(sr)) * Pow2(64 - sr)
  {
    if sr == 32 {
      Pow2Word();
      DivMod(Double(nh, nl), nh, B32, nl);
      rh, rl, qh, ql := 0, nh, nl, 0;
    } else if sr < 32 {
      ShiftRight(nh, nl, sr);
      ShiftedOut(nh, nl, sr);
      ShlWord(nl, 32 - sr);
      ShrWord(nh, sr);
      qh, ql := Shl32(nl, 32 - sr), 0;
      rh, rl := Shr(nh, sr), BitOr(Shl32(nh, 32 - sr), Shr(nl, sr));
    } else {
      var k := sr - 32;
      ShiftedOutMore(nh, nl, k);
      ShrWord(nh, k);
      ql := Shl32(nl, 64 - sr);
      qh := BitOr(Shl32(nh, 64 - sr), Shr(nl, k));
      rh, rl := 0, Shr(nh, k);
    }
  }

  lemma ShrWord(x: nat, k: nat)
    requires x < B32
    ensures Shr(x, k) < B32
  {
    QuotientAtMost(x, Pow2(k));
  }

  lemma LengthOf(h: nat, l: nat)
    requires 0 < h < B32 && l < B32
    ensures BitLength(Double(h, l)) == BitLength(h) + 32 && 1 <= BitLength(h) <= 32
  {
    Pow2Word();
    BitLengthShift(h, 32, l);
    BitLengthWord(h, 32);
    BitLengthBounds(h);
  }

  /** Shifted by one more than the difference in length, a number is below the other. */
  lemma ShiftedBelow(a: nat, b: nat, sr: nat)
    requires b > 0 && BitLength(a) <= BitLength(b) - 1 + sr
    ensures a / Pow2(sr) < b
  {
    BitLengthBounds(a);
    BitLengthBounds(b);
    var p, lb := Pow2(sr), BitLength(b) - 1;
    Pow2Monotone(BitLength(a), lb + sr);
    Pow2Add(lb, sr);
    BelowProduct(a, p, Pow2(lb));
  }

  lemma BelowProduct(a: nat, p: nat, m: nat)
    requires p > 0 && a < m * p
    ensures a / p < m
  {
    var q := a / p;
    assert a == q * p + a % p;
    if q >= m {
      Distribute(q, m, p);
      NonNegative(q - m, p);
    }
  }

  lemma ShorterIsBelow(a: nat, b: nat)
    requires BitLength(a) < BitLength(b)
    ensures a < b
  {
    BitLengthBounds(a);
    BitLengthBounds(b);
    Pow2Monotone(BitLength(a), BitLength(b) - 1);
  }

  lemma HighestBit(h: nat)
    requires h < B32
    ensures h >= 0x8000_0000 <==> BitLength(h) == 32
  {
    Pow2Word();
    HalfWord();
    BitLengthBounds(h);
    BitLengthWord(h, 32);
    if h < 0x8000_0000 { BitLengthWord(h, 31); }
    if h >= 0x8000_0000 && BitLength(h) < 32 { Pow2Monotone(BitLength(h), 31); }
  }

  /** The general case, for any `sr` that brings `n` below `d`. */
  method ByShifting(nh: nat, nl: nat, d: nat, sr: nat) returns (quotient: nat, rem: nat)
    requires nh < B32 && nl < B32 && 0 < d < B64 && 1 <= sr <= 63
    requires BitLength(Double(nh, nl)) <= BitLength(d) - 1 + sr
    requires d > TOP ==> sr == 1 && nh >= 0x8000_0000
    ensures quotient == Double(nh, nl) / d && rem == Double(nh, nl) % d
  {
    var rh, rl, qh, ql := Setup(nh, nl, sr);
    ShiftedBelow(Double(nh, nl), d, sr);
    quotient, rem := ShiftSubtract(Double(nh, nl), d, sr, rh, rl, qh, ql);
  }

  // ----- special cases -----

  lemma HighWords(nh: nat, nl: nat, dh: nat)
    requires nl < B32 && dh > 0
    ensures Double(nh, nl) / Double(dh, 0) == nh / dh && Double(nh, nl) % Double(dh, 0) == Double(nh % dh, nl)
  {
    var m, r := nh / dh, nh % dh;
    assert nh == m * dh + r;
    Distribute(m * dh, r, B32);
    Product3(m, dh, B32);
    MulLess(r, dh, B32);
    NonNegative(r, B32);
    DivMod(Double(nh, nl), m, Double(dh, 0), r * B32 + nl);
  }

  /** The divisor is a power of two in the high word. */
  lemma HighPower(nh: nat, dh: nat)
    requires dh > 0 && BitAnd(dh, dh - 1) == 0
    ensures nh / dh == Shr(nh, Ctz(dh)) && nh % dh == BitAnd(nh, dh - 1)
  {
    PowerTest(dh);
    MaskIsMod(nh, Ctz(dh));
  }

  /** The divisor is a power of two in the low word. */
  method LowPower(nh: nat, nl: nat, dl: nat) returns (quotient: nat, rem: nat)
    requires nh < B32 && nl < B32 && 0 < dl < B32 && BitAnd(dl, dl - 1) == 0
    ensures quotient == Double(nh, nl) / dl && rem == Double(nh, nl) % dl
  {
    PowerTest(dl);
    MaskIsMod(nl, Ctz(dl));
    rem := BitAnd(nl, dl - 1);
    if dl == 1 {
      return Double(nh, nl), rem;
    }
    var sr := Ctz(dl);
    CtzBelow(dl);
    ShiftRight(nh, nl, sr);
    quotient := Double(Shr(nh, sr), BitOr(Shl32(nh, 32 - sr), Shr(nl, sr)));
  }

  lemma CtzBelow(x: nat)
    requires 1 < x < B32 && x == Pow2(Ctz(x))
    ensures 1 <= Ctz(x) <= 31
  {
    assert Pow2(0) == 1;
    Pow2Word();
    if Ctz(x) >= 32 { Pow2Monotone(32, Ctz(x)); }
  }

  lemma NotPowerLength(x: nat)
    requires x > 0 && BitAnd(x, x - 1) != 0
    ensures BitLength(x) >= 2
  {
    assert x != 1 by { assert BitAnd(1, 0) == 0; }
    BitLengthBounds(x);
    assert Pow2(1) == 2;
    if BitLength(x) < 2 { Pow2Monotone(BitLength(x), 1); }
  }

  /** Only the dividend has a high word. */
  method LowDivisor(nh: nat, nl: nat, dl: nat) returns (quotient: nat, rem: nat)
    requires 0 < nh < B32 && nl < B32 && 0 < dl < B32
    ensures quotient == Double(nh, nl) / dl && rem == Double(nh, nl) % dl
  {
    if BitAnd(dl, dl - 1) == 0 {
      quotient, rem := LowPower(nh, nl, dl);
    } else {
      NotPowerLength(dl);
      LengthOf(nh, nl);
      Pow2Word();
      BitLengthWord(dl, 32);
      var sr: nat := 1 + 32 + Clz(dl) - Clz(nh);
      quotient, rem := ByShifting(nh, nl, dl, sr);
    }
  }

  /** `__udivmoddi4`: quotient and remainder, in every special case and in the loop. */
  method Udivmoddi4(a: nat, b: nat) returns (quotient: nat, rem: nat)
    requires a < B64 && 0 < b < B64
    ensures quotient == a / b && rem == a % b
  {
    var nh: nat, nl: nat := a / B32, a % B32;
    var dh: nat, dl: nat := b / B32, b % B32;
    quotient, rem := DivideHalves(nh, nl, dh, dl);
  }

  method DivideHalves(nh: nat, nl: nat, dh: nat, dl: nat) returns (quotient: nat, rem: nat)
    requires nh < B32 && nl < B32 && dh < B32 && dl < B32 && Double(dh, dl) > 0
    ensures quotient == Double(nh, nl) / Double(dh, dl) && rem == Double(nh, nl) % Double(dh, dl)
  {
    if nh == 0 {
      if dh == 0 {
        return nl / dl, nl % dl;
      }
      DivMod(Double(nh, nl), 0, Double(dh, dl), nl);
      return 0, nl;
    }
    if dl == 0 {
      quotient, rem := HighOnlyDivisor(nh, nl, dh);
    } else if dh == 0 {
      quotient, rem := LowDivisor(nh, nl, dl);
    } else {
      LengthOf(dh, dl);
      quotient, rem := HighDivisor(nh, nl, dh, dl, 31);
    }
  }

  /** The divisor has no low word. */
  method HighOnlyDivisor(nh: nat, nl: nat, dh: nat) returns (quotient: nat, rem: nat)
    requires 0 < nh < B32 && nl < B32 && 0 < dh < B32
    ensures quotient == Double(nh, nl) / Double(dh, 0) && rem == Double(nh, nl) % Double(dh, 0)
  {
    HighWords(nh, nl, dh);
    if nl == 0 {
      return nh / dh, Double(nh % dh, 0);
    }
    if BitAnd(dh, dh - 1) == 0 {
      HighPower(nh, dh);
      return Shr(nh, Ctz(dh)), Double(BitAnd(nh, dh - 1), nl);
    }
    NotPowerLength(dh);
    quotient, rem := HighDivisor(nh, nl, dh, 0, 30);
  }

  /** Divisor and dividend both have a high word; `limit` is the largest shift the caller expects. */
  method HighDivisor(nh: nat, nl: nat, dh: nat, dl: nat, limit: nat) returns (quotient: nat, rem: nat)
    requires 0 < nh < B32 && nl < B32 && 0 < dh < B32 && dl < B32
    requires limit <= 31 && BitLength(dh) >= 32 - limit
    ensures quotient == Double(nh, nl) / Double(dh, dl) && rem == Double(nh, nl) % Double(dh, dl)
  {
    LengthOf(nh, nl);
    LengthOf(dh, dl);
    var n, d := Double(nh, nl), Double(dh, dl);
    var sr: nat := (Clz(dh) - Clz(nh)) % B32;
    ghost var above := BitLength(nh) - BitLength(dh);
    assert sr == if above >= 0 then above else above + B32;
    if sr > limit {
      ShorterIsBelow(n, d);
      DivMod(n, 0, d, n);
      return 0, n;
    }
    sr := sr + 1;
    HighestBit(nh);
    HighestBit(dh);
    quotient, rem := ByShifting(nh, nl, d, sr);
  }
}
