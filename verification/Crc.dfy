/**
 The 16-bit CRC of CoreMark (`crcu8`, `crcu16`, `crcu32`).
 */
module CoreCrc {

  function Xor(x: bv16, y: bv16): bv16 { x ^ y }
  function Half(x: bv16): bv16 { x >> 1 }
  predicate Odd(x: bv16) { x & 1 == 1 }
  function XorLow(x: bv16): bv16 { x ^ 0x4002 }
  function SetTop(x: bv16): bv16 { x | 0x8000 }
  function ClearTop(x: bv16): bv16 { x & 0x7fff }
  function XorByte(a: bv8, b: bv8): bv8 { a ^ b }
  function HalfByte(a: bv8): bv8 { a >> 1 }
  predicate LowBit(a: bv8) { a & 1 == 1 }

  /** One step of the CRC with the reflected polynomial 0xA001: shift right, and divide if the bit
      that enters differs from the one that leaves. */
  function Step(bit: bool, crc: bv16): bv16 { Divide(bit != Odd(crc), Half(crc)) }

  function Divide(yes: bool, crc: bv16): bv16 { if yes then Xor(crc, 0xA001) else crc }

  /** The `n` low bits of `data`, lowest first. */
  function Bits(n: nat, data: bv8, crc: bv16): bv16 {
    if n == 0 then crc else Bits(n - 1, HalfByte(data), Step(LowBit(data), crc))
  }

  function Wide(data: bv8): bv16 { data as bv16 }

  /** There are no more than `n` bits in `data`. */
  predicate Fits(n: nat, data: bv8) { if n == 0 then data == 0 else Fits(n - 1, HalfByte(data)) }

  function Bytes(s: seq<bv8>, crc: bv16): bv16 {
    if s == [] then crc else Bytes(s[1..], Bits(8, s[0], crc))
  }

  method Crcu8(data0: bv8, crc0: bv16) returns (crc: bv16)
    ensures crc == Bits(8, data0, crc0)
  {
    var data := data0;
    crc := crc0;
    for i := 0 to 8
      invariant Bits(8, data0, crc0) == Bits(8 - i, data, crc)
    {
      crc := Crcu8Step(data, crc);
      data := HalfByte(data);
    }
  }

  /** The body of the loop. */
  method Crcu8Step(data: bv8, crc0: bv16) returns (crc: bv16)
    ensures crc == Step(LowBit(data), crc0)
  {
    crc := crc0;
    var x16 := LowBit(data) != Odd(crc);
    var carry := x16;
    if x16 {
      DivideInCode(crc);
      crc := XorLow(crc);
    } else {
      ShiftInCode(crc);
    }
    crc := Half(crc);
    if carry {
      crc := SetTop(crc);
    } else {
      crc := ClearTop(crc);
    }
  }

  // The code's two-part division by 0x4002 and 0x8000 is one division by 0xA001.
  lemma DivideInCode(crc: bv16)
    ensures SetTop(Half(XorLow(crc))) == Xor(Half(crc), 0xA001)
  {
    XorHalf(crc, 0x4002);
    var h := Half(crc);
    assert XorLow(crc) == Xor(crc, 0x4002);
    assert Half(0x4002) == 0x2001;
    HalfClear(crc);
    SetTopXor(h, 0x2001);
  }

  lemma HalfClear(crc: bv16)
    ensures Half(crc) < 0x8000
  {
  }

  lemma SetTopXor(h: bv16, x: bv16)
    requires h < 0x8000 && x == 0x2001
    ensures SetTop(Xor(h, x)) == Xor(h, 0xA001)
  {
  }

  lemma ShiftInCode(crc: bv16)
    ensures ClearTop(Half(crc)) == Half(crc)
  {
  }

  method Crcu16(newval: bv16, crc0: bv16) returns (crc: bv16)
    ensures crc == Bytes([(newval & 0xff) as bv8, (newval >> 8) as bv8], crc0)
  {
    crc := Crcu8((newval & 0xff) as bv8, crc0);
    crc := Crcu8((newval >> 8) as bv8, crc);
    TwoBytes((newval & 0xff) as bv8, (newval >> 8) as bv8, crc0);
  }

  lemma TwoBytes(a: bv8, b: bv8, crc: bv16)
    ensures Bytes([a, b], crc) == Bits(8, b, Bits(8, a, crc))
  {
    assert [a, b][1..] == [b] && [b][1..] == [];
    assert Bytes([b], Bits(8, a, crc)) == Bytes([], Bits(8, b, Bits(8, a, crc)));
  }

  /** The four bytes of a word are fed low byte first. */
  method Crcu32(newval: bv32, crc0: bv16) returns (crc: bv16)
    ensures crc == Bytes([(newval & 0xff) as bv8, ((newval >> 8) & 0xff) as bv8,
                          ((newval >> 16) & 0xff) as bv8, (newval >> 24) as bv8], crc0)
  {
    var lo, hi := (newval & 0xffff) as bv16, (newval >> 16) as bv16;
    crc := Crcu16(lo, crc0);
    crc := Crcu16(hi, crc);
    ghost var first, second := [(lo & 0xff) as bv8, (lo >> 8) as bv8], [(hi & 0xff) as bv8, (hi >> 8) as bv8];
    BytesAppend(first, second, crc0);
    WordBytes(newval);
    assert first + second == [(newval & 0xff) as bv8, ((newval >> 8) & 0xff) as bv8,
                              ((newval >> 16) & 0xff) as bv8, (newval >> 24) as bv8];
  }

  lemma WordBytes(v: bv32)
    ensures ((v & 0xffff) as bv16 & 0xff) as bv8 == (v & 0xff) as bv8
    ensures ((v & 0xffff) as bv16 >> 8) as bv8 == ((v >> 8) & 0xff) as bv8
    ensures ((v >> 16) as bv16 & 0xff) as bv8 == ((v >> 16) & 0xff) as bv8
    ensures ((v >> 16) as bv16 >> 8) as bv8 == (v >> 24) as bv8
  {
  }

  lemma {:induction false} BytesAppend(s: seq<bv8>, t: seq<bv8>, crc: bv16)
    ensures Bytes(s + t, crc) == Bytes(t, Bytes(s, crc))
  {
    if s == [] {
      assert s + t == t;
    } else {
      assert (s + t)[1..] == s[1..] + t;
      BytesAppend(s[1..], t, Bits(8, s[0], crc));
    }
  }

  // ----- linearity -----

  lemma XorOdd(x: bv16, y: bv16)
    ensures Odd(Xor(x, y)) == (Odd(x) != Odd(y))
  {
  }

  lemma XorHalf(x: bv16, y: bv16)
    ensures Half(Xor(x, y)) == Xor(Half(x), Half(y))
  {
  }

  lemma DivideBoth(u: bv16, v: bv16)
    ensures Xor(Xor(u, 0xA001), Xor(v, 0xA001)) == Xor(u, v)
  {
  }

  lemma DivideFirst(u: bv16, v: bv16)
    ensures Xor(Xor(u, 0xA001), v) == Xor(Xor(u, v), 0xA001)
  {
  }

  lemma DivideSecond(u: bv16, v: bv16)
    ensures Xor(u, Xor(v, 0xA001)) == Xor(Xor(u, v), 0xA001)
  {
  }

  lemma DivideLinear(a: bool, b: bool, u: bv16, v: bv16)
    ensures Divide(a != b, Xor(u, v)) == Xor(Divide(a, u), Divide(b, v))
  {
    if a && b {
      DivideBoth(u, v);
    } else if a {
      DivideFirst(u, v);
    } else if b {
      DivideSecond(u, v);
    }
  }

  lemma XorLowBit(a: bv8, b: bv8)
    ensures LowBit(XorByte(a, b)) == (LowBit(a) != LowBit(b))
  {
  }

  lemma XorHalfByte(a: bv8, b: bv8)
    ensures HalfByte(XorByte(a, b)) == XorByte(HalfByte(a), HalfByte(b))
  {
  }

  lemma StepLinear(a: bool, b: bool, x: bv16, y: bv16)
    ensures Step(a != b, Xor(x, y)) == Xor(Step(a, x), Step(b, y))
  {
    XorOdd(x, y);
    XorHalf(x, y);
    DivideLinear(a != Odd(x), b != Odd(y), Half(x), Half(y));
  }

  lemma {:induction false} BitsLinear(n: nat, a: bv8, b: bv8, x: bv16, y: bv16)
    ensures Bits(n, XorByte(a, b), Xor(x, y)) == Xor(Bits(n, a, x), Bits(n, b, y))
  {
    if n > 0 {
      StepLinear(LowBit(a), LowBit(b), x, y);
      XorLowBit(a, b);
      XorHalfByte(a, b);
      BitsLinear(n - 1, HalfByte(a), HalfByte(b), Step(LowBit(a), x), Step(LowBit(b), y));
    }
  }

  function XorBytes(s: seq<bv8>, t: seq<bv8>): (r: seq<bv8>)
    requires |s| == |t|
    ensures |r| == |s|
  {
    if s == [] then [] else [XorByte(s[0], t[0])] + XorBytes(s[1..], t[1..])
  }

  /** The CRC is linear over XOR in the data and the starting value together. */
  lemma {:induction false} BytesLinear(s: seq<bv8>, t: seq<bv8>, x: bv16, y: bv16)
    requires |s| == |t|
    ensures Bytes(XorBytes(s, t), Xor(x, y)) == Xor(Bytes(s, x), Bytes(t, y))
  {
    if s != [] {
      BitsLinear(8, s[0], t[0], x, y);
      assert XorBytes(s, t)[1..] == XorBytes(s[1..], t[1..]);
      BytesLinear(s[1..], t[1..], Bits(8, s[0], x), Bits(8, t[0], y));
    }
  }

  // ----- when the data enters -----

  lemma WideOdd(crc: bv16, data: bv8)
    ensures Odd(Xor(crc, Wide(data))) == (LowBit(data) != Odd(crc))
  {
  }

  lemma WideHalf(data: bv8)
    ensures Half(Wide(data)) == Wide(HalfByte(data))
  {
  }

  lemma ByteFits(data: bv8)
    ensures Fits(8, data)
  {
    var d2 := HalfByte(HalfByte(data));
    var d4 := HalfByte(HalfByte(d2));
    var d6 := HalfByte(HalfByte(d4));
    HalfEight(data);
    assert Fits(0, HalfByte(HalfByte(d6)));
    assert Fits(1, HalfByte(d6)) && Fits(2, d6);
    assert Fits(3, HalfByte(d4)) && Fits(4, d4);
    assert Fits(5, HalfByte(d2)) && Fits(6, d2);
    assert Fits(7, HalfByte(data));
  }

  lemma HalfEight(data: bv8)
    ensures HalfByte(HalfByte(HalfByte(HalfByte(HalfByte(HalfByte(HalfByte(HalfByte(data)))))))) == 0
  {
  }

  lemma NoData()
    ensures HalfByte(0) == 0 && !LowBit(0) && Wide(0) == 0
  {
  }

  lemma XorZero(crc: bv16)
    ensures Xor(crc, 0) == crc
  {
  }

  /** A bit of the data may be added to the checksum before the step that reads it, at its own place. */
  lemma {:induction false} BitsAtOnce(n: nat, data: bv8, crc: bv16)
    requires Fits(n, data)
    ensures Bits(n, data, crc) == Bits(n, 0, Xor(crc, Wide(data)))
  {
    NoData();
    if n == 0 {
      XorZero(crc);
    } else {
      var h := HalfByte(data);
      WideOdd(crc, data);
      WideHalf(data);
      XorHalf(crc, Wide(data));
      DivideLinear(LowBit(data) != Odd(crc), false, Half(crc), Wide(h));
      assert Step(false, Xor(crc, Wide(data))) == Xor(Step(LowBit(data), crc), Wide(h));
      BitsAtOnce(n - 1, h, Step(LowBit(data), crc));
    }
  }

  /** The eight bits of a byte, lowest first, are the low byte of what is divided. */
  lemma ByteAtOnce(data: bv8, crc: bv16)
    ensures Bits(8, data, crc) == Bits(8, 0, Xor(crc, Wide(data)))
  {
    ByteFits(data);
    BitsAtOnce(8, data, crc);
  }

  // ----- injectivity -----

  lemma HalfTop(x: bv16, y: bv16)
    ensures Xor(Half(x), 0xA001) != Half(y)
  {
  }

  lemma Rebuild(x: bv16, y: bv16)
    requires Odd(x) == Odd(y) && Half(x) == Half(y)
    ensures x == y
  {
  }

  lemma StepInjective(bit: bool, x: bv16, y: bv16)
    requires Step(bit, x) == Step(bit, y)
    ensures x == y
  {
    DivideInjective(bit != Odd(x), bit != Odd(y), x, y);
    Rebuild(x, y);
  }

  lemma DivideInjective(a: bool, b: bool, x: bv16, y: bv16)
    requires Divide(a, Half(x)) == Divide(b, Half(y))
    ensures a == b && Half(x) == Half(y)
  {
    if a && !b {
      HalfTop(x, y);
    } else if b && !a {
      HalfTop(y, x);
    } else if a && b {
      SamePolynomial(Half(x), Half(y));
    }
  }

  lemma SamePolynomial(u: bv16, v: bv16)
    requires Xor(u, 0xA001) == Xor(v, 0xA001)
    ensures u == v
  {
  }

  lemma {:induction false} BitsInjective(n: nat, data: bv8, x: bv16, y: bv16)
    requires Bits(n, data, x) == Bits(n, data, y)
    ensures x == y
  {
    if n > 0 {
      BitsInjective(n - 1, HalfByte(data), Step(LowBit(data), x), Step(LowBit(data), y));
      StepInjective(LowBit(data), x, y);
    }
  }

  /** For fixed data, different starting values give different results. */
  lemma {:induction false} BytesInjective(s: seq<bv8>, x: bv16, y: bv16)
    requires Bytes(s, x) == Bytes(s, y)
    ensures x == y
  {
    if s != [] {
      BytesInjective(s[1..], Bits(8, s[0], x), Bits(8, s[0], y));
      BitsInjective(8, s[0], x, y);
    }
  }
}
