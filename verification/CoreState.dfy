/**
 CoreMark's state machine: it recognises numbers in a comma-separated text, and the benchmark runs it
 over a buffer before and after damaging some bytes.
 */
module CoreState {
  type Byte = x: int | 0 <= x < 0x100

  datatype State = Start | Invalid | S1 | S2 | Int | Float | Exponent | Scientific

  const Comma: Byte := 0x2c
  const Dot: Byte := 0x2e

  predicate IsDigit(c: Byte) { 0x30 <= c <= 0x39 }
  predicate IsSign(c: Byte) { c == 0x2b || c == 0x2d }
  predicate IsE(c: Byte) { c == 0x45 || c == 0x65 }

  // ----- the language -----

  ghost predicate AllDigits(t: seq<Byte>) { forall i :: 0 <= i < |t| ==> IsDigit(t[i]) }

  function Unsigned(t: seq<Byte>): seq<Byte> { if t != [] && IsSign(t[0]) then t[1..] else t }

  /** sign? digit+ */
  ghost predicate IsInt(t: seq<Byte>) { Unsigned(t) != [] && AllDigits(Unsigned(t)) }

  /** digit* '.' digit*, with the point at `d` */
  ghost predicate PointAt(u: seq<Byte>, d: int) {
    0 <= d < |u| && u[d] == Dot && AllDigits(u[..d]) && AllDigits(u[d + 1..])
  }

  /** sign? digit* '.' digit* */
  ghost predicate IsFloat(t: seq<Byte>) { exists d :: PointAt(Unsigned(t), d) }

  /** A float, then 'e' or 'E' at `e`, a sign and digits */
  ghost predicate ExponentAt(t: seq<Byte>, e: int) {
    0 <= e && e + 2 <= |t| && IsFloat(t[..e]) && IsE(t[e]) && IsSign(t[e + 1]) && AllDigits(t[e + 2..])
  }

  ghost predicate IsScientific(t: seq<Byte>) { exists e :: ExponentAt(t, e) && e + 2 < |t| }

  ghost predicate Accepted(t: seq<Byte>) { IsInt(t) || IsFloat(t) || IsScientific(t) }

  // ----- the machine -----

  function Next(state: State, c: Byte): State {
    match state
    case Start => if IsDigit(c) then Int else if IsSign(c) then S1 else if c == Dot then Float else Invalid
    case S1 => if IsDigit(c) then Int else if c == Dot then Float else Invalid
    case Int => if c == Dot then Float else if IsDigit(c) then Int else Invalid
    case Float => if IsE(c) then S2 else if IsDigit(c) then Float else Invalid
    case S2 => if IsSign(c) then Exponent else Invalid
    case Exponent => if IsDigit(c) then Scientific else Invalid
    case Scientific => if IsDigit(c) then Scientific else Invalid
    case Invalid => Invalid
  }

  function Front(t: seq<Byte>): seq<Byte>
    requires t != []
  {
    t[..|t| - 1]
  }

  function Last(t: seq<Byte>): Byte
    requires t != []
  {
    t[|t| - 1]
  }

  function Run(t: seq<Byte>): State {
    if t == [] then Start else Next(Run(Front(t)), Last(t))
  }

  /** The texts after which the machine is in a state. */
  ghost predicate Kind(state: State, t: seq<Byte>) {
    match state
    case Start => t == []
    case S1 => |t| == 1 && IsSign(t[0])
    case Int => IsInt(t)
    case Float => IsFloat(t)
    case S2 => t != [] && IsFloat(Front(t)) && IsE(Last(t))
    case Exponent => |t| >= 2 && ExponentAt(t, |t| - 2)
    case Scientific => IsScientific(t)
    case Invalid => false
  }

  lemma DigitsSnoc(t: seq<Byte>)
    requires t != []
    ensures AllDigits(t) <==> AllDigits(Front(t)) && IsDigit(Last(t))
  {
    assert t == Front(t) + [Last(t)];
  }

  lemma UnsignedSnoc(t: seq<Byte>)
    requires t != [] && (|t| > 1 || !IsSign(t[0]))
    ensures Unsigned(t) != [] && Front(Unsigned(t)) == Unsigned(Front(t)) && Last(Unsigned(t)) == Last(t)
  {
  }

  /** A text with a point is one with the point last, or a shorter one with a digit more. */
  lemma FloatSnoc(t: seq<Byte>)
    requires t != []
    ensures IsFloat(t) <==>
            || (Last(t) == Dot && (Kind(Start, Front(t)) || Kind(S1, Front(t)) || IsInt(Front(t))))
            || (IsDigit(Last(t)) && IsFloat(Front(t)))
  {
    if |t| == 1 && IsSign(t[0]) {
      assert Unsigned(t) == [] && !IsFloat(t);
      assert !IsFloat(Front(t));
    } else {
      UnsignedSnoc(t);
      PointSnoc(Unsigned(t));
      var f := Front(t);
      assert AllDigits(Unsigned(f)) <==> Kind(Start, f) || Kind(S1, f) || IsInt(f);
    }
  }

  lemma PointSnoc(u: seq<Byte>)
    requires u != []
    ensures (exists d :: PointAt(u, d)) <==>
            || (Last(u) == Dot && AllDigits(Front(u)))
            || (IsDigit(Last(u)) && exists d :: PointAt(Front(u), d))
  {
    var n := |u| - 1;
    if d :| PointAt(u, d) {
      if d < n {
        PointGrow(u, d);
      }
    }
    if Last(u) == Dot && AllDigits(Front(u)) { assert PointAt(u, n); }
    if d :| IsDigit(Last(u)) && PointAt(Front(u), d) {
      PointGrow(u, d);
    }
  }

  lemma PointGrow(u: seq<Byte>, d: int)
    requires 0 <= d < |u| - 1
    ensures PointAt(u, d) <==> PointAt(Front(u), d) && IsDigit(Last(u))
  {
    assert u[..d] == Front(u)[..d];
    assert Front(u[d + 1..]) == Front(u)[d + 1..];
    DigitsSnoc(u[d + 1..]);
  }

  lemma ScientificSnoc(t: seq<Byte>)
    requires t != []
    ensures IsScientific(t) <==> IsDigit(Last(t)) && (Kind(Exponent, Front(t)) || IsScientific(Front(t)))
  {
    var f := Front(t);
    assert Kind(Exponent, f) || IsScientific(f) <==> exists e :: ExponentAt(f, e);
    if e :| ExponentAt(t, e) && e + 2 < |t| {
      ExponentGrow(t, e);
    }
    if e :| IsDigit(Last(t)) && ExponentAt(f, e) {
      ExponentGrow(t, e);
    }
  }

  lemma ExponentGrow(t: seq<Byte>, e: int)
    requires 0 <= e && e + 2 < |t|
    ensures ExponentAt(t, e) <==> ExponentAt(Front(t), e) && IsDigit(Last(t))
  {
    assert t[..e] == Front(t)[..e];
    assert Front(t[e + 2..]) == Front(t)[e + 2..];
    DigitsSnoc(t[e + 2..]);
  }

  lemma IntSnoc(t: seq<Byte>)
    requires t != []
    ensures IsInt(t) <==> IsDigit(Last(t)) && (Kind(Start, Front(t)) || Kind(S1, Front(t)) || IsInt(Front(t)))
  {
    if |t| > 1 || !IsSign(t[0]) {
      UnsignedSnoc(t);
      DigitsSnoc(Unsigned(t));
    }
  }

  lemma ExponentSnoc(t: seq<Byte>)
    requires t != []
    ensures Kind(Exponent, t) <==> IsSign(Last(t)) && Kind(S2, Front(t))
  {
    if |t| >= 2 { assert t[..|t| - 2] == Front(Front(t)); }
  }

  /** The machine is in a state exactly after the texts of its kind. */
  lemma {:induction false} RunIsKind(t: seq<Byte>, state: State)
    requires state != Invalid
    ensures Run(t) == state <==> Kind(state, t)
  {
    if t == [] {
      assert !Kind(S2, t) && !IsInt(t) && !IsFloat(t) && !IsScientific(t);
    } else {
      var f := Front(t);
      RunIsKind(f, Start);
      RunIsKind(f, S1);
      RunIsKind(f, Int);
      RunIsKind(f, Float);
      RunIsKind(f, S2);
      RunIsKind(f, Exponent);
      RunIsKind(f, Scientific);
      IntSnoc(t);
      FloatSnoc(t);
      ExponentSnoc(t);
      ScientificSnoc(t);
    }
  }

  /** INT, FLOAT and SCIENTIFIC are exactly their languages. */
  lemma Recognises(t: seq<Byte>)
    ensures Run(t) == Int <==> IsInt(t)
    ensures Run(t) == Float <==> IsFloat(t)
    ensures Run(t) == Scientific <==> IsScientific(t)
  {
    RunIsKind(t, Int);
    RunIsKind(t, Float);
    RunIsKind(t, Scientific);
  }

  // ----- INVALID -----

  lemma {:induction false} InvalidStays(t: seq<Byte>, u: seq<Byte>)
    requires Run(t) == Invalid
    ensures Run(t + u) == Invalid
  {
    if u == [] {
      assert t + u == t;
    } else {
      InvalidStays(t, Front(u));
      assert Front(t + u) == t + Front(u);
    }
  }

  lemma RunSnoc(t: seq<Byte>, c: Byte)
    ensures Run(t + [c]) == Next(Run(t), c)
  {
    assert Front(t + [c]) == t;
  }

  /** What makes an unfinished text a number. */
  function Completion(state: State): seq<Byte> {
    match state
    case Start | S1 | Exponent => [0x30]
    case S2 => [0x2b, 0x30]
    case _ => []
  }

  /** INVALID means that no accepted text starts like this. */
  lemma InvalidIsDead(t: seq<Byte>)
    ensures Run(t) == Invalid <==> forall u :: !Accepted(t + u)
  {
    if Run(t) == Invalid {
      forall u
        ensures !Accepted(t + u)
      {
        InvalidStays(t, u);
        Recognises(t + u);
      }
    } else {
      var u := Completion(Run(t));
      assert t + [] == t;
      RunSnoc(t, 0x30);
      RunSnoc(t, 0x2b);
      RunSnoc(t + [0x2b], 0x30);
      assert t + [0x2b] + [0x30] == t + [0x2b, 0x30];
      Recognises(t + u);
      assert Accepted(t + u);
    }
  }
}
