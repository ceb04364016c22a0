/**
 The damage that `core_bench_state` does to its buffer between the two scans, and its undoing.
 */
module CoreDamage {
  import opened CoreState
  import opened CoreScan
  import Int64Bits
  import CoreCrc

  /** Exclusive or of two numbers of `n` bits. */
  function XorBits(n: nat, a: nat, b: nat): nat {
    if n == 0 then 0 else (if a % 2 != b % 2 then 1 else 0) + 2 * XorBits(n - 1, a / 2, b / 2)
  }

  lemma {:induction false} XorBound(n: nat, a: nat, b: nat)
    ensures XorBits(n, a, b) < Int64Bits.Pow2(n)
  {
    if n > 0 { XorBound(n - 1, a / 2, b / 2); }
  }

  lemma {:induction false} XorUndo(n: nat, a: nat, b: nat)
    requires a < Int64Bits.Pow2(n)
    ensures XorBits(n, XorBits(n, a, b), b) == a
  {
    if n > 0 { XorUndo(n - 1, a / 2, b / 2); }
  }

  lemma {:induction false} XorCancel(n: nat, a: nat, b: nat, c: nat)
    requires b < Int64Bits.Pow2(n) && c < Int64Bits.Pow2(n) && XorBits(n, a, b) == XorBits(n, a, c)
    ensures b == c
  {
    if n > 0 { XorCancel(n - 1, a / 2, b / 2, c / 2); }
  }

  lemma ByteBits()
    ensures Int64Bits.Pow2(8) == 0x100
  {
    assert Int64Bits.Pow2(4) == 16;
  }

  function Xor(a: Byte, b: Byte): Byte {
    XorBound(8, a, b);
    ByteBits();
    XorBits(8, a, b)
  }

  function Damage(b: Byte, seed: Byte): Byte { if b == Comma then b else Xor(b, seed) }

  /** Every `step`-th byte of a block is damaged, unless it is a comma. */
  predicate Hit(i: int, size: nat, step: nat) { 0 < step && 0 <= i < size && i % step == 0 }

  function Corrupted(b: seq<Byte>, size: nat, seed: Byte, step: nat): (r: seq<Byte>)
    ensures |r| == |b| && forall i :: 0 <= i < |b| ==> r[i] == if Hit(i, size, step) then Damage(b[i], seed) else b[i]
  {
    seq(|b|, i requires 0 <= i < |b| => if Hit(i, size, step) then Damage(b[i], seed) else b[i])
  }

  lemma NextHit(p: nat, j: int, size: nat, step: nat)
    requires 0 < step && p % step == 0
    ensures (p + step) % step == 0 && (p < j < p + step ==> !Hit(j, size, step))
  {
    var m := p / step;
    assert p == m * step;
    if p < j < p + step { Int64Bits.DivMod(j, m, step, j - p); }
    Int64Bits.Distribute(m, 1, step);
    Int64Bits.DivMod(p + step, m + 1, step, 0);
  }

  method Corrupt(buf: array<Byte>, size: nat, seed: Byte, step: nat)
    requires size <= buf.Length && 0 < step
    modifies buf
    ensures buf[..] == Corrupted(old(buf[..]), size, seed, step)
  {
    var p: nat := 0;
    ghost var b := buf[..];
    while p < size
      invariant p % step == 0
      invariant forall i :: 0 <= i < buf.Length ==>
                  buf[i] == if i < p && Hit(i, size, step) then Damage(b[i], seed) else b[i]
      decreases size + step - p
    {
      if buf[p] != Comma {
        buf[p] := Xor(buf[p], seed);
      }
      forall j | p < j < p + step
        ensures !Hit(j, size, step)
      {
        NextHit(p, j, size, step);
      }
      NextHit(p, p, size, step);
      p := p + step;
    }
  }

  lemma XorTwice(a: Byte, s: Byte, t: Byte)
    ensures Xor(Xor(a, s), t) == a <==> s == t
  {
    ByteBits();
    XorUndo(8, a, s);
    if Xor(Xor(a, s), t) == a { XorCancel(8, Xor(a, s), s, t); }
  }

  /** Damaging a buffer a second time restores it exactly if the seeds are equal and the first time
      turned no other byte into a comma (or if there was nothing to damage). */
  lemma RestoredIff(b: seq<Byte>, size: nat, seed1: Byte, seed2: Byte, step: nat)
    ensures Corrupted(Corrupted(b, size, seed1, step), size, seed2, step) == b
            <==> forall i :: 0 <= i < |b| && Hit(i, size, step) && b[i] != Comma ==>
                   seed1 == seed2 && Xor(b[i], seed1) != Comma
  {
    var c := Corrupted(b, size, seed1, step);
    var d := Corrupted(c, size, seed2, step);
    forall i | 0 <= i < |b|
      ensures d[i] == b[i] <==> (Hit(i, size, step) && b[i] != Comma ==> seed1 == seed2 && Xor(b[i], seed1) != Comma)
    {
      if Hit(i, size, step) && b[i] != Comma && c[i] != Comma {
        XorTwice(b[i], seed1, seed2);
      }
    }
  }

  /** A byte that becomes a comma is lost, although the seeds are equal. */
  lemma NotRestored()
    ensures Corrupted(Corrupted([0x2e], 1, 2, 1), 1, 2, 1) == [Comma] != [0x2e]
  {
    assert Hit(0, 1, 1);
    assert Xor(0x2e, 2) == Comma by {
      assert XorBits(4, 2, 0) == 2;
      assert XorBits(6, 0xb, 0) == 0xb;
      assert XorBits(8, 0x2e, 2) == 0x2c;
    }
  }

  // ----- the benchmark -----

  function Zeros(): (a: seq<nat>)
    ensures Counters(a)
  {
    [0, 0, 0, 0, 0, 0, 0, 0]
  }

  method NewCounters() returns (a: array<nat>)
    ensures fresh(a) && a[..] == Zeros()
  {
    a := new nat[8](_ => 0);
  }

  /** The bytes of a counter, low byte first. */
  function WordBytes(n: nat): seq<bv8>
    requires n < Limit
  {
    var v := n as bv32;
    [(v & 0xff) as bv8, ((v >> 8) & 0xff) as bv8, ((v >> 16) & 0xff) as bv8, (v >> 24) as bv8]
  }

  /** The counters as they go into the checksum: for each state how often a token ended in it, then how
      often it was left. */
  function CounterBytes(finals: seq<nat>, track: seq<nat>, n: nat): seq<bv8>
    requires Counters(finals) && Counters(track) && n <= 8
  {
    if n == 0 then [] else CounterBytes(finals, track, n - 1) + (WordBytes(finals[n - 1]) + WordBytes(track[n - 1]))
  }

  /** The states in the order in which their counters are summed. */
  const StateOrder: seq<State> := [Start, Invalid, S1, S2, Int, Float, Exponent, Scientific]

  /** How many tokens end in state `s`. */
  function Ended(tokens: seq<Token>, s: State): nat {
    if tokens == [] then 0
    else Ended(tokens[..|tokens| - 1], s) + if Run(tokens[|tokens| - 1].text) == s then 1 else 0
  }

  /** How often state `s` is left. */
  function Left(tokens: seq<Token>, s: State): nat {
    if tokens == [] then 0 else Left(tokens[..|tokens| - 1], s) + Tally(tokens[|tokens| - 1].text, s)
  }

  lemma {:induction false} EndedCounts(tokens: seq<Token>, s: State)
    ensures CountFinals(Zeros(), tokens)[Index(s)] == Ended(tokens, s) % Limit
  {
    if tokens != [] {
      var front := tokens[..|tokens| - 1];
      EndedCounts(front, s);
      AddMod(0, Ended(front, s), 1);
    }
  }

  /** The counter of state `s`, which starts at `x`. */
  function CounterOf(x: nat, tokens: seq<Token>, s: State): nat {
    if tokens == [] then x
    else (CounterOf(x, tokens[..|tokens| - 1], s) + Tally(tokens[|tokens| - 1].text, s)) % Limit
  }

  lemma {:induction false} TokensCount(a: seq<nat>, tokens: seq<Token>, s: State)
    requires Counters(a)
    ensures CountTokens(a, tokens)[Index(s)] == CounterOf(a[Index(s)], tokens, s)
  {
    if tokens != [] {
      var front := tokens[..|tokens| - 1];
      TokensCount(a, front, s);
      CountTextTallies(CountTokens(a, front), tokens[|tokens| - 1].text, s);
    }
  }

  lemma {:induction false} CounterWraps(x: nat, tokens: seq<Token>, s: State)
    requires x < Limit
    ensures CounterOf(x, tokens, s) == (x + Left(tokens, s)) % Limit
  {
    if tokens != [] {
      var front := tokens[..|tokens| - 1];
      CounterWraps(x, front, s);
      AddMod(x, Left(front, s), Tally(tokens[|tokens| - 1].text, s));
    }
  }

  lemma LeftCounts(tokens: seq<Token>, s: State)
    ensures CountTokens(Zeros(), tokens)[Index(s)] == Left(tokens, s) % Limit
  {
    TokensCount(Zeros(), tokens, s);
    CounterWraps(0, tokens, s);
    assert Zeros()[Index(s)] == 0;
  }

  lemma {:induction false} CountsAppend(a: seq<nat>, tokens: seq<Token>, tokens': seq<Token>)
    requires Counters(a)
    ensures CountFinals(CountFinals(a, tokens), tokens') == CountFinals(a, tokens + tokens')
    ensures CountTokens(CountTokens(a, tokens), tokens') == CountTokens(a, tokens + tokens')
    decreases |tokens'|
  {
    if tokens' == [] {
      assert tokens + tokens' == tokens;
    } else {
      var front := tokens'[..|tokens'| - 1];
      CountsAppend(a, tokens, front);
      assert (tokens + tokens')[..|tokens + tokens'| - 1] == tokens + front;
    }
  }

  /** The bytes that the tokens add to the checksum, state by state. */
  function StateBytes(tokens: seq<Token>, states: seq<State>): seq<bv8> {
    if states == [] then []
    else
      var s := states[|states| - 1];
      StateBytes(tokens, states[..|states| - 1])
      + (WordBytes(Ended(tokens, s) % Limit) + WordBytes(Left(tokens, s) % Limit))
  }

  lemma {:induction false} FirstStates(tokens: seq<Token>, n: nat)
    requires n <= 8
    ensures CounterBytes(CountFinals(Zeros(), tokens), CountTokens(Zeros(), tokens), n)
            == StateBytes(tokens, StateOrder[..n])
  {
    if n > 0 {
      FirstStates(tokens, n - 1);
      NextState(tokens, n);
    }
  }

  lemma NextState(tokens: seq<Token>, n: nat)
    requires 0 < n <= 8
    ensures StateBytes(tokens, StateOrder[..n]) ==
            StateBytes(tokens, StateOrder[..n - 1])
            + (WordBytes(CountFinals(Zeros(), tokens)[n - 1]) + WordBytes(CountTokens(Zeros(), tokens)[n - 1]))
  {
    var s := StateOrder[n - 1];
    StateCounters(tokens, n);
    assert StateOrder[..n] == StateOrder[..n - 1] + [s];
    StateSnoc(tokens, StateOrder[..n - 1], s);
  }

  lemma StateCounters(tokens: seq<Token>, n: nat)
    requires 0 < n <= 8
    ensures CountFinals(Zeros(), tokens)[n - 1] == Ended(tokens, StateOrder[n - 1]) % Limit
    ensures CountTokens(Zeros(), tokens)[n - 1] == Left(tokens, StateOrder[n - 1]) % Limit
  {
    var s := StateOrder[n - 1];
    assert Index(s) == n - 1;
    EndedCounts(tokens, s);
    LeftCounts(tokens, s);
  }

  lemma StateSnoc(tokens: seq<Token>, states: seq<State>, s: State)
    ensures StateBytes(tokens, states + [s]) ==
            StateBytes(tokens, states) + (WordBytes(Ended(tokens, s) % Limit) + WordBytes(Left(tokens, s) % Limit))
  {
    assert (states + [s])[..|states|] == states;
  }

  /** The sixteen counters that go into the checksum, by the names of their states: START, INVALID, S1, S2, INT,
      FLOAT, EXPONENT and SCIENTIFIC, for each the tokens that ended in it and then the times it was left. */
  lemma CounterOrder(tokens: seq<Token>, tokens': seq<Token>)
    ensures CounterBytes(CountFinals(CountFinals(Zeros(), tokens), tokens'),
                         CountTokens(CountTokens(Zeros(), tokens), tokens'), 8)
            == StateBytes(tokens + tokens', [Start, Invalid, S1, S2, Int, Float, Exponent, Scientific])
  {
    CountsAppend(Zeros(), tokens, tokens');
    FirstStates(tokens + tokens', 8);
    assert StateOrder[..8] == StateOrder;
  }

  method Checksum(finals: seq<nat>, track: seq<nat>, crc0: bv16) returns (crc: bv16)
    requires Counters(finals) && Counters(track)
    ensures crc == CoreCrc.Bytes(CounterBytes(finals, track, 8), crc0)
  {
    crc := crc0;
    for i := 0 to 8
      invariant crc == CoreCrc.Bytes(CounterBytes(finals, track, i), crc0)
    {
      CoreCrc.BytesAppend(CounterBytes(finals, track, i), WordBytes(finals[i]) + WordBytes(track[i]), crc0);
      CoreCrc.BytesAppend(WordBytes(finals[i]), WordBytes(track[i]), crc);
      crc := CoreCrc.Crcu32(finals[i] as bv32, crc);
      crc := CoreCrc.Crcu32(track[i] as bv32, crc);
    }
  }

  /** Scans the text, damages it, scans again and undoes the damage.  Both scans cover the whole text
      that they find, the result is the checksum of the counters, and the buffer is the same again exactly
      under the condition of `RestoredIff`. */
  method BenchState(buf: array<Byte>, size: nat, seed1: Byte, seed2: Byte, step: nat, crc0: bv16, ghost s: seq<Byte>,
                    ghost s': seq<Byte>)
    returns (crc: bv16, ghost tokens: seq<Token>, ghost tokens': seq<Token>)
    requires size <= buf.Length && 0 < step
    requires HasString(buf[..], 0, s) && HasString(Corrupted(buf[..], size, seed1, step), 0, s')
    modifies buf
    ensures Reads(s, tokens, []) && Reads(s', tokens', [])
    ensures var finals := CountFinals(CountFinals(Zeros(), tokens), tokens');
            var track := CountTokens(CountTokens(Zeros(), tokens), tokens');
            crc == CoreCrc.Bytes(CounterBytes(finals, track, 8), crc0)
    ensures crc == CoreCrc.Bytes(StateBytes(tokens + tokens', StateOrder), crc0)
    ensures buf[..] == old(buf[..]) <==>
            forall i :: 0 <= i < buf.Length && Hit(i, size, step) && old(buf[i]) != Comma
                        ==> seed1 == seed2 && Xor(old(buf[i]), seed1) != Comma
  {
    ghost var b := buf[..];
    var finals, track;
    finals, track, tokens, tokens' := ScanTwice(buf, size, seed1, seed2, step, s, s');
    RestoredIff(b, size, seed1, seed2, step);
    CounterOrder(tokens, tokens');
    crc := Checksum(finals, track, crc0);
  }

  method ScanTwice(buf: array<Byte>, size: nat, seed1: Byte, seed2: Byte, step: nat, ghost s: seq<Byte>,
                   ghost s': seq<Byte>)
    returns (finals: seq<nat>, track: seq<nat>, ghost tokens: seq<Token>, ghost tokens': seq<Token>)
    requires size <= buf.Length && 0 < step
    requires HasString(buf[..], 0, s) && HasString(Corrupted(buf[..], size, seed1, step), 0, s')
    modifies buf
    ensures Reads(s, tokens, []) && Reads(s', tokens', [])
    ensures finals == CountFinals(CountFinals(Zeros(), tokens), tokens')
    ensures track == CountTokens(CountTokens(Zeros(), tokens), tokens')
    ensures buf[..] == Corrupted(Corrupted(old(buf[..]), size, seed1, step), size, seed2, step)
  {
    ghost var b := buf[..];
    var f := NewCounters();
    var t := NewCounters();
    tokens := Scan(buf, t, f, s);
    assert buf[..] == b;
    Corrupt(buf, size, seed1, step);
    tokens' := Scan(buf, t, f, s');
    assert buf[..] == Corrupted(b, size, seed1, step);
    Corrupt(buf, size, seed2, step);
    finals, track := f[..], t[..];
  }
}
