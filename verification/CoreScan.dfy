/**
 The loops of `core_state_transition` and `core_bench_state` over the buffer.
 */
module CoreScan {
  import opened CoreState

  // ----- counters -----

  /** Counters are 32 bits wide. */
  const Limit: nat := 0x1_0000_0000

  function Index(s: State): nat {
    match s
    case Start => 0 case Invalid => 1 case S1 => 2 case S2 => 3
    case Int => 4 case Float => 5 case Exponent => 6 case Scientific => 7
  }

  predicate Counters(a: seq<nat>) { |a| == 8 && forall i :: 0 <= i < 8 ==> a[i] < Limit }

  function Up(a: seq<nat>, s: State): (b: seq<nat>)
    requires Counters(a)
    ensures Counters(b)
  {
    a[Index(s) := (a[Index(s)] + 1) % Limit]
  }

  method Bump(counts: array<nat>, s: State)
    requires Counters(counts[..])
    modifies counts
    ensures counts[..] == Up(old(counts[..]), s)
  {
    counts[Index(s)] := (counts[Index(s)] + 1) % Limit;
  }

  // ----- one token -----

  /** One step counts the state that is left, except that leaving SCIENTIFIC counts INVALID and going
      from START to INVALID counts both. */
  function CountStep(a: seq<nat>, state: State, c: Byte): (b: seq<nat>)
    requires Counters(a)
    ensures Counters(b)
  {
    var next := Next(state, c);
    if next == state then a
    else if state == Scientific then Up(a, Invalid)
    else if state == Start && next == Invalid then Up(Up(a, Invalid), Start)
    else Up(a, state)
  }

  function CountText(a: seq<nat>, t: seq<Byte>): (b: seq<nat>)
    requires Counters(a)
    ensures Counters(b)
  {
    if t == [] then a else CountStep(CountText(a, Front(t)), Run(Front(t)), Last(t))
  }

  /** The counter of `s` goes up when the machine leaves `s` for good; that of INVALID when the text is
      invalid from its first byte or after its exponent. */
  predicate Counts(state: State, next: State, s: State) {
    && state != next
    && (if s == Invalid then next == Invalid && state in {Start, Scientific} else state == s != Scientific)
  }

  function Tally(t: seq<Byte>, s: State): nat {
    if t == [] then 0 else Tally(Front(t), s) + if Counts(Run(Front(t)), Run(t), s) then 1 else 0
  }

  lemma {:induction false} CountTextTallies(a: seq<nat>, t: seq<Byte>, s: State)
    requires Counters(a)
    ensures CountText(a, t)[Index(s)] == (a[Index(s)] + Tally(t, s)) % Limit
  {
    if t != [] {
      CountTextTallies(a, Front(t), s);
      CountStepTallies(CountText(a, Front(t)), Run(Front(t)), Last(t), s);
      var more := if Counts(Run(Front(t)), Run(t), s) then 1 else 0;
      AddMod(a[Index(s)], Tally(Front(t), s), more);
      assert Tally(t, s) == Tally(Front(t), s) + more;
    }
  }

  lemma CountStepTallies(a: seq<nat>, state: State, c: Byte, s: State)
    requires Counters(a)
    ensures CountStep(a, state, c)[Index(s)] ==
            (a[Index(s)] + if Counts(state, Next(state, c), s) then 1 else 0) % Limit
  {
  }

  lemma AddMod(x: nat, y: nat, z: nat)
    ensures ((x + y) % Limit + z) % Limit == (x + (y + z)) % Limit
  {
  }

  function Rank(s: State): nat {
    match s
    case Start => 0 case S1 => 1 case Int => 2 case Float => 3
    case S2 => 4 case Exponent => 5 case Scientific => 6 case Invalid => 7
  }

  /** Within a token no state is counted twice, and SCIENTIFIC is never counted. */
  lemma {:induction false} CountedOnce(t: seq<Byte>, s: State)
    ensures Tally(t, s) <= 1 && Tally(t, Scientific) == 0
    ensures Tally(t, s) == 1 ==> Rank(s) < Rank(Run(t)) || (s == Invalid == Run(t))
  {
    if t != [] { CountedOnce(Front(t), s); }
  }

  /** Reading byte `i` of the text leaves `s`; that of INVALID is counted where the text is invalid from its first
      byte on or after its exponent. */
  predicate LeavesAt(t: seq<Byte>, i: nat, s: State)
    requires i < |t|
  {
    var before, after := Run(t[..i]), Run(t[..i + 1]);
    if s == Invalid then before in {Start, Scientific} && after == Invalid else before == s && after != s
  }

  /** A counter goes up exactly if its state is left somewhere. */
  lemma {:induction false} TallyMeans(t: seq<Byte>, s: State)
    requires s != Scientific
    ensures Tally(t, s) == 1 <==> exists i :: 0 <= i < |t| && LeavesAt(t, i, s)
  {
    CountedOnce(t, s);
    if t != [] {
      var front, n := Front(t), |t| - 1;
      TallyMeans(front, s);
      CountedOnce(front, s);
      assert t[..n] == front && t[..n + 1] == t;
      assert Tally(t, s) == Tally(front, s) + if LeavesAt(t, n, s) then 1 else 0;
      forall i | 0 <= i < n
        ensures LeavesAt(t, i, s) == LeavesAt(front, i, s)
      {
        assert t[..i] == front[..i] && t[..i + 1] == front[..i + 1];
      }
    }
  }

  /** One pass of the switch. */
  method Switch(state: State, c: Byte, counts: array<nat>) returns (next: State)
    requires Counters(counts[..]) && state != Invalid
    modifies counts
    ensures next == Next(state, c)
    ensures counts[..] == CountStep(old(counts[..]), state, c)
  {
    next := state;
    match state {
      case Start =>
        if IsDigit(c) {
          next := Int;
        } else if IsSign(c) {
          next := S1;
        } else if c == Dot {
          next := Float;
        } else {
          next := Invalid;
          Bump(counts, Invalid);
        }
        Bump(counts, Start);
      case S1 =>
        if IsDigit(c) {
          next := Int;
          Bump(counts, S1);
        } else if c == Dot {
          next := Float;
          Bump(counts, S1);
        } else {
          next := Invalid;
          Bump(counts, S1);
        }
      case Int =>
        if c == Dot {
          next := Float;
          Bump(counts, Int);
        } else if !IsDigit(c) {
          next := Invalid;
          Bump(counts, Int);
        }
      case Float =>
        if IsE(c) {
          next := S2;
          Bump(counts, Float);
        } else if !IsDigit(c) {
          next := Invalid;
          Bump(counts, Float);
        }
      case S2 =>
        if IsSign(c) {
          next := Exponent;
          Bump(counts, S2);
        } else {
          next := Invalid;
          Bump(counts, S2);
        }
      case Exponent =>
        if IsDigit(c) {
          next := Scientific;
          Bump(counts, Exponent);
        } else {
          next := Invalid;
          Bump(counts, Exponent);
        }
      case Scientific =>
        if !IsDigit(c) {
          next := Invalid;
          Bump(counts, Invalid);
        }
    }
  }

  /** A token of the input: its text, and whether a comma was read after it. */
  datatype Token = Token(text: seq<Byte>, comma: bool)

  function Bytes(t: Token): seq<Byte> { t.text + if t.comma then [Comma] else [] }

  /** The machine reads on through `t`: there is no comma, and only the last byte may make it invalid. */
  ghost predicate Read(t: seq<Byte>) {
    forall i :: 0 <= i < |t| ==> t[i] != Comma && Run(t[..i]) != Invalid
  }

  lemma ReadSnoc(t: seq<Byte>, c: Byte)
    requires Read(t) && Run(t) != Invalid && c != Comma
    ensures Read(t + [c]) && Run(t + [c]) == Next(Run(t), c)
  {
    RunSnoc(t, c);
    var u := t + [c];
    forall i | 0 <= i < |u|
      ensures u[i] != Comma && Run(u[..i]) != Invalid
    {
      assert u[..i] == t[..i];
      assert t[..|t|] == t;
    }
  }

  lemma CountSnoc(a: seq<nat>, t: seq<Byte>, c: Byte)
    requires Counters(a)
    ensures CountText(a, t + [c]) == CountStep(CountText(a, t), Run(t), c)
  {
    assert Front(t + [c]) == t;
  }

  /** `t` is what the machine takes from the start of the string `s`: up to a comma, the end, or the
      first byte that makes the text invalid. */
  ghost predicate Takes(s: seq<Byte>, t: Token) {
    && Bytes(t) <= s && Read(t.text)
    && (t.comma ==> Run(t.text) != Invalid)
    && (Run(t.text) == Invalid || t.comma || Bytes(t) == s)
  }

  /** The string in the buffer from `p` on, up to the first zero. */
  ghost predicate HasString(b: seq<Byte>, p: nat, s: seq<Byte>) {
    p + |s| < |b| && b[p + |s|] == 0 && forall i :: 0 <= i < |s| ==> s[i] == b[p + i] && s[i] != 0
  }

  /** The byte at the cursor. */
  function ByteAt(s: seq<Byte>, n: nat): Byte
    requires n <= |s|
  {
    if n < |s| then s[n] else 0
  }

  lemma AtCursor(b: seq<Byte>, p: nat, s: seq<Byte>, n: nat)
    requires HasString(b, p, s) && n <= |s|
    ensures b[p + n] == ByteAt(s, n)
  {
  }

  lemma TakeOne(s: seq<Byte>, n: nat)
    requires n < |s|
    ensures s[..n + 1] == s[..n] + [s[n]]
  {
  }

  lemma TakesComma(s: seq<Byte>, n: nat)
    requires n < |s| && s[n] == Comma && Read(s[..n]) && Run(s[..n]) != Invalid
    ensures Takes(s, Token(s[..n], true)) && |Bytes(Token(s[..n], true))| == n + 1
  {
    TakeOne(s, n);
  }

  lemma TakesRest(s: seq<Byte>, n: nat)
    requires n <= |s| && Read(s[..n]) && (n == |s| || Run(s[..n]) == Invalid)
    ensures Takes(s, Token(s[..n], false)) && |Bytes(Token(s[..n], false))| == n
  {
    assert Bytes(Token(s[..n], false)) == s[..n];
  }

  /** After `n` bytes the machine is in `state`, and the counters are `now`. */
  ghost predicate Scanned(s: seq<Byte>, n: nat, state: State, before: seq<nat>, now: seq<nat>) {
    n <= |s| && state == Run(s[..n]) && Read(s[..n]) && Counters(before) && now == CountText(before, s[..n])
  }

  method Advance(state: State, c: Byte, counts: array<nat>, ghost s: seq<Byte>, ghost n: nat, ghost before: seq<nat>)
    returns (next: State)
    requires n < |s| && s[n] == c != Comma && state != Invalid && Scanned(s, n, state, before, counts[..])
    modifies counts
    ensures Scanned(s, n + 1, next, before, counts[..])
  {
    TakeOne(s, n);
    ReadSnoc(s[..n], c);
    CountSnoc(before, s[..n], c);
    next := Switch(state, c, counts);
  }

  /** `core_state_transition`: reads one token at `p`. */
  method Transition(buf: array<Byte>, p: nat, counts: array<nat>, ghost s: seq<Byte>)
    returns (q: nat, state: State, ghost token: Token)
    requires HasString(buf[..], p, s) && Counters(counts[..]) && buf as object != counts
    modifies counts
    ensures Takes(s, token) && state == Run(token.text) && q == p + |Bytes(token)|
    ensures s != [] ==> p < q
    ensures counts[..] == CountText(old(counts[..]), token.text)
  {
    q, state := p, Start;
    ghost var n, before, b := 0, counts[..], buf[..];
    while buf[q] != 0 && state != Invalid
      invariant buf[..] == b && q == p + n && Scanned(s, n, state, before, counts[..])
      decreases |s| - n
    {
      var c := buf[q];
      AtCursor(b, p, s, n);
      if c == Comma {
        TakesComma(s, n);
        token := Token(s[..n], true);
        q := q + 1;
        return;
      }
      state := Advance(state, c, counts, s, n, before);
      n := n + 1;
      q := q + 1;
    }
    AtCursor(b, p, s, n);
    TakesRest(s, n);
    token := Token(s[..n], false);
  }

  // ----- what a token means -----

  /** No accepted text starts with `t`. */
  ghost predicate Dead(t: seq<Byte>) { forall u :: !Accepted(t + u) }

  /** The state that a token ends in says what its text is; INVALID says that it is the shortest prefix
      from which no number can be reached. */
  lemma TokenMeaning(s: seq<Byte>, t: Token)
    requires Takes(s, t)
    ensures Run(t.text) == Int <==> IsInt(t.text)
    ensures Run(t.text) == Float <==> IsFloat(t.text)
    ensures Run(t.text) == Scientific <==> IsScientific(t.text)
    ensures Run(t.text) == Invalid <==> Dead(t.text)
    ensures forall i :: 0 <= i < |t.text| ==> !Dead(t.text[..i])
  {
    Recognises(t.text);
    InvalidIsDead(t.text);
    forall i | 0 <= i < |t.text|
      ensures !Dead(t.text[..i])
    {
      InvalidIsDead(t.text[..i]);
    }
  }

  lemma ReadsOn(s: seq<Byte>, t: Token)
    requires Takes(s, t)
    ensures |t.text| <= |s| && t.text == s[..|t.text|]
    ensures forall i :: 0 <= i < |t.text| ==> s[i] != Comma && Run(s[..i]) != Invalid
  {
    var n := |t.text|;
    assert t.text == Bytes(t)[..n] == s[..n];
    forall i | 0 <= i < n
      ensures s[i] != Comma && Run(s[..i]) != Invalid
    {
      assert t.text[i] == s[i] && t.text[..i] == s[..i];
    }
  }

  lemma StopsThere(s: seq<Byte>, t: Token)
    requires Takes(s, t)
    ensures t.comma ==> |t.text| < |s| && s[|t.text|] == Comma && Run(t.text) != Invalid
    ensures !t.comma ==> |t.text| == |s| || Run(t.text) == Invalid
  {
    if t.comma { assert Bytes(t)[|t.text|] == s[|t.text|]; }
  }

  /** There is only one token at the start of a string. */
  lemma TakesUnique(s: seq<Byte>, t: Token, u: Token)
    requires Takes(s, t) && Takes(s, u) && |t.text| <= |u.text|
    ensures t == u
  {
    ReadsOn(s, t);
    ReadsOn(s, u);
    StopsThere(s, t);
    StopsThere(s, u);
    assert |t.text| == |u.text|;
  }

  // ----- the whole text -----

  /** The tokens `done` are read from `s`, and `rest` is left. */
  ghost predicate Reads(s: seq<Byte>, done: seq<Token>, rest: seq<Byte>)
    decreases |done|
  {
    if done == [] then s == rest
    else Takes(s, done[0]) && Bytes(done[0]) != [] && Reads(s[|Bytes(done[0])|..], done[1..], rest)
  }

  function Glue(done: seq<Token>): seq<Byte> {
    if done == [] then [] else Bytes(done[0]) + Glue(done[1..])
  }

  lemma PrefixSplit(s: seq<Byte>, x: seq<Byte>)
    requires x <= s
    ensures s == x + s[|x|..]
  {
  }

  lemma Regroup(x: seq<Byte>, y: seq<Byte>, z: seq<Byte>)
    ensures x + y + z == x + (y + z)
  {
  }

  /** The tokens together are the text: no byte is skipped or read twice. */
  lemma {:induction false} ReadsAll(s: seq<Byte>, done: seq<Token>, rest: seq<Byte>)
    requires Reads(s, done, rest)
    ensures s == Glue(done) + rest
    decreases |done|
  {
    if done != [] {
      var x := Bytes(done[0]);
      ReadsAll(s[|x|..], done[1..], rest);
      PrefixSplit(s, x);
      Regroup(x, Glue(done[1..]), rest);
    }
  }

  lemma {:induction false} ReadsMore(s: seq<Byte>, done: seq<Token>, rest: seq<Byte>, t: Token)
    requires Reads(s, done, rest) && Takes(rest, t) && Bytes(t) != []
    ensures Reads(s, done + [t], rest[|Bytes(t)|..])
    decreases |done|
  {
    if done != [] {
      ReadsMore(s[|Bytes(done[0])|..], done[1..], rest, t);
      assert (done + [t])[1..] == done[1..] + [t];
    }
  }

  function CountTokens(a: seq<nat>, done: seq<Token>): (b: seq<nat>)
    requires Counters(a)
    ensures Counters(b)
  {
    if done == [] then a else CountText(CountTokens(a, done[..|done| - 1]), done[|done| - 1].text)
  }

  function CountFinals(a: seq<nat>, done: seq<Token>): (b: seq<nat>)
    requires Counters(a)
    ensures Counters(b)
  {
    if done == [] then a else Up(CountFinals(a, done[..|done| - 1]), Run(done[|done| - 1].text))
  }

  lemma CountsMore(a: seq<nat>, done: seq<Token>, t: Token)
    requires Counters(a)
    ensures CountTokens(a, done + [t]) == CountText(CountTokens(a, done), t.text)
    ensures CountFinals(a, done + [t]) == Up(CountFinals(a, done), Run(t.text))
  {
    assert (done + [t])[..|done|] == done;
  }

  lemma StringRest(b: seq<Byte>, p: nat, s: seq<Byte>, n: nat)
    requires HasString(b, p, s) && n <= |s|
    ensures HasString(b, p + n, s[n..])
  {
  }

  /** Reads one more token. */
  method ScanOne(buf: array<Byte>, p: nat, track: array<nat>, finals: array<nat>, ghost s: seq<Byte>)
    returns (q: nat, ghost token: Token)
    requires HasString(buf[..], p, s) && s != [] && Counters(track[..]) && Counters(finals[..])
    requires track != finals && buf as object != track && buf as object != finals
    modifies track, finals
    ensures Takes(s, token) && Bytes(token) != [] && q == p + |Bytes(token)|
    ensures track[..] == CountText(old(track[..]), token.text)
    ensures finals[..] == Up(old(finals[..]), Run(token.text))
  {
    var state;
    q, state, token := Transition(buf, p, track, s);
    Bump(finals, state);
  }

  /** The tokens account for the first `p` bytes of `s` and for the counters. */
  ghost predicate Accounts(s: seq<Byte>, p: nat, tokens: seq<Token>, track0: seq<nat>, finals0: seq<nat>,
                           track: seq<nat>, finals: seq<nat>) {
    && p <= |s| && Reads(s, tokens, s[p..]) && Counters(track0) && Counters(finals0)
    && track == CountTokens(track0, tokens) && finals == CountFinals(finals0, tokens)
  }

  lemma AccountsMore(s: seq<Byte>, p: nat, q: nat, tokens: seq<Token>, tokens': seq<Token>, token: Token,
                     track0: seq<nat>, finals0: seq<nat>, track: seq<nat>, finals: seq<nat>, track': seq<nat>,
                     finals': seq<nat>)
    requires Accounts(s, p, tokens, track0, finals0, track, finals) && Takes(s[p..], token) && Bytes(token) != []
    requires q == p + |Bytes(token)| && tokens' == tokens + [token]
    requires track' == CountText(track, token.text) && finals' == Up(finals, Run(token.text))
    ensures Accounts(s, q, tokens', track0, finals0, track', finals')
  {
    ReadsAt(s, p, q, tokens, token);
    CountsMore(track0, tokens, token);
    CountsMore(finals0, tokens, token);
  }

  lemma ReadsAt(s: seq<Byte>, p: nat, q: nat, tokens: seq<Token>, token: Token)
    requires p <= |s| && Reads(s, tokens, s[p..]) && Takes(s[p..], token)
    requires Bytes(token) != [] && q == p + |Bytes(token)|
    ensures q <= |s| && Reads(s, tokens + [token], s[q..])
  {
    var rest := s[p..];
    assert rest[q - p..] == s[q..];
    ReadsMore(s, tokens, rest, token);
  }

  /** The scan loop: it ends, and its tokens make up the whole text. */
  method Scan(buf: array<Byte>, track: array<nat>, finals: array<nat>, ghost s: seq<Byte>)
    returns (ghost tokens: seq<Token>)
    requires HasString(buf[..], 0, s) && Counters(track[..]) && Counters(finals[..])
    requires track != finals && buf as object != track && buf as object != finals
    modifies track, finals
    ensures Reads(s, tokens, [])
    ensures track[..] == CountTokens(old(track[..]), tokens) && finals[..] == CountFinals(old(finals[..]), tokens)
  {
    ghost var track0, finals0, b := track[..], finals[..], buf[..];
    var p: nat := 0;
    tokens := [];
    assert s[0..] == s;
    while buf[p] != 0
      invariant buf[..] == b && Accounts(s, p, tokens, track0, finals0, track[..], finals[..])
      decreases |s| - p
    {
      StringRest(b, 0, s, p);
      AtCursor(b, 0, s, p);
      ghost var tr, fi := track[..], finals[..];
      var q;
      ghost var token;
      q, token := ScanOne(buf, p, track, finals, s[p..]);
      AccountsMore(s, p, q, tokens, tokens + [token], token, track0, finals0, tr, fi, track[..], finals[..]);
      tokens := tokens + [token];
      p := q;
    }
    AtCursor(b, 0, s, p);
    assert s[p..] == [];
  }
}
