/**
 Kconfig dependency expressions and their value.

 Tristate values are the numbers 0 (n), 1 (m) and 2 (y), so that AND is the minimum, OR the
 maximum and NOT is `2 - x`.  `Eval` is the meaning that every rewriting pass has to preserve.
 */
module KconfigExpr {

  type Tri = t: int | 0 <= t <= 2

  datatype Option<+T> = None | Some(value: T)

  datatype SymType = Unknown | Boolean | Tristate | Int | Hex | Str

  /** A symbol: one of the three built-in constants, another constant (a quoted literal), or a
      named configuration symbol.  Symbols are interned, so equality is pointer equality. */
  datatype Sym = Yes | Mod | No | Lit(text: string) | Config(name: string, kind: SymType) {
    function Type(): SymType {
      if Config? then kind else Unknown
    }
    predicate IsConst() { !Config? }
    predicate IsLogical() { Type() == Boolean || Type() == Tristate }
  }

  datatype Op = And | Or
  datatype Rel = Eq | Ne | Lt | Le | Gt | Ge

  datatype Expr =
    | Symbol(sym: Sym)
    | Not(arg: Expr)
    | Bin(op: Op, left: Expr, right: Expr)
    | Cmp(rel: Rel, lhs: Sym, rhs: Sym)

  function Min(a: Tri, b: Tri): Tri { if a < b then a else b }
  function Max(a: Tri, b: Tri): Tri { if a > b then a else b }
  function Apply(op: Op, a: Tri, b: Tri): Tri { if op.And? then Min(a, b) else Max(a, b) }

  predicate IsOp(op: Op, e: Expr) { e.Bin? && e.op == op }

  /** The operand that leaves the other one alone: y for AND, n for OR. */
  function Neutral(op: Op): Sym { if op.And? then Yes else No }
  /** The operand that decides the result: n for AND, y for OR. */
  function Absorbing(op: Op): Sym { if op.And? then No else Yes }

  function Size(e: Expr): (s: nat)
    ensures s >= 1
  {
    match e
    case Bin(_, l, r) => 1 + Size(l) + Size(r)
    case Not(a) => 1 + Size(a)
    case _ => 1
  }

  function Syms(e: Expr): set<Sym> {
    match e
    case Symbol(s) => {s}
    case Not(a) => Syms(a)
    case Bin(_, l, r) => Syms(l) + Syms(r)
    case Cmp(_, a, b) => {a, b}
  }

  function SymsOpt(e: Option<Expr>): set<Sym> { if e.None? then {} else Syms(e.value) }

  // ----- worlds -----

  /** The outcome of reading a string as a number. */
  datatype Parsed = Text | Signed(s: int) | Unsigned(u: nat)

  /** Everything the value of an expression depends on: the tristate value of each symbol, the
      string value of the int, hex, string and untyped ones, the value of MODULES, and the C
      library's number reader. */
  datatype World = World(
    tri: Sym -> Tri,
    text: Sym -> string,
    modules: Tri,
    number: (string, SymType) -> Parsed)

  function StrCmp(a: string, b: string): (r: int)
    ensures r == 0 <==> a == b
  {
    if a == [] then (if b == [] then 0 else -1)
    else if b == [] then 1
    else if a[0] != b[0] then (if a[0] < b[0] then -1 else 1)
    else
      assert a == [a[0]] + a[1..] && b == [b[0]] + b[1..];
      StrCmp(a[1..], b[1..])
  }

  function StringValue(w: World, s: Sym): string {
    match s
    case Yes => "y"
    case Mod => "m"
    case No => "n"
    case Lit(t) => t
    case Config(_, k) =>
      if s.IsLogical() then
        if w.tri(s) == 0 then "n"
        else if w.tri(s) == 1 then (if w.modules == 0 then "n" else "m")
        else "y"
      else w.text(s)
  }

  function ParseString(w: World, str: string, k: SymType): Parsed {
    if k == Boolean || k == Tristate then
      Signed(if str == "n" then 0 else if str == "m" then 1 else if str == "y" then 2 else -1)
    else w.number(str, k)
  }

  function AsUnsigned(p: Parsed): nat
    requires !p.Text?
  {
    if p.Signed? then p.s % 0x1_0000_0000_0000_0000 else p.u
  }

  function Sign(a: int, b: int): int { if a > b then 1 else if a < b then -1 else 0 }

  /** The three-way result of comparing two symbols. */
  function Compare(w: World, a: Sym, b: Sym): int {
    var sa, sb := StringValue(w, a), StringValue(w, b);
    var ka := if a.Type() == Str && b.Type() == Str then Text else ParseString(w, sa, a.Type());
    var kb := if a.Type() == Str && b.Type() == Str then Text else ParseString(w, sb, b.Type());
    if ka.Text? || kb.Text? then StrCmp(sa, sb)
    else if ka.Unsigned? || kb.Unsigned? then Sign(AsUnsigned(ka), AsUnsigned(kb))
    else Sign(ka.s, kb.s)
  }

  predicate Holds(rel: Rel, res: int) {
    match rel
    case Eq => res == 0
    case Ne => res != 0
    case Lt => res < 0
    case Le => res <= 0
    case Gt => res > 0
    case Ge => res >= 0
  }

  function Eval(e: Expr, w: World): Tri {
    match e
    case Symbol(s) => w.tri(s)
    case Not(a) => 2 - Eval(a, w)
    case Bin(op, l, r) => Apply(op, Eval(l, w), Eval(r, w))
    case Cmp(rel, a, b) => if Holds(rel, Compare(w, a, b)) then 2 else 0
  }

  /** A missing expression means y. */
  function EvalOpt(e: Option<Expr>, w: World): Tri {
    if e.None? then 2 else Eval(e.value, w)
  }

  /** The values symbol evaluation can produce: the constants keep their meaning, a boolean is never
      m, nothing is m while MODULES is n; and the letters y, m and n do not read as numbers. */
  ghost predicate Legal(w: World) {
    && w.tri(Yes) == 2 && w.tri(Mod) == 1 && w.tri(No) == 0
    && (forall s: Sym :: s.Type() == Boolean ==> w.tri(s) != 1)
    && (forall s: Sym :: s.Type() == Tristate && w.tri(s) == 1 ==> w.modules != 0)
    && w.number("y", Unknown).Text? && w.number("m", Unknown).Text? && w.number("n", Unknown).Text?
  }

  /** A legal world: everything is n and nothing reads as a number. */
  function Blank(): World {
    World(s => if s == Yes then 2 else if s == Mod then 1 else 0, s => "", 0, (t, k) => Text)
  }

  lemma BlankIsLegal()
    ensures Legal(Blank())
  {
  }

  /** Comparing a logical symbol with y, m or n compares their values. */
  lemma CompareConstant(w: World, s: Sym, c: Sym)
    requires Legal(w) && s.IsLogical() && c in {Yes, Mod, No}
    ensures Compare(w, s, c) == 0 <==> w.tri(s) == w.tri(c)
  {
    assert w.tri(s) == 1 ==> w.modules != 0;
    assert ParseString(w, StringValue(w, c), c.Type()).Text?;
  }

  // ----- what comparisons mean -----

  function Relates(rel: Rel, x: int, y: int): bool {
    match rel
    case Eq => x == y
    case Ne => x != y
    case Lt => x < y
    case Le => x <= y
    case Gt => x > y
    case Ge => x >= y
  }

  /** The value as which a symbol is compared, unless both are string symbols. */
  function Reading(w: World, s: Sym): Parsed { ParseString(w, StringValue(w, s), s.Type()) }

  predicate BothStrings(a: Sym, b: Sym) { a.Type() == Str && b.Type() == Str }

  /** A negative number counts as one of 64 bits when the other one is unsigned. */
  function Wrapped(p: Parsed): nat
    requires !p.Text?
  {
    match p
    case Signed(v) => if -0x8000_0000_0000_0000 <= v < 0 then v + 0x1_0000_0000_0000_0000 else AsUnsigned(p)
    case Unsigned(u) => u
  }

  /** Symbols that read as numbers are compared as numbers. */
  lemma NumbersCompare(w: World, rel: Rel, a: Sym, b: Sym)
    requires !BothStrings(a, b) && !Reading(w, a).Text? && !Reading(w, b).Text?
    ensures Eval(Cmp(rel, a, b), w) ==
            if (if Reading(w, a).Signed? && Reading(w, b).Signed? then Relates(rel, Reading(w, a).s, Reading(w, b).s)
                else Relates(rel, Wrapped(Reading(w, a)), Wrapped(Reading(w, b))))
            then 2 else 0
  {
  }

  /** `a` comes before `b` in a dictionary: it breaks off earlier, or has the lower character where they first
      differ. */
  ghost predicate Precedes(a: string, b: string) {
    exists n: nat ::
      n <= |a| && n < |b| && a[..n] == b[..n] && (n == |a| || a[n] < b[n])
  }

  lemma {:induction false} StrCmpOrder(a: string, b: string)
    ensures (StrCmp(a, b) < 0 <==> Precedes(a, b)) && (StrCmp(a, b) > 0 <==> Precedes(b, a))
    decreases |a|
  {
    if a != [] && b != [] && a[0] == b[0] {
      StrCmpOrder(a[1..], b[1..]);
      PrecedesRest(a, b);
      PrecedesRest(b, a);
    } else {
      FirstPrecedes(a, b);
      FirstPrecedes(b, a);
    }
  }

  lemma PrecedesRest(a: string, b: string)
    requires a != [] && b != [] && a[0] == b[0]
    ensures Precedes(a, b) <==> Precedes(a[1..], b[1..])
  {
    if Precedes(a, b) {
      var n: nat :| n <= |a| && n < |b| && a[..n] == b[..n] && (n == |a| || a[n] < b[n]);
      assert n > 0;
      assert a[1..][..n - 1] == a[..n][1..] && b[1..][..n - 1] == b[..n][1..];
    }
    if Precedes(a[1..], b[1..]) {
      var n: nat :| n <= |a[1..]| && n < |b[1..]| && a[1..][..n] == b[1..][..n]
                    && (n == |a[1..]| || a[1..][n] < b[1..][n]);
      assert a[..n + 1] == [a[0]] + a[1..][..n] && b[..n + 1] == [b[0]] + b[1..][..n];
    }
  }

  lemma FirstPrecedes(a: string, b: string)
    requires a == [] || b == [] || a[0] != b[0]
    ensures Precedes(a, b) <==> b != [] && (a == [] || a[0] < b[0])
  {
    if b != [] && (a == [] || a[0] < b[0]) {
      assert a[..0] == b[..0];
    }
    if Precedes(a, b) {
      var n: nat :| n <= |a| && n < |b| && a[..n] == b[..n] && (n == |a| || a[n] < b[n]);
      if n > 0 { assert a[..n][0] == b[..n][0]; }
    }
  }

  /** Two strings, or symbols of which one does not read as a number, are compared as texts. */
  lemma TextsCompare(w: World, rel: Rel, a: Sym, b: Sym)
    requires BothStrings(a, b) || Reading(w, a).Text? || Reading(w, b).Text?
    ensures var x, y := StringValue(w, a), StringValue(w, b);
            Eval(Cmp(rel, a, b), w) == 2 <==>
              match rel
              case Eq => x == y
              case Ne => x != y
              case Lt => Precedes(x, y)
              case Le => x == y || Precedes(x, y)
              case Gt => Precedes(y, x)
              case Ge => x == y || Precedes(y, x)
  {
    StrCmpOrder(StringValue(w, a), StringValue(w, b));
  }

  // ----- tristate symbols that equal two constants -----

  /** A tristate symbol equals two different constants at once. */
  predicate Confuses(w: World, s: Sym, c: Sym, d: Sym) {
    s.Type() == Tristate && c.IsConst() && d.IsConst() && c != d && Compare(w, s, c) == 0 && Compare(w, s, d) == 0
  }

  /** No symbol of `K` does this with constants of `K`. */
  ghost predicate Separated(w: World, K: set<Sym>) {
    forall s, c, d :: s in K && c in K && d in K ==> !Confuses(w, s, c, d)
  }

  const Letters: set<Sym> := {Yes, Mod, No}

  /** A constant that is y, m or n, or that neither is spelled like one of them nor reads as their
      values 0, 1 and 2. */
  predicate Harmless(w: World, c: Sym) {
    c in Letters
    || (c.Lit? && c.text !in {"y", "m", "n"}
        && match w.number(c.text, Unknown)
           case Text => true
           case Signed(v) => v !in {0, 1, 2}
           case Unsigned(u) => u !in {0, 1, 2})
  }

  lemma HarmlessDiffers(w: World, s: Sym, c: Sym)
    requires Legal(w) && s.Type() == Tristate && c.IsConst() && Harmless(w, c) && Compare(w, s, c) == 0
    ensures c in Letters && w.tri(s) == w.tri(c)
  {
    if c in Letters {
      CompareConstant(w, s, c);
    }
  }

  /** Only the numerals of 0, 1 and 2 can be confused with m and the others. */
  lemma HarmlessSeparated(w: World, K: set<Sym>)
    requires Legal(w) && forall c :: c in K && c.IsConst() ==> Harmless(w, c)
    ensures Separated(w, K)
  {
    forall s, c, d | s in K && c in K && d in K && Confuses(w, s, c, d)
      ensures false
    {
      HarmlessDiffers(w, s, c);
      HarmlessDiffers(w, s, d);
    }
  }

  /** The world is legal and confuses nothing in `K`, to which y, m and n belong. */
  ghost predicate Clear(w: World, K: set<Sym>) { Legal(w) && Separated(w, K) && Letters <= K }

  /** All constants are y, m or n. */
  ghost predicate LettersOnly(K: set<Sym>) { forall c :: c in K && c.IsConst() ==> c in Letters }

  /** Then every legal world is clear. */
  lemma LettersAreClear(w: World, K: set<Sym>)
    requires Legal(w) && LettersOnly(K)
    ensures Clear(w, K + Letters)
  {
    HarmlessSeparated(w, K + Letters);
  }

  /** The value of an expression depends only on the symbols in it. */
  lemma {:induction false} EvalCongruence(e: Expr, v: World, w: World)
    requires forall s :: s in Syms(e) ==> v.tri(s) == w.tri(s)
    requires v.text == w.text && v.modules == w.modules && v.number == w.number
    ensures Eval(e, v) == Eval(e, w)
  {
    match e
    case Symbol(s) =>
    case Not(a) => EvalCongruence(a, v, w);
    case Bin(_, l, r) => EvalCongruence(l, v, w); EvalCongruence(r, v, w);
    case Cmp(_, a, b) =>
      assert StringValue(v, a) == StringValue(w, a);
      assert StringValue(v, b) == StringValue(w, b);
  }

  // ----- building expressions -----

  function AllocTwo(op: Op, a: Option<Expr>, b: Option<Expr>): Option<Expr> {
    if a.None? then b else if b.None? then a else Some(Bin(op, a.value, b.value))
  }
}
