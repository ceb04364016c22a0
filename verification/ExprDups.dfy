/**
 Duplicate elimination (`expr_join_or`, `expr_join_and`, `expr_eliminate_dups1`,
 `expr_eliminate_dups`).

 `expr_eliminate_dups1` is called with both of its `struct expr **` arguments pointing into the same
 tree, which it changes while it walks.  A slot is modelled as a path from the root of that tree:
 reading a slot is `At`, assigning to it is `Put`, and two slots are the same pointer exactly when
 their paths are equal.
 */
module KconfigExprDups {
  import opened KconfigExpr
  import opened KconfigExprEq

  // ----- joining two operands -----

  predicate Joinable(e: Expr) {
    e.Symbol? || e.Not? || (e.Cmp? && (e.rel == Eq || e.rel == Ne))
  }

  /** The symbol a first operand is about; a negated comparison is accepted on this side only. */
  function SubjectOfFirst(e: Expr): Option<Sym>
    requires Joinable(e)
  {
    match e
    case Symbol(s) => Some(s)
    case Cmp(_, a, _) => Some(a)
    case Not(Symbol(s)) => Some(s)
    case Not(Cmp(rel, a, _)) => if rel == Eq || rel == Ne then Some(a) else None
    case _ => None
  }

  function SubjectOfSecond(e: Expr): Option<Sym>
    requires Joinable(e)
  {
    match e
    case Symbol(s) => Some(s)
    case Cmp(_, a, _) => Some(a)
    case Not(Symbol(s)) => Some(s)
    case _ => None
  }

  /** The logical symbol both operands are about, if there is one. */
  function CommonSubject(e1: Expr, e2: Expr): Option<Sym> {
    if !Joinable(e1) || !Joinable(e2) then None
    else
      var s1, s2 := SubjectOfFirst(e1), SubjectOfSecond(e2);
      if s1.Some? && s1 == s2 && s1.value.IsLogical() then s1 else None
  }

  predicate Against(e: Expr, rel: Rel, c: Sym) { e.Cmp? && e.rel == rel && e.rhs == c }

  predicate OneOfEach(e1: Expr, e2: Expr, rel: Rel, c: Sym, d: Sym) {
    || (Against(e1, rel, c) && Against(e2, rel, d))
    || (Against(e1, rel, d) && Against(e2, rel, c))
  }

  predicate SymbolWith(e1: Expr, e2: Expr, rel: Rel, c: Sym) {
    || (e1.Symbol? && Against(e2, rel, c))
    || (e2.Symbol? && Against(e1, rel, c))
  }

  predicate NegatedSymbol(e: Expr) { e.Not? && e.arg.Symbol? }

  function JoinOr(e1: Expr, e2: Expr): Option<Expr> {
    if ExprEq(e1, e2) then Some(e1)
    else
      match CommonSubject(e1, e2)
      case None => None
      case Some(s) =>
        if s.Type() == Tristate && OneOfEach(e1, e2, Eq, Yes, Mod) then Some(Cmp(Ne, s, No))
        else if s.Type() == Tristate && OneOfEach(e1, e2, Eq, Yes, No) then Some(Cmp(Ne, s, Mod))
        else if s.Type() == Tristate && OneOfEach(e1, e2, Eq, Mod, No) then Some(Cmp(Ne, s, Yes))
        else if s.Type() == Boolean && ((NegatedSymbol(e1) && e2.Symbol?) || (NegatedSymbol(e2) && e1.Symbol?))
        then Some(Symbol(Yes))
        else None
  }

  function JoinAnd(e1: Expr, e2: Expr): Option<Expr> {
    if ExprEq(e1, e2) then Some(e1)
    else
      match CommonSubject(e1, e2)
      case None => None
      case Some(s) =>
        if SymbolWith(e1, e2, Eq, Yes) then Some(Cmp(Eq, s, Yes))
        else if SymbolWith(e1, e2, Ne, No) then Some(Symbol(s))
        else if SymbolWith(e1, e2, Ne, Mod) then Some(Cmp(Eq, s, Yes))
        else if s.Type() != Tristate || !e1.Cmp? || !e2.Cmp? then None
        else if e1.rel == Eq && e2.rel == Ne && e1.rhs.IsConst() && e2.rhs.IsConst() then
          Some(if e1.rhs != e2.rhs then Cmp(Eq, s, e1.rhs) else Symbol(No))
        else if e1.rel == Ne && e2.rel == Eq && e1.rhs.IsConst() && e2.rhs.IsConst() then
          Some(if e1.rhs != e2.rhs then Cmp(Eq, s, e2.rhs) else Symbol(No))
        else if OneOfEach(e1, e2, Ne, Yes, No) then Some(Cmp(Eq, s, Mod))
        else if OneOfEach(e1, e2, Ne, Yes, Mod) then Some(Cmp(Eq, s, No))
        else if OneOfEach(e1, e2, Ne, Mod, No) then Some(Cmp(Eq, s, Yes))
        else None
  }

  function Join(op: Op, e1: Expr, e2: Expr): (j: Option<Expr>)
    ensures j.Some? ==> j.value == e1 || !j.value.Bin?
    ensures j.Some? ==> Size(j.value) <= Size(e1)
  {
    if op.Or? then JoinOr(e1, e2) else JoinAnd(e1, e2)
  }

  /** Which operands of OR are joined: equal ones, two different comparisons of a tristate symbol for equality
      with y, m or n, and a bool with its negation. */
  lemma JoinOrApplies(e1: Expr, e2: Expr)
    ensures JoinOr(e1, e2).Some? <==>
            || ExprEq(e1, e2)
            || (exists s, c, d ::
                  && s in Syms(e1) && s.Type() == Tristate && c in Letters && d in Letters && c != d
                  && e1 == Cmp(Eq, s, c) && e2 == Cmp(Eq, s, d))
            || (exists s ::
                  && s in Syms(e1) && s.Type() == Boolean
                  && (e1, e2) in {(Symbol(s), Not(Symbol(s))), (Not(Symbol(s)), Symbol(s))})
  {
    if JoinOr(e1, e2).Some? && !ExprEq(e1, e2) {
      var s := CommonSubject(e1, e2).value;
      if e1.Cmp? { assert e1 == Cmp(Eq, s, e1.rhs) && e2 == Cmp(Eq, s, e2.rhs); }
    }
  }

  /** Which operands of AND are joined: equal ones, a bool or tristate symbol with its comparison `=y`, `!=n` or
      `!=m`, and of a tristate symbol one comparison for equality and one for inequality with any constants,
      or two different ones for inequality with y, m or n. */
  lemma JoinAndApplies(e1: Expr, e2: Expr)
    ensures JoinAnd(e1, e2).Some? <==>
            ExprEq(e1, e2) || SymbolAndComparison(e1, e2) || SymbolAndComparison(e2, e1)
            || EqualAndUnequal(e1, e2) || EqualAndUnequal(e2, e1) || BothUnequal(e1, e2)
  {
  }

  predicate SymbolAndComparison(e1: Expr, e2: Expr) {
    e1.Symbol? && e1.sym.IsLogical() && e2 in {Cmp(Eq, e1.sym, Yes), Cmp(Ne, e1.sym, No), Cmp(Ne, e1.sym, Mod)}
  }

  predicate EqualAndUnequal(e1: Expr, e2: Expr) {
    && e1.Cmp? && e2.Cmp? && e1.rel == Eq && e2.rel == Ne && e1.lhs == e2.lhs && e1.lhs.Type() == Tristate
    && e1.rhs.IsConst() && e2.rhs.IsConst()
  }

  predicate BothUnequal(e1: Expr, e2: Expr) {
    && e1.Cmp? && e2.Cmp? && e1.rel == e2.rel == Ne && e1.lhs == e2.lhs && e1.lhs.Type() == Tristate
    && e1.rhs in Letters && e2.rhs in Letters && e1.rhs != e2.rhs
  }

  lemma JoinOrComparisons(e1: Expr, e2: Expr, w: World)
    requires Legal(w) && !ExprEq(e1, e2) && JoinOr(e1, e2).Some? && e1.Cmp? && e2.Cmp?
    ensures Eval(JoinOr(e1, e2).value, w) == Max(Eval(e1, w), Eval(e2, w))
  {
    var s := e1.lhs;
    CompareConstant(w, s, Yes);
    CompareConstant(w, s, Mod);
    CompareConstant(w, s, No);
  }

  lemma JoinOrSound(e1: Expr, e2: Expr, w: World)
    requires Legal(w) && JoinOr(e1, e2).Some?
    ensures Eval(JoinOr(e1, e2).value, w) == Max(Eval(e1, w), Eval(e2, w))
  {
    if ExprEq(e1, e2) {
      ExprEqSound(e1, e2, w);
    } else if e1.Cmp? && e2.Cmp? {
      JoinOrComparisons(e1, e2, w);
    }
  }

  /** One operand asks whether a tristate symbol equals a constant, the other whether it differs from
      another one, and the symbol equals both. */
  predicate Clash(e1: Expr, e2: Expr, w: World) {
    && e1.Cmp? && e2.Cmp? && e1.lhs == e2.lhs && {e1.rel, e2.rel} == {Eq, Ne}
    && Confuses(w, e1.lhs, e1.rhs, e2.rhs)
  }

  lemma JoinAndComparisons(e1: Expr, e2: Expr, w: World)
    requires Legal(w) && !ExprEq(e1, e2) && JoinAnd(e1, e2).Some? && e1.Cmp? && e2.Cmp?
    ensures Eval(JoinAnd(e1, e2).value, w) == Min(Eval(e1, w), Eval(e2, w)) <==> !Clash(e1, e2, w)
  {
    var s := e1.lhs;
    CompareConstant(w, s, Yes);
    CompareConstant(w, s, Mod);
    CompareConstant(w, s, No);
  }

  lemma JoinAndSymbol(e1: Expr, e2: Expr, w: World)
    requires Legal(w) && !ExprEq(e1, e2) && JoinAnd(e1, e2).Some? && !(e1.Cmp? && e2.Cmp?)
    ensures Eval(JoinAnd(e1, e2).value, w) == Min(Eval(e1, w), Eval(e2, w))
  {
    var s := CommonSubject(e1, e2).value;
    CompareConstant(w, s, Yes);
    CompareConstant(w, s, Mod);
    CompareConstant(w, s, No);
  }

  /** Joining two operands of AND keeps their value if and only if they do not clash. */
  lemma JoinAndExact(e1: Expr, e2: Expr, w: World)
    requires Legal(w) && JoinAnd(e1, e2).Some?
    ensures Eval(JoinAnd(e1, e2).value, w) == Min(Eval(e1, w), Eval(e2, w)) <==> !Clash(e1, e2, w)
  {
    if ExprEq(e1, e2) {
      ExprEqSound(e1, e2, w);
      if e1.Cmp? { assert e1 == e2; }
    } else if e1.Cmp? && e2.Cmp? {
      JoinAndComparisons(e1, e2, w);
    } else {
      JoinAndSymbol(e1, e2, w);
    }
  }

  /** The operands of `FOO="1" && FOO!=m` clash for FOO=m: joined they are y, but the value is n. */
  lemma JoinAndCounterexample(w: World)
    requires Legal(w) && w.tri(Config("FOO", Tristate)) == 1 && w.number("1", Unknown) == Signed(1)
    ensures var e1, e2 := Cmp(Eq, Config("FOO", Tristate), Lit("1")), Cmp(Ne, Config("FOO", Tristate), Mod);
            && JoinAnd(e1, e2) == Some(e1) && Clash(e1, e2, w)
            && Eval(e1, w) == 2 && Min(Eval(e1, w), Eval(e2, w)) == 0
  {
    CompareConstant(w, Config("FOO", Tristate), Mod);
  }

  lemma JoinAndSound(e1: Expr, e2: Expr, K: set<Sym>, w: World)
    requires Clear(w, K) && Syms(e1) + Syms(e2) <= K && JoinAnd(e1, e2).Some?
    ensures Eval(JoinAnd(e1, e2).value, w) == Min(Eval(e1, w), Eval(e2, w))
  {
    JoinAndExact(e1, e2, w);
    if e1.Cmp? && e2.Cmp? { assert !Confuses(w, e1.lhs, e1.rhs, e2.rhs); }
  }

  lemma JoinSound(op: Op, e1: Expr, e2: Expr, K: set<Sym>, w: World)
    requires Clear(w, K) && Syms(e1) + Syms(e2) <= K && Join(op, e1, e2).Some?
    ensures Eval(Join(op, e1, e2).value, w) == Apply(op, Eval(e1, w), Eval(e2, w))
  {
    if op.Or? { JoinOrSound(e1, e2, w); } else { JoinAndSound(e1, e2, K, w); }
  }

  lemma SubjectIn(e1: Expr, e2: Expr)
    requires CommonSubject(e1, e2).Some?
    ensures CommonSubject(e1, e2).value in Syms(e1)
    ensures e1.Cmp? ==> e1.rhs in Syms(e1)
    ensures e2.Cmp? ==> e2.rhs in Syms(e2)
  {
  }

  lemma JoinAndSyms(e1: Expr, e2: Expr)
    requires JoinAnd(e1, e2).Some? && !ExprEq(e1, e2)
    ensures Syms(JoinAnd(e1, e2).value) <= Syms(e1) + Syms(e2) + Letters
  {
    SubjectIn(e1, e2);
  }

  lemma JoinSyms(op: Op, e1: Expr, e2: Expr)
    requires Join(op, e1, e2).Some?
    ensures Syms(Join(op, e1, e2).value) <= Syms(e1) + Syms(e2) + Letters
  {
    if !ExprEq(e1, e2) {
      if op.And? { JoinAndSyms(e1, e2); } else { SubjectIn(e1, e2); }
    }
  }

  // ----- slots -----

  datatype Dir = L | R
  type Path = seq<Dir>

  function Child(e: Expr, d: Dir): Expr
    requires e.Bin?
  {
    if d.L? then e.left else e.right
  }

  /** The slot is reached from the root through `op` nodes only, so it is an operand (or a group of
      operands) of the root's level. */
  predicate Slot(op: Op, t: Expr, p: Path) {
    p == [] || (IsOp(op, t) && Slot(op, Child(t, p[0]), p[1..]))
  }

  function At(op: Op, t: Expr, p: Path): Expr
    requires Slot(op, t, p)
  {
    if p == [] then t else At(op, Child(t, p[0]), p[1..])
  }

  /** The slot holds an operand of the level: a leaf of the walk. */
  predicate Leaf(op: Op, t: Expr, p: Path) { Slot(op, t, p) && !IsOp(op, At(op, t, p)) }

  function Put(op: Op, t: Expr, p: Path, x: Expr): Expr
    requires Slot(op, t, p)
  {
    if p == [] then x
    else if p[0].L? then Bin(op, Put(op, t.left, p[1..], x), t.right)
    else Bin(op, t.left, Put(op, t.right, p[1..], x))
  }

  datatype Shape = Operand | Fork(Shape, Shape)

  function ShapeOf(op: Op, t: Expr): Shape {
    if IsOp(op, t) then Fork(ShapeOf(op, t.left), ShapeOf(op, t.right)) else Operand
  }

  function Forks(op: Op, t: Expr): nat {
    if IsOp(op, t) then 1 + Forks(op, t.left) + Forks(op, t.right) else 0
  }

  /** Trees of one shape have the same slots and the same leaves. */
  lemma {:induction false} SameShape(op: Op, t: Expr, u: Expr, p: Path)
    requires ShapeOf(op, t) == ShapeOf(op, u) && Slot(op, t, p)
    ensures Slot(op, u, p) && ShapeOf(op, At(op, t, p)) == ShapeOf(op, At(op, u, p))
    ensures Forks(op, At(op, t, p)) == Forks(op, At(op, u, p))
    decreases |p|, Size(t)
  {
    if p != [] {
      SameShape(op, Child(t, p[0]), Child(u, p[0]), p[1..]);
    } else if IsOp(op, t) {
      SameShape(op, t.left, u.left, []);
      SameShape(op, t.right, u.right, []);
    }
  }

  lemma {:induction false} PutLeaf(op: Op, t: Expr, p: Path, x: Expr)
    requires Leaf(op, t, p) && !IsOp(op, x)
    ensures ShapeOf(op, Put(op, t, p, x)) == ShapeOf(op, t)
    ensures Size(Put(op, t, p, x)) == Size(t) - Size(At(op, t, p)) + Size(x)
    ensures Leaf(op, Put(op, t, p, x), p) && At(op, Put(op, t, p, x), p) == x
    ensures p != [] ==> Size(At(op, t, p)) < Size(t)
    ensures Put(op, t, p, At(op, t, p)) == t
    decreases |p|
  {
    if p != [] { PutLeaf(op, Child(t, p[0]), p[1..], x); }
  }

  /** Assigning to one leaf does not change another. */
  lemma {:induction false} PutElsewhere(op: Op, t: Expr, p: Path, x: Expr, q: Path)
    requires Leaf(op, t, p) && Leaf(op, t, q) && p != q && !IsOp(op, x)
    ensures Leaf(op, Put(op, t, p, x), q) && At(op, Put(op, t, p, x), q) == At(op, t, q)
    ensures p != [] && q != []
    ensures Size(At(op, t, p)) + Size(At(op, t, q)) <= Size(t)
    decreases |p|
  {
    if p != [] && q != [] {
      PutLeaf(op, Child(t, p[0]), p[1..], x);
      PutLeaf(op, Child(t, q[0]), q[1..], x);
      if p[0] == q[0] {
        PutElsewhere(op, Child(t, p[0]), p[1..], x, q[1..]);
      }
    }
  }

  lemma AtStep(op: Op, t: Expr, p: Path, d: Dir)
    requires Slot(op, t, p) && IsOp(op, At(op, t, p))
    ensures Slot(op, t, p + [d]) && At(op, t, p + [d]) == Child(At(op, t, p), d)
    decreases |p|
  {
    if p == [] {
      assert p + [d] == [d] && [d][1..] == [];
    } else {
      AtStep(op, Child(t, p[0]), p[1..], d);
      assert (p + [d])[1..] == p[1..] + [d];
    }
  }

  // ----- expr_eliminate_dups1 -----

  /** A tree under rewriting together with the global `trans_count`. */
  datatype State = State(tree: Expr, count: nat)

  /** The walk of the operands below slot `p1` against those below slot `p2` of the same tree. */
  function Dups1(op: Op, st: State, p1: Path, p2: Path): (r: State)
    requires IsOp(op, st.tree) && Slot(op, st.tree, p1) && Slot(op, st.tree, p2)
    ensures ShapeOf(op, r.tree) == ShapeOf(op, st.tree) && Size(r.tree) <= Size(st.tree)
    decreases Size(st.tree), 1 + Forks(op, At(op, st.tree, p1)) + Forks(op, At(op, st.tree, p2))
  {
    var t := st.tree;
    var e1, e2 := At(op, t, p1), At(op, t, p2);
    if IsOp(op, e1) then
      AtStep(op, t, p1, L);
      var m := Dups1(op, st, p1 + [L], p2);
      SameShape(op, t, m.tree, p1); SameShape(op, t, m.tree, p2); AtStep(op, m.tree, p1, R);
      Dups1(op, m, p1 + [R], p2)
    else if IsOp(op, e2) then
      AtStep(op, t, p2, L);
      var m := Dups1(op, st, p1, p2 + [L]);
      SameShape(op, t, m.tree, p1); SameShape(op, t, m.tree, p2); AtStep(op, m.tree, p2, R);
      Dups1(op, m, p1, p2 + [R])
    else if p1 == p2 then st
    else JoinLeaves(op, st, p1, p2)
  }

  /** Two different operands: first the level inside the first one, then the join of the two. */
  function JoinLeaves(op: Op, st: State, p1: Path, p2: Path): (r: State)
    requires IsOp(op, st.tree) && Leaf(op, st.tree, p1) && Leaf(op, st.tree, p2) && p1 != p2
    ensures ShapeOf(op, r.tree) == ShapeOf(op, st.tree) && Size(r.tree) <= Size(st.tree)
    decreases Size(st.tree), 0
  {
    var t := st.tree;
    var e1, e2 := At(op, t, p1), At(op, t, p2);
    PutLeaf(op, t, p1, e1); PutElsewhere(op, t, p1, e1, p2);
    var inner := if e1.Bin? then Dups1(e1.op, State(e1, st.count), [], []) else State(e1, st.count);
    PutLeaf(op, t, p1, inner.tree); PutElsewhere(op, t, p1, inner.tree, p2);
    var t1 := Put(op, t, p1, inner.tree);
    match Join(op, inner.tree, e2)
    case None => State(t1, inner.count)
    case Some(j) =>
      var c := Symbol(Neutral(op));
      PutLeaf(op, t1, p1, c); PutElsewhere(op, t1, p1, c, p2);
      var t2 := Put(op, t1, p1, c);
      PutLeaf(op, t2, p2, j);
      State(Put(op, t2, p2, j), inner.count + 1)
  }

  // ----- the walk preserves the value -----

  /** Splitting the first slot: the left half is walked, then the right half of the new tree. */
  lemma SplitFirst(op: Op, st: State, p1: Path, p2: Path) returns (m: State)
    requires IsOp(op, st.tree) && Slot(op, st.tree, p1) && Slot(op, st.tree, p2)
    requires IsOp(op, At(op, st.tree, p1))
    ensures Slot(op, st.tree, p1 + [L]) && m == Dups1(op, st, p1 + [L], p2)
    ensures Slot(op, m.tree, p1 + [R]) && Slot(op, m.tree, p2) && IsOp(op, m.tree)
    ensures Dups1(op, st, p1, p2) == Dups1(op, m, p1 + [R], p2)
    ensures Forks(op, At(op, st.tree, p1 + [L])) < Forks(op, At(op, st.tree, p1))
    ensures Forks(op, At(op, m.tree, p1 + [R])) < Forks(op, At(op, st.tree, p1))
    ensures Forks(op, At(op, m.tree, p2)) == Forks(op, At(op, st.tree, p2))
  {
    AtStep(op, st.tree, p1, L);
    m := Dups1(op, st, p1 + [L], p2);
    SameShape(op, st.tree, m.tree, p1); SameShape(op, st.tree, m.tree, p2); AtStep(op, m.tree, p1, R);
  }

  lemma SplitSecond(op: Op, st: State, p1: Path, p2: Path) returns (m: State)
    requires IsOp(op, st.tree) && Slot(op, st.tree, p1) && Slot(op, st.tree, p2)
    requires !IsOp(op, At(op, st.tree, p1)) && IsOp(op, At(op, st.tree, p2))
    ensures Slot(op, st.tree, p2 + [L]) && m == Dups1(op, st, p1, p2 + [L])
    ensures Slot(op, m.tree, p2 + [R]) && Slot(op, m.tree, p1) && IsOp(op, m.tree)
    ensures Dups1(op, st, p1, p2) == Dups1(op, m, p1, p2 + [R])
    ensures Forks(op, At(op, st.tree, p2 + [L])) < Forks(op, At(op, st.tree, p2))
    ensures Forks(op, At(op, m.tree, p2 + [R])) < Forks(op, At(op, st.tree, p2))
    ensures Forks(op, At(op, m.tree, p1)) == Forks(op, At(op, st.tree, p1))
  {
    AtStep(op, st.tree, p2, L);
    m := Dups1(op, st, p1, p2 + [L]);
    SameShape(op, st.tree, m.tree, p1); SameShape(op, st.tree, m.tree, p2); AtStep(op, m.tree, p2, R);
  }

  lemma {:induction false} PutValue(op: Op, t: Expr, p: Path, x: Expr, w: World)
    requires Slot(op, t, p) && Eval(x, w) == Eval(At(op, t, p), w)
    ensures Eval(Put(op, t, p, x), w) == Eval(t, w)
    decreases |p|
  {
    if p != [] { PutValue(op, Child(t, p[0]), p[1..], x, w); }
  }

  /** An operand contributes to its level through `op` alone, wherever it stands. */
  lemma {:induction false} PutOperand(op: Op, t: Expr, p: Path, x: Expr, w: World)
    requires Legal(w) && Slot(op, t, p)
    ensures var rest := Eval(Put(op, t, p, Symbol(Neutral(op))), w);
            Eval(Put(op, t, p, x), w) == Apply(op, rest, Eval(x, w))
    decreases |p|
  {
    if p != [] {
      PutOperand(op, Child(t, p[0]), p[1..], x, w);
      var inner := Put(op, Child(t, p[0]), p[1..], Symbol(Neutral(op)));
      ApplyLast(op, Eval(t.left, w), Eval(inner, w), Eval(t.right, w), Eval(x, w));
    }
  }

  lemma ApplyLast(op: Op, l: Tri, a: Tri, r: Tri, x: Tri)
    ensures Apply(op, Apply(op, a, x), r) == Apply(op, Apply(op, a, r), x)
    ensures Apply(op, l, Apply(op, a, x)) == Apply(op, Apply(op, l, a), x)
  {
  }

  lemma {:induction false} PutSyms(op: Op, t: Expr, p: Path, x: Expr)
    requires Slot(op, t, p)
    ensures Syms(At(op, t, p)) <= Syms(t) && Syms(Put(op, t, p, x)) <= Syms(t) + Syms(x)
    decreases |p|
  {
    if p != [] { PutSyms(op, Child(t, p[0]), p[1..], x); }
  }

  /** The walk brings in no symbols but y, m and n. */
  lemma {:induction false} Dups1Syms(op: Op, st: State, p1: Path, p2: Path)
    requires IsOp(op, st.tree) && Slot(op, st.tree, p1) && Slot(op, st.tree, p2)
    ensures Syms(Dups1(op, st, p1, p2).tree) <= Syms(st.tree) + Letters
    decreases Size(st.tree), 1 + Forks(op, At(op, st.tree, p1)) + Forks(op, At(op, st.tree, p2))
  {
    var t := st.tree;
    if IsOp(op, At(op, t, p1)) {
      var m := SplitFirst(op, st, p1, p2);
      Dups1Syms(op, st, p1 + [L], p2);
      Dups1Syms(op, m, p1 + [R], p2);
    } else if IsOp(op, At(op, t, p2)) {
      var m := SplitSecond(op, st, p1, p2);
      Dups1Syms(op, st, p1, p2 + [L]);
      Dups1Syms(op, m, p1, p2 + [R]);
    } else if p1 != p2 {
      JoinLeavesSyms(op, st, p1, p2);
    }
  }

  lemma {:induction false} JoinLeavesSyms(op: Op, st: State, p1: Path, p2: Path)
    requires IsOp(op, st.tree) && Leaf(op, st.tree, p1) && Leaf(op, st.tree, p2) && p1 != p2
    ensures Syms(JoinLeaves(op, st, p1, p2).tree) <= Syms(st.tree) + Letters
    decreases Size(st.tree), 0
  {
    var t := st.tree;
    var e1, e2 := At(op, t, p1), At(op, t, p2);
    PutLeaf(op, t, p1, e1); PutElsewhere(op, t, p1, e1, p2);
    var inner := if e1.Bin? then Dups1(e1.op, State(e1, st.count), [], []) else State(e1, st.count);
    if e1.Bin? { Dups1Syms(e1.op, State(e1, st.count), [], []); }
    PutLeaf(op, t, p1, inner.tree); PutElsewhere(op, t, p1, inner.tree, p2);
    PutSyms(op, t, p1, inner.tree);
    PutSyms(op, t, p2, e2);
    var t1 := Put(op, t, p1, inner.tree);
    var j := Join(op, inner.tree, e2);
    if j.Some? {
      JoinSyms(op, inner.tree, e2);
      var c := Symbol(Neutral(op));
      PutLeaf(op, t1, p1, c); PutElsewhere(op, t1, p1, c, p2);
      PutSyms(op, t1, p1, c);
      PutSyms(op, Put(op, t1, p1, c), p2, j.value);
    }
  }

  lemma {:induction false} Dups1Sound(op: Op, st: State, p1: Path, p2: Path, K: set<Sym>, w: World)
    requires Clear(w, K) && Syms(st.tree) <= K
    requires IsOp(op, st.tree) && Slot(op, st.tree, p1) && Slot(op, st.tree, p2)
    ensures Eval(Dups1(op, st, p1, p2).tree, w) == Eval(st.tree, w)
    decreases Size(st.tree), 1 + Forks(op, At(op, st.tree, p1)) + Forks(op, At(op, st.tree, p2))
  {
    var t := st.tree;
    if IsOp(op, At(op, t, p1)) {
      var m := SplitFirst(op, st, p1, p2);
      Dups1Sound(op, st, p1 + [L], p2, K, w);
      Dups1Syms(op, st, p1 + [L], p2);
      Dups1Sound(op, m, p1 + [R], p2, K, w);
    } else if IsOp(op, At(op, t, p2)) {
      var m := SplitSecond(op, st, p1, p2);
      Dups1Sound(op, st, p1, p2 + [L], K, w);
      Dups1Syms(op, st, p1, p2 + [L]);
      Dups1Sound(op, m, p1, p2 + [R], K, w);
    } else if p1 != p2 {
      JoinLeavesSound(op, st, p1, p2, K, w);
    }
  }

  lemma {:induction false} JoinLeavesSound(op: Op, st: State, p1: Path, p2: Path, K: set<Sym>, w: World)
    requires Clear(w, K) && Syms(st.tree) <= K
    requires IsOp(op, st.tree) && Leaf(op, st.tree, p1) && Leaf(op, st.tree, p2) && p1 != p2
    ensures Eval(JoinLeaves(op, st, p1, p2).tree, w) == Eval(st.tree, w)
    decreases Size(st.tree), 0
  {
    var t := st.tree;
    var e1, e2 := At(op, t, p1), At(op, t, p2);
    PutLeaf(op, t, p1, e1); PutElsewhere(op, t, p1, e1, p2);
    var inner := if e1.Bin? then Dups1(e1.op, State(e1, st.count), [], []) else State(e1, st.count);
    PutSyms(op, t, p1, e1);
    PutSyms(op, t, p2, e2);
    if e1.Bin? {
      Dups1Sound(e1.op, State(e1, st.count), [], [], K, w);
      Dups1Syms(e1.op, State(e1, st.count), [], []);
    }
    PutLeaf(op, t, p1, inner.tree); PutElsewhere(op, t, p1, inner.tree, p2);
    PutValue(op, t, p1, inner.tree, w);
    var t1 := Put(op, t, p1, inner.tree);
    var j := Join(op, inner.tree, e2);
    if j.Some? {
      JoinSound(op, inner.tree, e2, K, w);
      var c := Symbol(Neutral(op));
      PutLeaf(op, t1, p1, c); PutElsewhere(op, t1, p1, c, p2);
      var t2 := Put(op, t1, p1, c);
      JoinOperands(op, t1, p1, p2, j.value, w);
    }
  }

  /** Moving one operand's contribution into another keeps the value of the level. */
  lemma {:induction false} JoinOperands(op: Op, t: Expr, p1: Path, p2: Path, j: Expr, w: World)
    requires Legal(w) && Leaf(op, t, p1) && Leaf(op, t, p2) && p1 != p2
    requires Eval(j, w) == Apply(op, Eval(At(op, t, p1), w), Eval(At(op, t, p2), w))
    requires Slot(op, Put(op, t, p1, Symbol(Neutral(op))), p2)
    ensures Eval(Put(op, Put(op, t, p1, Symbol(Neutral(op))), p2, j), w) == Eval(t, w)
  {
    var c := Symbol(Neutral(op));
    var t2 := Put(op, t, p1, c);
    PutElsewhere(op, t, p1, c, p2);
    PutLeaf(op, t, p1, c);
    PutLeaf(op, t2, p2, c);
    PutOperand(op, t, p1, At(op, t, p1), w);
    PutOperand(op, t2, p2, j, w);
    PutOperand(op, t2, p2, At(op, t, p2), w);
    ApplyTwo(op, Eval(Put(op, t2, p2, c), w), Eval(At(op, t, p2), w), Eval(At(op, t, p1), w));
  }

  lemma ApplyTwo(op: Op, rest: Tri, a: Tri, b: Tri)
    ensures Apply(op, Apply(op, rest, a), b) == Apply(op, rest, Apply(op, b, a))
  {
  }

  // ----- the counter tells whether the walk changed anything -----

  lemma {:induction false} RedexFromLeaf(op: Op, t: Expr, p: Path)
    requires Slot(op, t, p) && p != [] && (IsYN(At(op, t, p)) || HasRedex(At(op, t, p)))
    ensures HasRedex(t)
    decreases |p|
  {
    if |p| > 1 { RedexFromLeaf(op, Child(t, p[0]), p[1..]); }
  }

  /** A silent walk changed nothing; a walk that counted something left a y or n to eliminate. */
  lemma {:induction false} Dups1Count(op: Op, st: State, p1: Path, p2: Path)
    requires IsOp(op, st.tree) && Slot(op, st.tree, p1) && Slot(op, st.tree, p2)
    ensures var r := Dups1(op, st, p1, p2);
            && r.count >= st.count
            && (r.count == st.count ==> r == st)
            && (r.count > st.count ==> HasRedex(r.tree))
    decreases Size(st.tree), 1 + Forks(op, At(op, st.tree, p1)) + Forks(op, At(op, st.tree, p2))
  {
    var t := st.tree;
    if IsOp(op, At(op, t, p1)) {
      var m := SplitFirst(op, st, p1, p2);
      Dups1Count(op, st, p1 + [L], p2);
      Dups1Count(op, m, p1 + [R], p2);
    } else if IsOp(op, At(op, t, p2)) {
      var m := SplitSecond(op, st, p1, p2);
      Dups1Count(op, st, p1, p2 + [L]);
      Dups1Count(op, m, p1, p2 + [R]);
    } else if p1 != p2 {
      JoinLeavesCount(op, st, p1, p2);
    }
  }

  lemma {:induction false} JoinLeavesCount(op: Op, st: State, p1: Path, p2: Path)
    requires IsOp(op, st.tree) && Leaf(op, st.tree, p1) && Leaf(op, st.tree, p2) && p1 != p2
    ensures var r := JoinLeaves(op, st, p1, p2);
            && r.count >= st.count
            && (r.count == st.count ==> r == st)
            && (r.count > st.count ==> HasRedex(r.tree))
    decreases Size(st.tree), 0
  {
    var t := st.tree;
    var e1, e2 := At(op, t, p1), At(op, t, p2);
    PutLeaf(op, t, p1, e1); PutElsewhere(op, t, p1, e1, p2);
    var inner := if e1.Bin? then Dups1(e1.op, State(e1, st.count), [], []) else State(e1, st.count);
    if e1.Bin? { Dups1Count(e1.op, State(e1, st.count), [], []); }
    PutLeaf(op, t, p1, inner.tree); PutElsewhere(op, t, p1, inner.tree, p2);
    var t1 := Put(op, t, p1, inner.tree);
    var j := Join(op, inner.tree, e2);
    if j.Some? {
      var c := Symbol(Neutral(op));
      PutLeaf(op, t1, p1, c); PutElsewhere(op, t1, p1, c, p2);
      var t2 := Put(op, t1, p1, c);
      PutLeaf(op, t2, p2, j.value); PutElsewhere(op, t2, p2, j.value, p1);
      RedexFromLeaf(op, Put(op, t2, p2, j.value), p1);
    } else if inner.count > st.count {
      RedexFromLeaf(op, t1, p1);
    }
  }

  // ----- expr_eliminate_dups -----

  /** One pass of the walk over the whole expression. */
  function Pass(e: Expr): State {
    if e.Bin? then Dups1(e.op, State(e, 0), [], []) else State(e, 0)
  }

  /** Passes are repeated, with constants eliminated in between, until one changes nothing. */
  function Dedup(e: Expr): Expr
    decreases Size(e)
  {
    var r := Pass(e);
    if r.count == 0 then r.tree
    else
      Dups1Count(e.op, State(e, 0), [], []);
      EliminateYNComplete(r.tree);
      Dedup(EliminateYN(r.tree))
  }

  method EliminateDups(e: Expr) returns (r: Expr)
    ensures r == Dedup(e)
  {
    r := e;
    while true
      invariant Dedup(r) == Dedup(e)
      decreases Size(r)
    {
      var pass := Pass(r);
      if pass.count == 0 {
        return pass.tree;
      }
      Dups1Count(r.op, State(r, 0), [], []);
      EliminateYNComplete(pass.tree);
      r := EliminateYN(pass.tree);
    }
  }

  lemma {:induction false} EliminateYNSyms(e: Expr)
    ensures Syms(EliminateYN(e)) <= Syms(e)
  {
    if e.Bin? {
      EliminateYNSyms(e.left);
      EliminateYNSyms(e.right);
    }
  }

  /** Duplicate elimination brings in no symbols but y, m and n. */
  lemma {:induction false} DedupSyms(e: Expr)
    ensures Syms(Dedup(e)) <= Syms(e) + Letters
    decreases Size(e)
  {
    var r := Pass(e);
    if e.Bin? { Dups1Syms(e.op, State(e, 0), [], []); }
    if r.count != 0 {
      Dups1Count(e.op, State(e, 0), [], []);
      EliminateYNComplete(r.tree);
      EliminateYNSyms(r.tree);
      DedupSyms(EliminateYN(r.tree));
    }
  }

  /** Duplicate elimination keeps the value under every legal assignment in which no symbol of the
      expression equals two of its constants. */
  lemma {:induction false} DedupSound(e: Expr, K: set<Sym>, w: World)
    requires Clear(w, K) && Syms(e) <= K
    ensures Eval(Dedup(e), w) == Eval(e, w)
    decreases Size(e)
  {
    var r := Pass(e);
    if e.Bin? {
      Dups1Sound(e.op, State(e, 0), [], [], K, w);
      Dups1Syms(e.op, State(e, 0), [], []);
    }
    if r.count != 0 {
      Dups1Count(e.op, State(e, 0), [], []);
      EliminateYNComplete(r.tree);
      EliminateYNSound(r.tree, w);
      EliminateYNSyms(r.tree);
      DedupSound(EliminateYN(r.tree), K, w);
    }
  }

  /** With no constants but y, m and n that is every legal assignment. */
  lemma DedupKeepsValue(e: Expr, w: World)
    requires Legal(w) && LettersOnly(Syms(e))
    ensures Eval(Dedup(e), w) == Eval(e, w)
  {
    LettersAreClear(w, Syms(e));
    DedupSound(e, Syms(e) + Letters, w);
  }

  // ----- the condition is exact -----

  /** Two operands, neither of them with the operator of the level. */
  predicate IsPair(op: Op, t: Expr) { IsOp(op, t) && !IsOp(op, t.left) && !IsOp(op, t.right) }

  lemma StaysPair(op: Op, t: Expr, u: Expr)
    requires IsPair(op, t) && ShapeOf(op, u) == ShapeOf(op, t)
    ensures IsPair(op, u)
  {
    assert ShapeOf(op, t.left) == ShapeOf(op, u.left) && ShapeOf(op, t.right) == ShapeOf(op, u.right);
  }

  /** With two operands the walk joins the first with the second, and then the second with the first. */
  lemma PairWalk(op: Op, st: State)
    requires IsPair(op, st.tree)
    ensures Leaf(op, st.tree, [L]) && Leaf(op, st.tree, [R])
    ensures var a := JoinLeaves(op, st, [L], [R]);
            && IsPair(op, a.tree) && Leaf(op, a.tree, [R]) && Leaf(op, a.tree, [L])
            && Dups1(op, st, [], []) == JoinLeaves(op, a, [R], [L])
  {
    PairSlots(op, st.tree);
    var a := JoinLeaves(op, st, [L], [R]);
    StaysPair(op, st.tree, a.tree);
    PairSlots(op, a.tree);
    FirstOfPair(op, st);
    SecondOfPair(op, a);
    assert At(op, st.tree, []) == st.tree && [] + [L] == [L] && [] + [R] == [R];
  }

  lemma FirstOfPair(op: Op, st: State)
    requires IsPair(op, st.tree)
    ensures Leaf(op, st.tree, [L]) && Leaf(op, st.tree, [R])
    ensures Dups1(op, st, [L], []) == JoinLeaves(op, st, [L], [R])
  {
    PairSlots(op, st.tree);
    assert At(op, st.tree, []) == st.tree && [] + [L] == [L] && [] + [R] == [R];
    assert Dups1(op, st, [L], [L]) == st;
  }

  lemma SecondOfPair(op: Op, st: State)
    requires IsPair(op, st.tree)
    ensures Leaf(op, st.tree, [L]) && Leaf(op, st.tree, [R])
    ensures Dups1(op, st, [R], []) == JoinLeaves(op, st, [R], [L])
  {
    PairSlots(op, st.tree);
    var b := JoinLeaves(op, st, [R], [L]);
    StaysPair(op, st.tree, b.tree);
    PairSlots(op, b.tree);
    assert At(op, st.tree, []) == st.tree && [] + [L] == [L] && [] + [R] == [R];
    assert Dups1(op, b, [R], [R]) == b;
  }

  lemma PairSlots(op: Op, t: Expr)
    requires IsPair(op, t)
    ensures Leaf(op, t, [L]) && Leaf(op, t, [R]) && At(op, t, [L]) == t.left && At(op, t, [R]) == t.right
    ensures forall x :: Put(op, t, [L], x) == Bin(op, x, t.right) && Put(op, t, [R], x) == Bin(op, t.left, x)
  {
    assert [L][1..] == [] && [R][1..] == [];
    assert Slot(op, t.left, []) && Slot(op, t.right, []);
  }

  /** A pair whose first operand is joined with the second keeps only the join. */
  lemma PairJoined(op: Op, x: Expr, y: Expr, j: Expr)
    requires !x.Bin? && !y.Bin? && !j.Bin? && Join(op, x, y) == Some(j) && Join(op, j, Symbol(Neutral(op))).None?
    ensures Dups1(op, State(Bin(op, x, y), 0), [], []) == State(Bin(op, Symbol(Neutral(op)), j), 1)
  {
    var c := Symbol(Neutral(op));
    var st, a := State(Bin(op, x, y), 0), State(Bin(op, c, j), 1);
    PairWalk(op, st);
    PairSlots(op, st.tree);
    PairSlots(op, Bin(op, c, y));
    PairSlots(op, a.tree);
    assert JoinLeaves(op, st, [L], [R]) == a;
    assert JoinLeaves(op, a, [R], [L]) == a;
  }

  /** The walk changes nothing in `x`. */
  predicate Quiet(x: Expr, n: nat) { x.Bin? ==> Dups1(x.op, State(x, n), [], []) == State(x, n) }

  /** A pair that cannot be joined stays as it is. */
  lemma PairKept(op: Op, x: Expr, y: Expr, n: nat)
    requires IsPair(op, Bin(op, x, y)) && Quiet(x, n) && Quiet(y, n) && Join(op, x, y).None? && Join(op, y, x).None?
    ensures Dups1(op, State(Bin(op, x, y), n), [], []) == State(Bin(op, x, y), n)
  {
    var st := State(Bin(op, x, y), n);
    PairWalk(op, st);
    PairSlots(op, st.tree);
    assert JoinLeaves(op, st, [L], [R]) == st;
    assert JoinLeaves(op, st, [R], [L]) == st;
  }

  /** A pair that clashes is joined, and its value is lost. */
  lemma ClashLost(s: Sym, c: Sym, d: Sym, w: World)
    requires Legal(w) && Confuses(w, s, c, d)
    ensures var e := Bin(And, Cmp(Eq, s, c), Cmp(Ne, s, d));
            Dedup(e) == Cmp(Eq, s, c) && Eval(Dedup(e), w) == 2 && Eval(e, w) == 0
  {
    var x, y := Cmp(Eq, s, c), Cmp(Ne, s, d);
    assert Join(And, x, y) == Some(x) && Join(And, x, Symbol(Yes)).None?;
    PairJoined(And, x, y, x);
    assert EliminateYN(x) == x && EliminateYN(Symbol(Yes)) == Symbol(Yes);
    assert EliminateYN(Bin(And, Symbol(Yes), x)) == x;
    assert Dedup(x) == x;
    assert Eval(x, w) == 2 && Eval(y, w) == 0;
  }

  /** For the expressions over a set of symbols duplicate elimination keeps the value exactly if no symbol
      of the set equals two of its constants. */
  lemma DedupExact(K: set<Sym>, w: World)
    requires Legal(w) && Letters <= K
    ensures Separated(w, K) <==> forall e :: Syms(e) <= K ==> Eval(Dedup(e), w) == Eval(e, w)
  {
    if Separated(w, K) {
      forall e | Syms(e) <= K
        ensures Eval(Dedup(e), w) == Eval(e, w)
      {
        DedupSound(e, K, w);
      }
    } else {
      var s, c, d :| s in K && c in K && d in K && Confuses(w, s, c, d);
      ClashLost(s, c, d, w);
      var x, y := Cmp(Eq, s, c), Cmp(Ne, s, d);
      assert Syms(Bin(And, x, y)) == Syms(x) + Syms(y) == {s, c, d};
    }
  }

  // ----- nothing joinable is left -----

  /** No two operands of one level can be joined, at any level of the expression. */
  ghost predicate Irreducible(e: Expr)
    decreases Size(e)
  {
    e.Bin? ==>
      forall p: Path, q: Path :: Leaf(e.op, e, p) && Leaf(e.op, e, q) && p != q ==>
        Settled(e.op, e, p, q)
  }

  /** The pair of operands cannot be joined and the first has nothing left to join inside. */
  ghost predicate Settled(op: Op, t: Expr, p: Path, q: Path)
    requires IsOp(op, t) && Leaf(op, t, p) && Leaf(op, t, q) && p != q
    decreases Size(t), 0
  {
    PutElsewhere(op, t, p, At(op, t, p), q);
    PutLeaf(op, t, p, At(op, t, p));
    Join(op, At(op, t, p), At(op, t, q)) == None && Irreducible(At(op, t, p))
  }

  lemma {:induction false} LeavesBelow(op: Op, t: Expr, p: Path, q: Path)
    requires Slot(op, t, p) && Leaf(op, t, q) && p <= q
    ensures if IsOp(op, At(op, t, p)) then p + [L] <= q || p + [R] <= q else p == q
    decreases |p|
  {
    if p == [] {
      assert q != [] ==> [q[0]] <= q;
    } else {
      LeavesBelow(op, Child(t, p[0]), p[1..], q[1..]);
    }
  }

  /** A walk that counted nothing has met every pair of operands and settled it. */
  lemma {:induction false} SilentWalk(op: Op, st: State, p1: Path, p2: Path, q1: Path, q2: Path)
    requires IsOp(op, st.tree) && Slot(op, st.tree, p1) && Slot(op, st.tree, p2)
    requires Leaf(op, st.tree, q1) && Leaf(op, st.tree, q2) && p1 <= q1 && p2 <= q2 && q1 != q2
    requires Dups1(op, st, p1, p2).count == st.count
    ensures Settled(op, st.tree, q1, q2)
    decreases Size(st.tree), 1 + Forks(op, At(op, st.tree, p1)) + Forks(op, At(op, st.tree, p2))
  {
    var t := st.tree;
    LeavesBelow(op, t, p1, q1);
    LeavesBelow(op, t, p2, q2);
    if IsOp(op, At(op, t, p1)) {
      var m := SplitFirst(op, st, p1, p2);
      Dups1Count(op, st, p1 + [L], p2);
      Dups1Count(op, m, p1 + [R], p2);
      SilentWalk(op, st, if p1 + [L] <= q1 then p1 + [L] else p1 + [R], p2, q1, q2);
    } else if IsOp(op, At(op, t, p2)) {
      var m := SplitSecond(op, st, p1, p2);
      Dups1Count(op, st, p1, p2 + [L]);
      Dups1Count(op, m, p1, p2 + [R]);
      SilentWalk(op, st, p1, if p2 + [L] <= q2 then p2 + [L] else p2 + [R], q1, q2);
    } else {
      var e1 := At(op, t, p1);
      PutLeaf(op, t, p1, e1); PutElsewhere(op, t, p1, e1, p2);
      if e1.Bin? {
        Dups1Count(e1.op, State(e1, st.count), [], []);
        SilentLevel(State(e1, st.count));
      }
    }
  }

  lemma {:induction false} SilentLevel(st: State)
    requires st.tree.Bin? && Dups1(st.tree.op, st, [], []).count == st.count
    ensures Irreducible(st.tree)
    decreases Size(st.tree), 2 + 2 * Forks(st.tree.op, st.tree)
  {
    var op := st.tree.op;
    forall p: Path, q: Path | Leaf(op, st.tree, p) && Leaf(op, st.tree, q) && p != q
      ensures Settled(op, st.tree, p, q)
    {
      SilentWalk(op, st, [], [], p, q);
    }
  }

  /** The result has no two operands left that could be joined. */
  lemma {:induction false} DedupComplete(e: Expr)
    ensures Irreducible(Dedup(e))
    decreases Size(e)
  {
    var r := Pass(e);
    if e.Bin? { Dups1Count(e.op, State(e, 0), [], []); }
    if r.count != 0 {
      EliminateYNComplete(r.tree);
      DedupComplete(EliminateYN(r.tree));
    } else if e.Bin? {
      SilentLevel(State(e, 0));
    }
  }
}
