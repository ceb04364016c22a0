/**
 Constant elimination (`expr_eliminate_yn`), common-operand cancellation (`expr_eliminate_eq`) and
 equality up to operand order (`expr_eq`).

 The source overwrites nodes of trees that nothing else refers to, so each pass is a function from
 the old tree to the new one.
 */
module KconfigExprEq {
  import opened KconfigExpr

  // ----- expr_eliminate_yn -----

  predicate IsYN(e: Expr) { e == Symbol(Yes) || e == Symbol(No) }

  function FoldYN(op: Op, l: Expr, r: Expr): Expr {
    if l == Symbol(Absorbing(op)) then l
    else if l == Symbol(Neutral(op)) then r
    else if r == Symbol(Absorbing(op)) then r
    else if r == Symbol(Neutral(op)) then l
    else Bin(op, l, r)
  }

  function EliminateYN(e: Expr): Expr {
    match e
    case Bin(op, l, r) => FoldYN(op, EliminateYN(l), EliminateYN(r))
    case _ => e
  }

  /** Some AND or OR reachable through ANDs and ORs has y or n as an operand. */
  predicate HasRedex(e: Expr) {
    e.Bin? && (IsYN(e.left) || IsYN(e.right) || HasRedex(e.left) || HasRedex(e.right))
  }

  lemma {:induction false} EliminateYNSound(e: Expr, w: World)
    requires Legal(w)
    ensures Eval(EliminateYN(e), w) == Eval(e, w)
  {
    if e.Bin? {
      EliminateYNSound(e.left, w);
      EliminateYNSound(e.right, w);
    }
  }

  /** The result has nothing left to eliminate, and is smaller whenever there was something. */
  lemma {:induction false} EliminateYNComplete(e: Expr)
    ensures !HasRedex(EliminateYN(e))
    ensures Size(EliminateYN(e)) <= Size(e)
    ensures HasRedex(e) ==> Size(EliminateYN(e)) < Size(e)
    ensures !HasRedex(e) ==> EliminateYN(e) == e
  {
    if e.Bin? {
      EliminateYNComplete(e.left);
      EliminateYNComplete(e.right);
    }
  }

  // ----- __expr_eliminate_eq, expr_eliminate_eq, expr_eq -----

  /** The pairwise comparison of the operands of `e1` and `e2` at one level of `op`; equal operands
      are both replaced with the neutral constant. */
  function Cancel(op: Op, e1: Expr, e2: Expr): (r: (Expr, Expr))
    ensures Size(r.0) <= Size(e1) && Size(r.1) <= Size(e2)
    ensures IsOp(op, r.0) == IsOp(op, e1) && IsOp(op, r.1) == IsOp(op, e2)
    decreases Size(e1) + Size(e2), if IsOp(op, e1) || IsOp(op, e2) then 0 else 3
  {
    if IsOp(op, e1) then
      var (l, f) := Cancel(op, e1.left, e2);
      var (r, g) := Cancel(op, e1.right, f);
      (Bin(op, l, r), g)
    else if IsOp(op, e2) then
      var (f, l) := Cancel(op, e1, e2.left);
      var (g, r) := Cancel(op, f, e2.right);
      (g, Bin(op, l, r))
    else if (IsYN(e1) && e1 == e2) || !ExprEq(e1, e2) then (e1, e2)
    else (Symbol(Neutral(op)), Symbol(Neutral(op)))
  }

  function EliminateEq(e1: Expr, e2: Expr): (r: (Expr, Expr))
    decreases Size(e1) + Size(e2), 1
  {
    var (f1, f2) := if e1.Bin? then Cancel(e1.op, e1, e2) else (e1, e2);
    var (g1, g2) :=
      if f2.Bin? && !IsOp(f2.op, f1) then Cancel(f2.op, f1, f2) else (f1, f2);
    (EliminateYN(g1), EliminateYN(g2))
  }

  predicate ExprEq(e1: Expr, e2: Expr)
    decreases Size(e1) + Size(e2), 2
  {
    match e1
    case Symbol(_) => e1 == e2
    case Cmp(_, _, _) => e1 == e2
    case Not(a) => e2.Not? && ExprEq(a, e2.arg)
    case Bin(op, _, _) =>
      && IsOp(op, e2)
      && var (f1, f2) := EliminateEq(e1, e2);
         f1.Symbol? && f1 == f2
  }

  lemma Regroup(op: Op, a: Tri, b: Tri, k1: Tri, k2: Tri)
    ensures Apply(op, Apply(op, a, k1), Apply(op, b, k2)) == Apply(op, Apply(op, a, b), Apply(op, k1, k2))
    ensures Apply(op, Apply(op, a, k2), k1) == Apply(op, a, Apply(op, k1, k2))
  {
  }

  /** What cancellation takes out of both sides has one and the same value `k`. */
  lemma {:induction false} CancelSound(op: Op, e1: Expr, e2: Expr, w: World) returns (k: Tri)
    requires Legal(w)
    ensures Eval(e1, w) == Apply(op, Eval(Cancel(op, e1, e2).0, w), k)
    ensures Eval(e2, w) == Apply(op, Eval(Cancel(op, e1, e2).1, w), k)
    decreases Size(e1) + Size(e2), if IsOp(op, e1) || IsOp(op, e2) then 0 else 3
  {
    if IsOp(op, e1) {
      var (l, f) := Cancel(op, e1.left, e2);
      var (r, g) := Cancel(op, e1.right, f);
      var k1 := CancelSound(op, e1.left, e2, w);
      var k2 := CancelSound(op, e1.right, f, w);
      k := Apply(op, k1, k2);
      Regroup(op, Eval(l, w), Eval(r, w), k1, k2);
      Regroup(op, Eval(g, w), 0, k1, k2);
      assert Cancel(op, e1, e2) == (Bin(op, l, r), g);
    } else if IsOp(op, e2) {
      var (f, l) := Cancel(op, e1, e2.left);
      var (g, r) := Cancel(op, f, e2.right);
      var k1 := CancelSound(op, e1, e2.left, w);
      var k2 := CancelSound(op, f, e2.right, w);
      k := Apply(op, k1, k2);
      Regroup(op, Eval(l, w), Eval(r, w), k1, k2);
      Regroup(op, Eval(g, w), 0, k1, k2);
      assert Cancel(op, e1, e2) == (g, Bin(op, l, r));
    } else if (IsYN(e1) && e1 == e2) || !ExprEq(e1, e2) {
      k := w.tri(Neutral(op));
    } else {
      ExprEqSound(e1, e2, w);
      k := Eval(e1, w);
    }
  }

  /** `expr_eq` never equates expressions of different value. */
  lemma {:induction false} ExprEqSound(e1: Expr, e2: Expr, w: World)
    requires Legal(w) && ExprEq(e1, e2)
    ensures Eval(e1, w) == Eval(e2, w)
    decreases Size(e1) + Size(e2), 2
  {
    match e1
    case Symbol(_) =>
    case Cmp(_, _, _) =>
    case Not(a) => ExprEqSound(a, e2.arg, w);
    case Bin(op, _, _) =>
      var k := CancelSound(op, e1, e2, w);
      var (f1, f2) := Cancel(op, e1, e2);
      EliminateYNSound(f1, w);
      EliminateYNSound(f2, w);
  }

  /** The "superset" test: when cancellation leaves y of the second argument, the first implies it. */
  lemma {:induction false} SupersetSound(e1: Expr, e2: Expr, w: World)
    requires Legal(w)
    requires EliminateEq(e1, e2).1 == Symbol(Yes)
    ensures Eval(e1, w) <= Eval(e2, w)
  {
    var (f1, f2) := if e1.Bin? then Cancel(e1.op, e1, e2) else (e1, e2);
    if e1.Bin? {
      var k := CancelSound(e1.op, e1, e2, w);
    }
    EliminateYNSound(f2, w);
    if f2.Bin? && !IsOp(f2.op, f1) {
      var k := CancelSound(f2.op, f1, f2, w);
      EliminateYNSound(Cancel(f2.op, f1, f2).1, w);
    }
  }
}
