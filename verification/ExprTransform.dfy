/**
 Rewriting of negations and comparisons: `expr_transform`, `expr_trans_bool`, `expr_trans_compare`.
 */
module KconfigExprTransform {
  import opened KconfigExpr
  import opened KconfigExprEq
  import opened KconfigExprDups

  // ----- expr_transform -----

  /** Decreases on every rewriting step, De Morgan's included; comparisons weigh as much as the
      negated symbol they may turn into. */
  function Weight(e: Expr): (n: nat)
    ensures n >= 1
  {
    match e
    case Symbol(_) => 1
    case Cmp(_, _, _) => 2
    case Not(a) => 2 * Weight(a)
    case Bin(_, l, r) => 1 + Weight(l) + Weight(r)
  }

  function Opposite(rel: Rel): Rel {
    match rel
    case Eq => Ne
    case Ne => Eq
    case Le => Gt
    case Ge => Lt
    case Lt => Ge
    case Gt => Le
  }

  function Dual(op: Op): Op { if op.And? then Or else And }

  /** A boolean compared with y, m or n becomes the symbol, its negation or a constant. */
  function TransformCmp(e: Expr): Expr
    requires e.Cmp?
  {
    if e.lhs.Type() != Boolean then e
    else if e.rel == Eq && e.rhs == No then Not(Symbol(e.lhs))
    else if e.rel == Eq && e.rhs == Mod then Symbol(No)
    else if e.rel == Eq && e.rhs == Yes then Symbol(e.lhs)
    else if e.rel == Ne && e.rhs == No then Symbol(e.lhs)
    else if e.rel == Ne && e.rhs == Mod then Symbol(Yes)
    else if e.rel == Ne && e.rhs == Yes then Not(Symbol(e.lhs))
    else e
  }

  function Transform(e: Expr): (r: Expr)
    ensures Weight(r) <= Weight(e)
    decreases Weight(e)
  {
    match e
    case Symbol(_) => e
    case Cmp(_, _, _) => TransformCmp(e)
    case Bin(op, l, r) => Bin(op, Transform(l), Transform(r))
    case Not(a) =>
      match Transform(a)
      case Not(x) => Transform(x)
      case Cmp(rel, s, c) => Cmp(Opposite(rel), s, c)
      case Bin(op, l, r) =>
        assert Weight(Not(l)) + Weight(Not(r)) < Weight(Not(a)) - 1;
        Transform(Bin(Dual(op), Not(l), Not(r)))
      case Symbol(s) =>
        match s
        case Yes => Symbol(No)
        case Mod => Symbol(Mod)
        case No => Symbol(Yes)
        case _ => Not(Symbol(s))
  }

  /** Negations only directly above symbols other than y, m and n. */
  predicate NormalForm(e: Expr) {
    match e
    case Symbol(_) => true
    case Cmp(_, _, _) => true
    case Not(a) => a.Symbol? && a.sym !in {Yes, Mod, No}
    case Bin(_, l, r) => NormalForm(l) && NormalForm(r)
  }

  /** In addition no boolean is compared with y, m or n for (in)equality. */
  predicate Transformed(e: Expr) {
    match e
    case Symbol(_) => true
    case Cmp(rel, s, c) => !(s.Type() == Boolean && (rel == Eq || rel == Ne) && c in Letters)
    case Not(a) => a.Symbol? && a.sym !in {Yes, Mod, No}
    case Bin(_, l, r) => Transformed(l) && Transformed(r)
  }

  lemma {:induction false} TransformSound(e: Expr, w: World)
    requires Legal(w)
    ensures Eval(Transform(e), w) == Eval(e, w)
    decreases Weight(e)
  {
    match e
    case Symbol(_) =>
    case Cmp(_, s, c) =>
      if s.Type() == Boolean && c in {Yes, Mod, No} { CompareConstant(w, s, c); }
    case Bin(_, l, r) =>
      TransformSound(l, w);
      TransformSound(r, w);
    case Not(a) =>
      TransformSound(a, w);
      match Transform(a) {
        case Not(x) => TransformSound(x, w);
        case Bin(op, l, r) =>
          assert Weight(Not(l)) + Weight(Not(r)) < Weight(e) - 1;
          TransformSound(Bin(Dual(op), Not(l), Not(r)), w);
        case _ =>
      }
  }

  lemma {:induction false} TransformSyms(e: Expr)
    ensures Syms(Transform(e)) <= Syms(e) + Letters
    decreases Weight(e)
  {
    match e
    case Symbol(_) =>
    case Cmp(_, _, _) =>
    case Bin(_, l, r) =>
      TransformSyms(l);
      TransformSyms(r);
    case Not(a) =>
      TransformSyms(a);
      match Transform(a) {
        case Not(x) => TransformSyms(x);
        case Bin(op, l, r) =>
          assert Weight(Not(l)) + Weight(Not(r)) < Weight(e) - 1;
          TransformSyms(Bin(Dual(op), Not(l), Not(r)));
        case _ =>
      }
  }

  lemma {:induction false} TransformNormal(e: Expr)
    ensures Transformed(Transform(e)) && NormalForm(Transform(e))
    decreases Weight(e)
  {
    match e
    case Symbol(_) =>
    case Cmp(_, _, _) =>
    case Bin(_, l, r) =>
      TransformNormal(l);
      TransformNormal(r);
    case Not(a) =>
      TransformNormal(a);
      match Transform(a) {
        case Not(x) => TransformNormal(x);
        case Bin(op, l, r) =>
          assert Weight(Not(l)) + Weight(Not(r)) < Weight(e) - 1;
          TransformNormal(Bin(Dual(op), Not(l), Not(r)));
        case _ =>
      }
  }

  /** Transformed trees are exactly the ones that the pass leaves alone. */
  lemma {:induction false} TransformFixpoint(e: Expr)
    ensures Transform(e) == e <==> Transformed(e)
  {
    if Transform(e) == e {
      TransformNormal(e);
    }
    if Transformed(e) {
      match e
      case Bin(_, l, r) => TransformFixpoint(l); TransformFixpoint(r);
      case _ =>
    }
  }

  // ----- the normal form survives duplicate elimination -----

  lemma {:induction false} EliminateYNNormal(e: Expr)
    requires NormalForm(e)
    ensures NormalForm(EliminateYN(e))
  {
    if e.Bin? {
      EliminateYNNormal(e.left);
      EliminateYNNormal(e.right);
    }
  }

  lemma {:induction false} PutNormal(op: Op, t: Expr, p: Path, x: Expr)
    requires Slot(op, t, p) && NormalForm(t)
    ensures NormalForm(At(op, t, p))
    ensures NormalForm(x) ==> NormalForm(Put(op, t, p, x))
    decreases |p|
  {
    if p != [] { PutNormal(op, Child(t, p[0]), p[1..], x); }
  }

  lemma JoinNormal(op: Op, e1: Expr, e2: Expr)
    requires NormalForm(e1) && Join(op, e1, e2).Some?
    ensures NormalForm(Join(op, e1, e2).value)
  {
  }

  lemma {:induction false} Dups1Normal(op: Op, st: State, p1: Path, p2: Path)
    requires IsOp(op, st.tree) && Slot(op, st.tree, p1) && Slot(op, st.tree, p2)
    requires NormalForm(st.tree)
    ensures NormalForm(Dups1(op, st, p1, p2).tree)
    decreases Size(st.tree), 1 + Forks(op, At(op, st.tree, p1)) + Forks(op, At(op, st.tree, p2))
  {
    var t := st.tree;
    if IsOp(op, At(op, t, p1)) {
      var m := SplitFirst(op, st, p1, p2);
      Dups1Normal(op, st, p1 + [L], p2);
      Dups1Normal(op, m, p1 + [R], p2);
    } else if IsOp(op, At(op, t, p2)) {
      var m := SplitSecond(op, st, p1, p2);
      Dups1Normal(op, st, p1, p2 + [L]);
      Dups1Normal(op, m, p1, p2 + [R]);
    } else if p1 != p2 {
      JoinLeavesNormal(op, st, p1, p2);
    }
  }

  lemma {:induction false} JoinLeavesNormal(op: Op, st: State, p1: Path, p2: Path)
    requires IsOp(op, st.tree) && Leaf(op, st.tree, p1) && Leaf(op, st.tree, p2) && p1 != p2
    requires NormalForm(st.tree)
    ensures NormalForm(JoinLeaves(op, st, p1, p2).tree)
    decreases Size(st.tree), 0
  {
    var t := st.tree;
    var e1, e2 := At(op, t, p1), At(op, t, p2);
    PutLeaf(op, t, p1, e1); PutElsewhere(op, t, p1, e1, p2); PutNormal(op, t, p1, e1);
    var inner := if e1.Bin? then Dups1(e1.op, State(e1, st.count), [], []) else State(e1, st.count);
    if e1.Bin? { Dups1Normal(e1.op, State(e1, st.count), [], []); }
    PutLeaf(op, t, p1, inner.tree); PutElsewhere(op, t, p1, inner.tree, p2);
    PutNormal(op, t, p1, inner.tree);
    var t1 := Put(op, t, p1, inner.tree);
    var j := Join(op, inner.tree, e2);
    if j.Some? {
      JoinNormal(op, inner.tree, e2);
      var c := Symbol(Neutral(op));
      PutLeaf(op, t1, p1, c); PutElsewhere(op, t1, p1, c, p2);
      PutNormal(op, t1, p1, c);
      PutNormal(op, Put(op, t1, p1, c), p2, j.value);
    }
  }

  lemma {:induction false} DedupNormal(e: Expr)
    requires NormalForm(e)
    ensures NormalForm(Dedup(e))
    decreases Size(e)
  {
    var r := Pass(e);
    if e.Bin? { Dups1Normal(e.op, State(e, 0), [], []); }
    if r.count != 0 {
      Dups1Count(e.op, State(e, 0), [], []);
      EliminateYNComplete(r.tree);
      EliminateYNNormal(r.tree);
      DedupNormal(EliminateYN(r.tree));
    }
  }

  // ----- expr_trans_bool -----

  function TransBool(e: Expr): Expr {
    match e
    case Bin(op, l, r) => Bin(op, TransBool(l), TransBool(r))
    case Not(a) => Not(TransBool(a))
    case Cmp(rel, s, c) => if rel == Ne && s.Type() == Tristate && c == No then Symbol(s) else e
    case Symbol(_) => e
  }

  /** m counts as y for a symbol that cannot be m. */
  function Promote(v: Tri): Tri { if v == 1 then 2 else v }

  /** Every comparison that would be rewritten stands below an even number of negations. */
  predicate EvenOnly(e: Expr, even: bool) {
    match e
    case Symbol(_) => true
    case Cmp(_, _, _) => even || TransBool(e) == e
    case Not(a) => EvenOnly(a, !even)
    case Bin(_, l, r) => EvenOnly(l, even) && EvenOnly(r, even)
  }

  lemma {:induction false} NormalIsEven(e: Expr)
    requires NormalForm(e)
    ensures EvenOnly(e, true)
  {
    if e.Bin? {
      NormalIsEven(e.left);
      NormalIsEven(e.right);
    }
  }

  /** Below an even number of negations n stays n, below an odd number y stays y. */
  lemma {:induction false} TransBoolPolarity(e: Expr, even: bool, w: World)
    requires Legal(w) && EvenOnly(e, even)
    ensures even ==> (Eval(TransBool(e), w) == 0 <==> Eval(e, w) == 0)
    ensures !even ==> (Eval(TransBool(e), w) == 2 <==> Eval(e, w) == 2)
  {
    match e
    case Symbol(_) =>
    case Cmp(_, s, c) => if TransBool(e) != e { CompareConstant(w, s, c); }
    case Not(a) => TransBoolPolarity(a, !even, w);
    case Bin(_, l, r) =>
      TransBoolPolarity(l, even, w);
      TransBoolPolarity(r, even, w);
  }

  /** On the trees the passes above produce, the rewriting is invisible once m is promoted. */
  lemma TransBoolPromoted(e: Expr, w: World)
    requires Legal(w) && NormalForm(e)
    ensures Promote(Eval(TransBool(e), w)) == Promote(Eval(e, w))
  {
    NormalIsEven(e);
    TransBoolPolarity(e, true, w);
  }

  /** Below a negation it is not: `!(FOO != n)` is n for FOO=m, but `!FOO` is m. */
  lemma TransBoolCounterexample(w: World)
    requires Legal(w) && w.tri(Config("FOO", Tristate)) == 1
    ensures var e := Not(Cmp(Ne, Config("FOO", Tristate), No));
            Promote(Eval(e, w)) == 0 && Promote(Eval(TransBool(e), w)) == 2
  {
    CompareConstant(w, Config("FOO", Tristate), No);
  }

  ghost predicate NoSymbolIsM(w: World) { forall s: Sym :: s.Type() == Tristate ==> w.tri(s) != 1 }

  lemma {:induction false} TransBoolWithoutM(e: Expr, w: World)
    requires Legal(w) && NoSymbolIsM(w)
    ensures Eval(TransBool(e), w) == Eval(e, w)
  {
    match e
    case Symbol(_) =>
    case Cmp(_, s, c) => if TransBool(e) != e { CompareConstant(w, s, c); }
    case Not(a) => TransBoolWithoutM(a, w);
    case Bin(_, l, r) =>
      TransBoolWithoutM(l, w);
      TransBoolWithoutM(r, w);
  }

  /** On all expressions, of whatever form, it is invisible exactly while no tristate symbol is m. */
  lemma TransBoolExact(w: World)
    requires Legal(w)
    ensures NoSymbolIsM(w) <==> forall e :: Promote(Eval(TransBool(e), w)) == Promote(Eval(e, w))
  {
    if NoSymbolIsM(w) {
      forall e
        ensures Promote(Eval(TransBool(e), w)) == Promote(Eval(e, w))
      {
        TransBoolWithoutM(e, w);
      }
    } else {
      var s: Sym :| s.Type() == Tristate && w.tri(s) == 1;
      CompareConstant(w, s, No);
      var e := Not(Cmp(Ne, s, No));
      assert Promote(Eval(TransBool(e), w)) != Promote(Eval(e, w));
    }
  }

  // ----- expr_trans_compare, for the constant n -----

  /** `unequal` selects the comparison `e != n`, otherwise `e = n`. */
  function TransCompareNo(e: Expr, unequal: bool): Expr {
    match e
    case Bin(op, l, r) =>
      var both := Bin(Dual(op), TransCompareNo(l, false), TransCompareNo(r, false));
      if unequal then Not(both) else both
    case Not(a) => TransCompareNo(a, !unequal)
    case Cmp(_, _, _) => if unequal then e else Not(e)
    case Symbol(s) => Cmp(if unequal then Ne else Eq, s, No)
  }

  function TransCompareNoOpt(e: Option<Expr>): Expr {
    if e.None? then Not(Symbol(No)) else TransCompareNo(e.value, true)
  }

  lemma {:induction false} TransCompareSyms(e: Expr, unequal: bool)
    ensures Syms(TransCompareNo(e, unequal)) <= Syms(e) + Letters
  {
    match e
    case Not(a) => TransCompareSyms(a, !unequal);
    case Bin(_, l, r) =>
      TransCompareSyms(l, false);
      TransCompareSyms(r, false);
    case _ =>
  }

  /** Every symbol that stands for its own value, outside comparisons, is logical or one of y, m and n. */
  predicate LogicalOnly(e: Expr) {
    match e
    case Symbol(s) => s.IsLogical() || s in Letters
    case Not(a) => LogicalOnly(a)
    case Bin(_, l, r) => LogicalOnly(l) && LogicalOnly(r)
    case Cmp(_, _, _) => true
  }

  lemma CompareSymbolNo(w: World, s: Sym)
    requires Legal(w) && (s.IsLogical() || s in Letters)
    ensures Compare(w, s, No) == 0 <==> w.tri(s) == 0
  {
    if s.IsLogical() { CompareConstant(w, s, No); }
  }

  /** A symbol of `K` that is not logical is n exactly if its text compares equal to n, and never m. */
  ghost predicate TextReads(w: World, K: set<Sym>) {
    forall s :: s in K && !s.IsLogical() && s !in Letters ==>
      w.tri(s) != 1 && (Compare(w, s, No) == 0 <==> w.tri(s) == 0)
  }

  /** No tristate symbol of `K` is m. */
  ghost predicate NoneIsM(w: World, K: set<Sym>) { forall s :: s in K && s.Type() == Tristate ==> w.tri(s) != 1 }

  /** The result is n or y, the two comparisons are opposites, and each agrees with the expression
      wherever the expression is n or y and symbols that are not logical read like their text. */
  lemma {:induction false} TransCompareDecides(e: Expr, w: World)
    requires Legal(w)
    ensures Eval(TransCompareNo(e, true), w) in {0, 2}
    ensures Eval(TransCompareNo(e, false), w) == 2 - Eval(TransCompareNo(e, true), w)
    ensures (LogicalOnly(e) || TextReads(w, Syms(e))) && Eval(e, w) != 1 ==>
              Eval(TransCompareNo(e, true), w) == Eval(e, w)
  {
    match e
    case Symbol(s) =>
      assert Eval(e, w) == w.tri(s);
      if s.IsLogical() || s in Letters { CompareSymbolNo(w, s); }
    case Cmp(_, _, _) =>
    case Not(a) => TransCompareDecides(a, w);
    case Bin(_, l, r) =>
      TransCompareDecides(l, w);
      TransCompareDecides(r, w);
  }

  /** The value of an expression when every symbol that is m counts as y, and every text other than n
      as well. */
  function EvalPromoted(e: Expr, w: World): Tri {
    match e
    case Symbol(s) =>
      if s.IsLogical() || s in Letters then Promote(w.tri(s)) else if Compare(w, s, No) == 0 then 0 else 2
    case Not(a) => 2 - EvalPromoted(a, w)
    case Bin(op, l, r) => Apply(op, EvalPromoted(l, w), EvalPromoted(r, w))
    case Cmp(_, _, _) => Eval(e, w)
  }

  /** This is what the comparison computes for every expression. */
  lemma {:induction false} TransCompareValue(e: Expr, w: World)
    requires Legal(w)
    ensures Eval(TransCompareNo(e, true), w) == EvalPromoted(e, w)
    ensures Eval(TransCompareNo(e, false), w) == 2 - EvalPromoted(e, w)
  {
    TransCompareDecides(e, w);
    match e
    case Symbol(s) => if s.IsLogical() || s in Letters { CompareSymbolNo(w, s); }
    case Cmp(_, _, _) =>
    case Not(a) => TransCompareValue(a, w);
    case Bin(_, l, r) =>
      TransCompareValue(l, w);
      TransCompareValue(r, w);
  }

  /** No negated part of the expression is m. */
  predicate NegatesNoM(e: Expr, w: World) {
    match e
    case Not(a) => Eval(a, w) != 1 && NegatesNoM(a, w)
    case Bin(_, l, r) => NegatesNoM(l, w) && NegatesNoM(r, w)
    case _ => true
  }

  /** The comparison decides `e != n` where no negated part is m. */
  lemma {:induction false} TransCompareUnnegated(e: Expr, w: World)
    requires Legal(w) && (LogicalOnly(e) || TextReads(w, Syms(e))) && NegatesNoM(e, w)
    ensures EvalPromoted(e, w) == Promote(Eval(e, w))
    ensures Eval(TransCompareNo(e, true), w) == 2 <==> Eval(e, w) != 0
  {
    TransCompareValue(e, w);
    match e
    case Not(a) => TransCompareUnnegated(a, w);
    case Bin(_, l, r) =>
      TransCompareUnnegated(l, w);
      TransCompareUnnegated(r, w);
    case Symbol(s) => assert Eval(e, w) == w.tri(s);
    case Cmp(_, _, _) =>
  }

  /** The constant m does not stand for its own value. */
  predicate WithoutM(e: Expr) {
    match e
    case Symbol(s) => s != Mod
    case Not(a) => WithoutM(a)
    case Bin(_, l, r) => WithoutM(l) && WithoutM(r)
    case Cmp(_, _, _) => true
  }

  lemma {:induction false} NeverM(e: Expr, w: World)
    requires Legal(w) && NoneIsM(w, Syms(e)) && (LogicalOnly(e) || TextReads(w, Syms(e))) && WithoutM(e)
    ensures Eval(e, w) != 1
  {
    match e
    case Not(a) => NeverM(a, w);
    case Bin(_, l, r) => NeverM(l, w); NeverM(r, w);
    case Symbol(s) => assert Eval(e, w) == w.tri(s);
    case Cmp(_, _, _) =>
  }

  ghost predicate DecidesNotN(e: Expr, w: World) {
    Eval(TransCompareNo(e, true), w) == 2 <==> Eval(e, w) != 0
  }

  /** For all expressions without the constant m it does so exactly while no tristate symbol is m. */
  lemma TransCompareExact(w: World)
    requires Legal(w)
    ensures NoSymbolIsM(w) <==> forall e :: LogicalOnly(e) && WithoutM(e) ==> DecidesNotN(e, w)
  {
    if NoSymbolIsM(w) {
      forall e | LogicalOnly(e) && WithoutM(e)
        ensures DecidesNotN(e, w)
      {
        NeverM(e, w);
        TransCompareDecides(e, w);
      }
    } else {
      var s: Sym :| s.Type() == Tristate && w.tri(s) == 1;
      NegatedMMisread(s, w);
    }
  }

  /** For the expressions over a set of symbols, of whatever type, it does so exactly if none of them is m
      and those that are not logical read like their text. */
  lemma TransCompareExactText(K: set<Sym>, w: World)
    requires Legal(w)
    ensures NoneIsM(w, K) && TextReads(w, K) <==> forall e :: Syms(e) <= K && WithoutM(e) ==> DecidesNotN(e, w)
  {
    if NoneIsM(w, K) && TextReads(w, K) {
      forall e | Syms(e) <= K && WithoutM(e)
        ensures DecidesNotN(e, w)
      {
        NeverM(e, w);
        TransCompareDecides(e, w);
      }
    } else if NoneIsM(w, K) {
      var s :| s in K && !s.IsLogical() && s !in Letters
        && !(w.tri(s) != 1 && (Compare(w, s, No) == 0 <==> w.tri(s) == 0));
      TextMisread(s, w);
    } else {
      var s :| s in K && s.Type() == Tristate && w.tri(s) == 1;
      NegatedMMisread(s, w);
    }
  }

  lemma NegatedMMisread(s: Sym, w: World)
    requires Legal(w) && s.Type() == Tristate && w.tri(s) == 1
    ensures var e := Not(Symbol(s)); Syms(e) == {s} && LogicalOnly(e) && WithoutM(e) && !DecidesNotN(e, w)
  {
    CompareConstant(w, s, No);
    var e := Not(Symbol(s));
    assert TransCompareNo(Symbol(s), false) == TransCompareNo(e, true) == Cmp(Eq, s, No);
    assert Eval(Cmp(Eq, s, No), w) == 0 && Eval(e, w) == 2 - Eval(Symbol(s), w);
    assert Syms(e) == Syms(Symbol(s)) && LogicalOnly(Symbol(s)) && WithoutM(Symbol(s));
  }

  lemma TextMisread(s: Sym, w: World)
    requires Legal(w) && !s.IsLogical() && s !in Letters
    requires w.tri(s) == 1 || (Compare(w, s, No) == 0) != (w.tri(s) == 0)
    ensures exists e :: Syms(e) == {s} && WithoutM(e) && !DecidesNotN(e, w)
  {
    var e, f := Symbol(s), Not(Symbol(s));
    assert TransCompareNo(e, true) == Cmp(Ne, s, No)
           && TransCompareNo(e, false) == TransCompareNo(f, true) == Cmp(Eq, s, No);
    assert Eval(e, w) == w.tri(s) && Eval(f, w) == 2 - Eval(e, w);
    assert Syms(e) == Syms(f) == {s} && WithoutM(e) && WithoutM(f);
    assert !DecidesNotN(e, w) || !DecidesNotN(f, w);
  }

  /** A negated symbol at m is taken for n: `!A` is rewritten to `A = n`, which is n for A=m although `!A` is m. */
  lemma TransCompareCounterexample(w: World)
    requires Legal(w) && w.tri(Config("A", Tristate)) == 1
    ensures var e := Not(Symbol(Config("A", Tristate)));
            Eval(e, w) == 1 && Eval(TransCompareNo(e, true), w) == 0
  {
    CompareConstant(w, Config("A", Tristate), No);
  }

  /** A text is taken for y: `STR` is n as an expression, but `STR!=n` is y. */
  lemma TransCompareTextCounterexample(w: World)
    requires Legal(w) && w.tri(Config("STR", Str)) == 0 && w.text(Config("STR", Str)) == "foo"
             && w.number("foo", Str).Text?
    ensures var e := Symbol(Config("STR", Str));
            Eval(e, w) == 0 && Eval(TransCompareNo(e, true), w) == 2
  {
    var s := Config("STR", Str);
    assert StringValue(w, s) == "foo" && StringValue(w, No) == "n";
    assert Compare(w, s, No) == StrCmp("foo", "n");
  }
}
