/**
 Dependency propagation in `menu_finalize`: parent dependencies reach menu entries and properties,
 and entries that depend on the symbol before them are recognised.
 */
module KconfigMenuDeps {
  import opened KconfigExpr
  import opened KconfigExprEq
  import opened KconfigExprDups
  import opened KconfigExprTransform

  // ----- rewrite_m -----

  function RewriteM(e: Expr, modules: Sym): Expr {
    match e
    case Not(a) => Not(RewriteM(a, modules))
    case Bin(op, l, r) => Bin(op, RewriteM(l, modules), RewriteM(r, modules))
    case Symbol(s) => if s == Mod then Bin(And, e, Symbol(modules)) else e
    case Cmp(_, _, _) => e
  }

  /** The value of an expression in which the constant m stands for `m`. */
  function EvalWithM(e: Expr, w: World, m: Tri): Tri {
    match e
    case Not(a) => 2 - EvalWithM(a, w, m)
    case Bin(op, l, r) => Apply(op, EvalWithM(l, w, m), EvalWithM(r, w, m))
    case Symbol(s) => if s == Mod then m else w.tri(s)
    case Cmp(_, _, _) => Eval(e, w)
  }

  /** With modules, `m` keeps its meaning; without, it means n. */
  lemma {:induction false} RewriteMSound(e: Expr, modules: Sym, w: World)
    requires Legal(w)
    ensures Eval(RewriteM(e, modules), w) == EvalWithM(e, w, Min(1, w.tri(modules)))
    ensures w.tri(modules) != 0 ==> Eval(RewriteM(e, modules), w) == Eval(e, w)
  {
    match e
    case Not(a) => RewriteMSound(a, modules, w);
    case Bin(_, l, r) => RewriteMSound(l, modules, w); RewriteMSound(r, modules, w);
    case _ =>
  }

  // ----- propagation -----

  /** `expr_eliminate_dups(expr_alloc_and(copy(parent), expr_transform(rewrite_m(dep))))` */
  function Propagate(parent: Option<Expr>, dep: Option<Expr>, modules: Sym): Option<Expr> {
    var own := if dep.None? then None else Some(Transform(RewriteM(dep.value, modules)));
    var both := AllocTwo(And, parent, own);
    if both.None? then None else Some(Dedup(both.value))
  }

  function NormalOpt(e: Option<Expr>): bool { e.Some? ==> NormalForm(e.value) }

  lemma {:induction false} RewriteMSyms(e: Expr, modules: Sym)
    ensures Syms(RewriteM(e, modules)) <= Syms(e) + {modules}
  {
    match e
    case Not(a) => RewriteMSyms(a, modules);
    case Bin(_, l, r) => RewriteMSyms(l, modules); RewriteMSyms(r, modules);
    case _ =>
  }

  /** The propagated dependency is again in normal form, has nothing left to join, and mentions nothing
      new but MODULES and constants. */
  lemma PropagateForm(parent: Option<Expr>, dep: Option<Expr>, modules: Sym)
    ensures NormalOpt(parent) ==> NormalOpt(Propagate(parent, dep, modules))
    ensures Propagate(parent, dep, modules).Some? ==> Irreducible(Propagate(parent, dep, modules).value)
    ensures SymsOpt(Propagate(parent, dep, modules)) <= SymsOpt(parent) + SymsOpt(dep) + {modules} + Letters
  {
    var own := if dep.None? then None else Some(Transform(RewriteM(dep.value, modules)));
    if dep.Some? {
      TransformNormal(RewriteM(dep.value, modules));
      TransformSyms(RewriteM(dep.value, modules));
      RewriteMSyms(dep.value, modules);
    }
    var both := AllocTwo(And, parent, own);
    if both.Some? {
      DedupComplete(both.value);
      DedupSyms(both.value);
      if NormalOpt(parent) { DedupNormal(both.value); }
    }
  }

  /** The value of the dependency that an entry was written with. */
  function Written(dep: Option<Expr>, modules: Sym, w: World): Tri {
    if dep.None? then 2 else EvalWithM(dep.value, w, Min(1, w.tri(modules)))
  }

  /** The propagated dependency is worth the minimum of the parent's and the entry's own. */
  lemma PropagateSound(parent: Option<Expr>, dep: Option<Expr>, modules: Sym, K: set<Sym>, w: World)
    requires Clear(w, K) && SymsOpt(parent) + SymsOpt(dep) + {modules} <= K
    ensures EvalOpt(Propagate(parent, dep, modules), w) == Min(EvalOpt(parent, w), Written(dep, modules, w))
  {
    var own := if dep.None? then None else Some(Transform(RewriteM(dep.value, modules)));
    if dep.Some? {
      RewriteMSound(dep.value, modules, w);
      TransformSound(RewriteM(dep.value, modules), w);
      TransformSyms(RewriteM(dep.value, modules));
      RewriteMSyms(dep.value, modules);
    }
    var both := AllocTwo(And, parent, own);
    if both.Some? { DedupSound(both.value, K, w); }
  }

  /** With no constants but y, m and n this holds under every legal assignment. */
  lemma PropagateKeepsValue(parent: Option<Expr>, dep: Option<Expr>, modules: Sym, w: World)
    requires Legal(w) && LettersOnly(SymsOpt(parent) + SymsOpt(dep) + {modules})
    ensures EvalOpt(Propagate(parent, dep, modules), w) == Min(EvalOpt(parent, w), Written(dep, modules, w))
  {
    var K := SymsOpt(parent) + SymsOpt(dep) + {modules};
    LettersAreClear(w, K);
    PropagateSound(parent, dep, modules, K + Letters, w);
  }

  /** The condition of a property of a symbol of type `kind`. */
  function PropCondition(base: Option<Expr>, visible: Option<Expr>, modules: Sym, kind: SymType): Option<Expr> {
    var dep := Propagate(base, visible, modules);
    if kind != Tristate && dep.Some? then Some(TransBool(dep.value)) else dep
  }

  /** A property is visible under the entry's dependency and its own condition; for a symbol that is
      not tristate this holds after m is promoted to y, and then `FOO!=n` may have become `FOO`. */
  lemma PropConditionSound(base: Option<Expr>, visible: Option<Expr>, modules: Sym, kind: SymType, K: set<Sym>,
                           w: World)
    requires Clear(w, K) && SymsOpt(base) + SymsOpt(visible) + {modules} <= K && NormalOpt(base)
    ensures var v := EvalOpt(PropCondition(base, visible, modules, kind), w);
            var expected := Min(EvalOpt(base, w), Written(visible, modules, w));
            if kind == Tristate then v == expected else Promote(v) == Promote(expected)
  {
    PropagateSound(base, visible, modules, K, w);
    PropagateForm(base, visible, modules);
    var dep := Propagate(base, visible, modules);
    if kind != Tristate && dep.Some? { TransBoolPromoted(dep.value, w); }
  }

  /** While no tristate symbol is m, the condition is worth just that for every type. */
  lemma PropConditionPlain(base: Option<Expr>, visible: Option<Expr>, modules: Sym, kind: SymType, K: set<Sym>,
                           w: World)
    requires Clear(w, K) && SymsOpt(base) + SymsOpt(visible) + {modules} <= K && NoSymbolIsM(w)
    ensures EvalOpt(PropCondition(base, visible, modules, kind), w) ==
            Min(EvalOpt(base, w), Written(visible, modules, w))
  {
    PropagateSound(base, visible, modules, K, w);
    var dep := Propagate(base, visible, modules);
    if dep.Some? { TransBoolWithoutM(dep.value, w); }
  }

  ghost predicate ConditionKept(base: Option<Expr>, visible: Option<Expr>, modules: Sym, kind: SymType, w: World) {
    NormalOpt(base) && LettersOnly(SymsOpt(base) + SymsOpt(visible) + {modules}) ==>
      EvalOpt(PropCondition(base, visible, modules, kind), w) == Min(EvalOpt(base, w), Written(visible, modules, w))
  }

  /** For a symbol that is not tristate this is so for all conditions exactly if no tristate symbol is m. */
  lemma PropConditionExact(modules: Sym, kind: SymType, w: World)
    requires Legal(w) && modules.Config? && kind != Tristate
    ensures NoSymbolIsM(w) <==> forall base, visible :: ConditionKept(base, visible, modules, kind, w)
  {
    if NoSymbolIsM(w) {
      forall base, visible
        ensures ConditionKept(base, visible, modules, kind, w)
      {
        var K := SymsOpt(base) + SymsOpt(visible) + {modules};
        if LettersOnly(K) {
          LettersAreClear(w, K);
          PropConditionPlain(base, visible, modules, kind, K + Letters, w);
        }
      }
    } else {
      var s: Sym :| s.Type() == Tristate && w.tri(s) == 1;
      NotNCondition(s, modules, kind);
      CompareConstant(w, s, No);
      assert Eval(Symbol(s), w) == 1 && Eval(Cmp(Ne, s, No), w) == 2;
      assert !ConditionKept(None, Some(Cmp(Ne, s, No)), modules, kind, w);
    }
  }

  /** The condition `s!=n` of a symbol that is not tristate becomes `s`. */
  lemma NotNCondition(s: Sym, modules: Sym, kind: SymType)
    requires s.Type() == Tristate && kind != Tristate
    ensures PropCondition(None, Some(Cmp(Ne, s, No)), modules, kind) == Some(Symbol(s))
  {
    var e := Cmp(Ne, s, No);
    assert RewriteM(e, modules) == e && Transform(e) == e && Dedup(e) == e && TransBool(e) == Symbol(s);
  }

  // ----- automatic submenus -----

  predicate ContainsSymbol(e: Expr, s: Sym) {
    match e
    case Bin(_, l, r) => ContainsSymbol(l, s) || ContainsSymbol(r, s)
    case Not(a) => ContainsSymbol(a, s)
    case Symbol(t) => t == s
    case Cmp(_, a, b) => a == s || b == s
  }

  predicate DependsSymbol(e: Expr, s: Sym) {
    match e
    case Bin(op, l, r) => op.And? && (DependsSymbol(l, s) || DependsSymbol(r, s))
    case Symbol(t) => t == s
    case Cmp(rel, a, c) => a == s && ((rel == Eq && c in {Yes, Mod}) || (rel == Ne && c == No))
    case Not(_) => false
  }

  /** The comparison `e != n`, simplified. */
  function Visible(e: Option<Expr>): Expr { Dedup(Transform(TransCompareNoOpt(e))) }

  /** Whether an entry with dependency `dep` goes below the symbol `s`, whose prompt depends on `base`. */
  predicate InSubmenu(s: Sym, base: Option<Expr>, dep: Option<Expr>) {
    && dep.Some?
    && ContainsSymbol(dep.value, s)
    && (DependsSymbol(dep.value, s) || EliminateEq(Visible(dep), Visible(base)).1 == Symbol(Yes))
  }

  lemma {:induction false} DependsSound(e: Expr, s: Sym, w: World)
    requires Legal(w) && s.IsLogical() && DependsSymbol(e, s)
    ensures Eval(e, w) != 0 ==> w.tri(s) != 0
  {
    match e
    case Bin(_, l, r) =>
      if DependsSymbol(l, s) { DependsSound(l, s, w); } else { DependsSound(r, s, w); }
    case Cmp(_, _, c) => CompareConstant(w, s, c);
    case Symbol(_) =>
  }

  /** The same when m counts as y in every symbol. */
  lemma {:induction false} DependsPromoted(e: Expr, s: Sym, w: World)
    requires Legal(w) && s.IsLogical() && DependsSymbol(e, s)
    ensures EvalPromoted(e, w) != 0 ==> w.tri(s) != 0
  {
    match e
    case Bin(_, l, r) =>
      if DependsSymbol(l, s) { DependsPromoted(l, s, w); } else { DependsPromoted(r, s, w); }
    case Cmp(_, _, c) => CompareConstant(w, s, c);
    case Symbol(_) =>
  }

  predicate LogicalOpt(e: Option<Expr>) { e.Some? ==> LogicalOnly(e.value) }

  function EvalPromotedOpt(e: Option<Expr>, w: World): Tri { if e.None? then 2 else EvalPromoted(e.value, w) }

  /** The simplified comparison with n is worth the expression with m counting as y in every symbol. */
  lemma VisibleValue(e: Option<Expr>, K: set<Sym>, w: World)
    requires Clear(w, K) && SymsOpt(e) <= K
    ensures Eval(Visible(e), w) == EvalPromotedOpt(e, w) && EvalPromotedOpt(e, w) in {0, 2}
    ensures (LogicalOpt(e) || TextReads(w, SymsOpt(e))) && EvalOpt(e, w) != 1 ==> EvalPromotedOpt(e, w) == EvalOpt(e, w)
  {
    var c := TransCompareNoOpt(e);
    if e.Some? {
      TransCompareSyms(e.value, true);
      TransCompareDecides(e.value, w);
      TransCompareValue(e.value, w);
    }
    TransformSound(c, w);
    TransformSyms(c);
    DedupSound(Transform(c), K, w);
  }

  /** An entry goes below a symbol only if whenever the entry is visible, the symbol is set or its
      prompt is visible, with m counting as y in every symbol.  So an entry that is y is never visible
      without them, nor is one that is m unless its condition negates something that is m. */
  lemma SubmenuImplies(s: Sym, base: Option<Expr>, dep: Option<Expr>, K: set<Sym>, w: World)
    requires Clear(w, K) && SymsOpt(base) + SymsOpt(dep) <= K && s.IsLogical() && InSubmenu(s, base, dep)
    ensures EvalPromoted(dep.value, w) != 0 ==> w.tri(s) != 0 || EvalPromotedOpt(base, w) != 0
    ensures (LogicalOnly(dep.value) && LogicalOpt(base)) || TextReads(w, K) ==>
            Eval(dep.value, w) == 2 || (Eval(dep.value, w) == 1 && NegatesNoM(dep.value, w)) ==>
              w.tri(s) != 0 || EvalOpt(base, w) != 0
  {
    VisibleValue(dep, K, w);
    VisibleValue(base, K, w);
    if NegatesNoM(dep.value, w) && (LogicalOnly(dep.value) || TextReads(w, K)) { TransCompareUnnegated(dep.value, w); }
    if DependsSymbol(dep.value, s) {
      DependsPromoted(dep.value, s, w);
    } else {
      SupersetSound(Visible(dep), Visible(base), w);
    }
  }

  /** `!a && (s || q)` */
  function NegatedEntry(s: Sym, a: Sym, q: Sym): Expr {
    Bin(And, Not(Symbol(a)), Bin(Or, Symbol(s), Symbol(q)))
  }

  lemma NegatedEntryVisible(s: Sym, a: Sym, q: Sym)
    requires s.Type() == Tristate && a.Type() == Tristate && q.Type() != Boolean && q != s
    ensures Visible(Some(NegatedEntry(s, a, q))) == Bin(And, Cmp(Eq, a, No), Bin(Or, Cmp(Ne, s, No), Cmp(Ne, q, No)))
  {
    var u, v, x := Cmp(Ne, s, No), Cmp(Ne, q, No), Cmp(Eq, a, No);
    var u', v', x' := Cmp(Eq, s, No), Cmp(Eq, q, No), Cmp(Ne, a, No);
    var y := Bin(Or, u, v);
    var e := TransCompareNo(NegatedEntry(s, a, q), true);
    assert TransCompareNo(Bin(Or, Symbol(s), Symbol(q)), false) == Bin(And, u', v');
    assert TransCompareNo(Not(Symbol(a)), false) == TransCompareNo(Symbol(a), true) == x';
    assert e == Not(Bin(Or, x', Bin(And, u', v')));
    NegationsPushed(u', v', x');
    DedupKept(x, u, v);
  }

  lemma NegationsPushed(u: Expr, v: Expr, x: Expr)
    requires u.Cmp? && u.rel == Eq && TransformCmp(u) == u && v.Cmp? && v.rel == Eq && TransformCmp(v) == v
    requires x.Cmp? && x.rel == Ne && TransformCmp(x) == x
    ensures Transform(Not(Bin(Or, x, Bin(And, u, v)))) == Bin(And, x.(rel := Eq), Bin(Or, u.(rel := Ne), v.(rel := Ne)))
  {
    assert Transform(u) == u && Transform(v) == v && Transform(x) == x;
    var inner := Bin(And, u, v);
    assert Transform(inner) == inner && Transform(Bin(Or, x, inner)) == Bin(Or, x, inner);
    assert Transform(Not(u)) == u.(rel := Ne) && Transform(Not(v)) == v.(rel := Ne)
           && Transform(Not(x)) == x.(rel := Eq);
    assert Transform(Bin(Or, Not(u), Not(v))) == Bin(Or, u.(rel := Ne), v.(rel := Ne));
    assert Transform(Not(inner)) == Bin(Or, u.(rel := Ne), v.(rel := Ne));
    assert Transform(Bin(And, Not(x), Not(inner))) == Bin(And, x.(rel := Eq), Bin(Or, u.(rel := Ne), v.(rel := Ne)));
  }

  lemma DedupKept(x: Expr, u: Expr, v: Expr)
    requires x.Cmp? && u.Cmp? && v.Cmp? && u.lhs != v.lhs
    ensures var e := Bin(And, x, Bin(Or, u, v)); Dedup(e) == e
  {
    var y := Bin(Or, u, v);
    PairKept(Or, u, v, 0);
    PairKept(And, x, y, 0);
  }

  /** An entry `!a && (s || q)` goes below `s` if the prompt of `s` is visible `if a=n`. */
  lemma NegatedEntryBelongs(s: Sym, a: Sym, q: Sym)
    requires s.Type() == Tristate && a.Type() == Tristate && q.Type() != Boolean && q != s && a != s
    ensures InSubmenu(s, Some(Cmp(Eq, a, No)), Some(NegatedEntry(s, a, q)))
  {
    var x, y := Cmp(Eq, a, No), Bin(Or, Cmp(Ne, s, No), Cmp(Ne, q, No));
    NegatedEntryVisible(s, a, q);
    assert TransCompareNo(x, true) == x && Transform(x) == x && Dedup(x) == x;
    assert Visible(Some(x)) == x;
    var e := NegatedEntry(s, a, q);
    assert ContainsSymbol(Bin(Or, Symbol(s), Symbol(q)), s) by { assert ContainsSymbol(Symbol(s), s); }
    assert ContainsSymbol(e, s);
    assert Cancel(And, x, x) == (Symbol(Yes), Symbol(Yes));
    assert Cancel(And, y, Symbol(Yes)) == (y, Symbol(Yes));
    assert Cancel(And, Bin(And, x, y), x) == (Bin(And, Symbol(Yes), y), Symbol(Yes));
    assert EliminateYN(Symbol(Yes)) == Symbol(Yes);
    assert EliminateEq(Bin(And, x, y), x).1 == Symbol(Yes);
  }

  /** S has its prompt `if A=n`, and the next entry is `!A && (S || Q)`.  With A=m, S=n and Q=y the entry is
      in the submenu of S and is m, although S is n and its prompt is n. */
  lemma SubmenuCounterexample(w: World)
    requires Legal(w) && w.tri(Config("A", Tristate)) == 1 && w.tri(Config("S", Tristate)) == 0
             && w.tri(Config("Q", Tristate)) == 2
    ensures var s, a, q := Config("S", Tristate), Config("A", Tristate), Config("Q", Tristate);
            var base, dep := Cmp(Eq, a, No), NegatedEntry(s, a, q);
            InSubmenu(s, Some(base), Some(dep)) && Eval(dep, w) == 1 && w.tri(s) == 0 && Eval(base, w) == 0
  {
    var s, a, q := Config("S", Tristate), Config("A", Tristate), Config("Q", Tristate);
    NegatedEntryBelongs(s, a, q);
    NegatedEntryValue(s, a, q, w);
  }

  lemma NegatedEntryValue(s: Sym, a: Sym, q: Sym, w: World)
    requires Legal(w) && a.Type() == Tristate && w.tri(a) == 1 && w.tri(q) == 2
    ensures Eval(NegatedEntry(s, a, q), w) == 1 && Eval(Cmp(Eq, a, No), w) == 0
  {
    CompareConstant(w, a, No);
    assert Eval(Not(Symbol(a)), w) == 2 - Eval(Symbol(a), w) == 1;
    assert Eval(Bin(Or, Symbol(s), Symbol(q)), w) == Max(Eval(Symbol(s), w), Eval(Symbol(q), w)) == 2;
  }

  /** What an entry in the submenu of `s` should imply while `s` is n. */
  ghost predicate BelowImplies(s: Sym, base: Option<Expr>, dep: Option<Expr>, w: World) {
    && InSubmenu(s, base, dep) && LogicalOpt(base) && LogicalOpt(dep) && WithoutM(dep.value)
    && LettersOnly(SymsOpt(base) + SymsOpt(dep))
    ==> (EvalOpt(dep, w) != 0 ==> EvalOpt(base, w) != 0)
  }

  /** While a symbol is n, the entries that go below it imply its prompt, for all conditions without the
      constant m, exactly if no tristate symbol is m. */
  lemma SubmenuExact(s: Sym, w: World)
    requires Legal(w) && s.Type() == Tristate && w.tri(s) == 0
    ensures NoSymbolIsM(w) <==> forall base, dep :: BelowImplies(s, base, dep, w)
  {
    if NoSymbolIsM(w) {
      forall base, dep
        ensures BelowImplies(s, base, dep, w)
      {
        if InSubmenu(s, base, dep) && LogicalOpt(base) && LogicalOpt(dep) && WithoutM(dep.value)
           && LettersOnly(SymsOpt(base) + SymsOpt(dep)) {
          var K := SymsOpt(base) + SymsOpt(dep);
          LettersAreClear(w, K);
          NeverM(dep.value, w);
          SubmenuImplies(s, base, dep, K + Letters, w);
        }
      }
    } else {
      var a: Sym :| a.Type() == Tristate && w.tri(a) == 1;
      NegatedEntryBelongs(s, a, Yes);
      NegatedEntryValue(s, a, Yes, w);
      NegatedEntryLetters(s, a);
      assert !BelowImplies(s, Some(Cmp(Eq, a, No)), Some(NegatedEntry(s, a, Yes)), w);
    }
  }

  lemma NegatedEntryLetters(s: Sym, a: Sym)
    requires s.Type() == Tristate && a.Type() == Tristate
    ensures LogicalOnly(NegatedEntry(s, a, Yes)) && WithoutM(NegatedEntry(s, a, Yes)) && LogicalOnly(Cmp(Eq, a, No))
    ensures LettersOnly(Syms(Cmp(Eq, a, No)) + Syms(NegatedEntry(s, a, Yes)))
  {
    var x, y, z := Symbol(a), Symbol(s), Symbol(Yes);
    assert LogicalOnly(x) && LogicalOnly(y) && LogicalOnly(z) && WithoutM(x) && WithoutM(y) && WithoutM(z);
    assert LogicalOnly(Not(x)) && LogicalOnly(Bin(Or, y, z)) && WithoutM(Not(x)) && WithoutM(Bin(Or, y, z));
    assert Syms(Not(x)) == Syms(x) == {a} && Syms(Bin(Or, y, z)) == Syms(y) + Syms(z) == {s, Yes};
  }
}
