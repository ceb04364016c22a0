/**
 Which entries go below a symbol: the test of `menu_finalize` in terms of what is written.
 */
module KconfigMenuBelongs {
  import opened KconfigExpr
  import opened KconfigExprEq
  import opened KconfigExprCancel
  import opened KconfigExprOrder
  import opened KconfigMenuDeps
  import opened KconfigMenuTree
  import opened KconfigMenuInherit
  import opened KconfigSubmenus
  import opened KconfigMenuMeaning

  /** The symbol occurs in the expression. */
  lemma {:induction false} ContainsExact(e: Expr, s: Sym)
    ensures ContainsSymbol(e, s) <==> s in Syms(e)
  {
    match e
    case Not(a) => ContainsExact(a, s);
    case Bin(_, l, r) => ContainsExact(l, s); ContainsExact(r, s);
    case _ =>
  }

  /** An operand that is n whenever `s` is: the symbol itself, or a comparison that says that it is not n. */
  predicate Requires(x: Expr, s: Sym) { x in {Symbol(s), Cmp(Eq, s, Yes), Cmp(Eq, s, Mod), Cmp(Ne, s, No)} }

  /** The expression depends on a symbol exactly if it has such an operand at the top. */
  lemma {:induction false} DependsExact(e: Expr, s: Sym)
    ensures DependsSymbol(e, s) <==> exists x :: x in Operands(And, e) && Requires(x, s)
  {
    if IsOp(And, e) {
      DependsExact(e.left, s);
      DependsExact(e.right, s);
      assert forall x :: x in Operands(And, e) <==> x in Operands(And, e.left) || x in Operands(And, e.right);
    } else {
      assert e in Operands(And, e);
    }
  }

  /** So an entry that has such a condition goes below the symbol, whatever else it has. */
  lemma DependentBelongs(s: Sym, base: Option<Expr>, dep: Expr, x: Expr)
    requires x in Operands(And, dep) && Requires(x, s)
    ensures InSubmenu(s, base, Some(dep))
  {
    DependsExact(dep, s);
    ContainsExact(dep, s);
    OperandSyms(dep, x);
  }

  lemma {:induction false} OperandSyms(e: Expr, x: Expr)
    requires x in Operands(And, e)
    ensures Syms(x) <= Syms(e)
  {
    if IsOp(And, e) {
      if x in Operands(And, e.left) { OperandSyms(e.left, x); } else { OperandSyms(e.right, x); }
    }
  }

  /** Below a symbol whose prompt has no condition goes every entry whose condition mentions it, in any way. */
  lemma UnconditionalPrompt(s: Sym, dep: Expr)
    ensures InSubmenu(s, None, Some(dep)) <==> s in Syms(dep)
  {
    ContainsExact(dep, s);
    var v := Visible(Some(dep));
    assert Visible(None) == Symbol(Yes);
    YesIsLeft(v);
  }

  lemma YesIsLeft(e: Expr)
    ensures EliminateEq(e, Symbol(Yes)).1 == Symbol(Yes)
  {
    if e.Bin? { YesStays(e.op, e); }
  }

  /** A y on the other side stays. */
  lemma {:induction false} YesStays(op: Op, e: Expr)
    ensures Cancel(op, e, Symbol(Yes)).1 == Symbol(Yes)
  {
    if IsOp(op, e) {
      YesStays(op, e.left);
      YesStays(op, e.right);
    } else {
      SymbolEq(Yes, e);
    }
  }

  /** Otherwise an entry whose visibility is a conjunction goes below a symbol exactly if it mentions the symbol
      and either depends on it or requires everything that the prompt of the symbol requires. */
  lemma BelongsExact(s: Sym, base: Option<Expr>, dep: Expr)
    requires var v, b := Visible(Some(dep)), Visible(base); IsOp(And, v) && Plain(v) && PlainOperand(b)
    ensures InSubmenu(s, base, Some(dep)) <==>
            && s in Syms(dep)
            && ((exists x :: x in Operands(And, dep) && Requires(x, s))
                || Forms(And, Visible(base)) <= Forms(And, Visible(Some(dep))))
  {
    ContainsExact(dep, s);
    DependsExact(dep, s);
    SupersetExact(Visible(Some(dep)), Visible(base));
  }

  // ----- from what is written to the tree -----

  /** An entry with `depends on S` right behind the symbol S. */
  ghost predicate Follows(a: Menu, b: Menu, s: Sym, d: Moment) {
    && a != b && a.entry.sym == Some(s) && s.IsLogical() && b.entry.hasPrompt && !b.entry.isChoice
    && Look(d, b) == Info(Some(Symbol(s)), None, [])
  }

  lemma FollowerShown(a: Menu, b: Menu, s: Sym, modules: Sym, d: Moment)
    requires Follows(a, b, s, d)
    ensures var now := After(Node(a, Nil, Node(b, Nil, Nil)), None, KconfigRules(modules), d);
            ShownIf(now, b) == Some(Symbol(s))
  {
    var t, rules := Node(a, Nil, Node(b, Nil, Nil)), KconfigRules(modules);
    FinalInfo(t, None, rules, d, b);
    assert Propagate(None, Some(Symbol(s)), modules) == Some(Symbol(s));
    var kind := if b.entry.sym.Some? then b.entry.sym.value.Type() else Tristate;
    assert PropCondition(Some(Symbol(s)), None, modules, kind) == Some(Symbol(s));
  }

  /** In the end it is the only entry in the submenu of S. */
  lemma FollowerGoesBelow(a: Menu, b: Menu, s: Sym, modules: Sym, d: Moment, g: Tree)
    requires Follows(a, b, s, d)
    requires var k := Node(a, Nil, Node(b, Nil, Nil));
             && Dissolved(g, Among(Blocks(k))) == k
             && SubmenusRight(g, null, Blocks(k), KconfigRules(modules), After(k, None, KconfigRules(modules), d))
    ensures g == Node(a, One(b, Nil), Nil)
  {
    var k, rules := Node(a, Nil, Node(b, Nil, Nil)), KconfigRules(modules);
    var now, blocks, u := After(k, None, rules, d), Blocks(k), Node(a, One(b, Nil), Nil);
    FollowerShown(a, b, s, modules, d);
    DependentBelongs(s, PromptCondition(now, a), Symbol(s), Symbol(s));
    assert BelongsBelow(a, b, rules, now);
    SubmenusUnique(g, u, null, blocks, rules, now);
  }
}
