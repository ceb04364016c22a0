/**
 The value of symbols as equations: what `sym_calc_value` and `sym_calc_visibility` compute for
 ordinary bool and tristate symbols, given the values of the symbols they depend on.
 */
module KconfigSymbolEval {
  import opened KconfigExpr
  import opened KconfigSymbolDeps
  import opened KconfigExprTransform

  /** The table and what evaluation does not change: texts, the settled value of MODULES, and the
      number reader. */
  datatype Setting = Setting(
    table: Table,
    text: Sym -> string,
    modules: Tri,
    number: (string, SymType) -> Parsed)

  type Valuation = Sym -> Tri

  function WorldOf(S: Setting, v: Valuation): World { World(v, S.text, S.modules, S.number) }

  /** `sym_get_type` */
  function EffectiveType(S: Setting, s: Sym): SymType {
    if s.Type() == Tristate && S.modules == 0 then Boolean else s.Type()
  }

  function PromoteFor(S: Setting, s: Sym, t: Tri): Tri {
    if EffectiveType(S, s) == Boolean then Promote(t) else t
  }

  function AnyPrompt(ps: seq<Prop>, w: World): Tri {
    if ps == [] then 0
    else
      var rest := AnyPrompt(ps[..|ps| - 1], w);
      var p := ps[|ps| - 1];
      if p.hasText then Max(rest, EvalOpt(p.visible, w)) else rest
  }

  function VisibleTri(S: Setting, s: Sym, w: World): Tri
    requires s in S.table
  {
    var t := AnyPrompt(S.table[s].props, w);
    if s.Type() != Tristate || S.modules == 0 then Promote(t) else t
  }

  function DirDepTri(S: Setting, s: Sym, w: World): Tri
    requires s in S.table
  {
    PromoteFor(S, s, EvalOpt(S.table[s].dirDep, w))
  }

  function EvalOr(e: Option<Expr>, w: World): Tri { if e.None? then 0 else Eval(e.value, w) }

  function RevDepTri(S: Setting, s: Sym, w: World): Tri
    requires s in S.table
  {
    PromoteFor(S, s, EvalOr(S.table[s].revDep, w))
  }

  function ImpliedTri(S: Setting, s: Sym, w: World): Tri
    requires s in S.table
  {
    PromoteFor(S, s, EvalOr(S.table[s].implied, w))
  }

  /** The value of the first default whose condition is not n, and n if there is none. */
  function DefaultTri(ps: seq<Prop>, w: World): Tri {
    if ps == [] then 0
    else if ps[0].kind == Default && EvalOpt(ps[0].visible, w) != 0 then
      Min(EvalOpt(ps[0].expr, w), EvalOpt(ps[0].visible, w))
    else DefaultTri(ps[1..], w)
  }

  /** How the parts make up the value. */
  function Combine(S: Setting, s: Sym, user: Option<Tri>, vis: Tri, dir: Tri, rev: Tri, imp: Tri, def: Tri): Tri {
    var base :=
      if vis != 0 && user.Some? then Min(user.value, vis)
      else if imp != 0 then Min(Max(def, imp), dir)
      else def;
    PromoteFor(S, s, Max(base, rev))
  }

  function Constant(s: Sym): Tri { if s == Yes then 2 else if s == Mod then 1 else 0 }

  predicate Ordinary(S: Setting, s: Sym) { s in S.table && s.IsLogical() }

  /** The value of `s` when the symbols it depends on have their values in `w`. */
  function Compute(S: Setting, s: Sym, w: World): Tri {
    if !Ordinary(S, s) then Constant(s)
    else
      Combine(S, s, S.table[s].user, VisibleTri(S, s, w), DirDepTri(S, s, w), RevDepTri(S, s, w),
              ImpliedTri(S, s, w), DefaultTri(S.table[s].props, w))
  }

  /** All symbols have the value their definition prescribes. */
  ghost predicate Solution(S: Setting, v: Valuation) {
    forall s {:trigger Compute(S, s, WorldOf(S, v))} :: v(s) == Compute(S, s, WorldOf(S, v))
  }

  // ----- what a value depends on -----

  /** Only prompts, menus and comments carry text. */
  ghost predicate TextOnPrompts(g: Table) {
    forall s, i {:trigger g[s].props[i]} :: s in g && 0 <= i < |g[s].props| && g[s].props[i].hasText ==>
      g[s].props[i].kind in {Prompt, Comment, MenuProp}
  }

  lemma EvalOptCongruence(S: Setting, e: Option<Expr>, v: Valuation, u: Valuation)
    requires forall x :: x in SymsOpt(e) ==> v(x) == u(x)
    ensures EvalOpt(e, WorldOf(S, v)) == EvalOpt(e, WorldOf(S, u))
    ensures EvalOr(e, WorldOf(S, v)) == EvalOr(e, WorldOf(S, u))
  {
    if e.Some? { EvalCongruence(e.value, WorldOf(S, v), WorldOf(S, u)); }
  }

  /** The valuations agree on every symbol a property mentions. */
  ghost predicate AgreeOn(p: Prop, v: Valuation, u: Valuation) {
    forall e, x :: e in PropExprs(p) && x in SymsOpt(e) ==> v(x) == u(x)
  }

  lemma {:induction false} PropsCongruence(S: Setting, ps: seq<Prop>, v: Valuation, u: Valuation)
    requires forall i :: 0 <= i < |ps| ==> AgreeOn(ps[i], v, u)
    requires forall i :: 0 <= i < |ps| && ps[i].hasText ==> ps[i].kind in {Prompt, Comment, MenuProp}
    ensures AnyPrompt(ps, WorldOf(S, v)) == AnyPrompt(ps, WorldOf(S, u))
    decreases |ps|
  {
    if ps != [] {
      var last := |ps| - 1;
      PropsCongruence(S, ps[..last], v, u);
      if ps[last].hasText {
        assert ps[last].visible in PropExprs(ps[last]) && AgreeOn(ps[last], v, u);
        EvalOptCongruence(S, ps[last].visible, v, u);
      }
    }
  }

  lemma {:induction false} DefaultCongruence(S: Setting, ps: seq<Prop>, v: Valuation, u: Valuation)
    requires forall i :: 0 <= i < |ps| ==> AgreeOn(ps[i], v, u)
    ensures DefaultTri(ps, WorldOf(S, v)) == DefaultTri(ps, WorldOf(S, u))
    decreases |ps|
  {
    if ps != [] {
      if ps[0].kind == Default {
        assert ps[0].visible == PropExprs(ps[0])[0] && ps[0].expr == PropExprs(ps[0])[1];
        assert AgreeOn(ps[0], v, u);
        EvalOptCongruence(S, ps[0].visible, v, u);
        EvalOptCongruence(S, ps[0].expr, v, u);
      }
      DefaultCongruence(S, ps[1..], v, u);
    }
  }

  lemma {:induction false} PropExprsInProps(ps: seq<Prop>, i: nat, e: Option<Expr>)
    requires i < |ps| && e in PropExprs(ps[i])
    ensures e in PropsExprs(ps)
    decreases |ps|
  {
    if i < |ps| - 1 { PropExprsInProps(ps[..|ps| - 1], i, e); }
  }

  lemma ExpressionInDeps(g: Table, s: Sym, e: Option<Expr>)
    requires s in g && e in Expressions(g[s])
    ensures SymsOpt(e) <= Deps(g, s)
  {
  }

  lemma PropAgrees(g: Table, s: Sym, i: nat, v: Valuation, u: Valuation)
    requires s in g && i < |g[s].props|
    requires forall t :: t in Deps(g, s) ==> v(t) == u(t)
    ensures AgreeOn(g[s].props[i], v, u)
  {
    forall e, x | e in PropExprs(g[s].props[i]) && x in SymsOpt(e)
      ensures v(x) == u(x)
    {
      PropExprsInProps(g[s].props, i, e);
      assert e in Expressions(g[s]);
      ExpressionInDeps(g, s, e);
    }
  }

  /** A value is a function of the values of the symbol's dependencies. */
  lemma ComputeCongruence(S: Setting, s: Sym, v: Valuation, u: Valuation)
    requires TextOnPrompts(S.table)
    requires forall t :: t in Deps(S.table, s) ==> v(t) == u(t)
    ensures s in S.table ==>
      && VisibleTri(S, s, WorldOf(S, v)) == VisibleTri(S, s, WorldOf(S, u))
      && RevDepTri(S, s, WorldOf(S, v)) == RevDepTri(S, s, WorldOf(S, u))
    ensures Compute(S, s, WorldOf(S, v)) == Compute(S, s, WorldOf(S, u))
  {
    if s in S.table {
      var d := S.table[s];
      var es := Expressions(d);
      assert es[0] == d.dirDep && es[1] == d.revDep && es[2] == d.implied;
      ExpressionInDeps(S.table, s, d.dirDep);
      ExpressionInDeps(S.table, s, d.revDep);
      ExpressionInDeps(S.table, s, d.implied);
      EvalOptCongruence(S, d.dirDep, v, u);
      EvalOptCongruence(S, d.revDep, v, u);
      EvalOptCongruence(S, d.implied, v, u);
      forall i | 0 <= i < |d.props|
        ensures AgreeOn(d.props[i], v, u)
      {
        PropAgrees(S.table, s, i, v, u);
      }
      PropsCongruence(S, d.props, v, u);
      DefaultCongruence(S, d.props, v, u);
    }
  }

  // ----- existence and uniqueness -----

  /** Every dependency has a lower rank. */
  ghost predicate Ranked(g: Table, rank: Sym -> nat) {
    forall s, t {:trigger t in Deps(g, s)} :: t in Deps(g, s) ==> rank(t) < rank(s)
  }

  ghost function RankIn(order: seq<Sym>): Sym -> nat {
    s => if s in order then Index(order, s) + 1 else 0
  }

  /** The order found by the dependency check ranks the table. */
  lemma TopologicalRank(g: Table, order: seq<Sym>)
    requires Topological(g, order) && Elements(order) == g.Keys
    ensures Ranked(g, RankIn(order))
  {
    forall s, t | t in Deps(g, s)
      ensures RankIn(order)(t) < RankIn(order)(s)
    {
      assert s in Elements(order);
      var i := Index(order, s);
      assert Deps(g, order[i]) <= Elements(order[..i]);
      assert t in order[..i];
      var j :| 0 <= j < i && order[..i][j] == t;
      assert order[j] == t;
    }
  }

  /** Evaluation without memory: every symbol is computed from scratch each time it is asked for. */
  ghost function Plain(S: Setting, rank: Sym -> nat, s: Sym): Tri
    decreases rank(s)
  {
    Compute(S, s, WorldOf(S, t => if rank(t) < rank(s) then Plain(S, rank, t) else 0))
  }

  lemma PlainSolves(S: Setting, rank: Sym -> nat)
    requires TextOnPrompts(S.table) && Ranked(S.table, rank)
    ensures Solution(S, s => Plain(S, rank, s))
  {
    var v: Valuation := s => Plain(S, rank, s);
    forall s
      ensures v(s) == Compute(S, s, WorldOf(S, v))
    {
      ComputeCongruence(S, s, v, t => if rank(t) < rank(s) then Plain(S, rank, t) else 0);
    }
  }

  /** On an acyclic table there is exactly one way to give all symbols their value. */
  lemma {:induction false} SolutionUnique(S: Setting, rank: Sym -> nat, v: Valuation, u: Valuation, s: Sym)
    requires TextOnPrompts(S.table) && Ranked(S.table, rank)
    requires Solution(S, v) && Solution(S, u)
    ensures v(s) == u(s)
    decreases rank(s)
  {
    forall t | t in Deps(S.table, s)
      ensures v(t) == u(t)
    {
      SolutionUnique(S, rank, v, u, t);
    }
    ComputeCongruence(S, s, v, u);
  }

  /** Values are legal: the simplifier's guarantees hold for them. */
  lemma SolutionLegal(S: Setting, v: Valuation)
    requires Solution(S, v)
    requires S.number("y", Unknown).Text? && S.number("m", Unknown).Text? && S.number("n", Unknown).Text?
    ensures Legal(WorldOf(S, v))
  {
    forall s: Sym
      ensures v(s) == Compute(S, s, WorldOf(S, v))
      ensures EffectiveType(S, s) == Boolean ==> v(s) != 1
      ensures s.IsConst() ==> v(s) == Constant(s)
    {
      assert v(s) == Compute(S, s, WorldOf(S, v));
    }
  }

  // ----- selects -----

  /** `menu_finalize` adds `A && c` to the reverse dependencies of a symbol that A selects under c. */
  function AddSelect(rev: Option<Expr>, selector: Sym, cond: Option<Expr>): Option<Expr> {
    AllocTwo(Or, rev, AllocTwo(And, Some(Symbol(selector)), cond))
  }

  function RevDepOf(selects: seq<(Sym, Option<Expr>)>): Option<Expr> {
    if selects == [] then None
    else
      var last := selects[|selects| - 1];
      AddSelect(RevDepOf(selects[..|selects| - 1]), last.0, last.1)
  }

  lemma {:induction false} RevDepCovers(selects: seq<(Sym, Option<Expr>)>, i: nat, w: World)
    requires i < |selects|
    ensures EvalOr(RevDepOf(selects), w) >= Min(w.tri(selects[i].0), EvalOpt(selects[i].1, w))
    decreases |selects|
  {
    var (selector, cond) := selects[|selects| - 1];
    var term := AllocTwo(And, Some(Symbol(selector)), cond).value;
    assert Eval(Symbol(selector), w) == w.tri(selector);
    assert Eval(term, w) == Min(w.tri(selector), EvalOpt(cond, w));
    if i < |selects| - 1 { RevDepCovers(selects[..|selects| - 1], i, w); }
  }

  /** Every select is honoured, whatever the user, the defaults or the dependencies say. */
  lemma SelectHonoured(S: Setting, v: Valuation, s: Sym, selects: seq<(Sym, Option<Expr>)>, i: nat)
    requires Solution(S, v) && Ordinary(S, s) && S.table[s].revDep == RevDepOf(selects) && i < |selects|
    ensures v(s) >= Min(v(selects[i].0), EvalOpt(selects[i].1, WorldOf(S, v)))
    ensures EffectiveType(S, s) == Boolean && Min(v(selects[i].0), EvalOpt(selects[i].1, WorldOf(S, v))) != 0
      ==> v(s) == 2
  {
    RevDepCovers(selects, i, WorldOf(S, v));
    assert v(s) == Compute(S, s, WorldOf(S, v));
  }

  /** The user value decides: there is one, and the symbol is visible. */
  predicate UserDecides(S: Setting, s: Sym, w: World)
    requires s in S.table
  {
    S.table[s].user.Some? && VisibleTri(S, s, w) != 0
  }

  /** Every imply is honoured as far as the direct dependencies allow, unless the user decides. */
  lemma ImplyHonoured(S: Setting, v: Valuation, s: Sym, implies: seq<(Sym, Option<Expr>)>, i: nat)
    requires Solution(S, v) && Ordinary(S, s) && S.table[s].implied == RevDepOf(implies) && i < |implies|
    requires !UserDecides(S, s, WorldOf(S, v))
    ensures var w := WorldOf(S, v);
            v(s) >= Min(Min(v(implies[i].0), EvalOpt(implies[i].1, w)), DirDepTri(S, s, w))
  {
    RevDepCovers(implies, i, WorldOf(S, v));
    assert v(s) == Compute(S, s, WorldOf(S, v));
  }

  /** If the user decides, implies have no influence: only the user value, visibility and selects count. */
  lemma UserOverImply(S: Setting, v: Valuation, s: Sym)
    requires Solution(S, v) && Ordinary(S, s) && UserDecides(S, s, WorldOf(S, v))
    ensures var w := WorldOf(S, v);
            v(s) == PromoteFor(S, s, Max(Min(S.table[s].user.value, VisibleTri(S, s, w)), RevDepTri(S, s, w)))
  {
    assert v(s) == Compute(S, s, WorldOf(S, v));
  }

  // ----- setting a value -----

  /** `sym_tristate_within_range` for a symbol that is not a choice value. */
  predicate WithinRange(S: Setting, s: Sym, vis: Tri, rev: Tri, val: Tri) {
    && vis != 0
    && s.IsLogical()
    && !(EffectiveType(S, s) == Boolean && val == 1)
    && vis > rev
    && rev <= val <= vis
  }

  function WithUser(S: Setting, s: Sym, val: Tri): Setting
    requires s in S.table
  {
    S.(table := S.table[s := S.table[s].(user := Some(val))])
  }

  lemma UserKeepsDeps(S: Setting, s: Sym, val: Tri)
    requires s in S.table
    ensures forall t :: Deps(WithUser(S, s, val).table, t) == Deps(S.table, t)
    ensures TextOnPrompts(S.table) ==> TextOnPrompts(WithUser(S, s, val).table)
  {
    var g := WithUser(S, s, val).table;
    forall t
      ensures Deps(g, t) == Deps(S.table, t)
    {
      if t in g { assert Expressions(g[t]) == Expressions(S.table[t]); }
    }
  }

  /** A user value does not reach the symbols its own symbol depends on. */
  lemma {:induction false} UserIsLocal(S: Setting, rank: Sym -> nat, s: Sym, val: Tri, v: Valuation, u: Valuation,
                                       t: Sym)
    requires TextOnPrompts(S.table) && Ranked(S.table, rank) && s in S.table
    requires Solution(S, v) && Solution(WithUser(S, s, val), u)
    requires rank(t) < rank(s)
    ensures v(t) == u(t)
    decreases rank(t)
  {
    var S' := WithUser(S, s, val);
    UserKeepsDeps(S, s, val);
    forall x | x in Deps(S.table, t)
      ensures v(x) == u(x)
    {
      UserIsLocal(S, rank, s, val, v, u, x);
    }
    ComputeCongruence(S, t, v, u);
    assert u(t) == Compute(S', t, WorldOf(S', u));
    assert v(t) == Compute(S, t, WorldOf(S, v));
  }

  /** Setting a user value to what the symbol has anyway changes nothing, provided it sticks. */
  lemma {:induction false} UnchangedValue(S: Setting, rank: Sym -> nat, s: Sym, val: Tri, v: Valuation, u: Valuation,
                                          t: Sym)
    requires TextOnPrompts(S.table) && Ranked(S.table, rank) && s in S.table
    requires Solution(S, v) && Solution(WithUser(S, s, val), u) && v(s) == u(s)
    ensures v(t) == u(t)
    ensures t in S.table ==>
      && VisibleTri(WithUser(S, s, val), t, WorldOf(WithUser(S, s, val), u)) == VisibleTri(S, t, WorldOf(S, v))
      && RevDepTri(WithUser(S, s, val), t, WorldOf(WithUser(S, s, val), u)) == RevDepTri(S, t, WorldOf(S, v))
    decreases rank(t)
  {
    var S' := WithUser(S, s, val);
    UserKeepsDeps(S, s, val);
    forall x | x in Deps(S.table, t)
      ensures v(x) == u(x)
    {
      UnchangedValue(S, rank, s, val, v, u, x);
    }
    ComputeCongruence(S, t, v, u);
    assert u(t) == Compute(S', t, WorldOf(S', u));
    assert v(t) == Compute(S, t, WorldOf(S, v));
  }

  /** The values that survive as the user value of a symbol with visibility `vis` and reverse
      dependencies `rev`. */
  predicate Sticks(S: Setting, s: Sym, vis: Tri, rev: Tri, val: Tri) {
    rev <= val <= Max(vis, rev) && !(EffectiveType(S, s) == Boolean && val == 1)
  }

  /** A visible symbol's new user value is what the next evaluation computes if and only if it sticks;
      an invisible symbol's user value is ignored. */
  lemma SetThenCompute(S: Setting, rank: Sym -> nat, s: Sym, val: Tri, v: Valuation, u: Valuation)
    requires TextOnPrompts(S.table) && Ranked(S.table, rank) && Ordinary(S, s)
    requires Solution(S, v) && Solution(WithUser(S, s, val), u)
    ensures var vis, rev := VisibleTri(S, s, WorldOf(S, v)), RevDepTri(S, s, WorldOf(S, v));
            if vis == 0 then u(s) == v(s) else (u(s) == val <==> Sticks(S, s, vis, rev, val))
  {
    var S' := WithUser(S, s, val);
    UserKeepsDeps(S, s, val);
    forall t | t in Deps(S.table, s)
      ensures v(t) == u(t)
    {
      UserIsLocal(S, rank, s, val, v, u, t);
    }
    ComputeCongruence(S, s, v, u);
    assert u(s) == Compute(S', s, WorldOf(S', u));
    assert v(s) == Compute(S, s, WorldOf(S, v));
  }

  /** A value accepted by the range test is exactly the value computed next. */
  lemma AcceptedValueSticks(S: Setting, rank: Sym -> nat, s: Sym, val: Tri, v: Valuation, u: Valuation)
    requires TextOnPrompts(S.table) && Ranked(S.table, rank) && Ordinary(S, s)
    requires Solution(S, v) && Solution(WithUser(S, s, val), u)
    requires WithinRange(S, s, VisibleTri(S, s, WorldOf(S, v)), RevDepTri(S, s, WorldOf(S, v)), val)
    ensures u(s) == val
  {
    SetThenCompute(S, rank, s, val, v, u);
  }

  /** A has a prompt that is m, and a default that is y. */
  function StaleTable(): Table {
    var x, a := Config("X", Tristate), Config("A", Tristate);
    var unset := SymbolDef(None, None, None, [], None);
    map[x := unset.(props := [Prop(Default, false, None, Some(Symbol(Mod)))]),
        a := unset.(props := [Prop(Prompt, true, Some(Symbol(x)), None),
                              Prop(Default, false, None, Some(Symbol(Yes)))])]
  }

  /** Setting a symbol to the value that it has can change it: A is y by default, y is accepted as its
      user value without a test, and next it is m, because that is all that its prompt allows. */
  lemma CurrentValueNeedNotStick(S: Setting, v: Valuation, u: Valuation)
    requires S.table == StaleTable() && S.modules == 2
    requires Solution(S, v) && Solution(WithUser(S, Config("A", Tristate), 2), u)
    ensures v(Config("A", Tristate)) == 2 && u(Config("A", Tristate)) == 1
  {
    var x, a := Config("X", Tristate), Config("A", Tristate);
    StaleValues(S, v);
    StaleValues(WithUser(S, a, 2), u);
  }

  lemma StaleValues(S: Setting, v: Valuation)
    requires S.modules == 2 && Solution(S, v)
    requires exists user: Option<Tri> ::
               S.table == StaleTable()[Config("A", Tristate) := StaleTable()[Config("A", Tristate)].(user := user)]
    ensures var a := Config("A", Tristate);
            a in S.table && v(a) == if S.table[a].user.Some? then Min(S.table[a].user.value, 1) else 2
  {
    var x, a, w := Config("X", Tristate), Config("A", Tristate), WorldOf(S, v);
    assert v(Yes) == Compute(S, Yes, w) == 2 && v(Mod) == Compute(S, Mod, w) == 1;
    var px, pa := S.table[x].props, S.table[a].props;
    assert v(x) == Compute(S, x, w);
    assert AnyPrompt(px[..0], w) == AnyPrompt(px, w) == 0 && DefaultTri(px, w) == 1;
    assert v(x) == 1;
    assert v(a) == Compute(S, a, w);
    assert AnyPrompt(pa[..1][..0], w) == 0;
    assert AnyPrompt(pa[..1], w) == AnyPrompt(pa, w) == 1;
    assert DefaultTri(pa, w) == DefaultTri(pa[1..], w) == 2;
  }
}
