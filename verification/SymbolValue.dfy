/**
 What the value of a symbol is, in terms of what is written for it: its prompts, its defaults in order, and
 the three dependencies that finalization collects.
 */
module KconfigSymbolValue {
  import opened KconfigExpr
  import opened KconfigExprTransform
  import opened KconfigSymbolDeps
  import opened KconfigSymbolEval

  /** `p` is the greatest condition of a prompt, and n if there is no prompt. */
  ghost predicate GreatestPrompt(ps: seq<Prop>, p: Tri, w: World) {
    && (forall i :: 0 <= i < |ps| && ps[i].hasText ==> EvalOpt(ps[i].visible, w) <= p)
    && (p == 0 || exists i :: 0 <= i < |ps| && ps[i].hasText && EvalOpt(ps[i].visible, w) == p)
  }

  /** Default `i` is the first one whose condition is not n. */
  ghost predicate FirstDefault(ps: seq<Prop>, i: nat, w: World) {
    && i < |ps| && ps[i].kind == Default && EvalOpt(ps[i].visible, w) != 0
    && (forall j :: 0 <= j < i && ps[j].kind == Default ==> EvalOpt(ps[j].visible, w) == 0)
  }

  ghost predicate NoDefault(ps: seq<Prop>, w: World) {
    forall j :: 0 <= j < |ps| && ps[j].kind == Default ==> EvalOpt(ps[j].visible, w) == 0
  }

  /** `def` is the value of the first default whose condition is not n, joined with that condition, and n if
      there is none. */
  ghost predicate DefaultValue(ps: seq<Prop>, def: Tri, w: World) {
    if NoDefault(ps, w) then def == 0
    else exists i: nat :: GivenBy(ps, i, def, w)
  }

  ghost predicate GivenBy(ps: seq<Prop>, i: nat, def: Tri, w: World) {
    FirstDefault(ps, i, w) && def == Min(EvalOpt(ps[i].expr, w), EvalOpt(ps[i].visible, w))
  }

  lemma {:induction false} AnyPromptIsGreatest(ps: seq<Prop>, w: World)
    ensures GreatestPrompt(ps, AnyPrompt(ps, w), w)
    decreases |ps|
  {
    if ps != [] {
      var front := ps[..|ps| - 1];
      AnyPromptIsGreatest(front, w);
      assert forall i :: 0 <= i < |front| ==> front[i] == ps[i];
    }
  }

  lemma GreatestOnce(ps: seq<Prop>, p: Tri, q: Tri, w: World)
    requires GreatestPrompt(ps, p, w) && GreatestPrompt(ps, q, w)
    ensures p == q
  {
  }

  lemma {:induction false} DefaultTriIsFirst(ps: seq<Prop>, w: World)
    ensures DefaultValue(ps, DefaultTri(ps, w), w)
    decreases |ps|
  {
    if ps != [] {
      var rest, def := ps[1..], DefaultTri(ps, w);
      if ps[0].kind == Default && EvalOpt(ps[0].visible, w) != 0 {
        assert GivenBy(ps, 0, def, w);
      } else {
        DefaultTriIsFirst(rest, w);
        if NoDefault(rest, w) {
          assert forall j :: 0 < j < |ps| ==> ps[j] == rest[j - 1];
        } else {
          var i: nat :| GivenBy(rest, i, def, w);
          assert GivenBy(ps, i + 1, def, w);
        }
      }
    }
  }

  lemma FirstOnce(ps: seq<Prop>, i: nat, j: nat, w: World)
    requires FirstDefault(ps, i, w) && FirstDefault(ps, j, w)
    ensures i == j
  {
  }

  lemma DefaultOnce(ps: seq<Prop>, d: Tri, e: Tri, w: World)
    requires DefaultValue(ps, d, w) && DefaultValue(ps, e, w)
    ensures d == e
  {
    if !NoDefault(ps, w) {
      var i: nat :| GivenBy(ps, i, d, w);
      var j: nat :| GivenBy(ps, j, e, w);
      FirstOnce(ps, i, j, w);
    }
  }

  /** Promotion of m to y may be done at the end. */
  lemma PromoteLast(a: Tri, b: Tri)
    ensures Promote(Max(a, b)) == Max(Promote(a), Promote(b))
    ensures Promote(Min(a, b)) == Min(Promote(a), Promote(b))
    ensures Promote(Promote(a)) == Promote(a)
  {
  }

  /** Every symbol of the table has the value that its user value, its prompts, its defaults and the collected
      dependencies prescribe; a symbol that cannot be m has y instead. */
  lemma ValueLaw(S: Setting, v: Valuation, s: Sym, p: Tri, def: Tri)
    requires Solution(S, v) && Ordinary(S, s)
    requires GreatestPrompt(S.table[s].props, p, WorldOf(S, v)) && DefaultValue(S.table[s].props, def, WorldOf(S, v))
    ensures var w, d := WorldOf(S, v), S.table[s];
            var dir := if d.dirDep.None? then 2 else Eval(d.dirDep.value, w);
            var rev := if d.revDep.None? then 0 else Eval(d.revDep.value, w);
            var imp := if d.implied.None? then 0 else Eval(d.implied.value, w);
            var base :=
              if d.user.Some? && p != 0 then Min(d.user.value, p)
              else if imp != 0 then Min(Max(def, imp), dir)
              else def;
            var value := Max(base, rev);
            v(s) == if value == 1 && (s.Type() != Tristate || S.modules == 0) then 2 else value
  {
    var w, ps := WorldOf(S, v), S.table[s].props;
    AnyPromptIsGreatest(ps, w);
    GreatestOnce(ps, p, AnyPrompt(ps, w), w);
    DefaultTriIsFirst(ps, w);
    DefaultOnce(ps, def, DefaultTri(ps, w), w);
    assert v(s) == Compute(S, s, w);
  }

  /** There always are such a prompt condition and such a default. */
  lemma ValueDetermined(S: Setting, v: Valuation, s: Sym)
    requires s in S.table
    ensures exists p, def ::
              GreatestPrompt(S.table[s].props, p, WorldOf(S, v)) && DefaultValue(S.table[s].props, def, WorldOf(S, v))
  {
    AnyPromptIsGreatest(S.table[s].props, WorldOf(S, v));
    DefaultTriIsFirst(S.table[s].props, WorldOf(S, v));
  }

  /** Where neither the user nor an imply applies, the first default whose condition is not n gives the value,
      together with the reverse dependency. */
  lemma DefaultGives(S: Setting, v: Valuation, s: Sym, i: nat)
    requires Solution(S, v) && Ordinary(S, s) && FirstDefault(S.table[s].props, i, WorldOf(S, v))
    requires !UserDecides(S, s, WorldOf(S, v)) && EvalOr(S.table[s].implied, WorldOf(S, v)) == 0
    ensures var w, p := WorldOf(S, v), S.table[s].props[i];
            v(s) == PromoteFor(S, s, Max(Min(EvalOpt(p.expr, w), EvalOpt(p.visible, w)), EvalOr(S.table[s].revDep, w)))
  {
    var w, ps := WorldOf(S, v), S.table[s].props;
    AnyPromptIsGreatest(ps, w);
    var def := Min(EvalOpt(ps[i].expr, w), EvalOpt(ps[i].visible, w));
    assert GivenBy(ps, i, def, w);
    ValueLaw(S, v, s, AnyPrompt(ps, w), def);
  }

  /** If the condition of every default is n, only the reverse dependency is left. */
  lemma NoDefaultGives(S: Setting, v: Valuation, s: Sym)
    requires Solution(S, v) && Ordinary(S, s) && NoDefault(S.table[s].props, WorldOf(S, v))
    requires !UserDecides(S, s, WorldOf(S, v)) && EvalOr(S.table[s].implied, WorldOf(S, v)) == 0
    ensures v(s) == PromoteFor(S, s, EvalOr(S.table[s].revDep, WorldOf(S, v)))
  {
    var w, ps := WorldOf(S, v), S.table[s].props;
    AnyPromptIsGreatest(ps, w);
    ValueLaw(S, v, s, AnyPrompt(ps, w), 0);
  }

  /** `r` is the greatest minimum of a selecting symbol and the condition of its select, and n if nothing selects. */
  ghost predicate GreatestSelect(selects: seq<(Sym, Option<Expr>)>, r: Tri, w: World) {
    && (forall i :: 0 <= i < |selects| ==> SelectValue(selects[i], w) <= r)
    && (r == 0 || exists i :: 0 <= i < |selects| && SelectValue(selects[i], w) == r)
  }

  function SelectValue(select: (Sym, Option<Expr>), w: World): Tri { Min(w.tri(select.0), EvalOpt(select.1, w)) }

  /** The reverse dependency that is collected from selects is worth just that. */
  lemma {:induction false} RevDepExact(selects: seq<(Sym, Option<Expr>)>, w: World)
    ensures GreatestSelect(selects, EvalOr(RevDepOf(selects), w), w)
    decreases |selects|
  {
    if selects != [] {
      var front, last := selects[..|selects| - 1], selects[|selects| - 1];
      RevDepExact(front, w);
      var term := AllocTwo(And, Some(Symbol(last.0)), last.1).value;
      assert Eval(Symbol(last.0), w) == w.tri(last.0);
      assert Eval(term, w) == SelectValue(last, w);
      assert forall j :: 0 <= j < |front| ==> front[j] == selects[j];
    }
  }

  /** A symbol that accepts any value accepts at least two: what it is visible for and what selects ask for. */
  lemma RangeOffersChoice(S: Setting, s: Sym, w: World, val: Tri)
    requires Ordinary(S, s) && WithinRange(S, s, VisibleTri(S, s, w), RevDepTri(S, s, w), val)
    ensures var vis, rev := VisibleTri(S, s, w), RevDepTri(S, s, w);
            && vis != rev && WithinRange(S, s, vis, rev, vis) && WithinRange(S, s, vis, rev, rev)
            && (forall t: Tri ::
                  WithinRange(S, s, vis, rev, t) <==> rev <= t <= vis && (EffectiveType(S, s) == Boolean ==> t != 1))
  {
  }

  /** A symbol is visible exactly if one of its prompts is, and m only if it can be m and no prompt is y. */
  lemma VisibleLaw(S: Setting, s: Sym, w: World)
    requires s in S.table
    ensures var ps, vis := S.table[s].props, VisibleTri(S, s, w);
            && (vis != 0 <==> exists i :: 0 <= i < |ps| && ps[i].hasText && EvalOpt(ps[i].visible, w) != 0)
            && (vis == 1 <==>
                  && s.Type() == Tristate && S.modules != 0
                  && (exists i :: 0 <= i < |ps| && ps[i].hasText && EvalOpt(ps[i].visible, w) == 1)
                  && (forall i :: 0 <= i < |ps| && ps[i].hasText ==> EvalOpt(ps[i].visible, w) != 2))
  {
    AnyPromptIsGreatest(S.table[s].props, w);
  }

  /** The dependency graph has exactly the edges that are checked: the symbols in the three collected
      dependencies, in the conditions of properties other than selects and implies, and in defaults. */
  lemma DepsExact(g: Table, s: Sym, t: Sym)
    ensures t in Deps(g, s) <==>
            && s in g
            && var d := g[s];
               || t in SymsOpt(d.dirDep) || t in SymsOpt(d.revDep) || t in SymsOpt(d.implied)
               || exists i :: 0 <= i < |d.props| && Mentions(d.props[i], t)
  {
    if s in g {
      var d := g[s];
      var es := Expressions(d);
      assert es[0] == d.dirDep && es[1] == d.revDep && es[2] == d.implied && es[3..] == PropsExprs(d.props);
      PropsMention(d.props, t);
      assert forall i :: 0 <= i < |es[3..]| ==> es[3..][i] == es[i + 3];
    }
  }

  predicate Mentions(p: Prop, t: Sym) {
    p.kind != Select && p.kind != Imply && (t in SymsOpt(p.visible) || (p.kind == Default && t in SymsOpt(p.expr)))
  }

  lemma {:induction false} PropsMention(ps: seq<Prop>, t: Sym)
    ensures t in AllSyms(PropsExprs(ps)) <==> exists i :: 0 <= i < |ps| && Mentions(ps[i], t)
    decreases |ps|
  {
    if ps != [] {
      var front, p := ps[..|ps| - 1], ps[|ps| - 1];
      PropsMention(front, t);
      AllSymsAppend(PropsExprs(front), PropExprs(p));
      OneMentions(p, t);
      assert forall i :: 0 <= i < |front| ==> front[i] == ps[i];
    }
  }

  lemma OneMentions(p: Prop, t: Sym)
    ensures t in AllSyms(PropExprs(p)) <==> Mentions(p, t)
  {
    var es := PropExprs(p);
    assert |es| > 0 ==> es[0] == p.visible;
    assert |es| > 1 ==> es[1] == p.expr;
  }

  lemma AllSymsAppend(a: seq<Option<Expr>>, b: seq<Option<Expr>>)
    ensures AllSyms(a + b) == AllSyms(a) + AllSyms(b)
  {
    forall s
      ensures s in AllSyms(a + b) <==> s in AllSyms(a) || s in AllSyms(b)
    {
      if i :| 0 <= i < |a| && s in SymsOpt(a[i]) { assert (a + b)[i] == a[i]; }
      if i :| 0 <= i < |b| && s in SymsOpt(b[i]) { assert (a + b)[|a| + i] == b[i]; }
    }
  }
}
