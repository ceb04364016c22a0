/**
 The memoised evaluator: `sym_calc_value` marks a symbol VALID, computes it from the symbols it
 depends on and stores the result; `sym_set_tristate_value` changes a user value and clears the marks.
 */
module KconfigSymbolMemo {
  import opened KconfigExpr
  import opened KconfigSymbolDeps
  import opened KconfigSymbolEval
  import opened KconfigExprTransform

  function Read(m: map<Sym, Tri>): Valuation { s => if s in m then m[s] else Constant(s) }

  /** The caches hold what belongs to `t` under the valuation `v`. */
  ghost predicate Stored(S: Setting, v: Valuation, curr: map<Sym, Tri>, visible: map<Sym, Tri>, revDep: map<Sym, Tri>,
                         t: Sym) {
    && t in curr && curr[t] == v(t)
    && (Ordinary(S, t) ==>
          && t in visible && visible[t] == VisibleTri(S, t, WorldOf(S, v))
          && t in revDep && revDep[t] == RevDepTri(S, t, WorldOf(S, v)))
  }

  class Evaluator {
    var setting: Setting
    var valid: set<Sym>            // SYMBOL_VALID
    var curr: map<Sym, Tri>
    var visible: map<Sym, Tri>
    var revDep: map<Sym, Tri>
    ghost const rank: Sym -> nat
    ghost var v: Valuation         // the values to be computed
    ghost var busy: set<Sym>       // marked VALID while their computation is still running

    /** Everything marked VALID and finished holds its value. */
    ghost predicate Inv()
      reads this
    {
      && TextOnPrompts(setting.table) && Ranked(setting.table, rank) && Solution(setting, v)
      && forall t {:trigger t in valid} :: t in valid && t !in busy ==>
           Stored(setting, v, curr, visible, revDep, t)
    }

    /** Computations only add finished symbols. */
    twostate predicate Progress()
      reads this
    {
      && Inv() && setting == old(setting) && v == old(v) && busy == old(busy) && old(valid) <= valid
    }

    constructor (setting: Setting, ghost rank: Sym -> nat)
      requires TextOnPrompts(setting.table) && Ranked(setting.table, rank)
      ensures Inv() && busy == {} && this.setting == setting && this.rank == rank && valid == {}
    {
      this.setting, this.rank := setting, rank;
      valid, curr, visible, revDep := {}, map[], map[], map[];
      PlainSolves(setting, rank);
      v, busy := s => Plain(setting, rank, s), {};
    }

    method CalcValue(s: Sym)
      requires Inv() && forall b :: b in busy ==> rank(s) < rank(b)
      modifies `valid, `curr, `visible, `revDep, `busy
      ensures Progress() && s in valid
      ensures Stored(setting, v, curr, visible, revDep, s)
      decreases rank(s), 4
    {
      if s in valid {
        return;
      }
      valid := valid + {s};
      ghost var waiting := busy;
      busy := busy + {s};
      if Ordinary(setting, s) {
        CalcOrdinary(s);
      } else {
        curr := curr[s := Constant(s)];
        assert v(s) == Compute(setting, s, WorldOf(setting, v));
      }
      busy := waiting;
    }

    method CalcOrdinary(s: Sym)
      requires Inv() && Ordinary(setting, s) && s in valid && s in busy
      requires forall b :: b in busy ==> rank(s) <= rank(b)
      modifies `valid, `curr, `visible, `revDep, `busy
      ensures Progress()
      ensures Stored(setting, v, curr, visible, revDep, s)
      decreases rank(s), 3
    {
      var user := setting.table[s].user;
      var vis, dir, rev, imp := CalcVisibility(s);
      curr := curr[s := 0];
      var def := 0;
      if !(vis != 0 && user.Some?) {
        def := DefaultValue(s);
      }
      assert v(s) == Combine(setting, s, user, vis, dir, rev, imp, def) by {
        assert v(s) == Compute(setting, s, WorldOf(setting, v));
      }
      curr := curr[s := Combine(setting, s, user, vis, dir, rev, imp, def)];
      visible, revDep := visible[s := vis], revDep[s := rev];
    }

    method CalcVisibility(s: Sym) returns (vis: Tri, dir: Tri, rev: Tri, imp: Tri)
      requires Inv() && Ordinary(setting, s) && forall b :: b in busy ==> rank(s) <= rank(b)
      modifies `valid, `curr, `visible, `revDep, `busy
      ensures Progress()
      ensures vis == VisibleTri(setting, s, WorldOf(setting, v))
      ensures dir == DirDepTri(setting, s, WorldOf(setting, v))
      ensures rev == RevDepTri(setting, s, WorldOf(setting, v))
      ensures imp == ImpliedTri(setting, s, WorldOf(setting, v))
      decreases rank(s), 2
    {
      vis := 0;
      var ps := setting.table[s].props;
      for i := 0 to |ps|
        invariant Progress()
        invariant vis == AnyPrompt(ps[..i], WorldOf(setting, v))
      {
        assert ps[..i + 1][..i] == ps[..i];
        if ps[i].hasText {
          PropBelow(s, i, ps[i].visible);
          var t := CalcOpt(ps[i].visible, rank(s));
          vis := Max(vis, t);
        }
      }
      assert ps[..|ps|] == ps;
      if s.Type() != Tristate || setting.modules == 0 {
        vis := Promote(vis);
      }
      DepsBelow(s);
      dir := CalcOpt(setting.table[s].dirDep, rank(s));
      dir := PromoteFor(setting, s, dir);
      rev := 0;
      if setting.table[s].revDep.Some? {
        rev := CalcOpt(setting.table[s].revDep, rank(s));
        rev := PromoteFor(setting, s, rev);
      }
      imp := 0;
      if setting.table[s].implied.Some? {
        imp := CalcOpt(setting.table[s].implied, rank(s));
        imp := PromoteFor(setting, s, imp);
      }
    }

    /** `sym_get_default_prop` and the value of the property it finds. */
    method DefaultValue(s: Sym) returns (def: Tri)
      requires Inv() && Ordinary(setting, s) && forall b :: b in busy ==> rank(s) <= rank(b)
      modifies `valid, `curr, `visible, `revDep, `busy
      ensures Progress()
      ensures def == DefaultTri(setting.table[s].props, WorldOf(setting, v))
      decreases rank(s), 2
    {
      var ps := setting.table[s].props;
      for i := 0 to |ps|
        invariant Progress()
        invariant DefaultTri(ps, WorldOf(setting, v)) == DefaultTri(ps[i..], WorldOf(setting, v))
      {
        if ps[i].kind == Default {
          PropBelow(s, i, ps[i].visible);
          var t := CalcOpt(ps[i].visible, rank(s));
          if t != 0 {
            PropBelow(s, i, ps[i].expr);
            var e := CalcOpt(ps[i].expr, rank(s));
            return Min(e, t);
          }
        }
      }
      return 0;
    }

    lemma PropBelow(s: Sym, i: nat, e: Option<Expr>)
      requires Inv() && Ordinary(setting, s) && i < |setting.table[s].props|
      requires e in PropExprs(setting.table[s].props[i])
      ensures Below(e, rank(s))
    {
      PropExprsInProps(setting.table[s].props, i, e);
      assert e in Expressions(setting.table[s]);
      ExpressionInDeps(setting.table, s, e);
    }

    lemma DepsBelow(s: Sym)
      requires Inv() && Ordinary(setting, s)
      ensures Below(setting.table[s].dirDep, rank(s))
      ensures Below(setting.table[s].revDep, rank(s))
      ensures Below(setting.table[s].implied, rank(s))
    {
      var d := setting.table[s];
      var es := Expressions(d);
      assert es[0] == d.dirDep && es[1] == d.revDep && es[2] == d.implied;
      ExpressionInDeps(setting.table, s, d.dirDep);
      ExpressionInDeps(setting.table, s, d.revDep);
      ExpressionInDeps(setting.table, s, d.implied);
    }

    /** Every symbol in the expression ranks below `bound`. */
    ghost predicate Below(e: Option<Expr>, bound: nat) {
      forall x :: x in SymsOpt(e) ==> rank(x) < bound
    }

    method CalcOpt(e: Option<Expr>, ghost bound: nat) returns (t: Tri)
      requires Inv() && Below(e, bound) && forall b :: b in busy ==> bound <= rank(b)
      modifies `valid, `curr, `visible, `revDep, `busy
      ensures Progress()
      ensures t == EvalOpt(e, WorldOf(setting, v))
      decreases bound, 1
    {
      if e.None? {
        t := 2;
      } else {
        t := CalcExpr(e.value, bound);
      }
    }

    /** `expr_calc_value` */
    method CalcExpr(e: Expr, ghost bound: nat) returns (t: Tri)
      requires Inv() && Below(Some(e), bound) && forall b :: b in busy ==> bound <= rank(b)
      modifies `valid, `curr, `visible, `revDep, `busy
      ensures Progress()
      ensures t == Eval(e, WorldOf(setting, v))
      decreases bound, 0, e
    {
      match e
      case Symbol(s) =>
        CalcValue(s);
        t := curr[s];
      case Not(a) =>
        t := CalcExpr(a, bound);
        t := 2 - t;
      case Bin(op, a, b) =>
        var x := CalcExpr(a, bound);
        var y := CalcExpr(b, bound);
        t := Apply(op, x, y);
      case Cmp(rel, a, b) =>
        CalcValue(a);
        CalcValue(b);
        assert a in valid && a !in busy;
        var w := WorldOf(setting, Read(curr));
        t := if Holds(rel, Compare(w, a, b)) then 2 else 0;
        EvalCongruence(e, w, WorldOf(setting, v));
    }

    /** `sym_clear_all_valid`; MODULES is settled, so nothing is recomputed here. */
    method ClearAllValid()
      modifies `valid
      ensures valid == {}
    {
      valid := {};
    }

    /** `sym_set_tristate_value` for a symbol that is not a choice value and is up to date.  A value
        different from the current one is accepted only within range; it is then exactly what the next
        evaluation computes.  The current value itself is always accepted, without invalidating
        anything: what is stored is stale exactly if the symbol is visible and the value does not
        stick. */
    method SetTristateValue(s: Sym, val: Tri) returns (ok: bool)
      requires Inv() && busy == {} && Ordinary(setting, s) && s in valid
      modifies this
      ensures busy == {} && Solution(setting, v)
      ensures var S, w := old(setting), WorldOf(old(setting), old(v));
              var vis, rev := VisibleTri(S, s, w), RevDepTri(S, s, w);
              && ok == (old(v)(s) == val || WithinRange(S, s, vis, rev, val))
              && setting == (if ok then WithUser(S, s, val) else S)
              && valid == (if ok && old(v)(s) != val then {} else old(valid))
              && (ok && old(v)(s) != val ==> v(s) == val)
              && (Inv() <==> !ok || old(v)(s) != val || vis == 0 || Sticks(S, s, vis, rev, val))
    {
      var oldval := curr[s];
      assert Stored(setting, v, curr, visible, revDep, s);
      if oldval != val && !WithinRange(setting, s, visible[s], revDep[s], val) {
        return false;
      }
      ok := true;
      ghost var S, v0 := setting, v;
      UserKeepsDeps(S, s, val);
      setting := WithUser(setting, s, val);
      PlainSolves(setting, rank);
      ghost var S', r := setting, rank;
      v := t => Plain(S', r, t);
      SetThenCompute(S, rank, s, val, v0, v);
      if oldval != val {
        ClearAllValid();
      } else if v(s) == v0(s) {
        forall t | t in valid
          ensures Stored(setting, v, curr, visible, revDep, t)
        {
          UnchangedValue(S, rank, s, val, v0, v, t);
        }
      }
    }
  }

  /** Once the dependency check has passed, asking for symbols in any order, any number of times, gives
      each the value that evaluation without memory gives it. */
  method EvaluateInOrder(setting: Setting, ghost order: seq<Sym>, requests: seq<Sym>) returns (values: seq<Tri>)
    requires TextOnPrompts(setting.table)
    requires Topological(setting.table, order) && Elements(order) == setting.table.Keys
    ensures |values| == |requests|
    ensures forall i :: 0 <= i < |requests| ==> values[i] == Plain(setting, RankIn(order), requests[i])
  {
    TopologicalRank(setting.table, order);
    ghost var rank := RankIn(order);
    PlainSolves(setting, rank);
    var ev := new Evaluator(setting, rank);
    values := [];
    for i := 0 to |requests|
      invariant ev.Inv() && ev.setting == setting && ev.rank == rank && ev.busy == {} && |values| == i
      invariant forall j :: 0 <= j < i ==> values[j] == Plain(setting, rank, requests[j])
    {
      ev.CalcValue(requests[i]);
      SolutionUnique(setting, rank, ev.v, s => Plain(setting, rank, s), requests[i]);
      values := values + [ev.curr[requests[i]]];
    }
  }
}
