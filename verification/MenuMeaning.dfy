/**
 What finalization means: the dependencies that entries end up with, and the selects that reach the
 symbols they name.
 */
module KconfigMenuMeaning {
  import opened KconfigExpr
  import opened KconfigExprTransform
  import opened KconfigMenuDeps
  import opened KconfigMenuTree
  import opened KconfigMenuInherit
  import opened KconfigSubmenus

  /** The rules by which Kconfig combines expressions. */
  function KconfigRules(modules: Sym): Rules {
    Rules((parent, dep) => Propagate(parent, dep, modules),
          (base, visible, kind) => PropCondition(base, visible, modules, kind),
          (s, base, dep) => InSubmenu(s, base, dep))
  }

  /** After a row has inherited and has been finalized. */
  ghost function After(t: Tree, inherited: Option<Expr>, rules: Rules, d: Moment): Moment {
    AfterBelow(t, rules, AfterRow(t, inherited, rules, d))
  }

  // ----- what a node inherits -----

  /** The dependency that is handed down from the row `t` to `n`. */
  ghost function Handed(t: Tree, inherited: Option<Expr>, rules: Rules, d: Moment, n: Menu): Option<Expr> {
    if t.Nil? || n == t.menu then inherited
    else if n in Nodes(t.list) then
      Handed(t.list, ChildDep(t.menu.entry, rules.propagate(inherited, Look(d, t.menu).dep)), rules, d, n)
    else Handed(t.next, inherited, rules, d, n)
  }

  /** The same when the nodes of the row have inherited. */
  ghost function HandedBelow(t: Tree, rules: Rules, d: Moment, n: Menu): Option<Expr> {
    if t.Nil? then None
    else if n in Nodes(t.list) then Handed(t.list, ChildDep(t.menu.entry, Look(d, t.menu).dep), rules, d, n)
    else HandedBelow(t.next, rules, d, n)
  }

  lemma {:induction false} HandedSame(t: Tree, inherited: Option<Expr>, rules: Rules, d: Moment, e: Moment, n: Menu)
    requires SameLook(Nodes(t), d, e)
    ensures Handed(t, inherited, rules, d, n) == Handed(t, inherited, rules, e, n)
  {
    if t.Node? {
      HandedSame(t.list, ChildDep(t.menu.entry, rules.propagate(inherited, Look(d, t.menu).dep)), rules, d, e, n);
      HandedSame(t.next, inherited, rules, d, e, n);
    }
  }

  lemma {:induction false} HandedBelowSame(t: Tree, rules: Rules, d: Moment, e: Moment, n: Menu)
    requires SameLook(Nodes(t), d, e)
    ensures HandedBelow(t, rules, d, n) == HandedBelow(t, rules, e, n)
  {
    if t.Node? {
      HandedSame(t.list, ChildDep(t.menu.entry, Look(d, t.menu).dep), rules, d, e, n);
      HandedBelowSame(t.next, rules, d, e, n);
    }
  }

  lemma {:induction false} RowInfo(t: Tree, inherited: Option<Expr>, rules: Rules, d: Moment, n: Menu)
    requires Proper(t) && n in Row(t)
    ensures Look(AfterRow(t, inherited, rules, d), n) == Inherit(n.entry, inherited, Look(d, n), rules)
  {
    NodeProper(t);
    UnderNodes(t.next);
    var e := AfterOne(t.menu, inherited, rules, d);
    if n == t.menu {
      RowKeeps(t.next, inherited, rules, e, n);
    } else {
      RowInfo(t.next, inherited, rules, e, n);
    }
  }

  /** What is handed down does not depend on whether the row has inherited already. */
  lemma {:induction false} HandedRow(t: Tree, inherited: Option<Expr>, rules: Rules, d: Moment, e: Moment, n: Menu)
    requires Proper(t) && n in Under(t) && SameLook(Under(t), d, e)
    requires forall m :: m in Row(t) ==> Look(e, m) == Inherit(m.entry, inherited, Look(d, m), rules)
    ensures HandedBelow(t, rules, e, n) == Handed(t, inherited, rules, d, n)
  {
    NodeProper(t);
    UnderNodes(t.next);
    if n in Nodes(t.list) {
      HandedSame(t.list, ChildDep(t.menu.entry, Look(e, t.menu).dep), rules, d, e, n);
    } else {
      HandedRow(t.next, inherited, rules, d, e, n);
    }
  }

  /** In the end every node has inherited, exactly once, what is handed down to it in the tree as it was
      parsed. */
  lemma {:induction false} FinalInfo(t: Tree, inherited: Option<Expr>, rules: Rules, d: Moment, n: Menu)
    requires Proper(t) && n in Nodes(t)
    ensures Look(After(t, inherited, rules, d), n) ==
            Inherit(n.entry, Handed(t, inherited, rules, d, n), Look(d, n), rules)
    decreases t, 1
  {
    UnderNodes(t);
    RowUnderApart(t);
    var e := AfterRow(t, inherited, rules, d);
    if n in Row(t) {
      RowInfo(t, inherited, rules, d, n);
      BelowKeeps(t, rules, e, n);
      HandedInRow(t, inherited, rules, d, n);
    } else {
      forall m | m in Under(t)
        ensures Look(d, m) == Look(e, m)
      {
        RowKeeps(t, inherited, rules, d, m);
      }
      forall m | m in Row(t)
        ensures Look(e, m) == Inherit(m.entry, inherited, Look(d, m), rules)
      {
        RowInfo(t, inherited, rules, d, m);
      }
      HandedRow(t, inherited, rules, d, e, n);
      BelowInfo(t, rules, e, n);
    }
  }

  lemma {:induction false} HandedInRow(t: Tree, inherited: Option<Expr>, rules: Rules, d: Moment, n: Menu)
    requires Proper(t) && n in Row(t)
    ensures Handed(t, inherited, rules, d, n) == inherited
  {
    NodeProper(t);
    UnderNodes(t.next);
    if n != t.menu { HandedInRow(t.next, inherited, rules, d, n); }
  }

  lemma {:induction false} BelowInfo(t: Tree, rules: Rules, d: Moment, n: Menu)
    requires Proper(t) && n in Under(t)
    ensures Look(AfterBelow(t, rules, d), n) == Inherit(n.entry, HandedBelow(t, rules, d, n), Look(d, n), rules)
    decreases t, 0
  {
    NodeProper(t);
    UnderNodes(t.next);
    var inherited := ChildDep(t.menu.entry, Look(d, t.menu).dep);
    var e := if t.list.Nil? then AfterDirect(t.menu, d) else After(t.list, inherited, rules, d);
    if n in Nodes(t.list) {
      FinalInfo(t.list, inherited, rules, d, n);
      BelowKeeps(t.next, rules, e, n);
    } else {
      forall m | m in Nodes(t.next)
        ensures Look(d, m) == Look(e, m)
      {
        AfterKeeps(t.list, inherited, rules, d, m);
      }
      HandedBelowSame(t.next, rules, d, e, n);
      BelowInfo(t.next, rules, e, n);
    }
  }

  lemma AfterKeeps(t: Tree, inherited: Option<Expr>, rules: Rules, d: Moment, n: Menu)
    requires n !in Nodes(t)
    ensures Look(After(t, inherited, rules, d), n) == Look(d, n)
  {
    UnderNodes(t);
    RowKeeps(t, inherited, rules, d, n);
    BelowKeeps(t, rules, AfterRow(t, inherited, rules, d), n);
  }

  // ----- direct dependencies -----

  /** The final dependencies of the symbols without children. */
  ghost function Directs(t: Tree, d: Moment): multiset<DirectDep> {
    if t.Nil? then multiset{}
    else
      (if t.list.Node? then Directs(t.list, d)
       else if t.menu.entry.sym.Some? then multiset{DirectDep(t.menu.entry.sym.value, Look(d, t.menu).dep)}
       else multiset{}) + Directs(t.next, d)
  }

  lemma {:induction false} DirectsSame(t: Tree, d: Moment, e: Moment)
    requires SameLook(Nodes(t), d, e)
    ensures Directs(t, d) == Directs(t, e)
  {
    if t.Node? {
      DirectsSame(t.list, d, e);
      DirectsSame(t.next, d, e);
    }
  }

  lemma {:induction false} RowDirect(t: Tree, inherited: Option<Expr>, rules: Rules, d: Moment)
    ensures AfterRow(t, inherited, rules, d).direct == d.direct
  {
    if t.Node? { RowDirect(t.next, inherited, rules, AfterOne(t.menu, inherited, rules, d)); }
  }

  /** Every symbol without children gets its final dependency as a direct dependency, once, and there are
      no others. */
  lemma {:induction false} DirectExact(t: Tree, rules: Rules, d: Moment)
    requires Proper(t)
    ensures AfterBelow(t, rules, d).direct == d.direct + Directs(t, AfterBelow(t, rules, d))
  {
    if t.Node? {
      NodeProper(t);
      UnderNodes(t.next);
      var inherited := ChildDep(t.menu.entry, Look(d, t.menu).dep);
      var e := if t.list.Nil? then AfterDirect(t.menu, d) else After(t.list, inherited, rules, d);
      DirectExact(t.next, rules, e);
      if t.list.Nil? {
        BelowKeeps(t.next, rules, e, t.menu);
      } else {
        RowDirect(t.list, inherited, rules, d);
        DirectExact(t.list, rules, AfterRow(t.list, inherited, rules, d));
        forall m | m in Nodes(t.list)
          ensures Look(e, m) == Look(AfterBelow(t.next, rules, e), m)
        {
          BelowKeeps(t.next, rules, e, m);
        }
        DirectsSame(t.list, e, AfterBelow(t.next, rules, e));
      }
    }
  }

  // ----- selects and implies -----

  /** What the nodes give, with their final properties. */
  ghost function Given(t: Tree, d: Moment): multiset<Contribution> {
    if t.Nil? then multiset{}
    else multiset(NodeGives(t.menu.entry, Look(d, t.menu).props)) + Given(t.list, d) + Given(t.next, d)
  }

  ghost function RowGiven(t: Tree, d: Moment): multiset<Contribution> {
    if t.Nil? then multiset{} else multiset(NodeGives(t.menu.entry, Look(d, t.menu).props)) + RowGiven(t.next, d)
  }

  ghost function UnderGiven(t: Tree, d: Moment): multiset<Contribution> {
    if t.Nil? then multiset{} else Given(t.list, d) + UnderGiven(t.next, d)
  }

  lemma {:induction false} GivenParts(t: Tree, d: Moment)
    ensures Given(t, d) == RowGiven(t, d) + UnderGiven(t, d)
  {
    if t.Node? { GivenParts(t.next, d); }
  }

  lemma {:induction false} RowGivenSame(t: Tree, d: Moment, e: Moment)
    requires SameLook(Row(t), d, e)
    ensures RowGiven(t, d) == RowGiven(t, e)
  {
    if t.Node? { RowGivenSame(t.next, d, e); }
  }

  lemma {:induction false} GivenSame(t: Tree, d: Moment, e: Moment)
    requires SameLook(Nodes(t), d, e)
    ensures Given(t, d) == Given(t, e)
  {
    if t.Node? {
      GivenSame(t.list, d, e);
      GivenSame(t.next, d, e);
    }
  }

  lemma {:induction false} RowLog(t: Tree, inherited: Option<Expr>, rules: Rules, d: Moment)
    requires Proper(t)
    ensures var e := AfterRow(t, inherited, rules, d); multiset(e.log) == multiset(d.log) + RowGiven(t, e)
  {
    if t.Node? {
      NodeProper(t);
      UnderNodes(t.next);
      var one := AfterOne(t.menu, inherited, rules, d);
      RowLog(t.next, inherited, rules, one);
      RowKeeps(t.next, inherited, rules, one, t.menu);
      var gifts := NodeGives(t.menu.entry, Look(one, t.menu).props);
      assert multiset(one.log) == multiset(d.log) + multiset(gifts);
    }
  }

  lemma {:induction false} BelowLog(t: Tree, rules: Rules, d: Moment)
    requires Proper(t)
    ensures var e := AfterBelow(t, rules, d); multiset(e.log) == multiset(d.log) + UnderGiven(t, e)
    decreases t, 0
  {
    if t.Node? {
      NodeProper(t);
      UnderNodes(t.next);
      var inherited := ChildDep(t.menu.entry, Look(d, t.menu).dep);
      var e := if t.list.Nil? then AfterDirect(t.menu, d) else After(t.list, inherited, rules, d);
      var f := AfterBelow(t.next, rules, e);
      BelowLog(t.next, rules, e);
      if t.list.Node? {
        LogExact(t.list, inherited, rules, d);
        forall m | m in Nodes(t.list)
          ensures Look(e, m) == Look(f, m)
        {
          BelowKeeps(t.next, rules, e, m);
        }
        GivenSame(t.list, e, f);
      }
    }
  }

  /** What is recorded are the selects and implies of the nodes, each as often as it is written, and nothing
      else. */
  lemma {:induction false} LogExact(t: Tree, inherited: Option<Expr>, rules: Rules, d: Moment)
    requires Proper(t)
    ensures var e := After(t, inherited, rules, d); multiset(e.log) == multiset(d.log) + Given(t, e)
    decreases t, 1
  {
    var r := AfterRow(t, inherited, rules, d);
    var e := After(t, inherited, rules, d);
    RowLog(t, inherited, rules, d);
    BelowLog(t, rules, r);
    RowUnderApart(t);
    forall m | m in Row(t)
      ensures Look(r, m) == Look(e, m)
    {
      BelowKeeps(t, rules, r, m);
    }
    RowGivenSame(t, r, e);
    GivenParts(t, e);
  }

  // ----- its value -----

  /** What is handed down to `n` is worth: the minimum of the dependencies written above it.  Below a
      choice the value of the choice takes their place. */
  ghost function HandedMin(t: Tree, inherited: Tri, n: Menu, modules: Sym, d: Moment, w: World): Tri {
    if t.Nil? || n == t.menu then inherited
    else if n in Nodes(t.list) then
      var e := t.menu.entry;
      var handed :=
        if e.isChoice && e.sym.Some? then w.tri(e.sym.value)
        else Min(inherited, Written(Look(d, t.menu).dep, modules, w));
      HandedMin(t.list, handed, n, modules, d, w)
    else HandedMin(t.next, inherited, n, modules, d, w)
  }

  /** The minimum of all dependencies written on the way from the row `t` down to `n`, and at `n`. */
  ghost function OnTheWay(t: Tree, inherited: Option<Expr>, n: Menu, modules: Sym, d: Moment, w: World): Tri {
    Min(HandedMin(t, EvalOpt(inherited, w), n, modules, d, w), Written(Look(d, n).dep, modules, w))
  }

  /** What is written at the nodes mentions only symbols of `K`. */
  ghost predicate Mention(s: set<Menu>, d: Moment, K: set<Sym>) {
    forall n :: n in s ==>
      && SymsOpt(Look(d, n).dep) + SymsOpt(Look(d, n).visible) <= K
      && (n.entry.isChoice && n.entry.sym.Some? ==> n.entry.sym.value in K)
      && forall i :: 0 <= i < |Look(d, n).props| ==> SymsOpt(Look(d, n).props[i].visible) <= K
  }

  lemma {:induction false} HandedValue(t: Tree, inherited: Option<Expr>, modules: Sym, d: Moment, K: set<Sym>,
                                       w: World, n: Menu)
    requires Clear(w, K) && modules in K && Mention(Nodes(t), d, K) && n in Nodes(t)
    requires NormalOpt(inherited) && SymsOpt(inherited) <= K
    ensures var h := Handed(t, inherited, KconfigRules(modules), d, n);
            NormalOpt(h) && SymsOpt(h) <= K && EvalOpt(h, w) == HandedMin(t, EvalOpt(inherited, w), n, modules, d, w)
  {
    if n != t.menu {
      if n in Nodes(t.list) {
        var own := Look(d, t.menu).dep;
        PropagateSound(inherited, own, modules, K, w);
        PropagateForm(inherited, own, modules);
        var dep := ChildDep(t.menu.entry, Propagate(inherited, own, modules));
        HandedValue(t.list, dep, modules, d, K, w, n);
      } else {
        HandedValue(t.next, inherited, modules, d, K, w, n);
      }
    }
  }

  /** The dependency of every entry is worth the minimum of what was handed down to the row and of all
      dependencies written on the way to it. */
  lemma PropagatedValue(t: Tree, inherited: Option<Expr>, modules: Sym, d: Moment, K: set<Sym>, w: World, n: Menu)
    requires Clear(w, K) && modules in K && Proper(t) && Mention(Nodes(t), d, K) && n in Nodes(t)
    requires NormalOpt(inherited) && SymsOpt(inherited) <= K
    ensures var dep := Look(After(t, inherited, KconfigRules(modules), d), n).dep;
            NormalOpt(dep) && SymsOpt(dep) <= K && EvalOpt(dep, w) == OnTheWay(t, inherited, n, modules, d, w)
  {
    var rules := KconfigRules(modules);
    FinalInfo(t, inherited, rules, d, n);
    HandedValue(t, inherited, modules, d, K, w, n);
    var h := Handed(t, inherited, rules, d, n);
    PropagateSound(h, Look(d, n).dep, modules, K, w);
    PropagateForm(h, Look(d, n).dep, modules);
  }

  /** With no constants but y, m and n that holds under every legal assignment. */
  lemma PropagatedMeaning(t: Tree, inherited: Option<Expr>, modules: Sym, d: Moment, K: set<Sym>, w: World, n: Menu)
    requires Legal(w) && LettersOnly(K) && modules in K && Proper(t) && Mention(Nodes(t), d, K) && n in Nodes(t)
    requires NormalOpt(inherited) && SymsOpt(inherited) <= K
    ensures EvalOpt(Look(After(t, inherited, KconfigRules(modules), d), n).dep, w) ==
            OnTheWay(t, inherited, n, modules, d, w)
  {
    LettersAreClear(w, K);
    PropagatedValue(t, inherited, modules, d, K + Letters, w, n);
  }

  // ----- submenus -----

  /** An entry of an automatic submenu is visible only if the symbol is set or its prompt is visible, with
      m counting as y in every symbol; and for plain values if the entry is y, or negates nothing that is m. */
  lemma {:induction false} SubmenuMeaning(parent: Menu, t: Tree, modules: Sym, d: Moment, K: set<Sym>, w: World,
                                          n: Menu)
    requires RowBelongs(parent, t, KconfigRules(modules), d) && n in Row(t) && Clear(w, K)
    requires SymsOpt(PromptCondition(d, parent)) + SymsOpt(ShownIf(d, n)) <= K
    requires parent.entry.sym.Some? && parent.entry.sym.value.IsLogical()
    ensures var s := parent.entry.sym.value;
            var base := if parent.entry.hasPrompt then Look(d, parent).visible else None;
            var dep := if n.entry.hasPrompt then Look(d, n).visible else Look(d, n).dep;
            && dep.Some?
            && (EvalPromoted(dep.value, w) != 0 ==> w.tri(s) != 0 || EvalPromotedOpt(base, w) != 0)
            && ((LogicalOpt(dep) && LogicalOpt(base)) || TextReads(w, K) ==>
                  Eval(dep.value, w) == 2 || (Eval(dep.value, w) == 1 && NegatesNoM(dep.value, w)) ==>
                    w.tri(s) != 0 || EvalOpt(base, w) != 0)
  {
    if n == t.menu {
      SubmenuImplies(parent.entry.sym.value, PromptCondition(d, parent), ShownIf(d, n), K, w);
    } else {
      SubmenuMeaning(parent, t.next, modules, d, K, w, n);
    }
  }
}
