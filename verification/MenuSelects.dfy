/**
 The dependencies that finalization records for symbols: selects, implies and direct dependencies, and
 what they mean for the values of the symbols.
 */
module KconfigMenuSelects {
  import opened KconfigExpr
  import opened KconfigExprTransform
  import opened KconfigMenuDeps
  import opened KconfigMenuTree
  import opened KconfigMenuInherit
  import opened KconfigSubmenus
  import opened KconfigMenuMeaning
  import SD = KconfigSymbolDeps
  import SE = KconfigSymbolEval

  // ----- what is recorded -----

  /** What a property that selects or implies gives to the symbol it names. */
  function Term(kind: PropertyKind, selector: Sym, cond: Option<Expr>): Contribution
    requires !kind.Other?
  {
    if kind.Select? then Selects(kind.target, selector, cond) else Implies(kind.target, selector, cond)
  }

  lemma {:induction false} GiftsHave(sym: Sym, ps: seq<Property>, i: nat)
    requires i < |ps| && !ps[i].kind.Other?
    ensures Term(ps[i].kind, sym, ps[i].visible) in Gifts(sym, ps)
  {
    if i < |ps| - 1 { GiftsHave(sym, ps[..|ps| - 1], i); }
  }

  lemma {:induction false} RowGrows(t: Tree, inherited: Option<Expr>, rules: Rules, d: Moment, c: Contribution)
    requires c in d.log
    ensures c in AfterRow(t, inherited, rules, d).log
  {
    if t.Node? { RowGrows(t.next, inherited, rules, AfterOne(t.menu, inherited, rules, d), c); }
  }

  lemma {:induction false} BelowGrows(t: Tree, rules: Rules, d: Moment, c: Contribution)
    requires c in d.log
    ensures c in AfterBelow(t, rules, d).log
  {
    if t.Node? {
      if t.list.Nil? {
        BelowGrows(t.next, rules, AfterDirect(t.menu, d), c);
      } else {
        var inherited := ChildDep(t.menu.entry, Look(d, t.menu).dep);
        RowGrows(t.list, inherited, rules, d, c);
        BelowGrows(t.list, rules, AfterRow(t.list, inherited, rules, d), c);
        BelowGrows(t.next, rules, After(t.list, inherited, rules, d), c);
      }
    }
  }

  lemma {:induction false} RowGives(t: Tree, inherited: Option<Expr>, rules: Rules, d: Moment, n: Menu, c: Contribution)
    requires Proper(t) && n in Row(t) && c in NodeGives(n.entry, Look(AfterRow(t, inherited, rules, d), n).props)
    ensures c in AfterRow(t, inherited, rules, d).log
  {
    NodeProper(t);
    UnderNodes(t.next);
    var e := AfterOne(t.menu, inherited, rules, d);
    if n == t.menu {
      RowKeeps(t.next, inherited, rules, e, n);
      RowGrows(t.next, inherited, rules, e, c);
    } else {
      RowGives(t.next, inherited, rules, e, n, c);
    }
  }

  /** Everything that a node gives in the end is recorded. */
  lemma {:induction false} FinalGives(t: Tree, inherited: Option<Expr>, rules: Rules, d: Moment, n: Menu,
                                      c: Contribution)
    requires Proper(t) && n in Nodes(t) && c in NodeGives(n.entry, Look(After(t, inherited, rules, d), n).props)
    ensures c in After(t, inherited, rules, d).log
    decreases t, 1
  {
    UnderNodes(t);
    RowUnderApart(t);
    var e := AfterRow(t, inherited, rules, d);
    if n in Row(t) {
      BelowKeeps(t, rules, e, n);
      RowGives(t, inherited, rules, d, n, c);
      BelowGrows(t, rules, e, c);
    } else {
      BelowGives(t, rules, e, n, c);
    }
  }

  lemma {:induction false} BelowGives(t: Tree, rules: Rules, d: Moment, n: Menu, c: Contribution)
    requires Proper(t) && n in Under(t) && c in NodeGives(n.entry, Look(AfterBelow(t, rules, d), n).props)
    ensures c in AfterBelow(t, rules, d).log
    decreases t, 0
  {
    NodeProper(t);
    UnderNodes(t.next);
    var inherited := ChildDep(t.menu.entry, Look(d, t.menu).dep);
    var e := if t.list.Nil? then AfterDirect(t.menu, d) else After(t.list, inherited, rules, d);
    if n in Nodes(t.list) {
      BelowKeeps(t.next, rules, e, n);
      FinalGives(t.list, inherited, rules, d, n, c);
      BelowGrows(t.next, rules, e, c);
    } else {
      BelowGives(t.next, rules, e, n, c);
    }
  }

  /** The selects of a symbol, or the implies, in the order in which they were or-ed together. */
  function TermsOf(log: seq<Contribution>, s: Sym, implies: bool): seq<(Sym, Option<Expr>)> {
    if log == [] then []
    else
      var c := log[|log| - 1];
      TermsOf(log[..|log| - 1], s, implies) +
      if c.Implies? == implies && c.target == s then [(c.selector, c.cond)] else []
  }

  lemma {:induction false} TermsHave(log: seq<Contribution>, c: Contribution) returns (i: nat)
    requires c in log
    ensures var terms := TermsOf(log, c.target, c.Implies?); i < |terms| && terms[i] == (c.selector, c.cond)
  {
    var last := |log| - 1;
    if log[last] == c {
      i := |TermsOf(log[..last], c.target, c.Implies?)|;
    } else {
      i := TermsHave(log[..last], c);
    }
  }

  /** The condition that a property is written with, including everything above it. */
  ghost function ConditionValue(t: Tree, n: Menu, i: nat, inherited: Option<Expr>, modules: Sym, d: Moment,
                                w: World): Tri
    requires i < |Look(d, n).props|
  {
    Min(OnTheWay(t, inherited, n, modules, d, w), Written(Look(d, n).props[i].visible, modules, w))
  }

  /** The type that decides how conditions are simplified; a node without a symbol counts as tristate. */
  function EntryType(e: Entry): SymType { if e.sym.Some? then e.sym.value.Type() else Tristate }

  /** A condition that was given the final dependency of `n`: it is worth what was written and all above it. */
  lemma FinalConditionValue(t: Tree, n: Menu, written: Option<Expr>, inherited: Option<Expr>, modules: Sym, d: Moment,
                            K: set<Sym>, w: World)
    requires Clear(w, K) && modules in K && Proper(t) && Mention(Nodes(t), d, K) && n in Nodes(t)
    requires NormalOpt(inherited) && SymsOpt(inherited) <= K && SymsOpt(written) <= K
    ensures var dep := Look(After(t, inherited, KconfigRules(modules), d), n).dep;
            var got := EvalOpt(PropCondition(dep, written, modules, EntryType(n.entry)), w);
            var value := Min(OnTheWay(t, inherited, n, modules, d, w), Written(written, modules, w));
            && (EntryType(n.entry) == Tristate || NoSymbolIsM(w) ==> got == value)
            && Promote(got) == Promote(value)
  {
    PropagatedValue(t, inherited, modules, d, K, w, n);
    var dep := Look(After(t, inherited, KconfigRules(modules), d), n).dep;
    PropConditionSound(dep, written, modules, EntryType(n.entry), K, w);
    if NoSymbolIsM(w) { PropConditionPlain(dep, written, modules, EntryType(n.entry), K, w); }
  }

  /** Property `i` of `n` in the end: of the same kind, with a condition worth its own and all above it. */
  lemma FinalProperty(t: Tree, n: Menu, i: nat, inherited: Option<Expr>, modules: Sym, d: Moment, K: set<Sym>, w: World)
    requires Clear(w, K) && modules in K && Proper(t) && Mention(Nodes(t), d, K) && n in Nodes(t)
    requires NormalOpt(inherited) && SymsOpt(inherited) <= K && i < |Look(d, n).props|
    ensures var ps := Look(After(t, inherited, KconfigRules(modules), d), n).props;
            var value := ConditionValue(t, n, i, inherited, modules, d, w);
            && i < |ps| && ps[i].kind == Look(d, n).props[i].kind
            && (EntryType(n.entry) == Tristate || NoSymbolIsM(w) ==> EvalOpt(ps[i].visible, w) == value)
            && Promote(EvalOpt(ps[i].visible, w)) == Promote(value)
  {
    FinalCondition(t, n, i, inherited, modules, d);
    FinalConditionValue(t, n, Look(d, n).props[i].visible, inherited, modules, d, K, w);
  }

  /** The condition of a prompt in the end is worth its own and all above it; without a prompt it is left
      alone. */
  lemma FinalPrompt(t: Tree, n: Menu, inherited: Option<Expr>, modules: Sym, d: Moment, K: set<Sym>, w: World)
    requires Clear(w, K) && modules in K && Proper(t) && Mention(Nodes(t), d, K) && n in Nodes(t)
    requires NormalOpt(inherited) && SymsOpt(inherited) <= K
    ensures var prompt := Look(After(t, inherited, KconfigRules(modules), d), n).visible;
            var value := Min(OnTheWay(t, inherited, n, modules, d, w), Written(Look(d, n).visible, modules, w));
            if !n.entry.hasPrompt then prompt == Look(d, n).visible
            else
              && (EntryType(n.entry) == Tristate || NoSymbolIsM(w) ==> EvalOpt(prompt, w) == value)
              && Promote(EvalOpt(prompt, w)) == Promote(value)
  {
    FinalInfo(t, inherited, KconfigRules(modules), d, n);
    FinalConditionValue(t, n, Look(d, n).visible, inherited, modules, d, K, w);
  }

  lemma FinalCondition(t: Tree, n: Menu, i: nat, inherited: Option<Expr>, modules: Sym, d: Moment)
    requires Proper(t) && n in Nodes(t) && i < |Look(d, n).props|
    ensures var info, p := Look(After(t, inherited, KconfigRules(modules), d), n), Look(d, n).props[i];
            && |info.props| == |Look(d, n).props|
            && info.props[i] == Property(p.kind, PropCondition(info.dep, p.visible, modules, EntryType(n.entry)))
  {
    var rules := KconfigRules(modules);
    FinalInfo(t, inherited, rules, d, n);
    ConditionedAt(n.entry, Look(After(t, inherited, rules, d), n).dep, Look(d, n).props, rules);
  }

  /** Property `i` of `n`, which belongs to the row `t`, selects or implies. */
  predicate Names(t: Tree, n: Menu, i: nat, d: Moment) {
    n in Nodes(t) && n.entry.sym.Some? && i < |Look(d, n).props| && !Look(d, n).props[i].kind.Other?
  }

  /** A select or imply that is written anywhere in the tree is recorded with its final condition. */
  lemma TermRecorded(t: Tree, n: Menu, i: nat, inherited: Option<Expr>, modules: Sym, d: Moment) returns (j: nat)
    requires Proper(t) && Names(t, n, i, d)
    ensures var e, kind := After(t, inherited, KconfigRules(modules), d), Look(d, n).props[i].kind;
            var terms := TermsOf(e.log, kind.target, kind.Imply?);
            i < |Look(e, n).props| && j < |terms| && terms[j] == (n.entry.sym.value, Look(e, n).props[i].visible)
  {
    var rules := KconfigRules(modules);
    var e := After(t, inherited, rules, d);
    FinalCondition(t, n, i, inherited, modules, d);
    var ps := Look(e, n).props;
    GiftsHave(n.entry.sym.value, ps, i);
    var c := Term(ps[i].kind, n.entry.sym.value, ps[i].visible);
    FinalGives(t, inherited, rules, d, n, c);
    j := TermsHave(e.log, c);
  }

  // ----- selects and implies -----

  /** The reverse or implied dependency that finalization records for `s`. */
  ghost function RecordedDep(t: Tree, inherited: Option<Expr>, modules: Sym, d: Moment, s: Sym,
                             implies: bool): Option<Expr> {
    SE.RevDepOf(TermsOf(After(t, inherited, KconfigRules(modules), d).log, s, implies))
  }

  /** Every select that is written in the tree is honoured: with the reverse dependencies that finalization
      has recorded, the selected symbol is at least the selecting one, the condition of the select and
      every dependency above it, if the selecting symbol is tristate or no symbol is m.  In any case it is
      not n if none of these is. */
  lemma WrittenSelectHonoured(S: SE.Setting, v: SE.Valuation, t: Tree, n: Menu, i: nat,
                              inherited: Option<Expr>, modules: Sym, d: Moment, K: set<Sym>)
    requires Proper(t) && Names(t, n, i, d) && Look(d, n).props[i].kind.Select?
    requires Clear(SE.WorldOf(S, v), K) && modules in K && Mention(Nodes(t), d, K)
    requires NormalOpt(inherited) && SymsOpt(inherited) <= K
    requires SE.Solution(S, v) && SE.Ordinary(S, Look(d, n).props[i].kind.target)
    requires var b := Look(d, n).props[i].kind.target;
             S.table[b].revDep == RecordedDep(t, inherited, modules, d, b, false)
    ensures var a, b := n.entry.sym.value, Look(d, n).props[i].kind.target;
            var cond := ConditionValue(t, n, i, inherited, modules, d, SE.WorldOf(S, v));
            && (a.Type() == Tristate || NoSymbolIsM(SE.WorldOf(S, v)) ==> v(b) >= Min(v(a), cond))
            && (v(a) != 0 && cond != 0 ==> v(b) != 0)
            && (v(a) != 0 && cond != 0 && SE.EffectiveType(S, b) == Boolean ==> v(b) == 2)
  {
    var b := Look(d, n).props[i].kind.target;
    FinalProperty(t, n, i, inherited, modules, d, K, SE.WorldOf(S, v));
    var j := TermRecorded(t, n, i, inherited, modules, d);
    SE.SelectHonoured(S, v, b, TermsOf(After(t, inherited, KconfigRules(modules), d).log, b, false), j);
  }

  /** Every imply that is written in the tree is honoured in the same way as far as the direct dependencies
      of the implied symbol allow, unless the user decides about it. */
  lemma WrittenImplyHonoured(S: SE.Setting, v: SE.Valuation, t: Tree, n: Menu, i: nat,
                             inherited: Option<Expr>, modules: Sym, d: Moment, K: set<Sym>)
    requires Proper(t) && Names(t, n, i, d) && Look(d, n).props[i].kind.Imply?
    requires Clear(SE.WorldOf(S, v), K) && modules in K && Mention(Nodes(t), d, K)
    requires NormalOpt(inherited) && SymsOpt(inherited) <= K
    requires SE.Solution(S, v) && SE.Ordinary(S, Look(d, n).props[i].kind.target)
    requires var b := Look(d, n).props[i].kind.target;
             && S.table[b].implied == RecordedDep(t, inherited, modules, d, b, true)
             && !SE.UserDecides(S, b, SE.WorldOf(S, v))
    ensures var a, b, w := n.entry.sym.value, Look(d, n).props[i].kind.target, SE.WorldOf(S, v);
            var cond, dir := ConditionValue(t, n, i, inherited, modules, d, w), SE.DirDepTri(S, b, w);
            && (a.Type() == Tristate || NoSymbolIsM(w) ==> v(b) >= Min(Min(v(a), cond), dir))
            && (v(a) != 0 && cond != 0 && dir != 0 ==> v(b) != 0)
  {
    var b := Look(d, n).props[i].kind.target;
    FinalProperty(t, n, i, inherited, modules, d, K, SE.WorldOf(S, v));
    var j := TermRecorded(t, n, i, inherited, modules, d);
    SE.ImplyHonoured(S, v, b, TermsOf(After(t, inherited, KconfigRules(modules), d).log, b, true), j);
  }

  // ----- direct dependencies -----

  /** The direct dependency of `s` when the recorded dependencies are or-ed together in the order `ds`. */
  function DirectOf(ds: seq<DirectDep>, s: Sym): Option<Expr> {
    if ds == [] then None
    else
      var last, before := ds[|ds| - 1], DirectOf(ds[..|ds| - 1], s);
      if last.sym == s then AllocTwo(Or, before, last.dep) else before
  }

  /** Some entry of `s` has no dependency; some entry has one. */
  predicate HasFree(ds: seq<DirectDep>, s: Sym) { exists i :: 0 <= i < |ds| && ds[i].sym == s && ds[i].dep.None? }
  predicate HasBound(ds: seq<DirectDep>, s: Sym) { exists i :: 0 <= i < |ds| && ds[i].sym == s && ds[i].dep.Some? }

  /** The maximum of the dependencies of the entries of `s` that have one. */
  function BoundMax(ds: seq<DirectDep>, s: Sym, w: World): Tri {
    if ds == [] then 0
    else
      var last, before := ds[|ds| - 1], BoundMax(ds[..|ds| - 1], s, w);
      if last.sym == s && last.dep.Some? then Max(before, Eval(last.dep.value, w)) else before
  }

  lemma {:induction false} BoundMaxIs(ds: seq<DirectDep>, s: Sym, w: World)
    ensures forall i :: 0 <= i < |ds| && ds[i].sym == s && ds[i].dep.Some? ==>
              Eval(ds[i].dep.value, w) <= BoundMax(ds, s, w)
    ensures BoundMax(ds, s, w) != 0 ==>
              exists i :: 0 <= i < |ds| && ds[i].sym == s && ds[i].dep.Some?
                && Eval(ds[i].dep.value, w) == BoundMax(ds, s, w)
  {
    if ds != [] {
      var front := ds[..|ds| - 1];
      BoundMaxIs(front, s, w);
      assert forall i :: 0 <= i < |front| ==> front[i] == ds[i];
    }
  }

  /** An entry without a dependency is not seen as soon as another entry has one. */
  lemma {:induction false} DirectValue(ds: seq<DirectDep>, s: Sym, w: World)
    ensures DirectOf(ds, s).Some? <==> HasBound(ds, s)
    ensures EvalOpt(DirectOf(ds, s), w) == if HasBound(ds, s) then BoundMax(ds, s, w) else 2
  {
    if ds != [] {
      var front := ds[..|ds| - 1];
      DirectValue(front, s, w);
      BoundMaxIs(front, s, w);
      assert forall i :: 0 <= i < |front| ==> front[i] == ds[i];
      assert HasBound(ds, s) <==> HasBound(front, s) || (ds[|ds| - 1].sym == s && ds[|ds| - 1].dep.Some?);
    }
  }

  /** What the entries of `s` ask for together: y if one of them has no dependency. */
  function EntriesMax(ds: seq<DirectDep>, s: Sym, w: World): Tri {
    if HasFree(ds, s) || !HasBound(ds, s) then 2 else BoundMax(ds, s, w)
  }

  /** The direct dependency is that exactly unless one entry has no dependency, another has one, and those
      that have one are not y. */
  lemma DirectIntended(ds: seq<DirectDep>, s: Sym, w: World)
    ensures EvalOpt(DirectOf(ds, s), w) == EntriesMax(ds, s, w) <==>
              !(HasFree(ds, s) && HasBound(ds, s) && BoundMax(ds, s, w) != 2)
  {
    DirectValue(ds, s, w);
  }

  /** A symbol with an entry that is always there and another that depends on A: with A=n its direct
      dependency is n. */
  lemma DirectCounterexample(s: Sym, w: World)
    requires w.tri(Config("A", Boolean)) == 0
    ensures var ds := [DirectDep(s, None), DirectDep(s, Some(Symbol(Config("A", Boolean))))];
            EvalOpt(DirectOf(ds, s), w) == 0 && EntriesMax(ds, s, w) == 2
  {
    var ds := [DirectDep(s, None), DirectDep(s, Some(Symbol(Config("A", Boolean))))];
    assert DirectOf(ds[..1][..0], s) == None && DirectOf(ds[..1], s) == None;
    assert DirectOf(ds, s) == Some(Symbol(Config("A", Boolean)));
    assert ds[0].dep.None?;
  }

  /** The order in which they are or-ed does not matter. */
  lemma DirectAnyOrder(ds: seq<DirectDep>, es: seq<DirectDep>, s: Sym, w: World)
    requires multiset(ds) == multiset(es)
    ensures EvalOpt(DirectOf(ds, s), w) == EvalOpt(DirectOf(es, s), w)
  {
    DirectValue(ds, s, w);
    DirectValue(es, s, w);
    DirectAtMost(ds, es, s, w);
    DirectAtMost(es, ds, s, w);
  }

  lemma DirectAtMost(ds: seq<DirectDep>, es: seq<DirectDep>, s: Sym, w: World)
    requires multiset(ds) == multiset(es)
    ensures HasBound(ds, s) ==> HasBound(es, s)
    ensures BoundMax(ds, s, w) <= BoundMax(es, s, w)
  {
    BoundMaxIs(ds, s, w);
    BoundMaxIs(es, s, w);
    forall i | 0 <= i < |ds|
      ensures ds[i] in es
    {
      assert ds[i] in multiset(es);
    }
  }

  /** A node without children below a row. */
  ghost predicate Childless(t: Tree, n: Menu) {
    t.Node? && ((n == t.menu && t.list.Nil?) || Childless(t.list, n) || Childless(t.next, n))
  }

  lemma {:induction false} DirectsHave(t: Tree, d: Moment, n: Menu)
    requires Childless(t, n) && n.entry.sym.Some?
    ensures DirectDep(n.entry.sym.value, Look(d, n).dep) in Directs(t, d)
  {
    if !(n == t.menu && t.list.Nil?) {
      if Childless(t.list, n) { DirectsHave(t.list, d, n); } else { DirectsHave(t.next, d, n); }
    }
  }

  /** The direct dependency of a symbol is at least every dependency on the way to an entry of it without
      children, as long as something is written on that way. */
  lemma DirectCovers(t: Tree, inherited: Option<Expr>, modules: Sym, d: Moment, K: set<Sym>, w: World, n: Menu,
                     ds: seq<DirectDep>)
    requires Clear(w, K) && modules in K && Proper(t) && Mention(Nodes(t), d, K) && n in Nodes(t)
    requires NormalOpt(inherited) && SymsOpt(inherited) <= K && Childless(t, n) && n.entry.sym.Some?
    requires multiset(ds) == After(t, inherited, KconfigRules(modules), d).direct
    ensures var e := After(t, inherited, KconfigRules(modules), d);
            Look(e, n).dep.Some? ==>
              EvalOpt(DirectOf(ds, n.entry.sym.value), w) >= OnTheWay(t, inherited, n, modules, d, w)
  {
    var rules := KconfigRules(modules);
    var r := AfterRow(t, inherited, rules, d);
    var e, s := After(t, inherited, rules, d), n.entry.sym.value;
    PropagatedValue(t, inherited, modules, d, K, w, n);
    DirectExact(t, rules, r);
    DirectsHave(t, e, n);
    var x := DirectDep(s, Look(e, n).dep);
    assert x in multiset(ds);
    var i :| 0 <= i < |ds| && ds[i] == x;
    DirectValue(ds, s, w);
    BoundMaxIs(ds, s, w);
  }

  // ----- a select that is weakened -----

  /** A is y and FOO is m by default, and B has only what `revDep` says. */
  function WeakTable(revDep: Option<Expr>): SD.Table {
    var unset := SD.SymbolDef(None, None, None, [], None);
    map[Config("A", Boolean) := unset.(props := [SD.Prop(SD.Default, false, None, Some(Symbol(Yes)))]),
        Config("FOO", Tristate) := unset.(props := [SD.Prop(SD.Default, false, None, Some(Symbol(Mod)))]),
        Config("B", Tristate) := unset.(revDep := revDep)]
  }

  /** A node of A with the property `select B if FOO!=n`. */
  function WeakMoment(m: Menu): Moment {
    var select := Property(Select(Config("B", Tristate)), Some(Cmp(Ne, Config("FOO", Tristate), No)));
    Moment(map[m := Info(None, None, [select])], [], multiset{})
  }

  /** What the entry gives: a select with the condition `FOO`. */
  lemma WeakGives(m: Menu, modules: Sym)
    requires m.entry.sym == Some(Config("A", Boolean))
    ensures var i := Inherit(m.entry, None, Look(WeakMoment(m), m), KconfigRules(modules));
            NodeGives(m.entry, i.props) ==
            [Selects(Config("B", Tristate), Config("A", Boolean), Some(Symbol(Config("FOO", Tristate))))]
  {
    var a, b, foo := Config("A", Boolean), Config("B", Tristate), Config("FOO", Tristate);
    var d, rules := WeakMoment(m), KconfigRules(modules);
    NotNCondition(foo, modules, Boolean);
    assert Propagate(None, None, modules) == None;
    assert Conditioned(m.entry, None, Look(d, m).props[..0], rules) == [];
    var i := Inherit(m.entry, None, Look(d, m), rules);
    assert i.props == [Property(Select(b), Some(Symbol(foo)))];
    assert Gifts(a, i.props[..0]) == [];
  }

  /** A single node without children records what it gives. */
  lemma AloneGives(m: Menu, rules: Rules, d: Moment)
    ensures After(One(m, Nil), None, rules, d).log ==
            d.log + NodeGives(m.entry, Inherit(m.entry, None, Look(d, m), rules).props)
  {
    var t, e := One(m, Nil), AfterOne(m, None, rules, d);
    assert AfterRow(Nil, None, rules, e) == e && AfterRow(t, None, rules, d) == e;
    assert AfterBelow(Nil, rules, AfterDirect(m, e)) == AfterDirect(m, e) == AfterBelow(t, rules, e);
  }

  lemma WeakRecord(m: Menu, modules: Sym)
    requires m.entry.sym == Some(Config("A", Boolean))
    ensures RecordedDep(One(m, Nil), None, modules, WeakMoment(m), Config("B", Tristate), false)
            == Some(Bin(And, Symbol(Config("A", Boolean)), Symbol(Config("FOO", Tristate))))
  {
    var a, b, foo := Config("A", Boolean), Config("B", Tristate), Config("FOO", Tristate);
    WeakGives(m, modules);
    AloneGives(m, KconfigRules(modules), WeakMoment(m));
    var log := [Selects(b, a, Some(Symbol(foo)))];
    assert TermsOf(log[..0], b, false) == [];
    assert TermsOf(log, b, false) == [(a, Some(Symbol(foo)))];
    assert SE.RevDepOf([(a, Some(Symbol(foo)))][..0]) == None;
  }

  /** A bool A with `select B if FOO!=n` and A=y, FOO=m makes the tristate B only m: the condition has become
      `FOO`, although as written it is y. */
  lemma SelectWeakened(S: SE.Setting, v: SE.Valuation, m: Menu, modules: Sym)
    requires m.entry.sym == Some(Config("A", Boolean)) && !m.entry.isChoice && S.modules == 2
    requires S.number("y", Unknown).Text? && S.number("m", Unknown).Text? && S.number("n", Unknown).Text?
    requires S.table == WeakTable(RecordedDep(One(m, Nil), None, modules, WeakMoment(m), Config("B", Tristate), false))
    requires SE.Solution(S, v)
    ensures v(Config("A", Boolean)) == 2 && v(Config("B", Tristate)) == 1
    ensures m in Nodes(One(m, Nil))
            && ConditionValue(One(m, Nil), m, 0, None, modules, WeakMoment(m), SE.WorldOf(S, v)) == 2
  {
    var foo, w := Config("FOO", Tristate), SE.WorldOf(S, v);
    WeakRecord(m, modules);
    WeakValues(S, v);
    SE.SolutionLegal(S, v);
    CompareConstant(w, foo, No);
    assert Eval(Cmp(Ne, foo, No), w) == 2;
  }

  lemma WeakValues(S: SE.Setting, v: SE.Valuation)
    requires S.modules == 2 && SE.Solution(S, v)
    requires S.table == WeakTable(Some(Bin(And, Symbol(Config("A", Boolean)), Symbol(Config("FOO", Tristate)))))
    ensures v(Config("A", Boolean)) == 2 && v(Config("FOO", Tristate)) == 1 && v(Config("B", Tristate)) == 1
  {
    var a, b, foo, w := Config("A", Boolean), Config("B", Tristate), Config("FOO", Tristate), SE.WorldOf(S, v);
    assert v(Yes) == SE.Compute(S, Yes, w) == 2 && v(Mod) == SE.Compute(S, Mod, w) == 1;
    var pa, pf := S.table[a].props, S.table[foo].props;
    assert SE.AnyPrompt(pa[..0], w) == SE.AnyPrompt(pa, w) == 0 && SE.DefaultTri(pa, w) == 2;
    assert v(a) == SE.Compute(S, a, w) == 2;
    assert SE.AnyPrompt(pf[..0], w) == SE.AnyPrompt(pf, w) == 0 && SE.DefaultTri(pf, w) == 1;
    assert v(foo) == SE.Compute(S, foo, w) == 1;
    assert Eval(Symbol(a), w) == 2 && Eval(Symbol(foo), w) == 1;
    assert v(b) == SE.Compute(S, b, w) == 1;
  }

  /** The table has a solution. */
  lemma WeakSolved(S: SE.Setting) returns (v: SE.Valuation)
    requires S.table == WeakTable(Some(Bin(And, Symbol(Config("A", Boolean)), Symbol(Config("FOO", Tristate)))))
    ensures SE.Solution(S, v)
  {
    var a, b, foo := Config("A", Boolean), Config("B", Tristate), Config("FOO", Tristate);
    var rank: Sym -> nat := s => if s == b then 2 else if s == a || s == foo then 1 else 0;
    var g := S.table;
    forall s, t | t in SD.Deps(g, s)
      ensures rank(t) < rank(s)
    {
      WeakDeps(g, s, t);
    }
    SE.PlainSolves(S, rank);
    v := s => SE.Plain(S, rank, s);
  }

  lemma WeakDeps(g: SD.Table, s: Sym, t: Sym)
    requires g == WeakTable(Some(Bin(And, Symbol(Config("A", Boolean)), Symbol(Config("FOO", Tristate)))))
             && t in SD.Deps(g, s)
    ensures s == Config("B", Tristate) ==> t in {Config("A", Boolean), Config("FOO", Tristate)}
    ensures s != Config("B", Tristate) ==> s in {Config("A", Boolean), Config("FOO", Tristate)} && t in Letters
  {
    DefaultDeps(Yes);
    DefaultDeps(Mod);
    SelectDeps(Config("A", Boolean), Config("FOO", Tristate));
  }

  lemma DefaultDeps(c: Sym)
    ensures var d := SD.SymbolDef(None, None, None, [SD.Prop(SD.Default, false, None, Some(Symbol(c)))], None);
            SD.AllSyms(SD.Expressions(d)) <= {c}
  {
    var ps := [SD.Prop(SD.Default, false, None, Some(Symbol(c)))];
    assert SD.PropsExprs(ps[..0]) == [] && SD.PropsExprs(ps) == SD.PropExprs(ps[0]);
  }

  lemma SelectDeps(a: Sym, b: Sym)
    ensures var d := SD.SymbolDef(None, Some(Bin(And, Symbol(a), Symbol(b))), None, [], None);
            SD.AllSyms(SD.Expressions(d)) <= {a, b}
  {
    assert Syms(Symbol(a)) == {a} && Syms(Symbol(b)) == {b};
  }
}
