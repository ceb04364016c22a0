/**
 Dependency propagation over the menu tree: every entry and every property takes on the dependencies of
 its parents, and selects and implies add to the symbols that they name.
 */
module KconfigMenuInherit {
  import opened KconfigExpr
  import opened KconfigMenuTree

  /** How expressions are combined: the dependency of an entry from its parent's and its own, the
      condition of a property of a symbol of some type, and whether an entry belongs below a symbol. */
  datatype Rules = Rules(
    propagate: (Option<Expr>, Option<Expr>) -> Option<Expr>,
    condition: (Option<Expr>, Option<Expr>, SymType) -> Option<Expr>,
    belongs: (Sym, Option<Expr>, Option<Expr>) -> bool)

  // ----- what propagation changes -----

  datatype PropertyKind = Select(target: Sym) | Imply(target: Sym) | Other

  /** A property of a symbol, with the condition under which it holds. */
  datatype Property = Property(kind: PropertyKind, visible: Option<Expr>)

  /** What it changes in a node: its dependency, the condition of its prompt, and the other properties
      that belong to this place. */
  datatype Info = Info(dep: Option<Expr>, visible: Option<Expr>, props: seq<Property>)

  /** What is or-ed to the reverse and implied dependencies of a symbol. */
  datatype Contribution =
    | Selects(target: Sym, selector: Sym, cond: Option<Expr>)
    | Implies(target: Sym, selector: Sym, cond: Option<Expr>)

  /** What is or-ed to its direct dependencies. */
  datatype DirectDep = DirectDep(sym: Sym, dep: Option<Expr>)

  /** What is known of the nodes, and everything or-ed to the symbols' dependencies so far. */
  datatype Moment = Moment(infos: map<Menu, Info>, log: seq<Contribution>, direct: multiset<DirectDep>)

  function Look(d: Moment, m: Menu): Info { if m in d.infos then d.infos[m] else Info(None, None, []) }

  // ----- one entry -----

  /** The dependency that the children of a node inherit. */
  function ChildDep(e: Entry, dep: Option<Expr>): Option<Expr> {
    if e.isChoice && e.sym.Some? then Some(Symbol(e.sym.value)) else dep
  }

  /** The condition of a property of an entry with dependency `dep`. */
  function Condition(e: Entry, dep: Option<Expr>, visible: Option<Expr>, rules: Rules): Option<Expr> {
    rules.condition(dep, visible, if e.sym.Some? then e.sym.value.Type() else Tristate)
  }

  function Conditioned(e: Entry, dep: Option<Expr>, ps: seq<Property>, rules: Rules): seq<Property>
  {
    if ps == [] then []
    else
      var p := ps[|ps| - 1];
      Conditioned(e, dep, ps[..|ps| - 1], rules) + [Property(p.kind, Condition(e, dep, p.visible, rules))]
  }

  lemma {:induction false} ConditionedAt(e: Entry, dep: Option<Expr>, ps: seq<Property>, rules: Rules)
    ensures |Conditioned(e, dep, ps, rules)| == |ps|
    ensures forall i :: 0 <= i < |ps| ==>
              Conditioned(e, dep, ps, rules)[i] == Property(ps[i].kind, Condition(e, dep, ps[i].visible, rules))
  {
    if ps != [] { ConditionedAt(e, dep, ps[..|ps| - 1], rules); }
  }

  /** What a node makes of the dependency it inherits. */
  function Inherit(e: Entry, inherited: Option<Expr>, i: Info, rules: Rules): Info {
    var dep := rules.propagate(inherited, i.dep);
    var visible := if e.hasPrompt then Condition(e, dep, i.visible, rules) else i.visible;
    Info(dep, visible, Conditioned(e, dep, i.props, rules))
  }

  /** What a property of the symbol `sym` adds. */
  function Gift(sym: Sym, p: Property): seq<Contribution> {
    match p.kind
    case Select(t) => [Selects(t, sym, p.visible)]
    case Imply(t) => [Implies(t, sym, p.visible)]
    case Other => []
  }

  function Gifts(sym: Sym, ps: seq<Property>): seq<Contribution> {
    if ps == [] then [] else Gifts(sym, ps[..|ps| - 1]) + Gift(sym, ps[|ps| - 1])
  }

  function NodeGives(e: Entry, ps: seq<Property>): seq<Contribution> {
    if e.sym.None? then [] else Gifts(e.sym.value, ps)
  }

  // ----- the tree -----

  /** After `m` has inherited. */
  ghost function AfterOne(m: Menu, inherited: Option<Expr>, rules: Rules, d: Moment): Moment {
    var i := Inherit(m.entry, inherited, Look(d, m), rules);
    d.(infos := d.infos[m := i], log := d.log + NodeGives(m.entry, i.props))
  }

  /** After the nodes of a row have inherited, one after the other. */
  ghost function AfterRow(t: Tree, inherited: Option<Expr>, rules: Rules, d: Moment): Moment {
    if t.Nil? then d else AfterRow(t.next, inherited, rules, AfterOne(t.menu, inherited, rules, d))
  }

  /** After a symbol has got the dependency of its entry as direct dependency. */
  function AfterDirect(m: Menu, d: Moment): Moment {
    if m.entry.sym.Some? then d.(direct := d.direct + multiset{DirectDep(m.entry.sym.value, Look(d, m).dep)}) else d
  }

  /** After the nodes of a row have been finalized: the children inherit and are finalized in turn, and a
      symbol without children gets its direct dependency. */
  ghost function AfterBelow(t: Tree, rules: Rules, d: Moment): Moment {
    if t.Nil? then d
    else
      var e :=
        if t.list.Nil? then AfterDirect(t.menu, d)
        else AfterBelow(t.list, rules, AfterRow(t.list, ChildDep(t.menu.entry, Look(d, t.menu).dep), rules, d));
      AfterBelow(t.next, rules, e)
  }

  lemma {:induction false} AfterAppend(t: Tree, u: Tree, rules: Rules, d: Moment)
    ensures AfterBelow(Append(t, u), rules, d) == AfterBelow(u, rules, AfterBelow(t, rules, d))
  {
    if t.Node? {
      var e :=
        if t.list.Nil? then AfterDirect(t.menu, d)
        else AfterBelow(t.list, rules, AfterRow(t.list, ChildDep(t.menu.entry, Look(d, t.menu).dep), rules, d));
      AfterAppend(t.next, u, rules, e);
    }
  }

  /** The nodes below those of a row. */
  function Under(t: Tree): set<Menu> { if t.Nil? then {} else Nodes(t.list) + Under(t.next) }

  /** The nodes of a row. */
  function Row(t: Tree): set<Menu> { if t.Nil? then {} else {t.menu} + Row(t.next) }

  lemma {:induction false} RowKeeps(t: Tree, inherited: Option<Expr>, rules: Rules, d: Moment, n: Menu)
    requires n !in Row(t)
    ensures Look(AfterRow(t, inherited, rules, d), n) == Look(d, n)
  {
    if t.Node? { RowKeeps(t.next, inherited, rules, AfterOne(t.menu, inherited, rules, d), n); }
  }

  /** Finalizing a row changes nothing but what is below it. */
  lemma {:induction false} BelowKeeps(t: Tree, rules: Rules, d: Moment, n: Menu)
    requires n !in Under(t)
    ensures Look(AfterBelow(t, rules, d), n) == Look(d, n)
  {
    if t.Node? {
      var e :=
        if t.list.Nil? then AfterDirect(t.menu, d)
        else AfterBelow(t.list, rules, AfterRow(t.list, ChildDep(t.menu.entry, Look(d, t.menu).dep), rules, d));
      if t.list.Node? {
        UnderNodes(t.list);
        RowKeeps(t.list, ChildDep(t.menu.entry, Look(d, t.menu).dep), rules, d, n);
        BelowKeeps(t.list, rules, AfterRow(t.list, ChildDep(t.menu.entry, Look(d, t.menu).dep), rules, d), n);
      }
      BelowKeeps(t.next, rules, e, n);
    }
  }

  lemma {:induction false} UnderNodes(t: Tree)
    ensures Nodes(t) == Row(t) + Under(t)
  {
    if t.Node? { UnderNodes(t.next); }
  }

  function MoreDirect(d: Moment, x: multiset<DirectDep>): Moment { d.(direct := d.direct + x) }

  lemma {:induction false} RowIgnoresDirect(t: Tree, inherited: Option<Expr>, rules: Rules, d: Moment,
                                            x: multiset<DirectDep>)
    ensures AfterRow(t, inherited, rules, MoreDirect(d, x)) == MoreDirect(AfterRow(t, inherited, rules, d), x)
  {
    if t.Node? {
      assert AfterOne(t.menu, inherited, rules, MoreDirect(d, x)) ==
             MoreDirect(AfterOne(t.menu, inherited, rules, d), x);
      RowIgnoresDirect(t.next, inherited, rules, AfterOne(t.menu, inherited, rules, d), x);
    }
  }

  /** Direct dependencies can be added before or after. */
  lemma {:induction false} BelowIgnoresDirect(t: Tree, rules: Rules, d: Moment, x: multiset<DirectDep>)
    ensures AfterBelow(t, rules, MoreDirect(d, x)) == MoreDirect(AfterBelow(t, rules, d), x)
  {
    if t.Node? {
      if t.list.Nil? {
        assert AfterDirect(t.menu, MoreDirect(d, x)) == MoreDirect(AfterDirect(t.menu, d), x);
        BelowIgnoresDirect(t.next, rules, AfterDirect(t.menu, d), x);
      } else {
        var inherited := ChildDep(t.menu.entry, Look(d, t.menu).dep);
        var e := AfterRow(t.list, inherited, rules, d);
        RowIgnoresDirect(t.list, inherited, rules, d, x);
        BelowIgnoresDirect(t.list, rules, e, x);
        BelowIgnoresDirect(t.next, rules, AfterBelow(t.list, rules, e), x);
      }
    }
  }

  /** So a symbol may get its direct dependency after the siblings behind it are finalized. */
  lemma DirectLast(m: Menu, t: Tree, rules: Rules, d: Moment)
    requires m !in Under(t)
    ensures AfterBelow(Node(m, Nil, t), rules, d) == AfterDirect(m, AfterBelow(t, rules, d))
  {
    BelowKeeps(t, rules, d, m);
    if m.entry.sym.Some? {
      var x := multiset{DirectDep(m.entry.sym.value, Look(d, m).dep)};
      BelowIgnoresDirect(t, rules, d, x);
    }
  }

  // ----- handing a dependency down to the children -----

  lemma GiftsSnoc(sym: Sym, ps: seq<Property>, i: nat, log: seq<Contribution>)
    requires i < |ps|
    ensures log + Gifts(sym, ps[..i + 1]) == log + Gifts(sym, ps[..i]) + Gift(sym, ps[i])
  {
    assert ps[..i + 1][..i] == ps[..i];
    var a, b := Gifts(sym, ps[..i]), Gift(sym, ps[i]);
    assert Gifts(sym, ps[..i + 1]) == a + b;
    assert log + (a + b) == log + a + b;
  }

  /** The loop over the properties of an entry. */
  method InheritProps(e: Entry, dep: Option<Expr>, ps: seq<Property>, rules: Rules, log0: seq<Contribution>)
    returns (qs: seq<Property>, log: seq<Contribution>)
    ensures qs == Conditioned(e, dep, ps, rules) && log == log0 + NodeGives(e, qs)
  {
    ghost var after := Conditioned(e, dep, ps, rules);
    ConditionedAt(e, dep, ps, rules);
    qs, log := ps, log0;
    for i := 0 to |ps|
      invariant |qs| == |ps| && forall j :: 0 <= j < |ps| ==> qs[j] == if j < i then after[j] else ps[j]
      invariant log == log0 + NodeGives(e, after[..i])
    {
      var visible := Condition(e, dep, qs[i].visible, rules);
      qs := qs[i := Property(qs[i].kind, visible)];
      if e.sym.Some? {
        GiftsSnoc(e.sym.value, after, i, log0);
        match qs[i].kind {
          case Select(t) => log := log + [Selects(t, e.sym.value, visible)];
          case Imply(t) => log := log + [Implies(t, e.sym.value, visible)];
          case Other => assert log + [] == log;
        }
      }
    }
    assert qs == after && after[..|ps|] == after;
  }

  method InheritOne(menu: Menu, inherited: Option<Expr>, rules: Rules, now0: Moment) returns (now: Moment)
    ensures now == AfterOne(menu, inherited, rules, now0)
  {
    var e, i := menu.entry, Look(now0, menu);
    var dep := rules.propagate(inherited, i.dep);
    var visible := if e.hasPrompt then Condition(e, dep, i.visible, rules) else i.visible;
    var props, log := InheritProps(e, dep, i.props, rules, now0.log);
    now := now0.(infos := now0.infos[menu := Info(dep, visible, props)], log := log);
  }

  /** The loop that hands the dependency of `parent` down to its children. */
  method PropagateToChildren(parent: Menu, inherited: Option<Expr>, rules: Rules, now0: Moment, ghost k: Tree)
    returns (now: Moment)
    requires Linked(parent.list, k, parent, null)
    ensures Linked(parent.list, k, parent, null) && now == AfterRow(k, inherited, rules, now0)
  {
    ghost var links := Links(Nodes(k));
    Freeze(Nodes(k), parent.list, k, parent, null);
    var menu := parent.list;
    ghost var rest := k;
    now := now0;
    while menu != null
      invariant WasLinked(links, menu, rest, parent, null)
      invariant AfterRow(rest, inherited, rules, now) == AfterRow(k, inherited, rules, now0)
      decreases rest
    {
      now := InheritOne(menu, inherited, rules, now);
      rest := rest.next;
      menu := menu.next;
    }
    Thaw(links, parent.list, k, parent, null);
  }
}
