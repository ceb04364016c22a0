/**
 The symbol table, and the recursive-dependency check (`sym_check_deps`): a depth-first search that
 colours symbols with SYMBOL_CHECK and SYMBOL_CHECKED and keeps the current path on a stack.
 Choice groups are not modelled.
 */
module KconfigSymbolDeps {
  import opened KconfigExpr

  datatype PropKind = Prompt | Comment | MenuProp | Default | Select | Imply | Range | Definition

  /** `text` is present on prompts, menus and comments; `expr` is the value of a default. */
  datatype Prop = Prop(kind: PropKind, hasText: bool, visible: Option<Expr>, expr: Option<Expr>)

  datatype SymbolDef = SymbolDef(
    dirDep: Option<Expr>,
    revDep: Option<Expr>,
    implied: Option<Expr>,
    props: seq<Prop>,
    user: Option<Tri>)

  type Table = map<Sym, SymbolDef>

  // ----- the dependency graph -----

  /** The expressions of a property that the check walks. */
  function PropExprs(p: Prop): seq<Option<Expr>> {
    if p.kind == Select || p.kind == Imply then []
    else if p.kind == Default then [p.visible, p.expr]
    else [p.visible]
  }

  function PropsExprs(ps: seq<Prop>): seq<Option<Expr>> {
    if ps == [] then [] else PropsExprs(ps[..|ps| - 1]) + PropExprs(ps[|ps| - 1])
  }

  /** All expressions of a symbol, in the order in which they are walked. */
  function Expressions(d: SymbolDef): seq<Option<Expr>> {
    [d.dirDep, d.revDep, d.implied] + PropsExprs(d.props)
  }

  function AllSyms(es: seq<Option<Expr>>): set<Sym> {
    set i, s | 0 <= i < |es| && s in SymsOpt(es[i]) :: s
  }

  /** The symbols a symbol's value depends on. */
  function Deps(g: Table, s: Sym): set<Sym> {
    if s !in g then {} else AllSyms(Expressions(g[s]))
  }

  /** Every symbol that is mentioned is in the table. */
  ghost predicate Closed(g: Table) {
    forall s {:trigger Deps(g, s)} :: s in g ==> Deps(g, s) <= g.Keys
  }

  ghost predicate IsPath(g: Table, p: seq<Sym>) {
    |p| > 0 && forall i {:trigger Deps(g, p[i])} :: 0 <= i < |p| - 1 ==> p[i + 1] in Deps(g, p[i])
  }

  ghost predicate IsCycle(g: Table, c: seq<Sym>) {
    IsPath(g, c) && c[0] in Deps(g, c[|c| - 1])
  }

  function Elements(s: seq<Sym>): set<Sym> { set x | x in s }

  /** Every symbol in the sequence comes after everything it depends on. */
  ghost predicate Topological(g: Table, order: seq<Sym>) {
    && (forall i, j :: 0 <= i < j < |order| ==> order[i] != order[j])
    && (forall i {:trigger Deps(g, order[i])} :: 0 <= i < |order| ==> Deps(g, order[i]) <= Elements(order[..i]))
  }

  ghost function Index(order: seq<Sym>, s: Sym): (i: nat)
    requires s in order
    ensures i < |order| && order[i] == s
  {
    var i :| 0 <= i < |order| && order[i] == s;
    i
  }

  lemma {:induction false} PathDescends(g: Table, order: seq<Sym>, p: seq<Sym>, i: nat, j: nat)
    requires Topological(g, order) && IsPath(g, p) && p[0] in order && i <= j < |p|
    ensures p[i] in order && p[j] in order
    ensures i < j ==> Index(order, p[j]) < Index(order, p[i])
    decreases j
  {
    if j > 0 {
      PathDescends(g, order, p, if i < j then i else i - 1, j - 1);
      var k := Index(order, p[j - 1]);
      assert p[j - 1 + 1] in Deps(g, p[j - 1]);
      assert p[j] in Elements(order[..k]);
    }
  }

  /** From a symbol of a topological order no path runs into a cycle. */
  lemma NoCycleReachable(g: Table, order: seq<Sym>, p: seq<Sym>, i: nat, j: nat)
    requires Topological(g, order) && IsPath(g, p) && p[0] in order && i < j < |p|
    ensures p[i] != p[j]
  {
    PathDescends(g, order, p, i, j);
  }

  lemma NoCycleIn(g: Table, order: seq<Sym>, c: seq<Sym>)
    requires Topological(g, order) && c != [] && c[0] in order
    ensures !IsCycle(g, c)
  {
    if IsCycle(g, c) {
      var p := c + [c[0]];
      forall i | 0 <= i < |p| - 1
        ensures p[i + 1] in Deps(g, p[i])
      {
        if i < |c| - 1 { assert c[i + 1] in Deps(g, c[i]); }
      }
      NoCycleReachable(g, order, p, 0, |c|);
    }
  }

  lemma PushPath(g: Table, p: seq<Sym>, s: Sym)
    requires p != [] ==> IsPath(g, p) && s in Deps(g, p[|p| - 1])
    ensures IsPath(g, p + [s]) && Elements(p + [s]) == Elements(p) + {s}
  {
    var q := p + [s];
    forall i | 0 <= i < |q| - 1
      ensures q[i + 1] in Deps(g, q[i])
    {
      if i < |p| - 1 { assert p[i + 1] in Deps(g, p[i]); }
    }
  }

  lemma AppendTopological(g: Table, order: seq<Sym>, s: Sym)
    requires Topological(g, order) && s !in order && Deps(g, s) <= Elements(order)
    ensures Topological(g, order + [s]) && Elements(order + [s]) == Elements(order) + {s}
  {
    var q := order + [s];
    forall i | 0 <= i < |q|
      ensures Deps(g, q[i]) <= Elements(q[..i])
    {
      if i < |order| {
        assert q[..i] == order[..i] && Deps(g, order[i]) <= Elements(order[..i]);
      } else {
        assert q[..i] == order;
      }
    }
  }

  lemma PopSets(below: seq<Sym>, s: Sym, done: set<Sym>)
    requires s !in below && Elements(below + [s]) !! done
    ensures Elements(below + [s]) == Elements(below) + {s} && Elements(below + [s]) - {s} == Elements(below)
    ensures Elements(below + [s]) + done == Elements(below) + (done + {s}) && Elements(below) !! done + {s}
  {
  }

  lemma PopOrder(g: Table, below: seq<Sym>, s: Sym, checked: set<Sym>, order: seq<Sym>)
    requires Topological(g, order) && s !in below && Deps(g, s) <= Elements(order)
    requires checked == Elements(below + [s]) + Elements(order) && Elements(below + [s]) !! Elements(order)
    ensures Topological(g, order + [s]) && checked == Elements(below) + Elements(order + [s])
            && Elements(below) !! Elements(order + [s])
  {
    PopSets(below, s, Elements(order));
    AppendTopological(g, order, s);
  }

  ghost predicate Acyclic(g: Table) {
    !exists c :: IsCycle(g, c)
  }

  // ----- sym_check_deps -----

  class DepChecker {
    const g: Table
    var check: set<Sym>     // SYMBOL_CHECK: on the stack
    var checked: set<Sym>   // SYMBOL_CHECKED: visited
    var stack: seq<Sym>
    var report: seq<Sym>    // the stack entries last printed as a recursive dependency
    ghost var clean: bool   // no recursive dependency was found so far
    ghost var order: seq<Sym>

    ghost predicate StackOk()
      reads this
    {
      && Closed(g) && checked <= g.Keys
      && check == Elements(stack) && check <= checked
      && (stack != [] ==> IsPath(g, stack))
    }

    ghost predicate Inv()
      reads this
    {
      StackOk() && Ordered()
    }

    constructor (g: Table)
      requires Closed(g)
      ensures this.g == g && Inv() && stack == [] && clean && order == [] && checked == {}
    {
      this.g := g;
      check, checked, stack, report := {}, {}, [], [];
      clean, order := true, [];
    }

    /** What every call of the search keeps and what its result means. */
    twostate predicate Searched(new r: Option<Sym>)
      reads this
    {
      && Inv() && stack == old(stack) && check == old(check) && old(checked) <= checked
      && clean == (old(clean) && r.None?)
      && old(order) <= order
      && (r.Some? ==> report != [] && report[0] == r.value && IsCycle(g, report))
    }

    method CheckDeps(s: Sym) returns (r: Option<Sym>)
      requires Inv() && s in g
      requires stack != [] ==> s in Deps(g, stack[|stack| - 1])
      modifies this
      ensures Searched(r)
      ensures s in checked && (r.None? ==> s !in check)
      decreases g.Keys - checked, 1
    {
      if s in check {
        Report(s);
        return Some(s);
      }
      if s in checked {
        return None;
      }
      r := Visit(s);
    }

    method Visit(s: Sym) returns (r: Option<Sym>)
      requires Inv() && s in g && s !in checked
      requires stack != [] ==> s in Deps(g, stack[|stack| - 1])
      modifies this
      ensures Searched(r) && s in checked && s !in check
      decreases g.Keys - checked, 0
    {
      PushPath(g, stack, s);
      check, checked, stack := check + {s}, checked + {s}, stack + [s];
      r := CheckSymDeps(s);
      Pop(s, old(stack));
    }

    /** All checked symbols that are not on the stack are in a topological order. */
    ghost predicate Ordered()
      reads this
    {
      clean ==> Topological(g, order) && checked == check + Elements(order) && check !! Elements(order)
    }

    /** Takes `s` off the stack; if there was no recursive dependency, it comes last in the order. */
    method Pop(s: Sym, ghost below: seq<Sym>)
      requires stack == below + [s] && s !in below && check == Elements(stack) && Ordered()
      requires clean ==> Deps(g, s) <= Elements(order)
      modifies `check, `stack, `order
      ensures stack == below && check == Elements(below) && Ordered() && old(order) <= order
    {
      PopSets(below, s, {});
      if clean {
        PopOrder(g, below, s, checked, order);
        order := order + [s];
      }
      assert stack[..|stack| - 1] == below;
      stack := stack[..|stack| - 1];
      check := check - {s};
    }

    /** `sym_check_print_recursive`: the stack from `s` to the top. */
    method Report(s: Sym)
      requires StackOk() && s in check && s in Deps(g, stack[|stack| - 1])
      modifies `report, `clean
      ensures !clean && report != [] && report[0] == s && IsCycle(g, report)
    {
      var k := |stack| - 1;
      while stack[k] != s
        invariant 0 <= k < |stack|
        invariant s in stack[..k + 1]
        decreases k
      {
        k := k - 1;
      }
      report := stack[k..];
      clean := false;
    }

    method CheckOpt(e: Option<Expr>) returns (r: Option<Sym>)
      requires Inv() && stack != [] && SymsOpt(e) <= Deps(g, stack[|stack| - 1])
      modifies this
      ensures Searched(r)
      ensures r.None? ==> SymsOpt(e) <= checked - check
      decreases g.Keys - checked, 3
    {
      if e.None? {
        r := None;
      } else {
        r := CheckExprDeps(e.value);
      }
    }

    method CheckExprDeps(e: Expr) returns (r: Option<Sym>)
      requires Inv() && stack != [] && Syms(e) <= Deps(g, stack[|stack| - 1])
      modifies this
      ensures Searched(r)
      ensures r.None? ==> Syms(e) <= checked - check
      decreases g.Keys - checked, 2, e
    {
      assert stack[|stack| - 1] in check;
      match e
      case Bin(_, a, b) =>
        r := CheckExprDeps(a);
        if r.None? {
          r := CheckExprDeps(b);
        }
      case Not(a) =>
        r := CheckExprDeps(a);
      case Cmp(_, a, b) =>
        r := CheckDeps(a);
        if r.None? {
          r := CheckDeps(b);
        }
      case Symbol(s) =>
        r := CheckDeps(s);
    }

    method CheckSymDeps(s: Sym) returns (r: Option<Sym>)
      requires Inv() && stack != [] && s == stack[|stack| - 1] && s in g
      modifies this
      ensures Searched(r)
      ensures r.None? ==> Deps(g, s) <= checked - check
      decreases g.Keys - checked, 4
    {
      var es := Expressions(g[s]);
      r := None;
      for i := 0 to |es|
        invariant Searched(r) && r.None?
        invariant forall j :: 0 <= j < i ==> SymsOpt(es[j]) <= checked - check
      {
        r := CheckOpt(es[i]);
        if r.Some? { return; }
      }
    }
  }

  /** The check of the whole table: it reports no error exactly when no symbol depends on itself. */
  method CheckAll(g: Table, syms: seq<Sym>) returns (errors: nat, ghost order: seq<Sym>)
    requires Closed(g) && Elements(syms) == g.Keys
    ensures errors == 0 <==> Acyclic(g)
    ensures errors == 0 ==> Topological(g, order) && Elements(order) == g.Keys
  {
    var c := new DepChecker(g);
    errors := 0;
    for i := 0 to |syms|
      invariant c.Inv() && c.g == g && c.stack == [] && c.clean == (errors == 0)
      invariant errors > 0 ==> !Acyclic(g)
      invariant Elements(syms[..i]) <= c.checked
    {
      assert Elements(syms[..i + 1]) == Elements(syms[..i]) + {syms[i]};
      var r := c.CheckDeps(syms[i]);
      if r.Some? {
        errors := errors + 1;
      }
    }
    order := c.order;
    assert syms[..|syms|] == syms;
    if errors == 0 {
      forall p | IsCycle(g, p)
        ensures false
      {
        assert p[0] in Deps(g, p[|p| - 1]);
        NoCycleIn(g, order, p);
      }
    }
  }
}
