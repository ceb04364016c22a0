/**
 Automatic submenus: which entries belong below the symbol before them.  A row as it was parsed together with
 the rules determines the tree.
 */
module KconfigSubmenus {
  import opened KconfigExpr
  import opened KconfigMenuTree
  import opened KconfigMenuInherit

  /** The condition of a node's prompt; a node without one is always there. */
  function PromptCondition(d: Moment, menu: Menu): Option<Expr> {
    if menu.entry.hasPrompt then Look(d, menu).visible else None
  }

  /** The condition under which a node is shown. */
  function ShownIf(d: Moment, menu: Menu): Option<Expr> {
    if menu.entry.hasPrompt then Look(d, menu).visible else Look(d, menu).dep
  }

  /** Whether `menu` belongs into the submenu of the symbol node `parent`. */
  predicate BelongsBelow(parent: Menu, menu: Menu, rules: Rules, d: Moment) {
    && parent.entry.sym.Some?
    && rules.belongs(parent.entry.sym.value, PromptCondition(d, parent), ShownIf(d, menu))
  }

  ghost predicate RowBelongs(parent: Menu, t: Tree, rules: Rules, d: Moment) {
    t.Node? ==> BelongsBelow(parent, t.menu, rules, d) && RowBelongs(parent, t.next, rules, d)
  }

  lemma {:induction false} RowBelongsAppend(parent: Menu, t: Tree, u: Tree, rules: Rules, d: Moment)
    requires RowBelongs(parent, t, rules, d) && RowBelongs(parent, u, rules, d)
    ensures RowBelongs(parent, Append(t, u), rules, d)
  {
    if t.Node? { RowBelongsAppend(parent, t.next, u, rules, d); }
  }

  /** It does not matter that the entries before `menu` have been finalized. */
  lemma BelongsStill(parent: Menu, menu: Menu, rules: Rules, was: Tree, now0: Moment)
    requires parent !in Nodes(was) && menu !in Nodes(was)
    ensures BelongsBelow(parent, menu, rules, AfterBelow(was, rules, now0)) == BelongsBelow(parent, menu, rules, now0)
  {
    UnderNodes(was);
    BelowKeeps(was, rules, now0, parent);
    BelowKeeps(was, rules, now0, menu);
  }

  // ----- the tree with its submenus -----

  /** The nodes that have children as parsed. */
  function Blocks(t: Tree): set<Menu> {
    if t.Nil? then {} else (if t.list.Node? then {t.menu} else {}) + Blocks(t.list) + Blocks(t.next)
  }

  /** In the row `t` as parsed exactly the nodes in `blocks` have children. */
  ghost predicate AsParsed(t: Tree, blocks: set<Menu>) {
    t.Node? ==> (t.menu in blocks <==> t.list.Node?) && AsParsed(t.list, blocks) && AsParsed(t.next, blocks)
  }

  lemma {:induction false} BlocksIn(t: Tree)
    ensures Blocks(t) <= Nodes(t)
  {
    if t.Node? {
      BlocksIn(t.list);
      BlocksIn(t.next);
    }
  }

  lemma {:induction false} BlocksParsed(t: Tree, blocks: set<Menu>)
    requires Proper(t) && forall n :: n in Nodes(t) ==> (n in blocks <==> n in Blocks(t))
    ensures AsParsed(t, blocks)
  {
    if t.Node? {
      NodeProper(t);
      BlocksIn(t.list);
      BlocksIn(t.next);
      BlocksParsed(t.list, blocks);
      BlocksParsed(t.next, blocks);
    }
  }

  lemma {:induction false} ParsedParts(t: Tree, u: Tree, blocks: set<Menu>)
    requires AsParsed(Append(t, u), blocks)
    ensures AsParsed(t, blocks) && AsParsed(u, blocks)
  {
    if t.Node? { ParsedParts(t.next, u, blocks); }
  }

  /** The nodes that keep their children when all submenus are dissolved. */
  function Among(blocks: set<Menu>): Menu -> bool { (m: Menu) => m in blocks }

  /** Every node that was parsed without children has in its submenu only entries that belong there, and the
      entry after its submenu does not; `end` is the entry after the row, where there is one. */
  ghost predicate SubmenusRight(t: Tree, end: Menu?, blocks: set<Menu>, rules: Rules, d: Moment) {
    t.Node? ==>
      var after := First(t.next, end);
      && (t.menu !in blocks ==>
            && RowBelongs(t.menu, t.list, rules, d) && (t.menu.entry.sym.None? ==> t.list.Nil?)
            && (after != null ==> !BelongsBelow(t.menu, after, rules, d)))
      && SubmenusRight(t.list, if t.menu in blocks then null else after, blocks, rules, d)
      && SubmenusRight(t.next, end, blocks, rules, d)
  }

  lemma {:induction false} SubmenusAppend(t: Tree, u: Tree, end: Menu?, blocks: set<Menu>, rules: Rules, d: Moment)
    ensures SubmenusRight(Append(t, u), end, blocks, rules, d) <==>
            SubmenusRight(t, First(u, end), blocks, rules, d) && SubmenusRight(u, end, blocks, rules, d)
  {
    if t.Node? { SubmenusAppend(t.next, u, end, blocks, rules, d); }
  }

  /** What is recorded of the nodes is the same. */
  ghost predicate SameLook(s: set<Menu>, d: Moment, e: Moment) { forall n :: n in s ==> Look(d, n) == Look(e, n) }

  lemma {:induction false} RowBelongsSame(parent: Menu, t: Tree, rules: Rules, d: Moment, e: Moment)
    requires RowBelongs(parent, t, rules, d) && SameLook(Row(t) + {parent}, d, e)
    ensures RowBelongs(parent, t, rules, e)
  {
    if t.Node? { RowBelongsSame(parent, t.next, rules, d, e); }
  }

  lemma {:induction false} SubmenusSame(t: Tree, end: Menu?, blocks: set<Menu>, rules: Rules, d: Moment, e: Moment)
    requires SubmenusRight(t, end, blocks, rules, d) && SameLook(Nodes(t), d, e)
    requires end != null ==> Look(d, end) == Look(e, end)
    ensures SubmenusRight(t, end, blocks, rules, e)
  {
    if t.Node? {
      var after := First(t.next, end);
      UnderNodes(t.list);
      assert t.next.Node? ==> t.next.menu in Nodes(t.next);
      if t.menu !in blocks { RowBelongsSame(t.menu, t.list, rules, d, e); }
      SubmenusSame(t.list, if t.menu in blocks then null else after, blocks, rules, d, e);
      SubmenusSame(t.next, end, blocks, rules, d, e);
    }
  }

  // ----- growing the tree -----

  /** The first node of the row `t` has taken the entries `taken` into its submenu, with `g` below it before
      anything is flattened. */
  ghost predicate Grown(t: Tree, taken: Tree, g: Tree, end: Menu?, blocks: set<Menu>, rules: Rules, d: Moment) {
    && t.Node? && Dissolved(One(t.menu, g), Among(blocks)) == Node(t.menu, t.list, taken)
    && SubmenusRight(One(t.menu, g), end, blocks, rules, d)
  }

  /** The entries `was` of a row are finalized and have become the row `done`, or `g` before flattening. */
  ghost predicate Growing(was: Tree, done: Tree, g: Tree, end: Menu?, blocks: set<Menu>, rules: Rules, d: Moment) {
    done == FlatLists(g) && Dissolved(g, Among(blocks)) == was && SubmenusRight(g, end, blocks, rules, d)
  }

  lemma GrowStep(was: Tree, done: Tree, g: Tree, rest: Tree, taken: Tree, h: Tree, end: Menu?, blocks: set<Menu>,
                 rules: Rules, d: Moment, e: Moment)
    requires rest.Node? && Growing(was, done, g, rest.menu, blocks, rules, d)
    requires Grown(rest, taken, h, end, blocks, rules, e) && SameLook(Nodes(was) + {rest.menu}, d, e)
    ensures Growing(Append(was, Node(rest.menu, rest.list, taken)),
                    Append(done, One(rest.menu, Dissolved(h, Kept()))), Append(g, One(rest.menu, h)), end,
                    blocks, rules, e)
  {
    var one := One(rest.menu, h);
    DissolvedAppend(g, one, Among(blocks));
    FlatListsAppend(g, one);
    DissolvedOrder(g, Among(blocks));
    SubmenusSame(g, rest.menu, blocks, rules, d, e);
    SubmenusAppend(g, one, end, blocks, rules, e);
  }

  lemma {:induction false} RowDissolved(t: Tree, keeps: Menu -> bool)
    ensures Row(t) <= Row(Dissolved(t, keeps))
  {
    if t.Node? {
      RowDissolved(t.next, keeps);
      RowAppend(Dissolved(t.list, keeps), Dissolved(t.next, keeps));
    }
  }

  lemma {:induction false} RowAppend(t: Tree, u: Tree)
    ensures Row(Append(t, u)) == Row(t) + Row(u)
  {
    if t.Node? { RowAppend(t.next, u); }
  }

  lemma {:induction false} RowUnderApart(t: Tree)
    requires Proper(t)
    ensures Row(t) !! Under(t)
  {
    if t.Node? {
      NodeProper(t);
      UnderNodes(t.next);
      RowUnderApart(t.next);
    }
  }

  lemma {:induction false} RowBelongsFlat(parent: Menu, t: Tree, rules: Rules, d: Moment)
    ensures RowBelongs(parent, FlatLists(t), rules, d) == RowBelongs(parent, t, rules, d)
  {
    if t.Node? { RowBelongsFlat(parent, t.next, rules, d); }
  }

  /** A symbol that was parsed without children has its submenu. */
  lemma GrowSubmenu(parent: Menu, was: Tree, done: Tree, g: Tree, end: Menu?, blocks: set<Menu>, rules: Rules,
                    d: Moment, e: Moment)
    requires Growing(was, done, g, end, blocks, rules, e) && Proper(was) && parent !in Nodes(was) + blocks
    requires parent.entry.sym.Some? && RowBelongs(parent, done, rules, d) && e.infos == AfterBelow(was, rules, d).infos
    requires end != null ==> end !in Nodes(was) && !BelongsBelow(parent, end, rules, d)
    ensures Dissolved(One(parent, g), Among(blocks)) == Node(parent, Nil, was)
    ensures SubmenusRight(One(parent, g), end, blocks, rules, e)
  {
    UnderNodes(was);
    RowUnderApart(was);
    RowDissolved(g, Among(blocks));
    RowBelongsFlat(parent, g, rules, d);
    forall n | n in Row(g) + {parent} || n == end
      ensures Look(d, n) == Look(e, n)
    {
      BelowKeeps(was, rules, d, n);
    }
    RowBelongsSame(parent, g, rules, d, e);
    AppendAssociative(was, Nil, Nil);
  }

  // ----- the tree is determined -----

  /** There is only one tree with right submenus that was parsed as it was. */
  lemma {:induction false} SubmenusUnique(x: Tree, y: Tree, end: Menu?, blocks: set<Menu>, rules: Rules, d: Moment)
    requires Dissolved(x, Among(blocks)) == Dissolved(y, Among(blocks))
    requires SubmenusRight(x, end, blocks, rules, d) && SubmenusRight(y, end, blocks, rules, d)
    ensures x == y
    decreases |Preorder(x)|, 0
  {
    if x.Node? {
      assert y.Node? && x.menu == y.menu;
      Shorter(x);
      if x.menu in blocks {
        SubmenusUnique(x.list, y.list, null, blocks, rules, d);
        SubmenusUnique(x.next, y.next, end, blocks, rules, d);
      } else {
        SameSplit(x.menu, x.list, x.next, y.list, y.next, end, blocks, rules, d);
      }
    }
  }

  /** A row with right submenus whose first part `x` belongs below `parent`, while the entry after it does not. */
  ghost predicate Split(parent: Menu, x: Tree, r: Tree, end: Menu?, blocks: set<Menu>, rules: Rules, d: Moment) {
    && RowBelongs(parent, x, rules, d) && (First(r, end) != null ==> !BelongsBelow(parent, First(r, end), rules, d))
    && SubmenusRight(x, First(r, end), blocks, rules, d) && SubmenusRight(r, end, blocks, rules, d)
  }

  /** There is only one way to split it. */
  lemma {:induction false} SameSplit(parent: Menu, x: Tree, r: Tree, y: Tree, s: Tree, end: Menu?, blocks: set<Menu>,
                                     rules: Rules, d: Moment)
    requires Append(Dissolved(x, Among(blocks)), Dissolved(r, Among(blocks))) ==
             Append(Dissolved(y, Among(blocks)), Dissolved(s, Among(blocks)))
    requires Split(parent, x, r, end, blocks, rules, d) && Split(parent, y, s, end, blocks, rules, d)
    ensures x == y && r == s
    decreases |Preorder(x)| + |Preorder(r)|, 1
  {
    if x.Nil? && y.Nil? {
      SubmenusUnique(r, s, end, blocks, rules, d);
    } else if x.Node? && y.Node? {
      Shorter(x);
      if x.menu in blocks {
        SubmenusUnique(x.list, y.list, null, blocks, rules, d);
      } else {
        SplitInside(x, r, end, blocks, rules, d);
        SplitInside(y, s, end, blocks, rules, d);
        PreorderAppend(x.next, r);
        SameSplit(x.menu, x.list, Append(x.next, r), y.list, Append(y.next, s), end, blocks, rules, d);
        DissolvedAppend(x.next, r, Among(blocks));
        DissolvedAppend(y.next, s, Among(blocks));
      }
      SameSplit(parent, x.next, r, y.next, s, end, blocks, rules, d);
    }
  }

  lemma SplitInside(x: Tree, r: Tree, end: Menu?, blocks: set<Menu>, rules: Rules, d: Moment)
    requires x.Node? && x.menu !in blocks
    requires SubmenusRight(x, First(r, end), blocks, rules, d) && SubmenusRight(r, end, blocks, rules, d)
    ensures Split(x.menu, x.list, Append(x.next, r), end, blocks, rules, d)
    ensures Append(Dissolved(x, Among(blocks)), Dissolved(r, Among(blocks))) ==
            Node(x.menu, Nil, Append(Dissolved(x.list, Among(blocks)), Dissolved(Append(x.next, r), Among(blocks))))
  {
    SubmenusAppend(x.next, r, end, blocks, rules, d);
    DissolvedAppend(x.next, r, Among(blocks));
    AppendAssociative(Dissolved(x.list, Among(blocks)), Dissolved(x.next, Among(blocks)), Dissolved(r, Among(blocks)));
  }
}
