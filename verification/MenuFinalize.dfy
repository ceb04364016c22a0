/**
 `menu_finalize`: dependencies are handed down, children are finalized, entries that depend on the
 symbol before them become its submenu, and blocks without a prompt are flattened.
 */
module KconfigMenuFinalize {
  import opened KconfigMenuTree
  import opened KconfigMenuInherit
  import opened KconfigSubmenus

  // ----- one step of finalizing a row -----

  /** A node with its children, and the siblings that go with it. */
  function Piece(t: Tree, taken: Tree): Tree
    requires t.Node?
  {
    Node(t.menu, t.list, taken)
  }

  /** The siblings `taken` after the first node of a row `t` go below it, which gives the row `u`; no
      node is lost, doubled or moved in the order. */
  ghost predicate Regrouped(t: Tree, u: Tree, taken: Tree) {
    && t.Node? && u.Node? && u.menu == t.menu && t.next == Append(taken, u.next)
    && Rearranged(Piece(t, taken), One(u.menu, u.list))
  }

  /** This is what finalizing the first node does to a row. */
  ghost predicate Reshaped(t: Tree, u: Tree, taken: Tree) {
    Regrouped(t, u, taken) && AllFlat(u.list)
  }

  lemma RearrangeBoth(t: Tree, u: Tree, t': Tree, u': Tree)
    requires Rearranged(t, u) && Rearranged(t', u')
    ensures Rearranged(Append(t, t'), Append(u, u'))
  {
    PreorderAppend(t, t');
    PreorderAppend(u, u');
  }

  lemma PieceOf(was: Tree, rest: Tree, taken: Tree, v: Tree)
    requires rest.Node? && rest.next == Append(taken, v)
    ensures Append(Append(was, Piece(rest, taken)), v) == Append(was, rest)
    ensures Append(Piece(rest, taken), v) == rest
  {
    AppendAssociative(was, Piece(rest, taken), v);
  }

  lemma RegroupedOrder(t: Tree, u: Tree, taken: Tree)
    requires Regrouped(t, u, taken)
    ensures Rearranged(t, u)
  {
    PieceOf(Nil, t, taken, u.next);
    RearrangeBoth(Piece(t, taken), One(u.menu, u.list), u.next, u.next);
    assert Append(One(u.menu, u.list), u.next) == u;
  }

  lemma OneOrder(m: Menu, k: Tree, k': Tree)
    requires Rearranged(k, k')
    ensures Rearranged(One(m, k), One(m, k'))
  {
  }

  lemma ShapeStep(was: Tree, done: Tree, rest: Tree, u: Tree, taken: Tree)
    requires Rearranged(was, done) && FlatBelow(done) && Reshaped(rest, u, taken)
    ensures Rearranged(Append(was, Piece(rest, taken)), Append(done, One(u.menu, u.list)))
    ensures FlatBelow(Append(done, One(u.menu, u.list)))
    ensures |Preorder(u.next)| < |Preorder(rest)|
  {
    RearrangeBoth(was, done, Piece(rest, taken), One(u.menu, u.list));
    assert FlatBelow(One(u.menu, u.list));
    FlatAppend(done, One(u.menu, u.list));
    Shorter(rest);
    PreorderAppend(taken, u.next);
  }

  /** How far a loop over the row `k` has come: `was` of it is finalized and has become `done`. */
  ghost predicate Underway(k: Tree, was: Tree, done: Tree, rest: Tree) {
    && Proper(k) && k == Append(was, rest) && Rearranged(was, done) && FlatBelow(done)
    && |Preorder(rest)| <= |Preorder(k)|
  }

  lemma UnderwayStep(k: Tree, was: Tree, done: Tree, rest: Tree, u: Tree, taken: Tree)
    requires Underway(k, was, done, rest) && Reshaped(rest, u, taken)
    ensures Underway(k, Append(was, Piece(rest, taken)), Append(done, One(u.menu, u.list)), u.next)
    ensures |Preorder(u.next)| < |Preorder(rest)|
    ensures Proper(Append(was, Piece(rest, taken))) && Nodes(Append(was, Piece(rest, taken))) <= Nodes(k)
  {
    PieceOf(was, rest, taken, u.next);
    ShapeStep(was, done, rest, u, taken);
    AppendProper(Append(was, Piece(rest, taken)), u.next);
  }

  /** What is left of the row is apart from what is done. */
  lemma UnderwayApart(k: Tree, was: Tree, done: Tree, rest: Tree)
    requires Underway(k, was, done, rest)
    ensures Proper(rest) && Nodes(rest) <= Nodes(k) && Nodes(done) <= Nodes(k) && Nodes(done) !! Nodes(rest)
    ensures Nodes(was) == Nodes(done)
  {
    AppendProper(was, rest);
    SameNodes(was, done);
  }

  // ----- menu_finalize -----

  /** Finalizes the first node of the row `t`. */
  method Finalize(parent: Menu, rules: Rules, now0: Moment, ghost t: Tree, ghost above: Menu?, ghost blocks: set<Menu>)
    returns (now: Moment, ghost u: Tree, ghost taken: Tree, ghost g: Tree)
    requires t.Node? && t.menu == parent && Linked(parent, t, above, null) && Proper(t) && AsParsed(t, blocks)
    modifies Nodes(t)
    ensures Linked(parent, u, above, null) && Reshaped(t, u, taken)
    ensures now == AfterBelow(Piece(t, taken), rules, now0)
    ensures Grown(t, taken, g, First(u.next, null), blocks, rules, now) && u.list == Dissolved(g, Kept())
    decreases |Preorder(t)|, 3
  {
    ghost var mid;
    now, mid, taken, g := FinalizeBelow(parent, rules, now0, t, above, blocks);
    RegroupedOrder(t, mid, taken);
    SameNodes(t, mid);
    u := FlattenNode(parent, mid, above);
    FlattenLater(g);
    OneOrder(parent, mid.list, u.list);
  }

  /** Its children are finalized, or the entries after it that depend on it. */
  method FinalizeBelow(parent: Menu, rules: Rules, now0: Moment, ghost t: Tree, ghost above: Menu?,
                       ghost blocks: set<Menu>)
    returns (now: Moment, ghost u: Tree, ghost taken: Tree, ghost g: Tree)
    requires t.Node? && t.menu == parent && Linked(parent, t, above, null) && Proper(t) && AsParsed(t, blocks)
    modifies Nodes(t)
    ensures Linked(parent, u, above, null) && Regrouped(t, u, taken) && FlatBelow(u.list)
    ensures now == AfterBelow(Piece(t, taken), rules, now0)
    ensures Grown(t, taken, g, First(u.next, null), blocks, rules, now) && u.list == FlatLists(g)
    decreases |Preorder(t)|, 2
  {
    if parent.list != null {
      now, u, g := FinalizeWithChildren(parent, rules, now0, t, above, blocks);
      taken := Nil;
    } else if parent.entry.sym.Some? {
      now, u, taken, g := MakeSubmenu(parent, rules, now0, t, above, blocks);
    } else {
      now, u, taken, g := now0, t, Nil, Nil;
    }
  }

  /** The children inherit, then each is finalized in turn. */
  method FinalizeWithChildren(parent: Menu, rules: Rules, now0: Moment, ghost t: Tree, ghost above: Menu?,
                              ghost blocks: set<Menu>)
    returns (now: Moment, ghost u: Tree, ghost g: Tree)
    requires t.Node? && t.menu == parent && t.list.Node? && Linked(parent, t, above, null) && Proper(t)
    requires AsParsed(t, blocks)
    modifies Nodes(t.list)
    ensures Linked(parent, u, above, null) && Regrouped(t, u, Nil) && FlatBelow(u.list)
    ensures now == AfterBelow(One(parent, t.list), rules, now0)
    ensures Grown(t, Nil, g, First(u.next, null), blocks, rules, now) && u.list == FlatLists(g)
    decreases |Preorder(t)|, 0
  {
    NodeProper(t);
    Shorter(t);
    ghost var links := Links(Nodes(t.next));
    Freeze(Nodes(t.next), parent.next, t.next, above, null);
    var inherited := ChildDep(parent.entry, Look(now0, parent).dep);
    now := PropagateToChildren(parent, inherited, rules, now0, t.list);
    ghost var k;
    now, k, g := FinalizeChildren(parent, rules, now, t.list, blocks);
    Thaw(links, parent.next, t.next, above, null);
    OneOrder(parent, t.list, k);
    u := Node(parent, k, t.next);
  }

  /** Finalizes the first node of `rest`; the row `done` before it is not touched. */
  method FinalizeNext(menu: Menu, rules: Rules, now0: Moment, ghost rest: Tree, ghost above: Menu?,
                      ghost first: Menu?, ghost done: Tree, ghost parent: Menu?, ghost blocks: set<Menu>)
    returns (now: Moment, ghost u: Tree, ghost taken: Tree, ghost g: Tree)
    requires rest.Node? && rest.menu == menu && Linked(menu, rest, above, null) && Proper(rest)
    requires AsParsed(rest, blocks)
    requires Linked(first, done, parent, menu) && Nodes(done) !! Nodes(rest)
    modifies Nodes(rest)
    ensures Linked(menu, u, above, null) && Reshaped(rest, u, taken) && Linked(first, done, parent, menu)
    ensures now == AfterBelow(Piece(rest, taken), rules, now0)
    ensures Grown(rest, taken, g, First(u.next, null), blocks, rules, now) && u.list == Dissolved(g, Kept())
    decreases |Preorder(rest)|, 4
  {
    ghost var links := Links(Nodes(done));
    Freeze(Nodes(done), first, done, parent, menu);
    now, u, taken, g := Finalize(menu, rules, now0, rest, above, blocks);
    Thaw(links, first, done, parent, menu);
  }

  /** One more node of a row has its submenu. */
  lemma GrowNext(k: Tree, was: Tree, done: Tree, g: Tree, rest: Tree, u: Tree, taken: Tree, h: Tree,
                 blocks: set<Menu>, rules: Rules, d: Moment, e: Moment)
    requires Underway(k, was, done, rest) && Reshaped(rest, u, taken) && AsParsed(rest, blocks)
    requires Growing(was, done, g, First(rest, null), blocks, rules, d)
    requires Grown(rest, taken, h, First(u.next, null), blocks, rules, e) && u.list == Dissolved(h, Kept())
    requires e == AfterBelow(Piece(rest, taken), rules, d)
    ensures Growing(Append(was, Piece(rest, taken)), Append(done, One(u.menu, u.list)), Append(g, One(u.menu, h)),
                    First(u.next, null), blocks, rules, e)
    ensures AsParsed(u.next, blocks)
  {
    UnderwayApart(k, was, done, rest);
    NodeProper(rest);
    AppendProper(taken, u.next);
    UnderNodes(taken);
    forall n | n in Nodes(was) + {rest.menu}
      ensures Look(d, n) == Look(e, n)
    {
      BelowKeeps(Piece(rest, taken), rules, d, n);
    }
    GrowStep(was, done, g, rest, taken, h, First(u.next, null), blocks, rules, d, e);
    ParsedParts(taken, u.next, blocks);
  }

  /** The loop over the children. */
  method FinalizeChildren(parent: Menu, rules: Rules, now0: Moment, ghost k: Tree, ghost blocks: set<Menu>)
    returns (now: Moment, ghost k': Tree, ghost g: Tree)
    requires Linked(parent.list, k, parent, null) && Proper(k) && parent !in Nodes(k) && AsParsed(k, blocks)
    modifies Nodes(k)
    ensures Linked(parent.list, k', parent, null) && Rearranged(k, k') && FlatBelow(k')
    ensures now == AfterBelow(k, rules, now0) && Growing(k, k', g, null, blocks, rules, now)
    decreases |Preorder(k)|, 5
  {
    var menu := parent.list;
    ghost var was, done, rest := Nil, Nil, k;
    now, g := now0, Nil;
    while menu != null
      invariant Linked(parent.list, done, parent, menu) && Linked(menu, rest, parent, null)
      invariant Underway(k, was, done, rest) && now == AfterBelow(was, rules, now0)
      invariant Growing(was, done, g, First(rest, null), blocks, rules, now) && AsParsed(rest, blocks)
      decreases |Preorder(rest)|
    {
      UnderwayApart(k, was, done, rest);
      ghost var u, taken, h, before := Nil, Nil, Nil, now;
      now, u, taken, h := FinalizeNext(menu, rules, now, rest, parent, parent.list, done, parent, blocks);
      GrowNext(k, was, done, g, rest, u, taken, h, blocks, rules, before, now);
      UnderwayStep(k, was, done, rest, u, taken);
      AfterAppend(was, Piece(rest, taken), rules, now0);
      AdvanceCursor(parent.list, done, u, parent);
      was, done, rest, g :=
        Append(was, Piece(rest, taken)), Append(done, One(menu, u.list)), u.next, Append(g, One(menu, h));
      menu := menu.next;
    }
    AppendAssociative(was, Nil, Nil);
    k' := done;
  }

  // ----- automatic submenus -----

  /** Gives a finalized node its new parent; it joins the row `done` before it. */
  method Adopt(menu: Menu, parent: Menu, ghost u: Tree, ghost above: Menu?, ghost first: Menu?, ghost done: Tree)
    requires u.Node? && u.menu == menu && Linked(menu, u, above, null) && Linked(first, done, parent, menu)
    requires Proper(Append(done, u))
    modifies menu`parent
    ensures Linked(first, Append(done, One(menu, u.list)), parent, menu.next)
    ensures Linked(menu.next, u.next, above, null)
  {
    AppendProper(done, u);
    NodeProper(u);
    ghost var s := Nodes(done) + Nodes(u);
    ghost var links := Links(s);
    Freeze(s, first, done, parent, menu);
    Freeze(s, menu.list, u.list, menu, null);
    Freeze(s, menu.next, u.next, above, null);
    menu.parent := parent;
    Thaw(links, first, done, parent, menu);
    Thaw(links, menu.list, u.list, menu, null);
    Thaw(links, menu.next, u.next, above, null);
    LinkedSnoc(first, done, menu, u.list, parent);
  }

  lemma AdoptProper(k: Tree, was: Tree, done: Tree, rest: Tree, u: Tree, taken: Tree)
    requires Underway(k, was, done, rest) && Reshaped(rest, u, taken)
    ensures Proper(Append(done, u))
  {
    RegroupedOrder(rest, u, taken);
    RearrangeBoth(was, done, rest, u);
  }

  /** The links that make the row up to `last` a submenu of `parent`. */
  method CloseSubmenu(parent: Menu, last: Menu, ghost front: Tree, ghost list: Tree, ghost rest: Tree,
                      ghost above: Menu?)
    requires Proper(Node(parent, Append(front, One(last, list)), rest)) && parent.parent == above
    requires Linked(parent.next, front, parent, last) && last.parent == parent && Linked(last.list, list, last, null)
    requires Linked(last.next, rest, above, null)
    modifies parent`list, parent`next, last`next
    ensures Linked(parent, Node(parent, Append(front, One(last, list)), rest), above, null)
  {
    ghost var row := Append(front, One(last, list));
    NodeProper(Node(parent, row, rest));
    AppendProper(front, One(last, list));
    NodeProper(One(last, list));
    ghost var s := Nodes(row) + Nodes(rest);
    ghost var links, first, after := Links(s), parent.next, last.next;
    Freeze(s, first, front, parent, last);
    Freeze(s, last.list, list, last, null);
    Freeze(s, after, rest, above, null);
    parent.list := parent.next;
    parent.next := last.next;
    last.next := null;
    Thaw(links, first, front, parent, last);
    Thaw(links, last.list, list, last, null);
    Thaw(links, after, rest, above, null);
    LinkedSnoc(first, front, last, list, parent);
  }

  method AttachSubmenu(parent: Menu, last: Menu?, ghost done: Tree, ghost rest: Tree, ghost above: Menu?)
    requires Proper(Node(parent, done, rest)) && parent.parent == above && parent.list == null && EndsWith(done, last)
    requires Linked(parent.next, done, parent, First(rest, null)) && Linked(First(rest, null), rest, above, null)
    modifies parent, Nodes(done)
    ensures Linked(parent, Node(parent, done, rest), above, null)
  {
    if last != null {
      ghost var front, list := SplitLast(done, last);
      LastIn(front, last, list);
      LinkedSplit(parent.next, front, One(last, list), parent, First(rest, null));
      CloseSubmenu(parent, last, front, list, rest, above);
    }
  }

  /** Finalizes `menu`, which belongs below `parent`, and adds it to the row `done` of those before it. */
  method ExtendSubmenu(parent: Menu, menu: Menu, rules: Rules, now0: Moment, ghost k: Tree, ghost above: Menu?,
                       ghost was: Tree, ghost done: Tree, ghost rest: Tree, ghost blocks: set<Menu>)
    returns (now: Moment, ghost v: Tree, ghost more: Tree, ghost h: Tree)
    requires rest.Node? && Linked(parent.next, done, parent, menu) && Linked(menu, rest, above, null)
    requires parent !in Nodes(k) && Underway(k, was, done, rest) && AsParsed(rest, blocks)
    modifies Nodes(k)
    ensures Reshaped(rest, v, more) && now == AfterBelow(Piece(rest, more), rules, now0)
    ensures Grown(rest, more, h, First(v.next, null), blocks, rules, now) && v.list == Dissolved(h, Kept())
    ensures Linked(parent.next, Append(done, One(menu, v.list)), parent, menu.next)
    ensures Linked(menu.next, v.next, above, null)
    decreases |Preorder(k)|, 5
  {
    UnderwayApart(k, was, done, rest);
    now, v, more, h := FinalizeNext(menu, rules, now0, rest, above, parent.next, done, parent, blocks);
    AdoptProper(k, was, done, rest, v, more);
    Adopt(menu, parent, v, above, parent.next, done);
  }

  /** The row ends with `last`, if it is not empty. */
  ghost predicate EndsWith(done: Tree, last: Menu?) {
    if last == null then done.Nil?
    else done.Node? && if done.next.Nil? then last == done.menu else EndsWith(done.next, last)
  }

  lemma {:induction false} EndsAppend(done: Tree, m: Menu, list: Tree)
    ensures EndsWith(Append(done, One(m, list)), m)
  {
    if done.Node? { EndsAppend(done.next, m, list); }
  }

  lemma {:induction false} SplitLast(done: Tree, last: Menu) returns (front: Tree, list: Tree)
    requires EndsWith(done, last)
    ensures done == Append(front, One(last, list))
  {
    if done.next.Nil? {
      front, list := Nil, done.list;
    } else {
      front, list := SplitLast(done.next, last);
      front := Node(done.menu, done.list, front);
    }
  }

  /** How far the submenu of `parent` has come. */
  ghost predicate Collecting(parent: Menu, k: Tree, was: Tree, done: Tree, rest: Tree, last: Menu?, rules: Rules,
                             now0: Moment, now: Moment) {
    && Underway(k, was, done, rest) && now == AfterBelow(was, rules, now0)
    && EndsWith(done, last) && RowBelongs(parent, done, rules, now0)
  }

  lemma CollectStep(parent: Menu, k: Tree, was: Tree, done: Tree, rest: Tree, last: Menu?, v: Tree, more: Tree,
                    rules: Rules, now0: Moment, now: Moment, now': Moment)
    requires Collecting(parent, k, was, done, rest, last, rules, now0, now) && Reshaped(rest, v, more)
    requires BelongsBelow(parent, rest.menu, rules, now0) && now' == AfterBelow(Piece(rest, more), rules, now)
    ensures Collecting(parent, k, Append(was, Piece(rest, more)), Append(done, One(v.menu, v.list)), v.next, v.menu,
                       rules, now0, now')
    ensures |Preorder(v.next)| < |Preorder(rest)|
  {
    UnderwayStep(k, was, done, rest, v, more);
    AfterAppend(was, Piece(rest, more), rules, now0);
    RowBelongsAppend(parent, done, One(v.menu, v.list), rules, now0);
    EndsAppend(done, v.menu, v.list);
  }

  /** Finalizes the entries after the symbol node `parent` that belong below it, as far as they go. */
  method CollectSubmenu(parent: Menu, rules: Rules, now0: Moment, ghost k: Tree, ghost above: Menu?,
                        ghost blocks: set<Menu>)
    returns (now: Moment, last: Menu?, ghost was: Tree, ghost done: Tree, ghost rest: Tree, ghost g: Tree)
    requires Linked(parent.next, k, above, null) && Proper(k) && parent !in Nodes(k) && parent.entry.sym.Some?
    requires AsParsed(k, blocks)
    modifies Nodes(k)
    ensures Collecting(parent, k, was, done, rest, last, rules, now0, now)
    ensures rest.Node? ==> !BelongsBelow(parent, rest.menu, rules, now0)
    ensures Growing(was, done, g, First(rest, null), blocks, rules, now)
    ensures Linked(parent.next, done, parent, First(rest, null)) && Linked(First(rest, null), rest, above, null)
    decreases |Preorder(k)|, 6
  {
    was, done, rest, g := Nil, Nil, k, Nil;
    now, last := now0, null;
    var menu := parent.next;
    while menu != null
      invariant Linked(parent.next, done, parent, menu) && Linked(menu, rest, above, null)
      invariant Collecting(parent, k, was, done, rest, last, rules, now0, now)
      invariant Growing(was, done, g, First(rest, null), blocks, rules, now) && AsParsed(rest, blocks)
      decreases |Preorder(rest)|
    {
      UnderwayApart(k, was, done, rest);
      BelongsStill(parent, menu, rules, was, now0);
      if !BelongsBelow(parent, menu, rules, now) {
        break;
      }
      var now';
      ghost var v, more, h;
      now', v, more, h := ExtendSubmenu(parent, menu, rules, now, k, above, was, done, rest, blocks);
      GrowNext(k, was, done, g, rest, v, more, h, blocks, rules, now, now');
      CollectStep(parent, k, was, done, rest, last, v, more, rules, now0, now, now');
      was, done, rest, g :=
        Append(was, Piece(rest, more)), Append(done, One(menu, v.list)), v.next, Append(g, One(menu, h));
      now, last := now', menu;
      menu := menu.next;
    }
  }

  /** Takes the entries after the symbol node `parent` that belong below it into a submenu; then the
      dependency of the entry is or-ed to the direct dependencies of its symbol. */
  method MakeSubmenu(parent: Menu, rules: Rules, now0: Moment, ghost t: Tree, ghost above: Menu?,
                     ghost blocks: set<Menu>)
    returns (now: Moment, ghost u: Tree, ghost taken: Tree, ghost g: Tree)
    requires t.Node? && t.menu == parent && Linked(parent, t, above, null) && Proper(t) && AsParsed(t, blocks)
    requires t.list.Nil? && parent.entry.sym.Some?
    modifies Nodes(t)
    ensures Linked(parent, u, above, null) && Regrouped(t, u, taken) && FlatBelow(u.list)
    ensures now == AfterBelow(Piece(t, taken), rules, now0)
    ensures RowBelongs(parent, u.list, rules, now0)
    ensures u.next.Node? ==> !BelongsBelow(parent, u.next.menu, rules, now0)
    ensures Grown(t, taken, g, First(u.next, null), blocks, rules, now) && u.list == FlatLists(g)
    decreases |Preorder(t)|, 1
  {
    ghost var done, rest;
    NodeProper(t);
    Shorter(t);
    var last;
    now, last, taken, done, rest, g := CollectSubmenu(parent, rules, now0, t.next, above, blocks);
    SubmenuProper(t, taken, done, rest);
    UnderwayApart(t.next, taken, done, rest);
    AttachSubmenu(parent, last, done, rest, above);
    UnderNodes(taken);
    DirectLast(parent, taken, rules, now0);
    now := now.(direct := now.direct + multiset{DirectDep(parent.entry.sym.value, Look(now, parent).dep)});
    u := Node(parent, done, rest);
    SubmenuGrown(t, taken, done, rest, g, blocks, rules, now0, now);
  }

  lemma SubmenuGrown(t: Tree, taken: Tree, done: Tree, rest: Tree, g: Tree, blocks: set<Menu>, rules: Rules, d: Moment,
                     e: Moment)
    requires t.Node? && t.list.Nil? && Proper(t) && AsParsed(t, blocks) && t.menu.entry.sym.Some?
    requires Underway(t.next, taken, done, rest) && RowBelongs(t.menu, done, rules, d)
    requires Growing(taken, done, g, First(rest, null), blocks, rules, AfterBelow(taken, rules, d))
    requires e.infos == AfterBelow(taken, rules, d).infos
    requires rest.Node? ==> !BelongsBelow(t.menu, rest.menu, rules, d)
    ensures Grown(t, taken, g, First(rest, null), blocks, rules, e)
  {
    NodeProper(t);
    UnderwayApart(t.next, taken, done, rest);
    AppendProper(taken, rest);
    SubmenusSame(g, First(rest, null), blocks, rules, AfterBelow(taken, rules, d), e);
    GrowSubmenu(t.menu, taken, done, g, First(rest, null), blocks, rules, d, e);
  }

  lemma LastIn(front: Tree, last: Menu, list: Tree)
    ensures last in Nodes(Append(front, One(last, list)))
  {
    NodesAppend(front, One(last, list));
  }

  lemma {:induction false} NodesAppend(t: Tree, u: Tree)
    ensures Nodes(Append(t, u)) == Nodes(t) + Nodes(u)
  {
    if t.Node? { NodesAppend(t.next, u); }
  }

  /** The order is kept when a row goes below the node before it. */
  lemma SubmenuProper(t: Tree, was: Tree, done: Tree, rest: Tree)
    requires t.Node? && Proper(t) && t.list.Nil? && t.next == Append(was, rest) && Rearranged(was, done)
    ensures Regrouped(t, Node(t.menu, done, rest), was) && Proper(Node(t.menu, done, rest))
  {
    Regroup([t.menu], [], Preorder(was));
    Regroup([t.menu], Preorder(done), []);
    assert Preorder(Piece(t, was)) == [t.menu] + Preorder(was);
    assert Preorder(One(t.menu, done)) == [t.menu] + Preorder(done);
    RegroupedOrder(t, Node(t.menu, done, rest), was);
  }
}
