/**
 The menu tree: `menu_finalize` rewires first-child and next-sibling links to make automatic submenus
 and to flatten blocks without a prompt.
 */
module KconfigMenuTree {
  import opened KconfigExpr

  /** What never changes about a menu node: its symbol, and whether it has a prompt with a text. */
  datatype Entry = Entry(sym: Option<Sym>, isChoice: bool, hasPrompt: bool, hasText: bool)

  class Menu {
    var next: Menu?
    var parent: Menu?
    var list: Menu?
    const entry: Entry

    constructor (entry: Entry) {
      this.entry := entry;
      next, parent, list := null, null, null;
    }
  }

  /** A list of sibling nodes: the first node, its children, and the siblings after it. */
  datatype Tree = Nil | Node(menu: Menu, list: Tree, next: Tree)

  function Nodes(t: Tree): set<Menu> {
    if t.Nil? then {} else {t.menu} + Nodes(t.list) + Nodes(t.next)
  }

  /** The nodes in the order in which they are written: each before its children, these before its
      next sibling. */
  function Preorder(t: Tree): seq<Menu> {
    if t.Nil? then [] else [t.menu] + Preorder(t.list) + Preorder(t.next)
  }

  ghost predicate Distinct(s: seq<Menu>) {
    forall i, j :: 0 <= i < j < |s| ==> s[i] != s[j]
  }

  /** No node occurs twice. */
  ghost predicate Proper(t: Tree) { Distinct(Preorder(t)) }

  /** The same nodes in the same order. */
  ghost predicate Rearranged(t: Tree, u: Tree) { Preorder(t) == Preorder(u) }

  /** The siblings of `t` followed by those of `u`. */
  function Append(t: Tree, u: Tree): Tree {
    if t.Nil? then u else Node(t.menu, t.list, Append(t.next, u))
  }

  /** A single node with its children. */
  function One(m: Menu, list: Tree): Tree { Node(m, list, Nil) }

  function First(t: Tree, end: Menu?): Menu? { if t.Nil? then end else t.menu }

  /** The links from `m` on are those of `t`, with `end` after the last sibling; every node points to
      its parent. */
  ghost predicate Linked(m: Menu?, t: Tree, parent: Menu?, end: Menu?)
    reads Nodes(t)
    decreases t
  {
    && m == First(t, end)
    && (t.Node? ==>
          && t.menu.parent == parent
          && Linked(t.menu.list, t.list, t.menu, null)
          && Linked(t.menu.next, t.next, parent, end))
  }

  // ----- rows of siblings -----

  function Elements(s: seq<Menu>): set<Menu> { set n | n in s }

  lemma ElementsAppend(a: seq<Menu>, b: seq<Menu>)
    ensures Elements(a + b) == Elements(a) + Elements(b)
  {
  }

  lemma {:induction false} NodesAre(t: Tree)
    ensures Nodes(t) == Elements(Preorder(t))
  {
    if t.Node? {
      NodesAre(t.list);
      NodesAre(t.next);
      ElementsAppend([t.menu] + Preorder(t.list), Preorder(t.next));
      ElementsAppend([t.menu], Preorder(t.list));
    }
  }

  lemma {:induction false} PreorderAppend(t: Tree, u: Tree)
    ensures Preorder(Append(t, u)) == Preorder(t) + Preorder(u)
  {
    if t.Node? { PreorderAppend(t.next, u); }
  }

  lemma {:induction false} AppendAssociative(t: Tree, u: Tree, v: Tree)
    ensures Append(Append(t, u), v) == Append(t, Append(u, v)) && Append(t, Nil) == t
  {
    if t.Node? { AppendAssociative(t.next, u, v); }
  }

  lemma SameNodes(t: Tree, u: Tree)
    requires Rearranged(t, u)
    ensures Nodes(t) == Nodes(u)
  {
    NodesAre(t);
    NodesAre(u);
  }

  lemma DistinctParts(a: seq<Menu>, b: seq<Menu>)
    requires Distinct(a + b)
    ensures Distinct(a) && Distinct(b) && Elements(a) !! Elements(b)
  {
    assert forall i :: 0 <= i < |a| ==> a[i] == (a + b)[i];
    assert forall i :: 0 <= i < |b| ==> b[i] == (a + b)[|a| + i];
  }

  /** The parts of a row have no node in common. */
  lemma AppendProper(t: Tree, u: Tree)
    requires Proper(Append(t, u))
    ensures Proper(t) && Proper(u) && Nodes(t) !! Nodes(u) && Nodes(Append(t, u)) == Nodes(t) + Nodes(u)
  {
    PreorderAppend(t, u);
    NodesAre(t);
    NodesAre(u);
    NodesAre(Append(t, u));
    ElementsAppend(Preorder(t), Preorder(u));
    DistinctParts(Preorder(t), Preorder(u));
  }

  /** Neither have a node, its children and its siblings. */
  lemma NodeProper(t: Tree)
    requires t.Node? && Proper(t)
    ensures t.menu !in Nodes(t.list) && t.menu !in Nodes(t.next) && Nodes(t.list) !! Nodes(t.next)
    ensures Proper(t.list) && Proper(t.next)
  {
    var below := Preorder(t.list) + Preorder(t.next);
    assert Preorder(t) == [t.menu] + below;
    DistinctParts([t.menu], below);
    DistinctParts(Preorder(t.list), Preorder(t.next));
    ElementsAppend(Preorder(t.list), Preorder(t.next));
    assert t.menu in Elements([t.menu]);
    NodesAre(t.list);
    NodesAre(t.next);
  }

  lemma {:induction false} LinkedAppend(m: Menu?, t: Tree, u: Tree, parent: Menu?, end: Menu?)
    requires Linked(m, t, parent, First(u, end))
    requires Linked(First(u, end), u, parent, end)
    ensures Linked(m, Append(t, u), parent, end)
  {
    if t.Node? { LinkedAppend(t.menu.next, t.next, u, parent, end); }
  }

  lemma {:induction false} LinkedSplit(m: Menu?, t: Tree, u: Tree, parent: Menu?, end: Menu?)
    requires Linked(m, Append(t, u), parent, end)
    ensures Linked(m, t, parent, First(u, end)) && Linked(First(u, end), u, parent, end)
  {
    if t.Node? { LinkedSplit(t.menu.next, t.next, u, parent, end); }
  }

  /** Adds one more sibling at the end of a row. */
  lemma LinkedSnoc(m: Menu?, t: Tree, last: Menu, list: Tree, parent: Menu?)
    requires Linked(m, t, parent, last) && last.parent == parent && Linked(last.list, list, last, null)
    ensures Linked(m, Append(t, One(last, list)), parent, last.next)
  {
    assert Linked(last, One(last, list), parent, last.next);
    LinkedAppend(m, t, One(last, list), parent, last.next);
  }

  /** The nodes below `m`. */
  function Below(t: Tree, m: Menu): set<Menu> {
    if t.Nil? then {}
    else if m == t.menu then Nodes(t.list)
    else if m in Nodes(t.list) then Below(t.list, m)
    else Below(t.next, m)
  }

  // ----- dissolving submenus -----

  /** The children of nodes that do not keep them become their next siblings. */
  function Dissolved(t: Tree, keeps: Menu -> bool): Tree {
    if t.Nil? then Nil
    else
      var list, next := Dissolved(t.list, keeps), Dissolved(t.next, keeps);
      if keeps(t.menu) then Node(t.menu, list, next) else Node(t.menu, Nil, Append(list, next))
  }

  lemma {:induction false} DissolvedAppend(t: Tree, u: Tree, keeps: Menu -> bool)
    ensures Dissolved(Append(t, u), keeps) == Append(Dissolved(t, keeps), Dissolved(u, keeps))
  {
    if t.Node? {
      DissolvedAppend(t.next, u, keeps);
      AppendAssociative(Dissolved(t.list, keeps), Dissolved(t.next, keeps), Dissolved(u, keeps));
    }
  }

  /** Dissolving keeps the nodes and their order. */
  lemma {:induction false} DissolvedOrder(t: Tree, keeps: Menu -> bool)
    ensures Rearranged(t, Dissolved(t, keeps)) && Nodes(Dissolved(t, keeps)) == Nodes(t)
  {
    if t.Node? {
      DissolvedOrder(t.list, keeps);
      DissolvedOrder(t.next, keeps);
      var list, next := Dissolved(t.list, keeps), Dissolved(t.next, keeps);
      if !keeps(t.menu) {
        PreorderAppend(list, next);
        Regroup([t.menu], Preorder(list), Preorder(next));
        Regroup([t.menu], [], Preorder(next));
        assert [t.menu] + [] + Preorder(Append(list, next)) == [t.menu] + (Preorder(list) + Preorder(next));
      }
    }
    SameNodes(t, Dissolved(t, keeps));
  }

  lemma {:induction false} BelowAppend(t: Tree, u: Tree, m: Menu)
    ensures Below(Append(t, u), m) == if m in Nodes(t) then Below(t, m) else Below(u, m)
  {
    if t.Node? { BelowAppend(t.next, u, m); }
  }

  /** Exactly the nodes that keep their children have anything below them, and then what was there. */
  lemma {:induction false} DissolvedBelow(t: Tree, keeps: Menu -> bool, m: Menu)
    requires m in Nodes(t)
    ensures Below(Dissolved(t, keeps), m) == if keeps(m) then Below(t, m) else {}
  {
    var list, next := Dissolved(t.list, keeps), Dissolved(t.next, keeps);
    DissolvedOrder(t.list, keeps);
    BelowAppend(list, next, m);
    if m in Nodes(t.list) {
      DissolvedBelow(t.list, keeps, m);
    } else if m != t.menu {
      DissolvedBelow(t.next, keeps, m);
    }
  }

  // ----- links that are not touched -----

  /** The links of a node at one moment. */
  datatype Link = Link(next: Menu?, list: Menu?, parent: Menu?)

  ghost function Links(s: set<Menu>): map<Menu, Link>
    reads s
  {
    map n | n in s :: Link(n.next, n.list, n.parent)
  }

  /** `Linked` at the moment when `links` was taken. */
  ghost predicate WasLinked(links: map<Menu, Link>, m: Menu?, t: Tree, parent: Menu?, end: Menu?) {
    && m == First(t, end)
    && (t.Node? ==>
          && t.menu in links && links[t.menu].parent == parent
          && WasLinked(links, links[t.menu].list, t.list, t.menu, null)
          && WasLinked(links, links[t.menu].next, t.next, parent, end))
  }

  lemma {:induction false} Freeze(s: set<Menu>, m: Menu?, t: Tree, parent: Menu?, end: Menu?)
    requires Linked(m, t, parent, end) && Nodes(t) <= s
    ensures WasLinked(Links(s), m, t, parent, end)
  {
    if t.Node? {
      Freeze(s, t.menu.list, t.list, t.menu, null);
      Freeze(s, t.menu.next, t.next, parent, end);
    }
  }

  /** Links are kept as long as the nodes are. */
  lemma {:induction false} Thaw(links: map<Menu, Link>, m: Menu?, t: Tree, parent: Menu?, end: Menu?)
    requires WasLinked(links, m, t, parent, end)
    requires forall n :: n in Nodes(t) && n in links ==> links[n] == Link(n.next, n.list, n.parent)
    ensures Linked(m, t, parent, end)
  {
    if t.Node? {
      Thaw(links, t.menu.list, t.list, t.menu, null);
      Thaw(links, t.menu.next, t.next, parent, end);
    }
  }

  // ----- flattening -----

  /** Makes `parent` the parent of all children of `menu` and returns the last of them. */
  method Reparent(menu: Menu, parent: Menu, ghost k: Tree) returns (last: Menu, ghost front: Tree, ghost list: Tree)
    requires k.Node? && menu.list == k.menu && Linked(menu.list, k, menu, null) && Proper(k) && menu !in Nodes(k)
    modifies Nodes(k)
    ensures k == Append(front, One(last, list))
    ensures Linked(k.menu, front, parent, last) && last.parent == parent && last.next == null
    ensures Linked(last.list, list, last, null)
  {
    last := menu.list;
    ghost var rest := k;
    front := Nil;
    while true
      invariant rest.Node? && last == rest.menu && k == Append(front, rest)
      invariant Linked(k.menu, front, parent, last) && Linked(last, rest, menu, null)
      decreases rest
    {
      AppendProper(front, rest);
      NodeProper(rest);
      last.parent := parent;
      list := rest.list;
      if last.next == null {
        break;
      }
      LinkedSnoc(k.menu, front, last, list, parent);
      AppendAssociative(front, One(last, list), rest.next);
      front := Append(front, One(last, list));
      rest := rest.next;
      last := last.next;
    }
  }

  /** Links the row that ends with `last` to the row that starts with `after`. */
  method JoinRows(last: Menu, after: Menu?, ghost first: Menu?, ghost front: Tree, ghost list: Tree, ghost rest: Tree,
                  ghost parent: Menu)
    requires Proper(Append(Append(front, One(last, list)), rest))
    requires Linked(first, front, parent, last) && last.parent == parent && Linked(last.list, list, last, null)
    requires Linked(after, rest, parent, null)
    modifies last
    ensures Linked(first, Append(Append(front, One(last, list)), rest), parent, null)
  {
    ghost var row := Append(front, One(last, list));
    AppendProper(row, rest);
    AppendProper(front, One(last, list));
    NodeProper(One(last, list));
    ghost var all := Nodes(row) + Nodes(rest);
    ghost var links := Links(all);
    Freeze(all, first, front, parent, last);
    Freeze(all, last.list, list, last, null);
    Freeze(all, after, rest, parent, null);
    last.next := after;
    Thaw(links, first, front, parent, last);
    Thaw(links, last.list, list, last, null);
    Thaw(links, after, rest, parent, null);
    LinkedSnoc(first, front, last, list, parent);
    LinkedAppend(first, row, rest, parent, null);
  }

  /** Moves the children of `menu` up to be its next siblings. */
  method Hoist(menu: Menu, parent: Menu, ghost t: Tree)
    requires t.Node? && t.menu == menu && t.list.Node? && Proper(t) && Linked(menu, t, parent, null)
    modifies Nodes(t)
    ensures Linked(menu, Node(menu, Nil, Append(t.list, t.next)), parent, null)
  {
    ghost var row := Append(t.list, t.next);
    RowOf(t);
    ghost var links := Links(Nodes(t.next));
    Freeze(Nodes(t.next), menu.next, t.next, parent, null);
    var last, front, list := Reparent(menu, parent, t.list);
    Thaw(links, menu.next, t.next, parent, null);
    assert last in Nodes(t.list) by { AppendProper(front, One(last, list)); }
    JoinRows(last, menu.next, menu.list, front, list, t.next, parent);
    ghost var first := menu.list;
    links := Links(Nodes(row));
    Freeze(Nodes(row), first, row, parent, null);
    menu.next := menu.list;
    menu.list := null;
    Thaw(links, first, row, parent, null);
  }

  lemma RowOf(t: Tree)
    requires t.Node? && Proper(t)
    ensures var row := Append(t.list, t.next);
            Proper(row) && Nodes(row) == Nodes(t.list) + Nodes(t.next) && t.menu !in Nodes(row)
            && Nodes(t.list) !! Nodes(t.next) && Proper(t.list) && Rearranged(t, Node(t.menu, Nil, row))
  {
    NodeProper(t);
    HoistKeepsOrder(t);
    DistinctParts([t.menu], Preorder(Append(t.list, t.next)));
    AppendProper(t.list, t.next);
  }

  lemma Regroup(x: seq<Menu>, a: seq<Menu>, b: seq<Menu>)
    ensures x + a + b == x + (a + b) && x + [] == x
  {
  }

  lemma HoistKeepsOrder(t: Tree)
    requires t.Node?
    ensures Preorder(t) == [t.menu] + Preorder(Append(t.list, t.next))
    ensures Rearranged(t, Node(t.menu, Nil, Append(t.list, t.next)))
  {
    PreorderAppend(t.list, t.next);
    Regroup([t.menu], Preorder(t.list), Preorder(t.next));
  }

  predicate Flattens(e: Entry) { !e.hasPrompt || !e.hasText }

  /** The nodes that flattening leaves their children. */
  function Kept(): Menu -> bool { (m: Menu) => !Flattens(m.entry) }

  /** A node may have children. */
  ghost predicate Keeps(m: Menu, list: Tree) { list.Nil? || !Flattens(m.entry) }

  /** Only nodes with a prompt have children. */
  ghost predicate AllFlat(t: Tree) {
    t.Node? ==> Keeps(t.menu, t.list) && AllFlat(t.list) && AllFlat(t.next)
  }

  /** The same below the nodes of a row. */
  ghost predicate FlatBelow(t: Tree) {
    t.Node? ==> AllFlat(t.list) && FlatBelow(t.next)
  }

  lemma {:induction false} AllFlatBelow(t: Tree)
    requires AllFlat(t)
    ensures FlatBelow(t)
  {
    if t.Node? { AllFlatBelow(t.next); }
  }

  lemma {:induction false} FlatStays(t: Tree)
    requires AllFlat(t)
    ensures Dissolved(t, Kept()) == t
  {
    if t.Node? {
      FlatStays(t.list);
      FlatStays(t.next);
    }
  }

  lemma {:induction false} DissolvedIsFlat(t: Tree)
    ensures AllFlat(Dissolved(t, Kept()))
  {
    if t.Node? {
      DissolvedIsFlat(t.list);
      DissolvedIsFlat(t.next);
      FlatAppend(Dissolved(t.list, Kept()), Dissolved(t.next, Kept()));
    }
  }

  /** The children of the nodes of a row are flattened, and the row itself is not. */
  function FlatLists(t: Tree): Tree {
    if t.Nil? then Nil else Node(t.menu, Dissolved(t.list, Kept()), FlatLists(t.next))
  }

  lemma {:induction false} FlatListsAppend(t: Tree, u: Tree)
    ensures FlatLists(Append(t, u)) == Append(FlatLists(t), FlatLists(u))
  {
    if t.Node? { FlatListsAppend(t.next, u); }
  }

  /** It may be flattened later. */
  lemma {:induction false} FlattenLater(t: Tree)
    ensures Dissolved(FlatLists(t), Kept()) == Dissolved(t, Kept())
  {
    if t.Node? {
      DissolvedIsFlat(t.list);
      FlatStays(Dissolved(t.list, Kept()));
      FlattenLater(t.next);
    }
  }

  lemma {:induction false} FlatAppend(t: Tree, u: Tree)
    ensures AllFlat(t) && AllFlat(u) ==> AllFlat(Append(t, u))
    ensures FlatBelow(t) && FlatBelow(u) ==> FlatBelow(Append(t, u))
  {
    if t.Node? { FlatAppend(t.next, u); }
  }

  /** The cursor of a loop over siblings moves past the first node of `rest`. */
  lemma AdvanceCursor(first: Menu?, done: Tree, rest: Tree, parent: Menu?)
    requires rest.Node? && Linked(first, done, parent, rest.menu) && Linked(rest.menu, rest, parent, null)
    ensures var done' := Append(done, One(rest.menu, rest.list));
            && Linked(first, done', parent, rest.menu.next) && Linked(rest.menu.next, rest.next, parent, null)
            && Append(done', rest.next) == Append(done, rest)
  {
    LinkedSnoc(first, done, rest.menu, rest.list, parent);
    AppendAssociative(done, One(rest.menu, rest.list), rest.next);
  }

  /** Flattens `menu` if it has children but no prompt; the row `done` before it is not touched. */
  method FlattenOne(menu: Menu, parent: Menu, ghost t: Tree, ghost first: Menu?, ghost done: Tree)
    returns (ghost u: Tree)
    requires t.Node? && t.menu == menu && Proper(t) && Linked(menu, t, parent, null)
    requires Linked(first, done, parent, menu) && Nodes(done) !! Nodes(t) && FlatBelow(t)
    modifies Nodes(t)
    ensures Linked(first, done, parent, menu)
    ensures u.Node? && u.menu == menu && Linked(menu, u, parent, null) && Rearranged(t, u)
    ensures FlatBelow(u) && Keeps(menu, u.list) && Dissolved(u, Kept()) == Dissolved(t, Kept())
  {
    u := t;
    if menu.list != null && Flattens(menu.entry) {
      ghost var links := Links(Nodes(done));
      Freeze(Nodes(done), first, done, parent, menu);
      Hoist(menu, parent, t);
      Thaw(links, first, done, parent, menu);
      RowOf(t);
      AllFlatBelow(t.list);
      FlatAppend(t.list, t.next);
      DissolvedAppend(t.list, t.next, Kept());
      u := Node(menu, Nil, Append(t.list, t.next));
    }
  }

  lemma RearrangeEnd(k: Tree, done: Tree, rest: Tree, rest': Tree)
    requires Rearranged(k, Append(done, rest)) && Rearranged(rest, rest')
    ensures Rearranged(k, Append(done, rest'))
  {
    PreorderAppend(done, rest);
    PreorderAppend(done, rest');
  }

  lemma Shorter(t: Tree)
    requires t.Node?
    ensures |Preorder(t)| == 1 + |Preorder(t.list)| + |Preorder(t.next)|
  {
  }

  /** One more node of the row is flat. */
  lemma FlattenStep(done: Tree, rest: Tree)
    requires AllFlat(done) && rest.Node? && FlatBelow(rest) && Keeps(rest.menu, rest.list)
    ensures AllFlat(Append(done, One(rest.menu, rest.list))) && FlatBelow(rest.next)
  {
    FlatAppend(done, One(rest.menu, rest.list));
  }

  lemma StillProper(k: Tree, done: Tree, rest: Tree)
    requires Proper(k) && Rearranged(k, Append(done, rest))
    ensures Nodes(rest) <= Nodes(k) && Proper(rest) && Nodes(done) !! Nodes(rest)
  {
    SameNodes(k, Append(done, rest));
    AppendProper(done, rest);
  }

  lemma FlattenedSoFar(done: Tree, rest: Tree)
    requires rest.Node? && FlatBelow(rest) && Keeps(rest.menu, rest.list)
    ensures Append(done, Dissolved(rest, Kept())) ==
            Append(Append(done, One(rest.menu, rest.list)), Dissolved(rest.next, Kept()))
  {
    FlatStays(rest.list);
    AppendAssociative(done, One(rest.menu, rest.list), Dissolved(rest.next, Kept()));
  }

  /** The loop that flattens blocks without a prompt among the children of `parent`. */
  method FlattenChildren(parent: Menu, ghost k: Tree) returns (ghost k': Tree)
    requires Linked(parent.list, k, parent, null) && Proper(k) && parent !in Nodes(k) && FlatBelow(k)
    modifies Nodes(k)
    ensures Linked(parent.list, k', parent, null) && Rearranged(k, k') && AllFlat(k')
    ensures k' == Dissolved(k, Kept())
  {
    var menu := parent.list;
    ghost var done, rest := Nil, k;
    while menu != null
      invariant Linked(parent.list, done, parent, menu) && Linked(menu, rest, parent, null)
      invariant Rearranged(k, Append(done, rest)) && AllFlat(done) && FlatBelow(rest)
      invariant Dissolved(k, Kept()) == Append(done, Dissolved(rest, Kept()))
      decreases |Preorder(rest)|
    {
      StillProper(k, done, rest);
      ghost var rest' := FlattenOne(menu, parent, rest, parent.list, done);
      RearrangeEnd(k, done, rest, rest');
      Shorter(rest');
      FlattenStep(done, rest');
      FlattenedSoFar(done, rest');
      AdvanceCursor(parent.list, done, rest', parent);
      done, rest := Append(done, One(menu, rest'.list)), rest'.next;
      menu := menu.next;
    }
    AppendAssociative(done, Nil, Nil);
    k' := done;
  }

  /** Flattens among the children of `parent`; its own place and its siblings stay. */
  method FlattenNode(parent: Menu, ghost t: Tree, ghost above: Menu?) returns (ghost u: Tree)
    requires t.Node? && t.menu == parent && Linked(parent, t, above, null) && Proper(t) && FlatBelow(t.list)
    modifies Nodes(t.list)
    ensures u.Node? && u.menu == parent && u.next == t.next && Linked(parent, u, above, null)
    ensures Rearranged(t.list, u.list) && AllFlat(u.list) && u.list == Dissolved(t.list, Kept())
  {
    NodeProper(t);
    ghost var links := Links(Nodes(t.next));
    Freeze(Nodes(t.next), parent.next, t.next, above, null);
    ghost var k := FlattenChildren(parent, t.list);
    Thaw(links, parent.next, t.next, above, null);
    u := Node(parent, k, t.next);
  }
}
