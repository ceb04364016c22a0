/**
 The menu walk of `conf_write`: a loop that follows list, next and parent links writes the
 configuration.
 */
module KconfigWrite {
  import opened KconfigExpr
  import opened KconfigMenuTree
  import opened KconfigMenuInherit
  import opened KconfigSubmenus
  import opened KconfigMenuFinalize
  import opened KconfigMenuMeaning

  /** The lines of the file: a heading and an end comment for a menu, a setting for a symbol, and an
      empty line. */
  datatype Line = Heading(menu: Menu) | Setting(sym: Sym) | End(menu: Menu) | Empty

  /** What decides about lines: which menus are visible and which symbols have a value to write. */
  datatype Config = Config(visible: Menu -> bool, writes: Sym -> bool)

  /** The lines so far, the symbols that are marked as written, and whether an empty line is due. */
  datatype Out = Out(lines: seq<Line>, written: set<Sym>, newline: bool)

  const Start: Out := Out([], {}, false)

  function Visit(c: Config, m: Menu, o: Out): Out {
    match m.entry.sym
    case None => if c.visible(m) then o.(lines := o.lines + [Heading(m)], newline := false) else o
    case Some(s) =>
      if !m.entry.isChoice && s !in o.written && c.writes(s)
      then Out(o.lines + (if o.newline then [Empty, Setting(s)] else [Setting(s)]), o.written + {s}, false)
      else o
  }

  function Leave(c: Config, m: Menu, o: Out): Out {
    if m.entry.sym.None? && c.visible(m) then o.(lines := o.lines + [End(m)], newline := true) else o
  }

  /** What a row of entries writes: each entry, its children and the end comment, then the next entry. */
  function Write(c: Config, t: Tree, o: Out): Out {
    if t.Nil? then o
    else
      var own := Visit(c, t.menu, o);
      Write(c, t.next, if t.list.Nil? then own else Leave(c, t.menu, Write(c, t.list, own)))
  }

  // ----- where the walk stands -----

  /** The entries above the cursor: the cursor's row is the children of `menu`, which is followed by
      the entries `next`. */
  datatype Above = Top | In(menu: Menu, next: Tree, up: Above)

  function Owner(a: Above, root: Menu): Menu { if a.Top? then root else a.menu }

  function NodesAbove(a: Above): set<Menu> {
    if a.Top? then {} else {a.menu} + Nodes(a.next) + NodesAbove(a.up)
  }

  ghost predicate AboveLinked(a: Above, root: Menu)
    reads NodesAbove(a)
    decreases a
  {
    a.In? ==>
      && a.menu != root && root !in Nodes(a.next) && a.menu.parent == Owner(a.up, root)
      && Linked(a.menu.next, a.next, Owner(a.up, root), null) && AboveLinked(a.up, root)
  }

  /** What is still to be written above the cursor's row. */
  function Finish(c: Config, a: Above, o: Out): Out
    decreases a
  {
    if a.Top? then o else Finish(c, a.up, Write(c, a.next, Leave(c, a.menu, o)))
  }

  /** The nodes still to be visited there. */
  function Pending(a: Above): seq<Menu> {
    if a.Top? then [] else Preorder(a.next) + Pending(a.up)
  }

  function Todo(row: Tree, a: Above): seq<Menu> { Preorder(row) + Pending(a) }

  /** The first node of the row is visited, then the walk goes down to its children or on to the end of
      its place. */
  lemma TodoStep(visited: seq<Menu>, row: Tree, a: Above)
    requires row.Node?
    ensures var rest := if row.list.Nil? then Todo(row.next, a) else Todo(row.list, In(row.menu, row.next, a));
            visited + Todo(row, a) == visited + [row.menu] + rest && |Todo(row, a)| == 1 + |rest|
  {
    Regroup([row.menu], Preorder(row.list), Preorder(row.next));
    Regroup([row.menu], [], Preorder(row.next));
    Regroup([row.menu], Preorder(row.list) + Preorder(row.next), Pending(a));
    Regroup(Preorder(row.list), Preorder(row.next), Pending(a));
    Regroup([row.menu], Preorder(row.next), Pending(a));
    var rest := if row.list.Nil? then Todo(row.next, a) else Todo(row.list, In(row.menu, row.next, a));
    assert Todo(row, a) == [row.menu] + rest;
    Regroup(visited, [row.menu], rest);
  }

  function Depth(a: Above): nat { if a.Top? then 0 else 1 + Depth(a.up) }

  /** Goes up from the end of a row to the next entry, if there is one. */
  method Climb(root: Menu, owner: Menu, c: Config, o: Out, ghost above: Above)
    returns (menu: Menu?, o': Out, ghost row: Tree, ghost a: Above)
    requires root.parent == null && root.next == null
    requires owner == Owner(above, root) && AboveLinked(above, root)
    ensures Linked(menu, row, Owner(a, root), null) && AboveLinked(a, root) && root !in Nodes(row)
    ensures row.Nil? ==> a.Top?
    ensures Finish(c, a, Write(c, row, o')) == Finish(c, above, o)
    ensures Todo(row, a) == Todo(Nil, above)
  {
    menu, o', row, a := owner, o, Nil, above;
    while menu != null
      invariant AboveLinked(a, root) && row.Nil?
      invariant if menu == null then a.Top? else menu == Owner(a, root)
      invariant Finish(c, a, o') == Finish(c, above, o) && Pending(a) == Pending(above)
      decreases if menu == null then 0 else 1 + Depth(a)
    {
      if menu.entry.sym.None? && c.visible(menu) && menu != root {
        o' := o'.(lines := o'.lines + [End(menu)], newline := true);
      }
      if menu.next != null {
        menu, row, a := menu.next, a.next, a.up;
        break;
      }
      menu := menu.parent;
      if a.In? { a := a.up; }
    }
  }

  /** Writes all entries below `root`: the loop ends, and it visits every node once, in order. */
  method Walk(root: Menu, c: Config, ghost t: Tree) returns (o: Out, ghost visited: seq<Menu>)
    requires root.parent == null && root.next == null && root !in Nodes(t)
    requires Linked(root.list, t, root, null)
    ensures o == Write(c, t, Start) && visited == Preorder(t)
  {
    o, visited := Start, [];
    var menu := root.list;
    ghost var row, a := t, Top;
    while menu != null
      invariant Linked(menu, row, Owner(a, root), null) && AboveLinked(a, root) && root !in Nodes(row)
      invariant row.Nil? ==> a.Top?
      invariant Finish(c, a, Write(c, row, o)) == Write(c, t, Start)
      invariant visited + Todo(row, a) == Preorder(t)
      decreases |Todo(row, a)|
    {
      TodoStep(visited, row, a);
      o, visited := Visit(c, menu, o), visited + [menu];
      if menu.list != null {
        a, row := In(menu, row.next, a), row.list;
        menu := menu.list;
      } else if menu.next != null {
        row := row.next;
        menu := menu.next;
      } else {
        menu, o, row, a := Climb(root, menu.parent, c, o, a);
      }
    }
  }

  // ----- what the file says -----

  /** A menu node asks for its symbol to be written. */
  predicate Wanted(c: Config, m: Menu) {
    m.entry.sym.Some? && !m.entry.isChoice && c.writes(m.entry.sym.value)
  }

  ghost function Wants(c: Config, s: set<Menu>): set<Sym> {
    set m | m in s && Wanted(c, m) :: m.entry.sym.value
  }

  lemma WantsUnion(c: Config, s: set<Menu>, s': set<Menu>)
    ensures Wants(c, s + s') == Wants(c, s) + Wants(c, s')
  {
  }

  /** The marked symbols are those with a line, and they have one line each. */
  ghost predicate Recorded(o: Out) {
    && (forall s :: s in o.written <==> Setting(s) in o.lines)
    && (forall i, j :: 0 <= i < j < |o.lines| && o.lines[i].Setting? ==> o.lines[i] != o.lines[j])
  }

  lemma VisitRecords(c: Config, m: Menu, o: Out)
    requires Recorded(o)
    ensures Recorded(Visit(c, m, o)) && Visit(c, m, o).written == o.written + Wants(c, {m})
    ensures Recorded(Leave(c, m, o)) && Leave(c, m, o).written == o.written
  {
    var v := Visit(c, m, o);
    assert forall s :: Setting(s) in v.lines <==> s in v.written by {
      if v != o { assert v.lines[|o.lines|] in v.lines; }
    }
  }

  lemma {:induction false} WriteRecords(c: Config, t: Tree, o: Out)
    requires Recorded(o)
    ensures Recorded(Write(c, t, o)) && Write(c, t, o).written == o.written + Wants(c, Nodes(t))
  {
    if t.Node? {
      var own := Visit(c, t.menu, o);
      VisitRecords(c, t.menu, o);
      WantsUnion(c, {t.menu}, Nodes(t.list));
      WantsUnion(c, {t.menu} + Nodes(t.list), Nodes(t.next));
      if t.list.Node? {
        WriteRecords(c, t.list, own);
        VisitRecords(c, t.menu, Write(c, t.list, own));
        WriteRecords(c, t.next, Leave(c, t.menu, Write(c, t.list, own)));
      } else {
        WriteRecords(c, t.next, own);
      }
    }
  }

  /** A symbol with several menu nodes still gets exactly one line, and none that has a value is
      missing. */
  lemma EverySettingOnce(c: Config, t: Tree)
    ensures var lines := Write(c, t, Start).lines;
            && (forall s :: Setting(s) in lines <==>
                  exists m :: m in Nodes(t) && Wanted(c, m) && m.entry.sym.value == s)
            && (forall i, j :: 0 <= i < j < |lines| && lines[i].Setting? ==> lines[i] != lines[j])
  {
    WriteRecords(c, t, Start);
  }

  /** The lines without end comments and empty lines. */
  function Content(lines: seq<Line>): seq<Line> {
    if lines == [] then []
    else
      var last := lines[|lines| - 1];
      Content(lines[..|lines| - 1]) + if last.End? || last.Empty? then [] else [last]
  }

  function Plain(o: Out): Out { Out(Content(o.lines), o.written, false) }

  function VisitAll(c: Config, s: seq<Menu>, o: Out): Out {
    if s == [] then o else VisitAll(c, s[1..], Visit(c, s[0], o))
  }

  lemma {:induction false} VisitAllAppend(c: Config, s: seq<Menu>, s': seq<Menu>, o: Out)
    ensures VisitAll(c, s + s', o) == VisitAll(c, s', VisitAll(c, s, o))
  {
    if s == [] {
      assert s + s' == s';
    } else {
      assert (s + s')[1..] == s[1..] + s';
      VisitAllAppend(c, s[1..], s', Visit(c, s[0], o));
    }
  }

  lemma PlainLeave(c: Config, m: Menu, o: Out)
    ensures Plain(Leave(c, m, o)) == Plain(o)
  {
    ContentSnoc(o.lines, End(m));
    assert Content(o.lines) + [] == Content(o.lines);
  }

  lemma PlainVisit(c: Config, m: Menu, o: Out)
    ensures Plain(Visit(c, m, o)) == Visit(c, m, Plain(o))
  {
    var v := Visit(c, m, o);
    match m.entry.sym
    case None =>
      if c.visible(m) {
        ContentSnoc(o.lines, Heading(m));
        assert v.lines == o.lines + [Heading(m)];
      }
    case Some(s) =>
      if v != o {
        ContentSnoc(o.lines, Setting(s));
        ContentEmpty(o.lines, s);
        assert Content(v.lines) == Content(o.lines) + [Setting(s)];
      }
  }

  lemma ContentEmpty(lines: seq<Line>, s: Sym)
    ensures Content(lines + [Empty, Setting(s)]) == Content(lines) + [Setting(s)]
  {
    ContentSnoc(lines, Empty);
    ContentSnoc(lines + [Empty], Setting(s));
    assert lines + [Empty] + [Setting(s)] == lines + [Empty, Setting(s)];
    assert Content(lines) + [] == Content(lines);
  }

  lemma ContentSnoc(lines: seq<Line>, x: Line)
    ensures Content(lines + [x]) == Content(lines) + if x.End? || x.Empty? then [] else [x]
  {
    assert (lines + [x])[..|lines|] == lines;
  }

  /** Apart from end comments and empty lines the file depends only on the order of the nodes, not on how they
      nest. */
  lemma {:induction false} WriteInOrder(c: Config, t: Tree, o: Out)
    ensures Plain(Write(c, t, o)) == VisitAll(c, Preorder(t), Plain(o))
  {
    if t.Node? {
      var own := Visit(c, t.menu, o);
      PlainVisit(c, t.menu, o);
      VisitAllAppend(c, [t.menu] + Preorder(t.list), Preorder(t.next), Plain(o));
      VisitAllAppend(c, [t.menu], Preorder(t.list), Plain(o));
      VisitOne(c, t.menu, Plain(o));
      WriteInOrder(c, t.list, own);
      PlainLeave(c, t.menu, Write(c, t.list, own));
      WriteInOrder(c, t.next, if t.list.Nil? then own else Leave(c, t.menu, Write(c, t.list, own)));
    }
  }

  lemma VisitOne(c: Config, m: Menu, o: Out)
    ensures VisitAll(c, [m], o) == Visit(c, m, o)
  {
    assert VisitAll(c, [m], o) == VisitAll(c, [m][1..], Visit(c, m, o));
  }

  /** Finalizes the whole tree and writes it: every node of the tree as it was parsed is visited once,
      in its order, and headings and settings come in that order too.  What is written is the tree `g` with all
      automatic submenus made, after flattening. */
  method FinalizeAndWrite(root: Menu, modules: Sym, now0: Moment, c: Config, ghost k: Tree)
    returns (now: Moment, o: Out, ghost visited: seq<Menu>, ghost g: Tree)
    requires Linked(root, One(root, k), null, null) && Proper(One(root, k))
    modifies Nodes(One(root, k))
    ensures now == AfterBelow(One(root, k), KconfigRules(modules), now0)
    ensures visited == Preorder(k)
    ensures Plain(o) == VisitAll(c, Preorder(k), Start)
    ensures Dissolved(g, Among(Blocks(One(root, k)))) == k
    ensures SubmenusRight(g, null, Blocks(One(root, k)), KconfigRules(modules), now)
    ensures o == Write(c, Dissolved(g, Kept()), Start)
  {
    ghost var u, taken;
    ghost var blocks := Blocks(One(root, k));
    BlocksParsed(One(root, k), blocks);
    now, u, taken, g := Finalize(root, KconfigRules(modules), now0, One(root, k), null, blocks);
    BelowRoot(root, k, u, taken);
    AppendAssociative(Dissolved(g, Among(blocks)), Nil, Nil);
    o, visited := Walk(root, c, u.list);
    WriteInOrder(c, u.list, Start);
  }

  lemma BelowRoot(root: Menu, k: Tree, u: Tree, taken: Tree)
    requires Reshaped(One(root, k), u, taken) && Proper(One(root, k))
    ensures taken.Nil? && u.menu == root && u.next.Nil? && Rearranged(k, u.list) && root !in Nodes(u.list)
  {
    assert taken.Nil? && u.next.Nil?;
    Regroup([root], Preorder(k), []);
    Regroup([root], Preorder(u.list), []);
    assert Preorder(One(root, k)) == [root] + Preorder(k);
    assert Preorder(One(root, u.list)) == [root] + Preorder(u.list);
    assert Preorder(k) == ([root] + Preorder(k))[1..];
    assert Preorder(u.list) == ([root] + Preorder(u.list))[1..];
    NodeProper(One(root, k));
    SameNodes(k, u.list);
  }
}
