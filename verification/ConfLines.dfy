/**
 What the written configuration looks like around each node of the menu tree: where its own line stands, what
 stands between that line and its end comment, and where empty lines are.
 */
module KconfigLines {
  import opened KconfigMenuTree
  import opened KconfigWrite

  // ----- the nodes around a node -----

  /** The nodes above `m`. */
  function Ancestors(t: Tree, m: Menu): set<Menu> {
    if t.Nil? || m == t.menu then {}
    else if m in Nodes(t.list) then {t.menu} + Ancestors(t.list, m)
    else Ancestors(t.next, m)
  }

  /** The nodes before `m` that are not above it. */
  function Before(t: Tree, m: Menu): set<Menu> {
    if t.Nil? || m == t.menu then {}
    else if m in Nodes(t.list) then Before(t.list, m)
    else {t.menu} + Nodes(t.list) + Before(t.next, m)
  }

  /** The nodes after `m` that are not below it. */
  function Behind(t: Tree, m: Menu): set<Menu> {
    if t.Nil? then {}
    else if m == t.menu then Nodes(t.next)
    else if m in Nodes(t.list) then Behind(t.list, m) + Nodes(t.next)
    else Behind(t.next, m)
  }

  lemma {:induction false} NodesAround(t: Tree, m: Menu)
    requires Proper(t) && m in Nodes(t)
    ensures Nodes(t) == {m} + Below(t, m) + Ancestors(t, m) + Before(t, m) + Behind(t, m)
    ensures m !in Below(t, m) + Ancestors(t, m) + Before(t, m) + Behind(t, m)
  {
    NodeProper(t);
    if m in Nodes(t.list) {
      NodesAround(t.list, m);
    } else if m != t.menu {
      NodesAround(t.next, m);
    }
  }

  // ----- which nodes lines come from -----

  /** Headings and settings come from nodes in `opens`, end comments from nodes in `closes`. */
  ghost predicate LinesOf(c: Config, lines: seq<Line>, opens: set<Menu>, closes: set<Menu>) {
    forall x :: x in lines ==>
      match x
      case Heading(n) => n in opens
      case Setting(s) => exists n :: n in opens && Wanted(c, n) && n.entry.sym.value == s
      case End(n) => n in closes
      case Empty => true
  }

  lemma LinesAppend(c: Config, a: seq<Line>, b: seq<Line>, opens: set<Menu>, closes: set<Menu>)
    requires LinesOf(c, a, opens, closes) && LinesOf(c, b, opens, closes)
    ensures LinesOf(c, a + b, opens, closes)
  {
  }

  lemma MoreNodes(c: Config, a: seq<Line>, opens: set<Menu>, closes: set<Menu>, opens': set<Menu>, closes': set<Menu>)
    requires LinesOf(c, a, opens, closes) && opens <= opens' && closes <= closes'
    ensures LinesOf(c, a, opens', closes')
  {
    forall s | Setting(s) in a
      ensures exists n :: n in opens' && Wanted(c, n) && n.entry.sym.value == s
    {
      var n :| n in opens && Wanted(c, n) && n.entry.sym.value == s;
      assert n in opens';
    }
  }

  /** The line that a node writes when it is reached, after the lines `before`: a visible menu its heading, a
      symbol its setting if that is not there yet. */
  ghost predicate OwnLine(c: Config, m: Menu, before: seq<Line>, own: seq<Line>) {
    match m.entry.sym
    case None => own == if c.visible(m) then [Heading(m)] else []
    case Some(s) =>
      if Wanted(c, m) && Setting(s) !in before then own == [Setting(s)] || own == [Empty, Setting(s)] else own == []
  }

  /** A visible menu ends with a comment. */
  function EndLine(c: Config, m: Menu): seq<Line> { if m.entry.sym.None? && c.visible(m) then [End(m)] else [] }

  lemma VisitAdds(c: Config, m: Menu, o: Out) returns (own: seq<Line>)
    requires Recorded(o)
    ensures Visit(c, m, o).lines == o.lines + own && OwnLine(c, m, o.lines, own) && LinesOf(c, own, {m}, {})
    ensures Recorded(Visit(c, m, o))
  {
    VisitRecords(c, m, o);
    var v := Visit(c, m, o);
    own := v.lines[|o.lines|..];
    assert m in {m};
  }

  lemma LeaveAdds(c: Config, m: Menu, o: Out)
    requires Recorded(o)
    ensures Leave(c, m, o).lines == o.lines + EndLine(c, m) && LinesOf(c, EndLine(c, m), {}, {m})
    ensures Recorded(Leave(c, m, o))
  {
    VisitRecords(c, m, o);
  }

  /** A node with its children. */
  function WriteNode(c: Config, t: Tree, o: Out): Out
    requires t.Node?
  {
    var own := Visit(c, t.menu, o);
    if t.list.Nil? then own else Leave(c, t.menu, Write(c, t.list, own))
  }

  lemma {:induction false} WriteAdds(c: Config, t: Tree, o: Out) returns (x: seq<Line>)
    requires Recorded(o)
    ensures Write(c, t, o).lines == o.lines + x && LinesOf(c, x, Nodes(t), Nodes(t)) && Recorded(Write(c, t, o))
    decreases t, 1
  {
    x := [];
    if t.Node? {
      var own, inner, end := NodeAdds(c, t, o);
      var rest := WriteAdds(c, t.next, WriteNode(c, t, o));
      x := own + inner + end + rest;
      MoreNodes(c, own, {t.menu}, {}, Nodes(t), Nodes(t));
      MoreNodes(c, inner, Nodes(t.list), Nodes(t.list), Nodes(t), Nodes(t));
      MoreNodes(c, end, {}, {t.menu}, Nodes(t), Nodes(t));
      MoreNodes(c, rest, Nodes(t.next), Nodes(t.next), Nodes(t), Nodes(t));
      LinesAppend(c, own, inner, Nodes(t), Nodes(t));
      LinesAppend(c, own + inner, end, Nodes(t), Nodes(t));
      LinesAppend(c, own + inner + end, rest, Nodes(t), Nodes(t));
    }
  }

  lemma {:induction false} NodeAdds(c: Config, t: Tree, o: Out)
    returns (own: seq<Line>, inner: seq<Line>, end: seq<Line>)
    requires Recorded(o) && t.Node?
    ensures WriteNode(c, t, o).lines == o.lines + (own + inner + end) && Recorded(WriteNode(c, t, o))
    ensures OwnLine(c, t.menu, o.lines, own) && LinesOf(c, own, {t.menu}, {})
    ensures LinesOf(c, inner, Nodes(t.list), Nodes(t.list))
    ensures end == (if Nodes(t.list) == {} then [] else EndLine(c, t.menu)) && LinesOf(c, end, {}, {t.menu})
    decreases t, 0
  {
    own := VisitAdds(c, t.menu, o);
    inner, end := [], [];
    var v := Visit(c, t.menu, o);
    if t.list.Node? {
      assert t.list.menu in Nodes(t.list);
      inner := WriteAdds(c, t.list, v);
      LeaveAdds(c, t.menu, Write(c, t.list, v));
      end := EndLine(c, t.menu);
    }
  }

  // ----- the file around a node -----

  /** The lines of a file in five parts around a node. */
  datatype Around = Around(before: seq<Line>, own: seq<Line>, inner: seq<Line>, end: seq<Line>, behind: seq<Line>)

  function Joined(a: Around): seq<Line> { a.before + a.own + a.inner + a.end + a.behind }

  /** The parts are right for the node `m` of `t`, when `written` stands before all. */
  ghost predicate Surrounds(c: Config, t: Tree, m: Menu, written: seq<Line>, a: Around) {
    && LinesOf(c, a.before, Before(t, m) + Ancestors(t, m), Before(t, m))
    && OwnLine(c, m, written + a.before, a.own)
    && LinesOf(c, a.inner, Below(t, m), Below(t, m))
    && a.end == (if Below(t, m) == {} then [] else EndLine(c, m))
    && LinesOf(c, a.behind, Behind(t, m), Behind(t, m) + Ancestors(t, m))
  }

  /** The same parts with more lines before and behind. */
  function Wider(a: Around, front: seq<Line>, back: seq<Line>): Around {
    a.(before := front + a.before, behind := a.behind + back)
  }

  lemma WiderJoined(a: Around, front: seq<Line>, back: seq<Line>, written: seq<Line>)
    ensures Joined(Wider(a, front, back)) == front + Joined(a) + back
    ensures written + Joined(Wider(a, front, back)) == written + front + Joined(a) + back
    ensures written + front + a.before == written + Wider(a, front, back).before
  {
  }

  /** `m` is behind the first node of the row, which writes `node`. */
  lemma NextSurrounds(c: Config, t: Tree, m: Menu, written: seq<Line>, node: seq<Line>, b: Around)
    requires t.Node? && m != t.menu && m !in Nodes(t.list)
    requires LinesOf(c, node, Before(t, m) + Ancestors(t, m), Before(t, m))
    requires Surrounds(c, t.next, m, written + node, b)
    ensures Surrounds(c, t, m, written, Wider(b, node, []))
  {
    var s, s' := Before(t, m) + Ancestors(t, m), Before(t, m);
    MoreNodes(c, b.before, Before(t.next, m) + Ancestors(t.next, m), Before(t.next, m), s, s');
    LinesAppend(c, node, b.before, s, s');
    WiderJoined(b, node, [], written);
    assert b.behind + [] == b.behind;
  }

  /** `m` is below the first node of the row, which writes `own` and `end`. */
  lemma InsideSurrounds(c: Config, t: Tree, m: Menu, written: seq<Line>, own: seq<Line>, end: seq<Line>,
                        rest: seq<Line>, b: Around)
    requires t.Node? && m != t.menu && m in Nodes(t.list) && Surrounds(c, t.list, m, written + own, b)
    requires LinesOf(c, own, {t.menu}, {}) && LinesOf(c, end, {}, {t.menu})
    requires LinesOf(c, rest, Nodes(t.next), Nodes(t.next))
    ensures Surrounds(c, t, m, written, Wider(b, own, end + rest))
  {
    var s, s' := Before(t, m) + Ancestors(t, m), Before(t, m);
    MoreNodes(c, own, {t.menu}, {}, s, s');
    MoreNodes(c, b.before, Before(t.list, m) + Ancestors(t.list, m), Before(t.list, m), s, s');
    LinesAppend(c, own, b.before, s, s');
    InsideBehind(c, t, m, end, rest, b);
    WiderJoined(b, own, end + rest, written);
  }

  lemma InsideBehind(c: Config, t: Tree, m: Menu, end: seq<Line>, rest: seq<Line>, b: Around)
    requires t.Node? && m != t.menu && m in Nodes(t.list)
    requires LinesOf(c, b.behind, Behind(t.list, m), Behind(t.list, m) + Ancestors(t.list, m))
    requires LinesOf(c, end, {}, {t.menu}) && LinesOf(c, rest, Nodes(t.next), Nodes(t.next))
    ensures LinesOf(c, b.behind + (end + rest), Behind(t, m), Behind(t, m) + Ancestors(t, m))
  {
    var r, r' := Behind(t, m), Behind(t, m) + Ancestors(t, m);
    MoreNodes(c, b.behind, Behind(t.list, m), Behind(t.list, m) + Ancestors(t.list, m), r, r');
    MoreNodes(c, end, {}, {t.menu}, r, r');
    MoreNodes(c, rest, Nodes(t.next), Nodes(t.next), r, r');
    LinesAppend(c, end, rest, r, r');
    LinesAppend(c, b.behind, end + rest, r, r');
  }

  /** All lines of a node before `m`. */
  lemma NodeLines(c: Config, t: Tree, m: Menu, own: seq<Line>, inner: seq<Line>, end: seq<Line>)
    requires t.Node? && m != t.menu && m !in Nodes(t.list)
    requires LinesOf(c, own, {t.menu}, {}) && LinesOf(c, inner, Nodes(t.list), Nodes(t.list))
    requires LinesOf(c, end, {}, {t.menu})
    ensures LinesOf(c, own + inner + end, Before(t, m) + Ancestors(t, m), Before(t, m))
  {
    var s, s' := Before(t, m) + Ancestors(t, m), Before(t, m);
    MoreNodes(c, own, {t.menu}, {}, s, s');
    MoreNodes(c, inner, Nodes(t.list), Nodes(t.list), s, s');
    MoreNodes(c, end, {}, {t.menu}, s, s');
    LinesAppend(c, own, inner, s, s');
    LinesAppend(c, own + inner, end, s, s');
  }

  lemma {:induction false} FindAround(c: Config, t: Tree, o: Out, m: Menu) returns (a: Around)
    requires Recorded(o) && m in Nodes(t)
    ensures Write(c, t, o).lines == o.lines + Joined(a) && Surrounds(c, t, m, o.lines, a)
    decreases t, 1
  {
    if m == t.menu {
      a := AroundFirst(c, t, o);
    } else if m in Nodes(t.list) {
      a := AroundInside(c, t, o, m);
    } else {
      var own, inner, end := NodeAdds(c, t, o);
      var node := own + inner + end;
      var b := FindAround(c, t.next, WriteNode(c, t, o), m);
      NodeLines(c, t, m, own, inner, end);
      NextSurrounds(c, t, m, o.lines, node, b);
      WiderJoined(b, node, [], o.lines);
      a := Wider(b, node, []);
      assert o.lines + node + Joined(b) + [] == o.lines + node + Joined(b);
    }
  }

  lemma AroundFirst(c: Config, t: Tree, o: Out) returns (a: Around)
    requires Recorded(o) && t.Node?
    ensures Write(c, t, o).lines == o.lines + Joined(a) && Surrounds(c, t, t.menu, o.lines, a)
  {
    var own, inner, end := NodeAdds(c, t, o);
    var rest := WriteAdds(c, t.next, WriteNode(c, t, o));
    a := Around([], own, inner, end, rest);
    SurroundsFirst(c, t, o.lines, a);
    FiveParts(o.lines, own, inner, end, rest);
  }

  lemma FiveParts(written: seq<Line>, own: seq<Line>, inner: seq<Line>, end: seq<Line>, rest: seq<Line>)
    ensures written + (own + inner + end) + rest == written + Joined(Around([], own, inner, end, rest))
  {
  }

  lemma SurroundsFirst(c: Config, t: Tree, written: seq<Line>, a: Around)
    requires t.Node? && a.before == [] && OwnLine(c, t.menu, written, a.own)
    requires LinesOf(c, a.inner, Nodes(t.list), Nodes(t.list)) && LinesOf(c, a.behind, Nodes(t.next), Nodes(t.next))
    requires a.end == if Nodes(t.list) == {} then [] else EndLine(c, t.menu)
    ensures Surrounds(c, t, t.menu, written, a)
  {
    assert written + [] == written;
    assert Behind(t, t.menu) == Nodes(t.next) && Ancestors(t, t.menu) == {};
    assert Nodes(t.next) + {} == Nodes(t.next);
  }

  lemma {:induction false} InsideLines(c: Config, t: Tree, o: Out, m: Menu) returns (own: seq<Line>, b: Around)
    requires Recorded(o) && t.Node? && m != t.menu && m in Nodes(t.list)
    ensures WriteNode(c, t, o).lines == o.lines + own + Joined(b) + EndLine(c, t.menu)
    ensures Recorded(WriteNode(c, t, o)) && Surrounds(c, t.list, m, o.lines + own, b)
    ensures LinesOf(c, own, {t.menu}, {}) && LinesOf(c, EndLine(c, t.menu), {}, {t.menu})
    decreases t, 0, 0
  {
    assert t.list.Node?;
    var v := Visit(c, t.menu, o);
    own := VisitAdds(c, t.menu, o);
    b := FindAround(c, t.list, v, m);
    var x := WriteAdds(c, t.list, v);
    LeaveAdds(c, t.menu, Write(c, t.list, v));
  }

  lemma {:induction false} AroundInside(c: Config, t: Tree, o: Out, m: Menu) returns (a: Around)
    requires Recorded(o) && t.Node? && m != t.menu && m in Nodes(t.list)
    ensures Write(c, t, o).lines == o.lines + Joined(a) && Surrounds(c, t, m, o.lines, a)
    decreases t, 0, 1
  {
    var own, b := InsideLines(c, t, o, m);
    var end := EndLine(c, t.menu);
    var rest := WriteAdds(c, t.next, WriteNode(c, t, o));
    InsideSurrounds(c, t, m, o.lines, own, end, rest, b);
    WiderJoined(b, own, end + rest, o.lines);
    a := Wider(b, own, end + rest);
    Grouped(o.lines, own, Joined(b), end, rest);
  }

  lemma Grouped(written: seq<Line>, own: seq<Line>, x: seq<Line>, end: seq<Line>, rest: seq<Line>)
    ensures written + own + x + end + rest == written + own + x + (end + rest)
  {
  }

  /** The whole file around any node: before its own line only lines of earlier nodes, with the headings of the
      menus around it; between its own line and its end comment only lines of the nodes below it; behind that
      only lines of later nodes, with the end comments of the menus around it. */
  lemma FileAround(c: Config, t: Tree, m: Menu) returns (a: Around)
    requires m in Nodes(t)
    ensures Write(c, t, Start).lines == Joined(a) && Surrounds(c, t, m, [], a)
  {
    a := FindAround(c, t, Start, m);
    assert [] + Joined(a) == Joined(a);
  }

  // ----- headings and end comments -----

  /** `x` stands in the lines exactly once. */
  ghost predicate Once(lines: seq<Line>, x: Line) { multiset(lines)[x] == 1 }

  lemma NotThere(c: Config, lines: seq<Line>, opens: set<Menu>, closes: set<Menu>, m: Menu)
    requires LinesOf(c, lines, opens, closes)
    ensures m !in opens ==> multiset(lines)[Heading(m)] == 0
    ensures m !in closes ==> multiset(lines)[End(m)] == 0
  {
    assert Heading(m) in lines <==> Heading(m) in multiset(lines);
    assert End(m) in lines <==> End(m) in multiset(lines);
  }

  lemma JoinedCount(a: Around, x: Line)
    ensures multiset(Joined(a))[x] ==
            multiset(a.before)[x] + multiset(a.own)[x] + multiset(a.inner)[x] + multiset(a.end)[x]
            + multiset(a.behind)[x]
  {
    assert multiset(Joined(a)) ==
           multiset(a.before) + multiset(a.own) + multiset(a.inner) + multiset(a.end) + multiset(a.behind);
  }

  /** Exactly the visible menus of the tree have a heading, each one; exactly those with children have an end
      comment, each one. */
  lemma MenuLines(c: Config, t: Tree, m: Menu)
    requires Proper(t)
    ensures var lines, menu := Write(c, t, Start).lines, m in Nodes(t) && m.entry.sym.None? && c.visible(m);
            && (Heading(m) in lines <==> menu) && (menu ==> Once(lines, Heading(m)))
            && (End(m) in lines <==> menu && Below(t, m) != {})
            && (menu && Below(t, m) != {} ==> Once(lines, End(m)))
  {
    var lines := Write(c, t, Start).lines;
    assert Heading(m) in lines <==> Heading(m) in multiset(lines);
    assert End(m) in lines <==> End(m) in multiset(lines);
    if m in Nodes(t) {
      var a := FileAround(c, t, m);
      NodesAround(t, m);
      NotThere(c, a.before, Before(t, m) + Ancestors(t, m), Before(t, m), m);
      NotThere(c, a.inner, Below(t, m), Below(t, m), m);
      NotThere(c, a.behind, Behind(t, m), Behind(t, m) + Ancestors(t, m), m);
      JoinedCount(a, Heading(m));
      JoinedCount(a, End(m));
      OwnCount(c, m, a.before, a.own);
    } else {
      var x := WriteAdds(c, t, Start);
      NotThere(c, x, Nodes(t), Nodes(t), m);
      assert [] + x == x;
    }
  }

  lemma OwnCount(c: Config, m: Menu, before: seq<Line>, own: seq<Line>)
    requires OwnLine(c, m, [] + before, own)
    ensures multiset(own)[Heading(m)] == if m.entry.sym.None? && c.visible(m) then 1 else 0
    ensures multiset(own)[End(m)] == 0
    ensures multiset(EndLine(c, m))[End(m)] == (if m.entry.sym.None? && c.visible(m) then 1 else 0)
    ensures multiset(EndLine(c, m))[Heading(m)] == 0
  {
  }

  // ----- empty lines -----

  /** An empty line stands exactly between an end comment and a setting. */
  ghost predicate Spaced(lines: seq<Line>) {
    && (forall i :: 0 <= i < |lines| && lines[i].Empty? ==>
          0 < i < |lines| - 1 && lines[i - 1].End? && lines[i + 1].Setting?)
    && (forall i :: 0 < i < |lines| && lines[i].Setting? ==> !lines[i - 1].End?)
  }

  ghost predicate SpacedSoFar(o: Out) {
    Spaced(o.lines) && (o.newline <==> o.lines != [] && o.lines[|o.lines| - 1].End?)
  }

  lemma VisitSpaces(c: Config, m: Menu, o: Out)
    requires SpacedSoFar(o)
    ensures SpacedSoFar(Visit(c, m, o)) && SpacedSoFar(Leave(c, m, o))
  {
  }

  lemma {:induction false} WriteSpaces(c: Config, t: Tree, o: Out)
    requires SpacedSoFar(o)
    ensures SpacedSoFar(Write(c, t, o))
  {
    if t.Node? {
      var own := Visit(c, t.menu, o);
      VisitSpaces(c, t.menu, o);
      if t.list.Node? {
        WriteSpaces(c, t.list, own);
        VisitSpaces(c, t.menu, Write(c, t.list, own));
      }
      WriteSpaces(c, t.next, WriteNode(c, t, o));
    }
  }

  lemma EmptyLines(c: Config, t: Tree)
    ensures Spaced(Write(c, t, Start).lines)
  {
    WriteSpaces(c, t, Start);
  }
}
