/**
 The CoreMark linked list: `core_list_mergesort`, relinking nodes in place, with a comparison function
 that may rewrite the data of the two items it compares.
 */
module CoreList {
  import opened CoreListOrder

  datatype Data = Data(data16: bv16, idx: int)

  class ListData {
    var data16: bv16
    var idx: int

    function Get(): Data
      reads this
    {
      Data(data16, idx)
    }
  }

  class ListHead {
    var next: ListHead?
    var info: ListData
    constructor (info: ListData)
      ensures this.info == info && next == null
    {
      this.info, next := info, null;
    }
  }

  /** What a comparison returns and what it leaves in the two items and in the results structure. */
  datatype Compared<W> = Compared(sign: int, a: bv16, b: bv16, results: W)

  type Comparison<!W> = (Data, Data, W) -> Compared<W>

  /** The comparison never changes `f` of an item. */
  ghost predicate Preserves<W(!new), R>(cmp: Comparison<W>, f: Data -> R) {
    forall a: Data, b: Data, w: W {:trigger cmp(a, b, w)} ::
      && f(a.(data16 := cmp(a, b, w).a)) == f(a)
      && f(b.(data16 := cmp(a, b, w).b)) == f(b)
  }

  /** The comparison orders items by `f`. */
  ghost predicate Orders<W(!new)>(cmp: Comparison<W>, f: Data -> int) {
    forall a: Data, b: Data, w: W {:trigger cmp(a, b, w)} :: cmp(a, b, w).sign <= 0 <==> f(a) <= f(b)
  }

  /** The comparison orders items by the `f` they have once it has been made. */
  ghost predicate Decides<W(!new)>(cmp: Comparison<W>, f: Data -> int) {
    forall a: Data, b: Data, w: W {:trigger cmp(a, b, w)} ::
      cmp(a, b, w).sign <= 0 <==> f(a.(data16 := cmp(a, b, w).a)) <= f(b.(data16 := cmp(a, b, w).b))
  }

  /** The comparison does not change `f` of an item that has property `mark`. */
  ghost predicate Fixes<W(!new), R>(cmp: Comparison<W>, f: Data -> R, mark: Data -> bool) {
    forall a: Data, b: Data, w: W {:trigger cmp(a, b, w)} ::
      && (mark(a) ==> f(a.(data16 := cmp(a, b, w).a)) == f(a))
      && (mark(b) ==> f(b.(data16 := cmp(a, b, w).b)) == f(b))
  }

  /** The comparison orders by a key that an item has for good from its first comparison on. */
  ghost predicate Settles<W(!new)>(cmp: Comparison<W>, key: Data -> int, mark: Data -> bool) {
    Decides(cmp, key) && Establishes(cmp, mark) && Fixes(cmp, key, mark)
  }

  /** The comparison leaves both items in a state with property `f`. */
  ghost predicate Establishes<W(!new)>(cmp: Comparison<W>, f: Data -> bool) {
    forall a: Data, b: Data, w: W {:trigger cmp(a, b, w)} ::
      && f(a.(data16 := cmp(a, b, w).a))
      && f(b.(data16 := cmp(a, b, w).b))
  }

  // ----- lists on the heap -----

  /** Consecutive nodes of the sequence are linked. */
  ghost predicate Linked(s: seq<ListHead>)
    reads s
  {
    forall i {:trigger s[i].next} :: 0 <= i < |s| - 1 ==> s[i].next == s[i + 1]
  }

  /** `head` is a null-terminated list of exactly these nodes. */
  ghost predicate IsList(head: ListHead?, s: seq<ListHead>)
    reads s
  {
    && Linked(s)
    && head == (if s == [] then null else s[0])
    && (s != [] ==> s[|s| - 1].next == null)
  }

  lemma LinkedTail(s: seq<ListHead>)
    requires Linked(s) && s != []
    ensures Linked(s[1..]) && (|s| > 1 ==> s[0].next == s[1])
  {
    forall i | 0 <= i < |s[1..]| - 1
      ensures s[1..][i].next == s[1..][i + 1]
    {
      assert s[i + 1].next == s[i + 1 + 1];
    }
  }

  lemma ListTail(head: ListHead?, s: seq<ListHead>)
    requires IsList(head, s) && s != []
    ensures IsList(s[0].next, s[1..])
  {
    LinkedTail(s);
  }

  /** The nodes under construction, ending in `tail`. */
  ghost predicate IsOutput(list: ListHead?, tail: ListHead?, s: seq<ListHead>)
    reads s
  {
    && Linked(s)
    && (if s == [] then list == null && tail == null else list == s[0] && tail == s[|s| - 1])
  }

  /** Each node has its own item. */
  ghost predicate Owns(items: map<ListHead, ListData>)
    reads items.Keys
  {
    && (forall n :: n in items ==> n.info == items[n])
    && (forall m, n :: m in items && n in items && m != n ==> items[m] != items[n])
  }

  /** The links during a merge: the output so far, the rest of one run, and the list after it. */
  ghost predicate Wired(items: map<ListHead, ListData>, list: ListHead?, tail: ListHead?, out: seq<ListHead>,
                        ps: seq<ListHead>, q: ListHead?, qs: seq<ListHead>)
    reads items.Keys, out, ps, qs
  {
    Owns(items) && IsOutput(list, tail, out) && Linked(ps) && IsList(q, qs)
  }

  function Nodes(s: seq<ListHead>): set<ListHead> { set n | n in s }

  /** What is to be shown about a sort: the key it orders by, a part of the data that is kept, and a
      property that being compared gives an item; with the values of the first two when it began. */
  datatype Goal = Goal(
    key: Data -> int,
    first: ListHead -> int,
    keep: Data -> bv16,
    kept: ListHead -> bv16,
    mark: Data -> bool)

  ghost predicate ByKey<W(!new)>(cmp: Comparison<W>, goal: Goal) {
    (Preserves(cmp, goal.key) && Orders(cmp, goal.key)) || Settles(cmp, goal.key, goal.mark)
  }

  /** The items as far as the comparison function is known to respect them. */
  ghost predicate Items<W(!new)>(cmp: Comparison<W>, goal: Goal, items: map<ListHead, ListData>, g: Tags<ListHead>)
    reads items.Values
  {
    forall n :: n in items ==> Item(cmp, goal, n, items[n].Get(), g)
  }

  ghost predicate Item<W(!new)>(cmp: Comparison<W>, goal: Goal, n: ListHead, d: Data, g: Tags<ListHead>) {
    && (Preserves(cmp, goal.key) ==> goal.key(d) == goal.first(n))
    && (Preserves(cmp, goal.keep) ==> goal.keep(d) == goal.kept(n))
    && (n in g.key && Establishes(cmp, goal.mark) ==> goal.mark(d))
    && (n in g.key && ByKey(cmp, goal) ==> goal.key(d) == g.key[n])
  }

  /** What a comparison makes of the keys. */
  function NoteBoth(g: Tags<ListHead>, goal: Goal, p: ListHead, a: Data, q: ListHead, b: Data): Tags<ListHead> {
    Note(Note(g, p, goal.key(a)), q, goal.key(b))
  }

  lemma NotedBoth(g: Tags<ListHead>, goal: Goal, p: ListHead, a: Data, q: ListHead, b: Data)
    ensures var g' := NoteBoth(g, goal, p, a, q, b);
            Extends(g, g') && g'.key.Keys == g.key.Keys + {p, q}
  {
  }

  /** A comparison gives both items their keys, if they had none, and otherwise keeps what it respects. */
  lemma ItemsCompared<W(!new)>(cmp: Comparison<W>, goal: Goal, p: ListHead, a: Data, q: ListHead, b: Data, w: W,
                               g: Tags<ListHead>)
    requires p != q && Item(cmp, goal, p, a, g) && Item(cmp, goal, q, b, g)
    ensures var r := cmp(a, b, w);
            var (a', b') := (a.(data16 := r.a), b.(data16 := r.b));
            var g' := NoteBoth(g, goal, p, a', q, b');
            && Item(cmp, goal, p, a', g') && Item(cmp, goal, q, b', g')
            && (ByKey(cmp, goal) ==> (r.sign <= 0 <==> Key(g', p) <= Key(g', q)))
  {
    var r := cmp(a, b, w);
    var (a', b') := (a.(data16 := r.a), b.(data16 := r.b));
    NotedBoth(g, goal, p, a', q, b');
    assert p !in g.key ==> Note(g, p, goal.key(a')).key[p] == goal.key(a');
  }

  method Compare<W(!new)>(p: ListHead, q: ListHead, cmp: Comparison<W>, w: W,
                          ghost goal: Goal, ghost items: map<ListHead, ListData>, ghost g: Tags<ListHead>)
    returns (sign: int, w': W, ghost g': Tags<ListHead>)
    requires p in items && q in items && p != q && Owns(items)
    requires Items(cmp, goal, items, g)
    modifies p.info`data16, q.info`data16
    ensures Items(cmp, goal, items, g') && Extends(g, g') && p in g'.key && q in g'.key
    ensures ByKey(cmp, goal) ==> (sign <= 0 <==> Key(g', p) <= Key(g', q))
  {
    var a, b := p.info.Get(), q.info.Get();
    var r := cmp(a, b, w);
    ItemsCompared(cmp, goal, p, a, q, b, w, g);
    p.info.data16, q.info.data16 := r.a, r.b;
    sign, w' := r.sign, r.results;
    g' := NoteBoth(g, goal, p, p.info.Get(), q, q.info.Get());
    NotedBoth(g, goal, p, p.info.Get(), q, q.info.Get());
  }

  /** The sequences together hold every node exactly once. */
  ghost predicate Split(nodes: set<ListHead>, a: seq<ListHead>, b: seq<ListHead>, c: seq<ListHead>) {
    multiset(a) + multiset(b) + multiset(c) == multiset(nodes)
  }

  lemma SplitDistinct(nodes: set<ListHead>, a: seq<ListHead>, b: seq<ListHead>, c: seq<ListHead>)
    requires Split(nodes, a, b, c)
    ensures Distinct(a) && Distinct(b) && Distinct(c)
    ensures Nodes(a) + Nodes(b) + Nodes(c) == nodes
    ensures Nodes(a) !! Nodes(b) && Nodes(a) !! Nodes(c) && Nodes(b) !! Nodes(c)
  {
    OnceDistinct(nodes, a);
    OnceDistinct(nodes, b);
    OnceDistinct(nodes, c);
    forall x: ListHead
      ensures (x in a || x in b || x in c) <==> x in nodes
      ensures !(x in a && x in b) && !(x in a && x in c) && !(x in b && x in c)
    {
      assert multiset(a)[x] + multiset(b)[x] + multiset(c)[x] == multiset(nodes)[x] <= 1;
    }
  }

  lemma OnceDistinct(nodes: set<ListHead>, a: seq<ListHead>)
    requires multiset(a) <= multiset(nodes)
    ensures Distinct(a)
  {
    if i, j :| 0 <= i < j < |a| && a[i] == a[j] {
      Twice(a, i, j);
    }
  }

  lemma Twice(a: seq<ListHead>, i: nat, j: nat)
    requires i < j < |a| && a[i] == a[j]
    ensures multiset(a)[a[i]] >= 2
  {
    var x := a[i];
    assert a == a[..i] + [x] + a[i + 1..j] + [x] + a[j + 1..];
  }

  /** Adds `e` to the output; the nodes still waiting keep their links. */
  method Append(e: ListHead, list0: ListHead?, tail0: ListHead?, ghost items: map<ListHead, ListData>,
                ghost out: seq<ListHead>, ghost ps: seq<ListHead>, ghost q: ListHead?, ghost qs: seq<ListHead>)
    returns (list: ListHead?, tail: ListHead?)
    requires Split(items.Keys, out + [e], ps, qs) && Wired(items, list0, tail0, out, ps, q, qs)
    modifies items.Keys`next
    ensures Wired(items, list, tail, out + [e], ps, q, qs)
  {
    SplitDistinct(items.Keys, out + [e], ps, qs);
    list := list0;
    if tail0 != null {
      assert out[|out| - 1] == (out + [e])[|out| - 1];
      assert tail0 in out + [e] && tail0 in items;
      tail0.next := e;
    } else {
      list := e;
    }
    tail := e;
  }

  /** The nodes during a merge of the runs `ps0` and `qr0`: `done` and `merged` are in the output,
      `ps` and `qr` remain to be merged, `qx` follows. */
  datatype Phase = Phase(ps0: seq<ListHead>, qr0: seq<ListHead>, done: seq<ListHead>, qx: seq<ListHead>)

  ghost predicate Merged(g: Tags<ListHead>, ordered: bool, nodes: set<ListHead>, ph: Phase,
                         merged: seq<ListHead>, ps: seq<ListHead>, qr: seq<ListHead>)
  {
    && Split(nodes, ph.done + merged, ps, qr + ph.qx)
    && multiset(merged) + multiset(ps) + multiset(qr) == multiset(ph.ps0) + multiset(ph.qr0)
    && RunsKnown(g, merged, ps, qr)
    && (ordered ==> Merging(g, merged, ps, qr))
  }

  lemma MergedStays(g: Tags<ListHead>, g': Tags<ListHead>, ordered: bool, nodes: set<ListHead>, ph: Phase,
                    merged: seq<ListHead>, ps: seq<ListHead>, qr: seq<ListHead>)
    requires Merged(g, ordered, nodes, ph, merged, ps, qr) && Extends(g, g')
    ensures Merged(g', ordered, nodes, ph, merged, ps, qr)
  {
    MergingStays(g, g', merged, ps, qr);
  }

  /** If both runs have a next node, both have been compared, and these are their keys. */
  ghost predicate HeadsKnown(g: Tags<ListHead>, ps: seq<ListHead>, qr: seq<ListHead>) {
    ps != [] && qr != [] ==> ps[0] in g.key && qr[0] in g.key
  }

  lemma StepFirst(g: Tags<ListHead>, ordered: bool, nodes: set<ListHead>, ph: Phase,
                  merged: seq<ListHead>, ps: seq<ListHead>, qr: seq<ListHead>)
    requires Merged(g, ordered, nodes, ph, merged, ps, qr) && ps != []
    requires HeadsKnown(g, ps, qr) && (ordered && qr != [] ==> Key(g, ps[0]) <= Key(g, qr[0]))
    ensures Merged(g, ordered, nodes, ph, merged + [ps[0]], ps[1..], qr)
    ensures Split(nodes, ph.done + merged + [ps[0]], ps[1..], qr + ph.qx)
    ensures ph.done + merged + [ps[0]] == ph.done + (merged + [ps[0]])
  {
    assert ps == [ps[0]] + ps[1..];
    assert ph.done + merged + [ps[0]] == ph.done + (merged + [ps[0]]);
    KnownFirst(g, merged, ps, qr);
    if ordered { TakeFirst(g, merged, ps, qr); }
  }

  lemma StepSecond(g: Tags<ListHead>, ordered: bool, nodes: set<ListHead>, ph: Phase,
                   merged: seq<ListHead>, ps: seq<ListHead>, qr: seq<ListHead>)
    requires Merged(g, ordered, nodes, ph, merged, ps, qr) && qr != []
    requires HeadsKnown(g, ps, qr) && (ordered && ps != [] ==> Key(g, qr[0]) < Key(g, ps[0]))
    ensures Merged(g, ordered, nodes, ph, merged + [qr[0]], ps, qr[1..])
    ensures Split(nodes, ph.done + merged + [qr[0]], ps, qr[1..] + ph.qx)
    ensures ph.done + merged + [qr[0]] == ph.done + (merged + [qr[0]])
    ensures (qr + ph.qx)[0] == qr[0] && (qr + ph.qx)[1..] == qr[1..] + ph.qx
  {
    assert qr == [qr[0]] + qr[1..];
    assert qr + ph.qx == [qr[0]] + (qr[1..] + ph.qx);
    assert ph.done + merged + [qr[0]] == ph.done + (merged + [qr[0]]);
    KnownSecond(g, merged, ps, qr);
    if ordered { TakeSecond(g, merged, ps, qr); }
  }

  lemma HeadsApart(g: Tags<ListHead>, ordered: bool, nodes: set<ListHead>, ph: Phase,
                   merged: seq<ListHead>, ps: seq<ListHead>, qr: seq<ListHead>)
    requires Merged(g, ordered, nodes, ph, merged, ps, qr)
    ensures ps != [] ==> ps[0] in nodes
    ensures qr != [] ==> qr[0] in nodes && (qr + ph.qx)[0] == qr[0]
    ensures ps != [] && qr != [] ==> ps[0] != qr[0]
  {
    SplitDistinct(nodes, ph.done + merged, ps, qr + ph.qx);
    assert qr != [] ==> (qr + ph.qx)[0] == qr[0] && qr[0] in qr + ph.qx;
    assert ps != [] ==> ps[0] in ps;
  }

  lemma MergeDone(g: Tags<ListHead>, ordered: bool, nodes: set<ListHead>, ph: Phase, merged: seq<ListHead>)
    requires Merged(g, ordered, nodes, ph, merged, [], [])
    ensures Split(nodes, ph.done + merged, [], ph.qx)
    ensures multiset(merged) == multiset(ph.ps0) + multiset(ph.qr0)
    ensures Run(g, ordered, merged)
  {
    assert [] + ph.qx == ph.qx;
  }

  lemma MergeStart(g: Tags<ListHead>, ordered: bool, nodes: set<ListHead>, ph: Phase)
    requires Split(nodes, ph.done, ph.ps0, ph.qr0 + ph.qx) && Earlier(g, ph.ps0, ph.qr0)
    requires Run(g, ordered, ph.ps0) && Run(g, ordered, ph.qr0)
    ensures ph.done + [] == ph.done
    ensures Merged(g, ordered, nodes, ph, [], ph.ps0, ph.qr0)
  {
    assert ph.done + [] == ph.done;
  }

  /** Decides whether the next node of the merge comes from `p`. */
  method Choose<W(!new)>(p: ListHead?, psize: nat, q: ListHead?, qsize: nat, cmp: Comparison<W>, w: W,
                         ghost goal: Goal, ghost items: map<ListHead, ListData>, ghost g: Tags<ListHead>,
                         ghost list: ListHead?, ghost tail: ListHead?, ghost out: seq<ListHead>,
                         ghost ps: seq<ListHead>, ghost qr: seq<ListHead>, ghost qs: seq<ListHead>)
    returns (fromP: bool, w': W, ghost g': Tags<ListHead>)
    requires Wired(items, list, tail, out, ps, q, qs) && Items(cmp, goal, items, g)
    requires psize == |ps| && (ps != [] ==> p == ps[0] && ps[0] in items)
    requires (qr == [] <==> qsize == 0 || q == null) && (qr != [] ==> q == qr[0] && qr[0] in items)
    requires ps != [] || qr != []
    requires ps != [] && qr != [] ==> ps[0] != qr[0]
    modifies items.Values`data16
    ensures Wired(items, list, tail, out, ps, q, qs)
    ensures if fromP then ps != [] else qr != []
    ensures ByKey(cmp, goal) && ps != [] && qr != [] ==> (fromP <==> Key(g', ps[0]) <= Key(g', qr[0]))
    ensures Items(cmp, goal, items, g') && Extends(g, g') && HeadsKnown(g', ps, qr)
  {
    fromP, w', g' := true, w, g;
    if psize == 0 {
      fromP := false;
    } else if !(qsize == 0 || q == null) {
      var sign;
      sign, w', g' := Compare(p, q, cmp, w, goal, items, g);
      fromP := sign <= 0;
    }
  }

  method TakeP(p: ListHead, list0: ListHead?, tail0: ListHead?,
               ghost items: map<ListHead, ListData>, ghost g: Tags<ListHead>, ghost ordered: bool, ghost ph: Phase,
               ghost merged: seq<ListHead>, ghost ps: seq<ListHead>, ghost q: ListHead?, ghost qr: seq<ListHead>)
    returns (p': ListHead?, list: ListHead?, tail: ListHead?)
    requires Merged(g, ordered, items.Keys, ph, merged, ps, qr) && ps != [] && p == ps[0]
    requires HeadsKnown(g, ps, qr) && (ordered && qr != [] ==> Key(g, ps[0]) <= Key(g, qr[0]))
    requires Wired(items, list0, tail0, ph.done + merged, ps, q, qr + ph.qx)
    modifies items.Keys`next
    ensures Merged(g, ordered, items.Keys, ph, merged + [p], ps[1..], qr) && (|ps| > 1 ==> p' == ps[1])
    ensures Wired(items, list, tail, ph.done + (merged + [p]), ps[1..], q, qr + ph.qx)
  {
    StepFirst(g, ordered, items.Keys, ph, merged, ps, qr);
    LinkedTail(ps);
    p' := p.next;
    list, tail := Append(p, list0, tail0, items, ph.done + merged, ps[1..], q, qr + ph.qx);
  }

  method TakeQ(q: ListHead, list0: ListHead?, tail0: ListHead?,
               ghost items: map<ListHead, ListData>, ghost g: Tags<ListHead>, ghost ordered: bool, ghost ph: Phase,
               ghost merged: seq<ListHead>, ghost ps: seq<ListHead>, ghost qr: seq<ListHead>)
    returns (q': ListHead?, list: ListHead?, tail: ListHead?)
    requires Merged(g, ordered, items.Keys, ph, merged, ps, qr) && qr != [] && q == qr[0]
    requires HeadsKnown(g, ps, qr) && (ordered && ps != [] ==> Key(g, qr[0]) < Key(g, ps[0]))
    requires Wired(items, list0, tail0, ph.done + merged, ps, q, qr + ph.qx)
    modifies items.Keys`next
    ensures Merged(g, ordered, items.Keys, ph, merged + [q], ps, qr[1..])
    ensures Wired(items, list, tail, ph.done + (merged + [q]), ps, q', qr[1..] + ph.qx)
  {
    StepSecond(g, ordered, items.Keys, ph, merged, ps, qr);
    ListTail(q, qr + ph.qx);
    q' := q.next;
    list, tail := Append(q, list0, tail0, items, ph.done + merged, ps, q', qr[1..] + ph.qx);
  }

  /** What holds at the head of the merging loop. */
  ghost predicate MergeLoop<W(!new)>(
    cmp: Comparison<W>, goal: Goal, items: map<ListHead, ListData>, g: Tags<ListHead>, ph: Phase,
    list: ListHead?, tail: ListHead?, p: ListHead?, psize: nat, q: ListHead?, qsize: nat,
    merged: seq<ListHead>, ps: seq<ListHead>, qr: seq<ListHead>)
    reads items.Keys, items.Values, ph.done + merged, ps, qr + ph.qx
  {
    && psize == |ps| && (psize > 0 ==> p == ps[0])
    && |qr| <= qsize && (|qr| < qsize ==> ph.qx == [])
    && Wired(items, list, tail, ph.done + merged, ps, q, qr + ph.qx)
    && Merged(g, ByKey(cmp, goal), items.Keys, ph, merged, ps, qr)
    && Items(cmp, goal, items, g)
  }

  method MergeStep<W(!new)>(
    p: ListHead?, psize: nat, q: ListHead?, qsize: nat, list: ListHead?, tail: ListHead?,
    cmp: Comparison<W>, w: W,
    ghost goal: Goal, ghost items: map<ListHead, ListData>, ghost g: Tags<ListHead>, ghost ph: Phase,
    ghost merged: seq<ListHead>, ghost ps: seq<ListHead>, ghost qr: seq<ListHead>)
    returns (p': ListHead?, psize': nat, q': ListHead?, qsize': nat, list': ListHead?, tail': ListHead?, w': W,
             ghost merged': seq<ListHead>, ghost ps': seq<ListHead>, ghost qr': seq<ListHead>,
             ghost g': Tags<ListHead>)
    requires MergeLoop(cmp, goal, items, g, ph, list, tail, p, psize, q, qsize, merged, ps, qr)
    requires psize > 0 || (qsize > 0 && q != null)
    modifies items.Keys`next, items.Values`data16
    ensures MergeLoop(cmp, goal, items, g', ph, list', tail', p', psize', q', qsize', merged', ps', qr')
    ensures psize' + qsize' < psize + qsize && Extends(g, g')
  {
    var fromP;
    fromP, w', g' := Decide(p, psize, q, qsize, list, tail, cmp, w, goal, items, g, ph, merged, ps, qr);
    p', psize', q', qsize', ps', qr' := p, psize, q, qsize, ps, qr;
    if fromP {
      p', psize', list', tail', merged', ps' :=
        StepP(p, psize, q, qsize, list, tail, cmp, goal, items, g', ph, merged, ps, qr);
    } else {
      q', qsize', list', tail', merged', qr' :=
        StepQ(p, psize, q, qsize, list, tail, cmp, goal, items, g', ph, merged, ps, qr);
    }
  }

  /** Decides which run the next node comes from; comparing may change data but no links. */
  method Decide<W(!new)>(
    p: ListHead?, psize: nat, q: ListHead?, qsize: nat, list: ListHead?, tail: ListHead?, cmp: Comparison<W>, w: W,
    ghost goal: Goal, ghost items: map<ListHead, ListData>, ghost g: Tags<ListHead>, ghost ph: Phase,
    ghost merged: seq<ListHead>, ghost ps: seq<ListHead>, ghost qr: seq<ListHead>)
    returns (fromP: bool, w': W, ghost g': Tags<ListHead>)
    requires MergeLoop(cmp, goal, items, g, ph, list, tail, p, psize, q, qsize, merged, ps, qr)
    requires psize > 0 || (qsize > 0 && q != null)
    modifies items.Values`data16
    ensures MergeLoop(cmp, goal, items, g', ph, list, tail, p, psize, q, qsize, merged, ps, qr) && Extends(g, g')
    ensures HeadsKnown(g', ps, qr) && (if fromP then ps != [] else qr != [])
    ensures ByKey(cmp, goal) && ps != [] && qr != [] ==> (fromP <==> Key(g', ps[0]) <= Key(g', qr[0]))
  {
    HeadsApart(g, ByKey(cmp, goal), items.Keys, ph, merged, ps, qr);
    fromP, w', g' := Choose(p, psize, q, qsize, cmp, w, goal, items, g,
                            list, tail, ph.done + merged, ps, qr, qr + ph.qx);
    MergedStays(g, g', ByKey(cmp, goal), items.Keys, ph, merged, ps, qr);
  }

  method StepP<W(!new)>(
    p: ListHead?, psize: nat, ghost q: ListHead?, ghost qsize: nat, list: ListHead?, tail: ListHead?,
    ghost cmp: Comparison<W>, ghost goal: Goal, ghost items: map<ListHead, ListData>, ghost g: Tags<ListHead>,
    ghost ph: Phase, ghost merged: seq<ListHead>, ghost ps: seq<ListHead>, ghost qr: seq<ListHead>)
    returns (p': ListHead?, psize': nat, list': ListHead?, tail': ListHead?,
             ghost merged': seq<ListHead>, ghost ps': seq<ListHead>)
    requires MergeLoop(cmp, goal, items, g, ph, list, tail, p, psize, q, qsize, merged, ps, qr) && ps != []
    requires HeadsKnown(g, ps, qr) && (ByKey(cmp, goal) && qr != [] ==> Key(g, ps[0]) <= Key(g, qr[0]))
    modifies items.Keys`next
    ensures MergeLoop(cmp, goal, items, g, ph, list', tail', p', psize', q, qsize, merged', ps', qr)
    ensures psize' < psize
  {
    var e: ListHead := p;
    p', list', tail' := TakeP(e, list, tail, items, g, ByKey(cmp, goal), ph, merged, ps, q, qr);
    psize', merged', ps' := psize - 1, merged + [e], ps[1..];
  }

  method StepQ<W(!new)>(
    ghost p: ListHead?, ghost psize: nat, q: ListHead?, qsize: nat, list: ListHead?, tail: ListHead?,
    ghost cmp: Comparison<W>, ghost goal: Goal, ghost items: map<ListHead, ListData>, ghost g: Tags<ListHead>,
    ghost ph: Phase, ghost merged: seq<ListHead>, ghost ps: seq<ListHead>, ghost qr: seq<ListHead>)
    returns (q': ListHead?, qsize': nat, list': ListHead?, tail': ListHead?,
             ghost merged': seq<ListHead>, ghost qr': seq<ListHead>)
    requires MergeLoop(cmp, goal, items, g, ph, list, tail, p, psize, q, qsize, merged, ps, qr) && qr != []
    requires HeadsKnown(g, ps, qr) && (ByKey(cmp, goal) && ps != [] ==> Key(g, qr[0]) < Key(g, ps[0]))
    modifies items.Keys`next
    ensures MergeLoop(cmp, goal, items, g, ph, list', tail', p, psize, q', qsize', merged', ps, qr')
    ensures qsize' < qsize
  {
    assert (qr + ph.qx)[0] == qr[0];
    var e: ListHead := q;
    q', list', tail' := TakeQ(e, list, tail, items, g, ByKey(cmp, goal), ph, merged, ps, qr);
    qsize', merged', qr' := qsize - 1, merged + [e], qr[1..];
  }

  /** The merge of the run of `psize` nodes at `p` with the run of at most `insize` nodes at `q`,
      appended to the output `list..tail`. */
  method Merge<W(!new)>(
    p0: ListHead, psize0: nat, q0: ListHead?, insize: nat, list0: ListHead?, tail0: ListHead?,
    cmp: Comparison<W>, w0: W,
    ghost goal: Goal, ghost items: map<ListHead, ListData>, ghost g0: Tags<ListHead>, ghost ph: Phase)
    returns (list: ListHead?, tail: ListHead?, q: ListHead?, w: W,
             ghost merged: seq<ListHead>, ghost g: Tags<ListHead>)
    requires Split(items.Keys, ph.done, ph.ps0, ph.qr0 + ph.qx)
    requires Wired(items, list0, tail0, ph.done, ph.ps0, q0, ph.qr0 + ph.qx)
    requires psize0 == |ph.ps0| > 0 && p0 == ph.ps0[0]
    requires |ph.qr0| <= insize && (|ph.qr0| < insize ==> ph.qx == [])
    requires Items(cmp, goal, items, g0)
    requires Run(g0, ByKey(cmp, goal), ph.ps0) && Run(g0, ByKey(cmp, goal), ph.qr0) && Earlier(g0, ph.ps0, ph.qr0)
    modifies items.Keys`next, items.Values`data16
    ensures Split(items.Keys, ph.done + merged, [], ph.qx)
    ensures multiset(merged) == multiset(ph.ps0) + multiset(ph.qr0)
    ensures Wired(items, list, tail, ph.done + merged, [], q, ph.qx)
    ensures Items(cmp, goal, items, g) && Extends(g0, g) && Run(g, ByKey(cmp, goal), merged)
  {
    MergeStart(g0, ByKey(cmp, goal), items.Keys, ph);
    list, tail, q, w, merged, g := MergeRuns(p0, psize0, q0, insize, list0, tail0, cmp, w0, goal, items, g0, ph);
    assert [] + ph.qx == ph.qx;
    MergeDone(g, ByKey(cmp, goal), items.Keys, ph, merged);
  }

  /** The merging loop. */
  method MergeRuns<W(!new)>(
    p0: ListHead, psize0: nat, q0: ListHead?, insize: nat, list0: ListHead?, tail0: ListHead?,
    cmp: Comparison<W>, w0: W,
    ghost goal: Goal, ghost items: map<ListHead, ListData>, ghost g0: Tags<ListHead>, ghost ph: Phase)
    returns (list: ListHead?, tail: ListHead?, q: ListHead?, w: W,
             ghost merged: seq<ListHead>, ghost g: Tags<ListHead>)
    requires MergeLoop(cmp, goal, items, g0, ph, list0, tail0, p0, psize0, q0, insize, [], ph.ps0, ph.qr0)
    modifies items.Keys`next, items.Values`data16
    ensures Wired(items, list, tail, ph.done + merged, [], q, [] + ph.qx)
    ensures Merged(g, ByKey(cmp, goal), items.Keys, ph, merged, [], [])
    ensures Items(cmp, goal, items, g) && Extends(g0, g)
  {
    var p: ListHead?, psize, qsize := p0, psize0, insize;
    list, tail, q, w := list0, tail0, q0, w0;
    ghost var ps, qr := ph.ps0, ph.qr0;
    merged, g := [], g0;
    while psize > 0 || (qsize > 0 && q != null)
      invariant MergeLoop(cmp, goal, items, g, ph, list, tail, p, psize, q, qsize, merged, ps, qr)
      invariant Extends(g0, g)
      decreases psize + qsize
    {
      p, psize, q, qsize, list, tail, w, merged, ps, qr, g :=
        MergeStep(p, psize, q, qsize, list, tail, cmp, w, goal, items, g, ph, merged, ps, qr);
    }
    assert ps == [] && qr == [];
  }

  /** Steps `insize` places along from `p`, or to the end of the list. */
  method Advance(p: ListHead, insize: nat, ghost rest: seq<ListHead>) returns (q: ListHead?, psize: nat)
    requires insize > 0 && rest != [] && IsList(p, rest)
    ensures psize == RunLength(insize, |rest|)
    ensures IsList(q, rest[psize..]) && Linked(rest[..psize])
  {
    q, psize := p, 0;
    var i := 0;
    while i < insize
      invariant 0 <= i == psize <= insize && psize <= |rest|
      invariant psize < |rest| && q == rest[psize]
    {
      psize := psize + 1;
      assert psize < |rest| ==> rest[psize - 1].next == rest[psize - 1 + 1];
      q := q.next;
      if q == null {
        break;
      }
      i := i + 1;
    }
    SuffixList(p, rest, psize);
  }

  lemma SuffixList(p: ListHead?, s: seq<ListHead>, n: nat)
    requires IsList(p, s) && n <= |s|
    ensures IsList(if n < |s| then s[n] else null, s[n..]) && Linked(s[..n])
  {
    forall i | 0 <= i < |s[n..]| - 1
      ensures s[n..][i].next == s[n..][i + 1]
    {
      assert s[n + i].next == s[n + i + 1];
    }
  }

  /** Finds the two runs at the front of `rest`. */
  method FindRuns(insize: nat, ghost list: ListHead?, ghost tail: ListHead?, p: ListHead,
                  ghost items: map<ListHead, ListData>, ghost done: seq<ListHead>, ghost rest: seq<ListHead>)
    returns (q: ListHead?, psize: nat, ghost ps: seq<ListHead>, ghost qr: seq<ListHead>, ghost qx: seq<ListHead>)
    requires insize > 0 && rest != []
    requires Wired(items, list, tail, done, [], p, rest)
    ensures (ps, qr, qx) == FrontParts(rest, insize) && psize == |ps| > 0 && p == ps[0]
    ensures |qr| <= insize && (|qr| < insize ==> qx == [])
    ensures Wired(items, list, tail, done, ps, q, qr + qx)
  {
    q, psize := Advance(p, insize, rest);
    ghost var (front, second, after) := FrontParts(rest, insize);
    ps, qr, qx := front, second, after;
    PartsJoin(rest, insize);
  }

  lemma FrontSplit(nodes: set<ListHead>, done: seq<ListHead>, rest: seq<ListHead>, insize: nat)
    requires insize > 0 && rest != [] && Split(nodes, done, [], rest)
    ensures var (ps, qr, qx) := FrontParts(rest, insize);
            Split(nodes, done, ps, qr + qx)
  {
    PartsJoin(rest, insize);
  }

  method MergeNext<W(!new)>(
    insize: nat, list: ListHead?, tail: ListHead?, p: ListHead, cmp: Comparison<W>, w: W,
    ghost goal: Goal, ghost items: map<ListHead, ListData>, ghost g: Tags<ListHead>,
    ghost done: seq<ListHead>, ghost rest: seq<ListHead>)
    returns (list': ListHead?, tail': ListHead?, p': ListHead?, w': W, ghost ps: seq<ListHead>,
             ghost qr: seq<ListHead>, ghost qx: seq<ListHead>, ghost merged: seq<ListHead>, ghost g': Tags<ListHead>)
    requires insize > 0 && rest != []
    requires Split(items.Keys, done, [], rest) && Wired(items, list, tail, done, [], p, rest)
    requires Items(cmp, goal, items, g) && Runs(g, ByKey(cmp, goal), rest, insize)
    modifies items.Keys`next, items.Values`data16
    ensures Split(items.Keys, done + merged, [], qx) && Wired(items, list', tail', done + merged, [], p', qx)
    ensures Items(cmp, goal, items, g')
    ensures Taken(g, g', ByKey(cmp, goal), rest, insize, ps, qr, qx, merged)
  {
    var q, psize;
    q, psize, ps, qr, qx := FindRuns(insize, list, tail, p, items, done, rest);
    FrontRuns(g, ByKey(cmp, goal), rest, insize);
    FrontSplit(items.Keys, done, rest, insize);
    list', tail', p', w', merged, g' :=
      Merge(p, psize, q, insize, list, tail, cmp, w, goal, items, g, Phase(ps, qr, done, qx));
    TakenIntro(g, g', ByKey(cmp, goal), rest, insize, ps, qr, qx, merged);
  }

  method Terminate(tail: ListHead, ghost head: ListHead?, ghost items: map<ListHead, ListData>, ghost s: seq<ListHead>)
    requires Split(items.Keys, s, [], []) && Wired(items, head, tail, s, [], null, [])
    modifies items.Keys`next
    ensures IsList(head, s) && Owns(items)
  {
    SplitDistinct(items.Keys, s, [], []);
    assert tail in s;
    tail.next := null;
  }

  /** One pass: the runs of length `insize` are merged in pairs. */
  method Pass<W(!new)>(
    list0: ListHead, insize: nat, cmp: Comparison<W>, w0: W,
    ghost goal: Goal, ghost items: map<ListHead, ListData>, ghost g0: Tags<ListHead>, ghost s: seq<ListHead>)
    returns (list: ListHead, nmerges: nat, w: W, ghost s': seq<ListHead>, ghost g: Tags<ListHead>)
    requires insize > 0 && s != [] && IsList(list0, s) && Owns(items) && multiset(s) == multiset(items.Keys)
    requires Items(cmp, goal, items, g0) && Runs(g0, ByKey(cmp, goal), s, insize)
    modifies items.Keys`next, items.Values`data16
    ensures s' != [] && IsList(list, s') && Owns(items) && multiset(s') == multiset(items.Keys)
    ensures Items(cmp, goal, items, g) && Runs(g, ByKey(cmp, goal), s', 2 * insize) && Extends(g0, g)
    ensures nmerges <= 1 <==> |s'| <= 2 * insize
  {
    var p: ListHead?, head: ListHead?, tail: ListHead? := list0, null, null;
    nmerges, w := 0, w0;
    ghost var rest := s;
    assert s[0] in multiset(items.Keys);
    s', g := [], g0;
    while p != null
      invariant Split(items.Keys, s', [], rest) && Wired(items, head, tail, s', [], p, rest)
      invariant Items(cmp, goal, items, g) && Extends(g0, g)
      invariant Passing(g, ByKey(cmp, goal), insize, nmerges, s', rest)
      decreases |rest|
    {
      ghost var ps, qr, qx, merged, g1;
      head, tail, p, w, ps, qr, qx, merged, g1 := MergeNext(insize, head, tail, p, cmp, w, goal, items, g, s', rest);
      PassStep(g, g1, ByKey(cmp, goal), insize, nmerges, s', rest, ps, qr, qx, merged);
      nmerges := nmerges + 1;
      s', rest, g := s' + merged, qx, g1;
    }
    PassDone(g, ByKey(cmp, goal), insize, nmerges, items.Keys, s', rest);
    Terminate(tail, head, items, s');
    list := head;
  }

  lemma PassDone(g: Tags<ListHead>, ordered: bool, insize: nat, nmerges: nat, nodes: set<ListHead>,
                 done: seq<ListHead>, rest: seq<ListHead>)
    requires insize > 0 && Passing(g, ordered, insize, nmerges, done, rest) && Split(nodes, done, [], rest)
    requires rest == [] && nodes != {}
    ensures Runs(g, ordered, done, 2 * insize) && (nmerges <= 1 <==> |done| <= 2 * insize)
    ensures multiset(done) == multiset(nodes) && done != []
  {
    var n :| n in nodes;
    assert n in multiset(nodes);
    assert multiset(done) == multiset(done) + multiset([]) + multiset(rest);
  }

  // ----- core_list_mergesort -----

  ghost function Infos(s: seq<ListHead>): set<ListData>
    reads s
  {
    set n | n in s :: n.info
  }

  /** `f` of the item of each node. */
  ghost function Snapshot<R>(s: seq<ListHead>, f: Data -> R): map<ListHead, R>
    reads s, Infos(s)
  {
    map n | n in s :: f(n.info.Get())
  }

  ghost function Place(s: seq<ListHead>, n: ListHead): int {
    if n in s then var i :| 0 <= i < |s| && s[i] == n; i else -1
  }

  function Lookup<R>(m: map<ListHead, R>, default: R): ListHead -> R { n => if n in m then m[n] else default }

  /** Order by key, and for equal keys by place in the list `s`. */
  ghost function StableOrder(s: seq<ListHead>, keys: map<ListHead, int>): Tags<ListHead> {
    Tags(keys, n => Place(s, n))
  }

  /** Different nodes have different items. */
  ghost predicate OwnItems(s: seq<ListHead>)
    reads s
  {
    forall i, j :: 0 <= i < j < |s| ==> s[i] != s[j] && s[i].info != s[j].info
  }

  /** The passes, with runs of length 1, 2, 4, ... */
  method SortPasses<W(!new)>(
    list: ListHead, cmp: Comparison<W>, w0: W, ghost goal: Goal, ghost items: map<ListHead, ListData>,
    ghost g0: Tags<ListHead>, ghost s: seq<ListHead>)
    returns (head: ListHead, w: W, ghost out: seq<ListHead>, ghost g: Tags<ListHead>)
    requires s != [] && IsList(list, s) && Owns(items) && multiset(s) == multiset(items.Keys) && |s| < 0x8000_0000
    requires Items(cmp, goal, items, g0) && Runs(g0, ByKey(cmp, goal), s, 1)
    modifies items.Keys`next, items.Values`data16
    ensures out != [] && IsList(head, out) && Owns(items) && multiset(out) == multiset(items.Keys)
    ensures Items(cmp, goal, items, g) && Run(g, ByKey(cmp, goal), out) && Extends(g0, g)
  {
    var insize: nat := 1;
    head, w, out, g := list, w0, s, g0;
    while true
      invariant 0 < insize <= |s|
      invariant out != [] && IsList(head, out) && Owns(items) && multiset(out) == multiset(items.Keys)
      invariant Items(cmp, goal, items, g) && Runs(g, ByKey(cmp, goal), out, insize) && Extends(g0, g)
      decreases |s| - insize
    {
      var nmerges;
      head, nmerges, w, out, g := Pass(head, insize, cmp, w, goal, items, g, out);
      assert |out| == |multiset(out)| == |multiset(s)| == |s|;
      if nmerges <= 1 {
        PassEnd(g, ByKey(cmp, goal), 2 * insize, out);
        return;
      }
      assert 2 * insize < 0x8000_0000;  // no overflow of ee_s32
      insize := 2 * insize;
    }
  }

  /** The sort relinks exactly the given nodes, whatever the comparison function does; it sorts stably by
      any key the comparison function orders by and keeps, or that an item has for good from its first
      comparison on, keeps whatever of the data the comparison function keeps, and compares every node of
      a list of two or more at least once. */
  method MergeSort<W(!new)>(
    list: ListHead, cmp: Comparison<W>, w0: W,
    ghost s: seq<ListHead>, ghost key: Data -> int, ghost keep: Data -> bv16, ghost mark: Data -> bool)
    returns (head: ListHead, w: W, ghost out: seq<ListHead>)
    requires s != [] && IsList(list, s) && OwnItems(s) && |s| < 0x8000_0000
    modifies Nodes(s)`next, Infos(s)`data16
    ensures IsList(head, out) && multiset(out) == multiset(s) && out != []
    ensures Preserves(cmp, key) && Orders(cmp, key) ==> Sorted(StableOrder(s, old(Snapshot(s, key))), out)
    ensures Settles(cmp, key, mark) ==> Sorted(StableOrder(s, Snapshot(s, key)), out)
    ensures Preserves(cmp, keep) ==> forall n :: n in s ==> keep(n.info.Get()) == old(keep(n.info.Get()))
    ensures Establishes(cmp, mark) && |s| > 1 ==> forall n :: n in s ==> mark(n.info.Get())
  {
    ghost var items, goal, g := ItemsOf(s), GoalOf(s, key, keep, mark), StableOrder(s, map[]);
    SortSetup(cmp, s, key, keep, mark);
    FirstKeys(s, key, keep, mark);
    head, w, out, g := SortPasses(list, cmp, w0, goal, items, g, s);
    SortOutcomes(cmp, goal, items, g, s, out);
  }

  ghost function ItemsOf(s: seq<ListHead>): map<ListHead, ListData>
    reads s
  {
    map n | n in s :: n.info
  }

  ghost function GoalOf(s: seq<ListHead>, key: Data -> int, keep: Data -> bv16, mark: Data -> bool): Goal
    reads s, Infos(s)
  {
    Goal(key, Lookup(Snapshot(s, key), 0), keep, Lookup(Snapshot(s, keep), 0), mark)
  }

  lemma SortSetup<W(!new)>(
    cmp: Comparison<W>, s: seq<ListHead>, key: Data -> int, keep: Data -> bv16, mark: Data -> bool)
    requires OwnItems(s)
    ensures var items, goal, g := ItemsOf(s), GoalOf(s, key, keep, mark), StableOrder(s, map[]);
            && Owns(items) && items.Keys == Nodes(s) && multiset(s) == multiset(items.Keys)
            && Items(cmp, goal, items, g) && Runs(g, ByKey(cmp, goal), s, 1)
  {
    var items, goal := ItemsOf(s), GoalOf(s, key, keep, mark);
    ItemsSetup(cmp, s, key, keep, mark);
    MultisetOfDistinct(s, items.Keys);
    SingletonRuns(StableOrder(s, map[]), ByKey(cmp, goal), s);
  }

  lemma FirstKeys(s: seq<ListHead>, key: Data -> int, keep: Data -> bv16, mark: Data -> bool)
    ensures Snapshot(s, key) == map n | n in s :: GoalOf(s, key, keep, mark).first(n)
  {
  }

  lemma ItemsSetup<W(!new)>(
    cmp: Comparison<W>, s: seq<ListHead>, key: Data -> int, keep: Data -> bv16, mark: Data -> bool)
    requires OwnItems(s)
    ensures var items, goal := ItemsOf(s), GoalOf(s, key, keep, mark);
            Owns(items) && items.Keys == Nodes(s) && Items(cmp, goal, items, StableOrder(s, map[]))
  {
  }

  lemma SortOutcome<W(!new)>(cmp: Comparison<W>, goal: Goal, items: map<ListHead, ListData>, g: Tags<ListHead>,
                             s: seq<ListHead>, out: seq<ListHead>, n: ListHead)
    requires Items(cmp, goal, items, g) && Run(g, ByKey(cmp, goal), out)
    requires multiset(out) == multiset(s) && n in s && n in items
    ensures Preserves(cmp, goal.key) ==> goal.key(items[n].Get()) == goal.first(n)
    ensures Preserves(cmp, goal.keep) ==> goal.keep(items[n].Get()) == goal.kept(n)
    ensures Establishes(cmp, goal.mark) && |s| > 1 ==> goal.mark(items[n].Get())
    ensures ByKey(cmp, goal) && |s| > 1 ==> n in g.key && goal.key(items[n].Get()) == g.key[n]
  {
    assert n in multiset(out) && |out| == |multiset(out)| == |s|;
    assert Item(cmp, goal, n, items[n].Get(), g);
  }

  /** The keys the sort has met are those the items have at the end. */
  lemma FinalKeys<W(!new)>(cmp: Comparison<W>, goal: Goal, items: map<ListHead, ListData>, g: Tags<ListHead>,
                           s: seq<ListHead>, out: seq<ListHead>)
    requires Items(cmp, goal, items, g) && Run(g, ByKey(cmp, goal), out) && ByKey(cmp, goal)
    requires multiset(out) == multiset(s) && Owns(items) && items.Keys == Nodes(s) && Extends(StableOrder(s, map[]), g)
    ensures Sorted(StableOrder(s, Snapshot(s, goal.key)), out)
  {
    var h := StableOrder(s, Snapshot(s, goal.key));
    assert |out| == |multiset(out)| == |s|;
    forall i, j | 0 <= i < j < |out|
      ensures Less(h, out[i], out[j])
    {
      assert out[i] in multiset(s) && out[j] in multiset(s) && Less(g, out[i], out[j]);
      SortOutcome(cmp, goal, items, g, s, out, out[i]);
      SortOutcome(cmp, goal, items, g, s, out, out[j]);
    }
  }

  lemma SortOutcomes<W(!new)>(cmp: Comparison<W>, goal: Goal, items: map<ListHead, ListData>, g: Tags<ListHead>,
                              s: seq<ListHead>, out: seq<ListHead>)
    requires Items(cmp, goal, items, g) && Run(g, ByKey(cmp, goal), out)
    requires multiset(out) == multiset(s) && Owns(items) && items.Keys == Nodes(s) && Extends(StableOrder(s, map[]), g)
    ensures Preserves(cmp, goal.keep) ==> forall n :: n in s ==> goal.keep(n.info.Get()) == goal.kept(n)
    ensures Establishes(cmp, goal.mark) && |s| > 1 ==> forall n :: n in s ==> goal.mark(n.info.Get())
    ensures ByKey(cmp, goal) ==> Sorted(StableOrder(s, Snapshot(s, goal.key)), out)
    ensures Preserves(cmp, goal.key) ==> Snapshot(s, goal.key) == map n | n in s :: goal.first(n)
  {
    forall n | n in s
      ensures Preserves(cmp, goal.key) ==> goal.key(n.info.Get()) == goal.first(n)
      ensures Preserves(cmp, goal.keep) ==> goal.keep(n.info.Get()) == goal.kept(n)
      ensures Establishes(cmp, goal.mark) && |s| > 1 ==> goal.mark(n.info.Get())
    {
      SortOutcome(cmp, goal, items, g, s, out, n);
    }
    if ByKey(cmp, goal) {
      FinalKeys(cmp, goal, items, g, s, out);
    }
  }

  lemma {:induction false} MultisetOfDistinct(s: seq<ListHead>, nodes: set<ListHead>)
    requires Distinct(s) && nodes == Nodes(s)
    ensures multiset(s) == multiset(nodes)
    decreases |s|
  {
    if s != [] {
      var n := s[|s| - 1];
      assert s == s[..|s| - 1] + [n];
      MultisetOfDistinct(s[..|s| - 1], nodes - {n});
      assert nodes == (nodes - {n}) + {n};
    }
  }
}
