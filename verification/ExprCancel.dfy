/**
 Common-operand cancellation on trees is a double loop over the two lists of operands, whatever the
 parentheses; from that follow what it achieves and that `expr_eq` recognises every duplicate.
 */
module KconfigExprCancel {
  import opened KconfigExpr
  import opened KconfigExprEq
  import opened KconfigExprDups

  /** The operands of one level of `op`, left to right. */
  function Operands(op: Op, e: Expr): (s: seq<Expr>)
    ensures |s| >= 1
  {
    if IsOp(op, e) then Operands(op, e.left) + Operands(op, e.right) else [e]
  }

  function CancelPair(op: Op, a: Expr, b: Expr): (Expr, Expr) {
    if (IsYN(a) && a == b) || !ExprEq(a, b) then (a, b)
    else (Symbol(Neutral(op)), Symbol(Neutral(op)))
  }

  /** The inner loop: one operand against all operands of the other side. */
  function CancelOne(op: Op, a: Expr, bs: seq<Expr>): (Expr, seq<Expr>)
    decreases |bs|
  {
    if bs == [] then (a, [])
    else
      var (a1, b1) := CancelPair(op, a, bs[0]);
      var (a2, rest) := CancelOne(op, a1, bs[1..]);
      (a2, [b1] + rest)
  }

  /** The outer loop. */
  function CancelAll(op: Op, xs: seq<Expr>, bs: seq<Expr>): (seq<Expr>, seq<Expr>)
    decreases |xs|
  {
    if xs == [] then ([], bs)
    else
      var (a, cs) := CancelOne(op, xs[0], bs);
      var (rest, ds) := CancelAll(op, xs[1..], cs);
      ([a] + rest, ds)
  }

  lemma {:induction false} CancelOneAppend(op: Op, a: Expr, xs: seq<Expr>, ys: seq<Expr>)
    ensures var (b, us) := CancelOne(op, a, xs);
            var (c, vs) := CancelOne(op, b, ys);
            CancelOne(op, a, xs + ys).0 == c && CancelOne(op, a, xs + ys).1 == us + vs
    decreases |xs|
  {
    if xs == [] {
      assert xs + ys == ys;
    } else {
      var (a1, b1) := CancelPair(op, a, xs[0]);
      assert (xs + ys)[1..] == xs[1..] + ys;
      CancelOneAppend(op, a1, xs[1..], ys);
      var (b, us) := CancelOne(op, a1, xs[1..]);
      var (_, vs) := CancelOne(op, b, ys);
      assert [b1] + us + vs == [b1] + (us + vs);
    }
  }

  lemma {:induction false} CancelAllAppend(op: Op, xs: seq<Expr>, ys: seq<Expr>, bs: seq<Expr>)
    ensures var (us, cs) := CancelAll(op, xs, bs);
            var (vs, ds) := CancelAll(op, ys, cs);
            CancelAll(op, xs + ys, bs).0 == us + vs && CancelAll(op, xs + ys, bs).1 == ds
    decreases |xs|
  {
    if xs == [] {
      assert xs + ys == ys;
    } else {
      var (a, cs) := CancelOne(op, xs[0], bs);
      assert (xs + ys)[1..] == xs[1..] + ys;
      CancelAllAppend(op, xs[1..], ys, cs);
      var (us, ds) := CancelAll(op, xs[1..], cs);
      var (vs, _) := CancelAll(op, ys, ds);
      assert [a] + us + vs == [a] + (us + vs);
    }
  }

  /** The recursive walk over two trees refines the double loop, and keeps both shapes. */
  lemma {:induction false} CancelRefinesLoops(op: Op, e1: Expr, e2: Expr)
    ensures var (f1, f2) := Cancel(op, e1, e2);
            && Operands(op, f1) == CancelAll(op, Operands(op, e1), Operands(op, e2)).0
            && Operands(op, f2) == CancelAll(op, Operands(op, e1), Operands(op, e2)).1
            && ShapeOf(op, f1) == ShapeOf(op, e1) && ShapeOf(op, f2) == ShapeOf(op, e2)
    decreases Size(e1) + Size(e2)
  {
    if IsOp(op, e1) {
      var (_, f) := Cancel(op, e1.left, e2);
      CancelRefinesLoops(op, e1.left, e2);
      CancelRefinesLoops(op, e1.right, f);
      CancelAllAppend(op, Operands(op, e1.left), Operands(op, e1.right), Operands(op, e2));
    } else if IsOp(op, e2) {
      var (f, l) := Cancel(op, e1, e2.left);
      var (g, r) := Cancel(op, f, e2.right);
      CancelRefinesLoops(op, e1, e2.left);
      CancelRefinesLoops(op, f, e2.right);
      CancelOneAppend(op, e1, Operands(op, e2.left), Operands(op, e2.right));
      SingleOuter(op, e1, Operands(op, e2.left));
      SingleOuter(op, f, Operands(op, e2.right));
      SingleOuter(op, e1, Operands(op, e2));
    } else {
      SingleOuter(op, e1, [e2]);
      assert [e2][1..] == [];
    }
  }

  lemma SingleOuter(op: Op, a: Expr, bs: seq<Expr>)
    ensures CancelAll(op, [a], bs).0 == [CancelOne(op, a, bs).0]
    ensures CancelAll(op, [a], bs).1 == CancelOne(op, a, bs).1
  {
    assert [a][1..] == [];
  }

  /** The pair has nothing in common but possibly one of the constants y and n. */
  predicate Apart(a: Expr, b: Expr) { ExprEq(a, b) ==> a == b && IsYN(a) }

  lemma {:induction false} CancelOneApart(op: Op, a: Expr, bs: seq<Expr>)
    ensures var (c, cs) := CancelOne(op, a, bs);
            && |cs| == |bs|
            && (c == a || c == Symbol(Neutral(op)))
            && (forall j :: 0 <= j < |bs| ==> cs[j] == bs[j] || cs[j] == Symbol(Neutral(op)))
            && (forall j :: 0 <= j < |bs| ==> Apart(c, cs[j]))
    decreases |bs|
  {
    if bs != [] {
      var (a1, b1) := CancelPair(op, a, bs[0]);
      CancelOneApart(op, a1, bs[1..]);
    }
  }

  lemma {:induction false} CancelAllApart(op: Op, xs: seq<Expr>, bs: seq<Expr>)
    ensures var (us, cs) := CancelAll(op, xs, bs);
            && |us| == |xs| && |cs| == |bs|
            && (forall i :: 0 <= i < |xs| ==> us[i] == xs[i] || us[i] == Symbol(Neutral(op)))
            && (forall j :: 0 <= j < |bs| ==> cs[j] == bs[j] || cs[j] == Symbol(Neutral(op)))
            && (forall i, j :: 0 <= i < |xs| && 0 <= j < |bs| ==> Apart(us[i], cs[j]))
  {
    if xs != [] {
      var (a, cs) := CancelOne(op, xs[0], bs);
      CancelOneApart(op, xs[0], bs);
      CancelAllApart(op, xs[1..], cs);
    }
  }

  /** After cancellation the two sides share no operand other than y and n. */
  lemma CancelComplete(op: Op, e1: Expr, e2: Expr, a: Expr, b: Expr)
    requires a in Operands(op, Cancel(op, e1, e2).0) && b in Operands(op, Cancel(op, e1, e2).1)
    ensures ExprEq(a, b) ==> a == b && IsYN(a)
  {
    CancelRefinesLoops(op, e1, e2);
    CancelAllApart(op, Operands(op, e1), Operands(op, e2));
    assert Apart(a, b);
  }

  // ----- expr_eq is reflexive -----

  function Spent(op: Op, e: Expr): Expr { if IsYN(e) then e else Symbol(Neutral(op)) }

  function AllSpent(op: Op, s: seq<Expr>): (r: seq<Expr>)
    ensures |r| == |s|
    ensures forall i :: 0 <= i < |s| ==> r[i] == Spent(op, s[i])
  {
    if s == [] then [] else [Spent(op, s[0])] + AllSpent(op, s[1..])
  }

  /** An operand meets only spent ones, then its own copy, and nothing else afterwards. */
  lemma {:induction false} SpentMeetsNothing(op: Op, a: Expr, bs: seq<Expr>)
    requires IsYN(a) || forall j :: 0 <= j < |bs| ==> IsYN(bs[j])
    ensures CancelOne(op, a, bs).0 == a && CancelOne(op, a, bs).1 == bs
    decreases |bs|
  {
    if bs != [] {
      assert CancelPair(op, a, bs[0]) == (a, bs[0]);
      SpentMeetsNothing(op, a, bs[1..]);
      assert bs == [bs[0]] + bs[1..];
    }
  }

  lemma {:induction false} MeetsItself(op: Op, pre: seq<Expr>, a: Expr, post: seq<Expr>)
    requires forall j :: 0 <= j < |pre| ==> IsYN(pre[j])
    requires ExprEq(a, a)
    ensures CancelOne(op, a, pre + [a] + post).0 == Spent(op, a)
    ensures CancelOne(op, a, pre + [a] + post).1 == pre + [Spent(op, a)] + post
  {
    var c, tail := Spent(op, a), [a] + post;
    SpentMeetsNothing(op, a, pre);
    CancelOneAppend(op, a, pre, tail);
    assert pre + [a] + post == pre + tail;
    assert CancelOne(op, a, tail).0 == c && CancelOne(op, a, tail).1 == [c] + post by {
      assert tail[0] == a && tail[1..] == post;
      assert CancelPair(op, a, a) == (c, c);
      SpentMeetsNothing(op, c, post);
    }
    assert pre + ([c] + post) == pre + [c] + post;
  }

  lemma {:induction false} CancelAgainstItself(op: Op, done: seq<Expr>, todo: seq<Expr>)
    requires forall i :: 0 <= i < |done| ==> IsYN(done[i])
    requires forall i :: 0 <= i < |todo| ==> ExprEq(todo[i], todo[i])
    ensures CancelAll(op, todo, done + todo).0 == AllSpent(op, todo)
    ensures CancelAll(op, todo, done + todo).1 == done + AllSpent(op, todo)
    decreases |todo|
  {
    if todo == [] {
      assert done + todo == done + AllSpent(op, todo);
    } else {
      var a, c, rest := todo[0], Spent(op, todo[0]), todo[1..];
      Shift(done, todo);
      MeetsItself(op, done, a, rest);
      CancelAgainstItself(op, done + [c], rest);
      Shift(done, AllSpent(op, todo));
    }
  }

  lemma Shift(done: seq<Expr>, todo: seq<Expr>)
    requires todo != []
    ensures done + todo == done + [todo[0]] + todo[1..]
  {
  }

  lemma {:induction false} SameOperands(op: Op, e: Expr, f: Expr)
    requires ShapeOf(op, e) == ShapeOf(op, f) && Operands(op, e) == Operands(op, f)
    ensures e == f
  {
    if IsOp(op, e) {
      ShapeCounts(op, e.left, f.left);
      var n := |Operands(op, e.left)|;
      assert Operands(op, e.left) == Operands(op, e)[..n] == Operands(op, f)[..n] == Operands(op, f.left);
      assert Operands(op, e.right) == Operands(op, e)[n..] == Operands(op, f)[n..] == Operands(op, f.right);
      SameOperands(op, e.left, f.left);
      SameOperands(op, e.right, f.right);
    }
  }

  lemma ShapeCounts(op: Op, e: Expr, f: Expr)
    requires ShapeOf(op, e) == ShapeOf(op, f)
    ensures |Operands(op, e)| == |Operands(op, f)|
  {
    if IsOp(op, e) {
      ShapeCounts(op, e.left, f.left);
      ShapeCounts(op, e.right, f.right);
    }
  }

  lemma {:induction false} OnlyConstants(op: Op, e: Expr)
    requires forall i :: 0 <= i < |Operands(op, e)| ==> IsYN(Operands(op, e)[i])
    ensures IsYN(EliminateYN(e))
  {
    if IsOp(op, e) {
      var l, r := Operands(op, e.left), Operands(op, e.right);
      assert forall i :: 0 <= i < |l| ==> l[i] == Operands(op, e)[i];
      assert forall i :: 0 <= i < |r| ==> r[i] == Operands(op, e)[|l| + i];
      OnlyConstants(op, e.left);
      OnlyConstants(op, e.right);
    } else {
      assert Operands(op, e)[0] == e;
    }
  }

  lemma {:induction false} OperandsSmaller(op: Op, e: Expr, i: nat)
    requires i < |Operands(op, e)|
    ensures IsOp(op, e) ==> Size(Operands(op, e)[i]) < Size(e)
    ensures !IsOp(op, e) ==> Operands(op, e)[i] == e
  {
    if IsOp(op, e) {
      var n := |Operands(op, e.left)|;
      if i < n { OperandsSmaller(op, e.left, i); } else { OperandsSmaller(op, e.right, i - n); }
    }
  }

  /** Every expression is recognised as equal to itself, so every duplicate operand is found. */
  lemma {:induction false} ExprEqReflexive(e: Expr)
    ensures ExprEq(e, e)
    decreases Size(e)
  {
    match e
    case Symbol(_) =>
    case Cmp(_, _, _) =>
    case Not(a) => ExprEqReflexive(a);
    case Bin(op, _, _) =>
      var s := Operands(op, e);
      forall i | 0 <= i < |s|
        ensures ExprEq(s[i], s[i])
      {
        OperandsSmaller(op, e, i);
        ExprEqReflexive(s[i]);
      }
      CancelRefinesLoops(op, e, e);
      assert [] + s == s;
      CancelAgainstItself(op, [], s);
      var (f1, f2) := Cancel(op, e, e);
      SameOperands(op, f1, f2);
      OnlyConstants(op, f1);
  }

  /** In a deduplicated expression no operand stands twice at the same level. */
  lemma {:induction false} DedupNoDuplicates(e: Expr, p: Path, q: Path)
    requires Dedup(e).Bin?
    requires var d := Dedup(e); Leaf(d.op, d, p) && Leaf(d.op, d, q) && p != q
    ensures var d := Dedup(e); At(d.op, d, p) != At(d.op, d, q)
  {
    DedupComplete(e);
    var d := Dedup(e);
    ExprEqReflexive(At(d.op, d, p));
    assert Settled(d.op, d, p, q);
  }
}
