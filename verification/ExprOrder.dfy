/**
 Order and parentheses: what `expr_eq` takes for equal.  Without constants it is equality of the operands
 as a multiset, level by level; with constants inside the operands it depends on their order.
 */
module KconfigExprOrder {
  import opened KconfigExpr
  import opened KconfigExprEq
  import opened KconfigExprDups
  import opened KconfigExprCancel

  // ----- expr_eq is symmetric -----

  /** One operand of the other side against all operands of this one. */
  function CancelColumn(op: Op, xs: seq<Expr>, b: Expr): (seq<Expr>, Expr)
    decreases |xs|
  {
    if xs == [] then ([], b)
    else
      var (x1, b1) := CancelPair(op, xs[0], b);
      var (rest, b2) := CancelColumn(op, xs[1..], b1);
      ([x1] + rest, b2)
  }

  /** The double loop may as well go column by column. */
  lemma {:induction false} ColumnFirst(op: Op, xs: seq<Expr>, bs: seq<Expr>)
    requires bs != []
    ensures var (ys, b) := CancelColumn(op, xs, bs[0]);
            var (us, cs) := CancelAll(op, ys, bs[1..]);
            CancelAll(op, xs, bs).0 == us && CancelAll(op, xs, bs).1 == [b] + cs
    decreases |xs|
  {
    if xs == [] {
      assert bs == [bs[0]] + bs[1..];
    } else {
      var (x1, b1) := CancelPair(op, xs[0], bs[0]);
      var (x2, rest) := CancelOne(op, x1, bs[1..]);
      ColumnFirst(op, xs[1..], [b1] + rest);
      assert ([b1] + rest)[1..] == rest;
      var (ys, b2) := CancelColumn(op, xs[1..], b1);
      assert ([x1] + ys)[1..] == ys;
    }
  }

  lemma SymbolEq(s: Sym, b: Expr)
    ensures ExprEq(Symbol(s), b) <==> b == Symbol(s)
    ensures ExprEq(b, Symbol(s)) <==> b == Symbol(s)
  {
  }

  ghost predicate Symmetric(xs: seq<Expr>, bs: seq<Expr>) {
    forall x, b :: x in xs && b in bs ==> ExprEq(x, b) == ExprEq(b, x)
  }

  lemma {:induction false} ColumnIsRow(op: Op, xs: seq<Expr>, b: Expr)
    requires forall x :: x in xs ==> ExprEq(x, b) == ExprEq(b, x)
    ensures CancelColumn(op, xs, b).0 == CancelOne(op, b, xs).1
    ensures CancelColumn(op, xs, b).1 == CancelOne(op, b, xs).0
    decreases |xs|
  {
    if xs != [] {
      var b1 := CancelPair(op, xs[0], b).1;
      forall x | x in xs[1..]
        ensures ExprEq(x, b1) == ExprEq(b1, x)
      {
        SymbolEq(Neutral(op), x);
      }
      ColumnIsRow(op, xs[1..], b1);
    }
  }

  lemma {:induction false} NothingToCancel(op: Op, xs: seq<Expr>)
    ensures CancelAll(op, xs, []).0 == xs && CancelAll(op, xs, []).1 == []
    decreases |xs|
  {
    if xs != [] { NothingToCancel(op, xs[1..]); }
  }

  /** Exchanging the two sides exchanges the results. */
  lemma {:induction false} LoopsSwap(op: Op, xs: seq<Expr>, bs: seq<Expr>)
    requires Symmetric(xs, bs)
    ensures CancelAll(op, bs, xs).0 == CancelAll(op, xs, bs).1
    ensures CancelAll(op, bs, xs).1 == CancelAll(op, xs, bs).0
    decreases |bs|
  {
    if bs == [] {
      NothingToCancel(op, xs);
    } else {
      var (ys, b) := CancelColumn(op, xs, bs[0]);
      ColumnFirst(op, xs, bs);
      ColumnIsRow(op, xs, bs[0]);
      CancelOneApart(op, bs[0], xs);
      forall y, c | y in ys && c in bs[1..]
        ensures ExprEq(y, c) == ExprEq(c, y)
      {
        var j :| 0 <= j < |ys| && ys[j] == y;
        assert xs[j] in xs && c in bs;
        SymbolEq(Neutral(op), c);
      }
      LoopsSwap(op, ys, bs[1..]);
    }
  }

  lemma OperandsOf(op: Op, e: Expr)
    requires IsOp(op, e)
    ensures forall x :: x in Operands(op, e) ==> Size(x) < Size(e)
  {
    forall x | x in Operands(op, e)
      ensures Size(x) < Size(e)
    {
      var i :| 0 <= i < |Operands(op, e)| && Operands(op, e)[i] == x;
      OperandsSmaller(op, e, i);
    }
  }

  lemma {:induction false} ExprEqSymmetric(e1: Expr, e2: Expr)
    ensures ExprEq(e1, e2) == ExprEq(e2, e1)
    decreases Size(e1) + Size(e2)
  {
    match e1
    case Symbol(s) => SymbolEq(s, e2);
    case Cmp(_, _, _) =>
    case Not(a) => if e2.Not? { ExprEqSymmetric(a, e2.arg); }
    case Bin(op, _, _) =>
      if IsOp(op, e2) {
        var xs, ys := Operands(op, e1), Operands(op, e2);
        OperandsOf(op, e1);
        OperandsOf(op, e2);
        forall x, y | x in xs && y in ys
          ensures ExprEq(x, y) == ExprEq(y, x)
        {
          ExprEqSymmetric(x, y);
        }
        LoopsSwap(op, xs, ys);
        CancelRefinesLoops(op, e1, e2);
        CancelRefinesLoops(op, e2, e1);
        var (f1, f2) := Cancel(op, e1, e2);
        var (g2, g1) := Cancel(op, e2, e1);
        SameOperands(op, f1, g1);
        SameOperands(op, f2, g2);
      }
  }

  // ----- what cancellation conserves -----

  /** The keys of the operands, without those of a neutral operand. */
  function Bag<T(==)>(xs: seq<Expr>, key: Expr -> T, blank: T): multiset<T>
    decreases |xs|
  {
    if xs == [] then multiset{}
    else (if key(xs[0]) == blank then multiset{} else multiset{key(xs[0])}) + Bag(xs[1..], key, blank)
  }

  lemma BagOne<T>(x: Expr, key: Expr -> T, blank: T)
    ensures Bag([x], key, blank) == if key(x) == blank then multiset{} else multiset{key(x)}
  {
    assert [x][1..] == [];
  }

  lemma {:induction false} BagAppend<T>(xs: seq<Expr>, ys: seq<Expr>, key: Expr -> T, blank: T)
    ensures Bag(xs + ys, key, blank) == Bag(xs, key, blank) + Bag(ys, key, blank)
    decreases |xs|
  {
    if xs == [] {
      assert xs + ys == ys;
    } else {
      assert (xs + ys)[1..] == xs[1..] + ys;
      BagAppend(xs[1..], ys, key, blank);
    }
  }

  lemma {:induction false} BagHas<T>(xs: seq<Expr>, key: Expr -> T, blank: T, k: T)
    ensures k in Bag(xs, key, blank) <==> k != blank && exists i :: 0 <= i < |xs| && key(xs[i]) == k
    decreases |xs|
  {
    if xs != [] {
      BagHas(xs[1..], key, blank, k);
      if i :| 0 <= i < |xs| && key(xs[i]) == k {
        assert i > 0 ==> xs[1..][i - 1] == xs[i];
      }
    }
  }

  function Without(ys: seq<Expr>, j: nat): seq<Expr>
    requires j < |ys|
  {
    ys[..j] + ys[j + 1..]
  }

  lemma BagWithout<T>(ys: seq<Expr>, j: nat, key: Expr -> T, blank: T)
    requires j < |ys|
    ensures Bag(ys, key, blank) == Bag([ys[j]], key, blank) + Bag(Without(ys, j), key, blank)
  {
    var front, back := ys[..j], ys[j + 1..];
    assert ys == front + ([ys[j]] + back);
    BagAppend(front, [ys[j]] + back, key, blank);
    BagAppend([ys[j]], back, key, blank);
    BagAppend(front, back, key, blank);
  }

  lemma TakeOut(xs: seq<Expr>, ys: seq<Expr>) returns (j: nat)
    requires xs != [] && multiset(xs) == multiset(ys)
    ensures j < |ys| && ys[j] == xs[0] && multiset(xs[1..]) == multiset(Without(ys, j))
  {
    assert xs[0] in multiset(ys);
    j :| 0 <= j < |ys| && ys[j] == xs[0];
    assert xs == [xs[0]] + xs[1..];
    assert ys == ys[..j] + ([ys[j]] + ys[j + 1..]);
    assert multiset(xs) == multiset{xs[0]} + multiset(xs[1..]);
    assert multiset(ys) == multiset{ys[j]} + multiset(Without(ys, j));
    assert multiset(xs[1..]) == multiset(xs) - multiset{xs[0]};
  }

  lemma {:induction false} BagRearranged<T>(xs: seq<Expr>, ys: seq<Expr>, key: Expr -> T, blank: T)
    requires multiset(xs) == multiset(ys)
    ensures Bag(xs, key, blank) == Bag(ys, key, blank)
    decreases |xs|
  {
    if xs == [] {
      assert |ys| == |multiset(ys)| == 0;
    } else {
      var j := TakeOut(xs, ys);
      BagRearranged(xs[1..], Without(ys, j), key, blank);
      BagWithout(ys, j, key, blank);
      BagWithout(xs, 0, key, blank);
      assert Without(xs, 0) == xs[1..];
    }
  }

  /** Equal operands have equal keys. */
  ghost predicate Respects<T>(xs: seq<Expr>, bs: seq<Expr>, key: Expr -> T) {
    forall a, b :: a in xs && b in bs && ExprEq(a, b) ==> key(a) == key(b)
  }

  lemma Exchange<T>(a: multiset<T>, a1: multiset<T>, b: multiset<T>, b1: multiset<T>, r: multiset<T>, r1: multiset<T>,
                    c: multiset<T>)
    requires a + b1 == b + a1 && a1 + r1 == r + c
    ensures a + (b1 + r1) == (b + r) + c
  {
    assert a + (b1 + r1) == (a + b1) + r1 == b + (a1 + r1);
  }

  lemma PairConserves<T>(op: Op, a: Expr, b: Expr, key: Expr -> T)
    requires ExprEq(a, b) ==> key(a) == key(b)
    ensures var (a1, b1), blank := CancelPair(op, a, b), key(Symbol(Neutral(op)));
            && Bag([a], key, blank) + Bag([b1], key, blank) == Bag([b], key, blank) + Bag([a1], key, blank)
            && (a1 == a || a1 == Symbol(Neutral(op)))
  {
    var (a1, b1) := CancelPair(op, a, b);
    var blank := key(Symbol(Neutral(op)));
    BagOne(a, key, blank);
    BagOne(b, key, blank);
    BagOne(a1, key, blank);
    BagOne(b1, key, blank);
  }

  lemma RestRespects<T>(op: Op, a: Expr, bs: seq<Expr>, key: Expr -> T)
    requires bs != [] && Respects([a], bs, key)
    ensures ExprEq(a, bs[0]) ==> key(a) == key(bs[0])
    ensures Respects([CancelPair(op, a, bs[0]).0], bs[1..], key)
  {
    assert a in [a] && bs[0] in bs;
    var a1 := CancelPair(op, a, bs[0]).0;
    forall x, b | x in [a1] && b in bs[1..] && ExprEq(x, b)
      ensures key(x) == key(b)
    {
      SymbolEq(Neutral(op), b);
      assert b in bs && a in [a] && x == a1;
    }
  }

  lemma {:induction false} OneConserves<T>(op: Op, a: Expr, bs: seq<Expr>, key: Expr -> T)
    requires Respects([a], bs, key)
    ensures var (c, cs), blank := CancelOne(op, a, bs), key(Symbol(Neutral(op)));
            Bag([a], key, blank) + Bag(cs, key, blank) == Bag(bs, key, blank) + Bag([c], key, blank)
    decreases |bs|
  {
    if bs != [] {
      var blank := key(Symbol(Neutral(op)));
      var (a1, b1) := CancelPair(op, a, bs[0]);
      RestRespects(op, a, bs, key);
      PairConserves(op, a, bs[0], key);
      OneConserves(op, a1, bs[1..], key);
      var (c, cs) := CancelOne(op, a1, bs[1..]);
      BagAppend([bs[0]], bs[1..], key, blank);
      BagAppend([b1], cs, key, blank);
      assert bs == [bs[0]] + bs[1..];
      Exchange(Bag([a], key, blank), Bag([a1], key, blank), Bag([bs[0]], key, blank), Bag([b1], key, blank),
               Bag(bs[1..], key, blank), Bag(cs, key, blank), Bag([c], key, blank));
    }
  }

  lemma Exchanged<T>(x: multiset<T>, u: multiset<T>, xr: multiset<T>, ur: multiset<T>, b: multiset<T>, c: multiset<T>,
                     d: multiset<T>)
    requires x + c == b + u && xr + d == c + ur
    ensures (x + xr) + d == b + (u + ur)
  {
    assert (x + xr) + d == x + (c + ur) == (x + c) + ur;
  }

  lemma RespectsRest<T>(op: Op, xs: seq<Expr>, bs: seq<Expr>, key: Expr -> T)
    requires xs != [] && Respects(xs, bs, key)
    ensures Respects([xs[0]], bs, key) && Respects(xs[1..], CancelOne(op, xs[0], bs).1, key)
  {
    var cs := CancelOne(op, xs[0], bs).1;
    assert xs[0] in xs;
    CancelOneApart(op, xs[0], bs);
    forall x, c | x in xs[1..] && c in cs && ExprEq(x, c)
      ensures key(x) == key(c)
    {
      var j :| 0 <= j < |cs| && cs[j] == c;
      assert x in xs && bs[j] in bs;
      SymbolEq(Neutral(op), x);
    }
  }

  /** What is taken out of one side has the keys of what is taken out of the other. */
  lemma {:induction false} AllConserve<T>(op: Op, xs: seq<Expr>, bs: seq<Expr>, key: Expr -> T)
    requires Respects(xs, bs, key)
    ensures var (us, cs), blank := CancelAll(op, xs, bs), key(Symbol(Neutral(op)));
            Bag(xs, key, blank) + Bag(cs, key, blank) == Bag(bs, key, blank) + Bag(us, key, blank)
    decreases |xs|
  {
    if xs != [] {
      var blank := key(Symbol(Neutral(op)));
      var (a, cs) := CancelOne(op, xs[0], bs);
      RespectsRest(op, xs, bs, key);
      OneConserves(op, xs[0], bs, key);
      AllConserve(op, xs[1..], cs, key);
      var (us, ds) := CancelAll(op, xs[1..], cs);
      BagAppend([xs[0]], xs[1..], key, blank);
      BagAppend([a], us, key, blank);
      assert xs == [xs[0]] + xs[1..];
      Exchanged(Bag([xs[0]], key, blank), Bag([a], key, blank), Bag(xs[1..], key, blank), Bag(us, key, blank),
                Bag(bs, key, blank), Bag(cs, key, blank), Bag(ds, key, blank));
    }
  }

  // ----- what is left after eliminating constants -----

  /** The symbol to which eliminating constants reduces an expression, if it is one. */
  function Reduct(e: Expr): Option<Sym> { SymbolOf(EliminateYN(e)) }

  function SymbolOf(f: Expr): Option<Sym> { if f.Symbol? then Some(f.sym) else None }

  /** `k` is what operands with these reducts have, combined with `op`. */
  ghost predicate Combines(op: Op, m: multiset<Option<Sym>>, k: Option<Sym>) {
    if Some(Absorbing(op)) in m then k == Some(Absorbing(op))
    else if |m| == 0 then k == Some(Neutral(op))
    else if |m| == 1 then k in m
    else k == None
  }

  ghost function Reducts(op: Op, xs: seq<Expr>): multiset<Option<Sym>> { Bag(xs, Reduct, Some(Neutral(op))) }

  lemma {:induction false} ReductOf(op: Op, e: Expr)
    ensures Combines(op, Reducts(op, Operands(op, e)), Reduct(e))
  {
    var blank := Some(Neutral(op));
    if IsOp(op, e) {
      ReductOf(op, e.left);
      ReductOf(op, e.right);
      CombineParts(op, Operands(op, e.left), Operands(op, e.right), EliminateYN(e.left), EliminateYN(e.right));
    } else {
      BagOne(e, Reduct, blank);
    }
  }

  lemma NoBlank(op: Op, xs: seq<Expr>)
    ensures Some(Neutral(op)) !in Reducts(op, xs)
  {
    BagHas(xs, Reduct, Some(Neutral(op)), Some(Neutral(op)));
  }

  lemma CombineParts(op: Op, xs: seq<Expr>, ys: seq<Expr>, f: Expr, g: Expr)
    requires Combines(op, Reducts(op, xs), SymbolOf(f)) && Combines(op, Reducts(op, ys), SymbolOf(g))
    ensures Combines(op, Reducts(op, xs + ys), SymbolOf(FoldYN(op, f, g)))
  {
    BagAppend(xs, ys, Reduct, Some(Neutral(op)));
    NoBlank(op, xs);
    NoBlank(op, ys);
    CombineTwo(op, Reducts(op, xs), Reducts(op, ys), f, g);
  }

  lemma CombineTwo(op: Op, l: multiset<Option<Sym>>, r: multiset<Option<Sym>>, f: Expr, g: Expr)
    requires Combines(op, l, SymbolOf(f)) && Combines(op, r, SymbolOf(g))
    requires Some(Neutral(op)) !in l && Some(Neutral(op)) !in r
    ensures Combines(op, l + r, SymbolOf(FoldYN(op, f, g)))
  {
    assert |l + r| == |l| + |r|;
    if |l| == 0 { assert l + r == r; }
    if |r| == 0 { assert l + r == l; }
  }

  lemma CombinesOnce(op: Op, m: multiset<Option<Sym>>, k: Option<Sym>, k': Option<Sym>)
    requires Combines(op, m, k) && Combines(op, m, k')
    ensures k == k'
  {
    if |m| == 1 && k in m {
      assert |m - multiset{k}| == 0;
      assert m == multiset{k} + (m - multiset{k});
    }
  }

  /** For operators of one kind `expr_eq` says whether cancellation leaves one and the same symbol. */
  lemma EqByReducts(op: Op, e1: Expr, e2: Expr)
    requires IsOp(op, e1) && IsOp(op, e2)
    ensures var (f1, f2) := Cancel(op, e1, e2);
            ExprEq(e1, e2) <==> Reduct(f1).Some? && Reduct(f1) == Reduct(f2)
  {
  }

  /** Equal expressions reduce to the same symbol, if to any. */
  lemma {:induction false} EqualReducts(e1: Expr, e2: Expr)
    requires ExprEq(e1, e2)
    ensures Reduct(e1) == Reduct(e2)
    decreases Size(e1) + Size(e2)
  {
    if e1.Bin? {
      var op := e1.op;
      var xs, ys := Operands(op, e1), Operands(op, e2);
      OperandsOf(op, e1);
      OperandsOf(op, e2);
      forall x, y | x in xs && y in ys && ExprEq(x, y)
        ensures Reduct(x) == Reduct(y)
      {
        EqualReducts(x, y);
      }
      AllConserve(op, xs, ys, Reduct);
      SidesReduce(op, e1, e2);
    }
  }

  lemma SidesReduce(op: Op, e1: Expr, e2: Expr)
    requires IsOp(op, e1) && IsOp(op, e2) && ExprEq(e1, e2)
    requires var xs, ys := Operands(op, e1), Operands(op, e2);
             var (us, cs) := CancelAll(op, xs, ys);
             Reducts(op, xs) + Reducts(op, cs) == Reducts(op, ys) + Reducts(op, us)
    ensures Reduct(e1) == Reduct(e2)
  {
    var xs, ys := Operands(op, e1), Operands(op, e2);
    var (us, cs) := CancelAll(op, xs, ys);
    var (f1, f2) := Cancel(op, e1, e2);
    CancelRefinesLoops(op, e1, e2);
    EqByReducts(op, e1, e2);
    ReductOf(op, e1);
    ReductOf(op, e2);
    ReductOf(op, f1);
    ReductOf(op, f2);
    NoBlank(op, us);
    NoBlank(op, cs);
    if Reduct(f1) == Some(Absorbing(op)) {
      HasAbsorbing(op, us);
      HasAbsorbing(op, cs);
      StillAbsorbing(op, xs, ys);
    } else {
      SmallBags(op, Reducts(op, us), Reducts(op, cs), Reduct(f1));
      SameRest(Reducts(op, xs), Reducts(op, ys), Reducts(op, us));
      CombinesOnce(op, Reducts(op, xs), Reduct(e1), Reduct(e2));
    }
  }

  lemma SameRest<T>(a: multiset<T>, b: multiset<T>, c: multiset<T>)
    requires a + c == b + c
    ensures a == b
  {
    assert a == (a + c) - c == (b + c) - c == b;
  }

  lemma HasAbsorbing(op: Op, xs: seq<Expr>)
    requires Combines(op, Reducts(op, xs), Some(Absorbing(op)))
    ensures Some(Absorbing(op)) in Reducts(op, xs)
  {
  }

  /** A symbol other than the absorbing constant tells all reducts. */
  lemma SmallBags(op: Op, l: multiset<Option<Sym>>, r: multiset<Option<Sym>>, k: Option<Sym>)
    requires Combines(op, l, k) && Combines(op, r, k) && k.Some? && k != Some(Absorbing(op))
    requires Some(Neutral(op)) !in l && Some(Neutral(op)) !in r
    ensures l == r
  {
    SmallBag(op, l, k);
    SmallBag(op, r, k);
  }

  lemma SmallBag(op: Op, l: multiset<Option<Sym>>, k: Option<Sym>)
    requires Combines(op, l, k) && k.Some? && k != Some(Absorbing(op)) && Some(Neutral(op)) !in l
    ensures l == if k == Some(Neutral(op)) then multiset{} else multiset{k}
  {
    if |l| == 1 {
      assert |l - multiset{k}| == 0;
      assert l == multiset{k} + (l - multiset{k});
    }
  }

  lemma StillAbsorbing(op: Op, xs: seq<Expr>, ys: seq<Expr>)
    requires var (us, cs) := CancelAll(op, xs, ys);
             Some(Absorbing(op)) in Reducts(op, us) && Some(Absorbing(op)) in Reducts(op, cs)
    ensures Some(Absorbing(op)) in Reducts(op, xs) && Some(Absorbing(op)) in Reducts(op, ys)
  {
    var (us, cs) := CancelAll(op, xs, ys);
    var k, blank := Some(Absorbing(op)), Some(Neutral(op));
    CancelAllApart(op, xs, ys);
    BagHas(us, Reduct, blank, k);
    BagHas(cs, Reduct, blank, k);
    var i :| 0 <= i < |us| && Reduct(us[i]) == k;
    var j :| 0 <= j < |cs| && Reduct(cs[j]) == k;
    assert us[i] == xs[i] && cs[j] == ys[j];
    BagHas(xs, Reduct, blank, k);
    BagHas(ys, Reduct, blank, k);
  }

  // ----- order with constants -----

  /** `expr_eq` is transitive on these expressions, but for those that reduce to y or n. */
  ghost predicate OrderFree(K: set<Expr>) {
    forall p, q, r :: p in K && q in K && r in K && ExprEq(q, p) && ExprEq(p, r) ==> ExprEq(q, r) || BothConstant(q, r)
  }

  /** Both reduce to the same one of y and n. */
  predicate BothConstant(q: Expr, r: Expr) { Reduct(q) == Reduct(r) && Constant(Reduct(q)) }

  predicate Constant(k: Option<Sym>) { k == Some(Yes) || k == Some(No) }

  /** The operands are the same, in any order and with any parentheses. */
  ghost predicate Reordered(op: Op, e1: Expr, e2: Expr) {
    IsOp(op, e1) && IsOp(op, e2) && multiset(Operands(op, e1)) == multiset(Operands(op, e2))
  }

  /** Whether an expression equals `z` is the same for equal expressions. */
  lemma ClassRespects(K: set<Expr>, xs: seq<Expr>, ys: seq<Expr>, z: Expr)
    requires OrderFree(K) && (forall x :: x in xs || x in ys ==> x in K) && z in K && !Constant(Reduct(z))
    ensures Respects(xs, ys, x => ExprEq(x, z))
  {
    forall a, b | a in xs && b in ys && ExprEq(a, b)
      ensures ExprEq(a, z) == ExprEq(b, z)
    {
      ExprEqSymmetric(a, b);
      ExprEqSymmetric(a, z);
      ExprEqSymmetric(b, z);
    }
  }

  /** Cancelling rearranged operands leaves the same keys on both sides. */
  lemma LeftBags<T>(op: Op, xs: seq<Expr>, ys: seq<Expr>, key: Expr -> T)
    requires Respects(xs, ys, key) && multiset(xs) == multiset(ys)
    ensures var (us, cs), blank := CancelAll(op, xs, ys), key(Symbol(Neutral(op)));
            Bag(us, key, blank) == Bag(cs, key, blank)
  {
    var (us, cs) := CancelAll(op, xs, ys);
    var blank := key(Symbol(Neutral(op)));
    AllConserve(op, xs, ys, key);
    BagRearranged(xs, ys, key, blank);
    Balanced(Bag(xs, key, blank), Bag(us, key, blank), Bag(cs, key, blank));
  }

  lemma Balanced<T>(all: multiset<T>, l: multiset<T>, r: multiset<T>)
    requires all + r == all + l
    ensures l == r
  {
    assert l == (all + l) - all == (all + r) - all == r;
  }

  lemma LeftOf(op: Op, xs: seq<Expr>, ys: seq<Expr>, u: Expr)
    requires var (us, cs) := CancelAll(op, xs, ys); u in us || u in cs
    ensures u == Symbol(Neutral(op)) || u in xs || u in ys
    ensures u in CancelAll(op, xs, ys).0 && u != Symbol(Neutral(op)) ==> u in xs
    ensures u in CancelAll(op, xs, ys).1 && u != Symbol(Neutral(op)) ==> u in ys
  {
    var (us, cs) := CancelAll(op, xs, ys);
    CancelAllApart(op, xs, ys);
    if u in us {
      var i :| 0 <= i < |us| && us[i] == u;
      assert us[i] == xs[i] || us[i] == Symbol(Neutral(op));
    }
    if u in cs {
      var j :| 0 <= j < |cs| && cs[j] == u;
      assert cs[j] == ys[j] || cs[j] == Symbol(Neutral(op));
    }
  }

  lemma LeftApart(op: Op, xs: seq<Expr>, ys: seq<Expr>, u: Expr, c: Expr)
    requires var (us, cs) := CancelAll(op, xs, ys); u in us && c in cs
    ensures ExprEq(u, c) ==> u == c && IsYN(u)
  {
    CancelAllApart(op, xs, ys);
    assert Apart(u, c);
  }

  /** So an operand that cancellation leaves equals one on either side. */
  lemma LeftPartners(op: Op, xs: seq<Expr>, ys: seq<Expr>, z: Expr) returns (u: Expr, c: Expr)
    requires Respects(xs, ys, x => ExprEq(x, z)) && multiset(xs) == multiset(ys) && z != Symbol(Neutral(op))
    requires var (us, cs) := CancelAll(op, xs, ys); z in us || z in cs
    ensures var (us, cs) := CancelAll(op, xs, ys); u in us && c in cs
    ensures ExprEq(u, z) && ExprEq(c, z) && (u == z || c == z)
  {
    var key := x => ExprEq(x, z);
    var (us, cs) := CancelAll(op, xs, ys);
    LeftBags(op, xs, ys, key);
    SymbolEq(Neutral(op), z);
    ExprEqReflexive(z);
    BagHas(us, key, false, true);
    BagHas(cs, key, false, true);
    if z in us {
      u := z;
      var j :| 0 <= j < |cs| && key(cs[j]);
      c := cs[j];
    } else {
      c := z;
      var i :| 0 <= i < |us| && key(us[i]);
      u := us[i];
    }
  }

  /** Then an operand that cancellation leaves on one side reduces to y or n. */
  lemma LeftIsConstant(op: Op, K: set<Expr>, xs: seq<Expr>, ys: seq<Expr>, z: Expr)
    requires OrderFree(K) && (forall x :: x in xs ==> x in K) && multiset(xs) == multiset(ys)
    requires var (us, cs) := CancelAll(op, xs, ys); z in us || z in cs
    ensures Constant(Reduct(z))
  {
    if !Constant(Reduct(z)) {
      assert forall y :: y in ys ==> y in multiset(xs);
      LeftOf(op, xs, ys, z);
      ClassRespects(K, xs, ys, z);
      var u, c := LeftPartners(op, xs, ys, z);
      ExprEqSymmetric(u, z);
      ExprEqSymmetric(c, z);
      LeftApart(op, xs, ys, u, c);
    }
  }

  lemma ReductRespects(xs: seq<Expr>, ys: seq<Expr>)
    ensures Respects(xs, ys, Reduct)
  {
    forall x, y | x in xs && y in ys && ExprEq(x, y)
      ensures Reduct(x) == Reduct(y)
    {
      EqualReducts(x, y);
    }
  }

  lemma OnlyConstantReducts(op: Op, us: seq<Expr>)
    requires forall u :: u in us ==> Constant(Reduct(u))
    ensures Some(Absorbing(op)) in Reducts(op, us) || Reducts(op, us) == multiset{}
  {
    NoBlank(op, us);
    if k :| k in Reducts(op, us) {
      BagHas(us, Reduct, Some(Neutral(op)), k);
    }
  }

  lemma SameConstants(op: Op, us: seq<Expr>, k: Option<Sym>, k': Option<Sym>)
    requires forall u :: u in us ==> Constant(Reduct(u))
    requires Combines(op, Reducts(op, us), k) && Combines(op, Reducts(op, us), k')
    ensures k == k' && k.Some?
  {
    OnlyConstantReducts(op, us);
  }

  /** Rearranged operands cancel completely, up to those that reduce to y or n. */
  lemma OrderFreeEqual(op: Op, K: set<Expr>, e1: Expr, e2: Expr)
    requires OrderFree(K) && Reordered(op, e1, e2) && forall x :: x in Operands(op, e1) ==> x in K
    ensures ExprEq(e1, e2)
  {
    var xs, ys := Operands(op, e1), Operands(op, e2);
    var (us, cs) := CancelAll(op, xs, ys);
    var (f1, f2) := Cancel(op, e1, e2);
    CancelRefinesLoops(op, e1, e2);
    ReductRespects(xs, ys);
    LeftBags(op, xs, ys, Reduct);
    ReductOf(op, f1);
    ReductOf(op, f2);
    forall u | u in us
      ensures Constant(Reduct(u))
    {
      LeftIsConstant(op, K, xs, ys, u);
    }
    SameConstants(op, us, Reduct(f1), Reduct(f2));
    EqByReducts(op, e1, e2);
  }

  /** What cancellation leaves has no more than what was there. */
  lemma {:induction false} BagFewer<T>(us: seq<Expr>, xs: seq<Expr>, key: Expr -> T, blank: T)
    requires |us| == |xs| && forall i :: 0 <= i < |us| ==> us[i] == xs[i] || key(us[i]) == blank
    ensures Bag(us, key, blank) <= Bag(xs, key, blank)
    decreases |us|
  {
    if us != [] {
      BagFewer(us[1..], xs[1..], key, blank);
    }
  }

  lemma OneOrNone<T>(m: multiset<T>, k: T)
    requires m <= multiset{k}
    ensures m == multiset{} || m == multiset{k}
  {
    if k in m { assert m == multiset{k}; } else { assert m == multiset{}; }
  }

  /** Trees of one operator that reduce to the same symbol other than y and n are equal. */
  lemma SameSymbol(op: Op, e1: Expr, e2: Expr)
    requires IsOp(op, e1) && IsOp(op, e2) && Reduct(e1) == Reduct(e2) && Reduct(e1).Some? && !Constant(Reduct(e1))
    ensures ExprEq(e1, e2)
  {
    var (f1, f2) := Cancel(op, e1, e2);
    CancelRefinesLoops(op, e1, e2);
    SymbolLeft(op, e1, e2);
    ReductOf(op, f1);
    ReductOf(op, f2);
    SmallCombines(op, Reducts(op, Operands(op, f1)), Reduct(e1), Reduct(f1), Reduct(f2));
    EqByReducts(op, e1, e2);
  }

  lemma SmallCombines(op: Op, m: multiset<Option<Sym>>, k: Option<Sym>, k1: Option<Sym>, k2: Option<Sym>)
    requires m <= multiset{k} && k.Some? && Combines(op, m, k1) && Combines(op, m, k2)
    ensures k1 == k2 && k1.Some?
  {
    OneOrNone(m, k);
  }

  lemma OnlySymbol(op: Op, e: Expr)
    requires Reduct(e).Some? && !Constant(Reduct(e))
    ensures Reducts(op, Operands(op, e)) == multiset{Reduct(e)}
  {
    ReductOf(op, e);
    NoBlank(op, Operands(op, e));
    SmallBag(op, Reducts(op, Operands(op, e)), Reduct(e));
  }

  lemma SymbolLeft(op: Op, e1: Expr, e2: Expr)
    requires IsOp(op, e1) && IsOp(op, e2) && Reduct(e1) == Reduct(e2) && Reduct(e1).Some? && !Constant(Reduct(e1))
    ensures var (us, cs) := CancelAll(op, Operands(op, e1), Operands(op, e2));
            Reducts(op, us) == Reducts(op, cs) && Reducts(op, us) <= multiset{Reduct(e1)}
  {
    var xs, ys, k := Operands(op, e1), Operands(op, e2), Reduct(e1);
    var (us, cs) := CancelAll(op, xs, ys);
    OnlySymbol(op, e1);
    OnlySymbol(op, e2);
    ReductRespects(xs, ys);
    AllConserve(op, xs, ys, Reduct);
    Balanced(Reducts(op, xs), Reducts(op, us), Reducts(op, cs));
    LeftFewer(op, xs, ys);
  }

  lemma LeftFewer(op: Op, xs: seq<Expr>, ys: seq<Expr>)
    ensures Reducts(op, CancelAll(op, xs, ys).0) <= Reducts(op, xs)
  {
    CancelAllApart(op, xs, ys);
    BagFewer(CancelAll(op, xs, ys).0, xs, Reduct, Some(Neutral(op)));
  }

  /** Two expressions that are equal to a third but not to each other. */
  ghost predicate Broken(p: Expr, q: Expr, r: Expr) { ExprEq(q, p) && ExprEq(p, r) && !ExprEq(q, r) }

  lemma BrokenNoSymbols(p: Expr, q: Expr, r: Expr)
    requires Broken(p, q, r)
    ensures !p.Symbol? && !q.Symbol? && !r.Symbol?
  {
  }

  function Three(a: Expr, b: Expr, c: Expr): seq<Expr> { [a, b, c] }

  lemma RowOfThree(op: Op, a: Expr, x: Expr, y: Expr, z: Expr)
    ensures var (a1, x1) := CancelPair(op, a, x);
            var (a2, y1) := CancelPair(op, a1, y);
            var (a3, z1) := CancelPair(op, a2, z);
            CancelOne(op, a, Three(x, y, z)).0 == a3 && CancelOne(op, a, Three(x, y, z)).1 == Three(x1, y1, z1)
  {
    var a1 := CancelPair(op, a, x).0;
    assert Three(x, y, z) == [x] + ([y] + [z]);
    CancelOneAppend(op, a, [x], [y] + [z]);
    CancelOneAppend(op, a1, [y], [z]);
    RowOfOne(op, a, x);
    RowOfOne(op, a1, y);
    RowOfOne(op, CancelPair(op, a1, y).0, z);
  }

  lemma RowOfOne(op: Op, a: Expr, x: Expr)
    ensures CancelOne(op, a, [x]).0 == CancelPair(op, a, x).0 && CancelOne(op, a, [x]).1 == [CancelPair(op, a, x).1]
  {
    assert [x][1..] == [];
  }

  /** The first of them takes the partner of the last. */
  lemma WrongPartner(op: Op, p: Expr, q: Expr, r: Expr)
    requires Broken(p, q, r)
    ensures var u := Symbol(Neutral(op));
            && CancelAll(op, Three(p, r, q), Three(q, p, r)).0 == Three(u, u, q)
            && CancelAll(op, Three(p, r, q), Three(q, p, r)).1 == Three(u, u, r)
  {
    var u := Symbol(Neutral(op));
    BrokenNoSymbols(p, q, r);
    ExprEqSymmetric(p, q);
    ExprEqSymmetric(p, r);
    SymbolEq(Neutral(op), p);
    SymbolEq(Neutral(op), q);
    SymbolEq(Neutral(op), r);
    RowOfThree(op, p, q, p, r);
    RowOfThree(op, r, u, p, r);
    RowOfThree(op, q, u, u, r);
    assert Three(p, r, q) == [p] + ([r] + [q]);
    CancelAllAppend(op, [p], [r] + [q], Three(q, p, r));
    CancelAllAppend(op, [r], [q], Three(u, p, r));
    SingleOuter(op, p, Three(q, p, r));
    SingleOuter(op, r, Three(u, p, r));
    SingleOuter(op, q, Three(u, u, r));
  }

  /** The left operand `P || R` and the right operand `Q` exchanged. */
  function Swapped(op: Op, p: Expr, q: Expr, r: Expr): (Expr, Expr) {
    (Bin(op, Bin(op, p, r), q), Bin(op, q, Bin(op, p, r)))
  }

  lemma SwapReorders(op: Op, a: Expr, b: Expr)
    ensures Reordered(op, Bin(op, a, b), Bin(op, b, a))
  {
    var xs, ys := Operands(op, a), Operands(op, b);
    assert multiset(xs + ys) == multiset(xs) + multiset(ys) == multiset(ys + xs);
  }

  lemma SwappedOperands(op: Op, p: Expr, q: Expr, r: Expr)
    requires !IsOp(op, p) && !IsOp(op, q) && !IsOp(op, r)
    ensures var (e1, e2) := Swapped(op, p, q, r);
            Operands(op, e1) == Three(p, r, q) && Operands(op, e2) == Three(q, p, r)
  {
    var both := Bin(op, p, r);
    assert Operands(op, both) == [p, r];
    ThreeOf(p, q, r);
  }

  lemma ThreeOf(p: Expr, q: Expr, r: Expr)
    ensures [p, r] + [q] == Three(p, r, q) && [q] + [p, r] == Three(q, p, r)
  {
  }

  lemma ReductsOfThree(op: Op, q: Expr, f: Expr)
    requires IsOp(op, f) && Operands(op, f) == Three(Symbol(Neutral(op)), Symbol(Neutral(op)), q)
    ensures Reduct(f) == Reduct(q)
  {
    var u := Symbol(Neutral(op));
    ReductOf(op, f);
    assert Three(u, u, q) == [u] + ([u] + [q]);
    BagAppend([u], [u] + [q], Reduct, Some(Neutral(op)));
    BagAppend([u], [q], Reduct, Some(Neutral(op)));
    BagOne(u, Reduct, Some(Neutral(op)));
    BagOne(q, Reduct, Some(Neutral(op)));
  }

  /** Exchanging the operands then makes an expression that is not equal any more. */
  lemma BrokenOrder(op: Op, p: Expr, q: Expr, r: Expr)
    requires !IsOp(op, p) && !IsOp(op, q) && !IsOp(op, r)
    requires Broken(p, q, r) && !BothConstant(q, r)
    ensures var (e1, e2) := Swapped(op, p, q, r); Reordered(op, e1, e2) && !ExprEq(e1, e2)
  {
    var (e1, e2) := Swapped(op, p, q, r);
    var (f1, f2) := Cancel(op, e1, e2);
    SwappedOperands(op, p, q, r);
    SwapReorders(op, Bin(op, p, r), q);
    CancelRefinesLoops(op, e1, e2);
    WrongPartner(op, p, q, r);
    ReductsOfThree(op, q, f1);
    ReductsOfThree(op, r, f2);
    EqByReducts(op, e1, e2);
    if ExprEq(e1, e2) {
      BrokenNoSymbols(p, q, r);
      assert q.Bin? && IsOp(q.op, p) && IsOp(q.op, r);
      SameSymbol(q.op, q, r);
    }
  }

  /** Rearranged operands that all belong to `K`. */
  ghost predicate ReorderedIn(op: Op, K: set<Expr>, e1: Expr, e2: Expr) {
    Reordered(op, e1, e2) && forall x :: x in Operands(op, e1) ==> x in K
  }

  lemma NotOrderFree(op: Op, K: set<Expr>) returns (e1: Expr, e2: Expr)
    requires !OrderFree(K) && forall k :: k in K ==> !IsOp(op, k)
    ensures ReorderedIn(op, K, e1, e2) && !ExprEq(e1, e2)
  {
    var p, q, r :| p in K && q in K && r in K && ExprEq(q, p) && ExprEq(p, r) && !(ExprEq(q, r) || BothConstant(q, r));
    BrokenOrder(op, p, q, r);
    SwappedOperands(op, p, q, r);
    var (f1, f2) := Swapped(op, p, q, r);
    e1, e2 := f1, f2;
  }

  /** Among the expressions over a set of operands the order of operands does not matter exactly if
      `expr_eq` is transitive on the operands, apart from those that reduce to y or n. */
  lemma OrderExact(op: Op, K: set<Expr>)
    requires forall k :: k in K ==> !IsOp(op, k)
    ensures OrderFree(K) <==> forall e1, e2 :: ReorderedIn(op, K, e1, e2) ==> ExprEq(e1, e2)
  {
    if OrderFree(K) {
      forall e1, e2 | ReorderedIn(op, K, e1, e2)
        ensures ExprEq(e1, e2)
      {
        OrderFreeEqual(op, K, e1, e2);
      }
    } else {
      var e1, e2 := NotOrderFree(op, K);
    }
  }

  /** Cancellation of two operands against two. */
  lemma CancelFour(op: Op, a: Expr, b: Expr, c: Expr, d: Expr)
    requires !IsOp(op, a) && !IsOp(op, b) && !IsOp(op, c) && !IsOp(op, d)
    ensures var (a1, c1) := CancelPair(op, a, c);
            var (a2, d1) := CancelPair(op, a1, d);
            var (b1, c2) := CancelPair(op, b, c1);
            var (b2, d2) := CancelPair(op, b1, d1);
            Cancel(op, Bin(op, a, b), Bin(op, c, d)) == (Bin(op, a2, b2), Bin(op, c2, d2))
  {
    var (a1, c1) := CancelPair(op, a, c);
    var (a2, d1) := CancelPair(op, a1, d);
    CancelTwo(op, a, c, d);
    CancelTwo(op, b, c1, d1);
  }

  lemma CancelTwo(op: Op, a: Expr, c: Expr, d: Expr)
    requires !IsOp(op, a) && !IsOp(op, c) && !IsOp(op, d)
    ensures var (a1, c1) := CancelPair(op, a, c);
            var (a2, d1) := CancelPair(op, a1, d);
            Cancel(op, a, Bin(op, c, d)) == (a2, Bin(op, c1, d1))
  {
  }

  /** `A || n` and `A` are not equal, but the constant goes away once another operand is cancelled. */
  function OrN(a: Sym): Expr { Bin(Or, Symbol(a), Symbol(No)) }

  lemma WithAndWithoutN(a: Sym, b: Sym)
    requires a != b && a !in {Yes, No} && b !in {Yes, No}
    ensures ExprEq(Bin(And, Symbol(a), Symbol(b)), Bin(And, OrN(a), Symbol(b)))
  {
    var x, y, t, f := Symbol(a), Symbol(b), Symbol(Yes), OrN(a);
    var q, p := Bin(And, x, y), Bin(And, f, y);
    CancelFour(And, x, y, f, y);
    assert Cancel(And, q, p) == (Bin(And, x, t), Bin(And, f, t));
    assert EliminateYN(f) == x && EliminateYN(Bin(And, x, t)) == x && EliminateYN(Bin(And, f, t)) == x;
    EqByReducts(And, q, p);
  }

  lemma WithNOnOneSide(a: Sym, b: Sym)
    requires a != b && a !in {Yes, No} && b !in {Yes, No}
    ensures ExprEq(Bin(And, OrN(a), Symbol(b)), Bin(And, OrN(a), OrN(b)))
  {
    var y, t, f, g := Symbol(b), Symbol(Yes), OrN(a), OrN(b);
    ExprEqReflexive(f);
    CancelFour(And, f, y, f, g);
    assert CancelPair(And, t, g) == (t, g) && CancelPair(And, y, t) == (y, t) && CancelPair(And, y, g) == (y, g);
    assert Cancel(And, Bin(And, f, y), Bin(And, f, g)) == (Bin(And, t, y), Bin(And, t, g));
    assert EliminateYN(g) == y && EliminateYN(Bin(And, t, y)) == y && EliminateYN(Bin(And, t, g)) == y;
  }

  lemma WithNOnBothSides(a: Sym, b: Sym)
    requires a != b && a !in {Yes, No} && b !in {Yes, No}
    ensures !ExprEq(Bin(And, Symbol(a), Symbol(b)), Bin(And, OrN(a), OrN(b)))
  {
    var x, y, f, g := Symbol(a), Symbol(b), OrN(a), OrN(b);
    CancelFour(And, x, y, f, g);
    assert Cancel(And, Bin(And, x, y), Bin(And, f, g)) == (Bin(And, x, y), Bin(And, f, g));
    assert EliminateYN(Bin(And, x, y)) == Bin(And, x, y);
    EqByReducts(And, Bin(And, x, y), Bin(And, f, g));
  }

  /** A constant inside the operands is enough: with P = `(A || n) && B`, Q = `A && B` and
      R = `(A || n) && (B || n)`, the expressions `(P || R) || Q` and `Q || (P || R)` are not equal. */
  lemma OrderCounterexample(a: Sym, b: Sym)
    requires a != b && a !in {Yes, No} && b !in {Yes, No}
    ensures var p, q, r := Bin(And, OrN(a), Symbol(b)), Bin(And, Symbol(a), Symbol(b)), Bin(And, OrN(a), OrN(b));
            var e1, e2 := Bin(Or, Bin(Or, p, r), q), Bin(Or, q, Bin(Or, p, r));
            Reordered(Or, e1, e2) && !ExprEq(e1, e2)
  {
    var p, q, r := Bin(And, OrN(a), Symbol(b)), Bin(And, Symbol(a), Symbol(b)), Bin(And, OrN(a), OrN(b));
    WithAndWithoutN(a, b);
    WithNOnOneSide(a, b);
    WithNOnBothSides(a, b);
    assert EliminateYN(q) == q;
    BrokenOrder(Or, p, q, r);
  }

  // ----- order without constants -----

  /** No AND or OR anywhere in the expression has y or n as an operand. */
  predicate Plain(e: Expr) {
    match e
    case Not(a) => Plain(a)
    case Bin(_, l, r) => !IsYN(l) && !IsYN(r) && Plain(l) && Plain(r)
    case _ => true
  }

  /** An expression without the order and the parentheses of its operands, at all levels. */
  datatype Form = Atom(e: Expr) | Negated(arg: Form) | Level(op: Op, operands: multiset<Form>)

  function FormOf(e: Expr): Form
    decreases e, 1
  {
    match e
    case Not(a) => Negated(FormOf(a))
    case Bin(op, l, r) => Level(op, Forms(op, l) + Forms(op, r))
    case _ => Atom(e)
  }

  /** The forms of the operands of one level. */
  function Forms(op: Op, e: Expr): multiset<Form>
    decreases e, 2
  {
    if IsOp(op, e) then Forms(op, e.left) + Forms(op, e.right) else multiset{FormOf(e)}
  }

  predicate PlainOperand(e: Expr) { Plain(e) && !IsYN(e) }

  lemma {:induction false} PlainOperands(op: Op, e: Expr)
    requires PlainOperand(e)
    ensures forall x :: x in Operands(op, e) ==> PlainOperand(x)
  {
    if IsOp(op, e) {
      PlainOperands(op, e.left);
      PlainOperands(op, e.right);
    }
  }

  lemma {:induction false} PlainHasNoRedex(e: Expr)
    requires Plain(e)
    ensures !HasRedex(e)
  {
    if e.Bin? {
      PlainHasNoRedex(e.left);
      PlainHasNoRedex(e.right);
    }
  }

  lemma PlainReduct(e: Expr)
    requires Plain(e)
    ensures Reduct(e) == SymbolOf(e)
  {
    PlainHasNoRedex(e);
    EliminateYNComplete(e);
  }

  lemma LeafForm(s: Sym, e: Expr)
    ensures FormOf(e) == Atom(Symbol(s)) <==> e == Symbol(s)
  {
  }

  /** The forms of a level are those of its operands. */
  lemma {:induction false} FormsOf(op: Op, e: Expr)
    requires PlainOperand(e)
    ensures Forms(op, e) == Bag(Operands(op, e), FormOf, Atom(Symbol(Neutral(op))))
  {
    if IsOp(op, e) {
      FormsOf(op, e.left);
      FormsOf(op, e.right);
      BagAppend(Operands(op, e.left), Operands(op, e.right), FormOf, Atom(Symbol(Neutral(op))));
    } else {
      BagOne(e, FormOf, Atom(Symbol(Neutral(op))));
      LeafForm(Neutral(op), e);
    }
  }

  ghost function FormBag(op: Op, xs: seq<Expr>): multiset<Form> { Bag(xs, FormOf, Atom(Symbol(Neutral(op)))) }

  /** Where `expr_eq` compares forms, cancellation leaves nothing that both sides have. */
  ghost predicate ByForm(xs: seq<Expr>, ys: seq<Expr>) {
    forall x, y :: x in xs && y in ys ==>
      PlainOperand(x) && PlainOperand(y) && (ExprEq(x, y) <==> FormOf(x) == FormOf(y))
  }

  lemma LeftForms(op: Op, xs: seq<Expr>, ys: seq<Expr>)
    requires ByForm(xs, ys) && xs != [] && ys != []
    ensures var (us, cs) := CancelAll(op, xs, ys);
            && FormBag(op, us) == FormBag(op, xs) - FormBag(op, ys)
            && FormBag(op, cs) == FormBag(op, ys) - FormBag(op, xs)
  {
    var (us, cs) := CancelAll(op, xs, ys);
    AllConserve(op, xs, ys, FormOf);
    if k :| k in FormBag(op, us) && k in FormBag(op, cs) {
      NotBothLeft(op, xs, ys, k);
    }
    Disjoint(FormBag(op, xs), FormBag(op, ys), FormBag(op, us), FormBag(op, cs));
  }

  lemma Disjoint<T>(x: multiset<T>, y: multiset<T>, u: multiset<T>, c: multiset<T>)
    requires x + c == y + u && u !! c
    ensures u == x - y && c == y - x
  {
    forall k
      ensures u[k] == (x - y)[k] && c[k] == (y - x)[k]
    {
      assert x[k] + c[k] == (x + c)[k] == (y + u)[k] == y[k] + u[k];
      assert u[k] == 0 || c[k] == 0;
    }
  }

  lemma HasForm(op: Op, us: seq<Expr>, k: Form) returns (u: Expr)
    requires k in FormBag(op, us)
    ensures u in us && FormOf(u) == k && u != Symbol(Neutral(op))
  {
    BagHas(us, FormOf, Atom(Symbol(Neutral(op))), k);
    var i :| 0 <= i < |us| && FormOf(us[i]) == k;
    u := us[i];
    LeafForm(Neutral(op), u);
  }

  lemma NotBothLeft(op: Op, xs: seq<Expr>, ys: seq<Expr>, k: Form)
    requires ByForm(xs, ys) && k in FormBag(op, CancelAll(op, xs, ys).0)
    ensures k !in FormBag(op, CancelAll(op, xs, ys).1)
  {
    if k in FormBag(op, CancelAll(op, xs, ys).1) {
      var u := HasForm(op, CancelAll(op, xs, ys).0, k);
      var c := HasForm(op, CancelAll(op, xs, ys).1, k);
      LeftOf(op, xs, ys, u);
      LeftOf(op, xs, ys, c);
      SameFormEqual(xs, ys, u, c);
      LeftApart(op, xs, ys, u, c);
    }
  }

  lemma SameFormEqual(xs: seq<Expr>, ys: seq<Expr>, u: Expr, c: Expr)
    requires ByForm(xs, ys) && u in xs && c in ys && FormOf(u) == FormOf(c)
    ensures ExprEq(u, c) && !IsYN(u)
  {
  }

  /** Without constants exactly those expressions are equal that differ only in the order and the
      parentheses of operands, at whatever level. */
  lemma {:induction false} EqualForms(e1: Expr, e2: Expr)
    requires Plain(e1) && Plain(e2)
    ensures ExprEq(e1, e2) <==> FormOf(e1) == FormOf(e2)
    decreases Size(e1) + Size(e2)
  {
    match e1
    case Symbol(_) =>
    case Cmp(_, _, _) =>
    case Not(a) => if e2.Not? { EqualForms(a, e2.arg); }
    case Bin(op, _, _) =>
      if IsOp(op, e2) {
        var xs, ys := Operands(op, e1), Operands(op, e2);
        OperandsOf(op, e1);
        OperandsOf(op, e2);
        PlainOperands(op, e1);
        PlainOperands(op, e2);
        forall x, y | x in xs && y in ys
          ensures ExprEq(x, y) <==> FormOf(x) == FormOf(y)
        {
          EqualForms(x, y);
        }
        FormsDecide(op, e1, e2);
      }
  }

  /** At one level. */
  lemma FormsDecide(op: Op, e1: Expr, e2: Expr)
    requires IsOp(op, e1) && IsOp(op, e2) && Plain(e1) && Plain(e2)
    requires ByForm(Operands(op, e1), Operands(op, e2))
    ensures ExprEq(e1, e2) <==> FormOf(e1) == FormOf(e2)
  {
    var xs, ys := Operands(op, e1), Operands(op, e2);
    var (us, cs) := CancelAll(op, xs, ys);
    var (f1, f2) := Cancel(op, e1, e2);
    CancelRefinesLoops(op, e1, e2);
    EqByReducts(op, e1, e2);
    FormsOf(op, e1);
    FormsOf(op, e2);
    LeftForms(op, xs, ys);
    LeftPlain(op, xs, ys);
    if FormOf(e1) == FormOf(e2) {
      NothingLeft(op, f1);
      NothingLeft(op, f2);
    } else if ExprEq(e1, e2) {
      OneLeft(op, f1);
      OneLeft(op, f2);
      DifferentBags(FormBag(op, xs), FormBag(op, ys));
    }
  }

  lemma DifferentBags<T>(x: multiset<T>, y: multiset<T>)
    requires x != y
    ensures x - y != multiset{} || y - x != multiset{}
    ensures forall k :: !(k in x - y && k in y - x)
  {
  }

  /** An operand of a cancelled side: the neutral constant, or one that was there. */
  predicate MayBeLeft(op: Op, x: Expr) { x == Symbol(Neutral(op)) || PlainOperand(x) }

  lemma LeftPlain(op: Op, xs: seq<Expr>, ys: seq<Expr>)
    requires ByForm(xs, ys) && xs != [] && ys != []
    ensures var (us, cs) := CancelAll(op, xs, ys); forall u :: u in us || u in cs ==> MayBeLeft(op, u)
  {
    var (us, cs) := CancelAll(op, xs, ys);
    assert xs[0] in xs && ys[0] in ys;
    forall u | u in us || u in cs
      ensures MayBeLeft(op, u)
    {
      LeftOf(op, xs, ys, u);
    }
  }

  lemma NothingLeft(op: Op, f: Expr)
    requires FormBag(op, Operands(op, f)) == multiset{}
    ensures Reduct(f) == Some(Neutral(op))
  {
    var us := Operands(op, f);
    ReductOf(op, f);
    if k :| k in Reducts(op, us) {
      BagHas(us, Reduct, Some(Neutral(op)), k);
      var i :| 0 <= i < |us| && Reduct(us[i]) == k;
      BagHas(us, FormOf, Atom(Symbol(Neutral(op))), FormOf(us[i]));
      LeafForm(Neutral(op), us[i]);
    }
  }

  lemma OneLeft(op: Op, f: Expr)
    requires Reduct(f).Some? && forall u :: u in Operands(op, f) ==> MayBeLeft(op, u)
    ensures var s := Reduct(f).value;
            if s == Neutral(op) then FormBag(op, Operands(op, f)) == multiset{}
            else Atom(Symbol(s)) in FormBag(op, Operands(op, f))
  {
    var us, blank := Operands(op, f), Some(Neutral(op));
    ReductOf(op, f);
    forall u | u in us
      ensures Reduct(u) == SymbolOf(u) && Reduct(u) != Some(Absorbing(op))
    {
      PlainReduct(u);
    }
    BagHas(us, Reduct, blank, Some(Absorbing(op)));
    NoBlank(op, us);
    SmallBag(op, Reducts(op, us), Reduct(f));
    if Reduct(f) == blank {
      OnlyNeutral(op, us);
    } else {
      BagHas(us, Reduct, blank, Reduct(f));
      var i :| 0 <= i < |us| && Reduct(us[i]) == Reduct(f);
      assert us[i] in us;
      BagHas(us, FormOf, Atom(Symbol(Neutral(op))), FormOf(us[i]));
    }
  }

  lemma OnlyNeutral(op: Op, us: seq<Expr>)
    requires Reducts(op, us) == multiset{} && forall u :: u in us ==> Reduct(u) == SymbolOf(u)
    ensures FormBag(op, us) == multiset{}
  {
    if k :| k in FormBag(op, us) {
      BagHas(us, FormOf, Atom(Symbol(Neutral(op))), k);
      var i :| 0 <= i < |us| && FormOf(us[i]) == k;
      assert us[i] in us;
      BagHas(us, Reduct, Some(Neutral(op)), Reduct(us[i]));
    }
  }

  /** So the operands of one level may be rearranged, also if y and n are among them. */
  lemma ReorderedEqual(op: Op, e1: Expr, e2: Expr)
    requires Reordered(op, e1, e2) && forall x :: x in Operands(op, e1) ==> Plain(x)
    ensures ExprEq(e1, e2)
  {
    var K := set x | x in Operands(op, e1);
    forall p, q, r | p in K && q in K && r in K && ExprEq(q, p) && ExprEq(p, r)
      ensures ExprEq(q, r)
    {
      EqualForms(q, p);
      EqualForms(p, r);
      EqualForms(q, r);
    }
    OrderFreeEqual(op, K, e1, e2);
  }

  // ----- what cancellation leaves -----

  /** Cancellation leaves of each side exactly the operands by which it exceeds the other. */
  lemma CancelForms(op: Op, e1: Expr, e2: Expr)
    requires PlainOperand(e1) && PlainOperand(e2)
    ensures var (f1, f2) := Cancel(op, e1, e2);
            && FormBag(op, Operands(op, f1)) == Forms(op, e1) - Forms(op, e2)
            && FormBag(op, Operands(op, f2)) == Forms(op, e2) - Forms(op, e1)
            && (forall u :: u in Operands(op, f1) || u in Operands(op, f2) ==> MayBeLeft(op, u))
  {
    var xs, ys := Operands(op, e1), Operands(op, e2);
    CancelRefinesLoops(op, e1, e2);
    PlainOperands(op, e1);
    PlainOperands(op, e2);
    forall x, y | x in xs && y in ys
      ensures ExprEq(x, y) <==> FormOf(x) == FormOf(y)
    {
      EqualForms(x, y);
    }
    FormsOf(op, e1);
    FormsOf(op, e2);
    LeftForms(op, xs, ys);
    LeftPlain(op, xs, ys);
  }

  /** A side all of whose operands the other has is left neutral, and no other. */
  lemma LeftNeutral(op: Op, f: Expr)
    requires forall u :: u in Operands(op, f) ==> MayBeLeft(op, u)
    ensures FormBag(op, Operands(op, f)) == multiset{} <==> EliminateYN(f) == Symbol(Neutral(op))
  {
    if FormBag(op, Operands(op, f)) == multiset{} {
      NothingLeft(op, f);
    } else if EliminateYN(f) == Symbol(Neutral(op)) {
      OneLeft(op, f);
    }
  }

  lemma NoExcess<T>(x: multiset<T>, y: multiset<T>)
    ensures x - y == multiset{} <==> x <= y
  {
    if x - y == multiset{} {
      forall k
        ensures x[k] <= y[k]
      {
        assert (x - y)[k] == 0;
      }
    }
  }

  /** The operands of what is left, once constants are eliminated. */
  ghost function LeftOperands(op: Op, e: Expr): multiset<Form> {
    if e == Symbol(Neutral(op)) then multiset{} else Forms(op, e)
  }

  /** Eliminating the constants keeps the operands that are left. */
  lemma {:induction false} EliminateLeft(op: Op, f: Expr)
    requires forall u :: u in Operands(op, f) ==> MayBeLeft(op, u)
    ensures LeftOperands(op, EliminateYN(f)) == FormBag(op, Operands(op, f))
    ensures EliminateYN(f) == Symbol(Neutral(op)) || PlainOperand(EliminateYN(f))
  {
    if IsOp(op, f) {
      EliminateLeft(op, f.left);
      EliminateLeft(op, f.right);
      FoldLeft(op, EliminateYN(f.left), EliminateYN(f.right));
      BagAppend(Operands(op, f.left), Operands(op, f.right), FormOf, Atom(Symbol(Neutral(op))));
    } else {
      assert f in Operands(op, f);
      OneOperandLeft(op, f);
    }
  }

  lemma OneOperandLeft(op: Op, f: Expr)
    requires !IsOp(op, f) && MayBeLeft(op, f)
    ensures LeftOperands(op, EliminateYN(f)) == FormBag(op, [f])
    ensures EliminateYN(f) == Symbol(Neutral(op)) || PlainOperand(EliminateYN(f))
  {
    BagOne(f, FormOf, Atom(Symbol(Neutral(op))));
    LeafForm(Neutral(op), f);
    if PlainOperand(f) {
      PlainHasNoRedex(f);
      EliminateYNComplete(f);
    }
  }

  lemma FoldLeft(op: Op, f: Expr, g: Expr)
    requires (f == Symbol(Neutral(op)) || PlainOperand(f)) && (g == Symbol(Neutral(op)) || PlainOperand(g))
    ensures var h := FoldYN(op, f, g);
            && LeftOperands(op, h) == LeftOperands(op, f) + LeftOperands(op, g)
            && (h == Symbol(Neutral(op)) || PlainOperand(h))
  {
  }

  /** `expr_eliminate_eq` on two ANDs or two ORs leaves of each exactly the operands by which it exceeds the
      other. */
  lemma EliminateEqExact(op: Op, e1: Expr, e2: Expr)
    requires IsOp(op, e1) && IsOp(op, e2) && Plain(e1) && Plain(e2)
    ensures var (f1, f2) := EliminateEq(e1, e2);
            && LeftOperands(op, f1) == Forms(op, e1) - Forms(op, e2)
            && LeftOperands(op, f2) == Forms(op, e2) - Forms(op, e1)
  {
    var (f1, f2) := Cancel(op, e1, e2);
    CancelForms(op, e1, e2);
    EliminateLeft(op, f1);
    EliminateLeft(op, f2);
  }

  /** With anything else against an AND or OR, which is not among its own operands, it is one operand. */
  lemma EliminateEqSingle(op: Op, e1: Expr, e2: Expr)
    requires !IsOp(op, e1) && IsOp(op, e2) && PlainOperand(e1) && Plain(e2)
    requires e1.Bin? ==> FormOf(e2) !in Forms(e1.op, e1)
    ensures var (f1, f2) := EliminateEq(e1, e2);
            && LeftOperands(op, f1) == multiset{FormOf(e1)} - Forms(op, e2)
            && LeftOperands(op, f2) == Forms(op, e2) - multiset{FormOf(e1)}
  {
    if e1.Bin? { NothingShared(e1.op, e1, e2); }
    var (f1, f2) := Cancel(op, e1, e2);
    CancelForms(op, e1, e2);
    EliminateLeft(op, f1);
    EliminateLeft(op, f2);
  }

  /** Cancellation changes nothing if an operand is not there. */
  lemma {:induction false} NothingShared(op: Op, e1: Expr, e2: Expr)
    requires PlainOperand(e1) && PlainOperand(e2) && !IsOp(op, e2) && FormOf(e2) !in Forms(op, e1)
    ensures Cancel(op, e1, e2) == (e1, e2)
  {
    if IsOp(op, e1) {
      NothingShared(op, e1.left, e2);
      NothingShared(op, e1.right, e2);
    } else {
      EqualForms(e1, e2);
    }
  }

  /** Two expressions that differ only in order and parentheses cancel each other. */
  lemma EqualFormsCancel(op: Op, e1: Expr, e2: Expr)
    requires IsOp(op, e1) && Plain(e1) && Plain(e2) && FormOf(e1) == FormOf(e2)
    ensures EliminateEq(e1, e2).0 == EliminateEq(e1, e2).1 == Symbol(Neutral(op))
  {
    EliminateEqExact(op, e1, e2);
    assert Forms(op, e1) == Forms(op, e2);
    SomeForm(op, EliminateEq(e1, e2).0);
    SomeForm(op, EliminateEq(e1, e2).1);
  }

  lemma {:induction false} SomeForm(op: Op, e: Expr)
    ensures Forms(op, e) != multiset{}
  {
    if IsOp(op, e) { SomeForm(op, e.left); }
  }

  /** An OR without constants, after operands of it were replaced with n, is not y. */
  lemma NotAbsorbing(op: Op, f: Expr)
    requires forall u :: u in Operands(op, f) ==> MayBeLeft(op, u)
    ensures EliminateYN(f) != Symbol(Absorbing(op))
  {
    if EliminateYN(f) == Symbol(Absorbing(op)) {
      OneLeft(op, f);
      var us := Operands(op, f);
      var k := Atom(Symbol(Absorbing(op)));
      BagHas(us, FormOf, Atom(Symbol(Neutral(op))), k);
      var i :| 0 <= i < |us| && FormOf(us[i]) == k;
      assert us[i] in us;
      LeafForm(Absorbing(op), us[i]);
    }
  }

  lemma SecondLeft(e1: Expr, e2: Expr)
    requires IsOp(And, e1)
    ensures var (f1, f2) := Cancel(And, e1, e2);
            && IsOp(And, f1)
            && EliminateEq(e1, e2).1 == EliminateYN(if IsOp(Or, f2) then Cancel(Or, f1, f2).1 else f2)
  {
  }

  /** The test with which a menu entry finds that it implies its parent: `expr_eliminate_eq` leaves y of
      the second AND exactly if the first has all of its operands, each as often. */
  lemma SupersetExact(e1: Expr, e2: Expr)
    requires IsOp(And, e1) && Plain(e1) && PlainOperand(e2)
    ensures EliminateEq(e1, e2).1 == Symbol(Yes) <==> Forms(And, e2) <= Forms(And, e1)
  {
    SecondLeft(e1, e2);
    SecondExact(e1, e2);
    var (f1, f2) := Cancel(And, e1, e2);
    if IsOp(Or, f2) {
      CancelForms(And, e1, e2);
      OrLeft(f1, f2);
    }
  }

  lemma SecondExact(e1: Expr, e2: Expr)
    requires PlainOperand(e1) && PlainOperand(e2)
    ensures EliminateYN(Cancel(And, e1, e2).1) == Symbol(Yes) <==> Forms(And, e2) <= Forms(And, e1)
  {
    CancelForms(And, e1, e2);
    NoExcess(Forms(And, e2), Forms(And, e1));
    LeftNeutral(And, Cancel(And, e1, e2).1);
  }

  lemma OrLeft(f1: Expr, f2: Expr)
    requires IsOp(And, f1) && IsOp(Or, f2) && forall u :: u in Operands(And, f2) ==> MayBeLeft(And, u)
    ensures EliminateYN(Cancel(Or, f1, f2).1) != Symbol(Yes) && EliminateYN(f2) != Symbol(Yes)
  {
    assert Operands(And, f2) == [f2] && f2 in [f2];
    LeftOr(f1, f2);
    PlainHasNoRedex(f2);
    EliminateYNComplete(f2);
  }

  lemma LeftOr(f1: Expr, f2: Expr)
    requires IsOp(And, f1) && IsOp(Or, f2) && PlainOperand(f2)
    ensures EliminateYN(Cancel(Or, f1, f2).1) != Symbol(Yes)
  {
    var ys := Operands(Or, f2);
    var cs := CancelAll(Or, [f1], ys).1;
    CancelRefinesLoops(Or, f1, f2);
    PlainOperands(Or, f2);
    forall u | u in cs
      ensures MayBeLeft(Or, u)
    {
      LeftOf(Or, [f1], ys, u);
    }
    NotAbsorbing(Or, Cancel(Or, f1, f2).1);
  }

  /** An operand that stands twice counts twice: each operand of `A && A && B` equals one of `A && B`, and
      the expressions are not equal. */
  lemma RepeatedOperand(a: Sym, b: Sym)
    requires a != b && a !in {Yes, No} && b !in {Yes, No}
    ensures !ExprEq(Bin(And, Bin(And, Symbol(a), Symbol(a)), Symbol(b)), Bin(And, Symbol(a), Symbol(b)))
  {
    var x, y := Symbol(a), Symbol(b);
    var e1, e2 := Bin(And, Bin(And, x, x), y), Bin(And, x, y);
    EqualForms(e1, e2);
    assert Forms(And, e1.left) == multiset{Atom(x)} + multiset{Atom(x)};
    assert FormOf(e1) == Level(And, Forms(And, e1.left) + multiset{Atom(y)});
    assert FormOf(e2) == Level(And, multiset{Atom(x)} + multiset{Atom(y)});
    assert (Forms(And, e1.left) + multiset{Atom(y)})[Atom(x)] == 2;
  }

  /** In a deduplicated expression no two operands of a level differ only in order and parentheses. */
  lemma DedupNoReordered(e: Expr, p: Path, q: Path)
    requires Dedup(e).Bin?
    requires var d := Dedup(e); Leaf(d.op, d, p) && Leaf(d.op, d, q) && p != q
    requires var d := Dedup(e); Plain(At(d.op, d, p)) && Plain(At(d.op, d, q))
    ensures var d := Dedup(e); FormOf(At(d.op, d, p)) != FormOf(At(d.op, d, q))
  {
    var d := Dedup(e);
    DedupComplete(e);
    assert Settled(d.op, d, p, q);
    EqualForms(At(d.op, d, p), At(d.op, d, q));
  }
}
