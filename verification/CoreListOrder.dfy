/**
 Sequences that are merged run by run: the order that makes a sort stable, and what one merge and one
 pass of a bottom-up merge sort do to it.
 */
module CoreListOrder {

  /** The keys of the elements that have been compared, as far as the sort has got, and the position of
      each element in the list as it was given. */
  datatype Tags<!T> = Tags(key: map<T, int>, pos: T -> int)

  function Key<T>(g: Tags<T>, a: T): int { if a in g.key then g.key[a] else 0 }

  /** Smaller key, or the same key and an earlier position: the order a stable sort establishes. */
  predicate Less<T>(g: Tags<T>, a: T, b: T) {
    Key(g, a) < Key(g, b) || (Key(g, a) == Key(g, b) && g.pos(a) < g.pos(b))
  }

  /** Every element has been compared. */
  ghost predicate Known<T>(g: Tags<T>, s: seq<T>) {
    forall a :: a in s ==> a in g.key
  }

  /** More elements have been compared; those that were before keep their keys. */
  ghost predicate Extends<T>(g: Tags<T>, g': Tags<T>) {
    g'.pos == g.pos && forall a :: a in g.key ==> a in g'.key && g'.key[a] == g.key[a]
  }

  /** A compared element gets the key it has when it is first compared. */
  function Note<T>(g: Tags<T>, a: T, key: int): Tags<T> {
    if a in g.key then g else g.(key := g.key[a := key])
  }

  ghost predicate Distinct<T>(s: seq<T>) {
    forall i, j :: 0 <= i < j < |s| ==> s[i] != s[j]
  }

  ghost predicate Sorted<T>(g: Tags<T>, s: seq<T>) {
    forall i, j :: 0 <= i < j < |s| ==> Less(g, s[i], s[j])
  }

  ghost predicate AllLess<T>(g: Tags<T>, s: seq<T>, t: seq<T>) {
    forall a, b :: a in s && b in t ==> Less(g, a, b)
  }

  ghost predicate Earlier<T>(g: Tags<T>, s: seq<T>, t: seq<T>) {
    forall a, b :: a in s && b in t ==> g.pos(a) < g.pos(b)
  }

  /** Two runs are being merged: `out` is finished, `p` and `q` remain. */
  ghost predicate Merging<T>(g: Tags<T>, out: seq<T>, p: seq<T>, q: seq<T>) {
    && Sorted(g, out) && Sorted(g, p) && Sorted(g, q)
    && AllLess(g, out, p) && AllLess(g, out, q) && Earlier(g, p, q)
  }

  /** Of the elements of the two runs only one that is alone in its run, before the first of them is
      finished, has not been compared; except for a single element with nothing to merge it with. */
  ghost predicate RunsKnown<T>(g: Tags<T>, out: seq<T>, p: seq<T>, q: seq<T>) {
    && (|p| > 1 ==> Known(g, p)) && (|q| > 1 ==> Known(g, q))
    && (out != [] && |out| + |p| + |q| > 1 ==> Known(g, out) && Known(g, p) && Known(g, q))
  }

  /** A run that was known, or is a single element, stays sorted when more keys become known. */
  lemma SortedStays<T>(g: Tags<T>, g': Tags<T>, s: seq<T>)
    requires Extends(g, g') && Sorted(g, s) && (|s| > 1 ==> Known(g, s))
    ensures Sorted(g', s)
  {
    forall i, j | 0 <= i < j < |s|
      ensures Less(g', s[i], s[j])
    {
      assert Less(g, s[i], s[j]) && s[i] in s && s[j] in s;
    }
  }

  lemma AllLessStays<T>(g: Tags<T>, g': Tags<T>, s: seq<T>, t: seq<T>)
    requires Extends(g, g') && AllLess(g, s, t) && Known(g, s) && Known(g, t)
    ensures AllLess(g', s, t)
  {
    forall a, b | a in s && b in t
      ensures Less(g', a, b)
    {
      assert Less(g, a, b);
    }
  }

  lemma MergingStays<T>(g: Tags<T>, g': Tags<T>, out: seq<T>, p: seq<T>, q: seq<T>)
    requires Extends(g, g') && RunsKnown(g, out, p, q)
    ensures RunsKnown(g', out, p, q)
    ensures Merging(g, out, p, q) ==> Merging(g', out, p, q)
  {
    if Merging(g, out, p, q) {
      SortedStays(g, g', out);
      SortedStays(g, g', p);
      SortedStays(g, g', q);
      if out != [] && |out| + |p| + |q| > 1 {
        AllLessStays(g, g', out, p);
        AllLessStays(g, g', out, q);
      }
    }
  }

  lemma TakeFirst<T>(g: Tags<T>, out: seq<T>, p: seq<T>, q: seq<T>)
    requires Merging(g, out, p, q) && p != []
    requires q != [] ==> Key(g, p[0]) <= Key(g, q[0])
    ensures Merging(g, out + [p[0]], p[1..], q)
  {
    assert p[0] in p;
    forall b | b in q
      ensures Less(g, p[0], b)
    {
      assert q[0] in q;
      var i :| 0 <= i < |q| && q[i] == b;
      assert i > 0 ==> Less(g, q[0], q[i]);
    }
  }

  lemma TakeSecond<T>(g: Tags<T>, out: seq<T>, p: seq<T>, q: seq<T>)
    requires Merging(g, out, p, q) && q != []
    requires p != [] ==> Key(g, q[0]) < Key(g, p[0])
    ensures Merging(g, out + [q[0]], p, q[1..])
  {
    assert q[0] in q;
    forall a | a in p
      ensures Less(g, q[0], a)
    {
      var i :| 0 <= i < |p| && p[i] == a;
      assert i > 0 ==> Less(g, p[0], p[i]);
    }
  }

  lemma KnownFirst<T>(g: Tags<T>, out: seq<T>, p: seq<T>, q: seq<T>)
    requires RunsKnown(g, out, p, q) && p != [] && (q != [] ==> p[0] in g.key && q[0] in g.key)
    ensures RunsKnown(g, out + [p[0]], p[1..], q)
  {
    assert p == [p[0]] + p[1..] && (q != [] ==> q == [q[0]] + q[1..]);
  }

  lemma KnownSecond<T>(g: Tags<T>, out: seq<T>, p: seq<T>, q: seq<T>)
    requires RunsKnown(g, out, p, q) && q != [] && (p != [] ==> p[0] in g.key && q[0] in g.key)
    ensures RunsKnown(g, out + [q[0]], p, q[1..])
  {
    assert q == [q[0]] + q[1..] && (p != [] ==> p == [p[0]] + p[1..]);
  }

  function RunLength(k: nat, n: nat): nat { if k < n then k else n }

  /** The list is a row of runs of length `k` (the last may be shorter), earlier positions first; every
      run is sorted if the comparison function orders by key, and every element of a run of two or more
      has been compared. */
  ghost predicate Runs<T>(g: Tags<T>, ordered: bool, s: seq<T>, k: nat)
    requires k > 0
    decreases |s|
  {
    s == [] ||
    (var m := RunLength(k, |s|);
     && Run(g, ordered, s[..m])
     && Earlier(g, s[..m], s[m..])
     && Runs(g, ordered, s[m..], k))
  }

  ghost predicate Run<T>(g: Tags<T>, ordered: bool, r: seq<T>) {
    && (ordered ==> Sorted(g, r))
    && (|r| > 1 ==> Known(g, r))
  }

  /** Nothing but complete runs. */
  predicate Full<T>(s: seq<T>, k: nat)
    requires k > 0
    decreases |s|
  {
    s == [] || (k <= |s| && Full(s[k..], k))
  }

  lemma {:induction false} SingletonRuns<T>(g: Tags<T>, ordered: bool, s: seq<T>)
    requires forall i, j :: 0 <= i < j < |s| ==> g.pos(s[i]) < g.pos(s[j])
    ensures Runs(g, ordered, s, 1)
    decreases |s|
  {
    if s != [] {
      SingletonRuns(g, ordered, s[1..]);
      assert s[..1] == [s[0]];
    }
  }

  lemma {:induction false} RunsStay<T>(g: Tags<T>, g': Tags<T>, ordered: bool, s: seq<T>, k: nat)
    requires k > 0 && Runs(g, ordered, s, k) && Extends(g, g')
    ensures Runs(g', ordered, s, k)
    decreases |s|
  {
    if s != [] {
      var m := RunLength(k, |s|);
      if ordered { SortedStays(g, g', s[..m]); }
      RunsStay(g, g', ordered, s[m..], k);
    }
  }

  lemma {:induction false} FullLength<T>(s: seq<T>, k: nat, r: seq<T>)
    requires k > 0 && Full(s, k)
    ensures |r| == k ==> Full(s + r, k)
    decreases |s|
  {
    if s != [] {
      FullLength(s[k..], k, r);
      assert (s + r)[k..] == s[k..] + r;
    } else {
      assert s + r == r && r[|r|..] == [];
    }
  }

  /** Appending one run to complete runs. */
  lemma {:induction false} AppendRun<T>(g: Tags<T>, ordered: bool, s: seq<T>, k: nat, r: seq<T>)
    requires k > 0 && Runs(g, ordered, s, k) && Full(s, k)
    requires 0 < |r| <= k && Run(g, ordered, r) && Earlier(g, s, r)
    ensures Runs(g, ordered, s + r, k)
    decreases |s|
  {
    if s == [] {
      assert s + r == r && r[..|r|] == r && r[|r|..] == [];
    } else {
      AppendRun(g, ordered, s[k..], k, r);
      assert (s + r)[..k] == s[..k] && (s + r)[k..] == s[k..] + r;
    }
  }

  /** A sorted arrangement of a list without repetitions is unique. */
  lemma {:induction false} SortedUnique<T>(g: Tags<T>, s: seq<T>, t: seq<T>)
    requires Sorted(g, s) && Sorted(g, t) && multiset(s) == multiset(t)
    ensures s == t
  {
    assert |s| == |multiset(s)| == |multiset(t)| == |t|;
    if s != [] {
      SameFirst(g, s, t);
      assert s == [s[0]] + s[1..] && t == [t[0]] + t[1..];
      assert multiset(s[1..]) == multiset(s) - multiset{s[0]} == multiset(t[1..]);
      SortedUnique(g, s[1..], t[1..]);
    }
  }

  lemma SameFirst<T>(g: Tags<T>, s: seq<T>, t: seq<T>)
    requires Sorted(g, s) && Sorted(g, t) && multiset(s) == multiset(t) && s != [] && t != []
    ensures s[0] == t[0]
  {
    assert s[0] in multiset(t) && t[0] in multiset(s);
  }

  lemma SameElements<T>(s: seq<T>, t: seq<T>, u: seq<T>)
    requires multiset(s) == multiset(t) + multiset(u)
    ensures |s| == |t| + |u|
    ensures forall x :: x in s <==> x in t || x in u
  {
    assert |s| == |multiset(s)| == |multiset(t)| + |multiset(u)|;
    assert forall x :: x in s <==> x in multiset(s);
  }

  /** The two runs at the front of `rest`, and what follows them. */
  function FrontParts<T>(rest: seq<T>, k: nat): (seq<T>, seq<T>, seq<T>) {
    var n := RunLength(k, |rest|);
    var m := RunLength(k, |rest| - n);
    (rest[..n], rest[n..][..m], rest[n..][m..])
  }

  lemma PartsJoin<T>(rest: seq<T>, k: nat)
    requires k > 0 && rest != []
    ensures var (ps, qr, qx) := FrontParts(rest, k);
            && 0 < |ps| == RunLength(k, |rest|) && ps == rest[..|ps|] && qr + qx == rest[|ps|..]
            && |qr| <= k && (|qr| < k ==> qx == []) && (|ps| < k ==> qr == [])
            && rest == ps + (qr + qx) && multiset(rest) == multiset(ps) + multiset(qr + qx)
  {
    var (ps, qr, qx) := FrontParts(rest, k);
    assert rest == ps + (qr + qx);
  }

  lemma EarlierParts<T>(g: Tags<T>, ps: seq<T>, qr: seq<T>, qx: seq<T>)
    requires Earlier(g, ps, qr + qx)
    ensures Earlier(g, ps, qr) && Earlier(g, ps, qx)
  {
    assert forall b :: b in qr || b in qx ==> b in qr + qx;
  }

  /** The two runs a merge takes from the front of the rest. */
  lemma NextRuns<T>(g: Tags<T>, ordered: bool, rest: seq<T>, k: nat)
    requires k > 0 && rest != [] && Runs(g, ordered, rest, k)
    ensures var (ps, qr, qx) := FrontParts(rest, k);
            && Run(g, ordered, ps) && Run(g, ordered, qr) && Runs(g, ordered, qx, k)
            && Earlier(g, ps, qr) && Earlier(g, ps, qx) && Earlier(g, qr, qx)
  {
    var (ps, qr, qx) := FrontParts(rest, k);
    PartsJoin(rest, k);
    EarlierParts(g, ps, qr, qx);
    assert Runs(g, ordered, qr + qx, k);
    if qr + qx != [] {
      assert (qr + qx)[..|qr|] == qr && (qr + qx)[|qr|..] == qx;
    }
  }

  lemma FrontRuns<T>(g: Tags<T>, ordered: bool, rest: seq<T>, k: nat)
    requires k > 0 && rest != [] && Runs(g, ordered, rest, k)
    ensures var (ps, qr, qx) := FrontParts(rest, k);
            Run(g, ordered, ps) && Run(g, ordered, qr) && Earlier(g, ps, qr)
  {
    NextRuns(g, ordered, rest, k);
  }

  /** Two runs `ps` and `qr` were taken from the front of `rest` and merged; `qx` is left. */
  ghost predicate Taken<T>(g: Tags<T>, g': Tags<T>, ordered: bool, rest: seq<T>, k: nat,
                           ps: seq<T>, qr: seq<T>, qx: seq<T>, merged: seq<T>)
    requires k > 0
  {
    && Extends(g, g') && Runs(g, ordered, qx, k)
    && Earlier(g, ps, qx) && Earlier(g, qr, qx)
    && rest == ps + (qr + qx) && 0 < |ps| <= k && |qr| <= k
    && (|qr| < k ==> qx == []) && (|ps| < k ==> qr == [])
    && multiset(merged) == multiset(ps) + multiset(qr)
    && Run(g', ordered, merged)
  }

  /** The sequences between the merges of a pass with runs of length `k`, after `nmerges` merges. */
  ghost predicate Passing<T>(g: Tags<T>, ordered: bool, k: nat, nmerges: nat, done: seq<T>, rest: seq<T>)
    requires k > 0
  {
    && Runs(g, ordered, done, 2 * k) && Runs(g, ordered, rest, k)
    && Earlier(g, done, rest) && (rest != [] ==> Full(done, 2 * k))
    && (if nmerges == 0 then done == []
        else if nmerges == 1 then 0 < |done| <= 2 * k && (rest != [] ==> |done| == 2 * k)
        else |done| > 2 * k)
  }

  lemma TakenIntro<T>(g: Tags<T>, g': Tags<T>, ordered: bool, rest: seq<T>, k: nat,
                      ps: seq<T>, qr: seq<T>, qx: seq<T>, merged: seq<T>)
    requires k > 0 && rest != [] && Runs(g, ordered, rest, k) && Extends(g, g')
    requires (ps, qr, qx) == FrontParts(rest, k)
    requires multiset(merged) == multiset(ps) + multiset(qr)
    requires Run(g', ordered, merged)
    ensures Taken(g, g', ordered, rest, k, ps, qr, qx, merged)
  {
    NextRuns(g, ordered, rest, k);
    PartsJoin(rest, k);
  }

  /** One merge moves two runs from the rest to the end of the output. */
  lemma {:induction false} PassStep<T>(g: Tags<T>, g': Tags<T>, ordered: bool, k: nat, nmerges: nat, done: seq<T>,
                                       rest: seq<T>, ps: seq<T>, qr: seq<T>, qx: seq<T>, merged: seq<T>)
    requires k > 0 && rest != [] && Passing(g, ordered, k, nmerges, done, rest)
    requires Taken(g, g', ordered, rest, k, ps, qr, qx, merged)
    ensures Passing(g', ordered, k, nmerges + 1, done + merged, qx) && |qx| < |rest|
  {
    SameElements(merged, ps, qr);
    assert forall x :: x in rest <==> x in ps || x in qr || x in qx;
    RunsStay(g, g', ordered, done, 2 * k);
    RunsStay(g, g', ordered, qx, k);
    AppendRun(g', ordered, done, 2 * k, merged);
    FullLength(done, 2 * k, merged);
  }

  lemma PassEnd<T>(g: Tags<T>, ordered: bool, k: nat, s: seq<T>)
    requires k > 0 && Runs(g, ordered, s, k) && |s| <= k
    ensures Run(g, ordered, s)
  {
    assert s[..|s|] == s;
  }
}
