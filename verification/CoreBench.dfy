/**
 The CoreMark list benchmark (`core_bench_list`): finding, reversing, moving, sorting and removing, at
 the end of which the list is back in its original state.
 */
module CoreBench {
  import opened CoreListOrder
  import opened CoreList

  // ----- the comparison functions -----

  /** The low byte is replaced with the copy of the original data in the high byte. */
  function Regenerate(d: bv16): bv16 { (d & 0xff00) | (0x00ff & (d >> 8)) }

  /** `cmp_idx` called with NULL results. */
  function CmpIdx(a: Data, b: Data, w: ()): Compared<()> {
    Compared(a.idx - b.idx, Regenerate(a.data16), Regenerate(b.data16), w)
  }

  /** The parts of the results structure that `calc_func` touches; `calls` counts the runs of the state
      machine and matrix benchmarks, whose results are arbitrary. */
  datatype Results = Results(crc: bv16, crcstate: bv16, crcmatrix: bv16, calls: nat)

  /** What the k-th of those runs returns, and the CRC of a value. */
  datatype Env = Env(bench: nat -> bv16, crcu16: (bv16, bv16) -> bv16)

  /** `calc_func`: the 7-bit value of an item, the item with the value cached, and the results. */
  function CalcFunc(env: Env, data: bv16, res: Results): (bv16, bv16, Results) {
    if (data >> 7) & 1 == 1 then (data & 0x007f, data, res)
    else
      var flag := data & 0x7;
      var runs := flag == 0 || flag == 1;
      var retval := if runs then env.bench(res.calls) else data;
      var res1 := res.(
        calls := if runs then res.calls + 1 else res.calls,
        crcstate := if flag == 0 && res.crcstate == 0 then retval else res.crcstate,
        crcmatrix := if flag == 1 && res.crcmatrix == 0 then retval else res.crcmatrix,
        crc := env.crcu16(retval, res.crc));
      (retval & 0x007f, (data & 0xff00) | 0x0080 | (retval & 0x007f), res1)
  }

  function CmpComplex(env: Env): Comparison<Results> {
    (a: Data, b: Data, res: Results) =>
      var (val1, a1, res1) := CalcFunc(env, a.data16, res);
      var (val2, b1, res2) := CalcFunc(env, b.data16, res1);
      Compared(val1 as int - val2 as int, a1, b1, res2)
  }

  function HighByte(d: Data): bv16 { d.data16 & 0xff00 }
  function Idx(d: Data): int { d.idx }
  predicate Fresh(d: Data) { d.data16 == Regenerate(d.data16) }

  /** The value in the low seven bits, which bit 7 marks as computed. */
  function CachedValue(d: Data): int { (d.data16 & 0x007f) as int }
  predicate Cached(d: Data) { (d.data16 >> 7) & 1 == 1 }

  lemma CacheHolds(data: bv16, v: bv16)
    ensures (((data & 0xff00) | 0x0080 | (v & 0x007f)) >> 7) & 1 == 1
    ensures ((data & 0xff00) | 0x0080 | (v & 0x007f)) & 0x007f == v & 0x007f
  {
  }

  /** `calc_func` returns the value it leaves in the item, which it does not change once it is there. */
  lemma CalcCaches(env: Env, data: bv16, idx: int, res: Results)
    ensures var (val, data', _) := CalcFunc(env, data, res);
            && Cached(Data(data', idx)) && val as int == CachedValue(Data(data', idx))
            && (Cached(Data(data, idx)) ==> data' == data)
  {
    var flag := data & 0x7;
    CacheHolds(data, if flag == 0 || flag == 1 then env.bench(res.calls) else data);
  }

  /** What the value is: an item of type 0 or 1 takes that of one run of a benchmark, any other its own data; an
      item that has its value costs nothing any more. */
  lemma CalcRuns(env: Env, data: bv16, idx: int, res: Results)
    ensures var (val, _, res') := CalcFunc(env, data, res);
            var cached, kind := Cached(Data(data, idx)), data & 0x7;
            var ret := if kind == 0 || kind == 1 then env.bench(res.calls) else data;
            && (cached ==> val == data & 0x007f && res' == res)
            && (!cached ==>
                  && val == ret & 0x007f && res'.crc == env.crcu16(ret, res.crc)
                  && res'.calls == res.calls + (if kind == 0 || kind == 1 then 1 else 0)
                  && res'.crcstate == (if kind == 0 && res.crcstate == 0 then ret else res.crcstate)
                  && res'.crcmatrix == (if kind == 1 && res.crcmatrix == 0 then ret else res.crcmatrix))
  {
  }

  /** `cmp_complex` orders by a value that an item has from its first comparison on. */
  lemma ComplexSettles(env: Env)
    ensures Settles(CmpComplex(env), CachedValue, Cached)
  {
    forall a: Data, b: Data, res: Results
      ensures var c := CmpComplex(env)(a, b, res);
              var (a', b') := (a.(data16 := c.a), b.(data16 := c.b));
              && Cached(a') && Cached(b') && (c.sign <= 0 <==> CachedValue(a') <= CachedValue(b'))
              && (Cached(a) ==> a' == a) && (Cached(b) ==> b' == b)
    {
      CalcCaches(env, a.data16, a.idx, res);
      CalcCaches(env, b.data16, b.idx, CalcFunc(env, a.data16, res).2);
    }
  }

  lemma CacheKeepsHigh(data: bv16, v: bv16)
    ensures ((data & 0xff00) | 0x0080 | (v & 0x007f)) & 0xff00 == data & 0xff00
  {
  }

  lemma RegenerateKeepsHigh(d: bv16)
    ensures ((d & 0xff00) | (0x00ff & (d >> 8))) & 0xff00 == d & 0xff00
  {
  }

  lemma RegenerateTwice(d: bv16)
    ensures var r := (d & 0xff00) | (0x00ff & (d >> 8)); r == (r & 0xff00) | (0x00ff & (r >> 8))
  {
  }

  /** The high byte and regeneration determine the data. */
  lemma SameData(d: bv16, e: bv16)
    requires d & 0xff00 == e & 0xff00
    ensures (d & 0xff00) | (0x00ff & (d >> 8)) == (e & 0xff00) | (0x00ff & (e >> 8))
  {
  }

  lemma CalcKeepsHigh(env: Env, data: bv16, res: Results)
    ensures CalcFunc(env, data, res).1 & 0xff00 == data & 0xff00
  {
    var flag := data & 0x7;
    CacheKeepsHigh(data, if flag == 0 || flag == 1 then env.bench(res.calls) else data);
  }

  lemma ComplexKeeps(env: Env)
    ensures Preserves(CmpComplex(env), HighByte)
  {
    forall a: Data, b: Data, res: Results
      ensures var c := CmpComplex(env)(a, b, res);
              HighByte(a.(data16 := c.a)) == HighByte(a) && HighByte(b.(data16 := c.b)) == HighByte(b)
    {
      CalcKeepsHigh(env, a.data16, res);
      CalcKeepsHigh(env, b.data16, CalcFunc(env, a.data16, res).2);
    }
  }

  lemma IdxKeeps()
    ensures Preserves(CmpIdx, HighByte) && Preserves(CmpIdx, Idx) && Orders(CmpIdx, Idx) && Establishes(CmpIdx, Fresh)
  {
    forall a: Data, b: Data, w: ()
      ensures var c := CmpIdx(a, b, w);
              && HighByte(a.(data16 := c.a)) == HighByte(a) && HighByte(b.(data16 := c.b)) == HighByte(b)
              && Fresh(a.(data16 := c.a)) && Fresh(b.(data16 := c.b))
    {
      RegenerateKeepsHigh(a.data16);
      RegenerateKeepsHigh(b.data16);
      RegenerateTwice(a.data16);
      RegenerateTwice(b.data16);
    }
  }

  lemma KeptKeySettles<W(!new)>(cmp: Comparison<W>, key: Data -> int, mark: Data -> bool)
    requires Preserves(cmp, key) && Orders(cmp, key) && Establishes(cmp, mark)
    ensures Settles(cmp, key, mark)
  {
  }

  // ----- list operations -----

  /** What `core_list_find` looks for: an index, or a data byte when the index is negative. */
  predicate Matches(d: Data, idx: int, data16: bv16) {
    if idx >= 0 then d.idx == idx else d.data16 & 0xff == data16
  }

  /** The first matching node, or null if there is none. */
  method Find(list: ListHead?, idx: int, data16: bv16, ghost s: seq<ListHead>) returns (r: ListHead?, ghost k: nat)
    requires IsList(list, s)
    ensures k <= |s| && r == (if k < |s| then s[k] else null)
    ensures forall j :: 0 <= j < k ==> !Matches(s[j].info.Get(), idx, data16)
    ensures r != null ==> Matches(r.info.Get(), idx, data16)
  {
    r, k := list, 0;
    while r != null && !Matches(r.info.Get(), idx, data16)
      invariant k <= |s| && r == (if k < |s| then s[k] else null)
      invariant forall j :: 0 <= j < k ==> !Matches(s[j].info.Get(), idx, data16)
      decreases |s| - k
    {
      assert k + 1 < |s| ==> s[k].next == s[k + 1];
      r := r.next;
      k := k + 1;
    }
  }

  function Reversed<T>(s: seq<T>): (r: seq<T>)
    ensures |r| == |s| && forall i :: 0 <= i < |s| ==> r[i] == s[|s| - 1 - i]
    ensures multiset(r) == multiset(s)
  {
    if s == [] then []
    else
      assert s == [s[0]] + s[1..];
      Reversed(s[1..]) + [s[0]]
  }

  method Reverse(list0: ListHead?, ghost s: seq<ListHead>) returns (head: ListHead?)
    requires IsList(list0, s) && Distinct(s)
    modifies Nodes(s)`next
    ensures IsList(head, Reversed(s))
  {
    var list := list0;
    head := null;
    ghost var k := 0;
    while list != null
      invariant 0 <= k <= |s| && list == (if k < |s| then s[k] else null)
      invariant forall i {:trigger s[i].next} :: k <= i < |s| ==> s[i].next == old(s[i].next)
      invariant forall i {:trigger s[i].next} :: 0 < i < k ==> s[i].next == s[i - 1]
      invariant k > 0 ==> s[0].next == null
      invariant head == if k == 0 then null else s[k - 1]
      decreases |s| - k
    {
      assert s[k] in Nodes(s);
      assert k + 1 < |s| ==> old(s[k].next) == s[k + 1];
      var tmp := list.next;
      list.next := head;
      head := list;
      list := tmp;
      k := k + 1;
    }
    ghost var r := Reversed(s);
    forall i | 0 <= i < |r| - 1
      ensures r[i].next == r[i + 1]
    {
      assert r[i] == s[|s| - 1 - i] && r[i + 1] == s[|s| - 2 - i];
    }
  }

  /** The node after the one at `k` moves to the second place. */
  function MoveUp<T>(s: seq<T>, k: nat): (r: seq<T>)
    requires k + 1 < |s|
    ensures multiset(r) == multiset(s)
  {
    assert s == [s[0]] + s[1..k + 1] + [s[k + 1]] + s[k + 2..];
    [s[0]] + [s[k + 1]] + s[1..k + 1] + s[k + 2..]
  }

  method CacheNext(list: ListHead, this_find: ListHead, ghost s: seq<ListHead>, ghost k: nat)
    requires IsList(list, s) && Distinct(s) && k < |s| && this_find == s[k]
    modifies Nodes(s)`next
    ensures k + 1 < |s| ==> IsList(list, MoveUp(s, k))
    ensures k + 1 == |s| ==> IsList(list, s)
  {
    if this_find.next != null {
      assert s[k] in Nodes(s) && s[k].next == s[k + 1] && s[k + 1] in Nodes(s) && s[0] in Nodes(s);
      assert k + 2 < |s| ==> s[k + 1].next == s[k + 1 + 1];
      assert s[0].next == s[0 + 1];
      var finder := this_find.next;
      this_find.next := finder.next;
      finder.next := list.next;
      list.next := finder;
      MovedLinks(s, k);
    }
  }

  /** The three links that were changed make the list one in the new order. */
  lemma MovedLinks(s: seq<ListHead>, k: nat)
    requires k + 1 < |s| && Distinct(s) && s[0].next == s[k + 1]
    requires forall i {:trigger s[i].next} :: 0 < i < |s| && i != k && i != k + 1 ==>
               s[i].next == if i < |s| - 1 then s[i + 1] else null
    requires k > 0 ==> s[k].next == (if k + 2 < |s| then s[k + 2] else null) && s[k + 1].next == s[1]
    requires k == 0 ==> s[1].next == if 2 < |s| then s[2] else null
    ensures IsList(s[0], MoveUp(s, k))
  {
    var r := MoveUp(s, k);
    forall i | 0 <= i < |r| - 1
      ensures r[i].next == r[i + 1]
    {
      MovedAt(s, k, i);
      MovedAt(s, k, i + 1);
    }
    MovedAt(s, k, |s| - 1);
  }

  lemma MovedAt<T>(s: seq<T>, k: nat, i: nat)
    requires k + 1 < |s| && i < |s|
    ensures |MoveUp(s, k)| == |s|
    ensures MoveUp(s, k)[i] ==
            if i == 0 then s[0] else if i == 1 then s[k + 1] else if i <= k + 1 then s[i - 1] else s[i]
  {
  }

  /** Removes the node after `item`, after exchanging their items. */
  method Remove(item: ListHead, ghost head: ListHead?, ghost s: seq<ListHead>, ghost k: nat) returns (ret: ListHead)
    requires IsList(head, s) && Distinct(s) && k + 1 < |s| && item == s[k]
    modifies s[k], s[k + 1]
    ensures ret == s[k + 1] && ret.next == null && IsList(head, s[..k + 1] + s[k + 2..])
    ensures item.info == old(s[k + 1].info) && ret.info == old(s[k].info)
  {
    assert s[k].next == s[k + 1];
    ret := item.next;
    var tmp := item.info;
    item.info := ret.info;
    ret.info := tmp;
    item.next := item.next.next;
    ret.next := null;
    ghost var t := s[..k + 1] + s[k + 2..];
    forall i | 0 <= i < |t| - 1
      ensures t[i].next == t[i + 1]
    {
      if i > k { assert s[i + 1].next == s[i + 1 + 1]; }
    }
  }

  /** Puts the removed node back after `modified` and exchanges the items again. */
  method UndoRemove(removed: ListHead, modified: ListHead, ghost head: ListHead?, ghost t: seq<ListHead>, ghost k: nat)
    requires IsList(head, t) && Distinct(t) && k < |t| && modified == t[k] && removed !in t
    modifies removed, modified
    ensures IsList(head, t[..k + 1] + [removed] + t[k + 1..])
    ensures modified.info == old(removed.info) && removed.info == old(modified.info)
  {
    var tmp := removed.info;
    removed.info := modified.info;
    modified.info := tmp;
    removed.next := modified.next;
    modified.next := removed;
    ghost var s := t[..k + 1] + [removed] + t[k + 1..];
    forall i | 0 <= i < |s| - 1
      ensures s[i].next == s[i + 1]
    {
      if i > k + 1 {
        assert t[i - 1].next == t[i];
      } else if i < k {
        assert t[i].next == t[i + 1];
      }
    }
  }

  /** Removing and putting back changes nothing, neither the links nor the items. */
  method RemoveAndUndo(list: ListHead, idx: int, data16: bv16, ghost s: seq<ListHead>)
    requires IsList(list, s) && Distinct(s) && |s| >= 3
    modifies s[1], s[2]
    ensures IsList(list, s)
    ensures forall n :: n in s ==> n.info == old(n.info)
  {
    ghost var t := s[..2] + s[3..];
    WithoutThird(s);
    assert s[0].next == s[1];
    var remover := Remove(list.next, list, s, 1);
    var finder, _ := Find(list, idx, data16, t);
    assert t[0].next == t[1];
    UndoRemove(remover, list.next, list, t, 1);
  }

  lemma WithoutThird(s: seq<ListHead>)
    requires Distinct(s) && |s| >= 3
    ensures var t := s[..2] + s[3..];
            && Distinct(t) && s[2] !in t && t[0] == s[0] && t[1] == s[1] && t[..2] + [s[2]] + t[2..] == s
            && s[..1 + 1] + s[1 + 2..] == t
  {
    var t := s[..2] + s[3..];
    assert forall i :: 0 <= i < |t| ==> t[i] == if i < 2 then s[i] else s[i + 1];
    assert t[..2] == s[..2] && t[2..] == s[3..];
  }

  // ----- core_bench_list -----

  /** The increment of an ee_s16. */
  function Next16(i: int): int { if i == 0x7fff then -0x8000 else i + 1 }

  /** The index that is looked for in round `i`: it counts up, unless it was negative or becomes so. */
  function IdxOf(idx: int, i: nat): int {
    if i == 0 then idx
    else
      var last := IdxOf(idx, i - 1);
      if last >= 0 then Next16(last) else last
  }

  /** The data byte that is looked for in round `i`. */
  function ByteOf(i: nat): bv16 { if i < 0x8000 then (i as bv16) & 0xff else 0 }

  /** The list after a round that found the node at `k`: reversed, and the node then behind the found one moved to
      the second place. */
  function RoundOf(s: seq<ListHead>, k: nat): (r: seq<ListHead>)
    ensures multiset(r) == multiset(s)
  {
    Moved(Reversed(s), k)
  }

  function Moved(r: seq<ListHead>, k: nat): (t: seq<ListHead>)
    ensures multiset(t) == multiset(r)
  {
    if 0 < k < |r| then MoveUp(r, |r| - 1 - k) else r
  }

  function AfterRounds(s: seq<ListHead>, ks: seq<nat>): (r: seq<ListHead>)
    ensures multiset(r) == multiset(s)
  {
    if ks == [] then s else RoundOf(AfterRounds(s, ks[..|ks| - 1]), ks[|ks| - 1])
  }

  function Whole(d: Data): Data { d }

  function DataOf(info: map<ListHead, Data>, n: ListHead): Data { if n in info then info[n] else Data(0, 0) }

  /** The node at `k` is the first match, and `k` is the length of the list if there is none. */
  predicate FirstMatch(s: seq<ListHead>, info: map<ListHead, Data>, k: nat, idx: int, data16: bv16) {
    && k <= |s| && (forall j :: 0 <= j < k ==> !Matches(DataOf(info, s[j]), idx, data16))
    && (k < |s| ==> Matches(DataOf(info, s[k]), idx, data16))
  }

  /** Round `i` found the node at `ks[i]` first. */
  predicate RoundFound(s: seq<ListHead>, info: map<ListHead, Data>, ks: seq<nat>, idx: int, i: nat)
    requires i < |ks|
  {
    FirstMatch(AfterRounds(s, ks[..i]), info, ks[i], IdxOf(idx, i), ByteOf(i))
  }

  predicate AllFound(s: seq<ListHead>, info: map<ListHead, Data>, ks: seq<nat>, idx: int) {
    forall i :: 0 <= i < |ks| ==> RoundFound(s, info, ks, idx, i)
  }

  lemma FoundMore(s: seq<ListHead>, info: map<ListHead, Data>, ks: seq<nat>, idx: int, k: nat)
    requires AllFound(s, info, ks, idx)
    requires FirstMatch(AfterRounds(s, ks), info, k, IdxOf(idx, |ks|), ByteOf(|ks|))
    ensures AllFound(s, info, ks + [k], idx) && AfterRounds(s, ks + [k]) == RoundOf(AfterRounds(s, ks), k)
  {
    var ks' := ks + [k];
    assert ks'[..|ks|] == ks;
    forall i | 0 <= i < |ks'|
      ensures RoundFound(s, info, ks', idx, i)
    {
      if i < |ks| {
        assert RoundFound(s, info, ks, idx, i);
        assert ks'[..i] == ks[..i];
      }
    }
  }

  /** The rounds of finding, reversing and moving: each finds the first match in the list as the rounds before have
      left it; together they permute the nodes and change nothing else. */
  method FindRounds(list0: ListHead, find_num: int, finder_idx: int, ghost s: seq<ListHead>)
    returns (list: ListHead, idx: int, data16: bv16, ghost cur: seq<ListHead>, ghost ks: seq<nat>)
    requires IsList(list0, s) && Distinct(s) && s != [] && find_num < 0x8000
    modifies Nodes(s)`next
    ensures IsList(list, cur) && multiset(cur) == multiset(s) && Distinct(cur) && cur != []
    ensures Rounds(s, old(Snapshot(s, Whole)), ks, finder_idx, cur, idx)
    ensures |ks| == if find_num > 0 then find_num else 0
  {
    list, idx, data16, cur, ks := list0, finder_idx, 0, s, [];
    ghost var info := Snapshot(s, Whole);
    var i := 0;
    while i < find_num
      invariant 0 <= i < 0x8000 && |ks| == i && (find_num > 0 ==> i <= find_num) && (find_num <= 0 ==> i == 0)
      invariant IsList(list, cur) && multiset(cur) == multiset(s) && Distinct(cur) && cur != []
      invariant forall n :: n in s ==> DataOf(info, n) == n.info.Get()
      invariant Rounds(s, info, ks, finder_idx, cur, idx)
    {
      data16 := (i as bv16) & 0xff;
      ghost var k, before := 0, cur;
      list, cur, k := FindRound(list, idx, data16, s, info, cur);
      NextRound(s, info, ks, finder_idx, before, idx, k, cur);
      if idx >= 0 {
        idx := Next16(idx);
      }
      ks := ks + [k];
      i := i + 1;
    }
  }

  /** In any case the rounds permute the nodes. */
  method Shuffle(list0: ListHead, find_num: int, finder_idx: int, ghost s: seq<ListHead>)
    returns (list: ListHead, idx: int, data16: bv16, ghost cur: seq<ListHead>)
    requires IsList(list0, s) && Distinct(s) && s != [] && find_num < 0x8000
    modifies Nodes(s)`next
    ensures IsList(list, cur) && multiset(cur) == multiset(s) && Distinct(cur) && cur != []
  {
    ghost var ks;
    list, idx, data16, cur, ks := FindRounds(list0, find_num, finder_idx, s);
  }

  /** Where the rounds stand. */
  ghost predicate Rounds(s: seq<ListHead>, info: map<ListHead, Data>, ks: seq<nat>, idx0: int, cur: seq<ListHead>,
                         idx: int)
  {
    cur == AfterRounds(s, ks) && AllFound(s, info, ks, idx0) && idx == IdxOf(idx0, |ks|)
  }

  lemma NextRound(s: seq<ListHead>, info: map<ListHead, Data>, ks: seq<nat>, idx0: int, cur: seq<ListHead>, idx: int,
                  k: nat, cur': seq<ListHead>)
    requires Rounds(s, info, ks, idx0, cur, idx) && |ks| < 0x8000
    requires cur' == RoundOf(cur, k) && FirstMatch(cur, info, k, idx, ByteOf(|ks|))
    ensures Rounds(s, info, ks + [k], idx0, cur', if idx >= 0 then Next16(idx) else idx)
  {
    FoundMore(s, info, ks, idx0, k);
  }

  method FindRound(list0: ListHead, idx: int, data16: bv16, ghost s: seq<ListHead>, ghost info: map<ListHead, Data>,
                   ghost cur0: seq<ListHead>)
    returns (list: ListHead, ghost cur: seq<ListHead>, ghost k: nat)
    requires IsList(list0, cur0) && multiset(cur0) == multiset(s) && Distinct(cur0) && cur0 != []
    requires forall n :: n in s ==> DataOf(info, n) == n.info.Get()
    modifies Nodes(s)`next
    ensures IsList(list, cur) && multiset(cur) == multiset(s) && Distinct(cur) && cur != []
    ensures cur == RoundOf(cur0, k) && FirstMatch(cur0, info, k, idx, data16)
  {
    SameNodes(s, cur0);
    var this_find;
    this_find, k := FindFirst(list0, idx, data16, cur0, info);
    ReversedStill(s, cur0);
    FoundInReverse(cur0, k);
    list := Reverse(list0, cur0);
    MoveFound(list, this_find, Reversed(cur0), k);
    cur := RoundOf(cur0, k);
    RoundDone(s, cur0, k, cur);
  }

  method FindFirst(list: ListHead, idx: int, data16: bv16, ghost s: seq<ListHead>, ghost info: map<ListHead, Data>)
    returns (r: ListHead?, ghost k: nat)
    requires IsList(list, s) && forall n :: n in s ==> DataOf(info, n) == n.info.Get()
    ensures FirstMatch(s, info, k, idx, data16) && r == (if k < |s| then s[k] else null)
  {
    r, k := Find(list, idx, data16, s);
    assert forall j :: 0 <= j < |s| ==> DataOf(info, s[j]) == s[j].info.Get();
  }

  /** Moves the node behind the found one, if there is one. */
  method MoveFound(list: ListHead, this_find: ListHead?, ghost r: seq<ListHead>, ghost k: nat)
    requires IsList(list, r) && Distinct(r) && this_find == if k < |r| then r[|r| - 1 - k] else null
    modifies Nodes(r)`next
    ensures IsList(list, Moved(r, k))
  {
    if this_find != null {
      CacheNext(list, this_find, r, |r| - 1 - k);
    }
  }

  lemma RoundDone(s: seq<ListHead>, cur0: seq<ListHead>, k: nat, cur: seq<ListHead>)
    requires multiset(cur0) == multiset(s) && Distinct(cur0) && cur0 != [] && cur == RoundOf(cur0, k)
    ensures multiset(cur) == multiset(s) && Distinct(cur) && cur != []
  {
    StillDistinct(s, cur0, cur);
  }

  lemma FoundInReverse(s: seq<ListHead>, k: nat)
    ensures |Reversed(s)| == |s| && (k < |s| ==> Reversed(s)[|s| - 1 - k] == s[k])
  {
  }

  lemma ReversedStill(s: seq<ListHead>, cur: seq<ListHead>)
    requires Distinct(cur) && multiset(cur) == multiset(s)
    ensures Distinct(Reversed(cur)) && Nodes(Reversed(cur)) == Nodes(s)
  {
    SameNodes(s, Reversed(cur));
    StillDistinct(s, cur, Reversed(cur));
  }

  lemma SameNodes(s: seq<ListHead>, t: seq<ListHead>)
    requires multiset(s) == multiset(t)
    ensures Nodes(s) == Nodes(t) && |s| == |t|
    ensures forall n :: n in s <==> n in t
  {
    assert forall n :: n in s <==> n in multiset(s);
    assert forall n :: n in t <==> n in multiset(t);
    assert |s| == |multiset(s)| == |t|;
  }

  lemma StillDistinct(s: seq<ListHead>, a: seq<ListHead>, b: seq<ListHead>)
    requires Distinct(a) && multiset(a) == multiset(s) == multiset(b)
    ensures Distinct(b) && |b| == |a|
  {
    SameNodes(a, b);
    MultisetOfDistinct(a, Nodes(a));
    OnceDistinct(Nodes(a), b);
  }

  /** Every item's low byte still is the copy in its high byte, and the nodes are in the order of their
      indices. */
  ghost predicate Pristine(s: seq<ListHead>)
    reads s, Infos(s)
  {
    && (forall i, j :: 0 <= i < j < |s| ==> s[i].info.idx < s[j].info.idx)
    && (forall n :: n in s ==> Fresh(n.info.Get()))
  }

  lemma PermutedOwn(s: seq<ListHead>, cur: seq<ListHead>)
    requires OwnItems(s) && multiset(s) == multiset(cur)
    ensures OwnItems(cur) && Distinct(cur) && Nodes(cur) == Nodes(s) && |cur| == |s|
    ensures forall n :: n in s <==> n in cur
    ensures Infos(cur) == Infos(s)
  {
    SameNodes(s, cur);
    StillDistinct(s, s, cur);
    forall i, j | 0 <= i < j < |cur|
      ensures cur[i].info != cur[j].info
    {
      assert cur[i] in s && cur[j] in s && cur[i] != cur[j];
    }
  }

  /** Every item has its value, and the values ascend. */
  ghost predicate SortedByValue(s: seq<ListHead>)
    reads s, Infos(s)
  {
    && (forall n {:trigger Cached(n.info.Get())} :: n in s ==> Cached(n.info.Get()))
    && (forall i, j {:trigger CachedValue(s[i].info.Get()), CachedValue(s[j].info.Get())} ::
          0 <= i < j < |s| ==> CachedValue(s[i].info.Get()) <= CachedValue(s[j].info.Get()))
  }

  method SortByValue(list0: ListHead, env: Env, res: Results, ghost cur: seq<ListHead>)
    returns (list: ListHead, ghost last: seq<ListHead>)
    requires IsList(list0, cur) && OwnItems(cur) && 0 < |cur| < 0x8000_0000
    modifies Nodes(cur)`next, Infos(cur)`data16
    ensures IsList(list, last) && multiset(last) == multiset(cur)
    ensures |cur| > 1 ==> SortedByValue(last)
    ensures forall n :: n in cur ==> HighByte(n.info.Get()) == old(HighByte(n.info.Get()))
  {
    ComplexKeeps(env);
    ComplexSettles(env);
    var w;
    list, w, last := MergeSort(list0, CmpComplex(env), res, cur, CachedValue, HighByte, Cached);
    SameNodes(cur, last);
    InOrderOfKey(cur, last, CachedValue);
  }

  /** The first part: rounds of finding, then a sort by computed values. */
  method Scramble(list0: ListHead, find_num: int, finder_idx: int, env: Env, res: Results, ghost s: seq<ListHead>)
    returns (list: ListHead, idx: int, data16: bv16, ghost cur: seq<ListHead>)
    requires IsList(list0, s) && OwnItems(s) && 0 < |s| < 0x8000_0000 && find_num < 0x8000
    modifies Nodes(s)`next, Infos(s)`data16
    ensures IsList(list, cur) && multiset(cur) == multiset(s)
    ensures finder_idx > 0 && |s| > 1 ==> SortedByValue(cur)
    ensures forall n :: n in s ==> HighByte(n.info.Get()) == old(HighByte(n.info.Get()))
  {
    list, idx, data16, cur := Shuffle(list0, find_num, finder_idx, s);
    if finder_idx > 0 {
      PermutedOwn(s, cur);
      assert Infos(s) == old(Infos(s));
      list, cur := SortByValue(list, env, res, cur);
    }
  }

  lemma Permuted(s: seq<ListHead>, cur: seq<ListHead>)
    requires OwnItems(s) && multiset(s) == multiset(cur)
    ensures Distinct(cur) && |cur| == |s|
    ensures |s| >= 3 ==> cur[1] in Nodes(s) && cur[2] in Nodes(s)
    ensures forall n :: n in s ==> n in cur
  {
    PermutedOwn(s, cur);
    assert |s| >= 3 ==> cur[1] in Nodes(cur) && cur[2] in Nodes(cur);
  }

  /** The first part together with the removal that is undone again. */
  method Disturb(list0: ListHead, find_num: int, finder_idx: int, env: Env, res: Results, ghost s: seq<ListHead>)
    returns (list: ListHead, ghost cur: seq<ListHead>)
    requires IsList(list0, s) && OwnItems(s) && 3 <= |s| < 0x8000_0000 && find_num < 0x8000
    modifies Nodes(s), Infos(s)`data16
    ensures IsList(list, cur) && multiset(cur) == multiset(s)
    ensures forall n :: n in s ==> n.info == old(n.info)
    ensures forall n :: n in s ==> HighByte(n.info.Get()) == old(HighByte(n.info.Get()))
  {
    var idx, data16;
    list, idx, data16, cur := Scramble(list0, find_num, finder_idx, env, res, s);
    Permuted(s, cur);
    RemoveAndUndo(list, idx, data16, cur);
  }

  method SortByIdx(list0: ListHead, ghost cur: seq<ListHead>) returns (list: ListHead, ghost last: seq<ListHead>)
    requires IsList(list0, cur) && OwnItems(cur) && 2 <= |cur| < 0x8000_0000
    modifies Nodes(cur)`next, Infos(cur)`data16
    ensures IsList(list, last) && multiset(last) == multiset(cur)
    ensures forall i, j :: 0 <= i < j < |last| ==> last[i].info.idx <= last[j].info.idx
    ensures forall n :: n in cur ==> Fresh(n.info.Get()) && HighByte(n.info.Get()) == old(HighByte(n.info.Get()))
  {
    IdxKeeps();
    KeptKeySettles(CmpIdx, Idx, Fresh);
    var u;
    list, u, last := MergeSort(list0, CmpIdx, (), cur, Idx, HighByte, Fresh);
    SameNodes(cur, last);
    InOrderOfKey(cur, last, Idx);
  }

  lemma InOrderOfKey(cur: seq<ListHead>, last: seq<ListHead>, key: Data -> int)
    requires Sorted(StableOrder(cur, Snapshot(cur, key)), last) && Nodes(last) == Nodes(cur)
    ensures forall i, j :: 0 <= i < j < |last| ==> key(last[i].info.Get()) <= key(last[j].info.Get())
  {
    forall i, j | 0 <= i < j < |last|
      ensures key(last[i].info.Get()) <= key(last[j].info.Get())
    {
      assert last[i] in Nodes(cur) && last[j] in Nodes(cur);
      assert Less(StableOrder(cur, Snapshot(cur, key)), last[i], last[j]);
    }
  }

  /** The last part: the sort by index puts the nodes back in order and regenerates their data. */
  method Restore(list0: ListHead, ghost s: seq<ListHead>, ghost cur: seq<ListHead>) returns (list: ListHead)
    requires OwnItems(s) && multiset(cur) == multiset(s) && IsList(list0, cur) && 3 <= |s| < 0x8000_0000
    requires forall i, j :: 0 <= i < j < |s| ==> s[i].info.idx < s[j].info.idx
    modifies Nodes(s)`next, Infos(s)`data16
    ensures IsList(list, s)
    ensures forall n :: n in s ==> Fresh(n.info.Get()) && HighByte(n.info.Get()) == old(HighByte(n.info.Get()))
  {
    PermutedOwn(s, cur);
    ghost var last;
    list, last := SortByIdx(list0, cur);
    BackInOrder(s, last);
  }

  ghost predicate Ascending(s: seq<ListHead>)
    reads s, Infos(s)
  {
    forall i, j :: 0 <= i < j < |s| ==> s[i].info.idx < s[j].info.idx
  }

  twostate lemma StillOrdered(s: seq<ListHead>)
    requires old(OwnItems(s)) && old(Ascending(s))
    requires forall n :: n in s ==> n.info == old(n.info) && n.info.idx == old(n.info.idx)
    ensures OwnItems(s) && Ascending(s) && Infos(s) == old(Infos(s))
  {
  }

  /** The whole benchmark. */
  method BenchParts(list0: ListHead, find_num: int, finder_idx: int, env: Env, res: Results, ghost s: seq<ListHead>)
    returns (list: ListHead)
    requires IsList(list0, s) && OwnItems(s) && 3 <= |s| < 0x8000_0000 && find_num < 0x8000
    requires Ascending(s)
    modifies Nodes(s), Infos(s)`data16
    ensures IsList(list, s)
    ensures forall n :: n in s ==> n.info == old(n.info) && Fresh(n.info.Get())
    ensures forall n :: n in s ==> HighByte(n.info.Get()) == old(HighByte(n.info.Get()))
  {
    ghost var cur;
    list, cur := Disturb(list0, find_num, finder_idx, env, res, s);
    StillOrdered(s);
    list := Restore(list, s, cur);
  }

  /** At the end of the benchmark the list consists of the same nodes in the same order, with the same
      items and the same data, whatever the values computed on the way. */
  method BenchList(list0: ListHead, find_num: int, finder_idx: int, env: Env, res: Results, ghost s: seq<ListHead>)
    returns (list: ListHead)
    requires IsList(list0, s) && OwnItems(s) && Pristine(s) && 3 <= |s| < 0x8000_0000 && find_num < 0x8000
    modifies Nodes(s), Infos(s)`data16
    ensures list == list0 && IsList(list, s)
    ensures forall n :: n in s ==> n.info == old(n.info)
    ensures forall n :: n in s ==> n.info.idx == old(n.info.idx) && n.info.data16 == old(n.info.data16)
  {
    list := BenchParts(list0, find_num, finder_idx, env, res, s);
    forall n | n in s
      ensures n.info.idx == old(n.info.idx) && n.info.data16 == old(n.info.data16)
    {
      var d := n.info;
      assert d == old(n.info) && d.idx == old(d.idx);
      ItemBack(d.Get(), old(d.Get()));
    }
  }

  lemma ItemBack(a: Data, b: Data)
    requires Fresh(a) && Fresh(b) && HighByte(a) == HighByte(b)
    ensures a.data16 == b.data16
  {
    FreshSame(a.data16, b.data16);
  }

  lemma FreshSame(d: bv16, e: bv16)
    requires d & 0xff00 == e & 0xff00 && d == Regenerate(d) && e == Regenerate(e)
    ensures d == e
  {
    SameData(d, e);
  }

  /** Sorted by index there is only one order. */
  lemma BackInOrder(s: seq<ListHead>, last: seq<ListHead>)
    requires multiset(s) == multiset(last)
    requires forall i, j :: 0 <= i < j < |s| ==> s[i].info.idx < s[j].info.idx
    requires forall i, j :: 0 <= i < j < |last| ==> last[i].info.idx <= last[j].info.idx
    ensures last == s
  {
    var keys := Snapshot(s, Idx);
    SameNodes(s, last);
    var g := StableOrder(last, keys);
    OnceAt(s);
    StillDistinct(s, s, last);
    assert Sorted(g, s);
    forall i, j | 0 <= i < j < |last|
      ensures Less(g, last[i], last[j])
    {
      PlaceIs(last, i);
      PlaceIs(last, j);
    }
    SortedUnique(g, s, last);
  }

  lemma OnceAt(s: seq<ListHead>)
    requires forall i, j :: 0 <= i < j < |s| ==> s[i].info.idx < s[j].info.idx
    ensures Distinct(s)
  {
  }

  lemma PlaceIs(s: seq<ListHead>, i: nat)
    requires Distinct(s) && i < |s|
    ensures Place(s, s[i]) == i
  {
  }
}
