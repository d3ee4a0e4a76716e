/**
 * The leaf a key leads to: rewriting it in place, what the cache says about it,
 * and the chain of leaves from it to the end of the tree.
 */
module BTreeLeaves {
  import opened Common
  import opened Pages
  import opened BTreeModel
  import opened BTreeSearch
  import opened BTreeStore
  import opened BTreeInsert
  import opened BTreeDelete
  import opened BTreeSteps
  import opened BTreePages
  import opened BTreeMoves
  import opened TreeOperations

  /** The leaf binary search ends at. */
  ghost function LeafOf(t: Tree, k: int): Tree
    decreases t
  {
    if t.Leaf? || Rank(t.keys, k) >= |t.kids| then t else LeafOf(t.kids[Rank(t.keys, k)], k)
  }

  /** t with other pairs in the leaf that k leads to. */
  ghost function SetKV(t: Tree, k: int, kv: KV): Tree
    decreases t
  {
    match t
    case Leaf(id, _, next) => Leaf(id, kv, next)
    case Node(id, keys, kids) =>
      if Rank(keys, k) >= |kids| then t
      else Node(id, keys, kids[Rank(keys, k) := SetKV(kids[Rank(keys, k)], k, kv)])
  }

  lemma LeafOfLeaf(t: Tree, k: int, kv: KV)
    requires t.Leaf?
    ensures LeafOf(t, k) == t && SetKV(t, k, kv) == Leaf(t.id, kv, t.next) && Flat(t) == t.kv
  {
  }

  lemma LeafOfNode(t: Tree, k: int, kv: KV, lo: int, hi: int, h: nat, c: Cfg)
    requires t.Node? && OK(t, lo, hi, h, c) && lo < k <= hi
    ensures h > 0 && |t.kids| == |t.keys| + 1
    ensures
      var i := Rank(t.keys, k);
      && Routed(t, i, k, lo, hi) && i < |t.kids| && LeafOf(t, k) == LeafOf(t.kids[i], k) && Lo(t.keys, i, lo) < k <= Hi(t.keys, i, hi)
      && OK(t.kids[i], Lo(t.keys, i, lo), Hi(t.keys, i, hi), h - 1, c) && MinFill(t.kids[i], c.n)
      && SetKV(t, k, kv) == Node(t.id, t.keys, t.kids[i := SetKV(t.kids[i], k, kv)])
  {
    RouteRank(t, k, lo, hi, h, c);
    RoutedFacts(t, Rank(t.keys, k), k, lo, hi);
    KidAt(t, Rank(t.keys, k), lo, hi, h, c);
  }

  lemma {:induction false} LeafOfIs(t: Tree, k: int, lo: int, hi: int, h: nat, c: Cfg)
    requires OK(t, lo, hi, h, c) && lo < k <= hi
    ensures LeafOf(t, k).Leaf? && KVOk(LeafOf(t, k).kv) && LeafOf(t, k).id in Ids(t)
    ensures IsSorted(LeafOf(t, k).kv) && (MinFill(t, c.n) || t.Node? ==> MinFill(LeafOf(t, k), c.n))
    decreases h
  {
    hide *;
    if t.Leaf? {
      LeafOfLeaf(t, k, EMPTY);
      LeafKV(t, lo, hi, h, c);
      OwnPage(t);
      SortedIs(t.kv);
    } else {
      LeafOfNode(t, k, EMPTY, lo, hi, h, c);
      var i := Rank(t.keys, k);
      LeafOfIs(t.kids[i], k, Lo(t.keys, i, lo), Hi(t.keys, i, hi), h - 1, c);
      SubIds(t, i);
    }
  }

  ghost predicate IsSorted(kv: KV) {
    |kv.keys| == |kv.vals| && Sorted(kv.keys)
  }

  lemma SortedIs(kv: KV)
    ensures KVOk(kv) <==> IsSorted(kv)
    ensures KVOk(kv) ==> |kv.keys| == |kv.vals| && Sorted(kv.keys)
  {
  }

  lemma SubIds(t: Tree, i: nat)
    requires t.Node? && i < |t.kids|
    ensures Ids(t.kids[i]) <= Ids(t)
  {
    IdsIn(t.kids, i);
  }

  /** The pairs at the leaf answer for the whole tree. */
  lemma {:induction false} LeafSearch(t: Tree, k: int, lo: int, hi: int, h: nat, c: Cfg)
    requires OK(t, lo, hi, h, c) && c.n >= 4 && lo < k <= hi
    ensures LeafOf(t, k).Leaf? && KVOk(LeafOf(t, k).kv) && KVOk(Flat(t))
    ensures OuterGet(Flat(t), k) == OuterGet(LeafOf(t, k).kv, k)
    ensures Contains(Flat(t).keys, k) <==> Contains(LeafOf(t, k).kv.keys, k)
    decreases h
  {
    hide *;
    LeafOfIs(t, k, lo, hi, h, c);
    FlatOK(t, lo, hi, h, c);
    if t.Leaf? {
      LeafOfLeaf(t, k, EMPTY);
    } else {
      LeafOfNode(t, k, EMPTY, lo, hi, h, c);
      var i := Rank(t.keys, k);
      LeafSearch(t.kids[i], k, Lo(t.keys, i, lo), Hi(t.keys, i, hi), h - 1, c);
      RouteParts(t, i, k, lo, hi, h, c);
      GetMid(FlatSeg(t.kids[..i]), Flat(t.kids[i]), FlatSeg(t.kids[i + 1..]), k);
    }
  }

  // ----- Rewriting a leaf -----

  /** kv' may replace kv in a leaf without touching the nodes above. */
  ghost predicate Swaps(kv: KV, kv': KV, c: Cfg) {
    && KVOk(kv') && |kv'.keys| <= |kv.keys| && (forall i :: 0 <= i < |kv'.keys| ==> kv'.keys[i] in kv.keys)
    && (|kv'.keys| == |kv.keys| || |kv'.keys| >= c.n / 2) && (c.exact ==> kv'.keys == kv.keys)
  }

  /** t' has the same outer links, root page and fill as t. */
  ghost predicate SameShell(t: Tree, t': Tree, c: Cfg) {
    && t'.id == t.id && t'.Leaf? == t.Leaf? && FirstLeaf(t') == FirstLeaf(t) && LastNext(t') == LastNext(t)
    && (MinFill(t, c.n) ==> MinFill(t', c.n)) && (c.exact ==> MaxKey(t') == MaxKey(t))
  }

  lemma ShellFacts(t: Tree, t': Tree, c: Cfg)
    requires SameShell(t, t', c)
    ensures t'.id == t.id && t'.Leaf? == t.Leaf? && FirstLeaf(t') == FirstLeaf(t) && LastNext(t') == LastNext(t)
    ensures (MinFill(t, c.n) ==> MinFill(t', c.n)) && (c.exact ==> MaxKey(t') == MaxKey(t))
  {
  }

  lemma SetLeafOK(t: Tree, kv: KV, lo: int, hi: int, h: nat, c: Cfg)
    requires t.Leaf? && OK(t, lo, hi, h, c) && Swaps(t.kv, kv, c)
    ensures OK(Leaf(t.id, kv, t.next), lo, hi, h, c) && SameShell(t, Leaf(t.id, kv, t.next), c)
  {
    forall i | 0 <= i < |kv.keys| ensures lo < kv.keys[i] <= hi {
      var j :| 0 <= j < |t.kv.keys| && t.kv.keys[j] == kv.keys[i];
    }
  }

  lemma KidShell(t: Tree, i: nat, kid: Tree, c: Cfg)
    requires t.Node? && i < |t.kids| && SameShell(t.kids[i], kid, c)
    ensures SameShell(t, Node(t.id, t.keys, t.kids[i := kid]), c)
  {
  }

  lemma {:induction false} SetOK(t: Tree, k: int, kv: KV, lo: int, hi: int, h: nat, c: Cfg)
    requires OK(t, lo, hi, h, c) && lo < k <= hi && LeafOf(t, k).Leaf? && Swaps(LeafOf(t, k).kv, kv, c)
    ensures OK(SetKV(t, k, kv), lo, hi, h, c) && SameShell(t, SetKV(t, k, kv), c)
    decreases h
  {
    hide *;
    if t.Leaf? {
      LeafOfLeaf(t, k, kv);
      SetLeafOK(t, kv, lo, hi, h, c);
    } else {
      LeafOfNode(t, k, kv, lo, hi, h, c);
      var i := Rank(t.keys, k);
      var kid := SetKV(t.kids[i], k, kv);
      SetOK(t.kids[i], k, kv, Lo(t.keys, i, lo), Hi(t.keys, i, hi), h - 1, c);
      ShellFacts(t.kids[i], kid, c);
      InnerSeg(t, lo, hi, h, c);
      Replace(t.keys, t.kids, i, kid, lo, hi, h - 1, c);
      NodeOK(t.id, t.keys, t.kids[i := kid], lo, hi, h, c);
      KidShell(t, i, kid, c);
    }
  }

  lemma {:induction false} SetUpdate(t: Tree, k: int, x: Value, lo: int, hi: int, h: nat, c: Cfg)
    requires OK(t, lo, hi, h, c) && c.n >= 4 && lo < k <= hi && LeafOf(t, k).Leaf? && KVOk(LeafOf(t, k).kv)
    ensures KVOk(Flat(t)) && Flat(SetKV(t, k, OuterUpdate(LeafOf(t, k).kv, k, x))) == OuterUpdate(Flat(t), k, x)
    decreases h
  {
    hide *;
    FlatOK(t, lo, hi, h, c);
    SortedIs(LeafOf(t, k).kv);
    SortedIs(Flat(t));
    var kv := OuterUpdate(LeafOf(t, k).kv, k, x);
    if t.Leaf? {
      LeafOfLeaf(t, k, kv);
      LeafOfLeaf(Leaf(t.id, kv, t.next), k, kv);
    } else {
      LeafOfNode(t, k, kv, lo, hi, h, c);
      var i := Rank(t.keys, k);
      SetUpdate(t.kids[i], k, x, Lo(t.keys, i, lo), Hi(t.keys, i, hi), h - 1, c);
      SortedIs(Flat(t.kids[i]));
      RouteParts(t, i, k, lo, hi, h, c);
      UpdateMid(FlatSeg(t.kids[..i]), Flat(t.kids[i]), FlatSeg(t.kids[i + 1..]), k, x);
      FlatReplace(t, t.keys, i, SetKV(t.kids[i], k, kv));
    }
  }

  lemma {:induction false} SetDelete(t: Tree, k: int, lo: int, hi: int, h: nat, c: Cfg)
    requires OK(t, lo, hi, h, c) && c.n >= 4 && lo < k <= hi && LeafOf(t, k).Leaf? && KVOk(LeafOf(t, k).kv)
    ensures KVOk(Flat(t)) && Flat(SetKV(t, k, OuterDelete(LeafOf(t, k).kv, k))) == OuterDelete(Flat(t), k)
    decreases h
  {
    hide *;
    FlatOK(t, lo, hi, h, c);
    SortedIs(LeafOf(t, k).kv);
    SortedIs(Flat(t));
    var kv := OuterDelete(LeafOf(t, k).kv, k);
    if t.Leaf? {
      LeafOfLeaf(t, k, kv);
      LeafOfLeaf(Leaf(t.id, kv, t.next), k, kv);
    } else {
      LeafOfNode(t, k, kv, lo, hi, h, c);
      var i := Rank(t.keys, k);
      SetDelete(t.kids[i], k, Lo(t.keys, i, lo), Hi(t.keys, i, hi), h - 1, c);
      SortedIs(Flat(t.kids[i]));
      RouteParts(t, i, k, lo, hi, h, c);
      DeleteMid(FlatSeg(t.kids[..i]), Flat(t.kids[i]), FlatSeg(t.kids[i + 1..]), k);
      FlatReplace(t, t.keys, i, SetKV(t.kids[i], k, kv));
    }
  }

  lemma UpdateSwaps(kv: KV, k: int, x: Value, c: Cfg)
    requires KVOk(kv)
    ensures |kv.keys| == |kv.vals| && Swaps(kv, OuterUpdate(kv, k, x), c)
  {
    UpdateKeys(kv, k, x);
  }

  lemma DeleteSwaps(kv: KV, k: int, c: Cfg)
    requires KVOk(kv) && !c.exact && |kv.keys| > c.n / 2
    ensures |kv.keys| == |kv.vals| && Swaps(kv, OuterDelete(kv, k), c)
  {
    DeleteKeys(kv, k);
  }

  /** The cache keeps or drops its entries, and k may now point to page id. */
  ghost predicate Cached(v: View, v': View, k: int, id: nat) {
    forall x :: x in v' ==> (x == k && v'[x].pageId == id) || (x in v && v'[x].pageId == v[x].pageId)
  }

  lemma CachedPut(v: View, v': View, k: int, e: Entry)
    requires Becomes(v', v[k := e])
    ensures Cached(v, v', k, e.pageId)
  {
  }

  lemma CachedLess(v: View, v': View, k: int, id: nat)
    requires forall x :: x in v' ==> x in v && v'[x] == v[x]
    ensures Cached(v, v', k, id)
  {
  }

  lemma SetLeafTurn(m: Store, v: View, v': View, used: set<nat>, t: Tree, k: int, kv: KV, lo: int, hi: int)
    requires t.Leaf? && Rep(m, t) && Coh(v, t) && (forall i :: 0 <= i < |kv.keys| ==> kv.keys[i] in t.kv.keys)
    requires lo < k <= hi && Cached(v, v', k, t.id)
    ensures Turn(m, v, m[t.id := Outer(kv, t.next)], v', used, t, Leaf(t.id, kv, t.next), lo, hi)
  {
    var t' := Leaf(t.id, kv, t.next);
    forall i | 0 <= i < |kv.keys| && kv.keys[i] in v' ensures v'[kv.keys[i]].pageId == t.id {
      var j :| 0 <= j < |t.kv.keys| && t.kv.keys[j] == kv.keys[i];
    }
  }

  /** Rewriting the leaf page of k turns t into SetKV. */
  lemma {:induction false} SetTurn(m: Store, v: View, v': View, used: set<nat>, t: Tree, k: int, kv: KV, lo: int, hi: int, h: nat, c: Cfg)
    requires OK(t, lo, hi, h, c) && c.n >= 4 && lo < k <= hi && Rep(m, t) && Disj(t) && Coh(v, t) && m.Keys <= used
    requires LeafOf(t, k).Leaf? && (forall i :: 0 <= i < |kv.keys| ==> kv.keys[i] in LeafOf(t, k).kv.keys)
    requires Cached(v, v', k, LeafOf(t, k).id)
    ensures Turn(m, v, m[LeafOf(t, k).id := Outer(kv, LeafOf(t, k).next)], v', used, t, SetKV(t, k, kv), lo, hi)
    ensures SetKV(t, k, kv).id == t.id
    decreases h
  {
    hide *;
    if t.Leaf? {
      LeafOfLeaf(t, k, kv);
      SetLeafTurn(m, v, v', used, t, k, kv, lo, hi);
    } else {
      LeafOfNode(t, k, kv, lo, hi, h, c);
      var i := Rank(t.keys, k);
      var leaf := LeafOf(t, k);
      var m' := m[leaf.id := Outer(kv, leaf.next)];
      KidCoh(m, v, t, i);
      KidIdsIn(m, t, i);
      SetTurn(m, v, v', used, t.kids[i], k, kv, Lo(t.keys, i, lo), Hi(t.keys, i, hi), h - 1, c);
      var kid := SetKV(t.kids[i], k, kv);
      TurnKid(m, v, m', v', used, t, i, kid, t.keys, lo, hi, h, c);
      SameParent(m', t, i, kid);
    }
  }

  lemma {:induction false} SetSame(t: Tree, k: int, lo: int, hi: int, h: nat, c: Cfg)
    requires OK(t, lo, hi, h, c) && lo < k <= hi && LeafOf(t, k).Leaf?
    ensures SetKV(t, k, LeafOf(t, k).kv) == t
    decreases h
  {
    hide *;
    var kv := LeafOf(t, k).kv;
    if t.Leaf? {
      LeafOfLeaf(t, k, kv);
    } else {
      LeafOfNode(t, k, kv, lo, hi, h, c);
      var i := Rank(t.keys, k);
      SetSame(t.kids[i], k, Lo(t.keys, i, lo), Hi(t.keys, i, hi), h - 1, c);
      assert t.kids[i := t.kids[i]] == t.kids;
    }
  }

  /** A cache that gained at most k with its leaf still agrees with the tree. */
  lemma SameLeaf(m: Store, v: View, v': View, t: Tree, k: int, lo: int, hi: int, h: nat, c: Cfg)
    requires OK(t, lo, hi, h, c) && c.n >= 4 && lo < k <= hi && Rep(m, t) && Disj(t) && Coh(v, t)
    requires LeafOf(t, k).Leaf? && Cached(v, v', k, LeafOf(t, k).id)
    ensures Coh(v', t)
  {
    hide *;
    var leaf := LeafOf(t, k);
    SetTurn(m, v, v', m.Keys, t, k, leaf.kv, lo, hi, h, c);
    SetSame(t, k, lo, hi, h, c);
    TurnFacts(m, v, m[leaf.id := Outer(leaf.kv, leaf.next)], v', m.Keys, t, t, lo, hi);
  }

  lemma SwapFacts(kv: KV, kv': KV, c: Cfg)
    requires Swaps(kv, kv', c)
    ensures forall i :: 0 <= i < |kv'.keys| ==> kv'.keys[i] in kv.keys
  {
  }

  // ----- Any leaf page -----

  /** A leaf page of the tree that holds k is the one k leads to. */
  lemma {:induction false} HolderIs(m: Store, t: Tree, id: nat, k: int, lo: int, hi: int, h: nat, c: Cfg)
    requires OK(t, lo, hi, h, c) && Rep(m, t) && id in Ids(t) && id in m && m[id].Outer? && k in m[id].kv.keys
    ensures lo < k <= hi && LeafOf(t, k).Leaf? && LeafOf(t, k).id == id && m[id] == Outer(LeafOf(t, k).kv, LeafOf(t, k).next)
    decreases h
  {
    hide *;
    RepPage(m, t);
    if t.Leaf? {
      LeafOfLeaf(t, k, EMPTY);
      LeafIdIs(t);
      LeafPageOf(t);
      LeafKV(t, lo, hi, h, c);
      RangeHas(t.kv.keys, lo, hi, k);
    } else {
      NodePageOf(t);
      var i := IdsAt(t, id);
      KidAt(t, i, lo, hi, h, c);
      KidCoh(m, map[], t, i) by {
        CohNone(t);
      }
      HolderIs(m, t.kids[i], id, k, Lo(t.keys, i, lo), Hi(t.keys, i, hi), h - 1, c);
      RangeOf(t, i, i, lo, hi, h, c);
      RoutedRange(t, i, k, lo, hi);
      SortedKeys(t, lo, hi, h, c);
      SegKeysSorted(t.keys, lo, hi);
      RankRoute(t, i, k, lo, hi);
      LeafOfNode(t, k, EMPTY, lo, hi, h, c);
    }
  }

  lemma RoutedRange(t: Tree, i: nat, k: int, lo: int, hi: int)
    requires t.Node? && |t.kids| == |t.keys| + 1 && i < |t.kids| && Lo(t.keys, i, lo) < k <= Hi(t.keys, i, hi)
    ensures Routed(t, i, k, lo, hi)
  {
  }

  lemma LeafIdIs(t: Tree)
    requires t.Leaf?
    ensures Ids(t) == {t.id}
  {
  }

  lemma RangeHas(keys: seq<int>, lo: int, hi: int, k: int)
    requires InRange(keys, lo, hi) && k in keys
    ensures lo < k <= hi
  {
  }

  /** A page below t, other than its own, belongs to one of its kids. */
  lemma IdsAt(t: Tree, id: nat) returns (i: nat)
    requires t.Node? && id in Ids(t) && id != t.id
    ensures i < |t.kids| && id in Ids(t.kids[i])
  {
    i := IdsSegAt(t.kids, id);
  }

  lemma {:induction false} IdsSegAt(kids: seq<Tree>, id: nat) returns (i: nat)
    requires id in IdsSeg(kids)
    ensures i < |kids| && id in Ids(kids[i])
  {
    if id in Ids(kids[0]) {
      i := 0;
    } else {
      i := IdsSegAt(kids[1..], id);
      i := i + 1;
    }
  }

  /** A cached key that is stored names the leaf that holds it. */
  lemma {:induction false} CohAt(m: Store, v: View, t: Tree, k: int, lo: int, hi: int, h: nat, c: Cfg)
    requires OK(t, lo, hi, h, c) && lo < k <= hi && Rep(m, t) && Coh(v, t) && k in v
    requires LeafOf(t, k).Leaf? && k in LeafOf(t, k).kv.keys
    ensures v[k].pageId == LeafOf(t, k).id
    decreases h
  {
    hide *;
    if t.Leaf? {
      LeafOfLeaf(t, k, EMPTY);
      CohLeafIs(v, t);
      CohLeafAt(v, t.kv.keys, t.id, k);
    } else {
      LeafOfNode(t, k, EMPTY, lo, hi, h, c);
      var i := Rank(t.keys, k);
      KidCoh(m, v, t, i);
      CohAt(m, v, t.kids[i], k, Lo(t.keys, i, lo), Hi(t.keys, i, hi), h - 1, c);
    }
  }

  lemma CohLeafAt(v: View, keys: seq<int>, id: nat, k: int)
    requires CohLeaf(v, keys, id) && k in keys && k in v
    ensures v[k].pageId == id
  {
  }

  lemma {:induction false} LeafInRange(t: Tree, k: int, lo: int, hi: int, h: nat, c: Cfg)
    requires OK(t, lo, hi, h, c) && lo < k <= hi
    ensures LeafOf(t, k).Leaf? && forall x :: x in LeafOf(t, k).kv.keys ==> lo < x <= hi
    decreases h
  {
    hide *;
    if t.Leaf? {
      LeafOfLeaf(t, k, EMPTY);
      LeafKV(t, lo, hi, h, c);
      forall x | x in t.kv.keys ensures lo < x <= hi {
        RangeHas(t.kv.keys, lo, hi, x);
      }
    } else {
      LeafOfNode(t, k, EMPTY, lo, hi, h, c);
      var i := Rank(t.keys, k);
      RangeOf(t, i, i, lo, hi, h, c);
      LeafInRange(t.kids[i], k, Lo(t.keys, i, lo), Hi(t.keys, i, hi), h - 1, c);
    }
  }

  /** A leaf that holds the smallest and the largest key of a tree holds all of its pairs. */
  lemma {:induction false} EndsTogether(t: Tree, a: int, b: int, lo: int, hi: int, h: nat, c: Cfg)
    requires OK(t, lo, hi, h, c) && c.n >= 4 && lo < b <= hi && (forall x :: x in Flat(t).keys ==> a <= x <= b)
    requires LeafOf(t, b).Leaf? && a in LeafOf(t, b).kv.keys
    ensures Flat(t) == LeafOf(t, b).kv && |Flat(t).keys| <= c.n
    decreases h
  {
    hide *;
    if t.Leaf? {
      LeafOfLeaf(t, b, EMPTY);
      LeafKV(t, lo, hi, h, c);
    } else {
      LeafOfNode(t, b, EMPTY, lo, hi, h, c);
      var i := Rank(t.keys, b);
      var l0, h0 := Lo(t.keys, i, lo), Hi(t.keys, i, hi);
      RangeOf(t, i, i, lo, hi, h, c);
      LeafInRange(t.kids[i], b, l0, h0, h - 1, c);
      RoutedRange(t, i, a, lo, hi);
      RouteParts(t, i, a, lo, hi, h, c);
      RouteParts(t, i, b, lo, hi, h, c);
      MiddleOnly(FlatSeg(t.kids[..i]), Flat(t.kids[i]), FlatSeg(t.kids[i + 1..]), a, b);
      EndsTogether(t.kids[i], a, b, l0, h0, h - 1, c);
    }
  }

  lemma MiddleOnly(x: KV, e: KV, y: KV, a: int, b: int)
    requires Parts(x, e, y, a) && Parts(x, e, y, b)
    requires forall k :: k in Cat(Cat(x, e), y).keys ==> a <= k <= b
    ensures Cat(Cat(x, e), y) == e
  {
    assert Cat(Cat(x, e), y).keys == (x.keys + e.keys) + y.keys;
    EndsIn(x.keys, e.keys, y.keys);
    NoneOutside(x.keys, a, b);
    NoneOutside(y.keys, a, b);
  }

  lemma EndsIn(x: seq<int>, e: seq<int>, y: seq<int>)
    ensures x != [] ==> x[0] in (x + e) + y
    ensures y != [] ==> y[0] in (x + e) + y
  {
    if x != [] {
      assert ((x + e) + y)[0] == x[0];
    }
    if y != [] {
      assert ((x + e) + y)[|x + e|] == y[0];
    }
  }

  lemma NoneOutside(keys: seq<int>, a: int, b: int)
    requires (Below(keys, a) || Above(keys, b)) && (keys != [] ==> a <= keys[0] <= b)
    ensures keys == []
  {
  }
}
