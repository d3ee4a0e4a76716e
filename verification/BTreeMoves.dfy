/**
 * One splitting, borrowing, merging or inserting step of the B+ tree, from the
 * pages the code writes and the cached keys it re-points to the step on trees.
 */
module BTreeMoves {
  import opened Common
  import opened Pages
  import opened BTreeModel
  import opened BTreeStore
  import opened BTreeDelete
  import opened BTreeInsert
  import opened BTreeSteps
  import opened BTreePages

  /** Every int64_t key lies above this bound. */
  const LOW: int := INT64_MIN - 1

  lemma BecomesIs(v: View, change: View)
    ensures Becomes(v, change) <==> v == change || v == map[]
  {
  }

  lemma RepointIs(v: View, from: int, to: int, e: Entry)
    ensures Repoint(v, from, to, e) == map k | k in v :: if from <= k <= to then e else v[k]
  {
  }

  lemma RepointNone(from: int, to: int, e: Entry)
    ensures Repoint(map[], from, to, e) == map[]
  {
  }

  lemma LeafPageOf(t: Tree)
    requires t.Leaf?
    ensures PageOf(t) == Outer(t.kv, t.next)
  {
  }

  lemma NodePageOf(t: Tree)
    requires t.Node?
    ensures PageOf(t).Inner? && PageOf(t).keys == t.keys && PageOf(t).children == KidIds(t.kids)
    ensures |t.kids| == |t.keys| + 1 ==> InnerOk(PageOf(t))
  {
  }

  lemma SplitViewLeaf(v: View, v': View, t: Tree, q: nat, e: Entry)
    requires t.Leaf? && 0 < q < |t.kv.keys| == |t.kv.vals|
    requires Becomes(v', Repoint(v, t.kv.keys[q], t.kv.keys[|t.kv.keys| - 1], e))
    ensures CutAt(t, q) && SplitView(v, v', t, q, e)
  {
  }

  lemma SplitViewNode(v: View, t: Tree, q: nat, e: Entry)
    requires t.Node? && CutAt(t, q)
    ensures SplitView(v, v, t, q, e)
  {
  }

  lemma HalvesOk(kv: KV, i: nat)
    requires KVOk(kv) && i <= |kv.keys|
    ensures KVOk(KV(kv.keys[..i], kv.vals[..i])) && KVOk(KV(kv.keys[i..], kv.vals[i..]))
    ensures |EMPTY.keys| == |EMPTY.vals| && Before(EMPTY.keys, kv.keys[i..])
    ensures KV(EMPTY.keys + kv.keys[i..], EMPTY.vals + kv.vals[i..]) == KV(kv.keys[i..], kv.vals[i..])
  {
  }

  lemma CutLeafPages(t: Tree, q: nat, rid: nat)
    requires t.Leaf? && CutAt(t, q)
    ensures q < |t.kv.keys| == |t.kv.vals|
    ensures
      var (l, s, r) := Cut(t, q, rid);
      && PageOf(l) == Outer(KV(t.kv.keys[..q], t.kv.vals[..q]), rid)
      && PageOf(r) == Outer(KV(t.kv.keys[q..], t.kv.vals[q..]), t.next)
  {
    CutPages(t, q, rid);
  }

  lemma NothingBefore(b: seq<int>, p: Page, q: Page)
    ensures Before([], b)
    ensures p.Inner? && p.keys == [] && |p.children| == 1 ==> InnerOk(p)
  {
  }

  lemma CutNodePages(t: Tree, index: nat, rid: nat)
    requires t.Node? && |t.kids| == |t.keys| + 1 && 0 < index <= |t.keys|
    ensures CutAt(t, index - 1) && |KidIds(t.kids)| == |t.kids|
    ensures
      var (l, s, r) := Cut(t, index - 1, rid);
      && PageOf(l) == Inner(t.keys[..index - 1], KidIds(t.kids)[..index])
      && PageOf(r) == Inner([] + t.keys[index..], [KidIds(t.kids)[index]] + KidIds(t.kids)[index + 1..])
  {
    CutPages(t, index - 1, rid);
    assert KidIds(t.kids)[index..] == [KidIds(t.kids)[index]] + KidIds(t.kids)[index + 1..];
    assert [] + t.keys[index..] == t.keys[index..];
  }

  lemma SplitSizes(t: Tree, lo: int, hi: int, h: nat, c: Cfg)
    requires OK(t, lo, hi, h, c) && LOW <= lo && hi <= INT64_MAX && Full(t, c.n) && c.n >= 4
    ensures PageOf(t).Inner? == t.Node? && (t.Leaf? ==> PageOf(t) == Outer(t.kv, t.next)) && (t.Node? ==> PageOf(t).keys == t.keys)
    ensures t.Leaf? ==> KVOk(t.kv) && KeepCount(t, c.n) == SplitIndex(c.n) && 0 < SplitIndex(c.n) < |t.kv.keys| == c.n
    ensures t.Leaf? ==> forall i :: 0 <= i < |t.kv.keys| ==> IsKey(t.kv.keys[i])
    ensures t.Node? ==> |t.kids| == |t.keys| + 1 && Sorted(t.keys) && 0 < SplitIndex(c.n - 1) <= |t.keys| == c.n - 1
    ensures t.Node? ==> KeepCount(t, c.n) == SplitIndex(c.n - 1) - 1
    ensures CutAt(t, KeepCount(t, c.n))
  {
    SizesOf(t, lo, hi, h, c);
    SplitFits(t, lo, hi, h, c);
    InnerSeg(t, lo, hi, h, c);
    if t.Leaf? {
      LeafKV(t, lo, hi, h, c);
    }
  }

  lemma InsertedLeaf(t: Tree, k: int, v: Value, n: nat)
    requires t.Leaf? && |t.kv.keys| == |t.kv.vals|
    ensures MinFill(t, n) ==> MinFill(Leaf(t.id, OuterInsert(t.kv, k, v), t.next), n)
    ensures KVOk(t.kv) && k !in t.kv.keys ==> KVOk(OuterInsert(t.kv, k, v))
    ensures Flat(t) == t.kv
  {
    if KVOk(t.kv) && k !in t.kv.keys {
      ToMapInsert(t.kv, k, v);
    }
  }

  lemma RootPage(id: nat, k: int, rid: nat)
    ensures InnerOk(Inner([], [id])) && InnerInsert(Inner([], [id]), k, rid) == Inner([k], [id, rid])
  {
    AppendInner(Inner([], [id]), k, rid);
  }

  lemma RootPages(t: Tree, rid: nat, id: nat, n: nat)
    requires n >= 4 && CutAt(t, KeepCount(t, n))
    ensures
      var (l, s, r) := Cut(t, KeepCount(t, n), rid);
      PageOf(SplitRoot(t, rid, id, n)) == Inner([s], [t.id, rid]) && PageOf(Node(id, [s], [l, r])) == Inner([s], [t.id, rid])
      && SplitRoot(t, rid, id, n).id == id
  {
    var (l, s, r) := Cut(t, KeepCount(t, n), rid);
    CutPages(t, KeepCount(t, n), rid);
    assert KidIds([l, r]) == [t.id, rid];
  }

  lemma GrownRoot(m: Store, v: View, m': Store, v': View, used: set<nat>, t: Tree, rid: nat, id: nat, e: Entry, lo: int, hi: int, h: nat, c: Cfg)
    requires OK(t, lo, hi, h, c) && c.n >= 4 && Rep(m, t) && Disj(t) && Coh(v, t) && t.id in m && Full(t, c.n)
    requires m.Keys <= used && rid !in used && id !in used + {rid} && e.pageId == rid
    requires CutAt(t, KeepCount(t, c.n)) && SplitView(v, v', t, KeepCount(t, c.n), e)
    requires var (l, s, r) := Cut(t, KeepCount(t, c.n), rid); m' == m[rid := PageOf(r)][t.id := PageOf(l)][id := Inner([s], [t.id, rid])]
    ensures
      var t' := SplitRoot(t, rid, id, c.n);
      && Turn(m, v, m', v', used, t, t', lo, hi) && OK(t', lo, hi, h + 1, c) && !Full(t', c.n) && t'.id == id
      && Flat(t') == Flat(t) && FirstLeaf(t') == FirstLeaf(t) && LastNext(t') == LastNext(t)
      && Rep(m', t') && Disj(t') && Coh(v', t')
  {
    hide *;
    var (l, s, r) := Cut(t, KeepCount(t, c.n), rid);
    SplitRootIs(t, rid, id, c.n);
    RootPages(t, rid, id, c.n);
    GrowPages(m, used, m', t.id, rid, id, PageOf(l), PageOf(r), Inner([s], [t.id, rid]));
    SplitRootTurn(m, v, m', v', used, t, rid, id, e, lo, hi, h, c);
    SplitRootOK(t, rid, id, lo, hi, h, c);
    TurnFacts(m, v, m', v', used, t, SplitRoot(t, rid, id, c.n), lo, hi);
  }

  lemma GrowPages(m: Store, used: set<nat>, m': Store, id: nat, rid: nat, root: nat, l: Page, r: Page, p: Page)
    requires id in m && m.Keys <= used && rid !in used && root !in used + {rid}
    requires m' == m[rid := r][id := l][root := p]
    ensures m'.Keys == m.Keys + {rid, root} && Agrees(m, m', m.Keys - {id})
    ensures id in m' && m'[id] == l && m'[rid] == r && m'[root] == p && rid != root
  {
  }

  lemma KeyBetween(key: int, lo: int, hi: int)
    requires LOW <= lo < key <= hi <= INT64_MAX
    ensures IsKey(key)
  {
  }

  lemma OwnPage(t: Tree)
    ensures t.id in Ids(t)
  {
  }

  lemma LeafOrNode(t: Tree)
    ensures PageOf(t).Outer? <==> t.Leaf?
  {
  }

  lemma FullIs(t: Tree, n: nat)
    ensures Full(t, n) == IsFull(PageOf(t), n)
  {
  }

  /** The page of kid i, as its parent names it. */
  lemma KidPage(m: Store, t: Tree, i: nat)
    requires t.Node? && i < |t.kids| && Rep(m, t)
    ensures |KidIds(t.kids)| == |t.kids| && KidIds(t.kids)[i] == t.kids[i].id && t.kids[i].id in m && m[t.kids[i].id] == PageOf(t.kids[i])
    ensures t.kids[i].id in Ids(t.kids[i])
  {
    KidCoh(m, map[], t, i) by {
      CohNone(t);
    }
  }

  lemma SplitSeparator(t: Tree, i: nat, rid: nat, lo: int, hi: int, h: nat, c: Cfg)
    requires t.Node? && OK(t, lo, hi, h, c) && |t.kids| == |t.keys| + 1 && i < |t.kids| && c.n >= 4
    requires Full(t.kids[i], c.n) && CutAt(t.kids[i], KeepCount(t.kids[i], c.n))
    ensures Lo(t.keys, i, lo) < Cut(t.kids[i], KeepCount(t.kids[i], c.n), rid).1 < Hi(t.keys, i, hi)
  {
    hide *;
    var kid, l0, h0 := t.kids[i], Lo(t.keys, i, lo), Hi(t.keys, i, hi);
    KidAt(t, i, lo, hi, h, c);
    SplitFits(kid, l0, h0, h - 1, c);
    OKBody(kid, l0, h0, h - 1, c);
    CutOK(kid, KeepCount(kid, c.n), rid, l0, h0, h - 1, c);
    var (l, s, r) := Cut(kid, KeepCount(kid, c.n), rid);
    SegFirst([s], [l, r], l0, h0, h - 1, c);
  }

  lemma SplitPages(m: Store, used: set<nat>, m': Store, id: nat, kid: nat, rid: nat, l: Page, r: Page, p: Page)
    requires id in m && kid in m && id != kid && m.Keys <= used && rid !in used
    requires m' == m[rid := r][kid := l][id := p]
    ensures m'.Keys == m.Keys + {rid} && Agrees(m, m', m.Keys - {id, kid})
    ensures id in m' && m'[id] == p && m'[rid] == r && kid in m' && m'[kid] == l
  {
  }

  /** t' is t with the full kid i split in two halves that have room. */
  ghost predicate SplitAt(t: Tree, t': Tree, i: nat, n: nat) {
    && t.Node? && |t.kids| == |t.keys| + 1 && i < |t.kids|
    && exists s, l, r :: t' == Node(t.id, InsertAt(t.keys, i, s), InsertAt(t.kids[i := l], i + 1, r)) && !Full(l, n) && !Full(r, n)
  }

  lemma SplitAtIntro(t: Tree, t': Tree, i: nat, rid: nat, lo: int, hi: int, h: nat, c: Cfg)
    requires t.Node? && OK(t, lo, hi, h, c) && |t.kids| == |t.keys| + 1 && i < |t.kids| && c.n >= 4
    requires Full(t.kids[i], c.n) && CutAt(t.kids[i], KeepCount(t.kids[i], c.n)) && t' == SplitKid(t, i, rid, c.n)
    ensures SplitAt(t, t', i, c.n) && t'.Node? && Size(t') >= Size(t)
  {
    KidAt(t, i, lo, hi, h, c);
    SplitRoom(t.kids[i], rid, Lo(t.keys, i, lo), Hi(t.keys, i, hi), h - 1, c);
    SplitKidShape(t, i, rid, c.n);
    var (l, s, r) := Cut(t.kids[i], KeepCount(t.kids[i], c.n), rid);
    hide *;
    assert t' == Node(t.id, InsertAt(t.keys, i, s), InsertAt(t.kids[i := l], i + 1, r));
    SplitAtShape(t, i, s, l, r, c.n);
  }

  lemma SplitAtShape(t: Tree, i: nat, s: int, l: Tree, r: Tree, n: nat)
    requires t.Node? && |t.kids| == |t.keys| + 1 && i < |t.kids| && !Full(l, n) && !Full(r, n)
    ensures var t' := Node(t.id, InsertAt(t.keys, i, s), InsertAt(t.kids[i := l], i + 1, r)); SplitAt(t, t', i, n) && t'.Node? && Size(t') >= Size(t)
  {
  }

  /** After the split the key still leads to a kid with room. */
  lemma SplitAtRoute(t: Tree, t': Tree, i: nat, k: int, n: nat, lo: int, hi: int, h: nat, c: Cfg)
    requires SplitAt(t, t', i, n) && t'.Node? && OK(t', lo, hi, h, c) && Routed(t, i, k, lo, hi)
    ensures var i' := Rank(t'.keys, k); Routed(t', i', k, lo, hi) && i' < |t'.kids| && !Full(t'.kids[i'], n)
    ensures |t'.kids| == |t'.keys| + 1 && t'.id == t.id
  {
    var s, l, r :| t' == Node(t.id, InsertAt(t.keys, i, s), InsertAt(t.kids[i := l], i + 1, r)) && !Full(l, n) && !Full(r, n);
    RoutedFacts(t, i, k, lo, hi);
    SortedKeys(t', lo, hi, h, c);
    hide *;
    var i' := if k <= s then i else i + 1;
    InsertedAt(t.keys, i, s);
    InsertedAt(t.kids[i := l], i + 1, r);
    RoutedIntro(t', i', k, lo, hi);
    SegKeysSorted(t'.keys, lo, hi);
    RankRoute(t', i', k, lo, hi);
  }

  lemma InsertedAt<T>(a: seq<T>, i: nat, x: T)
    requires i <= |a|
    ensures var b := InsertAt(a, i, x);
      |b| == |a| + 1 && b[i] == x && (forall j :: 0 <= j < i ==> b[j] == a[j]) && (i < |a| ==> b[i + 1] == a[i])
  {
  }

  lemma RoutedIntro(t: Tree, i: nat, k: int, lo: int, hi: int)
    requires t.Node? && |t.kids| == |t.keys| + 1 && i < |t.kids|
    requires (i == 0 && lo < k) || (i > 0 && t.keys[i - 1] < k)
    requires (i == |t.keys| && k <= hi) || (i < |t.keys| && k <= t.keys[i])
    ensures Routed(t, i, k, lo, hi)
  {
  }

  lemma SegKeysSorted(keys: seq<int>, lo: int, hi: int)
    requires SegKeys(keys, lo, hi)
    ensures Sorted(keys)
  {
  }

  lemma RootOutside(rootId: nat, id: nat, a: set<nat>, b: set<nat>, kid: set<nat>, used: set<nat>)
    requires rootId == id || rootId !in a
    requires rootId in used && b * used <= a && kid <= b && id !in kid
    ensures rootId !in kid
  {
    assert forall x :: x in b && x in used ==> x in b * used;
  }

  /** A kid that kept its page leaves the page of its parent as it is. */
  lemma SameParent(m: Store, t: Tree, i: nat, kid: Tree)
    requires t.Node? && i < |t.kids| && kid.id == t.kids[i].id && t.id in m && m[t.id] == PageOf(t)
    ensures m[t.id := PageOf(Node(t.id, t.keys, t.kids[i := kid]))] == m
  {
    assert KidIds(t.kids[i := kid]) == KidIds(t.kids);
  }

  lemma SameFill(t: Tree, kids: seq<Tree>, n: nat)
    requires t.Node?
    ensures MinFill(t, n) == MinFill(Node(t.id, t.keys, kids), n)
  {
  }

  lemma FillUp(t: Tree, t': Tree, n: nat)
    requires t.Node? && t'.Node? && Size(t') >= Size(t)
    ensures MinFill(t, n) ==> MinFill(t', n)
  {
  }

  lemma WriteTwice(m: Store, id: nat, p: Page, q: Page)
    ensures m[id := p][id := q] == m[id := q]
  {
  }

  lemma AddDrop(s: set<nat>, x: nat)
    ensures x !in s ==> s + {x} - {x} == s && {x} + s - {x} == s
  {
  }

  /** Two fixed pages: one is exchanged for another, or released. */
  lemma SwapPin(o: nat, a: nat, b: nat)
    requires o != a
    ensures |{o, a}| == 2 && {o, a} - {a} == {o} && (b != a ==> {o, a} + {b} - {a} == {o, b})
  {
  }

  lemma FirstTree(m: Store, v: View, id: nat, c: Cfg)
    requires m == map[][id := Outer(EMPTY, 0)]
    ensures var t := Leaf(id, EMPTY, 0);
      && Rep(m, t) && Disj(t) && m.Keys == Ids(t) && Coh(v, t) && OK(t, LOW, INT64_MAX, 0, c) && LastNext(t) == 0
      && Flat(t) == EMPTY && t.id == id
  {
  }

  // ----- Neighbours -----

  lemma PairIds(m: Store, v: View, t: Tree, j: nat)
    requires t.Node? && j + 1 < |t.kids| && Rep(m, t) && Disj(t)
    ensures t.id != t.kids[j].id && t.id != t.kids[j + 1].id && t.kids[j].id != t.kids[j + 1].id
    ensures t.id in m && m[t.id] == PageOf(t)
    ensures t.kids[j].id in m && m[t.kids[j].id] == PageOf(t.kids[j])
    ensures t.kids[j + 1].id in m && m[t.kids[j + 1].id] == PageOf(t.kids[j + 1])
  {
    hide *;
    PairStore(m, v, t, j);
    TwoKids(m, v, t.kids[j], t.kids[j + 1]);
    OwnPage(t.kids[j]);
    OwnPage(t.kids[j + 1]);
    RepPage(m, t);
    RepPage(m, t.kids[j]);
    RepPage(m, t.kids[j + 1]);
  }

  lemma LeafPair(t: Tree, j: nat, lo: int, hi: int, h: nat, c: Cfg)
    requires t.Node? && OK(t, lo, hi, h, c) && c.n >= 4 && |t.kids| == |t.keys| + 1 && j < |t.keys| && t.kids[j + 1].Leaf?
    requires LOW <= lo && hi <= INT64_MAX && t.kids[j].Leaf? == t.kids[j + 1].Leaf?
    ensures
      var l, s, r, l0, h0 := t.kids[j], t.keys[j], t.kids[j + 1], Lo(t.keys, j, lo), Hi(t.keys, j + 1, hi);
      && l.Leaf? && r.Leaf? && KVOk(l.kv) && KVOk(r.kv) && InRange(l.kv.keys, l0, s) && InRange(r.kv.keys, s, h0)
      && Size(l) == |l.kv.keys| == |l.kv.vals| && Size(r) == |r.kv.keys| == |r.kv.vals| && |l.kv.keys| >= 2 && |r.kv.keys| >= 2
      && PageOf(l) == Outer(l.kv, l.next) && PageOf(r) == Outer(r.kv, r.next)
      && (forall i :: 0 <= i < |l.kv.keys| ==> IsKey(l.kv.keys[i])) && (forall i :: 0 <= i < |r.kv.keys| ==> IsKey(r.kv.keys[i]))
      && Before(l.kv.keys, r.kv.keys)
  {
    var l, s, r, l0, h0 := t.kids[j], t.keys[j], t.kids[j + 1], Lo(t.keys, j, lo), Hi(t.keys, j + 1, hi);
    PairAt(t, j, lo, hi, h, c);
    RangeOf(t, j, j + 1, lo, hi, h, c);
    hide OK;
    InnerSeg(l, l0, s, h - 1, c);
    LeafKV(l, l0, s, h - 1, c);
    LeafKV(r, s, h0, h - 1, c);
    LeafNotEmpty(l, c.n);
    LeafNotEmpty(r, c.n);
  }

  lemma NodePair(t: Tree, j: nat, lo: int, hi: int, h: nat, c: Cfg)
    requires t.Node? && OK(t, lo, hi, h, c) && c.n >= 4 && |t.kids| == |t.keys| + 1 && j < |t.keys| && t.kids[j + 1].Node?
    requires t.kids[j].Leaf? == t.kids[j + 1].Leaf?
    ensures
      var l, s, r := t.kids[j], t.keys[j], t.kids[j + 1];
      && l.Node? && r.Node? && |l.kids| == |l.keys| + 1 && |r.kids| == |r.keys| + 1 && SegKeys(l.keys, Lo(t.keys, j, lo), s)
      && Sorted(r.keys) && Before(l.keys + [s], r.keys)
      && Size(l) == |l.keys| && Size(r) == |r.keys|
  {
    var l, s, r, l0, h0 := t.kids[j], t.keys[j], t.kids[j + 1], Lo(t.keys, j, lo), Hi(t.keys, j + 1, hi);
    PairAt(t, j, lo, hi, h, c);
    hide OK;
    InnerSeg(l, l0, s, h - 1, c);
    InnerSeg(r, s, h0, h - 1, c);
    SortedKeys(l, l0, s, h - 1, c);
    SortedKeys(r, s, h0, h - 1, c);
  }

  lemma InsertBefore(kv: KV, k: int, v: Value)
    requires KVOk(kv) && k !in kv.keys
    ensures KVOk(OuterInsert(kv, k, v))
  {
    InsertKeys(kv, k, v);
  }

  lemma BorrowedLeft(v: View, v': View, l: Tree, r: Tree, e: Entry)
    requires l.Leaf? && r.Leaf? && l.kv.keys != [] && r.kv.keys != [] && e.pageId == r.id
    requires Becomes(v', v[l.kv.keys[|l.kv.keys| - 1] := e])
    ensures BorrowView(v, v', l, r, |l.kv.keys| - 1, e)
  {
  }

  lemma BorrowedRight(v: View, v': View, l: Tree, r: Tree, e: Entry)
    requires l.Leaf? && r.Leaf? && l.kv.keys != [] && r.kv.keys != [] && e.pageId == l.id
    requires Becomes(v', v[r.kv.keys[0] := e])
    ensures BorrowView(v, v', l, r, |l.kv.keys| + 1, e)
  {
  }

  lemma BorrowedNode(v: View, l: Tree, r: Tree, q: nat, e: Entry)
    requires l.Node?
    ensures BorrowView(v, v, l, r, q, e)
  {
  }

  lemma ThreePages(m: Store, m': Store, a: nat, b: nat, c: nat, p: Page, q: Page, r: Page)
    requires a != b && b != c && a != c && a in m && b in m && c in m && m' == m[a := p][b := q][c := r]
    ensures m'.Keys == m.Keys && a in m' && m'[a] == p && b in m' && m'[b] == q && c in m' && m'[c] == r
    ensures Agrees(m, m', m.Keys - {a, b, c})
  {
  }

  /** Kids j and j + 1 of the stored node t, which the cache agrees with. */
  ghost predicate PairOk(m: Store, v: View, used: set<nat>, t: Tree, j: nat, lo: int, hi: int, h: nat, c: Cfg) {
    && t.Node? && OK(t, lo, hi, h, c) && c.n >= 4 && |t.kids| == |t.keys| + 1 && j < |t.keys|
    && LOW <= lo < hi <= INT64_MAX && Rep(m, t) && Disj(t) && Coh(v, t) && m.Keys <= used
  }

  lemma PairOkFacts(m: Store, v: View, used: set<nat>, t: Tree, j: nat, lo: int, hi: int, h: nat, c: Cfg)
    requires PairOk(m, v, used, t, j, lo, hi, h, c)
    ensures t.Node? && OK(t, lo, hi, h, c) && c.n >= 4 && |t.kids| == |t.keys| + 1 && j < |t.keys|
    ensures LOW <= lo < hi <= INT64_MAX && Rep(m, t) && Disj(t) && Coh(v, t) && m.Keys <= used
    ensures t.kids[j].Leaf? == t.kids[j + 1].Leaf?
  {
    SameKind(t, j, lo, hi, h, c);
  }

  /** What the borrow from a left leaf needs and computes. */
  lemma LeftLeafFits(m: Store, v: View, used: set<nat>, t: Tree, j: nat, lo: int, hi: int, h: nat, c: Cfg)
    requires PairOk(m, v, used, t, j, lo, hi, h, c) && t.kids[j + 1].Leaf?
    ensures
      var l, r := t.kids[j], t.kids[j + 1];
      && l.Leaf? && r.Leaf? && KVOk(l.kv) && KVOk(r.kv) && |l.kv.keys| == |l.kv.vals| >= 2 && |r.kv.keys| == |r.kv.vals| >= 2
      && PageOf(l) == Outer(l.kv, l.next) && PageOf(r) == Outer(r.kv, r.next)
      && IsKey(l.kv.keys[|l.kv.keys| - 1]) && |OuterDelete(l.kv, l.kv.keys[|l.kv.keys| - 1]).keys| == |l.kv.keys| - 1
      && KVOk(OuterInsert(r.kv, l.kv.keys[|l.kv.keys| - 1], l.kv.vals[|l.kv.keys| - 1]))
      && KVOk(OuterDelete(l.kv, l.kv.keys[|l.kv.keys| - 1]))
  {
    hide *;
    PairOkFacts(m, v, used, t, j, lo, hi, h, c);
    LeafPair(t, j, lo, hi, h, c);
    var l, r := t.kids[j], t.kids[j + 1];
    BorrowLeftLeaf(l, t.keys[j], r, Lo(t.keys, j, lo), Hi(t.keys, j + 1, hi));
    BeforeNot(l.kv.keys, r.kv.keys, |l.kv.keys| - 1, 0);
    InsertBefore(r.kv, l.kv.keys[|l.kv.keys| - 1], l.kv.vals[|l.kv.keys| - 1]);
    DeleteKeys(l.kv, l.kv.keys[|l.kv.keys| - 1]);
  }

  lemma BeforeNot(a: seq<int>, b: seq<int>, i: nat, j: nat)
    requires Before(a, b)
    ensures i < |a| ==> a[i] !in b
    ensures j < |b| ==> b[j] !in a
  {
  }

  lemma BorrowLeftLeafTurn(m: Store, v: View, m': Store, v': View, used: set<nat>, t: Tree, j: nat, e: Entry, lo: int, hi: int, h: nat, c: Cfg)
    requires PairOk(m, v, used, t, j, lo, hi, h, c) && t.kids[j].Leaf? && t.kids[j + 1].Leaf?
    requires |t.kids[j].kv.keys| == |t.kids[j].kv.vals| >= 2 && |t.kids[j + 1].kv.keys| == |t.kids[j + 1].kv.vals|
    requires
      var l, r := t.kids[j], t.kids[j + 1];
      var last := |l.kv.keys| - 1;
      var left := OuterDelete(l.kv, l.kv.keys[last]);
      && |left.keys| == last && e.pageId == r.id && Becomes(v', v[l.kv.keys[last] := e])
      && m' == m[r.id := Outer(OuterInsert(r.kv, l.kv.keys[last], l.kv.vals[last]), r.next)][l.id := Outer(left, l.next)]
               [t.id := Inner(t.keys[j := left.keys[last - 1]], KidIds(t.kids))]
    ensures CutAt(Both(t, j), Size(t.kids[j]) - 1)
    ensures Turn(m, v, m', v', used, t, Rebalance(t, j, Size(t.kids[j]) - 1), lo, hi)
  {
    hide *;
    PairOkFacts(m, v, used, t, j, lo, hi, h, c);
    LeafPair(t, j, lo, hi, h, c);
    PairIds(m, v, t, j);
    NextLeaf(t, j, lo, hi, h, c);
    var l, r := t.kids[j], t.kids[j + 1];
    BorrowLeftLeaf(l, t.keys[j], r, Lo(t.keys, j, lo), Hi(t.keys, j + 1, hi));
    BothIs(t, j);
    var q := |l.kv.keys| - 1;
    var (l', s', r') := Cut(Both(t, j), q, r.id);
    CutIds(t, j, q);
    BorrowParent(t, j, s', l', r');
    ThreePages(m, m', r.id, l.id, t.id, PageOf(r'), PageOf(l'), Inner(t.keys[j := s'], KidIds(t.kids)));
    assert {r.id, l.id, t.id} == {t.id, l.id, r.id};
    BorrowedLeft(v, v', l, r, e);
    RebalanceTurn(m, v, m', v', used, t, j, q, e, lo, hi, h, c);
  }

  /** Neighbouring leaves are chained. */
  lemma NextLeaf(t: Tree, j: nat, lo: int, hi: int, h: nat, c: Cfg)
    requires t.Node? && OK(t, lo, hi, h, c) && |t.kids| == |t.keys| + 1 && j < |t.keys| && t.kids[j].Leaf? && t.kids[j + 1].Leaf?
    ensures t.kids[j].next == t.kids[j + 1].id
  {
    PairAt(t, j, lo, hi, h, c);
  }

  lemma CutIds(t: Tree, j: nat, q: nat)
    requires t.Node? && |t.kids| == |t.keys| + 1 && j < |t.keys| && CutAt(Both(t, j), q)
    ensures var (l, s, r) := Cut(Both(t, j), q, t.kids[j + 1].id); l.id == t.kids[j].id && r.id == t.kids[j + 1].id
  {
  }

  lemma RightLeafFits(m: Store, v: View, used: set<nat>, t: Tree, j: nat, lo: int, hi: int, h: nat, c: Cfg)
    requires PairOk(m, v, used, t, j, lo, hi, h, c) && t.kids[j].Leaf?
    ensures
      var l, r := t.kids[j], t.kids[j + 1];
      && l.Leaf? && r.Leaf? && KVOk(l.kv) && KVOk(r.kv) && |l.kv.keys| == |l.kv.vals| >= 2 && |r.kv.keys| == |r.kv.vals| >= 2
      && PageOf(l) == Outer(l.kv, l.next) && PageOf(r) == Outer(r.kv, r.next)
      && IsKey(r.kv.keys[0]) && KVOk(OuterInsert(l.kv, r.kv.keys[0], r.kv.vals[0])) && KVOk(OuterDelete(r.kv, r.kv.keys[0]))
  {
    hide *;
    PairOkFacts(m, v, used, t, j, lo, hi, h, c);
    LeafPair(t, j, lo, hi, h, c);
    var l, r := t.kids[j], t.kids[j + 1];
    BeforeNot(l.kv.keys, r.kv.keys, 0, 0);
    InsertBefore(l.kv, r.kv.keys[0], r.kv.vals[0]);
    DeleteKeys(r.kv, r.kv.keys[0]);
  }

  lemma BorrowRightLeafTurn(m: Store, v: View, m': Store, v': View, used: set<nat>, t: Tree, j: nat, e: Entry, lo: int, hi: int, h: nat, c: Cfg)
    requires PairOk(m, v, used, t, j, lo, hi, h, c) && t.kids[j].Leaf? && t.kids[j + 1].Leaf?
    requires |t.kids[j].kv.keys| == |t.kids[j].kv.vals| && |t.kids[j + 1].kv.keys| == |t.kids[j + 1].kv.vals| >= 2
    requires
      var l, r := t.kids[j], t.kids[j + 1];
      && e.pageId == l.id && Becomes(v', v[r.kv.keys[0] := e])
      && m' == m[l.id := Outer(OuterInsert(l.kv, r.kv.keys[0], r.kv.vals[0]), l.next)]
               [t.id := Inner(t.keys[j := r.kv.keys[0]], KidIds(t.kids))][r.id := Outer(OuterDelete(r.kv, r.kv.keys[0]), r.next)]
    ensures CutAt(Both(t, j), Size(t.kids[j]) + 1)
    ensures Turn(m, v, m', v', used, t, Rebalance(t, j, Size(t.kids[j]) + 1), lo, hi)
  {
    hide *;
    PairOkFacts(m, v, used, t, j, lo, hi, h, c);
    LeafPair(t, j, lo, hi, h, c);
    PairIds(m, v, t, j);
    NextLeaf(t, j, lo, hi, h, c);
    var l, r := t.kids[j], t.kids[j + 1];
    BorrowRightLeaf(l, t.keys[j], r, Lo(t.keys, j, lo), Hi(t.keys, j + 1, hi));
    BothIs(t, j);
    var q := |l.kv.keys| + 1;
    var (l', s', r') := Cut(Both(t, j), q, r.id);
    CutIds(t, j, q);
    BorrowParent(t, j, s', l', r');
    ThreePages(m, m', l.id, t.id, r.id, PageOf(l'), Inner(t.keys[j := s'], KidIds(t.kids)), PageOf(r'));
    assert {l.id, t.id, r.id} == {t.id, l.id, r.id};
    BorrowedRight(v, v', l, r, e);
    RebalanceTurn(m, v, m', v', used, t, j, q, e, lo, hi, h, c);
  }

  lemma NodeFits(m: Store, v: View, used: set<nat>, t: Tree, j: nat, lo: int, hi: int, h: nat, c: Cfg)
    requires PairOk(m, v, used, t, j, lo, hi, h, c) && (t.kids[j].Node? || t.kids[j + 1].Node?)
    ensures
      var l, r := t.kids[j], t.kids[j + 1];
      && l.Node? && r.Node? && InnerOk(PageOf(l)) && InnerOk(PageOf(r))
      && PageOf(l) == Inner(l.keys, KidIds(l.kids)) && PageOf(r) == Inner(r.keys, KidIds(r.kids))
      && Size(l) == |l.keys| == |l.kids| - 1 && Size(r) == |r.keys| == |r.kids| - 1
  {
    hide *;
    PairOkFacts(m, v, used, t, j, lo, hi, h, c);
    NodePair(t, j, lo, hi, h, c);
    NodePageOf(t.kids[j]);
    NodePageOf(t.kids[j + 1]);
  }

  lemma BorrowLeftNodeTurn(m: Store, v: View, m': Store, used: set<nat>, t: Tree, j: nat, lo: int, hi: int, h: nat, c: Cfg)
    requires PairOk(m, v, used, t, j, lo, hi, h, c) && t.kids[j].Node? && t.kids[j + 1].Node? && t.kids[j].keys != []
    requires InnerOk(PageOf(t.kids[j])) && InnerOk(PageOf(t.kids[j + 1])) && |t.kids[j].kids| == |t.kids[j].keys| + 1
    requires
      var l, r := t.kids[j], t.kids[j + 1];
      var last := |l.keys| - 1;
      m' == m[r.id := InnerInsertFirst(PageOf(r), t.keys[j], l.kids[last + 1].id)]
             [t.id := Inner(t.keys[j := l.keys[last]], KidIds(t.kids))][l.id := InnerDelete(PageOf(l), l.keys[last])]
    ensures CutAt(Both(t, j), Size(t.kids[j]) - 1)
    ensures Turn(m, v, m', v, used, t, Rebalance(t, j, Size(t.kids[j]) - 1), lo, hi)
  {
    hide *;
    PairOkFacts(m, v, used, t, j, lo, hi, h, c);
    NodePair(t, j, lo, hi, h, c);
    PairIds(m, v, t, j);
    var l, r, e := t.kids[j], t.kids[j + 1], Entry(0, 0);
    BorrowLeftNode(l, t.keys[j], r, Lo(t.keys, j, lo));
    BothIs(t, j);
    var q := |l.keys| - 1;
    var (l', s', r') := Cut(Both(t, j), q, r.id);
    CutIds(t, j, q);
    BorrowParent(t, j, s', l', r');
    ThreePages(m, m', r.id, t.id, l.id, PageOf(r'), Inner(t.keys[j := s'], KidIds(t.kids)), PageOf(l'));
    assert {r.id, t.id, l.id} == {t.id, l.id, r.id};
    BorrowedNode(v, l, r, q, e);
    RebalanceTurn(m, v, m', v, used, t, j, q, e, lo, hi, h, c);
  }

  lemma BorrowRightNodeTurn(m: Store, v: View, m': Store, used: set<nat>, t: Tree, j: nat, lo: int, hi: int, h: nat, c: Cfg)
    requires PairOk(m, v, used, t, j, lo, hi, h, c) && t.kids[j].Node? && t.kids[j + 1].Node? && t.kids[j + 1].keys != []
    requires InnerOk(PageOf(t.kids[j])) && InnerOk(PageOf(t.kids[j + 1])) && |t.kids[j + 1].kids| == |t.kids[j + 1].keys| + 1
    requires
      var l, r := t.kids[j], t.kids[j + 1];
      m' == m[l.id := InnerInsert(PageOf(l), t.keys[j], r.kids[0].id)]
             [t.id := Inner(t.keys[j := r.keys[0]], KidIds(t.kids))][r.id := InnerDeleteFirst(PageOf(r))]
    ensures CutAt(Both(t, j), Size(t.kids[j]) + 1)
    ensures Turn(m, v, m', v, used, t, Rebalance(t, j, Size(t.kids[j]) + 1), lo, hi)
  {
    hide *;
    PairOkFacts(m, v, used, t, j, lo, hi, h, c);
    NodePair(t, j, lo, hi, h, c);
    PairIds(m, v, t, j);
    var l, r, e := t.kids[j], t.kids[j + 1], Entry(0, 0);
    BorrowRightNode(l, t.keys[j], r, Lo(t.keys, j, lo));
    BothIs(t, j);
    var q := |l.keys| + 1;
    var (l', s', r') := Cut(Both(t, j), q, r.id);
    CutIds(t, j, q);
    BorrowParent(t, j, s', l', r');
    ThreePages(m, m', l.id, t.id, r.id, PageOf(l'), Inner(t.keys[j := s'], KidIds(t.kids)), PageOf(r'));
    assert {l.id, t.id, r.id} == {t.id, l.id, r.id};
    BorrowedNode(v, l, r, q, e);
    RebalanceTurn(m, v, m', v, used, t, j, q, e, lo, hi, h, c);
  }

  // ----- Merges -----

  lemma MergeLeafTurn(m: Store, v: View, m': Store, v': View, used: set<nat>, t: Tree, j: nat, e: Entry, lo: int, hi: int, h: nat, c: Cfg)
    requires PairOk(m, v, used, t, j, lo, hi, h, c) && t.kids[j].Leaf? && t.kids[j + 1].Leaf? && t.kids[j + 1].kv.keys != []
    requires InnerOk(PageOf(t))
    requires
      var l, r := t.kids[j], t.kids[j + 1];
      && e.pageId == l.id && Becomes(v', Repoint(v, r.kv.keys[0], r.kv.keys[|r.kv.keys| - 1], e))
      && m' == m[l.id := Outer(KV(l.kv.keys + r.kv.keys, l.kv.vals + r.kv.vals), r.next)]
               [t.id := InnerDelete(PageOf(t), t.keys[j])] - {r.id}
    ensures Turn(m, v, m', v', used, t, MergeAt(t, j), lo, hi)
  {
    hide *;
    PairOkFacts(m, v, used, t, j, lo, hi, h, c);
    PairIds(m, v, t, j);
    var l, r := t.kids[j], t.kids[j + 1];
    BothIs(t, j);
    MergedLeaf(l, t.keys[j], r);
    MergedId(t, j);
    MergeParent(t, j, Both(t, j), lo, hi, h, c);
    TwoPages(m, m', l.id, t.id, r.id, PageOf(Both(t, j)), InnerDelete(PageOf(t), t.keys[j]));
    MergedView(v, v', l, r, e);
    MergeTurn(m, v, m', v', used, t, j, e, lo, hi, h, c);
  }

  lemma MergeNodeTurn(m: Store, v: View, m': Store, used: set<nat>, t: Tree, j: nat, p: Page, lo: int, hi: int, h: nat, c: Cfg)
    requires PairOk(m, v, used, t, j, lo, hi, h, c) && t.kids[j].Node? && t.kids[j + 1].Node?
    requires InnerOk(PageOf(t)) && InnerOk(PageOf(t.kids[j])) && |t.kids[j + 1].kids| == |t.kids[j + 1].keys| + 1
    requires p == InnerInsert(PageOf(t.kids[j]), t.keys[j], t.kids[j + 1].kids[0].id)
    requires
      var l, r := t.kids[j], t.kids[j + 1];
      m' == m[l.id := Inner(p.keys + r.keys, p.children + KidIds(r.kids)[1..])][t.id := InnerDelete(PageOf(t), t.keys[j])] - {r.id}
    ensures Turn(m, v, m', v, used, t, MergeAt(t, j), lo, hi)
  {
    hide *;
    PairOkFacts(m, v, used, t, j, lo, hi, h, c);
    PairIds(m, v, t, j);
    NodePair(t, j, lo, hi, h, c);
    var l, r, e := t.kids[j], t.kids[j + 1], Entry(0, 0);
    BothIs(t, j);
    MergedNode(l, t.keys[j], r, Lo(t.keys, j, lo));
    MergedId(t, j);
    MergeParent(t, j, Both(t, j), lo, hi, h, c);
    TwoPages(m, m', l.id, t.id, r.id, PageOf(Both(t, j)), InnerDelete(PageOf(t), t.keys[j]));
    MergedNodeView(v, l, r, e);
    MergeTurn(m, v, m', v, used, t, j, e, lo, hi, h, c);
  }

  lemma MergedId(t: Tree, j: nat)
    requires t.Node? && |t.kids| == |t.keys| + 1 && j < |t.keys|
    ensures Both(t, j).id == t.kids[j].id
  {
  }

  lemma TwoPages(m: Store, m': Store, a: nat, b: nat, c: nat, p: Page, q: Page)
    requires a != b && b != c && a != c && a in m && b in m && m' == m[a := p][b := q] - {c}
    ensures m'.Keys == m.Keys - {c} && a in m' && m'[a] == p && b in m' && m'[b] == q && Agrees(m, m', m.Keys - {b, a, c})
  {
  }

  lemma MergedView(v: View, v': View, l: Tree, r: Tree, e: Entry)
    requires r.Leaf? && r.kv.keys != [] && e.pageId == l.id && Becomes(v', Repoint(v, r.kv.keys[0], r.kv.keys[|r.kv.keys| - 1], e))
    ensures MergeView(v, v', l, r, e)
  {
  }

  lemma MergedNodeView(v: View, l: Tree, r: Tree, e: Entry)
    requires r.Node?
    ensures MergeView(v, v, l, r, e)
  {
  }

  lemma MergeLeafFits(m: Store, v: View, used: set<nat>, t: Tree, j: nat, lo: int, hi: int, h: nat, c: Cfg)
    requires PairOk(m, v, used, t, j, lo, hi, h, c) && t.kids[j].Leaf?
    ensures
      var l, r := t.kids[j], t.kids[j + 1];
      && l.Leaf? && r.Leaf? && KVOk(l.kv) && KVOk(r.kv) && |l.kv.keys| == |l.kv.vals| && |r.kv.keys| == |r.kv.vals| >= 2
      && PageOf(l) == Outer(l.kv, l.next) && PageOf(r) == Outer(r.kv, r.next)
      && IsKey(r.kv.keys[0]) && IsKey(r.kv.keys[|r.kv.keys| - 1]) && Before(l.kv.keys, r.kv.keys[0..])
      && r.kv.keys[0..] == r.kv.keys && r.kv.vals[0..] == r.kv.vals
      && KVOk(KV(l.kv.keys + r.kv.keys, l.kv.vals + r.kv.vals))
  {
    PairOkFacts(m, v, used, t, j, lo, hi, h, c);
    hide PairOk, OK;
    LeafPair(t, j, lo, hi, h, c);
  }

  lemma MergeNodeFits(m: Store, v: View, used: set<nat>, t: Tree, j: nat, lo: int, hi: int, h: nat, c: Cfg)
    requires PairOk(m, v, used, t, j, lo, hi, h, c) && t.kids[j].Node? && t.kids[j + 1].Node?
    requires InnerOk(PageOf(t.kids[j])) && |t.kids[j + 1].kids| == |t.kids[j + 1].keys| + 1
    ensures
      var l, r := t.kids[j], t.kids[j + 1];
      var p := InnerInsert(PageOf(l), t.keys[j], r.kids[0].id);
      && InnerOk(p) && Sorted(r.keys) && Before(p.keys, r.keys[0..]) && r.keys[0..] == r.keys && |p.keys| == |l.keys| + 1
  {
    hide *;
    PairOkFacts(m, v, used, t, j, lo, hi, h, c);
    NodePair(t, j, lo, hi, h, c);
    MergedNode(t.kids[j], t.keys[j], t.kids[j + 1], Lo(t.keys, j, lo));
    assert t.kids[j + 1].keys[0..] == t.kids[j + 1].keys;
  }

  // ----- The choice of a neighbour -----

  lemma ChoiceIs(t: Tree, i: nat, n: nat)
    requires t.Node? && i < |t.kids| == |t.keys| + 1
    ensures Choice(t, i, n)
      == if i > 0 && Spare(t.kids[i - 1], n) then BorrowLeft
         else if i < |t.keys| && Spare(t.kids[i + 1], n) then BorrowRight
         else if i > 0 then MergeLeft
         else MergeRight
  {
  }

  lemma SpareIs(t: Tree, n: nat)
    ensures Spare(t, n) == CanDelete(PageOf(t), n)
  {
  }

  lemma ChildAt(t: Tree, i: nat)
    requires t.Node? && i < |t.kids|
    ensures |KidIds(t.kids)| == |t.kids| && t.kids[i].id == KidIds(t.kids)[i] && t.kids[i].id in KidIds(t.kids)
  {
    assert KidIds(t.kids)[i] == t.kids[i].id;
  }

  /** The search for a child id ends at its position: no page has two places. */
  lemma ChildIs(m: Store, v: View, t: Tree, i: nat, index: nat)
    requires t.Node? && i < |t.kids| && Rep(m, t) && Disj(t)
    requires index < |KidIds(t.kids)| && KidIds(t.kids)[index] == t.kids[i].id
    ensures index == i
  {
    hide *;
    ChildAt(t, i);
    KidIdAt(t, index);
    OwnPage(t.kids[i]);
    OwnPage(t.kids[index]);
    if index < i {
      KidsApart(t, index, i);
    } else if i < index {
      KidsApart(t, i, index);
    }
  }

  lemma KidIdAt(t: Tree, i: nat)
    requires t.Node? && i < |KidIds(t.kids)|
    ensures i < |t.kids| && KidIds(t.kids)[i] == t.kids[i].id
  {
  }

  lemma KidsApart(t: Tree, i: nat, j: nat)
    requires t.Node? && i < j < |t.kids| && Disj(t)
    ensures Ids(t.kids[i]) !! Ids(t.kids[j])
  {
    hide *;
    IdsParts(t, i, i);
    assert t.kids[i..i + 1] == [t.kids[i]];
    OneKid(map[], map[], t.kids[i]);
    RestIs(t, i, i);
    IdsIn(t.kids[i + 1..], j - i - 1);
  }

  lemma {:induction false} IdsIn(kids: seq<Tree>, i: nat)
    requires i < |kids|
    ensures Ids(kids[i]) <= IdsSeg(kids)
  {
    if i > 0 {
      IdsIn(kids[1..], i - 1);
    }
  }

  lemma PoorKeys(t: Tree, i: nat, lo: int, hi: int, h: nat, c: Cfg)
    requires Poor(t, i, lo, hi, h, c)
    ensures t.Node? && |t.keys| > 0 && |t.kids| == |t.keys| + 1
  {
  }

  lemma RepairLeft(t: Tree, i: nat, lo: int, hi: int, h: nat, c: Cfg)
    requires Poor(t, i, lo, hi, h, c) && Choice(t, i, c.n).BorrowLeft?
    ensures i > 0 && Size(t.kids[i - 1]) > 0 && CutAt(Both(t, i - 1), Size(t.kids[i - 1]) - 1)
    ensures Repair(t, i, lo, hi, h, c) == Rebalance(t, i - 1, Size(t.kids[i - 1]) - 1)
  {
    SpareSize(t.kids[i - 1], c.n);
    BorrowLeftFits(t, i, lo, hi, h, c);
  }

  lemma RepairRight(t: Tree, i: nat, lo: int, hi: int, h: nat, c: Cfg)
    requires Poor(t, i, lo, hi, h, c) && Choice(t, i, c.n).BorrowRight?
    ensures i < |t.keys| && Size(t.kids[i + 1]) > 0 && CutAt(Both(t, i), Size(t.kids[i]) + 1)
    ensures Repair(t, i, lo, hi, h, c) == Rebalance(t, i, Size(t.kids[i]) + 1)
  {
    SpareSize(t.kids[i + 1], c.n);
    BorrowRightFits(t, i, lo, hi, h, c);
  }

  lemma RepairMerge(t: Tree, i: nat, lo: int, hi: int, h: nat, c: Cfg)
    requires Poor(t, i, lo, hi, h, c) && !Choice(t, i, c.n).BorrowLeft? && !Choice(t, i, c.n).BorrowRight?
    ensures Repair(t, i, lo, hi, h, c) == MergeAt(t, if i > 0 then i - 1 else i)
  {
  }

  // ----- Deletion -----

  lemma BiggestInLeaf(t: Tree, n: nat)
    requires t.Leaf? && MinFill(t, n) && n >= 4
    ensures |t.kv.keys| >= 2 && FindBiggest(t) == t.kv.keys[|t.kv.keys| - 2]
  {
  }

  lemma BiggestInNode(t: Tree)
    requires t.Node? && |t.kids| == |t.keys| + 1
    ensures FindBiggest(t) == FindBiggest(t.kids[|t.keys|])
  {
  }

  lemma FewerKeys(kv: KV, k: int)
    requires |kv.keys| == |kv.vals|
    ensures forall i :: 0 <= i < |OuterDelete(kv, k).keys| ==> OuterDelete(kv, k).keys[i] in kv.keys
  {
  }

  lemma KidPageOf(m: Store, t: Tree)
    requires Rep(m, t)
    ensures t.id in m && m[t.id] == PageOf(t) && t.id in Ids(t)
  {
  }

  lemma ReadyIs(t: Tree, k: int, n: nat)
    requires t.Node? && |t.kids| == |t.keys| + 1
    ensures Ready(t, k, n) == Spare(t.kids[Rank(t.keys, k)], n)
  {
  }

  lemma StillOutside(id: nat, a: set<nat>, b: set<nat>, used: set<nat>, root: bool)
    requires b * used <= a && (!root ==> id in used && id !in a)
    ensures !root ==> id !in b
  {
    assert forall x :: x in b && x in used ==> x in b * used;
  }

  lemma RootNotIn(rootId: nat, id: nat, all: set<nat>, kid: set<nat>, root: bool)
    requires kid <= all && id !in kid && if root then rootId == id else rootId !in all
    ensures rootId !in kid
  {
  }

  lemma ExchangedIs(t: Tree, i: nat, k: int)
    requires t.Node? && i < |t.kids| == |t.keys| + 1 && i == Rank(t.keys, k)
    ensures Contains(t.keys, k) ==> i < |t.keys| && Exchanged(t, i, k) == t.keys[i := FindBiggest(t.kids[i])]
    ensures !Contains(t.keys, k) ==> Exchanged(t, i, k) == t.keys
    ensures PageOf(t) == Inner(t.keys, KidIds(t.kids))
    ensures PageOf(Node(t.id, Exchanged(t, i, k), t.kids)) == Inner(Exchanged(t, i, k), KidIds(t.kids))
  {
  }

  lemma SameWrite(m: Store, id: nat)
    requires id in m
    ensures m[id := m[id]] == m
  {
  }

  lemma CanDelRoot(t: Tree, k: int, lo: int, hi: int, h: nat, c: Cfg)
    requires OK(t, lo, hi, h, c) && lo < k <= hi && c.n >= 4
    ensures CanDel(t, k, true, lo, hi, h, c)
  {
  }

  lemma KidAside(m: Store, t: Tree, kid: Tree, page: Page)
    requires Rep(m, kid) && t.id !in Ids(kid)
    ensures Rep(m[t.id := page], kid)
  {
    RepWrite(m, kid, t.id, page);
  }

  /** A turn of kid i that starts after the separators of t were rewritten. */
  lemma TurnKidVia(m: Store, v: View, m1: Store, m2: Store, v2: View, used: set<nat>, t: Tree, i: nat, kid: Tree, keys: seq<int>, lo: int, hi: int, h: nat, c: Cfg)
    requires t.Node? && OK(t, lo, hi, h, c) && c.n >= 4 && i < |t.kids| && |t.kids| == |t.keys| + 1
    requires Rep(m, t) && Disj(t) && Coh(v, t) && m.Keys <= used
    requires m1 == m[t.id := PageOf(Node(t.id, keys, t.kids))] && kid.id == t.kids[i].id
    requires Turn(m1, v, m2, v2, used, t.kids[i], kid, Lo(t.keys, i, lo), Hi(t.keys, i, hi))
    ensures Turn(m, v, m2, v2, used, t, Node(t.id, keys, t.kids[i := kid]), lo, hi)
  {
    hide *;
    var l0, h0 := Lo(t.keys, i, lo), Hi(t.keys, i, hi);
    KidIdsIn(m, t, i);
    RepPage(m, t);
    TurnFacts(m1, v, m2, v2, used, t.kids[i], kid, l0, h0);
    var m3 := m2[t.id := PageOf(t)];
    NotThere(Ids(kid), used, Ids(t.kids[i]), t.id, m.Keys);
    Aside(m, m1, m2, m3, t.id, PageOf(t), PageOf(Node(t.id, keys, t.kids)), Ids(t.kids[i]), Ids(kid));
    RepWrite(m2, kid, t.id, PageOf(t));
    TurnIntro(m, v, m3, v2, used, t.kids[i], kid, l0, h0);
    TurnKid(m, v, m3, v2, used, t, i, kid, keys, lo, hi, h, c);
    SameKidPage(t, i, kid, keys);
    assert m3[t.id := PageOf(Node(t.id, keys, t.kids[i := kid]))] == m2;
  }

  lemma SameKidPage(t: Tree, i: nat, kid: Tree, keys: seq<int>)
    requires t.Node? && i < |t.kids| && kid.id == t.kids[i].id
    ensures PageOf(Node(t.id, keys, t.kids[i := kid])) == PageOf(Node(t.id, keys, t.kids))
  {
    assert KidIds(t.kids[i := kid]) == KidIds(t.kids);
  }

  lemma Aside(m: Store, m1: Store, m2: Store, m3: Store, id: nat, p: Page, q: Page, a: set<nat>, b: set<nat>)
    requires id in m && m[id] == p && m1 == m[id := q] && m3 == m2[id := p] && id !in a && id !in b
    requires Agrees(m1, m2, m1.Keys - a) && m2.Keys == (m1.Keys - a) + b
    ensures Agrees(m, m3, m.Keys - a) && m3.Keys == (m.Keys - a) + b && id in m2 && m2[id] == q
  {
    assert id in m1.Keys - a;
  }

  /** A poor kid is not full. */
  lemma PoorNotFull(t: Tree, i: nat, lo: int, hi: int, h: nat, c: Cfg)
    requires Poor(t, i, lo, hi, h, c)
    ensures t.Node? && i < |t.kids| && !Full(t.kids[i], c.n)
  {
    SizesAt(t, i, lo, hi, h, c);
  }

  /** Two kids that cannot give a key fit into one page. */
  lemma MergeRoom(t: Tree, j: nat, lo: int, hi: int, h: nat, c: Cfg)
    requires t.Node? && OK(t, lo, hi, h, c) && c.n >= 4 && |t.kids| == |t.keys| + 1 && j < |t.keys|
    requires !Spare(t.kids[j], c.n) && !Spare(t.kids[j + 1], c.n)
    ensures if t.kids[j].Leaf? then Size(t.kids[j]) + Size(t.kids[j + 1]) <= c.n else Size(t.kids[j]) + 1 + Size(t.kids[j + 1]) <= c.n - 1
    ensures !Full(t.kids[j], c.n)
  {
    SizesAt(t, j, lo, hi, h, c);
    SizesAt(t, j + 1, lo, hi, h, c);
  }

  lemma PoorSpare(t: Tree, i: nat, lo: int, hi: int, h: nat, c: Cfg)
    requires Poor(t, i, lo, hi, h, c)
    ensures t.Node? && i < |t.kids| && !Spare(t.kids[i], c.n)
  {
  }
}
