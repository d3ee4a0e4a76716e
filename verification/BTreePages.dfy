/**
 * The page operations of the B+ tree code, and the loops that copy pairs from
 * one page to another, compute the restructuring steps on trees.
 */
module BTreePages {
  import opened Common
  import opened Pages
  import opened BTreeModel
  import opened BTreeDelete

  lemma AppendOuter(kv: KV, k: int, v: Value)
    requires |kv.keys| == |kv.vals| && forall i :: 0 <= i < |kv.keys| ==> kv.keys[i] < k
    ensures OuterInsert(kv, k, v) == KV(kv.keys + [k], kv.vals + [v])
  {
    RankUnique(kv.keys, k, |kv.keys|);
  }

  lemma AppendInner(p: Page, k: int, child: nat)
    requires InnerOk(p) && forall i :: 0 <= i < |p.keys| ==> p.keys[i] < k
    ensures InnerInsert(p, k, child) == Inner(p.keys + [k], p.children + [child])
  {
    RankUnique(p.keys, k, |p.keys|);
  }

  /** Every key of a is below every key of b. */
  ghost predicate Before(a: seq<int>, b: seq<int>) {
    forall i, j :: 0 <= i < |a| && 0 <= j < |b| ==> a[i] < b[j]
  }

  lemma BeforeNext(a: seq<int>, b: seq<int>, start: nat, i: nat)
    requires Sorted(b) && start <= i < |b| && Before(a, b[start..])
    ensures forall j :: 0 <= j < |a + b[start..i]| ==> (a + b[start..i])[j] < b[i]
  {
    assert b[i] == b[start..][i - start];
  }

  lemma SliceNext<T>(a: seq<T>, b: seq<T>, start: nat, i: nat)
    requires start <= i < |b|
    ensures a + b[start..i] + [b[i]] == a + b[start..i + 1]
  {
  }

  lemma SliceEnds<T>(a: seq<T>, b: seq<T>, start: nat)
    requires start <= |b|
    ensures a + b[start..start] == a && b[start..|b|] == b[start..]
  {
  }

  /** Insert the pairs of one leaf from position start on into another one that holds smaller keys; no insertion meets a full page. */
  method MoveOuter(kv: KV, start: nat, to: KV, n: nat) returns (r: KV)
    requires KVOk(kv) && start <= |kv.keys| && |to.keys| == |to.vals| && Before(to.keys, kv.keys[start..])
    requires |to.keys| + |kv.keys| - start <= n
    ensures r == KV(to.keys + kv.keys[start..], to.vals + kv.vals[start..])
  {
    hide OuterInsert, Before, Sorted;
    SliceEnds(to.keys, kv.keys, start);
    SliceEnds(to.vals, kv.vals, start);
    r := to;
    var i := start;
    while i < |kv.keys|
      invariant start <= i <= |kv.keys|
      invariant r.keys == to.keys + kv.keys[start..i] && r.vals == to.vals + kv.vals[start..i]
    {
      BeforeNext(to.keys, kv.keys, start, i);
      AppendOuter(r, kv.keys[i], kv.vals[i]);
      SliceNext(to.keys, kv.keys, start, i);
      SliceNext(to.vals, kv.vals, start, i);
      assert !IsFull(Outer(r, 0), n);
      r := OuterInsert(r, kv.keys[i], kv.vals[i]);
      i := i + 1;
    }
  }

  /** The same for inner nodes: keys from position start on, each with the child to its right. */
  method MoveInner(p: Page, start: nat, to: Page, n: nat) returns (r: Page)
    requires InnerOk(p) && Sorted(p.keys) && start <= |p.keys| && InnerOk(to) && Before(to.keys, p.keys[start..])
    requires |to.keys| + |p.keys| - start <= n - 1
    ensures r == Inner(to.keys + p.keys[start..], to.children + p.children[start + 1..])
  {
    hide InnerInsert, Before, Sorted;
    SliceEnds(to.keys, p.keys, start);
    SliceEnds(to.children, p.children, start + 1);
    r := to;
    var i := start;
    while i < |p.keys|
      invariant start <= i <= |p.keys| && r.Inner?
      invariant r.keys == to.keys + p.keys[start..i] && r.children == to.children + p.children[start + 1..i + 1]
    {
      BeforeNext(to.keys, p.keys, start, i);
      AppendInner(r, p.keys[i], p.children[i + 1]);
      SliceNext(to.keys, p.keys, start, i);
      SliceNext(to.children, p.children, start + 1, i + 1);
      assert !IsFull(r, n);
      r := InnerInsert(r, p.keys[i], p.children[i + 1]);
      i := i + 1;
    }
  }

  /** The position of a child id. */
  method FindChild(children: seq<nat>, id: nat) returns (index: nat)
    requires id in children
    ensures index < |children| && children[index] == id && id !in children[..index]
  {
    index := 0;
    while children[index] != id
      invariant index < |children| && id !in children[..index]
      decreases |children| - index
    {
      index := index + 1;
    }
  }

  // ----- Splits -----

  lemma CutPages(t: Tree, q: nat, rid: nat)
    requires CutAt(t, q)
    ensures
      var (l, s, r) := Cut(t, q, rid);
      && l.id == t.id && r.id == rid
      && (t.Leaf? ==>
          && PageOf(l) == Outer(KV(t.kv.keys[..q], t.kv.vals[..q]), rid) && s == t.kv.keys[q - 1]
          && PageOf(r) == Outer(KV(t.kv.keys[q..], t.kv.vals[q..]), t.next))
      && (t.Node? ==>
          && PageOf(l) == Inner(t.keys[..q], KidIds(t.kids)[..q + 1]) && s == t.keys[q]
          && PageOf(r) == Inner(t.keys[q + 1..], KidIds(t.kids)[q + 1..]))
  {
    if t.Node? {
      assert KidIds(t.kids[..q + 1]) == KidIds(t.kids)[..q + 1];
      assert KidIds(t.kids[q + 1..]) == KidIds(t.kids)[q + 1..];
    }
  }

  /** The parent's page after kid i was split into l and r. */
  lemma SplitParent(t: Tree, i: nat, s: int, l: Tree, r: Tree, lo: int, hi: int, h: nat, c: Cfg)
    requires t.Node? && OK(t, lo, hi, h, c) && i < |t.kids| && |t.kids| == |t.keys| + 1 && l.id == t.kids[i].id
    requires Lo(t.keys, i, lo) < s < Hi(t.keys, i, hi)
    ensures InnerOk(PageOf(t))
    ensures InnerInsert(PageOf(t), s, r.id) == PageOf(Node(t.id, InsertAt(t.keys, i, s), InsertAt(t.kids[i := l], i + 1, r)))
  {
    hide *;
    SortedKeys(t, lo, hi, h, c);
    RankMid(t.keys, i, s, lo, hi);
    ParentInsert(t, i, s, l, r);
  }

  lemma RankMid(keys: seq<int>, i: nat, s: int, lo: int, hi: int)
    requires SegKeys(keys, lo, hi) && i <= |keys| && Lo(keys, i, lo) < s < Hi(keys, i, hi)
    ensures Rank(keys, s) == i
  {
    RankUnique(keys, s, i);
  }

  lemma ParentInsert(t: Tree, i: nat, s: int, l: Tree, r: Tree)
    requires t.Node? && i < |t.kids| && |t.kids| == |t.keys| + 1 && l.id == t.kids[i].id && Rank(t.keys, s) == i
    ensures InnerOk(PageOf(t))
    ensures InnerInsert(PageOf(t), s, r.id) == PageOf(Node(t.id, InsertAt(t.keys, i, s), InsertAt(t.kids[i := l], i + 1, r)))
  {
    hide Rank;
    assert KidIds(InsertAt(t.kids[i := l], i + 1, r)) == InsertAt(KidIds(t.kids), i + 1, r.id);
  }

  // ----- Borrows -----

  /** The pages of l and r, and the separator, after the last pair of l moved to r. */
  lemma BorrowLeftLeaf(l: Tree, s: int, r: Tree, lo: int, hi: int)
    requires l.Leaf? && r.Leaf? && KVOk(l.kv) && KVOk(r.kv) && InRange(l.kv.keys, lo, s) && InRange(r.kv.keys, s, hi)
    requires |l.kv.keys| >= 2 && r.kv.keys != []
    ensures CutAt(Merge(l, s, r), |l.kv.keys| - 1)
    ensures
      var last := |l.kv.keys| - 1;
      var (l', s', r') := Cut(Merge(l, s, r), last, r.id);
      && PageOf(r') == Outer(OuterInsert(r.kv, l.kv.keys[last], l.kv.vals[last]), r.next)
      && PageOf(l') == Outer(OuterDelete(l.kv, l.kv.keys[last]), r.id)
      && s' == OuterDelete(l.kv, l.kv.keys[last]).keys[last - 1] && |OuterDelete(l.kv, l.kv.keys[last]).keys| == last
  {
    var last := |l.kv.keys| - 1;
    RankUnique(r.kv.keys, l.kv.keys[last], 0);
    RankUnique(l.kv.keys, l.kv.keys[last], last);
    hide Rank, KVOk, InRange;
    var kv := Cat(l.kv, r.kv);
    assert kv.keys[..last] == l.kv.keys[..last] && kv.vals[..last] == l.kv.vals[..last];
    assert kv.keys[last..] == [l.kv.keys[last]] + r.kv.keys && kv.vals[last..] == [l.kv.vals[last]] + r.kv.vals;
  }

  lemma BorrowRightLeaf(l: Tree, s: int, r: Tree, lo: int, hi: int)
    requires l.Leaf? && r.Leaf? && KVOk(l.kv) && KVOk(r.kv) && InRange(l.kv.keys, lo, s) && InRange(r.kv.keys, s, hi)
    requires l.kv.keys != [] && |r.kv.keys| >= 2
    ensures CutAt(Merge(l, s, r), |l.kv.keys| + 1)
    ensures
      var (l', s', r') := Cut(Merge(l, s, r), |l.kv.keys| + 1, r.id);
      && PageOf(l') == Outer(OuterInsert(l.kv, r.kv.keys[0], r.kv.vals[0]), r.id) && s' == r.kv.keys[0]
      && PageOf(r') == Outer(OuterDelete(r.kv, r.kv.keys[0]), r.next)
  {
    AppendOuter(l.kv, r.kv.keys[0], r.kv.vals[0]);
    RankUnique(r.kv.keys, r.kv.keys[0], 0);
    var kv := Cat(l.kv, r.kv);
    var q := |l.kv.keys| + 1;
    assert kv.keys[..q] == l.kv.keys + [r.kv.keys[0]] && kv.vals[..q] == l.kv.vals + [r.kv.vals[0]];
    assert kv.keys[q..] == r.kv.keys[1..] && kv.vals[q..] == r.kv.vals[1..];
  }

  lemma BorrowLeftNode(l: Tree, s: int, r: Tree, lo: int)
    requires l.Node? && r.Node? && |l.kids| == |l.keys| + 1 && |r.kids| == |r.keys| + 1 && SegKeys(l.keys, lo, s) && l.keys != []
    ensures CutAt(Merge(l, s, r), |l.keys| - 1) && InnerOk(PageOf(l)) && InnerOk(PageOf(r))
    ensures
      var last := |l.keys| - 1;
      var (l', s', r') := Cut(Merge(l, s, r), last, r.id);
      && PageOf(r') == InnerInsertFirst(PageOf(r), s, l.kids[last + 1].id) && s' == l.keys[last]
      && PageOf(l') == InnerDelete(PageOf(l), l.keys[last])
  {
    var last := |l.keys| - 1;
    var keys, kids := l.keys + [s] + r.keys, l.kids + r.kids;
    RankUnique(l.keys, l.keys[last], last);
    hide Rank, SegKeys;
    assert keys[..last] == l.keys[..last] && keys[last + 1..] == [s] + r.keys;
    assert KidIds(kids[..last + 1]) == RemoveAt(KidIds(l.kids), last + 1);
    assert KidIds(kids[last + 1..]) == [l.kids[last + 1].id] + KidIds(r.kids);
  }

  lemma BorrowRightNode(l: Tree, s: int, r: Tree, lo: int)
    requires l.Node? && r.Node? && |l.kids| == |l.keys| + 1 && |r.kids| == |r.keys| + 1 && SegKeys(l.keys, lo, s) && r.keys != []
    ensures CutAt(Merge(l, s, r), |l.keys| + 1) && InnerOk(PageOf(l)) && InnerOk(PageOf(r))
    ensures
      var (l', s', r') := Cut(Merge(l, s, r), |l.keys| + 1, r.id);
      && PageOf(l') == InnerInsert(PageOf(l), s, r.kids[0].id) && s' == r.keys[0]
      && PageOf(r') == InnerDeleteFirst(PageOf(r))
  {
    var q := |l.keys| + 1;
    var keys, kids := l.keys + [s] + r.keys, l.kids + r.kids;
    AppendInner(PageOf(l), s, r.kids[0].id);
    assert keys[..q] == l.keys + [s] && keys[q + 1..] == r.keys[1..];
    assert KidIds(kids[..q + 1]) == KidIds(l.kids) + [r.kids[0].id];
    assert KidIds(kids[q + 1..]) == KidIds(r.kids)[1..];
  }

  /** The parent's page after separator j and the kids beside it were rewritten. */
  lemma BorrowParent(t: Tree, j: nat, s: int, l: Tree, r: Tree)
    requires t.Node? && |t.kids| == |t.keys| + 1 && j < |t.keys| && l.id == t.kids[j].id && r.id == t.kids[j + 1].id
    ensures PageOf(Node(t.id, t.keys[j := s], t.kids[j := l][j + 1 := r])) == Inner(t.keys[j := s], KidIds(t.kids))
  {
    assert KidIds(t.kids[j := l][j + 1 := r]) == KidIds(t.kids);
  }

  // ----- Merges -----

  lemma MergeParent(t: Tree, j: nat, b: Tree, lo: int, hi: int, h: nat, c: Cfg)
    requires t.Node? && OK(t, lo, hi, h, c) && |t.kids| == |t.keys| + 1 && j < |t.keys| && b.id == t.kids[j].id
    ensures InnerOk(PageOf(t))
    ensures PageOf(Node(t.id, RemoveAt(t.keys, j), RemoveAt(t.kids[j := b], j + 1))) == InnerDelete(PageOf(t), t.keys[j])
  {
    hide *;
    SortedKeys(t, lo, hi, h, c);
    RankOwn(t.keys, j, lo, hi);
    ParentDelete(t, j, b);
  }

  lemma RankOwn(keys: seq<int>, j: nat, lo: int, hi: int)
    requires SegKeys(keys, lo, hi) && j < |keys|
    ensures Rank(keys, keys[j]) == j && Contains(keys, keys[j])
  {
    RankUnique(keys, keys[j], j);
  }

  lemma ParentDelete(t: Tree, j: nat, b: Tree)
    requires t.Node? && |t.kids| == |t.keys| + 1 && j < |t.keys| && b.id == t.kids[j].id && Rank(t.keys, t.keys[j]) == j
    ensures InnerOk(PageOf(t))
    ensures PageOf(Node(t.id, RemoveAt(t.keys, j), RemoveAt(t.kids[j := b], j + 1))) == InnerDelete(PageOf(t), t.keys[j])
  {
    hide Rank;
    assert KidIds(RemoveAt(t.kids[j := b], j + 1)) == RemoveAt(KidIds(t.kids), j + 1);
  }

  lemma MergedNode(l: Tree, s: int, r: Tree, lo: int)
    requires l.Node? && r.Node? && |l.kids| == |l.keys| + 1 && |r.kids| == |r.keys| + 1 && SegKeys(l.keys, lo, s)
    ensures InnerOk(PageOf(l)) && InnerOk(PageOf(r)) && InnerOk(InnerInsert(PageOf(l), s, r.kids[0].id))
    ensures InnerInsert(PageOf(l), s, r.kids[0].id).keys == l.keys + [s]
    ensures
      var p := InnerInsert(PageOf(l), s, r.kids[0].id);
      PageOf(Merge(l, s, r)) == Inner(p.keys + r.keys, p.children + KidIds(r.kids)[1..])
  {
    AppendInner(PageOf(l), s, r.kids[0].id);
    hide InnerInsert, SegKeys;
    assert KidIds(l.kids + r.kids) == KidIds(l.kids) + KidIds(r.kids);
    assert KidIds(r.kids) == [r.kids[0].id] + KidIds(r.kids)[1..];
    assert l.keys + [s] + r.keys == l.keys + ([s] + r.keys);
  }

  lemma MergedLeaf(l: Tree, s: int, r: Tree)
    requires l.Leaf? && r.Leaf?
    ensures PageOf(Merge(l, s, r)) == Outer(KV(l.kv.keys + r.kv.keys, l.kv.vals + r.kv.vals), r.next)
  {
  }
}
