/**
 * Insertion along a path without full nodes is the insertion into one leaf: no
 * other page changes. A full leaf root is split once before that. Deletion on a
 * cached leaf is the deletion from one leaf as well.
 */
module BTreeEnter {
  import opened Common
  import opened Pages
  import opened BTreeModel
  import opened BTreeInsert
  import opened BTreeDelete
  import opened BTreeMoves
  import opened BTreeLeaves

  /** No node on the way to k, apart from the root of t, is full. */
  ghost predicate Roomy(t: Tree, k: int, n: nat)
    decreases t
  {
    t.Node? ==> Rank(t.keys, k) < |t.kids| && !Full(t.kids[Rank(t.keys, k)], n) && Roomy(t.kids[Rank(t.keys, k)], k, n)
  }

  /** t with k inserted into the leaf it leads to. */
  ghost function Entered(t: Tree, k: int, v: Value): Tree
    requires LeafOf(t, k).Leaf? && |LeafOf(t, k).kv.keys| == |LeafOf(t, k).kv.vals|
  {
    SetKV(t, k, OuterInsert(LeafOf(t, k).kv, k, v))
  }

  ghost predicate Enters(t: Tree, t': Tree, k: int, v: Value) {
    LeafOf(t, k).Leaf? && |LeafOf(t, k).kv.keys| == |LeafOf(t, k).kv.vals| && t' == Entered(t, k, v)
  }

  /** The full leaf root t was split, and k inserted below the new root. */
  ghost predicate RootEnters(t: Tree, t': Tree, k: int, v: Value, n: nat) {
    n >= 4 && CutAt(t, KeepCount(t, n)) && t'.Node? && |t'.kids| == 2 && Enters(SplitRoot(t, t'.kids[1].id, t'.id, n), t', k, v)
  }

  lemma EntersLeaf(t: Tree, k: int, v: Value)
    requires t.Leaf? && |t.kv.keys| == |t.kv.vals|
    ensures Enters(t, Leaf(t.id, OuterInsert(t.kv, k, v), t.next), k, v)
  {
  }

  lemma EntersKid(t: Tree, i: nat, kid: Tree, k: int, v: Value, lo: int, hi: int, h: nat, c: Cfg)
    requires t.Node? && i < |t.kids| && Routed(t, i, k, lo, hi) && OK(t, lo, hi, h, c) && Enters(t.kids[i], kid, k, v)
    ensures Enters(t, Node(t.id, t.keys, t.kids[i := kid]), k, v)
  {
    hide OK, Routed;
    SortedKeys(t, lo, hi, h, c);
    SegKeysSorted(t.keys, lo, hi);
    RankRoute(t, i, k, lo, hi);
  }

  lemma LeafRouted(t: Tree, i: nat, k: int, lo: int, hi: int, h: nat, c: Cfg)
    requires t.Node? && i < |t.kids| && Routed(t, i, k, lo, hi) && OK(t, lo, hi, h, c)
    ensures LeafOf(t, k) == LeafOf(t.kids[i], k)
  {
    hide OK, Routed;
    SortedKeys(t, lo, hi, h, c);
    SegKeysSorted(t.keys, lo, hi);
    RankRoute(t, i, k, lo, hi);
  }

  lemma RoomyKid(t: Tree, k: int, n: nat)
    requires t.Node? && Roomy(t, k, n)
    ensures Rank(t.keys, k) < |t.kids| && !Full(t.kids[Rank(t.keys, k)], n) && Roomy(t.kids[Rank(t.keys, k)], k, n)
  {
  }

  /** After its split a leaf root offers a path with room. */
  lemma SplitRoomy(t: Tree, rid: nat, id: nat, k: int, lo: int, hi: int, h: nat, c: Cfg)
    requires t.Leaf? && OK(t, lo, hi, h, c) && Full(t, c.n) && c.n >= 4 && CutAt(t, KeepCount(t, c.n))
    ensures Roomy(SplitRoot(t, rid, id, c.n), k, c.n)
  {
    SplitRoom(t, rid, lo, hi, h, c);
  }

  lemma RootEntersIntro(t: Tree, rid: nat, id: nat, t': Tree, k: int, v: Value, n: nat)
    requires t.Leaf? && n >= 4 && CutAt(t, KeepCount(t, n)) && Enters(SplitRoot(t, rid, id, n), t', k, v)
    ensures RootEnters(t, t', k, v, n)
  {
    var t1 := SplitRoot(t, rid, id, n);
    assert t1.kids[0].Leaf? && t1.kids[1].Leaf?;
    assert t' == SetKV(t1, k, OuterInsert(LeafOf(t1, k).kv, k, v));
  }

  // ----- Insertion along any path -----

  /** t' is t with its full kid i split, whatever page the upper half got. */
  ghost predicate Splits(t: Tree, t': Tree, i: nat, n: nat) {
    && t.Node? && |t.kids| == |t.keys| + 1 && i < |t.kids| && n >= 4 && CutAt(t.kids[i], KeepCount(t.kids[i], n))
    && t'.Node? && |t'.kids| == |t.kids| + 1 && t' == SplitKid(t, i, t'.kids[i + 1].id, n)
  }

  /**
   * t' is t, which is not full, after the insertion of (k, v): every full node on the
   * way, and no other one, is split once, and the leaf the way then ends at gets the pair.
   */
  ghost predicate Grew(t: Tree, t': Tree, k: int, v: Value, n: nat)
    decreases t'
  {
    match t'
    case Leaf(_, _, _) => t.Leaf? && |t.kv.keys| == |t.kv.vals| && t' == Leaf(t.id, OuterInsert(t.kv, k, v), t.next)
    case Node(_, _, kids) =>
      && t.Node? && |t.kids| == |t.keys| + 1
      && var i := Rank(t.keys, k);
      if !Full(t.kids[i], n) then
        i < |kids| && t' == Node(t.id, t.keys, t.kids[i := kids[i]]) && Grew(t.kids[i], kids[i], k, v, n)
      else
        && n >= 4 && CutAt(t.kids[i], KeepCount(t.kids[i], n)) && i + 1 < |kids|
        && var t1 := SplitKid(t, i, kids[i + 1].id, n);
        && t1.Node? && var j := Rank(t1.keys, k);
        && j < |t1.kids| && j < |kids| && t' == Node(t1.id, t1.keys, t1.kids[j := kids[j]]) && Grew(t1.kids[j], kids[j], k, v, n)
  }

  /** The same for the root, which is split below a new root if it is full. */
  ghost predicate GrewRoot(t: Tree, t': Tree, k: int, v: Value, n: nat) {
    if !Full(t, n) then Grew(t, t', k, v, n)
    else
      && n >= 4 && CutAt(t, KeepCount(t, n)) && t'.Node? && |t'.kids| == 2
      && Grew(SplitRoot(t, t'.kids[1].id, t'.id, n), t', k, v, n)
  }

  lemma GrewLeaf(t: Tree, k: int, v: Value, n: nat)
    requires t.Leaf? && |t.kv.keys| == |t.kv.vals|
    ensures Grew(t, Leaf(t.id, OuterInsert(t.kv, k, v), t.next), k, v, n)
  {
  }

  /** t' is t with the pair inserted into its kid i. */
  ghost predicate GrewAt(t: Tree, t': Tree, i: nat, k: int, v: Value, n: nat) {
    && t.Node? && i < |t.kids| && t'.Node? && i < |t'.kids| && t' == Node(t.id, t.keys, t.kids[i := t'.kids[i]])
    && t'.kids[i].id == t.kids[i].id && Grew(t.kids[i], t'.kids[i], k, v, n)
  }

  lemma GrewAtIntro(t: Tree, i: nat, kid: Tree, k: int, v: Value, n: nat)
    requires t.Node? && i < |t.kids| && kid.id == t.kids[i].id && Grew(t.kids[i], kid, k, v, n)
    ensures GrewAt(t, Node(t.id, t.keys, t.kids[i := kid]), i, k, v, n)
  {
  }

  lemma GrewKid(t: Tree, t': Tree, k: int, v: Value, n: nat)
    requires t.Node? && |t.kids| == |t.keys| + 1 && !Full(t.kids[Rank(t.keys, k)], n) && GrewAt(t, t', Rank(t.keys, k), k, v, n)
    ensures Grew(t, t', k, v, n)
  {
    hide Full, Rank;
  }

  lemma GrewSplit(t: Tree, t1: Tree, t': Tree, k: int, v: Value, n: nat)
    requires t.Node? && |t.kids| == |t.keys| + 1 && Full(t.kids[Rank(t.keys, k)], n) && Splits(t, t1, Rank(t.keys, k), n)
    requires GrewAt(t1, t', Rank(t1.keys, k), k, v, n)
    ensures Grew(t, t', k, v, n)
  {
    hide Full, Rank, SplitKid, CutAt, KeepCount;
    assert t'.kids[Rank(t.keys, k) + 1].id == t1.kids[Rank(t.keys, k) + 1].id;
  }

  lemma GrewBelow(t: Tree, rid: nat, id: nat, t': Tree, k: int, v: Value, n: nat)
    requires n >= 4 && CutAt(t, KeepCount(t, n)) && Full(t, n) && Grew(SplitRoot(t, rid, id, n), t', k, v, n)
    requires var (l, s, r) := Cut(t, KeepCount(t, n), rid); !Full(l, n) && !Full(r, n)
    ensures GrewRoot(t, t', k, v, n)
  {
    hide Full, CutAt, KeepCount, Cut;
    var (l, s, r) := Cut(t, KeepCount(t, n), rid);
    CutId(t, KeepCount(t, n), rid);
    var t1 := SplitRoot(t, rid, id, n);
    assert t1 == Node(id, [s], [l, r]);
    var i := Rank(t1.keys, k);
    assert t' == Node(id, [s], [l, r][i := t'.kids[i]]);
    GrewId(t1.kids[i], t'.kids[i], k, v, n);
    assert t'.kids[1].id == rid;
  }

  lemma GrewRootIs(t: Tree, t': Tree, k: int, v: Value, n: nat)
    requires !Full(t, n)
    ensures GrewRoot(t, t', k, v, n) <==> Grew(t, t', k, v, n)
  {
  }

  lemma CutId(t: Tree, q: nat, rid: nat)
    requires CutAt(t, q)
    ensures var (l, s, r) := Cut(t, q, rid); l.id == t.id && r.id == rid
  {
  }

  lemma GrewId(t: Tree, t': Tree, k: int, v: Value, n: nat)
    requires Grew(t, t', k, v, n)
    ensures t'.id == t.id
  {
    hide Full, Rank, CutAt, KeepCount, Cut;
    if t'.Node? && Full(t.kids[Rank(t.keys, k)], n) {
      SplitId(t, Rank(t.keys, k), t'.kids[Rank(t.keys, k) + 1].id, n);
    }
  }

  lemma SplitId(t: Tree, i: nat, rid: nat, n: nat)
    requires t.Node? && |t.kids| == |t.keys| + 1 && i < |t.kids| && n >= 4 && CutAt(t.kids[i], KeepCount(t.kids[i], n))
    ensures SplitKid(t, i, rid, n).id == t.id
  {
  }

  lemma SplitsIntro(t: Tree, i: nat, rid: nat, n: nat)
    requires t.Node? && |t.kids| == |t.keys| + 1 && i < |t.kids| && n >= 4 && CutAt(t.kids[i], KeepCount(t.kids[i], n))
    ensures Splits(t, SplitKid(t, i, rid, n), i, n)
  {
    hide CutAt, KeepCount, Cut;
    CutId(t.kids[i], KeepCount(t.kids[i], n), rid);
    SplitKidShape(t, i, rid, n);
  }

  /** t' is t with k deleted from the leaf it leads to. */
  ghost predicate Dropped(t: Tree, t': Tree, k: int) {
    LeafOf(t, k).Leaf? && |LeafOf(t, k).kv.keys| == |LeafOf(t, k).kv.vals| && t' == SetKV(t, k, OuterDelete(LeafOf(t, k).kv, k))
  }

  lemma DroppedIntro(t: Tree, k: int)
    requires LeafOf(t, k).Leaf? && |LeafOf(t, k).kv.keys| == |LeafOf(t, k).kv.vals|
    ensures Dropped(t, SetKV(t, k, OuterDelete(LeafOf(t, k).kv, k)), k)
  {
  }
}
