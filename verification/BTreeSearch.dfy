/**
 * Descents that keep the shape of the tree: lookup and update by binary search
 * at every level agree with the one sorted page the tree stands for.
 */
module BTreeSearch {
  import opened Common
  import opened Pages
  import opened BTreeModel

  /** The value recursive_get_value returns. */
  function Search(t: Tree, k: int, h: nat): Value
    requires Shaped(t, h)
    decreases h
  {
    match t
    case Leaf(_, kv, _) => OuterGet(kv, k)
    case Node(_, keys, kids) => Search(kids[Rank(keys, k)], k, h - 1)
  }

  /** Whether the leaf that binary search leads to contains k. */
  predicate Finds(t: Tree, k: int, h: nat)
    requires Shaped(t, h)
    decreases h
  {
    match t
    case Leaf(_, kv, _) => Contains(kv.keys, k)
    case Node(_, keys, kids) => Finds(kids[Rank(keys, k)], k, h - 1)
  }

  /** Equal leaf depth and matching lengths: what a descent relies on. */
  predicate Shaped(t: Tree, h: nat)
    decreases h
  {
    match t
    case Leaf(_, kv, _) => h == 0 && |kv.keys| == |kv.vals|
    case Node(_, keys, kids) => h > 0 && |kids| == |keys| + 1 && forall i :: 0 <= i < |kids| ==> Shaped(kids[i], h - 1)
  }

  lemma {:induction false} OKShaped(t: Tree, lo: int, hi: int, h: nat, c: Cfg)
    requires OK(t, lo, hi, h, c)
    ensures Shaped(t, h)
    decreases h
  {
    hide *;
    InnerSeg(t, lo, hi, h, c);
    if t.Leaf? {
      ShapedLeaf(t, lo, hi, h, c);
    } else {
      forall i | 0 <= i < |t.kids| ensures Shaped(t.kids[i], h - 1) {
        KidAt(t, i, lo, hi, h, c);
        OKShaped(t.kids[i], Lo(t.keys, i, lo), Hi(t.keys, i, hi), h - 1, c);
      }
      ShapedNode(t, h);
    }
  }

  lemma ShapedLeaf(t: Tree, lo: int, hi: int, h: nat, c: Cfg)
    requires t.Leaf? && OK(t, lo, hi, h, c)
    ensures Shaped(t, h)
  {
  }

  lemma ShapedNode(t: Tree, h: nat)
    requires t.Node? && h > 0 && |t.kids| == |t.keys| + 1
    requires forall i :: 0 <= i < |t.kids| ==> Shaped(t.kids[i], h - 1)
    ensures Shaped(t, h)
  {
  }

  lemma FindsKid(t: Tree, k: int, h: nat)
    requires Shaped(t, h) && t.Node?
    ensures h > 0 && |t.kids| == |t.keys| + 1 && Shaped(t.kids[Rank(t.keys, k)], h - 1)
    ensures Finds(t, k, h) == Finds(t.kids[Rank(t.keys, k)], k, h - 1)
    ensures Search(t, k, h) == Search(t.kids[Rank(t.keys, k)], k, h - 1)
  {
  }

  /** In an OK tree binary search finds exactly the stored keys, with their values. */
  lemma {:induction false} SearchFlat(t: Tree, k: int, lo: int, hi: int, h: nat, c: Cfg)
    requires OK(t, lo, hi, h, c) && c.n >= 4 && lo < k <= hi
    ensures Shaped(t, h) && KVOk(Flat(t))
    ensures Finds(t, k, h) <==> Contains(Flat(t).keys, k)
    ensures Search(t, k, h) == OuterGet(Flat(t), k)
    decreases h
  {
    hide *;
    OKShaped(t, lo, hi, h, c);
    FlatOK(t, lo, hi, h, c);
    if t.Leaf? {
      SearchLeaf(t, k, h);
    } else {
      var i := Rank(t.keys, k);
      InnerSeg(t, lo, hi, h, c);
      RouteRank(t, k, lo, hi, h, c);
      RoutedFacts(t, i, k, lo, hi);
      KidAt(t, i, lo, hi, h, c);
      FindsKid(t, k, h);
      SearchFlat(t.kids[i], k, Lo(t.keys, i, lo), Hi(t.keys, i, hi), h - 1, c);
      RouteParts(t, i, k, lo, hi, h, c);
      GetMid(FlatSeg(t.kids[..i]), Flat(t.kids[i]), FlatSeg(t.kids[i + 1..]), k);
    }
  }

  lemma SearchLeaf(t: Tree, k: int, h: nat)
    requires Shaped(t, h) && t.Leaf?
    ensures KVOk(Flat(t)) ==> Search(t, k, h) == OuterGet(Flat(t), k)
    ensures Finds(t, k, h) <==> Contains(Flat(t).keys, k)
  {
  }
}
