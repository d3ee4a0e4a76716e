/**
 * Insertion into a B+ tree: the pre-emptive splits of recursive_insert and the
 * effect of an insertion below on every node above.
 */
module BTreeInsert {
  import opened Common
  import opened Pages
  import opened BTreeModel
  import opened BTreeSearch

  /** The index a full node of the given capacity is split at. */
  function SplitIndex(maxSize: nat): nat {
    if maxSize % 2 == 0 then maxSize / 2 else maxSize / 2 + 1
  }

  /** How many keys the left half keeps; an inner node gives up the middle key. */
  function KeepCount(t: Tree, n: nat): nat
    requires n >= 4
  {
    if t.Leaf? then SplitIndex(n) else SplitIndex(n - 1) - 1
  }

  lemma SplitFits(t: Tree, lo: int, hi: int, h: nat, c: Cfg)
    requires OK(t, lo, hi, h, c) && Full(t, c.n) && c.n >= 4
    ensures CutAt(t, KeepCount(t, c.n)) && CutFits(t, KeepCount(t, c.n), c.n)
  {
    SizesOf(t, lo, hi, h, c);
    InnerSeg(t, lo, hi, h, c);
    CutAtBody(t, KeepCount(t, c.n), lo, hi, h, c);
  }

  /** Both halves of a split have room. */
  lemma SplitRoom(t: Tree, rid: nat, lo: int, hi: int, h: nat, c: Cfg)
    requires OK(t, lo, hi, h, c) && Full(t, c.n) && c.n >= 4 && CutAt(t, KeepCount(t, c.n))
    ensures var (l, s, r) := Cut(t, KeepCount(t, c.n), rid); !Full(l, c.n) && !Full(r, c.n)
  {
    SizesOf(t, lo, hi, h, c);
  }

  ghost function SplitKid(t: Tree, i: nat, rid: nat, n: nat): Tree
    requires t.Node? && |t.kids| == |t.keys| + 1 && i < |t.kids| && n >= 4 && CutAt(t.kids[i], KeepCount(t.kids[i], n))
  {
    var (l, s, r) := Cut(t.kids[i], KeepCount(t.kids[i], n), rid);
    Splicing(t, i, i, [s], [l, r])
  }

  lemma SplitKidOK(t: Tree, i: nat, rid: nat, lo: int, hi: int, h: nat, c: Cfg)
    requires t.Node? && OK(t, lo, hi, h, c) && |t.kids| == |t.keys| + 1 && i < |t.kids| && h > 0 && lo < hi && c.n >= 4
    requires Full(t.kids[i], c.n) && !Full(t, c.n) && CutAt(t.kids[i], KeepCount(t.kids[i], c.n))
    ensures OK(SplitKid(t, i, rid, c.n), lo, hi, h, c) && Same(t, SplitKid(t, i, rid, c.n))
  {
    var kid := t.kids[i];
    var q := KeepCount(kid, c.n);
    var (l, s, r) := Cut(kid, q, rid);
    var l0, h0 := Lo(t.keys, i, lo), Hi(t.keys, i, hi);
    hide *;
    SplitKidIs(t, i, rid, c.n);
    KidAt(t, i, lo, hi, h, c);
    SplitFits(kid, l0, h0, h - 1, c);
    OKBody(kid, l0, h0, h - 1, c);
    CutOK(kid, q, rid, l0, h0, h - 1, c);
    CutFlat(kid, q, rid);
    CutEnds(kid, q, rid, c);
    assert t.kids[i..i + 1] == [kid];
    FlatOne(kid);
    SpliceNode(t, i, i, [s], [l, r], lo, hi, h, c);
    SplitSize(t, i, s, l, r, lo, hi, h, c);
  }

  lemma SplitKidIs(t: Tree, i: nat, rid: nat, n: nat)
    requires t.Node? && |t.kids| == |t.keys| + 1 && i < |t.kids| && n >= 4 && CutAt(t.kids[i], KeepCount(t.kids[i], n))
    ensures var (l, s, r) := Cut(t.kids[i], KeepCount(t.kids[i], n), rid); SplitKid(t, i, rid, n) == Splicing(t, i, i, [s], [l, r])
  {
  }

  lemma OKBody(t: Tree, lo: int, hi: int, h: nat, c: Cfg)
    requires OK(t, lo, hi, h, c)
    ensures Body(t, lo, hi, h, c)
  {
  }

  lemma SplitSize(t: Tree, i: nat, s: int, l: Tree, r: Tree, lo: int, hi: int, h: nat, c: Cfg)
    requires t.Node? && |t.kids| == |t.keys| + 1 && i < |t.kids| && !Full(t, c.n)
    ensures Body(Splicing(t, i, i, [s], [l, r]), lo, hi, h, c) ==> OK(Splicing(t, i, i, [s], [l, r]), lo, hi, h, c)
    ensures Size(Splicing(t, i, i, [s], [l, r])) == Size(t) + 1
  {
  }

  /** The split node as the page operations produce it. */
  lemma SplitKidShape(t: Tree, i: nat, rid: nat, n: nat)
    requires t.Node? && |t.kids| == |t.keys| + 1 && i < |t.kids| && n >= 4 && CutAt(t.kids[i], KeepCount(t.kids[i], n))
    ensures
      var (l, s, r) := Cut(t.kids[i], KeepCount(t.kids[i], n), rid);
      SplitKid(t, i, rid, n) == Node(t.id, InsertAt(t.keys, i, s), InsertAt(t.kids[i := l], i + 1, r))
  {
    var (l, s, r) := Cut(t.kids[i], KeepCount(t.kids[i], n), rid);
    hide Cut, CutAt, KeepCount;
    assert t.kids[..i] + [l, r] + t.kids[i + 1..] == InsertAt(t.kids[i := l], i + 1, r);
  }

  ghost function SplitRoot(t: Tree, rid: nat, id: nat, n: nat): Tree
    requires n >= 4 && CutAt(t, KeepCount(t, n))
  {
    var (l, s, r) := Cut(t, KeepCount(t, n), rid);
    Node(id, [s], [l, r])
  }

  lemma SplitRootOK(t: Tree, rid: nat, id: nat, lo: int, hi: int, h: nat, c: Cfg)
    requires OK(t, lo, hi, h, c) && Full(t, c.n) && c.n >= 4 && CutAt(t, KeepCount(t, c.n))
    ensures OK(SplitRoot(t, rid, id, c.n), lo, hi, h + 1, c) && !Full(SplitRoot(t, rid, id, c.n), c.n)
    ensures Flat(SplitRoot(t, rid, id, c.n)) == Flat(t)
    ensures FirstLeaf(SplitRoot(t, rid, id, c.n)) == FirstLeaf(t) && LastNext(SplitRoot(t, rid, id, c.n)) == LastNext(t)
  {
    var q := KeepCount(t, c.n);
    var (l, s, r) := Cut(t, q, rid);
    var t' := SplitRoot(t, rid, id, c.n);
    assert t' == Node(id, [s], [l, r]) && !Full(t', c.n);
    assert Flat(t') == FlatSeg([l, r]);
    CutEnds(t, q, rid, c);
    assert FirstLeaf(t') == FirstLeaf(l) && LastNext(t') == LastNext(r);
    assert FirstLeaf(l) == FirstLeaf(t) && LastNext(r) == LastNext(t);
    hide *;
    SplitFits(t, lo, hi, h, c);
    OKBody(t, lo, hi, h, c);
    CutOK(t, q, rid, lo, hi, h, c);
    CutFlat(t, q, rid);
    NodeOK(id, [s], [l, r], lo, hi, h + 1, c);
  }

  // ----- The effect of one insertion on the nodes above it -----

  /** t' holds the pairs of t and (k, v), between the same outer links. */
  ghost predicate InsSame(t: Tree, t': Tree, k: int, v: Value) {
    && KVOk(Flat(t)) && Flat(t') == OuterInsert(Flat(t), k, v)
    && FirstLeaf(t') == FirstLeaf(t) && LastNext(t') == LastNext(t)
  }

  lemma InsSameFacts(t: Tree, t': Tree, k: int, v: Value)
    requires InsSame(t, t', k, v)
    ensures KVOk(Flat(t)) && Flat(t') == OuterInsert(Flat(t), k, v)
    ensures FirstLeaf(t') == FirstLeaf(t) && LastNext(t') == LastNext(t)
  {
  }

  lemma InsertLeafOK(t: Tree, k: int, v: Value, lo: int, hi: int, h: nat, c: Cfg)
    requires t.Leaf? && OK(t, lo, hi, h, c) && !Full(t, c.n) && lo < k <= hi
    ensures KVOk(t.kv)
    ensures k !in Flat(t).keys ==> OK(Leaf(t.id, OuterInsert(t.kv, k, v), t.next), lo, hi, h, c)
    ensures Size(Leaf(t.id, OuterInsert(t.kv, k, v), t.next)) == Size(t) + 1
  {
    if k !in Flat(t).keys {
      ToMapInsert(t.kv, k, v);
      InsertRange(t.kv, k, v, lo, hi);
    }
  }

  lemma InsertLeafFlat(t: Tree, k: int, v: Value)
    requires t.Leaf? && KVOk(t.kv)
    ensures InsSame(t, Leaf(t.id, OuterInsert(t.kv, k, v), t.next), k, v)
  {
  }

  lemma InsertRange(kv: KV, k: int, v: Value, lo: int, hi: int)
    requires |kv.keys| == |kv.vals| && InRange(kv.keys, lo, hi) && lo < k <= hi
    ensures InRange(OuterInsert(kv, k, v).keys, lo, hi)
  {
  }

  lemma LastInsert(kv: KV, k: int, v: Value)
    requires KVOk(kv) && kv.keys != [] && k < Last(kv.keys)
    ensures Last(OuterInsert(kv, k, v).keys) == Last(kv.keys)
  {
  }

  /** An inserted key does not change an exact separator to its right: that separator is a larger stored key. */
  lemma InsertBelowSeparator(t: Tree, i: nat, k: int, lo: int, hi: int, h: nat, c: Cfg)
    requires t.Node? && OK(t, lo, hi, h, c) && c.n >= 4 && Routed(t, i, k, lo, hi) && c.exact && i < |t.keys|
    requires KVOk(Flat(t.kids[i])) && k !in Flat(t.kids[i]).keys
    ensures Flat(t.kids[i]).keys != [] && k < Last(Flat(t.kids[i]).keys) == MaxKey(t.kids[i])
  {
    hide *;
    RoutedFacts(t, i, k, lo, hi);
    PairAt(t, i, lo, hi, h, c);
    FlatOK(t.kids[i], Lo(t.keys, i, lo), t.keys[i], h - 1, c);
    ExactFacts(t.keys[i], t.kids[i], c);
    LastIs(Flat(t.kids[i]).keys);
  }

  lemma LastIs(keys: seq<int>)
    requires keys != []
    ensures Last(keys) in keys
  {
  }

  lemma RoutedKid(t: Tree, i: nat, k: int, lo: int, hi: int, h: nat, c: Cfg)
    requires t.Node? && OK(t, lo, hi, h, c) && c.n >= 4 && Routed(t, i, k, lo, hi)
    ensures i < |t.kids| && KVOk(Flat(t)) && KVOk(Flat(t.kids[i]))
    ensures k in Flat(t).keys <==> k in Flat(t.kids[i]).keys
  {
    hide *;
    RoutedFacts(t, i, k, lo, hi);
    FlatOK(t, lo, hi, h, c);
    KidAt(t, i, lo, hi, h, c);
    FlatOK(t.kids[i], Lo(t.keys, i, lo), Hi(t.keys, i, hi), h - 1, c);
    RouteParts(t, i, k, lo, hi, h, c);
    GetMid(FlatSeg(t.kids[..i]), Flat(t.kids[i]), FlatSeg(t.kids[i + 1..]), k);
    KVOkSorted(Flat(t));
    KVOkSorted(Flat(t.kids[i]));
    ContainsIn(Flat(t).keys, k);
    ContainsIn(Flat(t.kids[i]).keys, k);
  }

  lemma KVOkSorted(kv: KV)
    requires KVOk(kv)
    ensures Sorted(kv.keys) && |kv.keys| == |kv.vals|
  {
  }

  /** An insertion into kid i is an insertion into t. */
  lemma InsertKidOK(t: Tree, i: nat, kid: Tree, k: int, v: Value, lo: int, hi: int, h: nat, c: Cfg)
    requires t.Node? && OK(t, lo, hi, h, c) && c.n >= 4 && Routed(t, i, k, lo, hi) && h > 0
    requires i < |t.kids| && MinFill(kid, c.n) && InsSame(t.kids[i], kid, k, v)
    requires k !in Flat(t.kids[i]).keys ==> OK(kid, Lo(t.keys, i, lo), Hi(t.keys, i, hi), h - 1, c)
    ensures k !in Flat(t).keys ==> OK(Node(t.id, t.keys, t.kids[i := kid]), lo, hi, h, c)
    ensures InsSame(t, Node(t.id, t.keys, t.kids[i := kid]), k, v)
  {
    hide *;
    RoutedFacts(t, i, k, lo, hi);
    RoutedKid(t, i, k, lo, hi, h, c);
    if k !in Flat(t).keys {
      InsertKidFits(t, i, kid, k, v, lo, hi, h, c);
    }
    InsertKidFlat(t, i, kid, k, v, lo, hi, h, c);
  }

  lemma InsertKidFits(t: Tree, i: nat, kid: Tree, k: int, v: Value, lo: int, hi: int, h: nat, c: Cfg)
    requires t.Node? && OK(t, lo, hi, h, c) && c.n >= 4 && Routed(t, i, k, lo, hi) && h > 0
    requires i < |t.kids| && OK(kid, Lo(t.keys, i, lo), Hi(t.keys, i, hi), h - 1, c) && MinFill(kid, c.n)
    requires InsSame(t.kids[i], kid, k, v) && k !in Flat(t.kids[i]).keys
    ensures OK(Node(t.id, t.keys, t.kids[i := kid]), lo, hi, h, c)
  {
    hide *;
    RoutedFacts(t, i, k, lo, hi);
    var l0, h0, before := Lo(t.keys, i, lo), Hi(t.keys, i, hi), t.kids[i];
    InsSameFacts(before, kid, k, v);
    InnerSeg(t, lo, hi, h, c);
    if c.exact && i < |t.keys| {
      InsertBelowSeparator(t, i, k, lo, hi, h, c);
      LastInsert(Flat(before), k, v);
      FlatOK(kid, l0, h0, h - 1, c);
    }
    Replace(t.keys, t.kids, i, kid, lo, hi, h - 1, c);
    NodeOK(t.id, t.keys, t.kids[i := kid], lo, hi, h, c);
  }

  lemma InsertKidFlat(t: Tree, i: nat, kid: Tree, k: int, v: Value, lo: int, hi: int, h: nat, c: Cfg)
    requires t.Node? && OK(t, lo, hi, h, c) && c.n >= 4 && Routed(t, i, k, lo, hi) && i < |t.kids|
    requires InsSame(t.kids[i], kid, k, v)
    ensures InsSame(t, Node(t.id, t.keys, t.kids[i := kid]), k, v)
  {
    hide *;
    var a, b := FlatSeg(t.kids[..i]), FlatSeg(t.kids[i + 1..]);
    var t' := Node(t.id, t.keys, t.kids[i := kid]);
    InsSameFacts(t.kids[i], kid, k, v);
    RoutedKid(t, i, k, lo, hi, h, c);
    RouteParts(t, i, k, lo, hi, h, c);
    KVOkSorted(Flat(t));
    KVOkSorted(Flat(t.kids[i]));
    InsertMid(a, Flat(t.kids[i]), b, k, v);
    FlatReplace(t, t.keys, i, kid);
    KidEnds(t, i, t.keys, kid);
    InsSameIntro(t, t', k, v);
  }

  lemma KidEnds(t: Tree, i: nat, keys: seq<int>, kid: Tree)
    requires t.Node? && i < |t.kids|
    ensures FirstLeaf(kid) == FirstLeaf(t.kids[i]) ==> FirstLeaf(Node(t.id, keys, t.kids[i := kid])) == FirstLeaf(t)
    ensures LastNext(kid) == LastNext(t.kids[i]) ==> LastNext(Node(t.id, keys, t.kids[i := kid])) == LastNext(t)
  {
  }

  lemma InsSameIntro(t: Tree, t': Tree, k: int, v: Value)
    requires KVOk(Flat(t)) && |Flat(t).keys| == |Flat(t).vals| && Flat(t') == OuterInsert(Flat(t), k, v)
    requires FirstLeaf(t') == FirstLeaf(t) && LastNext(t') == LastNext(t)
    ensures InsSame(t, t', k, v)
  {
  }

  lemma InsSameVia(t: Tree, t1: Tree, t': Tree, k: int, v: Value)
    requires Flat(t1) == Flat(t) && FirstLeaf(t1) == FirstLeaf(t) && LastNext(t1) == LastNext(t)
    requires InsSame(t1, t', k, v)
    ensures InsSame(t, t', k, v)
  {
  }
}
