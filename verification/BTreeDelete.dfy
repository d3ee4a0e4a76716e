/**
 * Deletion from a B+ tree as a function on trees: the descent of
 * recursive_delete with its pre-emptive borrows and merges, the exchange of a
 * deleted separator and the collapse of an empty root.
 */
module BTreeDelete {
  import opened Common
  import opened Pages
  import opened BTreeModel
  import opened BTreeSearch

  // ----- A repair keeps k routed to the helped kid, which can then give a key -----

  lemma SpareSize(t: Tree, n: nat)
    ensures Spare(t, n) <==> Size(t) >= if t.Leaf? then n / 2 + 1 else n / 2
    ensures MinFill(t, n) <==> Size(t) >= if t.Leaf? then n / 2 else n / 2 - 1
  {
  }

  lemma CutSizes(t: Tree, q: nat, rid: nat)
    requires CutAt(t, q)
    ensures
      var (l, s, r) := Cut(t, q, rid);
      && l.Leaf? == t.Leaf? == r.Leaf? && Size(l) == q && Size(r) == Size(t) - q - (if t.Leaf? then 0 else 1)
      && l.id == t.id && r.id == rid
  {
  }

  lemma RebalanceShape(t: Tree, j: nat, q: nat)
    requires t.Node? && |t.kids| == |t.keys| + 1 && j < |t.keys| && CutAt(Both(t, j), q)
    ensures
      var (l, s, r) := Cut(Both(t, j), q, t.kids[j + 1].id);
      Rebalance(t, j, q) == Node(t.id, t.keys[j := s], t.kids[j := l][j + 1 := r])
  {
    var (l, s, r) := Cut(Both(t, j), q, t.kids[j + 1].id);
    hide Both, Cut;
    assert t.keys[..j] + [s] + t.keys[j + 1..] == t.keys[j := s];
    assert t.kids[..j] + [l, r] + t.kids[j + 2..] == t.kids[j := l][j + 1 := r];
  }

  lemma MergeShape(t: Tree, j: nat)
    requires t.Node? && |t.kids| == |t.keys| + 1 && j < |t.keys|
    ensures MergeAt(t, j) == Node(t.id, RemoveAt(t.keys, j), RemoveAt(t.kids[j := Both(t, j)], j + 1))
  {
    var m := Both(t, j);
    hide Both;
    assert t.keys[..j] + [] + t.keys[j + 1..] == RemoveAt(t.keys, j);
    assert t.kids[..j] + [m] + t.kids[j + 2..] == RemoveAt(t.kids[j := m], j + 1);
  }

  /** Borrowing from the left lowers the separator, borrowing from the right raises it. */
  lemma BorrowedSeparator(t: Tree, j: nat, q: nat, lo: int, hi: int, h: nat, c: Cfg)
    requires t.Node? && OK(t, lo, hi, h, c) && |t.kids| == |t.keys| + 1 && j < |t.keys| && CutAt(Both(t, j), q)
    ensures q < Size(t.kids[j]) ==> Cut(Both(t, j), q, t.kids[j + 1].id).1 <= t.keys[j]
    ensures q > Size(t.kids[j]) ==> t.keys[j] < Cut(Both(t, j), q, t.kids[j + 1].id).1
  {
    PairAt(t, j, lo, hi, h, c);
    var l, s, r := t.kids[j], t.keys[j], t.kids[j + 1];
    var l0, r1 := Lo(t.keys, j, lo), Hi(t.keys, j + 1, hi);
    InnerSeg(l, l0, s, h - 1, c);
    InnerSeg(r, s, r1, h - 1, c);
    if l.Leaf? {
      assert InRange(l.kv.keys, l0, s) && InRange(r.kv.keys, s, r1);
    } else {
      assert SegKeys(l.keys, l0, s) && SegKeys(r.keys, s, r1);
    }
  }

  function RepairIndex(f: Fix, i: nat): nat
    requires f == MergeLeft ==> i > 0
  {
    if f == MergeLeft then i - 1 else i
  }

  /** t' still routes k to the kid at i', and that kid can give a key. */
  ghost predicate Repaired(t: Tree, t': Tree, i': nat, k: int, lo: int, hi: int, n: nat) {
    Routed(t', i', k, lo, hi) && Spare(t'.kids[i'], n) && Size(t) <= Size(t') + 1 && Size(t') <= Size(t)
  }

  lemma RepairedIntro(t: Tree, t': Tree, i': nat, k: int, lo: int, hi: int, n: nat)
    requires Routed(t', i', k, lo, hi) && i' < |t'.kids| && Spare(t'.kids[i'], n) && Size(t) <= Size(t') + 1 && Size(t') <= Size(t)
    ensures Repaired(t, t', i', k, lo, hi, n)
  {
  }

  /** Moving the separator away from k, or up, keeps k where it was. */
  lemma RoutedAfter(t: Tree, i: nat, k: int, lo: int, hi: int, j: nat, s: int, l: Tree, r: Tree)
    requires Routed(t, i, k, lo, hi) && j < |t.keys| && |t.kids| == |t.keys| + 1
    requires (j + 1 == i && s <= t.keys[j]) || (j == i && t.keys[j] < s)
    ensures Routed(Node(t.id, t.keys[j := s], t.kids[j := l][j + 1 := r]), i, k, lo, hi)
  {
  }

  lemma RebalanceRoute(t: Tree, i: nat, j: nat, q: nat, k: int, lo: int, hi: int, h: nat, c: Cfg)
    requires t.Node? && OK(t, lo, hi, h, c) && |t.kids| == |t.keys| + 1 && h > 0 && c.n >= 4
    requires Routed(t, i, k, lo, hi) && j < |t.keys| && CutAt(Both(t, j), q) && i < |t.kids|
    requires (j + 1 == i && q + 1 == Size(t.kids[j])) || (j == i && q == Size(t.kids[j]) + 1)
    requires !Spare(t.kids[i], c.n)
    ensures Repaired(t, Rebalance(t, j, q), i, k, lo, hi, c.n)
  {
    hide *;
    var rid := t.kids[j + 1].id;
    var (l, s, r) := Cut(Both(t, j), q, rid);
    RebalanceShape(t, j, q);
    BorrowedSeparator(t, j, q, lo, hi, h, c);
    RoutedAfter(t, i, k, lo, hi, j, s, l, r);
    BothOK(t, j, lo, hi, h, c);
    BothLeaf(t, j);
    CutSizes(Both(t, j), q, rid);
    KidAt(t, i, lo, hi, h, c);
    SpareSize(t.kids[i], c.n);
    SpareSize(l, c.n);
    SpareSize(r, c.n);
    NodeSize(t.id, t.keys[j := s], t.kids[j := l][j + 1 := r]);
    NodeSize(t.id, t.keys, t.kids);
    RepairedIntro(t, Rebalance(t, j, q), i, k, lo, hi, c.n);
  }

  lemma NodeSize(id: nat, keys: seq<int>, kids: seq<Tree>)
    ensures Size(Node(id, keys, kids)) == |keys|
  {
  }

  lemma RoutedMerged(t: Tree, i: nat, j: nat, k: int, lo: int, hi: int, m: Tree)
    requires Routed(t, i, k, lo, hi) && j < |t.keys| && |t.kids| == |t.keys| + 1 && (j == i || j + 1 == i)
    requires SegKeys(t.keys, lo, hi)
    ensures Routed(Node(t.id, RemoveAt(t.keys, j), RemoveAt(t.kids[j := m], j + 1)), j, k, lo, hi)
    ensures RemoveAt(t.kids[j := m], j + 1)[j] == m && |RemoveAt(t.keys, j)| == |t.keys| - 1
    ensures |RemoveAt(t.kids[j := m], j + 1)| == |t.keys|
  {
    var keys := RemoveAt(t.keys, j);
    assert j < |keys| ==> keys[j] == t.keys[j + 1];
    assert j > 0 ==> keys[j - 1] == t.keys[j - 1];
  }

  lemma SortedKeys(t: Tree, lo: int, hi: int, h: nat, c: Cfg)
    requires t.Node? && OK(t, lo, hi, h, c)
    ensures SegKeys(t.keys, lo, hi)
  {
    InnerSeg(t, lo, hi, h, c);
  }

  lemma MergeRoute(t: Tree, i: nat, j: nat, k: int, lo: int, hi: int, h: nat, c: Cfg)
    requires Poor(t, i, lo, hi, h, c) && t.Node? && |t.kids| == |t.keys| + 1 && OK(t, lo, hi, h, c)
    requires Routed(t, i, k, lo, hi) && (j == i || j + 1 == i) && j < |t.keys|
    requires !Spare(t.kids[j], c.n) && !Spare(t.kids[j + 1], c.n)
    ensures Repaired(t, MergeAt(t, j), j, k, lo, hi, c.n)
  {
    hide *;
    SortedKeys(t, lo, hi, h, c);
    MergeShape(t, j);
    MergeFits(t, i, j, lo, hi, h, c);
    RoutedMerged(t, i, j, k, lo, hi, Both(t, j));
    NodeSize(t.id, t.keys, t.kids);
    NodeSize(t.id, RemoveAt(t.keys, j), RemoveAt(t.kids[j := Both(t, j)], j + 1));
    RepairedIntro(t, MergeAt(t, j), j, k, lo, hi, c.n);
  }

  lemma RepairRoute(t: Tree, i: nat, k: int, lo: int, hi: int, h: nat, c: Cfg)
    requires Poor(t, i, lo, hi, h, c) && Routed(t, i, k, lo, hi)
    ensures Repaired(t, Repair(t, i, lo, hi, h, c), RepairIndex(Choice(t, i, c.n), i), k, lo, hi, c.n)
  {
    hide OK, Rebalance, MergeAt, Routed, Repaired, Both, CutAt, CutFits;
    var t' := Repair(t, i, lo, hi, h, c);
    match Choice(t, i, c.n) {
      case BorrowLeft =>
        BorrowLeftFits(t, i, lo, hi, h, c);
        var q := Size(t.kids[i - 1]) - 1;
        assert t' == Rebalance(t, i - 1, q);
        hide *;
        RebalanceRoute(t, i, i - 1, q, k, lo, hi, h, c);
      case BorrowRight =>
        BorrowRightFits(t, i, lo, hi, h, c);
        var q := Size(t.kids[i]) + 1;
        assert t' == Rebalance(t, i, q);
        hide *;
        RebalanceRoute(t, i, i, q, k, lo, hi, h, c);
      case MergeLeft =>
        assert t' == MergeAt(t, i - 1);
        hide *;
        MergeRoute(t, i, i - 1, k, lo, hi, h, c);
      case MergeRight =>
        assert t' == MergeAt(t, i);
        hide *;
        MergeRoute(t, i, i, k, lo, hi, h, c);
    }
  }

  // ----- Deletion -----

  /** The kid that k is routed to can give a key. */
  predicate Ready(t: Tree, k: int, n: nat) {
    t.Node? && |t.kids| == |t.keys| + 1 && Spare(t.kids[Rank(t.keys, k)], n)
  }

  /** Where recursive_delete may be: at the root, or at a node brought above its minimum fill beforehand. */
  ghost predicate CanDel(t: Tree, k: int, root: bool, lo: int, hi: int, h: nat, c: Cfg) {
    && OK(t, lo, hi, h, c) && lo < k <= hi && c.n >= 4
    && (root || (MinFill(t, c.n) && (Spare(t, c.n) || Ready(t, k, c.n))))
  }

  /** The key just below the last one of the rightmost leaf. */
  function FindBiggest(t: Tree): int {
    match t
    case Leaf(_, kv, _) => if |kv.keys| >= 2 then kv.keys[|kv.keys| - 2] else 0
    case Node(_, _, kids) => if kids == [] then 0 else FindBiggest(kids[|kids| - 1])
  }

  /** The separators after a stored k has been exchanged. */
  function Exchanged(t: Tree, i: nat, k: int): seq<int>
    requires t.Node? && i < |t.kids| == |t.keys| + 1
  {
    if i < |t.keys| && t.keys[i] == k then t.keys[i := FindBiggest(t.kids[i])] else t.keys
  }

  lemma DelPoor(t: Tree, k: int, root: bool, lo: int, hi: int, h: nat, c: Cfg)
    requires CanDel(t, k, root, lo, hi, h, c) && t.Node? && !(root && t.keys == []) && !Ready(t, k, c.n)
    ensures Poor(t, Rank(t.keys, k), lo, hi, h, c)
    ensures Routed(t, Rank(t.keys, k), k, lo, hi)
  {
    InnerSeg(t, lo, hi, h, c);
    RouteRank(t, k, lo, hi, h, c);
  }

  lemma DelRepaired(t: Tree, k: int, root: bool, lo: int, hi: int, h: nat, c: Cfg)
    requires CanDel(t, k, root, lo, hi, h, c) && t.Node? && !(root && t.keys == []) && !Ready(t, k, c.n)
    requires Poor(t, Rank(t.keys, k), lo, hi, h, c)
    ensures var t' := Repair(t, Rank(t.keys, k), lo, hi, h, c);
            CanDel(t', k, root, lo, hi, h, c) && Ready(t', k, c.n) && t'.Node? && Same(t, t')
  {
    var i := Rank(t.keys, k);
    var t' := Repair(t, i, lo, hi, h, c);
    DelPoor(t, k, root, lo, hi, h, c);
    assert !root ==> Spare(t, c.n);
    SpareSize(t, c.n);
    RepairOK(t, i, lo, hi, h, c);
    RepairRoute(t, i, k, lo, hi, h, c);
    var i' := RepairIndex(Choice(t, i, c.n), i);
    assert Size(t) <= c.n - 1;
    hide Repair, Poor;
    BodyNode(t', i', k, lo, hi, h, c);
    SpareSize(t', c.n);
  }

  lemma BodyNode(t: Tree, i: nat, k: int, lo: int, hi: int, h: nat, c: Cfg)
    requires Body(t, lo, hi, h, c) && Routed(t, i, k, lo, hi) && Size(t) <= c.n - 1
    ensures OK(t, lo, hi, h, c) && Rank(t.keys, k) == i
  {
    assert Seg(t.keys, t.kids, lo, hi, h - 1, c);
    RankRoute(t, i, k, lo, hi);
  }

  lemma DelKid(t: Tree, k: int, lo: int, hi: int, h: nat, c: Cfg)
    requires OK(t, lo, hi, h, c) && lo < k <= hi && c.n >= 4 && Ready(t, k, c.n)
    ensures h > 0
    ensures var i := Rank(t.keys, k);
            Routed(t, i, k, lo, hi) && CanDel(t.kids[i], k, false, Lo(t.keys, i, lo), Hi(t.keys, i, hi), h - 1, c)
  {
    RouteRank(t, k, lo, hi, h, c);
    KidAt(t, Rank(t.keys, k), lo, hi, h, c);
  }

  lemma DelRoot(t: Tree, k: int, lo: int, hi: int, h: nat, c: Cfg)
    requires CanDel(t, k, true, lo, hi, h, c) && t.Node? && t.keys == []
    ensures h > 0 && |t.kids| == 1 && CanDel(t.kids[0], k, true, lo, hi, h - 1, c) && MinFill(t.kids[0], c.n)
    ensures Same(t.kids[0], Node(t.kids[0].id, t.keys, t.kids))
  {
    InnerSeg(t, lo, hi, h, c);
    KidAt(t, 0, lo, hi, h, c);
    FlatOne(t.kids[0]);
    assert t.kids == [t.kids[0]];
  }

  lemma LeafKV(t: Tree, lo: int, hi: int, h: nat, c: Cfg)
    requires t.Leaf? && OK(t, lo, hi, h, c)
    ensures KVOk(t.kv) && InRange(t.kv.keys, lo, hi) && |t.kv.keys| <= c.n && h == 0
  {
  }

  /** The tree that recursive_delete leaves behind when started on t for key k. */
  ghost function Del(t: Tree, k: int, root: bool, lo: int, hi: int, h: nat, c: Cfg): Tree
    requires CanDel(t, k, root, lo, hi, h, c)
    decreases h, if Ready(t, k, c.n) then 0 else 1
  {
    if t.Leaf? then
      LeafKV(t, lo, hi, h, c);
      Leaf(t.id, OuterDelete(t.kv, k), t.next)
    else if root && t.keys == [] then
      DelRoot(t, k, lo, hi, h, c);
      Del(t.kids[0], k, true, lo, hi, h - 1, c)
    else
      var i := Rank(t.keys, k);
      if !Ready(t, k, c.n) then
        DelPoor(t, k, root, lo, hi, h, c);
        DelRepaired(t, k, root, lo, hi, h, c);
        Del(Repair(t, i, lo, hi, h, c), k, root, lo, hi, h, c)
      else
        DelKid(t, k, lo, hi, h, c);
        Node(t.id, Exchanged(t, i, k), t.kids[i := Del(t.kids[i], k, false, Lo(t.keys, i, lo), Hi(t.keys, i, hi), h - 1, c)])
  }

  /** The key of a neighbouring leaf that moves to the leaf of k before k is deleted, if there is one. */
  ghost function Lent(t: Tree, k: int, root: bool, lo: int, hi: int, h: nat, c: Cfg): Option<int>
    requires CanDel(t, k, root, lo, hi, h, c)
    decreases h, if Ready(t, k, c.n) then 0 else 1
  {
    if t.Leaf? then
      None
    else if root && t.keys == [] then
      DelRoot(t, k, lo, hi, h, c);
      Lent(t.kids[0], k, true, lo, hi, h - 1, c)
    else
      var i := Rank(t.keys, k);
      if !Ready(t, k, c.n) then
        DelPoor(t, k, root, lo, hi, h, c);
        DelRepaired(t, k, root, lo, hi, h, c);
        if t.kids[i].Leaf? then Moved(t, i, c.n) else Lent(Repair(t, i, lo, hi, h, c), k, root, lo, hi, h, c)
      else
        DelKid(t, k, lo, hi, h, c);
        Lent(t.kids[i], k, false, Lo(t.keys, i, lo), Hi(t.keys, i, hi), h - 1, c)
  }

  /** Deleting k reaches a node that has k as a separator at the moment of the descent. */
  ghost predicate Exchanges(t: Tree, k: int, root: bool, lo: int, hi: int, h: nat, c: Cfg)
    requires CanDel(t, k, root, lo, hi, h, c)
    decreases h, if Ready(t, k, c.n) then 0 else 1
  {
    if t.Leaf? then
      false
    else if root && t.keys == [] then
      DelRoot(t, k, lo, hi, h, c);
      Exchanges(t.kids[0], k, true, lo, hi, h - 1, c)
    else
      var i := Rank(t.keys, k);
      if !Ready(t, k, c.n) then
        DelPoor(t, k, root, lo, hi, h, c);
        DelRepaired(t, k, root, lo, hi, h, c);
        Exchanges(Repair(t, i, lo, hi, h, c), k, root, lo, hi, h, c)
      else
        DelKid(t, k, lo, hi, h, c);
        Contains(t.keys, k) || Exchanges(t.kids[i], k, false, Lo(t.keys, i, lo), Hi(t.keys, i, hi), h - 1, c)
  }

  // ----- One step of the descent -----

  lemma DelAtLeaf(t: Tree, k: int, root: bool, lo: int, hi: int, h: nat, c: Cfg)
    requires CanDel(t, k, root, lo, hi, h, c) && t.Leaf?
    ensures KVOk(t.kv) && Del(t, k, root, lo, hi, h, c) == Leaf(t.id, OuterDelete(t.kv, k), t.next)
    ensures !Exchanges(t, k, root, lo, hi, h, c)
  {
    LeafKV(t, lo, hi, h, c);
  }

  lemma DelAtRoot(t: Tree, k: int, lo: int, hi: int, h: nat, c: Cfg)
    requires CanDel(t, k, true, lo, hi, h, c) && t.Node? && t.keys == []
    ensures h > 0 && |t.kids| == 1 && CanDel(t.kids[0], k, true, lo, hi, h - 1, c)
    ensures Del(t, k, true, lo, hi, h, c) == Del(t.kids[0], k, true, lo, hi, h - 1, c)
    ensures Exchanges(t, k, true, lo, hi, h, c) == Exchanges(t.kids[0], k, true, lo, hi, h - 1, c)
    ensures Flat(t.kids[0]) == Flat(t) && FirstLeaf(t.kids[0]) == FirstLeaf(t) && LastNext(t.kids[0]) == LastNext(t)
  {
    DelRoot(t, k, lo, hi, h, c);
    SameFlat(t.kids[0], Node(t.kids[0].id, t.keys, t.kids));
    SameIds(t, t.kids[0].id);
  }

  lemma DelAtRepair(t: Tree, k: int, root: bool, lo: int, hi: int, h: nat, c: Cfg)
    requires CanDel(t, k, root, lo, hi, h, c) && t.Node? && !(root && t.keys == []) && !Ready(t, k, c.n)
    ensures Poor(t, Rank(t.keys, k), lo, hi, h, c)
    ensures
      var t1 := Repair(t, Rank(t.keys, k), lo, hi, h, c);
      && CanDel(t1, k, root, lo, hi, h, c) && Ready(t1, k, c.n) && Same(t, t1) && Flat(t1) == Flat(t)
      && Del(t, k, root, lo, hi, h, c) == Del(t1, k, root, lo, hi, h, c)
      && Exchanges(t, k, root, lo, hi, h, c) == Exchanges(t1, k, root, lo, hi, h, c)
  {
    DelPoor(t, k, root, lo, hi, h, c);
    DelRepaired(t, k, root, lo, hi, h, c);
    SameFlat(t, Repair(t, Rank(t.keys, k), lo, hi, h, c));
  }

  lemma LentAtLeaf(t: Tree, k: int, root: bool, lo: int, hi: int, h: nat, c: Cfg)
    requires CanDel(t, k, root, lo, hi, h, c) && t.Leaf?
    ensures Lent(t, k, root, lo, hi, h, c) == None
  {
  }

  lemma LentAtRoot(t: Tree, k: int, lo: int, hi: int, h: nat, c: Cfg)
    requires CanDel(t, k, true, lo, hi, h, c) && t.Node? && t.keys == []
    ensures h > 0 && |t.kids| == 1 && CanDel(t.kids[0], k, true, lo, hi, h - 1, c)
    ensures Lent(t, k, true, lo, hi, h, c) == Lent(t.kids[0], k, true, lo, hi, h - 1, c)
  {
    DelRoot(t, k, lo, hi, h, c);
  }

  /** Once the leaf is repaired, no other key moves. */
  lemma LentAtRepair(t: Tree, k: int, root: bool, lo: int, hi: int, h: nat, c: Cfg)
    requires CanDel(t, k, root, lo, hi, h, c) && t.Node? && !(root && t.keys == []) && !Ready(t, k, c.n)
    ensures Poor(t, Rank(t.keys, k), lo, hi, h, c)
    ensures
      var i := Rank(t.keys, k);
      var t1 := Repair(t, i, lo, hi, h, c);
      && CanDel(t1, k, root, lo, hi, h, c)
      && Lent(t, k, root, lo, hi, h, c) == (if t.kids[i].Leaf? then Moved(t, i, c.n) else Lent(t1, k, root, lo, hi, h, c))
      && (t.kids[i].Leaf? ==> Lent(t1, k, root, lo, hi, h, c) == None)
  {
    hide OK, Moved, Repair, Rank;
    DelPoor(t, k, root, lo, hi, h, c);
    DelRepaired(t, k, root, lo, hi, h, c);
    var t1 := Repair(t, Rank(t.keys, k), lo, hi, h, c);
    if t.kids[Rank(t.keys, k)].Leaf? {
      LeavesLow(t, Rank(t.keys, k), lo, hi, h, c);
      LentLow(t1, k, root, lo, hi, h, c);
    }
  }

  lemma LeavesLow(t: Tree, i: nat, lo: int, hi: int, h: nat, c: Cfg)
    requires t.Node? && OK(t, lo, hi, h, c) && lo < hi && i < |t.kids| && t.kids[i].Leaf?
    ensures h == 1
  {
    KidAt(t, i, lo, hi, h, c);
  }

  /** At height 1 every kid is a leaf. */
  lemma LentLow(t: Tree, k: int, root: bool, lo: int, hi: int, h: nat, c: Cfg)
    requires CanDel(t, k, root, lo, hi, h, c) && h == 1 && t.Node? && Ready(t, k, c.n)
    ensures Lent(t, k, root, lo, hi, h, c) == None
  {
    hide OK;
    if root && t.keys == [] {
      DelRoot(t, k, lo, hi, h, c);
      KidLeaf(t.kids[0], lo, hi, c);
    } else {
      DelKid(t, k, lo, hi, h, c);
      KidLeaf(t.kids[Rank(t.keys, k)], Lo(t.keys, Rank(t.keys, k), lo), Hi(t.keys, Rank(t.keys, k), hi), c);
    }
  }

  lemma KidLeaf(t: Tree, lo: int, hi: int, c: Cfg)
    requires OK(t, lo, hi, 0, c)
    ensures t.Leaf?
  {
  }

  lemma LentAtKid(t: Tree, k: int, root: bool, lo: int, hi: int, h: nat, c: Cfg)
    requires CanDel(t, k, root, lo, hi, h, c) && t.Node? && !(root && t.keys == []) && Ready(t, k, c.n)
    ensures
      var i := Rank(t.keys, k);
      var l0, h0 := Lo(t.keys, i, lo), Hi(t.keys, i, hi);
      h > 0 && i < |t.kids| && CanDel(t.kids[i], k, false, l0, h0, h - 1, c)
      && Lent(t, k, root, lo, hi, h, c) == Lent(t.kids[i], k, false, l0, h0, h - 1, c)
  {
    hide OK;
    DelKid(t, k, lo, hi, h, c);
  }

  lemma DelAtKid(t: Tree, k: int, root: bool, lo: int, hi: int, h: nat, c: Cfg)
    requires CanDel(t, k, root, lo, hi, h, c) && t.Node? && !(root && t.keys == []) && Ready(t, k, c.n)
    ensures h > 0 && |t.kids| == |t.keys| + 1 && OK(t, lo, hi, h, c) && c.n >= 4
    ensures |Exchanged(t, Rank(t.keys, k), k)| == |t.keys| && (!root ==> MinFill(t, c.n))
    ensures
      var i := Rank(t.keys, k);
      var l0, h0 := Lo(t.keys, i, lo), Hi(t.keys, i, hi);
      && Routed(t, i, k, lo, hi) && CanDel(t.kids[i], k, false, l0, h0, h - 1, c)
      && Del(t, k, root, lo, hi, h, c)
         == Node(t.id, Exchanged(t, i, k), t.kids[i := Del(t.kids[i], k, false, l0, h0, h - 1, c)])
      && (Exchanges(t, k, root, lo, hi, h, c)
          <==> (i < |t.keys| && t.keys[i] == k) || Exchanges(t.kids[i], k, false, l0, h0, h - 1, c))
  {
    DelKid(t, k, lo, hi, h, c);
  }

  lemma SameFlat(t: Tree, t': Tree)
    requires Same(t, t')
    ensures Flat(t') == Flat(t) && FirstLeaf(t') == FirstLeaf(t) && LastNext(t') == LastNext(t) && t'.id == t.id
  {
  }

  lemma SameIds(t: Tree, id: nat)
    requires t.Node?
    ensures var t' := Node(id, t.keys, t.kids); Flat(t') == Flat(t) && FirstLeaf(t') == FirstLeaf(t) && LastNext(t') == LastNext(t)
  {
  }

  // ----- Bounds that move with the exchanged separator -----

  /** The upper bound of a tree may come down to its largest key. */
  lemma {:induction false} Tighten(t: Tree, lo: int, hi: int, hi': int, h: nat, c: Cfg)
    requires OK(t, lo, hi, h, c) && c.n >= 4 && MinFill(t, c.n) && MaxKey(t) <= hi' <= hi
    ensures OK(t, lo, hi', h, c)
    decreases h
  {
    hide *;
    InnerSeg(t, lo, hi, h, c);
    if t.Leaf? {
      TightenLeaf(t, lo, hi, hi', h, c);
    } else {
      var m := |t.keys|;
      var z := t.kids[m];
      KidAt(t, m, lo, hi, h, c);
      LastKid(t, lo, hi);
      FlatOK(z, Lo(t.keys, m, lo), hi, h - 1, c);
      Tighten(z, Lo(t.keys, m, lo), hi, hi', h - 1, c);
      TightenLast(t, lo, hi, hi', h, c);
    }
  }

  lemma LastKid(t: Tree, lo: int, hi: int)
    requires t.Node? && |t.kids| == |t.keys| + 1
    ensures MaxKey(t) == MaxKey(t.kids[|t.keys|])
    ensures Hi(t.keys, |t.keys|, hi) == hi
  {
  }

  lemma TightenLeaf(t: Tree, lo: int, hi: int, hi': int, h: nat, c: Cfg)
    requires t.Leaf? && OK(t, lo, hi, h, c) && c.n >= 4 && MinFill(t, c.n) && MaxKey(t) <= hi'
    ensures OK(t, lo, hi', h, c)
  {
    var keys := t.kv.keys;
    assert forall i :: 0 <= i < |keys| ==> keys[i] <= keys[|keys| - 1];
  }

  lemma TightenLast(t: Tree, lo: int, hi: int, hi': int, h: nat, c: Cfg)
    requires OK(t, lo, hi, h, c) && t.Node? && |t.kids| == |t.keys| + 1 && h > 0
    requires var m := |t.keys|; OK(t.kids[m], Lo(t.keys, m, lo), hi', h - 1, c)
    requires var m := |t.keys|; InRange(Flat(t.kids[m]).keys, Lo(t.keys, m, lo), hi) && |Flat(t.kids[m]).keys| >= 2
    requires Last(Flat(t.kids[|t.keys|]).keys) <= hi' <= hi
    ensures OK(t, lo, hi', h, c)
  {
    var m := |t.keys|;
    assert Size(t) <= c.n - 1;
    InnerSeg(t, lo, hi, h, c);
    assert Lo(t.keys, m, lo) < hi';
    TightenKeys(t.keys, lo, hi, hi');
    TightenKids(t.keys, t.kids, lo, hi, hi', h - 1, c);
    assert SegLinks(t.keys, t.kids, c);
    hide OK, Body, SegKids, SegKeys, SegLinks;
    assert Seg(t.keys, t.kids, lo, hi', h - 1, c);
    NodeOK(t.id, t.keys, t.kids, lo, hi', h, c);
  }

  lemma TightenKeys(keys: seq<int>, lo: int, hi: int, hi': int)
    requires SegKeys(keys, lo, hi) && Lo(keys, |keys|, lo) < hi'
    ensures SegKeys(keys, lo, hi')
  {
  }

  lemma TightenKids(keys: seq<int>, kids: seq<Tree>, lo: int, hi: int, hi': int, h: nat, c: Cfg)
    requires SegKids(keys, kids, lo, hi, h, c)
    requires OK(kids[|keys|], Lo(keys, |keys|, lo), hi', h, c)
    ensures SegKids(keys, kids, lo, hi', h, c)
  {
    forall m | 0 <= m < |kids| ensures MinFill(kids[m], c.n) && OK(kids[m], Lo(keys, m, lo), Hi(keys, m, hi'), h, c) {
      assert m < |keys| ==> Hi(keys, m, hi) == Hi(keys, m, hi');
    }
  }

  /** The lower bound of a tree may go down. */
  lemma {:induction false} Widen(t: Tree, lo: int, lo': int, hi: int, h: nat, c: Cfg)
    requires OK(t, lo, hi, h, c) && lo' <= lo
    ensures OK(t, lo', hi, h, c)
    decreases h
  {
    hide *;
    InnerSeg(t, lo, hi, h, c);
    if t.Leaf? {
      WidenLeaf(t, lo, lo', hi, h, c);
    } else {
      KidAt(t, 0, lo, hi, h, c);
      Lo0(t.keys, lo);
      Widen(t.kids[0], lo, lo', Hi(t.keys, 0, hi), h - 1, c);
      WidenFirst(t.keys, t.kids, lo, lo', hi, h - 1, c);
      NodeOK(t.id, t.keys, t.kids, lo', hi, h, c);
    }
  }

  lemma Lo0(keys: seq<int>, lo: int)
    ensures Lo(keys, 0, lo) == lo
  {
  }

  lemma WidenLeaf(t: Tree, lo: int, lo': int, hi: int, h: nat, c: Cfg)
    requires t.Leaf? && OK(t, lo, hi, h, c) && lo' <= lo
    ensures OK(t, lo', hi, h, c)
  {
  }

  lemma WidenFirst(keys: seq<int>, kids: seq<Tree>, lo: int, lo': int, hi: int, h: nat, c: Cfg)
    requires Seg(keys, kids, lo, hi, h, c) && lo' <= lo
    requires kids != [] && OK(kids[0], lo', Hi(keys, 0, hi), h, c)
    ensures Seg(keys, kids, lo', hi, h, c)
  {
    forall m | 0 <= m < |kids| ensures MinFill(kids[m], c.n) && OK(kids[m], Lo(keys, m, lo'), Hi(keys, m, hi), h, c) {
      assert m > 0 ==> Lo(keys, m, lo) == Lo(keys, m, lo');
    }
  }

  /** find_biggest returns the last but one key of the whole subtree. */
  lemma {:induction false} Biggest(t: Tree, lo: int, hi: int, h: nat, c: Cfg)
    requires OK(t, lo, hi, h, c) && c.n >= 4 && MinFill(t, c.n)
    ensures |Flat(t).keys| >= 2 && FindBiggest(t) == Flat(t).keys[|Flat(t).keys| - 2]
    decreases h
  {
    hide *;
    InnerSeg(t, lo, hi, h, c);
    if t.Leaf? {
      BiggestLeaf(t, c);
    } else {
      var m := |t.keys|;
      KidAt(t, m, lo, hi, h, c);
      Biggest(t.kids[m], Lo(t.keys, m, lo), Hi(t.keys, m, hi), h - 1, c);
      FlatAt(t.kids, m);
      BiggestNode(t, FlatSeg(t.kids[..m]));
    }
  }

  lemma BiggestLeaf(t: Tree, c: Cfg)
    requires t.Leaf? && MinFill(t, c.n) && c.n >= 4
    ensures |Flat(t).keys| >= 2 && FindBiggest(t) == Flat(t).keys[|Flat(t).keys| - 2]
  {
  }

  lemma BiggestNode(t: Tree, a: KV)
    requires t.Node? && |t.kids| == |t.keys| + 1
    requires FlatSeg(t.kids) == Cat(Cat(a, Flat(t.kids[|t.keys|])), FlatSeg(t.kids[|t.keys| + 1..]))
    requires |Flat(t.kids[|t.keys|]).keys| >= 2
    requires FindBiggest(t.kids[|t.keys|]) == Flat(t.kids[|t.keys|]).keys[|Flat(t.kids[|t.keys|]).keys| - 2]
    ensures |Flat(t).keys| >= 2 && FindBiggest(t) == Flat(t).keys[|Flat(t).keys| - 2]
  {
    assert t.kids[|t.keys| + 1..] == [];
  }

  lemma LastDelete(kv: KV, k: int)
    requires KVOk(kv) && |kv.keys| >= 2
    ensures k == Last(kv.keys) ==> Last(OuterDelete(kv, k).keys) == kv.keys[|kv.keys| - 2]
    ensures k != Last(kv.keys) ==> Last(OuterDelete(kv, k).keys) == Last(kv.keys)
  {
    if k == Last(kv.keys) {
      RankUnique(kv.keys, k, |kv.keys| - 1);
    }
  }

  // ----- What deletion does to the pairs: the tree behaves like one sorted page -----

  /** What every call, at the root or below, does to the pairs and the outer links. */
  ghost predicate DelSame(t: Tree, t': Tree, k: int, root: bool) {
    && KVOk(Flat(t)) && Flat(t') == OuterDelete(Flat(t), k)
    && FirstLeaf(t') == FirstLeaf(t) && LastNext(t') == LastNext(t)
    && (!root ==> t'.id == t.id)
  }

  lemma DelSameLeaf(t: Tree, k: int, root: bool)
    requires t.Leaf? && KVOk(t.kv)
    ensures DelSame(t, Leaf(t.id, OuterDelete(t.kv, k), t.next), k, root)
  {
  }

  lemma DelSameVia(t: Tree, t1: Tree, t': Tree, k: int, root: bool)
    requires Flat(t1) == Flat(t) && FirstLeaf(t1) == FirstLeaf(t) && LastNext(t1) == LastNext(t) && (root || t1.id == t.id)
    requires DelSame(t1, t', k, root)
    ensures DelSame(t, t', k, root)
  {
  }

  lemma DelSameKid(t: Tree, i: nat, keys: seq<int>, kid: Tree, k: int, root: bool, lo: int, hi: int, h: nat, c: Cfg)
    requires t.Node? && OK(t, lo, hi, h, c) && c.n >= 4 && Routed(t, i, k, lo, hi) && i < |t.kids| && |t.kids| == |t.keys| + 1
    requires DelSame(t.kids[i], kid, k, false)
    ensures DelSame(t, Node(t.id, keys, t.kids[i := kid]), k, root)
  {
    hide *;
    var a, b := FlatSeg(t.kids[..i]), FlatSeg(t.kids[i + 1..]);
    FlatOK(t, lo, hi, h, c);
    RouteParts(t, i, k, lo, hi, h, c);
    DeleteMid(a, Flat(t.kids[i]), b, k);
    FlatReplace(t, keys, i, kid);
    EndsReplace(t, i, keys, kid);
    DelSameIntro(t, Node(t.id, keys, t.kids[i := kid]), t.kids[i], kid, a, b, k, root);
  }

  lemma EndsReplace(t: Tree, i: nat, keys: seq<int>, kid: Tree)
    requires t.Node? && i < |t.kids|
    ensures FirstLeaf(kid) == FirstLeaf(t.kids[i]) ==> FirstLeaf(Node(t.id, keys, t.kids[i := kid])) == FirstLeaf(t)
    ensures LastNext(kid) == LastNext(t.kids[i]) ==> LastNext(Node(t.id, keys, t.kids[i := kid])) == LastNext(t)
  {
  }

  lemma DelSameIntro(t: Tree, t': Tree, kid: Tree, kid': Tree, a: KV, b: KV, k: int, root: bool)
    requires DelSame(kid, kid', k, false) && KVOk(Flat(t)) && t'.id == t.id
    requires Flat(t) == Cat(Cat(a, Flat(kid)), b) && Flat(t') == Cat(Cat(a, Flat(kid')), b)
    requires OuterDelete(Cat(Cat(a, Flat(kid)), b), k) == Cat(Cat(a, OuterDelete(Flat(kid), k)), b)
    requires FirstLeaf(kid') == FirstLeaf(kid) ==> FirstLeaf(t') == FirstLeaf(t)
    requires LastNext(kid') == LastNext(kid) ==> LastNext(t') == LastNext(t)
    ensures DelSame(t, t', k, root)
  {
  }

  /** Whatever k is, deleting it removes exactly k from the pairs in the leaves. */
  lemma {:induction false} DelFlat(t: Tree, k: int, root: bool, lo: int, hi: int, h: nat, c: Cfg)
    requires CanDel(t, k, root, lo, hi, h, c)
    ensures DelSame(t, Del(t, k, root, lo, hi, h, c), k, root)
    decreases h, if Ready(t, k, c.n) then 0 else 1
  {
    hide *;
    if t.Leaf? {
      DelAtLeaf(t, k, root, lo, hi, h, c);
      DelSameLeaf(t, k, root);
    } else if root && t.keys == [] {
      DelAtRoot(t, k, lo, hi, h, c);
      DelFlat(t.kids[0], k, true, lo, hi, h - 1, c);
      DelSameVia(t, t.kids[0], Del(t, k, true, lo, hi, h, c), k, true);
    } else if !Ready(t, k, c.n) {
      DelAtRepair(t, k, root, lo, hi, h, c);
      var t1 := Repair(t, Rank(t.keys, k), lo, hi, h, c);
      DelFlat(t1, k, root, lo, hi, h, c);
      SameFlat(t, t1);
      DelSameVia(t, t1, Del(t, k, root, lo, hi, h, c), k, root);
    } else {
      DelAtKid(t, k, root, lo, hi, h, c);
      var i := Rank(t.keys, k);
      var l0, h0 := Lo(t.keys, i, lo), Hi(t.keys, i, hi);
      DelFlat(t.kids[i], k, false, l0, h0, h - 1, c);
      DelSameKid(t, i, Exchanged(t, i, k), Del(t.kids[i], k, false, l0, h0, h - 1, c), k, root, lo, hi, h, c);
    }
  }

  // ----- What deletion does to the structure -----

  /** k is stored, or no separator equal to it is met on the way down. */
  ghost predicate Clean(t: Tree, k: int, root: bool, lo: int, hi: int, h: nat, c: Cfg)
    requires CanDel(t, k, root, lo, hi, h, c)
  {
    Contains(Flat(t).keys, k) || !Exchanges(t, k, root, lo, hi, h, c)
  }

  /** Replacing kid i when the separators stay. */
  lemma KeepSeparators(t: Tree, i: nat, kid: Tree, k: int, lo: int, hi: int, h: nat, c: Cfg)
    requires t.Node? && OK(t, lo, hi, h, c) && h > 0 && c.n >= 4 && |t.kids| == |t.keys| + 1 && i < |t.kids|
    requires OK(kid, Lo(t.keys, i, lo), Hi(t.keys, i, hi), h - 1, c) && MinFill(kid, c.n)
    requires DelSame(t.kids[i], kid, k, false)
    requires i < |t.keys| ==> t.keys[i] != k
    ensures OK(Node(t.id, t.keys, t.kids[i := kid]), lo, hi, h, c)
  {
    hide *;
    var l0, h0, before := Lo(t.keys, i, lo), Hi(t.keys, i, hi), t.kids[i];
    InnerSeg(t, lo, hi, h, c);
    KidAt(t, i, lo, hi, h, c);
    FlatOK(before, l0, h0, h - 1, c);
    FlatOK(kid, l0, h0, h - 1, c);
    LastDelete(Flat(before), k);
    DelSameFacts(before, kid, k, false);
    if i < |t.keys| {
      LinkedTo(t.keys, t.kids, i, lo, hi, h - 1, c);
      ExactFacts(t.keys[i], before, c);
    }
    Replace(t.keys, t.kids, i, kid, lo, hi, h - 1, c);
    NodeOK(t.id, t.keys, t.kids[i := kid], lo, hi, h, c);
  }

  lemma DelSameFacts(t: Tree, t': Tree, k: int, root: bool)
    requires DelSame(t, t', k, root)
    ensures KVOk(Flat(t)) && Flat(t') == OuterDelete(Flat(t), k)
    ensures FirstLeaf(t') == FirstLeaf(t) && LastNext(t') == LastNext(t)
    ensures !root ==> t'.id == t.id
  {
  }

  /** k is the largest key of kid i exactly when it is stored there and equals the separator above it. */
  lemma SeparatorIsLast(t: Tree, i: nat, k: int, lo: int, hi: int, h: nat, c: Cfg)
    requires t.Node? && OK(t, lo, hi, h, c) && c.n >= 4 && |t.kids| == |t.keys| + 1 && i < |t.keys| && t.keys[i] == k
    requires KVOk(Flat(t.kids[i])) && Contains(Flat(t.kids[i]).keys, k)
    ensures |Flat(t.kids[i]).keys| >= 2 && Last(Flat(t.kids[i]).keys) == k
  {
    hide *;
    KidAt(t, i, lo, hi, h, c);
    HiAt(t.keys, i, hi);
    FlatOK(t.kids[i], Lo(t.keys, i, lo), Hi(t.keys, i, hi), h - 1, c);
    LastBound(Flat(t.kids[i]), Lo(t.keys, i, lo), k);
  }

  lemma LastBound(kv: KV, lo: int, k: int)
    requires KVOk(kv) && InRange(kv.keys, lo, k) && Contains(kv.keys, k)
    ensures Last(kv.keys) == k
  {
    UpToLast(kv.keys, Rank(kv.keys, k));
  }

  lemma UpToLast(keys: seq<int>, r: nat)
    requires Sorted(keys) && r < |keys|
    ensures keys[r] <= keys[|keys| - 1] && (r < |keys| - 1 ==> keys[r] < keys[|keys| - 1])
  {
  }

  /** Replacing kid i together with the separator k above it by the largest remaining key. */
  lemma MoveSeparator(t: Tree, i: nat, kid: Tree, k: int, lo: int, hi: int, h: nat, c: Cfg)
    requires t.Node? && OK(t, lo, hi, h, c) && h > 0 && c.n >= 4 && |t.kids| == |t.keys| + 1 && i < |t.keys| && t.keys[i] == k
    requires OK(kid, Lo(t.keys, i, lo), k, h - 1, c) && MinFill(kid, c.n)
    requires DelSame(t.kids[i], kid, k, false) && Contains(Flat(t.kids[i]).keys, k)
    ensures OK(Node(t.id, t.keys[i := FindBiggest(t.kids[i])], t.kids[i := kid]), lo, hi, h, c)
  {
    hide *;
    var l0, r0, h0, p := t.kids[i], t.kids[i + 1], Hi(t.keys, i + 1, hi), FindBiggest(t.kids[i]);
    InnerSeg(t, lo, hi, h, c);
    PairAt(t, i, lo, hi, h, c);
    DelSameFacts(l0, kid, k, false);
    SeparatorIsLast(t, i, k, lo, hi, h, c);
    Biggest(l0, Lo(t.keys, i, lo), k, h - 1, c);
    FlatOK(l0, Lo(t.keys, i, lo), k, h - 1, c);
    FlatOK(kid, Lo(t.keys, i, lo), k, h - 1, c);
    LastDelete(Flat(l0), k);
    InRangeSecond(Flat(l0).keys, Lo(t.keys, i, lo), k);
    SortedSecond(Flat(l0));
    assert Lo(t.keys, i, lo) < p < k && MaxKey(kid) == p;
    Tighten(kid, Lo(t.keys, i, lo), k, p, h - 1, c);
    Widen(r0, k, p, h0, h - 1, c);
    LinkFrom(l0, kid, r0);
    ExactFacts(p, kid, c);
    PairSeg(kid, p, r0, Lo(t.keys, i, lo), h0, h - 1, c);
    PairEnds(l0, kid, r0, c);
    Splice(t.keys, t.kids, i, i + 1, [p], [kid, r0], lo, hi, h - 1, c);
    assert t.keys[..i] + [p] + t.keys[i + 1..] == t.keys[i := p];
    assert t.kids[..i] + [kid, r0] + t.kids[i + 1 + 1..] == t.kids[i := kid];
    NodeOK(t.id, t.keys[i := p], t.kids[i := kid], lo, hi, h, c);
  }

  lemma InRangeSecond(keys: seq<int>, lo: int, hi: int)
    requires InRange(keys, lo, hi) && |keys| >= 2
    ensures lo < keys[|keys| - 2]
  {
  }

  lemma SortedSecond(kv: KV)
    requires KVOk(kv) && |kv.keys| >= 2
    ensures kv.keys[|kv.keys| - 2] < Last(kv.keys)
  {
  }

  lemma LinkFrom(l: Tree, l': Tree, r: Tree)
    requires Linked(l, r) && LastNext(l') == LastNext(l)
    ensures Linked(l', r)
  {
  }

  lemma PairEnds(l: Tree, l': Tree, r: Tree, c: Cfg)
    requires FirstLeaf(l') == FirstLeaf(l)
    ensures SameEnds(l, r, [l', r], c)
  {
  }

  lemma DelLeafOK(t: Tree, k: int, root: bool, lo: int, hi: int, h: nat, c: Cfg)
    requires CanDel(t, k, root, lo, hi, h, c) && t.Leaf?
    ensures KVOk(t.kv) && Del(t, k, root, lo, hi, h, c) == Leaf(t.id, OuterDelete(t.kv, k), t.next)
    ensures OK(Leaf(t.id, OuterDelete(t.kv, k), t.next), lo, hi, h, c)
    ensures !root ==> MinFill(Leaf(t.id, OuterDelete(t.kv, k), t.next), c.n)
  {
    LeafKV(t, lo, hi, h, c);
    DeleteKeys(t.kv, k);
    DeleteRange(t.kv, k, lo, hi);
    SpareSize(t, c.n);
  }

  lemma DeleteRange(kv: KV, k: int, lo: int, hi: int)
    requires KVOk(kv) && InRange(kv.keys, lo, hi)
    ensures InRange(OuterDelete(kv, k).keys, lo, hi)
  {
  }

  /** Contains on the pairs of t and of the kid k is routed to agree. */
  lemma ContainsKid(t: Tree, i: nat, k: int, lo: int, hi: int, h: nat, c: Cfg)
    requires t.Node? && OK(t, lo, hi, h, c) && Routed(t, i, k, lo, hi) && c.n >= 4 && i < |t.kids| && |t.kids| == |t.keys| + 1
    ensures Contains(Flat(t).keys, k) <==> Contains(Flat(t.kids[i]).keys, k)
  {
    hide *;
    RouteParts(t, i, k, lo, hi, h, c);
    GetMid(FlatSeg(t.kids[..i]), Flat(t.kids[i]), FlatSeg(t.kids[i + 1..]), k);
  }

  /** The last step of a deletion: the kid is done, the separator is exchanged if it was k. */
  lemma DelNodeOK(t: Tree, i: nat, kid: Tree, k: int, lo: int, hi: int, h: nat, c: Cfg)
    requires t.Node? && OK(t, lo, hi, h, c) && h > 0 && c.n >= 4 && |t.kids| == |t.keys| + 1 && i < |t.kids|
    requires OK(kid, Lo(t.keys, i, lo), Hi(t.keys, i, hi), h - 1, c) && MinFill(kid, c.n)
    requires DelSame(t.kids[i], kid, k, false)
    requires i < |t.keys| && t.keys[i] == k ==> Contains(Flat(t.kids[i]).keys, k)
    ensures OK(Node(t.id, Exchanged(t, i, k), t.kids[i := kid]), lo, hi, h, c)
  {
    if i < |t.keys| && t.keys[i] == k {
      assert Exchanged(t, i, k) == t.keys[i := FindBiggest(t.kids[i])] && Hi(t.keys, i, hi) == k;
      hide *;
      MoveSeparator(t, i, kid, k, lo, hi, h, c);
    } else {
      assert Exchanged(t, i, k) == t.keys;
      hide *;
      KeepSeparators(t, i, kid, k, lo, hi, h, c);
    }
  }

  lemma CleanVia(t: Tree, t1: Tree, k: int, root: bool, lo: int, hi: int, h: nat, h1: nat, c: Cfg)
    requires CanDel(t, k, root, lo, hi, h, c) && CanDel(t1, k, root, lo, hi, h1, c)
    requires Clean(t, k, root, lo, hi, h, c) && Flat(t1) == Flat(t)
    requires Exchanges(t, k, root, lo, hi, h, c) == Exchanges(t1, k, root, lo, hi, h1, c)
    ensures Clean(t1, k, root, lo, hi, h1, c)
  {
  }

  lemma CleanKid(t: Tree, k: int, root: bool, lo: int, hi: int, h: nat, c: Cfg)
    requires CanDel(t, k, root, lo, hi, h, c) && t.Node? && !(root && t.keys == []) && Ready(t, k, c.n)
    requires Clean(t, k, root, lo, hi, h, c)
    ensures h > 0 && |t.kids| == |t.keys| + 1
    ensures
      var i := Rank(t.keys, k);
      var l0, h0 := Lo(t.keys, i, lo), Hi(t.keys, i, hi);
      && CanDel(t.kids[i], k, false, l0, h0, h - 1, c) && Clean(t.kids[i], k, false, l0, h0, h - 1, c)
      && (i < |t.keys| && t.keys[i] == k ==> Contains(Flat(t.kids[i]).keys, k))
  {
    DelAtKid(t, k, root, lo, hi, h, c);
    ContainsKid(t, Rank(t.keys, k), k, lo, hi, h, c);
  }

  /** Deletion keeps the whole structural invariant unless it exchanges a separator for a key that is not stored. */
  lemma {:induction false} DelOK(t: Tree, k: int, root: bool, lo: int, hi: int, h: nat, c: Cfg) returns (h': nat)
    requires CanDel(t, k, root, lo, hi, h, c) && Clean(t, k, root, lo, hi, h, c)
    ensures OK(Del(t, k, root, lo, hi, h, c), lo, hi, h', c) && h' <= h
    ensures !root ==> h' == h && MinFill(Del(t, k, root, lo, hi, h, c), c.n)
    decreases h, if Ready(t, k, c.n) then 0 else 1
  {
    hide *;
    if t.Leaf? {
      h' := h;
      DelLeafOK(t, k, root, lo, hi, h, c);
    } else if root && t.keys == [] {
      DelAtRoot(t, k, lo, hi, h, c);
      CleanVia(t, t.kids[0], k, true, lo, hi, h, h - 1, c);
      h' := DelOK(t.kids[0], k, true, lo, hi, h - 1, c);
    } else if !Ready(t, k, c.n) {
      DelAtRepair(t, k, root, lo, hi, h, c);
      var t1 := Repair(t, Rank(t.keys, k), lo, hi, h, c);
      CleanVia(t, t1, k, root, lo, hi, h, h, c);
      h' := DelOK(t1, k, root, lo, hi, h, c);
    } else {
      h' := h;
      DelAtKid(t, k, root, lo, hi, h, c);
      CleanKid(t, k, root, lo, hi, h, c);
      var i := Rank(t.keys, k);
      var l0, h0 := Lo(t.keys, i, lo), Hi(t.keys, i, hi);
      var kid := Del(t.kids[i], k, false, l0, h0, h - 1, c);
      var _ := DelOK(t.kids[i], k, false, l0, h0, h - 1, c);
      DelFlat(t.kids[i], k, false, l0, h0, h - 1, c);
      DelNodeOK(t, i, kid, k, lo, hi, h, c);
      KeepsFill(t, Exchanged(t, i, k), t.kids[i := kid], c.n);
    }
  }

  lemma KeepsFill(t: Tree, keys: seq<int>, kids: seq<Tree>, n: nat)
    requires t.Node? && |keys| == |t.keys|
    ensures MinFill(t, n) ==> MinFill(Node(t.id, keys, kids), n)
  {
  }

  // ----- A separator that outlived its key: exactly when deletion goes wrong -----

  /** Whatever k is, the result has all leaves at one depth. */
  lemma {:induction false} DelShaped(t: Tree, k: int, root: bool, lo: int, hi: int, h: nat, c: Cfg) returns (h': nat)
    requires CanDel(t, k, root, lo, hi, h, c)
    ensures Shaped(Del(t, k, root, lo, hi, h, c), h') && h' <= h && (!root ==> h' == h)
    decreases h, if Ready(t, k, c.n) then 0 else 1
  {
    hide *;
    if t.Leaf? {
      h' := h;
      DelLeafOK(t, k, root, lo, hi, h, c);
      OKShaped(Del(t, k, root, lo, hi, h, c), lo, hi, h, c);
    } else if root && t.keys == [] {
      DelAtRoot(t, k, lo, hi, h, c);
      h' := DelShaped(t.kids[0], k, true, lo, hi, h - 1, c);
    } else if !Ready(t, k, c.n) {
      DelAtRepair(t, k, root, lo, hi, h, c);
      h' := DelShaped(Repair(t, Rank(t.keys, k), lo, hi, h, c), k, root, lo, hi, h, c);
    } else {
      h' := h;
      DelAtKid(t, k, root, lo, hi, h, c);
      var i := Rank(t.keys, k);
      var l0, h0 := Lo(t.keys, i, lo), Hi(t.keys, i, hi);
      var kid := Del(t.kids[i], k, false, l0, h0, h - 1, c);
      var _ := DelShaped(t.kids[i], k, false, l0, h0, h - 1, c);
      OKShaped(t, lo, hi, h, c);
      ShapedReplace(t, Exchanged(t, i, k), i, kid, h);
    }
  }

  lemma ShapedReplace(t: Tree, keys: seq<int>, i: nat, kid: Tree, h: nat)
    requires Shaped(t, h) && t.Node? && h > 0 && |keys| == |t.keys| && i < |t.kids| && Shaped(kid, h - 1)
    ensures Shaped(Node(t.id, keys, t.kids[i := kid]), h)
  {
  }

  /** After exchanging the separator of an absent key, the largest key x of the left subtree lies right of it. */
  lemma LostAtExchange(t: Tree, i: nat, kid: Tree, k: int, lo: int, hi: int, h: nat, c: Cfg) returns (x: int)
    requires t.Node? && OK(t, lo, hi, h, c) && h > 0 && c.n >= 4 && |t.kids| == |t.keys| + 1 && i < |t.keys| && t.keys[i] == k
    requires KVOk(Flat(t.kids[i])) && !Contains(Flat(t.kids[i]).keys, k) && Shaped(kid, h - 1)
    ensures lo < x <= hi && Routed(t, i, x, lo, hi) && Contains(Flat(t.kids[i]).keys, x)
    ensures Shaped(Node(t.id, Exchanged(t, i, k), t.kids[i := kid]), h)
    ensures !Finds(Node(t.id, Exchanged(t, i, k), t.kids[i := kid]), x, h)
  {
    hide *;
    var l0, r0, t' := t.kids[i], t.kids[i + 1], Node(t.id, Exchanged(t, i, k), t.kids[i := kid]);
    PairAt(t, i, lo, hi, h, c);
    InnerSeg(t, lo, hi, h, c);
    FlatOK(l0, Lo(t.keys, i, lo), k, h - 1, c);
    Biggest(l0, Lo(t.keys, i, lo), k, h - 1, c);
    x := Last(Flat(l0).keys);
    LastFacts(Flat(l0), Lo(t.keys, i, lo), k);
    OKShaped(t, lo, hi, h, c);
    ExchangedAt(t, i, k);
    ShapedReplace(t, Exchanged(t, i, k), i, kid, h);
    RoutedLast(t, i, x, k, lo, hi, FindBiggest(l0));
    FindsKid(t', x, h);
    SearchFlatOut(r0, x, k, Hi(t.keys, i + 1, hi), h - 1, c);
  }

  lemma ExchangedAt(t: Tree, i: nat, k: int)
    requires t.Node? && i < |t.keys| && |t.kids| == |t.keys| + 1 && t.keys[i] == k
    ensures Exchanged(t, i, k) == t.keys[i := FindBiggest(t.kids[i])]
  {
  }

  lemma LastFacts(kv: KV, lo: int, k: int)
    requires KVOk(kv) && InRange(kv.keys, lo, k) && |kv.keys| >= 2 && !Contains(kv.keys, k)
    ensures lo < Last(kv.keys) < k && Contains(kv.keys, Last(kv.keys))
    ensures kv.keys[|kv.keys| - 2] < Last(kv.keys)
  {
    ContainsIn(kv.keys, k);
    ContainsIn(kv.keys, Last(kv.keys));
  }

  lemma RoutedLast(t: Tree, i: nat, x: int, k: int, lo: int, hi: int, p: int)
    requires t.Node? && |t.kids| == |t.keys| + 1 && i < |t.keys| && t.keys[i] == k
    requires SegKeys(t.keys, lo, hi) && Lo(t.keys, i, lo) < x < k && p < x
    ensures Routed(t, i, x, lo, hi) && lo < x <= hi && Rank(t.keys[i := p], x) == i + 1
  {
    RankUnique(t.keys[i := p], x, i + 1);
  }

  /** A key below the range of a tree is not found in it. */
  lemma {:induction false} SearchFlatOut(t: Tree, x: int, lo: int, hi: int, h: nat, c: Cfg)
    requires OK(t, lo, hi, h, c) && c.n >= 4 && x < lo
    ensures Shaped(t, h) && !Finds(t, x, h)
    decreases h
  {
    hide *;
    OKShaped(t, lo, hi, h, c);
    InnerSeg(t, lo, hi, h, c);
    if t.Leaf? {
      LeafKV(t, lo, hi, h, c);
      OutOfLeaf(t, x, lo, hi, h);
    } else {
      FindsKid(t, x, h);
      OutOfNode(t.keys, x, lo, hi);
      KidAt(t, 0, lo, hi, h, c);
      Lo0(t.keys, lo);
      SearchFlatOut(t.kids[0], x, lo, Hi(t.keys, 0, hi), h - 1, c);
    }
  }

  lemma OutOfLeaf(t: Tree, x: int, lo: int, hi: int, h: nat)
    requires t.Leaf? && Shaped(t, h) && InRange(t.kv.keys, lo, hi) && x < lo
    ensures !Finds(t, x, h)
  {
  }

  lemma OutOfNode(keys: seq<int>, x: int, lo: int, hi: int)
    requires SegKeys(keys, lo, hi) && x < lo
    ensures Rank(keys, x) == 0
  {
    RankUnique(keys, x, 0);
  }

  /** Deleting an absent key whose separator is exchanged makes some stored key unreachable. */
  lemma {:induction false} DelStale(t: Tree, k: int, root: bool, lo: int, hi: int, h: nat, c: Cfg) returns (x: int, h': nat)
    requires CanDel(t, k, root, lo, hi, h, c) && !Clean(t, k, root, lo, hi, h, c)
    ensures lo < x <= hi && Contains(Flat(t).keys, x)
    ensures Shaped(Del(t, k, root, lo, hi, h, c), h') && !Finds(Del(t, k, root, lo, hi, h, c), x, h')
    ensures !root ==> h' == h
    decreases h, if Ready(t, k, c.n) then 0 else 1
  {
    hide *;
    CleanFacts(t, k, root, lo, hi, h, c);
    if t.Leaf? {
      DelAtLeaf(t, k, root, lo, hi, h, c);
      assert false;
    } else if root && t.keys == [] {
      DelAtRoot(t, k, lo, hi, h, c);
      CleanFacts(t.kids[0], k, true, lo, hi, h - 1, c);
      x, h' := DelStale(t.kids[0], k, true, lo, hi, h - 1, c);
    } else if !Ready(t, k, c.n) {
      DelAtRepair(t, k, root, lo, hi, h, c);
      var t1 := Repair(t, Rank(t.keys, k), lo, hi, h, c);
      CleanFacts(t1, k, root, lo, hi, h, c);
      x, h' := DelStale(t1, k, root, lo, hi, h, c);
    } else {
      h' := h;
      x := DelStaleKid(t, k, root, lo, hi, h, c);
    }
  }

  lemma CleanFacts(t: Tree, k: int, root: bool, lo: int, hi: int, h: nat, c: Cfg)
    requires CanDel(t, k, root, lo, hi, h, c)
    ensures Clean(t, k, root, lo, hi, h, c) <==> Contains(Flat(t).keys, k) || !Exchanges(t, k, root, lo, hi, h, c)
  {
  }

  lemma {:induction false} DelStaleKid(t: Tree, k: int, root: bool, lo: int, hi: int, h: nat, c: Cfg) returns (x: int)
    requires CanDel(t, k, root, lo, hi, h, c) && !Clean(t, k, root, lo, hi, h, c)
    requires t.Node? && !(root && t.keys == []) && Ready(t, k, c.n)
    ensures lo < x <= hi && Contains(Flat(t).keys, x)
    ensures Shaped(Del(t, k, root, lo, hi, h, c), h) && !Finds(Del(t, k, root, lo, hi, h, c), x, h)
    decreases h, 0, 0
  {
    hide *;
    CleanFacts(t, k, root, lo, hi, h, c);
    DelAtKid(t, k, root, lo, hi, h, c);
    var i := Rank(t.keys, k);
    var l0, h0 := Lo(t.keys, i, lo), Hi(t.keys, i, hi);
    RoutedFacts(t, i, k, lo, hi);
    ContainsKid(t, i, k, lo, hi, h, c);
    CleanFacts(t.kids[i], k, false, l0, h0, h - 1, c);
    if i < |t.keys| && t.keys[i] == k {
      var _ := DelShaped(t.kids[i], k, false, l0, h0, h - 1, c);
      KidAt(t, i, lo, hi, h, c);
      FlatOK(t.kids[i], l0, h0, h - 1, c);
      x := LostAtExchange(t, i, Del(t.kids[i], k, false, l0, h0, h - 1, c), k, lo, hi, h, c);
      ContainsKid(t, i, x, lo, hi, h, c);
    } else {
      var h1;
      x, h1 := DelStale(t.kids[i], k, false, l0, h0, h - 1, c);
      var kid := Del(t.kids[i], k, false, l0, h0, h - 1, c);
      ExchangedNot(t, i, k);
      InnerSeg(t, lo, hi, h, c);
      SegKeysOf(t, lo, hi, h, c);
      RangeWithin(t, i, x, lo, hi);
      RankRoute(t, i, x, lo, hi);
      ContainsKid(t, i, x, lo, hi, h, c);
      OKShaped(t, lo, hi, h, c);
      ShapedReplace(t, t.keys, i, kid, h);
      FindsKid(Node(t.id, t.keys, t.kids[i := kid]), x, h);
    }
  }

  lemma ExchangedNot(t: Tree, i: nat, k: int)
    requires t.Node? && i < |t.kids| && |t.kids| == |t.keys| + 1 && !(i < |t.keys| && t.keys[i] == k)
    ensures Exchanged(t, i, k) == t.keys
  {
  }

  lemma SegKeysOf(t: Tree, lo: int, hi: int, h: nat, c: Cfg)
    requires t.Node? && OK(t, lo, hi, h, c)
    ensures SegKeys(t.keys, lo, hi) && Sorted(t.keys)
  {
    InnerSeg(t, lo, hi, h, c);
  }

  lemma RangeWithin(t: Tree, i: nat, x: int, lo: int, hi: int)
    requires t.Node? && |t.kids| == |t.keys| + 1 && i < |t.kids| && SegKeys(t.keys, lo, hi)
    requires Lo(t.keys, i, lo) < x <= Hi(t.keys, i, hi)
    ensures Routed(t, i, x, lo, hi) && lo < x <= hi
  {
  }

  /** With exact separators only stored keys are exchanged. */
  lemma {:induction false} ExactIsClean(t: Tree, k: int, root: bool, lo: int, hi: int, h: nat, c: Cfg)
    requires CanDel(t, k, root, lo, hi, h, c) && c.exact
    ensures Clean(t, k, root, lo, hi, h, c)
    decreases h, if Ready(t, k, c.n) then 0 else 1
  {
    hide *;
    CleanFacts(t, k, root, lo, hi, h, c);
    if t.Leaf? {
      DelAtLeaf(t, k, root, lo, hi, h, c);
    } else if root && t.keys == [] {
      DelAtRoot(t, k, lo, hi, h, c);
      ExactIsClean(t.kids[0], k, true, lo, hi, h - 1, c);
      CleanFacts(t.kids[0], k, true, lo, hi, h - 1, c);
    } else if !Ready(t, k, c.n) {
      DelAtRepair(t, k, root, lo, hi, h, c);
      var t1 := Repair(t, Rank(t.keys, k), lo, hi, h, c);
      ExactIsClean(t1, k, root, lo, hi, h, c);
      CleanFacts(t1, k, root, lo, hi, h, c);
    } else {
      DelAtKid(t, k, root, lo, hi, h, c);
      var i := Rank(t.keys, k);
      var l0, h0 := Lo(t.keys, i, lo), Hi(t.keys, i, hi);
      RoutedFacts(t, i, k, lo, hi);
      ContainsKid(t, i, k, lo, hi, h, c);
      if i < |t.keys| && t.keys[i] == k {
        ExactSeparator(t, i, lo, hi, h, c);
      } else {
        ExactIsClean(t.kids[i], k, false, l0, h0, h - 1, c);
        CleanFacts(t.kids[i], k, false, l0, h0, h - 1, c);
      }
    }
  }

  /** An exact separator is a stored key of the subtree on its left. */
  lemma ExactSeparator(t: Tree, i: nat, lo: int, hi: int, h: nat, c: Cfg)
    requires t.Node? && OK(t, lo, hi, h, c) && c.n >= 4 && c.exact && |t.kids| == |t.keys| + 1 && i < |t.keys|
    ensures Contains(Flat(t.kids[i]).keys, t.keys[i])
  {
    hide *;
    PairAt(t, i, lo, hi, h, c);
    ExactFacts(t.keys[i], t.kids[i], c);
    FlatOK(t.kids[i], Lo(t.keys, i, lo), t.keys[i], h - 1, c);
    LastIn(Flat(t.kids[i]));
  }

  lemma LastIn(kv: KV)
    requires KVOk(kv) && kv.keys != []
    ensures Contains(kv.keys, Last(kv.keys))
  {
    ContainsIn(kv.keys, Last(kv.keys));
  }

  lemma DeleteContains(kv: KV, k: int, x: int)
    requires KVOk(kv)
    ensures KVOk(OuterDelete(kv, k))
    ensures Contains(OuterDelete(kv, k).keys, x) <==> x != k && Contains(kv.keys, x)
  {
    DeleteKeys(kv, k);
    ContainsIn(kv.keys, x);
    ContainsIn(OuterDelete(kv, k).keys, x);
    if x in kv.keys && x != k {
      DeleteGetOther(kv, k, x);
    }
  }

  /** The lookups of t' answer for exactly the keys of t except k. */
  ghost predicate FindsAllBut(t: Tree, t': Tree, k: int, lo: int, hi: int, h': nat) {
    Shaped(t', h') && forall x :: lo < x <= hi ==> (Finds(t', x, h') <==> x != k && Contains(Flat(t).keys, x))
  }

  /** Deleting any key, present or not, is right for every later lookup if and only if the deletion is clean. */
  lemma DeleteIff(t: Tree, k: int, lo: int, hi: int, h: nat, c: Cfg) returns (h': nat)
    requires CanDel(t, k, true, lo, hi, h, c)
    ensures Shaped(Del(t, k, true, lo, hi, h, c), h')
    ensures Clean(t, k, true, lo, hi, h, c) <==> FindsAllBut(t, Del(t, k, true, lo, hi, h, c), k, lo, hi, h')
  {
    var t' := Del(t, k, true, lo, hi, h, c);
    CleanFacts(t, k, true, lo, hi, h, c);
    if Clean(t, k, true, lo, hi, h, c) {
      h' := DeleteClean(t, k, lo, hi, h, c);
    } else {
      var x;
      hide Clean, Del, CanDel, Exchanges, Finds, Shaped, Contains;
      x, h' := DelStale(t, k, true, lo, hi, h, c);
      assert x != k;
      assert !(Finds(t', x, h') <==> x != k && Contains(Flat(t).keys, x));
    }
  }

  lemma DeleteClean(t: Tree, k: int, lo: int, hi: int, h: nat, c: Cfg) returns (h': nat)
    requires CanDel(t, k, true, lo, hi, h, c) && Clean(t, k, true, lo, hi, h, c)
    ensures OK(Del(t, k, true, lo, hi, h, c), lo, hi, h', c)
    ensures FindsAllBut(t, Del(t, k, true, lo, hi, h, c), k, lo, hi, h')
  {
    var t' := Del(t, k, true, lo, hi, h, c);
    hide Clean, Del, CanDel, OK, Finds, Shaped, Contains, OuterDelete, Flat, KVOk;
    h' := DelOK(t, k, true, lo, hi, h, c);
    DelFlat(t, k, true, lo, hi, h, c);
    DelSameFacts(t, t', k, true);
    CanDelN(t, k, true, lo, hi, h, c);
    OKShaped(t', lo, hi, h', c);
    forall x | lo < x <= hi ensures Finds(t', x, h') <==> x != k && Contains(Flat(t).keys, x) {
      SearchFlat(t', x, lo, hi, h', c);
      DeleteContains(Flat(t), k, x);
    }
  }

  lemma {:induction false} OneHeight(t: Tree, h: nat, h': nat)
    requires Shaped(t, h) && Shaped(t, h')
    ensures h == h'
    decreases h
  {
    if t.Node? {
      OneHeight(t.kids[0], h - 1, h' - 1);
    }
  }

  /** The tree an unclean deletion leaves satisfies the invariant at no height. */
  lemma UncleanBreaks(t: Tree, k: int, lo: int, hi: int, h: nat, h': nat, c: Cfg)
    requires CanDel(t, k, true, lo, hi, h, c) && OK(Del(t, k, true, lo, hi, h, c), lo, hi, h', c)
    ensures Clean(t, k, true, lo, hi, h, c)
  {
    hide *;
    if !Clean(t, k, true, lo, hi, h, c) {
      var t' := Del(t, k, true, lo, hi, h, c);
      CanDelN(t, k, true, lo, hi, h, c);
      CleanFacts(t, k, true, lo, hi, h, c);
      var x, h1 := DelStale(t, k, true, lo, hi, h, c);
      OKShaped(t', lo, hi, h', c);
      OneHeight(t', h', h1);
      SearchFlat(t', x, lo, hi, h', c);
      DelFlat(t, k, true, lo, hi, h, c);
      DelSameFacts(t, t', k, true);
      DeleteContains(Flat(t), k, x);
    }
  }

  lemma CanDelN(t: Tree, k: int, root: bool, lo: int, hi: int, h: nat, c: Cfg)
    requires CanDel(t, k, root, lo, hi, h, c)
    ensures c.n >= 4 && lo < k <= hi && OK(t, lo, hi, h, c)
  {
  }
}
