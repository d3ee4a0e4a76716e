/**
 * Stale separators: a key that is no separator of the tree is always deleted
 * cleanly, and one that outlived its key takes a stored key with it.
 */
module BTreeStale {
  import opened Common
  import opened Pages
  import opened BTreeModel
  import opened BTreeSearch
  import opened BTreeInsert
  import opened BTreeDelete
  import opened BTreeMoves
  import opened BTreeLeaves
  import opened BTreeEnter

  // ----- Keys that separate nothing -----

  /** k is a separator of some inner node of t. */
  ghost predicate Separates(t: Tree, k: int)
    decreases t
  {
    t.Node? && (k in t.keys || exists i :: 0 <= i < |t.kids| && Separates(t.kids[i], k))
  }

  /** k is nowhere in t, neither stored nor as a separator. */
  ghost predicate Absent(t: Tree, k: int) {
    !Separates(t, k) && k !in Flat(t).keys
  }

  lemma AbsentKid(t: Tree, k: int, i: nat)
    requires t.Node? && Absent(t, k) && i < |t.kids|
    ensures Absent(t.kids[i], k) && k !in t.keys
  {
    FlatAt(t.kids, i);
  }

  /** Two neighbours in one node hold nothing new, and neither do the halves of a node or the key between them. */
  lemma AbsentMerge(l: Tree, s: int, r: Tree, k: int)
    requires Absent(l, k) && Absent(r, k) && s != k && l.Leaf? == r.Leaf?
    ensures !Separates(Merge(l, s, r), k) && (l.Leaf? ==> Absent(Merge(l, s, r), k))
  {
    if l.Node? {
      var m := Merge(l, s, r);
      forall i | 0 <= i < |m.kids| ensures !Separates(m.kids[i], k) {
      }
    }
  }

  lemma AbsentCut(t: Tree, q: nat, rid: nat, k: int)
    requires CutAt(t, q) && !Separates(t, k) && (t.Leaf? ==> Absent(t, k))
    ensures var (l, s, r) := Cut(t, q, rid); !Separates(l, k) && s != k && !Separates(r, k)
  {
    var (l, s, r) := Cut(t, q, rid);
    if t.Node? {
      assert forall i :: 0 <= i < |l.kids| ==> l.kids[i] == t.kids[i];
      assert forall i :: 0 <= i < |r.kids| ==> r.kids[i] == t.kids[q + 1 + i];
    }
  }

  lemma SeparatesSplice(t: Tree, j: nat, ks: seq<int>, cs: seq<Tree>, k: int)
    requires t.Node? && j + 1 < |t.kids| == |t.keys| + 1 && !Separates(t, k) && k !in ks
    requires forall i :: 0 <= i < |cs| ==> !Separates(cs[i], k)
    ensures !Separates(Splicing(t, j, j + 1, ks, cs), k)
  {
    var kids := t.kids[..j] + cs + t.kids[j + 2..];
    forall i | 0 <= i < |kids| ensures !Separates(kids[i], k) {
      if j <= i < j + |cs| {
        assert kids[i] == cs[i - j];
      }
    }
  }

  lemma AbsentBoth(t: Tree, j: nat, k: int)
    requires t.Node? && |t.kids| == |t.keys| + 1 && j < |t.keys| && Absent(t, k) && t.kids[j].Leaf? == t.kids[j + 1].Leaf?
    ensures !Separates(Both(t, j), k) && (Both(t, j).Leaf? ==> Absent(Both(t, j), k))
  {
    hide *;
    BothIs(t, j);
    BothLeaf(t, j);
    AbsentKid(t, k, j);
    AbsentKid(t, k, j + 1);
    AbsentMerge(t.kids[j], t.keys[j], t.kids[j + 1], k);
  }

  lemma AbsentRebalance(t: Tree, j: nat, q: nat, k: int)
    requires t.Node? && |t.kids| == |t.keys| + 1 && j < |t.keys| && Absent(t, k) && t.kids[j].Leaf? == t.kids[j + 1].Leaf?
    requires CutAt(Both(t, j), q)
    ensures !Separates(Rebalance(t, j, q), k)
  {
    var (l, s, r) := Cut(Both(t, j), q, t.kids[j + 1].id);
    assert Rebalance(t, j, q) == Splicing(t, j, j + 1, [s], [l, r]) && !Separates(t, k);
    hide *;
    AbsentBoth(t, j, k);
    AbsentCut(Both(t, j), q, t.kids[j + 1].id, k);
    SeparatesSplice(t, j, [s], [l, r], k);
  }

  lemma AbsentMergeAt(t: Tree, j: nat, k: int)
    requires t.Node? && |t.kids| == |t.keys| + 1 && j < |t.keys| && Absent(t, k) && t.kids[j].Leaf? == t.kids[j + 1].Leaf?
    ensures !Separates(MergeAt(t, j), k)
  {
    assert MergeAt(t, j) == Splicing(t, j, j + 1, [], [Both(t, j)]) && !Separates(t, k);
    hide *;
    AbsentBoth(t, j, k);
    SeparatesSplice(t, j, [], [Both(t, j)], k);
  }

  /** A borrow or a merge makes no separator of a key that is nowhere in the tree. */
  lemma AbsentRepair(t: Tree, i: nat, k: int, lo: int, hi: int, h: nat, c: Cfg)
    requires Poor(t, i, lo, hi, h, c) && Absent(t, k)
    ensures Absent(Repair(t, i, lo, hi, h, c), k)
  {
    hide *;
    var t' := Repair(t, i, lo, hi, h, c);
    RepairSeparates(t, i, k, lo, hi, h, c);
    RepairOK(t, i, lo, hi, h, c);
    SameFlat(t, t');
    AbsentIntro(t, k);
    AbsentIntro(t', k);
  }

  lemma RepairSeparates(t: Tree, i: nat, k: int, lo: int, hi: int, h: nat, c: Cfg)
    requires Poor(t, i, lo, hi, h, c) && Absent(t, k)
    ensures !Separates(Repair(t, i, lo, hi, h, c), k)
  {
    hide Separates, Absent, OK, Flat, Rebalance, MergeAt, CutAt, Both, Size, Spare;
    var t' := Repair(t, i, lo, hi, h, c);
    match Choice(t, i, c.n) {
      case BorrowLeft =>
        BorrowLeftFits(t, i, lo, hi, h, c);
        var q := Size(t.kids[i - 1]) - 1;
        assert t' == Rebalance(t, i - 1, q);
        hide *;
        BothOK(t, i - 1, lo, hi, h, c);
        AbsentRebalance(t, i - 1, q, k);
      case BorrowRight =>
        BorrowRightFits(t, i, lo, hi, h, c);
        var q := Size(t.kids[i]) + 1;
        assert t' == Rebalance(t, i, q);
        hide *;
        BothOK(t, i, lo, hi, h, c);
        AbsentRebalance(t, i, q, k);
      case MergeLeft =>
        assert t' == MergeAt(t, i - 1);
        hide *;
        BothOK(t, i - 1, lo, hi, h, c);
        AbsentMergeAt(t, i - 1, k);
      case MergeRight =>
        assert t' == MergeAt(t, i);
        hide *;
        BothOK(t, i, lo, hi, h, c);
        AbsentMergeAt(t, i, k);
    }
  }

  lemma {:induction false} AbsentStays(t: Tree, k: int, root: bool, lo: int, hi: int, h: nat, c: Cfg)
    requires CanDel(t, k, root, lo, hi, h, c) && Absent(t, k)
    ensures !Exchanges(t, k, root, lo, hi, h, c)
    decreases h, if Ready(t, k, c.n) then 0 else 1
  {
    hide *;
    if t.Leaf? {
      DelAtLeaf(t, k, root, lo, hi, h, c);
    } else if root && t.keys == [] {
      DelAtRoot(t, k, lo, hi, h, c);
      AbsentKid(t, k, 0);
      AbsentStays(t.kids[0], k, true, lo, hi, h - 1, c);
    } else if !Ready(t, k, c.n) {
      DelAtRepair(t, k, root, lo, hi, h, c);
      var i := Rank(t.keys, k);
      AbsentRepair(t, i, k, lo, hi, h, c);
      AbsentStays(Repair(t, i, lo, hi, h, c), k, root, lo, hi, h, c);
    } else {
      DelAtKid(t, k, root, lo, hi, h, c);
      var i := Rank(t.keys, k);
      RoutedFacts(t, i, k, lo, hi);
      AbsentKid(t, k, i);
      AbsentStays(t.kids[i], k, false, Lo(t.keys, i, lo), Hi(t.keys, i, hi), h - 1, c);
    }
  }

  /** Deleting a key that is no separator of the tree is clean, whatever borrows and merges happen on the way. */
  lemma UnmarkedIsClean(t: Tree, k: int, root: bool, lo: int, hi: int, h: nat, c: Cfg)
    requires CanDel(t, k, root, lo, hi, h, c) && !Separates(t, k)
    ensures Clean(t, k, root, lo, hi, h, c)
  {
    hide *;
    CleanFacts(t, k, root, lo, hi, h, c);
    if !Contains(Flat(t).keys, k) {
      CanDelN(t, k, root, lo, hi, h, c);
      FlatOK(t, lo, hi, h, c);
      KVOkSorted(Flat(t));
      ContainsIn(Flat(t).keys, k);
      AbsentIntro(t, k);
      AbsentStays(t, k, root, lo, hi, h, c);
    }
  }

  lemma AbsentIntro(t: Tree, k: int)
    ensures Absent(t, k) <==> !Separates(t, k) && k !in Flat(t).keys
  {
  }

  // ----- A separator that outlived its key, with leaves of four; a, b and c are page ids -----

  /** The leaf root after the insertion of 5, 10, 11 and 12. */
  ghost function FourKeys(a: nat): Tree {
    Leaf(a, KV([5, 10, 11, 12], [5, 10, 11, 12]), 0)
  }

  /** The leaves with these pairs and with 11 and 12, separated by 10. */
  ghost function Pair(a: nat, b: nat, c: nat, kv: KV): Tree {
    Node(c, [10], [Leaf(a, kv, b), Leaf(b, KV([11, 12], [11, 12]), 0)])
  }

  ghost const HALF: KV := KV([5, 10], [5, 10])
  ghost const MORE: KV := KV([1, 5, 10], [1, 5, 10])
  ghost const FULL: KV := KV([1, 5, 8, 10], [1, 5, 8, 10])
  ghost const STALE: KV := KV([1, 5, 8], [1, 5, 8])

  /** The tree after 10 has been deleted from its leaf through the cache. */
  ghost function StaleTree(a: nat, b: nat, c: nat): Tree {
    Pair(a, b, c, STALE)
  }

  lemma LeavesAre()
    ensures KVOk(HALF) && KVOk(MORE) && KVOk(FULL) && KVOk(STALE)
    ensures |FULL.keys| == 4 && |STALE.keys| == 3 && |MORE.keys| == 3 && 10 in FULL.keys && FULL.keys[3] == 10
  {
  }

  lemma EntriesAre()
    ensures |HALF.keys| == |HALF.vals| && |MORE.keys| == |MORE.vals|
    ensures OuterInsert(HALF, 1, 1) == MORE && OuterInsert(MORE, 8, 8) == FULL
  {
    RankUnique([5, 10], 1, 0);
    RankUnique([1, 5, 10], 8, 2);
  }

  lemma TenIs()
    ensures OuterGet(FULL, 10) == 10 != ABSENT && OuterDelete(FULL, 10) == STALE && Contains(FULL.keys, 10)
  {
    RankUnique([1, 5, 8, 10], 10, 3);
  }

  lemma FourKeysIs()
    ensures |EMPTY.keys| == 0 && |HALF.keys| == 2 && OuterInsert(EMPTY, 5, 5) == KV([5], [5]) && OuterInsert(KV([5], [5]), 10, 10) == HALF
    ensures OuterInsert(HALF, 11, 11) == KV([5, 10, 11], [5, 10, 11])
    ensures OuterInsert(KV([5, 10, 11], [5, 10, 11]), 12, 12) == KV([5, 10, 11, 12], [5, 10, 11, 12])
  {
    hide OuterInsert;
    Append(EMPTY, 5, 5);
    Append(KV([5], [5]), 10, 10);
    Append(HALF, 11, 11);
    Append(KV([5, 10, 11], [5, 10, 11]), 12, 12);
  }

  lemma Append(kv: KV, k: int, v: Value)
    requires |kv.keys| == |kv.vals| && forall i :: 0 <= i < |kv.keys| ==> kv.keys[i] < k
    ensures OuterInsert(kv, k, v) == KV(kv.keys + [k], kv.vals + [v])
  {
    RankUnique(kv.keys, k, |kv.keys|);
  }

  /** The node over the two leaves is a whole tree; before the deletion its separator is the largest key on its left. */
  lemma PairOK(a: nat, b: nat, c: nat, kv: KV, exact: bool)
    requires KVOk(kv) && 2 <= |kv.keys| <= 4 && forall i :: 0 <= i < |kv.keys| ==> 0 <= kv.keys[i] <= 10
    requires exact ==> kv.keys[|kv.keys| - 1] == 10
    ensures OK(Pair(a, b, c, kv), LOW, INT64_MAX, 1, Cfg(4, exact)) && LastNext(Pair(a, b, c, kv)) == 0
  {
    var cfg := Cfg(4, exact);
    var l, r := Leaf(a, kv, b), Leaf(b, KV([11, 12], [11, 12]), 0);
    assert OK(l, LOW, 10, 0, cfg) && OK(r, 10, INT64_MAX, 0, cfg);
    assert MinFill(l, 4) && MinFill(r, 4) && Linked(l, r);
    assert LOW < 10 < INT64_MAX && Exact(10, l, cfg) && LastNext(Pair(a, b, c, kv)) == 0;
    assert Pair(a, b, c, kv) == Node(c, [10], [l, r]);
    hide *;
    PairSeg(l, 10, r, LOW, INT64_MAX, 0, cfg);
    NodeOK(c, [10], [l, r], LOW, INT64_MAX, 1, cfg);
  }

  /** Keys up to 10 lead to the left leaf. */
  lemma LeftLeaf(a: nat, b: nat, c: nat, kv: KV, k: int, kv': KV)
    requires k <= 10
    ensures LeafOf(Pair(a, b, c, kv), k) == Leaf(a, kv, b) && SetKV(Pair(a, b, c, kv), k, kv') == Pair(a, b, c, kv')
    ensures |kv.keys| < 4 ==> !Full(Pair(a, b, c, kv), 4) && Roomy(Pair(a, b, c, kv), k, 4)
    ensures |kv.keys| > 2 ==> Spare(LeafOf(Pair(a, b, c, kv), k), 4)
  {
    RankUnique([10], k, 0);
    var l, r := Leaf(a, kv, b), Leaf(b, KV([11, 12], [11, 12]), 0);
    assert [l, r][0 := Leaf(a, kv', b)] == [Leaf(a, kv', b), r];
  }

  // ----- The steps of a run that leads there -----

  /** Insertion into a leaf root with room. */
  lemma LeafStep(t: Tree, t': Tree, k: int, v: Value)
    requires t.Leaf? && Enters(t, t', k, v)
    ensures |t.kv.keys| == |t.kv.vals| && t' == Leaf(t.id, OuterInsert(t.kv, k, v), t.next)
  {
  }

  lemma HalvesIs(a: nat, b: nat, c: nat)
    ensures CutAt(FourKeys(a), KeepCount(FourKeys(a), 4)) && SplitRoot(FourKeys(a), b, c, 4) == Pair(a, b, c, HALF)
  {
    var kv := FourKeys(a).kv;
    assert kv.keys[..2] == HALF.keys && kv.keys[2..] == [11, 12] && kv.vals[..2] == HALF.vals && kv.vals[2..] == [11, 12];
    assert KeepCount(FourKeys(a), 4) == 2;
  }

  /** The insertion of 1 splits the root. */
  lemma SplitStep(a: nat, t': Tree)
    requires RootEnters(FourKeys(a), t', 1, 1, 4)
    ensures t'.Node? && |t'.kids| == 2 && t' == Pair(a, t'.kids[1].id, t'.id, MORE)
  {
    assert t'.Node? && |t'.kids| == 2;
    var b, c := t'.kids[1].id, t'.id;
    HalvesIs(a, b, c);
    assert Enters(Pair(a, b, c, HALF), t', 1, 1);
    hide *;
    EntriesAre();
    EntersStep(a, b, c, HALF, MORE, t', 1, 1);
  }

  lemma EntersStep(a: nat, b: nat, c: nat, kv: KV, kv': KV, t': Tree, k: int, v: Value)
    requires k <= 10 && |kv.keys| == |kv.vals| && OuterInsert(kv, k, v) == kv' && Enters(Pair(a, b, c, kv), t', k, v)
    ensures t' == Pair(a, b, c, kv')
  {
    LeftLeaf(a, b, c, kv, k, kv');
  }

  /** The deletion of 10 on its leaf. */
  lemma DropStep(a: nat, b: nat, c: nat, t': Tree)
    requires Dropped(Pair(a, b, c, FULL), t', 10)
    ensures t' == StaleTree(a, b, c)
  {
    TenIs();
    LeftLeaf(a, b, c, FULL, 10, STALE);
  }

  // ----- What happens next -----

  lemma StaleOK(a: nat, b: nat, c: nat)
    ensures OK(StaleTree(a, b, c), LOW, INT64_MAX, 1, Cfg(4, false)) && LastNext(StaleTree(a, b, c)) == 0
  {
    PairOK(a, b, c, STALE, false);
  }

  lemma StaleKeys(a: nat, b: nat, c: nat)
    ensures !Contains(Flat(StaleTree(a, b, c)).keys, 10) && Contains(Flat(StaleTree(a, b, c)).keys, 8)
  {
    var t := StaleTree(a, b, c);
    FlatPair(t.kids[0], t.kids[1]);
    var keys := Flat(t).keys;
    assert keys == [1, 5, 8, 11, 12];
    RankUnique(keys, 10, 3);
    RankUnique(keys, 8, 2);
  }

  lemma StaleReady(a: nat, b: nat, c: nat)
    ensures
      var t := StaleTree(a, b, c);
      && t.Node? && t.id == c && t.keys == [10] && |t.kids| == 2 && t.kids[1] == Leaf(b, KV([11, 12], [11, 12]), 0)
      && Rank(t.keys, 10) == 0 && Ready(t, 10, 4) && Exchanged(t, 0, 10) == [5]
  {
    RankUnique([10], 10, 0);
  }

  /**
   * In an engine with a cache whose separator 10 outlived its key, deleting 10 once
   * more leaves 8 stored but unreachable.
   */
  lemma StaleExample(a: nat, b: nat, c: nat)
    ensures CanDel(StaleTree(a, b, c), 10, true, LOW, INT64_MAX, 1, Cfg(4, false)) && LastNext(StaleTree(a, b, c)) == 0
    ensures !Contains(Flat(StaleTree(a, b, c)).keys, 10) && !Clean(StaleTree(a, b, c), 10, true, LOW, INT64_MAX, 1, Cfg(4, false))
    ensures Contains(Flat(StaleTree(a, b, c)).keys, 8)
    ensures
      var t' := Del(StaleTree(a, b, c), 10, true, LOW, INT64_MAX, 1, Cfg(4, false));
      Shaped(t', 1) && !Finds(t', 8, 1)
  {
    hide *;
    var cfg, t := Cfg(4, false), StaleTree(a, b, c);
    StaleOK(a, b, c);
    StaleKeys(a, b, c);
    StaleReady(a, b, c);
    StaleCanDel(a, b, c);
    DelAtKid(t, 10, true, LOW, INT64_MAX, 1, cfg);
    CleanFacts(t, 10, true, LOW, INT64_MAX, 1, cfg);
    var kid := Del(t.kids[0], 10, false, Lo(t.keys, 0, LOW), Hi(t.keys, 0, INT64_MAX), 0, cfg);
    var _ := DelShaped(t.kids[0], 10, false, Lo(t.keys, 0, LOW), Hi(t.keys, 0, INT64_MAX), 0, cfg);
    StaleLost(b, c, kid);
    assert t.kids[0 := kid] == [kid, t.kids[1]];
  }

  lemma StaleCanDel(a: nat, b: nat, c: nat)
    ensures CanDel(StaleTree(a, b, c), 10, true, LOW, INT64_MAX, 1, Cfg(4, false))
  {
    hide OK, StaleTree;
    StaleOK(a, b, c);
  }

  lemma StaleLost(b: nat, c: nat, kid: Tree)
    requires Shaped(kid, 0)
    ensures
      var t' := Node(c, [5], [kid, Leaf(b, KV([11, 12], [11, 12]), 0)]);
      Shaped(t', 1) && !Finds(t', 8, 1)
  {
    RankUnique([5], 8, 1);
    RankUnique([11, 12], 8, 0);
    FindsKid(Node(c, [5], [kid, Leaf(b, KV([11, 12], [11, 12]), 0)]), 8, 1);
  }
}
