/**
 * The chain of leaves: from the leaf a key leads to, the next pointers list the
 * rest of the tree in key order, whatever splits and merges came before.
 */
module BTreeChain {
  import opened Common
  import opened Pages
  import opened BTreeModel
  import opened BTreeStore
  import opened BTreeDelete
  import opened BTreeInsert
  import opened BTreeSteps
  import opened BTreeMoves
  import opened BTreeLeaves
  import opened TreeOperations

  /** The leaves of t from left to right. */
  ghost function All(t: Tree): seq<nat>
    decreases t, 1
  {
    match t
    case Leaf(id, _, _) => [id]
    case Node(_, _, kids) => AllSeg(kids)
  }

  ghost function AllSeg(kids: seq<Tree>): seq<nat>
    decreases kids, 0
  {
    if kids == [] then [] else All(kids[0]) + AllSeg(kids[1..])
  }

  /** The leaves of t from the one k leads to. */
  ghost function From(t: Tree, k: int): seq<nat>
    decreases t
  {
    if t.Leaf? then [t.id]
    else if Rank(t.keys, k) >= |t.kids| then []
    else From(t.kids[Rank(t.keys, k)], k) + AllSeg(t.kids[Rank(t.keys, k) + 1..])
  }

  /** ids are consecutive leaves, the last of which points to next; none but the first is empty. */
  ghost predicate Run(m: Store, ids: seq<nat>, next: nat) {
    && ids != [] && LeafIn(m, ids[0])
    && if |ids| == 1 then m[ids[0]].next == next
       else m[ids[0]].next == ids[1] && ids[1] != ids[0] && Run(m, ids[1..], next) && m[ids[1]].kv.keys != []
  }

  ghost predicate Within(ids: seq<nat>, s: set<nat>) {
    forall x :: x in ids ==> x in s
  }

  ghost function Vals(m: Store, ids: seq<nat>): seq<Value> {
    if ids == [] then [] else (if LeafIn(m, ids[0]) then m[ids[0]].kv.vals else []) + Vals(m, ids[1..])
  }

  lemma {:induction false} RunIsChain(m: Store, ids: seq<nat>)
    requires Run(m, ids, 0)
    ensures LeafChain(m, ids) && ChainVals(m, ids) == Vals(m, ids)
  {
    if |ids| > 1 {
      RunIsChain(m, ids[1..]);
    } else {
      assert ids[1..] == [];
    }
  }

  lemma {:induction false} RunCat(m: Store, a: seq<nat>, b: seq<nat>, next: nat)
    requires a != [] && b != [] && Run(m, a, b[0]) && Run(m, b, next) && m[b[0]].kv.keys != []
    requires b[0] !in a
    ensures Run(m, a + b, next) && Vals(m, a + b) == Vals(m, a) + Vals(m, b)
  {
    assert (a + b)[0] == a[0] && (a + b)[1..] == a[1..] + b;
    if |a| == 1 {
      assert a[1..] + b == b;
      assert Vals(m, a[1..]) == [];
      assert (a + b)[1] == b[0];
    } else {
      RunCat(m, a[1..], b, next);
      assert (a + b)[1] == a[1];
    }
  }

  lemma {:induction false} ValsCat(m: Store, a: seq<nat>, b: seq<nat>)
    ensures Vals(m, a + b) == Vals(m, a) + Vals(m, b)
  {
    if a == [] {
      assert a + b == b;
    } else {
      assert (a + b)[1..] == a[1..] + b;
      ValsCat(m, a[1..], b);
    }
  }

  lemma LeafRun(m: Store, t: Tree)
    requires t.Leaf? && Rep(m, t) && 0 !in m && |t.kv.keys| == |t.kv.vals|
    ensures Run(m, [t.id], LastNext(t)) && FirstLeaf(t) == t.id && Vals(m, [t.id]) == t.kv.vals && m[t.id] == Outer(t.kv, t.next)
    ensures Flat(t) == t.kv && Ids(t) == {t.id} && t.id in m && Within([t.id], Ids(t))
  {
    assert [t.id][1..] == [];
  }

  /** The leaves of a filled tree are a run, from its first leaf to its outer link, that spells its values. */
  lemma {:induction false} AllRun(m: Store, t: Tree, lo: int, hi: int, h: nat, c: Cfg)
    requires OK(t, lo, hi, h, c) && c.n >= 4 && MinFill(t, c.n) && Rep(m, t) && Disj(t) && 0 !in m
    ensures All(t) != [] && All(t)[0] == FirstLeaf(t) && Run(m, All(t), LastNext(t))
    ensures FirstLeaf(t) in m && m[FirstLeaf(t)].Outer? && m[FirstLeaf(t)].kv.keys != []
    ensures Vals(m, All(t)) == Flat(t).vals && Within(All(t), Ids(t))
    decreases h, 0, 0
  {
    hide *;
    if t.Leaf? {
      LeafKV(t, lo, hi, h, c);
      SortedIs(t.kv);
      LeafRun(m, t);
      LeafNotEmpty(t, c.n);
      AllLeaf(t);
    } else {
      InnerSeg(t, lo, hi, h, c);
      AllNode(m, t);
      AllSegRun(m, t.keys, t.kids, lo, hi, h - 1, c);
      WithinCat(All(t), [], IdsSeg(t.kids), {}, Ids(t));
      assert All(t) + [] == All(t);
    }
  }

  lemma AllLeaf(t: Tree)
    requires t.Leaf?
    ensures All(t) == [t.id]
  {
  }

  lemma AllNode(m: Store, t: Tree)
    requires t.Node? && t.kids != [] && Rep(m, t) && Disj(t)
    ensures All(t) == AllSeg(t.kids) && FirstLeaf(t) == FirstLeaf(t.kids[0]) && LastNext(t) == LastNext(t.kids[|t.kids| - 1])
    ensures RepSeg(m, t.kids) && DisjSeg(t.kids) && Flat(t) == FlatSeg(t.kids) && IdsSeg(t.kids) <= Ids(t)
  {
  }

  lemma {:induction false} AllSegRun(m: Store, keys: seq<int>, kids: seq<Tree>, lo: int, hi: int, h: nat, c: Cfg)
    requires Seg(keys, kids, lo, hi, h, c) && c.n >= 4 && RepSeg(m, kids) && DisjSeg(kids) && 0 !in m
    ensures |kids| == |keys| + 1
    ensures AllSeg(kids) != [] && AllSeg(kids)[0] == FirstLeaf(kids[0]) && Run(m, AllSeg(kids), LastNext(kids[|kids| - 1]))
    ensures FirstLeaf(kids[0]) in m && m[FirstLeaf(kids[0])].Outer? && m[FirstLeaf(kids[0])].kv.keys != []
    ensures Vals(m, AllSeg(kids)) == FlatSeg(kids).vals && Within(AllSeg(kids), IdsSeg(kids))
    decreases h, 1, |kids|
  {
    hide *;
    SegFirst(keys, kids, lo, hi, h, c);
    SegHead(m, kids);
    AllRun(m, kids[0], lo, if |keys| == 0 then hi else keys[0], h, c);
    if |keys| == 0 {
      assert kids == [kids[0]];
      OneSeg(kids[0]);
    } else {
      CutRight(keys, kids, 0, lo, hi, h, c);
      LinkedTo(keys, kids, 0, lo, hi, h, c);
      LinkIs(kids[0], kids[1]);
      assert kids[1..][0] == kids[1] && kids[1..][|kids| - 2] == kids[|kids| - 1];
      AllSegRun(m, keys[1..], kids[1..], keys[0], hi, h, c);
      Apart(All(kids[0]), AllSeg(kids[1..]), Ids(kids[0]), IdsSeg(kids[1..]));
      WithinCat(All(kids[0]), AllSeg(kids[1..]), Ids(kids[0]), IdsSeg(kids[1..]), IdsSeg(kids));
      RunCat(m, All(kids[0]), AllSeg(kids[1..]), LastNext(kids[|kids| - 1]));
    }
  }

  lemma LinkIs(a: Tree, b: Tree)
    requires Linked(a, b)
    ensures LastNext(a) == FirstLeaf(b)
  {
  }

  lemma SegHead(m: Store, kids: seq<Tree>)
    requires kids != [] && RepSeg(m, kids) && DisjSeg(kids)
    ensures Rep(m, kids[0]) && Disj(kids[0]) && RepSeg(m, kids[1..]) && DisjSeg(kids[1..]) && Ids(kids[0]) !! IdsSeg(kids[1..])
    ensures AllSeg(kids) == All(kids[0]) + AllSeg(kids[1..]) && IdsSeg(kids) == Ids(kids[0]) + IdsSeg(kids[1..])
    ensures FlatSeg(kids).vals == Flat(kids[0]).vals + FlatSeg(kids[1..]).vals
  {
  }

  lemma OneSeg(t: Tree)
    ensures AllSeg([t]) == All(t) && FlatSeg([t]).vals == Flat(t).vals && IdsSeg([t]) == Ids(t) && [t][1..] == []
    ensures AllSeg([]) == []
  {
    assert All(t) + AllSeg([]) == All(t);
  }

  /** What From promises at t for k. */
  ghost predicate FromOK(m: Store, t: Tree, k: int) {
    var ids, leaf := From(t, k), LeafOf(t, k);
    && Run(m, ids, LastNext(t)) && leaf.Leaf? && ids[0] == leaf.id && m[leaf.id] == Outer(leaf.kv, leaf.next)
    && Within(ids, Ids(t))
    && Rank(leaf.kv.keys, k) <= |leaf.kv.vals| <= |Vals(m, ids)| && Rank(Flat(t).keys, k) <= |Flat(t).vals|
    && Vals(m, ids)[Rank(leaf.kv.keys, k)..] == Flat(t).vals[Rank(Flat(t).keys, k)..]
  }

  /** The leaves from k's leaf on are a run to the outer link of the tree and spell the values from k's position on. */
  lemma {:induction false} FromRun(m: Store, t: Tree, k: int, lo: int, hi: int, h: nat, c: Cfg)
    requires OK(t, lo, hi, h, c) && c.n >= 4 && lo < k <= hi && Rep(m, t) && Disj(t) && 0 !in m
    ensures FromOK(m, t, k)
    decreases h
  {
    hide *;
    FlatOK(t, lo, hi, h, c);
    SortedIs(Flat(t));
    LeafOfIs(t, k, lo, hi, h, c);
    SortedIs(LeafOf(t, k).kv);
    if t.Leaf? {
      LeafOfLeaf(t, k, EMPTY);
      LeafRun(m, t);
      FromLeaf(t, k);
      FromIntro(m, t, k, [t.id], t);
    } else {
      LeafOfNode(t, k, EMPTY, lo, hi, h, c);
      var i := Rank(t.keys, k);
      var kid := t.kids[i];
      KidIdsIn(m, t, i);
      KidCoh(m, map[], t, i) by {
        CohNone(t);
      }
      FromRun(m, kid, k, Lo(t.keys, i, lo), Hi(t.keys, i, hi), h - 1, c);
      FromNode(t, k);
      RouteParts(t, i, k, lo, hi, h, c);
      RankOfParts(FlatSeg(t.kids[..i]), Flat(kid), FlatSeg(t.kids[i + 1..]), k);
      FromFacts(m, kid, k);
      FlatOK(kid, Lo(t.keys, i, lo), Hi(t.keys, i, hi), h - 1, c);
      SortedIs(Flat(kid));
      RestRun(m, t, i, lo, hi, h, c);
      WithinCat(From(kid, k), AllSeg(t.kids[i + 1..]), Ids(kid), IdsSeg(t.kids[i + 1..]), Ids(t));
      if i < |t.keys| {
        Apart(From(kid, k), AllSeg(t.kids[i + 1..]), Ids(kid), IdsSeg(t.kids[i + 1..]));
        RunCat(m, From(kid, k), AllSeg(t.kids[i + 1..]), LastNext(t));
      } else {
        assert From(t, k) == From(kid, k);
        ValsCat(m, From(kid, k), []);
      }
      SuffixCat(Vals(m, From(kid, k)), Flat(kid).vals, FlatSeg(t.kids[i + 1..]).vals, Rank(LeafOf(t, k).kv.keys, k), Rank(Flat(kid).keys, k));
      FromIntro(m, t, k, From(t, k), LeafOf(t, k));
    }
  }

  lemma FromLeaf(t: Tree, k: int)
    requires t.Leaf?
    ensures From(t, k) == [t.id]
  {
  }

  lemma FromNode(t: Tree, k: int)
    requires t.Node? && Rank(t.keys, k) < |t.kids|
    ensures From(t, k) == From(t.kids[Rank(t.keys, k)], k) + AllSeg(t.kids[Rank(t.keys, k) + 1..])
  {
  }

  lemma FromIntro(m: Store, t: Tree, k: int, ids: seq<nat>, leaf: Tree)
    requires ids == From(t, k) && leaf == LeafOf(t, k) && leaf.Leaf? && Run(m, ids, LastNext(t)) && ids != [] && ids[0] == leaf.id
    requires leaf.id in m && m[leaf.id] == Outer(leaf.kv, leaf.next) && Within(ids, Ids(t))
    requires Rank(leaf.kv.keys, k) <= |leaf.kv.vals| <= |Vals(m, ids)| && Rank(Flat(t).keys, k) <= |Flat(t).vals|
    requires Vals(m, ids)[Rank(leaf.kv.keys, k)..] == Flat(t).vals[Rank(Flat(t).keys, k)..]
    ensures FromOK(m, t, k)
  {
  }

  lemma FromFacts(m: Store, t: Tree, k: int)
    requires FromOK(m, t, k)
    ensures
      var ids, leaf := From(t, k), LeafOf(t, k);
      && Run(m, ids, LastNext(t)) && ids != [] && leaf.Leaf? && ids[0] == leaf.id && leaf.id in m && m[leaf.id] == Outer(leaf.kv, leaf.next)
      && Within(ids, Ids(t))
      && Rank(leaf.kv.keys, k) <= |leaf.kv.vals| <= |Vals(m, ids)| && Rank(Flat(t).keys, k) <= |Flat(t).vals|
      && Vals(m, ids)[Rank(leaf.kv.keys, k)..] == Flat(t).vals[Rank(Flat(t).keys, k)..]
  {
  }

  lemma RankOfParts(a: KV, e: KV, b: KV, k: int)
    requires Parts(a, e, b, k)
    ensures Rank(Cat(Cat(a, e), b).keys, k) == |a.vals| + Rank(e.keys, k) && Rank(e.keys, k) <= |e.vals|
    ensures Cat(Cat(a, e), b).vals[|a.vals| + Rank(e.keys, k)..] == e.vals[Rank(e.keys, k)..] + b.vals
    ensures |Cat(Cat(a, e), b).vals| == |a.vals| + |e.vals| + |b.vals|
  {
    RankCat(a.keys, e.keys, b.keys, k);
  }

  lemma SuffixCat(a: seq<Value>, e: seq<Value>, b: seq<Value>, i: nat, j: nat)
    requires i <= |a| && j <= |e| && a[i..] == e[j..]
    ensures (a + b)[i..] == e[j..] + b && |a + b| >= |a|
  {
  }

  /** The kids right of kid i. */
  lemma RestRun(m: Store, t: Tree, i: nat, lo: int, hi: int, h: nat, c: Cfg)
    requires t.Node? && OK(t, lo, hi, h, c) && c.n >= 4 && Rep(m, t) && Disj(t) && 0 !in m && i < |t.kids| == |t.keys| + 1
    ensures LastNext(t) == LastNext(t.kids[|t.kids| - 1])
    ensures i == |t.keys| ==> AllSeg(t.kids[i + 1..]) == [] && FlatSeg(t.kids[i + 1..]).vals == []
    ensures i < |t.keys| ==>
      var ids := AllSeg(t.kids[i + 1..]);
      && ids != [] && ids[0] == LastNext(t.kids[i]) && Run(m, ids, LastNext(t)) && ids[0] in m && m[ids[0]].Outer? && m[ids[0]].kv.keys != []
      && Vals(m, ids) == FlatSeg(t.kids[i + 1..]).vals
    ensures Within(AllSeg(t.kids[i + 1..]), IdsSeg(t.kids[i + 1..]))
    ensures IdsSeg(t.kids[i + 1..]) <= Ids(t) && Ids(t.kids[i]) <= Ids(t) && Ids(t.kids[i]) !! IdsSeg(t.kids[i + 1..])
  {
    hide *;
    AllNode(m, t);
    InnerSeg(t, lo, hi, h, c);
    KidsRight(m, t, i);
    if i < |t.keys| {
      CutRight(t.keys, t.kids, i, lo, hi, h - 1, c);
      LinkedTo(t.keys, t.kids, i, lo, hi, h - 1, c);
      LinkIs(t.kids[i], t.kids[i + 1]);
      var ks := t.kids[i + 1..];
      assert ks[0] == t.kids[i + 1] && ks[|ks| - 1] == t.kids[|t.kids| - 1];
      AllSegRun(m, t.keys[i + 1..], ks, t.keys[i], hi, h - 1, c);
    } else {
      assert t.kids[i + 1..] == [];
      NoSeg();
    }
  }

  lemma NoSeg()
    ensures AllSeg([]) == [] && FlatSeg([]).vals == [] && forall s :: Within([], s)
  {
  }

  lemma KidsRight(m: Store, t: Tree, i: nat)
    requires t.Node? && i < |t.kids| && Rep(m, t) && Disj(t)
    ensures RepSeg(m, t.kids[i + 1..]) && DisjSeg(t.kids[i + 1..])
    ensures IdsSeg(t.kids[i + 1..]) <= Ids(t) && Ids(t.kids[i]) <= Ids(t) && Ids(t.kids[i]) !! IdsSeg(t.kids[i + 1..])
  {
    hide *;
    RepParts(m, t, i, i);
    DisjEnds(t, i, i);
    IdsParts(t, i, i);
    RestIs(t, i, i);
    assert t.kids[i..i + 1] == [t.kids[i]];
    OneKid(m, map[], t.kids[i]);
  }

  lemma Apart(a: seq<nat>, b: seq<nat>, s: set<nat>, s': set<nat>)
    requires Within(a, s) && Within(b, s') && s !! s' && b != []
    ensures b[0] !in a
  {
    assert b[0] in b;
  }

  lemma WithinCat(a: seq<nat>, b: seq<nat>, s: set<nat>, s': set<nat>, all: set<nat>)
    requires Within(a, s) && Within(b, s') && s <= all && s' <= all
    ensures Within(a + b, all)
  {
  }

  /** The chain a scan from the stored key k walks, and the values it lists. */
  lemma ScanChain(m: Store, t: Tree, k: int, lo: int, hi: int, h: nat, c: Cfg)
    requires OK(t, lo, hi, h, c) && c.n >= 4 && lo < k <= hi && Rep(m, t) && Disj(t) && 0 !in m && LastNext(t) == 0
    ensures
      var ids, leaf := From(t, k), LeafOf(t, k);
      && LeafChain(m, ids) && leaf.Leaf? && ids[0] == leaf.id && leaf.id in m && m[leaf.id] == Outer(leaf.kv, leaf.next)
      && Rank(leaf.kv.keys, k) <= |ChainVals(m, ids)| && KVOk(Flat(t))
      && Rank(Flat(t).keys, k) <= |Flat(t).vals|
      && ChainVals(m, ids)[Rank(leaf.kv.keys, k)..] == Flat(t).vals[Rank(Flat(t).keys, k)..]
  {
    hide *;
    FlatOK(t, lo, hi, h, c);
    FromRun(m, t, k, lo, hi, h, c);
    FromFacts(m, t, k);
    RunIsChain(m, From(t, k));
  }

  /** The position of the first pair of a leaf among the pairs of the tree. */
  ghost function Start(all: KV, leaf: KV): nat {
    if leaf.keys == [] then 0 else Rank(all.keys, leaf.keys[0])
  }

  /** Any leaf page of the tree starts a chain, which spells the pairs from its own ones on. */
  lemma LeafPageChain(m: Store, t: Tree, id: nat, lo: int, hi: int, h: nat, c: Cfg) returns (ids: seq<nat>)
    requires OK(t, lo, hi, h, c) && c.n >= 4 && lo < hi && Rep(m, t) && Disj(t) && 0 !in m && LastNext(t) == 0
    requires id in Ids(t) && id in m && m[id].Outer?
    ensures LeafChain(m, ids) && ids[0] == id && KVOk(Flat(t)) && |Flat(t).keys| == |Flat(t).vals|
    ensures |m[id].kv.keys| <= |ChainVals(m, ids)| && Start(Flat(t), m[id].kv) + |m[id].kv.keys| <= |Flat(t).vals|
    ensures ChainVals(m, ids) == Flat(t).vals[Start(Flat(t), m[id].kv)..]
  {
    hide *;
    FlatOK(t, lo, hi, h, c);
    KVOkSorted(Flat(t));
    StartIs(Flat(t), m[id].kv);
    var k := hi;
    if m[id].kv.keys != [] {
      k := m[id].kv.keys[0];
      HolderIs(m, t, id, k, lo, hi, h, c);
    } else {
      EmptyPage(m, t, id, lo, hi, h, c);
      LeafOfLeaf(t, k, EMPTY);
      RepPage(m, t);
      LeafPageOf(t);
    }
    ScanChain(m, t, k, lo, hi, h, c);
    ids := From(t, k);
    RankFirst(m[id].kv.keys, k);
    assert ChainVals(m, ids)[0..] == ChainVals(m, ids);
    AheadNext(m, ids);
    ChainFacts(m, ids);
  }

  lemma RankFirst(keys: seq<int>, k: int)
    ensures keys == [] || k == keys[0] ==> Rank(keys, k) == 0
  {
  }

  lemma StartIs(all: KV, leaf: KV)
    ensures Start(all, leaf) == if leaf.keys == [] then 0 else Rank(all.keys, leaf.keys[0])
  {
  }

  /** Only the root can be an empty leaf. */
  lemma {:induction false} EmptyPage(m: Store, t: Tree, id: nat, lo: int, hi: int, h: nat, c: Cfg)
    requires OK(t, lo, hi, h, c) && c.n >= 4 && Rep(m, t) && id in Ids(t) && id in m && m[id].Outer? && m[id].kv.keys == []
    ensures t.Leaf? && t.id == id && t.kv.keys == []
    decreases h
  {
    hide *;
    RepPage(m, t);
    if t.Leaf? {
      LeafIdIs(t);
      LeafPageOf(t);
    } else {
      NodePageOf(t);
      var i := IdsAt(t, id);
      KidAt(t, i, lo, hi, h, c);
      KidCoh(m, map[], t, i) by {
        CohNone(t);
      }
      EmptyPage(m, t.kids[i], id, Lo(t.keys, i, lo), Hi(t.keys, i, hi), h - 1, c);
      LeafNotEmpty(t.kids[i], c.n);
    }
  }

  /** Keys of one leaf are as far apart in the tree as in the leaf. */
  lemma {:induction false} SameDistance(t: Tree, k: int, x: int, lo: int, hi: int, h: nat, c: Cfg)
    requires OK(t, lo, hi, h, c) && c.n >= 4 && lo < k <= hi && LeafOf(t, k).Leaf? && x in LeafOf(t, k).kv.keys
    ensures Rank(Flat(t).keys, k) - Rank(Flat(t).keys, x) == Rank(LeafOf(t, k).kv.keys, k) - Rank(LeafOf(t, k).kv.keys, x)
    decreases h
  {
    hide *;
    if t.Leaf? {
      LeafOfLeaf(t, k, EMPTY);
    } else {
      LeafOfNode(t, k, EMPTY, lo, hi, h, c);
      var i := Rank(t.keys, k);
      var l0, h0 := Lo(t.keys, i, lo), Hi(t.keys, i, hi);
      LeafInRange(t.kids[i], k, l0, h0, h - 1, c);
      RoutedRange(t, i, x, lo, hi);
      RouteParts(t, i, k, lo, hi, h, c);
      RouteParts(t, i, x, lo, hi, h, c);
      RankOfParts(FlatSeg(t.kids[..i]), Flat(t.kids[i]), FlatSeg(t.kids[i + 1..]), k);
      RankOfParts(FlatSeg(t.kids[..i]), Flat(t.kids[i]), FlatSeg(t.kids[i + 1..]), x);
      SameDistance(t.kids[i], k, x, l0, h0, h - 1, c);
    }
  }

  /** From the leaf a key leads to, the position of the key in the leaf is its position in the tree. */
  lemma StartOwn(t: Tree, k: int, lo: int, hi: int, h: nat, c: Cfg)
    requires OK(t, lo, hi, h, c) && c.n >= 4 && lo < k <= hi
    ensures LeafOf(t, k).Leaf? && Start(Flat(t), LeafOf(t, k).kv) + Rank(LeafOf(t, k).kv.keys, k) == Rank(Flat(t).keys, k)
  {
    hide *;
    var leaf := LeafOf(t, k);
    LeafOfIs(t, k, lo, hi, h, c);
    StartIs(Flat(t), leaf.kv);
    if leaf.kv.keys != [] {
      RankFirst(leaf.kv.keys, leaf.kv.keys[0]);
      SameDistance(t, k, leaf.kv.keys[0], lo, hi, h, c);
    } else {
      if t.Node? {
        LeafNotEmpty(leaf, c.n);
      }
      LeafOfLeaf(t, k, EMPTY);
      RankFirst(leaf.kv.keys, k);
    }
  }
}
