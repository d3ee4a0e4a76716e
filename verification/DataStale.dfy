/**
 * A run of the engine that makes a stored key unreachable: a deletion on a cached
 * leaf leaves the key behind as a separator, and the next deletion of that key
 * exchanges the separator for a key below other stored ones.
 */
module Stale {
  import opened Common
  import opened Pages
  import opened RadixKeys
  import opened RadixModel
  import opened BTreeModel
  import opened BTreeSearch
  import opened BTreeDelete
  import opened BTreeMoves
  import opened BTreeLeaves
  import opened BTreeEnter
  import opened BTreeStale
  import Radix
  import opened Data
  import opened Lost

  // The sets of keys stored and cached along the run.
  ghost const K1: set<int> := {5}
  ghost const K2: set<int> := {5, 10}
  ghost const K3: set<int> := {5, 10, 11}
  ghost const K4: set<int> := {5, 10, 11, 12}
  ghost const K5: set<int> := {1, 5, 10, 11, 12}
  ghost const K6: set<int> := {1, 5, 8, 10, 11, 12}
  ghost const LEFT: set<int> := {1, 5, 8, 11, 12}

  lemma SetsAre()
    ensures {} + {5} == K1 && K1 + {10} == K2 && K2 + {11} == K3 && K3 + {12} == K4
    ensures K4 + {1} == K5 && K5 + {8} == K6
  {
  }

  lemma LastSets()
    ensures K6 + {10} == K6 && K6 - {10} == LEFT && LEFT - {10} == LEFT && LEFT == {1, 5, 8, 11, 12}
    ensures 5 !in {} && 10 !in K1 && 11 !in K2 && 12 !in K3 && 1 !in K4 && 8 !in K5 && 10 in K6 && 8 in LEFT
  {
  }

  // ----- The search for 10 once it has left the cache -----

  /** The keys 1, 5, 8, 11 and 12 in one leaf. */
  ghost function Rest(): RTree {
    RLeaf(4, K16, 8, Transform(0), map[1 := Entry(1, 0), 5 := Entry(1, 0), 8 := Entry(1, 0), 11 := Entry(1, 0), 12 := Entry(1, 0)])
  }

  lemma RestOK()
    ensures ROK(Rest(), 0)
  {
    TransformBijection(0);
    var bytes: set<nat> := {1, 5, 8, 11, 12};
    assert Rest().frames.Keys == bytes;
    assert |Rest().frames| == |Rest().frames.Keys|;
    assert 1 <= |bytes| <= 16;
  }

  lemma RestStores(k: int)
    requires IsKey(k)
    ensures Get(Rest(), Transform(k)).Some? <==> k in LEFT
    ensures k == 10 ==> Landing(Rest(), Transform(k)) == None
  {
    hide Transform, GetKey, Trunc;
    BytesOfKey(k);
    BytesOfKey(0);
    GetLeaf(Rest(), Transform(k));
  }

  lemma LandsNowhere(t: Option<RTree>)
    requires (t.Some? ==> ROK(t.value, 0)) && Radix.MapOf(t).Keys == LEFT
    ensures Radix.LandsAt(t, 10) == None
  {
    hide *;
    KeysAre();
    LastSets();
    RestOK();
    RestStores(10);
    StoredKeys(Rest(), LEFT) by {
      forall k | IsKey(k) ensures Get(Rest(), Transform(k)).Some? <==> k in LEFT {
        RestStores(k);
      }
    }
    Radix.SameKeysLand(t, Some(Rest()), 10);
    LandsNot(Rest(), 10);
  }

  lemma LandsNot(t: RTree, k: int)
    requires IsKey(k) && Landing(t, Transform(k)) == None
    ensures Radix.LandsAt(Some(t), k) == None
  {
  }

  // ----- The run -----

  /** An engine whose root leaf holds 5, 10, 11 and 12. */
  method FillRoot(asserts: bool) returns (d: DataManager)
    ensures fresh(d) && fresh(d.bplus) && fresh(d.bm) && fresh(d.bm.storage) && fresh(d.Parts())
    ensures Stage(d, K4, K4, 40000) && d.bplus.tree == FourKeys(d.bplus.tree.id)
  {
    hide *;
    KeysAre();
    SetsAre();
    LastSets();
    FourKeysIs();
    Budget();
    d := new DataManager(96, 16, true, BUDGET, 4, asserts);
    d.radix.StateIs();
    StageIntro(d, {}, {}, 0);
    PutInLeaf(d, 5, 5, {}, 0, K1, 10000);
    PutInLeaf(d, 10, 10, K1, 10000, K2, 20000);
    PutInLeaf(d, 11, 11, K2, 20000, K3, 30000);
    PutInLeaf(d, 12, 12, K3, 30000, K4, 40000);
    FourKeysAt(d.bplus.tree);
  }

  /** One insertion into a leaf root with room. */
  method PutInLeaf(d: DataManager, key: int, value: Value, ghost keys: set<int>, ghost bytes: nat, ghost keys': set<int>, ghost bytes': nat)
    requires Stage(d, keys, keys, bytes) && IsKey(key) && key !in keys && keys' == keys + {key} && bytes + Radix.ROOM <= bytes' <= BUDGET
    requires d.bplus.tree.Leaf? && d.bplus.tree.next == 0 && |d.bplus.tree.kv.keys| < 4
    modifies d.bplus, d.bm, d.bm.storage, d.Parts()
    ensures Stage(d, keys', keys', bytes') && |old(d.bplus.tree).kv.keys| == |old(d.bplus.tree).kv.vals|
    ensures d.bplus.tree == Leaf(d.bplus.tree.id, OuterInsert(old(d.bplus.tree).kv, key, value), 0)
  {
    hide *;
    d.PartsAre();
    LeafAt(d.bplus.tree, key);
    Put(d, key, value, keys, keys, bytes, keys', keys', bytes');
    LeafStep(old(d.bplus.tree), d.bplus.tree, key, value);
  }

  lemma LeafAt(t: Tree, k: int)
    requires t.Leaf? && |t.kv.keys| < 4
    ensures !Full(t, 4) && Roomy(t, k, 4)
  {
  }

  lemma FourKeysAt(t: Tree)
    ensures t == Leaf(t.id, KV([5, 10, 11, 12], [5, 10, 11, 12]), 0) <==> t == FourKeys(t.id)
    ensures t == FourKeys(t.id) ==> t.Leaf? && Full(t, 4)
  {
  }

  /** 1 splits the root, and 8 fills the left leaf. */
  method SplitRootLeaf(d: DataManager)
    requires Stage(d, K4, K4, 40000) && d.bplus.tree == FourKeys(d.bplus.tree.id)
    modifies d.bplus, d.bm, d.bm.storage, d.Parts()
    ensures Stage(d, K6, K6, 60000)
    ensures exists a, b, c :: d.bplus.tree == Pair(a, b, c, FULL)
  {
    hide *;
    KeysAre();
    SetsAre();
    LastSets();
    Budget();
    LeavesAre();
    EntriesAre();
    d.PartsAre();
    ghost var a := d.bplus.tree.id;
    FourKeysAt(d.bplus.tree);
    Put(d, 1, 1, K4, K4, 40000, K5, K5, 50000);
    SplitStep(a, d.bplus.tree);
    ghost var b, c := d.bplus.tree.kids[1].id, d.bplus.tree.id;
    LeftLeaf(a, b, c, MORE, 8, FULL);
    Put(d, 8, 8, K5, K5, 50000, K6, K6, 60000);
    EntersStep(a, b, c, MORE, FULL, d.bplus.tree, 8, 8);
  }

  /** 10 is read, after which it is cached with its leaf, and deleted there. */
  method DropTen(d: DataManager, ghost a: nat, ghost b: nat, ghost c: nat)
    requires Stage(d, K6, K6, 60000) && d.bplus.tree == Pair(a, b, c, FULL)
    modifies d.bplus, d.bm, d.bm.storage, d.Parts()
    ensures Stage(d, LEFT, LEFT, 70000) && d.bplus.tree == StaleTree(a, b, c)
  {
    hide *;
    KeysAre();
    LastSets();
    Budget();
    TenIs();
    LeavesAre();
    LeftLeaf(a, b, c, FULL, 10, STALE);
    StageFacts(d, K6, K6, 60000);
    d.PartsAre();
    d.ValidFacts();
    d.bplus.SeenIs();
    TenStored(d, a, b, c);
    var value := d.GetValue(10);
    assert value != ABSENT;
    d.ValidFacts();
    d.bplus.TookFacts(old(d.bplus.Seen()), 10);
    d.radix.ValidFacts();
    d.radix.ContentsIs();
    d.radix.LandedIs(10);
    Radix.LandsAtOwn(d.radix.tree, 10);
    d.LandsElsewhere(10, 10);
    d.DeleteValue(10);
    DropStep(a, b, c, d.bplus.tree);
    StageIntro(d, LEFT, LEFT, 70000);
  }

  lemma TenStored(d: DataManager, a: nat, b: nat, c: nat)
    requires d.Valid() && d.bplus.tree == Pair(a, b, c, FULL) && 10 in d.Map()
    ensures d.Map()[10] == 10
  {
    hide *;
    KeysAre();
    TenIs();
    LeftLeaf(a, b, c, FULL, 10, STALE);
    d.ValidFacts();
    d.TreeFacts(10);
    d.MapIs();
    ToMapGet(d.Pairs(), 10);
  }

  /**
   * Insert 5, 10, 11, 12, 1 and 8, read 10, and delete 10 twice: then 8 is among the
   * stored pairs, but the search for it does not find it.
   */
  method UnreachableKey(asserts: bool) returns (d: DataManager)
    ensures fresh(d) && !d.Valid() && d.Map().Keys == {1, 5, 8, 11, 12}
    ensures Shaped(d.bplus.tree, 1) && !Finds(d.bplus.tree, 8, 1)
  {
    hide *;
    KeysAre();
    LastSets();
    d := FillRoot(asserts);
    SplitRootLeaf(d);
    ghost var a, b, c :| d.bplus.tree == Pair(a, b, c, FULL);
    DropTen(d, a, b, c);
    NotServed(d, a, b, c);
    StaleExample(a, b, c);
    d.DeleteValue(10);
  }

  lemma NotServed(d: DataManager, a: nat, b: nat, c: nat)
    requires Stage(d, LEFT, LEFT, 70000) && d.bplus.tree == StaleTree(a, b, c)
    ensures d.Valid() && IsKey(10) && !d.Spares(10) && d.bplus.height == 1 && d.bplus.C() == Cfg(4, false) && d.Map().Keys == LEFT
  {
    hide *;
    KeysAre();
    StageFacts(d, LEFT, LEFT, 70000);
    d.ValidFacts();
    d.TreeFacts(10);
    d.DirectIs(10);
    d.bplus.ConfigIs();
    d.radix.ValidFacts();
    d.radix.ContentsIs();
    LandsNowhere(d.radix.tree);
    d.radix.ServedIs(10);
    Radix.HitOIs(d.radix.tree, 10);
    StaleOK(a, b, c);
    OKShaped(StaleTree(a, b, c), LOW, INT64_MAX, 1, Cfg(4, false));
    OKShaped(d.bplus.tree, LOW, INT64_MAX, d.bplus.height, d.bplus.C());
    OneHeight(d.bplus.tree, d.bplus.height, 1);
  }
}
