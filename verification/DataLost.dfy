/**
 * A run of the engine after which the cache serves a stored key from the leaf of
 * another one. Updates and deletions of that key are lost, and a scan from it fails.
 */
module Lost {
  import opened Common
  import opened Pages
  import opened RadixKeys
  import opened RadixModel
  import opened BTreeModel
  import opened BTreeStore
  import opened BTreeMoves
  import opened BTreeLeaves
  import opened BTreeEnter
  import Radix
  import BNodes
  import BTreeStale
  import TreeOperations
  import opened Data

  /** Bytes of budget, enough for five insertions whatever they add. */
  const BUDGET: nat := 100000

  // ----- Where the searches of the run end, whatever the tree looks like -----

  /** The leaf of the keys 256 to 259, those in bytes. */
  ghost function Upper(bytes: set<nat>): RTree {
    RLeaf(2, K4, 8, Transform(256), map b | b in bytes :: Entry(1, 0))
  }

  ghost function Lower(): RTree {
    RLeaf(3, K4, 8, Transform(3), map[3 := Entry(1, 0)])
  }

  /** The keys 3, 256, 257 and 258: 3 parts from the others at byte 7. */
  ghost function Both(): RTree {
    RNode(1, K4, 7, Transform(3), map[0 := Lower(), 1 := Upper({0, 1, 2})])
  }

  lemma BytesOfKey(k: int)
    requires IsKey(k)
    ensures
      var u := Transform(k);
      && GetKey(u, 8) == k % 256 && GetKey(u, 7) == k / 256 % 256
      && Trunc(u, 7) == k / 256 + 0x80_0000_0000_0000 && Trunc(u, 6) == k / 0x1_0000 + 0x8000_0000_0000
  {
    TransformBijection(k);
    var u := Transform(k);
    assert Shr(u, 1) == u / 256;
    assert Shr(u, 2) == u / 256 / 256;
  }

  lemma UpperOK(bytes: set<nat>, d: nat)
    requires d < 8 && (bytes == {0, 1, 2} || bytes == {0, 1, 2, 3})
    ensures ROK(Upper(bytes), d)
  {
    TransformBijection(256);
    var frames := Upper(bytes).frames;
    assert frames.Keys == bytes;
    assert |frames| == |frames.Keys|;
    assert 1 <= |bytes| <= 4;
  }

  lemma UpperStores(bytes: set<nat>, k: int)
    requires IsKey(k)
    ensures Get(Upper(bytes), Transform(k)).Some? <==> k / 256 == 1 && k % 256 in bytes
    ensures k % 256 in bytes ==> Landing(Upper(bytes), Transform(k)) == Some(Transform(256 + k % 256))
  {
    BytesOfKey(k);
    BytesOfKey(256);
    var b: nat := k % 256;
    IntermediateIs(Transform(256), b, 8);
    TransformBijection(256 + b);
  }

  lemma LowerStores(k: int)
    requires IsKey(k)
    ensures Get(Lower(), Transform(k)).Some? <==> k == 3
    ensures k % 256 == 3 ==> Landing(Lower(), Transform(k)) == Some(Transform(3))
  {
    BytesOfKey(k);
    BytesOfKey(3);
    IntermediateIs(Transform(3), 3, 8);
    TransformBijection(3);
  }

  lemma BothOK()
    ensures ROK(Both(), 0)
  {
    hide ROK, Under, Transform;
    var t := Both();
    UpperOK({0, 1, 2}, 7);
    LowerOK();
    TransformBijection(3);
    BothUnder();
    assert t.kids.Keys == {0, 1};
    assert |t.kids| == |t.kids.Keys|;
    NodeIntro(t, 0);
  }

  lemma LowerOK()
    ensures ROK(Lower(), 7)
  {
    TransformBijection(3);
  }

  lemma BothUnder()
    ensures Under(Transform(3), 7, 0, Transform(3)) && Under(Transform(3), 7, 1, Transform(256))
  {
    hide Transform, GetKey, Trunc;
    BytesOfKey(3);
    BytesOfKey(256);
  }

  lemma BothStores(k: int)
    requires IsKey(k)
    ensures Get(Both(), Transform(k)).Some? <==> k in {3, 256, 257, 258}
    ensures k == 65539 ==> Landing(Both(), Transform(k)) == Some(Transform(3))
  {
    hide Transform, GetKey, Trunc, Get, Landing;
    BytesOfKey(k);
    GetNode(Both(), Transform(k));
    UpperStores({0, 1, 2}, k);
    LowerStores(k);
    SecondByte(k);
  }

  lemma SecondByte(k: int)
    ensures k in {256, 257, 258} <==> k / 256 % 256 == 1 && k / 256 == 1 && k % 256 in {0, 1, 2}
    ensures k == 3 ==> k / 256 % 256 == 0
    ensures k == 65539 ==> k / 256 % 256 == 0 && k % 256 == 3
  {
  }

  /** With 3, 256, 257 and 258 cached, a search for 65539 ends at 3: only bytes 7 and 8 are looked at. */
  lemma LandsAt3(t: Option<RTree>)
    requires (t.Some? ==> ROK(t.value, 0)) && Radix.MapOf(t).Keys == {3, 256, 257, 258}
    ensures Radix.LandsAt(t, 65539) == Some(3)
  {
    hide *;
    KeysAre();
    BothOK();
    BothStores(65539);
    TransformBijection(3);
    StoredKeys(Both(), {3, 256, 257, 258}) by {
      forall k | IsKey(k) ensures Get(Both(), Transform(k)).Some? <==> k in {3, 256, 257, 258} {
        BothStores(k);
      }
    }
    Radix.SameKeysLand(t, Some(Both()), 65539);
    LandsIs(Both(), 65539, 3);
  }

  /** With 256 to 259 cached, a search for 3 ends at 259: only byte 8 is looked at. */
  lemma LandsAt259(t: Option<RTree>)
    requires (t.Some? ==> ROK(t.value, 0)) && Radix.MapOf(t).Keys == {256, 257, 258, 259}
    ensures Radix.LandsAt(t, 3) == Some(259)
  {
    hide *;
    KeysAre();
    var all := {0, 1, 2, 3};
    UpperOK(all, 0);
    UpperStores(all, 3);
    TransformBijection(259);
    StoredKeys(Upper(all), {256, 257, 258, 259}) by {
      forall k | IsKey(k) ensures Get(Upper(all), Transform(k)).Some? <==> k in {256, 257, 258, 259} {
        UpperStores(all, k);
      }
    }
    Radix.SameKeysLand(t, Some(Upper(all)), 3);
    LandsIs(Upper(all), 3, 259);
  }

  lemma KeysAre()
    ensures forall k :: 0 <= k <= 65539 ==> IsKey(k)
  {
  }

  lemma StoredKeys(t: RTree, keys: set<int>)
    requires forall k :: IsKey(k) ==> (Get(t, Transform(k)).Some? <==> k in keys)
    requires forall k :: k in keys ==> IsKey(k)
    ensures Radix.MapOf(Some(t)).Keys == keys
  {
    hide Get, Transform;
  }

  lemma LandsIs(t: RTree, k: int, x: int)
    requires IsKey(k) && IsKey(x) && Landing(t, Transform(k)) == Some(Transform(x))
    ensures Radix.LandsAt(Some(t), k) == Some(x)
  {
    TransformBijection(x);
  }

  // ----- The run -----

  /** The engine stores and caches these keys, has refused no insertion and uses this many bytes for its cache at most. */
  ghost predicate Stage(d: DataManager, stored: set<int>, cached: set<int>, bytes: nat)
    reads d.bplus, d.bm, d.bm.storage, if d.radix == null then {} else {d.radix}
  {
    && d.Valid() && d.bplus.n == 4 && d.Map().Keys == stored && d.radix != null && d.radix.radixTreeSize == BUDGET
    && d.radix.Contents().Keys == cached && !d.radix.refused && d.radix.currentSize <= bytes
  }

  lemma StageFacts(d: DataManager, stored: set<int>, cached: set<int>, bytes: nat)
    requires Stage(d, stored, cached, bytes)
    ensures d.Valid() && d.bplus.n == 4 && d.Map().Keys == stored && d.radix != null && d.radix.radixTreeSize == BUDGET
    ensures d.radix.Contents().Keys == cached && !d.radix.refused && d.radix.currentSize <= bytes
    ensures d.radix.State().keys == cached && !d.radix.State().refused && d.radix.State().size == d.radix.currentSize
  {
    d.radix.StateIs();
  }

  lemma StageIntro(d: DataManager, stored: set<int>, cached: set<int>, bytes: nat)
    requires d.Valid() && d.bplus.n == 4 && d.Map().Keys == stored && d.radix != null && d.radix.radixTreeSize == BUDGET
    requires d.radix.Contents().Keys == cached && !d.radix.refused && d.radix.currentSize <= bytes
    ensures Stage(d, stored, cached, bytes)
  {
    d.radix.StateIs();
  }

  lemma {:induction false} Distinct<T>(keys: seq<T>, s: set<T>)
    requires forall k :: k in s ==> k in keys
    ensures |s| <= |keys|
    decreases |s|
  {
    if s != {} {
      var k :| k in s;
      var i :| 0 <= i < |keys| && keys[i] == k;
      forall x | x in s - {k} ensures x in RemoveAt(keys, i) {
        assert x in keys[..i] + [k] + keys[i + 1..];
      }
      Distinct(RemoveAt(keys, i), s - {k});
    }
  }

  // The sets of keys stored or cached along the run.
  ghost const ONE: set<int> := {256}
  ghost const TWO: set<int> := {256, 257}
  ghost const THREE: set<int> := {256, 257, 258}
  ghost const FOUR: set<int> := {3, 256, 257, 258}
  ghost const UPPER: set<int> := {256, 257, 258, 259}
  ghost const ALL: set<int> := {3, 256, 257, 258, 259}

  lemma SetsAre()
    ensures {} + {256} == ONE && ONE + {257} == TWO && TWO + {258} == THREE && THREE + {3} == FOUR
    ensures THREE + {259} == UPPER && FOUR + {259} == ALL && FOUR - {3} == THREE && FOUR - {65539} == FOUR
    ensures UPPER == {256, 257, 258, 259} && FOUR == {3, 256, 257, 258}
  {
  }

  lemma MembersAre()
    ensures 256 !in {} && 257 !in ONE && 258 !in TWO && 3 !in THREE && 259 !in FOUR && 3 in FOUR && 65539 !in FOUR
    ensures 3 in ALL && 259 in ALL && forall k :: k in ALL ==> 3 <= k <= 259
  {
  }

  lemma SizesAre()
    ensures |TWO| == 2 && |THREE| == 3 && |FOUR| == 4 && |ALL| == 5
  {
  }

  /** One insertion of a new key. */
  method Put(d: DataManager, key: int, value: Value, ghost stored: set<int>, ghost cached: set<int>, ghost bytes: nat, ghost stored': set<int>, ghost cached': set<int>, ghost bytes': nat)
    requires Stage(d, stored, cached, bytes) && IsKey(key) && key !in stored
    requires stored' == stored + {key} && cached' == cached + {key} && bytes + Radix.ROOM <= bytes' <= BUDGET
    modifies d.bplus, d.bm, d.bm.storage, d.Parts()
    ensures Stage(d, stored', cached', bytes') && d.bplus.Points(key)
    ensures |stored| >= 2 ==> Spare(LeafOf(d.bplus.tree, key), d.bplus.n)
    ensures !Full(old(d.bplus.tree), 4) && Roomy(old(d.bplus.tree), key, 4) ==> Enters(old(d.bplus.tree), d.bplus.tree, key, value)
    ensures Full(old(d.bplus.tree), 4) && old(d.bplus.tree).Leaf? ==> RootEnters(old(d.bplus.tree), d.bplus.tree, key, value, 4)
  {
    hide *;
    StageFacts(d, stored, cached, bytes);
    d.PartsAre();
    d.ValidFacts();
    d.MapIs();
    d.bplus.SeenIs();
    forall k | k in stored ensures k in d.Pairs().keys {
      assert k in d.Map();
    }
    Distinct(d.Pairs().keys, stored);
    d.Insert(key, value);
    d.ValidFacts();
    d.bplus.GainedIs(old(d.bplus.Seen()), key);
    d.bplus.TookFacts(old(d.bplus.Seen()), key);
    StageIntro(d, stored', cached', bytes');
  }

  /** 3 is stored, but the cache looks for it on the leaf of 259, which does not hold it and can spare a key. */
  lemma ThreeIsLost(d: DataManager, bytes: nat)
    requires Stage(d, ALL, UPPER, bytes) && d.bplus.Points(259) && Spare(LeafOf(d.bplus.tree, 259), d.bplus.n)
    ensures IsKey(3) && 3 in d.Map() && d.Spares(3) && !d.Direct(3)
  {
    hide *;
    KeysAre();
    SetsAre();
    MembersAre();
    SizesAre();
    StageFacts(d, ALL, UPPER, bytes);
    d.ValidFacts();
    d.MapIs();
    d.TreeFacts(259);
    d.radix.ValidFacts();
    d.radix.ContentsIs();
    LandsAt259(d.radix.tree);
    d.LandsElsewhere(3, 259);
    Distinct(d.Pairs().keys, ALL);
    if 3 in LeafOf(d.bplus.tree, 259).kv.keys {
      EndsTogether(d.bplus.tree, 3, 259, LOW, INT64_MAX, d.bplus.height, d.bplus.C());
    }
  }

  /**
   * Insert 256, 257, 258 and 3, delete 65539, which was never stored, and insert 259:
   * then 3 is stored, and by the contracts of Update, DeleteValue and Scan an
   * update or deletion of 3 is lost and a scan from 3 fails.
   */
  method LostKey(asserts: bool) returns (d: DataManager)
    ensures fresh(d) && d.Valid() && d.Map().Keys == ALL && ALL == {3, 256, 257, 258, 259}
    ensures IsKey(3) && d.Spares(3) && !d.Direct(3)
  {
    hide *;
    KeysAre();
    SetsAre();
    MembersAre();
    SizesAre();
    Budget();
    d := Filled(asserts);
    Forget(d);
    Put(d, 259, 1, FOUR, THREE, 40000, ALL, UPPER, 50000);
    ThreeIsLost(d, 50000);
    StageFacts(d, ALL, UPPER, 50000);
  }

  /** An engine with leaves of four that holds and caches 256, 257, 258 and 3. */
  method Filled(asserts: bool) returns (d: DataManager)
    ensures fresh(d) && fresh(d.bplus) && fresh(d.bm) && fresh(d.bm.storage) && fresh(d.Parts())
    ensures Stage(d, FOUR, FOUR, 40000) && d.bplus.Points(3) && Spare(LeafOf(d.bplus.tree, 3), d.bplus.n)
  {
    hide *;
    KeysAre();
    SetsAre();
    MembersAre();
    SizesAre();
    Budget();
    d := new DataManager(96, 16, true, BUDGET, 4, asserts);
    d.radix.StateIs();
    StageIntro(d, {}, {}, 0);
    Put(d, 256, 1, {}, {}, 0, ONE, ONE, 10000);
    Put(d, 257, 1, ONE, ONE, 10000, TWO, TWO, 20000);
    Put(d, 258, 1, TWO, TWO, 20000, THREE, THREE, 30000);
    Put(d, 3, 1, THREE, THREE, 30000, FOUR, FOUR, 40000);
  }

  lemma Budget()
    ensures Radix.ROOM <= 10000 && 70000 <= BUDGET
  {
  }

  /** The deletion of 65539 ends at the entry of 3, on a leaf that can spare a key: 3 leaves the cache and nothing else happens. */
  method Forget(d: DataManager)
    requires Stage(d, FOUR, FOUR, 40000) && d.bplus.Points(3) && Spare(LeafOf(d.bplus.tree, 3), d.bplus.n)
    modifies d.bplus, d.bm, d.bm.storage, d.Parts()
    ensures Stage(d, FOUR, THREE, 40000)
  {
    hide *;
    KeysAre();
    SetsAre();
    MembersAre();
    SizesAre();
    StageFacts(d, FOUR, FOUR, 40000);
    d.ValidFacts();
    d.MapIs();
    d.PartsAre();
    d.radix.ValidFacts();
    d.radix.ContentsIs();
    LandsAt3(d.radix.tree);
    d.LandsElsewhere(65539, 3);
    d.radix.LandedIs(65539);
    d.DeleteValue(65539);
    assert (FOUR - {65539}) == FOUR;
    StageIntro(d, FOUR, THREE, 40000);
  }

  // ----- A scan from a key that was deleted -----

  /** The leaf a key leads to holds stored keys only. */
  lemma LeafKeys(d: DataManager, key: int)
    requires d.Valid() && IsKey(key)
    ensures LeafOf(d.bplus.tree, key).Leaf? && forall x :: x in LeafOf(d.bplus.tree, key).kv.keys ==> x in d.Pairs().keys
  {
    hide *;
    d.ValidFacts();
    d.TreeFacts(key);
    d.PairsIs();
    var t, leaf, h, c := d.bplus.tree, LeafOf(d.bplus.tree, key), d.bplus.height, d.bplus.C();
    LeafStays(d.bm.live, t, key, h, c);
    LeafIn(leaf);
    forall x | x in leaf.kv.keys ensures x in d.Pairs().keys {
      SubIdsOf(t, key, h, c);
      HolderIs(d.bm.live, t, leaf.id, x, LOW, INT64_MAX, h, c);
      LeafSearch(t, x, LOW, INT64_MAX, h, c);
      SamePage(leaf, LeafOf(t, x), d.bm.live[leaf.id]);
      KeyStored(leaf.kv, x);
      KeyStored(d.Pairs(), x);
    }
  }

  lemma SubIdsOf(t: Tree, key: int, h: nat, c: Cfg)
    requires OK(t, LOW, INT64_MAX, h, c) && LOW < key <= INT64_MAX
    ensures LeafOf(t, key).id in Ids(t)
  {
    LeafOfIs(t, key, LOW, INT64_MAX, h, c);
  }

  lemma LeafIn(t: Tree)
    ensures t.Leaf? ==> t == Leaf(t.id, t.kv, t.next)
  {
  }

  lemma SamePage(a: Tree, b: Tree, p: Page)
    requires a.Leaf? && b.Leaf? && p == Outer(a.kv, a.next) && p == Outer(b.kv, b.next)
    ensures a.kv == b.kv
  {
  }

  /**
   * Without a cache, a scan from a key above all stored ones, whose remnant is still
   * behind the last key of its leaf, succeeds with the empty sum.
   */
  lemma RemnantReaches(d: DataManager, key: int, slot: nat -> int)
    requires d.Valid() && d.radix == null && IsKey(key) && (forall x :: x in d.Map() ==> x < key) && forall id :: slot(id) == key
    ensures d.Reaches(key, slot) && Rank(d.Pairs().keys, key) == |d.Pairs().keys| == |d.Pairs().vals|
  {
    hide *;
    d.ValidFacts();
    d.MapIs();
    LeafKeys(d, key);
    AllBelow(d.Pairs().keys, key);
    AllBelow(LeafOf(d.bplus.tree, key).kv.keys, key);
    d.ReachesIs(key, slot);
    d.bplus.PassesIs(key, slot);
    assert slot(LeafOf(d.bplus.tree, key).id) == key;
  }

  lemma AllBelow(keys: seq<int>, key: int)
    requires forall x :: x in keys ==> x < key
    ensures Rank(keys, key) == |keys|
  {
    forall i | 0 <= i < |keys| ensures keys[i] < key {
      assert keys[i] in keys;
    }
    RankUnique(keys, key, |keys|);
  }

  /** The first n of the pairs (1, 1) to (4, 4). */
  ghost function FirstPairs(n: nat): KV
    requires n <= 4
  {
    KV([1, 2, 3, 4][..n], [1, 2, 3, 4][..n])
  }

  lemma FirstPairsAre(n: nat)
    requires n <= 4
    ensures KVOk(FirstPairs(n)) && |FirstPairs(n).keys| == |FirstPairs(n).vals| == n && Sorted(FirstPairs(n).keys)
    ensures forall next :: IsFull(Outer(FirstPairs(n), next), 4) <==> n == 4
    ensures FirstPairs(0) == EMPTY && (n == 4 ==> FirstPairs(n).keys[3] == 4 && Contains(FirstPairs(n).keys, 4))
  {
    if n == 4 {
      RankUnique(FirstPairs(n).keys, 4, 3);
    }
  }

  lemma ThreeLeft()
    ensures |FirstPairs(4).keys| == |FirstPairs(4).vals| && OuterDelete(FirstPairs(4), 4) == FirstPairs(3)
    ensures Sorted(FirstPairs(3).keys) && TreeOperations.Passes(FirstPairs(3).keys, 4, 4)
  {
    RankUnique(FirstPairs(4).keys, 4, 3);
    RankUnique(FirstPairs(3).keys, 4, 3);
    assert RemoveAt(FirstPairs(4).keys, 3) == FirstPairs(3).keys && RemoveAt(FirstPairs(4).vals, 3) == FirstPairs(3).vals;
  }

  lemma NextPair(n: nat, v: Value)
    requires n < 4 && v as int == n + 1
    ensures |FirstPairs(n).keys| == |FirstPairs(n).vals| && OuterInsert(FirstPairs(n), n + 1, v) == FirstPairs(n + 1)
  {
    hide OuterInsert;
    BTreeStale.Append(FirstPairs(n), n + 1, v);
    assert n == 0 || n == 1 || n == 2 || n == 3;
  }

  /** The arrays of a leaf of four after 1, 2, 3 and 4 were inserted and 4 was deleted: 4 is still there, and passes the test of a scan. */
  method Remnant() returns (behind: int, pass: bool)
    ensures behind == 4 && pass
  {
    hide *;
    var leaf := new BNodes.BOuterNode(4);
    FirstPairsAre(0);
    var v: Value := 1;
    for n := 0 to 4
      invariant v as int == n + 1 && fresh(leaf.keys) && fresh(leaf.values) && leaf.keys.Length == 4
      invariant leaf.Valid() && leaf.Contents() == Outer(FirstPairs(n), 0)
    {
      FirstPairsAre(n);
      NextPair(n, v);
      leaf.ContentsIs();
      leaf.Insert(n + 1, v);
      leaf.ContentsIs();
      v := v + 1;
    }
    FirstPairsAre(4);
    leaf.ContentsIs();
    leaf.DeleteValue(4);
    leaf.ContentsIs();
    behind := leaf.Behind();
    ThreeLeft();
    pass := leaf.PassesScan(4);
  }

  /**
   * Without a cache, in either build: insert 1, 2, 3 and 4, delete 4, and scan from 4.
   * The scan does not fail although 4 is not stored; it sums no value at all.
   */
  method ScanDeleted(asserts: bool) returns (d: DataManager, sum: Option<Value>)
    ensures fresh(d) && d.Valid() && d.Map().Keys == {1, 2, 3} && sum == Some(0)
  {
    hide *;
    KeysAre();
    d := new DataManager(96, 3, false, 0, 4, asserts);
    d.PartsAre();
    d.MapIs();
    d.Insert(1, 1);
    d.Insert(2, 2);
    d.Insert(3, 3);
    d.Insert(4, 4);
    d.DirectIs(4);
    d.DeleteValue(4);
    assert d.Map().Keys == {1, 2, 3};
    var behind, _ := Remnant();
    RemnantReaches(d, 4, _ => behind);
    ghost var pairs := d.Pairs();
    d.ReachesIs(4, _ => behind);
    d.StrandsAre(4, _ => behind);
    NoMore(d.bm.stuck);
    d.ValidFacts();
    d.bm.RoomIs(3);
    d.MapIs();
    sum := d.Scan(4, 1, _ => behind);
    NothingLeft(pairs.vals, |pairs.vals|, 1);
    d.MapIs();
  }

  lemma NothingLeft(vals: seq<Value>, n: nat, range: int)
    requires n == |vals|
    ensures TreeOperations.Reported(TreeOperations.Xor(vals[n..], range)) == 0
  {
  }

  /** Without a cache: insert 1 and 2 with the value 1 each, and scan both. The values cancel out. */
  method ScanTwo(asserts: bool) returns (d: DataManager, sum: Option<Value>)
    ensures fresh(d) && d.Valid() && d.Pairs() == KV([1, 2], [1, 1]) && sum == Some(0)
  {
    hide *;
    KeysAre();
    TwoPairs();
    TwoValues([1, 1]);
    d := new DataManager(96, 3, false, 0, 4, asserts);
    d.PartsAre();
    d.MapIs();
    EmptyLeafIs(d.bplus.tree);
    d.Insert(1, 1);
    d.MapIs();
    d.Insert(2, 1);
    d.ReachesIs(1, _ => 0);
    d.StrandsAre(1, _ => 0);
    d.ValidFacts();
    d.DirectIs(1);
    d.MapIs();
    d.StoredReaches(1, _ => 0);
    NoMore(d.bm.stuck);
    d.bm.RoomIs(3);
    sum := d.Scan(1, 2, _ => 0);
  }

  lemma EmptyLeafIs(t: Tree)
    requires t == Leaf(t.id, EMPTY, 0)
    ensures Flat(t) == EMPTY
  {
  }

  lemma TwoPairs()
    ensures |EMPTY.keys| == |EMPTY.vals| && OuterInsert(EMPTY, 1, 1) == KV([1], [1]) && OuterInsert(KV([1], [1]), 2, 1) == KV([1, 2], [1, 1])
    ensures Rank([1, 2], 1) == 0
  {
    hide OuterInsert, Rank;
    BTreeStale.Append(EMPTY, 1, 1);
    BTreeStale.Append(KV([1], [1]), 2, 1);
    RankUnique([1, 2], 1, 0);
  }

  lemma TwoValues(vals: seq<Value>)
    requires vals == [1, 1]
    ensures vals[0..] == vals && TreeOperations.Reported(TreeOperations.Xor(vals, 2)) == 0
  {
    hide TreeOperations.Xor;
    assert [1 as Value] + [1] == vals;
    TreeOperations.XorCat([1], [1]);
    TreeOperations.XorOne(1);
  }
}
