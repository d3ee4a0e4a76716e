/**
 * The data manager (data_manager.h): every operation asks the cache first and
 * falls back to the B+ tree.
 */
module Data {
  import opened Common
  import opened Pages
  import opened BTreeModel
  import opened BTreeStore
  import opened BTreeDelete
  import opened BTreeSteps
  import opened BTreeMoves
  import opened BTreeLeaves
  import opened BTreeStale
  import opened BTreeEnter
  import opened BTreeChain
  import opened Buffer
  import Storage
  import TreeOperations
  import BPlus
  import BTreeInsert
  import Radix

  class DataManager {
    const bm: BufferManager
    const radix: Radix.RadixTree?
    const bplus: BPlus.BPlusTree

    ghost predicate Valid()
      reads bplus, bm, bm.storage, if radix == null then {} else {radix}
    {
      bplus.bm == bm && bplus.cache == radix && bplus.Valid()
    }

    /** All stored pairs in key order. */
    ghost function Pairs(): KV
      reads bplus`tree
    {
      Flat(bplus.tree)
    }

    /** The key-value map the engine stands for. */
    ghost function Map(): map<int, Value>
      reads bplus`tree
    {
      if KVOk(Pairs()) then ToMap(Pairs()) else map[]
    }

    constructor (pageSize: nat, bufferSize: nat, cacheOn: bool, radixTreeSize: nat, leafSize: nat, asserts: bool)
      requires pageSize > 0 && bufferSize >= 3 && leafSize >= 4
      ensures Valid() && Map() == map[] && (radix == null <==> !cacheOn) && bplus.n == leafSize && bm.asserts == asserts && bm.stuck == {} && bm.bufferSize == bufferSize
      ensures bplus.tree == Leaf(bplus.tree.id, EMPTY, 0)
      ensures radix != null ==> radix.radixTreeSize == radixTreeSize && radix.State() == Radix.CacheState({}, false, 0, [], 0)
      ensures fresh(bplus) && fresh(bm) && fresh(bm.storage) && fresh(Parts())
    {
      hide *;
      var storage := new Storage.StorageManager(pageSize);
      var buffer := new BufferManager(storage, bufferSize, asserts);
      buffer.RoomIs(3);
      var cache: Radix.RadixTree? := null;
      if cacheOn {
        cache := new Radix.RadixTree(radixTreeSize, buffer, leafSize);
        cache.LinksIs();
        cache.ContentsIs();
        Radix.NoLinks(|buffer.frames|, buffer.issued, buffer.live);
      }
      var b := new BPlus.BPlusTree(buffer, cache, leafSize);
      bm, radix, bplus := buffer, cache, b;
      new;
      if radix != null {
        radix.StateIs();
      }
      PartsAre();
      ValidIntro();
      ValidFacts();
      MapIs();
      NoPairs();
    }

    /** The page on which the cache would look for the key. */
    ghost function Served(key: int): Option<nat>
      requires IsKey(key)
      reads bm, if radix == null then {} else {radix}
    {
      if radix == null || radix.bm != bm then None else radix.Served(key)
    }

    /** The cache has no page for the key, or one that holds it. */
    ghost predicate Direct(key: int)
      requires IsKey(key)
      reads bm, if radix == null then {} else {radix}
    {
      Served(key).Some? ==> Served(key).value in bm.live && Holds(bm.live[Served(key).value], key)
    }

    /** The cache would delete on its own page for the key, which can spare a key. */
    ghost predicate Spares(key: int)
      requires IsKey(key)
      reads bm, if radix == null then {} else {radix}
    {
      Served(key).Some? && Served(key).value in bm.live && CanDelete(bm.live[Served(key).value], bplus.n)
    }

    /**
     * insert: the map gains exactly the new pair. A key that is stored already is
     * stored once more, and just then the engine is no longer valid.
     */
    method Insert(key: int, value: Value)
      requires Valid() && IsKey(key)
      modifies bplus, bm, bm.storage, Parts()
      ensures Valid() <==> key !in old(Map())
      ensures KVOk(old(Pairs())) && Pairs() == OuterInsert(old(Pairs()), key, value)
      ensures key !in old(Map()) ==> Map() == old(Map())[key := value]
      ensures GrewRoot(old(bplus.tree), bplus.tree, key, value, bplus.n)
      ensures bplus.Took(old(bplus.Seen()), bplus.Seen(), key) && bplus.Points(key)
      ensures !Full(old(bplus.tree), bplus.n) && Roomy(old(bplus.tree), key, bplus.n) ==> Enters(old(bplus.tree), bplus.tree, key, value)
      ensures Full(old(bplus.tree), bplus.n) && old(bplus.tree).Leaf? ==> RootEnters(old(bplus.tree), bplus.tree, key, value, bplus.n)
      ensures |old(Pairs()).keys| >= bplus.n / 2 ==> Spare(LeafOf(bplus.tree, key), bplus.n)
      ensures !Full(old(bplus.tree), bplus.n) && Roomy(old(bplus.tree), key, bplus.n) ==> bm.DirtyIds() <= old(bm.DirtyIds()) + {LeafOf(old(bplus.tree), key).id}
    {
      hide *;
      PartsAre();
      ValidFacts();
      MapIs();
      RootFill(bplus.tree, bplus.n);
      bplus.Insert(key, value);
      BTreeInsert.InsSameFacts(old(bplus.tree), bplus.tree, key, value);
      ValidIs();
      MapIs();
      if key !in old(Map()) {
        ToMapInsert(old(Pairs()), key, value);
      }
    }

    /** get_value: always the value of the key in the map, whatever the cache holds. */
    method GetValue(key: int) returns (value: Value)
      requires Valid() && IsKey(key)
      modifies bplus, bm, bm.storage, Parts()
      ensures Valid() && Map() == old(Map()) && bplus.tree == old(bplus.tree)
      ensures value == if key in Map() then Map()[key] else ABSENT
      ensures radix != null ==> Radix.Asked(old(radix.State()), radix.State(), key, old(Served(key)).Some?, value != ABSENT && !(old(Served(key)).Some? && old(Direct(key))), radix.radixTreeSize)
      ensures radix != null && value != ABSENT && !(old(Served(key)).Some? && old(Direct(key))) ==> bplus.Points(key)
      ensures radix != null && key in old(radix.Contents()) && value != ABSENT ==> bplus.Gained(old(bplus.Seen()), bplus.Seen(), key) && bplus.Points(key)
      ensures bm.DirtyIds() <= old(bm.DirtyIds())
    {
      hide *;
      PartsAre();
      ValidFacts();
      MapIs();
      ToMapGet(Pairs(), key);
      ghost var seen := bplus.Seen();
      DirectIs(key);
      bplus.SeenIs();
      if radix != null {
        value := AskValue(key);
        MapIs();
        seen := bplus.Seen();
        bplus.SeenIs();
        if value != ABSENT {
          if key in old(radix.Contents()) {
            bplus.TookVia(old(bplus.Seen()), seen, key);
          }
          Radix.AskedIntro(old(radix.State()), radix.State(), radix.State(), key, old(Served(key)).Some?, false, radix.radixTreeSize);
          return value;
        }
        ValidFacts();
      }
      value := bplus.GetValue(key);
      bplus.SeenIs();
      if radix != null {
        bplus.TookIs(seen, bplus.Seen(), key);
        Radix.AskedIntro(old(radix.State()), seen.value, radix.State(), key, old(Served(key)).Some?, value != ABSENT, radix.radixTreeSize);
      }
      if radix != null && key in old(radix.Contents()) {
        bplus.TookVia(old(bplus.Seen()), seen, key);
      }
      ValidIntro();
      MapIs();
    }

    /** The cache's part of get_value: nothing, or the right value. */
    method AskValue(key: int) returns (value: Value)
      requires Valid() && IsKey(key) && radix != null
      modifies bplus, bm, bm.storage, Parts()
      ensures Valid() && Pairs() == old(Pairs()) && KVOk(Pairs()) && |Pairs().keys| == |Pairs().vals|
      ensures value == (if old(Served(key)).Some? && old(Direct(key)) then OuterGet(Pairs(), key) else ABSENT) && Radix.Looked(old(radix.State()), radix.State(), key, old(Served(key)).Some?)
      ensures bplus.tree == old(bplus.tree) && bplus.height == old(bplus.height) && bplus.Seen().Some? && old(bplus.Seen()).Some?
      ensures key in old(radix.Contents()) ==> Radix.Kept(old(bplus.Seen()).value, bplus.Seen().value, key)
      ensures key in old(radix.Contents()) && value != ABSENT ==> key in bplus.Seen().value.keys && bplus.Points(key)
      ensures bm.DirtyIds() <= old(bm.DirtyIds())
    {
      hide *;
      PartsAre();
      ValidFacts();
      TreeFacts(key);
      PairsIs();
      bplus.SeenIs();
      DirectIs(key);
      radix.ServedFacts(key);
      if key in radix.Contents() {
        radix.ServedOwn(key);
        if radix.Served(key).Some? {
          bplus.PointsIntro(key);
        }
        Radix.KeptIs(radix.Contents(), key);
      }
      if radix.Served(key).Some? {
        Radix.LeafPageIs(bm.live, radix.Served(key).value);
        ServedAnswer(bm.live, bplus.tree, radix.Served(key).value, key, bplus.height, bplus.C());
      }
      LeafStays(bm.live, bplus.tree, key, bplus.height, bplus.C());
      label Asked: value := radix.GetValue(key);
      if old(radix.Served(key)).Some? {
        bplus.PointsKept@Asked();
      }
      bplus.SeenIs();
      if key in old(radix.Contents()) {
        Radix.KeptIntro(old(bplus.Seen()).value, bplus.Seen().value, old(radix.Contents()), radix.Contents(), key);
      }
      Resume(key, LeafOf(bplus.tree, key).kv, old(bm.live), old(bplus.View()), old(radix.Contents()), old(radix.Landed(key)));
      PairsIs();
    }

    /** update: an exact description. The update is lost just when the cache answers with a page that does not hold the key. */
    method Update(key: int, value: Value)
      requires Valid() && IsKey(key)
      modifies bplus, bm, bm.storage, Parts()
      ensures Valid()
      ensures LeafOf(old(bplus.tree), key).Leaf? && |LeafOf(old(bplus.tree), key).kv.keys| == |LeafOf(old(bplus.tree), key).kv.vals|
      ensures bplus.tree == if old(Direct(key)) then SetKV(old(bplus.tree), key, OuterUpdate(LeafOf(old(bplus.tree), key).kv, key, value)) else old(bplus.tree)
      ensures radix != null ==> Radix.Asked(old(radix.State()), radix.State(), key, old(Served(key)).Some?, old(Served(key)).None?, radix.radixTreeSize)
      ensures radix != null && old(Served(key)).None? ==> bplus.Points(key)
      ensures Map() == if key in old(Map()) && old(Direct(key)) then old(Map())[key := value] else old(Map())
      ensures bm.DirtyIds() <= old(bm.DirtyIds()) + {if old(Served(key)).Some? then old(Served(key)).value else LeafOf(old(bplus.tree), key).id}
    {
      hide *;
      PartsAre();
      ValidFacts();
      MapIs();
      DirectIs(key);
      ToMapUpdate(Pairs(), key, value);
      bplus.SeenIs();
      ghost var seen := bplus.Seen();
      if radix != null {
        var done := AskUpdate(key, value);
        MapIs();
        bplus.SeenIs();
        seen := bplus.Seen();
        if done {
          Radix.AskedIntro(old(radix.State()), radix.State(), radix.State(), key, true, false, radix.radixTreeSize);
          return;
        }
        ValidFacts();
      }
      bplus.Update(key, value);
      bplus.SeenIs();
      if radix != null {
        bplus.TookIs(seen, bplus.Seen(), key);
        Radix.AskedIntro(old(radix.State()), seen.value, radix.State(), key, false, true, radix.radixTreeSize);
      }
      ValidIntro();
      MapIs();
    }

    /** The cache's part of update. */
    method AskUpdate(key: int, value: Value) returns (done: bool)
      requires Valid() && IsKey(key) && radix != null
      modifies bplus, bm, bm.storage, Parts()
      ensures Valid() && done == old(Served(key)).Some? && Radix.Looked(old(radix.State()), radix.State(), key, old(Served(key)).Some?)
      ensures LeafOf(old(bplus.tree), key).Leaf? && |LeafOf(old(bplus.tree), key).kv.keys| == |LeafOf(old(bplus.tree), key).kv.vals|
      ensures bplus.tree == if done && old(Direct(key)) then SetKV(old(bplus.tree), key, OuterUpdate(LeafOf(old(bplus.tree), key).kv, key, value)) else old(bplus.tree)
      ensures KVOk(old(Pairs())) && Pairs() == if done && old(Direct(key)) then OuterUpdate(old(Pairs()), key, value) else old(Pairs())
      ensures bm.DirtyIds() <= old(bm.DirtyIds()) + if done then {old(Served(key)).value} else {}
    {
      hide *;
      PartsAre();
      ValidFacts();
      TreeFacts(key);
      PairsIs();
      DirectIs(key);
      radix.ServedFacts(key);
      ghost var t, h, m, v, id := bplus.tree, bplus.height, bm.live, bplus.View(), radix.Served(key);
      ghost var kv := LeafOf(t, key).kv;
      LeafStays(m, t, key, h, bplus.C());
      if id.Some? {
        Radix.LeafPageIs(m, id.value);
        if Holds(m[id.value], key) {
          UpdatedAt(m, t, id.value, key, value, h, bplus.C());
          kv := OuterUpdate(kv, key, value);
        } else {
          NotUpdated(m, id.value, key, value);
        }
      }
      done := radix.Update(key, value);
      Resume(key, kv, m, v, old(radix.Contents()), old(radix.Landed(key)));
      PairsIs();
    }

    /**
     * delete_value: an exact description. A deletion is lost just when the cache
     * answers with a page that does not hold the key but could spare one.
     */
    method DeleteValue(key: int)
      requires Valid() && IsKey(key)
      modifies bplus, bm, bm.storage, Parts()
      ensures Map() == if old(Spares(key)) && !old(Direct(key)) then old(Map()) else old(Map()) - {key}
      ensures key in old(Map()) || radix == null || old(Spares(key)) ==> Valid()
      ensures !Separates(old(bplus.tree), key) ==> Valid()
      ensures old(Spares(key)) && !old(Direct(key)) ==> bplus.tree == old(bplus.tree)
      ensures old(Spares(key)) && old(Direct(key)) ==> Dropped(old(bplus.tree), bplus.tree, key)
      ensures !old(Spares(key)) ==> bplus.tree == Del(old(bplus.tree), key, true, LOW, INT64_MAX, old(bplus.height), bplus.C())
      ensures radix != null && old(Spares(key)) ==>
        radix.Contents() == old(radix.Contents()) - old(radix.Landed(key)) && radix.refused == old(radix.refused) && radix.currentSize <= old(radix.currentSize)
      ensures CanDel(old(bplus.tree), key, true, LOW, INT64_MAX, old(bplus.height), bplus.C())
      ensures radix != null ==> key !in radix.Contents()
      ensures radix != null ==>
        if old(Spares(key)) then Radix.Lost(old(radix.State()), radix.State(), key)
        else Radix.Erased(old(radix.State()), radix.State(), key, old(Served(key)).Some?, Lent(old(bplus.tree), key, true, LOW, INT64_MAX, old(bplus.height), bplus.C()), radix.radixTreeSize)
      ensures Valid() <==> old(Spares(key)) || Clean(old(bplus.tree), key, true, LOW, INT64_MAX, old(bplus.height), bplus.C())
    {
      hide *;
      PartsAre();
      ValidFacts();
      TreeFacts(key);
      PairsIs();
      MapIs();
      DirectIs(key);
      ToMapDelete(Pairs(), key);
      ghost var t, h := bplus.tree, bplus.height;
      CanDelRoot(t, key, LOW, INT64_MAX, h, bplus.C());
      bplus.SeenIs();
      ghost var seen := bplus.Seen();
      if radix != null {
        var done := AskDelete(key);
        MapIs();
        bplus.SeenIs();
        seen := bplus.Seen();
        if done {
          Radix.LostOut(old(radix.State()), radix.State(), key);
          return;
        }
        ValidFacts();
      }
      KeyStored(Pairs(), key);
      CleanFacts(t, key, true, LOW, INT64_MAX, h, bplus.C());
      if !Separates(t, key) {
        UnmarkedIsClean(t, key, true, LOW, INT64_MAX, h, bplus.C());
      }
      bplus.Delete(key);
      bplus.SeenIs();
      if radix != null {
        ghost var fed := bplus.GaveIs(seen, bplus.Seen(), Lent(t, key, true, LOW, INT64_MAX, h, bplus.C()), key);
        Radix.ErasedIntro(old(radix.State()), seen.value, fed, radix.State(), key, old(Served(key)).Some?, Lent(t, key, true, LOW, INT64_MAX, h, bplus.C()), radix.radixTreeSize);
      }
      ValidIs();
      MapIs();
    }

    /** The cache's part of delete_value. */
    method AskDelete(key: int) returns (done: bool)
      requires Valid() && IsKey(key) && radix != null
      modifies bplus, bm, bm.storage, Parts()
      ensures Valid() && done == old(Spares(key))
      ensures if done then Radix.Lost(old(radix.State()), radix.State(), key) else Radix.Looked(old(radix.State()), radix.State(), key, old(Served(key)).Some?)
      ensures done && !old(Direct(key)) ==> bplus.tree == old(bplus.tree)
      ensures done && old(Direct(key)) ==> Dropped(old(bplus.tree), bplus.tree, key)
      ensures done ==>
        radix.Contents() == old(radix.Contents()) - old(radix.Landed(key)) && radix.refused == old(radix.refused) && radix.currentSize <= old(radix.currentSize)
      ensures !done ==> bplus.tree == old(bplus.tree) && bplus.height == old(bplus.height)
      ensures KVOk(old(Pairs())) && Pairs() == if done && old(Direct(key)) then OuterDelete(old(Pairs()), key) else old(Pairs())
      ensures bm.DirtyIds() <= old(bm.DirtyIds()) + if done then {old(Served(key)).value} else {}
    {
      hide *;
      PartsAre();
      ValidFacts();
      TreeFacts(key);
      PairsIs();
      DirectIs(key);
      radix.ServedFacts(key);
      ghost var t, h, m, v, id := bplus.tree, bplus.height, bm.live, bplus.View(), radix.Served(key);
      ghost var kv := LeafOf(t, key).kv;
      LeafStays(m, t, key, h, bplus.C());
      if id.Some? {
        Radix.LeafPageIs(m, id.value);
      }
      if id.Some? && CanDelete(m[id.value], bplus.n) {
        if Holds(m[id.value], key) {
          DeletedAt(m, t, id.value, key, h, bplus.C());
          kv := OuterDelete(kv, key);
          DroppedIntro(t, key);
        } else {
          NotDeleted(m, id.value, key);
        }
      }
      done := radix.DeleteValue(key);
      Resume(key, kv, m, v, old(radix.Contents()), old(radix.Landed(key)));
      PairsIs();
    }

    /** The cache would scan from a page that fails the test; slot gives the word behind the last key of each leaf. */
    ghost predicate CacheFails(key: int, slot: nat -> int)
      requires IsKey(key)
      reads bm, if radix == null then {} else {radix}
    {
      Served(key).Some? && !Radix.PagePasses(bm.live, Served(key).value, key, slot)
    }

    /** The cache would scan from the leaf of other keys, which passes the test. */
    ghost predicate Astray(key: int, slot: nat -> int)
      requires IsKey(key)
      reads bm, bplus`tree, if radix == null then {} else {radix}
    {
      Served(key).Some? && Served(key).value != LeafOf(bplus.tree, key).id && !CacheFails(key, slot)
    }

    /** The scan gets to the leaf of the key, and that passes the test. */
    ghost predicate Reaches(key: int, slot: nat -> int)
      requires IsKey(key)
      reads bm, bplus`tree, if radix == null then {} else {radix}
    {
      !Astray(key, slot) && !(bm.asserts && CacheFails(key, slot)) && bplus.Passes(key, slot)
    }

    /** The first value a scan reports that starts with the key's rank on the served page. */
    ghost function Position(key: int): nat
      requires IsKey(key)
      reads bm, bplus`tree, if radix == null then {} else {radix}
    {
      if Served(key).Some? then PagePosition(bm.live, Pairs(), Served(key).value, key) else 0
    }

    /** In a build without assertions: the page that a failed scan of the cache never releases ... */
    ghost function CacheStrands(key: int, slot: nat -> int): set<nat>
      requires IsKey(key)
      reads bm, if radix == null then {} else {radix}
    {
      if CacheFails(key, slot) && !bm.asserts then {Served(key).value} else {}
    }

    /** ... and the one that a failed scan of the tree does, to which the engine goes on. */
    ghost function TreeStrands(key: int, slot: nat -> int): set<nat>
      requires IsKey(key)
      reads bm, bplus`tree, if radix == null then {} else {radix}
    {
      if (Served(key).None? || CacheFails(key, slot)) && !bplus.Passes(key, slot) && !bm.asserts then {LeafOf(bplus.tree, key).id} else {}
    }

    /**
     * scan: a total description. slot stands for the array words behind the last keys,
     * which the test at the head of a scan may look at. A scan that reaches the leaf of
     * its key sums from the key's place among the pairs; one that goes astray sums from
     * another leaf; any other one fails, by an assertion with one page still fixed, or
     * without assertions with the answer INT64_MIN and a page that is never released.
     */
    method Scan(key: int, range: int, slot: nat -> int) returns (sum: Option<Value>)
      requires Valid() && IsKey(key)
      requires |bm.stuck + CacheStrands(key, slot)| + 3 <= bm.bufferSize
      modifies bplus, bm, bm.storage, Parts()
      ensures bplus.tree == old(bplus.tree) && Pairs() == old(Pairs()) && KVOk(Pairs()) && bm.live == old(bm.live) && Rank(Pairs().keys, key) <= |Pairs().vals|
      ensures old(Reaches(key, slot)) ==> sum == Some(TreeOperations.Reported(TreeOperations.Xor(Pairs().vals[Rank(Pairs().keys, key)..], range)))
      ensures old(Astray(key, slot)) ==> old(Position(key)) <= |Pairs().vals| && sum == Some(TreeOperations.Reported(TreeOperations.Xor(Pairs().vals[old(Position(key))..], range)))
      ensures !old(Reaches(key, slot)) && !old(Astray(key, slot)) ==> sum == if bm.asserts then None else Some(ABSENT)
      ensures |bm.pins| == (if sum.None? then 1 else 0) && (sum.Some? && bm.Room(3) ==> Valid())
      ensures bm.stuck == old(bm.stuck) + old(CacheStrands(key, slot)) + old(TreeStrands(key, slot))
      ensures radix != null ==> Radix.Asked(old(radix.State()), radix.State(), key, old(Served(key)).Some?, (old(Served(key)).None? || (old(CacheFails(key, slot)) && !bm.asserts)) && old(bplus.Passes(key, slot)), radix.radixTreeSize)
      ensures bm.DirtyIds() <= old(bm.DirtyIds())
    {
      hide *;
      PartsAre();
      ValidFacts();
      ReachesIs(key, slot);
      StrandsAre(key, slot);
      SortedIs(Pairs());
      ghost var first := CacheStrands(key, slot);
      NoMore(bm.stuck);
      bplus.SeenIs();
      ghost var seen := bplus.Seen();
      if radix != null {
        sum := AskScan(key, range, slot);
        PairsIs();
        bplus.SeenIs();
        seen := bplus.Seen();
        if sum != Some(ABSENT) {
          Radix.AskedIntro(old(radix.State()), radix.State(), radix.State(), key, old(Served(key)).Some?, false, radix.radixTreeSize);
          NoMore(bm.stuck);
          return sum;
        }
        bm.RoomIs(3);
        ValidFacts();
      }
      assert bm.stuck == old(bm.stuck) + first;
      NoMore(bm.stuck);
      bplus.PassesIs(key, slot);
      sum := bplus.Scan(key, range, slot);
      bplus.SeenIs();
      if radix != null {
        bplus.TookIs(seen, bplus.Seen(), key);
        Radix.AskedIntro(old(radix.State()), seen.value, radix.State(), key, old(Served(key)).Some?, bplus.Passes(key, slot), radix.radixTreeSize);
      }
      PairsIs();
      if sum.Some? && bm.Room(3) {
        ValidIntro();
      }
    }

    /** The cache's part of scan. */
    method AskScan(key: int, range: int, slot: nat -> int) returns (sum: Option<Value>)
      requires Valid() && IsKey(key) && radix != null
      modifies bplus, bm, bm.storage, Parts()
      ensures bplus.tree == old(bplus.tree) && KVOk(Pairs()) && bm.live == old(bm.live)
      ensures sum.None? <==> old(CacheFails(key, slot)) && bm.asserts
      ensures sum == Some(ABSENT) <==> old(Served(key)).None? || (old(CacheFails(key, slot)) && !bm.asserts)
      ensures bm.pins == (if sum.None? then {old(Served(key)).value} else {}) && (sum.Some? && bm.Room(3) ==> Valid())
      ensures bm.stuck == old(bm.stuck) + old(CacheStrands(key, slot)) && Radix.Looked(old(radix.State()), radix.State(), key, old(Served(key)).Some?)
      ensures sum.Some? && sum != Some(ABSENT) ==>
        old(Position(key)) <= |Pairs().vals| && sum.value == TreeOperations.Reported(TreeOperations.Xor(Pairs().vals[old(Position(key))..], range))
      ensures bm.DirtyIds() <= old(bm.DirtyIds())
    {
      hide *;
      PartsAre();
      ValidFacts();
      TreeFacts(key);
      PairsIs();
      bm.RoomIs(2);
      bm.RoomIs(3);
      ghost var kv := LeafOf(bplus.tree, key).kv;
      LeafStays(bm.live, bplus.tree, key, bplus.height, bplus.C());
      sum := AskLeaf(key, range, slot);
      if sum.Some? && bm.Room(3) {
        Resume(key, kv, old(bm.live), old(bplus.View()), old(radix.Contents()), old(radix.Landed(key)));
      }
      PairsIs();
    }

    /** The same before the view of the tree is restored. */
    method AskLeaf(key: int, range: int, slot: nat -> int) returns (sum: Option<Value>)
      requires Valid() && IsKey(key) && radix != null && bm.Room(2)
      modifies bm, bm.storage, Parts()
      ensures radix.Valid() && radix.LinksOk() && bm.Valid() && bm.written == {} && bm.live == old(bm.live)
      ensures radix.Contents() == old(radix.Contents()) || radix.Contents() == old(radix.Contents()) - old(radix.Landed(key))
      ensures radix.refused == old(radix.refused) && Radix.Looked(old(radix.State()), radix.State(), key, old(Served(key)).Some?)
      ensures sum.None? <==> old(CacheFails(key, slot)) && bm.asserts
      ensures sum == Some(ABSENT) <==> old(Served(key)).None? || (old(CacheFails(key, slot)) && !bm.asserts)
      ensures bm.pins == (if sum.None? then {old(Served(key)).value} else {}) && bm.stuck == old(bm.stuck) + old(CacheStrands(key, slot))
      ensures sum.Some? && sum != Some(ABSENT) ==>
        old(Position(key)) <= |Pairs().vals| && sum.value == TreeOperations.Reported(TreeOperations.Xor(Pairs().vals[old(Position(key))..], range))
      ensures bm.DirtyIds() <= old(bm.DirtyIds())
    {
      hide *;
      PartsAre();
      ValidFacts();
      CacheFailsIs(key, slot);
      StrandsAre(key, slot);
      NoMore(bm.stuck);
      ghost var chain := ServedChain(key);
      ghost var at := Position(key);
      sum := radix.Scan(key, range, slot, chain);
      TreeOperations.ReportedIs(TreeOperations.Xor(Pairs().vals[at..], range));
    }

    /** The chain of leaves from the page the cache serves. */
    lemma ServedChain(key: int) returns (ids: seq<nat>)
      requires Valid() && IsKey(key) && radix != null
      ensures Position(key) <= |Pairs().vals|
      ensures radix.Served(key).Some? ==>
        && TreeOperations.LeafChain(bm.live, ids) && ids[0] == radix.Served(key).value && Radix.LeafPage(bm.live, ids[0])
        && var r := Rank(bm.live[ids[0]].kv.keys, key);
        r <= |TreeOperations.ChainVals(bm.live, ids)| && TreeOperations.ChainVals(bm.live, ids)[r..] == Pairs().vals[Position(key)..]
    {
      hide *;
      ValidFacts();
      TreeFacts(key);
      PairsIs();
      DirectIs(key);
      radix.ServedFacts(key);
      if radix.Served(key).Some? {
        var id := radix.Served(key).value;
        Radix.LeafPageIs(bm.live, id);
        RangeIs();
        ids := LeafPageChain(bm.live, bplus.tree, id, LOW, INT64_MAX, bplus.height, bplus.C());
        PositionIs(key);
        Slices(TreeOperations.ChainVals(bm.live, ids), Pairs().vals, Start(Pairs(), bm.live[id].kv), Rank(bm.live[id].kv.keys, key));
      } else {
        ids := [];
        NoPosition(key);
      }
    }

    lemma NoPosition(key: int)
      requires IsKey(key) && Served(key).None?
      ensures Position(key) == 0
    {
    }

    lemma CacheFailsIs(key: int, slot: nat -> int)
      requires IsKey(key) && (radix != null ==> radix.bm == bm)
      ensures Served(key) == if radix == null then None else radix.Served(key)
      ensures CacheFails(key, slot) <==> Served(key).Some? && !Radix.PagePasses(bm.live, Served(key).value, key, slot)
    {
    }

    lemma PositionIs(key: int)
      requires IsKey(key) && Served(key).Some? && Served(key).value in bm.live && bm.live[Served(key).value].Outer?
      ensures var kv := bm.live[Served(key).value].kv; Position(key) == Start(Pairs(), kv) + Rank(kv.keys, key)
    {
    }

    lemma CasesAre(key: int, slot: nat -> int)
      requires IsKey(key)
      ensures Astray(key, slot) <==> Served(key).Some? && Served(key).value != LeafOf(bplus.tree, key).id && !CacheFails(key, slot)
      ensures Reaches(key, slot) <==> !Astray(key, slot) && !(bm.asserts && CacheFails(key, slot)) && bplus.Passes(key, slot)
    {
    }

    lemma StrandsAre(key: int, slot: nat -> int)
      requires IsKey(key)
      ensures CacheStrands(key, slot) == if CacheFails(key, slot) && !bm.asserts then {Served(key).value} else {}
      ensures TreeStrands(key, slot) == if (Served(key).None? || CacheFails(key, slot)) && !bplus.Passes(key, slot) && !bm.asserts then {LeafOf(bplus.tree, key).id} else {}
    {
    }

    /** Which page a scan starts from, and where. */
    lemma ReachesIs(key: int, slot: nat -> int)
      requires Valid() && IsKey(key)
      ensures Served(key).None? ==> !CacheFails(key, slot) && !Astray(key, slot) && (Reaches(key, slot) <==> bplus.Passes(key, slot))
      ensures CacheFails(key, slot) ==> Served(key).Some? && !Astray(key, slot) && (Reaches(key, slot) <==> !bm.asserts && bplus.Passes(key, slot))
      ensures Served(key).Some? && !CacheFails(key, slot) ==> Astray(key, slot) || (Reaches(key, slot) && Position(key) == Rank(Pairs().keys, key))
      ensures radix == null ==> Served(key).None?
      ensures Astray(key, slot) ==> !Reaches(key, slot)
    {
      hide *;
      ValidFacts();
      CacheFailsIs(key, slot);
      CasesAre(key, slot);
      if Served(key).Some? && !CacheFails(key, slot) && Served(key).value == LeafOf(bplus.tree, key).id {
        TreeFacts(key);
        PairsIs();
        LeafStays(bm.live, bplus.tree, key, bplus.height, bplus.C());
        Radix.PagePassesIs(bm.live, Served(key).value, key, slot);
        bplus.PassesIs(key, slot);
        PositionIs(key);
        StartOwn(bplus.tree, key, LOW, INT64_MAX, bplus.height, bplus.C());
      }
    }

    /**
     * A scan from a stored key reaches its leaf if the cache serves a page that holds
     * it; in a build without assertions it is enough that the cache does not lead astray.
     */
    lemma StoredReaches(key: int, slot: nat -> int)
      requires Valid() && IsKey(key) && key in Map()
      ensures Direct(key) ==> Reaches(key, slot)
      ensures !bm.asserts && !Astray(key, slot) ==> Reaches(key, slot)
    {
      hide *;
      ReachesIs(key, slot);
      HeldPasses(key, slot);
    }

    /** With no remnant of the key behind any last key, a scan reaches exactly the stored keys that are served directly, or all stored ones without assertions. */
    lemma ScanIff(key: int, slot: nat -> int)
      requires Valid() && IsKey(key) && forall id :: slot(id) != key
      ensures Reaches(key, slot) <==> key in Map() && (Direct(key) || !bm.asserts)
      ensures !Astray(key, slot)
    {
      hide *;
      ValidFacts();
      DirectIs(key);
      ReachesIs(key, slot);
      HeldPasses(key, slot);
    }

    lemma HeldPasses(key: int, slot: nat -> int)
      requires Valid() && IsKey(key)
      ensures key in Map() ==> bplus.Passes(key, slot)
      ensures Direct(key) && Served(key).Some? ==> !CacheFails(key, slot) && !Astray(key, slot)
      ensures slot(LeafOf(bplus.tree, key).id) != key && bplus.Passes(key, slot) ==> key in Map()
      ensures Served(key).Some? && slot(Served(key).value) != key && !CacheFails(key, slot) ==> Direct(key)
      ensures Served(key).Some? && Direct(key) ==> key in Map()
    {
      hide *;
      ValidFacts();
      TreeFacts(key);
      MapIs();
      DirectIs(key);
      CacheFailsIs(key, slot);
      CasesAre(key, slot);
      bplus.PassesIs(key, slot);
      LeafSearch(bplus.tree, key, LOW, INT64_MAX, bplus.height, bplus.C());
      KeyStored(Pairs(), key);
      KeyStored(LeafOf(bplus.tree, key).kv, key);
      if Served(key).Some? {
        radix.ServedFacts(key);
        HolderServed(key, Served(key).value);
        Radix.PagePassesIs(bm.live, Served(key).value, key, slot);
      }
    }

    /** A served leaf that holds the key is the one the key leads to. */
    lemma HolderServed(key: int, id: nat)
      requires Valid() && IsKey(key) && Radix.LeafPage(bm.live, id)
      ensures id in bm.live && bm.live[id].Outer? && (Contains(bm.live[id].kv.keys, key) <==> Holds(bm.live[id], key))
      ensures Holds(bm.live[id], key) ==>
        LeafOf(bplus.tree, key).Leaf? && LeafOf(bplus.tree, key).id == id && bm.live[id].kv == LeafOf(bplus.tree, key).kv && key in Pairs().keys
    {
      hide *;
      ValidFacts();
      TreeFacts(key);
      PairsIs();
      Radix.LeafPageIs(bm.live, id);
      HoldsIs(bm.live[id], key);
      ContainsOnly(bm.live[id].kv.keys, key);
      if Holds(bm.live[id], key) {
        ServedLeaf(bm.live, bplus.tree, id, key, bplus.height, bplus.C());
        LeafSearch(bplus.tree, key, LOW, INT64_MAX, bplus.height, bplus.C());
        KeyStored(Pairs(), key);
        KeyStored(LeafOf(bplus.tree, key).kv, key);
      }
    }

    /** After an operation of the cache alone: it has lost entries at most, and the leaf of key holds kv. */
    ghost method Resume(key: int, kv: KV, m: Store, v: View, was: View, landed: set<int>)
      requires radix != null && bplus.bm == bm && bplus.cache == radix && radix.bm == bm && radix.n == bplus.n && bplus.n >= 4 && bm.Room(3)
      requires bm.Valid() && bm.pins == {} && bm.written == {} && radix.Valid() && radix.LinksOk()
      requires v == (if radix.refused then map[] else was) && (radix.Contents() == was || radix.Contents() == was - landed)
      requires bplus.rootId == bplus.tree.id && OK(bplus.tree, LOW, INT64_MAX, bplus.height, bplus.C()) && LastNext(bplus.tree) == 0
      requires Rep(m, bplus.tree) && Disj(bplus.tree) && m.Keys == Ids(bplus.tree) && Coh(v, bplus.tree) && LOW < key <= INT64_MAX
      requires LeafOf(bplus.tree, key).Leaf? && Swaps(LeafOf(bplus.tree, key).kv, kv, bplus.C()) && bplus.C().n == bplus.n
      requires bm.live == m[LeafOf(bplus.tree, key).id := Outer(kv, LeafOf(bplus.tree, key).next)]
      modifies bplus`tree, bplus`height
      ensures Valid() && bplus.tree == SetKV(old(bplus.tree), key, kv) && bplus.height == old(bplus.height)
    {
      hide *;
      PartsAre();
      ghost var t, h := bplus.tree, bplus.height;
      bplus.ViewIs();
      bplus.InvIntro();
      FewerEntries(v, bplus.View(), was, landed, key, LeafOf(t, key).id);
      SwapFacts(LeafOf(t, key).kv, kv, bplus.C());
      SetTurn(m, v, bplus.View(), m.Keys, t, key, kv, LOW, INT64_MAX, h, bplus.C());
      SetOK(t, key, kv, LOW, INT64_MAX, h, bplus.C());
      ShellFacts(t, SetKV(t, key, kv), bplus.C());
      bplus.SettledAfter(SetKV(t, key, kv), h, m, v, m.Keys);
      bplus.ValidIntro();
      ValidIntro();
    }

    /** A key that is cached coherently is served from the page that holds it, if it is served at all. */
    lemma CachedIsDirect(key: int)
      requires Valid() && IsKey(key) && key in Map()
      requires radix != null && !radix.refused && key in radix.Contents()
      ensures Direct(key) && (Served(key).Some? ==> Served(key).value == radix.Contents()[key].pageId == LeafOf(bplus.tree, key).id)
    {
      hide *;
      ValidFacts();
      TreeFacts(key);
      MapIs();
      DirectIs(key);
      LeafStays(bm.live, bplus.tree, key, bplus.height, bplus.C());
      LeafSearch(bplus.tree, key, LOW, INT64_MAX, bplus.height, bplus.C());
      KeyStored(Pairs(), key);
      KeyStored(LeafOf(bplus.tree, key).kv, key);
      CohAt(bm.live, bplus.View(), bplus.tree, key, LOW, INT64_MAX, bplus.height, bplus.C());
      radix.ServedOwn(key);
      HoldsIs(bm.live[LeafOf(bplus.tree, key).id], key);
    }

    /**
     * A search that ends at the current entry of another cached key is served by the
     * leaf of that other key: what an operation then does is decided by that leaf.
     */
    lemma LandsElsewhere(key: int, x: int)
      requires Valid() && IsKey(key) && IsKey(x) && radix != null && !radix.refused
      requires Radix.LandsAt(radix.tree, key) == Some(x) && x in Map() && bplus.Points(x)
      ensures LeafOf(bplus.tree, x).Leaf? && Served(key) == Some(LeafOf(bplus.tree, x).id)
      ensures Direct(key) <==> key in LeafOf(bplus.tree, x).kv.keys
      ensures Spares(key) <==> Spare(LeafOf(bplus.tree, x), bplus.n)
    {
      hide *;
      ValidFacts();
      TreeFacts(x);
      MapIs();
      DirectIs(key);
      LeafStays(bm.live, bplus.tree, x, bplus.height, bplus.C());
      LeafSearch(bplus.tree, x, LOW, INT64_MAX, bplus.height, bplus.C());
      KeyStored(Pairs(), x);
      KeyStored(LeafOf(bplus.tree, x).kv, x);
      bplus.PointsIs(x);
      radix.ValidFacts();
      radix.ContentsIs();
      radix.ServedIs(key);
      Radix.HitOIs(radix.tree, key);
      CohAt(bm.live, bplus.View(), bplus.tree, x, LOW, INT64_MAX, bplus.height, bplus.C());
      HoldsIs(bm.live[LeafOf(bplus.tree, x).id], key);
      LeafPageOf(LeafOf(bplus.tree, x));
      SpareIs(LeafOf(bplus.tree, x), bplus.n);
    }

    lemma ValidFacts()
      requires Valid()
      ensures bplus.bm == bm && bplus.cache == radix && bplus.Valid() && bplus.CacheParts() == Parts()
      ensures radix != null ==> radix.bm == bm && radix.n == bplus.n && radix.Valid() && radix.LinksOk()
      ensures bm.Valid() && bm.pins == {} && bm.written == {} && bm.Room(3) && bplus.n >= 4
      ensures KVOk(Pairs())
    {
      hide *;
      ValidIs();
      bplus.ValidFacts();
      bplus.InvFacts();
      bplus.PartsAre();
      bplus.ConfigIs();
      PartsAre();
      FlatOK(bplus.tree, LOW, INT64_MAX, bplus.height, bplus.C());
      PairsIs();
    }

    lemma ValidIs()
      ensures Valid() <==> bplus.bm == bm && bplus.cache == radix && bplus.Valid()
    {
    }

    lemma ValidIntro()
      requires bplus.bm == bm && bplus.cache == radix && bplus.Valid()
      ensures Valid()
    {
    }

    lemma PairsIs()
      ensures Pairs() == Flat(bplus.tree)
    {
    }

    lemma MapIs()
      ensures KVOk(Pairs()) ==> Map() == ToMap(Pairs())
      ensures Pairs() == Flat(bplus.tree)
      ensures KVOk(Pairs()) ==> |Pairs().keys| == |Pairs().vals| && forall k :: k in Map() <==> k in Pairs().keys
    {
    }

    lemma DirectIs(key: int)
      requires IsKey(key) && (radix != null ==> radix.bm == bm)
      ensures Served(key) == if radix == null then None else radix.Served(key)
      ensures Direct(key) <==> (Served(key).Some? ==> Served(key).value in bm.live && Holds(bm.live[Served(key).value], key))
      ensures Spares(key) <==> Served(key).Some? && Served(key).value in bm.live && CanDelete(bm.live[Served(key).value], bplus.n)
    {
    }

    lemma TreeFacts(key: int)
      requires Valid() && IsKey(key)
      ensures bplus.rootId == bplus.tree.id && Rep(bm.live, bplus.tree) && Disj(bplus.tree) && bm.live.Keys == Ids(bplus.tree)
      ensures Coh(bplus.View(), bplus.tree) && OK(bplus.tree, LOW, INT64_MAX, bplus.height, bplus.C()) && LastNext(bplus.tree) == 0
      ensures LOW < key <= INT64_MAX && bplus.C().n == bplus.n && bplus.C().exact == (radix == null) && 0 !in bm.live
      ensures LeafOf(bplus.tree, key).Leaf? && KVOk(LeafOf(bplus.tree, key).kv)
      ensures |LeafOf(bplus.tree, key).kv.keys| == |LeafOf(bplus.tree, key).kv.vals| && |Flat(bplus.tree).keys| == |Flat(bplus.tree).vals|
      ensures bplus.View() == if radix == null || radix.refused then map[] else radix.Contents()
      ensures OuterGet(Flat(bplus.tree), key) == OuterGet(LeafOf(bplus.tree, key).kv, key)
    {
      hide *;
      ValidFacts();
      bplus.ValidFacts();
      bplus.ConfigIs();
      bplus.PinsIn();
      bplus.ViewIs();
      Radix.KeyIs(key);
      LeafSearch(bplus.tree, key, LOW, INT64_MAX, bplus.height, bplus.C());
      SortedIs(LeafOf(bplus.tree, key).kv);
      SortedIs(Flat(bplus.tree));
    }

    lemma PartsAre()
      ensures Parts() == if radix == null then {} else {radix, radix.buffer}
    {
    }

    ghost function Parts(): set<object> {
      if radix == null then {} else {radix, radix.buffer}
    }
  }

  predicate Holds(p: Page, key: int) {
    p.Outer? && key in p.kv.keys
  }

  lemma HoldsIs(p: Page, key: int)
    ensures Holds(p, key) <==> p.Outer? && key in p.kv.keys
  {
  }

  lemma RootFill(t: Tree, n: nat)
    ensures |Flat(t).keys| >= n / 2 ==> t.Node? || MinFill(t, n)
  {
  }

  /** The place, among all pairs, of a key's rank on leaf page id. */
  ghost function PagePosition(m: Store, all: KV, id: nat, key: int): nat {
    if id in m && m[id].Outer? then Start(all, m[id].kv) + Rank(m[id].kv.keys, key) else 0
  }

  lemma NoMore(s: set<nat>)
    ensures s + {} == s
  {
  }

  lemma Slices(part: seq<Value>, all: seq<Value>, a: nat, r: nat)
    requires a <= |all| && part == all[a..] && r <= |part|
    ensures a + r <= |all| && part[r..] == all[a + r..]
  {
  }

  lemma RangeIs()
    ensures LOW < INT64_MAX
  {
  }

  lemma NoPairs()
    ensures ToMap(EMPTY) == map[]
  {
  }

  lemma FewerEntries(v: View, v': View, was: View, landed: set<int>, key: int, id: nat)
    requires (v == map[] && v' == map[]) || (v == was && (v' == was || v' == was - landed))
    ensures Cached(v, v', key, id)
  {
  }

  /** The leaf of the key is stored as it is, and keeping it is no change. */
  lemma LeafStays(m: Store, t: Tree, key: int, h: nat, c: Cfg)
    requires OK(t, LOW, INT64_MAX, h, c) && LOW < key <= INT64_MAX && Rep(m, t) && Disj(t) && LeafOf(t, key).Leaf? && KVOk(LeafOf(t, key).kv)
    requires c.n >= 4
    ensures LeafOf(t, key).id in m && m[LeafOf(t, key).id] == Outer(LeafOf(t, key).kv, LeafOf(t, key).next)
    ensures m[LeafOf(t, key).id := Outer(LeafOf(t, key).kv, LeafOf(t, key).next)] == m
    ensures SetKV(t, key, LeafOf(t, key).kv) == t && Swaps(LeafOf(t, key).kv, LeafOf(t, key).kv, c)
  {
    hide *;
    SetSame(t, key, LOW, INT64_MAX, h, c);
    SelfSwap(LeafOf(t, key).kv, c);
    LeafStored(m, t, key, LOW, INT64_MAX, h, c);
  }

  lemma SelfSwap(kv: KV, c: Cfg)
    requires KVOk(kv)
    ensures Swaps(kv, kv, c)
  {
  }

  lemma {:induction false} LeafStored(m: Store, t: Tree, key: int, lo: int, hi: int, h: nat, c: Cfg)
    requires OK(t, lo, hi, h, c) && lo < key <= hi && Rep(m, t) && LeafOf(t, key).Leaf?
    ensures LeafOf(t, key).id in m && m[LeafOf(t, key).id] == Outer(LeafOf(t, key).kv, LeafOf(t, key).next)
    decreases h
  {
    hide *;
    if t.Leaf? {
      LeafOfLeaf(t, key, EMPTY);
      RepPage(m, t);
      LeafPageOf(t);
    } else {
      LeafOfNode(t, key, EMPTY, lo, hi, h, c);
      var i := Rank(t.keys, key);
      KidCoh(m, map[], t, i) by {
        CohNone(t);
      }
      LeafStored(m, t.kids[i], key, Lo(t.keys, i, lo), Hi(t.keys, i, hi), h - 1, c);
    }
  }

  /** A leaf page that holds the key is the leaf the key leads to. */
  lemma ServedLeaf(m: Store, t: Tree, id: nat, key: int, h: nat, c: Cfg)
    requires OK(t, LOW, INT64_MAX, h, c) && Rep(m, t) && m.Keys == Ids(t) && id in m && m[id].Outer? && key in m[id].kv.keys
    ensures LeafOf(t, key).Leaf? && LeafOf(t, key).id == id && m[id] == Outer(LeafOf(t, key).kv, LeafOf(t, key).next)
  {
    HolderIs(m, t, id, key, LOW, INT64_MAX, h, c);
  }

  /** What any leaf page of the tree says about a key is nothing, or right. */
  lemma ServedAnswer(m: Store, t: Tree, id: nat, key: int, h: nat, c: Cfg)
    requires OK(t, LOW, INT64_MAX, h, c) && c.n >= 4 && LOW < key <= INT64_MAX && Rep(m, t) && m.Keys == Ids(t)
    requires Radix.LeafPage(m, id)
    ensures m[id].Outer? && |m[id].kv.keys| == |m[id].kv.vals| && KVOk(Flat(t))
    ensures OuterGet(m[id].kv, key) == if Holds(m[id], key) then OuterGet(Flat(t), key) else ABSENT
  {
    hide *;
    Radix.LeafPageIs(m, id);
    HoldsIs(m[id], key);
    LeafSearch(t, key, LOW, INT64_MAX, h, c);
    if key in m[id].kv.keys {
      ServedLeaf(m, t, id, key, h, c);
    } else {
      NotStored(m[id].kv, key, 0);
    }
  }

  lemma ContainsOnly(keys: seq<int>, key: int)
    ensures Contains(keys, key) ==> key in keys
  {
  }

  lemma NotStored(kv: KV, key: int, x: Value)
    requires |kv.keys| == |kv.vals| && key !in kv.keys
    ensures OuterGet(kv, key) == ABSENT && OuterUpdate(kv, key, x) == kv && OuterDelete(kv, key) == kv
  {
  }

  lemma UpdatedAt(m: Store, t: Tree, id: nat, key: int, x: Value, h: nat, c: Cfg)
    requires OK(t, LOW, INT64_MAX, h, c) && c.n >= 4 && LOW < key <= INT64_MAX && Rep(m, t) && m.Keys == Ids(t)
    requires Radix.LeafPage(m, id) && Holds(m[id], key)
    ensures LeafOf(t, key).Leaf? && LeafOf(t, key).id == id && KVOk(Flat(t))
    ensures KVOk(LeafOf(t, key).kv) && |LeafOf(t, key).kv.keys| == |LeafOf(t, key).kv.vals|
    ensures
      var kv := OuterUpdate(LeafOf(t, key).kv, key, x);
      && Radix.UpdatedIn(m, id, key, x) == m[id := Outer(kv, LeafOf(t, key).next)]
      && Flat(SetKV(t, key, kv)) == OuterUpdate(Flat(t), key, x) && Swaps(LeafOf(t, key).kv, kv, c)
  {
    hide *;
    Radix.LeafPageIs(m, id);
    HoldsIs(m[id], key);
    ServedLeaf(m, t, id, key, h, c);
    LeafOfIs(t, key, LOW, INT64_MAX, h, c);
    UpdateSwaps(LeafOf(t, key).kv, key, x, c);
    SetUpdate(t, key, x, LOW, INT64_MAX, h, c);
    Radix.UpdatedLeaves(m, m.Keys, id, key, x);
  }

  lemma NotUpdated(m: Store, id: nat, key: int, x: Value)
    requires Radix.LeafPage(m, id) && !Holds(m[id], key)
    ensures Radix.UpdatedIn(m, id, key, x) == m
  {
    hide *;
    Radix.LeafPageIs(m, id);
    HoldsIs(m[id], key);
    NotStored(m[id].kv, key, x);
    Radix.UpdatedLeaves(m, m.Keys, id, key, x);
    SameWrite(m, id);
    PageBack(m[id]);
  }

  lemma DeletedAt(m: Store, t: Tree, id: nat, key: int, h: nat, c: Cfg)
    requires OK(t, LOW, INT64_MAX, h, c) && c.n >= 4 && !c.exact && LOW < key <= INT64_MAX && Rep(m, t) && m.Keys == Ids(t)
    requires Radix.LeafPage(m, id) && Holds(m[id], key) && CanDelete(m[id], c.n)
    ensures LeafOf(t, key).Leaf? && LeafOf(t, key).id == id && KVOk(Flat(t))
    ensures KVOk(LeafOf(t, key).kv) && |LeafOf(t, key).kv.keys| == |LeafOf(t, key).kv.vals|
    ensures
      var kv := OuterDelete(LeafOf(t, key).kv, key);
      && Radix.DeletedIn(m, id, key) == m[id := Outer(kv, LeafOf(t, key).next)]
      && Flat(SetKV(t, key, kv)) == OuterDelete(Flat(t), key) && Swaps(LeafOf(t, key).kv, kv, c)
  {
    hide *;
    Radix.LeafPageIs(m, id);
    HoldsIs(m[id], key);
    ServedLeaf(m, t, id, key, h, c);
    LeafOfIs(t, key, LOW, INT64_MAX, h, c);
    CanSpare(LeafOf(t, key).kv, LeafOf(t, key).next, c.n);
    DeleteSwaps(LeafOf(t, key).kv, key, c);
    SetDelete(t, key, LOW, INT64_MAX, h, c);
    Radix.DeletedLeaves(m, m.Keys, id, key);
  }

  lemma PageBack(p: Page)
    ensures p.Outer? ==> p == Outer(p.kv, p.next)
  {
  }

  lemma CanSpare(kv: KV, next: nat, n: nat)
    ensures CanDelete(Outer(kv, next), n) <==> |kv.keys| > n / 2
  {
  }

  lemma NotDeleted(m: Store, id: nat, key: int)
    requires Radix.LeafPage(m, id) && !Holds(m[id], key)
    ensures Radix.DeletedIn(m, id, key) == m
  {
    hide *;
    Radix.LeafPageIs(m, id);
    HoldsIs(m[id], key);
    NotStored(m[id].kv, key, 0);
    Radix.DeletedLeaves(m, m.Keys, id, key);
    SameWrite(m, id);
    PageBack(m[id]);
  }

  lemma KeyStored(kv: KV, key: int)
    requires KVOk(kv)
    ensures Contains(kv.keys, key) <==> key in kv.keys
  {
    ContainsIn(kv.keys, key);
  }
}
