/**
 * The radix tree cache (radix_tree.h): adaptive nodes in memory, a byte budget
 * and a ring of inserted keys that says what to evict when the budget is used up.
 */
module Radix {
  import opened Common
  import opened RadixKeys
  import opened RadixModel
  import opened RadixStore
  import opened RadixLanding
  import opened RadixSpec
  import opened RadixRing
  import opened Buffer
  import opened Pages
  import opened TreeOperations

  /** An int64_t key. */
  type Key = k: int | INT64_MIN <= k <= INT64_MAX

  /** The most an insertion below the root can add: seven grown nodes, two new nodes and an entry. */
  const MAX_GROWTH: nat := 7 * (2072 - 920) + 2 * 64 + 16

  /** The most any insertion can add: the root may grow first. */
  const ROOM: nat := (2072 - 920) + MAX_GROWTH

  ghost function GetO(t: Option<RTree>, u: nat): Option<Entry> {
    if t.Some? then Get(t.value, u) else None
  }

  /** The cache as a map from signed keys to entries. */
  ghost function MapOf(t: Option<RTree>): map<int, Entry> {
    map k | INT64_MIN <= k <= INT64_MAX && GetO(t, Transform(k)).Some? :: GetO(t, Transform(k)).value
  }

  /** The signed key whose entry a search for key ends at. */
  ghost function LandsAt(t: Option<RTree>, key: int): Option<int>
    requires IsKey(key)
  {
    if t.None? || Landing(t.value, Transform(key)).None? then None
    else
      var u := Landing(t.value, Transform(key)).value;
      if IsU64(u) then Some(InverseTransform(u)) else None
  }

  ghost function LandedAt(t: Option<RTree>, key: int): set<int>
    requires IsKey(key)
  {
    if LandsAt(t, key).Some? then {LandsAt(t, key).value} else {}
  }

  /** A refused insertion: the oldest remembered key is forgotten, and the entry that a search for it ends at is gone. */
  ghost predicate Evicted(t: Option<RTree>, q: seq<Key>, m': map<int, Entry>, q': seq<Key>) {
    if q == [] then m' == MapOf(t) && q' == q else m' == MapOf(t) - LandedAt(t, q[0]) && q' == q[1..]
  }

  /** The tree, without addresses, after an eviction. */
  ghost function Dropped(t: Option<RTree>, q: seq<Key>): Option<RTree> {
    if q == [] then t else DeletedO(t, Transform(q[0]))
  }

  ghost function BytesOf(t: Option<RTree>): nat {
    if t.Some? then TreeBytes(t.value) else 0
  }

  ghost predicate TreeOk(t: Option<RTree>, root: nat, m: Arena) {
    match t
    case None => root == 0 && m == map[]
    case Some(t) => root == t.id && RRep(m, t) && RDisj(t) && ROK(t, 0) && m.Keys == RIds(t)
  }

  /** What the growth of a node costs. */
  type Growth = g: nat | g <= 2072 - 920

  /** What the growth of the root would cost, 0 unless it is full. */
  ghost function RootGrowth(t: Option<RTree>): Growth {
    if t.Some? && !CanInsert(t.value.kind, Size(t.value)) then NodeBytes(Larger(t.value.kind)) - NodeBytes(t.value.kind) else 0
  }

  /** The cached keys, whether an insertion was refused, the bytes in use, the keys in the ring, and what it costs to insert one more key apart from that. */
  datatype CacheState = CacheState(keys: set<int>, refused: bool, size: nat, ring: seq<Key>, growth: Growth)

  /** Whether an insertion goes through. */
  ghost predicate Admits(s: CacheState, budget: nat) {
    s.size < budget && s.size + s.growth < budget
  }

  /** The keys in the ring when the insertion of key is decided. */
  ghost function Waiting(s: CacheState, key: Key, budget: nat): seq<Key> {
    if s.size < budget then Remember(s.ring, key) else s.ring
  }

  /**
   * An insertion: either key is cached as well, or the entry that a search for the
   * oldest key in the ring ends at is gone. The key enters the ring once more if the
   * root has to grow.
   */
  ghost predicate Took(s: CacheState, s': CacheState, key: int, budget: nat) {
    && IsKey(key) && s'.size <= s.size + ROOM
    && var q := Waiting(s, key, budget);
    if Admits(s, budget) then
      s'.keys == s.keys + {key} && s'.refused == s.refused && s'.ring == if s.growth > 0 then Remember<Key>(q, key) else q
    else
      s'.refused && s'.keys == s.keys - (if q == [] then {} else LandedOf(s.keys, q[0])) && s'.ring == if q == [] then q else q[1..]
  }

  /** key is cached as well, unless an insertion was refused, which cannot be while the budget has room. */
  ghost predicate Gained(s: CacheState, s': CacheState, key: int, budget: nat) {
    && s'.size <= s.size + ROOM && (!s'.refused ==> !s.refused && s'.keys == s.keys + {key})
    && (s.size + ROOM <= budget ==> s'.refused == s.refused)
  }

  lemma GrowthsAre(t: Option<RTree>)
    ensures RootGrowth(t) > 0 <==> t.Some? && !CanInsert(t.value.kind, Size(t.value))
    ensures RootGrowth(t) > 0 ==> NodeBytes(Larger(t.value.kind)) == NodeBytes(t.value.kind) + RootGrowth(t)
  {
  }

  lemma WaitingIs(s: CacheState, key: Key, budget: nat)
    ensures Waiting(s, key, budget) == if s.size < budget then Remember(s.ring, key) else s.ring
  {
  }

  lemma AdmitsFacts(s: CacheState, budget: nat)
    ensures Admits(s, budget) <==> s.size < budget && s.size + s.growth < budget
  {
  }

  lemma UpdGrowth(t: RTree, from: nat, to: nat, e: Entry)
    ensures RootGrowth(Some(Upd(t, from, to, e))) == RootGrowth(Some(t))
  {
    var t' := Upd(t, from, to, e);
    if t.RLeaf? {
      assert t'.frames.Keys == t.frames.Keys;
      assert |t'.frames| == |t'.frames.Keys| && |t.frames| == |t.frames.Keys|;
    } else if t.depth <= 8 {
      assert t'.kids.Keys == t.kids.Keys;
      assert |t'.kids| == |t'.kids.Keys| && |t.kids| == |t.kids.Keys|;
    }
  }

  lemma TookGained(s: CacheState, s': CacheState, key: int, budget: nat)
    requires Took(s, s', key, budget)
    ensures Gained(s, s', key, budget)
  {
    hide LandedOf;
  }

  lemma TookIntro(t: Option<RTree>, s: CacheState, s': CacheState, q: seq<Key>, m': map<int, Entry>, accepted: bool, key: Key, budget: nat)
    requires (t.Some? ==> ROK(t.value, 0)) && s.keys == MapOf(t).Keys && s'.size <= s.size + ROOM && q == Waiting(s, key, budget) && s'.keys == m'.Keys
    requires accepted == Admits(s, budget)
    requires accepted ==> s'.keys == s.keys + {key} && s'.refused == s.refused && s'.ring == if s.growth > 0 then Remember(q, key) else q
    requires !accepted ==> s'.refused && Evicted(t, q, m', s'.ring)
    ensures Took(s, s', key, budget)
  {
    hide MapOf, ROK, LandedOf, LandsAt;
    if !accepted && q != [] {
      LandedOfIs(t, s.keys, q[0]);
    }
  }

  /** Of a cached key, a lookup may drop the entry, and nothing else. */
  ghost predicate Kept(s: CacheState, s': CacheState, key: int) {
    s'.size <= s.size && s'.refused == s.refused && s'.keys + {key} == s.keys
  }

  ghost predicate Fits(t: Option<RTree>, keys: set<int>) {
    (t.Some? ==> ROK(t.value, 0)) && MapOf(t).Keys == keys
  }

  /** The cached key whose entry a search for key ends at: the set of cached keys decides it. */
  ghost function LandedOf(keys: set<int>, key: int): set<int>
    requires IsKey(key)
  {
    if exists t :: Fits(t, keys) then LandedAt(SomeTree(keys), key) else {}
  }

  /** Some tree over these keys: a search ends at the same key in all of them. */
  ghost function SomeTree(keys: set<int>): (t: Option<RTree>)
    requires exists t :: Fits(t, keys)
    ensures Fits(t, keys)
  {
    var t :| Fits(t, keys);
    t
  }

  /** The entry that a search for key ends at is gone, and nothing else; key itself is not cached any more. */
  ghost predicate Lost(s: CacheState, s': CacheState, key: int)
    requires IsKey(key)
  {
    s'.keys == s.keys - LandedOf(s.keys, key) && key !in s'.keys && s'.refused == s.refused && s'.size <= s.size && s'.ring == s.ring
  }

  /** A lookup of key leaves the cache alone if it is served, and loses the entry it ends at otherwise. */
  ghost predicate Looked(s: CacheState, s': CacheState, key: int, served: bool)
    requires IsKey(key)
  {
    if served then s' == s else Lost(s, s', key)
  }

  /** A lookup of key and, if the tree has to find it, its insertion. */
  ghost predicate Asked(s: CacheState, s': CacheState, key: int, served: bool, enters: bool, budget: nat)
    requires IsKey(key)
  {
    exists s1 :: Looked(s, s1, key, served) && if enters then Took(s1, s', key, budget) else s' == s1
  }

  /** A key that moves to another leaf is entered anew. */
  ghost predicate Fed(s: CacheState, s': CacheState, moved: Option<int>, budget: nat) {
    if moved.Some? then Took(s, s', moved.value, budget) else s' == s
  }

  /** A lookup of key, and its deletion by way of the tree, for which another key may change its leaf. */
  ghost predicate Erased(s: CacheState, s': CacheState, key: int, served: bool, moved: Option<int>, budget: nat)
    requires IsKey(key)
  {
    exists s1, s2 :: Looked(s, s1, key, served) && Fed(s1, s2, moved, budget) && Lost(s2, s', key)
  }

  lemma AskedIntro(s: CacheState, s1: CacheState, s': CacheState, key: int, served: bool, enters: bool, budget: nat)
    requires IsKey(key) && Looked(s, s1, key, served) && if enters then Took(s1, s', key, budget) else s' == s1
    ensures Asked(s, s', key, served, enters, budget)
  {
  }

  lemma ErasedIntro(s: CacheState, s1: CacheState, s2: CacheState, s': CacheState, key: int, served: bool, moved: Option<int>, budget: nat)
    requires IsKey(key) && Looked(s, s1, key, served) && Fed(s1, s2, moved, budget) && Lost(s2, s', key)
    ensures Erased(s, s', key, served, moved, budget)
  {
  }

  lemma LookedFacts(s: CacheState, s': CacheState, key: int)
    requires IsKey(key) && Looked(s, s', key, true)
    ensures s' == s
  {
  }

  lemma LostOut(s: CacheState, s': CacheState, key: int)
    requires IsKey(key) && Lost(s, s', key)
    ensures key !in s'.keys
  {
  }

  lemma LandedOfIs(t: Option<RTree>, keys: set<int>, key: int)
    requires IsKey(key) && Fits(t, keys)
    ensures LandedOf(keys, key) == LandedAt(t, key)
  {
    hide MapOf, LandsAt, ROK;
    SameKeysLand(t, SomeTree(keys), key);
  }

  lemma LookedAfter(t: Option<RTree>, key: int, s: CacheState, s': CacheState, served: bool)
    requires IsKey(key) && (t.Some? ==> ROK(t.value, 0)) && s.keys == MapOf(t).Keys && s'.refused == s.refused && s'.size <= s.size && s'.ring == s.ring
    requires if served then s' == s else s'.keys == (MapOf(t) - LandedAt(t, key)).Keys
    ensures Looked(s, s', key, served)
  {
    hide MapOf, LandsAt, ROK, Lost;
    if !served {
      LostIntro(t, key, s, s');
    }
  }

  lemma LostIntro(t: Option<RTree>, key: int, s: CacheState, s': CacheState)
    requires IsKey(key) && (t.Some? ==> ROK(t.value, 0)) && s.keys == MapOf(t).Keys && s'.keys == (MapOf(t) - LandedAt(t, key)).Keys
    requires s'.refused == s.refused && s'.size <= s.size && s'.ring == s.ring
    ensures Lost(s, s', key)
  {
    hide MapOf, LandsAt, ROK, LandedOf;
    LandedOfIs(t, s.keys, key);
    if key in s.keys {
      LandsAtOwn(t, key);
    }
  }

  lemma KeptIs(m: map<int, Entry>, key: int)
    requires key in m
    ensures (m - {key}).Keys + {key} == m.Keys && m.Keys + {key} == m.Keys
  {
  }

  lemma KeptIntro(s: CacheState, s': CacheState, m: map<int, Entry>, m': map<int, Entry>, key: int)
    requires key in m && (m' == m || m' == m - {key}) && s.keys == m.Keys && s'.keys == m'.Keys && s'.size <= s.size && s'.refused == s.refused
    ensures Kept(s, s', key)
  {
    KeptIs(m, key);
  }

  class RadixTree {
    const radixTreeSize: nat
    /** the capacity of a leaf page */
    const n: nat
    const bm: BufferManager
    const buffer: array<Key>
    /** the address of the root node, 0 for none */
    var root: nat
    var nodes: Arena
    var fixes: map<nat, nat>
    /** addresses below have been allocated before */
    var heapTop: nat
    var currentSize: nat
    var read: nat
    var write: nat

    ghost var tree: Option<RTree>
    /** Whether some insertion was refused for lack of budget. */
    ghost var refused: bool

    ghost predicate Valid()
      reads this
    {
      ValidWith({})
    }

    /** Valid, with exactly the nodes in s fixed. */
    ghost predicate ValidWith(s: set<nat>)
      reads this
    {
      && TreeOk(tree, root, nodes) && LeanO(tree) && Mem(s)
      && currentSize == BytesOf(tree) && currentSize < radixTreeSize + MAX_GROWTH
      && buffer.Length == RING && read < RING && write < RING
    }

    ghost predicate Mem(s: set<nat>)
      reads this`nodes, this`fixes, this`heapTop
    {
      0 < heapTop && BelowTop(nodes, heapTop) && FixedOnly(nodes, fixes, s)
    }

    /** The keys in the ring, oldest first. */
    ghost function Remembered(): seq<Key>
      reads this`read, this`write, buffer
    {
      if buffer.Length == RING && read < RING && write < RING then Queue(buffer[..], read, write) else []
    }

    /** The cached entries by key. */
    ghost function Contents(): map<int, Entry>
      reads this`tree
    {
      MapOf(tree)
    }

    ghost function State(): CacheState
      reads this`tree, this`refused, this`currentSize, this`read, this`write, buffer
    {
      CacheState(Contents().Keys, refused, currentSize, Remembered(), RootGrowth(tree))
    }

    constructor (size: nat, b: BufferManager, leafSize: nat)
      ensures State() == CacheState({}, false, 0, [], 0) && tree == None && Remembered() == []
      ensures bm == b && n == leafSize && Valid() && Contents() == map[] && !refused && radixTreeSize == size && currentSize == 0
      ensures fresh(buffer)
    {
      radixTreeSize, bm, n := size, b, leafSize;
      buffer := new Key[RING];
      root, nodes, fixes, heapTop, currentSize, read, write := 0, map[], map[], 1, 0, 0, 0;
      tree, refused := None, false;
    }

    // ----- Memory -----

    method Malloc(rec: RRec, ghost s: set<nat>) returns (p: nat)
      requires Mem(s)
      modifies this`nodes, this`fixes, this`heapTop
      ensures Mem(s) && p == old(heapTop) && heapTop == p + 1 && nodes == old(nodes)[p := rec]
    {
      p := heapTop;
      heapTop := heapTop + 1;
      nodes := nodes[p := rec];
      fixes := fixes[p := 0];
    }

    method Free(p: nat, ghost s: set<nat>)
      requires Mem(s) && p in nodes
      modifies this`nodes, this`fixes
      ensures Mem(s - {p}) && nodes == old(nodes) - {p}
    {
      nodes := nodes - {p};
      fixes := fixes - {p};
    }

    /** Writing the record of a node that is in memory. */
    method Put(p: nat, rec: RRec, ghost s: set<nat>)
      requires Mem(s) && p in nodes
      modifies this`nodes
      ensures Mem(s) && nodes == old(nodes)[p := rec]
    {
      nodes := nodes[p := rec];
    }

    method FixNode(p: nat, ghost s: set<nat>)
      requires Mem(s) && p in nodes && p !in s
      modifies this`fixes
      ensures Mem(s + {p})
    {
      assert fixes[p] == 0;
      fixes := fixes[p := fixes[p] + 1];
    }

    method UnfixNode(p: nat, ghost s: set<nat>)
      requires Mem(s) && p in s
      modifies this`fixes
      ensures Mem(s - {p})
    {
      assert fixes[p] == 1;
      fixes := fixes[p := fixes[p] - 1];
    }

    /** The node at p moves to a node of another kind; p is freed. */
    method Resize(p: nat, kind: Kind, ghost t: RTree, ghost s: set<nat>) returns (q: nat, ghost t': RTree)
      requires Mem(s) && RRep(nodes, t) && RDisj(t) && t.id == p && NodeBytes(t.kind) <= currentSize
      modifies this`nodes, this`fixes, this`heapTop, this`currentSize
      ensures Mem(s - {p}) && q == old(heapTop) && heapTop == q + 1 && t' == t.(id := q, kind := kind)
      ensures Stepped(old(nodes), nodes, old(heapTop), t, t')
      ensures currentSize == old(currentSize) - NodeBytes(t.kind) + NodeBytes(kind)
    {
      hide RRep, RDisj, RecOf, Stepped;
      RepRec(nodes, t);
      StepMoved(nodes, heapTop, t, heapTop, kind);
      var rec := nodes[p];
      RecKind(t);
      q := Malloc(rec.(kind := kind), s);
      Free(p, s);
      assert nodes == (old(nodes) - {p})[q := RecOf(t).(kind := kind)];
      currentSize := currentSize - NodeBytes(rec.kind);
      currentSize := currentSize + NodeBytes(kind);
      t' := t.(id := q, kind := kind);
    }

    // ----- Insertion -----

    /** An entry in a leaf: a new one costs 16 bytes, an old one is overwritten. */
    method InsertFrame(p: nat, b: nat, e: Entry, ghost t: RTree, ghost s: set<nat>) returns (ghost t': RTree)
      requires Mem(s) && RRep(nodes, t) && RDisj(t) && t.id == p && t.RLeaf?
      modifies this`nodes, this`currentSize
      ensures Mem(s) && t' == t.(frames := t.frames[b := e])
      ensures Stepped(old(nodes), nodes, old(heapTop), t, t')
      ensures currentSize == old(currentSize) + if b in t.frames then 0 else FRAME_BYTES
    {
      hide RRep, RDisj, RecOf, Stepped;
      RepRec(nodes, t);
      RecKind(t);
      StepLeaf(nodes, heapTop, t, t.frames[b := e]);
      var rec := nodes[p];
      if b !in rec.frames {
        currentSize := currentSize + FRAME_BYTES;
      }
      Put(p, rec.(frames := rec.frames[b := e]), s);
      t' := t.(frames := t.frames[b := e]);
    }

    /** Lazy expansion: a leaf of its own for one key. */
    method MakeLeaf(key: nat, e: Entry, ghost s: set<nat>) returns (leaf: nat)
      requires Mem(s)
      modifies this`nodes, this`fixes, this`heapTop, this`currentSize
      ensures Mem(s) && leaf == old(heapTop) && heapTop == leaf + 1
      ensures nodes == old(nodes)[leaf := RecOf(NewLeaf(leaf, key, e))]
      ensures currentSize == old(currentSize) + NodeBytes(K4) + FRAME_BYTES
    {
      hide RRep, RDisj, RIds, RecOf, FixedOnly, GetKey, NewLeaf;
      NewLeafRec(heapTop, key, e);
      leaf := Malloc(RRec(K4, true, 8, key, map[], map[]), s);
      currentSize := currentSize + NodeBytes(K4);
      var rec := nodes[leaf];
      Put(leaf, rec.(frames := rec.frames[GetKey(key, 8) := e]), s);
      currentSize := currentSize + FRAME_BYTES;
    }

    method AddLeaf(p: nat, key: nat, e: Entry, ghost t: RTree, ghost s: set<nat>) returns (ghost leaf: nat, ghost t': RTree)
      requires Mem(s) && RRep(nodes, t) && RDisj(t) && t.id == p && t.RNode? && t.depth <= 8 && GetKey(key, t.depth) !in t.kids
      modifies this`nodes, this`fixes, this`heapTop, this`currentSize
      ensures Mem(s) && heapTop == old(heapTop) + 1 && t' == WithKid(t, GetKey(key, t.depth), NewLeaf(leaf, key, e))
      ensures Stepped(old(nodes), nodes, old(heapTop), t, t')
      ensures currentSize == old(currentSize) + NodeBytes(K4) + FRAME_BYTES
    {
      hide RRep, RDisj, RIds, RecOf, Stepped, WithKid, Bytes;
      RepRec(nodes, t);
      RecKind(t);
      ghost var m := nodes;
      var q := MakeLeaf(key, e, s);
      leaf := q;
      var rec := nodes[p];
      var b := GetKey(key, rec.depth);
      Put(p, rec.(ptrs := rec.ptrs[b := q]), s);
      t' := WithKid(t, b, NewLeaf(q, key, e));
      AddLeafStep(m, nodes, q, t, key, e);
    }

    /** A node of kind 4 over the stored tree c and a new leaf for key. */
    method MakeFork(c: nat, prefix: nat, key: nat, e: Entry, ghost kid: RTree, ghost s: set<nat>) returns (n: nat, ghost t': RTree)
      requires Mem(s) && RRep(nodes, kid) && RDisj(kid) && kid.id == c
      requires prefix < 7 && GetKey(kid.key, prefix + 1) != GetKey(key, prefix + 1)
      modifies this`nodes, this`fixes, this`heapTop, this`currentSize
      ensures Mem(s) && heapTop == old(heapTop) + 2 && n == t'.id
      ensures t' == Fork(old(heapTop), prefix, key, NewLeaf(old(heapTop) + 1, key, e), kid)
      ensures Stepped(old(nodes), nodes, old(heapTop), kid, t')
      ensures currentSize == old(currentSize) + 2 * NodeBytes(K4) + FRAME_BYTES
    {
      hide RRep, RDisj, RIds, RecOf, Stepped, Fork, NewLeaf, FixedOnly, GetKey;
      RepRec(nodes, kid);
      RecKind(kid);
      ghost var m := nodes;
      n := Malloc(RRec(K4, false, prefix + 1, key, map[], map[]), s);
      assert n !in m && n + 1 !in m && c in m;
      var rec := nodes[n];
      Put(n, rec.(ptrs := rec.ptrs[GetKey(nodes[c].key, prefix + 1) := c]), s);
      currentSize := currentSize + NodeBytes(K4);
      var leaf := MakeLeaf(key, e, s);
      rec := nodes[n];
      Put(n, rec.(ptrs := rec.ptrs[GetKey(key, prefix + 1) := leaf]), s);
      t' := Fork(n, prefix, key, NewLeaf(leaf, key, e), kid);
      ForkStep(m, nodes, n, leaf, prefix, key, e, kid);
    }

    /** Make room in the kid at byte b, which may move it. */
    method GrowKid(p: nat, b: nat, ghost t: RTree, ghost d: nat, ghost s: set<nat>) returns (c: nat, ghost t': RTree)
      requires Mem(s) && RRep(nodes, t) && RDisj(t) && ROK(t, d) && t.id == p && t.RNode? && b in t.kids
      requires t.kids[b].id !in s && TreeBytes(t) <= currentSize
      modifies this`nodes, this`fixes, this`heapTop, this`currentSize
      ensures Mem(s) && old(heapTop) <= heapTop && Stepped(old(nodes), nodes, old(heapTop), t, t')
      ensures ROK(t', d) && Grown(t, t', b) && EnlargesKid(t, t', b) && t'.kids[b].id == c && (c == t.kids[b].id || c >= old(heapTop))
      ensures currentSize - old(currentSize) == TreeBytes(t') - TreeBytes(t) <= 2072 - 920
    {
      hide EnlargesKid, Plain, Enlarged, RRep, RDisj, RIds, ROK, RecOf, Stepped, FixedOnly, WithKid, TreeBytes, KidBytes, Grown, Get, CanInsert, NodeBytes, Larger;
      RepRec(nodes, t);
      RepRec(nodes, t.kids[b]);
      DisjAt(t, b);
      RecKind(t);
      RecKind(t.kids[b]);
      RecSize(t.kids[b]);
      var rec := nodes[p];
      c := rec.ptrs[b];
      var child := nodes[c];
      if CanInsert(child.kind, NodeCount(child)) {
        t' := t;
        StepRefl(nodes, heapTop, t);
        GrownSame(t, b);
        EnlargesNot(t, b);
      } else {
        ghost var m, top := nodes, heapTop;
        KidBytesLe(t, d, b);
        ghost var kid';
        assert s - {c} == s;
        c, kid' := Resize(c, Larger(child.kind), t.kids[b], s);
        StepUp(m, nodes, top, t, b, kid');
        RecWithKid(t, b, kid');
        rec := nodes[p];
        Put(p, rec.(ptrs := rec.ptrs[b := c]), s);
        t' := WithKid(t, b, kid');
        GrowOK(t, d, b, c);
        EnlargesMoved(t, b, c);
      }
    }

    /**
     * insert_recursive from a fixed node that has room and shares its prefix
     * with key: down to the leaf, growing full nodes on the way, or to the point
     * where a new leaf or a new inner node branches off.
     */
    method InsertBelow(p: nat, key: nat, e: Entry, ghost t: RTree, ghost d: nat) returns (ghost t': RTree)
      requires Mem({p}) && RRep(nodes, t) && RDisj(t) && ROK(t, d) && t.id == p && TreeBytes(t) <= currentSize
      requires IsU64(key) && 1 <= t.depth <= 8 && Agree(t.key, key, t.depth - 1) && CanInsert(t.kind, Size(t))
      modifies this`nodes, this`fixes, this`heapTop, this`currentSize
      ensures Mem({}) && old(heapTop) <= heapTop && Stepped(old(nodes), nodes, old(heapTop), t, t')
      ensures ROK(t', d) && InsertedAt(t, t', key, e) && Plain(t') == Inserted(Plain(t), key, e)
      ensures currentSize - old(currentSize) == TreeBytes(t') - TreeBytes(t) <= (8 - t.depth) * (2072 - 920) + 144
      decreases 8 - t.depth, 2
    {
      hide Plain, Inserted, RRep, RDisj, RIds, ROK, RecOf, Stepped, FixedOnly, WithKid, TreeBytes, KidBytes, Grown, Get, CanInsert, InsGet, GetKey, InsertedAt;
      RepRec(nodes, t);
      RecKind(t);
      var rec := nodes[p];
      if rec.leaf {
        InsertLeafOK(t, d, key, e);
        PutLeaf(t, key, e);
        t' := InsertFrame(p, GetKey(key, 8), e, t, {p});
        UnfixNode(p, {p});
        assert {p} - {p} == {};
      } else {
        var b := GetKey(key, rec.depth);
        if b !in rec.ptrs {
          ghost var leaf;
          leaf, t' := AddLeaf(p, key, e, t, {p});
          UnfixNode(p, {p});
          assert {p} - {p} == {};
          AddLeafOK(t, d, key, e, leaf);
          PutGap(t, key, e, leaf);
        } else {
          DepthGrows(t, d);
          t' := InsertKid(p, b, key, e, t, d);
        }
      }
    }

    /** The case of insert_recursive in which a child exists at the key's byte. */
    method InsertKid(p: nat, b: nat, key: nat, e: Entry, ghost t: RTree, ghost d: nat) returns (ghost t': RTree)
      requires Mem({p}) && RRep(nodes, t) && RDisj(t) && ROK(t, d) && t.id == p && TreeBytes(t) <= currentSize
      requires IsU64(key) && t.RNode? && 1 <= t.depth < 8 && Agree(t.key, key, t.depth - 1)
      requires b == GetKey(key, t.depth) && b in t.kids && CanInsert(t.kind, Size(t))
      modifies this`nodes, this`fixes, this`heapTop, this`currentSize
      ensures Mem({}) && old(heapTop) <= heapTop && Stepped(old(nodes), nodes, old(heapTop), t, t')
      ensures ROK(t', d) && InsertedAt(t, t', key, e) && Plain(t') == Inserted(Plain(t), key, e)
      ensures currentSize - old(currentSize) == TreeBytes(t') - TreeBytes(t) <= (8 - t.depth) * (2072 - 920) + 144
      decreases 8 - t.depth, 1
    {
      hide *;
      ghost var m0, top0 := nodes, heapTop;
      MemFacts({p});
      RepIn(nodes, t);
      KidNotRoot(t, b);
      var c;
      ghost var t1;
      c, t1 := GrowKid(p, b, t, d, {p});
      ghost var m1, top1, size1 := nodes, heapTop, currentSize;
      GrownFacts(t, t1, b);
      SteppedFacts(m0, m1, top0, t, t1);
      NodeFacts(t1, d);
      RepRec(nodes, t1);
      RepRec(nodes, t1.kids[b]);
      RecKind(t1.kids[b]);
      DepthGrows(t1.kids[b], t1.depth);
      var prefix := LongestCommonPrefix(nodes[c].key, key);
      if prefix + 1 < nodes[c].depth {
        t' := ForkKid(p, b, prefix, key, e, t1, d);
        UnfixNode(p, {p});
        assert {p} - {p} == {};
      } else {
        AgreeDown(t1.kids[b].key, key, prefix, t1.kids[b].depth - 1);
        t' := Descend(p, b, c, key, e, t1, d);
      }
      InsertedVia(t, t1, t', key, e, b);
      PutVia(t, t1, t', d, key, e, b);
      StepTrans(m0, m1, nodes, top0, top1, t, t1, t');
    }

    /** Put a new inner node between p and its kid at byte b, where the kid's key and the new key part. */
    method ForkKid(p: nat, b: nat, prefix: nat, key: nat, e: Entry, ghost t: RTree, ghost d: nat) returns (ghost t': RTree)
      requires Mem({p}) && RRep(nodes, t) && RDisj(t) && ROK(t, d) && t.id == p
      requires IsU64(key) && t.RNode? && 1 <= t.depth < 8 && Agree(t.key, key, t.depth - 1)
      requires b == GetKey(key, t.depth) && b in t.kids && prefix + 1 < t.kids[b].depth <= 8 && Agree(t.kids[b].key, key, prefix)
      requires GetKey(t.kids[b].key, prefix + 1) != GetKey(key, prefix + 1) && CanInsert(t.kids[b].kind, Size(t.kids[b]))
      modifies this`nodes, this`fixes, this`heapTop, this`currentSize
      ensures Mem({p}) && old(heapTop) <= heapTop && Stepped(old(nodes), nodes, old(heapTop), t, t')
      ensures ROK(t', d) && InsertedAt(t, t', key, e) && PutsKid(t, t', key, e, b)
      ensures currentSize - old(currentSize) == TreeBytes(t') - TreeBytes(t) == 144
    {
      hide *;
      ghost var m, top := nodes, heapTop;
      RepRec(nodes, t);
      RecKind(t);
      DisjAt(t, b);
      MemFacts({p});
      var n;
      ghost var f;
      var rec := nodes[p];
      n, f := MakeFork(rec.ptrs[b], prefix, key, e, t.kids[b], {p});
      StepUp(m, nodes, top, t, b, f);
      RecWithKid(t, b, f);
      rec := nodes[p];
      Put(p, rec.(ptrs := rec.ptrs[b := n]), {p});
      t' := WithKid(t, b, f);
      ForkKidOK(t, d, b, prefix, key, e, top, top + 1);
      PutFork(t.kids[b], top, top + 1, prefix, key, e);
      PutsKidIntro(t, key, e, b, f);
      SmallBytes();
    }

    /** Fix the kid, release the node, go on below. */
    method Descend(p: nat, b: nat, c: nat, key: nat, e: Entry, ghost t: RTree, ghost d: nat) returns (ghost t': RTree)
      requires Mem({p}) && RRep(nodes, t) && RDisj(t) && ROK(t, d) && t.id == p && TreeBytes(t) <= currentSize
      requires IsU64(key) && t.RNode? && 1 <= t.depth < 8 && Agree(t.key, key, t.depth - 1)
      requires b == GetKey(key, t.depth) && b in t.kids && t.kids[b].id == c && CanInsert(t.kids[b].kind, Size(t.kids[b]))
      requires t.depth < t.kids[b].depth <= 8 && Agree(t.kids[b].key, key, t.kids[b].depth - 1)
      modifies this`nodes, this`fixes, this`heapTop, this`currentSize
      ensures Mem({}) && old(heapTop) <= heapTop && Stepped(old(nodes), nodes, old(heapTop), t, t')
      ensures ROK(t', d) && InsertedAt(t, t', key, e) && PutsKid(t, t', key, e, b)
      ensures currentSize - old(currentSize) == TreeBytes(t') - TreeBytes(t) <= (7 - t.depth) * (2072 - 920) + 144
      decreases 8 - t.depth, 0
    {
      hide *;
      ghost var m, top := nodes, heapTop;
      MemFacts({p});
      RepRec(nodes, t);
      RepRec(nodes, t.kids[b]);
      NodeFacts(t, d);
      DisjAt(t, b);
      OwnId(t.kids[b]);
      KidBytesLe(t, d, b);
      FixNode(c, {p});
      UnfixNode(p, {p} + {c});
      assert {p} + {c} - {p} == {c};
      ghost var kid := InsertBelow(c, key, e, t.kids[b], t.depth);
      StepUp(m, nodes, top, t, b, kid);
      InsertedFacts(t.kids[b], kid, key, e);
      t' := WithKid(t, b, kid);
      SameWrite(nodes, p, RecOf(t));
      DescendOK(t, d, b, kid, key, e);
      PutsKidIntro(t, key, e, b, kid);
      BytesWithKid(t, b, kid);
      ByteIn(t, b);
      BytesAtIs(t, b);
      Levels(t.depth, t.kids[b].depth);
    }

    // ----- Deletion -----

    /** node_delete on a leaf. */
    method DeleteFrame(p: nat, b: nat, ghost t: RTree, ghost s: set<nat>) returns (ghost t': RTree)
      requires Mem(s) && RRep(nodes, t) && RDisj(t) && t.id == p && t.RLeaf? && TreeBytes(t) <= currentSize
      modifies this`nodes, this`currentSize
      ensures Mem(s) && t' == WithoutFrame(t, b) && Stepped(old(nodes), nodes, old(heapTop), t, t')
      ensures currentSize - old(currentSize) == TreeBytes(t') - TreeBytes(t) <= 0
    {
      hide RRep, RDisj, RecOf, Stepped, FixedOnly;
      RepRec(nodes, t);
      RecKind(t);
      StepLeaf(nodes, heapTop, t, t.frames - {b});
      var rec := nodes[p];
      FrameBytes(t, b);
      if b in rec.frames {
        currentSize := currentSize - FRAME_BYTES;
      }
      Put(p, rec.(frames := rec.frames - {b}), s);
      t' := WithoutFrame(t, b);
    }

    /**
     * The leaf kid at byte b of the node at p loses the key's byte; a leaf left
     * empty is freed, one left with too few entries shrinks.
     */
    method DeleteInLeafKid(p: nat, b: nat, key: nat, ghost t: RTree, ghost d: nat, ghost s: set<nat>) returns (gone: bool, ghost t': RTree)
      requires Mem(s) && RRep(nodes, t) && RDisj(t) && ROK(t, d) && t.id == p && TreeBytes(t) <= currentSize
      requires t.RNode? && t.depth <= 8 && b == GetKey(key, t.depth) && b in t.kids && t.kids[b].RLeaf? && t.kids[b].id !in s
      modifies this`nodes, this`fixes, this`heapTop, this`currentSize
      ensures Mem(s) && old(heapTop) <= heapTop && Stepped(old(nodes), nodes, old(heapTop), t, t')
      ensures DeletedAt(t, t', key) && (if gone then t' == WithoutKid(t, b) else ROK(t', d))
      ensures if gone then Deleted(Plain(t.kids[b]), key) == None else DropsKid(t, t', key, b)
      ensures currentSize - old(currentSize) == TreeBytes(t') - TreeBytes(t) <= 0
    {
      hide *;
      ghost var m, top, leaf := nodes, heapTop, t.kids[b];
      MemFacts(s);
      NodeFacts(t, d);
      RepRec(nodes, t);
      RepRec(nodes, leaf);
      RecKind(t);
      DisjAt(t, b);
      KidBytesLe(t, d, b);
      ByteIn(t, b);
      var c := nodes[p].ptrs[b];
      ghost var leaf' := DeleteFrame(c, GetKey(key, 8), leaf, s);
      WithoutFrameIs(leaf, GetKey(key, 8));
      DropFrameGet(leaf, t.depth, key);
      DropFrameOK(leaf, t.depth, GetKey(key, 8));
      SteppedFacts(m, nodes, top, leaf, leaf');
      RepRec(nodes, leaf');
      RecKind(leaf');
      RecSize(leaf');
      CountLeaf(leaf');
      DeletedLeaf(leaf, key);
      var left := NodeCount(nodes[c]);
      if left == 0 {
        gone, t' := true, WithoutKid(t, b);
        DropLeaf(p, b, key, m, top, leaf', t, d, s);
      } else {
        gone := false;
        t' := ShrinkLeafKid(p, b, key, m, top, leaf', t, d, s);
      }
    }

    /** The empty leaf at byte b leaves the node at p and is freed. */
    method DropLeaf(p: nat, b: nat, key: nat, ghost m: Arena, ghost top: nat, ghost leaf: RTree, ghost t: RTree, ghost d: nat, ghost s: set<nat>)
      requires Mem(s) && RRep(m, t) && RDisj(t) && ROK(t, d) && t.id == p && BelowTop(m, top) && top == heapTop
      requires t.RNode? && t.depth <= 8 && b == GetKey(key, t.depth) && b in t.kids && t.kids[b].RLeaf? && t.kids[b].id !in s
      requires leaf == WithoutFrame(t.kids[b], GetKey(key, 8)) && leaf.frames == map[]
      requires Stepped(m, nodes, top, t.kids[b], leaf)
      requires NodeBytes(leaf.kind) <= currentSize
      modifies this`nodes, this`fixes, this`currentSize
      ensures Mem(s) && Stepped(m, nodes, top, t, WithoutKid(t, b)) && DeletedAt(t, WithoutKid(t, b), key)
      ensures currentSize - old(currentSize) == TreeBytes(WithoutKid(t, b)) - (TreeBytes(t) - TreeBytes(t.kids[b]) + TreeBytes(leaf)) <= 0
    {
      hide *;
      NodeFacts(t, d);
      ByteIn(t, b);
      WithoutFrameIs(t.kids[b], GetKey(key, 8));
      LeafStored(nodes, leaf);
      StepDrop(m, nodes, top, t, b, leaf);
      SteppedFacts(m, nodes, top, t.kids[b], leaf);
      RepRec(nodes, leaf);
      RecKind(leaf);
      RecKind(t);
      RecWithoutKid(t, b);
      var c := nodes[p].ptrs[b];
      assert c == leaf.id && s - {c} == s;
      currentSize := currentSize - NodeBytes(nodes[c].kind);
      Free(c, s);
      var rec := nodes[p];
      Put(p, rec.(ptrs := rec.ptrs - {b}), s);
      DropKidDel(t, d, key);
      WithoutKidIs(t, b);
      DeletedIntro(t, WithoutKid(t, b), key);
      BytesWithoutKid(t, b);
      WithoutKidSame(t, b);
      BytesAtIs(t, b);
      EmptyLeafBytes(leaf);
    }

    /** The leaf at byte b lost an entry and moves to a smaller kind if it has too few. */
    method ShrinkLeafKid(p: nat, b: nat, key: nat, ghost m: Arena, ghost top: nat, ghost leaf: RTree, ghost t: RTree, ghost d: nat, ghost s: set<nat>) returns (ghost t': RTree)
      requires Mem(s) && RRep(m, t) && RDisj(t) && ROK(t, d) && t.id == p && BelowTop(m, top) && top == heapTop
      requires t.RNode? && t.depth <= 8 && b == GetKey(key, t.depth) && b in t.kids && t.kids[b].RLeaf? && t.kids[b].id !in s
      requires leaf.RLeaf? && leaf.frames != map[] && leaf == WithoutFrame(t.kids[b], GetKey(key, 8)) && ROK(leaf, t.depth) && DelGet(t.kids[b], leaf, key)
      requires Stepped(m, nodes, top, t.kids[b], leaf)
      requires NodeBytes(leaf.kind) <= currentSize
      modifies this`nodes, this`fixes, this`heapTop, this`currentSize
      ensures Mem(s) && top <= heapTop && Stepped(m, nodes, top, t, t') && ROK(t', d) && DeletedAt(t, t', key) && DropsKid(t, t', key, b)
      ensures currentSize - old(currentSize) == TreeBytes(t') - (TreeBytes(t) - TreeBytes(t.kids[b]) + TreeBytes(leaf)) <= 0
    {
      hide *;
      NodeFacts(t, d);
      ByteIn(t, b);
      WithoutFrameIs(t.kids[b], GetKey(key, 8));
      SteppedFacts(m, nodes, top, t.kids[b], leaf);
      StepUp(m, nodes, top, t, b, leaf);
      RepRec(nodes, leaf);
      RecKind(leaf);
      RecKind(t);
      RecSize(leaf);
      ghost var kid := leaf;
      ShrunkIs(leaf);
      var c := nodes[p].ptrs[b];
      if !CanRemove(nodes[c].kind, NodeCount(nodes[c])) {
        ghost var m1 := nodes;
        assert s - {c} == s;
        RepRec(m, t);
        RepIn(m, t.kids[b]);
        c, kid := Resize(c, Smaller(nodes[c].kind), leaf, s);
        StepTrans(m, m1, nodes, top, top, t.kids[b], leaf, kid);
        StepUp(m, nodes, top, t, b, kid);
        RecWithKid(t, b, kid);
        var rec := nodes[p];
        Put(p, rec.(ptrs := rec.ptrs[b := c]), s);
        ShrinkOK(leaf, t.depth, c);
      } else {
        SameWrite(nodes, p, RecOf(t));
      }
      t' := WithKid(t, b, kid);
      DeletedLeaf(t.kids[b], key);
      DropsIntro(t, key, b, kid);
      KeepKidDel(t, d, b, leaf, kid, key);
      BytesWithKid(t, b, kid);
      BytesAtIs(t, b);
    }

    /** The inner kid at byte b lost a leaf: a single child left takes its place, and a kid with too few children shrinks. */
    method SettleKid(p: nat, b: nat, key: nat, ghost m: Arena, ghost top: nat, ghost x: nat, ghost kid: RTree, ghost t: RTree, ghost d: nat) returns (ghost t': RTree)
      requires Mem({p}) && RRep(m, t) && RDisj(t) && ROK(t, d) && t.id == p && BelowTop(m, top) && top <= heapTop
      requires t.RNode? && t.depth <= 8 && b == GetKey(key, t.depth) && b in t.kids && t.kids[b].RNode?
      requires x in t.kids[b].kids && kid == WithoutKid(t.kids[b], x) && DelGet(t.kids[b], kid, key)
      requires Stepped(m, nodes, top, t.kids[b], kid) && TreeBytes(kid) <= currentSize
      modifies this`nodes, this`fixes, this`heapTop, this`currentSize
      ensures Mem({p}) && top <= heapTop && Stepped(m, nodes, top, t, t') && ROK(t', d) && DeletedAt(t, t', key)
      ensures SettlesKid(t, t', b, kid)
      ensures currentSize - old(currentSize) == TreeBytes(t') - (TreeBytes(t) - TreeBytes(t.kids[b]) + TreeBytes(kid)) <= 0
    {
      hide *;
      NodeFacts(t, d);
      ByteIn(t, b);
      WithoutKidIs(t.kids[b], x);
      WithoutKidOK(t.kids[b], t.depth, x);
      SteppedFacts(m, nodes, top, t.kids[b], kid);
      StepUp(m, nodes, top, t, b, kid);
      RepRec(nodes, kid);
      RecKind(kid);
      RecKind(t);
      RecSize(kid);
      SizeNode(kid);
      var n := nodes[p].ptrs[b];
      if NodeCount(nodes[n]) == 1 {
        t' := CollapseKid(p, b, n, key, m, top, kid, t, d);
      } else {
        ghost var small := kid;
        KindBytesLe(kid);
        SettledMany(kid);
        ShrunkIs(kid);
        if !CanRemove(nodes[n].kind, NodeCount(nodes[n])) {
          small := ShrinkKid(p, b, n, m, top, kid, t);
        } else {
          SameWrite(nodes, p, RecOf(t));
        }
        t' := WithKid(t, b, small);
        SettlesIntro(t, b, kid, small);
        KeepKidDel(t, d, b, kid, small, key);
        BytesWithKid(t, b, small);
        BytesAtIs(t, b);
      }
    }

    method ShrinkKid(p: nat, b: nat, n: nat, ghost m: Arena, ghost top: nat, ghost kid: RTree, ghost t: RTree) returns (ghost kid': RTree)
      requires Mem({p}) && RRep(m, t) && RDisj(t) && t.id == p && BelowTop(m, top) && top <= heapTop
      requires t.RNode? && b in t.kids && ROK(kid, t.depth) && kid.id == n == t.kids[b].id && !CanRemove(kid.kind, Size(kid))
      requires Stepped(m, nodes, top, t.kids[b], kid) && NodeBytes(kid.kind) <= currentSize
      modifies this`nodes, this`fixes, this`heapTop, this`currentSize
      ensures Mem({p}) && top <= heapTop && Stepped(m, nodes, top, t, WithKid(t, b, kid'))
      ensures ROK(kid', t.depth) && (forall x :: Get(kid', x) == Get(kid, x)) && kid'.key == kid.key && kid'.depth == kid.depth
      ensures Plain(kid') == Shrunk(Plain(kid))
      ensures currentSize - old(currentSize) == TreeBytes(kid') - TreeBytes(kid) <= 0
    {
      hide *;
      SteppedFacts(m, nodes, top, t.kids[b], kid);
      StepUp(m, nodes, top, t, b, kid);
      RepRec(nodes, kid);
      RepRec(m, t);
      RecKind(kid);
      RecKind(t);
      KidNotRoot(t, b);
      ghost var m1, top1 := nodes, heapTop;
      assert {p} - {n} == {p};
      RepIn(m, t.kids[b]);
      var q;
      q, kid' := Resize(n, Smaller(nodes[n].kind), kid, {p});
      StepTrans(m, m1, nodes, top, top1, t.kids[b], kid, kid');
      StepUp(m, nodes, top, t, b, kid');
      RecWithKid(t, b, kid');
      var rec := nodes[p];
      Put(p, rec.(ptrs := rec.ptrs[b := q]), {p});
      ShrinkOK(kid, t.depth, q);
      ShrunkIs(kid);
    }

    method CollapseKid(p: nat, b: nat, n: nat, key: nat, ghost m: Arena, ghost top: nat, ghost kid: RTree, ghost t: RTree, ghost d: nat) returns (ghost t': RTree)
      requires Mem({p}) && RRep(m, t) && RDisj(t) && ROK(t, d) && t.id == p && BelowTop(m, top) && top <= heapTop
      requires t.RNode? && t.depth <= 8 && b == GetKey(key, t.depth) && b in t.kids && t.kids[b].RNode? && kid.RNode?
      requires exists x :: x in t.kids[b].kids && kid == WithoutKid(t.kids[b], x)
      requires kid.id == n == t.kids[b].id && |kid.kids| == 1 && DelGet(t.kids[b], kid, key)
      requires Stepped(m, nodes, top, t.kids[b], kid) && TreeBytes(kid) <= currentSize
      modifies this`nodes, this`fixes, this`currentSize
      ensures Mem({p}) && Stepped(m, nodes, top, t, t') && ROK(t', d) && DeletedAt(t, t', key) && SettlesKid(t, t', b, kid)
      ensures currentSize - old(currentSize) == TreeBytes(t') - (TreeBytes(t) - TreeBytes(t.kids[b]) + TreeBytes(kid)) <= 0
    {
      hide *;
      NodeFacts(t, d);
      ByteIn(t, b);
      SteppedFacts(m, nodes, top, t.kids[b], kid);
      StepUp(m, nodes, top, t, b, kid);
      RepRec(nodes, kid);
      RecKind(kid);
      RecKind(t);
      KidNotRoot(t, b);
      var z := SingleChild(n, kid);
      ghost var c :| kid.kids.Keys == {c} && c in kid.kids && kid.kids[c].id == z;
      ghost var x :| x in t.kids[b].kids && kid == WithoutKid(t.kids[b], x);
      OwnId(t.kids[b]);
      StepCollapse(m, nodes, top, t.kids[b], kid, c);
      StepUp(m, nodes - {n}, top, t, b, kid.kids[c]);
      RecWithKid(t, b, kid.kids[c]);
      var rec := nodes[p];
      Put(p, rec.(ptrs := rec.ptrs[b := z]), {p});
      LoneBytes(kid, t.depth, t.kids[b], x, c);
      currentSize := currentSize - NodeBytes(nodes[n].kind);
      assert {p} - {n} == {p};
      Free(n, {p});
      WriteThenFree(old(nodes), p, n, RecOf(WithKid(t, b, kid.kids[c])));
      t' := WithKid(t, b, kid.kids[c]);
      SettledLone(kid, c);
      SettlesIntro(t, b, kid, kid.kids[c]);
      CollapseOK(t, d, b, kid, x, c, key);
      BytesWithKid(t, b, kid.kids[c]);
      BytesAtIs(t, b);
    }

    /** get_single_child */
    method SingleChild(n: nat, ghost t: RTree) returns (z: nat)
      requires RRep(nodes, t) && t.id == n && t.RNode? && |t.kids| == 1
      ensures exists c :: t.kids.Keys == {c} && c in t.kids && t.kids[c].id == z
    {
      RepRec(nodes, t);
      RecKind(t);
      OneKey(t.kids);
      var c :| c in nodes[n].ptrs;
      z := nodes[n].ptrs[c];
      assert c in t.kids;
    }

    /**
     * delete_reference_recursive: p is fixed and the key leads from it to an
     * inner node n; below n the search skips all bytes it does not branch on.
     */
    method DeleteRecursive(p: nat, n: nat, key: nat, ghost t: RTree, ghost d: nat) returns (ghost t': RTree)
      requires Mem({p}) && RRep(nodes, t) && RDisj(t) && ROK(t, d) && t.id == p && TreeBytes(t) <= currentSize
      requires t.RNode? && t.depth <= 8 && GetKey(key, t.depth) in t.kids
      requires t.kids[GetKey(key, t.depth)].RNode? && t.kids[GetKey(key, t.depth)].id == n
      modifies this`nodes, this`fixes, this`heapTop, this`currentSize
      ensures Mem({}) && old(heapTop) <= heapTop && Stepped(old(nodes), nodes, old(heapTop), t, t')
      ensures ROK(t', d) && DeletedAt(t, t', key) && DropsKid(t, t', key, GetKey(key, t.depth))
      ensures currentSize - old(currentSize) == TreeBytes(t') - TreeBytes(t) <= 0
      decreases 8 - t.depth
    {
      hide *;
      MemFacts({p});
      NodeFacts(t, d);
      RepRec(nodes, t);
      RecKind(t);
      ghost var b, m, top := GetKey(key, t.depth), nodes, heapTop;
      ghost var kid := t.kids[b];
      NodeFacts(kid, t.depth);
      RepRec(nodes, kid);
      RecKind(kid);
      DisjAt(t, b);
      KidNotRoot(t, b);
      KidBytesLe(t, d, b);
      var partial := GetKey(key, nodes[n].depth);
      assert {p} - {p} == {};
      if partial !in nodes[n].ptrs {
        UnfixNode(p, {p});
        t' := t;
        StepRefl(nodes, heapTop, t);
        MissDel(t, d, key);
        DeletedMiss(kid, key);
        DropsNothing(t, key, b);
      } else {
        var g := nodes[n].ptrs[partial];
        RepRec(nodes, kid.kids[partial]);
        RecKind(kid.kids[partial]);
        if nodes[g].leaf {
          t' := DeleteUnder(p, n, key, partial, t, d);
          UnfixNode(p, {p});
        } else {
          UnfixNode(p, {p});
          assert {} + {n} == {n};
          FixNode(n, {});
          ghost var kid' := DeleteRecursive(n, g, key, kid, t.depth);
          DeletedFacts(kid, kid', key);
          DeletedKid(kid, kid', key);
          DropsIntro(t, key, b, kid');
          t' := WithKid(t, b, kid');
          StepUp(m, nodes, top, t, b, kid');
          SameWrite(nodes, p, RecOf(t));
          KeepKidDel(t, d, b, kid', kid', key);
          ByteIn(t, b);
          BytesWithKid(t, b, kid');
          BytesAtIs(t, b);
        }
      }
    }

    /** The key's byte leads from n to a leaf. */
    method DeleteUnder(p: nat, n: nat, key: nat, partial: nat, ghost t: RTree, ghost d: nat) returns (ghost t': RTree)
      requires Mem({p}) && RRep(nodes, t) && RDisj(t) && ROK(t, d) && t.id == p && TreeBytes(t) <= currentSize
      requires t.RNode? && t.depth <= 8 && GetKey(key, t.depth) in t.kids
      requires t.kids[GetKey(key, t.depth)].RNode? && t.kids[GetKey(key, t.depth)].id == n && t.kids[GetKey(key, t.depth)].depth <= 8
      requires partial == GetKey(key, t.kids[GetKey(key, t.depth)].depth) && partial in t.kids[GetKey(key, t.depth)].kids
      requires t.kids[GetKey(key, t.depth)].kids[partial].RLeaf?
      modifies this`nodes, this`fixes, this`heapTop, this`currentSize
      ensures Mem({p}) && old(heapTop) <= heapTop && Stepped(old(nodes), nodes, old(heapTop), t, t')
      ensures ROK(t', d) && DeletedAt(t, t', key) && DropsKid(t, t', key, GetKey(key, t.depth))
      ensures currentSize - old(currentSize) == TreeBytes(t') - TreeBytes(t) <= 0
    {
      hide *;
      MemFacts({p});
      NodeFacts(t, d);
      RepRec(nodes, t);
      RecKind(t);
      ghost var b, m, top := GetKey(key, t.depth), nodes, heapTop;
      ghost var kid := t.kids[b];
      DisjAt(t, b);
      GrandNotRoot(t, b, partial);
      KidBytesLe(t, d, b);
      ByteIn(t, b);
      var gone;
      ghost var kid';
      gone, kid' := DeleteInLeafKid(n, partial, key, kid, t.depth, {p});
      DeletedFacts(kid, kid', key);
      StepUp(m, nodes, top, t, b, kid');
      if gone {
        t' := SettleKid(p, GetKey(key, nodes[p].depth), key, m, top, partial, kid', t, d);
        DeletedGone(kid, key);
        SettlesDrops(t, t', key, b, kid');
      } else {
        t' := WithKid(t, b, kid');
        DeletedKid(kid, kid', key);
        DropsIntro(t, key, b, kid');
        SameWrite(nodes, p, RecOf(t));
        KeepKidDel(t, d, b, kid', kid', key);
        BytesWithKid(t, b, kid');
        BytesAtIs(t, b);
      }
    }

    /** delete_reference: removes the entry a search for the key ends at, whichever key it belongs to. */
    method DeleteReference(key: int)
      requires Valid() && IsKey(key)
      modifies this`root, this`nodes, this`fixes, this`heapTop, this`currentSize, this`tree
      ensures Valid() && currentSize <= old(currentSize) && PlainO(tree) == DeletedO(PlainO(old(tree)), Transform(key))
      ensures Contents() == old(Contents()) - (if old(LandsAt(tree, key)).Some? then {old(LandsAt(tree, key)).value} else {})
      ensures old(LandsAt(tree, key)).Some? ==> old(LandsAt(tree, key)).value in old(Contents())
    {
      hide *;
      TransformBijection(key);
      var u := Transform(key);
      ValidFacts();
      ContentsIs();
      if root == 0 {
        MapDeleteNone(tree, key);
        DeletedNone(tree, u);
        return;
      }
      ghost var t := tree.value;
      RepRec(nodes, t);
      RecKind(t);
      assert {} + {root} == {root} && {root} - {root} == {};
      FixNode(root, {});
      ghost var t': Option<RTree>;
      if nodes[root].leaf {
        t' := DeleteInRootLeaf(u);
      } else {
        t' := DeleteInRootNode(u);
      }
      tree := t';
      MapDelete(Some(t), t', key);
      StaysLean(Some(t), t', u, Entry(0, 0));
      ValidIntro();
      ContentsIs();
    }

    method DeleteInRootNode(u: nat) returns (ghost t': Option<RTree>)
      requires TreeOk(tree, root, nodes) && tree.Some? && tree.value.RNode? && Mem({root}) && currentSize == BytesOf(tree)
      modifies this`root, this`nodes, this`fixes, this`heapTop, this`currentSize
      ensures TreeOk(t', root, nodes) && Mem({}) && currentSize == BytesOf(t') <= old(currentSize) && DelGetO(tree.value, t', u)
      ensures PlainO(t') == DeletedO(PlainO(old(tree)), u)
    {
      hide *;
      ghost var t := tree.value;
      TreeOkSome(tree, root, nodes);
      BytesSome(t);
      RepRec(nodes, t);
      RecKind(t);
      DepthGrows(t, 0);
      NodeFacts(t, 0);
      assert {root} - {root} == {};
      var partial := GetKey(u, nodes[root].depth);
      if partial !in nodes[root].ptrs {
        UnfixNode(root, {root});
        t' := tree;
        MissDelRoot(t, u);
        DeletedMiss(t, u);
        PlainSome(t);
        return;
      }
      var c := nodes[root].ptrs[partial];
      RepRec(nodes, t.kids[partial]);
      RecKind(t.kids[partial]);
      if nodes[c].leaf {
        t' := DeleteUnderRoot(u, partial);
      } else {
        ghost var m, top := nodes, heapTop;
        ghost var t1 := DeleteRecursive(root, c, u, t, 0);
        StepAll(m, nodes, top, t, t1);
        DeletedFacts(t, t1, u);
        DeletedKid(t, t1, u);
        PlainSome(t);
        PlainSome(t1);
        DelToSome(t, t1, t1, u);
        TreeOkIntro(t1, root, nodes);
        BytesSome(t1);
        t' := Some(t1);
      }
    }

    method DeleteInRootLeaf(u: nat) returns (ghost t': Option<RTree>)
      requires TreeOk(tree, root, nodes) && tree.Some? && tree.value.RLeaf? && Mem({root}) && currentSize == BytesOf(tree)
      modifies this`root, this`nodes, this`fixes, this`heapTop, this`currentSize
      ensures TreeOk(t', root, nodes) && Mem({}) && currentSize == BytesOf(t') <= old(currentSize) && DelGetO(tree.value, t', u)
      ensures PlainO(t') == DeletedO(PlainO(old(tree)), u)
    {
      hide *;
      ghost var t := tree.value;
      TreeOkSome(tree, root, nodes);
      BytesSome(t);
      LeafFacts(t, 0);
      RepRec(nodes, t);
      RecKind(t);
      MemFacts({root});
      ghost var m, top := nodes, heapTop;
      var b := GetKey(u, nodes[root].depth);
      ghost var t1 := DeleteFrame(root, b, t, {root});
      WithoutFrameIs(t, b);
      DropFrameGet(t, 0, u);
      DropFrameOK(t, 0, b);
      SteppedFacts(m, nodes, top, t, t1);
      RepRec(nodes, t1);
      RecKind(t1);
      RecSize(t1);
      CountLeaf(t1);
      LeafIds(t);
      LeafIds(t1);
      DeletedLeaf(t, u);
      ShrunkIs(t1);
      PlainSome(t);
      assert {root} - {root} == {};
      if NodeCount(nodes[root]) == 0 {
        DropRoot(t1);
        t' := None;
        DelToNone(t, t1, u);
        PlainNone();
      } else if !CanRemove(nodes[root].kind, NodeCount(nodes[root])) {
        t' := ShrinkRoot(t1);
        PlainSome(t'.value);
        DelToSome(t, t1, t'.value, u);
      } else {
        UnfixNode(root, {root});
        t' := Some(t1);
        PlainSome(t1);
        DelToSome(t, t1, t1, u);
        TreeOkIntro(t1, root, nodes);
        BytesSome(t1);
      }
    }

    /** The last entry is gone, and with it the tree. */
    method DropRoot(ghost t: RTree)
      requires RRep(nodes, t) && t.RLeaf? && t.id == root && nodes.Keys == RIds(t) && Mem({root})
      requires currentSize == TreeBytes(t) && t.frames == map[]
      modifies this`root, this`nodes, this`fixes, this`currentSize
      ensures TreeOk(None, root, nodes) && Mem({}) && currentSize == BytesOf(None) == 0
    {
      hide *;
      RepRec(nodes, t);
      RecKind(t);
      LeafIds(t);
      assert {root} - {root} == {};
      var temp := root;
      root := 0;
      EmptyLeafBytes(t);
      currentSize := currentSize - NodeBytes(nodes[temp].kind);
      Free(temp, {temp});
      NoNodes(nodes);
    }

    method ShrinkRoot(ghost t: RTree) returns (ghost t': Option<RTree>)
      requires RRep(nodes, t) && RDisj(t) && ROK(t, 0) && t.id == root && nodes.Keys == RIds(t) && Mem({root})
      requires currentSize == TreeBytes(t) && !CanRemove(t.kind, Size(t))
      modifies this`root, this`nodes, this`fixes, this`heapTop, this`currentSize
      ensures TreeOk(t', root, nodes) && Mem({}) && currentSize == BytesOf(t') <= old(currentSize)
      ensures t'.Some? && Plain(t'.value) == Shrunk(Plain(t))
      ensures t'.Some? && forall x :: Get(t'.value, x) == Get(t, x)
    {
      hide *;
      RepRec(nodes, t);
      RecKind(t);
      RecSize(t);
      MemFacts({root});
      ghost var m, top := nodes, heapTop;
      ghost var t1;
      KindBytesLe(t);
      root, t1 := Resize(root, Smaller(nodes[root].kind), t, {root});
      assert {t.id} - {t.id} == {};
      StepAll(m, nodes, top, t, t1);
      ShrinkOK(t, 0, root);
      ShrunkIs(t);
      BytesSome(t1);
      t' := Some(t1);
      TreeOkIntro(t1, root, nodes);
    }

    /** The key's byte leads from the root to a leaf. */
    method DeleteUnderRoot(u: nat, partial: nat) returns (ghost t': Option<RTree>)
      requires TreeOk(tree, root, nodes) && tree.Some? && tree.value.RNode? && Mem({root}) && currentSize == BytesOf(tree)
      requires tree.value.depth <= 8 && partial == GetKey(u, tree.value.depth) && partial in tree.value.kids && tree.value.kids[partial].RLeaf?
      modifies this`root, this`nodes, this`fixes, this`heapTop, this`currentSize
      ensures TreeOk(t', root, nodes) && Mem({}) && currentSize == BytesOf(t') <= old(currentSize) && DelGetO(tree.value, t', u)
      ensures PlainO(t') == DeletedO(PlainO(old(tree)), u)
    {
      hide *;
      ghost var t := tree.value;
      TreeOkSome(tree, root, nodes);
      BytesSome(t);
      KidNotRoot(t, partial);
      NodeFacts(t, 0);
      RepRec(nodes, t);
      RecKind(t);
      ghost var m, top := nodes, heapTop;
      var gone;
      ghost var t1;
      gone, t1 := DeleteInLeafKid(root, partial, u, t, 0, {root});
      DeletedFacts(t, t1, u);
      StepAll(m, nodes, top, t, t1);
      assert {root} - {root} == {};
      PlainSome(t);
      if gone {
        DeletedGone(t, u);
        t' := SettleRoot(u, partial, t1);
      } else {
        UnfixNode(root, {root});
        t' := Some(t1);
        DeletedKid(t, t1, u);
        PlainSome(t1);
        DelToSome(t, t1, t1, u);
        TreeOkIntro(t1, root, nodes);
        BytesSome(t1);
      }
    }

    /** The root lost a leaf: a single child left becomes the root, and a root with too few children shrinks. */
    method SettleRoot(u: nat, partial: nat, ghost t: RTree) returns (ghost t': Option<RTree>)
      requires tree.Some? && tree.value.RNode? && ROK(tree.value, 0) && partial in tree.value.kids && t == WithoutKid(tree.value, partial)
      requires RRep(nodes, t) && RDisj(t) && t.id == root && nodes.Keys == RIds(t) && Mem({root})
      requires currentSize == TreeBytes(t) && DelGet(tree.value, t, u)
      modifies this`root, this`nodes, this`fixes, this`heapTop, this`currentSize
      ensures TreeOk(t', root, nodes) && Mem({}) && currentSize == BytesOf(t') <= old(currentSize) && DelGetO(tree.value, t', u)
      ensures Plain(t).RNode? && PlainO(t') == Some(Settled(Plain(t)))
    {
      hide *;
      WithoutKidOK(tree.value, 0, partial);
      WithoutKidIs(tree.value, partial);
      RepRec(nodes, t);
      RecKind(t);
      RecSize(t);
      SizeNode(t);
      assert {root} - {root} == {};
      if NodeCount(nodes[root]) == 1 {
        var temp := root;
        root := SingleChild(root, t);
        ghost var c :| t.kids.Keys == {c} && c in t.kids && t.kids[c].id == root;
        ghost var m, top, z := nodes, heapTop, t.kids[c];
        LoneBytes(t, 0, tree.value, partial, c);
        currentSize := currentSize - NodeBytes(nodes[temp].kind);
        OwnId(t);
        StepRefl(m, top, t);
        StepCollapse(m, m, top, t, t, c);
        Free(temp, {temp});
        StepAll(m, nodes, top, t, z);
        t' := Some(z);
        CollapseRoot(tree.value, t, partial, c);
        SettledLone(t, c);
        PlainSome(z);
        DelToSome(tree.value, t, z, u);
        TreeOkIntro(z, root, nodes);
        BytesSome(z);
      } else if !CanRemove(nodes[root].kind, NodeCount(nodes[root])) {
        SettledMany(t);
        t' := ShrinkRoot(t);
        PlainSome(t'.value);
        DelToSome(tree.value, t, t'.value, u);
      } else {
        UnfixNode(root, {root});
        t' := Some(t);
        SettledMany(t);
        ShrunkIs(t);
        PlainSome(t);
        DelToSome(tree.value, t, t, u);
        TreeOkIntro(t, root, nodes);
        BytesSome(t);
      }
    }

    lemma ValidFacts()
      requires Valid()
      ensures LeanO(tree) && TreeOk(tree, root, nodes) && Mem({}) && currentSize == BytesOf(tree) && currentSize < radixTreeSize + MAX_GROWTH
      ensures buffer.Length == RING && read < RING && write < RING
      ensures root == 0 <==> tree == None
      ensures tree.Some? ==> RRep(nodes, tree.value) && RDisj(tree.value) && ROK(tree.value, 0) && tree.value.id == root
      ensures tree.Some? ==> nodes.Keys == RIds(tree.value) && currentSize == TreeBytes(tree.value)
      ensures tree.Some? ==> root in nodes
    {
    }

    lemma ContentsIs()
      ensures Contents() == MapOf(tree)
    {
    }

    lemma ValidIntro()
      requires LeanO(tree) && TreeOk(tree, root, nodes) && Mem({}) && currentSize == BytesOf(tree) && currentSize < radixTreeSize + MAX_GROWTH
      requires buffer.Length == RING && read < RING && write < RING
      ensures Valid()
    {
    }

    // ----- Insertion at the root -----

    /** Whether an insertion now goes through: there is budget left, also after the root has grown if it is full. */
    predicate Accepts()
      reads this
    {
      && currentSize < radixTreeSize
      && (root in nodes && !CanInsert(nodes[root].kind, NodeCount(nodes[root])) ==>
          currentSize - NodeBytes(nodes[root].kind) + NodeBytes(Larger(nodes[root].kind)) < radixTreeSize)
    }

    predicate RootFull()
      reads this
    {
      root in nodes && !CanInsert(nodes[root].kind, NodeCount(nodes[root]))
    }

    /** What the ring holds when the insertion of key is decided. */
    ghost function Queued(key: Key): seq<Key>
      reads this, buffer
    {
      if currentSize < radixTreeSize then Remember(Remembered(), key) else Remembered()
    }

    /**
     * insert: within the budget the key is remembered in the ring, twice if the
     * root has to grow, and inserted; otherwise the oldest remembered key is
     * forgotten, the entry its search ends at is evicted, and nothing is inserted.
     */
    method Insert(key: Key, e: Entry) returns (ghost accepted: bool)
      requires Valid()
      modifies this, buffer
      ensures Valid() && accepted == old(Accepts()) && currentSize <= old(currentSize) + (if old(RootFull()) then ROOM else MAX_GROWTH)
      ensures accepted ==> PlainO(tree) == InsertedO(PlainO(old(tree)), Transform(key), e)
      ensures accepted ==> Contents() == old(Contents())[key := e] && refused == old(refused)
      ensures accepted ==> Remembered() == if old(RootFull()) then Remember(old(Queued(key)), key) else old(Queued(key))
      ensures !accepted ==> refused && Evicted(old(tree), old(Queued(key)), Contents(), Remembered())
      ensures !accepted ==> PlainO(tree) == Dropped(if old(currentSize) < radixTreeSize then EnlargedO(PlainO(old(tree))) else PlainO(old(tree)), old(Queued(key)))
      decreases if RootFull() then 1 else 0, 1
    {
      hide *;
      ValidFacts();
      ContentsIs();
      AcceptsIs();
      QueuedIs(key);
      if currentSize < radixTreeSize {
        PushKey(key);
        KeyIs(key);
        TransformBijection(key);
        if root != 0 {
          assert {} + {root} == {root};
          FixNode(root, {});
        }
        AcceptsIs();
        ContentsIs();
        accepted := InsertRecursive(Transform(key), e, key);
      } else {
        Evict();
        ValidFacts();
        refused, accepted := true, false;
        ValidIntro();
        ContentsIs();
        RoomIs();
      }
    }

    /** The key enters the ring, over the oldest one if the ring is full. */
    method PushKey(key: Key)
      requires buffer.Length == RING && read < RING && write < RING
      modifies this`read, this`write, buffer
      ensures read < RING && write < RING && Remembered() == Remember(old(Remembered()), key)
    {
      hide *;
      RememberedIs();
      RingIs();
      PushIs(buffer[..], read, write, key);
      buffer[write] := key;
      assert buffer[..] == old(buffer[..])[write := key];
      write := (write + 1) % 256;
      if write == read {
        read := (read + 1) % 256;
      }
      RememberedIs();
    }

    /** The budget is used up: the oldest remembered key is deleted. */
    method Evict()
      requires Valid()
      modifies this
      ensures Valid() && currentSize <= old(currentSize) && refused == old(refused)
      ensures Evicted(old(tree), old(Remembered()), Contents(), Remembered()) && PlainO(tree) == Dropped(PlainO(old(tree)), old(Remembered()))
    {
      hide *;
      ValidFacts();
      ContentsIs();
      RememberedIs();
      RingIs();
      if read != write {
        ghost var q := Remembered();
        KeyIs(q[0]);
        PopIs(buffer[..], read, write);
        DroppedIs(PlainO(tree), q);
        DeleteReference(buffer[read]);
        ContentsIs();
        LandedAtIs(old(tree), q[0]);
        ValidFacts();
        read := (read + 1) % 256;
        RememberedIs();
        ValidIntro();
        EvictedIntro(old(tree), q, Contents(), q[1..]);
      } else {
        EvictedIntro(tree, [], Contents(), []);
        DroppedIs(PlainO(tree), []);
      }
      ContentsIs();
    }

    lemma RememberedIs()
      requires buffer.Length == RING && read < RING && write < RING
      ensures Remembered() == Queue(buffer[..], read, write)
    {
    }

    lemma QueuedIs(key: Key)
      ensures Queued(key) == if currentSize < radixTreeSize then Remember(Remembered(), key) else Remembered()
    {
    }

    /** An insertion that leaves room for the largest possible growth goes through. */
    lemma AcceptsRoom()
      requires currentSize + ROOM <= radixTreeSize
      ensures Accepts()
    {
    }

    lemma AdmitsIs()
      requires Valid()
      ensures Accepts() == Admits(State(), radixTreeSize) && (RootFull() <==> State().growth > 0)
      ensures forall key: Key :: Queued(key) == Waiting(State(), key, radixTreeSize)
    {
      hide *;
      AcceptsPlain();
      StateIs();
      GrowthsAre(tree);
      forall key: Key ensures Queued(key) == Waiting(State(), key, radixTreeSize) {
        QueuedIs(key);
        WaitingIs(State(), key, radixTreeSize);
      }
      AdmitsFacts(State(), radixTreeSize);
    }

    /** The decision in terms of the tree. */
    lemma AcceptsPlain()
      requires Valid()
      ensures RootFull() <==> tree.Some? && !CanInsert(tree.value.kind, Size(tree.value))
      ensures Accepts() == (currentSize < radixTreeSize
        && (RootFull() ==> tree.Some? && currentSize - NodeBytes(tree.value.kind) + NodeBytes(Larger(tree.value.kind)) < radixTreeSize))
    {
      hide *;
      ValidFacts();
      RootFullIs();
      AcceptsIs();
      if tree.Some? {
        RepRec(nodes, tree.value);
        RecKind(tree.value);
        RecSize(tree.value);
      } else {
        TreeOkNone(tree, root, nodes);
      }
    }

    lemma StateIs()
      ensures State() == CacheState(Contents().Keys, refused, currentSize, Remembered(), RootGrowth(tree))
    {
    }

    /** insert_recursive entered at the root, which is fixed; the key is in the ring already. */
    method InsertRecursive(key: nat, e: Entry, ghost k: Key) returns (ghost accepted: bool)
      requires IsKey(k) && key == Transform(k) && IsU64(key) && k == InverseTransform(key)
      requires TreeOk(tree, root, nodes) && LeanO(tree) && Mem(if root == 0 then {} else {root}) && currentSize == BytesOf(tree)
      requires buffer.Length == RING && read < RING && write < RING && currentSize < radixTreeSize
      modifies this, buffer
      ensures Valid() && accepted == old(Accepts()) && currentSize <= old(currentSize) + (if old(RootFull()) then ROOM else MAX_GROWTH)
      ensures accepted ==> PlainO(tree) == InsertedO(PlainO(old(tree)), key, e)
      ensures accepted ==> Contents() == old(Contents())[k := e] && refused == old(refused)
      ensures accepted ==> Remembered() == if old(RootFull()) then Remember(old(Remembered()), k) else old(Remembered())
      ensures !accepted ==> refused && Evicted(old(tree), old(Remembered()), Contents(), Remembered())
      ensures !accepted ==> PlainO(tree) == Dropped(EnlargedO(PlainO(old(tree))), old(Remembered()))
      decreases if RootFull() then 1 else 0, 0
    {
      hide *;
      ContentsIs();
      AcceptsIs();
      RoomIs();
      if root == 0 {
        MemFacts({});
        BelowTopAt(nodes, heapTop);
        TreeOkNone(tree, root, nodes);
        FirstLeaf(key, e, k);
        PutFirst(old(tree), tree, key, e);
        accepted := true;
      } else {
        TreeOkRoot(tree, root, nodes);
        TreeOkSome(tree, root, nodes);
        RepRec(nodes, tree.value);
        if !CanInsert(nodes[root].kind, NodeCount(nodes[root])) {
          accepted := InsertGrown(key, e, k);
        } else {
          InsertAtRoot(key, e, k);
          PutSome(old(tree), tree, key, e);
          accepted := true;
        }
      }
    }

    /** The root grows and the insertion starts anew. */
    method InsertGrown(key: nat, e: Entry, ghost k: Key) returns (ghost accepted: bool)
      requires IsKey(k) && key == Transform(k) && IsU64(key) && k == InverseTransform(key)
      requires TreeOk(tree, root, nodes) && LeanO(tree) && root != 0 && Mem({root}) && currentSize == BytesOf(tree) && RootFull()
      requires buffer.Length == RING && read < RING && write < RING && currentSize < radixTreeSize
      modifies this, buffer
      ensures Valid() && accepted == old(Accepts()) && currentSize <= old(currentSize) + ROOM
      ensures accepted ==> PlainO(tree) == InsertedO(PlainO(old(tree)), key, e)
      ensures accepted ==> Contents() == old(Contents())[k := e] && refused == old(refused)
      ensures accepted ==> Remembered() == Remember(old(Remembered()), k)
      ensures !accepted ==> refused && Evicted(old(tree), old(Remembered()), Contents(), Remembered())
      ensures !accepted ==> PlainO(tree) == Dropped(EnlargedO(PlainO(old(tree))), old(Remembered()))
      decreases 0, 2
    {
      hide *;
      ContentsIs();
      AcceptsIs();
      RoomIs();
      TreeOkRoot(tree, root, nodes);
      TreeOkSome(tree, root, nodes);
      GrowRoot();
      ghost var t, q := tree, Remembered();
      ValidFacts();
      ContentsIs();
      AcceptsIs();
      QueuedIs(k);
      KeyIs(k);
      accepted := Insert(InverseTransform(key), e);
      PutRegrown(old(tree), t, tree, key, e);
      PutEnlarged(old(tree), t);
      if !accepted {
        EvictedVia(old(tree), t, q, Contents(), Remembered());
      }
    }

    method FirstLeaf(key: nat, e: Entry, ghost k: int)
      requires IsKey(k) && key == Transform(k) && IsU64(key)
      requires tree == None && root == 0 && nodes == map[] && Mem({}) && currentSize == 0 < radixTreeSize
      requires buffer.Length == RING && read < RING && write < RING
      modifies this`root, this`nodes, this`fixes, this`heapTop, this`currentSize, this`tree
      ensures tree.Some? && Plain(tree.value) == NewLeaf(0, key, e)
      ensures Valid() && Contents() == old(Contents())[k := e] && currentSize <= MAX_GROWTH
    {
      hide *;
      ContentsIs();
      MemFacts({});
      root := MakeLeaf(key, e, {});
      ghost var t := NewLeaf(root, key, e);
      NewLeafIs(root, key, e);
      NewLean(root, key, e);
      LeanSome(t);
      PlainNew(root, key, e);
      LeafStored(nodes, t);
      NewLeafOK(root, 0, key, e);
      NewLeafBytes(root, key, e);
      NewLeafOnly(root, key, e);
      BytesSome(t);
      TreeOkIntro(t, root, nodes);
      SmallBytes();
      GrowthIs();
      MapFirst(t, k, e);
      tree := Some(t);
      ValidIntro();
      ContentsIs();
    }

    /** A full root moves to the next larger kind. */
    method GrowRoot()
      requires TreeOk(tree, root, nodes) && LeanO(tree) && root != 0 && Mem({root}) && currentSize == BytesOf(tree) < radixTreeSize
      requires buffer.Length == RING && read < RING && write < RING && RootFull()
      modifies this`root, this`nodes, this`fixes, this`heapTop, this`currentSize, this`tree
      ensures tree.Some? && old(tree).Some? && Plain(tree.value) == Enlarged(Plain(old(tree).value))
      ensures Valid() && !RootFull() && Contents() == old(Contents()) && refused == old(refused)
      ensures currentSize == old(currentSize - NodeBytes(nodes[root].kind) + NodeBytes(Larger(nodes[root].kind))) <= old(currentSize) + 2072 - 920
    {
      hide *;
      RootFullIs();
      ContentsIs();
      TreeOkRoot(tree, root, nodes);
      ghost var t := tree.value;
      TreeOkSome(tree, root, nodes);
      BytesSome(t);
      RepRec(nodes, t);
      RecKind(t);
      RecSize(t);
      KindBytesLe(t);
      MemFacts({root});
      ghost var m, top := nodes, heapTop;
      ghost var t1;
      root, t1 := Resize(root, Larger(nodes[root].kind), t, {root});
      assert {t.id} - {t.id} == {};
      StepAll(m, nodes, top, t, t1);
      LargerFits(t, 0);
      PlainMoved(t, root, Larger(t.kind));
      PlainIs(t);
      EnlargedIs(Plain(t));
      RekindOK(t, 0, root, Larger(t.kind));
      RekindFacts(t, root, Larger(t.kind));
      BytesRekind(t, root, Larger(t.kind));
      tree := Some(t1);
      BytesSome(t1);
      TreeOkIntro(t1, root, nodes);
      MapSame(t, t1);
      PutEnlarged(Some(t), tree);
      StaysLean(Some(t), tree, 0, Entry(0, 0));
      GrowthIs();
      ValidIntro();
      ContentsIs();
      RepRec(nodes, t1);
      RecKind(t1);
      RecSize(t1);
      RootFullIs();
    }

    /** The root is fixed and has room; it may still have to split off a prefix. */
    method InsertAtRoot(key: nat, e: Entry, ghost k: int)
      requires IsKey(k) && key == Transform(k) && IsU64(key) && root != 0
      requires TreeOk(tree, root, nodes) && LeanO(tree) && Mem({root}) && currentSize == BytesOf(tree) < radixTreeSize && !RootFull()
      requires buffer.Length == RING && read < RING && write < RING
      modifies this`root, this`nodes, this`fixes, this`heapTop, this`currentSize, this`tree
      ensures tree.Some? && old(tree).Some? && Plain(tree.value) == Inserted(Plain(old(tree).value), key, e)
      ensures Valid() && Contents() == old(Contents())[k := e] && currentSize <= old(currentSize) + MAX_GROWTH
    {
      hide *;
      RootFullIs();
      ContentsIs();
      TreeOkRoot(tree, root, nodes);
      ghost var t := tree.value;
      TreeOkSome(tree, root, nodes);
      BytesSome(t);
      RepRec(nodes, t);
      RecKind(t);
      RecSize(t);
      ghost var m, top := nodes, heapTop;
      var prefix := 0;
      if nodes[root].depth != 1 {
        DepthGrows(t, 0);
        prefix := LongestCommonPrefix(nodes[root].key, key);
      }
      ghost var t1;
      if nodes[root].depth != 1 && prefix + 1 < nodes[root].depth {
        t1 := ForkRoot(prefix, key, e, t);
      } else {
        RootPrefix(t, key, prefix);
        t1 := InsertBelow(root, key, e, t, 0);
        InsertedFacts(t, t1, key, e);
        GrowthBelow(t.depth);
      }
      StepAll(m, nodes, top, t, t1);
      tree := Some(t1);
      BytesSome(t1);
      TreeOkIntro(t1, root, nodes);
      MapInsert(t, t1, k, e);
      PutSome(Some(t), tree, key, e);
      StaysLean(Some(t), tree, key, e);
      ValidIntro();
      ContentsIs();
    }

    /** The key leaves the prefix of the root: a new root over the old one and a leaf. */
    method ForkRoot(prefix: nat, key: nat, e: Entry, ghost t: RTree) returns (ghost t': RTree)
      requires Mem({root}) && RRep(nodes, t) && RDisj(t) && ROK(t, 0) && t.id == root && prefix + 1 < t.depth <= 8
      requires CanInsert(t.kind, Size(t)) && IsU64(key) && Agree(t.key, key, prefix) && GetKey(t.key, prefix + 1) != GetKey(key, prefix + 1)
      modifies this`root, this`nodes, this`fixes, this`heapTop, this`currentSize
      ensures Mem({}) && t'.id == root && Stepped(old(nodes), nodes, old(heapTop), t, t')
      ensures ROK(t', 0) && InsGet(t, t', key, e) && Plain(t') == Inserted(Plain(t), key, e)
      ensures currentSize - old(currentSize) == TreeBytes(t') - TreeBytes(t) <= MAX_GROWTH
    {
      hide *;
      ghost var top := heapTop;
      MemFacts({root});
      assert {root} - {root} == {};
      var n;
      n, t' := MakeFork(root, prefix, key, e, t, {root});
      UnfixNode(root, {root});
      root := n;
      PutFork(t, top, top + 1, prefix, key, e);
      ForkOK(top, prefix, key, e, top + 1, t, 0);
      ForkGet(top, prefix, key, e, top + 1, t, 0);
      BytesFork(top, prefix, key, e, top + 1, t);
      SmallBytes();
      GrowthIs();
    }

    lemma AcceptsIs()
      ensures Accepts() == (currentSize < radixTreeSize
        && (RootFull() ==> root in nodes && currentSize - NodeBytes(nodes[root].kind) + NodeBytes(Larger(nodes[root].kind)) < radixTreeSize))
      ensures RootFull() <==> root in nodes && !CanInsert(nodes[root].kind, NodeCount(nodes[root]))
    {
    }

    lemma RootFullIs()
      ensures RootFull() <==> root in nodes && !CanInsert(nodes[root].kind, NodeCount(nodes[root]))
    {
    }

    // ----- Re-pointing -----

    /** update_range_recursive on a fixed node; the nodes above it stay fixed meanwhile. */
    method UpdateRangeRecursive(p: nat, from: nat, to: nat, e: Entry, ghost t: RTree, ghost d: nat, ghost s: set<nat>)
      requires Mem(s) && RRep(nodes, t) && RDisj(t) && ROK(t, d) && t.id == p && d <= 8
      requires RIds(t) * s == {p}
      modifies this`nodes, this`fixes, this`currentSize
      ensures Mem(s - {p}) && Stepped(old(nodes), nodes, heapTop, t, Upd(t, from, to, e)) && currentSize == old(currentSize)
      decreases 8 - d, 1
    {
      hide *;
      ghost var m := nodes;
      PartNone(t, from, to, e);
      StepRefl(nodes, heapTop, t);
      DepthGrows(t, d);
      MemFacts(s);
      var b := 0;
      while b < 256
        invariant b <= 256 && Mem(s) && currentSize == old(currentSize)
        invariant Stepped(m, nodes, heapTop, t, UpdPart(t, from, to, e, b))
      {
        UpdateAt(p, b, from, to, e, m, t, d, s);
        b := b + 1;
      }
      assert p in RIds(t) * s;
      UnfixNode(p, s);
      PartAll(t, d, from, to, e);
    }

    /** One step of the loop: the entry or the child at byte b, if its first bytes are within the bounds. */
    method UpdateAt(p: nat, b: nat, from: nat, to: nat, e: Entry, ghost m: Arena, ghost t: RTree, ghost d: nat, ghost s: set<nat>)
      requires Mem(s) && RRep(m, t) && RDisj(t) && ROK(t, d) && t.id == p && d <= 8 && RIds(t) * s == {p} && BelowTop(m, heapTop)
      requires Stepped(m, nodes, heapTop, t, UpdPart(t, from, to, e, b))
      modifies this`nodes, this`fixes, this`currentSize
      ensures Mem(s) && Stepped(m, nodes, heapTop, t, UpdPart(t, from, to, e, b + 1)) && currentSize == old(currentSize)
      decreases 8 - d, 0
    {
      hide *;
      ghost var cur := UpdPart(t, from, to, e, b);
      DepthGrows(t, d);
      SteppedFacts(m, nodes, heapTop, t, cur);
      RepRec(nodes, cur);
      RecKind(cur);
      PartFacts(t, from, to, e, b);
      PartNext(t, from, to, e, b);
      RepIn(m, t);
      ghost var m1 := nodes;
      var rec := nodes[p];
      if rec.leaf {
        if b in rec.frames && InWindow(rec.key, b, rec.depth, from, to) {
          ghost var cur' := InsertFrame(p, b, e, cur, s);
          StepTrans(m, m1, nodes, heapTop, heapTop, t, cur, cur');
        }
      } else if b in rec.ptrs && InWindow(rec.key, b, rec.depth, from, to) {
        var c := rec.ptrs[b];
        ghost var kid := t.kids[b];
        NodeFacts(t, d);
        DisjAt(t, b);
        OwnId(kid);
        KidIdsIn(t, b);
        OneFixedBelow(RIds(t), RIds(kid), s, p, c);
        MemFacts(s);
        RepRec(nodes, kid);
        FixNode(c, s);
        assert s + {c} - {c} == s;
        UpdateRangeRecursive(c, from, to, e, kid, t.depth, s + {c});
        UpdOK(kid, t.depth, from, to, e);
        MemFacts(s);
        StepUp(m1, nodes, heapTop, cur, b, Upd(kid, from, to, e));
        SameWrite(nodes, p, RecOf(cur));
        StepTrans(m, m1, nodes, heapTop, heapTop, t, cur, WithKid(cur, b, Upd(kid, from, to, e)));
      }
    }

    /** update_range: the cached keys in [from, to], and no others, are re-pointed. */
    method UpdateRange(from: int, to: int, e: Entry)
      requires Valid() && IsKey(from) && IsKey(to)
      modifies this`nodes, this`fixes, this`currentSize, this`tree
      ensures Valid() && currentSize == old(currentSize) && tree.Some? == old(tree).Some? && RootGrowth(tree) == RootGrowth(old(tree))
      ensures old(tree).Some? ==> tree == Some(Upd(old(tree).value, Transform(from), Transform(to), e))
      ensures Contents() == map k | k in old(Contents()) :: if from <= k <= to then e else old(Contents())[k]
    {
      hide *;
      ValidFacts();
      ContentsIs();
      if root == 0 {
        MapNone();
        return;
      }
      ghost var t := tree.value;
      TransformBijection(from);
      TransformBijection(to);
      ghost var m := nodes;
      assert {} + {root} == {root} && {root} - {root} == {};
      FixNode(root, {});
      OwnId(t);
      assert RIds(t) * {root} == {root};
      UpdateRangeRecursive(root, Transform(from), Transform(to), e, t, 0, {root});
      ghost var t1 := Upd(t, Transform(from), Transform(to), e);
      StepAll(m, nodes, heapTop, t, t1);
      UpdOK(t, 0, Transform(from), Transform(to), e);
      tree := Some(t1);
      BytesSome(t1);
      TreeOkIntro(t1, root, nodes);
      LeanSome(t);
      LeanSome(t1);
      UpdGrowth(t, Transform(from), Transform(to), e);
      UpdLean(t, Transform(from), Transform(to), e);
      ValidIntro();
      ContentsIs();
      MapUpdate(t, from, to, e);
    }

    // ----- Lookup -----

    /** The entry names the page its frame holds. */
    predicate Current(e: Entry)
      reads bm`frames
    {
      e.frame < |bm.frames| && bm.frames[e.frame].pageId == e.pageId
    }

    /** Cached frames are frames of the buffer, and cached ids that are live are ids of leaves. */
    ghost predicate LinksOk()
      reads this`tree, bm`frames, bm`issued, bm`live
    {
      Links(MapOf(tree), |bm.frames|, bm.issued, bm.live)
    }

    /** The leaf page on which the cache looks for the key: the one of the entry its search ends at, unless that is stale. */
    ghost function Served(key: int): Option<nat>
      requires IsKey(key)
      reads this`tree, bm`frames
    {
      var hit := HitO(tree, key);
      if hit.Some? && Current(hit.value) then Some(hit.value.pageId) else None
    }

    /** The tree after a lookup of key, which drops a stale entry. */
    ghost function LookedUp(key: int): Option<RTree>
      requires IsKey(key)
      reads this`tree, bm`frames
    {
      if HitO(tree, key).None? || Served(key).Some? then PlainO(tree) else DeletedO(PlainO(tree), Transform(key))
    }

    /** The key whose entry the search for key ends at. */
    ghost function Landed(key: int): set<int>
      requires IsKey(key)
      reads this`tree
    {
      LandedAt(tree, key)
    }

    /** get_page_recursive from a fixed node; a stale entry found at the leaf is deleted. */
    method GetPageRecursive(p: nat, key: nat, ghost k: int, ghost t: RTree, ghost d: nat) returns (header: Option<nat>)
      requires ValidWith({p}) && tree.Some? && RRep(nodes, t) && RDisj(t) && ROK(t, d) && t.id == p
      requires IsKey(k) && key == Transform(k) && IsU64(key) && HitO(tree, k) == Hit(t, key)
      requires HitO(tree, k).Some? ==> HitO(tree, k).value.frame < |bm.frames|
      modifies this`root, this`nodes, this`fixes, this`heapTop, this`currentSize, this`tree
      ensures Valid() && header == (if old(Served(k)).Some? then Some(old(HitO(tree, k)).value.frame) else None)
      ensures Contents() == if old(Served(k)).Some? then old(Contents()) else old(Contents()) - old(Landed(k))
      ensures PlainO(tree) == old(LookedUp(k)) && (header.Some? ==> tree == old(tree))
      ensures currentSize <= old(currentSize)
      decreases t
    {
      hide *;
      ValidWithFacts({p});
      ServedIs(k);
      LookedUpIs(k);
      LandedIs(k);
      ContentsIs();
      RepRec(nodes, t);
      RecKind(t);
      DepthGrows(t, d);
      assert {p} - {p} == {};
      var rec := nodes[p];
      var b := GetKey(key, rec.depth);
      if rec.leaf {
        HitLeaf(t, d, key);
        UnfixNode(p, {p});
        ValidIntro();
        ContentsIs();
        if b in rec.frames {
          var frame := rec.frames[b];
          if bm.frames[frame.frame].pageId == frame.pageId {
            CurrentIs(frame);
            return Some(frame.frame);
          }
          CurrentIs(frame);
          TransformBijection(k);
          DeleteReference(InverseTransform(key));
          return None;
        }
        NoHit(tree, k);
        ContentsIs();
        return None;
      }
      NodeFacts(t, d);
      HitNode(t, d, key);
      if b in rec.ptrs {
        var child := rec.ptrs[b];
        DisjAt(t, b);
        RepRec(nodes, t.kids[b]);
        KidNotRoot(t, b);
        FixNode(child, {p});
        assert {p} + {child} - {p} == {child};
        UnfixNode(p, {p} + {child});
        ValidWithIntro({child});
        KidSmaller(t, b);
        ContentsIs();
        header := GetPageRecursive(child, key, k, t.kids[b], t.depth);
      } else {
        UnfixNode(p, {p});
        ValidIntro();
        NoHit(tree, k);
        ContentsIs();
        return None;
      }
    }

    method GetPage(key: int) returns (header: Option<nat>)
      requires Valid() && IsKey(key) && LinksOk()
      modifies this`root, this`nodes, this`fixes, this`heapTop, this`currentSize, this`tree
      ensures Valid() && header == (if old(Served(key)).Some? then Some(old(HitO(tree, key)).value.frame) else None)
      ensures Contents() == if old(Served(key)).Some? then old(Contents()) else old(Contents()) - old(Landed(key))
      ensures PlainO(tree) == old(LookedUp(key)) && (header.Some? ==> tree == old(tree))
      ensures LinksOk() && currentSize <= old(currentSize) && Looked(old(State()), State(), key, old(Served(key)).Some?)
    {
      hide *;
      ValidFacts();
      StateIs();
      LandedAtIs(tree, key);
      LandedIs(key);
      ContentsIs();
      LinksIs();
      if HitO(tree, key).Some? {
        LinksAt(tree, key, |bm.frames|, bm.issued, bm.live);
      }
      header := GetPageAtRoot(key);
      ContentsIs();
      LinksIs();
      StateIs();
      ValidFacts();
      LookedAfter(old(tree), key, old(State()), State(), old(Served(key)).Some?);
      LinksLess(old(MapOf(tree)), old(Landed(key)), |bm.frames|, bm.issued, bm.live);
    }

    /** The lookup from the root on, if there is one. */
    method GetPageAtRoot(key: int) returns (header: Option<nat>)
      requires Valid() && IsKey(key) && (HitO(tree, key).Some? ==> HitO(tree, key).value.frame < |bm.frames|)
      modifies this`root, this`nodes, this`fixes, this`heapTop, this`currentSize, this`tree
      ensures Valid() && header == (if old(Served(key)).Some? then Some(old(HitO(tree, key)).value.frame) else None)
      ensures Contents() == if old(Served(key)).Some? then old(Contents()) else old(Contents()) - old(Landed(key))
      ensures PlainO(tree) == old(LookedUp(key)) && (header.Some? ==> tree == old(tree)) && currentSize <= old(currentSize)
    {
      hide *;
      ValidFacts();
      if root != 0 {
        TransformBijection(key);
        HitRoot(tree.value, key);
        assert {} + {root} == {root};
        FixNode(root, {});
        ValidWithIntro({root});
        ContentsIs();
        header := GetPageRecursive(root, Transform(key), key, tree.value, 0);
      } else {
        ServedIs(key);
        LookedUpIs(key);
        NoTree(key);
        return None;
      }
    }

    method GetValue(key: int) returns (value: Value)
      requires Valid() && IsKey(key) && LinksOk() && bm.Valid() && bm.pins == {} && bm.written == {}
      modifies this`root, this`nodes, this`fixes, this`heapTop, this`currentSize, this`tree
      modifies bm`frames, bm`pins, bm`written
      ensures Valid() && LinksOk() && bm.Valid() && bm.pins == {} && bm.written == {}
      ensures old(Served(key)).Some? ==> LeafPage(bm.live, old(Served(key)).value)
      ensures value == if old(Served(key)).Some? then OuterGet(bm.live[old(Served(key)).value].kv, key) else ABSENT
      ensures Contents() == if old(Served(key)).Some? then old(Contents()) else old(Contents()) - old(Landed(key))
      ensures PlainO(tree) == old(LookedUp(key)) && Looked(old(State()), State(), key, old(Served(key)).Some?)
      ensures |bm.frames| == |old(bm.frames)| && currentSize <= old(currentSize) && (old(Served(key)).Some? ==> tree == old(tree))
      ensures forall s :: 0 <= s < |bm.frames| ==> bm.frames[s].pageId == old(bm.frames)[s].pageId
      ensures bm.DirtyIds() <= old(bm.DirtyIds())
    {
      hide *;
      ServedFacts(key);
      var header := GetPage(key);
      label Got: if header.Some? {
        bm.FrameNames(header.value);
        var id := bm.frames[header.value].pageId;
        FixHeader(header.value);
        LeafPageIs(bm.live, id);
        value := OuterGet(bm.frames[header.value].page.kv, key);
        bm.UnfixPage(id, false);
        assert {id} - {id} == {};
        LeavesSame(bm.live, bm.issued);
        LinksStay@Got();
        return value;
      }
      return ABSENT;
    }

    /** fix_page(header->page_id) for a frame that holds its page. */
    method FixHeader(header: nat)
      requires bm.Valid() && bm.pins == {} && bm.written == {} && header < |bm.frames| && bm.frames[header].pageId != 0
      modifies bm`frames, bm`pins
      ensures bm.Valid() && header < |bm.frames| == |old(bm.frames)|
      ensures var id := old(bm.frames[header].pageId);
        && bm.pins == {id} && id in bm.live && bm.At(header, id)
        && bm.frames[header].pageId == id && bm.frames[header].page == bm.live[id]
      ensures forall s :: 0 <= s < |bm.frames| ==> bm.frames[s].pageId == old(bm.frames)[s].pageId
      ensures bm.DirtyIds() <= old(bm.DirtyIds())
    {
      hide *;
      bm.FrameNames(header);
      var id := bm.frames[header].pageId;
      AtIs(bm, header, id);
      bm.FixPage(id);
      assert {} + {id} == {id};
      AtIs(bm, header, id);
      bm.FrameOf(id);
    }

    method Update(key: int, value: Value) returns (done: bool)
      requires Valid() && IsKey(key) && LinksOk() && bm.Valid() && bm.pins == {} && bm.written == {}
      modifies this`root, this`nodes, this`fixes, this`heapTop, this`currentSize, this`tree
      modifies bm`frames, bm`pins, bm`written, bm`live
      ensures Valid() && LinksOk() && bm.Valid() && bm.pins == {} && bm.written == {}
      ensures done == old(Served(key)).Some? && |bm.frames| == |old(bm.frames)|
      ensures done ==> LeafPage(old(bm.live), old(Served(key)).value)
      ensures bm.live == if done then UpdatedIn(old(bm.live), old(Served(key)).value, key, value) else old(bm.live)
      ensures PlainO(tree) == old(LookedUp(key)) && Looked(old(State()), State(), key, old(Served(key)).Some?)
      ensures Contents() == if done then old(Contents()) else old(Contents()) - old(Landed(key))
      ensures bm.DirtyIds() <= old(bm.DirtyIds()) + if done then {old(Served(key)).value} else {}
    {
      hide *;
      ServedFacts(key);
      var header := GetPage(key);
      label Got: if header.Some? {
        bm.FrameNames(header.value);
        var id := bm.frames[header.value].pageId;
        FixHeader(header.value);
        LeafPageIs(bm.live, id);
        var page := bm.frames[header.value].page;
        UpdatedLeaves(bm.live, bm.issued, id, key, value);
        bm.Write(header.value, id, Outer(OuterUpdate(page.kv, key, value), page.next));
        bm.UnfixPage(id, true);
        assert {id} - {id} == {} && {} + {id} - {id} == {};
        LinksStay@Got();
        return true;
      }
      return false;
    }

    /** scan: INT64_MIN if no leaf is served, otherwise what the scan of that leaf returns. */
    method Scan(key: int, range: int, slot: nat -> int, ghost ids: seq<nat>) returns (sum: Option<Value>)
      requires Valid() && IsKey(key) && LinksOk() && bm.Valid() && bm.pins == {} && bm.written == {} && bm.Room(2)
      requires Served(key).Some? && PagePasses(bm.live, Served(key).value, key, slot) ==> LeafChain(bm.live, ids) && ids[0] == Served(key).value
      modifies this`root, this`nodes, this`fixes, this`heapTop, this`currentSize, this`tree
      modifies bm`pageIdMap, bm`frames, bm`owner, bm`pins, bm`stuck, bm`written, bm.storage
      ensures Valid() && LinksOk() && bm.Valid() && bm.written == {} && |old(bm.frames)| <= |bm.frames|
      ensures PlainO(tree) == old(LookedUp(key)) && Looked(old(State()), State(), key, old(Served(key)).Some?)
      ensures Contents() == if old(Served(key)).Some? then old(Contents()) else old(Contents()) - old(Landed(key))
      ensures
        var leaf := old(Served(key));
        if leaf.None? then sum == Some(ABSENT) && bm.pins == {} && bm.stuck == old(bm.stuck) else
          var pass := PagePasses(bm.live, leaf.value, key, slot);
          && LeafPage(bm.live, leaf.value)
          && (sum.None? <==> !pass && bm.asserts) && (!pass && !bm.asserts ==> sum == Some(ABSENT))
          && bm.pins == (if sum.None? then {leaf.value} else {}) && bm.stuck == old(bm.stuck) + (if pass || bm.asserts then {} else {leaf.value})
          && (pass ==>
              && Rank(bm.live[leaf.value].kv.keys, key) <= |ChainVals(bm.live, ids)|
              && sum == Some(Reported(Xor(ChainVals(bm.live, ids)[Rank(bm.live[leaf.value].kv.keys, key)..], range))))
      ensures bm.DirtyIds() <= old(bm.DirtyIds())
    {
      hide *;
      ServedFacts(key);
      var header := GetPage(key);
      label Got: if header.Some? {
        bm.FrameNames(header.value);
        ghost var id := bm.frames[header.value].pageId;
        FixHeader(header.value);
        LeafPageIs(bm.live, id);
        PagePassesIs(bm.live, id, key, slot);
        LeavesSame(bm.live, bm.issued);
        sum := TreeOperations.Scan(bm, header.value, id, key, range, slot, ids);
        LinksStay@Got();
        return sum;
      }
      return Some(ABSENT);
    }

    /** Delete from a cached leaf that can spare a key, without going through the B+ tree. */
    method DeleteValue(key: int) returns (done: bool)
      requires Valid() && IsKey(key) && LinksOk() && bm.Valid() && bm.pins == {} && bm.written == {}
      modifies this`root, this`nodes, this`fixes, this`heapTop, this`currentSize, this`tree
      modifies bm`frames, bm`pins, bm`written, bm`live
      ensures Valid() && LinksOk() && bm.Valid() && bm.pins == {} && bm.written == {} && |bm.frames| == |old(bm.frames)|
      ensures old(Served(key)).Some? ==> LeafPage(old(bm.live), old(Served(key)).value)
      ensures done == (old(Served(key)).Some? && CanDelete(old(bm.live)[old(Served(key)).value], n))
      ensures bm.live == if done then DeletedIn(old(bm.live), old(Served(key)).value, key) else old(bm.live)
      ensures Contents() == if old(Served(key)).Some? && !done then old(Contents()) else old(Contents()) - old(Landed(key))
      ensures PlainO(tree) == (if done then DeletedO(PlainO(old(tree)), Transform(key)) else old(LookedUp(key)))
      ensures currentSize <= old(currentSize) && if done then Lost(old(State()), State(), key) else Looked(old(State()), State(), key, old(Served(key)).Some?)
      ensures bm.DirtyIds() <= old(bm.DirtyIds()) + if done then {old(Served(key)).value} else {}
    {
      hide *;
      ServedFacts(key);
      var header := GetPage(key);
      label Got: if header.Some? {
        bm.FrameNames(header.value);
        var id := bm.frames[header.value].pageId;
        LeafPageIs(bm.live, id);
        if CanDelete(bm.frames[header.value].page, n) {
          LookedFacts(old(State()), State(), key);
          FixHeader(header.value);
          var page := bm.frames[header.value].page;
          DeletedLeaves(bm.live, bm.issued, id, key);
          bm.Write(header.value, id, Outer(OuterDelete(page.kv, key), page.next));
          LinksStay@Got();
          LandedIs(key);
          LinksIs();
          ContentsIs();
          LinksLess(MapOf(tree), Landed(key), |bm.frames|, bm.issued, bm.live);
          StateIs();
          LandedAtIs(tree, key);
          ghost var was := State();
          ValidFacts();
          DeleteReference(key);
          StateIs();
          LostIntro(old(tree), key, was, State());
          bm.UnfixPage(id, true);
          assert {id} - {id} == {} && {} + {id} - {id} == {};
          ContentsIs();
          LinksIs();
          return true;
        }
      }
      return false;
    }

    lemma ServedIs(key: int)
      requires IsKey(key)
      ensures Served(key) == (var hit := HitO(tree, key); if hit.Some? && Current(hit.value) then Some(hit.value.pageId) else None)
    {
    }

    /** A cached key is served from the page of its own entry, unless that is stale. */
    lemma ServedOwn(key: int)
      requires Valid() && IsKey(key) && key in Contents()
      ensures Landed(key) == {key} && HitO(tree, key) == Some(Contents()[key])
      ensures Served(key) == if Current(Contents()[key]) then Some(Contents()[key].pageId) else None
    {
      hide *;
      ValidFacts();
      ContentsIs();
      ServedIs(key);
      LandedIs(key);
      LandsAtOwn(tree, key);
      HitOIs(tree, key);
    }

    lemma CurrentIs(e: Entry)
      ensures Current(e) <==> e.frame < |bm.frames| && bm.frames[e.frame].pageId == e.pageId
    {
    }

    lemma LandedIs(key: int)
      requires IsKey(key)
      ensures Landed(key) == if LandsAt(tree, key).Some? then {LandsAt(tree, key).value} else {}
    {
    }

    lemma LookedUpIs(key: int)
      requires IsKey(key)
      ensures LookedUp(key) == if HitO(tree, key).None? || Served(key).Some? then PlainO(tree) else DeletedO(PlainO(tree), Transform(key))
    {
    }

    lemma NoTree(key: int)
      requires IsKey(key) && tree == None
      ensures HitO(tree, key) == None && Contents() - Landed(key) == Contents()
    {
    }

    lemma LinksIs()
      ensures LinksOk() <==> Links(MapOf(tree), |bm.frames|, bm.issued, bm.live)
    {
    }

    /** Links stay good while leaves stay leaves and no frame disappears. */
    twostate lemma LinksStay()
      requires old(LinksOk()) && old(|bm.frames|) <= |bm.frames| && old(bm.issued) <= bm.issued
      requires LeavesStay(old(bm.live), bm.live, old(bm.issued))
      requires forall k :: k in MapOf(tree) ==> k in old(MapOf(tree)) && MapOf(tree)[k] == old(MapOf(tree))[k]
      ensures LinksOk()
    {
      hide MapOf, EntryOk, LeavesStay, Links;
      LinksGrow(old(MapOf(tree)), MapOf(tree), old(|bm.frames|), old(bm.issued), old(bm.live), |bm.frames|, bm.issued, bm.live);
    }

    /** What the cache's answer refers to. */
    lemma ServedFacts(key: int)
      requires Valid() && IsKey(key) && LinksOk() && bm.Valid()
      ensures Served(key).Some? ==> HitO(tree, key).Some? && Served(key).value == HitO(tree, key).value.pageId
      ensures Served(key).Some? ==> HitO(tree, key).value.frame < |bm.frames| && bm.frames[HitO(tree, key).value.frame].pageId == Served(key).value
      ensures Served(key).Some? ==> Served(key).value != 0 && LeafPage(bm.live, Served(key).value)
    {
      hide *;
      ServedIs(key);
      if Served(key).Some? {
        CurrentIs(HitO(tree, key).value);
        LinksIs();
        LinksAt(tree, key, |bm.frames|, bm.issued, bm.live);
        EntryOkIs(HitO(tree, key).value, |bm.frames|, bm.issued, bm.live);
        bm.FrameNames(HitO(tree, key).value.frame);
      }
    }

    lemma ValidWithFacts(s: set<nat>)
      requires ValidWith(s)
      ensures LeanO(tree) && TreeOk(tree, root, nodes) && Mem(s) && currentSize == BytesOf(tree) && currentSize < radixTreeSize + MAX_GROWTH
      ensures buffer.Length == RING && read < RING && write < RING
    {
    }

    lemma ValidWithIntro(s: set<nat>)
      requires LeanO(tree) && TreeOk(tree, root, nodes) && Mem(s) && currentSize == BytesOf(tree) && currentSize < radixTreeSize + MAX_GROWTH
      requires buffer.Length == RING && read < RING && write < RING
      ensures ValidWith(s)
    {
    }

    lemma MemFacts(s: set<nat>)
      requires Mem(s)
      ensures 0 < heapTop && BelowTop(nodes, heapTop) && FixedOnly(nodes, fixes, s) && s <= nodes.Keys
    {
    }
  }

  /** t', possibly nothing, lacks exactly the entry a search for k ends at in t. */
  ghost predicate DelGetO(t: RTree, t': Option<RTree>, k: nat) {
    forall x: nat :: GetO(t', x) == if Landing(t, k) == Some(x) then None else Get(t, x)
  }

  lemma DelToSome(t: RTree, t1: RTree, t': RTree, k: nat)
    requires DelGet(t, t1, k) && forall x :: Get(t', x) == Get(t1, x)
    ensures DelGetO(t, Some(t'), k)
  {
    forall x: nat ensures GetO(Some(t'), x) == if Landing(t, k) == Some(x) then None else Get(t, x) {
      hide Get, Landing;
    }
  }

  lemma DelToNone(t: RTree, t1: RTree, k: nat)
    requires DelGet(t, t1, k) && t1.RLeaf? && t1.frames == map[]
    ensures DelGetO(t, None, k)
  {
    forall x: nat ensures None == if Landing(t, k) == Some(x) then None else Get(t, x) {
      EmptyLeaf(t1, x);
      DelGetAt(t, t1, k, x);
    }
  }

  lemma TreeOkSome(t: Option<RTree>, root: nat, m: Arena)
    requires TreeOk(t, root, m) && t.Some?
    ensures root == t.value.id && RRep(m, t.value) && RDisj(t.value) && ROK(t.value, 0) && m.Keys == RIds(t.value)
  {
  }

  lemma TreeOkIntro(t: RTree, root: nat, m: Arena)
    requires root == t.id && RRep(m, t) && RDisj(t) && ROK(t, 0) && m.Keys == RIds(t)
    ensures TreeOk(Some(t), root, m)
  {
  }

  lemma BytesSome(t: RTree)
    ensures BytesOf(Some(t)) == TreeBytes(t)
  {
  }

  lemma NoNodes(m: Arena)
    requires m.Keys == {}
    ensures TreeOk(None, 0, m) && BytesOf(None) == 0
  {
  }

  lemma KindBytesLe(t: RTree)
    ensures NodeBytes(t.kind) <= TreeBytes(t)
  {
  }

  /** A step of the whole tree accounts for every address. */
  lemma StepAll(m: Arena, m': Arena, top: nat, t: RTree, t': RTree)
    requires Stepped(m, m', top, t, t') && m.Keys == RIds(t)
    ensures RRep(m', t') && RDisj(t') && m'.Keys == RIds(t')
  {
  }

  lemma LeafIds(t: RTree)
    requires t.RLeaf?
    ensures RIds(t) == {t.id}
  {
  }

  lemma OneKey<T>(m: map<nat, T>)
    requires |m| == 1
    ensures exists c :: m.Keys == {c}
    ensures forall c :: c in m ==> m.Keys == {c}
  {
    assert |m.Keys| == 1;
    var c :| c in m;
    assert m.Keys - {c} == {} by {
      assert |m.Keys - {c}| == 0;
    }
    assert m.Keys == {c};
  }

  lemma GrandNotRoot(t: RTree, b: nat, c: nat)
    requires t.RNode? && RDisj(t) && b in t.kids && t.kids[b].RNode? && c in t.kids[b].kids
    ensures t.kids[b].kids[c].id !in {t.id}
  {
    DisjAt(t, b);
    KidIdsIn(t.kids[b], c);
    OwnId(t.kids[b].kids[c]);
  }

  lemma WriteThenFree(m: Arena, p: nat, n: nat, rec: RRec)
    requires p != n
    ensures m[p := rec] - {n} == (m - {n})[p := rec]
  {
  }

  /** A search that ends nowhere deletes nothing. */
  lemma MissDel(t: RTree, d: nat, k: nat)
    requires t.RNode? && t.depth <= 8 && GetKey(k, t.depth) in t.kids && t.kids[GetKey(k, t.depth)].RNode?
    requires t.kids[GetKey(k, t.depth)].depth <= 8 && GetKey(k, t.kids[GetKey(k, t.depth)].depth) !in t.kids[GetKey(k, t.depth)].kids
    ensures DeletedAt(t, t, k)
  {
    assert Landing(t, k) == None;
  }

  lemma MissDelRoot(t: RTree, k: nat)
    requires t.RNode? && t.depth <= 8 && GetKey(k, t.depth) !in t.kids
    ensures DelGetO(t, Some(t), k)
  {
    assert Landing(t, k) == None;
  }

  lemma LoneBytes(t: RTree, d: nat, t0: RTree, b: nat, c: nat)
    requires t0.RNode? && ROK(t0, d) && b in t0.kids && t == WithoutKid(t0, b) && t.kids.Keys == {c}
    ensures c in t.kids && TreeBytes(t) == NodeBytes(t.kind) + TreeBytes(t.kids[c])
  {
    assert c in t.kids.Keys;
    var e := t.(kids := map[]);
    NodeFacts(t0, d);
    BytesNone(e, 256);
    BytesWithKid(e, c, t.kids[c]);
    assert WithKid(e, c, t.kids[c]) == t;
  }

  /** The single child z of what is left of kid b takes the place of kid b. */
  lemma CollapseOK(t: RTree, d: nat, b: nat, kid: RTree, x: nat, c: nat, k: nat)
    requires t.RNode? && ROK(t, d) && t.depth <= 8 && b == GetKey(k, t.depth) && b in t.kids && t.kids[b].RNode?
    requires x in t.kids[b].kids && kid == WithoutKid(t.kids[b], x) && kid.kids.Keys == {c} && c in kid.kids
    requires DelGet(t.kids[b], kid, k)
    ensures ROK(WithKid(t, b, kid.kids[c]), d) && DeletedAt(t, WithKid(t, b, kid.kids[c]), k)
  {
    hide *;
    WithoutKidIs(t.kids[b], x);
    var z := kid.kids[c];
    NodeFacts(t, d);
    Collapsed(t.kids[b], t.depth, kid, x, c);
    WithoutKidIs(t.kids[b], x);
    UnderTrans(t.key, t.depth, b, kid.key, kid.depth, c, z.key);
    KeepKidDel(t, d, b, kid, z, k);
  }

  lemma Collapsed(t0: RTree, d: nat, t: RTree, b: nat, c: nat)
    requires t0.RNode? && ROK(t0, d) && b in t0.kids && t == WithoutKid(t0, b) && t.kids.Keys == {c} && c in t.kids
    ensures t.RNode? && ROK(t.kids[c], d) && (forall x :: Get(t.kids[c], x) == Get(t, x)) && d < t.depth < 8
    ensures Under(t.key, t.depth, c, t.kids[c].key)
  {
    hide *;
    WithoutKidIs(t0, b);
    NodeFacts(t0, d);
    assert c in t0.kids;
    DepthGrows(t.kids[c], t.depth);
    Raise(t.kids[c], t.depth, d);
    forall x ensures Get(t.kids[c], x) == Get(t, x) {
      CollapseGet(t, c, x);
    }
  }

  lemma CollapseRoot(t0: RTree, t: RTree, b: nat, c: nat)
    requires t0.RNode? && ROK(t0, 0) && b in t0.kids && t == WithoutKid(t0, b) && t.kids.Keys == {c} && c in t.kids
    ensures ROK(t.kids[c], 0) && forall x :: Get(t.kids[c], x) == Get(t, x)
  {
    Collapsed(t0, 0, t, b, c);
  }

  /** Deleting on the tree removes one key from the map, the one the search lands at. */
  lemma MapDelete(t: Option<RTree>, t': Option<RTree>, key: int)
    requires IsKey(key) && t.Some? && ROK(t.value, 0) && DelGetO(t.value, t', Transform(key))
    ensures MapOf(t') == MapOf(t) - (if LandsAt(t, key).Some? then {LandsAt(t, key).value} else {})
    ensures LandsAt(t, key).Some? ==> LandsAt(t, key).value in MapOf(t)
  {
    hide *;
    LandsAtStored(t, key);
    forall k | IsKey(k)
      ensures GetO(t', Transform(k)) == if LandsAt(t, key) == Some(k) then None else GetO(t, Transform(k))
    {
      MapDeleteAt(t, t', key, k);
    }
    MapLess(t, t', LandsAt(t, key));
  }

  lemma LandsAtStored(t: Option<RTree>, key: int)
    requires IsKey(key) && t.Some? && ROK(t.value, 0)
    ensures LandsAt(t, key).Some? <==> Landing(t.value, Transform(key)).Some?
    ensures LandsAt(t, key).Some? ==> LandsAt(t, key).value in MapOf(t)
    ensures LandsAt(t, key).Some? ==> IsKey(LandsAt(t, key).value) && Landing(t.value, Transform(key)) == Some(Transform(LandsAt(t, key).value))
  {
    hide Get, Landing, ROK, Transform, InverseTransform;
    var u := Transform(key);
    if Landing(t.value, u).Some? {
      LandingStored(t.value, 0, u);
      InverseBijection(Landing(t.value, u).value);
    }
  }

  lemma MapDeleteAt(t: Option<RTree>, t': Option<RTree>, key: int, k: int)
    requires IsKey(key) && t.Some? && ROK(t.value, 0) && DelGetO(t.value, t', Transform(key)) && IsKey(k)
    ensures GetO(t', Transform(k)) == if LandsAt(t, key) == Some(k) then None else GetO(t, Transform(k))
  {
    hide Get, Landing, ROK, Transform, InverseTransform;
    LandsAtStored(t, key);
    if LandsAt(t, key).Some? {
      TransformBijection(k);
      TransformBijection(LandsAt(t, key).value);
    }
  }

  lemma MapLess(t: Option<RTree>, t': Option<RTree>, gone: Option<int>)
    requires forall k :: IsKey(k) ==> GetO(t', Transform(k)) == if gone == Some(k) then None else GetO(t, Transform(k))
    ensures MapOf(t') == MapOf(t) - (if gone.Some? then {gone.value} else {})
  {
    hide Transform, GetO;
  }

  lemma MapDeleteNone(t: Option<RTree>, key: int)
    requires IsKey(key) && t == None
    ensures LandsAt(t, key) == None && MapOf(t) - {} == MapOf(t)
  {
  }

  /** t' is t with the kid at byte b enlarged if it is full. */
  ghost predicate EnlargesKid(t: RTree, t': RTree, b: nat) {
    t.RNode? && t'.RNode? && b in t.kids && b in t'.kids && t' == WithKid(t, b, t'.kids[b]) && Plain(t'.kids[b]) == Enlarged(Plain(t.kids[b]))
  }

  lemma EnlargesNot(t: RTree, b: nat)
    requires t.RNode? && b in t.kids && CanInsert(t.kids[b].kind, Size(t.kids[b]))
    ensures EnlargesKid(t, t, b)
  {
    PlainIs(t.kids[b]);
    assert t.kids[b := t.kids[b]] == t.kids;
  }

  lemma EnlargesMoved(t: RTree, b: nat, id: nat)
    requires t.RNode? && b in t.kids && !CanInsert(t.kids[b].kind, Size(t.kids[b]))
    ensures EnlargesKid(t, WithKid(t, b, t.kids[b].(id := id, kind := Larger(t.kids[b].kind))), b)
  {
    hide CanInsert, Larger;
    PlainIs(t.kids[b]);
    PlainMoved(t.kids[b], id, Larger(t.kids[b].kind));
  }

  /** t' is t with k put into the kid at byte b. */
  ghost predicate PutsKid(t: RTree, t': RTree, k: nat, e: Entry, b: nat) {
    t.RNode? && t'.RNode? && b in t.kids && b in t'.kids && t' == WithKid(t, b, t'.kids[b]) && Plain(t'.kids[b]) == Inserted(Plain(t.kids[b]), k, e)
  }

  lemma PutsKidIntro(t: RTree, k: nat, e: Entry, b: nat, kid: RTree)
    requires t.RNode? && b in t.kids && Plain(kid) == Inserted(Plain(t.kids[b]), k, e)
    ensures PutsKid(t, WithKid(t, b, kid), k, e, b)
  {
  }

  /** Growing a kid and then putting k into it is putting k into the node. */
  lemma PutVia(t: RTree, t1: RTree, t': RTree, d: nat, k: nat, e: Entry, b: nat)
    requires t.RNode? && ROK(t, d) && CanInsert(t.kind, Size(t)) && 1 <= t.depth <= 8 && Agree(t.key, k, t.depth - 1) && b == GetKey(k, t.depth)
    requires EnlargesKid(t, t1, b) && PutsKid(t1, t', k, e, b)
    ensures Plain(t') == Inserted(Plain(t), k, e)
  {
    hide Inserted, Plain, Enlarged, ROK, CanInsert, GetKey, Agree;
    NodeFacts(t, d);
    PlainIs(t.kids[b]);
    SizeFits(t.kids[b], t.depth);
    PutGrown(Plain(t.kids[b]), k, e);
    assert t.kids[b := t1.kids[b]][b := t'.kids[b]] == t.kids[b := t'.kids[b]];
    PutKid(t, k, e, t'.kids[b]);
  }

  lemma SizeFits(t: RTree, d: nat)
    requires ROK(t, d)
    ensures Size(t) <= Capacity(t.kind)
  {
  }

  /** t' is t with what is left of the kid at byte b, settled. */
  ghost predicate SettlesKid(t: RTree, t': RTree, b: nat, kid: RTree) {
    t.RNode? && b in t.kids && Plain(kid).RNode? && Plain(t).RNode? && Plain(t') == WithKid(Plain(t), b, Settled(Plain(kid)))
  }

  lemma SettlesIntro(t: RTree, b: nat, kid: RTree, kid': RTree)
    requires t.RNode? && b in t.kids && Plain(kid).RNode? && Plain(kid') == Settled(Plain(kid))
    ensures SettlesKid(t, WithKid(t, b, kid'), b, kid)
  {
    PlainWithKid(t, b, kid');
  }

  lemma SettlesDrops(t: RTree, t': RTree, k: nat, b: nat, kid: RTree)
    requires SettlesKid(t, t', b, kid) && Deleted(Plain(t.kids[b]), k) == Some(Settled(Plain(kid)))
    ensures DropsKid(t, t', k, b)
  {
  }

  lemma PlainSome(t: RTree)
    ensures PlainO(Some(t)) == Some(Plain(t)) && forall u :: DeletedO(PlainO(Some(t)), u) == Deleted(Plain(t), u)
  {
  }

  lemma PlainNone()
    ensures PlainO(None) == None
  {
  }

  lemma DeletedNone(t: Option<RTree>, u: nat)
    requires t == None
    ensures PlainO(t) == DeletedO(PlainO(t), u)
  {
  }

  lemma PutFirst(t: Option<RTree>, t': Option<RTree>, k: nat, e: Entry)
    requires t == None && t'.Some? && Plain(t'.value) == NewLeaf(0, k, e)
    ensures PlainO(t') == InsertedO(PlainO(t), k, e)
  {
  }

  lemma PutSome(t: Option<RTree>, t': Option<RTree>, k: nat, e: Entry)
    requires t.Some? && t'.Some? && Plain(t'.value) == Inserted(Plain(t.value), k, e)
    ensures PlainO(t') == InsertedO(PlainO(t), k, e)
  {
  }

  lemma PutEnlarged(t: Option<RTree>, t': Option<RTree>)
    requires t.Some? && t'.Some? && Plain(t'.value) == Enlarged(Plain(t.value))
    ensures PlainO(t') == EnlargedO(PlainO(t))
  {
  }

  lemma LeanSome(t: RTree)
    ensures LeanO(Some(t)) == Lean(t)
  {
  }

  lemma DroppedIs(t: Option<RTree>, q: seq<Key>)
    ensures Dropped(t, q) == if q == [] then t else DeletedO(t, Transform(q[0]))
  {
  }

  lemma PutRegrown(t: Option<RTree>, t1: Option<RTree>, t': Option<RTree>, k: nat, e: Entry)
    requires t.Some? && ROK(t.value, 0) && t1.Some? && Plain(t1.value) == Enlarged(Plain(t.value))
    ensures PlainO(t') == InsertedO(PlainO(t1), k, e) ==> PlainO(t') == InsertedO(PlainO(t), k, e)
  {
    hide Inserted, Plain, Enlarged, ROK;
    SizeFits(t.value, 0);
    PlainIs(t.value);
    PutGrown(Plain(t.value), k, e);
  }

  lemma LandedAtIs(t: Option<RTree>, key: int)
    requires IsKey(key)
    ensures LandedAt(t, key) == if LandsAt(t, key).Some? then {LandsAt(t, key).value} else {}
  {
  }

  lemma EvictedIntro(t: Option<RTree>, q: seq<Key>, m': map<int, Entry>, q': seq<Key>)
    requires if q == [] then m' == MapOf(t) && q' == q else IsKey(q[0]) && m' == MapOf(t) - LandedAt(t, q[0]) && q' == q[1..]
    ensures Evicted(t, q, m', q')
  {
  }

  /** An eviction loses one entry at most. */
  lemma EvictedLess(t: Option<RTree>, q: seq<Key>, m': map<int, Entry>, q': seq<Key>)
    requires Evicted(t, q, m', q')
    ensures forall k :: k in m' ==> k in MapOf(t) && m'[k] == MapOf(t)[k]
  {
    hide MapOf, LandsAt;
  }

  lemma EvictedVia(t: Option<RTree>, t1: Option<RTree>, q: seq<Key>, m': map<int, Entry>, q': seq<Key>)
    requires (t.Some? ==> ROK(t.value, 0)) && (t1.Some? ==> ROK(t1.value, 0)) && MapOf(t1) == MapOf(t)
    requires Evicted(t1, q, m', q')
    ensures Evicted(t, q, m', q')
  {
    hide MapOf, LandsAt, ROK;
    if q != [] {
      SameKeysLand(t, t1, q[0]);
    }
  }

  /** The entry a search ends at is determined by the set of cached keys. */
  lemma SameKeysLand(t: Option<RTree>, t': Option<RTree>, key: int)
    requires IsKey(key) && (t.Some? ==> ROK(t.value, 0)) && (t'.Some? ==> ROK(t'.value, 0))
    requires MapOf(t).Keys == MapOf(t').Keys
    ensures LandsAt(t, key) == LandsAt(t', key)
  {
    hide *;
    if t.Some? {
      CachedSome(t.value);
    }
    if t'.Some? {
      CachedSome(t'.value);
    }
    NoneCached();
    if t.Some? && t'.Some? {
      CachedSame(t.value, t'.value);
      Canonical(t.value, 0, t'.value, 0, Transform(key));
    }
    LandsAtVia(t, t', key);
  }

  lemma LandsAtVia(t: Option<RTree>, t': Option<RTree>, key: int)
    requires IsKey(key) && t.Some? == t'.Some? && (t.Some? ==> Landing(t.value, Transform(key)) == Landing(t'.value, Transform(key)))
    ensures LandsAt(t, key) == LandsAt(t', key)
  {
  }

  lemma NoneCached()
    ensures MapOf(None).Keys == {}
  {
  }

  lemma CachedSome(t: RTree)
    requires ROK(t, 0)
    ensures MapOf(Some(t)).Keys != {}
  {
    hide Get, Transform, ROK;
    var u := SomeKey(t, 0);
    StoredU64(t, 0, u);
    InverseBijection(u);
    assert InverseTransform(u) in MapOf(Some(t));
  }

  lemma StoredU64(t: RTree, d: nat, u: nat)
    requires ROK(t, d) && Get(t, u).Some?
    ensures IsU64(u)
  {
    hide *;
    LandingOwn(t, d, u);
    LandingStored(t, d, u);
  }

  lemma CachedSame(t: RTree, t': RTree)
    requires ROK(t, 0) && ROK(t', 0) && MapOf(Some(t)).Keys == MapOf(Some(t')).Keys
    ensures SameKeys(t, t')
  {
    hide Get, Transform, InverseTransform, ROK;
    forall u: nat ensures Get(t, u).Some? <==> Get(t', u).Some? {
      if Get(t, u).Some? {
        StoredU64(t, 0, u);
        InverseBijection(u);
        assert InverseTransform(u) in MapOf(Some(t)).Keys;
      }
      if Get(t', u).Some? {
        StoredU64(t', 0, u);
        InverseBijection(u);
        assert InverseTransform(u) in MapOf(Some(t')).Keys;
      }
    }
  }

  lemma KeyIs(k: int)
    ensures IsKey(k) <==> INT64_MIN <= k <= INT64_MAX
  {
  }

  lemma GrowthIs()
    ensures MAX_GROWTH == 7 * (2072 - 920) + 144 && RING == 256
  {
  }

  lemma GrowthBelow(d: nat)
    requires 1 <= d <= 8
    ensures (8 - d) * (2072 - 920) + 144 <= MAX_GROWTH
  {
  }

  lemma RootPrefix(t: RTree, key: nat, prefix: nat)
    requires ROK(t, 0) && IsU64(key)
    requires t.depth != 1 ==> prefix <= 7 && Agree(t.key, key, prefix) && t.depth <= prefix + 1
    ensures 1 <= t.depth <= 8 && Agree(t.key, key, t.depth - 1)
  {
    hide *;
    DepthGrows(t, 0);
    if t.depth == 1 {
      AgreeNone(t.key, key);
    } else {
      AgreeDown(t.key, key, prefix, t.depth - 1);
    }
  }

  lemma RoomIs()
    ensures ROOM == (2072 - 920) + MAX_GROWTH
  {
  }

  lemma RingIs()
    ensures RING == 256
  {
  }

  lemma TreeOkNone(t: Option<RTree>, root: nat, m: Arena)
    requires TreeOk(t, root, m) && root == 0 && forall p :: p in m ==> p != 0
    ensures t == None && m == map[] && BytesOf(t) == 0
  {
  }

  lemma TreeOkRoot(t: Option<RTree>, root: nat, m: Arena)
    requires TreeOk(t, root, m) && root != 0
    ensures t.Some?
  {
  }

  lemma MapFirst(t: RTree, k: int, e: Entry)
    requires IsKey(k) && OnlyGet(t, Transform(k), e)
    ensures MapOf(Some(t)) == MapOf(None)[k := e]
  {
    MapPlus(None, Some(t), k, e) by {
      hide Get;
    }
  }

  lemma MapInsert(t: RTree, t': RTree, k: int, e: Entry)
    requires IsKey(k) && InsGet(t, t', Transform(k), e)
    ensures MapOf(Some(t')) == MapOf(Some(t))[k := e]
  {
    hide Get;
    MapPlus(Some(t), Some(t'), k, e);
  }

  lemma MapPlus(t: Option<RTree>, t': Option<RTree>, k: int, e: Entry)
    requires IsKey(k) && forall x: nat :: GetO(t', x) == if x == Transform(k) then Some(e) else GetO(t, x)
    ensures MapOf(t') == MapOf(t)[k := e]
  {
    forall x | IsKey(x) ensures GetO(t', Transform(x)) == if x == k then Some(e) else GetO(t, Transform(x)) {
      hide GetO, Transform;
      TransformBijection(x);
      TransformBijection(k);
    }
    hide GetO, Transform;
  }

  lemma MapSame(t: RTree, t': RTree)
    requires forall x :: Get(t', x) == Get(t, x)
    ensures MapOf(Some(t')) == MapOf(Some(t))
  {
    hide Get, Transform;
  }

  lemma MapNone()
    ensures MapOf(None) == map[]
  {
  }

  lemma MapUpdate(t: RTree, from: int, to: int, e: Entry)
    requires ROK(t, 0) && IsKey(from) && IsKey(to)
    ensures MapOf(Some(Upd(t, Transform(from), Transform(to), e)))
      == map k | k in MapOf(Some(t)) :: if from <= k <= to then e else MapOf(Some(t))[k]
  {
    hide Get, Transform, Upd, ROK;
    var t' := Upd(t, Transform(from), Transform(to), e);
    forall k | IsKey(k)
      ensures Get(t', Transform(k)) == if Get(t, Transform(k)).Some? && from <= k <= to then Some(e) else Get(t, Transform(k))
    {
      UpdGet(t, 0, Transform(from), Transform(to), e, Transform(k));
      TransformOrder(k, from);
      TransformOrder(to, k);
    }
  }

  lemma OneFixedBelow(r: set<nat>, r': set<nat>, s: set<nat>, p: nat, c: nat)
    requires r * s == {p} && r' <= r && p !in r' && c in r'
    ensures c !in s && r' * (s + {c}) == {c}
  {
    assert forall x :: x in r' && x in s ==> x in r * s;
  }

  /** t with the bytes below n re-pointed. */
  ghost function UpdPart(t: RTree, from: nat, to: nat, e: Entry, n: nat): RTree {
    match t
    case RLeaf(_, _, _, key, frames) =>
      t.(frames := map b | b in frames :: if b < n && InWindow(key, b, 8, from, to) then e else frames[b])
    case RNode(_, _, depth, key, kids) =>
      if depth > 8 then t
      else t.(kids := map b | b in kids :: if b < n && InWindow(key, b, depth, from, to) then Upd(kids[b], from, to, e) else kids[b])
  }

  lemma PartNone(t: RTree, from: nat, to: nat, e: Entry)
    ensures UpdPart(t, from, to, e, 0) == t
  {
    hide InWindow, Upd;
    if t.RLeaf? {
      assert UpdPart(t, from, to, e, 0).frames == t.frames;
    } else {
      assert UpdPart(t, from, to, e, 0).kids == t.kids;
    }
  }

  lemma PartAll(t: RTree, d: nat, from: nat, to: nat, e: Entry)
    requires ROK(t, d)
    ensures UpdPart(t, from, to, e, 256) == Upd(t, from, to, e)
  {
    if t.RLeaf? {
      LeafFacts(t, d);
      assert UpdPart(t, from, to, e, 256).frames == Upd(t, from, to, e).frames;
    } else {
      NodeFacts(t, d);
      assert UpdPart(t, from, to, e, 256).kids == Upd(t, from, to, e).kids;
    }
  }

  lemma PartFacts(t: RTree, from: nat, to: nat, e: Entry, n: nat)
    requires t.depth <= 8
    ensures var t' := UpdPart(t, from, to, e, n);
      && t'.id == t.id && t'.key == t.key && t'.depth == t.depth && t'.RLeaf? == t.RLeaf?
      && (t.RLeaf? ==> t'.frames.Keys == t.frames.Keys)
      && (t.RNode? ==> t'.kids.Keys == t.kids.Keys && (n in t.kids ==> t'.kids[n] == t.kids[n]))
  {
  }

  lemma PartNext(t: RTree, from: nat, to: nat, e: Entry, n: nat)
    requires t.depth <= 8 && (t.RLeaf? ==> t.depth == 8)
    ensures var (t0, t1) := (UpdPart(t, from, to, e, n), UpdPart(t, from, to, e, n + 1));
      && (t.RLeaf? ==> t1 == if n in t.frames && InWindow(t.key, n, 8, from, to) then t0.(frames := t0.frames[n := e]) else t0)
      && (t.RNode? ==> t1 == if n in t.kids && InWindow(t.key, n, t.depth, from, to) then WithKid(t0, n, Upd(t.kids[n], from, to, e)) else t0)
  {
    hide InWindow, Upd;
    var t0, t1 := UpdPart(t, from, to, e, n), UpdPart(t, from, to, e, n + 1);
    if t.RLeaf? {
      assert t1.frames == if n in t.frames && InWindow(t.key, n, 8, from, to) then t0.frames[n := e] else t0.frames;
    } else {
      assert t1.kids == if n in t.kids && InWindow(t.key, n, t.depth, from, to) then t0.kids[n := Upd(t.kids[n], from, to, e)] else t0.kids;
    }
  }

  // ----- Lookup -----

  /** The entry a search for u ends at. */
  ghost function Hit(t: RTree, u: nat): Option<Entry> {
    if Landing(t, u).Some? then Get(t, Landing(t, u).value) else None
  }

  ghost function HitO(t: Option<RTree>, key: int): Option<Entry>
    requires IsKey(key)
  {
    if LandsAt(t, key).Some? && LandsAt(t, key).value in MapOf(t) then Some(MapOf(t)[LandsAt(t, key).value]) else None
  }

  /** A cached entry names a frame of the buffer and an id handed out earlier, which is a leaf if it is still live. */
  ghost predicate EntryOk(e: Entry, frames: nat, issued: set<nat>, live: map<nat, Page>) {
    e.frame < frames && e.pageId != 0 && e.pageId in issued && (e.pageId in live ==> LeafPage(live, e.pageId))
  }

  ghost predicate Links(m: map<int, Entry>, frames: nat, issued: set<nat>, live: map<nat, Page>) {
    forall k :: k in m ==> EntryOk(m[k], frames, issued, live)
  }

  ghost predicate LeafPage(live: map<nat, Page>, id: nat) {
    id in live && live[id].Outer? && |live[id].kv.keys| == |live[id].kv.vals|
  }

  /** Page id is a leaf that passes the test of a scan. */
  ghost predicate PagePasses(live: map<nat, Page>, id: nat, key: int, slot: nat -> int) {
    id in live && live[id].Outer? && Passes(live[id].kv.keys, key, slot(id))
  }

  lemma PagePassesIs(live: map<nat, Page>, id: nat, key: int, slot: nat -> int)
    ensures PagePasses(live, id, key, slot) <==> id in live && live[id].Outer? && Passes(live[id].kv.keys, key, slot(id))
  {
  }

  /** The pages after an update of the key on leaf id. */
  ghost function UpdatedIn(live: map<nat, Page>, id: nat, key: int, v: Value): map<nat, Page>
    requires LeafPage(live, id)
  {
    live[id := Outer(OuterUpdate(live[id].kv, key, v), live[id].next)]
  }

  /** The pages after a deletion of the key on leaf id. */
  ghost function DeletedIn(live: map<nat, Page>, id: nat, key: int): map<nat, Page>
    requires LeafPage(live, id)
  {
    live[id := Outer(OuterDelete(live[id].kv, key), live[id].next)]
  }

  lemma HitLeaf(t: RTree, d: nat, u: nat)
    requires t.RLeaf? && ROK(t, d)
    ensures var b := GetKey(u, 8); Hit(t, u) == if b in t.frames then Some(t.frames[b]) else None
  {
    hide *;
    HitIs(t, u);
    GetLeaf(t, u);
    LeafFacts(t, d);
    if GetKey(u, 8) in t.frames {
      ByteOf(t.frames, GetKey(u, 8));
      LeafKey(t.key, GetKey(u, 8));
      GetLeaf(t, GetIntermediateKey(t.key, GetKey(u, 8), 8));
    }
  }

  lemma ByteOf<T>(m: map<nat, T>, b: nat)
    requires Bytes(m) && b in m
    ensures b < 256
  {
  }

  lemma HitIs(t: RTree, u: nat)
    ensures Hit(t, u) == if Landing(t, u).Some? then Get(t, Landing(t, u).value) else None
  {
  }

  lemma HitNode(t: RTree, d: nat, u: nat)
    requires t.RNode? && ROK(t, d) && t.depth <= 8
    ensures var b := GetKey(u, t.depth); Hit(t, u) == if b in t.kids then Hit(t.kids[b], u) else None
  {
    hide *;
    HitIs(t, u);
    GetNode(t, u);
    var b := GetKey(u, t.depth);
    if b in t.kids {
      HitIs(t.kids[b], u);
      if Landing(t, u).Some? {
        LandingByte(t, d, u, Landing(t, u).value);
        GetNode(t, Landing(t, u).value);
      }
    }
  }

  /** The search over the nodes finds the entry of the key it lands at. */
  lemma HitRoot(t: RTree, key: int)
    requires IsKey(key) && ROK(t, 0)
    ensures HitO(Some(t), key) == Hit(t, Transform(key))
  {
    hide *;
    LandsAtStored(Some(t), key);
    HitIs(t, Transform(key));
    HitOIs(Some(t), key);
    if LandsAt(Some(t), key).Some? {
      MapGet(t, LandsAt(Some(t), key).value);
    }
  }

  lemma MapGet(t: RTree, k: int)
    requires k in MapOf(Some(t)) && IsKey(k)
    ensures Get(t, Transform(k)) == Some(MapOf(Some(t))[k])
  {
    hide Get, Transform;
  }

  lemma HitOIs(t: Option<RTree>, key: int)
    requires IsKey(key)
    ensures HitO(t, key) == if LandsAt(t, key).Some? && LandsAt(t, key).value in MapOf(t) then Some(MapOf(t)[LandsAt(t, key).value]) else None
  {
  }

  lemma NoHit(t: Option<RTree>, key: int)
    requires IsKey(key) && HitO(t, key) == None && t.Some? && ROK(t.value, 0)
    ensures LandsAt(t, key) == None && MapOf(t) - {} == MapOf(t)
  {
    hide *;
    LandsAtStored(t, key);
    HitOIs(t, key);
  }

  /** The search for a cached key ends at its own entry. */
  lemma LandsAtOwn(t: Option<RTree>, key: int)
    requires IsKey(key) && key in MapOf(t) && (t.Some? ==> ROK(t.value, 0))
    ensures LandsAt(t, key) == Some(key)
  {
    hide Get, Landing, ROK, Transform, InverseTransform;
    LandingOwn(t.value, 0, Transform(key));
    TransformBijection(key);
  }

  /** The search for any key ends nowhere, or at the entry of a cached key that agrees with it on every byte it branches on. */
  lemma LandsOnPath(t: RTree, key: int)
    requires IsKey(key) && ROK(t, 0) && LandsAt(Some(t), key).Some?
    ensures
      var x := LandsAt(Some(t), key).value;
      IsKey(x) && x in MapOf(Some(t)) && SamePath(t, Transform(key), Transform(x))
  {
    hide *;
    LandsAtStored(Some(t), key);
    LandingStored(t, 0, Transform(key));
  }

  lemma KidSmaller(t: RTree, b: nat)
    requires t.RNode? && b in t.kids
    ensures t.kids[b] < t
  {
  }

  lemma LinksAt(t: Option<RTree>, key: int, frames: nat, issued: set<nat>, live: map<nat, Page>)
    requires IsKey(key) && HitO(t, key).Some? && Links(MapOf(t), frames, issued, live)
    ensures EntryOk(HitO(t, key).value, frames, issued, live) && HitO(t, key).value.frame < frames
  {
    hide MapOf, HitO, LeafPage;
    HitOIs(t, key);
  }

  lemma EntryOkIs(e: Entry, frames: nat, issued: set<nat>, live: map<nat, Page>)
    ensures EntryOk(e, frames, issued, live) <==> e.frame < frames && e.pageId != 0 && e.pageId in issued && (e.pageId in live ==> LeafPage(live, e.pageId))
  {
  }

  /** Pages in use that are not new were in use before, and leaves are still leaves. */
  ghost predicate LeavesStay(live: map<nat, Page>, live': map<nat, Page>, issued: set<nat>) {
    forall id :: id in live' && id in issued ==> id in live && (LeafPage(live, id) ==> LeafPage(live', id))
  }

  lemma LinksGrow(m: map<int, Entry>, m': map<int, Entry>, frames: nat, issued: set<nat>, live: map<nat, Page>, frames': nat, issued': set<nat>, live': map<nat, Page>)
    requires Links(m, frames, issued, live) && frames <= frames' && issued <= issued' && LeavesStay(live, live', issued)
    requires forall k :: k in m' ==> k in m && m'[k] == m[k]
    ensures Links(m', frames', issued', live')
  {
    hide LeafPage;
  }

  lemma NoLinks(frames: nat, issued: set<nat>, live: map<nat, Page>)
    ensures Links(map[], frames, issued, live)
  {
  }

  lemma LinksLess(m: map<int, Entry>, gone: set<int>, frames: nat, issued: set<nat>, live: map<nat, Page>)
    requires Links(m, frames, issued, live)
    ensures Links(m - gone, frames, issued, live)
  {
    hide EntryOk;
  }

  lemma LeavesSame(live: map<nat, Page>, issued: set<nat>)
    ensures LeavesStay(live, live, issued)
  {
  }

  lemma UpdatedLeaves(live: map<nat, Page>, issued: set<nat>, id: nat, key: int, v: Value)
    requires LeafPage(live, id)
    ensures |live[id].kv.keys| == |live[id].kv.vals|
    ensures UpdatedIn(live, id, key, v) == live[id := Outer(OuterUpdate(live[id].kv, key, v), live[id].next)]
    ensures LeavesStay(live, UpdatedIn(live, id, key, v), issued)
  {
  }

  lemma DeletedLeaves(live: map<nat, Page>, issued: set<nat>, id: nat, key: int)
    requires LeafPage(live, id)
    ensures |live[id].kv.keys| == |live[id].kv.vals|
    ensures DeletedIn(live, id, key) == live[id := Outer(OuterDelete(live[id].kv, key), live[id].next)]
    ensures LeavesStay(live, DeletedIn(live, id, key), issued)
  {
  }

  lemma LeafPageIs(live: map<nat, Page>, id: nat)
    requires LeafPage(live, id)
    ensures id in live && live[id].Outer? && |live[id].kv.keys| == |live[id].kv.vals|
  {
  }

  /** t' is t, at the same address with the same header, without the entry a search for k ends at. */
  ghost predicate DeletedAt(t: RTree, t': RTree, k: nat) {
    t'.id == t.id && t'.key == t.key && t'.depth == t.depth && DelGet(t, t', k)
  }

  lemma DeletedIntro(t: RTree, t': RTree, k: nat)
    requires t'.id == t.id && t'.key == t.key && t'.depth == t.depth && DelGet(t, t', k)
    ensures DeletedAt(t, t', k)
  {
  }

  lemma DeletedFacts(t: RTree, t': RTree, k: nat)
    requires DeletedAt(t, t', k)
    ensures t'.id == t.id && t'.key == t.key && t'.depth == t.depth && DelGet(t, t', k)
  {
  }

  lemma FrameBytes(t: RTree, b: nat)
    requires t.RLeaf?
    ensures TreeBytes(WithoutFrame(t, b)) == TreeBytes(t) - (if b in t.frames then FRAME_BYTES else 0)
    ensures b in t.frames ==> FRAME_BYTES <= TreeBytes(t)
    ensures NodeBytes(t.kind) <= TreeBytes(WithoutFrame(t, b))
  {
    if b in t.frames {
      MapSizes(t.frames, b, t.frames[b]);
    } else {
      assert t.frames - {b} == t.frames;
    }
  }

  lemma CountLeaf(t: RTree)
    requires t.RLeaf?
    ensures Size(t) == |t.frames| && (|t.frames| == 0 <==> t.frames == map[]) && NodeBytes(t.kind) <= TreeBytes(t)
  {
  }

  lemma EmptyLeafBytes(t: RTree)
    requires t.RLeaf? && t.frames == map[]
    ensures TreeBytes(t) == NodeBytes(t.kind)
  {
  }

  lemma WithoutKidSame(t: RTree, b: nat)
    requires t.RNode?
    ensures WithoutKid(t, b) == t.(kids := t.kids - {b})
  {
  }

  lemma ShrinkOK(t: RTree, d: nat, id: nat)
    requires ROK(t, d) && !CanRemove(t.kind, Size(t))
    ensures
      var t' := t.(id := id, kind := Smaller(t.kind));
      && ROK(t', d) && (forall x :: Get(t', x) == Get(t, x)) && t'.key == t.key && t'.depth == t.depth
      && TreeBytes(t') == TreeBytes(t) - NodeBytes(t.kind) + NodeBytes(Smaller(t.kind)) <= TreeBytes(t)
  {
    assert Size(t) <= Capacity(Smaller(t.kind));
    RekindOK(t, d, id, Smaller(t.kind));
    BytesRekind(t, id, Smaller(t.kind));
    RekindFacts(t, id, Smaller(t.kind));
  }

  /** Kid b replaced by what is left of it, possibly moved. */
  lemma KeepKidDel(t: RTree, d: nat, b: nat, kid: RTree, kid': RTree, k: nat)
    requires t.RNode? && ROK(t, d) && t.depth <= 8 && b == GetKey(k, t.depth) && b in t.kids
    requires DelGet(t.kids[b], kid, k) && (forall x :: Get(kid', x) == Get(kid, x))
    requires ROK(kid', t.depth) && Under(t.key, t.depth, b, kid'.key)
    ensures ROK(WithKid(t, b, kid'), d) && DeletedAt(t, WithKid(t, b, kid'), k)
  {
    hide *;
    NodeFacts(t, d);
    ByteIn(t, b);
    DelGetVia(t.kids[b], kid, kid', k);
    WithKidOK(t, d, b, kid');
    SetKidDel(t, d, b, kid', k);
    WithKidIs(t, b, kid');
    DeletedIntro(t, WithKid(t, b, kid'), k);
  }

  lemma SameWrite(m: Arena, p: nat, rec: RRec)
    requires p in m && m[p] == rec
    ensures m[p := rec] == m
  {
  }

  lemma Levels(d: nat, d': nat)
    requires d < d' <= 8
    ensures (8 - d') * (2072 - 920) <= (7 - d) * (2072 - 920)
  {
  }

  /** t' is t with k mapped to e, at the same address with the same header key and depth. */
  ghost predicate InsertedAt(t: RTree, t': RTree, k: nat, e: Entry) {
    t'.id == t.id && t'.key == t.key && t'.depth == t.depth && InsGet(t, t', k, e)
  }

  lemma InsertedFacts(t: RTree, t': RTree, k: nat, e: Entry)
    requires InsertedAt(t, t', k, e)
    ensures t'.id == t.id && t'.key == t.key && t'.depth == t.depth && InsGet(t, t', k, e)
  {
  }

  lemma GrownFacts(t: RTree, t': RTree, b: nat)
    requires Grown(t, t', b)
    ensures t.RNode? && t'.RNode? && t'.id == t.id && t'.kind == t.kind && t'.key == t.key && t'.depth == t.depth
    ensures b in t.kids && b in t'.kids && CanInsert(t'.kids[b].kind, Size(t'.kids[b]))
    ensures t'.kids[b].key == t.kids[b].key && t'.kids[b].depth == t.kids[b].depth
  {
  }

  lemma InsertedVia(t: RTree, t1: RTree, t': RTree, k: nat, e: Entry, b: nat)
    requires Grown(t, t1, b) && InsertedAt(t1, t', k, e)
    ensures InsertedAt(t, t', k, e)
  {
  }

  lemma KidNotRoot(t: RTree, b: nat)
    requires t.RNode? && b in t.kids && RDisj(t)
    ensures t.kids[b].id !in {t.id}
  {
    DisjAt(t, b);
    OwnId(t.kids[b]);
  }

  lemma InsertLeafOK(t: RTree, d: nat, k: nat, e: Entry)
    requires t.RLeaf? && ROK(t, d) && IsU64(k) && 1 <= t.depth <= 8 && Agree(t.key, k, t.depth - 1) && CanInsert(t.kind, Size(t))
    ensures
      var b := GetKey(k, 8);
      var t' := t.(frames := t.frames[b := e]);
      && ROK(t', d) && InsertedAt(t, t', k, e) && t.depth == 8
      && TreeBytes(t') == TreeBytes(t) + (if b in t.frames then 0 else FRAME_BYTES)
  {
    LeafFacts(t, d);
    var b := GetKey(k, 8);
    ByteRoom(t.frames, t.kind, b);
    SetFrameOK(t, d, k, e);
    MapSizes(t.frames, b, e);
  }

  /** A full node of the largest kind already has every byte. */
  lemma ByteRoom<T>(m: map<nat, T>, kind: Kind, b: nat)
    requires Bytes(m) && b < 256 && CanInsert(kind, |m|) && |m| <= Capacity(kind)
    ensures b in m || |m| < Capacity(kind)
  {
    if b !in m {
      FewerThan(256);
      assert m.Keys <= UpTo(256) - {b};
      SubsetSize(m.Keys, UpTo(256) - {b});
      assert |m| == |m.Keys|;
    }
  }

  lemma AddLeafOK(t: RTree, d: nat, k: nat, e: Entry, leaf: nat)
    requires t.RNode? && ROK(t, d) && IsU64(k) && 1 <= t.depth <= 8 && Agree(t.key, k, t.depth - 1) && CanInsert(t.kind, Size(t))
    requires GetKey(k, t.depth) !in t.kids
    ensures
      var t' := WithKid(t, GetKey(k, t.depth), NewLeaf(leaf, k, e));
      && ROK(t', d) && InsertedAt(t, t', k, e) && TreeBytes(t') == TreeBytes(t) + NodeBytes(K4) + FRAME_BYTES
      && t.depth < 8
  {
    hide *;
    var b, l := GetKey(k, t.depth), NewLeaf(leaf, k, e);
    var t' := WithKid(t, b, l);
    NodeFacts(t, d);
    SizeNode(t);
    ByteRoom(t.kids, t.kind, b);
    NewLeafOK(leaf, t.depth, k, e);
    NewLeafIs(leaf, k, e);
    NewLeafOnly(leaf, k, e);
    UnderIntro(t.key, t.depth, k);
    WithKidOK(t, d, b, l);
    AddKidGet(t, b, l, k, e);
    WithKidIs(t, b, l);
    InsertedIntro(t, t', k, e);
    BytesWithKid(t, b, l);
    BytesAtIs(t, b);
    NewLeafBytes(leaf, k, e);
  }

  lemma SizeNode(t: RTree)
    requires t.RNode?
    ensures Size(t) == |t.kids|
  {
  }

  lemma NewLeafBytes(id: nat, k: nat, e: Entry)
    ensures TreeBytes(NewLeaf(id, k, e)) == NodeBytes(K4) + FRAME_BYTES
  {
  }

  lemma NewLeafOnly(id: nat, k: nat, e: Entry)
    ensures OnlyGet(NewLeaf(id, k, e), k, e)
  {
    NewLeafGet(id, k, e);
  }

  lemma InsertedIntro(t: RTree, t': RTree, k: nat, e: Entry)
    requires t'.id == t.id && t'.key == t.key && t'.depth == t.depth && InsGet(t, t', k, e)
    ensures InsertedAt(t, t', k, e)
  {
  }

  lemma ForkKidOK(t: RTree, d: nat, b: nat, p: nat, k: nat, e: Entry, id: nat, leafId: nat)
    requires ROK(t, d) && IsU64(k) && t.RNode? && 1 <= t.depth < 8 && Agree(t.key, k, t.depth - 1)
    requires b == GetKey(k, t.depth) && b in t.kids && p + 1 < t.kids[b].depth <= 8 && Agree(t.kids[b].key, k, p)
    requires GetKey(t.kids[b].key, p + 1) != GetKey(k, p + 1)
    ensures
      var t' := WithKid(t, b, Fork(id, p, k, NewLeaf(leafId, k, e), t.kids[b]));
      ROK(t', d) && InsertedAt(t, t', k, e) && TreeBytes(t') == TreeBytes(t) + 144
  {
    hide *;
    var c := t.kids[b];
    var f := Fork(id, p, k, NewLeaf(leafId, k, e), c);
    var t' := WithKid(t, b, f);
    NodeFacts(t, d);
    ByteIn(t, b);
    KidPrefix(t.key, t.depth, b, c.key, k);
    LongestPrefix(c.key, k, p, t.depth);
    ForkOK(id, p, k, e, leafId, c, t.depth);
    ForkIs(id, p, k, NewLeaf(leafId, k, e), c);
    WithKidOK(t, d, b, f);
    ForkGet(id, p, k, e, leafId, c, t.depth);
    SetKidGet(t, b, f, k, e);
    WithKidIs(t, b, f);
    InsertedIntro(t, t', k, e);
    BytesFork(id, p, k, e, leafId, c);
    BytesWithKid(t, b, f);
    BytesAtIs(t, b);
    SmallBytes();
  }

  lemma SmallBytes()
    ensures NodeBytes(K4) == 64 && FRAME_BYTES == 16
  {
  }

  lemma DescendOK(t: RTree, d: nat, b: nat, kid: RTree, k: nat, e: Entry)
    requires ROK(t, d) && t.RNode? && 1 <= t.depth < 8 && b == GetKey(k, t.depth) && b in t.kids
    requires ROK(kid, t.depth) && InsertedAt(t.kids[b], kid, k, e)
    ensures ROK(WithKid(t, b, kid), d) && InsertedAt(t, WithKid(t, b, kid), k, e)
  {
    hide *;
    NodeFacts(t, d);
    ByteIn(t, b);
    InsertedFacts(t.kids[b], kid, k, e);
    WithKidOK(t, d, b, kid);
    SetKidGet(t, b, kid, k, e);
    WithKidIs(t, b, kid);
    InsertedIntro(t, WithKid(t, b, kid), k, e);
  }

  lemma RecSize(t: RTree)
    ensures NodeCount(RecOf(t)) == Size(t)
  {
    RecKind(t);
    if t.RNode? {
      assert |RecOf(t).ptrs| == |RecOf(t).ptrs.Keys| && |t.kids| == |t.kids.Keys|;
    }
  }

  /** t' is t with a kid at byte b that has room; nothing else is different. */
  ghost predicate Grown(t: RTree, t': RTree, b: nat) {
    && t.RNode? && t'.RNode? && t'.id == t.id && t'.kind == t.kind && t'.key == t.key && t'.depth == t.depth
    && |t'.kids| == |t.kids| && b in t.kids && b in t'.kids
    && CanInsert(t'.kids[b].kind, Size(t'.kids[b]))
    && t'.kids[b].key == t.kids[b].key && t'.kids[b].depth == t.kids[b].depth
    && forall x :: Get(t', x) == Get(t, x)
  }

  lemma GrownSame(t: RTree, b: nat)
    requires t.RNode? && b in t.kids && CanInsert(t.kids[b].kind, Size(t.kids[b]))
    ensures Grown(t, t, b)
  {
  }

  lemma KidBytesLe(t: RTree, d: nat, b: nat)
    requires t.RNode? && ROK(t, d) && b in t.kids
    ensures NodeBytes(t.kids[b].kind) <= TreeBytes(t.kids[b]) <= TreeBytes(t)
  {
    NodeFacts(t, d);
    ByteIn(t, b);
    hide ROK;
    SumAtLeast(t, b, 256);
  }

  lemma ByteIn(t: RTree, b: nat)
    requires t.RNode? && b in t.kids && Bytes(t.kids)
    ensures b < 256
  {
  }

  lemma {:induction false} SumAtLeast(t: RTree, b: nat, n: nat)
    requires t.RNode? && b in t.kids && b < n
    ensures TreeBytes(t.kids[b]) <= KidBytes(t, n)
    decreases n
  {
    if b < n - 1 {
      SumAtLeast(t, b, n - 1);
    }
  }

  lemma GrowOK(t: RTree, d: nat, b: nat, id: nat)
    requires t.RNode? && ROK(t, d) && b in t.kids && !CanInsert(t.kids[b].kind, Size(t.kids[b]))
    ensures
      var kid := t.kids[b].(id := id, kind := Larger(t.kids[b].kind));
      && ROK(WithKid(t, b, kid), d) && Grown(t, WithKid(t, b, kid), b) && WithKid(t, b, kid).kids[b].id == id
      && TreeBytes(WithKid(t, b, kid)) == TreeBytes(t) - NodeBytes(t.kids[b].kind) + NodeBytes(Larger(t.kids[b].kind))
      && NodeBytes(Larger(t.kids[b].kind)) - NodeBytes(t.kids[b].kind) <= 2072 - 920
  {
    hide *;
    var k0 := t.kids[b];
    var kid := k0.(id := id, kind := Larger(k0.kind));
    NodeFacts(t, d);
    ByteIn(t, b);
    LargerFits(k0, t.depth);
    RekindOK(k0, t.depth, id, Larger(k0.kind));
    RekindFacts(k0, id, Larger(k0.kind));
    WithKidOK(t, d, b, kid);
    WithKidIs(t, b, kid);
    MapSizes(t.kids, b, kid);
    SameGet(t, d, b, kid);
    GrownIntro(t, WithKid(t, b, kid), b);
    BytesRekind(k0, id, Larger(k0.kind));
    BytesWithKid(t, b, kid);
    BytesAtIs(t, b);
  }

  lemma RekindFacts(t: RTree, id: nat, kind: Kind)
    ensures var t' := t.(id := id, kind := kind);
      t'.id == id && t'.kind == kind && t'.key == t.key && t'.depth == t.depth && Size(t') == Size(t)
  {
  }

  lemma BytesAtIs(t: RTree, b: nat)
    requires t.RNode?
    ensures BytesAt(t, b) == if b in t.kids then TreeBytes(t.kids[b]) else 0
  {
  }

  lemma LargerFits(t: RTree, d: nat)
    requires ROK(t, d) && !CanInsert(t.kind, Size(t))
    ensures Size(t) <= Capacity(Larger(t.kind)) && CanInsert(Larger(t.kind), Size(t))
    ensures NodeBytes(Larger(t.kind)) - NodeBytes(t.kind) <= 2072 - 920
  {
  }

  lemma SameGet(t: RTree, d: nat, b: nat, kid: RTree)
    requires t.RNode? && ROK(t, d) && b in t.kids && forall x :: Get(kid, x) == Get(t.kids[b], x)
    ensures forall x :: Get(WithKid(t, b, kid), x) == Get(t, x)
  {
    DepthGrows(t, d);
    forall x ensures Get(WithKid(t, b, kid), x) == Get(t, x) {
      hide *;
      WithKidIs(t, b, kid);
      GetSetKid(t, b, kid, x);
      GetNode(t, x);
    }
  }

  lemma GrownIntro(t: RTree, t': RTree, b: nat)
    requires t.RNode? && t'.RNode? && t'.id == t.id && t'.kind == t.kind && t'.key == t.key && t'.depth == t.depth
    requires |t'.kids| == |t.kids| && b in t.kids && b in t'.kids
    requires CanInsert(t'.kids[b].kind, Size(t'.kids[b]))
    requires t'.kids[b].key == t.kids[b].key && t'.kids[b].depth == t.kids[b].depth
    requires forall x :: Get(t', x) == Get(t, x)
    ensures Grown(t, t', b)
  {
  }

  lemma NewLeafRec(id: nat, key: nat, e: Entry)
    ensures RecOf(NewLeaf(id, key, e)) == RRec(K4, true, 8, key, map[][GetKey(key, 8) := e], map[])
  {
  }

  lemma AddLeafStep(m: Arena, m': Arena, q: nat, t: RTree, key: nat, e: Entry)
    requires t.RNode? && t.depth <= 8 && RRep(m, t) && RDisj(t) && BelowTop(m, q) && GetKey(key, t.depth) !in t.kids
    requires t.id in m && m[t.id] == RecOf(t)
    requires m' == m[q := RecOf(NewLeaf(q, key, e))][t.id := RecOf(t).(ptrs := RecOf(t).ptrs[GetKey(key, t.depth) := q])]
    ensures Stepped(m, m', q, t, WithKid(t, GetKey(key, t.depth), NewLeaf(q, key, e)))
  {
    hide *;
    var b, leaf := GetKey(key, t.depth), NewLeaf(q, key, e);
    NewLeafIs(q, key, e);
    RecWithKid(t, b, leaf);
    KidIdsIs(t, b);
    BelowTopAt(m, q);
    LeafStored(m', leaf);
    AgreesTwo(m, m', q, t.id);
    StepWithKid(m, m', q, t, b, leaf);
  }

  lemma LeafStored(m: Arena, t: RTree)
    requires t.RLeaf?
    ensures t.id in m && m[t.id] == RecOf(t) ==> RRep(m, t)
    ensures RDisj(t) && RIds(t) == {t.id}
  {
  }

  lemma AgreesTwo(m: Arena, m': Arena, p: nat, q: nat)
    requires p !in m && forall x :: x in m && x != q ==> x in m' && m'[x] == m[x]
    ensures RAgrees(m, m', m.Keys - {} - {q})
  {
  }

  lemma ForkStep(m: Arena, m': Arena, n: nat, leaf: nat, p: nat, key: nat, e: Entry, c: RTree)
    requires p < 7 && RRep(m, c) && RDisj(c) && BelowTop(m, n) && leaf == n + 1 && n > 0
    requires GetKey(c.key, p + 1) != GetKey(key, p + 1)
    requires m'.Keys == m.Keys + {n, leaf} && forall x :: x in m ==> x in m' && m'[x] == m[x]
    requires m'[n] == RRec(K4, false, p + 1, key, map[], map[GetKey(c.key, p + 1) := c.id][GetKey(key, p + 1) := leaf])
    requires m'[leaf] == RecOf(NewLeaf(leaf, key, e))
    ensures Stepped(m, m', n, c, Fork(n, p, key, NewLeaf(leaf, key, e), c))
    ensures Fork(n, p, key, NewLeaf(leaf, key, e), c).id == n
  {
    hide *;
    var l := NewLeaf(leaf, key, e);
    var t := Fork(n, p, key, l, c);
    var b, d := GetKey(key, p + 1), GetKey(c.key, p + 1);
    NewLeafIs(leaf, key, e);
    ForkIs(n, p, key, l, c);
    BelowTopAt(m, n);
    RepIn(m, c);
    LeafStored(m', l);
    assert RAgrees(m, m', RIds(c)) && RAgrees(m, m', m.Keys - RIds(c)) by {
      AgreesAll(m, m', RIds(c));
      AgreesAll(m, m', m.Keys - RIds(c));
    }
    RFrame(m, m', c);
    ForkRec(n, p, key, l, c);
    StoreNode(m', t, b, d);
    SteppedIntro(m, m', n, c, t);
  }

  lemma AgreesAll(m: Arena, m': Arena, s: set<nat>)
    requires forall x :: x in m ==> x in m' && m'[x] == m[x]
    ensures RAgrees(m, m', s)
  {
  }

  lemma ForkRec(n: nat, p: nat, key: nat, l: RTree, c: RTree)
    requires p < 7 && GetKey(c.key, p + 1) != GetKey(key, p + 1)
    ensures RecOf(Fork(n, p, key, l, c))
      == RRec(K4, false, p + 1, key, map[], map[GetKey(c.key, p + 1) := c.id][GetKey(key, p + 1) := l.id])
    ensures Fork(n, p, key, l, c).kids.Keys == {GetKey(key, p + 1), GetKey(c.key, p + 1)}
  {
  }

  lemma RecKind(t: RTree)
    ensures RecOf(t).kind == t.kind && RecOf(t).leaf == t.RLeaf? && RecOf(t).depth == t.depth && RecOf(t).key == t.key
    ensures t.RLeaf? ==> RecOf(t).frames == t.frames
    ensures t.RNode? ==> RecOf(t).ptrs.Keys == t.kids.Keys && forall b :: b in t.kids ==> RecOf(t).ptrs[b] == t.kids[b].id
  {
  }
}
