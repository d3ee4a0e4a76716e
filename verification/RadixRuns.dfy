/**
 * Runs of the radix tree over the neighbouring keys 0, 1, 2, ...: what the
 * cache weighs while its one leaf grows and shrinks again through the four kinds
 * of nodes, and which entry goes when the budget is used up.
 */
module RadixRuns {
  import opened Common
  import opened RadixKeys
  import opened RadixModel
  import opened RadixSpec
  import opened RadixRing
  import opened Radix
  import opened Buffer

  /** The kind of a leaf of m entries. */
  function KindFor(m: nat): Kind {
    if m <= 4 then K4 else if m <= 16 then K16 else if m <= 48 then K48 else K256
  }

  /** The bytes of a leaf of m entries. */
  function Cost(m: nat): nat {
    if m == 0 then 0
    else if m <= 4 then 64 + 16 * m
    else if m <= 16 then 168 + 16 * m
    else if m <= 48 then 920 + 16 * m
    else 2072 + 16 * m
  }

  ghost function Frames(m: nat, e: Entry): map<nat, Entry> {
    map b | b in UpTo(m) :: e
  }

  /** The tree that holds the keys below m. */
  ghost function Neighbours(m: nat, e: Entry): Option<RTree> {
    if m == 0 then None else Some(RLeaf(0, KindFor(m), 8, Transform(0), Frames(m, e)))
  }

  lemma FramesAre(m: nat, e: Entry)
    ensures |Frames(m, e)| == m && Frames(m, e)[m := e] == Frames(m + 1, e) && Frames(m + 1, e) - {m} == Frames(m, e)
    ensures Frames(m, e) == map[] <==> m == 0
  {
    FewerThan(m);
    assert Frames(m, e).Keys == UpTo(m);
    assert |Frames(m, e)| == |Frames(m, e).Keys|;
    assert Frames(m, e)[m := e] == Frames(m + 1, e);
    assert Frames(m + 1, e) - {m} == Frames(m, e);
  }

  /** A key below 256 differs from 0 in its last byte only. */
  lemma LastByte(m: nat)
    requires m < 256
    ensures IsKey(m) && IsU64(Transform(m)) && GetKey(Transform(m), 8) == m && Agree(Transform(0), Transform(m), 7)
  {
    TransformBijection(m);
    TransformBijection(0);
    assert Shr(Transform(m), 1) == Shr(Transform(m), 0) / 256;
    assert Shr(Transform(0), 1) == Shr(Transform(0), 0) / 256;
    assert TWO63 == 256 * 0x80_0000_0000_0000;
  }

  lemma SmallKey(m: nat)
    requires m < 256
    ensures IsKey(m) && INT64_MIN <= m <= INT64_MAX
  {
  }

  lemma OneMore(m: nat, e: Entry)
    requires m < 256
    ensures IsKey(m) && InsertedO(Neighbours(m, e), Transform(m), e) == Neighbours(m + 1, e)
  {
    hide GetKey, Agree, Transform, Inserted, Enlarged, Frames;
    LastByte(m);
    FramesAre(m, e);
    if m == 0 {
      assert map[][0 := e] == Frames(1, e);
    } else {
      var t := Neighbours(m, e).value;
      EntersLeaf(t, Transform(m), e);
      EnlargedIs(t);
    }
  }

  lemma EntersLeaf(t: RTree, k: nat, e: Entry)
    requires t.RLeaf? && t.depth == 8 && Agree(t.key, k, 7)
    ensures Enlarged(t).RLeaf? && Inserted(t, k, e) == Enlarged(t).(frames := t.frames[GetKey(k, 8) := e])
  {
    hide GetKey, Agree, Prefix, CanInsert, Larger;
    PrefixAtLeast(t.key, k, 7);
  }

  lemma OneLess(m: nat, e: Entry)
    requires m < 256
    ensures IsKey(m) && DeletedO(Neighbours(m + 1, e), Transform(m)) == Neighbours(m, e)
  {
    hide GetKey, Agree, Transform;
    LastByte(m);
    FramesAre(m, e);
    FramesAre(m + 1, e);
  }

  /** A tree that looks like Neighbours weighs Cost, and is full at 4, 16 and 48 entries. */
  lemma Weighs(t: Option<RTree>, m: nat, e: Entry)
    requires PlainO(t) == Neighbours(m, e)
    ensures BytesOf(t) == Cost(m) && (t.Some? <==> m > 0)
    ensures t.Some? ==> (!CanInsert(t.value.kind, Size(t.value)) <==> m in {4, 16, 48})
    ensures t.Some? && m in {4, 16, 48} ==> NodeBytes(Larger(t.value.kind)) - NodeBytes(t.value.kind) == if m == 4 then 104 else if m == 16 then 752 else 1152
  {
    FramesAre(m, e);
    if t.Some? {
      PlainIs(t.value);
    }
  }

  /** The tree r holds the keys below m and weighs what they cost. */
  ghost predicate Holds(r: RadixTree, m: nat, e: Entry)
    reads r
  {
    r.Valid() && PlainO(r.tree) == Neighbours(m, e)
  }

  lemma HoldsFacts(r: RadixTree, m: nat, e: Entry)
    requires Holds(r, m, e)
    ensures r.Valid() && PlainO(r.tree) == Neighbours(m, e) && r.currentSize == Cost(m)
    ensures r.RootFull() <==> m in {4, 16, 48}
    ensures r.Accepts() <==> r.currentSize < r.radixTreeSize && (m in {4, 16, 48} ==> r.currentSize + (if m == 4 then 104 else if m == 16 then 752 else 1152) < r.radixTreeSize)
  {
    hide *;
    HoldsIs(r, m, e);
    Weighs(r.tree, m, e);
    r.ValidFacts();
    r.AcceptsPlain();
  }

  lemma HoldsIs(r: RadixTree, m: nat, e: Entry)
    ensures Holds(r, m, e) <==> r.Valid() && PlainO(r.tree) == Neighbours(m, e)
  {
  }

  lemma NothingHeld(e: Entry)
    ensures PlainO(None) == Neighbours(0, e)
  {
  }

  lemma CostIs(m: nat)
    ensures Cost(m) <= 2072 + 16 * m && Cost(4) == 128 && Cost(5) == 248 && Cost(16) == 424 && Cost(17) == 1192
    ensures Cost(48) == 1688 && Cost(49) == 2856 && Cost(256) == 6168 && Cost(0) == 0 && (m <= 48 ==> Cost(m) <= 1688)
  {
  }

  /** Insert the keys below count, then delete the largest ones until left remain. */
  method FillThenEmpty(count: nat, left: nat, b: BufferManager, e: Entry) returns (r: RadixTree)
    requires left <= count <= 256
    ensures fresh(r) && r.Valid() && r.currentSize == Cost(left)
    ensures PlainO(r.tree) == Neighbours(left, e)
    ensures left == 49 ==> r.currentSize == 2856
    ensures left == 4 ==> r.currentSize == 128
  {
    hide *;
    r := new RadixTree(10000, b, 4);
    NothingHeld(e);
    HoldsIs(r, 0, e);
    for m := 0 to count
      invariant fresh(r) && fresh(r.buffer) && r.radixTreeSize == 10000 && Holds(r, m, e)
    {
      HoldsFacts(r, m, e);
      CostIs(m);
      SmallKey(m);
      OneMore(m, e);
      var _ := r.Insert(m, e);
      HoldsIs(r, m + 1, e);
    }
    for m := count downto left
      invariant fresh(r) && fresh(r.buffer) && r.radixTreeSize == 10000 && Holds(r, m, e)
    {
      SmallKey(m);
      OneLess(m, e);
      HoldsFacts(r, m + 1, e);
      r.DeleteReference(m);
      HoldsIs(r, m, e);
    }
    HoldsFacts(r, left, e);
    CostIs(left);
  }

  /** What the ring holds before the budget is used up: the key 0 first. */
  ghost predicate ZeroFirst(q: seq<Key>, m: nat) {
    m > 0 ==> q != [] && q[0] == 0 && |q| <= 2 * m
  }

  lemma StaysFirst(q: seq<Key>, m: nat)
    requires ZeroFirst(q, m) && m < 64 && (m == 0 ==> q == [])
    ensures ZeroFirst([], 0) && IsKey(m) && ZeroFirst(Remember<Key>(q, m), m + 1) && ZeroFirst(Remember<Key>(Remember<Key>(q, m), m), m + 1)
  {
  }

  /**
   * With a budget of 2000 bytes the keys 0 to 47 weigh 1688. For 48 the leaf grows
   * to 2840 first, so the insertion is refused and 0 is evicted: 47 keys stay.
   */
  method UsedUp(b: BufferManager, e: Entry) returns (r: RadixTree)
    ensures fresh(r) && r.Valid() && r.refused && r.currentSize == 1672
    ensures r.Contents().Keys == UpTo(48) - {0}
  {
    hide *;
    SmallKey(0);
    SmallKey(48);
    StaysFirst([], 0);
    r := new RadixTree(2000, b, 4);
    NothingHeld(e);
    HoldsIs(r, 0, e);
    FewerThan(0);
    for m := 0 to 48
      invariant fresh(r) && fresh(r.buffer) && r.radixTreeSize == 2000 && Holds(r, m, e)
      invariant ZeroFirst(r.Remembered(), m) && (m == 0 ==> r.Remembered() == [])
      invariant r.Contents().Keys == UpTo(m)
    {
      HoldsFacts(r, m, e);
      CostIs(m);
      SmallKey(m);
      OneMore(m, e);
      r.QueuedIs(m);
      StaysFirst(r.Remembered(), m);
      FewerThan(m);
      FewerThan(m + 1);
      var _ := r.Insert(m, e);
      HoldsIs(r, m + 1, e);
    }
    HoldsFacts(r, 48, e);
    CostIs(48);
    ghost var t, q := r.tree, r.Queued(48);
    r.QueuedIs(48);
    StaysFirst(r.Remembered(), 48);
    r.ContentsIs();
    r.ValidFacts();
    FewerThan(48);
    LandsAtOwn(t, 0);
    var _ := r.Insert(48, e);
    EvictedFirst(t, q, r.Contents(), r.Remembered());
    FirstGone(r.tree, q, e);
    r.ValidFacts();
  }

  lemma EvictedFirst(t: Option<RTree>, q: seq<Key>, m': map<int, Entry>, q': seq<Key>)
    requires Evicted(t, q, m', q') && q != [] && q[0] == 0 && LandsAt(t, 0) == Some(0) && MapOf(t).Keys == UpTo(48)
    ensures m'.Keys == UpTo(48) - {0}
  {
    hide MapOf, LandsAt;
  }

  lemma RestIs(e: Entry)
    ensures |Frames(48, e) - {0}| == 47 && |Frames(48, e)| == 48
  {
    FramesAre(48, e);
    FewerThan(48);
    var rest := Frames(48, e) - {0};
    assert rest.Keys == UpTo(48) - {0};
    assert |rest| == |rest.Keys|;
  }

  /** Without 0, the leaf that has grown to the largest kind shrinks again. */
  lemma Shrinks(e: Entry)
    ensures IsKey(0) && DeletedO(EnlargedO(Neighbours(48, e)), Transform(0)) == Some(RLeaf(0, K48, 8, Transform(0), Frames(48, e) - {0}))
  {
    hide GetKey, Agree, Transform, Frames;
    LastByte(0);
    RestIs(e);
    EnlargedIs(Neighbours(48, e).value);
  }

  lemma FirstGone(t: Option<RTree>, q: seq<Key>, e: Entry)
    requires q != [] && q[0] == 0 && PlainO(t) == Dropped(EnlargedO(Neighbours(48, e)), q)
    ensures BytesOf(t) == 1672
  {
    hide Neighbours, EnlargedO, DeletedO, Transform, Frames;
    Shrinks(e);
    RestIs(e);
    if t.Some? {
      PlainIs(t.value);
    }
  }
}
