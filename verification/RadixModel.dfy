/**
 * The adaptive radix tree as a value: path-compressed nodes of four kinds over
 * leaves that hold cache entries. Get is the map a tree stands for, Landing is
 * the key whose entry a search ends at, which skips the compressed bytes.
 */
module RadixModel {
  import opened Common
  import opened RadixKeys

  datatype Kind = K4 | K16 | K48 | K256

  function Capacity(k: Kind): nat {
    match k case K4 => 4 case K16 => 16 case K48 => 48 case K256 => 256
  }

  /** Bytes charged for a node, and for a cache entry. */
  function NodeBytes(k: Kind): nat {
    match k case K4 => 64 case K16 => 168 case K48 => 920 case K256 => 2072
  }

  const FRAME_BYTES: nat := 16

  function Larger(k: Kind): Kind {
    match k case K4 => K16 case K16 => K48 case K48 => K256 case K256 => K256
  }

  function Smaller(k: Kind): Kind {
    match k case K4 => K4 case K16 => K4 case K48 => K16 case K256 => K48
  }

  predicate CanInsert(k: Kind, size: nat) {
    k == K256 || size < Capacity(k)
  }

  predicate CanRemove(k: Kind, size: nat) {
    match k case K4 => size > 0 case K16 => size > 4 case K48 => size > 16 case K256 => size > 48
  }

  datatype RTree =
    | RLeaf(id: nat, kind: Kind, depth: nat, key: nat, frames: map<nat, Entry>)
    | RNode(id: nat, kind: Kind, depth: nat, key: nat, kids: map<nat, RTree>)

  function Size(t: RTree): nat {
    if t.RLeaf? then |t.frames| else |t.kids|
  }

  /** Every key of m is a byte. */
  ghost predicate Bytes<T>(m: map<nat, T>) {
    forall b :: b in m ==> b < 256
  }

  /**
   * The invariant below a node of depth d: strictly growing depths, leaves at
   * depth 8, no node over capacity, no inner node with fewer than two kids, and
   * a header key that shares its first depth - 1 bytes with everything beneath.
   */
  ghost predicate ROK(t: RTree, d: nat)
    decreases t, 1
  {
    && Size(t) <= Capacity(t.kind) && IsU64(t.key)
    && match t
       case RLeaf(_, _, depth, _, frames) => d < 8 && depth == 8 && Bytes(frames) && 1 <= |frames|
       case RNode(_, _, depth, _, kids) => d < depth < 8 && Bytes(kids) && 2 <= |kids| && forall b :: b in kids ==> KidOK(t, b)
  }

  ghost predicate KidOK(t: RTree, b: nat)
    requires t.RNode? && t.depth < 8 && b in t.kids
    decreases t, 0
  {
    ROK(t.kids[b], t.depth) && Under(t.key, t.depth, b, t.kids[b].key)
  }

  /** key has the prefix of a node with this header key and depth, and byte b next. */
  predicate Under(header: nat, depth: nat, b: nat, key: nat) {
    1 <= depth <= 8 && Agree(header, key, depth - 1) && GetKey(key, depth) == b
  }

  // ----- The map of a tree -----

  ghost function Get(t: RTree, k: nat): Option<Entry>
    decreases t
  {
    match t
    case RLeaf(_, _, _, key, frames) =>
      var b := GetKey(k, 8);
      if Agree(key, k, 7) && b in frames then Some(frames[b]) else None
    case RNode(_, _, depth, _, kids) =>
      if depth > 8 then None
      else
        var b := GetKey(k, depth);
        if b in kids then Get(kids[b], k) else None
  }

  /** The key whose entry a search for k ends at, comparing only the branching bytes. */
  ghost function Landing(t: RTree, k: nat): Option<nat>
    decreases t
  {
    match t
    case RLeaf(_, _, _, key, frames) =>
      var b := GetKey(k, 8);
      if b in frames then Some(GetIntermediateKey(key, b, 8)) else None
    case RNode(_, _, depth, _, kids) =>
      if depth > 8 then None
      else
        var b := GetKey(k, depth);
        if b in kids then Landing(kids[b], k) else None
  }

  /** k and x agree on every byte a search for k branches on. */
  ghost predicate SamePath(t: RTree, k: nat, x: nat)
    decreases t
  {
    match t
    case RLeaf(_, _, _, _, _) => GetKey(k, 8) == GetKey(x, 8)
    case RNode(_, _, depth, _, kids) =>
      depth <= 8 && GetKey(k, depth) == GetKey(x, depth)
      && (GetKey(k, depth) in kids ==> SamePath(kids[GetKey(k, depth)], k, x))
  }

  // ----- One level of a tree -----

  lemma LeafFacts(t: RTree, d: nat)
    requires t.RLeaf? && ROK(t, d)
    ensures t.depth == 8 && Bytes(t.frames) && 1 <= |t.frames| <= Capacity(t.kind) && IsU64(t.key) && d < 8
  {
  }

  lemma NodeFacts(t: RTree, d: nat)
    requires t.RNode? && ROK(t, d)
    ensures d < t.depth < 8 && Bytes(t.kids) && 2 <= |t.kids| <= Capacity(t.kind) && IsU64(t.key)
    ensures forall b :: b in t.kids ==> ROK(t.kids[b], t.depth) && Under(t.key, t.depth, b, t.kids[b].key)
  {
    forall b | b in t.kids ensures ROK(t.kids[b], t.depth) && Under(t.key, t.depth, b, t.kids[b].key) {
      assert KidOK(t, b);
    }
  }

  lemma NodeIntro(t: RTree, d: nat)
    requires t.RNode? && d < t.depth < 8 && Bytes(t.kids) && 2 <= |t.kids| <= Capacity(t.kind) && IsU64(t.key)
    requires forall b :: b in t.kids ==> ROK(t.kids[b], t.depth) && Under(t.key, t.depth, b, t.kids[b].key)
    ensures ROK(t, d)
  {
    forall b | b in t.kids ensures KidOK(t, b) {
    }
  }

  lemma GetNode(t: RTree, k: nat)
    requires t.RNode? && t.depth <= 8
    ensures var b := GetKey(k, t.depth); Get(t, k) == if b in t.kids then Get(t.kids[b], k) else None
    ensures var b := GetKey(k, t.depth); Landing(t, k) == if b in t.kids then Landing(t.kids[b], k) else None
  {
  }

  lemma GetLeaf(t: RTree, k: nat)
    requires t.RLeaf?
    ensures var b := GetKey(k, 8); Get(t, k) == if Agree(t.key, k, 7) && b in t.frames then Some(t.frames[b]) else None
    ensures var b := GetKey(k, 8); Landing(t, k) == if b in t.frames then Some(GetIntermediateKey(t.key, b, 8)) else None
  {
  }

  // ----- Search -----

  /** Everything stored beneath t shares the first depth - 1 bytes of its header key. */
  lemma {:induction false} GetPrefix(t: RTree, d: nat, k: nat)
    requires ROK(t, d) && Get(t, k).Some?
    ensures 1 <= t.depth <= 8 && Agree(t.key, k, t.depth - 1)
    decreases t
  {
    hide *;
    if t.RLeaf? {
      LeafFacts(t, d);
      GetLeaf(t, k);
    } else {
      NodeFacts(t, d);
      GetNode(t, k);
      var b := GetKey(k, t.depth);
      var kid := t.kids[b];
      GetPrefix(kid, t.depth, k);
      UnderFacts(t.key, t.depth, b, kid.key);
      DepthGrows(kid, t.depth);
      AgreeDown(kid.key, k, kid.depth - 1, t.depth - 1);
      AgreeTrans(t.key, kid.key, k, t.depth - 1);
    }
  }

  lemma UnderFacts(header: nat, depth: nat, b: nat, key: nat)
    requires Under(header, depth, b, key)
    ensures 1 <= depth <= 8 && Agree(header, key, depth - 1) && GetKey(key, depth) == b
  {
  }

  lemma DepthGrows(t: RTree, d: nat)
    requires ROK(t, d)
    ensures d < t.depth <= 8 && IsU64(t.key) && (t.RLeaf? <==> t.depth == 8)
  {
  }

  lemma AgreeTrans(a: nat, b: nat, c: nat, d: nat)
    requires d <= 8
    ensures Agree(a, b, d) && Agree(b, c, d) ==> Agree(a, c, d)
    ensures Agree(a, b, d) ==> Agree(b, a, d)
  {
  }

  /** A cached key reaches its own entry. */
  lemma {:induction false} LandingOwn(t: RTree, d: nat, k: nat)
    requires ROK(t, d) && Get(t, k).Some?
    ensures Landing(t, k) == Some(k)
    decreases t
  {
    hide *;
    if t.RLeaf? {
      LeafFacts(t, d);
      GetLeaf(t, k);
      OwnKey(t.key, k);
    } else {
      NodeFacts(t, d);
      GetNode(t, k);
      LandingOwn(t.kids[GetKey(k, t.depth)], t.depth, k);
    }
  }

  lemma OwnKey(key: nat, k: nat)
    requires Agree(key, k, 7)
    ensures GetIntermediateKey(key, GetKey(k, 8), 8) == k
  {
    IntermediateIs(key, GetKey(k, 8), 8);
    TruncStep(k, 7);
  }

  lemma LeafKey(key: nat, b: nat)
    requires b < 256 && IsU64(key)
    ensures var x := GetIntermediateKey(key, b, 8); IsU64(x) && Agree(key, x, 7) && GetKey(x, 8) == b
  {
    var x := GetIntermediateKey(key, b, 8);
    IntermediateIs(key, b, 8);
    TruncStep(key, 7);
    TruncStep(x, 7);
    TruncFull(key);
    TruncFull(x);
  }

  /** A search ends at nothing, or at the entry of a stored key that agrees with k on all branching bytes. */
  lemma {:induction false} LandingStored(t: RTree, d: nat, k: nat)
    requires ROK(t, d) && Landing(t, k).Some?
    ensures var x := Landing(t, k).value; IsU64(x) && Get(t, x).Some? && SamePath(t, k, x)
    decreases t
  {
    hide *;
    var x := Landing(t, k).value;
    if t.RLeaf? {
      LeafFacts(t, d);
      GetLeaf(t, k);
      LeafKey(t.key, GetKey(k, 8));
      GetLeaf(t, x);
      SameLeafPath(t, k, x);
    } else {
      NodeFacts(t, d);
      GetNode(t, k);
      var b := GetKey(k, t.depth);
      var kid := t.kids[b];
      LandingStored(kid, t.depth, k);
      GetPrefix(kid, t.depth, x);
      DepthGrows(kid, t.depth);
      AgreeDown(kid.key, x, kid.depth - 1, t.depth - 1);
      KidByte(t.key, t.depth, b, kid.key, kid.depth, x);
      GetNode(t, x);
      SameNodePath(t, k, x);
    }
  }

  lemma KidByte(header: nat, depth: nat, b: nat, key: nat, depth': nat, x: nat)
    requires Under(header, depth, b, key) && depth < depth' <= 8 && Agree(key, x, depth' - 1)
    ensures GetKey(x, depth) == b && Agree(header, x, depth - 1)
  {
    AgreeDown(key, x, depth' - 1, depth - 1);
  }

  lemma SameLeafPath(t: RTree, k: nat, x: nat)
    requires t.RLeaf? && GetKey(k, 8) == GetKey(x, 8)
    ensures SamePath(t, k, x)
  {
  }

  lemma SameNodePath(t: RTree, k: nat, x: nat)
    requires t.RNode? && t.depth <= 8 && GetKey(k, t.depth) == GetKey(x, t.depth) && GetKey(k, t.depth) in t.kids
    requires SamePath(t.kids[GetKey(k, t.depth)], k, x)
    ensures SamePath(t, k, x)
  {
  }

  // ----- Replacing, adding and removing children -----

  /** t' is t except that byte b leads to kid. */
  lemma GetSetKid(t: RTree, b: nat, kid: RTree, x: nat)
    requires t.RNode? && t.depth <= 8
    ensures
      var t' := t.(kids := t.kids[b := kid]);
      Get(t', x) == if GetKey(x, t.depth) == b then Get(kid, x) else Get(t, x)
  {
  }

  lemma GetDropKid(t: RTree, b: nat, x: nat)
    requires t.RNode? && t.depth <= 8
    ensures Get(t.(kids := t.kids - {b}), x) == if GetKey(x, t.depth) == b then None else Get(t, x)
  {
  }

  lemma GetSetFrame(t: RTree, b: nat, e: Entry, x: nat)
    requires t.RLeaf?
    ensures
      Get(t.(frames := t.frames[b := e]), x)
      == if GetKey(x, 8) == b && Agree(t.key, x, 7) then Some(e) else Get(t, x)
  {
  }

  lemma GetDropFrame(t: RTree, b: nat, x: nat)
    requires t.RLeaf?
    ensures Get(t.(frames := t.frames - {b}), x) == if GetKey(x, 8) == b then None else Get(t, x)
  {
  }

  /** The address and the kind of a node do not matter to lookups. */
  lemma GetRekind(t: RTree, id: nat, kind: Kind, x: nat)
    ensures Get(t.(id := id, kind := kind), x) == Get(t, x)
    ensures Landing(t.(id := id, kind := kind), x) == Landing(t, x)
  {
  }

  /** An entry for the key k of a leaf: the leaf then also maps k, everything else as before. */
  lemma SetFrameOK(t: RTree, d: nat, k: nat, e: Entry)
    requires t.RLeaf? && ROK(t, d) && IsU64(k) && Agree(t.key, k, 7)
    requires GetKey(k, 8) in t.frames || |t.frames| < Capacity(t.kind)
    ensures ROK(t.(frames := t.frames[GetKey(k, 8) := e]), d)
    ensures forall x :: Get(t.(frames := t.frames[GetKey(k, 8) := e]), x) == if x == k then Some(e) else Get(t, x)
  {
    var b := GetKey(k, 8);
    var t' := t.(frames := t.frames[b := e]);
    MapSizes(t.frames, b, e);
    forall x ensures Get(t', x) == if x == k then Some(e) else Get(t, x) {
      GetSetFrame(t, b, e, x);
      SameByte(t.key, k, x);
    }
  }

  lemma SameByte(key: nat, k: nat, x: nat)
    requires Agree(key, k, 7)
    ensures GetKey(x, 8) == GetKey(k, 8) && Agree(key, x, 7) <==> x == k
  {
    AgreeStep(k, x, 7);
    AgreeAll(k, x);
  }

  /** A leaf for the single key k. */
  function NewLeaf(id: nat, k: nat, e: Entry): RTree {
    RLeaf(id, K4, 8, k, map[GetKey(k, 8) := e])
  }

  lemma NewLeafOK(id: nat, d: nat, k: nat, e: Entry)
    requires d < 8 && IsU64(k)
    ensures ROK(NewLeaf(id, k, e), d)
  {
  }

  lemma NewLeafGet(id: nat, k: nat, e: Entry)
    ensures forall x :: Get(NewLeaf(id, k, e), x) == if x == k then Some(e) else None
  {
    forall x ensures Get(NewLeaf(id, k, e), x) == if x == k then Some(e) else None {
      SameByte(k, k, x);
    }
  }

  // ----- Insertion -----

  /** t' maps k to e and every other key as t does. */
  ghost predicate InsGet(t: RTree, t': RTree, k: nat, e: Entry) {
    forall x :: Get(t', x) == if x == k then Some(e) else Get(t, x)
  }

  /** Nothing but k is stored beneath t. */
  ghost predicate OnlyGet(t: RTree, k: nat, e: Entry) {
    forall x :: Get(t, x) == if x == k then Some(e) else None
  }

  function WithKid(t: RTree, b: nat, kid: RTree): RTree
    requires t.RNode?
  {
    t.(kids := t.kids[b := kid])
  }

  lemma WithKidOK(t: RTree, d: nat, b: nat, kid: RTree)
    requires t.RNode? && ROK(t, d) && b < 256 && (b in t.kids || |t.kids| < Capacity(t.kind))
    requires ROK(kid, t.depth) && Under(t.key, t.depth, b, kid.key)
    ensures ROK(WithKid(t, b, kid), d)
  {
    hide *;
    var t' := WithKid(t, b, kid);
    NodeFacts(t, d);
    MapSizes(t.kids, b, kid);
    WithKidIs(t, b, kid);
    forall x | x in t'.kids ensures ROK(t'.kids[x], t'.depth) && Under(t'.key, t'.depth, x, t'.kids[x].key) {
    }
    BytesSet(t.kids, b, kid);
    NodeIntro(t', d);
  }

  lemma WithKidIs(t: RTree, b: nat, kid: RTree)
    requires t.RNode?
    ensures WithKid(t, b, kid) == RNode(t.id, t.kind, t.depth, t.key, t.kids[b := kid])
  {
  }

  lemma BytesSet<T>(m: map<nat, T>, b: nat, v: T)
    requires Bytes(m)
    ensures b < 256 ==> Bytes(m[b := v])
    ensures Bytes(m - {b})
  {
  }

  lemma AddKidGet(t: RTree, b: nat, kid: RTree, k: nat, e: Entry)
    requires t.RNode? && t.depth <= 8 && b == GetKey(k, t.depth) && b !in t.kids && OnlyGet(kid, k, e)
    ensures InsGet(t, WithKid(t, b, kid), k, e)
  {
    var t' := WithKid(t, b, kid);
    forall x ensures Get(t', x) == if x == k then Some(e) else Get(t, x) {
      GetSetKid(t, b, kid, x);
      GetNode(t, x);
    }
  }

  lemma SetKidGet(t: RTree, b: nat, kid: RTree, k: nat, e: Entry)
    requires t.RNode? && t.depth <= 8 && b == GetKey(k, t.depth) && b in t.kids && InsGet(t.kids[b], kid, k, e)
    ensures InsGet(t, WithKid(t, b, kid), k, e)
  {
    var t' := WithKid(t, b, kid);
    forall x ensures Get(t', x) == if x == k then Some(e) else Get(t, x) {
      GetSetKid(t, b, kid, x);
      GetNode(t, x);
    }
  }

  /** A maximal common prefix p, at most 7, is at least as long as any other. */
  lemma LongestPrefix(a: nat, b: nat, p: nat, d: nat)
    requires p <= 7 && d <= 7 && Agree(a, b, d) && (p < 7 ==> GetKey(a, p + 1) != GetKey(b, p + 1))
    ensures d <= p
  {
    if p < d {
      AgreeDown(a, b, d, p);
    }
  }

  /** The kid at k's byte shares one more byte with k than the node does. */
  lemma KidPrefix(header: nat, depth: nat, b: nat, key: nat, k: nat)
    requires Under(header, depth, b, key) && Agree(header, k, depth - 1) && GetKey(k, depth) == b
    ensures Agree(key, k, depth) && Under(header, depth, b, k)
  {
    AgreeTrans(header, key, k, depth - 1);
    AgreeTrans(key, header, k, depth - 1);
    AgreeStep(key, k, depth - 1);
  }

  /** A node that separates the tree c from a new leaf for k, where their keys first differ. */
  function Fork(id: nat, p: nat, k: nat, leaf: RTree, c: RTree): RTree
    requires p < 8
  {
    RNode(id, K4, p + 1, k, map[GetKey(k, p + 1) := leaf][GetKey(c.key, p + 1) := c])
  }

  lemma ForkOK(id: nat, p: nat, k: nat, e: Entry, leafId: nat, c: RTree, d: nat)
    requires p < 7 && d < p + 1 < c.depth && IsU64(k) && ROK(c, d)
    requires Agree(c.key, k, p) && GetKey(c.key, p + 1) != GetKey(k, p + 1)
    ensures ROK(Fork(id, p, k, NewLeaf(leafId, k, e), c), d)
  {
    hide *;
    var leaf := NewLeaf(leafId, k, e);
    var t := Fork(id, p, k, leaf, c);
    ForkIs(id, p, k, leaf, c);
    NewLeafOK(leafId, p + 1, k, e);
    NewLeafIs(leafId, k, e);
    Raise(c, d, p + 1);
    AgreeTrans(c.key, k, k, p);
    AgreeRefl(k, p);
    UnderIntro(k, p + 1, k);
    UnderIntro(k, p + 1, c.key);
    SmallKind();
    NodeIntro(t, d);
  }

  lemma ForkIs(id: nat, p: nat, k: nat, leaf: RTree, c: RTree)
    requires p < 8 && GetKey(c.key, p + 1) != GetKey(k, p + 1)
    ensures var t := Fork(id, p, k, leaf, c);
      && t.RNode? && t.id == id && t.kind == K4 && t.depth == p + 1 && t.key == k && |t.kids| == 2 && Bytes(t.kids)
      && (forall b :: b in t.kids <==> b == GetKey(k, p + 1) || b == GetKey(c.key, p + 1))
      && t.kids[GetKey(k, p + 1)] == leaf && t.kids[GetKey(c.key, p + 1)] == c
  {
    MapSizes(map[GetKey(k, p + 1) := leaf], GetKey(c.key, p + 1), c);
  }

  lemma NewLeafIs(id: nat, k: nat, e: Entry)
    ensures NewLeaf(id, k, e).key == k && NewLeaf(id, k, e).RLeaf? && NewLeaf(id, k, e).id == id
  {
  }

  lemma SmallKind()
    ensures Capacity(K4) == 4
  {
  }

  lemma AgreeRefl(k: nat, d: nat)
    requires d <= 8
    ensures Agree(k, k, d)
  {
  }

  lemma UnderIntro(header: nat, depth: nat, key: nat)
    requires 1 <= depth <= 8 && Agree(header, key, depth - 1)
    ensures Under(header, depth, GetKey(key, depth), key)
  {
  }

  /** The depth bound from above may be raised up to the depth of the node. */
  lemma Raise(t: RTree, d: nat, d': nat)
    requires ROK(t, d) && d' < t.depth
    ensures ROK(t, d')
  {
  }

  lemma ForkGet(id: nat, p: nat, k: nat, e: Entry, leafId: nat, c: RTree, d: nat)
    requires p < 7 && p + 1 < c.depth && ROK(c, d) && GetKey(c.key, p + 1) != GetKey(k, p + 1)
    ensures InsGet(c, Fork(id, p, k, NewLeaf(leafId, k, e), c), k, e)
  {
    var leaf := NewLeaf(leafId, k, e);
    var t := Fork(id, p, k, leaf, c);
    ForkIs(id, p, k, leaf, c);
    DepthGrows(c, d);
    forall x ensures Get(t, x) == if x == k then Some(e) else Get(c, x) {
      hide *;
      ForkGetAt(id, p, k, e, leafId, c, d, x);
    }
  }

  lemma ForkGetAt(id: nat, p: nat, k: nat, e: Entry, leafId: nat, c: RTree, d: nat, x: nat)
    requires p < 7 && p + 1 < c.depth && ROK(c, d) && GetKey(c.key, p + 1) != GetKey(k, p + 1)
    ensures Get(Fork(id, p, k, NewLeaf(leafId, k, e), c), x) == if x == k then Some(e) else Get(c, x)
  {
    hide *;
    var leaf := NewLeaf(leafId, k, e);
    var t := Fork(id, p, k, leaf, c);
    ForkIs(id, p, k, leaf, c);
    GetNode(t, x);
    if Get(c, x).Some? {
      GetPrefix(c, d, x);
      AgreeDown(c.key, x, c.depth - 1, p);
    }
    NewLeafGet(leafId, k, e);
  }

  // ----- Bytes charged for a tree -----

  ghost function TreeBytes(t: RTree): nat
    decreases t, 257
  {
    match t
    case RLeaf(_, kind, _, _, frames) => NodeBytes(kind) + FRAME_BYTES * |frames|
    case RNode(_, kind, _, _, kids) => NodeBytes(kind) + KidBytes(t, 256)
  }

  ghost function KidBytes(t: RTree, n: nat): nat
    requires t.RNode?
    decreases t, n
  {
    if n == 0 then 0 else KidBytes(t, n - 1) + if n - 1 in t.kids then TreeBytes(t.kids[n - 1]) else 0
  }

  ghost function BytesAt(t: RTree, b: nat): nat
    requires t.RNode?
  {
    if b in t.kids then TreeBytes(t.kids[b]) else 0
  }

  lemma {:induction false} KidBytesSet(t: RTree, t': RTree, b: nat, n: nat)
    requires t.RNode? && t'.RNode?
    requires forall x :: x != b ==> (x in t.kids <==> x in t'.kids) && (x in t.kids ==> t.kids[x] == t'.kids[x])
    ensures KidBytes(t', n) - KidBytes(t, n) == if b < n then BytesAt(t', b) - BytesAt(t, b) else 0
    decreases n
  {
    if n > 0 {
      KidBytesSet(t, t', b, n - 1);
    }
  }

  lemma BytesWithKid(t: RTree, b: nat, kid: RTree)
    requires t.RNode? && b < 256
    ensures TreeBytes(WithKid(t, b, kid)) == TreeBytes(t) - BytesAt(t, b) + TreeBytes(kid)
  {
    KidBytesSet(t, WithKid(t, b, kid), b, 256);
  }

  lemma BytesWithoutKid(t: RTree, b: nat)
    requires t.RNode? && b < 256
    ensures TreeBytes(t.(kids := t.kids - {b})) == TreeBytes(t) - BytesAt(t, b)
  {
    KidBytesSet(t, t.(kids := t.kids - {b}), b, 256);
  }

  lemma {:induction false} KidBytesSame(t: RTree, t': RTree, n: nat)
    requires t.RNode? && t'.RNode? && t.kids == t'.kids
    ensures KidBytes(t', n) == KidBytes(t, n)
    decreases n
  {
    if n > 0 {
      KidBytesSame(t, t', n - 1);
    }
  }

  lemma BytesRekind(t: RTree, id: nat, kind: Kind)
    ensures TreeBytes(t.(id := id, kind := kind)) == TreeBytes(t) - NodeBytes(t.kind) + NodeBytes(kind)
  {
    match t {
      case RLeaf(_, _, _, _, _) =>
      case RNode(_, _, depth, key, kids) => KidBytesSame(t, RNode(id, kind, depth, key, kids), 256);
    }
  }

  lemma BytesFork(id: nat, p: nat, k: nat, e: Entry, leafId: nat, c: RTree)
    requires p < 7 && GetKey(c.key, p + 1) != GetKey(k, p + 1)
    ensures TreeBytes(Fork(id, p, k, NewLeaf(leafId, k, e), c)) == TreeBytes(c) + 2 * NodeBytes(K4) + FRAME_BYTES
  {
    var leaf := NewLeaf(leafId, k, e);
    var t0 := RNode(id, K4, p + 1, k, map[]);
    BytesNone(t0, 256);
    BytesWithKid(t0, GetKey(k, p + 1), leaf);
    BytesWithKid(WithKid(t0, GetKey(k, p + 1), leaf), GetKey(c.key, p + 1), c);
  }

  lemma {:induction false} BytesNone(t: RTree, n: nat)
    requires t.RNode? && t.kids == map[]
    ensures KidBytes(t, n) == 0
    decreases n
  {
    if n > 0 {
      BytesNone(t, n - 1);
    }
  }

  // ----- Deletion -----

  /** t' lacks exactly the entry a search for k ends at in t. */
  ghost predicate DelGet(t: RTree, t': RTree, k: nat) {
    forall x: nat :: Get(t', x) == if Landing(t, k) == Some(x) then None else Get(t, x)
  }

  function WithoutFrame(t: RTree, b: nat): RTree
    requires t.RLeaf?
  {
    t.(frames := t.frames - {b})
  }

  function WithoutKid(t: RTree, b: nat): RTree
    requires t.RNode?
  {
    t.(kids := t.kids - {b})
  }

  lemma DropFrameGet(t: RTree, d: nat, k: nat)
    requires t.RLeaf? && ROK(t, d)
    ensures DelGet(t, WithoutFrame(t, GetKey(k, 8)), k)
  {
    var b := GetKey(k, 8);
    var t' := WithoutFrame(t, b);
    LeafFacts(t, d);
    GetLeaf(t, k);
    LeafKey(t.key, b);
    var own := GetIntermediateKey(t.key, b, 8);
    forall x: nat ensures Get(t', x) == if Landing(t, k) == Some(x) then None else Get(t, x) {
      GetDropFrame(t, b, x);
      GetLeaf(t, x);
      if GetKey(x, 8) == b && Agree(t.key, x, 7) {
        OwnKey(t.key, x);
      }
    }
  }

  lemma DropFrameOK(t: RTree, d: nat, b: nat)
    requires t.RLeaf? && ROK(t, d)
    ensures |WithoutFrame(t, b).frames| == |t.frames| - (if b in t.frames then 1 else 0)
    ensures WithoutFrame(t, b).frames != map[] ==> ROK(WithoutFrame(t, b), d)
  {
    if b in t.frames {
      MapSizes(t.frames, b, t.frames[b]);
    } else {
      assert t.frames - {b} == t.frames;
    }
  }

  /** A search that lands somewhere lands under the byte it branches on. */
  lemma LandingByte(t: RTree, d: nat, k: nat, x: nat)
    requires t.RNode? && ROK(t, d) && Landing(t, k) == Some(x)
    ensures t.depth <= 8 && GetKey(x, t.depth) == GetKey(k, t.depth)
  {
    LandingStored(t, d, k);
  }

  lemma SetKidDel(t: RTree, d: nat, b: nat, kid: RTree, k: nat)
    requires t.RNode? && ROK(t, d) && t.depth <= 8 && b == GetKey(k, t.depth) && b in t.kids
    requires DelGet(t.kids[b], kid, k)
    ensures DelGet(t, WithKid(t, b, kid), k)
  {
    forall x: nat ensures Get(WithKid(t, b, kid), x) == if Landing(t, k) == Some(x) then None else Get(t, x) {
      hide *;
      DelGetAt(t.kids[b], kid, k, x);
      WithKidIs(t, b, kid);
      GetNode(t, k);
      GetSetKid(t, b, kid, x);
      GetNode(t, x);
      if Landing(t, k) == Some(x) {
        LandingByte(t, d, k, x);
      }
    }
  }

  lemma DelGetAt(t: RTree, t': RTree, k: nat, x: nat)
    requires DelGet(t, t', k)
    ensures Get(t', x) == if Landing(t, k) == Some(x) then None else Get(t, x)
  {
  }

  /** Dropping a leaf whose only entry is the one the search ends at. */
  lemma DropKidDel(t: RTree, d: nat, k: nat)
    requires t.RNode? && ROK(t, d) && t.depth <= 8 && GetKey(k, t.depth) in t.kids
    requires t.kids[GetKey(k, t.depth)].RLeaf?
    requires WithoutFrame(t.kids[GetKey(k, t.depth)], GetKey(k, 8)).frames == map[]
    ensures DelGet(t, WithoutKid(t, GetKey(k, t.depth)), k)
  {
    forall x: nat ensures Get(WithoutKid(t, GetKey(k, t.depth)), x) == if Landing(t, k) == Some(x) then None else Get(t, x) {
      DropKidDelAt(t, d, k, x);
    }
  }

  lemma DropKidDelAt(t: RTree, d: nat, k: nat, x: nat)
    requires t.RNode? && ROK(t, d) && t.depth <= 8 && GetKey(k, t.depth) in t.kids
    requires t.kids[GetKey(k, t.depth)].RLeaf?
    requires WithoutFrame(t.kids[GetKey(k, t.depth)], GetKey(k, 8)).frames == map[]
    ensures Get(WithoutKid(t, GetKey(k, t.depth)), x) == if Landing(t, k) == Some(x) then None else Get(t, x)
  {
    hide *;
    var b := GetKey(k, t.depth);
    var leaf := t.kids[b];
    NodeFacts(t, d);
    DropFrameGet(leaf, t.depth, k);
    DelGetAt(leaf, WithoutFrame(leaf, GetKey(k, 8)), k, x);
    WithoutFrameIs(leaf, GetKey(k, 8));
    EmptyLeaf(WithoutFrame(leaf, GetKey(k, 8)), x);
    GetNode(t, k);
    GetDropKid(t, b, x);
    WithoutKidIs(t, b);
    GetNode(t, x);
    if Landing(t, k) == Some(x) {
      LandingByte(t, d, k, x);
    }
  }

  lemma WithoutFrameIs(t: RTree, b: nat)
    requires t.RLeaf?
    ensures WithoutFrame(t, b) == RLeaf(t.id, t.kind, t.depth, t.key, t.frames - {b})
  {
  }

  lemma EmptyLeaf(t: RTree, x: nat)
    requires t.RLeaf? && t.frames == map[]
    ensures Get(t, x) == None
  {
  }

  /** A node with a single kid stands for that kid. */
  lemma CollapseGet(t: RTree, b: nat, x: nat)
    requires t.RNode? && t.depth < 8 && t.kids.Keys == {b}
    requires ROK(t.kids[b], t.depth) && Under(t.key, t.depth, b, t.kids[b].key)
    ensures Get(t.kids[b], x) == Get(t, x)
  {
    var z := t.kids[b];
    GetNode(t, x);
    assert GetKey(x, t.depth) in t.kids <==> GetKey(x, t.depth) == b;
    if Get(z, x).Some? {
      GetPrefix(z, t.depth, x);
      DepthGrows(z, t.depth);
      KidByte(t.key, t.depth, b, z.key, z.depth, x);
    }
  }

  lemma DelGetVia(t: RTree, t1: RTree, t': RTree, k: nat)
    requires DelGet(t, t1, k) && forall x: nat :: Get(t', x) == Get(t1, x)
    ensures DelGet(t, t', k)
  {
  }

  lemma WithoutKidOK(t: RTree, d: nat, b: nat)
    requires t.RNode? && ROK(t, d) && b in t.kids
    ensures |WithoutKid(t, b).kids| == |t.kids| - 1 >= 1
    ensures |WithoutKid(t, b).kids| >= 2 ==> ROK(WithoutKid(t, b), d)
  {
    hide *;
    var t' := WithoutKid(t, b);
    NodeFacts(t, d);
    MapSizes(t.kids, b, t.kids[b]);
    WithoutKidIs(t, b);
    BytesSet(t.kids, b, t.kids[b]);
    if |t'.kids| >= 2 {
      NodeIntro(t', d);
    }
  }

  lemma WithoutKidIs(t: RTree, b: nat)
    requires t.RNode?
    ensures WithoutKid(t, b) == RNode(t.id, t.kind, t.depth, t.key, t.kids - {b})
  {
  }

  /** The kid of a collapsed node takes its place under the node above. */
  lemma UnderTrans(header: nat, depth: nat, b: nat, key: nat, depth': nat, b': nat, key': nat)
    requires Under(header, depth, b, key) && Under(key, depth', b', key') && depth < depth'
    ensures Under(header, depth, b, key')
  {
    AgreeDown(key, key', depth' - 1, depth - 1);
    AgreeTrans(header, key, key', depth - 1);
  }

  /** Shrinking a node keeps it within the capacity of the smaller kind. */
  lemma RekindOK(t: RTree, d: nat, id: nat, kind: Kind)
    requires ROK(t, d) && Size(t) <= Capacity(kind)
    ensures ROK(t.(id := id, kind := kind), d)
    ensures forall x :: Get(t.(id := id, kind := kind), x) == Get(t, x)
  {
    var t' := t.(id := id, kind := kind);
    forall x ensures Get(t', x) == Get(t, x) {
      GetRekind(t, id, kind, x);
    }
    if t.RNode? {
      NodeFacts(t, d);
      hide ROK, KidOK, Get;
      NodeIntro(t', d);
    }
  }

  // ----- Re-pointing a key range -----

  /** The test update_range makes at one child: the first depth bytes against those of the bounds. */
  predicate InWindow(key: nat, b: nat, depth: nat, from: nat, to: nat)
    requires depth <= 8
  {
    var x := GetIntermediateKey(key, b, depth);
    GetIntermediateKey(from, GetKey(from, depth), depth) <= x <= GetIntermediateKey(to, GetKey(to, depth), depth)
  }

  ghost function Upd(t: RTree, from: nat, to: nat, e: Entry): RTree
    decreases t
  {
    match t
    case RLeaf(_, _, _, key, frames) =>
      t.(frames := map b | b in frames :: if InWindow(key, b, 8, from, to) then e else frames[b])
    case RNode(_, _, depth, key, kids) =>
      if depth > 8 then t
      else t.(kids := map b | b in kids :: if InWindow(key, b, depth, from, to) then Upd(kids[b], from, to, e) else kids[b])
  }

  lemma WindowIs(x: nat, key: nat, b: nat, depth: nat, from: nat, to: nat)
    requires 1 <= depth <= 8 && Agree(key, x, depth - 1) && GetKey(x, depth) == b
    ensures InWindow(key, b, depth, from, to) <==> Trunc(from, depth) <= Trunc(x, depth) <= Trunc(to, depth)
  {
    IntermediateIs(key, b, depth);
    IntermediateIs(from, GetKey(from, depth), depth);
    IntermediateIs(to, GetKey(to, depth), depth);
    TruncStep(x, depth - 1);
    TruncStep(from, depth - 1);
    TruncStep(to, depth - 1);
  }

  lemma UpdNode(t: RTree, from: nat, to: nat, e: Entry, x: nat)
    requires t.RNode? && t.depth <= 8
    ensures
      var b := GetKey(x, t.depth);
      Get(Upd(t, from, to, e), x) ==
        if b !in t.kids then None
        else if InWindow(t.key, b, t.depth, from, to) then Get(Upd(t.kids[b], from, to, e), x)
        else Get(t.kids[b], x)
  {
  }

  lemma UpdLeaf(t: RTree, from: nat, to: nat, e: Entry, x: nat)
    requires t.RLeaf?
    ensures
      var b := GetKey(x, 8);
      Get(Upd(t, from, to, e), x) ==
        if !(Agree(t.key, x, 7) && b in t.frames) then None
        else if InWindow(t.key, b, 8, from, to) then Some(e) else Some(t.frames[b])
  {
  }

  /** Exactly the stored keys in [from, to] are re-pointed. */
  lemma {:induction false} UpdGet(t: RTree, d: nat, from: nat, to: nat, e: Entry, x: nat)
    requires ROK(t, d)
    ensures Get(Upd(t, from, to, e), x) == if Get(t, x).Some? && from <= x <= to then Some(e) else Get(t, x)
    decreases t
  {
    hide *;
    if t.RLeaf? {
      UpdLeaf(t, from, to, e, x);
      GetLeaf(t, x);
      if Agree(t.key, x, 7) {
        WindowIs(x, t.key, GetKey(x, 8), 8, from, to);
        TruncFull(x);
        TruncFull(from);
        TruncFull(to);
      }
    } else {
      NodeFacts(t, d);
      UpdNode(t, from, to, e, x);
      GetNode(t, x);
      var b := GetKey(x, t.depth);
      if b in t.kids {
        UpdGet(t.kids[b], t.depth, from, to, e, x);
        if Get(t.kids[b], x).Some? {
          GetPrefix(t, d, x);
          WindowIs(x, t.key, b, t.depth, from, to);
          UpdComplete(from, x, to, t.depth);
        }
      }
    }
  }

  lemma UpdComplete(from: nat, x: nat, to: nat, d: nat)
    requires d <= 8
    ensures from <= x <= to ==> Trunc(from, d) <= Trunc(x, d) <= Trunc(to, d)
  {
    if from <= x <= to {
      TruncOrder(from, x, d);
      TruncOrder(x, to, d);
    }
  }

  /** Re-pointing changes entries only: same nodes, same invariant, same bytes. */
  lemma {:induction false} UpdOK(t: RTree, d: nat, from: nat, to: nat, e: Entry)
    requires ROK(t, d)
    ensures ROK(Upd(t, from, to, e), d) && Upd(t, from, to, e).key == t.key && Upd(t, from, to, e).id == t.id
    ensures TreeBytes(Upd(t, from, to, e)) == TreeBytes(t)
    decreases t
  {
    var t' := Upd(t, from, to, e);
    if t.RLeaf? {
      assert t'.frames.Keys == t.frames.Keys;
      assert |t'.frames| == |t'.frames.Keys| && |t.frames| == |t.frames.Keys|;
    } else {
      NodeFacts(t, d);
      forall b | b in t.kids
        ensures b in t'.kids && ROK(t'.kids[b], t.depth) && t'.kids[b].key == t.kids[b].key && TreeBytes(t'.kids[b]) == TreeBytes(t.kids[b])
      {
        UpdOK(t.kids[b], t.depth, from, to, e);
      }
      assert t'.kids.Keys == t.kids.Keys;
      assert |t'.kids| == |t'.kids.Keys| && |t.kids| == |t.kids.Keys|;
      hide ROK, KidOK, TreeBytes, Upd;
      NodeIntro(t', d);
      SameKidBytes(t, t', 256);
      NodeBytesOf(t);
      NodeBytesOf(t');
    }
  }

  lemma NodeBytesOf(t: RTree)
    requires t.RNode?
    ensures TreeBytes(t) == NodeBytes(t.kind) + KidBytes(t, 256)
  {
  }

  lemma {:induction false} SameKidBytes(t: RTree, t': RTree, n: nat)
    requires t.RNode? && t'.RNode? && t'.kids.Keys == t.kids.Keys
    requires forall b :: b in t.kids ==> TreeBytes(t'.kids[b]) == TreeBytes(t.kids[b])
    ensures KidBytes(t', n) == KidBytes(t, n)
    decreases n
  {
    if n > 0 {
      SameKidBytes(t, t', n - 1);
    }
  }
}
