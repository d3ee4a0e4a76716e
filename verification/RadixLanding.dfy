/**
 * Where a search in the radix tree ends depends on the stored keys alone, not on
 * the insertions and deletions that led to the tree: its shape is canonical.
 */
module RadixLanding {
  import opened Common
  import opened RadixKeys
  import opened RadixModel

  /** Both trees have an entry for the same keys. */
  ghost predicate SameKeys(t: RTree, t': RTree) {
    forall x: nat :: Get(t, x).Some? <==> Get(t', x).Some?
  }

  /** A key below the child at byte b has that byte, and the node maps it as the child does. */
  lemma GetUp(t: RTree, d: nat, b: nat, x: nat)
    requires t.RNode? && ROK(t, d) && b in t.kids && Get(t.kids[b], x).Some?
    ensures d < t.depth < 8 && GetKey(x, t.depth) == b && Get(t, x) == Get(t.kids[b], x)
  {
    hide *;
    NodeFacts(t, d);
    GetPrefix(t.kids[b], t.depth, x);
    DepthGrows(t.kids[b], t.depth);
    KidByte(t.key, t.depth, b, t.kids[b].key, t.kids[b].depth, x);
    GetNode(t, x);
  }

  /** No tree is empty. */
  lemma {:induction false} SomeKey(t: RTree, d: nat) returns (x: nat)
    requires ROK(t, d)
    ensures Get(t, x).Some?
    decreases t
  {
    hide *;
    if t.RLeaf? {
      LeafFacts(t, d);
      assert t.frames != map[];
      var b :| b in t.frames;
      BytesAre(t.frames, b);
      LeafKey(t.key, b);
      x := GetIntermediateKey(t.key, b, 8);
      GetLeaf(t, x);
    } else {
      NodeFacts(t, d);
      assert t.kids != map[];
      var b :| b in t.kids;
      x := SomeKey(t.kids[b], t.depth);
      GetUp(t, d, b, x);
    }
  }

  lemma BytesAre<T>(m: map<nat, T>, b: nat)
    requires Bytes(m) && b in m
    ensures b < 256
  {
  }

  /** An inner node stores two keys that part at the byte it branches on. */
  lemma TwoKeys(t: RTree, d: nat) returns (x: nat, y: nat)
    requires t.RNode? && ROK(t, d)
    ensures Get(t, x).Some? && Get(t, y).Some? && t.depth < 8 && GetKey(x, t.depth) != GetKey(y, t.depth)
  {
    hide *;
    NodeFacts(t, d);
    var b, c := TwoOf(t.kids);
    x := SomeKey(t.kids[b], t.depth);
    y := SomeKey(t.kids[c], t.depth);
    GetUp(t, d, b, x);
    GetUp(t, d, c, y);
  }

  lemma TwoOf<T>(m: map<nat, T>) returns (b: nat, c: nat)
    requires |m| >= 2
    ensures b in m && c in m && b != c
  {
    b :| b in m;
    assert |m.Keys - {b}| == |m.Keys| - 1;
    assert m.Keys - {b} != {};
    c :| c in m.Keys - {b};
  }

  /** Stored keys agree on every byte before the one their node branches on. */
  lemma BytesShared(t: RTree, d: nat, x: nat, y: nat, i: nat)
    requires ROK(t, d) && Get(t, x).Some? && Get(t, y).Some? && 1 <= i < t.depth
    ensures t.depth <= 8 && GetKey(x, i) == GetKey(y, i)
  {
    hide *;
    GetPrefix(t, d, x);
    GetPrefix(t, d, y);
    AgreeDown(t.key, x, t.depth - 1, i - 1);
    AgreeDown(t.key, y, t.depth - 1, i - 1);
  }

  lemma DepthLe(t: RTree, d: nat, t': RTree, d': nat)
    requires ROK(t, d) && ROK(t', d') && SameKeys(t, t')
    ensures t'.depth <= t.depth
  {
    DepthGrows(t, d);
    DepthGrows(t', d');
    if t.depth < t'.depth {
      var x, y := TwoKeys(t, d);
      hide ROK, Get;
      BytesShared(t', d', x, y, t.depth);
    }
  }

  lemma SameKids(t: RTree, d: nat, t': RTree, d': nat, b: nat)
    requires t.RNode? && t'.RNode? && t.depth == t'.depth && ROK(t, d) && ROK(t', d') && SameKeys(t, t') && b in t.kids
    ensures b in t'.kids && SameKeys(t.kids[b], t'.kids[b])
  {
    hide ROK, Get;
    NodeFacts(t, d);
    NodeFacts(t', d');
    var x := SomeKey(t.kids[b], t.depth);
    GetUp(t, d, b, x);
    GetNode(t', x);
    forall x: nat ensures Get(t.kids[b], x).Some? <==> Get(t'.kids[b], x).Some? {
      GetNode(t, x);
      GetNode(t', x);
      if Get(t.kids[b], x).Some? {
        GetUp(t, d, b, x);
      }
      if Get(t'.kids[b], x).Some? {
        GetUp(t', d', b, x);
      }
    }
  }

  lemma LeafLanding(t: RTree, d: nat, t': RTree, d': nat, k: nat)
    requires t.RLeaf? && t'.RLeaf? && ROK(t, d) && ROK(t', d') && SameKeys(t, t') && Landing(t, k).Some?
    ensures Landing(t', k) == Landing(t, k)
  {
    hide ROK, Get, Landing;
    var x := Landing(t, k).value;
    LandingStored(t, d, k);
    LandingOwn(t', d', x);
    GetLeaf(t', x);
    GetLeaf(t', k);
  }

  /** Trees with the same keys send every search to the same entry. */
  lemma {:induction false} Canonical(t: RTree, d: nat, t': RTree, d': nat, k: nat)
    requires ROK(t, d) && ROK(t', d') && SameKeys(t, t')
    ensures Landing(t, k) == Landing(t', k)
    decreases t
  {
    hide *;
    SameSym(t, t');
    DepthLe(t, d, t', d');
    DepthLe(t', d', t, d);
    DepthGrows(t, d);
    DepthGrows(t', d');
    if t.RLeaf? {
      if Landing(t, k).Some? {
        LeafLanding(t, d, t', d', k);
      }
      if Landing(t', k).Some? {
        LeafLanding(t', d', t, d, k);
      }
    } else {
      GetNode(t, k);
      GetNode(t', k);
      var b := GetKey(k, t.depth);
      if b in t.kids {
        SameKids(t, d, t', d', b);
        NodeFacts(t, d);
        NodeFacts(t', d');
        Canonical(t.kids[b], t.depth, t'.kids[b], t'.depth, k);
      } else if b in t'.kids {
        SameKids(t', d', t, d, b);
      }
    }
  }

  lemma SameSym(t: RTree, t': RTree)
    requires SameKeys(t, t')
    ensures SameKeys(t', t)
  {
  }
}
