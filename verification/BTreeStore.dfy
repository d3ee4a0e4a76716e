/**
 * The pages of a tree in a page store, and the cache entries of its keys: which
 * pages a step must write for the store to hold the new tree, and what a step
 * on one run of children leaves alone.
 */
module BTreeStore {
  import opened Common
  import opened Pages
  import opened BTreeModel

  type Store = map<nat, Page>

  /** Cached entries by key. */
  type View = map<int, Entry>

  // ----- Pages of a tree -----

  ghost function Ids(t: Tree): set<nat>
    decreases t, 1
  {
    match t
    case Leaf(id, _, _) => {id}
    case Node(id, _, kids) => {id} + IdsSeg(kids)
  }

  ghost function IdsSeg(kids: seq<Tree>): set<nat>
    decreases kids, 0
  {
    if kids == [] then {} else Ids(kids[0]) + IdsSeg(kids[1..])
  }

  /** No page is used twice. */
  ghost predicate Disj(t: Tree)
    decreases t, 1
  {
    match t
    case Leaf(_, _, _) => true
    case Node(id, _, kids) => id !in IdsSeg(kids) && DisjSeg(kids)
  }

  ghost predicate DisjSeg(kids: seq<Tree>)
    decreases kids, 0
  {
    kids != [] ==> Disj(kids[0]) && Ids(kids[0]) !! IdsSeg(kids[1..]) && DisjSeg(kids[1..])
  }

  /** The store holds every page of t. */
  ghost predicate Rep(m: Store, t: Tree)
    decreases t, 1
  {
    && t.id in m && m[t.id] == PageOf(t)
    && match t
       case Leaf(_, _, _) => true
       case Node(_, _, kids) => RepSeg(m, kids)
  }

  ghost predicate RepSeg(m: Store, kids: seq<Tree>)
    decreases kids, 0
  {
    kids != [] ==> Rep(m, kids[0]) && RepSeg(m, kids[1..])
  }

  /** Every cached key of t points to the leaf that holds it. */
  ghost predicate Coh(v: View, t: Tree)
    decreases t, 1
  {
    match t
    case Leaf(id, kv, _) => CohLeaf(v, kv.keys, id)
    case Node(_, _, kids) => CohSeg(v, kids)
  }

  ghost predicate CohLeaf(v: View, keys: seq<int>, id: nat) {
    forall i :: 0 <= i < |keys| && keys[i] in v ==> v[keys[i]].pageId == id
  }

  ghost predicate CohSeg(v: View, kids: seq<Tree>)
    decreases kids, 0
  {
    kids != [] ==> Coh(v, kids[0]) && CohSeg(v, kids[1..])
  }

  // ----- Concatenation -----

  lemma {:induction false} IdsCat(a: seq<Tree>, b: seq<Tree>)
    ensures IdsSeg(a + b) == IdsSeg(a) + IdsSeg(b)
  {
    if a == [] {
      assert a + b == b;
    } else {
      assert (a + b)[1..] == a[1..] + b;
      IdsCat(a[1..], b);
    }
  }

  lemma {:induction false} DisjCat(a: seq<Tree>, b: seq<Tree>)
    ensures DisjSeg(a + b) <==> DisjSeg(a) && DisjSeg(b) && IdsSeg(a) !! IdsSeg(b)
  {
    if a == [] {
      assert a + b == b;
    } else {
      assert (a + b)[1..] == a[1..] + b;
      IdsCat(a[1..], b);
      DisjCat(a[1..], b);
    }
  }

  lemma {:induction false} RepCat(m: Store, a: seq<Tree>, b: seq<Tree>)
    ensures RepSeg(m, a + b) <==> RepSeg(m, a) && RepSeg(m, b)
  {
    if a == [] {
      assert a + b == b;
    } else {
      assert (a + b)[1..] == a[1..] + b;
      RepCat(m, a[1..], b);
    }
  }

  lemma {:induction false} CohCat(v: View, a: seq<Tree>, b: seq<Tree>)
    ensures CohSeg(v, a + b) <==> CohSeg(v, a) && CohSeg(v, b)
  {
    if a == [] {
      assert a + b == b;
    } else {
      assert (a + b)[1..] == a[1..] + b;
      CohCat(v, a[1..], b);
    }
  }

  // ----- Frames -----

  /** m' agrees with m on s. */
  ghost predicate Agrees(m: Store, m': Store, s: set<nat>) {
    forall id :: id in s && id in m ==> id in m' && m'[id] == m[id]
  }

  lemma AgreesOn(m: Store, m': Store, s: set<nat>, s': set<nat>)
    requires Agrees(m, m', s) && s' <= s
    ensures Agrees(m, m', s')
  {
  }

  lemma {:induction false} RepFrame(m: Store, m': Store, t: Tree)
    requires Rep(m, t) && Agrees(m, m', Ids(t))
    ensures Rep(m', t)
    decreases t, 1
  {
    if t.Node? {
      AgreesOn(m, m', Ids(t), IdsSeg(t.kids));
      RepSegFrame(m, m', t.kids);
    }
  }

  lemma {:induction false} RepSegFrame(m: Store, m': Store, kids: seq<Tree>)
    requires RepSeg(m, kids) && Agrees(m, m', IdsSeg(kids))
    ensures RepSeg(m', kids)
    decreases kids, 0
  {
    if kids != [] {
      AgreesOn(m, m', IdsSeg(kids), Ids(kids[0]));
      AgreesOn(m, m', IdsSeg(kids), IdsSeg(kids[1..]));
      RepFrame(m, m', kids[0]);
      RepSegFrame(m, m', kids[1..]);
    }
  }

  lemma {:induction false} RepIds(m: Store, t: Tree)
    requires Rep(m, t)
    ensures Ids(t) <= m.Keys
    decreases t, 1
  {
    if t.Node? {
      RepIdsSeg(m, t.kids);
    }
  }

  lemma {:induction false} RepIdsSeg(m: Store, kids: seq<Tree>)
    requires RepSeg(m, kids)
    ensures IdsSeg(kids) <= m.Keys
    decreases kids, 0
  {
    if kids != [] {
      RepIds(m, kids[0]);
      RepIdsSeg(m, kids[1..]);
    }
  }

  /** Cached keys of ks keep their page or leave the cache. */
  ghost predicate Keeps(v: View, v': View, ks: seq<int>) {
    forall i :: 0 <= i < |ks| && ks[i] in v' ==> ks[i] in v && v'[ks[i]].pageId == v[ks[i]].pageId
  }

  lemma KeepsCat(v: View, v': View, a: seq<int>, b: seq<int>)
    requires Keeps(v, v', a + b)
    ensures Keeps(v, v', a) && Keeps(v, v', b)
  {
    forall i | 0 <= i < |a| && a[i] in v' ensures a[i] in v && v'[a[i]].pageId == v[a[i]].pageId {
      assert (a + b)[i] == a[i];
    }
    forall i | 0 <= i < |b| && b[i] in v' ensures b[i] in v && v'[b[i]].pageId == v[b[i]].pageId {
      assert (a + b)[|a| + i] == b[i];
    }
  }

  lemma {:induction false} CohFrame(v: View, v': View, t: Tree)
    requires Coh(v, t) && Keeps(v, v', Flat(t).keys)
    ensures Coh(v', t)
    decreases t, 1
  {
    if t.Node? {
      CohSegFrame(v, v', t.kids);
    }
  }

  lemma {:induction false} CohSegFrame(v: View, v': View, kids: seq<Tree>)
    requires CohSeg(v, kids) && Keeps(v, v', FlatSeg(kids).keys)
    ensures CohSeg(v', kids)
    decreases kids, 0
  {
    if kids != [] {
      KeepsCat(v, v', Flat(kids[0]).keys, FlatSeg(kids[1..]).keys);
      CohFrame(v, v', kids[0]);
      CohSegFrame(v, v', kids[1..]);
    }
  }

  // ----- One step on the kids i .. j of a node -----

  ghost function Rest(t: Tree, i: nat, j: nat): set<nat>
    requires t.Node? && i <= j < |t.kids|
  {
    IdsSeg(t.kids[..i]) + IdsSeg(t.kids[j + 1..])
  }

  ghost function Spliced(t: Tree, i: nat, j: nat, keys: seq<int>, cs: seq<Tree>): Tree
    requires t.Node? && i <= j < |t.kids|
  {
    Node(t.id, keys, t.kids[..i] + cs + t.kids[j + 1..])
  }

  /** The pages of t: its own, those of kids i .. j, and the rest. */
  lemma IdsParts(t: Tree, i: nat, j: nat)
    requires t.Node? && i <= j < |t.kids|
    ensures Ids(t) == {t.id} + IdsSeg(t.kids[i..j + 1]) + Rest(t, i, j)
    ensures Disj(t) ==>
      && t.id !in IdsSeg(t.kids[i..j + 1]) && t.id !in Rest(t, i, j) && IdsSeg(t.kids[i..j + 1]) !! Rest(t, i, j)
      && DisjSeg(t.kids[i..j + 1])
  {
    var a, m, b := t.kids[..i], t.kids[i..j + 1], t.kids[j + 1..];
    assert Ids(t) == {t.id} + IdsSeg(t.kids);
    assert Disj(t) ==> t.id !in IdsSeg(t.kids) && DisjSeg(t.kids);
    hide *;
    assert a + m + b == t.kids;
    IdsCat(a + m, b);
    IdsCat(a, m);
    DisjCat(a + m, b);
    DisjCat(a, m);
    RestIs(t, i, j);
  }

  lemma RestIs(t: Tree, i: nat, j: nat)
    requires t.Node? && i <= j < |t.kids|
    ensures Rest(t, i, j) == IdsSeg(t.kids[..i]) + IdsSeg(t.kids[j + 1..])
  {
  }

  lemma RepParts(m: Store, t: Tree, i: nat, j: nat)
    requires t.Node? && i <= j < |t.kids| && Rep(m, t)
    ensures RepSeg(m, t.kids[..i]) && RepSeg(m, t.kids[i..j + 1]) && RepSeg(m, t.kids[j + 1..])
  {
    var a, x, b := t.kids[..i], t.kids[i..j + 1], t.kids[j + 1..];
    assert RepSeg(m, t.kids);
    hide *;
    assert a + x + b == t.kids;
    RepCat(m, a + x, b);
    RepCat(m, a, x);
  }

  /** The new page of the node and the pages of the new run make the store hold the new node. */
  lemma StepStore(m: Store, m': Store, t: Tree, i: nat, j: nat, keys: seq<int>, cs: seq<Tree>)
    requires t.Node? && i <= j < |t.kids| && Rep(m, t) && Disj(t)
    requires t.id in m' && m'[t.id] == PageOf(Spliced(t, i, j, keys, cs))
    requires RepSeg(m', cs) && DisjSeg(cs) && t.id !in IdsSeg(cs) && IdsSeg(cs) !! Rest(t, i, j)
    requires Agrees(m, m', Rest(t, i, j))
    ensures Rep(m', Spliced(t, i, j, keys, cs)) && Disj(Spliced(t, i, j, keys, cs))
    ensures Ids(Spliced(t, i, j, keys, cs)) == {t.id} + IdsSeg(cs) + Rest(t, i, j)
  {
    hide *;
    var a, b := t.kids[..i], t.kids[j + 1..];
    RestIs(t, i, j);
    RepParts(m, t, i, j);
    IdsParts(t, i, j);
    DisjEnds(t, i, j);
    AgreesOn(m, m', Rest(t, i, j), IdsSeg(a));
    AgreesOn(m, m', Rest(t, i, j), IdsSeg(b));
    RepSegFrame(m, m', a);
    RepSegFrame(m, m', b);
    IdsCat(a + cs, b);
    IdsCat(a, cs);
    DisjCat(a + cs, b);
    DisjCat(a, cs);
    RepCat(m', a + cs, b);
    RepCat(m', a, cs);
    StepIntro(m', t.id, keys, a + cs + b);
    SplicedIs(t, i, j, keys, cs);
  }

  lemma DisjEnds(t: Tree, i: nat, j: nat)
    requires t.Node? && i <= j < |t.kids| && Disj(t)
    ensures DisjSeg(t.kids[..i]) && DisjSeg(t.kids[j + 1..]) && IdsSeg(t.kids[..i]) !! IdsSeg(t.kids[j + 1..])
  {
    var a, m, b := t.kids[..i], t.kids[i..j + 1], t.kids[j + 1..];
    assert DisjSeg(t.kids);
    hide *;
    assert a + m + b == t.kids;
    IdsCat(a, m);
    DisjCat(a + m, b);
    DisjCat(a, m);
  }

  lemma SplicedIs(t: Tree, i: nat, j: nat, keys: seq<int>, cs: seq<Tree>)
    requires t.Node? && i <= j < |t.kids|
    ensures Spliced(t, i, j, keys, cs) == Node(t.id, keys, t.kids[..i] + cs + t.kids[j + 1..])
  {
  }

  lemma StepIntro(m: Store, id: nat, keys: seq<int>, kids: seq<Tree>)
    requires RepSeg(m, kids) && DisjSeg(kids) && id !in IdsSeg(kids)
    ensures id in m && m[id] == PageOf(Node(id, keys, kids)) ==> Rep(m, Node(id, keys, kids))
    ensures Disj(Node(id, keys, kids)) && Ids(Node(id, keys, kids)) == {id} + IdsSeg(kids)
  {
  }

  lemma StepCoh(v: View, v': View, t: Tree, i: nat, j: nat, keys: seq<int>, cs: seq<Tree>)
    requires t.Node? && i <= j < |t.kids| && Coh(v, t) && CohSeg(v', cs)
    requires Keeps(v, v', FlatSeg(t.kids[..i]).keys) && Keeps(v, v', FlatSeg(t.kids[j + 1..]).keys)
    ensures Coh(v', Spliced(t, i, j, keys, cs))
  {
    var a, x, b := t.kids[..i], t.kids[i..j + 1], t.kids[j + 1..];
    assert CohSeg(v, t.kids);
    assert Coh(v', Spliced(t, i, j, keys, cs)) <== CohSeg(v', a + cs + b);
    hide *;
    assert a + x + b == t.kids;
    CohCat(v, a + x, b);
    CohCat(v, a, x);
    CohSegFrame(v, v', a);
    CohSegFrame(v, v', b);
    CohCat(v', a + cs, b);
    CohCat(v', a, cs);
  }

  lemma CohParts(v: View, t: Tree, i: nat, j: nat)
    requires t.Node? && i <= j < |t.kids| && Coh(v, t)
    ensures CohSeg(v, t.kids[i..j + 1])
  {
    var a, x, b := t.kids[..i], t.kids[i..j + 1], t.kids[j + 1..];
    assert CohSeg(v, t.kids);
    hide *;
    assert a + x + b == t.kids;
    CohCat(v, a + x, b);
    CohCat(v, a, x);
  }

  // ----- Pairs and single kids -----

  lemma OneKid(m: Store, v: View, t: Tree)
    ensures IdsSeg([t]) == Ids(t)
    ensures RepSeg(m, [t]) <==> Rep(m, t)
    ensures DisjSeg([t]) <==> Disj(t)
    ensures CohSeg(v, [t]) <==> Coh(v, t)
  {
    assert [t][1..] == [];
  }

  lemma TwoKids(m: Store, v: View, l: Tree, r: Tree)
    ensures IdsSeg([l, r]) == Ids(l) + Ids(r)
    ensures RepSeg(m, [l, r]) <==> Rep(m, l) && Rep(m, r)
    ensures DisjSeg([l, r]) <==> Disj(l) && Disj(r) && Ids(l) !! Ids(r)
    ensures CohSeg(v, [l, r]) <==> Coh(v, l) && Coh(v, r)
  {
    assert [l, r] == [l] + [r];
    hide *;
    IdsCat([l], [r]);
    RepCat(m, [l], [r]);
    DisjCat([l], [r]);
    CohCat(v, [l], [r]);
    OneKid(m, v, l);
    OneKid(m, v, r);
  }

  function KidsOf(t: Tree): seq<Tree> {
    if t.Node? then t.kids else []
  }

  lemma IdsOf(m: Store, t: Tree)
    ensures Ids(t) == {t.id} + IdsSeg(KidsOf(t))
    ensures Disj(t) <==> t.id !in IdsSeg(KidsOf(t)) && DisjSeg(KidsOf(t))
    ensures Rep(m, t) <==> t.id in m && m[t.id] == PageOf(t) && RepSeg(m, KidsOf(t))
  {
  }

  lemma CutKids(t: Tree, q: nat, rid: nat)
    requires CutAt(t, q)
    ensures
      var (l, s, r) := Cut(t, q, rid);
      KidsOf(t) == KidsOf(l) + KidsOf(r) && l.id == t.id && r.id == rid && l.Leaf? == t.Leaf? == r.Leaf?
  {
    if t.Node? {
      assert t.kids[..q + 1] + t.kids[q + 1..] == t.kids;
    }
  }

  /** Both halves of t are stored once their two pages are written; the pages below stay. */
  lemma CutStore(m: Store, m': Store, t: Tree, q: nat, rid: nat)
    requires CutAt(t, q) && RepSeg(m, KidsOf(t)) && DisjSeg(KidsOf(t))
    requires t.id !in IdsSeg(KidsOf(t)) && rid !in IdsSeg(KidsOf(t)) && t.id != rid
    requires Agrees(m, m', IdsSeg(KidsOf(t)))
    requires var (l, s, r) := Cut(t, q, rid); t.id in m' && m'[t.id] == PageOf(l) && rid in m' && m'[rid] == PageOf(r)
    ensures
      var (l, s, r) := Cut(t, q, rid);
      RepSeg(m', [l, r]) && DisjSeg([l, r]) && IdsSeg([l, r]) == {t.id, rid} + IdsSeg(KidsOf(t))
  {
    hide *;
    var (l, s, r) := Cut(t, q, rid);
    CutKids(t, q, rid);
    RepSegFrame(m, m', KidsOf(t));
    IdsCat(KidsOf(l), KidsOf(r));
    DisjCat(KidsOf(l), KidsOf(r));
    RepCat(m', KidsOf(l), KidsOf(r));
    IdsOf(m', l);
    IdsOf(m', r);
    TwoKids(m', map[], l, r);
  }

  lemma MergeKids(l: Tree, s: int, r: Tree)
    requires l.Leaf? == r.Leaf?
    ensures KidsOf(Merge(l, s, r)) == KidsOf(l) + KidsOf(r) && Merge(l, s, r).id == l.id
  {
  }

  /** What is known of the pages of two neighbours, for their union. */
  lemma MergeStore(m: Store, l: Tree, s: int, r: Tree)
    requires l.Leaf? == r.Leaf? && RepSeg(m, [l, r]) && DisjSeg([l, r])
    ensures
      var b := Merge(l, s, r);
      && RepSeg(m, KidsOf(b)) && DisjSeg(KidsOf(b)) && l.id !in IdsSeg(KidsOf(b)) && r.id !in IdsSeg(KidsOf(b))
      && l.id != r.id && b.id == l.id && IdsSeg([l, r]) == {l.id, r.id} + IdsSeg(KidsOf(b))
  {
    hide *;
    MergeKids(l, s, r);
    TwoKids(m, map[], l, r);
    IdsOf(m, l);
    IdsOf(m, r);
    IdsCat(KidsOf(l), KidsOf(r));
    DisjCat(KidsOf(l), KidsOf(r));
    RepCat(m, KidsOf(l), KidsOf(r));
  }

  lemma NodeCoh(v: View, t: Tree)
    requires t.Node?
    ensures Coh(v, t) <==> CohSeg(v, KidsOf(t))
  {
  }

  /** Inner steps do not touch leaves, so they keep coherence. */
  lemma CutNodeCoh(v: View, t: Tree, q: nat, rid: nat)
    requires CutAt(t, q) && t.Node? && Coh(v, t)
    ensures var (l, s, r) := Cut(t, q, rid); CohSeg(v, [l, r])
  {
    hide *;
    var (l, s, r) := Cut(t, q, rid);
    CutKids(t, q, rid);
    NodeCoh(v, t);
    NodeCoh(v, l);
    NodeCoh(v, r);
    CohCat(v, KidsOf(l), KidsOf(r));
    TwoKids(map[], v, l, r);
  }

  lemma MergeNodeCoh(v: View, l: Tree, s: int, r: Tree)
    requires l.Node? && r.Node? && CohSeg(v, [l, r])
    ensures Coh(v, Merge(l, s, r))
  {
    assert Merge(l, s, r).Node?;
    hide *;
    MergeKids(l, s, r);
    TwoKids(map[], v, l, r);
    NodeCoh(v, l);
    NodeCoh(v, r);
    NodeCoh(v, Merge(l, s, r));
    CohCat(v, KidsOf(l), KidsOf(r));
  }

  // ----- Cache changes confined to a key range -----

  /** Entries of keys outside (lo, hi] keep their page or leave the cache. */
  ghost predicate Outside(v: View, v': View, lo: int, hi: int) {
    forall k :: k in v' && !(lo < k <= hi) ==> k in v && v'[k].pageId == v[k].pageId
  }

  lemma OutsideTrans(v: View, v1: View, v': View, lo: int, hi: int)
    requires Outside(v, v1, lo, hi) && Outside(v1, v', lo, hi)
    ensures Outside(v, v', lo, hi)
  {
  }

  lemma OutsideWiden(v: View, v': View, lo: int, hi: int, lo': int, hi': int)
    requires Outside(v, v', lo, hi) && lo' <= lo && hi <= hi'
    ensures Outside(v, v', lo', hi')
  {
  }

  lemma OutsideSame(v: View, lo: int, hi: int)
    ensures Outside(v, v, lo, hi)
  {
  }

  lemma OutsideKeeps(v: View, v': View, lo: int, hi: int, ks: seq<int>, a: int, b: int)
    requires Outside(v, v', lo, hi) && InRange(ks, a, b) && (b <= lo || hi <= a)
    ensures Keeps(v, v', ks)
  {
  }

  /** A change of the cache inside the range of kids i .. j keeps the entries of all other kids. */
  lemma SidesKeep(v: View, v': View, t: Tree, i: nat, j: nat, lo: int, hi: int, h: nat, c: Cfg)
    requires t.Node? && OK(t, lo, hi, h, c) && c.n >= 4 && i <= j < |t.kids| && |t.kids| == |t.keys| + 1
    requires Outside(v, v', Lo(t.keys, i, lo), Hi(t.keys, j, hi))
    ensures Keeps(v, v', FlatSeg(t.kids[..i]).keys) && Keeps(v, v', FlatSeg(t.kids[j + 1..]).keys)
  {
    LeftKeep(v, v', t, i, Hi(t.keys, j, hi), lo, hi, h, c);
    RightKeep(v, v', t, j, Lo(t.keys, i, lo), lo, hi, h, c);
  }

  lemma LeftKeep(v: View, v': View, t: Tree, i: nat, b: int, lo: int, hi: int, h: nat, c: Cfg)
    requires t.Node? && OK(t, lo, hi, h, c) && c.n >= 4 && i < |t.kids| == |t.keys| + 1
    requires Outside(v, v', Lo(t.keys, i, lo), b)
    ensures Keeps(v, v', FlatSeg(t.kids[..i]).keys)
  {
    hide *;
    if i > 0 {
      var j: nat := i - 1;
      LoAt(t.keys, i, lo);
      assert t.kids[..i] == t.kids[..j + 1];
      InnerSeg(t, lo, hi, h, c);
      SidesOf(t.keys, t.kids, j, lo, hi, h - 1, c);
      OutsideKeeps(v, v', t.keys[j], b, FlatSeg(t.kids[..j + 1]).keys, lo, t.keys[j]);
    } else {
      assert t.kids[..i] == [];
      NoKids();
      KeepsNone(v, v');
    }
  }

  lemma KeepsNone(v: View, v': View)
    ensures Keeps(v, v', [])
  {
  }

  lemma RightKeep(v: View, v': View, t: Tree, j: nat, a: int, lo: int, hi: int, h: nat, c: Cfg)
    requires t.Node? && OK(t, lo, hi, h, c) && c.n >= 4 && j < |t.kids| == |t.keys| + 1
    requires Outside(v, v', a, Hi(t.keys, j, hi))
    ensures Keeps(v, v', FlatSeg(t.kids[j + 1..]).keys)
  {
    hide *;
    if j < |t.keys| {
      HiAt(t.keys, j, hi);
      InnerSeg(t, lo, hi, h, c);
      SidesOf(t.keys, t.kids, j, lo, hi, h - 1, c);
      OutsideKeeps(v, v', a, t.keys[j], FlatSeg(t.kids[j + 1..]).keys, t.keys[j], hi);
    } else {
      assert t.kids[j + 1..] == [];
      NoKids();
      KeepsNone(v, v');
    }
  }
}
