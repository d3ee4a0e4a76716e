/**
 * The B+ tree as a value: what the pages reachable from the root add up to.
 * OK is the full structural invariant; Flat is the one big sorted page a tree
 * stands for. Every restructuring step is a Splice of one run of children.
 */
module BTreeModel {
  import opened Common
  import opened Pages

  datatype Tree =
    | Leaf(id: nat, kv: KV, next: nat)
    | Node(id: nat, keys: seq<int>, kids: seq<Tree>)

  /** n is the leaf capacity (an inner node holds n - 1 keys); exact demands separators to be largest keys. */
  datatype Cfg = Cfg(n: nat, exact: bool)

  // ----- Views of a tree -----

  function KidIds(kids: seq<Tree>): (ids: seq<nat>)
    ensures |ids| == |kids| && forall i :: 0 <= i < |ids| ==> ids[i] == kids[i].id
  {
    seq(|kids|, i requires 0 <= i < |kids| => kids[i].id)
  }

  /** The page that stores the root of t. */
  function PageOf(t: Tree): Page {
    match t
    case Leaf(_, kv, next) => Outer(kv, next)
    case Node(_, keys, kids) => Inner(keys, KidIds(kids))
  }

  ghost function Cat(a: KV, b: KV): KV {
    KV(a.keys + b.keys, a.vals + b.vals)
  }

  /** All pairs of the tree in leaf order, as one page. */
  ghost function Flat(t: Tree): KV
    decreases t, 1
  {
    match t
    case Leaf(_, kv, _) => kv
    case Node(_, _, kids) => FlatSeg(kids)
  }

  ghost function FlatSeg(kids: seq<Tree>): KV
    decreases kids, 0
  {
    if kids == [] then EMPTY else Cat(Flat(kids[0]), FlatSeg(kids[1..]))
  }

  /** The id of the leftmost leaf. */
  ghost function FirstLeaf(t: Tree): nat {
    match t
    case Leaf(id, _, _) => id
    case Node(_, _, kids) => if kids == [] then 0 else FirstLeaf(kids[0])
  }

  /** The successor id stored in the rightmost leaf. */
  ghost function LastNext(t: Tree): nat {
    match t
    case Leaf(_, _, next) => next
    case Node(_, _, kids) => if kids == [] then 0 else LastNext(kids[|kids| - 1])
  }

  ghost function Last(keys: seq<int>): int {
    if keys == [] then 0 else keys[|keys| - 1]
  }

  /** The largest key of the rightmost leaf. */
  ghost function MaxKey(t: Tree): int {
    match t
    case Leaf(_, kv, _) => Last(kv.keys)
    case Node(_, _, kids) => if kids == [] then 0 else MaxKey(kids[|kids| - 1])
  }

  function Size(t: Tree): nat {
    match t
    case Leaf(_, kv, _) => |kv.keys|
    case Node(_, keys, _) => |keys|
  }

  predicate Full(t: Tree, n: nat) {
    IsFull(PageOf(t), n)
  }

  predicate Spare(t: Tree, n: nat) {
    CanDelete(PageOf(t), n)
  }

  /** The fill every node except the root keeps. */
  predicate MinFill(t: Tree, n: nat) {
    Size(t) >= if t.Leaf? then n / 2 else n / 2 - 1
  }

  // ----- The invariant -----

  function Lo(keys: seq<int>, i: nat, lo: int): int
    requires i <= |keys|
  {
    if i == 0 then lo else keys[i - 1]
  }

  function Hi(keys: seq<int>, i: nat, hi: int): int
    requires i <= |keys|
  {
    if i == |keys| then hi else keys[i]
  }

  /** t has height h, its keys lie in (lo, hi], it is ordered, within capacity, chained and filled below its root. */
  ghost predicate OK(t: Tree, lo: int, hi: int, h: nat, c: Cfg)
    decreases h, 1
  {
    Size(t) <= MaxSize(PageOf(t), c.n) && Body(t, lo, hi, h, c)
  }

  /** OK except for the capacity of the root. */
  ghost predicate Body(t: Tree, lo: int, hi: int, h: nat, c: Cfg)
    decreases h, 0
  {
    match t
    case Leaf(_, kv, _) => h == 0 && KVOk(kv) && InRange(kv.keys, lo, hi)
    case Node(_, keys, kids) => h > 0 && Seg(keys, kids, lo, hi, h - 1, c)
  }

  ghost predicate InRange(keys: seq<int>, lo: int, hi: int) {
    forall i :: 0 <= i < |keys| ==> lo < keys[i] <= hi
  }

  /** kids, separated by keys, partition (lo, hi] and are chained to each other. */
  ghost predicate Seg(keys: seq<int>, kids: seq<Tree>, lo: int, hi: int, h: nat, c: Cfg)
    decreases h, 3
  {
    SegKeys(keys, lo, hi) && SegKids(keys, kids, lo, hi, h, c) && SegLinks(keys, kids, c)
  }

  ghost predicate SegKeys(keys: seq<int>, lo: int, hi: int) {
    Sorted(keys) && forall i :: 0 <= i < |keys| ==> lo < keys[i] < hi
  }

  ghost predicate SegKids(keys: seq<int>, kids: seq<Tree>, lo: int, hi: int, h: nat, c: Cfg)
    decreases h, 2
  {
    && |kids| == |keys| + 1
    && forall i :: 0 <= i < |kids| ==> MinFill(kids[i], c.n) && OK(kids[i], Lo(keys, i, lo), Hi(keys, i, hi), h, c)
  }

  ghost predicate SegLinks(keys: seq<int>, kids: seq<Tree>, c: Cfg) {
    && |kids| == |keys| + 1
    && forall i :: 0 <= i < |keys| ==> Linked(kids[i], kids[i + 1]) && Exact(keys[i], kids[i], c)
  }

  ghost predicate Linked(a: Tree, b: Tree) {
    LastNext(a) == FirstLeaf(b)
  }

  ghost predicate Exact(s: int, t: Tree, c: Cfg) {
    c.exact ==> s == MaxKey(t)
  }

  // ----- Segments: cut, join, splice -----

  lemma CutLeft(keys: seq<int>, kids: seq<Tree>, i: nat, lo: int, hi: int, h: nat, c: Cfg)
    requires Seg(keys, kids, lo, hi, h, c) && i < |keys|
    ensures Seg(keys[..i], kids[..i + 1], lo, keys[i], h, c)
  {
    CutLeftKids(keys, kids, i, lo, hi, h, c);
    CutLinks(keys, kids, 0, i, c);
    assert keys[0..i] == keys[..i] && kids[0..i + 1] == kids[..i + 1];
  }

  lemma CutLeftKids(keys: seq<int>, kids: seq<Tree>, i: nat, lo: int, hi: int, h: nat, c: Cfg)
    requires SegKids(keys, kids, lo, hi, h, c) && i < |keys|
    ensures SegKids(keys[..i], kids[..i + 1], lo, keys[i], h, c)
  {
    var ks, cs := keys[..i], kids[..i + 1];
    forall m | 0 <= m < |cs| ensures MinFill(cs[m], c.n) && OK(cs[m], Lo(ks, m, lo), Hi(ks, m, keys[i]), h, c) {
      assert cs[m] == kids[m] && Lo(ks, m, lo) == Lo(keys, m, lo) && Hi(ks, m, keys[i]) == Hi(keys, m, hi);
    }
  }

  lemma CutRight(keys: seq<int>, kids: seq<Tree>, i: nat, lo: int, hi: int, h: nat, c: Cfg)
    requires Seg(keys, kids, lo, hi, h, c) && i < |keys|
    ensures Seg(keys[i + 1..], kids[i + 1..], keys[i], hi, h, c)
  {
    CutRightKeys(keys, i, lo, hi);
    CutRightKids(keys, kids, i, lo, hi, h, c);
    CutLinks(keys, kids, i + 1, |keys|, c);
    assert keys[i + 1..|keys|] == keys[i + 1..] && kids[i + 1..|keys| + 1] == kids[i + 1..];
  }

  lemma CutRightKeys(keys: seq<int>, i: nat, lo: int, hi: int)
    requires SegKeys(keys, lo, hi) && i < |keys|
    ensures SegKeys(keys[i + 1..], keys[i], hi)
  {
  }

  lemma CutRightKids(keys: seq<int>, kids: seq<Tree>, i: nat, lo: int, hi: int, h: nat, c: Cfg)
    requires SegKids(keys, kids, lo, hi, h, c) && i < |keys|
    ensures SegKids(keys[i + 1..], kids[i + 1..], keys[i], hi, h, c)
  {
    var ks, cs := keys[i + 1..], kids[i + 1..];
    forall m | 0 <= m < |cs| ensures MinFill(cs[m], c.n) && OK(cs[m], Lo(ks, m, keys[i]), Hi(ks, m, hi), h, c) {
      var q := i + 1 + m;
      assert cs[m] == kids[q] && Lo(ks, m, keys[i]) == Lo(keys, q, lo) && Hi(ks, m, hi) == Hi(keys, q, hi);
    }
  }

  lemma CutLinks(keys: seq<int>, kids: seq<Tree>, i: nat, j: nat, c: Cfg)
    requires SegLinks(keys, kids, c) && i <= j <= |keys|
    ensures SegLinks(keys[i..j], kids[i..j + 1], c)
  {
    var ks, cs := keys[i..j], kids[i..j + 1];
    forall m | 0 <= m < |ks| ensures Linked(cs[m], cs[m + 1]) && Exact(ks[m], cs[m], c) {
      assert Linked(kids[i + m], kids[i + m + 1]) && Exact(keys[i + m], kids[i + m], c);
    }
  }

  lemma JoinKids(ka: seq<int>, ca: seq<Tree>, s: int, kb: seq<int>, cb: seq<Tree>, lo: int, hi: int, h: nat, c: Cfg)
    requires SegKids(ka, ca, lo, s, h, c) && SegKids(kb, cb, s, hi, h, c)
    ensures SegKids(ka + [s] + kb, ca + cb, lo, hi, h, c)
  {
    var ks, cs := ka + [s] + kb, ca + cb;
    forall m | 0 <= m < |cs| ensures MinFill(cs[m], c.n) && OK(cs[m], Lo(ks, m, lo), Hi(ks, m, hi), h, c) {
      if m < |ca| {
        assert cs[m] == ca[m] && Lo(ks, m, lo) == Lo(ka, m, lo) && Hi(ks, m, hi) == Hi(ka, m, s);
      } else {
        var q := m - |ca|;
        assert cs[m] == cb[q] && Lo(ks, m, lo) == Lo(kb, q, s) && Hi(ks, m, hi) == Hi(kb, q, hi);
      }
    }
  }

  lemma JoinLinks(ka: seq<int>, ca: seq<Tree>, s: int, kb: seq<int>, cb: seq<Tree>, c: Cfg)
    requires SegLinks(ka, ca, c) && SegLinks(kb, cb, c)
    requires Linked(ca[|ca| - 1], cb[0]) && Exact(s, ca[|ca| - 1], c)
    ensures SegLinks(ka + [s] + kb, ca + cb, c)
  {
    var ks, cs := ka + [s] + kb, ca + cb;
    forall m | 0 <= m < |ks| ensures Linked(cs[m], cs[m + 1]) && Exact(ks[m], cs[m], c) {
      if m < |ka| {
        assert Linked(ca[m], ca[m + 1]);
      } else if m > |ka| {
        assert Linked(cb[m - |ca|], cb[m + 1 - |ca|]);
      }
    }
  }

  lemma JoinKeys(ka: seq<int>, s: int, kb: seq<int>, lo: int, hi: int)
    requires SegKeys(ka, lo, s) && SegKeys(kb, s, hi) && lo < s < hi
    ensures SegKeys(ka + [s] + kb, lo, hi)
  {
  }

  lemma Join(ka: seq<int>, ca: seq<Tree>, s: int, kb: seq<int>, cb: seq<Tree>, lo: int, hi: int, h: nat, c: Cfg)
    requires Seg(ka, ca, lo, s, h, c) && Seg(kb, cb, s, hi, h, c) && lo < s < hi
    requires Linked(ca[|ca| - 1], cb[0]) && Exact(s, ca[|ca| - 1], c)
    ensures Seg(ka + [s] + kb, ca + cb, lo, hi, h, c)
  {
    JoinKeys(ka, s, kb, lo, hi);
    JoinKids(ka, ca, s, kb, cb, lo, hi, h, c);
    JoinLinks(ka, ca, s, kb, cb, c);
  }

  /** The end conditions under which cs may stand where the run a..b of kids stood. */
  ghost predicate SameEnds(a: Tree, b: Tree, cs: seq<Tree>, c: Cfg) {
    && cs != []
    && FirstLeaf(cs[0]) == FirstLeaf(a)
    && LastNext(cs[|cs| - 1]) == LastNext(b)
    && (c.exact ==> MaxKey(cs[|cs| - 1]) == MaxKey(b))
  }

  /** Replacing kids i .. j and the separators between them by another segment of the same range. */
  lemma Splice(keys: seq<int>, kids: seq<Tree>, i: nat, j: nat, ks: seq<int>, cs: seq<Tree>, lo: int, hi: int, h: nat, c: Cfg)
    requires Seg(keys, kids, lo, hi, h, c) && i <= j < |kids|
    requires Seg(ks, cs, Lo(keys, i, lo), Hi(keys, j, hi), h, c)
    requires SameEnds(kids[i], kids[j], cs, c)
    requires Lo(keys, i, lo) < Hi(keys, j, hi)
    ensures Seg(keys[..i] + ks + keys[j..], kids[..i] + cs + kids[j + 1..], lo, hi, h, c)
  {
    assert |kids| == |keys| + 1 && |cs| == |ks| + 1;
    assert i > 0 ==> Linked(kids[i - 1], cs[0]) by {
      if i > 0 {
        LinkedTo(keys, kids, i - 1, lo, hi, h, c);
      }
    }
    var mid, z := Hi(keys, j, hi), cs[|cs| - 1];
    assert j < |keys| ==> Linked(z, kids[j + 1]) && Exact(keys[j], z, c) by {
      if j < |keys| {
        LinkedTo(keys, kids, j, lo, hi, h, c);
      }
    }
    assert mid == if j < |keys| then keys[j] else hi;
    hide *;
    var ls, lc := keys[..i] + ks, kids[..i] + cs;
    SpliceLeft(keys, kids, i, ks, cs, lo, mid, hi, h, c);
    assert |lc| == |ls| + 1 && lc[|lc| - 1] == z;
    if j < |keys| {
      SpliceRight(keys, kids, j, ls, lc, lo, hi, h, c);
    } else {
      assert ls + keys[j..] == ls && lc + kids[j + 1..] == lc;
      SegEq(ls, ls + keys[j..], lc, lc + kids[j + 1..], lo, hi, h, c);
    }
  }

  lemma LinkedTo(keys: seq<int>, kids: seq<Tree>, i: nat, lo: int, hi: int, h: nat, c: Cfg)
    requires Seg(keys, kids, lo, hi, h, c) && i < |keys|
    ensures Linked(kids[i], kids[i + 1]) && Exact(keys[i], kids[i], c) && lo < keys[i] < hi
  {
  }

  lemma SpliceLeft(keys: seq<int>, kids: seq<Tree>, i: nat, ks: seq<int>, cs: seq<Tree>, lo: int, mid: int, hi: int, h: nat, c: Cfg)
    requires Seg(keys, kids, lo, hi, h, c) && i < |kids|
    requires Seg(ks, cs, Lo(keys, i, lo), mid, h, c) && (i > 0 ==> Linked(kids[i - 1], cs[0]))
    requires Lo(keys, i, lo) < mid
    ensures Seg(keys[..i] + ks, kids[..i] + cs, lo, mid, h, c)
  {
    assert |kids| == |keys| + 1 && |cs| == |ks| + 1;
    assert Lo(keys, i, lo) == if i == 0 then lo else keys[i - 1];
    hide *;
    if i == 0 {
      assert keys[..i] + ks == ks && kids[..i] + cs == cs;
      SegEq(ks, keys[..i] + ks, cs, kids[..i] + cs, lo, mid, h, c);
    } else {
      SpliceLeft'(keys, kids, i - 1, ks, cs, lo, mid, hi, h, c);
    }
  }

  lemma SpliceLeft'(keys: seq<int>, kids: seq<Tree>, i: nat, ks: seq<int>, cs: seq<Tree>, lo: int, mid: int, hi: int, h: nat, c: Cfg)
    requires Seg(keys, kids, lo, hi, h, c) && i < |keys| && |kids| == |keys| + 1
    requires Seg(ks, cs, keys[i], mid, h, c) && |cs| == |ks| + 1 && Linked(kids[i], cs[0])
    requires keys[i] < mid
    ensures Seg(keys[..i + 1] + ks, kids[..i + 1] + cs, lo, mid, h, c)
  {
    hide *;
    var ca := kids[..i + 1];
    CutLeft(keys, kids, i, lo, hi, h, c);
    LinkedTo(keys, kids, i, lo, hi, h, c);
    assert ca[|ca| - 1] == kids[i];
    Join(keys[..i], ca, keys[i], ks, cs, lo, mid, h, c);
    Absorb(keys, i, ks);
    SegEq(keys[..i] + [keys[i]] + ks, keys[..i + 1] + ks, ca + cs, ca + cs, lo, mid, h, c);
  }

  lemma Absorb(keys: seq<int>, i: nat, ks: seq<int>)
    requires i < |keys|
    ensures keys[..i] + [keys[i]] + ks == keys[..i + 1] + ks
  {
    assert keys[..i] + [keys[i]] == keys[..i + 1];
  }

  lemma SpliceRight(keys: seq<int>, kids: seq<Tree>, j: nat, ls: seq<int>, lc: seq<Tree>, lo: int, hi: int, h: nat, c: Cfg)
    requires Seg(keys, kids, lo, hi, h, c) && j < |keys| && |kids| == |keys| + 1
    requires Seg(ls, lc, lo, keys[j], h, c) && |lc| == |ls| + 1
    requires Linked(lc[|lc| - 1], kids[j + 1]) && Exact(keys[j], lc[|lc| - 1], c)
    ensures Seg(ls + keys[j..], lc + kids[j + 1..], lo, hi, h, c)
  {
    hide *;
    var kb, cb := keys[j + 1..], kids[j + 1..];
    CutRight(keys, kids, j, lo, hi, h, c);
    LinkedTo(keys, kids, j, lo, hi, h, c);
    assert cb[0] == kids[j + 1];
    Join(ls, lc, keys[j], kb, cb, lo, hi, h, c);
    AbsorbRight(ls, keys, j);
    SegEq(ls + [keys[j]] + kb, ls + keys[j..], lc + cb, lc + cb, lo, hi, h, c);
  }

  lemma AbsorbRight(ls: seq<int>, keys: seq<int>, j: nat)
    requires j < |keys|
    ensures ls + [keys[j]] + keys[j + 1..] == ls + keys[j..]
  {
    assert [keys[j]] + keys[j + 1..] == keys[j..];
  }

  lemma SegEq(ks: seq<int>, ks': seq<int>, cs: seq<Tree>, cs': seq<Tree>, lo: int, hi: int, h: nat, c: Cfg)
    requires Seg(ks, cs, lo, hi, h, c) && ks == ks' && cs == cs'
    ensures Seg(ks', cs', lo, hi, h, c)
  {
  }

  /** Replacing one kid by another one of the same range. */
  lemma Replace(keys: seq<int>, kids: seq<Tree>, i: nat, kid: Tree, lo: int, hi: int, h: nat, c: Cfg)
    requires Seg(keys, kids, lo, hi, h, c) && i < |kids|
    requires MinFill(kid, c.n) && OK(kid, Lo(keys, i, lo), Hi(keys, i, hi), h, c)
    requires FirstLeaf(kid) == FirstLeaf(kids[i]) && LastNext(kid) == LastNext(kids[i])
    requires c.exact && i < |keys| ==> MaxKey(kid) == MaxKey(kids[i])
    ensures Seg(keys, kids[i := kid], lo, hi, h, c)
  {
    var cs := kids[i := kid];
    forall m | 0 <= m < |keys| ensures Linked(cs[m], cs[m + 1]) && Exact(keys[m], cs[m], c) {
      assert Linked(kids[m], kids[m + 1]);
    }
  }

  // ----- Flat -----

  lemma {:induction false} FlatCat(a: seq<Tree>, b: seq<Tree>)
    ensures FlatSeg(a + b) == Cat(FlatSeg(a), FlatSeg(b))
  {
    if a == [] {
      assert a + b == b;
    } else {
      assert (a + b)[1..] == a[1..] + b;
      FlatCat(a[1..], b);
    }
  }

  lemma FlatAt(kids: seq<Tree>, i: nat)
    requires i < |kids|
    ensures FlatSeg(kids) == Cat(Cat(FlatSeg(kids[..i]), Flat(kids[i])), FlatSeg(kids[i + 1..]))
  {
    var a, b := kids[..i], kids[i..];
    assert b[0] == kids[i] && b[1..] == kids[i + 1..];
    assert FlatSeg(b) == Cat(Flat(kids[i]), FlatSeg(kids[i + 1..]));
    FlatCat(a, b);
    assert a + b == kids;
    CatAssoc(FlatSeg(a), Flat(kids[i]), FlatSeg(kids[i + 1..]));
  }

  lemma CatAssoc(a: KV, b: KV, c: KV)
    ensures Cat(Cat(a, b), c) == Cat(a, Cat(b, c))
  {
  }

  /** Replacing a run of kids by one with the same pairs leaves the pairs of the node alone. */
  lemma FlatSplice(kids: seq<Tree>, i: nat, j: nat, cs: seq<Tree>)
    requires i <= j < |kids|
    requires FlatSeg(cs) == FlatSeg(kids[i..j + 1])
    ensures FlatSeg(kids[..i] + cs + kids[j + 1..]) == FlatSeg(kids)
  {
    hide *;
    var l, m, r := kids[..i], kids[i..j + 1], kids[j + 1..];
    assert l + m + r == kids;
    FlatCat(l + cs, r);
    FlatCat(l, cs);
    FlatCat(l + m, r);
    FlatCat(l, m);
  }

  lemma FlatPair(a: Tree, b: Tree)
    ensures FlatSeg([a, b]) == Cat(Flat(a), Flat(b))
  {
    assert [a, b][1..] == [b];
    FlatCat([b], []);
    assert FlatSeg([b]) == Cat(Flat(b), EMPTY);
  }

  lemma FlatOne(a: Tree)
    ensures FlatSeg([a]) == Flat(a)
  {
    assert FlatSeg([a]) == Cat(Flat(a), EMPTY);
  }

  /** A tree is a sorted page within its range, and the non-root ones are not empty. */
  lemma {:induction false} FlatOK(t: Tree, lo: int, hi: int, h: nat, c: Cfg)
    requires OK(t, lo, hi, h, c) && c.n >= 4
    ensures KVOk(Flat(t)) && InRange(Flat(t).keys, lo, hi)
    ensures MinFill(t, c.n) || t.Node? ==> |Flat(t).keys| >= 2 && Last(Flat(t).keys) == MaxKey(t)
    decreases h, 0, 0
  {
    hide *;
    if t.Leaf? {
      FlatLeaf(t, lo, hi, h, c);
    } else {
      InnerSeg(t, lo, hi, h, c);
      SegFlat(t.keys, t.kids, lo, hi, h - 1, c);
      FlatNode(t);
    }
  }

  lemma FlatLeaf(t: Tree, lo: int, hi: int, h: nat, c: Cfg)
    requires t.Leaf? && OK(t, lo, hi, h, c) && c.n >= 4
    ensures KVOk(Flat(t)) && InRange(Flat(t).keys, lo, hi)
    ensures MinFill(t, c.n) ==> |Flat(t).keys| >= 2 && Last(Flat(t).keys) == MaxKey(t)
  {
  }

  lemma FlatNode(t: Tree)
    requires t.Node? && t.kids != []
    ensures Flat(t) == FlatSeg(t.kids) && MaxKey(t) == MaxKey(t.kids[|t.kids| - 1])
  {
  }

  lemma {:induction false} SegFlat(keys: seq<int>, kids: seq<Tree>, lo: int, hi: int, h: nat, c: Cfg)
    requires Seg(keys, kids, lo, hi, h, c) && c.n >= 4
    ensures KVOk(FlatSeg(kids)) && InRange(FlatSeg(kids).keys, lo, hi)
    ensures |FlatSeg(kids).keys| >= 2 && Last(FlatSeg(kids).keys) == MaxKey(kids[|kids| - 1])
    decreases h, 1, |kids|
  {
    hide *;
    SegFirst(keys, kids, lo, hi, h, c);
    if |keys| == 0 {
      FlatOK(kids[0], lo, hi, h, c);
      FlatOne(kids[0]);
      assert kids == [kids[0]];
    } else {
      FlatOK(kids[0], lo, keys[0], h, c);
      CutRight(keys, kids, 0, lo, hi, h, c);
      SegFlat(keys[1..], kids[1..], keys[0], hi, h, c);
      FlatHead(kids, lo, keys[0], hi);
    }
  }

  lemma SegFirst(keys: seq<int>, kids: seq<Tree>, lo: int, hi: int, h: nat, c: Cfg)
    requires Seg(keys, kids, lo, hi, h, c)
    ensures |kids| == |keys| + 1 && MinFill(kids[0], c.n) && (|keys| > 0 ==> lo < keys[0] < hi)
    ensures OK(kids[0], lo, if |keys| == 0 then hi else keys[0], h, c)
  {
  }

  lemma FlatHead(kids: seq<Tree>, lo: int, s: int, hi: int)
    requires |kids| > 1 && lo < s < hi
    requires KVOk(Flat(kids[0])) && InRange(Flat(kids[0]).keys, lo, s)
    requires KVOk(FlatSeg(kids[1..])) && InRange(FlatSeg(kids[1..]).keys, s, hi)
    requires |FlatSeg(kids[1..]).keys| >= 2
    ensures KVOk(FlatSeg(kids)) && InRange(FlatSeg(kids).keys, lo, hi)
    ensures |FlatSeg(kids).keys| >= 2 && Last(FlatSeg(kids).keys) == Last(FlatSeg(kids[1..]).keys)
  {
  }

  // ----- Moving a boundary: merge two neighbours, cut one tree in two -----

  /** l and r as one node; s is the separator between them. */
  ghost function Merge(l: Tree, s: int, r: Tree): Tree {
    match l
    case Leaf(id, kv, _) => Leaf(id, Cat(kv, Flat(r)), LastNext(r))
    case Node(id, keys, kids) => if r.Node? then Node(id, keys + [s] + r.keys, kids + r.kids) else l
  }

  /** The two halves of t with the left one keeping q keys, and the separator between them. */
  ghost function Cut(t: Tree, q: nat, rid: nat): (Tree, int, Tree)
    requires CutAt(t, q)
  {
    match t
    case Leaf(id, kv, next) =>
      (Leaf(id, KV(kv.keys[..q], kv.vals[..q]), rid), kv.keys[q - 1], Leaf(rid, KV(kv.keys[q..], kv.vals[q..]), next))
    case Node(id, keys, kids) =>
      (Node(id, keys[..q], kids[..q + 1]), keys[q], Node(rid, keys[q + 1..], kids[q + 1..]))
  }

  ghost predicate CutAt(t: Tree, q: nat) {
    match t
    case Leaf(_, kv, _) => 0 < q < |kv.keys| == |kv.vals|
    case Node(_, keys, kids) => q < |keys| && |kids| == |keys| + 1
  }

  /** Both halves end up within the fill limits. */
  ghost predicate CutFits(t: Tree, q: nat, n: nat) {
    match t
    case Leaf(_, kv, _) => n / 2 <= q <= n && n / 2 <= |kv.keys| - q <= n
    case Node(_, keys, _) => n / 2 - 1 <= q <= n - 1 && n / 2 - 1 <= |keys| - q - 1 <= n - 1
  }

  lemma PairSeg(l: Tree, s: int, r: Tree, lo: int, hi: int, h: nat, c: Cfg)
    requires OK(l, lo, s, h, c) && OK(r, s, hi, h, c) && MinFill(l, c.n) && MinFill(r, c.n)
    requires lo < s < hi && Linked(l, r) && Exact(s, l, c)
    ensures Seg([s], [l, r], lo, hi, h, c)
  {
    assert SegKids([s], [l, r], lo, hi, h, c) by {
      assert Lo([s], 1, lo) == s && Hi([s], 0, hi) == s;
    }
  }

  lemma SegOne(t: Tree, lo: int, hi: int, h: nat, c: Cfg)
    requires OK(t, lo, hi, h, c) && MinFill(t, c.n)
    ensures Seg([], [t], lo, hi, h, c)
  {
  }

  lemma CutLeafOK(t: Tree, q: nat, rid: nat, lo: int, hi: int, c: Cfg)
    requires t.Leaf? && Body(t, lo, hi, 0, c) && CutAt(t, q) && CutFits(t, q, c.n)
    ensures var (l, s, r) := Cut(t, q, rid); Seg([s], [l, r], lo, hi, 0, c)
  {
    var (l, s, r) := Cut(t, q, rid);
    assert s < t.kv.keys[q] <= hi;
    assert Size(l) == q && Size(r) == |t.kv.keys| - q;
    assert OK(l, lo, s, 0, c) && OK(r, s, hi, 0, c);
    PairSeg(l, s, r, lo, hi, 0, c);
  }

  lemma CutNodeOK(t: Tree, q: nat, rid: nat, lo: int, hi: int, h: nat, c: Cfg)
    requires t.Node? && Body(t, lo, hi, h, c) && CutAt(t, q) && CutFits(t, q, c.n)
    ensures var (l, s, r) := Cut(t, q, rid); Seg([s], [l, r], lo, hi, h, c)
  {
    var (l, s, r) := Cut(t, q, rid);
    CutLeft(t.keys, t.kids, q, lo, hi, h - 1, c);
    CutRight(t.keys, t.kids, q, lo, hi, h - 1, c);
    LinkedTo(t.keys, t.kids, q, lo, hi, h - 1, c);
    CutEdges(t, q, rid, c);
    assert MinFill(l, c.n) && MinFill(r, c.n);
    hide *;
    NodeOK(t.id, t.keys[..q], t.kids[..q + 1], lo, s, h, c);
    NodeOK(rid, t.keys[q + 1..], t.kids[q + 1..], s, hi, h, c);
    PairSeg(l, s, r, lo, hi, h, c);
  }

  lemma NodeOK(id: nat, keys: seq<int>, kids: seq<Tree>, lo: int, hi: int, h: nat, c: Cfg)
    requires h > 0 && Seg(keys, kids, lo, hi, h - 1, c) && |keys| <= c.n - 1
    ensures OK(Node(id, keys, kids), lo, hi, h, c)
  {
  }

  lemma CutEdges(t: Tree, q: nat, rid: nat, c: Cfg)
    requires t.Node? && CutAt(t, q) && Linked(t.kids[q], t.kids[q + 1]) && Exact(t.keys[q], t.kids[q], c)
    ensures var (l, s, r) := Cut(t, q, rid); Linked(l, r) && Exact(s, l, c)
  {
  }

  lemma CutOK(t: Tree, q: nat, rid: nat, lo: int, hi: int, h: nat, c: Cfg)
    requires Body(t, lo, hi, h, c) && CutAt(t, q) && CutFits(t, q, c.n)
    ensures var (l, s, r) := Cut(t, q, rid); Seg([s], [l, r], lo, hi, h, c)
  {
    if t.Leaf? {
      CutLeafOK(t, q, rid, lo, hi, c);
    } else {
      CutNodeOK(t, q, rid, lo, hi, h, c);
    }
  }

  lemma CutFlat(t: Tree, q: nat, rid: nat)
    requires CutAt(t, q)
    ensures var (l, s, r) := Cut(t, q, rid); FlatSeg([l, r]) == Flat(t)
  {
    var (l, s, r) := Cut(t, q, rid);
    FlatPair(l, r);
    if t.Node? {
      assert t.kids[..q + 1] + t.kids[q + 1..] == t.kids;
      FlatCat(t.kids[..q + 1], t.kids[q + 1..]);
    } else {
      assert t.kv.keys[..q] + t.kv.keys[q..] == t.kv.keys && t.kv.vals[..q] + t.kv.vals[q..] == t.kv.vals;
    }
  }

  lemma CutEnds(t: Tree, q: nat, rid: nat, c: Cfg)
    requires CutAt(t, q)
    ensures var (l, s, r) := Cut(t, q, rid); SameEnds(t, t, [l, r], c)
  {
  }

  lemma InnerSeg(t: Tree, lo: int, hi: int, h: nat, c: Cfg)
    requires OK(t, lo, hi, h, c)
    ensures t.Leaf? <==> h == 0
    ensures t.Node? ==> Seg(t.keys, t.kids, lo, hi, h - 1, c) && |t.kids| == |t.keys| + 1 && |t.keys| <= c.n - 1
  {
  }

  lemma MergeLeafOK(l: Tree, s: int, r: Tree, lo: int, hi: int, c: Cfg)
    requires l.Leaf? && OK(l, lo, s, 0, c) && OK(r, s, hi, 0, c) && lo < s < hi
    ensures Body(Merge(l, s, r), lo, hi, 0, c)
  {
    var kv := Cat(l.kv, r.kv);
    assert KVOk(kv) && InRange(kv.keys, lo, hi);
  }

  lemma NodeEdges(l: Tree, r: Tree, s: int, c: Cfg)
    requires l.Node? && r.Node? && l.kids != [] && r.kids != [] && Linked(l, r) && Exact(s, l, c)
    ensures Linked(l.kids[|l.kids| - 1], r.kids[0]) && Exact(s, l.kids[|l.kids| - 1], c)
  {
  }

  lemma MergeNodeOK(l: Tree, s: int, r: Tree, lo: int, hi: int, h: nat, c: Cfg)
    requires l.Node? && OK(l, lo, s, h, c) && OK(r, s, hi, h, c)
    requires lo < s < hi && Linked(l, r) && Exact(s, l, c)
    ensures Body(Merge(l, s, r), lo, hi, h, c)
  {
    hide *;
    InnerSeg(l, lo, s, h, c);
    InnerSeg(r, s, hi, h, c);
    NodeEdges(l, r, s, c);
    Join(l.keys, l.kids, s, r.keys, r.kids, lo, hi, h - 1, c);
    NodeBody(l.id, l.keys + [s] + r.keys, l.kids + r.kids, lo, hi, h, c);
    MergeNode(l, s, r);
  }

  lemma NodeBody(id: nat, keys: seq<int>, kids: seq<Tree>, lo: int, hi: int, h: nat, c: Cfg)
    requires h > 0 && Seg(keys, kids, lo, hi, h - 1, c)
    ensures Body(Node(id, keys, kids), lo, hi, h, c)
  {
  }

  lemma MergeNode(l: Tree, s: int, r: Tree)
    requires l.Node? && r.Node?
    ensures Merge(l, s, r) == Node(l.id, l.keys + [s] + r.keys, l.kids + r.kids)
  {
  }

  lemma MergeOK(l: Tree, s: int, r: Tree, lo: int, hi: int, h: nat, c: Cfg)
    requires OK(l, lo, s, h, c) && OK(r, s, hi, h, c)
    requires lo < s < hi && Linked(l, r) && Exact(s, l, c)
    ensures Body(Merge(l, s, r), lo, hi, h, c)
    ensures l.Leaf? == r.Leaf?
    ensures Size(Merge(l, s, r)) == Size(l) + Size(r) + if l.Leaf? then 0 else 1
  {
    InnerSeg(l, lo, s, h, c);
    InnerSeg(r, s, hi, h, c);
    if l.Leaf? {
      MergeLeafOK(l, s, r, lo, hi, c);
    } else {
      MergeNodeOK(l, s, r, lo, hi, h, c);
    }
  }

  lemma MergeFlat(l: Tree, s: int, r: Tree)
    requires l.Leaf? == r.Leaf?
    ensures Flat(Merge(l, s, r)) == Cat(Flat(l), Flat(r))
  {
    if l.Node? {
      FlatCat(l.kids, r.kids);
    }
  }

  lemma MergeEnds(l: Tree, s: int, r: Tree, c: Cfg)
    requires l.Leaf? == r.Leaf?
    requires l.Node? ==> l.kids != [] && r.kids != []
    requires l.Leaf? ==> r.kv.keys != []
    ensures SameEnds(l, r, [Merge(l, s, r)], c)
  {
  }

  // ----- Steps on a node: kids i .. j replaced by another segment -----

  ghost function Splicing(t: Tree, i: nat, j: nat, ks: seq<int>, cs: seq<Tree>): Tree
    requires t.Node? && |t.kids| == |t.keys| + 1 && i <= j < |t.kids|
  {
    Node(t.id, t.keys[..i] + ks + t.keys[j..], t.kids[..i] + cs + t.kids[j + 1..])
  }

  /** Same pairs, same outer links, same root page: what every restructuring step keeps. */
  ghost predicate Same(t: Tree, t': Tree) {
    Flat(t') == Flat(t) && FirstLeaf(t') == FirstLeaf(t) && LastNext(t') == LastNext(t) && t'.id == t.id
  }

  lemma RangeAt(t: Tree, i: nat, j: nat, lo: int, hi: int, h: nat, c: Cfg)
    requires t.Node? && OK(t, lo, hi, h, c) && i <= j < |t.kids| && (i == 0 && j == |t.keys| ==> lo < hi)
    ensures |t.kids| == |t.keys| + 1
    ensures Lo(t.keys, i, lo) < Hi(t.keys, j, hi)
  {
    InnerSeg(t, lo, hi, h, c);
  }

  lemma SpliceEnds(t: Tree, i: nat, j: nat, ks: seq<int>, cs: seq<Tree>, c: Cfg)
    requires t.Node? && |t.kids| == |t.keys| + 1 && i <= j < |t.kids|
    requires SameEnds(t.kids[i], t.kids[j], cs, c)
    ensures FirstLeaf(Splicing(t, i, j, ks, cs)) == FirstLeaf(t)
    ensures LastNext(Splicing(t, i, j, ks, cs)) == LastNext(t)
  {
    var kids := t.kids[..i] + cs + t.kids[j + 1..];
    assert kids[0] == if i == 0 then cs[0] else t.kids[0];
    assert kids[|kids| - 1] == if j == |t.keys| then cs[|cs| - 1] else t.kids[|t.kids| - 1];
  }

  lemma SpliceNode(t: Tree, i: nat, j: nat, ks: seq<int>, cs: seq<Tree>, lo: int, hi: int, h: nat, c: Cfg)
    requires t.Node? && OK(t, lo, hi, h, c) && i <= j < |t.kids| == |t.keys| + 1 && lo < hi && h > 0
    requires Seg(ks, cs, Lo(t.keys, i, lo), Hi(t.keys, j, hi), h - 1, c)
    requires SameEnds(t.kids[i], t.kids[j], cs, c)
    requires FlatSeg(cs) == FlatSeg(t.kids[i..j + 1])
    ensures Body(Splicing(t, i, j, ks, cs), lo, hi, h, c)
    ensures Same(t, Splicing(t, i, j, ks, cs))
  {
    hide *;
    var keys', kids' := t.keys[..i] + ks + t.keys[j..], t.kids[..i] + cs + t.kids[j + 1..];
    InnerSeg(t, lo, hi, h, c);
    RangeAt(t, i, j, lo, hi, h, c);
    Splice(t.keys, t.kids, i, j, ks, cs, lo, hi, h - 1, c);
    NodeBody(t.id, keys', kids', lo, hi, h, c);
    FlatSplice(t.kids, i, j, cs);
    SpliceEnds(t, i, j, ks, cs, c);
    SplicingIs(t, i, j, ks, cs);
    SameNode(t, keys', kids');
  }

  lemma SplicingIs(t: Tree, i: nat, j: nat, ks: seq<int>, cs: seq<Tree>)
    requires t.Node? && |t.kids| == |t.keys| + 1 && i <= j < |t.kids|
    ensures Splicing(t, i, j, ks, cs) == Node(t.id, t.keys[..i] + ks + t.keys[j..], t.kids[..i] + cs + t.kids[j + 1..])
  {
  }

  lemma SameNode(t: Tree, keys: seq<int>, kids: seq<Tree>)
    requires t.Node? && FlatSeg(kids) == FlatSeg(t.kids)
    requires FirstLeaf(Node(t.id, keys, kids)) == FirstLeaf(t) && LastNext(Node(t.id, keys, kids)) == LastNext(t)
    ensures Same(t, Node(t.id, keys, kids))
  {
  }

  /** What OK(t) says about two neighbours. */
  lemma PairAt(t: Tree, j: nat, lo: int, hi: int, h: nat, c: Cfg)
    requires t.Node? && OK(t, lo, hi, h, c) && j < |t.keys|
    ensures |t.kids| == |t.keys| + 1 && h > 0
    ensures OK(t.kids[j], Lo(t.keys, j, lo), t.keys[j], h - 1, c) && MinFill(t.kids[j], c.n)
    ensures OK(t.kids[j + 1], t.keys[j], Hi(t.keys, j + 1, hi), h - 1, c) && MinFill(t.kids[j + 1], c.n)
    ensures Linked(t.kids[j], t.kids[j + 1]) && Exact(t.keys[j], t.kids[j], c)
    ensures Lo(t.keys, j, lo) < t.keys[j] < Hi(t.keys, j + 1, hi)
  {
    InnerSeg(t, lo, hi, h, c);
  }

  /** Kids j and j + 1 of t as one node. */
  ghost function Both(t: Tree, j: nat): Tree
    requires t.Node? && |t.kids| == |t.keys| + 1 && j < |t.keys|
  {
    Merge(t.kids[j], t.keys[j], t.kids[j + 1])
  }

  lemma BothOK(t: Tree, j: nat, lo: int, hi: int, h: nat, c: Cfg)
    requires t.Node? && OK(t, lo, hi, h, c) && |t.kids| == |t.keys| + 1 && j < |t.keys| && h > 0 && c.n >= 4
    ensures Body(Both(t, j), Lo(t.keys, j, lo), Hi(t.keys, j + 1, hi), h - 1, c)
    ensures t.kids[j].Leaf? == t.kids[j + 1].Leaf?
    ensures Size(Both(t, j)) == Size(t.kids[j]) + Size(t.kids[j + 1]) + if t.kids[j].Leaf? then 0 else 1
    ensures Flat(Both(t, j)) == FlatSeg(t.kids[j..j + 2])
    ensures SameEnds(t.kids[j], t.kids[j + 1], [Both(t, j)], c)
  {
    hide *;
    var l, s, r := t.kids[j], t.keys[j], t.kids[j + 1];
    var l0, r1 := Lo(t.keys, j, lo), Hi(t.keys, j + 1, hi);
    PairAt(t, j, lo, hi, h, c);
    InnerSeg(l, l0, s, h - 1, c);
    InnerSeg(r, s, r1, h - 1, c);
    LeafNotEmpty(r, c.n);
    MergeOK(l, s, r, l0, r1, h - 1, c);
    MergeFlat(l, s, r);
    FlatPair(l, r);
    MergeEnds(l, s, r, c);
    assert t.kids[j..j + 2] == [l, r];
    BothIs(t, j);
  }

  lemma BothIs(t: Tree, j: nat)
    requires t.Node? && |t.kids| == |t.keys| + 1 && j < |t.keys|
    ensures Both(t, j) == Merge(t.kids[j], t.keys[j], t.kids[j + 1])
  {
  }

  lemma LeafNotEmpty(t: Tree, n: nat)
    requires MinFill(t, n) && n >= 4
    ensures t.Leaf? ==> |t.kv.keys| >= 2
  {
  }

  /** Move the boundary between kids j and j + 1 so that the left one keeps q keys. */
  ghost function Rebalance(t: Tree, j: nat, q: nat): Tree
    requires t.Node? && |t.kids| == |t.keys| + 1 && j < |t.keys| && CutAt(Both(t, j), q)
  {
    var (l, s, r) := Cut(Both(t, j), q, t.kids[j + 1].id);
    Splicing(t, j, j + 1, [s], [l, r])
  }

  ghost function MergeAt(t: Tree, j: nat): Tree
    requires t.Node? && |t.kids| == |t.keys| + 1 && j < |t.keys|
  {
    Splicing(t, j, j + 1, [], [Both(t, j)])
  }

  lemma EndsTrans(a: Tree, b: Tree, m: Tree, cs: seq<Tree>, c: Cfg)
    requires SameEnds(a, b, [m], c) && SameEnds(m, m, cs, c)
    ensures SameEnds(a, b, cs, c)
  {
  }

  lemma RebalanceOK(t: Tree, j: nat, q: nat, lo: int, hi: int, h: nat, c: Cfg)
    requires t.Node? && OK(t, lo, hi, h, c) && |t.kids| == |t.keys| + 1 && j < |t.keys| && lo < hi && h > 0 && c.n >= 4
    requires CutAt(Both(t, j), q) && CutFits(Both(t, j), q, c.n)
    ensures Body(Rebalance(t, j, q), lo, hi, h, c) && Same(t, Rebalance(t, j, q))
  {
    var m := Both(t, j);
    var (l, s, r) := Cut(m, q, t.kids[j + 1].id);
    assert Rebalance(t, j, q) == Splicing(t, j, j + 1, [s], [l, r]);
    hide *;
    BothOK(t, j, lo, hi, h, c);
    CutOK(m, q, t.kids[j + 1].id, Lo(t.keys, j, lo), Hi(t.keys, j + 1, hi), h - 1, c);
    CutFlat(m, q, t.kids[j + 1].id);
    CutEnds(m, q, t.kids[j + 1].id, c);
    EndsTrans(t.kids[j], t.kids[j + 1], m, [l, r], c);
    SpliceNode(t, j, j + 1, [s], [l, r], lo, hi, h, c);
  }

  lemma MergeAtOK(t: Tree, j: nat, lo: int, hi: int, h: nat, c: Cfg)
    requires t.Node? && OK(t, lo, hi, h, c) && |t.kids| == |t.keys| + 1 && j < |t.keys| && lo < hi && h > 0 && c.n >= 4
    requires Size(Both(t, j)) <= MaxSize(PageOf(Both(t, j)), c.n)
    ensures Body(MergeAt(t, j), lo, hi, h, c) && Same(t, MergeAt(t, j))
  {
    var m := Both(t, j);
    BothOK(t, j, lo, hi, h, c);
    assert MinFill(m, c.n) && OK(m, Lo(t.keys, j, lo), Hi(t.keys, j + 1, hi), h - 1, c) by {
      PairAt(t, j, lo, hi, h, c);
    }
    assert MergeAt(t, j) == Splicing(t, j, j + 1, [], [m]);
    hide *;
    SegOne(m, Lo(t.keys, j, lo), Hi(t.keys, j + 1, hi), h - 1, c);
    FlatOne(m);
    SpliceNode(t, j, j + 1, [], [m], lo, hi, h, c);
  }

  lemma CutAtBody(t: Tree, q: nat, lo: int, hi: int, h: nat, c: Cfg)
    requires Body(t, lo, hi, h, c) && CutFits(t, q, c.n) && c.n >= 4
    ensures CutAt(t, q)
  {
  }

  // ----- Pre-emptive repair: bring kid i of t above its minimum fill before descending into it -----

  /** Sizes of a non-root node of height h, and what the fill tests say about them. */
  lemma SizesOf(t: Tree, lo: int, hi: int, h: nat, c: Cfg)
    requires OK(t, lo, hi, h, c)
    ensures t.Leaf? <==> h == 0
    ensures Size(t) <= (if h == 0 then c.n else c.n - 1)
    ensures MinFill(t, c.n) <==> Size(t) >= if h == 0 then c.n / 2 else c.n / 2 - 1
    ensures Spare(t, c.n) <==> Size(t) >= if h == 0 then c.n / 2 + 1 else c.n / 2
    ensures Full(t, c.n) <==> Size(t) == if h == 0 then c.n else c.n - 1
  {
    InnerSeg(t, lo, hi, h, c);
  }

  lemma KidAt(t: Tree, i: nat, lo: int, hi: int, h: nat, c: Cfg)
    requires t.Node? && OK(t, lo, hi, h, c) && i < |t.kids|
    ensures |t.kids| == |t.keys| + 1 && h > 0
    ensures OK(t.kids[i], Lo(t.keys, i, lo), Hi(t.keys, i, hi), h - 1, c) && MinFill(t.kids[i], c.n)
  {
    InnerSeg(t, lo, hi, h, c);
  }

  lemma SizesAt(t: Tree, i: nat, lo: int, hi: int, h: nat, c: Cfg)
    requires t.Node? && OK(t, lo, hi, h, c) && i < |t.kids|
    ensures |t.kids| == |t.keys| + 1 && h > 0
    ensures t.kids[i].Leaf? <==> h == 1
    ensures if h == 1 then c.n / 2 <= Size(t.kids[i]) <= c.n else c.n / 2 - 1 <= Size(t.kids[i]) <= c.n - 1
    ensures Spare(t.kids[i], c.n) <==> Size(t.kids[i]) >= if h == 1 then c.n / 2 + 1 else c.n / 2
    ensures Full(t.kids[i], c.n) <==> Size(t.kids[i]) == if h == 1 then c.n else c.n - 1
  {
    hide *;
    KidAt(t, i, lo, hi, h, c);
    SizesOf(t.kids[i], Lo(t.keys, i, lo), Hi(t.keys, i, hi), h - 1, c);
  }

  /** The neighbour a poor kid i borrows from (left first), or else the pair it is merged into (left first). */
  datatype Fix = BorrowLeft | BorrowRight | MergeLeft | MergeRight

  function Choice(t: Tree, i: nat, n: nat): Fix
    requires t.Node? && i < |t.kids| == |t.keys| + 1
  {
    if i > 0 && Spare(t.kids[i - 1], n) then BorrowLeft
    else if i < |t.keys| && Spare(t.kids[i + 1], n) then BorrowRight
    else if i > 0 then MergeLeft
    else MergeRight
  }

  /** The key that a borrowing kid i of t gets from a neighbour, if they are leaves. */
  function Moved(t: Tree, i: nat, n: nat): Option<int>
    requires t.Node? && i < |t.kids| == |t.keys| + 1
  {
    match Choice(t, i, n)
    case BorrowLeft => if t.kids[i - 1].Leaf? && t.kids[i - 1].kv.keys != [] then Some(t.kids[i - 1].kv.keys[|t.kids[i - 1].kv.keys| - 1]) else None
    case BorrowRight => if t.kids[i + 1].Leaf? && t.kids[i + 1].kv.keys != [] then Some(t.kids[i + 1].kv.keys[0]) else None
    case _ => None
  }

  lemma MovedIs(t: Tree, i: nat, n: nat)
    requires t.Node? && i < |t.kids| == |t.keys| + 1
    ensures Choice(t, i, n).BorrowLeft? ==>
      i > 0 && Moved(t, i, n) == if t.kids[i - 1].Leaf? && t.kids[i - 1].kv.keys != [] then Some(t.kids[i - 1].kv.keys[|t.kids[i - 1].kv.keys| - 1]) else None
    ensures Choice(t, i, n).BorrowRight? ==>
      i < |t.keys| && Moved(t, i, n) == if t.kids[i + 1].Leaf? && t.kids[i + 1].kv.keys != [] then Some(t.kids[i + 1].kv.keys[0]) else None
    ensures !Choice(t, i, n).BorrowLeft? && !Choice(t, i, n).BorrowRight? ==> Moved(t, i, n) == None
  {
  }

  /** Whether kid i of the OK node t has to be helped and has a neighbour to help it. */
  ghost predicate Poor(t: Tree, i: nat, lo: int, hi: int, h: nat, c: Cfg) {
    && t.Node? && OK(t, lo, hi, h, c) && |t.kids| == |t.keys| + 1 && i < |t.kids| && |t.keys| > 0
    && lo < hi && h > 0 && c.n >= 4 && !Spare(t.kids[i], c.n)
  }

  lemma BorrowLeftFits(t: Tree, i: nat, lo: int, hi: int, h: nat, c: Cfg)
    requires Poor(t, i, lo, hi, h, c) && Choice(t, i, c.n) == BorrowLeft
    ensures CutAt(Both(t, i - 1), Size(t.kids[i - 1]) - 1) && CutFits(Both(t, i - 1), Size(t.kids[i - 1]) - 1, c.n)
  {
    SizesAt(t, i - 1, lo, hi, h, c);
    SizesAt(t, i, lo, hi, h, c);
    BothOK(t, i - 1, lo, hi, h, c);
    BothLeaf(t, i - 1);
    CutAtBody(Both(t, i - 1), Size(t.kids[i - 1]) - 1, Lo(t.keys, i - 1, lo), Hi(t.keys, i, hi), h - 1, c);
  }

  lemma BorrowRightFits(t: Tree, i: nat, lo: int, hi: int, h: nat, c: Cfg)
    requires Poor(t, i, lo, hi, h, c) && Choice(t, i, c.n) == BorrowRight
    ensures CutAt(Both(t, i), Size(t.kids[i]) + 1) && CutFits(Both(t, i), Size(t.kids[i]) + 1, c.n)
  {
    SizesAt(t, i, lo, hi, h, c);
    SizesAt(t, i + 1, lo, hi, h, c);
    BothOK(t, i, lo, hi, h, c);
    BothLeaf(t, i);
    CutAtBody(Both(t, i), Size(t.kids[i]) + 1, Lo(t.keys, i, lo), Hi(t.keys, i + 1, hi), h - 1, c);
  }

  lemma BothLeaf(t: Tree, j: nat)
    requires t.Node? && |t.kids| == |t.keys| + 1 && j < |t.keys|
    ensures Both(t, j).Leaf? == t.kids[j].Leaf?
  {
  }

  ghost function Repair(t: Tree, i: nat, lo: int, hi: int, h: nat, c: Cfg): Tree
    requires Poor(t, i, lo, hi, h, c)
  {
    match Choice(t, i, c.n)
    case BorrowLeft =>
      BorrowLeftFits(t, i, lo, hi, h, c);
      Rebalance(t, i - 1, Size(t.kids[i - 1]) - 1)
    case BorrowRight =>
      BorrowRightFits(t, i, lo, hi, h, c);
      Rebalance(t, i, Size(t.kids[i]) + 1)
    case MergeLeft => MergeAt(t, i - 1)
    case MergeRight => MergeAt(t, i)
  }

  lemma MergeFits(t: Tree, i: nat, j: nat, lo: int, hi: int, h: nat, c: Cfg)
    requires Poor(t, i, lo, hi, h, c) && j < |t.keys| && (j == i || j + 1 == i)
    requires !Spare(t.kids[j], c.n) && !Spare(t.kids[j + 1], c.n)
    ensures Size(Both(t, j)) <= MaxSize(PageOf(Both(t, j)), c.n)
    ensures Spare(Both(t, j), c.n)
  {
    SizesAt(t, j, lo, hi, h, c);
    SizesAt(t, j + 1, lo, hi, h, c);
    BothOK(t, j, lo, hi, h, c);
    BothLeaf(t, j);
  }

  lemma RepairOK(t: Tree, i: nat, lo: int, hi: int, h: nat, c: Cfg)
    requires Poor(t, i, lo, hi, h, c)
    ensures Body(Repair(t, i, lo, hi, h, c), lo, hi, h, c) && Same(t, Repair(t, i, lo, hi, h, c))
  {
    var t' := Repair(t, i, lo, hi, h, c);
    match Choice(t, i, c.n) {
      case BorrowLeft =>
        BorrowLeftFits(t, i, lo, hi, h, c);
        var q := Size(t.kids[i - 1]) - 1;
        assert t' == Rebalance(t, i - 1, q);
        hide *;
        RebalanceOK(t, i - 1, q, lo, hi, h, c);
      case BorrowRight =>
        BorrowRightFits(t, i, lo, hi, h, c);
        var q := Size(t.kids[i]) + 1;
        assert t' == Rebalance(t, i, q);
        hide *;
        RebalanceOK(t, i, q, lo, hi, h, c);
      case MergeLeft =>
        assert t' == MergeAt(t, i - 1);
        MergeFits(t, i, i - 1, lo, hi, h, c);
        hide *;
        MergeAtOK(t, i - 1, lo, hi, h, c);
      case MergeRight =>
        assert t' == MergeAt(t, i);
        MergeFits(t, i, i, lo, hi, h, c);
        hide *;
        MergeAtOK(t, i, lo, hi, h, c);
    }
  }

  // ----- Routing: the kid chosen by binary search holds everything that concerns k -----

  ghost predicate Below(keys: seq<int>, k: int) {
    forall i :: 0 <= i < |keys| ==> keys[i] < k
  }

  ghost predicate Above(keys: seq<int>, k: int) {
    forall i :: 0 <= i < |keys| ==> k < keys[i]
  }

  lemma RankCat(a: seq<int>, e: seq<int>, b: seq<int>, k: int)
    requires Below(a, k) && Above(b, k)
    ensures Rank(a + e + b, k) == |a| + Rank(e, k)
    ensures Contains(a + e + b, k) <==> Contains(e, k)
  {
    var r, s := Rank(e, k), a + e + b;
    forall i | 0 <= i < |a| + r ensures s[i] < k {
      if i < |a| {
        assert s[i] == a[i];
      } else {
        assert s[i] == e[i - |a|];
      }
    }
    assert |a| + r < |s| ==> s[|a| + r] == if r < |e| then e[r] else b[0];
    RankUnique(s, k, |a| + r);
  }

  /** The three parts of a page around the range that concerns k. */
  ghost predicate Parts(a: KV, e: KV, b: KV, k: int) {
    && Below(a.keys, k) && Above(b.keys, k)
    && |a.keys| == |a.vals| && |e.keys| == |e.vals| && |b.keys| == |b.vals|
  }

  lemma InsertAtMid<T>(a: seq<T>, e: seq<T>, b: seq<T>, r: nat, x: T)
    requires r <= |e|
    ensures InsertAt(a + e + b, |a| + r, x) == a + InsertAt(e, r, x) + b
  {
    assert (a + e + b)[..|a| + r] == a + e[..r];
    assert (a + e + b)[|a| + r..] == e[r..] + b;
  }

  lemma RemoveAtMid<T>(a: seq<T>, e: seq<T>, b: seq<T>, r: nat)
    requires r < |e|
    ensures RemoveAt(a + e + b, |a| + r) == a + RemoveAt(e, r) + b
  {
    assert (a + e + b)[..|a| + r] == a + e[..r];
    assert (a + e + b)[|a| + r + 1..] == e[r + 1..] + b;
  }

  lemma InsertMid(a: KV, e: KV, b: KV, k: int, v: Value)
    requires Parts(a, e, b, k)
    ensures OuterInsert(Cat(Cat(a, e), b), k, v) == Cat(Cat(a, OuterInsert(e, k, v)), b)
  {
    RankCat(a.keys, e.keys, b.keys, k);
    InsertAtMid(a.keys, e.keys, b.keys, Rank(e.keys, k), k);
    InsertAtMid(a.vals, e.vals, b.vals, Rank(e.keys, k), v);
    hide Rank, InsertAt, Below, Above;
  }

  lemma DeleteMid(a: KV, e: KV, b: KV, k: int)
    requires Parts(a, e, b, k)
    ensures OuterDelete(Cat(Cat(a, e), b), k) == Cat(Cat(a, OuterDelete(e, k)), b)
  {
    RankCat(a.keys, e.keys, b.keys, k);
    if Contains(e.keys, k) {
      RemoveAtMid(a.keys, e.keys, b.keys, Rank(e.keys, k));
      RemoveAtMid(a.vals, e.vals, b.vals, Rank(e.keys, k));
    }
    hide Rank, RemoveAt, Below, Above;
  }

  lemma UpdateMid(a: KV, e: KV, b: KV, k: int, v: Value)
    requires Parts(a, e, b, k)
    ensures OuterUpdate(Cat(Cat(a, e), b), k, v) == Cat(Cat(a, OuterUpdate(e, k, v)), b)
  {
    RankCat(a.keys, e.keys, b.keys, k);
    hide Rank, Below, Above;
  }

  lemma GetMid(a: KV, e: KV, b: KV, k: int)
    requires Parts(a, e, b, k)
    ensures OuterGet(Cat(Cat(a, e), b), k) == OuterGet(e, k)
    ensures Contains(Cat(Cat(a, e), b).keys, k) <==> Contains(e.keys, k)
  {
    RankCat(a.keys, e.keys, b.keys, k);
  }

  /** k belongs to the range of kid i. */
  ghost predicate Routed(t: Tree, i: nat, k: int, lo: int, hi: int) {
    t.Node? && |t.kids| == |t.keys| + 1 && i < |t.kids| && Lo(t.keys, i, lo) < k <= Hi(t.keys, i, hi)
  }

  lemma RouteRank(t: Tree, k: int, lo: int, hi: int, h: nat, c: Cfg)
    requires t.Node? && OK(t, lo, hi, h, c) && lo < k <= hi
    ensures Routed(t, Rank(t.keys, k), k, lo, hi)
  {
    InnerSeg(t, lo, hi, h, c);
  }

  lemma RankRoute(t: Tree, i: nat, k: int, lo: int, hi: int)
    requires Routed(t, i, k, lo, hi) && Sorted(t.keys)
    ensures Rank(t.keys, k) == i
  {
    RankUnique(t.keys, k, i);
  }

  /** The pairs on either side of separator j. */
  lemma SidesOf(keys: seq<int>, kids: seq<Tree>, j: nat, lo: int, hi: int, h: nat, c: Cfg)
    requires Seg(keys, kids, lo, hi, h, c) && j < |keys| && |kids| == |keys| + 1 && c.n >= 4
    ensures KVOk(FlatSeg(kids[..j + 1])) && InRange(FlatSeg(kids[..j + 1]).keys, lo, keys[j])
    ensures KVOk(FlatSeg(kids[j + 1..])) && InRange(FlatSeg(kids[j + 1..]).keys, keys[j], hi)
  {
    hide *;
    CutLeft(keys, kids, j, lo, hi, h, c);
    SegFlat(keys[..j], kids[..j + 1], lo, keys[j], h, c);
    CutRight(keys, kids, j, lo, hi, h, c);
    SegFlat(keys[j + 1..], kids[j + 1..], keys[j], hi, h, c);
  }

  lemma InRangeBelow(keys: seq<int>, lo: int, hi: int, k: int)
    requires InRange(keys, lo, hi)
    ensures hi < k ==> Below(keys, k)
    ensures k <= lo ==> Above(keys, k)
  {
  }

  lemma RoutedFacts(t: Tree, i: nat, k: int, lo: int, hi: int)
    requires Routed(t, i, k, lo, hi)
    ensures t.Node? && |t.kids| == |t.keys| + 1 && i < |t.kids|
    ensures i > 0 ==> t.keys[i - 1] < k
    ensures i < |t.keys| ==> k <= t.keys[i]
    ensures Lo(t.keys, i, lo) < k <= Hi(t.keys, i, hi)
  {
  }

  lemma NoKids()
    ensures KVOk(FlatSeg([])) && FlatSeg([]).keys == []
    ensures forall k :: Below([], k) && Above([], k)
  {
  }

  lemma LeftPart(t: Tree, i: nat, k: int, lo: int, hi: int, h: nat, c: Cfg)
    requires t.Node? && OK(t, lo, hi, h, c) && Routed(t, i, k, lo, hi) && c.n >= 4
    ensures KVOk(FlatSeg(t.kids[..i])) && Below(FlatSeg(t.kids[..i]).keys, k)
  {
    hide *;
    RoutedFacts(t, i, k, lo, hi);
    if i > 0 {
      var j: nat := i - 1;
      assert t.kids[..i] == t.kids[..j + 1];
      InnerSeg(t, lo, hi, h, c);
      SidesOf(t.keys, t.kids, j, lo, hi, h - 1, c);
      InRangeBelow(FlatSeg(t.kids[..j + 1]).keys, lo, t.keys[j], k);
    } else {
      assert t.kids[..i] == [];
      NoKids();
    }
  }

  lemma RightPart(t: Tree, i: nat, k: int, lo: int, hi: int, h: nat, c: Cfg)
    requires t.Node? && OK(t, lo, hi, h, c) && Routed(t, i, k, lo, hi) && c.n >= 4
    ensures |t.kids| == |t.keys| + 1 && i < |t.kids|
    ensures KVOk(FlatSeg(t.kids[i + 1..])) && Above(FlatSeg(t.kids[i + 1..]).keys, k)
  {
    hide *;
    RoutedFacts(t, i, k, lo, hi);
    if i < |t.keys| {
      InnerSeg(t, lo, hi, h, c);
      SidesOf(t.keys, t.kids, i, lo, hi, h - 1, c);
      InRangeBelow(FlatSeg(t.kids[i + 1..]).keys, t.keys[i], hi, k);
    } else {
      assert t.kids[i + 1..] == [];
      NoKids();
    }
  }

  lemma RouteParts(t: Tree, i: nat, k: int, lo: int, hi: int, h: nat, c: Cfg)
    requires t.Node? && OK(t, lo, hi, h, c) && Routed(t, i, k, lo, hi) && c.n >= 4
    ensures Parts(FlatSeg(t.kids[..i]), Flat(t.kids[i]), FlatSeg(t.kids[i + 1..]), k)
    ensures Flat(t) == Cat(Cat(FlatSeg(t.kids[..i]), Flat(t.kids[i])), FlatSeg(t.kids[i + 1..]))
  {
    assert Flat(t) == FlatSeg(t.kids);
    hide OK, Body, Seg, Flat, FlatSeg;
    LeftPart(t, i, k, lo, hi, h, c);
    RightPart(t, i, k, lo, hi, h, c);
    KidAt(t, i, lo, hi, h, c);
    FlatOK(t.kids[i], Lo(t.keys, i, lo), Hi(t.keys, i, hi), h - 1, c);
    FlatAt(t.kids, i);
  }

  /** The pairs of t when only kid i changes. */
  lemma FlatReplace(t: Tree, keys: seq<int>, i: nat, kid: Tree)
    requires t.Node? && i < |t.kids|
    ensures Flat(Node(t.id, keys, t.kids[i := kid])) == Cat(Cat(FlatSeg(t.kids[..i]), Flat(kid)), FlatSeg(t.kids[i + 1..]))
  {
    var kids := t.kids[i := kid];
    assert Flat(Node(t.id, keys, kids)) == FlatSeg(kids);
    hide *;
    FlatAt(kids, i);
    assert kids[..i] == t.kids[..i] && kids[i + 1..] == t.kids[i + 1..];
  }

  lemma ExactFacts(s: int, t: Tree, c: Cfg)
    ensures Exact(s, t, c) <==> (c.exact ==> s == MaxKey(t))
  {
  }

  lemma LoAt(keys: seq<int>, i: nat, lo: int)
    requires 0 < i <= |keys|
    ensures Lo(keys, i, lo) == keys[i - 1]
  {
  }

  lemma HiAt(keys: seq<int>, i: nat, hi: int)
    requires i < |keys|
    ensures Hi(keys, i, hi) == keys[i]
  {
  }
}
