/**
 * Steps of the B+ tree in its page store and its cache: what writing a few
 * pages and re-pointing a few cached keys does to the whole tree.
 */
module BTreeSteps {
  import opened Common
  import opened Pages
  import opened BTreeModel
  import opened BTreeStore
  import opened BTreeDelete
  import opened BTreeInsert

  /** From m to m' the subtree t became t': no page lost or leaked, no page outside t touched, new pages outside used. */
  ghost predicate Paged(m: Store, m': Store, used: set<nat>, t: Tree, t': Tree) {
    && Rep(m', t') && Disj(t') && Agrees(m, m', m.Keys - Ids(t))
    && m'.Keys == (m.Keys - Ids(t)) + Ids(t')
    && Ids(t') * used <= Ids(t)
  }

  /** The pages and the cache entries of t became those of t', and only cached keys in (lo, hi] were re-pointed. */
  ghost predicate Turn(m: Store, v: View, m': Store, v': View, used: set<nat>, t: Tree, t': Tree, lo: int, hi: int) {
    Paged(m, m', used, t, t') && Coh(v', t') && Outside(v, v', lo, hi)
  }

  lemma TurnFacts(m: Store, v: View, m': Store, v': View, used: set<nat>, t: Tree, t': Tree, lo: int, hi: int)
    requires Turn(m, v, m', v', used, t, t', lo, hi)
    ensures Rep(m', t') && Disj(t') && Agrees(m, m', m.Keys - Ids(t)) && m'.Keys == (m.Keys - Ids(t)) + Ids(t')
    ensures Ids(t') * used <= Ids(t) && Coh(v', t') && Outside(v, v', lo, hi)
  {
  }

  lemma TurnIntro(m: Store, v: View, m': Store, v': View, used: set<nat>, t: Tree, t': Tree, lo: int, hi: int)
    requires Rep(m', t') && Disj(t') && Agrees(m, m', m.Keys - Ids(t)) && m'.Keys == (m.Keys - Ids(t)) + Ids(t')
    requires Ids(t') * used <= Ids(t) && Coh(v', t') && Outside(v, v', lo, hi)
    ensures Turn(m, v, m', v', used, t, t', lo, hi)
  {
  }

  lemma TurnTrans(m: Store, v: View, m1: Store, v1: View, m2: Store, v2: View, used: set<nat>, used1: set<nat>, t: Tree, t1: Tree, t2: Tree, lo: int, hi: int)
    requires Turn(m, v, m1, v1, used, t, t1, lo, hi) && Turn(m1, v1, m2, v2, used1, t1, t2, lo, hi)
    requires m.Keys <= used <= used1
    ensures Turn(m, v, m2, v2, used, t, t2, lo, hi)
  {
    hide *;
    TurnFacts(m, v, m1, v1, used, t, t1, lo, hi);
    TurnFacts(m1, v1, m2, v2, used1, t1, t2, lo, hi);
    OutsideTrans(v, v1, v2, lo, hi);
    KeysTrans(m.Keys, m1.Keys, m2.Keys, used, used1, Ids(t), Ids(t1), Ids(t2));
    AgreesTrans(m, m1, m2, m.Keys - Ids(t), m1.Keys - Ids(t1));
    TurnIntro(m, v, m2, v2, used, t, t2, lo, hi);
  }

  lemma KeysTrans(k: set<nat>, k1: set<nat>, k2: set<nat>, u: set<nat>, u1: set<nat>, a: set<nat>, b: set<nat>, c: set<nat>)
    requires k1 == (k - a) + b && k2 == (k1 - b) + c && b * u <= a && c * u1 <= b && k <= u <= u1
    ensures k2 == (k - a) + c && c * u <= a && k - a <= k1 - b
  {
    assert forall x :: x in b && x in u ==> x in b * u;
    forall x | x in c * u ensures x in a {
      assert x in c * u1;
      assert x in b * u;
    }
  }

  lemma AgreesTrans(m: Store, m1: Store, m2: Store, s: set<nat>, s1: set<nat>)
    requires Agrees(m, m1, s) && Agrees(m1, m2, s1) && s <= s1
    ensures Agrees(m, m2, s)
  {
  }

  // ----- From a run of kids to the node above -----

  /** The pages of the run cs of kids were replaced by those of cs'; only t's own page may differ otherwise. */
  lemma PagedRun(m: Store, m': Store, used: set<nat>, t: Tree, i: nat, j: nat, keys: seq<int>, cs: seq<Tree>)
    requires t.Node? && i <= j < |t.kids| && Rep(m, t) && Disj(t) && m.Keys <= used
    requires t.id in m' && m'[t.id] == PageOf(Spliced(t, i, j, keys, cs))
    requires RepSeg(m', cs) && DisjSeg(cs) && IdsSeg(cs) * used <= IdsSeg(t.kids[i..j + 1])
    requires Agrees(m, m', m.Keys - IdsSeg(t.kids[i..j + 1]) - {t.id})
    requires m'.Keys == (m.Keys - IdsSeg(t.kids[i..j + 1])) + IdsSeg(cs)
    ensures Paged(m, m', used, t, Spliced(t, i, j, keys, cs))
  {
    hide *;
    var run := t.kids[i..j + 1];
    IdsParts(t, i, j);
    RepIds(m, t);
    RunKeys(m.Keys, used, Ids(t), t.id, IdsSeg(run), Rest(t, i, j), IdsSeg(cs));
    AgreesOn(m, m', m.Keys - IdsSeg(run) - {t.id}, Rest(t, i, j));
    AgreesOn(m, m', m.Keys - IdsSeg(run) - {t.id}, m.Keys - Ids(t));
    StepStore(m, m', t, i, j, keys, cs);
    PagedIntro(m, m', used, t, Spliced(t, i, j, keys, cs));
  }

  lemma PagedIntro(m: Store, m': Store, used: set<nat>, t: Tree, t': Tree)
    requires Rep(m', t') && Disj(t') && Agrees(m, m', m.Keys - Ids(t)) && m'.Keys == (m.Keys - Ids(t)) + Ids(t')
    requires Ids(t') * used <= Ids(t)
    ensures Paged(m, m', used, t, t')
  {
  }

  lemma RunKeys(k: set<nat>, u: set<nat>, all: set<nat>, id: nat, run: set<nat>, rest: set<nat>, cs: set<nat>)
    requires all == {id} + run + rest && id !in run && id !in rest && run !! rest && all <= k <= u && cs * u <= run
    ensures id !in cs && cs !! rest && rest <= k - run - {id} && k - all <= k - run - {id}
    ensures (k - run) + cs == (k - all) + ({id} + cs + rest) && ({id} + cs + rest) * u <= all
  {
    forall x | x in cs && x in all ensures x in run {
      assert x in cs * u;
    }
    forall x | x in ({id} + cs + rest) * u ensures x in all {
      if x in cs {
        assert x in cs * u;
      }
    }
  }

  lemma CohRun(v: View, v': View, t: Tree, i: nat, j: nat, keys: seq<int>, cs: seq<Tree>, lo: int, hi: int, h: nat, c: Cfg)
    requires t.Node? && OK(t, lo, hi, h, c) && c.n >= 4 && i <= j < |t.kids| && |t.kids| == |t.keys| + 1
    requires Coh(v, t) && CohSeg(v', cs) && Outside(v, v', Lo(t.keys, i, lo), Hi(t.keys, j, hi))
    ensures Coh(v', Spliced(t, i, j, keys, cs)) && Outside(v, v', lo, hi)
  {
    hide *;
    SidesKeep(v, v', t, i, j, lo, hi, h, c);
    StepCoh(v, v', t, i, j, keys, cs);
    RangeOf(t, i, j, lo, hi, h, c);
    OutsideWiden(v, v', Lo(t.keys, i, lo), Hi(t.keys, j, hi), lo, hi);
  }

  lemma RangeOf(t: Tree, i: nat, j: nat, lo: int, hi: int, h: nat, c: Cfg)
    requires t.Node? && OK(t, lo, hi, h, c) && i <= j < |t.kids| && |t.kids| == |t.keys| + 1
    ensures lo <= Lo(t.keys, i, lo) && Hi(t.keys, j, hi) <= hi
  {
    InnerSeg(t, lo, hi, h, c);
    assert SegKeys(t.keys, lo, hi);
  }

  lemma TurnRun(m: Store, v: View, m': Store, v': View, used: set<nat>, t: Tree, i: nat, j: nat, keys: seq<int>, cs: seq<Tree>, lo: int, hi: int, h: nat, c: Cfg)
    requires t.Node? && OK(t, lo, hi, h, c) && c.n >= 4 && i <= j < |t.kids| && |t.kids| == |t.keys| + 1
    requires Rep(m, t) && Disj(t) && m.Keys <= used
    requires t.id in m' && m'[t.id] == PageOf(Spliced(t, i, j, keys, cs))
    requires RepSeg(m', cs) && DisjSeg(cs) && IdsSeg(cs) * used <= IdsSeg(t.kids[i..j + 1])
    requires Agrees(m, m', m.Keys - IdsSeg(t.kids[i..j + 1]) - {t.id})
    requires m'.Keys == (m.Keys - IdsSeg(t.kids[i..j + 1])) + IdsSeg(cs)
    requires Coh(v, t) && CohSeg(v', cs) && Outside(v, v', Lo(t.keys, i, lo), Hi(t.keys, j, hi))
    ensures Turn(m, v, m', v', used, t, Spliced(t, i, j, keys, cs), lo, hi)
  {
    PagedRun(m, m', used, t, i, j, keys, cs);
    CohRun(v, v', t, i, j, keys, cs, lo, hi, h, c);
  }

  /** A turn of kid i, with new separators for t. */
  lemma TurnKid(m: Store, v: View, m1: Store, v': View, used: set<nat>, t: Tree, i: nat, kid: Tree, keys: seq<int>, lo: int, hi: int, h: nat, c: Cfg)
    requires t.Node? && OK(t, lo, hi, h, c) && c.n >= 4 && i < |t.kids| && |t.kids| == |t.keys| + 1
    requires Rep(m, t) && Disj(t) && Coh(v, t) && m.Keys <= used
    requires Turn(m, v, m1, v', used, t.kids[i], kid, Lo(t.keys, i, lo), Hi(t.keys, i, hi))
    ensures t.id in m1 && m1[t.id] == PageOf(t)
    ensures
      var t' := Node(t.id, keys, t.kids[i := kid]);
      Turn(m, v, m1[t.id := PageOf(t')], v', used, t, t', lo, hi)
  {
    hide *;
    var t' := Node(t.id, keys, t.kids[i := kid]);
    var m' := m1[t.id := PageOf(t')];
    var k := t.kids[i];
    var l0, h0 := Lo(t.keys, i, lo), Hi(t.keys, i, hi);
    TurnFacts(m, v, m1, v', used, k, kid, l0, h0);
    OneRun(t, i, kid, keys);
    OneKid(m', v', kid);
    OneKid(m, v, k);
    IdsParts(t, i, i);
    RepPage(m, t);
    assert t.id !in Ids(kid) by {
      NotThere(Ids(kid), used, Ids(k), t.id, m.Keys);
    }
    WritePage(m, m1, m.Keys - Ids(k), t.id, PageOf(t'));
    RepWrite(m1, kid, t.id, PageOf(t'));
    TurnRun(m, v, m', v', used, t, i, i, keys, [kid], lo, hi, h, c);
  }

  lemma NotThere(a: set<nat>, u: set<nat>, b: set<nat>, x: nat, k: set<nat>)
    requires a * u <= b && x !in b && x in k && k <= u
    ensures x !in a
  {
    assert forall y :: y in a && y in u ==> y in a * u;
  }

  lemma RepPage(m: Store, t: Tree)
    requires Rep(m, t)
    ensures t.id in m && m[t.id] == PageOf(t)
  {
  }

  lemma WritePage(m: Store, m1: Store, s: set<nat>, id: nat, page: Page)
    requires Agrees(m, m1, s)
    ensures Agrees(m, m1[id := page], s - {id})
    ensures id in s && id in m ==> id in m1 && m1[id] == m[id]
  {
  }

  lemma RepWrite(m: Store, t: Tree, id: nat, page: Page)
    requires Rep(m, t) && id !in Ids(t)
    ensures Rep(m[id := page], t)
  {
    RepFrame(m, m[id := page], t);
  }

  lemma OneRun(t: Tree, i: nat, kid: Tree, keys: seq<int>)
    requires t.Node? && i < |t.kids|
    ensures Spliced(t, i, i, keys, [kid]) == Node(t.id, keys, t.kids[i := kid]) && t.kids[i..i + 1] == [t.kids[i]]
  {
    assert t.kids[..i] + [kid] + t.kids[i + 1..] == t.kids[i := kid];
  }

  // ----- Cached keys that move to another page -----

  /** What update_range does to the cached keys. */
  ghost function Repoint(v: View, from: int, to: int, e: Entry): View {
    map k | k in v :: if from <= k <= to then e else v[k]
  }

  /** The view after a cache operation meant to give change, if the cache still counts. */
  ghost predicate Becomes(v': View, change: View) {
    v' == change || v' == map[]
  }

  lemma {:induction false} CohNone(t: Tree)
    ensures Coh(map[], t)
    decreases t, 1
  {
    if t.Node? {
      CohNoneSeg(t.kids);
    }
  }

  lemma {:induction false} CohNoneSeg(kids: seq<Tree>)
    ensures CohSeg(map[], kids)
    decreases kids, 0
  {
    if kids != [] {
      CohNone(kids[0]);
      CohNoneSeg(kids[1..]);
    }
  }

  lemma CohLeafIs(v: View, t: Tree)
    requires t.Leaf?
    ensures Coh(v, t) <==> CohLeaf(v, t.kv.keys, t.id)
  {
  }

  lemma CutLeafCoh(v: View, v': View, t: Tree, q: nat, rid: nat, e: Entry, lo: int, hi: int)
    requires t.Leaf? && CutAt(t, q) && KVOk(t.kv) && InRange(t.kv.keys, lo, hi) && Coh(v, t) && e.pageId == rid
    requires Becomes(v', Repoint(v, t.kv.keys[q], Last(t.kv.keys), e))
    ensures var (l, s, r) := Cut(t, q, rid); CohSeg(v', [l, r])
    ensures Outside(v, v', lo, hi)
  {
    var (l, s, r) := Cut(t, q, rid);
    TwoKids(map[], v', l, r);
    if v' == map[] {
      CohNone(l);
      CohNone(r);
    }
  }

  /** The view after a split of t. */
  ghost predicate SplitView(v: View, v': View, t: Tree, q: nat, e: Entry)
    requires CutAt(t, q)
  {
    if t.Leaf? then Becomes(v', Repoint(v, t.kv.keys[q], Last(t.kv.keys), e)) else v' == v
  }

  lemma CutCoh(v: View, v': View, t: Tree, q: nat, rid: nat, e: Entry, lo: int, hi: int, h: nat, c: Cfg)
    requires OK(t, lo, hi, h, c) && CutAt(t, q) && Coh(v, t) && e.pageId == rid && SplitView(v, v', t, q, e)
    ensures var (l, s, r) := Cut(t, q, rid); CohSeg(v', [l, r])
    ensures Outside(v, v', lo, hi)
  {
    if t.Leaf? {
      CutLeafCoh(v, v', t, q, rid, e, lo, hi);
    } else {
      CutNodeCoh(v, t, q, rid);
    }
  }

  // ----- Splits -----

  lemma SplitTurn(m: Store, v: View, m': Store, v': View, used: set<nat>, t: Tree, i: nat, rid: nat, e: Entry, lo: int, hi: int, h: nat, c: Cfg)
    requires t.Node? && OK(t, lo, hi, h, c) && c.n >= 4 && |t.kids| == |t.keys| + 1 && i < |t.kids|
    requires Rep(m, t) && Disj(t) && Coh(v, t) && m.Keys <= used && rid !in used && e.pageId == rid
    requires CutAt(t.kids[i], KeepCount(t.kids[i], c.n)) && SplitView(v, v', t.kids[i], KeepCount(t.kids[i], c.n), e)
    requires
      var (l, s, r) := Cut(t.kids[i], KeepCount(t.kids[i], c.n), rid);
      && m'.Keys == m.Keys + {rid} && Agrees(m, m', m.Keys - {t.id, t.kids[i].id}) && t.id in m'
      && t.kids[i].id in m' && m'[t.kids[i].id] == PageOf(l) && m'[rid] == PageOf(r)
      && m'[t.id] == PageOf(Node(t.id, InsertAt(t.keys, i, s), InsertAt(t.kids[i := l], i + 1, r)))
    ensures Turn(m, v, m', v', used, t, SplitKid(t, i, rid, c.n), lo, hi)
  {
    hide *;
    var k := t.kids[i];
    var q := KeepCount(k, c.n);
    var (l, s, r) := Cut(k, q, rid);
    var keys := InsertAt(t.keys, i, s);
    SplitKidShape(t, i, rid, c.n);
    TwoForOne(t, i, keys, l, r);
    KidAt(t, i, lo, hi, h, c);
    KidCoh(m, v, t, i);
    IdsOf(m, k);
    CutCoh(v, v', k, q, rid, e, Lo(t.keys, i, lo), Hi(t.keys, i, hi), h - 1, c);
    KidIdsIn(m, t, i);
    SplitKeys(m.Keys, used, Ids(k), IdsSeg(KidsOf(k)), k.id, t.id, rid);
    AgreesOn(m, m', m.Keys - {t.id, k.id}, IdsSeg(KidsOf(k)));
    AgreesOn(m, m', m.Keys - {t.id, k.id}, m.Keys - Ids(k) - {t.id});
    CutStore(m, m', k, q, rid);
    TurnRun(m, v, m', v', used, t, i, i, keys, [l, r], lo, hi, h, c);
  }

  lemma TwoForOne(t: Tree, i: nat, keys: seq<int>, l: Tree, r: Tree)
    requires t.Node? && i < |t.kids|
    ensures Spliced(t, i, i, keys, [l, r]) == Node(t.id, keys, InsertAt(t.kids[i := l], i + 1, r))
    ensures t.kids[i..i + 1] == [t.kids[i]] && IdsSeg(t.kids[i..i + 1]) == Ids(t.kids[i])
  {
    assert t.kids[..i] + [l, r] + t.kids[i + 1..] == InsertAt(t.kids[i := l], i + 1, r);
    OneKid(map[], map[], t.kids[i]);
  }

  lemma KidCoh(m: Store, v: View, t: Tree, i: nat)
    requires t.Node? && i < |t.kids| && Rep(m, t) && Coh(v, t)
    ensures Rep(m, t.kids[i]) && Coh(v, t.kids[i])
  {
    hide *;
    RepParts(m, t, i, i);
    CohParts(v, t, i, i);
    assert t.kids[i..i + 1] == [t.kids[i]];
    OneKid(m, v, t.kids[i]);
  }

  lemma KidIdsIn(m: Store, t: Tree, i: nat)
    requires t.Node? && i < |t.kids| && Rep(m, t) && Disj(t)
    ensures Ids(t.kids[i]) <= Ids(t) <= m.Keys && t.id in Ids(t) && t.id !in Ids(t.kids[i]) && Disj(t.kids[i])
  {
    hide *;
    IdsParts(t, i, i);
    assert t.kids[i..i + 1] == [t.kids[i]];
    OneKid(m, map[], t.kids[i]);
    RepIds(m, t);
    IdsOf(m, t);
  }

  lemma SplitKeys(keys: set<nat>, used: set<nat>, ids: set<nat>, below: set<nat>, id: nat, top: nat, rid: nat)
    requires ids == {id} + below && id !in below && ids <= keys <= used && rid !in used && top !in ids && top in keys
    ensures rid != id && rid !in below && below <= keys - {top, id} && keys - ids - {top} <= keys - {top, id}
    ensures keys + {rid} == (keys - ids) + ({id, rid} + below)
    ensures ({id, rid} + below) * used <= ids
  {
  }

  lemma SplitRootTurn(m: Store, v: View, m': Store, v': View, used: set<nat>, t: Tree, rid: nat, id: nat, e: Entry, lo: int, hi: int, h: nat, c: Cfg)
    requires OK(t, lo, hi, h, c) && c.n >= 4 && Rep(m, t) && Disj(t) && Coh(v, t)
    requires m.Keys <= used && rid !in used && id !in used && rid != id && e.pageId == rid
    requires CutAt(t, KeepCount(t, c.n)) && SplitView(v, v', t, KeepCount(t, c.n), e)
    requires
      var (l, s, r) := Cut(t, KeepCount(t, c.n), rid);
      && m'.Keys == m.Keys + {rid, id} && Agrees(m, m', m.Keys - {t.id})
      && t.id in m' && m'[t.id] == PageOf(l) && m'[rid] == PageOf(r) && m'[id] == PageOf(Node(id, [s], [l, r]))
    ensures Turn(m, v, m', v', used, t, SplitRoot(t, rid, id, c.n), lo, hi)
  {
    hide *;
    var q := KeepCount(t, c.n);
    var (l, s, r) := Cut(t, q, rid);
    SplitRootIs(t, rid, id, c.n);
    IdsOf(m, t);
    RepIds(m, t);
    CutCoh(v, v', t, q, rid, e, lo, hi, h, c);
    RootKeys(m.Keys, used, Ids(t), IdsSeg(KidsOf(t)), t.id, id, rid);
    AgreesOn(m, m', m.Keys - {t.id}, IdsSeg(KidsOf(t)));
    AgreesOn(m, m', m.Keys - {t.id}, m.Keys - Ids(t));
    CutStore(m, m', t, q, rid);
    NodeStore(m', v', id, [s], [l, r]);
    TurnIntro(m, v, m', v', used, t, Node(id, [s], [l, r]), lo, hi);
  }

  lemma SplitRootIs(t: Tree, rid: nat, id: nat, n: nat)
    requires n >= 4 && CutAt(t, KeepCount(t, n))
    ensures var (l, s, r) := Cut(t, KeepCount(t, n), rid); SplitRoot(t, rid, id, n) == Node(id, [s], [l, r])
  {
  }

  lemma RootKeys(keys: set<nat>, used: set<nat>, ids: set<nat>, below: set<nat>, id: nat, top: nat, rid: nat)
    requires ids == {id} + below && id !in below && ids <= keys <= used && rid !in used && top !in used && top != rid
    ensures rid != id && rid !in below && below <= keys - {id} && keys - ids <= keys - {id} && top !in {id, rid} + below
    ensures keys + {rid, top} == (keys - ids) + ({top} + ({id, rid} + below))
    ensures ({top} + ({id, rid} + below)) * used <= ids
  {
  }

  lemma NodeStore(m: Store, v: View, id: nat, keys: seq<int>, kids: seq<Tree>)
    requires RepSeg(m, kids) && DisjSeg(kids) && id !in IdsSeg(kids) && id in m && m[id] == PageOf(Node(id, keys, kids)) && CohSeg(v, kids)
    ensures var t := Node(id, keys, kids); Rep(m, t) && Disj(t) && Ids(t) == {id} + IdsSeg(kids) && Coh(v, t)
  {
  }

  // ----- Borrows and merges -----

  /** The view after a borrow that leaves q keys in the left of the leaves l and r. */
  ghost predicate BorrowView(v: View, v': View, l: Tree, r: Tree, q: nat, e: Entry) {
    if l.Leaf? && r.Leaf? && l.kv.keys != [] && r.kv.keys != [] then
      && (q + 1 == |l.kv.keys| ==> e.pageId == r.id && Becomes(v', v[Last(l.kv.keys) := e]))
      && (q == |l.kv.keys| + 1 ==> e.pageId == l.id && Becomes(v', v[r.kv.keys[0] := e]))
    else v' == v
  }

  lemma BorrowLeafCoh(v: View, v': View, l: Tree, s: int, r: Tree, q: nat, e: Entry, lo: int, hi: int)
    requires l.Leaf? && r.Leaf? && KVOk(l.kv) && KVOk(r.kv) && InRange(l.kv.keys, lo, s) && InRange(r.kv.keys, s, hi)
    requires l.kv.keys != [] && r.kv.keys != [] && lo < s < hi
    requires Coh(v, l) && Coh(v, r) && CutAt(Merge(l, s, r), q) && (q + 1 == |l.kv.keys| || q == |l.kv.keys| + 1)
    requires BorrowView(v, v', l, r, q, e)
    ensures var (l', s', r') := Cut(Merge(l, s, r), q, r.id); Coh(v', l') && Coh(v', r')
    ensures Outside(v, v', lo, hi)
  {
    var (l', s', r') := Cut(Merge(l, s, r), q, r.id);
    if v' == map[] {
      CohNone(l');
      CohNone(r');
    } else {
      CutKeys(l, s, r, q);
    }
  }

  /** Where the keys of the two leaves go. */
  lemma CutKeys(l: Tree, s: int, r: Tree, q: nat)
    requires l.Leaf? && r.Leaf? && CutAt(Merge(l, s, r), q) && |l.kv.keys| == |l.kv.vals| && |r.kv.keys| == |r.kv.vals|
    requires l.kv.keys != [] && r.kv.keys != []
    ensures
      var (l', s', r') := Cut(Merge(l, s, r), q, r.id);
      && l'.Leaf? && r'.Leaf? && l'.id == l.id && r'.id == r.id
      && (q + 1 == |l.kv.keys| ==> l'.kv.keys == l.kv.keys[..q] && r'.kv.keys == [Last(l.kv.keys)] + r.kv.keys)
      && (q == |l.kv.keys| + 1 ==> l'.kv.keys == l.kv.keys + [r.kv.keys[0]] && r'.kv.keys == r.kv.keys[1..])
      && l'.kv.keys == (l.kv.keys + r.kv.keys)[..q] && r'.kv.keys == (l.kv.keys + r.kv.keys)[q..]
      && l'.kv.vals == (l.kv.vals + r.kv.vals)[..q] && r'.kv.vals == (l.kv.vals + r.kv.vals)[q..]
      && l'.next == r.id && r'.next == r.next
  {
  }

  lemma BorrowCoh(v: View, v': View, t: Tree, j: nat, q: nat, e: Entry, lo: int, hi: int, h: nat, c: Cfg)
    requires t.Node? && OK(t, lo, hi, h, c) && c.n >= 4 && |t.kids| == |t.keys| + 1 && j < |t.keys| && lo < hi
    requires Coh(v, t.kids[j]) && Coh(v, t.kids[j + 1]) && CutAt(Both(t, j), q)
    requires q + 1 == Size(t.kids[j]) || q == Size(t.kids[j]) + 1
    requires BorrowView(v, v', t.kids[j], t.kids[j + 1], q, e)
    ensures var (l, s, r) := Cut(Both(t, j), q, t.kids[j + 1].id); CohSeg(v', [l, r])
    ensures Outside(v, v', Lo(t.keys, j, lo), Hi(t.keys, j + 1, hi))
  {
    hide *;
    var l, s, r := t.kids[j], t.keys[j], t.kids[j + 1];
    var (l', s', r') := Cut(Both(t, j), q, r.id);
    var l0, h0 := Lo(t.keys, j, lo), Hi(t.keys, j + 1, hi);
    PairAt(t, j, lo, hi, h, c);
    BothIs(t, j);
    InnerSeg(l, l0, s, h - 1, c);
    InnerSeg(r, s, h0, h - 1, c);
    TwoKids(map[], v', l', r');
    if l.Leaf? {
      LeafKV(l, l0, s, h - 1, c);
      LeafKV(r, s, h0, h - 1, c);
      LeafNotEmpty(l, c.n);
      LeafNotEmpty(r, c.n);
      SizeLeaf(l);
      BorrowLeafCoh(v, v', l, s, r, q, e, l0, h0);
    } else {
      BorrowNode(v, v', l, r, q, e);
      TwoKids(map[], v, l, r);
      MergeNodeCoh(v, l, s, r);
      MergeIsNode(l, s, r);
      CutNodeCoh(v, Both(t, j), q, r.id);
      OutsideSame(v, l0, h0);
    }
  }

  lemma SizeLeaf(t: Tree)
    requires t.Leaf?
    ensures Size(t) == |t.kv.keys|
  {
  }

  lemma BorrowNode(v: View, v': View, l: Tree, r: Tree, q: nat, e: Entry)
    requires BorrowView(v, v', l, r, q, e) && l.Node?
    ensures v' == v
  {
  }

  lemma MergeIsNode(l: Tree, s: int, r: Tree)
    requires l.Node?
    ensures Merge(l, s, r).Node?
  {
  }

  /** The two kids of a pair and their pages. */
  lemma PairStore(m: Store, v: View, t: Tree, j: nat)
    requires t.Node? && j + 1 < |t.kids| && Rep(m, t) && Disj(t)
    ensures t.kids[j..j + 2] == [t.kids[j], t.kids[j + 1]]
    ensures RepSeg(m, [t.kids[j], t.kids[j + 1]]) && DisjSeg([t.kids[j], t.kids[j + 1]])
    ensures IdsSeg(t.kids[j..j + 1 + 1]) == IdsSeg([t.kids[j], t.kids[j + 1]])
    ensures IdsSeg([t.kids[j], t.kids[j + 1]]) <= Ids(t) <= m.Keys && t.id !in IdsSeg([t.kids[j], t.kids[j + 1]]) && t.id in Ids(t)
    ensures Coh(v, t) ==> Coh(v, t.kids[j]) && Coh(v, t.kids[j + 1])
  {
    hide *;
    var run := [t.kids[j], t.kids[j + 1]];
    assert t.kids[j..j + 2] == run && t.kids[j..j + 1 + 1] == run;
    RepParts(m, t, j, j + 1);
    IdsParts(t, j, j + 1);
    RepIds(m, t);
    IdsOf(m, t);
    if Coh(v, t) {
      CohParts(v, t, j, j + 1);
      TwoKids(m, v, t.kids[j], t.kids[j + 1]);
    }
  }

  /** One key moves across separator j, in either direction. */
  lemma RebalanceTurn(m: Store, v: View, m': Store, v': View, used: set<nat>, t: Tree, j: nat, q: nat, e: Entry, lo: int, hi: int, h: nat, c: Cfg)
    requires t.Node? && OK(t, lo, hi, h, c) && c.n >= 4 && |t.kids| == |t.keys| + 1 && j < |t.keys| && lo < hi
    requires Rep(m, t) && Disj(t) && Coh(v, t) && m.Keys <= used && CutAt(Both(t, j), q)
    requires q + 1 == Size(t.kids[j]) || q == Size(t.kids[j]) + 1
    requires BorrowView(v, v', t.kids[j], t.kids[j + 1], q, e)
    requires
      var (l, s, r) := Cut(Both(t, j), q, t.kids[j + 1].id);
      && m'.Keys == m.Keys && Agrees(m, m', m.Keys - {t.id, t.kids[j].id, t.kids[j + 1].id}) && t.id in m'
      && t.kids[j].id in m' && m'[t.kids[j].id] == PageOf(l) && t.kids[j + 1].id in m' && m'[t.kids[j + 1].id] == PageOf(r)
      && m'[t.id] == PageOf(Node(t.id, t.keys[j := s], t.kids[j := l][j + 1 := r]))
    ensures Turn(m, v, m', v', used, t, Rebalance(t, j, q), lo, hi)
  {
    hide *;
    var l, r, b := t.kids[j], t.kids[j + 1], Both(t, j);
    var (l', s', r') := Cut(b, q, r.id);
    RebalanceShape(t, j, q);
    TwoForTwo(t, j, t.keys[j := s'], l', r');
    PairAt(t, j, lo, hi, h, c);
    PairStore(m, v, t, j);
    SameKind(t, j, lo, hi, h, c);
    BothIs(t, j);
    MergeStore(m, l, t.keys[j], r);
    BorrowCoh(v, v', t, j, q, e, lo, hi, h, c);
    PairKeys(m.Keys, used, Ids(t), IdsSeg([l, r]), IdsSeg(KidsOf(b)), t.id, l.id, r.id);
    AgreesOn(m, m', m.Keys - {t.id, l.id, r.id}, IdsSeg(KidsOf(b)));
    AgreesOn(m, m', m.Keys - {t.id, l.id, r.id}, m.Keys - IdsSeg([l, r]) - {t.id});
    CutStore(m, m', b, q, r.id);
    TurnRun(m, v, m', v', used, t, j, j + 1, t.keys[j := s'], [l', r'], lo, hi, h, c);
  }

  lemma SameKind(t: Tree, j: nat, lo: int, hi: int, h: nat, c: Cfg)
    requires t.Node? && OK(t, lo, hi, h, c) && |t.kids| == |t.keys| + 1 && j < |t.keys|
    ensures t.kids[j].Leaf? == t.kids[j + 1].Leaf?
  {
    PairAt(t, j, lo, hi, h, c);
    InnerSeg(t.kids[j], Lo(t.keys, j, lo), t.keys[j], h - 1, c);
    InnerSeg(t.kids[j + 1], t.keys[j], Hi(t.keys, j + 1, hi), h - 1, c);
  }

  lemma TwoForTwo(t: Tree, j: nat, keys: seq<int>, l: Tree, r: Tree)
    requires t.Node? && j + 1 < |t.kids|
    ensures Spliced(t, j, j + 1, keys, [l, r]) == Node(t.id, keys, t.kids[j := l][j + 1 := r])
  {
    assert t.kids[..j] + [l, r] + t.kids[j + 2..] == t.kids[j := l][j + 1 := r];
  }

  lemma PairKeys(keys: set<nat>, used: set<nat>, all: set<nat>, pair: set<nat>, below: set<nat>, top: nat, l: nat, r: nat)
    requires pair == {l, r} + below && l !in below && r !in below && l != r && pair <= all <= keys <= used && top !in pair && top in all
    ensures below <= keys - {top, l, r} && keys - pair - {top} <= keys - {top, l, r}
    ensures keys == (keys - pair) + pair && pair * used <= pair
    ensures keys - {r} == (keys - pair) + ({l} + below) && ({l} + below) * used <= pair
  {
  }

  /** The view after the right of two leaves was merged into the left one. */
  ghost predicate MergeView(v: View, v': View, l: Tree, r: Tree, e: Entry) {
    if r.Leaf? && r.kv.keys != [] then e.pageId == l.id && Becomes(v', Repoint(v, r.kv.keys[0], Last(r.kv.keys), e)) else v' == v
  }

  lemma MergeLeafCoh(v: View, v': View, l: Tree, s: int, r: Tree, e: Entry, lo: int, hi: int)
    requires l.Leaf? && r.Leaf? && KVOk(l.kv) && KVOk(r.kv) && InRange(l.kv.keys, lo, s) && InRange(r.kv.keys, s, hi)
    requires r.kv.keys != [] && lo < s < hi && Coh(v, l) && Coh(v, r) && MergeView(v, v', l, r, e)
    ensures Coh(v', Merge(l, s, r)) && Outside(v, v', lo, hi)
  {
    var b := Merge(l, s, r);
    if v' == map[] {
      CohNone(b);
    } else {
      forall i | 0 <= i < |b.kv.keys| && b.kv.keys[i] in v' ensures v'[b.kv.keys[i]].pageId == l.id {
        if i < |l.kv.keys| {
          assert b.kv.keys[i] == l.kv.keys[i] <= s < r.kv.keys[0];
        } else {
          assert b.kv.keys[i] == r.kv.keys[i - |l.kv.keys|];
        }
      }
    }
  }

  lemma MergeCoh(v: View, v': View, t: Tree, j: nat, e: Entry, lo: int, hi: int, h: nat, c: Cfg)
    requires t.Node? && OK(t, lo, hi, h, c) && c.n >= 4 && |t.kids| == |t.keys| + 1 && j < |t.keys|
    requires Coh(v, t.kids[j]) && Coh(v, t.kids[j + 1]) && MergeView(v, v', t.kids[j], t.kids[j + 1], e)
    ensures Coh(v', Both(t, j)) && Outside(v, v', Lo(t.keys, j, lo), Hi(t.keys, j + 1, hi))
  {
    hide *;
    var l, s, r := t.kids[j], t.keys[j], t.kids[j + 1];
    var l0, h0 := Lo(t.keys, j, lo), Hi(t.keys, j + 1, hi);
    PairAt(t, j, lo, hi, h, c);
    SameKind(t, j, lo, hi, h, c);
    BothIs(t, j);
    if l.Leaf? {
      InnerSeg(l, l0, s, h - 1, c);
      LeafKV(l, l0, s, h - 1, c);
      LeafKV(r, s, h0, h - 1, c);
      LeafNotEmpty(r, c.n);
      MergeLeafCoh(v, v', l, s, r, e, l0, h0);
    } else {
      MergeViewNode(v, v', l, r, e);
      TwoKids(map[], v, l, r);
      MergeNodeCoh(v, l, s, r);
      OutsideSame(v, l0, h0);
    }
  }

  lemma MergeViewNode(v: View, v': View, l: Tree, r: Tree, e: Entry)
    requires MergeView(v, v', l, r, e) && r.Node?
    ensures v' == v
  {
  }

  lemma OneForTwo(t: Tree, j: nat, keys: seq<int>, b: Tree)
    requires t.Node? && j + 1 < |t.kids|
    ensures Spliced(t, j, j + 1, keys, [b]) == Node(t.id, keys, RemoveAt(t.kids[j := b], j + 1))
  {
    assert t.kids[..j] + [b] + t.kids[j + 2..] == RemoveAt(t.kids[j := b], j + 1);
  }

  /** The right kid of separator j is merged into the left one. */
  lemma MergeTurn(m: Store, v: View, m': Store, v': View, used: set<nat>, t: Tree, j: nat, e: Entry, lo: int, hi: int, h: nat, c: Cfg)
    requires t.Node? && OK(t, lo, hi, h, c) && c.n >= 4 && |t.kids| == |t.keys| + 1 && j < |t.keys| && lo < hi
    requires Rep(m, t) && Disj(t) && Coh(v, t) && m.Keys <= used
    requires MergeView(v, v', t.kids[j], t.kids[j + 1], e)
    requires m'.Keys == m.Keys - {t.kids[j + 1].id} && Agrees(m, m', m.Keys - {t.id, t.kids[j].id, t.kids[j + 1].id}) && t.id in m'
    requires t.kids[j].id in m' && m'[t.kids[j].id] == PageOf(Both(t, j))
    requires m'[t.id] == PageOf(Node(t.id, RemoveAt(t.keys, j), RemoveAt(t.kids[j := Both(t, j)], j + 1)))
    ensures Turn(m, v, m', v', used, t, MergeAt(t, j), lo, hi)
  {
    hide *;
    var l, r, b := t.kids[j], t.kids[j + 1], Both(t, j);
    MergeShape(t, j);
    OneForTwo(t, j, RemoveAt(t.keys, j), b);
    PairStore(m, v, t, j);
    SameKind(t, j, lo, hi, h, c);
    BothIs(t, j);
    MergeStore(m, l, t.keys[j], r);
    MergeCoh(v, v', t, j, e, lo, hi, h, c);
    PairKeys(m.Keys, used, Ids(t), IdsSeg([l, r]), IdsSeg(KidsOf(b)), t.id, l.id, r.id);
    AgreesOn(m, m', m.Keys - {t.id, l.id, r.id}, IdsSeg(KidsOf(b)));
    AgreesOn(m, m', m.Keys - {t.id, l.id, r.id}, m.Keys - IdsSeg([l, r]) - {t.id});
    RepSegFrame(m, m', KidsOf(b));
    IdsOf(m', b);
    OneKid(m', v', b);
    TurnRun(m, v, m', v', used, t, j, j + 1, RemoveAt(t.keys, j), [b], lo, hi, h, c);
  }

  // ----- Leaves -----

  lemma InsertLeafTurn(m: Store, v: View, m': Store, v': View, used: set<nat>, t: Tree, k: int, x: Value, e: Entry, lo: int, hi: int)
    requires t.Leaf? && |t.kv.keys| == |t.kv.vals| && Rep(m, t) && Coh(v, t) && lo < k <= hi && e.pageId == t.id
    requires var t' := Leaf(t.id, OuterInsert(t.kv, k, x), t.next); m' == m[t.id := PageOf(t')] && Becomes(v', v[k := e])
    ensures var t' := Leaf(t.id, OuterInsert(t.kv, k, x), t.next); Turn(m, v, m', v', used, t, t', lo, hi)
  {
    var t' := Leaf(t.id, OuterInsert(t.kv, k, x), t.next);
    if v' == map[] {
      CohNone(t');
    } else {
      var r := Rank(t.kv.keys, k);
      forall i | 0 <= i < |t'.kv.keys| && t'.kv.keys[i] in v' ensures v'[t'.kv.keys[i]].pageId == t.id {
        assert t'.kv.keys[i] == if i < r then t.kv.keys[i] else if i == r then k else t.kv.keys[i - 1];
      }
    }
  }

  /** Writing a leaf whose keys are among the old ones, while the cache keeps or drops entries. */
  lemma ShrinkLeafTurn(m: Store, v: View, m': Store, v': View, used: set<nat>, t: Tree, kv: KV, lo: int, hi: int)
    requires t.Leaf? && Rep(m, t) && Coh(v, t) && (forall i :: 0 <= i < |kv.keys| ==> kv.keys[i] in t.kv.keys)
    requires m' == m[t.id := PageOf(Leaf(t.id, kv, t.next))]
    requires forall k :: k in v' ==> k in v && v'[k].pageId == v[k].pageId
    ensures Turn(m, v, m', v', used, t, Leaf(t.id, kv, t.next), lo, hi)
  {
    var t' := Leaf(t.id, kv, t.next);
    forall i | 0 <= i < |kv.keys| && kv.keys[i] in v' ensures v'[kv.keys[i]].pageId == t.id {
      var j :| 0 <= j < |t.kv.keys| && t.kv.keys[j] == kv.keys[i];
    }
  }

  /** A root without separators gives way to its only kid. */
  lemma CollapseTurn(m: Store, v: View, used: set<nat>, t: Tree, lo: int, hi: int)
    requires t.Node? && |t.kids| == 1 && Rep(m, t) && Disj(t) && Coh(v, t) && m.Keys <= used
    ensures t.id in m && Turn(m, v, m - {t.id}, v, used, t, t.kids[0], lo, hi)
  {
    hide *;
    var m' := m - {t.id};
    KidCoh(m, v, t, 0);
    KidIdsIn(m, t, 0);
    RepPage(m, t);
    LoneIds(t);
    LessStore(m, t.id, Ids(t), Ids(t.kids[0]));
    RepFrame(m, m', t.kids[0]);
    OutsideSame(v, lo, hi);
    TurnIntro(m, v, m', v, used, t, t.kids[0], lo, hi);
  }

  lemma LoneIds(t: Tree)
    requires t.Node? && |t.kids| == 1
    ensures Ids(t) == {t.id} + Ids(t.kids[0])
  {
    assert t.kids == [t.kids[0]];
    OneKid(map[], map[], t.kids[0]);
  }

  lemma LessStore(m: Store, id: nat, all: set<nat>, kid: set<nat>)
    requires all == {id} + kid && id !in kid && all <= m.Keys
    ensures Agrees(m, m - {id}, kid) && Agrees(m, m - {id}, m.Keys - all) && (m - {id}).Keys == (m.Keys - all) + kid
  {
  }
}
