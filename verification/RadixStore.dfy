/**
 * The nodes of a radix tree in memory: an arena from addresses to node records
 * that holds the tree without sharing, and the steps that rewrite one node.
 */
module RadixStore {
  import opened Common
  import opened RadixModel

  /** A node record; a leaf has frames, an inner node has the addresses of its children. */
  datatype RRec = RRec(kind: Kind, leaf: bool, depth: nat, key: nat, frames: map<nat, Entry>, ptrs: map<nat, nat>)

  type Arena = map<nat, RRec>

  /** header.current_size */
  function NodeCount(rec: RRec): nat {
    if rec.leaf then |rec.frames| else |rec.ptrs|
  }

  ghost function RecOf(t: RTree): RRec {
    match t
    case RLeaf(_, kind, depth, key, frames) => RRec(kind, true, depth, key, frames, map[])
    case RNode(_, kind, depth, key, kids) => RRec(kind, false, depth, key, map[], map b | b in kids :: kids[b].id)
  }

  ghost function RIds(t: RTree): set<nat>
    decreases t
  {
    match t
    case RLeaf(id, _, _, _, _) => {id}
    case RNode(id, _, _, _, kids) => {id} + set b, p | b in kids && p in RIds(kids[b]) :: p
  }

  /** No node is reachable twice. */
  ghost predicate RDisj(t: RTree)
    decreases t
  {
    t.RNode? ==>
      && (forall b :: b in t.kids ==> RDisj(t.kids[b]) && t.id !in RIds(t.kids[b]))
      && forall b, c :: b in t.kids && c in t.kids && b != c ==> RIds(t.kids[b]) !! RIds(t.kids[c])
  }

  ghost predicate RRep(m: Arena, t: RTree)
    decreases t
  {
    && t.id in m && m[t.id] == RecOf(t)
    && (t.RNode? ==> forall b :: b in t.kids ==> RRep(m, t.kids[b]))
  }

  ghost predicate RAgrees(m: Arena, m': Arena, s: set<nat>) {
    forall p :: p in s && p in m ==> p in m' && m'[p] == m[p]
  }

  lemma KidIdsIn(t: RTree, b: nat)
    requires t.RNode? && b in t.kids
    ensures RIds(t.kids[b]) <= RIds(t) && t.id in RIds(t)
  {
  }

  lemma RAgreesOn(m: Arena, m': Arena, s: set<nat>, s': set<nat>)
    requires RAgrees(m, m', s) && s' <= s
    ensures RAgrees(m, m', s')
  {
  }

  lemma {:induction false} RFrame(m: Arena, m': Arena, t: RTree)
    requires RRep(m, t) && RAgrees(m, m', RIds(t))
    ensures RRep(m', t)
    decreases t
  {
    if t.RNode? {
      forall b | b in t.kids ensures RRep(m', t.kids[b]) {
        KidIdsIn(t, b);
        RAgreesOn(m, m', RIds(t), RIds(t.kids[b]));
        RFrame(m, m', t.kids[b]);
      }
    }
  }

  lemma {:induction false} RepIn(m: Arena, t: RTree)
    requires RRep(m, t)
    ensures RIds(t) <= m.Keys
    decreases t
  {
    if t.RNode? {
      forall b | b in t.kids ensures RIds(t.kids[b]) <= m.Keys {
        RepIn(m, t.kids[b]);
      }
    }
  }

  lemma OwnId(t: RTree)
    ensures t.id in RIds(t)
  {
  }

  lemma RepRec(m: Arena, t: RTree)
    requires RRep(m, t)
    ensures t.id in m && m[t.id] == RecOf(t)
    ensures t.RNode? ==> forall b :: b in t.kids ==> RRep(m, t.kids[b])
  {
  }

  lemma DisjAt(t: RTree, b: nat)
    requires t.RNode? && RDisj(t) && b in t.kids
    ensures RDisj(t.kids[b]) && t.id !in RIds(t.kids[b])
    ensures forall c :: c in t.kids && c != b ==> RIds(t.kids[b]) !! RIds(t.kids[c])
  {
  }

  /** The nodes of t other than those beneath byte b. */
  ghost function Others(t: RTree, b: nat): set<nat>
    requires t.RNode?
  {
    {t.id} + set c, p | c in t.kids && c != b && p in RIds(t.kids[c]) :: p
  }

  lemma OthersFacts(t: RTree, b: nat)
    requires t.RNode?
    ensures RIds(t) == Others(t, b) + (if b in t.kids then RIds(t.kids[b]) else {})
    ensures RDisj(t) && b in t.kids ==> RIds(t.kids[b]) !! Others(t, b)
    ensures forall c :: c in t.kids && c != b ==> RIds(t.kids[c]) <= Others(t, b)
    ensures t.id in Others(t, b)
  {
  }

  lemma IdsWithKid(t: RTree, b: nat, kid: RTree)
    requires t.RNode?
    ensures RIds(WithKid(t, b, kid)) == Others(t, b) + RIds(kid)
  {
    var t' := WithKid(t, b, kid);
    assert forall p :: p in RIds(t') ==> p in Others(t, b) + RIds(kid);
    forall p | p in Others(t, b) + RIds(kid) ensures p in RIds(t') {
      if p in RIds(kid) {
        KidIdsIn(t', b);
      } else if p != t.id {
        var c :| c in t.kids && c != b && p in RIds(t.kids[c]);
        KidIdsIn(t', c);
      }
    }
  }

  lemma DisjWithKid(t: RTree, b: nat, kid: RTree)
    requires t.RNode? && RDisj(t) && RDisj(kid) && RIds(kid) !! Others(t, b)
    ensures RDisj(WithKid(t, b, kid))
  {
    var t' := WithKid(t, b, kid);
    OthersFacts(t, b);
    forall c | c in t'.kids ensures RDisj(t'.kids[c]) && t'.id !in RIds(t'.kids[c]) {
      if c != b {
        DisjAt(t, c);
      }
    }
    forall c, d | c in t'.kids && d in t'.kids && c != d ensures RIds(t'.kids[c]) !! RIds(t'.kids[d]) {
      if c != b && d != b {
        DisjAt(t, c);
      }
    }
  }

  /** Writing the new record of t and the nodes of kid stores t with kid at byte b. */
  lemma StoreWithKid(m: Arena, m': Arena, t: RTree, b: nat, kid: RTree)
    requires t.RNode? && RRep(m, t) && RDisj(t)
    requires RRep(m', kid) && RDisj(kid) && RIds(kid) !! Others(t, b)
    requires t.id in m' && m'[t.id] == RecOf(WithKid(t, b, kid))
    requires RAgrees(m, m', Others(t, b) - {t.id})
    ensures RRep(m', WithKid(t, b, kid)) && RDisj(WithKid(t, b, kid))
    ensures RIds(WithKid(t, b, kid)) == Others(t, b) + RIds(kid)
  {
    var t' := WithKid(t, b, kid);
    OthersFacts(t, b);
    forall c | c in t'.kids ensures RRep(m', t'.kids[c]) {
      if c != b {
        DisjAt(t, c);
        RAgreesOn(m, m', Others(t, b) - {t.id}, RIds(t.kids[c]));
        RFrame(m, m', t.kids[c]);
      }
    }
    DisjWithKid(t, b, kid);
    IdsWithKid(t, b, kid);
  }

  lemma RecWithKid(t: RTree, b: nat, kid: RTree)
    requires t.RNode?
    ensures RecOf(WithKid(t, b, kid)) == RecOf(t).(ptrs := RecOf(t).ptrs[b := kid.id])
  {
  }

  lemma RecWithoutKid(t: RTree, b: nat)
    requires t.RNode?
    ensures RecOf(WithoutKid(t, b)) == RecOf(t).(ptrs := RecOf(t).ptrs - {b})
  {
  }

  lemma IdsWithoutKid(t: RTree, b: nat)
    requires t.RNode?
    ensures RIds(WithoutKid(t, b)) == Others(t, b)
  {
    var t' := WithoutKid(t, b);
    forall p | p in Others(t, b) ensures p in RIds(t') {
      if p != t.id {
        var c :| c in t.kids && c != b && p in RIds(t.kids[c]);
        KidIdsIn(t', c);
      }
    }
  }

  lemma StoreWithoutKid(m: Arena, m': Arena, t: RTree, b: nat)
    requires t.RNode? && RRep(m, t) && RDisj(t)
    requires t.id in m' && m'[t.id] == RecOf(WithoutKid(t, b))
    requires RAgrees(m, m', Others(t, b) - {t.id})
    ensures RRep(m', WithoutKid(t, b)) && RDisj(WithoutKid(t, b))
    ensures RIds(WithoutKid(t, b)) == Others(t, b)
  {
    var t' := WithoutKid(t, b);
    OthersFacts(t, b);
    forall c | c in t'.kids ensures RRep(m', t'.kids[c]) && RDisj(t'.kids[c]) && t'.id !in RIds(t'.kids[c]) {
      DisjAt(t, c);
      RAgreesOn(m, m', Others(t, b) - {t.id}, RIds(t.kids[c]));
      RFrame(m, m', t.kids[c]);
    }
    forall c, d | c in t'.kids && d in t'.kids && c != d ensures RIds(t'.kids[c]) !! RIds(t'.kids[d]) {
      DisjAt(t, c);
    }
    IdsWithoutKid(t, b);
  }

  /** Moving the root node of t to another address, possibly as another kind. */
  lemma StoreMoved(m: Arena, m': Arena, t: RTree, id: nat, kind: Kind)
    requires RRep(m, t) && RDisj(t) && id !in RIds(t)
    requires id in m' && m'[id] == RecOf(t).(kind := kind)
    requires RAgrees(m, m', RIds(t) - {t.id})
    ensures RRep(m', t.(id := id, kind := kind)) && RDisj(t.(id := id, kind := kind))
    ensures RIds(t.(id := id, kind := kind)) == RIds(t) - {t.id} + {id}
  {
    var t' := t.(id := id, kind := kind);
    assert RecOf(t') == RecOf(t).(kind := kind);
    if t.RNode? {
      forall b | b in t.kids ensures RRep(m', t.kids[b]) && t'.id !in RIds(t.kids[b]) {
        KidIdsIn(t, b);
        DisjAt(t, b);
        RAgreesOn(m, m', RIds(t) - {t.id}, RIds(t.kids[b]));
        RFrame(m, m', t.kids[b]);
      }
      forall p | p in RIds(t) - {t.id} ensures p in RIds(t') {
        var b :| b in t.kids && p in RIds(t.kids[b]);
        KidIdsIn(t', b);
      }
      forall b, c | b in t.kids && c in t.kids && b != c ensures RIds(t.kids[b]) !! RIds(t.kids[c]) {
        DisjAt(t, b);
      }
    }
  }

  // ----- Steps: one subtree replaced in the arena, nothing leaked, nothing else touched -----

  ghost predicate BelowTop(m: Arena, top: nat) {
    forall p :: p in m ==> 0 < p < top
  }

  /** From m to m' the subtree t became t'; its new nodes were allocated at or above top, its lost nodes were freed. */
  ghost predicate Stepped(m: Arena, m': Arena, top: nat, t: RTree, t': RTree) {
    && RRep(m', t') && RDisj(t')
    && RAgrees(m, m', m.Keys - RIds(t))
    && m'.Keys == (m.Keys - RIds(t)) + RIds(t')
    && forall p :: p in RIds(t') ==> p in RIds(t) || p >= top
  }

  ghost function KidIds(t: RTree, b: nat): set<nat>
    requires t.RNode?
  {
    if b in t.kids then RIds(t.kids[b]) else {}
  }

  lemma StepWithKid(m: Arena, m': Arena, top: nat, t: RTree, b: nat, kid: RTree)
    requires t.RNode? && RRep(m, t) && RDisj(t) && BelowTop(m, top)
    requires RRep(m', kid) && RDisj(kid) && forall p :: p in RIds(kid) ==> p in KidIds(t, b) || p >= top
    requires t.id in m' && m'[t.id] == RecOf(WithKid(t, b, kid))
    requires RAgrees(m, m', m.Keys - KidIds(t, b) - {t.id})
    requires m'.Keys == (m.Keys - KidIds(t, b)) + RIds(kid)
    ensures Stepped(m, m', top, t, WithKid(t, b, kid))
  {
    hide *;
    var t' := WithKid(t, b, kid);
    var r, o, k, n := RIds(t), Others(t, b), KidIds(t, b), RIds(kid);
    OthersFacts(t, b);
    KidIdsIs(t, b);
    RepIn(m, t);
    BelowTopAt(m, top);
    Shift(m.Keys, r, o, k, n);
    RAgreesOn(m, m', m.Keys - k - {t.id}, o - {t.id});
    StoreWithKid(m, m', t, b, kid);
    RAgreesOn(m, m', m.Keys - k - {t.id}, m.Keys - r);
    SteppedIntro(m, m', top, t, t');
  }

  lemma KidIdsIs(t: RTree, b: nat)
    requires t.RNode?
    ensures KidIds(t, b) == if b in t.kids then RIds(t.kids[b]) else {}
  {
  }

  lemma BelowTopAt(m: Arena, top: nat)
    requires BelowTop(m, top)
    ensures forall p :: p in m.Keys ==> 0 < p < top
  {
  }

  lemma Shift(keys: set<nat>, r: set<nat>, o: set<nat>, k: set<nat>, n: set<nat>)
    requires r == o + k && o !! k && r <= keys
    ensures (keys - k) + n == (keys - r) + (o + n)
  {
  }

  lemma SteppedIntro(m: Arena, m': Arena, top: nat, t: RTree, t': RTree)
    requires RRep(m', t') && RDisj(t') && RAgrees(m, m', m.Keys - RIds(t))
    requires m'.Keys == (m.Keys - RIds(t)) + RIds(t')
    requires forall p :: p in RIds(t') ==> p in RIds(t) || p >= top
    ensures Stepped(m, m', top, t, t')
  {
  }

  lemma SteppedFacts(m: Arena, m': Arena, top: nat, t: RTree, t': RTree)
    requires Stepped(m, m', top, t, t')
    ensures RRep(m', t') && RDisj(t') && RAgrees(m, m', m.Keys - RIds(t))
    ensures m'.Keys == (m.Keys - RIds(t)) + RIds(t')
    ensures forall p :: p in RIds(t') ==> p in RIds(t) || p >= top
  {
  }

  /** A step below byte b followed by the update of the record of t. */
  lemma StepUp(m: Arena, m1: Arena, top: nat, t: RTree, b: nat, kid: RTree)
    requires t.RNode? && RRep(m, t) && RDisj(t) && BelowTop(m, top) && b in t.kids
    requires Stepped(m, m1, top, t.kids[b], kid)
    ensures t.id in m1 && m1[t.id] == RecOf(t)
    ensures Stepped(m, m1[t.id := RecOf(WithKid(t, b, kid))], top, t, WithKid(t, b, kid))
    ensures kid.id == t.kids[b].id ==> RecOf(WithKid(t, b, kid)) == RecOf(t)
  {
    hide *;
    var m' := m1[t.id := RecOf(WithKid(t, b, kid))];
    var k := RIds(t.kids[b]);
    SteppedFacts(m, m1, top, t.kids[b], kid);
    RecWithKid(t, b, kid);
    KidRec(t, b);
    OthersFacts(t, b);
    KidIdsIs(t, b);
    RepIn(m, t);
    RepRec(m, t);
    BelowTopAt(m, top);
    AgreesAt(m, m1, m.Keys - k, t.id);
    StoreFresh(m1, m', kid, t.id);
    AgreesWrite(m, m1, m.Keys - k, t.id, RecOf(WithKid(t, b, kid)));
    StepWithKid(m, m', top, t, b, kid);
  }

  lemma AgreesAt(m: Arena, m': Arena, s: set<nat>, p: nat)
    requires RAgrees(m, m', s) && p in s && p in m
    ensures p in m' && m'[p] == m[p]
  {
  }

  lemma AgreesWrite(m: Arena, m1: Arena, s: set<nat>, p: nat, rec: RRec)
    requires RAgrees(m, m1, s)
    ensures RAgrees(m, m1[p := rec], s - {p})
  {
  }

  lemma KidRec(t: RTree, b: nat)
    requires t.RNode? && b in t.kids
    ensures RecOf(t).ptrs[b := t.kids[b].id] == RecOf(t).ptrs && b in RecOf(t).ptrs
  {
  }

  /** Writing a node outside a stored tree keeps it stored. */
  lemma StoreFresh(m: Arena, m': Arena, t: RTree, p: nat)
    requires RRep(m, t) && p !in RIds(t)
    requires forall q :: q in m && q != p ==> q in m' && m'[q] == m[q]
    ensures RRep(m', t)
  {
    RFrame(m, m', t);
  }

  lemma StepTrans(m: Arena, m1: Arena, m2: Arena, top: nat, top1: nat, t: RTree, t1: RTree, t2: RTree)
    requires Stepped(m, m1, top, t, t1) && Stepped(m1, m2, top1, t1, t2) && top <= top1 && BelowTop(m, top) && RIds(t) <= m.Keys
    ensures Stepped(m, m2, top, t, t2)
  {
    hide RRep, RDisj, RIds;
    assert RIds(t1) * (m.Keys - RIds(t)) == {};
  }

  /** The root of a subtree moved to a new address. */
  lemma StepMoved(m: Arena, top: nat, t: RTree, id: nat, kind: Kind)
    requires RRep(m, t) && RDisj(t) && BelowTop(m, top) && id == top
    ensures
      var t' := t.(id := id, kind := kind);
      Stepped(m, (m - {t.id})[id := RecOf(t).(kind := kind)], top, t, t')
  {
    hide *;
    var m' := (m - {t.id})[id := RecOf(t).(kind := kind)];
    OwnId(t);
    RepIn(m, t);
    BelowTopAt(m, top);
    MovedAgrees(m, t.id, id, RecOf(t).(kind := kind), RIds(t));
    StoreMoved(m, m', t, id, kind);
    MovedId(t, id, kind);
    SteppedIntro(m, m', top, t, t.(id := id, kind := kind));
  }

  lemma MovedId(t: RTree, id: nat, kind: Kind)
    ensures t.(id := id, kind := kind).id == id
  {
  }

  lemma MovedAgrees(m: Arena, p: nat, q: nat, rec: RRec, s: set<nat>)
    requires p in s && q !in m
    ensures RAgrees(m, (m - {p})[q := rec], s - {p})
    ensures RAgrees(m, (m - {p})[q := rec], m.Keys - s)
  {
  }

  /** A new node over two trees that are already stored. */
  lemma StoreNode(m: Arena, t: RTree, b: nat, c: nat)
    requires t.RNode? && t.kids.Keys == {b, c} && b != c
    requires RRep(m, t.kids[b]) && RRep(m, t.kids[c]) && RDisj(t.kids[b]) && RDisj(t.kids[c])
    requires RIds(t.kids[b]) !! RIds(t.kids[c]) && t.id !in RIds(t.kids[b]) + RIds(t.kids[c])
    requires t.id in m && m[t.id] == RecOf(t)
    ensures RRep(m, t) && RDisj(t) && RIds(t) == {t.id} + RIds(t.kids[b]) + RIds(t.kids[c])
  {
    hide *;
    TwoIds(t, b, c);
    TwoDisj(t, b, c);
    TwoRep(m, t, b, c);
  }

  lemma TwoRep(m: Arena, t: RTree, b: nat, c: nat)
    requires t.RNode? && t.kids.Keys == {b, c} && RRep(m, t.kids[b]) && RRep(m, t.kids[c]) && t.id in m && m[t.id] == RecOf(t)
    ensures RRep(m, t)
  {
    hide RecOf;
    forall x | x in t.kids ensures RRep(m, t.kids[x]) {
      assert x in t.kids.Keys;
    }
  }

  lemma TwoIds(t: RTree, b: nat, c: nat)
    requires t.RNode? && t.kids.Keys == {b, c}
    ensures RIds(t) == {t.id} + RIds(t.kids[b]) + RIds(t.kids[c])
  {
    KidIdsIn(t, b);
    KidIdsIn(t, c);
    assert forall x :: x in t.kids ==> x == b || x == c;
  }

  lemma TwoDisj(t: RTree, b: nat, c: nat)
    requires t.RNode? && t.kids.Keys == {b, c}
    requires RDisj(t.kids[b]) && RDisj(t.kids[c])
    requires RIds(t.kids[b]) !! RIds(t.kids[c]) && t.id !in RIds(t.kids[b]) + RIds(t.kids[c])
    ensures RDisj(t)
  {
    assert forall x :: x in t.kids ==> x == b || x == c;
    hide RIds;
  }

  lemma StepRefl(m: Arena, top: nat, t: RTree)
    requires RRep(m, t) && RDisj(t)
    ensures Stepped(m, m, top, t, t) && RIds(t) <= m.Keys
  {
    hide RIds, RDisj;
    RepIn(m, t);
    hide RRep;
  }

  /** Changing only the frames of a leaf. */
  lemma StepLeaf(m: Arena, top: nat, t: RTree, frames: map<nat, Entry>)
    requires t.RLeaf? && RRep(m, t) && t.id in m
    ensures Stepped(m, m[t.id := RecOf(t.(frames := frames))], top, t, t.(frames := frames))
    ensures RecOf(t.(frames := frames)) == RecOf(t).(frames := frames)
  {
  }

  /** A node with a single kid gives way to that kid. */
  lemma StepCollapse(m: Arena, m1: Arena, top: nat, t: RTree, t1: RTree, b: nat)
    requires Stepped(m, m1, top, t, t1) && t1.RNode? && t1.kids.Keys == {b} && t1.id in RIds(t)
    ensures Stepped(m, m1 - {t1.id}, top, t, t1.kids[b])
  {
    hide *;
    var z := t1.kids[b];
    SteppedFacts(m, m1, top, t, t1);
    RepRec(m1, t1);
    assert b in t1.kids.Keys;
    DisjAt(t1, b);
    OneIds(t1, b);
    StoreLess(m1, z, t1.id);
    AgreesLess(m, m1, m.Keys - RIds(t), t1.id);
    SteppedIntro(m, m1 - {t1.id}, top, t, z);
  }

  lemma OneIds(t: RTree, b: nat)
    requires t.RNode? && t.kids.Keys == {b}
    ensures b in t.kids && RIds(t) == {t.id} + RIds(t.kids[b])
  {
    KidIdsIn(t, b);
    assert forall x :: x in t.kids ==> x == b;
  }

  lemma StoreLess(m: Arena, t: RTree, p: nat)
    requires RRep(m, t) && p !in RIds(t)
    ensures RRep(m - {p}, t)
  {
    RFrame(m, m - {p}, t);
  }

  lemma AgreesLess(m: Arena, m1: Arena, s: set<nat>, p: nat)
    requires RAgrees(m, m1, s) && p !in s
    ensures RAgrees(m, m1 - {p}, s)
  {
  }

  /** A kid dropped from t is freed if it is a single node. */
  lemma StepDrop(m: Arena, m1: Arena, top: nat, t: RTree, b: nat, kid: RTree)
    requires t.RNode? && RRep(m, t) && RDisj(t) && BelowTop(m, top) && b in t.kids
    requires Stepped(m, m1, top, t.kids[b], kid) && RIds(kid) == {kid.id} && kid.id == t.kids[b].id
    ensures t.id in m1 && m1[t.id] == RecOf(t) && kid.id in m1 && kid.id != t.id
    ensures Stepped(m, (m1 - {kid.id})[t.id := RecOf(WithoutKid(t, b))], top, t, WithoutKid(t, b))
  {
    hide *;
    var k := RIds(t.kids[b]);
    var m2 := m1 - {kid.id};
    var m' := m2[t.id := RecOf(WithoutKid(t, b))];
    SteppedFacts(m, m1, top, t.kids[b], kid);
    OwnId(t.kids[b]);
    OthersFacts(t, b);
    RepIn(m, t);
    RepRec(m, t);
    BelowTopAt(m, top);
    AgreesAt(m, m1, m.Keys - k, t.id);
    AgreesLess(m, m1, m.Keys - k, kid.id);
    AgreesWrite(m, m2, m.Keys - k, t.id, RecOf(WithoutKid(t, b)));
    RAgreesOn(m, m', m.Keys - k - {t.id}, Others(t, b) - {t.id});
    RAgreesOn(m, m', m.Keys - k - {t.id}, m.Keys - RIds(t));
    StoreWithoutKid(m, m', t, b);
    assert m1.Keys == (m.Keys - k) + {kid.id};
    SteppedIntro(m, m', top, t, WithoutKid(t, b));
  }

  // ----- Fix counts -----

  /** Exactly the nodes in s are fixed, once each. */
  ghost predicate FixedOnly(m: Arena, fixes: map<nat, nat>, s: set<nat>) {
    fixes.Keys == m.Keys && s <= m.Keys && forall p :: p in fixes ==> fixes[p] == if p in s then 1 else 0
  }
}
