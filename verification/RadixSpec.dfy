/**
 * What an insertion and a deletion make of a radix tree, node by node with kinds,
 * header keys and prefixes, as two recursive functions on trees without addresses.
 * The descents of radix_tree.h, which look one or two nodes ahead, compute them.
 */
module RadixSpec {
  import opened Common
  import opened RadixKeys
  import opened RadixModel

  /** The tree without the addresses of its nodes. */
  ghost function Plain(t: RTree): RTree
    decreases t
  {
    match t
    case RLeaf(_, kind, depth, key, frames) => RLeaf(0, kind, depth, key, frames)
    case RNode(_, kind, depth, key, kids) => RNode(0, kind, depth, key, map b | b in kids :: Plain(kids[b]))
  }

  ghost function PlainO(t: Option<RTree>): Option<RTree> {
    if t.Some? then Some(Plain(t.value)) else None
  }

  // ----- Insertion -----

  /** The length of the longest common byte prefix, at most 7. */
  ghost function Prefix(a: nat, b: nat, n: nat): (p: nat)
    requires n <= 7
    ensures p <= n
    decreases n
  {
    if n > 0 && GetKey(a, 8 - n) == GetKey(b, 8 - n) then 1 + Prefix(a, b, n - 1) else 0
  }

  /** A full node moves to the next larger kind. */
  ghost function Enlarged(t: RTree): RTree {
    if CanInsert(t.kind, Size(t)) then t else t.(kind := Larger(t.kind))
  }

  /**
   * The tree with k mapped to e: a node parts where its prefix ends to fit, a leaf
   * takes the entry, an inner node passes it on or gets a new leaf. Full nodes on
   * the way grow first.
   */
  ghost function Inserted(t: RTree, k: nat, e: Entry): RTree
    decreases t
  {
    var p := Prefix(t.key, k, 7);
    if p + 1 < t.depth then
      if p < 7 then Fork(0, p, k, NewLeaf(0, k, e), Enlarged(t)) else Enlarged(t)
    else
      match t
      case RLeaf(_, _, _, _, frames) => Enlarged(t).(frames := frames[GetKey(k, 8) := e])
      case RNode(_, _, depth, _, kids) =>
        if depth > 8 then Enlarged(t)
        else
          var b := GetKey(k, depth);
          Enlarged(t).(kids := kids[b := if b in kids then Inserted(kids[b], k, e) else NewLeaf(0, k, e)])
  }

  ghost function InsertedO(t: Option<RTree>, k: nat, e: Entry): Option<RTree> {
    if t.Some? then Some(Inserted(t.value, k, e)) else Some(NewLeaf(0, k, e))
  }

  ghost function EnlargedO(t: Option<RTree>): Option<RTree> {
    if t.Some? then Some(Enlarged(t.value)) else None
  }

  // ----- Deletion -----

  /** A node at its threshold moves to the next smaller kind. */
  ghost function Shrunk(t: RTree): RTree {
    if CanRemove(t.kind, Size(t)) then t else t.(kind := Smaller(t.kind))
  }

  /** Some child, the only one where it is used. */
  ghost function Lone(t: RTree): RTree
    requires t.RNode? && t.kids != map[]
  {
    var b :| b in t.kids;
    t.kids[b]
  }

  /** An inner node that lost a child: a single child left takes its place. */
  ghost function Settled(t: RTree): RTree
    requires t.RNode?
  {
    if |t.kids| == 1 then Lone(t) else Shrunk(t)
  }

  /** The tree without the entry a search for k ends at, comparing only the branching bytes. */
  ghost function Deleted(t: RTree, k: nat): Option<RTree>
    decreases t
  {
    match t
    case RLeaf(_, _, _, _, frames) =>
      var rest := frames - {GetKey(k, 8)};
      if rest == map[] then None else Some(Shrunk(t.(frames := rest)))
    case RNode(_, _, depth, _, kids) =>
      if depth > 8 || GetKey(k, depth) !in kids then Some(t)
      else
        var b := GetKey(k, depth);
        var kid := Deleted(kids[b], k);
        if kid.Some? then Some(WithKid(t, b, kid.value)) else Some(Settled(WithoutKid(t, b)))
  }

  ghost function DeletedO(t: Option<RTree>, k: nat): Option<RTree> {
    if t.Some? then Deleted(t.value, k) else None
  }

  // ----- Trees without addresses -----

  lemma PlainIs(t: RTree)
    ensures var q := Plain(t);
      && q.RLeaf? == t.RLeaf? && q.kind == t.kind && q.depth == t.depth && q.key == t.key && Size(q) == Size(t)
      && (t.RLeaf? ==> q.frames == t.frames) && (t.RNode? ==> q.kids.Keys == t.kids.Keys && forall b :: b in t.kids ==> q.kids[b] == Plain(t.kids[b]))
  {
    if t.RNode? {
      assert Plain(t).kids.Keys == t.kids.Keys;
      assert |Plain(t).kids| == |Plain(t).kids.Keys| && |t.kids| == |t.kids.Keys|;
    }
  }

  lemma PlainWithKid(t: RTree, b: nat, kid: RTree)
    requires t.RNode?
    ensures Plain(t).RNode? && Plain(WithKid(t, b, kid)) == WithKid(Plain(t), b, Plain(kid))
  {
  }

  lemma PlainWithoutKid(t: RTree, b: nat)
    requires t.RNode?
    ensures Plain(t).RNode? && Plain(WithoutKid(t, b)) == WithoutKid(Plain(t), b)
  {
  }

  lemma PlainFrames(t: RTree, frames: map<nat, Entry>)
    requires t.RLeaf?
    ensures Plain(t).RLeaf? && Plain(t.(frames := frames)) == Plain(t).(frames := frames)
  {
  }

  lemma PlainMoved(t: RTree, id: nat, kind: Kind)
    ensures Plain(t.(id := id, kind := kind)) == Plain(t).(kind := kind)
  {
  }

  lemma PlainNew(id: nat, k: nat, e: Entry)
    ensures Plain(NewLeaf(id, k, e)) == NewLeaf(0, k, e)
  {
  }

  lemma PlainFork(id: nat, p: nat, k: nat, leaf: RTree, c: RTree)
    requires p < 8
    ensures Plain(Fork(id, p, k, leaf, c)) == Fork(0, p, k, Plain(leaf), Plain(c))
  {
  }

  // ----- Common prefixes -----

  lemma {:induction false} PrefixIs(a: nat, b: nat, n: nat, p: nat)
    requires n <= 7 && p <= n && (forall i :: 8 - n <= i < 8 - n + p ==> GetKey(a, i) == GetKey(b, i))
    requires p < n ==> GetKey(a, 8 - n + p) != GetKey(b, 8 - n + p)
    ensures Prefix(a, b, n) == p
    decreases n
  {
    hide GetKey;
    if p > 0 {
      PrefixIs(a, b, n - 1, p - 1);
    }
  }

  /** The loop of longest_common_prefix computes it. */
  lemma PrefixAgrees(a: nat, b: nat, p: nat)
    requires p <= 7 && Agree(a, b, p) && (p < 7 ==> GetKey(a, p + 1) != GetKey(b, p + 1))
    ensures Prefix(a, b, 7) == p
  {
    hide GetKey, Agree;
    forall i | 1 <= i < 1 + p ensures GetKey(a, i) == GetKey(b, i) {
      AgreeDown(a, b, p, i - 1);
    }
    PrefixIs(a, b, 7, p);
  }

  lemma {:induction false} PrefixUpTo(a: nat, b: nat, n: nat, d: nat)
    requires n <= 7 && d <= n && (forall i :: 8 - n <= i < 8 - n + d ==> GetKey(a, i) == GetKey(b, i))
    ensures Prefix(a, b, n) >= d
    decreases n
  {
    hide GetKey;
    if d > 0 {
      PrefixUpTo(a, b, n - 1, d - 1);
    }
  }

  lemma PrefixAtLeast(a: nat, b: nat, d: nat)
    requires d <= 7 && Agree(a, b, d)
    ensures Prefix(a, b, 7) >= d
  {
    hide GetKey, Agree;
    forall i | 1 <= i < 1 + d ensures GetKey(a, i) == GetKey(b, i) {
      AgreeDown(a, b, d, i - 1);
    }
    PrefixUpTo(a, b, 7, d);
  }

  // ----- One step of an insertion -----

  lemma EnlargedIs(t: RTree)
    ensures CanInsert(t.kind, Size(t)) ==> Enlarged(t) == t
    ensures !CanInsert(t.kind, Size(t)) ==> Enlarged(t) == t.(kind := Larger(t.kind))
  {
  }

  lemma PutLeaf(t: RTree, k: nat, e: Entry)
    requires t.RLeaf? && CanInsert(t.kind, Size(t)) && 1 <= t.depth <= 8 && Agree(t.key, k, t.depth - 1)
    ensures Plain(t.(frames := t.frames[GetKey(k, 8) := e])) == Inserted(Plain(t), k, e)
  {
    hide Agree, GetKey, CanInsert;
    PrefixAtLeast(t.key, k, t.depth - 1);
    PlainIs(t);
    EnlargedIs(Plain(t));
  }

  lemma PutGap(t: RTree, k: nat, e: Entry, leaf: nat)
    requires t.RNode? && CanInsert(t.kind, Size(t)) && 1 <= t.depth <= 8 && Agree(t.key, k, t.depth - 1) && GetKey(k, t.depth) !in t.kids
    ensures Plain(WithKid(t, GetKey(k, t.depth), NewLeaf(leaf, k, e))) == Inserted(Plain(t), k, e)
  {
    hide Agree, GetKey, CanInsert;
    PrefixAtLeast(t.key, k, t.depth - 1);
    PlainIs(t);
    EnlargedIs(Plain(t));
    PlainWithKid(t, GetKey(k, t.depth), NewLeaf(leaf, k, e));
    PlainNew(leaf, k, e);
  }

  lemma PutKid(t: RTree, k: nat, e: Entry, kid: RTree)
    requires t.RNode? && CanInsert(t.kind, Size(t)) && 1 <= t.depth <= 8 && Agree(t.key, k, t.depth - 1) && GetKey(k, t.depth) in t.kids
    requires Plain(kid) == Inserted(Plain(t.kids[GetKey(k, t.depth)]), k, e)
    ensures Plain(WithKid(t, GetKey(k, t.depth), kid)) == Inserted(Plain(t), k, e)
  {
    hide Agree, GetKey, CanInsert;
    PrefixAtLeast(t.key, k, t.depth - 1);
    PlainIs(t);
    EnlargedIs(Plain(t));
    PlainWithKid(t, GetKey(k, t.depth), kid);
  }

  lemma PutFork(t: RTree, id: nat, leaf: nat, p: nat, k: nat, e: Entry)
    requires CanInsert(t.kind, Size(t)) && p < 7 && p + 1 < t.depth && Agree(t.key, k, p) && GetKey(t.key, p + 1) != GetKey(k, p + 1)
    ensures Plain(Fork(id, p, k, NewLeaf(leaf, k, e), t)) == Inserted(Plain(t), k, e)
  {
    hide Agree, GetKey, CanInsert, Fork, NewLeaf;
    PrefixAgrees(t.key, k, p);
    PlainIs(t);
    EnlargedIs(Plain(t));
    PlainFork(id, p, k, NewLeaf(leaf, k, e), t);
    PlainNew(leaf, k, e);
  }

  /** Growing a full node beforehand makes no difference. */
  lemma PutGrown(t: RTree, k: nat, e: Entry)
    requires Size(t) <= Capacity(t.kind)
    ensures Inserted(Enlarged(t), k, e) == Inserted(t, k, e)
  {
    EnlargedTwice(t);
    hide GetKey, CanInsert, Fork, NewLeaf;
  }

  lemma EnlargedTwice(t: RTree)
    requires Size(t) <= Capacity(t.kind)
    ensures Enlarged(Enlarged(t)) == Enlarged(t) && Size(Enlarged(t)) == Size(t)
  {
  }

  // ----- One step of a deletion -----

  /** t' is t with the entry that a search for k ends at gone from the kid at byte b, which is still there. */
  ghost predicate DropsKid(t: RTree, t': RTree, k: nat, b: nat) {
    && t.RNode? && b in t.kids && Deleted(Plain(t.kids[b]), k).Some?
    && Plain(t').RNode? && Plain(t).RNode? && Plain(t') == WithKid(Plain(t), b, Deleted(Plain(t.kids[b]), k).value)
  }

  lemma ShrunkIs(t: RTree)
    ensures CanRemove(t.kind, Size(t)) ==> Plain(t) == Shrunk(Plain(t))
    ensures !CanRemove(t.kind, Size(t)) ==> forall id :: Plain(t.(id := id, kind := Smaller(t.kind))) == Shrunk(Plain(t))
  {
    hide CanRemove, Smaller;
    PlainIs(t);
    forall id ensures Plain(t.(id := id, kind := Smaller(t.kind))) == Plain(t).(kind := Smaller(t.kind)) {
      PlainMoved(t, id, Smaller(t.kind));
    }
  }

  lemma DeletedLeaf(t: RTree, k: nat)
    requires t.RLeaf?
    ensures
      var rest := WithoutFrame(t, GetKey(k, 8));
      Deleted(Plain(t), k) == if rest.frames == map[] then None else Some(Shrunk(Plain(rest)))
  {
    PlainIs(t);
    PlainFrames(t, t.frames - {GetKey(k, 8)});
  }

  lemma DeletedMiss(t: RTree, k: nat)
    requires t.RNode? && t.depth <= 8 && GetKey(k, t.depth) !in t.kids
    ensures Deleted(Plain(t), k) == Some(Plain(t))
  {
    PlainIs(t);
  }

  lemma DeletedKid(t: RTree, t': RTree, k: nat)
    requires t.RNode? && t.depth <= 8 && DropsKid(t, t', k, GetKey(k, t.depth))
    ensures Deleted(Plain(t), k) == Some(Plain(t'))
  {
    PlainIs(t);
  }

  lemma DeletedGone(t: RTree, k: nat)
    requires t.RNode? && t.depth <= 8 && GetKey(k, t.depth) in t.kids && Deleted(Plain(t.kids[GetKey(k, t.depth)]), k) == None
    ensures Plain(t).RNode? && Plain(WithoutKid(t, GetKey(k, t.depth))).RNode?
    ensures Deleted(Plain(t), k) == Some(Settled(Plain(WithoutKid(t, GetKey(k, t.depth)))))
  {
    PlainIs(t);
    PlainWithoutKid(t, GetKey(k, t.depth));
  }

  lemma DropsIntro(t: RTree, k: nat, b: nat, kid: RTree)
    requires t.RNode? && b in t.kids && Deleted(Plain(t.kids[b]), k) == Some(Plain(kid))
    ensures DropsKid(t, WithKid(t, b, kid), k, b)
  {
    PlainIs(t);
    PlainWithKid(t, b, kid);
    PlainIs(WithKid(t, b, kid));
  }

  lemma DropsNothing(t: RTree, k: nat, b: nat)
    requires t.RNode? && b in t.kids && Deleted(Plain(t.kids[b]), k) == Some(Plain(t.kids[b]))
    ensures DropsKid(t, t, k, b)
  {
    DropsIntro(t, k, b, t.kids[b]);
    assert t.kids[b := t.kids[b]] == t.kids;
  }

  lemma SettledLone(t: RTree, c: nat)
    requires t.RNode? && t.kids.Keys == {c} && c in t.kids
    ensures Plain(t).RNode? && Settled(Plain(t)) == Plain(t.kids[c])
  {
    PlainIs(t);
    var q := Plain(t);
    assert q.kids.Keys == {c};
    assert |q.kids| == |q.kids.Keys|;
    assert forall b :: b in q.kids ==> b in {c};
  }

  lemma SettledMany(t: RTree)
    requires t.RNode? && |t.kids| != 1
    ensures Plain(t).RNode? && Settled(Plain(t)) == Shrunk(Plain(t))
  {
    PlainIs(t);
  }

  // ----- No node is of a larger kind than it has needed -----

  /** The fewest children a node of this kind has: it took more to grow to it, and with fewer it shrinks. */
  function Least(kind: Kind): nat {
    match kind case K4 => 0 case K16 => 4 case K48 => 16 case K256 => 48
  }

  /** No node is of a kind that it is too small for. */
  ghost predicate Lean(t: RTree)
    decreases t
  {
    Size(t) >= Least(t.kind) && (t.RNode? ==> forall b :: b in t.kids ==> Lean(t.kids[b]))
  }

  ghost predicate LeanO(t: Option<RTree>) {
    t.Some? ==> Lean(t.value)
  }

  lemma EnlargedLean(t: RTree)
    requires Lean(t)
    ensures Lean(Enlarged(t)) && Size(Enlarged(t)) == Size(t)
  {
  }

  lemma MoreKeys<T>(m: map<nat, T>, b: nat, x: T)
    ensures |m[b := x]| >= |m|
  {
    assert m.Keys <= m[b := x].Keys;
    SubsetSize(m.Keys, m[b := x].Keys);
    assert |m| == |m.Keys| && |m[b := x]| == |m[b := x].Keys|;
  }

  lemma FewerKeys<T>(m: map<nat, T>, b: nat)
    ensures |m - {b}| >= |m| - 1
  {
    assert m.Keys <= (m - {b}).Keys + {b};
    SubsetSize(m.Keys, (m - {b}).Keys + {b});
    assert |m| == |m.Keys| && |m - {b}| == |(m - {b}).Keys|;
  }

  lemma NewLean(id: nat, k: nat, e: Entry)
    ensures Lean(NewLeaf(id, k, e))
  {
  }

  /** An insertion leaves no node of too large a kind. */
  lemma {:induction false} InsertedLean(t: RTree, k: nat, e: Entry)
    requires Lean(t)
    ensures Lean(Inserted(t, k, e))
    decreases t
  {
    hide GetKey, Prefix, CanInsert, Larger, Least;
    EnlargedLean(t);
    NewLean(0, k, e);
    if t.RLeaf? {
      MoreKeys(t.frames, GetKey(k, 8), e);
    } else if t.depth <= 8 {
      var b := GetKey(k, t.depth);
      if b in t.kids {
        InsertedLean(t.kids[b], k, e);
      }
      MoreKeys(t.kids, b, if b in t.kids then Inserted(t.kids[b], k, e) else NewLeaf(0, k, e));
    }
  }

  lemma ShrunkLean(t: RTree, was: nat)
    requires was >= Least(t.kind) && Size(t) >= was - 1 && (t.RNode? ==> forall b :: b in t.kids ==> Lean(t.kids[b]))
    ensures Lean(Shrunk(t))
  {
  }

  /** Neither does a deletion. */
  lemma {:induction false} DeletedLean(t: RTree, k: nat)
    requires Lean(t)
    ensures LeanO(Deleted(t, k))
    decreases t
  {
    hide GetKey, CanRemove, Smaller, Least, Shrunk;
    if t.RLeaf? {
      FewerKeys(t.frames, GetKey(k, 8));
      ShrunkLean(t.(frames := t.frames - {GetKey(k, 8)}), Size(t));
    } else if t.depth <= 8 && GetKey(k, t.depth) in t.kids {
      var b := GetKey(k, t.depth);
      DeletedLean(t.kids[b], k);
      var kid := Deleted(t.kids[b], k);
      if kid.Some? {
        MoreKeys(t.kids, b, kid.value);
      } else {
        FewerKeys(t.kids, b);
        ShrunkLean(WithoutKid(t, b), Size(t));
      }
    }
  }

  /** Nor does re-pointing, which keeps all nodes. */
  lemma {:induction false} UpdLean(t: RTree, from: nat, to: nat, e: Entry)
    requires Lean(t)
    ensures Lean(Upd(t, from, to, e))
    decreases t
  {
    hide InWindow, Least;
    var t' := Upd(t, from, to, e);
    if t.RLeaf? {
      assert t'.frames.Keys == t.frames.Keys;
      assert |t'.frames| == |t'.frames.Keys| && |t.frames| == |t.frames.Keys|;
    } else if t.depth <= 8 {
      assert t'.kids.Keys == t.kids.Keys;
      assert |t'.kids| == |t'.kids.Keys| && |t.kids| == |t.kids.Keys|;
      forall b | b in t'.kids ensures Lean(t'.kids[b]) {
        UpdLean(t.kids[b], from, to, e);
      }
    }
  }

  lemma {:induction false} PlainLean(t: RTree)
    ensures Lean(Plain(t)) == Lean(t)
    decreases t
  {
    hide Least;
    PlainIs(t);
    if t.RNode? {
      forall b | b in t.kids ensures Lean(Plain(t.kids[b])) == Lean(t.kids[b]) {
        PlainLean(t.kids[b]);
      }
    }
  }

  lemma PlainLeanO(t: Option<RTree>)
    ensures LeanO(PlainO(t)) == LeanO(t)
  {
    if t.Some? {
      PlainLean(t.value);
    }
  }

  lemma StaysLean(t: Option<RTree>, t': Option<RTree>, k: nat, e: Entry)
    requires LeanO(t)
    ensures PlainO(t') == InsertedO(PlainO(t), k, e) || PlainO(t') == DeletedO(PlainO(t), k) || PlainO(t') == EnlargedO(PlainO(t)) ==> LeanO(t')
  {
    hide Lean, Inserted, Deleted, Enlarged;
    PlainLeanO(t);
    PlainLeanO(t');
    NewLean(0, k, e);
    if t.Some? {
      InsertedLean(Plain(t.value), k, e);
      DeletedLean(Plain(t.value), k);
      EnlargedLean(Plain(t.value));
    }
  }
}
