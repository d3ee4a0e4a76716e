/**
 * The four layouts of a radix node (r_nodes.h) as one partial map from bytes to
 * child addresses. Growing and shrinking a node copies the map.
 */
module RNodes {
  import opened Common
  import opened RadixModel

  type Byte = b: int | 0 <= b < 256

  /** The address of a child; 0 is the null pointer. */
  type Child = nat

  /** RNode4 and RNode16: parallel arrays in order of insertion. */
  class ListNode {
    const kind: Kind
    const keys: array<Byte>
    const children: array<Child>
    var currentSize: nat
    ghost var contents: map<Byte, Child>

    ghost predicate Valid()
      reads this, keys, children
    {
      && keys as object != children as object && (kind == K4 || kind == K16)
      && keys.Length == children.Length == Capacity(kind) && currentSize <= keys.Length
      && Lists(keys[..currentSize], children[..currentSize], contents)
    }

    constructor (k: Kind)
      requires k == K4 || k == K16
      ensures Valid() && contents == map[] && kind == k && fresh(keys) && fresh(children)
    {
      kind := k;
      keys, children := new Byte[Capacity(k)], new Child[Capacity(k)];
      currentSize, contents := 0, map[];
    }

    /** The first position below current_size that holds the byte, or current_size. */
    method GetIndex(key: Byte) returns (index: nat)
      requires Valid()
      ensures index <= currentSize && (index == currentSize <==> key !in contents)
      ensures index < currentSize ==> keys[index] == key && children[index] == contents[key]
    {
      index := 0;
      ghost var ks, cs := keys[..currentSize], children[..currentSize];
      while index < currentSize
        invariant index <= currentSize
        invariant forall i :: 0 <= i < index ==> ks[i] != key
      {
        if keys[index] == key {
          ListsAt(ks, cs, contents, index);
          return;
        }
        index := index + 1;
      }
      ListsNot(ks, cs, contents, key);
    }

    method GetNextPage(key: Byte) returns (child: Child)
      requires Valid()
      ensures child == if key in contents then contents[key] else 0
    {
      var index := GetIndex(key);
      return if index < currentSize then children[index] else 0;
    }

    method Insert(key: Byte, child: Child)
      requires Valid() && child != 0 && (key in contents || |contents| < Capacity(kind))
      modifies this`currentSize, this`contents, keys, children
      ensures Valid() && contents == old(contents)[key := child]
    {
      hide Lists;
      ghost var ks, cs := keys[..currentSize], children[..currentSize];
      ListsSize(ks, cs, contents);
      var index := GetIndex(key);
      if index < currentSize {
        children[index] := child;
        ListsSet(ks, cs, contents, index, child);
        assert keys[..currentSize] == ks && children[..currentSize] == cs[index := child];
      } else {
        keys[currentSize] := key;
        children[currentSize] := child;
        currentSize := currentSize + 1;
        ListsAdd(ks, cs, contents, key, child);
        assert keys[..currentSize] == ks + [key] && children[..currentSize] == cs + [child];
      }
      contents := contents[key := child];
    }

    /** The last pair takes the place of the deleted one. */
    method DeleteReference(key: Byte)
      requires Valid()
      modifies this`currentSize, this`contents, keys, children
      ensures Valid() && contents == old(contents) - {key}
    {
      hide Lists;
      MapSizes(contents, key, 0);
      var index := GetIndex(key);
      if index < currentSize {
        DropAt(index);
        ListsDrop(old(keys[..currentSize]), old(children[..currentSize]), contents, index);
        currentSize := currentSize - 1;
      }
      contents := contents - {key};
    }

    method DropAt(index: nat)
      requires keys as object != children as object && keys.Length == children.Length && index < currentSize <= keys.Length
      modifies keys, children
      ensures
        var ks, cs, last := old(keys[..currentSize]), old(children[..currentSize]), currentSize - 1;
        keys[..last] == ks[index := ks[last]][..last] && children[..last] == cs[index := cs[last]][..last]
    {
      if index != currentSize - 1 {
        keys[index] := keys[currentSize - 1];
        children[index] := children[currentSize - 1];
      }
    }

    method GetSingleChild() returns (child: Child)
      requires Valid() && |contents| == 1
      ensures exists b :: contents == map[b := child]
    {
      ListsSize(keys[..currentSize], children[..currentSize], contents);
      ListsAt(keys[..currentSize], children[..currentSize], contents, 0);
      LoneEntry(contents, keys[0]);
      return children[0];
    }

    method CanInsertInto() returns (can: bool)
      requires Valid()
      ensures can == CanInsert(kind, |contents|)
    {
      ListsSize(keys[..currentSize], children[..currentSize], contents);
      return currentSize < if kind == K4 then 4 else 16;
    }

    method CanDeleteFrom() returns (can: bool)
      requires Valid()
      ensures can == CanRemove(kind, |contents|)
    {
      ListsSize(keys[..currentSize], children[..currentSize], contents);
      return currentSize > if kind == K4 then 0 else 4;
    }
  }

  /** m maps the distinct bytes in ks to the non-null children beside them. */
  ghost predicate Lists(ks: seq<Byte>, cs: seq<Child>, m: map<Byte, Child>) {
    && |ks| == |cs| && (forall i :: 0 <= i < |ks| ==> ks[i] in m && m[ks[i]] == cs[i] && cs[i] != 0)
    && (forall b :: b in m ==> b in ks)
    && (forall i, j :: 0 <= i < j < |ks| ==> ks[i] != ks[j])
  }

  lemma ListsAt(ks: seq<Byte>, cs: seq<Child>, m: map<Byte, Child>, i: nat)
    requires Lists(ks, cs, m) && i < |ks|
    ensures ks[i] in m && i < |cs| && m[ks[i]] == cs[i]
  {
  }

  lemma ListsNot(ks: seq<Byte>, cs: seq<Child>, m: map<Byte, Child>, b: Byte)
    requires Lists(ks, cs, m) && forall i :: 0 <= i < |ks| ==> ks[i] != b
    ensures b !in m
  {
  }

  lemma {:induction false} ListsSize(ks: seq<Byte>, cs: seq<Child>, m: map<Byte, Child>)
    requires Lists(ks, cs, m)
    ensures |m| == |ks|
  {
    if ks == [] {
      assert m == map[];
    } else {
      var n := |ks| - 1;
      assert Lists(ks[..n], cs[..n], m - {ks[n]}) by {
        forall b | b in m - {ks[n]} ensures b in ks[..n] {
          var i :| 0 <= i < |ks| && ks[i] == b;
          assert ks[..n][i] == b;
        }
      }
      ListsSize(ks[..n], cs[..n], m - {ks[n]});
      assert (m - {ks[n]}).Keys == m.Keys - {ks[n]};
      assert |(m - {ks[n]}).Keys| == |m.Keys| - 1;
    }
  }

  lemma ListsSet(ks: seq<Byte>, cs: seq<Child>, m: map<Byte, Child>, i: nat, c: Child)
    requires Lists(ks, cs, m) && i < |ks| && c != 0
    ensures i < |cs| && Lists(ks, cs[i := c], m[ks[i] := c])
  {
  }

  lemma ListsAdd(ks: seq<Byte>, cs: seq<Child>, m: map<Byte, Child>, b: Byte, c: Child)
    requires Lists(ks, cs, m) && b !in m && c != 0
    ensures Lists(ks + [b], cs + [c], m[b := c])
  {
    forall x | x in m[b := c] ensures x in ks + [b] {
      if x != b {
        assert x in ks;
      } else {
        assert (ks + [b])[|ks|] == b;
      }
    }
  }

  lemma ListsDrop(ks: seq<Byte>, cs: seq<Child>, m: map<Byte, Child>, i: nat)
    requires Lists(ks, cs, m) && i < |ks|
    ensures |cs| == |ks|
    ensures var n := |ks| - 1; Lists(ks[i := ks[n]][..n], cs[i := cs[n]][..n], m - {ks[i]})
  {
    var n := |ks| - 1;
    var ks', cs' := ks[i := ks[n]][..n], cs[i := cs[n]][..n];
    forall b | b in m - {ks[i]} ensures b in ks' {
      var j :| 0 <= j < |ks| && ks[j] == b;
      assert ks'[if j == n then i else j] == b;
    }
  }

  lemma LoneEntry(m: map<Byte, Child>, b: Byte)
    requires |m| == 1 && b in m
    ensures m == map[b := m[b]]
  {
    assert |m.Keys - {b}| == 0;
    assert m.Keys - {b} == {};
    assert forall x :: x in m.Keys ==> x in {b} || x in m.Keys - {b};
  }

  /** In RNode48 this entry of the index marks a byte without a child. */
  const UNUSED: Byte := 255

  /** RNode48: an index from bytes to slots. */
  class IndexNode {
    const keys: array<Byte>
    const children: array<Child>
    var currentSize: nat
    ghost var contents: map<Byte, Child>
    /** The byte each used slot belongs to. */
    ghost var slots: map<nat, Byte>

    ghost predicate Valid()
      reads this, keys, children
    {
      && keys as object != children as object && keys.Length == 256 && children.Length == 48 && currentSize == |contents|
      && Indexes(keys[..], children[..], contents, slots)
    }

    constructor ()
      ensures Valid() && contents == map[] && fresh(keys) && fresh(children)
    {
      keys := new Byte[256](_ => UNUSED);
      children := new Child[48](_ => 0);
      currentSize, contents, slots := 0, map[], map[];
    }

    method GetNextPage(key: Byte) returns (child: Child)
      requires Valid()
      ensures child == if key in contents then contents[key] else 0
    {
      IndexAt(keys[..], children[..], contents, slots, key);
      return if keys[key] == UNUSED then 0 else children[keys[key]];
    }

    /** The first null child. */
    method FreeSlot() returns (i: nat)
      requires Valid() && |contents| < 48
      ensures i < 48 && children[i] == 0 && i !in slots
    {
      ghost var ks, cs := keys[..], children[..];
      SomeFree(ks, cs, contents, slots);
      i := 0;
      while children[i] != 0
        invariant i < 48
        invariant forall j :: 0 <= j < i ==> cs[j] != 0
        decreases 48 - i
      {
        i := i + 1;
      }
      UsedSlot(ks, cs, contents, slots, i);
    }

    method Insert(key: Byte, child: Child)
      requires Valid() && child != 0 && (key in contents || |contents| < 48)
      modifies this`currentSize, this`contents, this`slots, keys, children
      ensures Valid() && contents == old(contents)[key := child]
    {
      hide Indexes;
      ghost var ks, cs := keys[..], children[..];
      IndexAt(ks, cs, contents, slots, key);
      MapSizes(contents, key, child);
      if keys[key] != UNUSED {
        var i := keys[key];
        children[i] := child;
        IndexSet(ks, cs, contents, slots, key, child);
        assert children[..] == cs[i := child];
      } else {
        var i := FreeSlot();
        children[i] := child;
        keys[key] := i;
        currentSize := currentSize + 1;
        IndexAdd(ks, cs, contents, slots, key, i, child);
        assert keys[..] == ks[key := i] && children[..] == cs[i := child];
        slots := slots[i := key];
      }
      contents := contents[key := child];
    }

    method DeleteReference(key: Byte)
      requires Valid()
      modifies this`currentSize, this`contents, this`slots, keys, children
      ensures Valid() && contents == old(contents) - {key}
    {
      hide Indexes;
      ghost var ks, cs := keys[..], children[..];
      IndexAt(ks, cs, contents, slots, key);
      MapSizes(contents, key, 0);
      if keys[key] != UNUSED {
        var i := keys[key];
        children[i] := 0;
        keys[key] := UNUSED;
        currentSize := currentSize - 1;
        IndexDrop(ks, cs, contents, slots, key);
        assert keys[..] == ks[key := UNUSED] && children[..] == cs[i := 0];
        slots := slots - {i};
      }
      contents := contents - {key};
    }

    method GetSingleChild() returns (child: Child)
      requires Valid() && |contents| == 1
      ensures exists b :: contents == map[b := child]
    {
      ghost var b :| b in contents;
      LoneEntry(contents, b);
      IndexAt(keys[..], children[..], contents, slots, b);
      var i := 0;
      while keys[i] == UNUSED
        invariant i <= b
        decreases b - i
      {
        assert i != b;
        i := i + 1;
      }
      IndexAt(keys[..], children[..], contents, slots, i);
      return children[keys[i]];
    }

    method CanInsertInto() returns (can: bool)
      requires Valid()
      ensures can == CanInsert(K48, |contents|)
    {
      return currentSize < 48;
    }

    method CanDeleteFrom() returns (can: bool)
      requires Valid()
      ensures can == CanRemove(K48, |contents|)
    {
      return currentSize > 16;
    }
  }

  /** ks sends the bytes of m to distinct slots of cs that hold their children; slots is the inverse; the other slots are null. */
  ghost predicate Indexes(ks: seq<Byte>, cs: seq<Child>, m: map<Byte, Child>, slots: map<nat, Byte>) {
    && |ks| == 256 && |cs| == 48 && |slots| == |m|
    && Sends(ks, cs, m, slots) && Slots(ks, cs, m, slots)
  }

  ghost predicate Sends(ks: seq<Byte>, cs: seq<Child>, m: map<Byte, Child>, slots: map<nat, Byte>)
    requires |ks| == 256 && |cs| == 48
  {
    && (forall b: Byte :: b in m <==> ks[b] != UNUSED)
    && (forall b: Byte :: b in m ==> ks[b] < 48 && cs[ks[b]] == m[b] && m[b] != 0 && ks[b] in slots && slots[ks[b]] == b)
  }

  ghost predicate Slots(ks: seq<Byte>, cs: seq<Child>, m: map<Byte, Child>, slots: map<nat, Byte>)
    requires |ks| == 256 && |cs| == 48
  {
    && (forall i: nat :: i in slots ==> i < 48 && slots[i] in m && ks[slots[i]] == i)
    && (forall i: nat :: i < 48 && i !in slots ==> cs[i] == 0)
  }

  lemma IndexAt(ks: seq<Byte>, cs: seq<Child>, m: map<Byte, Child>, slots: map<nat, Byte>, b: Byte)
    requires Indexes(ks, cs, m, slots)
    ensures |ks| == 256 && |cs| == 48 && (b in m <==> ks[b] != UNUSED) && UNUSED == 255
    ensures b in m ==> ks[b] < 48 && cs[ks[b]] == m[b] && m[b] != 0
  {
  }

  lemma UsedSlot(ks: seq<Byte>, cs: seq<Child>, m: map<Byte, Child>, slots: map<nat, Byte>, i: nat)
    requires Indexes(ks, cs, m, slots) && i < 48
    ensures i in slots ==> cs[i] != 0
  {
  }

  lemma SomeFree(ks: seq<Byte>, cs: seq<Child>, m: map<Byte, Child>, slots: map<nat, Byte>)
    requires Indexes(ks, cs, m, slots) && |m| < 48
    ensures exists i :: 0 <= i < 48 && cs[i] == 0
  {
    FewerThan(48);
    if UpTo(48) <= slots.Keys {
      SubsetSize(UpTo(48), slots.Keys);
    }
    var i :| i in UpTo(48) && i !in slots;
    assert cs[i] == 0;
  }

  lemma IndexSet(ks: seq<Byte>, cs: seq<Child>, m: map<Byte, Child>, slots: map<nat, Byte>, b: Byte, c: Child)
    requires Indexes(ks, cs, m, slots) && b in m && c != 0
    ensures |ks| == 256 && |cs| == 48 && ks[b] < 48 && Indexes(ks, cs[ks[b] := c], m[b := c], slots)
  {
    MapSizes(m, b, c);
  }

  lemma IndexAdd(ks: seq<Byte>, cs: seq<Child>, m: map<Byte, Child>, slots: map<nat, Byte>, b: Byte, i: nat, c: Child)
    requires Indexes(ks, cs, m, slots) && b !in m && i < 48 && i !in slots && c != 0
    ensures |ks| == 256 && |cs| == 48 && Indexes(ks[b := i], cs[i := c], m[b := c], slots[i := b])
  {
    MapSizes(m, b, c);
    MapSizes(slots, i, b);
    hide Sends, Slots;
    AddSends(ks, cs, m, slots, b, i, c);
    AddSlots(ks, cs, m, slots, b, i, c);
  }

  lemma AddSends(ks: seq<Byte>, cs: seq<Child>, m: map<Byte, Child>, slots: map<nat, Byte>, b: Byte, i: nat, c: Child)
    requires |ks| == 256 && |cs| == 48 && Sends(ks, cs, m, slots) && b !in m && i < 48 && i !in slots && c != 0
    ensures Sends(ks[b := i], cs[i := c], m[b := c], slots[i := b])
  {
  }

  lemma AddSlots(ks: seq<Byte>, cs: seq<Child>, m: map<Byte, Child>, slots: map<nat, Byte>, b: Byte, i: nat, c: Child)
    requires |ks| == 256 && |cs| == 48 && Slots(ks, cs, m, slots) && b !in m && i < 48 && i !in slots
    ensures Slots(ks[b := i], cs[i := c], m[b := c], slots[i := b])
  {
  }

  lemma IndexDrop(ks: seq<Byte>, cs: seq<Child>, m: map<Byte, Child>, slots: map<nat, Byte>, b: Byte)
    requires Indexes(ks, cs, m, slots) && b in m
    ensures |ks| == 256 && |cs| == 48 && ks[b] < 48
    ensures Indexes(ks[b := UNUSED], cs[ks[b] := 0], m - {b}, slots - {ks[b]})
  {
    MapSizes(m, b, 0);
    MapSizes(slots, ks[b], b);
    IndexAt(ks, cs, m, slots, b);
    assert ks[b] in slots;
    hide Sends, Slots;
    DropSends(ks, cs, m, slots, b);
    DropSlots(ks, cs, m, slots, b);
  }

  lemma DropSends(ks: seq<Byte>, cs: seq<Child>, m: map<Byte, Child>, slots: map<nat, Byte>, b: Byte)
    requires |ks| == 256 && |cs| == 48 && Sends(ks, cs, m, slots) && b in m && ks[b] < 48
    ensures Sends(ks[b := UNUSED], cs[ks[b] := 0], m - {b}, slots - {ks[b]})
  {
  }

  lemma DropSlots(ks: seq<Byte>, cs: seq<Child>, m: map<Byte, Child>, slots: map<nat, Byte>, b: Byte)
    requires |ks| == 256 && |cs| == 48 && Slots(ks, cs, m, slots) && b in m && ks[b] < 48
    ensures Slots(ks[b := UNUSED], cs[ks[b] := 0], m - {b}, slots - {ks[b]})
  {
  }

  /** RNode256: the child at its byte. */
  class DirectNode {
    const children: array<Child>
    var currentSize: nat
    ghost var contents: map<Byte, Child>

    ghost predicate Valid()
      reads this, children
    {
      && children.Length == 256 && currentSize == |contents|
      && (forall b: Byte :: b in contents <==> children[b] != 0)
      && forall b: Byte :: b in contents ==> contents[b] == children[b]
    }

    constructor ()
      ensures Valid() && contents == map[] && fresh(children)
    {
      children := new Child[256](_ => 0);
      currentSize, contents := 0, map[];
    }

    method GetNextPage(key: Byte) returns (child: Child)
      requires Valid()
      ensures child == if key in contents then contents[key] else 0
    {
      return children[key];
    }

    method Insert(key: Byte, child: Child)
      requires Valid() && child != 0
      modifies this`currentSize, this`contents, children
      ensures Valid() && contents == old(contents)[key := child]
    {
      MapSizes(contents, key, child);
      if children[key] == 0 {
        currentSize := currentSize + 1;
      }
      children[key] := child;
      contents := contents[key := child];
    }

    method DeleteReference(key: Byte)
      requires Valid()
      modifies this`currentSize, this`contents, children
      ensures Valid() && contents == old(contents) - {key}
    {
      MapSizes(contents, key, 0);
      if children[key] != 0 {
        children[key] := 0;
        currentSize := currentSize - 1;
      }
      contents := contents - {key};
    }

    method GetSingleChild() returns (child: Child)
      requires Valid() && |contents| == 1
      ensures exists b :: contents == map[b := child]
    {
      ghost var b :| b in contents;
      LoneEntry(contents, b);
      var i := 0;
      while children[i] == 0
        invariant i < 256
        invariant forall j :: 0 <= j < i ==> children[j] == 0
        decreases 256 - i
      {
        assert i < b;
        i := i + 1;
      }
      return children[i];
    }

    method CanInsertInto() returns (can: bool)
      requires Valid()
      ensures can == CanInsert(K256, |contents|)
    {
      return true;
    }

    method CanDeleteFrom() returns (can: bool)
      requires Valid()
      ensures can == CanRemove(K256, |contents|)
    {
      return currentSize > 48;
    }
  }

  // ----- Growing and shrinking: the map is copied, and the thresholds make it fit -----

  lemma GrowFits(k: Kind, size: nat)
    requires !CanInsert(k, size) && size <= Capacity(k)
    ensures size < Capacity(Larger(k)) && CanInsert(Larger(k), size)
  {
  }

  lemma ShrinkFits(k: Kind, size: nat)
    requires !CanRemove(k, size)
    ensures size <= Capacity(Smaller(k))
  {
  }

  /** part holds the entries of m at the bytes before n. */
  ghost predicate Below(part: map<Byte, Child>, m: map<Byte, Child>, n: nat) {
    && (forall b :: b in part <==> b in m && b < n)
    && forall b :: b in part ==> part[b] == m[b]
  }

  lemma BelowNext(part: map<Byte, Child>, m: map<Byte, Child>, n: Byte)
    requires Below(part, m, n)
    ensures n !in part && (n !in m ==> Below(part, m, n + 1)) && (n in m ==> Below(part[n := m[n]], m, n + 1) && |part| < |m|)
  {
    if n in m {
      MapSizes(part, n, m[n]);
      SubsetSize(part[n := m[n]].Keys, m.Keys);
    }
  }

  lemma BelowAll(part: map<Byte, Child>, m: map<Byte, Child>)
    requires Below(part, m, 256)
    ensures part == m
  {
  }

  /** part holds the first n pairs of a list node. */
  ghost predicate Copied(part: map<Byte, Child>, ks: seq<Byte>, m: map<Byte, Child>, n: nat) {
    && n <= |ks| && (forall b :: b in part ==> b in ks[..n] && b in m && part[b] == m[b])
    && forall i :: 0 <= i < n ==> ks[i] in part
  }

  lemma CopiedNext(part: map<Byte, Child>, ks: seq<Byte>, cs: seq<Child>, m: map<Byte, Child>, n: nat)
    requires Lists(ks, cs, m) && Copied(part, ks, m, n) && n < |ks|
    ensures n < |cs| && ks[n] !in part && cs[n] != 0 && Copied(part[ks[n] := cs[n]], ks, m, n + 1) && |part| < |m|
  {
    ListsAt(ks, cs, m, n);
    CopiedNot(part, ks, cs, m, n);
    hide Lists;
    CopiedMore(part, ks, m, n, cs[n]);
    CopiedSize(part, ks, m, n);
  }

  lemma CopiedNot(part: map<Byte, Child>, ks: seq<Byte>, cs: seq<Child>, m: map<Byte, Child>, n: nat)
    requires Lists(ks, cs, m) && Copied(part, ks, m, n) && n < |ks|
    ensures n < |cs| && cs[n] != 0 && ks[n] !in part
  {
    assert ks[n] !in ks[..n];
  }

  lemma CopiedSize(part: map<Byte, Child>, ks: seq<Byte>, m: map<Byte, Child>, n: nat)
    requires Copied(part, ks, m, n) && n < |ks| && ks[n] in m && ks[n] !in part
    ensures |part| < |m|
  {
    hide Copied;
    CopiedIn(part, ks, m, n);
    SubsetSize(part.Keys + {ks[n]}, m.Keys);
    assert |part.Keys + {ks[n]}| == |part.Keys| + 1;
  }

  lemma CopiedIn(part: map<Byte, Child>, ks: seq<Byte>, m: map<Byte, Child>, n: nat)
    requires Copied(part, ks, m, n)
    ensures part.Keys <= m.Keys
  {
  }

  lemma CopiedMore(part: map<Byte, Child>, ks: seq<Byte>, m: map<Byte, Child>, n: nat, c: Child)
    requires Copied(part, ks, m, n) && n < |ks| && ks[n] in m && m[ks[n]] == c && ks[n] !in part
    ensures Copied(part[ks[n] := c], ks, m, n + 1)
  {
    assert ks[..n + 1] == ks[..n] + [ks[n]];
  }

  lemma CopiedAll(part: map<Byte, Child>, ks: seq<Byte>, cs: seq<Child>, m: map<Byte, Child>)
    requires Lists(ks, cs, m) && Copied(part, ks, m, |ks|)
    ensures part == m
  {
    assert ks[..|ks|] == ks;
  }

  lemma CopiedNone(ks: seq<Byte>, m: map<Byte, Child>)
    ensures Copied(map[], ks, m, 0)
  {
  }

  /** 4 to 16 in increase_node_size, 16 to 4 in decrease_node_size. */
  method ListToList(node: ListNode, kind: Kind) returns (r: ListNode)
    requires node.Valid() && (kind == K4 || kind == K16) && |node.contents| <= Capacity(kind)
    ensures r.Valid() && r.kind == kind && r.contents == node.contents && fresh(r)
  {
    hide Lists, Copied;
    r := new ListNode(kind);
    ghost var ks, cs, m := node.keys[..node.currentSize], node.children[..node.currentSize], node.contents;
    CopiedNone(ks, m);
    var i := 0;
    while i < node.currentSize
      invariant i <= node.currentSize && r.Valid() && r.kind == kind && Copied(r.contents, ks, m, i)
      invariant fresh(r) && fresh(r.keys) && fresh(r.children)
      modifies r, r.keys, r.children
    {
      CopiedNext(r.contents, ks, cs, m, i);
      r.Insert(node.keys[i], node.children[i]);
      i := i + 1;
    }
    CopiedAll(r.contents, ks, cs, m);
  }

  /** 16 to 48. */
  method ListToIndex(node: ListNode) returns (r: IndexNode)
    requires node.Valid() && |node.contents| <= 48
    ensures r.Valid() && r.contents == node.contents && fresh(r)
  {
    hide Lists, Copied, Indexes;
    r := new IndexNode();
    ghost var ks, cs, m := node.keys[..node.currentSize], node.children[..node.currentSize], node.contents;
    CopiedNone(ks, m);
    var i := 0;
    while i < node.currentSize
      invariant i <= node.currentSize && r.Valid() && Copied(r.contents, ks, m, i)
      invariant fresh(r) && fresh(r.keys) && fresh(r.children)
      modifies r, r.keys, r.children
    {
      CopiedNext(r.contents, ks, cs, m, i);
      r.Insert(node.keys[i], node.children[i]);
      i := i + 1;
    }
    CopiedAll(r.contents, ks, cs, m);
  }

  /** 48 to 16. */
  method IndexToList(node: IndexNode) returns (r: ListNode)
    requires node.Valid() && |node.contents| <= 16
    ensures r.Valid() && r.kind == K16 && r.contents == node.contents && fresh(r)
  {
    hide Lists, Below, Indexes;
    r := new ListNode(K16);
    ghost var ks, cs, m := node.keys[..], node.children[..], node.contents;
    BelowNone(m);
    var i := 0;
    while i < 256
      invariant i <= 256 && r.Valid() && r.kind == K16 && Below(r.contents, m, i)
      invariant fresh(r) && fresh(r.keys) && fresh(r.children)
      modifies r, r.keys, r.children
    {
      IndexAt(ks, cs, m, node.slots, i);
      BelowNext(r.contents, m, i);
      if node.keys[i] != UNUSED {
        r.Insert(i, node.children[node.keys[i]]);
      }
      i := i + 1;
    }
    BelowAll(r.contents, m);
  }

  /** 48 to 256. */
  method IndexToDirect(node: IndexNode) returns (r: DirectNode)
    requires node.Valid()
    ensures r.Valid() && r.contents == node.contents && fresh(r)
  {
    hide Below, Indexes;
    r := new DirectNode();
    ghost var ks, cs, m := node.keys[..], node.children[..], node.contents;
    BelowNone(m);
    var i := 0;
    while i < 256
      invariant i <= 256 && r.Valid() && Below(r.contents, m, i)
      invariant fresh(r) && fresh(r.children)
      modifies r, r.children
    {
      IndexAt(ks, cs, m, node.slots, i);
      BelowNext(r.contents, m, i);
      if node.keys[i] != UNUSED {
        r.Insert(i, node.children[node.keys[i]]);
      }
      i := i + 1;
    }
    BelowAll(r.contents, m);
  }

  /** 256 to 48. */
  method DirectToIndex(node: DirectNode) returns (r: IndexNode)
    requires node.Valid() && |node.contents| <= 48
    ensures r.Valid() && r.contents == node.contents && fresh(r)
  {
    hide Below, Indexes;
    r := new IndexNode();
    ghost var m := node.contents;
    BelowNone(m);
    var i := 0;
    while i < 256
      invariant i <= 256 && r.Valid() && Below(r.contents, m, i)
      invariant fresh(r) && fresh(r.keys) && fresh(r.children)
      modifies r, r.keys, r.children
    {
      BelowNext(r.contents, m, i);
      if node.children[i] != 0 {
        r.Insert(i, node.children[i]);
      }
      i := i + 1;
    }
    BelowAll(r.contents, m);
  }

  lemma BelowNone(m: map<Byte, Child>)
    ensures Below(map[], m, 0)
  {
  }
}
