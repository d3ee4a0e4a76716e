/**
 * The contents of one B+ tree page and what the node operations of b_nodes.h
 * do to them, stated on sequences. BNodes proves that the array code computes
 * these functions; the tree is verified on top of them.
 */
module Pages {
  import opened Common

  /** The key/value half of an outer node: keys[i] maps to vals[i]. */
  datatype KV = KV(keys: seq<int>, vals: seq<Value>)

  const EMPTY := KV([], [])

  /** A page is an inner node (n keys, n + 1 child ids) or an outer node with the id of the next leaf (0: none). */
  datatype Page =
    | Inner(keys: seq<int>, children: seq<nat>)
    | Outer(kv: KV, next: nat)

  // ----- Fill thresholds; n is the capacity of an outer node, an inner node holds n - 1 keys -----

  function MaxSize(p: Page, n: nat): int {
    if p.Outer? then n else n - 1
  }

  function Count(p: Page): nat {
    if p.Outer? then |p.kv.keys| else |p.keys|
  }

  predicate IsFull(p: Page, n: nat) {
    Count(p) >= MaxSize(p, n)
  }

  predicate CanDelete(p: Page, n: nat) {
    if p.Outer? then Count(p) > MaxSize(p, n) / 2 else Count(p) >= (MaxSize(p, n) + 1) / 2
  }

  predicate Sorted(keys: seq<int>) {
    forall i, j :: 0 <= i < j < |keys| ==> keys[i] < keys[j]
  }

  predicate KVOk(kv: KV) {
    |kv.keys| == |kv.vals| && Sorted(kv.keys)
  }

  /** The position binary search ends at: the number of leading keys below k. */
  function Rank(keys: seq<int>, k: int): (r: nat)
    ensures r <= |keys|
    ensures forall i :: 0 <= i < r ==> keys[i] < k
    ensures r < |keys| ==> k <= keys[r]
  {
    if keys == [] || k <= keys[0] then 0 else 1 + Rank(keys[1..], k)
  }

  predicate Contains(keys: seq<int>, k: int) {
    var r := Rank(keys, k);
    r < |keys| && keys[r] == k
  }

  function OuterInsert(kv: KV, k: int, v: Value): KV
    requires |kv.keys| == |kv.vals|
  {
    var r := Rank(kv.keys, k);
    KV(InsertAt(kv.keys, r, k), InsertAt(kv.vals, r, v))
  }

  function OuterDelete(kv: KV, k: int): KV
    requires |kv.keys| == |kv.vals|
  {
    if Contains(kv.keys, k) then
      var r := Rank(kv.keys, k);
      KV(RemoveAt(kv.keys, r), RemoveAt(kv.vals, r))
    else kv
  }

  function OuterUpdate(kv: KV, k: int, v: Value): KV
    requires |kv.keys| == |kv.vals|
  {
    if Contains(kv.keys, k) then kv.(vals := kv.vals[Rank(kv.keys, k) := v]) else kv
  }

  function OuterGet(kv: KV, k: int): Value
    requires |kv.keys| == |kv.vals|
  {
    if Contains(kv.keys, k) then kv.vals[Rank(kv.keys, k)] else ABSENT
  }

  // ----- Inner nodes: keys[i] separates children[i] from children[i + 1] -----

  predicate InnerOk(p: Page) {
    p.Inner? && |p.children| == |p.keys| + 1
  }

  /** The new child goes to the right of the new key. */
  function InnerInsert(p: Page, k: int, child: nat): Page
    requires InnerOk(p)
  {
    var r := Rank(p.keys, k);
    Inner(InsertAt(p.keys, r, k), InsertAt(p.children, r + 1, child))
  }

  function InnerInsertFirst(p: Page, k: int, child: nat): Page
    requires InnerOk(p)
  {
    Inner([k] + p.keys, [child] + p.children)
  }

  /** A key leaves together with the child to its right. */
  function InnerDelete(p: Page, k: int): Page
    requires InnerOk(p)
  {
    if Contains(p.keys, k) then
      var r := Rank(p.keys, k);
      Inner(RemoveAt(p.keys, r), RemoveAt(p.children, r + 1))
    else p
  }

  function InnerDeleteFirst(p: Page): Page
    requires InnerOk(p) && p.keys != []
  {
    Inner(p.keys[1..], p.children[1..])
  }

  /** The map a sorted key/value page stands for. */
  ghost function ToMap(kv: KV): map<int, Value>
    requires KVOk(kv)
  {
    map k | k in kv.keys :: OuterGet(kv, k)
  }

  lemma RankUnique(keys: seq<int>, k: int, r: nat)
    requires r <= |keys|
    requires forall i :: 0 <= i < r ==> keys[i] < k
    requires r < |keys| ==> k <= keys[r]
    ensures Rank(keys, k) == r
  {
    var q := Rank(keys, k);
    assert q < |keys| ==> k <= keys[q];
    assert forall i :: 0 <= i < q ==> keys[i] < k;
  }

  lemma ContainsIn(keys: seq<int>, k: int)
    requires Sorted(keys)
    ensures Contains(keys, k) <==> k in keys
  {
    if k in keys {
      var i :| 0 <= i < |keys| && keys[i] == k;
      RankUnique(keys, k, i);
    }
  }

  lemma GetAt(kv: KV, i: nat)
    requires KVOk(kv) && i < |kv.keys|
    ensures OuterGet(kv, kv.keys[i]) == kv.vals[i]
  {
    RankUnique(kv.keys, kv.keys[i], i);
  }

  lemma InsertSorted(keys: seq<int>, k: int)
    requires Sorted(keys) && k !in keys
    ensures Sorted(InsertAt(keys, Rank(keys, k), k))
  {
    var r := Rank(keys, k);
    forall i | r <= i < |keys| ensures k < keys[i] {
      assert keys[r] <= keys[i] && keys[i] in keys;
    }
  }

  // ----- A sorted page is a map: insert, delete, update and get are the map operations -----

  lemma InsertGet(kv: KV, k: int, v: Value, i: nat)
    requires KVOk(kv) && k !in kv.keys && i < |kv.keys|
    ensures KVOk(OuterInsert(kv, k, v))
    ensures kv.keys[i] in OuterInsert(kv, k, v).keys
    ensures OuterGet(OuterInsert(kv, k, v), kv.keys[i]) == kv.vals[i]
  {
    InsertSorted(kv.keys, k);
    GetAt(OuterInsert(kv, k, v), if i < Rank(kv.keys, k) then i else i + 1);
  }

  lemma InsertKeys(kv: KV, k: int, v: Value)
    requires KVOk(kv) && k !in kv.keys
    ensures KVOk(OuterInsert(kv, k, v))
    ensures forall x :: x in OuterInsert(kv, k, v).keys <==> x == k || x in kv.keys
    ensures OuterGet(OuterInsert(kv, k, v), k) == v
  {
    InsertSorted(kv.keys, k);
    GetAt(OuterInsert(kv, k, v), Rank(kv.keys, k));
  }

  lemma InsertGetOther(kv: KV, k: int, v: Value, x: int)
    requires KVOk(kv) && k !in kv.keys && x in kv.keys
    ensures KVOk(OuterInsert(kv, k, v)) && OuterGet(OuterInsert(kv, k, v), x) == OuterGet(kv, x)
  {
    var i :| 0 <= i < |kv.keys| && kv.keys[i] == x;
    GetAt(kv, i);
    InsertGet(kv, k, v, i);
  }

  lemma ToMapPlus(kv: KV, kv': KV, k: int, v: Value)
    requires KVOk(kv) && KVOk(kv') && OuterGet(kv', k) == v
    requires forall x :: x in kv'.keys <==> x == k || x in kv.keys
    requires forall x :: x in kv.keys && x != k ==> OuterGet(kv', x) == OuterGet(kv, x)
    ensures ToMap(kv') == ToMap(kv)[k := v]
  {
    hide OuterGet, Sorted;
    var m, m' := ToMap(kv)[k := v], ToMap(kv');
    assert forall x :: x in m' <==> x in m;
    assert forall x :: x in m' ==> m'[x] == m[x];
  }

  lemma ToMapInsert(kv: KV, k: int, v: Value)
    requires KVOk(kv) && k !in kv.keys
    ensures KVOk(OuterInsert(kv, k, v))
    ensures ToMap(OuterInsert(kv, k, v)) == ToMap(kv)[k := v]
  {
    hide OuterInsert, OuterGet, ToMap, Sorted;
    InsertKeys(kv, k, v);
    forall x | x in kv.keys && x != k ensures OuterGet(OuterInsert(kv, k, v), x) == OuterGet(kv, x) {
      InsertGetOther(kv, k, v, x);
    }
    ToMapPlus(kv, OuterInsert(kv, k, v), k, v);
  }

  /** Inserting a key keeps a page sorted without repetition if and only if the key is new. */
  lemma InsertIff(kv: KV, k: int, v: Value)
    requires KVOk(kv)
    ensures KVOk(OuterInsert(kv, k, v)) <==> k !in kv.keys
  {
    var r := Rank(kv.keys, k);
    if k !in kv.keys {
      InsertKeys(kv, k, v);
    } else {
      ContainsIn(kv.keys, k);
      var keys := OuterInsert(kv, k, v).keys;
      assert keys[r] == keys[r + 1];
    }
  }

  lemma DeleteGet(kv: KV, k: int, i: nat)
    requires KVOk(kv) && i < |kv.keys| && kv.keys[i] != k
    ensures KVOk(OuterDelete(kv, k))
    ensures kv.keys[i] in OuterDelete(kv, k).keys
    ensures OuterGet(OuterDelete(kv, k), kv.keys[i]) == kv.vals[i]
  {
    GetAt(OuterDelete(kv, k), if !Contains(kv.keys, k) || i < Rank(kv.keys, k) then i else i - 1);
  }

  lemma DeleteKeys(kv: KV, k: int)
    requires KVOk(kv)
    ensures KVOk(OuterDelete(kv, k))
    ensures k !in OuterDelete(kv, k).keys
    ensures forall x :: x in OuterDelete(kv, k).keys ==> x in kv.keys
  {
    ContainsIn(kv.keys, k);
  }

  lemma DeleteGetOther(kv: KV, k: int, x: int)
    requires KVOk(kv) && x in kv.keys && x != k
    ensures KVOk(OuterDelete(kv, k))
    ensures x in OuterDelete(kv, k).keys && OuterGet(OuterDelete(kv, k), x) == OuterGet(kv, x)
  {
    var i :| 0 <= i < |kv.keys| && kv.keys[i] == x;
    GetAt(kv, i);
    DeleteGet(kv, k, i);
  }

  lemma ToMapMinus(kv: KV, kv': KV, k: int)
    requires KVOk(kv) && KVOk(kv') && k !in kv'.keys
    requires forall x :: x in kv'.keys ==> x in kv.keys
    requires forall x :: x in kv.keys && x != k ==> x in kv'.keys && OuterGet(kv', x) == OuterGet(kv, x)
    ensures ToMap(kv') == ToMap(kv) - {k}
  {
    hide OuterGet, Sorted;
    var m, m' := ToMap(kv) - {k}, ToMap(kv');
    assert forall x :: x in m' <==> x in m;
    assert forall x :: x in m' ==> m'[x] == m[x];
  }

  lemma ToMapDelete(kv: KV, k: int)
    requires KVOk(kv)
    ensures KVOk(OuterDelete(kv, k))
    ensures ToMap(OuterDelete(kv, k)) == ToMap(kv) - {k}
  {
    hide OuterDelete, OuterGet, ToMap, Sorted;
    DeleteKeys(kv, k);
    forall x | x in kv.keys && x != k
      ensures x in OuterDelete(kv, k).keys && OuterGet(OuterDelete(kv, k), x) == OuterGet(kv, x)
    {
      DeleteGetOther(kv, k, x);
    }
    ToMapMinus(kv, OuterDelete(kv, k), k);
  }

  lemma UpdateKeys(kv: KV, k: int, v: Value)
    requires KVOk(kv)
    ensures KVOk(OuterUpdate(kv, k, v)) && OuterUpdate(kv, k, v).keys == kv.keys
    ensures k !in kv.keys ==> OuterUpdate(kv, k, v) == kv
  {
    ContainsIn(kv.keys, k);
  }

  lemma UpdateGet(kv: KV, k: int, v: Value, x: int)
    requires KVOk(kv) && x in kv.keys
    ensures KVOk(OuterUpdate(kv, k, v))
    ensures OuterGet(OuterUpdate(kv, k, v), x) == if x == k then v else OuterGet(kv, x)
  {
    ContainsIn(kv.keys, k);
    var i :| 0 <= i < |kv.keys| && kv.keys[i] == x;
    GetAt(kv, i);
    GetAt(OuterUpdate(kv, k, v), i);
  }

  lemma ToMapUpdate(kv: KV, k: int, v: Value)
    requires KVOk(kv)
    ensures KVOk(OuterUpdate(kv, k, v))
    ensures ToMap(OuterUpdate(kv, k, v)) == if k in ToMap(kv) then ToMap(kv)[k := v] else ToMap(kv)
  {
    var kv' := OuterUpdate(kv, k, v);
    UpdateKeys(kv, k, v);
    if k in kv.keys {
      hide OuterUpdate, OuterGet, ToMap, Sorted, Contains;
      forall x | x in kv.keys ensures OuterGet(kv', x) == if x == k then v else OuterGet(kv, x) {
        UpdateGet(kv, k, v, x);
      }
      ToMapPlus(kv, kv', k, v);
    }
  }

  lemma ToMapGet(kv: KV, k: int)
    requires KVOk(kv)
    ensures OuterGet(kv, k) == if k in ToMap(kv) then ToMap(kv)[k] else ABSENT
  {
    ContainsIn(kv.keys, k);
  }
}
