/**
 * The scan over the leaf chain that both trees share (tree_operations.h).
 */
module TreeOperations {
  import opened Common
  import opened Pages
  import opened BTreeStore
  import opened Bits
  import opened Buffer

  /** ids are the pages of consecutive leaves, the last one at the end of the chain; no later leaf is empty. */
  ghost predicate LeafChain(m: Store, ids: seq<nat>) {
    && ids != [] && LeafIn(m, ids[0])
    && if |ids| == 1 then m[ids[0]].next == 0
       else m[ids[0]].next == ids[1] && ids[1] != ids[0] && LeafChain(m, ids[1..]) && m[ids[1]].kv.keys != []
  }

  ghost predicate LeafIn(m: Store, id: nat) {
    id != 0 && id in m && m[id].Outer? && |m[id].kv.keys| == |m[id].kv.vals|
  }

  /** The values along a chain. */
  ghost function ChainVals(m: Store, ids: seq<nat>): seq<Value>
    requires ids != [] ==> LeafChain(m, ids)
  {
    if ids == [] then [] else m[ids[0]].kv.vals + ChainVals(m, ids[1..])
  }

  /** The array word binary search ends at: a key of the leaf, or whatever lies behind its last one. */
  function Word(keys: seq<int>, key: int, behind: int): int {
    var r := Rank(keys, key);
    if r < |keys| then keys[r] else behind
  }

  /**
   * The test at the head of a scan. Behind the last key there may be a remnant of a
   * deleted one, or the first value if the leaf is full.
   */
  predicate Passes(keys: seq<int>, key: int, behind: int): (b: bool)
    ensures b <==> Contains(keys, key) || (Rank(keys, key) == |keys| && behind == key)
  {
    Word(keys, key, behind) == key
  }

  /** The XOR of the first n values, or of all of them if there are fewer. */
  function Xor(vals: seq<Value>, n: int): Value {
    if n <= 0 || vals == [] then 0 else XorOf(vals[0], Xor(vals[1..], n - 1))
  }

  /** The sum a scan reports: INT64_MIN stands for "absent" and is replaced. */
  function Reported(sum: Value): (r: Value)
    ensures sum != ABSENT ==> r == sum
    ensures sum == ABSENT ==> r == 0x8000_0000_0000_0001
    ensures r != 0x8000_0000_0000_0000
  {
    if sum == ABSENT then ABSENT + 1 else sum
  }

  // ----- What the sum of a scan says: the parity of every bit -----

  /** How many of the values have bit i set. */
  ghost function BitCount(vals: seq<Value>, i: nat): nat {
    if vals == [] then 0 else (if Bit(vals[0], i) then 1 else 0) + BitCount(vals[1..], i)
  }

  /** A bit of the sum is set if and only if it is set in an odd number of the first n values, or of all of them if there are fewer. */
  lemma {:induction false} XorParity(vals: seq<Value>, n: int, i: nat)
    ensures
      var m := if n < 0 then 0 else if n < |vals| then n else |vals|;
      Bit(Xor(vals, n), i) <==> BitCount(vals[..m], i) % 2 == 1
    decreases |vals|
  {
    hide XorOf, LowBit, Half;
    if n > 0 && vals != [] {
      var m := if n < |vals| then n else |vals|;
      XorParity(vals[1..], n - 1, i);
      BitXor(vals[0], Xor(vals[1..], n - 1), i);
      assert vals[..m][1..] == vals[1..][..m - 1];
    } else {
      ZeroBit(i);
    }
  }

  /** The sum over two runs of values, one after the other, is the bitwise XOR of their sums. */
  lemma XorCat(a: seq<Value>, b: seq<Value>)
    ensures Xor(a + b, |a| + |b|) == Xor(a, |a|) ^ Xor(b, |b|)
  {
    XorAppend(a, b);
  }

  lemma {:induction false} XorAppend(a: seq<Value>, b: seq<Value>)
    ensures Xor(a + b, |a| + |b|) == XorOf(Xor(a, |a|), Xor(b, |b|))
    decreases |a|
  {
    if a == [] {
      assert a + b == b;
      XorZero(Xor(b, |b|));
    } else {
      hide XorOf;
      assert (a + b)[1..] == a[1..] + b;
      XorAppend(a[1..], b);
      XorAssoc(a[0], Xor(a[1..], |a| - 1), Xor(b, |b|));
    }
  }

  lemma XorOne(v: Value)
    ensures Xor([v], 1) == v
  {
  }

  lemma ReportedIs(sum: Value)
    ensures Reported(sum) != ABSENT
  {
  }

  lemma ChainTail(m: Store, ids: seq<nat>)
    requires LeafChain(m, ids) && m[ids[0]].next != 0
    ensures |ids| > 1 && LeafChain(m, ids[1..]) && m[ids[0]].next == ids[1] && ids[1] != ids[0] && m[ids[1]].kv.keys != []
    ensures ChainVals(m, ids) == m[ids[0]].kv.vals + ChainVals(m, ids[1..])
  {
  }

  lemma ChainEnd(m: Store, ids: seq<nat>)
    requires LeafChain(m, ids) && m[ids[0]].next == 0
    ensures ChainVals(m, ids) == m[ids[0]].kv.vals
  {
    assert ids[1..] == [];
  }

  /** total is sum extended by the first n of vals. */
  ghost predicate Sums(sum: Value, vals: seq<Value>, n: int, total: Value) {
    XorOf(sum, Xor(vals, n)) == total
  }

  lemma SumsStart(vals: seq<Value>, n: int)
    ensures Sums(0, vals, n, Xor(vals, n))
  {
  }

  lemma SumsStep(sum: Value, vals: seq<Value>, i: nat, n: int, total: Value)
    requires i < |vals| && n > 0 && Sums(sum, vals[i..], n, total)
    ensures Sums(XorOf(sum, vals[i]), vals[i + 1..], n - 1, total)
  {
    hide XorOf;
    assert vals[i..][1..] == vals[i + 1..];
    XorAssoc(sum, vals[i], Xor(vals[i + 1..], n - 1));
  }

  lemma SumsEnd(sum: Value, vals: seq<Value>, n: int, total: Value)
    requires Sums(sum, vals, n, total) && (n <= 0 || vals == [])
    ensures sum == total
  {
  }

  lemma AheadNext(m: Store, ids: seq<nat>)
    requires LeafChain(m, ids)
    ensures |ChainVals(m, ids)| >= |m[ids[0]].kv.vals|
    ensures forall i :: 0 <= i < |m[ids[0]].kv.vals| ==> ChainVals(m, ids)[i] == m[ids[0]].kv.vals[i]
    ensures m[ids[0]].next == 0 ==> ChainVals(m, ids)[|m[ids[0]].kv.vals|..] == []
    ensures m[ids[0]].next != 0 ==> |ids| > 1 && LeafChain(m, ids[1..]) && ChainVals(m, ids)[|m[ids[0]].kv.vals|..] == ChainVals(m, ids[1..])
    ensures LeafIn(m, ids[0])
  {
    if m[ids[0]].next == 0 {
      ChainEnd(m, ids);
    } else {
      ChainTail(m, ids);
    }
  }

  lemma OneFixed(id: nat)
    ensures |{id}| == 1
  {
  }

  lemma ChainFacts(m: Store, ids: seq<nat>)
    requires LeafChain(m, ids)
    ensures |ids| > 0 && LeafIn(m, ids[0])
    ensures ids[0] in m && m[ids[0]].Outer? && |m[ids[0]].kv.keys| == |m[ids[0]].kv.vals|
  {
  }

  lemma AtIs(bm: BufferManager, slot: nat, id: nat)
    ensures bm.At(slot, id) <==> id in bm.pageIdMap && bm.pageIdMap[id] == slot
  {
  }

  /** Fix the next leaf and release the current one. */
  method NextLeaf(bm: BufferManager, header: nat, ghost ids: seq<nat>) returns (node: nat)
    requires bm.Valid() && LeafChain(bm.live, ids) && bm.pins == {ids[0]} && bm.written == {} && bm.Room(2)
    requires bm.At(header, ids[0]) && bm.live[ids[0]].next != 0
    modifies bm`pageIdMap, bm`frames, bm`owner, bm`pins, bm`written, bm.storage
    ensures bm.Valid() && bm.written == {} && |old(bm.frames)| <= |bm.frames|
    ensures |ids| > 1 && bm.pins == {ids[1]} && LeafIn(bm.live, ids[0]) && LeafIn(bm.live, ids[1])
    ensures bm.At(node, ids[1]) && ids[1] in bm.pageIdMap && node < |bm.frames| && bm.frames[node].page == bm.live[ids[1]]
    ensures LeafChain(bm.live, ids[1..]) && |bm.live[ids[1]].kv.keys| > 0
    ensures ChainVals(bm.live, ids)[|bm.live[ids[0]].kv.vals|..] == ChainVals(bm.live, ids[1..])
    ensures bm.DirtyIds() <= old(bm.DirtyIds())
  {
    hide *;
    ChainFacts(bm.live, ids);
    AheadNext(bm.live, ids);
    ChainTail(bm.live, ids);
    ChainFacts(bm.live, ids[1..]);
    AtIs(bm, header, ids[0]);
    bm.FrameOf(ids[0]);
    OneFixed(ids[0]);
    bm.FewFixed(1);
    var temp := bm.frames[header].pageId;
    node := bm.RequestPage(bm.frames[header].page.next);
    AtIs(bm, node, ids[1]);
    bm.UnfixPage(temp, false);
    assert {ids[0]} + {ids[1]} - {ids[0]} == {ids[1]};
    bm.FrameOf(ids[1]);
  }

  /**
   * Scan from the fixed leaf at header, if that passes the test. Otherwise the
   * assertion ends the run, or in a build without assertions INT64_MIN is returned
   * and the leaf is never released.
   */
  method Scan(bm: BufferManager, header: nat, ghost id: nat, key: int, range: int, slot: nat -> int, ghost ids: seq<nat>) returns (sum: Option<Value>)
    requires bm.Valid() && bm.pins == {id} && bm.written == {} && bm.Room(2) && bm.At(header, id) && id in bm.live && bm.live[id].Outer?
    requires Passes(bm.live[id].kv.keys, key, slot(id)) ==> LeafChain(bm.live, ids) && ids[0] == id
    modifies bm`pageIdMap, bm`frames, bm`owner, bm`pins, bm`stuck, bm`written, bm.storage
    ensures bm.Valid() && bm.written == {} && |old(bm.frames)| <= |bm.frames|
    ensures
      var pass := Passes(bm.live[id].kv.keys, key, slot(id));
      && (sum.None? <==> !pass && bm.asserts) && (!pass && !bm.asserts ==> sum == Some(ABSENT))
      && bm.pins == (if sum.None? then {id} else {}) && bm.stuck == old(bm.stuck) + (if pass || bm.asserts then {} else {id})
      && (pass ==>
          && Rank(bm.live[id].kv.keys, key) <= |ChainVals(bm.live, ids)|
          && sum == Some(Reported(Xor(ChainVals(bm.live, ids)[Rank(bm.live[id].kv.keys, key)..], range))))
    ensures bm.DirtyIds() <= old(bm.DirtyIds())
  {
    hide *;
    AtIs(bm, header, id);
    bm.FrameOf(id);
    var keys := bm.frames[header].page.kv.keys;
    assert bm.stuck + {} == bm.stuck;
    if !Passes(keys, key, slot(bm.frames[header].pageId)) {
      sum := Fail(bm, id);
      return;
    }
    ChainFacts(bm.live, ids);
    var total := Walk(bm, header, Rank(keys, key), range, ids);
    return Some(total);
  }

  /** The test fails. */
  method Fail(bm: BufferManager, ghost id: nat) returns (sum: Option<Value>)
    requires bm.Valid() && bm.pins == {id} && bm.written == {}
    modifies bm`pins, bm`stuck
    ensures bm.Valid() && sum == (if bm.asserts then None else Some(ABSENT))
    ensures bm.pins == (if bm.asserts then {id} else {}) && bm.stuck == old(bm.stuck) + (if bm.asserts then {} else {id})
  {
    hide *;
    assert bm.stuck + {} == bm.stuck && {id} - {id} == {};
    if bm.asserts {
      return None;
    }
    bm.Strand(id);
    return Some(ABSENT);
  }

  /** The walk of a scan from a position of the fixed leaf at header; all pages are released. */
  method Walk(bm: BufferManager, header: nat, start: nat, range: int, ghost ids: seq<nat>) returns (sum: Value)
    requires bm.Valid() && LeafChain(bm.live, ids) && bm.pins == {ids[0]} && bm.written == {} && bm.Room(2)
    requires bm.At(header, ids[0]) && start <= |bm.live[ids[0]].kv.keys|
    modifies bm`pageIdMap, bm`frames, bm`owner, bm`pins, bm`written, bm.storage
    ensures bm.Valid() && bm.pins == {} && bm.written == {} && |old(bm.frames)| <= |bm.frames|
    ensures start <= |ChainVals(bm.live, ids)| && sum == Reported(Xor(ChainVals(bm.live, ids)[start..], range))
    ensures bm.DirtyIds() <= old(bm.DirtyIds())
  {
    hide *;
    ghost var m := bm.live;
    ghost var rest := ids;
    ChainFacts(m, rest);
    AtIs(bm, header, ids[0]);
    AheadNext(m, ids);
    bm.FrameOf(ids[0]);
    var node, index := header, start;
    ghost var total := Xor(ChainVals(m, ids)[index..], range);
    var scanned := 0;
    sum := 0;
    SumsStart(ChainVals(m, ids)[index..], range);
    while scanned < range
      invariant bm.Valid() && bm.live == m && rest != [] && LeafChain(m, rest) && LeafIn(m, rest[0]) && bm.pins == {rest[0]} && bm.written == {}
      invariant rest[0] in m && m[rest[0]].Outer? && |m[rest[0]].kv.keys| == |m[rest[0]].kv.vals|
      invariant bm.At(node, rest[0]) && rest[0] in bm.pageIdMap && |old(bm.frames)| <= |bm.frames|
      invariant bm.DirtyIds() <= old(bm.DirtyIds())
      invariant index <= |m[rest[0]].kv.keys| <= |ChainVals(m, rest)|
      invariant Sums(sum, ChainVals(m, rest)[index..], range - scanned, total)
    {
      AheadNext(m, rest);
      bm.FrameOf(rest[0]);
      AtIs(bm, node, rest[0]);
      if index == |bm.frames[node].page.kv.keys| {
        if bm.frames[node].page.next == 0 {
          SumsEnd(sum, [], range - scanned, total);
          bm.UnfixPage(bm.frames[node].pageId, false);
          assert {rest[0]} - {rest[0]} == {};
          return Reported(sum);
        }
        node := NextLeaf(bm, node, rest);
        rest := rest[1..];
        index := 0;
        AheadNext(m, rest);
        assert ChainVals(m, rest)[0..] == ChainVals(m, rest);
      }
      SumsStep(sum, ChainVals(m, rest), index, range - scanned, total);
      sum := XorOf(sum, bm.frames[node].page.kv.vals[index]);
      scanned := scanned + 1;
      index := index + 1;
    }
    SumsEnd(sum, ChainVals(m, rest)[index..], range - scanned, total);
    bm.FrameOf(rest[0]);
    AtIs(bm, node, rest[0]);
    bm.UnfixPage(bm.frames[node].pageId, false);
    assert {rest[0]} - {rest[0]} == {};
    return Reported(sum);
  }
}
