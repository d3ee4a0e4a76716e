/**
 * The B+ tree nodes as arrays (b_nodes.h): binary search and the shifting loops
 * compute the page functions the tree is verified with.
 */
module BNodes {
  import opened Common
  import opened Pages
  import opened TreeOperations

  /** The number of keys below k among the first size ones: the loop of binary_search. */
  method BinarySearch(keys: array<int>, size: nat, key: int) returns (index: nat)
    requires size <= keys.Length && Sorted(keys[..size])
    ensures index == Rank(keys[..size], key)
  {
    var left, right := 0, size;
    ghost var s := keys[..size];
    while left < right
      invariant left <= right <= size
      invariant forall i :: 0 <= i < left ==> s[i] < key
      invariant forall i :: right <= i < size ==> key <= s[i]
    {
      var middle := left + (right - left) / 2;
      if keys[middle] < key {
        assert s[middle] < key;
        left := middle + 1;
      } else {
        assert key <= s[middle];
        right := middle;
      }
    }
    RankUnique(s, key, left);
    return left;
  }

  // ----- The shifting loops -----

  /** b holds the n elements of a with a gap at position i. */
  ghost predicate Opened<T>(a: seq<T>, b: seq<T>, i: nat, n: nat) {
    && |a| == n < |b| && i <= n
    && (forall j :: 0 <= j < i ==> b[j] == a[j])
    && (forall j :: i < j <= n ==> b[j] == a[j - 1])
  }

  lemma OpenStart<T>(b: seq<T>, n: nat)
    requires n < |b|
    ensures Opened(b[..n], b, n, n)
  {
  }

  /** The gap moves down by copying the element below it. */
  lemma OpenStep<T>(a: seq<T>, b: seq<T>, i: nat, n: nat)
    requires Opened(a, b, i, n) && i > 0
    ensures i < |b| && Opened(a, b[i := b[i - 1]], i - 1, n)
  {
  }

  lemma OpenEnd<T>(a: seq<T>, b: seq<T>, i: nat, n: nat, x: T)
    requires Opened(a, b, i, n)
    ensures i < |b| && n < |b| && i <= |a| && b[i := x][..n + 1] == InsertAt(a, i, x)
  {
  }

  /** b holds the n elements of a, those behind r up to i moved down by one. */
  ghost predicate Closing<T>(a: seq<T>, b: seq<T>, i: nat, r: nat, n: nat) {
    && |a| == n <= |b| && r < i <= n
    && (forall j :: 0 <= j < r ==> b[j] == a[j])
    && (forall j :: r <= j < i - 1 ==> b[j] == a[j + 1])
    && (forall j :: i - 1 <= j < n ==> b[j] == a[j])
  }

  lemma CloseStart<T>(b: seq<T>, r: nat, n: nat)
    requires r < n <= |b|
    ensures Closing(b[..n], b, r + 1, r, n)
  {
  }

  lemma CloseStep<T>(a: seq<T>, b: seq<T>, i: nat, r: nat, n: nat)
    requires Closing(a, b, i, r, n) && i < n
    ensures i < |b| && Closing(a, b[i - 1 := b[i]], i + 1, r, n)
  {
  }

  lemma CloseEnd<T>(a: seq<T>, b: seq<T>, r: nat, n: nat)
    requires Closing(a, b, n, r, n)
    ensures 0 < n <= |b| && r < |a| && b[..n - 1] == RemoveAt(a, r) && b[n - 1] == a[n - 1]
  {
  }

  lemma AtFront<T>(a: seq<T>, x: T)
    ensures InsertAt(a, 0, x) == [x] + a
  {
  }

  /** The 64 bits of a value read as an int64_t. */
  function Signed(v: Value): (k: int)
    ensures IsKey(k) && (k == v as int || k == v as int - 0x1_0000_0000_0000_0000)
  {
    var u := v as int;
    if u < 0x8000_0000_0000_0000 then u else u - 0x1_0000_0000_0000_0000
  }

  class BOuterNode {
    const keys: array<int>
    const values: array<Value>
    var currentIndex: nat
    var nextLeafId: nat

    ghost predicate Valid()
      reads this
    {
      keys as object != values as object && keys.Length == values.Length && currentIndex <= keys.Length
    }

    ghost function Pairs(): KV
      reads this, keys, values
      requires Valid()
    {
      KV(keys[..currentIndex], values[..currentIndex])
    }

    /** The page this node is. */
    ghost function Contents(): Page
      reads this, keys, values
      requires Valid()
    {
      Outer(Pairs(), nextLeafId)
    }

    lemma ContentsIs()
      requires Valid()
      ensures Contents() == Outer(Pairs(), nextLeafId) && |Pairs().keys| == currentIndex <= keys.Length
      ensures forall i :: 0 <= i < currentIndex ==> Pairs().keys[i] == keys[i]
    {
    }

    /** The word behind the last key: what an earlier key left in the array, or the first value, whose array follows that of the keys. */
    function Behind(): int
      reads this, keys, values
      requires Valid() && keys.Length > 0
    {
      if currentIndex < keys.Length then keys[currentIndex] else Signed(values[0])
    }

    constructor (maxSize: nat)
      ensures Valid() && fresh(keys) && fresh(values) && keys.Length == maxSize
      ensures Contents() == Outer(EMPTY, 0)
    {
      keys, values := new int[maxSize], new Value[maxSize];
      currentIndex, nextLeafId := 0, 0;
    }

    method Insert(key: int, value: Value)
      requires Valid() && Sorted(Pairs().keys) && !IsFull(Contents(), keys.Length)
      modifies this`currentIndex, keys, values
      ensures Valid() && Contents() == Outer(OuterInsert(old(Pairs()), key, value), old(nextLeafId))
    {
      hide Opened, Sorted, InsertAt, Rank;
      var index := BinarySearch(keys, currentIndex, key);
      ghost var n, ks, vs := currentIndex, keys[..currentIndex], values[..currentIndex];
      OpenStart(keys[..], n);
      OpenStart(values[..], n);
      assert keys[..][..n] == ks && values[..][..n] == vs;
      var i := currentIndex;
      while i > index
        invariant index <= i <= n
        invariant Opened(ks, keys[..], i, n) && Opened(vs, values[..], i, n)
        modifies keys, values
      {
        OpenStep(ks, keys[..], i, n);
        OpenStep(vs, values[..], i, n);
        keys[i] := keys[i - 1];
        values[i] := values[i - 1];
        i := i - 1;
      }
      OpenEnd(ks, keys[..], index, n, key);
      OpenEnd(vs, values[..], index, n, value);
      keys[index] := key;
      values[index] := value;
      currentIndex := currentIndex + 1;
      assert keys[..n + 1] == keys[..][..n + 1] && values[..n + 1] == values[..][..n + 1];
    }

    method Update(key: int, value: Value)
      requires Valid() && Sorted(Pairs().keys)
      modifies values
      ensures Valid() && Contents() == Outer(OuterUpdate(old(Pairs()), key, value), nextLeafId)
    {
      var index := BinarySearch(keys, currentIndex, key);
      ghost var vs := values[..currentIndex];
      if index != currentIndex && keys[index] == key {
        values[index] := value;
        assert values[..currentIndex] == vs[index := value];
      }
    }

    /** The key that was last stays in the array, behind the new last one. */
    method DeleteValue(key: int)
      requires Valid() && Sorted(Pairs().keys)
      modifies this`currentIndex, keys, values
      ensures Valid() && Contents() == Outer(OuterDelete(old(Pairs()), key), old(nextLeafId))
      ensures Contains(old(Pairs()).keys, key) ==> old(currentIndex) > 0 && Behind() == old(keys[currentIndex - 1])
    {
      hide Closing, Sorted, RemoveAt, Rank;
      var index := BinarySearch(keys, currentIndex, key);
      ghost var n, ks, vs := currentIndex, keys[..currentIndex], values[..currentIndex];
      if index != currentIndex && keys[index] == key {
        CloseStart(keys[..], index, n);
        CloseStart(values[..], index, n);
        assert keys[..][..n] == ks && values[..][..n] == vs;
        var i := index + 1;
        while i < currentIndex
          invariant index < i <= n
          invariant Closing(ks, keys[..], i, index, n) && Closing(vs, values[..], i, index, n)
          modifies keys, values
        {
          CloseStep(ks, keys[..], i, index, n);
          CloseStep(vs, values[..], i, index, n);
          keys[i - 1] := keys[i];
          values[i - 1] := values[i];
          i := i + 1;
        }
        CloseEnd(ks, keys[..], index, n);
        CloseEnd(vs, values[..], index, n);
        currentIndex := currentIndex - 1;
        assert keys[..n - 1] == keys[..][..n - 1] && values[..n - 1] == values[..][..n - 1];
      }
    }

    method GetValue(key: int) returns (value: Value)
      requires Valid() && Sorted(Pairs().keys)
      ensures value == OuterGet(Pairs(), key)
    {
      var index := BinarySearch(keys, currentIndex, key);
      if index != currentIndex && keys[index] == key {
        return values[index];
      }
      return ABSENT;
    }

    /** The test at the head of a scan, which does not ask whether the position holds a key. */
    method PassesScan(key: int) returns (pass: bool)
      requires Valid() && Sorted(Pairs().keys) && keys.Length > 0
      ensures pass == Passes(Pairs().keys, key, Behind())
    {
      var index := BinarySearch(keys, currentIndex, key);
      return (if index < keys.Length then keys[index] else Signed(values[0])) == key;
    }

    method IsFullNode() returns (full: bool)
      requires Valid()
      ensures full == IsFull(Contents(), keys.Length)
    {
      return currentIndex >= keys.Length;
    }

    method CanDeleteFrom() returns (can: bool)
      requires Valid()
      ensures can == CanDelete(Contents(), keys.Length)
    {
      return currentIndex > keys.Length / 2;
    }
  }

  class BInnerNode {
    const keys: array<int>
    const childIds: array<nat>
    var currentIndex: nat

    /** The arrays have the same length n, of which one key stays unused. */
    ghost predicate Valid()
      reads this
    {
      keys as object != childIds as object && keys.Length == childIds.Length && currentIndex < keys.Length
    }

    ghost function Keys(): seq<int>
      reads this, keys
      requires Valid()
    {
      keys[..currentIndex]
    }

    ghost function Children(): seq<nat>
      reads this, childIds
      requires Valid()
    {
      childIds[..currentIndex + 1]
    }

    ghost function Contents(): Page
      reads this, keys, childIds
      requires Valid()
    {
      Inner(Keys(), Children())
    }

    constructor (n: nat)
      requires n > 0
      ensures Valid() && fresh(keys) && fresh(childIds) && keys.Length == n && Keys() == []
    {
      keys, childIds := new int[n], new nat[n];
      currentIndex := 0;
    }

    method NextPage(key: int) returns (id: nat)
      requires Valid() && Sorted(Keys())
      ensures id == Children()[Rank(Keys(), key)]
    {
      var index := BinarySearch(keys, currentIndex, key);
      return childIds[index];
    }

    method Insert(key: int, childId: nat)
      requires Valid() && Sorted(Keys()) && !IsFull(Contents(), keys.Length)
      modifies this`currentIndex, keys, childIds
      ensures Valid() && Contents() == InnerInsert(old(Contents()), key, childId)
    {
      hide Opened, Sorted, InsertAt, Rank;
      var index := BinarySearch(keys, currentIndex, key);
      ghost var n, ks, cs := currentIndex, keys[..currentIndex], childIds[..currentIndex + 1];
      OpenGap(index);
      OpenEnd(ks, keys[..], index, n, key);
      OpenEnd(cs, childIds[..], index + 1, n + 1, childId);
      keys[index] := key;
      childIds[index + 1] := childId;
      currentIndex := currentIndex + 1;
      assert keys[..n + 1] == keys[..][..n + 1] && childIds[..n + 2] == childIds[..][..n + 2];
    }

    /** The shifting loop of insert. */
    method OpenGap(index: nat)
      requires Valid() && index <= currentIndex && currentIndex + 1 < keys.Length
      modifies keys, childIds
      ensures Opened(old(Keys()), keys[..], index, currentIndex)
      ensures Opened(old(Children()), childIds[..], index + 1, currentIndex + 1)
    {
      hide Opened;
      ghost var n, ks, cs := currentIndex, Keys(), Children();
      OpenStart(keys[..], n);
      OpenStart(childIds[..], n + 1);
      assert keys[..][..n] == ks && childIds[..][..n + 1] == cs;
      var i := currentIndex;
      while i > index
        invariant index <= i <= n
        invariant Opened(ks, keys[..], i, n) && Opened(cs, childIds[..], i + 1, n + 1)
        modifies keys, childIds
      {
        OpenStep(ks, keys[..], i, n);
        OpenStep(cs, childIds[..], i + 1, n + 1);
        keys[i] := keys[i - 1];
        childIds[i + 1] := childIds[i];
        i := i - 1;
      }
    }

    method InsertFirst(key: int, childId: nat)
      requires Valid() && !IsFull(Contents(), keys.Length)
      modifies this`currentIndex, keys, childIds
      ensures Valid() && Contents() == InnerInsertFirst(old(Contents()), key, childId)
    {
      hide Opened, InsertAt;
      ghost var n, ks, cs := currentIndex, keys[..currentIndex], childIds[..currentIndex + 1];
      OpenFirst();
      OpenEnd(ks, keys[..], 0, n, key);
      OpenEnd(cs, childIds[..], 0, n + 1, childId);
      keys[0] := key;
      childIds[0] := childId;
      currentIndex := currentIndex + 1;
      assert keys[..n + 1] == keys[..][..n + 1] && childIds[..n + 2] == childIds[..][..n + 2];
      AtFront(ks, key);
      AtFront(cs, childId);
    }

    /** The shifting loop of insert_first. */
    method OpenFirst()
      requires Valid() && currentIndex + 1 < keys.Length
      modifies keys, childIds
      ensures Opened(old(Keys()), keys[..], 0, currentIndex)
      ensures Opened(old(Children()), childIds[..], 0, currentIndex + 1)
    {
      hide Opened;
      ghost var n, ks, cs := currentIndex, Keys(), Children();
      OpenStart(keys[..], n);
      OpenStart(childIds[..], n + 1);
      assert keys[..][..n] == ks && childIds[..][..n + 1] == cs;
      OpenStep(cs, childIds[..], n + 1, n + 1);
      childIds[currentIndex + 1] := childIds[currentIndex];
      var i := currentIndex;
      while i > 0
        invariant 0 <= i <= n
        invariant Opened(ks, keys[..], i, n) && Opened(cs, childIds[..], i, n + 1)
        modifies keys, childIds
      {
        OpenStep(ks, keys[..], i, n);
        OpenStep(cs, childIds[..], i, n + 1);
        keys[i] := keys[i - 1];
        childIds[i] := childIds[i - 1];
        i := i - 1;
      }
    }

    method DeleteValue(key: int)
      requires Valid() && Sorted(Keys())
      modifies this`currentIndex, keys, childIds
      ensures Valid() && Contents() == InnerDelete(old(Contents()), key)
    {
      hide Closing, Sorted, RemoveAt, Rank;
      var index := BinarySearch(keys, currentIndex, key);
      ghost var n, ks, cs := currentIndex, keys[..currentIndex], childIds[..currentIndex + 1];
      if index != currentIndex && keys[index] == key {
        CloseStart(keys[..], index, n);
        CloseStart(childIds[..], index + 1, n + 1);
        assert keys[..][..n] == ks && childIds[..][..n + 1] == cs;
        var i := index + 1;
        while i < currentIndex
          invariant index < i <= n
          invariant Closing(ks, keys[..], i, index, n) && Closing(cs, childIds[..], i + 1, index + 1, n + 1)
          modifies keys, childIds
        {
          CloseStep(ks, keys[..], i, index, n);
          CloseStep(cs, childIds[..], i + 1, index + 1, n + 1);
          keys[i - 1] := keys[i];
          childIds[i] := childIds[i + 1];
          i := i + 1;
        }
        CloseEnd(ks, keys[..], index, n);
        CloseEnd(cs, childIds[..], index + 1, n + 1);
        currentIndex := currentIndex - 1;
        assert keys[..n - 1] == keys[..][..n - 1] && childIds[..n] == childIds[..][..n];
      }
    }

    method DeleteFirstPair()
      requires Valid() && currentIndex > 0
      modifies this`currentIndex, keys, childIds
      ensures Valid() && Contents() == InnerDeleteFirst(old(Contents()))
    {
      hide Closing;
      ghost var n, ks, cs := currentIndex, keys[..currentIndex], childIds[..currentIndex + 1];
      CloseStart(keys[..], 0, n);
      CloseStart(childIds[..], 0, n + 1);
      assert keys[..][..n] == ks && childIds[..][..n + 1] == cs;
      var i := 1;
      while i < currentIndex
        invariant 1 <= i <= n
        invariant Closing(ks, keys[..], i, 0, n) && Closing(cs, childIds[..], i, 0, n + 1)
        modifies keys, childIds
      {
        CloseStep(ks, keys[..], i, 0, n);
        CloseStep(cs, childIds[..], i, 0, n + 1);
        keys[i - 1] := keys[i];
        childIds[i - 1] := childIds[i];
        i := i + 1;
      }
      CloseStep(cs, childIds[..], n, 0, n + 1);
      childIds[currentIndex - 1] := childIds[currentIndex];
      CloseEnd(ks, keys[..], 0, n);
      CloseEnd(cs, childIds[..], 0, n + 1);
      currentIndex := currentIndex - 1;
      assert keys[..n - 1] == keys[..][..n - 1] && childIds[..n] == childIds[..][..n];
      assert RemoveAt(ks, 0) == ks[1..] && RemoveAt(cs, 0) == cs[1..];
    }

    method ContainsKey(key: int) returns (found: bool)
      requires Valid() && Sorted(Keys())
      ensures found == Contains(Keys(), key) == (key in Keys())
    {
      var index := BinarySearch(keys, currentIndex, key);
      ContainsIn(Keys(), key);
      return index != currentIndex && keys[index] == key;
    }

    method Exchange(key: int, exchangeKey: int)
      requires Valid() && Sorted(Keys()) && Contains(Keys(), key)
      modifies keys
      ensures Valid() && Contents() == Inner(old(Keys())[Rank(old(Keys()), key) := exchangeKey], old(Children()))
    {
      var index := BinarySearch(keys, currentIndex, key);
      keys[index] := exchangeKey;
    }

    method IsFullNode() returns (full: bool)
      requires Valid()
      ensures full == IsFull(Contents(), keys.Length)
    {
      return currentIndex >= keys.Length - 1;
    }

    method CanDeleteFrom() returns (can: bool)
      requires Valid()
      ensures can == CanDelete(Contents(), keys.Length)
    {
      return currentIndex >= (keys.Length - 1 + 1) / 2;
    }
  }
}
