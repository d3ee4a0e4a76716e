/** Vocabulary shared by every layer of the storage engine. */
module Common {

  datatype Option<+T> = None | Some(value: T)

  /** A stored value: the 64 bits of an int64_t, only compared and XOR-ed. */
  type Value = bv64

  /** INT64_MIN as a value, which the engine reads as "absent". */
  const ABSENT: Value := 0x8000_0000_0000_0000

  /** The bounds of an int64_t key; keys themselves are plain integers. */
  const INT64_MIN: int := -0x8000_0000_0000_0000
  const INT64_MAX: int := 0x7FFF_FFFF_FFFF_FFFF

  predicate IsKey(k: int) {
    INT64_MIN <= k <= INT64_MAX
  }

  /** What the cache keeps for a key: the id of its leaf page and the frame it was seen in. */
  datatype Entry = Entry(pageId: nat, frame: nat)

  function InsertAt<T>(s: seq<T>, i: nat, x: T): seq<T>
    requires i <= |s|
  {
    s[..i] + [x] + s[i..]
  }

  function RemoveAt<T>(s: seq<T>, i: nat): seq<T>
    requires i < |s|
  {
    s[..i] + s[i + 1..]
  }

  // ----- Sizes of sets and maps -----

  ghost function UpTo(n: nat): set<nat> {
    if n == 0 then {} else UpTo(n - 1) + {n - 1}
  }

  lemma {:induction false} FewerThan(n: nat)
    ensures |UpTo(n)| == n && forall x: nat :: x in UpTo(n) <==> x < n
  {
    if n > 0 {
      FewerThan(n - 1);
    }
  }

  lemma {:induction false} SubsetSize<T>(a: set<T>, b: set<T>)
    requires a <= b
    ensures |a| <= |b|
  {
    if a != {} {
      var x :| x in a;
      SubsetSize(a - {x}, b - {x});
    }
  }

  lemma MapSizes<K, V>(m: map<K, V>, k: K, v: V)
    ensures |m[k := v]| == |m| + if k in m then 0 else 1
    ensures |m - {k}| == |m| - if k in m then 1 else 0
    ensures k !in m ==> m - {k} == m
  {
    assert m[k := v].Keys == m.Keys + {k};
    assert (m - {k}).Keys == m.Keys - {k};
    assert |m[k := v].Keys| == |m.Keys| + (if k in m then 0 else 1);
    assert |(m - {k}).Keys| == |m.Keys| - (if k in m then 1 else 0);
  }
}
