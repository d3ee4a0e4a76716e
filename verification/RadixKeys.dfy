/**
 * Key arithmetic of the radix tree (radix_tree.h): signed keys become unsigned
 * 64-bit numbers, which are read byte by byte from the most significant end.
 */
module RadixKeys {
  import opened Common

  const TWO63: int := 0x8000_0000_0000_0000
  const TWO64: int := 0x1_0000_0000_0000_0000

  predicate IsU64(u: int) {
    0 <= u < TWO64
  }

  /** The cast of an int64_t to uint64_t. */
  function ToU64(k: int): int
    requires IsKey(k)
  {
    if k < 0 then k + TWO64 else k
  }

  /** The cast of a uint64_t to int64_t. */
  function FromU64(u: int): int
    requires IsU64(u)
  {
    if u >= TWO63 then u - TWO64 else u
  }

  /** transform: unsigned wrap-around addition of INT64_MAX and 1. */
  function Transform(k: int): nat
    requires IsKey(k)
  {
    (ToU64(k) + INT64_MAX + 1) % TWO64
  }

  /** inverse_transform: unsigned wrap-around subtraction, then the cast back. */
  function InverseTransform(u: int): int
    requires IsU64(u)
  {
    FromU64((u - INT64_MAX - 1) % TWO64)
  }

  /** transform is an order-preserving bijection between int64_t and uint64_t. */
  lemma TransformBijection(k: int)
    requires IsKey(k)
    ensures IsU64(Transform(k)) && InverseTransform(Transform(k)) == k && Transform(k) == k + TWO63
  {
  }

  lemma InverseBijection(u: int)
    requires IsU64(u)
    ensures IsKey(InverseTransform(u)) && Transform(InverseTransform(u)) == u
  {
  }

  lemma TransformOrder(a: int, b: int)
    requires IsKey(a) && IsKey(b)
    ensures a < b <==> Transform(a) < Transform(b)
  {
    TransformBijection(a);
    TransformBijection(b);
  }

  // ----- Bytes -----

  /** key >> (8 * bytes) */
  function Shr(key: nat, bytes: nat): nat {
    if bytes == 0 then key else Shr(key, bytes - 1) / 256
  }

  /** The number formed by the first d bytes of key. */
  function Trunc(key: nat, d: nat): nat
    requires d <= 8
  {
    Shr(key, 8 - d)
  }

  /** get_key: the byte at a depth between 1 and 8. */
  function GetKey(key: nat, depth: nat): (b: nat)
    requires depth <= 8
    ensures b < 256
  {
    Shr(key, 8 - depth) % 256
  }

  /** get_intermediate_key: the first depth bytes with the last one replaced. */
  function GetIntermediateKey(key: nat, b: nat, depth: nat): nat
    requires depth <= 8
  {
    Shr(key, 8 - depth) / 256 * 256 + b
  }

  lemma TruncStep(key: nat, d: nat)
    requires d < 8
    ensures Trunc(key, d) == Trunc(key, d + 1) / 256
    ensures Trunc(key, d + 1) == Trunc(key, d) * 256 + GetKey(key, d + 1)
  {
    assert 8 - d == (8 - (d + 1)) + 1;
  }

  lemma IntermediateIs(key: nat, b: nat, depth: nat)
    requires 1 <= depth <= 8
    ensures GetIntermediateKey(key, b, depth) == Trunc(key, depth - 1) * 256 + b
  {
    TruncStep(key, depth - 1);
  }

  /** a and b have the same first d bytes. */
  predicate Agree(a: nat, b: nat, d: nat)
    requires d <= 8
  {
    Trunc(a, d) == Trunc(b, d)
  }

  lemma AgreeStep(a: nat, b: nat, d: nat)
    requires d < 8
    ensures Agree(a, b, d + 1) <==> Agree(a, b, d) && GetKey(a, d + 1) == GetKey(b, d + 1)
  {
    TruncStep(a, d);
    TruncStep(b, d);
  }

  lemma {:induction false} AgreeDown(a: nat, b: nat, d: nat, d': nat)
    requires d' <= d <= 8 && Agree(a, b, d)
    ensures Agree(a, b, d')
    ensures d' < d ==> GetKey(a, d' + 1) == GetKey(b, d' + 1)
    decreases d
  {
    if d' < d {
      AgreeStep(a, b, d - 1);
      AgreeDown(a, b, d - 1, d');
    }
  }

  lemma AgreeAll(a: nat, b: nat)
    ensures Agree(a, b, 8) <==> a == b
  {
  }

  lemma {:induction false} ShrSmall(key: nat, n: nat)
    ensures Shr(key, n) <= key
  {
    if n > 0 {
      ShrSmall(key, n - 1);
    }
  }

  lemma AgreeNone(a: nat, b: nat)
    requires IsU64(a) && IsU64(b)
    ensures Agree(a, b, 0)
  {
    ShrZero(a);
    ShrZero(b);
  }

  lemma ShrZero(a: nat)
    requires IsU64(a)
    ensures Shr(a, 8) == 0
  {
    assert Shr(a, 1) < 0x100_0000_0000_0000;
    assert Shr(a, 2) < 0x1_0000_0000_0000;
    assert Shr(a, 3) < 0x100_0000_0000;
    assert Shr(a, 4) < 0x1_0000_0000;
    assert Shr(a, 5) < 0x100_0000;
    assert Shr(a, 6) < 0x1_0000;
    assert Shr(a, 7) < 0x100;
  }

  lemma {:induction false} ShrMono(a: nat, b: nat, n: nat)
    requires a <= b
    ensures Shr(a, n) <= Shr(b, n)
  {
    if n > 0 {
      ShrMono(a, b, n - 1);
    }
  }

  /** Comparing truncated keys is complete at every depth ... */
  lemma TruncOrder(a: nat, b: nat, d: nat)
    requires d <= 8 && a <= b
    ensures Trunc(a, d) <= Trunc(b, d)
  {
    ShrMono(a, b, 8 - d);
  }

  /** ... and at depth 8 the truncated key is the key. */
  lemma TruncFull(a: nat)
    ensures Trunc(a, 8) == a
  {
  }

  /** The length of the common byte prefix, at most 7. */
  method LongestCommonPrefix(a: nat, b: nat) returns (prefix: nat)
    requires IsU64(a) && IsU64(b)
    ensures prefix <= 7 && Agree(a, b, prefix)
    ensures prefix < 7 ==> GetKey(a, prefix + 1) != GetKey(b, prefix + 1)
  {
    prefix := 0;
    AgreeNone(a, b);
    var i := 1;
    while i < 9
      invariant 1 <= i <= 9 && prefix <= 7 && Agree(a, b, prefix)
      invariant i < 9 ==> prefix == i - 1
      invariant i == 9 ==> prefix == 7
    {
      if GetKey(a, i) == GetKey(b, i) && prefix < 7 {
        AgreeStep(a, b, prefix);
        prefix := prefix + 1;
      } else {
        break;
      }
      i := i + 1;
    }
  }
}
