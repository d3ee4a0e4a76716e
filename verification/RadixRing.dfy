/**
 * The ring buffer of the radix tree (radix_tree.h) as a queue: the keys between
 * the read and the write position, oldest first, at most 255 of them.
 */
module RadixRing {

  const RING: nat := 256

  /** The remembered keys, oldest first. */
  ghost function Queue<T>(b: seq<T>, read: nat, write: nat): (q: seq<T>)
    requires |b| == RING && read < RING && write < RING
    ensures |q| < RING && (q == [] <==> read == write)
    ensures q != [] ==> q[0] == b[read]
  {
    if read <= write then b[read..write] else b[read..] + b[..write]
  }

  /** One more key; beyond 255 the oldest one is forgotten. */
  ghost function Remember<T>(q: seq<T>, x: T): (q': seq<T>)
    ensures q' != []
  {
    (if |q| == RING - 1 then q[1..] else q) + [x]
  }

  /** Writing at the write position and advancing, the read position too if the ring is full, remembers the key. */
  lemma PushIs<T>(b: seq<T>, read: nat, write: nat, x: T)
    requires |b| == RING && read < RING && write < RING
    ensures
      var w := (write + 1) % RING;
      var r := if w == read then (read + 1) % RING else read;
      w < RING && r < RING && Queue(b[write := x], r, w) == Remember(Queue(b, read, write), x)
  {
    var w := (write + 1) % RING;
    var r := if w == read then (read + 1) % RING else read;
    var b' := b[write := x];
    if write == RING - 1 {
      assert w == 0;
      assert b'[read..] == b[read..write] + [x];
      if read == 0 {
        assert b'[1..] == b[..write][1..] + [x];
      }
    } else {
      assert w == write + 1;
      assert b'[..w] == b[..write] + [x];
      if read <= write {
        assert b'[read..w] == b[read..write] + [x];
      } else {
        assert b'[read..] == b[read..];
        if w == read {
          Wrap(b, b', read, write, x);
        }
      }
    }
  }

  lemma Wrap<T>(b: seq<T>, b': seq<T>, read: nat, write: nat, x: T)
    requires |b| == RING && read == write + 1 < RING && b' == b[write := x]
    ensures Queue(b', (read + 1) % RING, read) == Remember(Queue(b, read, write), x)
  {
    if read == RING - 1 {
      assert (read + 1) % RING == 0;
      assert b[read..] == [b[read]];
      assert b'[..read] == b[..write] + [x];
    } else {
      assert (read + 1) % RING == read + 1;
      assert b'[read + 1..] == b[read..][1..];
      assert b'[..read] == b[..write] + [x];
      assert (b[read..] + b[..write])[1..] == b[read..][1..] + b[..write];
    }
  }

  lemma PopIs<T>(b: seq<T>, read: nat, write: nat)
    requires |b| == RING && read < RING && write < RING && read != write
    ensures Queue(b, (read + 1) % RING, write) == Queue(b, read, write)[1..]
  {
    assert (read + 1) % RING == if read == RING - 1 then 0 else read + 1;
  }
}
