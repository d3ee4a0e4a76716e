/**
 * Node records and their layouts in memory: what radix_tree.h does to a node of
 * whichever of the four kinds is what RadixTree does to its record.
 */
module RLayouts {
  import opened Common
  import opened RadixModel
  import opened RadixStore
  import opened RNodes

  datatype Layout = List(list: ListNode) | Index(index: IndexNode) | Direct(direct: DirectNode)

  /** The header fields and one of the layouts. */
  datatype RawNode = RawNode(leaf: bool, depth: nat, key: nat, layout: Layout)

  function Parts(l: Layout): set<object> {
    match l
    case List(n) => {n, n.keys, n.children}
    case Index(n) => {n, n.keys, n.children}
    case Direct(n) => {n, n.children}
  }

  function KindOf(l: Layout): Kind {
    match l
    case List(n) => n.kind
    case Index(_) => K48
    case Direct(_) => K256
  }

  ghost predicate Ok(l: Layout)
    reads Parts(l)
  {
    match l
    case List(n) => n.Valid()
    case Index(n) => n.Valid()
    case Direct(n) => n.Valid()
  }

  ghost function Children(l: Layout): map<Byte, Child>
    reads Parts(l)
  {
    match l
    case List(n) => n.contents
    case Index(n) => n.contents
    case Direct(n) => n.contents
  }

  /** The frames of a leaf are in cells of their own. */
  ghost predicate Framed(m: map<Byte, Child>, frames: map<nat, Entry>, cells: map<nat, Entry>) {
    && frames.Keys == m.Keys && (forall b :: b in m ==> m[b] in cells && cells[m[b]] == frames[b])
    && forall b, c :: b in m && c in m && b != c ==> m[b] != m[c]
  }

  /** The node is the record rec; the frames of a leaf are in cells. */
  ghost predicate Lays(node: RawNode, rec: RRec, cells: map<nat, Entry>)
    reads Parts(node.layout)
  {
    && Ok(node.layout) && KindOf(node.layout) == rec.kind
    && node.leaf == rec.leaf && node.depth == rec.depth && node.key == rec.key
    && if rec.leaf then rec.ptrs == map[] && Framed(Children(node.layout), rec.frames, cells)
       else rec.frames == map[] && rec.ptrs == Children(node.layout)
  }

  // ----- Dispatch on the kind -----

  method InsertChild(l: Layout, b: Byte, child: Child)
    requires Ok(l) && child != 0 && (b in Children(l) || |Children(l)| < Capacity(KindOf(l)))
    modifies Parts(l)
    ensures Ok(l) && Children(l) == old(Children(l))[b := child]
  {
    match l {
      case List(n) => n.Insert(b, child);
      case Index(n) => n.Insert(b, child);
      case Direct(n) => n.Insert(b, child);
    }
  }

  method DeleteChild(l: Layout, b: Byte)
    requires Ok(l)
    modifies Parts(l)
    ensures Ok(l) && Children(l) == old(Children(l)) - {b}
  {
    match l {
      case List(n) => n.DeleteReference(b);
      case Index(n) => n.DeleteReference(b);
      case Direct(n) => n.DeleteReference(b);
    }
  }

  method NextPage(l: Layout, b: Byte) returns (child: Child)
    requires Ok(l)
    ensures child == if b in Children(l) then Children(l)[b] else 0
  {
    match l {
      case List(n) => child := n.GetNextPage(b);
      case Index(n) => child := n.GetNextPage(b);
      case Direct(n) => child := n.GetNextPage(b);
    }
  }

  /** No layout maps a byte to the null pointer. */
  lemma NoNull(l: Layout, b: Byte)
    requires Ok(l)
    ensures b in Children(l) ==> Children(l)[b] != 0
  {
    match l {
      case List(n) =>
      case Index(n) => IndexAt(n.keys[..], n.children[..], n.contents, n.slots, b);
      case Direct(n) =>
    }
  }

  method CanInsertInto(node: RawNode, ghost rec: RRec, ghost cells: map<nat, Entry>) returns (can: bool)
    requires Lays(node, rec, cells)
    ensures can == CanInsert(rec.kind, NodeCount(rec))
  {
    CountIs(node, rec, cells);
    match node.layout {
      case List(n) => can := n.CanInsertInto();
      case Index(n) => can := n.CanInsertInto();
      case Direct(n) => can := n.CanInsertInto();
    }
  }

  method CanDeleteFrom(node: RawNode, ghost rec: RRec, ghost cells: map<nat, Entry>) returns (can: bool)
    requires Lays(node, rec, cells)
    ensures can == CanRemove(rec.kind, NodeCount(rec))
  {
    CountIs(node, rec, cells);
    match node.layout {
      case List(n) => can := n.CanDeleteFrom();
      case Index(n) => can := n.CanDeleteFrom();
      case Direct(n) => can := n.CanDeleteFrom();
    }
  }

  lemma CountIs(node: RawNode, rec: RRec, cells: map<nat, Entry>)
    requires Lays(node, rec, cells)
    ensures |Children(node.layout)| == NodeCount(rec)
  {
    assert |Children(node.layout)| == |Children(node.layout).Keys|;
    assert |rec.frames| == |rec.frames.Keys|;
  }

  // ----- The operations on records -----

  /** get_next_page: the child of an inner node, or the frame of a leaf. */
  method GetNextPage(node: RawNode, b: Byte, ghost rec: RRec, ghost cells: map<nat, Entry>) returns (child: Child)
    requires Lays(node, rec, cells)
    ensures !rec.leaf ==> child == if b in rec.ptrs then rec.ptrs[b] else 0
    ensures rec.leaf ==> if b in rec.frames then child != 0 && child in cells && cells[child] == rec.frames[b] else child == 0
  {
    NoNull(node.layout, b);
    child := NextPage(node.layout, b);
    assert rec.leaf ==> (b in rec.frames.Keys <==> b in Children(node.layout).Keys);
  }

  /** node_insert of a child. */
  method NodeInsert(node: RawNode, b: Byte, child: Child, ghost rec: RRec, ghost cells: map<nat, Entry>)
    requires Lays(node, rec, cells) && !rec.leaf && child != 0 && (b in rec.ptrs || NodeCount(rec) < Capacity(rec.kind))
    modifies Parts(node.layout)
    ensures Lays(node, rec.(ptrs := rec.ptrs[b := child]), cells)
  {
    InsertChild(node.layout, b, child);
  }

  /** node_insert of an entry: a frame the byte has already is overwritten, otherwise one is made at the address given by malloc. */
  method NodeInsertFrame(node: RawNode, b: Byte, e: Entry, cells: map<nat, Entry>, malloc: nat, ghost rec: RRec) returns (cells': map<nat, Entry>, bytes: nat)
    requires Lays(node, rec, cells) && rec.leaf && malloc != 0 && malloc !in cells && (b in rec.frames || NodeCount(rec) < Capacity(rec.kind))
    modifies Parts(node.layout)
    ensures Lays(node, rec.(frames := rec.frames[b := e]), cells') && bytes == if b in rec.frames then 0 else FRAME_BYTES
  {
    hide Ok, Children, Framed, Lays, NodeCount, KindOf;
    CountIs(node, rec, cells);
    LeafLaid(node, rec, cells);
    ghost var m := Children(node.layout);
    NoNull(node.layout, b);
    var frame := NextPage(node.layout, b);
    if frame != 0 {
      cells', bytes := cells[frame := e], 0;
      FramedSet(m, rec.frames, cells, b, e);
    } else {
      InsertChild(node.layout, b, malloc);
      cells', bytes := cells[malloc := e], FRAME_BYTES;
      FramedAdd(m, rec.frames, cells, b, malloc, e);
    }
    LeafLays(node, rec, rec.frames[b := e], cells');
  }

  lemma LeafLaid(node: RawNode, rec: RRec, cells: map<nat, Entry>)
    requires Lays(node, rec, cells) && rec.leaf
    ensures Ok(node.layout) && KindOf(node.layout) == rec.kind && node.leaf && node.depth == rec.depth && node.key == rec.key
    ensures rec.ptrs == map[] && Framed(Children(node.layout), rec.frames, cells) && rec.frames.Keys == Children(node.layout).Keys
  {
  }

  lemma LeafLays(node: RawNode, rec: RRec, frames: map<nat, Entry>, cells: map<nat, Entry>)
    requires rec.leaf && Ok(node.layout) && KindOf(node.layout) == rec.kind && node.leaf && node.depth == rec.depth && node.key == rec.key
    requires rec.ptrs == map[] && Framed(Children(node.layout), frames, cells)
    ensures Lays(node, rec.(frames := frames), cells)
  {
  }

  lemma FramedSet(m: map<Byte, Child>, frames: map<nat, Entry>, cells: map<nat, Entry>, b: Byte, e: Entry)
    requires Framed(m, frames, cells) && b in m
    ensures Framed(m, frames[b := e], cells[m[b] := e])
  {
  }

  lemma FramedAdd(m: map<Byte, Child>, frames: map<nat, Entry>, cells: map<nat, Entry>, b: Byte, c: Child, e: Entry)
    requires Framed(m, frames, cells) && b !in m && c !in cells
    ensures Framed(m[b := c], frames[b := e], cells[c := e])
  {
  }

  /** node_delete. */
  method NodeDelete(node: RawNode, b: Byte, ghost rec: RRec, ghost cells: map<nat, Entry>)
    requires Lays(node, rec, cells)
    modifies Parts(node.layout)
    ensures Lays(node, rec.(ptrs := rec.ptrs - {b}, frames := rec.frames - {b}), cells)
  {
    DeleteChild(node.layout, b);
    assert rec.leaf ==> rec.ptrs - {b} == rec.ptrs;
    assert !rec.leaf ==> rec.frames - {b} == rec.frames;
  }

  method GetSingleChild(node: RawNode, ghost rec: RRec, ghost cells: map<nat, Entry>) returns (child: Child)
    requires Lays(node, rec, cells) && !rec.leaf && |rec.ptrs| == 1
    ensures exists b :: rec.ptrs == map[b := child]
  {
    match node.layout {
      case List(n) => child := n.GetSingleChild();
      case Index(n) => child := n.GetSingleChild();
      case Direct(n) => child := n.GetSingleChild();
    }
  }

  /** increase_node_size: a full node in a layout of the next larger kind is the record that Resize makes. */
  method IncreaseNodeSize(node: RawNode, ghost rec: RRec, ghost cells: map<nat, Entry>) returns (r: RawNode)
    requires Lays(node, rec, cells) && !CanInsert(rec.kind, NodeCount(rec))
    ensures Lays(r, rec.(kind := Larger(rec.kind)), cells) && CanInsert(Larger(rec.kind), NodeCount(rec))
  {
    hide Ok, CanInsert;
    CountIs(node, rec, cells);
    CountFits(node.layout);
    GrowFits(rec.kind, NodeCount(rec));
    var l := Grow(node.layout);
    r := node.(layout := l);
  }

  method Grow(l: Layout) returns (r: Layout)
    requires Ok(l) && !CanInsert(KindOf(l), |Children(l)|) && |Children(l)| <= Capacity(KindOf(l))
    ensures Ok(r) && KindOf(r) == Larger(KindOf(l)) && Children(r) == Children(l)
  {
    hide Lists, Indexes, Sends, Slots;
    match l {
      case List(n) =>
        if n.kind == K4 {
          var q := ListToList(n, K16);
          r := List(q);
        } else {
          var q := ListToIndex(n);
          r := Index(q);
        }
      case Index(n) =>
        var q := IndexToDirect(n);
        r := Direct(q);
    }
  }

  /** decrease_node_size: likewise for a node that has too few children. */
  method DecreaseNodeSize(node: RawNode, ghost rec: RRec, ghost cells: map<nat, Entry>) returns (r: RawNode)
    requires Lays(node, rec, cells) && !CanRemove(rec.kind, NodeCount(rec)) && rec.kind != K4
    ensures Lays(r, rec.(kind := Smaller(rec.kind)), cells)
  {
    hide Ok, CanRemove;
    CountIs(node, rec, cells);
    ShrinkFits(rec.kind, NodeCount(rec));
    var l := Shrink(node.layout);
    r := node.(layout := l);
  }

  method Shrink(l: Layout) returns (r: Layout)
    requires Ok(l) && KindOf(l) != K4 && |Children(l)| <= Capacity(Smaller(KindOf(l)))
    ensures Ok(r) && KindOf(r) == Smaller(KindOf(l)) && Children(r) == Children(l)
  {
    hide Lists, Indexes, Sends, Slots;
    match l {
      case List(n) =>
        var q := ListToList(n, K4);
        r := List(q);
      case Index(n) =>
        var q := IndexToList(n);
        r := List(q);
      case Direct(n) =>
        var q := DirectToIndex(n);
        r := Index(q);
    }
  }

  /** A layout holds no more children than its kind has places. */
  lemma CountFits(l: Layout)
    requires Ok(l)
    ensures |Children(l)| <= Capacity(KindOf(l))
  {
    match l {
      case List(n) => ListsSize(n.keys[..n.currentSize], n.children[..n.currentSize], n.contents);
      case Index(n) => SlotsFit(n.keys[..], n.children[..], n.contents, n.slots);
      case Direct(n) => BytesFit(n.contents);
    }
  }

  lemma SlotsFit(ks: seq<Byte>, cs: seq<Child>, m: map<Byte, Child>, slots: map<nat, Byte>)
    requires Indexes(ks, cs, m, slots)
    ensures |m| <= 48
  {
    FewerThan(48);
    assert slots.Keys <= UpTo(48);
    SubsetSize(slots.Keys, UpTo(48));
    assert |slots.Keys| == |slots|;
  }

  lemma BytesFit(m: map<Byte, Child>)
    ensures |m| <= 256
  {
    FewerThan(256);
    var s: set<nat> := m.Keys;
    assert s <= UpTo(256);
    SubsetSize(s, UpTo(256));
    assert |m.Keys| == |m|;
  }
}
