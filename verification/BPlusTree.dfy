/**
 * The B+ tree on the buffer manager (bplus_tree.h), keeping the cache in step.
 * Pages are read and written through frame numbers; `tree` is what the pages
 * reachable from the root add up to.
 */
module BPlus {
  import opened Common
  import opened Pages
  import opened BTreeModel
  import opened BTreeSearch
  import opened BTreeStore
  import opened BTreeInsert
  import opened BTreeDelete
  import opened BTreeSteps
  import opened BTreePages
  import opened BTreeMoves
  import opened BTreeLeaves
  import opened BTreeEnter
  import opened BTreeChain
  import TreeOperations
  import opened Buffer
  import Radix

  class BPlusTree {
    /** the capacity of a leaf; an inner node holds n - 1 keys */
    const n: nat
    const bm: BufferManager
    const cache: Radix.RadixTree?
    var rootId: nat

    ghost var tree: Tree
    ghost var height: nat

    ghost function C(): Cfg {
      Cfg(n, cache == null)
    }

    /** The cached entries, as long as no insertion into the cache was refused for lack of budget. */
    ghost function View(): View
      reads if cache == null then {} else {cache}
    {
      if cache == null || cache.refused then map[] else cache.Contents()
    }

    /** The cached keys, whether an insertion into the cache was refused, and the bytes it uses. */
    ghost function Seen(): Option<Radix.CacheState>
      reads CacheParts()
    {
      if cache == null then None else Some(cache.State())
    }

    /** What an insertion of the key does to a cache. */
    ghost predicate Took(s: Option<Radix.CacheState>, s': Option<Radix.CacheState>, key: int) {
      cache != null ==> s.Some? && s'.Some? && Radix.Took(s.value, s'.value, key, cache.radixTreeSize)
    }

    /** The same, from above. */
    ghost predicate Gained(s: Option<Radix.CacheState>, s': Option<Radix.CacheState>, key: int) {
      cache != null ==> s.Some? && s'.Some? && Radix.Gained(s.value, s'.value, key, cache.radixTreeSize)
    }

    /** A key that moves to another leaf is entered anew. */
    ghost predicate Fed(s: Option<Radix.CacheState>, s': Option<Radix.CacheState>, moved: Option<int>) {
      if moved.Some? then Took(s, s', moved.value) else s' == s
    }

    /** What a deletion of the key does to a cache, when another key changes its leaf beforehand. */
    ghost predicate Gave(s: Option<Radix.CacheState>, s': Option<Radix.CacheState>, moved: Option<int>, key: int)
      requires IsKey(key)
    {
      exists s1 :: Fed(s, s1, moved) && Gone(s1, s', key)
    }

    /** The entry a search for the key ends at leaves the cache, and the key is not in it any more. */
    ghost predicate Gone(s: Option<Radix.CacheState>, s': Option<Radix.CacheState>, key: int)
      requires IsKey(key)
    {
      cache != null ==> s.Some? && s'.Some? && Radix.Lost(s.value, s'.value, key)
    }

    /** Unless an insertion was refused, the key is cached with a frame that holds its page. */
    ghost predicate Points(key: int)
      reads bm`frames, if cache == null then {} else {cache}
    {
      cache == null || cache.refused || (cache.bm == bm && key in cache.Contents() && cache.Current(cache.Contents()[key]))
    }

    ghost function CacheParts(): set<object> {
      if cache == null then {} else {cache, cache.buffer}
    }

    /** What holds at every step of every operation. */
    ghost predicate Inv()
      reads bm, bm.storage, if cache == null then {} else {cache}
    {
      && n >= 4 && bm.Room(3) && bm.Valid()
      && (cache != null ==> cache.bm == bm && cache.n == n && cache.Valid() && cache.LinksOk())
    }

    /** Frame s is a pointer to the fixed page id. */
    ghost predicate Held(s: nat, id: nat)
      reads bm
    {
      && id in bm.pins && id in bm.live && bm.At(s, id)
      && s < |bm.frames| && bm.frames[s].pageId == id && bm.frames[s].page == bm.live[id]
    }

    /** Between operations: nothing is fixed, and the live pages are exactly those of a tree that satisfies the invariant. */
    ghost predicate Valid()
      reads this, bm, bm.storage, if cache == null then {} else {cache}
    {
      Settled() && OK(tree, LOW, INT64_MAX, height, C()) && LastNext(tree) == 0
    }

    /** Valid, except that the tree may be any tree. */
    ghost predicate Settled()
      reads this, bm, bm.storage, if cache == null then {} else {cache}
    {
      Inv() && bm.pins == {} && bm.written == {} && rootId == tree.id && Stored()
    }

    ghost predicate Stored()
      reads this`tree, bm, bm.storage, if cache == null then {} else {cache}
    {
      Rep(bm.live, tree) && Disj(tree) && bm.live.Keys == Ids(tree) && Coh(View(), tree)
    }

    constructor (b: BufferManager, c: Radix.RadixTree?, leafSize: nat)
      requires leafSize >= 4 && b.Room(3) && b.Valid() && b.live == map[] && b.pins == {} && b.written == {}
      requires c != null ==> c.bm == b && c.n == leafSize && c.Valid() && c.LinksOk()
      modifies b, b.storage
      ensures Valid() && bm == b && cache == c && n == leafSize
      ensures tree == Leaf(tree.id, EMPTY, 0) && Flat(tree) == EMPTY && bm.stuck == old(b.stuck)
    {
      hide *;
      n, bm, cache := leafSize, b, c;
      rootId, tree, height := 0, Leaf(0, EMPTY, 0), 0;
      new;
      var id := MakeRoot();
      rootId, tree := id, Leaf(id, EMPTY, 0);
      FirstValid(id);
    }

    /** The page of the first leaf. */
    method MakeRoot() returns (id: nat)
      requires bm.Room(3) && bm.Valid() && bm.live == map[] && bm.pins == {} && bm.written == {}
      requires cache != null ==> cache.bm == bm && cache.Valid() && cache.LinksOk()
      modifies bm, bm.storage
      ensures bm.Valid() && bm.live == map[id := Outer(EMPTY, 0)] && bm.pins == {} && bm.written == {} && bm.stuck == old(bm.stuck)
      ensures cache != null ==> cache.Valid() && cache.LinksOk()
    {
      hide *;
      label Start: id := MakePage();
      LeavesNew(map[], old(bm.issued), id, Outer(EMPTY, 0));
      FirstPage(id, Outer(EMPTY, 0), Outer(EMPTY, 0));
      if cache != null {
        cache.LinksStay@Start();
      }
    }

    method MakePage() returns (id: nat)
      requires bm.Room(3) && bm.Valid() && bm.live == map[] && bm.pins == {} && bm.written == {}
      modifies bm, bm.storage
      ensures bm.Valid() && bm.live == map[id := Outer(EMPTY, 0)] && bm.pins == {} && bm.written == {} && bm.stuck == old(bm.stuck)
      ensures id !in old(bm.issued) && bm.issued == old(bm.issued) + {id} && |old(bm.frames)| <= |bm.frames|
    {
      hide *;
      bm.FewFixed(2);
      var header := bm.CreateNewPage();
      ghost var stuck := bm.stuck;
      id := bm.frames[header].pageId;
      FirstPage(id, bm.frames[header].page, Outer(EMPTY, 0));
      NonePinned(old(bm.pins), id);
      assert bm.live == map[id := bm.frames[header].page] && bm.pins == {id} && bm.written == {};
      bm.UnfixPage(id, true);
      assert bm.pins == {} && bm.written == {} && bm.stuck == stuck;
      bm.Write(header, id, Outer(EMPTY, 0));
      assert bm.stuck == stuck;
    }

    lemma FirstValid(id: nat)
      requires n >= 4 && bm.Room(3) && bm.Valid() && (cache != null ==> cache.bm == bm && cache.n == n && cache.Valid() && cache.LinksOk())
      requires bm.live == map[id := Outer(EMPTY, 0)] && bm.pins == {} && bm.written == {}
      requires rootId == id && tree == Leaf(id, EMPTY, 0) && height == 0
      ensures Valid() && Flat(tree) == EMPTY
    {
      hide *;
      InvIntro();
      PinsIn();
      ConfigIs();
      FirstTree(bm.live, View(), id, C());
      StoredIntro(tree);
      SettledIntro();
      ValidIntro();
    }

    lemma StoredIntro(t: Tree)
      requires t == tree && Rep(bm.live, t) && Disj(t) && bm.live.Keys == Ids(t) && Coh(View(), t)
      ensures Stored()
    {
    }

    lemma SettledIntro()
      requires Inv() && bm.pins == {} && bm.written == {} && rootId == tree.id && Stored()
      ensures Settled()
    {
    }

    lemma ValidIntro()
      requires Settled() && OK(tree, LOW, INT64_MAX, height, C()) && LastNext(tree) == 0
      ensures Valid()
    {
    }

    // ----- Access to pages -----

    method Request(id: nat) returns (header: nat)
      requires Inv() && id in bm.live && id !in bm.pins && |bm.pins| <= 2
      modifies bm, bm.storage
      ensures Inv() && Held(header, id) && bm.pins == old(bm.pins) + {id}
      ensures bm.live == old(bm.live) && bm.issued == old(bm.issued) && bm.written == old(bm.written) && View() == old(View()) && Seen() == old(Seen()) && bm.stuck == old(bm.stuck)
      ensures forall s, p :: old(Held(s, p)) && p in bm.pins ==> Held(s, p)
      ensures bm.DirtyIds() <= old(bm.DirtyIds())
    {
      hide *;
      PartsAre();
      InvFacts();
      bm.FewFixed(2);
      label Start: header := bm.RequestPage(id);
      HeldIntro(header, id);
      AllHeld@Start();
      Radix.LeavesSame(bm.live, bm.issued);
      LinksKept@Start();
    }

    method Unfix(id: nat, dirty: bool)
      requires Inv() && id in bm.pins && (id in bm.written ==> dirty)
      modifies bm, bm.storage
      ensures Inv() && bm.pins == old(bm.pins) - {id} && bm.written == old(bm.written) - {id}
      ensures bm.live == old(bm.live) && bm.issued == old(bm.issued) && View() == old(View()) && Seen() == old(Seen()) && bm.stuck == old(bm.stuck)
      ensures forall s, p :: old(Held(s, p)) && p in bm.pins ==> Held(s, p)
      ensures forall k :: old(Points(k)) ==> Points(k)
      ensures bm.DirtyIds() == old(bm.DirtyIds()) + if dirty then {id} else {}
    {
      hide *;
      PartsAre();
      InvFacts();
      label Start: bm.UnfixPage(id, dirty);
      AllHeld@Start();
      PointsKept@Start();
      Radix.LeavesSame(bm.live, bm.issued);
      LinksKept@Start();
    }

    method MarkDirty(id: nat)
      requires Inv() && id in bm.live
      modifies bm, bm.storage
      ensures Inv() && bm.pins == old(bm.pins) && bm.written == old(bm.written) - {id}
      ensures bm.live == old(bm.live) && bm.issued == old(bm.issued) && View() == old(View()) && Seen() == old(Seen())
      ensures forall s, p :: old(Held(s, p)) && p in bm.pins ==> Held(s, p)
    {
      hide *;
      PartsAre();
      InvFacts();
      label Start: bm.MarkDirty(id);
      AllHeld@Start();
      Radix.LeavesSame(bm.live, bm.issued);
      LinksKept@Start();
    }

    method WritePage(header: nat, ghost id: nat, page: Page)
      requires Inv() && Held(header, id)
      requires Radix.LeafPage(bm.live, id) ==> page.Outer? && |page.kv.keys| == |page.kv.vals|
      modifies bm, bm.storage
      ensures Inv() && bm.pins == old(bm.pins) && bm.written <= old(bm.written) + {id}
      ensures bm.live == old(bm.live)[id := page] && bm.issued == old(bm.issued) && View() == old(View()) && Seen() == old(Seen())
      ensures forall s, p :: old(Held(s, p)) && p in bm.pins ==> Held(s, p)
      ensures bm.DirtyIds() == old(bm.DirtyIds())
    {
      hide *;
      PartsAre();
      InvFacts();
      HeldAt(header, id);
      LeavesWrite(bm.live, bm.issued, id, page);
      label Start: bm.Write(header, id, page);
      AllHeld@Start();
      LinksKept@Start();
    }

    method DeletePage(id: nat)
      requires Inv() && id in bm.live && id !in bm.pins
      modifies bm, bm.storage
      ensures Inv() && bm.pins == old(bm.pins) && bm.written == old(bm.written)
      ensures bm.live == old(bm.live) - {id} && bm.issued == old(bm.issued) && View() == old(View()) && Seen() == old(Seen())
      ensures forall s, p :: old(Held(s, p)) && p in bm.pins ==> Held(s, p)
    {
      hide *;
      PartsAre();
      InvFacts();
      LeavesDelete(bm.live, bm.issued, id);
      bm.RoomIs(3);
      label Start: bm.DeletePage(id);
      bm.RoomIs(3);
      AllHeld@Start();
      LinksKept@Start();
    }

    /** create_new_page and the construction of a node in it. */
    method NewNode(page: Page) returns (header: nat, ghost id: nat)
      requires Inv() && |bm.pins| <= 2
      modifies bm, bm.storage
      ensures Inv() && Held(header, id) && bm.pins == old(bm.pins) + {id} && bm.written == old(bm.written)
      ensures id !in old(bm.issued) && bm.issued == old(bm.issued) + {id}
      ensures bm.live == old(bm.live)[id := page] && View() == old(View()) && Seen() == old(Seen())
      ensures forall s, p :: old(Held(s, p)) && p in bm.pins ==> Held(s, p)
    {
      hide *;
      PartsAre();
      InvFacts();
      bm.FewFixed(2);
      label Start: header := bm.CreateNewPage();
      id := bm.frames[header].pageId;
      AllHeld@Start();
      label Made: bm.Write(header, id, page);
      AllHeld@Made();
      LeavesNew(old(bm.live), old(bm.issued), id, page);
      HeldIntro(header, id);
      assert bm.live == old(bm.live)[id := page];
      LinksKept@Start();
    }

    // ----- Keeping the cache in step -----

    /** cache->insert */
    method CacheInsert(key: int, slot: nat, ghost id: nat)
      requires Inv() && Held(slot, id) && IsKey(key) && Radix.LeafPage(bm.live, id)
      modifies CacheParts()
      ensures Inv() && Becomes(View(), old(View())[key := Entry(id, slot)])
      ensures Took(old(Seen()), Seen(), key) && Points(key)
    {
      hide *;
      InvFacts();
      HeldFacts(slot, id);
      ViewIs();
      PartsAre();
      BecomesIs(map[], View()[key := Entry(id, slot)]);
      if cache != null {
        cache.LinksIs();
        cache.ContentsIs();
        Radix.KeyIs(key);
        bm.PinsLive();
        SeenIs();
        cache.AdmitsIs();
        cache.ValidFacts();
        Radix.RoomIs();
        var accepted := cache.Insert(key, Entry(bm.frames[slot].pageId, slot));
        if !accepted {
          Radix.EvictedLess(old(cache.tree), old(cache.Queued(key)), cache.Contents(), cache.Remembered());
        }
        ViewIs();
        BecomesIs(View(), old(View())[key := Entry(id, slot)]);
        cache.LinksIs();
        cache.ContentsIs();
        LinksPut(old(cache.Contents()), cache.Contents(), key, Entry(id, slot), |bm.frames|, bm.issued, bm.live);
        SeenIs();
        Radix.TookIntro(old(cache.tree), old(cache.State()), cache.State(), old(cache.Queued(key)), cache.Contents(), old(cache.Accepts()), key, cache.radixTreeSize);
        TookIntro(old(Seen()), old(cache.Accepts()), key, Entry(id, slot));
      }
      NoCache(key);
      InvIntro();
    }

    /** cache->update_range */
    method CacheUpdateRange(from: int, to: int, slot: nat, ghost id: nat)
      requires Inv() && Held(slot, id) && IsKey(from) && IsKey(to) && Radix.LeafPage(bm.live, id)
      modifies CacheParts()
      ensures Inv() && Becomes(View(), Repoint(old(View()), from, to, Entry(id, slot)))
      ensures Seen() == old(Seen())
    {
      hide *;
      InvFacts();
      HeldFacts(slot, id);
      ViewIs();
      PartsAre();
      SeenIs();
      RepointNone(from, to, Entry(id, slot));
      BecomesIs(map[], Repoint(map[], from, to, Entry(id, slot)));
      if cache != null {
        cache.LinksIs();
        cache.ContentsIs();
        bm.PinsLive();
        SeenIs();
        cache.UpdateRange(from, to, Entry(bm.frames[slot].pageId, slot));
        ViewIs();
        cache.LinksIs();
        cache.ContentsIs();
        SeenIs();
        assert cache.Contents().Keys == old(cache.Contents()).Keys;
        RepointIs(old(cache.Contents()), from, to, Entry(id, slot));
        BecomesIs(View(), Repoint(old(View()), from, to, Entry(id, slot)));
        LinksRepoint(old(cache.Contents()), from, to, Entry(id, slot), |bm.frames|, bm.issued, bm.live);
      }
      InvIntro();
    }

    /** cache->delete_reference */
    method CacheDelete(key: int)
      requires Inv() && IsKey(key)
      modifies CacheParts()
      ensures Inv() && forall k :: k in View() ==> k in old(View()) && View()[k] == old(View())[k]
      ensures Gone(old(Seen()), Seen(), key)
    {
      hide *;
      InvFacts();
      ViewIs();
      PartsAre();
      if cache != null {
        cache.LinksIs();
        cache.ContentsIs();
        SeenIs();
        cache.ValidFacts();
        cache.DeleteReference(key);
        SeenIs();
        Radix.LandedAtIs(old(cache.tree), key);
        Radix.LostIntro(old(cache.tree), key, old(cache.State()), cache.State());
        ViewIs();
        cache.LinksIs();
        cache.ContentsIs();
        Radix.LinksLess(old(cache.Contents()), if old(Radix.LandsAt(cache.tree, key)).Some? then {old(Radix.LandsAt(cache.tree, key)).value} else {}, |bm.frames|, bm.issued, bm.live);
      }
      GoneIs(old(Seen()), key);
      InvIntro();
    }

    lemma SeenIs()
      ensures Seen() == if cache == null then None else Some(cache.State())
      ensures cache != null ==>
        cache.State() == Radix.CacheState(cache.Contents().Keys, cache.refused, cache.currentSize, cache.Remembered(), Radix.RootGrowth(cache.tree))
    {
    }

    lemma TookFacts(s: Option<Radix.CacheState>, key: int)
      requires cache != null && s.Some? && Gained(s, Seen(), key) && s.value.size + Radix.ROOM <= cache.radixTreeSize
      ensures cache.currentSize <= s.value.size + Radix.ROOM && cache.refused == s.value.refused
      ensures !cache.refused ==> cache.Contents().Keys == s.value.keys + {key}
    {
    }

    lemma TookIs(s: Option<Radix.CacheState>, s': Option<Radix.CacheState>, key: int)
      requires cache != null && s.Some? && s'.Some?
      ensures Took(s, s', key) <==> Radix.Took(s.value, s'.value, key, cache.radixTreeSize)
    {
    }

    lemma GaveIs(s: Option<Radix.CacheState>, s': Option<Radix.CacheState>, moved: Option<int>, key: int) returns (s1: Radix.CacheState)
      requires cache != null && s.Some? && s'.Some? && IsKey(key) && Gave(s, s', moved, key)
      ensures Radix.Fed(s.value, s1, moved, cache.radixTreeSize) && Radix.Lost(s1, s'.value, key)
    {
      var o :| Fed(s, o, moved) && Gone(o, s', key);
      s1 := o.value;
    }

    lemma PointsIntro(key: int)
      requires cache != null && cache.bm == bm && key in cache.Contents() && cache.Current(cache.Contents()[key])
      ensures Points(key)
    {
    }

    /** A cached key that was served, and at most dropped otherwise, before it was entered again. */
    lemma TookVia(s: Option<Radix.CacheState>, s1: Option<Radix.CacheState>, key: int)
      requires s.Some? && s1.Some? && Radix.Kept(s.value, s1.value, key)
      ensures Took(s1, Seen(), key) ==> Gained(s, Seen(), key)
      ensures Seen() == s1 && key in s1.value.keys ==> Gained(s, Seen(), key)
    {
      if cache != null && Took(s1, Seen(), key) {
        Radix.TookGained(s1.value, Seen().value, key, cache.radixTreeSize);
      }
      if key in s1.value.keys {
        assert s1.value.keys + {key} == s1.value.keys;
      }
      assert s.value.keys + {key} == s.value.keys;
    }

    lemma PointsIs(key: int)
      requires cache != null && !cache.refused && Points(key)
      ensures key in cache.Contents() && cache.Current(cache.Contents()[key])
    {
    }

    lemma NoCache(key: int)
      ensures cache == null ==> Took(Seen(), Seen(), key) && Points(key)
    {
    }

    lemma FedNone(s: Option<Radix.CacheState>)
      ensures Fed(s, s, None)
    {
    }

    lemma FedSome(s: Option<Radix.CacheState>, s': Option<Radix.CacheState>, key: int)
      requires Took(s, s', key)
      ensures Fed(s, s', Some(key))
    {
    }

    lemma GaveIntro(s: Option<Radix.CacheState>, s': Option<Radix.CacheState>, key: int)
      requires IsKey(key) && Gone(s, s', key)
      ensures Gave(s, s', None, key)
    {
      FedNone(s);
    }

    lemma GaveAfter(s: Option<Radix.CacheState>, s1: Option<Radix.CacheState>, s': Option<Radix.CacheState>, fed: Option<int>, moved: Option<int>, key: int)
      requires IsKey(key) && Fed(s, s1, fed) && Gave(s1, s', moved, key)
      ensures fed == None ==> Gave(s, s', moved, key)
      ensures moved == None ==> Gave(s, s', fed, key)
    {
    }

    /** After a deletion the key is not cached. */
    lemma GaveOut(s: Option<Radix.CacheState>, moved: Option<int>, key: int)
      requires IsKey(key) && Gave(s, Seen(), moved, key)
      ensures cache != null ==> key !in cache.Contents()
    {
    }

    lemma GoneIs(s: Option<Radix.CacheState>, key: int)
      requires IsKey(key)
      ensures Gone(s, Seen(), key) <==> (cache != null ==> s.Some? && Seen().Some? && Radix.Lost(s.value, Seen().value, key))
    {
    }

    lemma TookIntro(s: Option<Radix.CacheState>, accepted: bool, key: int, e: Entry)
      requires cache != null && cache.bm == bm && s.Some? && Seen().Some? && Radix.Took(s.value, Seen().value, key, cache.radixTreeSize)
      requires e.frame < |bm.frames| && bm.frames[e.frame].pageId == e.pageId
      requires accepted ==> key in cache.Contents() && cache.Contents()[key] == e
      requires !accepted ==> cache.refused
      ensures Took(s, Seen(), key) && Points(key)
    {
    }

    lemma GainedIs(s: Option<Radix.CacheState>, key: int)
      requires Took(s, Seen(), key)
      ensures Gained(s, Seen(), key)
    {
      if cache != null {
        Radix.TookGained(s.value, Seen().value, key, cache.radixTreeSize);
      }
    }


    twostate lemma PointsKept()
      requires |bm.frames| == |old(bm.frames)| && (forall s :: 0 <= s < |bm.frames| ==> bm.frames[s].pageId == old(bm.frames)[s].pageId)
      requires cache != null ==> cache.tree == old(cache.tree) && cache.refused == old(cache.refused)
      ensures forall k :: old(Points(k)) ==> Points(k)
    {
    }

    lemma PartsAre()
      ensures CacheParts() == if cache == null then {} else {cache, cache.buffer}
    {
    }

    // ----- Splits -----

    /** The new page of split_outer_node, to which the cached keys of the upper half are re-pointed. */
    method NewSibling(header: nat, index: nat, ghost t: Tree) returns (newHeader: nat, newId: nat, ghost e: Entry)
      requires Inv() && Held(header, t.id) && |bm.pins| <= 2 && bm.live[t.id] == PageOf(t)
      requires t.Leaf? && KVOk(t.kv) && 0 < index < |t.kv.keys| == n && IsKey(t.kv.keys[index]) && IsKey(t.kv.keys[|t.kv.keys| - 1])
      modifies bm, bm.storage, CacheParts()
      ensures Inv() && Held(newHeader, newId) && bm.pins == old(bm.pins) + {newId} && bm.written == old(bm.written)
      ensures newId !in old(bm.issued) && bm.issued == old(bm.issued) + {newId} && bm.live == old(bm.live)[newId := Outer(EMPTY, 0)]
      ensures CutAt(t, index) && e.pageId == newId && SplitView(old(View()), View(), t, index, e)
      ensures Seen() == old(Seen())
      ensures forall s, p :: old(Held(s, p)) && p in bm.pins ==> Held(s, p)
    {
      hide *;
      PartsAre();
      HeldFacts(header, t.id);
      KVOkSorted(t.kv);
      LeafPageOf(t);
      var node := bm.frames[header].page;
      ghost var id;
      newHeader, id := NewNode(Outer(EMPTY, 0));
      EmptyLeafPage(bm.live, id);
      CacheUpdateRange(node.kv.keys[index], node.kv.keys[|node.kv.keys| - 1], newHeader, id);
      e := Entry(id, newHeader);
      HeldFacts(newHeader, id);
      newId := bm.frames[newHeader].pageId;
      SplitViewLeaf(old(View()), View(), t, index, e);
    }

    /** split_outer_node: the upper half moves to a new page, to which the leaf then points. */
    method SplitOuterNode(header: nat, index: nat, ghost t: Tree) returns (newId: nat, ghost e: Entry)
      requires Inv() && Held(header, t.id) && |bm.pins| <= 2 && bm.live[t.id] == PageOf(t)
      requires t.Leaf? && KVOk(t.kv) && 0 < index < |t.kv.keys| == n && IsKey(t.kv.keys[index]) && IsKey(t.kv.keys[|t.kv.keys| - 1])
      modifies bm, bm.storage, CacheParts()
      ensures Inv() && bm.pins == old(bm.pins) && bm.written <= old(bm.written) + {t.id}
      ensures newId !in old(bm.issued) && bm.issued == old(bm.issued) + {newId}
      ensures CutAt(t, index) && e.pageId == newId && SplitView(old(View()), View(), t, index, e)
      ensures var (l, s, r) := Cut(t, index, newId); bm.live == old(bm.live)[newId := PageOf(r)][t.id := PageOf(l)]
      ensures Seen() == old(Seen())
      ensures forall s, p :: old(Held(s, p)) && p in bm.pins ==> Held(s, p)
    {
      hide *;
      PartsAre();
      PinsIn();
      HeldFacts(header, t.id);
      KVOkSorted(t.kv);
      var newHeader;
      newHeader, newId, e := NewSibling(header, index, t);
      CutLeafPages(t, index, newId);
      ghost var (l, s, r) := Cut(t, index, newId);
      FillSibling(header, newHeader, newId, index, t);
      WriteTwice(old(bm.live), newId, Outer(EMPTY, 0), PageOf(r));
      AddDrop(old(bm.pins), newId);
    }

    /** The copying loop of split_outer_node, and the links of the two leaves. */
    method FillSibling(header: nat, newHeader: nat, newId: nat, index: nat, ghost t: Tree)
      requires Inv() && Held(header, t.id) && Held(newHeader, newId) && bm.live[t.id] == PageOf(t) && t.id != newId
      requires t.Leaf? && KVOk(t.kv) && 0 < index < |t.kv.keys| == n && CutAt(t, index)
      modifies bm, bm.storage
      ensures Inv() && bm.pins == old(bm.pins) - {newId} && bm.written <= old(bm.written) + {t.id}
      ensures bm.issued == old(bm.issued) && View() == old(View())
      ensures var (l, s, r) := Cut(t, index, newId); bm.live == old(bm.live)[newId := PageOf(r)][t.id := PageOf(l)]
      ensures forall s, p :: old(Held(s, p)) && p in bm.pins ==> Held(s, p)
    {
      hide *;
      HeldFacts(header, t.id);
      HeldFacts(newHeader, newId);
      LeafPageOf(t);
      KVOkSorted(t.kv);
      HalvesOk(t.kv, index);
      CutLeafPages(t, index, newId);
      var node := bm.frames[header].page;
      var moved := MoveOuter(node.kv, index, EMPTY, n);
      WritePage(newHeader, newId, Outer(moved, node.next));
      WritePage(header, t.id, Outer(KV(node.kv.keys[..index], node.kv.vals[..index]), newId));
      Unfix(newId, true);
    }

    /** split_inner_node: as before, and the key between the halves leaves both. */
    method SplitInnerNode(header: nat, index: nat, ghost t: Tree) returns (newId: nat)
      requires Inv() && Held(header, t.id) && |bm.pins| <= 2 && bm.live[t.id] == PageOf(t)
      requires t.Node? && |t.kids| == |t.keys| + 1 && Sorted(t.keys) && 0 < index <= |t.keys| == n - 1
      modifies bm, bm.storage
      ensures Inv() && bm.pins == old(bm.pins) && bm.written <= old(bm.written) + {t.id} && View() == old(View())
      ensures newId !in old(bm.issued) && bm.issued == old(bm.issued) + {newId} && CutAt(t, index - 1)
      ensures var (l, s, r) := Cut(t, index - 1, newId); bm.live == old(bm.live)[newId := PageOf(r)][t.id := PageOf(l)]
      ensures forall s, p :: old(Held(s, p)) && p in bm.pins ==> Held(s, p)
    {
      hide *;
      PartsAre();
      HeldFacts(header, t.id);
      NodePageOf(t);
      PinsIn();
      var node := bm.frames[header].page;
      var newHeader;
      ghost var id;
      newHeader, id := NewNode(Inner([], [node.children[index]]));
      HeldFacts(newHeader, id);
      newId := bm.frames[newHeader].pageId;
      NothingBefore(node.keys[index..], Inner([], [node.children[index]]), node);
      var moved := MoveInner(node, index, bm.frames[newHeader].page, n);
      CutNodePages(t, index, newId);
      NotLeafPage(bm.live, id);
      NotLeafPage(bm.live, t.id);
      WritePage(newHeader, id, moved);
      NotLeafPage(bm.live, t.id);
      WritePage(header, t.id, Inner(node.keys[..index - 1], node.children[..index]));
      AddDrop(old(bm.pins), newId);
      Unfix(newId, true);
    }

    /** A full node is split in the middle. */
    method SplitNode(header: nat, ghost t: Tree, ghost lo: int, ghost hi: int, ghost h: nat) returns (splitKey: int, newId: nat, ghost e: Entry)
      requires Inv() && Held(header, t.id) && |bm.pins| <= 2 && bm.live[t.id] == PageOf(t)
      requires OK(t, lo, hi, h, C()) && LOW <= lo && hi <= INT64_MAX && Full(t, n)
      modifies bm, bm.storage, CacheParts()
      ensures Inv() && bm.pins == old(bm.pins) && bm.written <= old(bm.written) + {t.id}
      ensures newId !in old(bm.issued) && bm.issued == old(bm.issued) + {newId}
      ensures n >= 4 && CutAt(t, KeepCount(t, n)) && e.pageId == newId && SplitView(old(View()), View(), t, KeepCount(t, n), e)
      ensures var (l, s, r) := Cut(t, KeepCount(t, n), newId); splitKey == s && bm.live == old(bm.live)[newId := PageOf(r)][t.id := PageOf(l)]
      ensures Seen() == old(Seen())
      ensures forall s, p :: old(Held(s, p)) && p in bm.pins ==> Held(s, p)
    {
      hide *;
      PartsAre();
      InvFacts();
      ConfigIs();
      HeldFacts(header, t.id);
      SplitSizes(t, lo, hi, h, C());
      if bm.frames[header].page.Inner? {
        var index := SplitIndex(n - 1);
        splitKey := bm.frames[header].page.keys[index - 1];
        newId := SplitInnerNode(header, index, t);
        e := Entry(newId, 0);
        SplitViewNode(View(), t, KeepCount(t, n), e);
        CutPages(t, KeepCount(t, n), newId);
      } else {
        var index := SplitIndex(n);
        splitKey := bm.frames[header].page.kv.keys[index - 1];
        newId, e := SplitOuterNode(header, index, t);
        CutPages(t, KeepCount(t, n), newId);
      }
    }

    lemma ConfigIs()
      ensures C() == Cfg(n, cache == null)
    {
    }

    // ----- Insertion -----

    /** The fixed page t.id is the root of a subtree that satisfies the invariant, and the cache agrees with it. */
    ghost predicate Here(t: Tree, lo: int, hi: int, h: nat)
      reads bm, bm.storage, if cache == null then {} else {cache}
    {
      && Rep(bm.live, t) && Disj(t) && Coh(View(), t) && OK(t, lo, hi, h, C())
      && LOW <= lo < hi <= INT64_MAX
    }

    lemma HereFacts(t: Tree, lo: int, hi: int, h: nat)
      requires Here(t, lo, hi, h)
      ensures Rep(bm.live, t) && Disj(t) && Coh(View(), t) && OK(t, lo, hi, h, C())
      ensures LOW <= lo < hi <= INT64_MAX
    {
    }

    lemma HereIntro(t: Tree, lo: int, hi: int, h: nat)
      requires Rep(bm.live, t) && Disj(t) && Coh(View(), t) && OK(t, lo, hi, h, C())
      requires LOW <= lo < hi <= INT64_MAX
      ensures Here(t, lo, hi, h)
    {
    }

    method InsertInLeaf(header: nat, key: int, value: Value, ghost t: Tree, ghost lo: int, ghost hi: int, ghost h: nat) returns (ghost t': Tree)
      requires Inv() && bm.pins == {t.id} && bm.written <= {t.id} && Held(header, t.id) && Here(t, lo, hi, h)
      requires t.Leaf? && !Full(t, n) && lo < key <= hi
      modifies bm, bm.storage, CacheParts()
      ensures Inv() && bm.pins == {} && bm.written == {} && old(bm.issued) <= bm.issued
      ensures Turn(old(bm.live), old(View()), bm.live, View(), old(bm.issued), t, t', lo, hi)
      ensures Took(old(Seen()), Seen(), key) && Points(key) && (MinFill(t, n) ==> Spare(LeafOf(t', key), n))
      ensures Enters(t, t', key, value) && Grew(t, t', key, value, n)
      ensures (key !in Flat(t).keys ==> OK(t', lo, hi, h, C())) && InsSame(t, t', key, value) && t'.id == t.id && (MinFill(t, n) ==> MinFill(t', n))
      ensures bm.DirtyIds() <= old(bm.DirtyIds()) + {LeafOf(t, key).id}
    {
      hide *;
      PartsAre();
      InvFacts();
      ConfigIs();
      HereFacts(t, lo, hi, h);
      RepPage(bm.live, t);
      LeafPageOf(t);
      HeldFacts(header, t.id);
      LeafKV(t, lo, hi, h, C());
      KVOkSorted(t.kv);
      InsertLeafOK(t, key, value, lo, hi, h, C());
      InsertLeafFlat(t, key, value);
      InsertPaired(t.kv, key, value);
      var node := bm.frames[header].page;
      t' := Leaf(t.id, OuterInsert(t.kv, key, value), t.next);
      LeafOfLeaf(t, key, EMPTY);
      LeafPageOf(t');
      InsertedLeaf(t, key, value, n);
      FullIs(t, n);
      assert !IsFull(node, n);
      WritePage(header, t.id, Outer(OuterInsert(node.kv, key, value), node.next));
      LeafPageIntro(bm.live, t');
      KeyBetween(key, lo, hi);
      CacheInsert(key, header, t.id);
      LeafGains(t, key, value, n);
      EntersLeaf(t, key, value);
      GrewLeaf(t, key, value, n);
      ghost var e := Entry(t.id, header);
      InsertLeafTurn(old(bm.live), old(View()), bm.live, View(), old(bm.issued), t, key, value, e, lo, hi);
      HeldFacts(header, t.id);
      Unfix(bm.frames[header].pageId, true);
      assert {t.id} - {t.id} == {};
    }

    /** A full root is split below a new root. */
    method GrowRoot(header: nat, ghost t: Tree, ghost lo: int, ghost hi: int, ghost h: nat) returns (newRoot: nat, ghost t': Tree)
      requires Inv() && bm.pins == {t.id} && bm.written == {} && Held(header, t.id) && Here(t, lo, hi, h) && Full(t, n)
      modifies this`rootId, bm, bm.storage, CacheParts()
      ensures Inv() && bm.pins == {t'.id} && bm.written == {} && Held(newRoot, t'.id) && old(bm.issued) <= bm.issued
      ensures Turn(old(bm.live), old(View()), bm.live, View(), old(bm.issued), t, t', lo, hi) && Here(t', lo, hi, h + 1)
      ensures n >= 4 && CutAt(t, KeepCount(t, n)) && exists rid, id :: t' == SplitRoot(t, rid, id, n)
      ensures Seen() == old(Seen()) && t'.Node?
      ensures !Full(t', n) && Flat(t') == Flat(t) && FirstLeaf(t') == FirstLeaf(t) && LastNext(t') == LastNext(t) && rootId == t'.id
    {
      hide *;
      PartsAre();
      InvFacts();
      ConfigIs();
      HereFacts(t, lo, hi, h);
      RepPage(bm.live, t);
      PinsIn();
      ghost var m, used := bm.live, bm.issued;
      var splitKey, newId;
      ghost var e, id;
      splitKey, newId, e := SplitNode(header, t, lo, hi, h);
      newRoot, id := NewRoot(header, splitKey, newId, t.id);
      t' := SplitRoot(t, newId, id, n);
      GrownRoot(m, old(View()), bm.live, View(), used, t, newId, id, e, lo, hi, h, C());
      HereIntro(t', lo, hi, h + 1);
      SplitRootNode(t, newId, id, n);
    }

    /** A root over the two halves; the old root is released. */
    method NewRoot(header: nat, splitKey: int, newId: nat, ghost oldRoot: nat) returns (newRoot: nat, ghost id: nat)
      requires Inv() && bm.pins == {oldRoot} && bm.written <= {oldRoot} && Held(header, oldRoot)
      modifies this`rootId, bm, bm.storage
      ensures Inv() && Held(newRoot, id) && bm.pins == {id} && bm.written == {} && rootId == id
      ensures id !in old(bm.issued) && bm.issued == old(bm.issued) + {id} && View() == old(View())
      ensures bm.live == old(bm.live)[id := Inner([splitKey], [oldRoot, newId])]
    {
      hide *;
      PinsIn();
      HeldFacts(header, oldRoot);
      assert |{oldRoot}| == 1;
      RootPage(oldRoot, splitKey, newId);
      newRoot, id := NewNode(InnerInsert(Inner([], [bm.frames[header].pageId]), splitKey, newId));
      HeldFacts(newRoot, id);
      HeldFacts(header, oldRoot);
      rootId := bm.frames[newRoot].pageId;
      Unfix(bm.frames[header].pageId, true);
      AddDrop({id}, oldRoot);
      assert bm.written == {};
    }

    /** A full kid is split and its upper half entered into the node above. */
    method SplitChild(header: nat, child: nat, ghost t: Tree, ghost i: nat, ghost lo: int, ghost hi: int, ghost h: nat) returns (ghost t': Tree)
      requires Inv() && Here(t, lo, hi, h) && t.Node? && |t.kids| == |t.keys| + 1 && i < |t.kids| && !Full(t, n) && Full(t.kids[i], n)
      requires bm.pins == {t.id, t.kids[i].id} && bm.written == {} && Held(header, t.id) && Held(child, t.kids[i].id)
      modifies bm, bm.storage, CacheParts()
      ensures Inv() && bm.pins == {t.id} && bm.written <= {t.id} && Held(header, t.id) && old(bm.issued) <= bm.issued
      ensures Turn(old(bm.live), old(View()), bm.live, View(), old(bm.issued), t, t', lo, hi) && Here(t', lo, hi, h)
      ensures Seen() == old(Seen())
      ensures Splits(t, t', i, n) && SplitAt(t, t', i, n) && Same(t, t') && t'.Node? && Size(t') >= Size(t)
    {
      hide *;
      PartsAre();
      InvFacts();
      ConfigIs();
      HereFacts(t, lo, hi, h);
      RepPage(bm.live, t);
      KidIdsIn(bm.live, t, i);
      KidCoh(bm.live, View(), t, i);
      RepPage(bm.live, t.kids[i]);
      KidAt(t, i, lo, hi, h, C());
      PinsIn();
      OwnPage(t.kids[i]);
      RangeOf(t, i, i, lo, hi, h, C());
      ghost var m, v, used, kid := bm.live, View(), bm.issued, t.kids[i];
      assert |{t.id, kid.id}| == 2;
      var splitKey, newId;
      ghost var e;
      splitKey, newId, e := SplitNode(child, kid, Lo(t.keys, i, lo), Hi(t.keys, i, hi), h - 1);
      HeldFacts(header, t.id);
      ghost var (l, s, r) := Cut(kid, KeepCount(kid, n), newId);
      CutPages(kid, KeepCount(kid, n), newId);
      SplitSeparator(t, i, newId, lo, hi, h, C());
      SplitParent(t, i, s, l, r, lo, hi, h, C());
      NodePageOf(t);
      NotLeafPage(bm.live, t.id);
      FullIs(t, n);
      assert !IsFull(bm.frames[header].page, n);
      WritePage(header, t.id, InnerInsert(bm.frames[header].page, splitKey, newId));
      SplitPages(m, used, bm.live, t.id, kid.id, newId, PageOf(l), PageOf(r), bm.live[t.id]);
      SplitTurn(m, v, bm.live, View(), used, t, i, newId, e, lo, hi, h, C());
      SplitKidOK(t, i, newId, lo, hi, h, C());
      SplitKidShape(t, i, newId, n);
      t' := SplitKid(t, i, newId, n);
      SplitsIntro(t, i, newId, n);
      SplitAtIntro(t, t', i, newId, lo, hi, h, C());
      HeldFacts(child, kid.id);
      Unfix(bm.frames[child].pageId, true);
      assert {t.id, kid.id} - {kid.id} == {t.id};
      TurnFacts(m, v, bm.live, View(), used, t, t', lo, hi);
      HereIntro(t', lo, hi, h);
    }

    /** Release the node and insert into its fixed kid i, which has room. */
    method InsertIntoKid(header: nat, child: nat, key: int, value: Value, dirty: bool, ghost t: Tree, ghost i: nat, ghost lo: int, ghost hi: int, ghost h: nat) returns (ghost t': Tree)
      requires Inv() && Here(t, lo, hi, h) && Routed(t, i, key, lo, hi) && i < |t.kids| && t.Node? && !Full(t.kids[i], n)
      requires bm.pins == {t.id, t.kids[i].id} && bm.written <= {t.id} && (bm.written == {} || dirty) && Held(header, t.id) && Held(child, t.kids[i].id)
      requires rootId !in Ids(t.kids[i]) && rootId in bm.issued
      modifies this`rootId, bm, bm.storage, CacheParts()
      ensures Inv() && bm.pins == {} && bm.written == {} && old(bm.issued) <= bm.issued && rootId == old(rootId)
      ensures Turn(old(bm.live), old(View()), bm.live, View(), old(bm.issued), t, t', lo, hi)
      ensures Took(old(Seen()), Seen(), key) && Points(key) && Spare(LeafOf(t', key), n)
      ensures Roomy(t.kids[i], key, n) ==> Enters(t, t', key, value)
      ensures GrewAt(t, t', i, key, value, n)
      ensures (key !in Flat(t).keys ==> OK(t', lo, hi, h, C())) && InsSame(t, t', key, value) && t'.id == t.id && (MinFill(t, n) ==> MinFill(t', n))
      ensures Roomy(t.kids[i], key, n) && !dirty ==> bm.DirtyIds() <= old(bm.DirtyIds()) + {LeafOf(t, key).id}
      decreases 0, h, 0
    {
      hide *;
      PartsAre();
      InvFacts();
      ConfigIs();
      HereFacts(t, lo, hi, h);
      KidAt(t, i, lo, hi, h, C());
      KidCoh(bm.live, View(), t, i);
      KidIdsIn(bm.live, t, i);
      RoutedKid(t, i, key, lo, hi, h, C());
      LeafRouted(t, i, key, lo, hi, h, C());
      RoutedFacts(t, i, key, lo, hi);
      RangeOf(t, i, i, lo, hi, h, C());
      PinsIn();
      ghost var m, v, used, kid := bm.live, View(), bm.issued, t.kids[i];
      ghost var l0, h0 := Lo(t.keys, i, lo), Hi(t.keys, i, hi);
      HeldFacts(header, t.id);
      OwnPage(kid);
      Unfix(bm.frames[header].pageId, dirty);
      assert {t.id, kid.id} - {t.id} == {kid.id};
      HereIntro(kid, l0, h0, h - 1);
      ghost var kid', h' := RecursiveInsert(child, key, value, kid, l0, h0, h - 1);
      TurnKid(m, v, bm.live, View(), used, t, i, kid', t.keys, lo, hi, h, C());
      InsertKidOK(t, i, kid', key, value, lo, hi, h, C());
      t' := Node(t.id, t.keys, t.kids[i := kid']);
      SameParent(bm.live, t, i, kid');
      SameFill(t, t.kids[i := kid'], n);
      LeafBelow(t, i, kid', key, lo, hi, h, C());
      GrewRootIs(kid, kid', key, value, n);
      GrewAtIntro(t, i, kid', key, value, n);
      if Roomy(kid, key, n) {
        EntersKid(t, i, kid', key, value, lo, hi, h, C());
      }
    }

    /** recursive_insert from a fixed node: full nodes on the way are split before they are entered. */
    method RecursiveInsert(header: nat, key: int, value: Value, ghost t: Tree, ghost lo: int, ghost hi: int, ghost h: nat) returns (ghost t': Tree, ghost h': nat)
      requires Inv() && bm.pins == {t.id} && bm.written == {} && Held(header, t.id) && Here(t, lo, hi, h)
      requires lo < key <= hi && rootId in bm.issued
      requires rootId == t.id || (rootId !in Ids(t) && !Full(t, n) && MinFill(t, n))
      modifies this`rootId, bm, bm.storage, CacheParts()
      ensures Inv() && bm.pins == {} && bm.written == {} && old(bm.issued) <= bm.issued
      ensures Turn(old(bm.live), old(View()), bm.live, View(), old(bm.issued), t, t', lo, hi)
      ensures Took(old(Seen()), Seen(), key) && Points(key) && (t.Node? || MinFill(t, n) ==> Spare(LeafOf(t', key), n))
      ensures GrewRoot(t, t', key, value, n)
      ensures !Full(t, n) && Roomy(t, key, n) ==> Enters(t, t', key, value)
      ensures old(rootId) == t.id && Full(t, n) && t.Leaf? ==> RootEnters(t, t', key, value, n)
      ensures (key !in Flat(t).keys ==> OK(t', lo, hi, h', C())) && InsSame(t, t', key, value)
      ensures old(rootId) == t.id ==> rootId == t'.id
      ensures old(rootId) != t.id ==> rootId == old(rootId) && t'.id == t.id && h' == h && MinFill(t', n)
      ensures !Full(t, n) && Roomy(t, key, n) ==> bm.DirtyIds() <= old(bm.DirtyIds()) + {LeafOf(t, key).id}
      decreases if rootId == t.id && Full(t, n) then 1 else 0, h, 2
    {
      hide *;
      PartsAre();
      InvFacts();
      ConfigIs();
      HereFacts(t, lo, hi, h);
      RepPage(bm.live, t);
      HeldFacts(header, t.id);
      FullIs(t, n);
      PinsIn();
      h' := h;
      if rootId == bm.frames[header].pageId && IsFull(bm.frames[header].page, n) {
        var newRoot;
        ghost var t1;
        newRoot, t1 := GrowRoot(header, t, lo, hi, h);
        ghost var m1, v1, used1 := bm.live, View(), bm.issued;
        HeldFacts(newRoot, t1.id);
        PinsIn();
        ghost var rid, id :| t1 == SplitRoot(t, rid, id, n);
        SplitRoom(t, rid, lo, hi, h, C());
        if t.Leaf? {
          SplitRoomy(t, rid, id, key, lo, hi, h, C());
        }
        t', h' := RecursiveInsert(newRoot, key, value, t1, lo, hi, h + 1);
        GrewRootIs(t1, t', key, value, n);
        GrewBelow(t, rid, id, t', key, value, n);
        if t.Leaf? {
          RootEntersIntro(t, rid, id, t', key, value, n);
        }
        TurnTrans(old(bm.live), old(View()), m1, v1, bm.live, View(), old(bm.issued), used1, t, t1, t', lo, hi);
        InsSameVia(t, t1, t', key, value);
      } else if bm.frames[header].page.Outer? {
        LeafOrNode(t);
        t' := InsertInLeaf(header, key, value, t, lo, hi, h);
        GrewRootIs(t, t', key, value, n);
      } else {
        LeafOrNode(t);
        t' := InsertInNode(header, key, value, t, lo, hi, h);
        GrewRootIs(t, t', key, value, n);
      }
    }

    /** The inner case of recursive_insert. */
    method InsertInNode(header: nat, key: int, value: Value, ghost t: Tree, ghost lo: int, ghost hi: int, ghost h: nat) returns (ghost t': Tree)
      requires Inv() && bm.pins == {t.id} && bm.written == {} && Held(header, t.id) && Here(t, lo, hi, h)
      requires lo < key <= hi && rootId in bm.issued && t.Node? && !Full(t, n)
      requires rootId == t.id || rootId !in Ids(t)
      modifies this`rootId, bm, bm.storage, CacheParts()
      ensures Inv() && bm.pins == {} && bm.written == {} && old(bm.issued) <= bm.issued && rootId == old(rootId)
      ensures Turn(old(bm.live), old(View()), bm.live, View(), old(bm.issued), t, t', lo, hi)
      ensures Took(old(Seen()), Seen(), key) && Points(key) && Spare(LeafOf(t', key), n)
      ensures Grew(t, t', key, value, n)
      ensures Roomy(t, key, n) ==> Enters(t, t', key, value)
      ensures (key !in Flat(t).keys ==> OK(t', lo, hi, h, C())) && InsSame(t, t', key, value) && t'.id == t.id && (MinFill(t, n) ==> MinFill(t', n))
      ensures Roomy(t, key, n) ==> bm.DirtyIds() <= old(bm.DirtyIds()) + {LeafOf(t, key).id}
      decreases 0, h, 1
    {
      hide *;
      PartsAre();
      ConfigIs();
      HereFacts(t, lo, hi, h);
      RepPage(bm.live, t);
      HeldFacts(header, t.id);
      PinsIn();
      NodePageOf(t);
      RouteRank(t, key, lo, hi, h, C());
      ghost var i := Rank(t.keys, key);
      RoutedFacts(t, i, key, lo, hi);
      KidIdsIn(bm.live, t, i);
      KidPage(bm.live, t, i);
      assert |{t.id}| == 1;
      var node := bm.frames[header].page;
      var nextPage := node.children[Rank(node.keys, key)];
      var child := Request(nextPage);
      assert {t.id} + {t.kids[i].id} == {t.id, t.kids[i].id};
      HeldFacts(child, t.kids[i].id);
      HereIntro(t, lo, hi, h);
      FullIs(t.kids[i], n);
      if Roomy(t, key, n) {
        RoomyKid(t, key, n);
      }
      if IsFull(bm.frames[child].page, n) {
        ghost var t1 := SplitChild(header, child, t, i, lo, hi, h);
        ghost var m1, v1, used1 := bm.live, View(), bm.issued;
        TurnFacts(old(bm.live), old(View()), m1, v1, old(bm.issued), t, t1, lo, hi);
        HereFacts(t1, lo, hi, h);
        RepPage(bm.live, t1);
        HeldFacts(header, t.id);
        SplitAtRoute(t, t1, i, key, n, lo, hi, h, C());
        ghost var i' := Rank(t1.keys, key);
        NodePageOf(t1);
        KidIdsIn(bm.live, t1, i');
        KidPage(bm.live, t1, i');
        nextPage := bm.frames[header].page.children[Rank(bm.frames[header].page.keys, key)];
        child := Request(nextPage);
        assert {t.id} + {t1.kids[i'].id} == {t1.id, t1.kids[i'].id};
        HereIntro(t1, lo, hi, h);
        SameFlat(t, t1);
        RootOutside(rootId, t.id, Ids(t), Ids(t1), Ids(t1.kids[i']), old(bm.issued));
        t' := InsertIntoKid(header, child, key, value, true, t1, i', lo, hi, h);
        TurnTrans(old(bm.live), old(View()), m1, v1, bm.live, View(), old(bm.issued), used1, t, t1, t', lo, hi);
        InsSameVia(t, t1, t', key, value);
        FillUp(t, t1, n);
        GrewSplit(t, t1, t', key, value, n);
      } else {
        t' := InsertIntoKid(header, child, key, value, false, t, i, lo, hi, h);
        GrewKid(t, t', key, value, n);
      }
    }

    /**
     * insert: the tree gains exactly the new pair. A key that is stored already is
     * stored once more, and just then the tree is no longer valid.
     */
    method Insert(key: int, value: Value)
      requires Valid() && IsKey(key)
      modifies this, bm, bm.storage, CacheParts()
      ensures Settled() && InsSame(old(tree), tree, key, value) && GrewRoot(old(tree), tree, key, value, n)
      ensures Valid() <==> key !in Flat(old(tree)).keys
      ensures Took(old(Seen()), Seen(), key) && Points(key)
      ensures !Full(old(tree), n) && Roomy(old(tree), key, n) ==> Enters(old(tree), tree, key, value)
      ensures Full(old(tree), n) && old(tree).Leaf? ==> RootEnters(old(tree), tree, key, value, n)
      ensures old(tree).Node? || MinFill(old(tree), n) ==> Spare(LeafOf(tree, key), n)
      ensures old(bm.issued) <= bm.issued
      ensures !Full(old(tree), n) && Roomy(old(tree), key, n) ==> bm.DirtyIds() <= old(bm.DirtyIds()) + {LeafOf(old(tree), key).id}
    {
      hide *;
      PartsAre();
      ValidFacts();
      InvFacts();
      ConfigIs();
      Radix.KeyIs(key);
      OwnPage(tree);
      PinsIn();
      var header := Request(rootId);
      HereIntro(tree, LOW, INT64_MAX, height);
      assert {} + {tree.id} == {tree.id};
      ghost var t', h' := RecursiveInsert(header, key, value, tree, LOW, INT64_MAX, height);
      InsSameFacts(tree, t', key, value);
      SettledAfter(t', h', old(bm.live), old(View()), old(bm.issued));
      InsertIff(Flat(old(tree)), key, value);
      if key !in Flat(old(tree)).keys {
        ValidIntro();
      } else if Valid() {
        ValidFacts();
        FlatOK(tree, LOW, INT64_MAX, height, C());
      }
    }

    lemma ValidFacts()
      requires Valid()
      ensures Inv() && bm.pins == {} && bm.written == {} && rootId == tree.id
      ensures Rep(bm.live, tree) && Disj(tree) && bm.live.Keys == Ids(tree) && Coh(View(), tree)
      ensures OK(tree, LOW, INT64_MAX, height, C()) && LastNext(tree) == 0
      ensures LOW == INT64_MIN - 1 && LOW < INT64_MAX
    {
    }

    ghost method SettledAfter(t': Tree, h': nat, m: Store, v: View, used: set<nat>)
      requires Inv() && bm.pins == {} && bm.written == {} && rootId == t'.id
      requires Turn(m, v, bm.live, View(), used, tree, t', LOW, INT64_MAX) && m.Keys == Ids(tree)
      modifies this`tree, this`height
      ensures Settled() && tree == t' && height == h'
    {
      hide *;
      PartsAre();
      TurnFacts(m, v, bm.live, View(), used, tree, t', LOW, INT64_MAX);
      assert (m.Keys - Ids(tree)) + Ids(t') == Ids(t');
      tree, height := t', h';
      StoredIntro(t');
      SettledIntro();
    }

    // ----- Borrowing -----

    /** The node t and its kids j and j + 1 are fixed, and nothing else. */
    ghost predicate Pair(header: nat, left: nat, right: nat, t: Tree, j: nat, lo: int, hi: int, h: nat)
      reads bm, bm.storage, if cache == null then {} else {cache}
    {
      && Inv() && Here(t, lo, hi, h) && t.Node? && |t.kids| == |t.keys| + 1 && j < |t.keys|
      && Held(header, t.id) && Held(left, t.kids[j].id) && Held(right, t.kids[j + 1].id)
      && bm.pins == {t.id, t.kids[j].id, t.kids[j + 1].id}
    }

    lemma PairFacts(header: nat, left: nat, right: nat, t: Tree, j: nat, lo: int, hi: int, h: nat)
      requires Pair(header, left, right, t, j, lo, hi, h)
      ensures Inv() && Here(t, lo, hi, h) && t.Node? && |t.kids| == |t.keys| + 1 && j < |t.keys| && lo < hi && n >= 4
      ensures Held(header, t.id) && Held(left, t.kids[j].id) && Held(right, t.kids[j + 1].id)
      ensures bm.pins == {t.id, t.kids[j].id, t.kids[j + 1].id}
      ensures t.id != t.kids[j].id && t.id != t.kids[j + 1].id && t.kids[j].id != t.kids[j + 1].id
      ensures header < |bm.frames| && bm.frames[header].page == PageOf(t) && bm.frames[header].pageId == t.id
      ensures left < |bm.frames| && bm.frames[left].page == PageOf(t.kids[j]) && bm.frames[left].pageId == t.kids[j].id
      ensures right < |bm.frames| && bm.frames[right].page == PageOf(t.kids[j + 1]) && bm.frames[right].pageId == t.kids[j + 1].id
      ensures t.id in bm.live && t.kids[j].id in bm.live && t.kids[j + 1].id in bm.live && bm.live[t.id] == PageOf(t)
      ensures bm.live[t.kids[j].id] == PageOf(t.kids[j]) && bm.live[t.kids[j + 1].id] == PageOf(t.kids[j + 1])
      ensures t.kids[j].Leaf? == t.kids[j + 1].Leaf? && OK(t, lo, hi, h, C()) && LOW <= lo && hi <= INT64_MAX
      ensures PageOf(t) == Inner(t.keys, KidIds(t.kids)) && bm.live.Keys <= bm.issued
    {
      hide *;
      PairIs(header, left, right, t, j, lo, hi, h);
      HereFacts(t, lo, hi, h);
      InvFacts();
      HeldFacts(header, t.id);
      HeldFacts(left, t.kids[j].id);
      HeldFacts(right, t.kids[j + 1].id);
      PairStore(bm.live, View(), t, j);
      PairIds(bm.live, View(), t, j);
      SameKind(t, j, lo, hi, h, C());
      NodePageOf(t);
      PinsIn();
    }

    lemma PairIs(header: nat, left: nat, right: nat, t: Tree, j: nat, lo: int, hi: int, h: nat)
      requires Pair(header, left, right, t, j, lo, hi, h)
      ensures Inv() && Here(t, lo, hi, h) && t.Node? && |t.kids| == |t.keys| + 1 && j < |t.keys|
      ensures Held(header, t.id) && Held(left, t.kids[j].id) && Held(right, t.kids[j + 1].id)
      ensures bm.pins == {t.id, t.kids[j].id, t.kids[j + 1].id}
    {
    }

    lemma PairNow(header: nat, left: nat, right: nat, t: Tree, j: nat, lo: int, hi: int, h: nat)
      requires Pair(header, left, right, t, j, lo, hi, h)
      ensures PairOk(bm.live, View(), bm.issued, t, j, lo, hi, h, C())
    {
      hide Rep, Disj, Coh, OK;
      PairFacts(header, left, right, t, j, lo, hi, h);
    }

    /** The last pair of the left leaf moves over, and the cache follows. */
    method BorrowLeftOuter(header: nat, left: nat, child: nat, index: nat, ghost t: Tree, ghost lo: int, ghost hi: int, ghost h: nat)
      requires t.Node? && |t.kids| == |t.keys| + 1 && 0 < index < |t.kids| && t.kids[index].Leaf? && Pair(header, left, child, t, index - 1, lo, hi, h) && Size(t.kids[index - 1]) > 0 && !Full(t.kids[index], n)
      modifies bm, bm.storage, CacheParts()
      ensures
        var from := t.kids[index - 1];
        from.Leaf? && from.kv.keys != [] && Took(old(Seen()), Seen(), from.kv.keys[|from.kv.keys| - 1])
      ensures Inv() && bm.pins == old(bm.pins) && bm.issued == old(bm.issued)
      ensures bm.written <= old(bm.written) + {t.id, t.kids[index - 1].id, t.kids[index].id}
      ensures Lends(old(bm.live), old(View()), bm.live, View(), bm.issued, t, index - 1, lo, hi)
      ensures Held(header, t.id) && Held(left, t.kids[index - 1].id) && Held(child, t.kids[index].id)
    {
      hide *;
      PartsAre();
      ghost var j: nat := index - 1;
      PairFacts(header, left, child, t, j, lo, hi, h);
      PairNow(header, left, child, t, j, lo, hi, h);
      ghost var l, r, m, v := t.kids[j], t.kids[j + 1], bm.live, View();
      LeftLeafFits(m, v, bm.issued, t, j, lo, hi, h, C());
      var node, from, to := bm.frames[header].page, bm.frames[left].page, bm.frames[child].page;
      var last := |from.kv.keys| - 1;
      InsertPaired(to.kv, from.kv.keys[last], from.kv.vals[last]);
      DeletePaired(from.kv, from.kv.keys[last]);
      FullIs(t.kids[index], n);
      assert !IsFull(to, n);
      WritePage(child, r.id, Outer(OuterInsert(to.kv, from.kv.keys[last], from.kv.vals[last]), to.next));
      NowLeafPage(bm.live, r.id);
      CacheInsert(from.kv.keys[last], child, r.id);
      WritePage(left, l.id, Outer(OuterDelete(from.kv, from.kv.keys[last]), from.next));
      HeldFacts(left, l.id);
      NotLeafPage(bm.live, t.id);
      WritePage(header, t.id, Inner(node.keys[index - 1 := bm.frames[left].page.kv.keys[last - 1]], node.children));
      BorrowLeftLeafTurn(m, v, bm.live, View(), bm.issued, t, j, Entry(r.id, child), lo, hi, h, C());
      LendsIs(m, v, bm.live, View(), bm.issued, t, j, lo, hi);
    }

    /** The first pair of the right leaf moves over, and the cache follows. */
    method BorrowRightOuter(header: nat, child: nat, right: nat, index: nat, ghost t: Tree, ghost lo: int, ghost hi: int, ghost h: nat)
      requires Pair(header, child, right, t, index, lo, hi, h) && t.kids[index].Leaf? && !Full(t.kids[index], n)
      modifies bm, bm.storage, CacheParts()
      ensures
        var from := t.kids[index + 1];
        from.Leaf? && from.kv.keys != [] && Took(old(Seen()), Seen(), from.kv.keys[0])
      ensures Inv() && bm.pins == old(bm.pins) && bm.issued == old(bm.issued)
      ensures bm.written <= old(bm.written) + {t.id, t.kids[index].id, t.kids[index + 1].id}
      ensures CutAt(Both(t, index), Size(t.kids[index]) + 1)
      ensures Turn(old(bm.live), old(View()), bm.live, View(), bm.issued, t, Rebalance(t, index, Size(t.kids[index]) + 1), lo, hi)
      ensures Held(header, t.id) && Held(child, t.kids[index].id) && Held(right, t.kids[index + 1].id)
    {
      hide *;
      PartsAre();
      PairFacts(header, child, right, t, index, lo, hi, h);
      PairNow(header, child, right, t, index, lo, hi, h);
      ghost var l, r, m, v := t.kids[index], t.kids[index + 1], bm.live, View();
      RightLeafFits(m, v, bm.issued, t, index, lo, hi, h, C());
      var node, from, to := bm.frames[header].page, bm.frames[right].page, bm.frames[child].page;
      InsertPaired(to.kv, from.kv.keys[0], from.kv.vals[0]);
      DeletePaired(from.kv, from.kv.keys[0]);
      FullIs(t.kids[index], n);
      assert !IsFull(to, n);
      WritePage(child, l.id, Outer(OuterInsert(to.kv, from.kv.keys[0], from.kv.vals[0]), to.next));
      NowLeafPage(bm.live, l.id);
      CacheInsert(from.kv.keys[0], child, l.id);
      NotLeafPage(bm.live, t.id);
      WritePage(header, t.id, Inner(node.keys[index := from.kv.keys[0]], node.children));
      WritePage(right, r.id, Outer(OuterDelete(from.kv, from.kv.keys[0]), from.next));
      BorrowRightLeafTurn(m, v, bm.live, View(), bm.issued, t, index, Entry(l.id, child), lo, hi, h, C());
    }

    /** The writes to three fixed inner nodes. */
    method WriteNodes(x: nat, ghost a: nat, pa: Page, y: nat, ghost b: nat, pb: Page, z: nat, ghost c: nat, pc: Page)
      requires Inv() && Held(x, a) && Held(y, b) && Held(z, c) && a != b && a != c && b != c
      requires a in bm.live && b in bm.live && c in bm.live && bm.live[a].Inner? && bm.live[b].Inner? && bm.live[c].Inner?
      modifies bm, bm.storage
      ensures Inv() && bm.pins == old(bm.pins) && bm.issued == old(bm.issued) && bm.written <= old(bm.written) + {b, c, a}
      ensures bm.live == old(bm.live)[a := pa][b := pb][c := pc] && View() == old(View())
      ensures Held(x, a) && Held(y, b) && Held(z, c)
    {
      hide *;
      PinsIn();
      HeldFacts(x, a);
      HeldFacts(y, b);
      HeldFacts(z, c);
      NotLeafPage(bm.live, a);
      WritePage(x, a, pa);
      NotLeafPage(bm.live, b);
      WritePage(y, b, pb);
      NotLeafPage(bm.live, c);
      WritePage(z, c, pc);
    }

    /** The last child of the left node moves over, through the separator. */
    method BorrowLeftInner(header: nat, left: nat, child: nat, index: nat, ghost t: Tree, ghost lo: int, ghost hi: int, ghost h: nat)
      requires t.Node? && |t.kids| == |t.keys| + 1 && 0 < index < |t.kids| && t.kids[index].Node? && Pair(header, left, child, t, index - 1, lo, hi, h) && Size(t.kids[index - 1]) > 0 && !Full(t.kids[index], n)
      modifies bm, bm.storage, CacheParts()
      ensures Seen() == old(Seen())
      ensures Inv() && bm.pins == old(bm.pins) && bm.issued == old(bm.issued)
      ensures bm.written <= old(bm.written) + {t.id, t.kids[index - 1].id, t.kids[index].id}
      ensures Lends(old(bm.live), old(View()), bm.live, View(), bm.issued, t, index - 1, lo, hi)
      ensures Held(header, t.id) && Held(left, t.kids[index - 1].id) && Held(child, t.kids[index].id)
    {
      hide *;
      PartsAre();
      ghost var j: nat := index - 1;
      PairFacts(header, left, child, t, j, lo, hi, h);
      PairNow(header, left, child, t, j, lo, hi, h);
      ghost var l, r, m, v := t.kids[j], t.kids[j + 1], bm.live, View();
      NodeFits(m, v, bm.issued, t, j, lo, hi, h, C());
      var node, from, to := bm.frames[header].page, bm.frames[left].page, bm.frames[child].page;
      var last := |from.keys| - 1;
      FullIs(t.kids[index], n);
      assert !IsFull(to, n);
      var to', node', from' := InnerInsertFirst(to, node.keys[index - 1], from.children[last + 1]), Inner(node.keys[index - 1 := from.keys[last]], node.children), InnerDelete(from, from.keys[last]);
      WriteNodes(child, r.id, to', header, t.id, node', left, l.id, from');
      BorrowLeftNodeTurn(m, v, bm.live, bm.issued, t, j, lo, hi, h, C());
      LendsIs(m, v, bm.live, View(), bm.issued, t, j, lo, hi);
    }

    /** The first child of the right node moves over, through the separator. */
    method BorrowRightInner(header: nat, child: nat, right: nat, index: nat, ghost t: Tree, ghost lo: int, ghost hi: int, ghost h: nat)
      requires Pair(header, child, right, t, index, lo, hi, h) && t.kids[index].Node? && Size(t.kids[index + 1]) > 0 && !Full(t.kids[index], n)
      modifies bm, bm.storage, CacheParts()
      ensures Seen() == old(Seen())
      ensures Inv() && bm.pins == old(bm.pins) && bm.issued == old(bm.issued)
      ensures bm.written <= old(bm.written) + {t.id, t.kids[index].id, t.kids[index + 1].id}
      ensures CutAt(Both(t, index), Size(t.kids[index]) + 1)
      ensures Turn(old(bm.live), old(View()), bm.live, View(), bm.issued, t, Rebalance(t, index, Size(t.kids[index]) + 1), lo, hi)
      ensures Held(header, t.id) && Held(child, t.kids[index].id) && Held(right, t.kids[index + 1].id)
    {
      hide *;
      PartsAre();
      PairFacts(header, child, right, t, index, lo, hi, h);
      PairNow(header, child, right, t, index, lo, hi, h);
      ghost var l, r, m, v := t.kids[index], t.kids[index + 1], bm.live, View();
      NodeFits(m, v, bm.issued, t, index, lo, hi, h, C());
      var node, from, to := bm.frames[header].page, bm.frames[right].page, bm.frames[child].page;
      FullIs(t.kids[index], n);
      assert !IsFull(to, n);
      var to', node', from' := InnerInsert(to, node.keys[index], from.children[0]), Inner(node.keys[index := from.keys[0]], node.children), InnerDeleteFirst(from);
      WriteNodes(child, l.id, to', header, t.id, node', right, r.id, from');
      BorrowRightNodeTurn(m, v, bm.live, bm.issued, t, index, lo, hi, h, C());
    }

    // ----- Merging -----

    /** The right leaf is emptied into the left one, which takes over its cached keys and its successor. */
    method MergeOuter(header: nat, left: nat, right: nat, index: nat, ghost t: Tree, ghost lo: int, ghost hi: int, ghost h: nat)
      requires Pair(header, left, right, t, index, lo, hi, h) && t.kids[index].Leaf? && bm.written == {}
      requires !Spare(t.kids[index], n) && !Spare(t.kids[index + 1], n)
      modifies bm, bm.storage, CacheParts()
      ensures Seen() == old(Seen())
      ensures Inv() && bm.pins == {t.id} && bm.written <= {t.id} && bm.issued == old(bm.issued) && Held(header, t.id)
      ensures Turn(old(bm.live), old(View()), bm.live, View(), bm.issued, t, MergeAt(t, index), lo, hi)
    {
      hide *;
      PartsAre();
      PairFacts(header, left, right, t, index, lo, hi, h);
      PairNow(header, left, right, t, index, lo, hi, h);
      ghost var l, r, m, v := t.kids[index], t.kids[index + 1], bm.live, View();
      ConfigIs();
      MergeRoom(t, index, lo, hi, h, C());
      MergeLeafFits(m, v, bm.issued, t, index, lo, hi, h, C());
      SizeLeaf(l);
      SizeLeaf(r);
      NodePageOf(t);
      var node, to, from := bm.frames[header].page, bm.frames[left].page, bm.frames[right].page;
      NowLeafPage(m, l.id);
      CacheUpdateRange(from.kv.keys[0], from.kv.keys[|from.kv.keys| - 1], left, l.id);
      var merged := MoveOuter(from.kv, 0, to.kv, n);
      MergePages(header, left, right, Outer(merged, from.next), InnerDelete(node, node.keys[index]), t, index);
      MergeLeafTurn(m, v, bm.live, View(), bm.issued, t, index, Entry(l.id, left), lo, hi, h, C());
    }

    /** The separator and all children of the right node go to the left one. */
    method MergeInner(header: nat, left: nat, right: nat, index: nat, ghost t: Tree, ghost lo: int, ghost hi: int, ghost h: nat)
      requires Pair(header, left, right, t, index, lo, hi, h) && t.kids[index].Node? && bm.written == {}
      requires !Spare(t.kids[index], n) && !Spare(t.kids[index + 1], n)
      modifies bm, bm.storage
      ensures Inv() && bm.pins == {t.id} && bm.written <= {t.id} && bm.issued == old(bm.issued) && Held(header, t.id)
      ensures Turn(old(bm.live), old(View()), bm.live, View(), bm.issued, t, MergeAt(t, index), lo, hi)
    {
      hide *;
      PairFacts(header, left, right, t, index, lo, hi, h);
      PairNow(header, left, right, t, index, lo, hi, h);
      ghost var l, r, m, v := t.kids[index], t.kids[index + 1], bm.live, View();
      NodeFits(m, v, bm.issued, t, index, lo, hi, h, C());
      ConfigIs();
      MergeRoom(t, index, lo, hi, h, C());
      MergeNodeFits(m, v, bm.issued, t, index, lo, hi, h, C());
      FullIs(l, n);
      NodePageOf(t);
      NotLeafPage(m, l.id);
      var node, to, from := bm.frames[header].page, bm.frames[left].page, bm.frames[right].page;
      assert !IsFull(to, n);
      var first := InnerInsert(to, node.keys[index], from.children[0]);
      var merged := MoveInner(from, 0, first, n);
      MergePages(header, left, right, merged, InnerDelete(node, node.keys[index]), t, index);
      MergeNodeTurn(m, v, bm.live, bm.issued, t, index, first, lo, hi, h, C());
    }

    /** The writes of a merge, after which the right page is given up. */
    method MergePages(header: nat, left: nat, right: nat, merged: Page, parent: Page, ghost t: Tree, ghost j: nat)
      requires Inv() && t.Node? && j + 1 < |t.kids| && t.id != t.kids[j].id && t.id != t.kids[j + 1].id && t.kids[j].id != t.kids[j + 1].id
      requires Held(header, t.id) && Held(left, t.kids[j].id) && Held(right, t.kids[j + 1].id)
      requires bm.pins == {t.id, t.kids[j].id, t.kids[j + 1].id} && bm.written == {}
      requires (Radix.LeafPage(bm.live, t.kids[j].id) ==> merged.Outer? && |merged.kv.keys| == |merged.kv.vals|) && bm.live[t.id].Inner?
      modifies bm, bm.storage
      ensures Inv() && bm.pins == {t.id} && bm.written <= {t.id} && bm.issued == old(bm.issued) && Held(header, t.id) && View() == old(View())
      ensures bm.live == old(bm.live)[t.kids[j].id := merged][t.id := parent] - {t.kids[j + 1].id}
    {
      hide *;
      ghost var l, r := t.kids[j].id, t.kids[j + 1].id;
      HeldFacts(header, t.id);
      HeldFacts(left, l);
      HeldFacts(right, r);
      var rightId, leftId := bm.frames[right].pageId, bm.frames[left].pageId;
      WritePage(left, l, merged);
      NotLeafPage(bm.live, t.id);
      WritePage(header, t.id, parent);
      Unfix(rightId, false);
      assert bm.pins == {t.id, l};
      DeletePage(rightId);
      Unfix(leftId, true);
      assert bm.pins == {t.id};
    }

    // ----- Repairing a poor kid -----

    /** The poor kid i of t is fixed together with t. */
    ghost predicate PoorKid(header: nat, child: nat, t: Tree, i: nat, lo: int, hi: int, h: nat)
      reads bm, bm.storage, if cache == null then {} else {cache}
    {
      && Inv() && Here(t, lo, hi, h) && Poor(t, i, lo, hi, h, C()) && t.Node? && i < |t.kids|
      && Held(header, t.id) && Held(child, t.kids[i].id) && bm.pins == {t.id, t.kids[i].id} && bm.written == {}
    }

    lemma PoorFacts(header: nat, child: nat, t: Tree, i: nat, lo: int, hi: int, h: nat)
      requires PoorKid(header, child, t, i, lo, hi, h)
      ensures Inv() && Here(t, lo, hi, h) && Poor(t, i, lo, hi, h, C()) && t.Node? && i < |t.kids| == |t.keys| + 1 && n >= 4
      ensures Held(header, t.id) && Held(child, t.kids[i].id) && bm.pins == {t.id, t.kids[i].id} && bm.written == {}
      ensures header < |bm.frames| && bm.frames[header].page == Inner(t.keys, KidIds(t.kids)) && bm.frames[header].pageId == t.id
      ensures child < |bm.frames| && bm.frames[child].page == PageOf(t.kids[i]) && bm.frames[child].pageId == t.kids[i].id
      ensures t.id != t.kids[i].id && t.kids[i].id in bm.live && |KidIds(t.kids)| == |t.kids| && |bm.pins| == 2
    {
      hide *;
      PoorIs(header, child, t, i, lo, hi, h);
      HereFacts(t, lo, hi, h);
      InvFacts();
      HeldFacts(header, t.id);
      HeldFacts(child, t.kids[i].id);
      RepPage(bm.live, t);
      NodePageOf(t);
      KidIdsIn(bm.live, t, i);
      KidPage(bm.live, t, i);
    }

    lemma PoorIs(header: nat, child: nat, t: Tree, i: nat, lo: int, hi: int, h: nat)
      requires PoorKid(header, child, t, i, lo, hi, h)
      ensures Inv() && Here(t, lo, hi, h) && Poor(t, i, lo, hi, h, C()) && t.Node? && i < |t.kids| == |t.keys| + 1
      ensures Held(header, t.id) && Held(child, t.kids[i].id) && bm.pins == {t.id, t.kids[i].id} && bm.written == {}
    {
    }

    /** The neighbour at position i of the poor kid is fixed as well. */
    method RequestSibling(header: nat, child: nat, index: nat, ghost t: Tree, ghost i: nat, ghost lo: int, ghost hi: int, ghost h: nat) returns (sibling: nat)
      requires PoorKid(header, child, t, i, lo, hi, h) && index < |t.kids| && (index == i + 1 || index + 1 == i)
      modifies bm, bm.storage
      ensures bm.live == old(bm.live) && bm.issued == old(bm.issued) && View() == old(View()) && bm.written == {}
      ensures sibling < |bm.frames| && bm.frames[sibling].page == PageOf(t.kids[index]) && bm.frames[sibling].pageId == t.kids[index].id
      ensures if index < i then Pair(header, sibling, child, t, index, lo, hi, h) else Pair(header, child, sibling, t, i, lo, hi, h)
      ensures bm.DirtyIds() <= old(bm.DirtyIds())
    {
      hide *;
      PoorFacts(header, child, t, i, lo, hi, h);
      HereFacts(t, lo, hi, h);
      ghost var j := if index < i then index else i;
      PairIds(bm.live, View(), t, j);
      sibling := Request(bm.frames[header].page.children[index]);
      HeldFacts(sibling, t.kids[index].id);
      assert bm.pins == {t.id, t.kids[j].id, t.kids[j + 1].id};
      HereIntro(t, lo, hi, h);
      if index < i {
        PairIntro(header, sibling, child, t, j, lo, hi, h);
      } else {
        PairIntro(header, child, sibling, t, j, lo, hi, h);
      }
    }

    /** A neighbour that cannot help is released. */
    method ReleaseSibling(header: nat, child: nat, sibling: nat, index: nat, ghost t: Tree, ghost i: nat, ghost lo: int, ghost hi: int, ghost h: nat)
      requires t.Node? && i < |t.kids| && index < |t.kids| && (index == i + 1 || index + 1 == i) && bm.written == {} && Poor(t, i, lo, hi, h, C())
      requires if index < i then Pair(header, sibling, child, t, index, lo, hi, h) else Pair(header, child, sibling, t, i, lo, hi, h)
      modifies bm, bm.storage
      ensures PoorKid(header, child, t, i, lo, hi, h)
      ensures bm.live == old(bm.live) && bm.issued == old(bm.issued) && View() == old(View())
      ensures bm.DirtyIds() <= old(bm.DirtyIds())
    {
      hide *;
      if index < i {
        PairFacts(header, sibling, child, t, index, lo, hi, h);
      } else {
        PairFacts(header, child, sibling, t, i, lo, hi, h);
      }
      HereFacts(t, lo, hi, h);
      Unfix(bm.frames[sibling].pageId, false);
      assert bm.pins == {t.id, t.kids[i].id};
      assert bm.written == {};
      HereIntro(t, lo, hi, h);
      PoorIntro(header, child, t, i, lo, hi, h);
    }

    lemma PairIntro(header: nat, left: nat, right: nat, t: Tree, j: nat, lo: int, hi: int, h: nat)
      requires Inv() && Here(t, lo, hi, h) && t.Node? && |t.kids| == |t.keys| + 1 && j < |t.keys|
      requires Held(header, t.id) && Held(left, t.kids[j].id) && Held(right, t.kids[j + 1].id)
      requires bm.pins == {t.id, t.kids[j].id, t.kids[j + 1].id}
      ensures Pair(header, left, right, t, j, lo, hi, h)
    {
    }

    lemma PoorIntro(header: nat, child: nat, t: Tree, i: nat, lo: int, hi: int, h: nat)
      requires Inv() && Here(t, lo, hi, h) && Poor(t, i, lo, hi, h, C()) && t.Node? && i < |t.kids|
      requires Held(header, t.id) && Held(child, t.kids[i].id) && bm.pins == {t.id, t.kids[i].id} && bm.written == {}
      ensures PoorKid(header, child, t, i, lo, hi, h)
    {
    }

    /** substitute: borrow from the left neighbour, else from the right one, if either can give. */
    method Substitute(header: nat, child: nat, ghost t: Tree, ghost i: nat, ghost lo: int, ghost hi: int, ghost h: nat) returns (done: bool)
      requires PoorKid(header, child, t, i, lo, hi, h)
      modifies bm, bm.storage, CacheParts()
      ensures t.Node? && i < |t.kids| == |t.keys| + 1 && Fed(old(Seen()), Seen(), Moved(t, i, n))
      ensures i < |t.kids| == |t.keys| + 1 && done == (Choice(t, i, n).BorrowLeft? || Choice(t, i, n).BorrowRight?)
      ensures !done ==> PoorKid(header, child, t, i, lo, hi, h) && bm.live == old(bm.live) && bm.issued == old(bm.issued) && View() == old(View())
      ensures done ==> Inv() && bm.pins == {t.id, t.kids[i].id} && bm.written <= {t.id, t.kids[i].id} && bm.issued == old(bm.issued)
      ensures done ==> Held(header, t.id) && Held(child, t.kids[i].id) && Poor(t, i, lo, hi, h, C())
      ensures done ==> Turn(old(bm.live), old(View()), bm.live, View(), bm.issued, t, Repair(t, i, lo, hi, h, C()), lo, hi)
    {
      hide *;
      PartsAre();
      ConfigIs();
      PoorFacts(header, child, t, i, lo, hi, h);
      HereFacts(t, lo, hi, h);
      ChildAt(t, i);
      ChoiceIs(t, i, n);
      MovedIs(t, i, n);
      FedNone(Seen());
      var index := FindChild(bm.frames[header].page.children, bm.frames[child].pageId);
      ChildIs(bm.live, View(), t, i, index);
      PoorIntro(header, child, t, i, lo, hi, h);
      if index > 0 {
        var sibling := RequestSibling(header, child, index - 1, t, i, lo, hi, h);
        SpareIs(t.kids[index - 1], n);
        if CanDelete(bm.frames[sibling].page, n) {
          BorrowLeft(header, child, sibling, index, t, lo, hi, h);
          return true;
        }
        ReleaseSibling(header, child, sibling, index - 1, t, i, lo, hi, h);
        PoorFacts(header, child, t, i, lo, hi, h);
      }
      if index < |bm.frames[header].page.keys| {
        var sibling := RequestSibling(header, child, index + 1, t, i, lo, hi, h);
        SpareIs(t.kids[index + 1], n);
        if CanDelete(bm.frames[sibling].page, n) {
          BorrowRight(header, child, sibling, index, t, lo, hi, h);
          return true;
        }
        ReleaseSibling(header, child, sibling, index + 1, t, i, lo, hi, h);
      }
      return false;
    }

    method BorrowLeft(header: nat, child: nat, sibling: nat, index: nat, ghost t: Tree, ghost lo: int, ghost hi: int, ghost h: nat)
      requires index > 0 && Pair(header, sibling, child, t, index - 1, lo, hi, h) && Poor(t, index, lo, hi, h, C()) && bm.written == {}
      requires Choice(t, index, n).BorrowLeft?
      modifies bm, bm.storage, CacheParts()
      ensures Fed(old(Seen()), Seen(), Moved(t, index, n))
      ensures Inv() && bm.pins == {t.id, t.kids[index].id} && bm.written <= {t.id, t.kids[index].id} && bm.issued == old(bm.issued)
      ensures Held(header, t.id) && Held(child, t.kids[index].id)
      ensures Turn(old(bm.live), old(View()), bm.live, View(), bm.issued, t, Repair(t, index, lo, hi, h, C()), lo, hi)
    {
      hide *;
      PartsAre();
      ConfigIs();
      PairFacts(header, sibling, child, t, index - 1, lo, hi, h);
      MovedIs(t, index, n);
      RepairLeft(t, index, lo, hi, h, C());
      PoorNotFull(t, index, lo, hi, h, C());
      LeafOrNode(t.kids[index]);
      if bm.frames[child].page.Inner? {
        BorrowLeftInner(header, sibling, child, index, t, lo, hi, h);
        FedNone(Seen());
      } else {
        BorrowLeftOuter(header, sibling, child, index, t, lo, hi, h);
        FedSome(old(Seen()), Seen(), Moved(t, index, n).value);
      }
      LendsIs(old(bm.live), old(View()), bm.live, View(), bm.issued, t, index - 1, lo, hi);
      HeldFacts(sibling, t.kids[index - 1].id);
      Unfix(bm.frames[sibling].pageId, true);
      assert bm.pins == {t.id, t.kids[index].id};
    }

    method BorrowRight(header: nat, child: nat, sibling: nat, index: nat, ghost t: Tree, ghost lo: int, ghost hi: int, ghost h: nat)
      requires Pair(header, child, sibling, t, index, lo, hi, h) && Poor(t, index, lo, hi, h, C()) && bm.written == {}
      requires Choice(t, index, n).BorrowRight?
      modifies bm, bm.storage, CacheParts()
      ensures Fed(old(Seen()), Seen(), Moved(t, index, n))
      ensures Inv() && bm.pins == {t.id, t.kids[index].id} && bm.written <= {t.id, t.kids[index].id} && bm.issued == old(bm.issued)
      ensures Held(header, t.id) && Held(child, t.kids[index].id)
      ensures Turn(old(bm.live), old(View()), bm.live, View(), bm.issued, t, Repair(t, index, lo, hi, h, C()), lo, hi)
    {
      hide *;
      PartsAre();
      ConfigIs();
      PairFacts(header, child, sibling, t, index, lo, hi, h);
      MovedIs(t, index, n);
      RepairRight(t, index, lo, hi, h, C());
      PoorNotFull(t, index, lo, hi, h, C());
      LeafOrNode(t.kids[index]);
      if bm.frames[child].page.Inner? {
        BorrowRightInner(header, child, sibling, index, t, lo, hi, h);
        FedNone(Seen());
      } else {
        BorrowRightOuter(header, child, sibling, index, t, lo, hi, h);
        FedSome(old(Seen()), Seen(), Moved(t, index, n).value);
      }
      HeldFacts(sibling, t.kids[index + 1].id);
      Unfix(bm.frames[sibling].pageId, true);
      assert bm.pins == {t.id, t.kids[index].id};
    }

    /** merge: with the left neighbour if it cannot give, else with the right one. */
    method Merge(header: nat, child: nat, ghost t: Tree, ghost i: nat, ghost lo: int, ghost hi: int, ghost h: nat)
      requires PoorKid(header, child, t, i, lo, hi, h) && !Choice(t, i, n).BorrowLeft? && !Choice(t, i, n).BorrowRight?
      modifies bm, bm.storage, CacheParts()
      ensures Seen() == old(Seen())
      ensures Inv() && bm.pins == {t.id} && bm.written <= {t.id} && bm.issued == old(bm.issued) && Held(header, t.id) && Poor(t, i, lo, hi, h, C())
      ensures Turn(old(bm.live), old(View()), bm.live, View(), bm.issued, t, Repair(t, i, lo, hi, h, C()), lo, hi)
    {
      hide *;
      PartsAre();
      ConfigIs();
      PoorFacts(header, child, t, i, lo, hi, h);
      HereFacts(t, lo, hi, h);
      ChildAt(t, i);
      ChoiceIs(t, i, n);
      PoorKeys(t, i, lo, hi, h, C());
      var index := FindChild(bm.frames[header].page.children, bm.frames[child].pageId);
      ChildIs(bm.live, View(), t, i, index);
      PoorIntro(header, child, t, i, lo, hi, h);
      LeafOrNode(t.kids[i]);
      RepairMerge(t, i, lo, hi, h, C());
      PoorSpare(t, i, lo, hi, h, C());
      var inner := bm.frames[child].page.Inner?;
      if index > 0 {
        var sibling := RequestSibling(header, child, index - 1, t, i, lo, hi, h);
        SpareIs(t.kids[index - 1], n);
        PairFacts(header, sibling, child, t, index - 1, lo, hi, h);
        if !CanDelete(bm.frames[sibling].page, n) {
          if inner {
            MergeInner(header, sibling, child, index - 1, t, lo, hi, h);
          } else {
            MergeOuter(header, sibling, child, index - 1, t, lo, hi, h);
          }
          return;
        }
        assert false;
      } else {
        var sibling := RequestSibling(header, child, index + 1, t, i, lo, hi, h);
        SpareIs(t.kids[index + 1], n);
        PairFacts(header, child, sibling, t, index, lo, hi, h);
        if !CanDelete(bm.frames[sibling].page, n) {
          if inner {
            MergeInner(header, child, sibling, index, t, lo, hi, h);
          } else {
            MergeOuter(header, child, sibling, index, t, lo, hi, h);
          }
          return;
        }
        assert false;
      }
    }

    /** Substitute or merge, after which only the node itself is fixed. */
    method RepairChild(header: nat, child: nat, ghost t: Tree, ghost i: nat, ghost lo: int, ghost hi: int, ghost h: nat)
      requires PoorKid(header, child, t, i, lo, hi, h)
      modifies bm, bm.storage, CacheParts()
      ensures t.Node? && i < |t.kids| == |t.keys| + 1 && Fed(old(Seen()), Seen(), Moved(t, i, n))
      ensures Inv() && bm.pins == {t.id} && bm.written == {} && bm.issued == old(bm.issued) && Held(header, t.id) && Poor(t, i, lo, hi, h, C())
      ensures Turn(old(bm.live), old(View()), bm.live, View(), bm.issued, t, Repair(t, i, lo, hi, h, C()), lo, hi)
    {
      hide *;
      PartsAre();
      ConfigIs();
      PoorFacts(header, child, t, i, lo, hi, h);
      MovedIs(t, i, n);
      ghost var seen := Seen();
      var done := Substitute(header, child, t, i, lo, hi, h);
      if done {
        HeldFacts(child, t.kids[i].id);
        Unfix(bm.frames[child].pageId, true);
      } else {
        Merge(header, child, t, i, lo, hi, h);
      }
      assert bm.pins == {t.id};
      HeldFacts(header, t.id);
      MarkDirty(bm.frames[header].pageId);
      assert bm.written == {};
    }

    // ----- Deletion -----

    /** find_biggest: the key below the last one of the rightmost leaf of the fixed subtree, which is released. */
    method FindBiggestKey(header: nat, ghost other: nat, ghost t: Tree, ghost lo: int, ghost hi: int, ghost h: nat) returns (key: int)
      requires Inv() && Held(header, t.id) && bm.pins == {other, t.id} && other !in Ids(t) && bm.written == {}
      requires Rep(bm.live, t) && Disj(t) && OK(t, lo, hi, h, C()) && MinFill(t, n)
      modifies bm, bm.storage
      ensures Inv() && bm.pins == {other} && bm.written == {} && key == FindBiggest(t)
      ensures bm.live == old(bm.live) && bm.issued == old(bm.issued) && View() == old(View())
      ensures forall s, p :: old(Held(s, p)) && p in bm.pins ==> Held(s, p)
      ensures bm.DirtyIds() <= old(bm.DirtyIds())
      decreases h
    {
      hide *;
      InvFacts();
      ConfigIs();
      HeldFacts(header, t.id);
      RepPage(bm.live, t);
      LeafOrNode(t);
      OwnPage(t);
      var page := bm.frames[header].page;
      if page.Outer? {
        LeafPageOf(t);
        BiggestInLeaf(t, n);
        key := page.kv.keys[|page.kv.keys| - 2];
        SwapPin(other, t.id, t.id);
        Unfix(bm.frames[header].pageId, false);
      } else {
        NodePageOf(t);
        InnerSeg(t, lo, hi, h, C());
        ghost var i := |t.keys|;
        KidAt(t, i, lo, hi, h, C());
        KidIdsIn(bm.live, t, i);
        KidPage(bm.live, t, i);
        KidCoh(bm.live, map[], t, i) by {
          CohNone(t);
        }
        BiggestInNode(t);
        SwapPin(other, t.id, t.kids[i].id);
        var child := Request(page.children[|page.keys|]);
        HeldFacts(header, t.id);
        Unfix(bm.frames[header].pageId, false);
        key := FindBiggestKey(child, other, t.kids[i], Lo(t.keys, i, lo), Hi(t.keys, i, hi), h - 1);
      }
    }

    method DeleteInLeaf(header: nat, key: int, ghost t: Tree, ghost lo: int, ghost hi: int, ghost h: nat) returns (ghost t': Tree)
      requires Inv() && bm.pins == {t.id} && bm.written == {} && Held(header, t.id) && Here(t, lo, hi, h)
      requires t.Leaf? && lo < key <= hi
      modifies bm, bm.storage, CacheParts()
      ensures Inv() && bm.pins == {} && bm.written == {} && bm.issued == old(bm.issued)
      ensures |t.kv.keys| == |t.kv.vals| && t' == Leaf(t.id, OuterDelete(t.kv, key), t.next)
      ensures Turn(old(bm.live), old(View()), bm.live, View(), bm.issued, t, t', lo, hi)
      ensures IsKey(key) && Gone(old(Seen()), Seen(), key)
    {
      hide *;
      PartsAre();
      InvFacts();
      ConfigIs();
      HereFacts(t, lo, hi, h);
      RepPage(bm.live, t);
      LeafPageOf(t);
      HeldFacts(header, t.id);
      LeafKV(t, lo, hi, h, C());
      KVOkSorted(t.kv);
      DeleteKeys(t.kv, key);
      KeyBetween(key, lo, hi);
      var node := bm.frames[header].page;
      t' := Leaf(t.id, OuterDelete(t.kv, key), t.next);
      LeafPageOf(t');
      FewerKeys(t.kv, key);
      WritePage(header, t.id, Outer(OuterDelete(node.kv, key), node.next));
      CacheDelete(key);
      ShrinkLeafTurn(old(bm.live), old(View()), bm.live, View(), bm.issued, t, OuterDelete(t.kv, key), lo, hi);
      HeldFacts(header, t.id);
      Unfix(bm.frames[header].pageId, true);
      assert bm.pins == {} && bm.written == {};
    }

    /** recursive_delete from a fixed node: poor nodes on the way are repaired before they are entered. */
    method RecursiveDelete(header: nat, key: int, ghost t: Tree, ghost root: bool, ghost lo: int, ghost hi: int, ghost h: nat) returns (ghost t': Tree)
      requires Inv() && bm.pins == {t.id} && bm.written == {} && Held(header, t.id) && Here(t, lo, hi, h)
      requires CanDel(t, key, root, lo, hi, h, C())
      requires if root then rootId == t.id else rootId !in Ids(t) && rootId in bm.issued
      modifies this`rootId, bm, bm.storage, CacheParts()
      ensures Inv() && bm.pins == {} && bm.written == {} && bm.issued == old(bm.issued)
      ensures t' == Del(t, key, root, lo, hi, h, C())
      ensures Turn(old(bm.live), old(View()), bm.live, View(), bm.issued, t, t', lo, hi)
      ensures IsKey(key) && Gave(old(Seen()), Seen(), Lent(t, key, root, lo, hi, h, C()), key)
      ensures rootId == if root then t'.id else old(rootId)
      decreases h, if Ready(t, key, n) then 0 else 1
    {
      hide *;
      PartsAre();
      ConfigIs();
      HereFacts(t, lo, hi, h);
      RepPage(bm.live, t);
      HeldFacts(header, t.id);
      LeafOrNode(t);
      CanDelN(t, key, root, lo, hi, h, C());
      if bm.frames[header].page.Outer? {
        DelAtLeaf(t, key, root, lo, hi, h, C());
        t' := DeleteInLeaf(header, key, t, lo, hi, h);
        LentAtLeaf(t, key, root, lo, hi, h, C());
        GaveIntro(old(Seen()), Seen(), key);
      } else {
        NodePageOf(t);
        OwnPage(t);
        if rootId == bm.frames[header].pageId && bm.frames[header].page.keys == [] {
          t' := CollapseRoot(header, key, t, lo, hi, h);
        } else {
          t' := DeleteInNode(header, key, t, root, lo, hi, h);
        }
      }
    }

    /** The root becomes the child of the old one, whose page is given up. */
    method GiveUpRoot(header: nat, ghost t: Tree)
      requires Inv() && bm.pins == {t.id} && bm.written == {} && Held(header, t.id) && t.id in bm.live
      requires bm.live[t.id].Inner? && |bm.live[t.id].children| > 0
      modifies this`rootId, bm, bm.storage
      ensures Inv() && bm.pins == {} && bm.written == {} && rootId == old(bm.live)[t.id].children[0]
      ensures bm.live == old(bm.live) - {t.id} && bm.issued == old(bm.issued) && View() == old(View())
    {
      hide *;
      HeldFacts(header, t.id);
      rootId := bm.frames[header].page.children[0];
      var oldRoot := bm.frames[header].pageId;
      Unfix(oldRoot, false);
      assert bm.pins == {} && bm.written == {};
      DeletePage(oldRoot);
    }

    /** A root without keys gives way to its only child. */
    method CollapseRoot(header: nat, key: int, ghost t: Tree, ghost lo: int, ghost hi: int, ghost h: nat) returns (ghost t': Tree)
      requires Inv() && bm.pins == {t.id} && bm.written == {} && Held(header, t.id) && Here(t, lo, hi, h)
      requires CanDel(t, key, true, lo, hi, h, C()) && rootId == t.id && t.Node? && t.keys == []
      modifies this`rootId, bm, bm.storage, CacheParts()
      ensures Inv() && bm.pins == {} && bm.written == {} && bm.issued == old(bm.issued)
      ensures t' == Del(t, key, true, lo, hi, h, C()) && rootId == t'.id
      ensures Turn(old(bm.live), old(View()), bm.live, View(), bm.issued, t, t', lo, hi)
      ensures IsKey(key) && Gave(old(Seen()), Seen(), Lent(t, key, true, lo, hi, h, C()), key)
      decreases h, 0, 0
    {
      hide *;
      PartsAre();
      ConfigIs();
      HereFacts(t, lo, hi, h);
      RepPage(bm.live, t);
      HeldFacts(header, t.id);
      NodePageOf(t);
      DelAtRoot(t, key, lo, hi, h, C());
      LentAtRoot(t, key, lo, hi, h, C());
      KidPage(bm.live, t, 0);
      KidIdsIn(bm.live, t, 0);
      PinsIn();
      CollapseTurn(bm.live, View(), bm.issued, t, lo, hi);
      ghost var m, v, kid := bm.live, View(), t.kids[0];
      GiveUpRoot(header, t);
      TurnFacts(m, v, bm.live, View(), bm.issued, t, kid, lo, hi);
      CanDelN(kid, key, true, lo, hi, h - 1, C());
      ghost var m1 := bm.live;
      KidPageOf(bm.live, kid);
      var next := Request(rootId);
      assert bm.pins == {kid.id};
      HereIntro(kid, lo, hi, h - 1);
      t' := RecursiveDelete(next, key, kid, true, lo, hi, h - 1);
      TurnTrans(m, v, m1, v, bm.live, View(), bm.issued, bm.issued, t, kid, t', lo, hi);
    }

    /** Only between leaves do keys move that may be cached. */
    lemma LeafMoves(t: Tree, i: nat, lo: int, hi: int, h: nat)
      requires OK(t, lo, hi, h, C()) && t.Node? && i < |t.kids| == |t.keys| + 1
      ensures !t.kids[i].Leaf? ==> Moved(t, i, n) == None
    {
      hide *;
      MovedIs(t, i, n);
      if i > 0 {
        SameKind(t, i - 1, lo, hi, h, C());
      }
      if i < |t.keys| {
        SameKind(t, i, lo, hi, h, C());
      }
    }

    /** The inner case of recursive_delete. */
    method DeleteInNode(header: nat, key: int, ghost t: Tree, ghost root: bool, ghost lo: int, ghost hi: int, ghost h: nat) returns (ghost t': Tree)
      requires Inv() && bm.pins == {t.id} && bm.written == {} && Held(header, t.id) && Here(t, lo, hi, h)
      requires CanDel(t, key, root, lo, hi, h, C()) && t.Node? && !(root && t.keys == [])
      requires if root then rootId == t.id else rootId !in Ids(t) && rootId in bm.issued
      modifies this`rootId, bm, bm.storage, CacheParts()
      ensures Inv() && bm.pins == {} && bm.written == {} && bm.issued == old(bm.issued)
      ensures t' == Del(t, key, root, lo, hi, h, C())
      ensures Turn(old(bm.live), old(View()), bm.live, View(), bm.issued, t, t', lo, hi)
      ensures IsKey(key) && Gave(old(Seen()), Seen(), Lent(t, key, root, lo, hi, h, C()), key)
      ensures rootId == if root then t'.id else old(rootId)
      decreases h, if Ready(t, key, n) then 0 else 1, 1
    {
      hide *;
      PartsAre();
      ConfigIs();
      HereFacts(t, lo, hi, h);
      RepPage(bm.live, t);
      HeldFacts(header, t.id);
      NodePageOf(t);
      PinsIn();
      CanDelN(t, key, root, lo, hi, h, C());
      RouteRank(t, key, lo, hi, h, C());
      ghost var i, m, v := Rank(t.keys, key), bm.live, View();
      RoutedFacts(t, i, key, lo, hi);
      KidIdsIn(m, t, i);
      KidPage(m, t, i);
      SpareIs(t.kids[i], n);
      ReadyIs(t, key, n);
      assert |{t.id}| == 1;
      var nextPage := bm.frames[header].page.children[Rank(bm.frames[header].page.keys, key)];
      var child := Request(nextPage);
      assert bm.pins == {t.id, t.kids[i].id};
      HeldFacts(child, t.kids[i].id);
      HereIntro(t, lo, hi, h);
      if !CanDelete(bm.frames[child].page, n) {
        DelAtRepair(t, key, root, lo, hi, h, C());
        LentAtRepair(t, key, root, lo, hi, h, C());
        LeafMoves(t, i, lo, hi, h);
        PoorIntro(header, child, t, i, lo, hi, h);
        RepairChild(header, child, t, i, lo, hi, h);
        ghost var t1, m1, v1, s1 := Repair(t, i, lo, hi, h, C()), bm.live, View(), Seen();
        TurnFacts(m, v, m1, v1, bm.issued, t, t1, lo, hi);
        SameFlat(t, t1);
        CanDelN(t1, key, root, lo, hi, h, C());
        HereIntro(t1, lo, hi, h);
        StillOutside(rootId, Ids(t), Ids(t1), bm.issued, root);
        t' := RecursiveDelete(header, key, t1, root, lo, hi, h);
        GaveAfter(old(Seen()), s1, Seen(), Moved(t, i, n), Lent(t1, key, root, lo, hi, h, C()), key);
        TurnTrans(m, v, m1, v1, bm.live, View(), bm.issued, bm.issued, t, t1, t', lo, hi);
      } else {
        t' := DeleteInKid(header, child, nextPage, key, t, root, lo, hi, h);
      }
    }

    /** The kid i that the key belongs to can give a key; a separator equal to the key is exchanged on the way. */
    method DeleteInKid(header: nat, child: nat, nextPage: nat, key: int, ghost t: Tree, ghost root: bool, ghost lo: int, ghost hi: int, ghost h: nat) returns (ghost t': Tree)
      requires Inv() && Here(t, lo, hi, h) && CanDel(t, key, root, lo, hi, h, C()) && t.Node? && !(root && t.keys == []) && Ready(t, key, n)
      requires |t.kids| == |t.keys| + 1 && nextPage == t.kids[Rank(t.keys, key)].id && Held(header, t.id) && Held(child, nextPage)
      requires bm.pins == {t.id, nextPage} && bm.written == {}
      requires if root then rootId == t.id else rootId !in Ids(t) && rootId in bm.issued
      modifies this`rootId, bm, bm.storage, CacheParts()
      ensures Inv() && bm.pins == {} && bm.written == {} && bm.issued == old(bm.issued)
      ensures t' == Del(t, key, root, lo, hi, h, C())
      ensures Turn(old(bm.live), old(View()), bm.live, View(), bm.issued, t, t', lo, hi)
      ensures IsKey(key) && Gave(old(Seen()), Seen(), Lent(t, key, root, lo, hi, h, C()), key)
      ensures rootId == old(rootId) && t'.id == t.id
      decreases h, 0, 0
    {
      hide *;
      PartsAre();
      InvFacts();
      ConfigIs();
      HereFacts(t, lo, hi, h);
      HeldFacts(header, t.id);
      PinsIn();
      DelAtKid(t, key, root, lo, hi, h, C());
      LentAtKid(t, key, root, lo, hi, h, C());
      ghost var i, m, v := Rank(t.keys, key), bm.live, View();
      ghost var kid, l0, h0 := t.kids[i], Lo(t.keys, i, lo), Hi(t.keys, i, hi);
      RoutedFacts(t, i, key, lo, hi);
      KidIdsIn(m, t, i);
      KidCoh(m, v, t, i);
      KidAt(t, i, lo, hi, h, C());
      RangeOf(t, i, i, lo, hi, h, C());
      CanDelN(kid, key, false, l0, h0, h - 1, C());
      var child' := ExchangeKey(header, child, nextPage, key, t, i, lo, hi, h);
      ghost var m1 := bm.live;
      KidAside(m, t, kid, PageOf(Node(t.id, Exchanged(t, i, key), t.kids)));
      HereIntro(kid, l0, h0, h - 1);
      RootNotIn(rootId, t.id, Ids(t), Ids(kid), root);
      ghost var kid' := RecursiveDelete(child', key, kid, false, l0, h0, h - 1);
      DelFlat(kid, key, false, l0, h0, h - 1, C());
      DelSameFacts(kid, kid', key, false);
      TurnKidVia(m, v, m1, bm.live, View(), bm.issued, t, i, kid', Exchanged(t, i, key), lo, hi, h, C());
      t' := Node(t.id, Exchanged(t, i, key), t.kids[i := kid']);
    }

    /** exchange, with the key find_biggest returns, and the release of the node. */
    method ExchangeKey(header: nat, child: nat, nextPage: nat, key: int, ghost t: Tree, ghost i: nat, ghost lo: int, ghost hi: int, ghost h: nat) returns (child': nat)
      requires Inv() && Rep(bm.live, t) && Disj(t) && OK(t, lo, hi, h, C()) && t.Node? && i < |t.kids| == |t.keys| + 1 && i == Rank(t.keys, key)
      requires nextPage == t.kids[i].id && Held(header, t.id) && Held(child, nextPage) && bm.pins == {t.id, nextPage} && bm.written == {}
      modifies bm, bm.storage
      ensures Inv() && bm.pins == {nextPage} && bm.written == {} && bm.issued == old(bm.issued) && View() == old(View())
      ensures Held(child', nextPage)
      ensures bm.live == old(bm.live)[t.id := PageOf(Node(t.id, Exchanged(t, i, key), t.kids))]
      ensures bm.DirtyIds() <= old(bm.DirtyIds()) + if Contains(t.keys, key) then {t.id} else {}
    {
      hide *;
      InvFacts();
      ConfigIs();
      HeldFacts(header, t.id);
      RepPage(bm.live, t);
      NodePageOf(t);
      KidIdsIn(bm.live, t, i);
      KidPage(bm.live, t, i);
      KidAt(t, i, lo, hi, h, C());
      KidCoh(bm.live, map[], t, i) by {
        CohNone(t);
      }
      ExchangedIs(t, i, key);
      var page := bm.frames[header].page;
      child' := child;
      var dirty := false;
      if Contains(page.keys, key) {
        var big := FindBiggestKey(child, t.id, t.kids[i], Lo(t.keys, i, lo), Hi(t.keys, i, hi), h - 1);
        NotLeafPage(bm.live, t.id);
        WritePage(header, t.id, Inner(page.keys[Rank(page.keys, key) := big], page.children));
        assert |{t.id}| == 1;
        child' := Request(nextPage);
        dirty := true;
      } else {
        SameWrite(bm.live, t.id);
      }
      HeldFacts(header, t.id);
      Unfix(bm.frames[header].pageId, dirty);
      assert bm.pins == {nextPage} && bm.written == {};
    }

    /**
     * delete_value: the pages then hold the tree Del describes. If the key is
     * stored or no stale separator equals it, and so always without a cache, that
     * is the old tree without the key, with all invariants.
     */
    method Delete(key: int)
      requires Valid() && IsKey(key)
      modifies this, bm, bm.storage, CacheParts()
      ensures CanDel(old(tree), key, true, LOW, INT64_MAX, old(height), C())
      ensures Settled() && tree == Del(old(tree), key, true, LOW, INT64_MAX, old(height), C()) && bm.issued == old(bm.issued)
      ensures KVOk(Flat(old(tree))) && Flat(tree) == OuterDelete(Flat(old(tree)), key)
      ensures Valid() <==> Clean(old(tree), key, true, LOW, INT64_MAX, old(height), C())
      ensures cache == null ==> Valid()
      ensures Gave(old(Seen()), Seen(), Lent(old(tree), key, true, LOW, INT64_MAX, old(height), C()), key) && (cache != null ==> key !in cache.Contents())
    {
      hide *;
      PartsAre();
      ValidFacts();
      InvFacts();
      ConfigIs();
      Radix.KeyIs(key);
      OwnPage(tree);
      PinsIn();
      CanDelRoot(tree, key, LOW, INT64_MAX, height, C());
      ghost var t := tree;
      var header := Request(rootId);
      HereIntro(tree, LOW, INT64_MAX, height);
      assert bm.pins == {tree.id};
      ghost var t' := RecursiveDelete(header, key, t, true, LOW, INT64_MAX, height);
      GaveOut(old(Seen()), Lent(t, key, true, LOW, INT64_MAX, height, C()), key);
      DelFlat(t, key, true, LOW, INT64_MAX, height, C());
      DelSameFacts(t, t', key, true);
      ghost var h' := height;
      if cache == null {
        ExactIsClean(t, key, true, LOW, INT64_MAX, height, C());
      }
      if Clean(t, key, true, LOW, INT64_MAX, height, C()) {
        h' := DelOK(t, key, true, LOW, INT64_MAX, height, C());
      }
      SettledAfter(t', h', old(bm.live), old(View()), old(bm.issued));
      if Clean(t, key, true, LOW, INT64_MAX, old(height), C()) {
        ValidIntro();
      } else if Valid() {
        ValidFacts();
        UncleanBreaks(t, key, LOW, INT64_MAX, old(height), height, C());
      }
    }

    // ----- Lookup, update and scan: descents that keep the shape -----

    /** Fix the child the key belongs to and release the node. */
    method StepDown(header: nat, key: int, ghost t: Tree, ghost lo: int, ghost hi: int, ghost h: nat) returns (child: nat)
      requires Inv() && bm.pins == {t.id} && bm.written == {} && Held(header, t.id) && Rep(bm.live, t) && Disj(t)
      requires t.Node? && OK(t, lo, hi, h, C()) && lo < key <= hi
      modifies bm, bm.storage
      ensures h > 0 && |t.kids| == |t.keys| + 1
      ensures
        var i := Rank(t.keys, key);
        && Held(child, t.kids[i].id) && bm.pins == {t.kids[i].id} && Rep(bm.live, t.kids[i]) && Disj(t.kids[i])
        && OK(t.kids[i], Lo(t.keys, i, lo), Hi(t.keys, i, hi), h - 1, C()) && Lo(t.keys, i, lo) < key <= Hi(t.keys, i, hi)
        && LeafOf(t, key) == LeafOf(t.kids[i], key)
      ensures Inv() && bm.written == {} && bm.live == old(bm.live) && bm.issued == old(bm.issued) && View() == old(View()) && bm.stuck == old(bm.stuck)
      ensures bm.DirtyIds() <= old(bm.DirtyIds())
    {
      hide *;
      ConfigIs();
      HeldFacts(header, t.id);
      RepPage(bm.live, t);
      NodePageOf(t);
      LeafOfNode(t, key, EMPTY, lo, hi, h, C());
      ghost var i := Rank(t.keys, key);
      KidIdsIn(bm.live, t, i);
      KidPage(bm.live, t, i);
      KidCoh(bm.live, map[], t, i) by {
        CohNone(t);
      }
      assert |{t.id}| == 1;
      child := Request(bm.frames[header].page.children[Rank(bm.frames[header].page.keys, key)]);
      HeldFacts(header, t.id);
      Unfix(bm.frames[header].pageId, false);
      assert bm.pins == {t.kids[i].id};
      assert bm.written == {};
    }

    /** recursive_get_value: a value found is entered into the cache with its leaf. */
    method RecursiveGetValue(header: nat, key: int, ghost t: Tree, ghost lo: int, ghost hi: int, ghost h: nat) returns (value: Value)
      requires Inv() && bm.pins == {t.id} && bm.written == {} && Held(header, t.id) && Rep(bm.live, t) && Disj(t)
      requires OK(t, lo, hi, h, C()) && lo < key <= hi && IsKey(key)
      modifies bm, bm.storage, CacheParts()
      ensures Inv() && bm.pins == {} && bm.written == {} && bm.live == old(bm.live) && bm.issued == old(bm.issued)
      ensures LeafOf(t, key).Leaf? && KVOk(LeafOf(t, key).kv) && value == OuterGet(LeafOf(t, key).kv, key)
      ensures if value != ABSENT then Took(old(Seen()), Seen(), key) && Points(key) else Seen() == old(Seen())
      ensures Cached(old(View()), View(), key, LeafOf(t, key).id)
      ensures bm.DirtyIds() <= old(bm.DirtyIds())
      decreases h
    {
      hide *;
      PartsAre();
      ConfigIs();
      HeldFacts(header, t.id);
      RepPage(bm.live, t);
      LeafOrNode(t);
      if bm.frames[header].page.Outer? {
        LeafPageOf(t);
        LeafKV(t, lo, hi, h, C());
        KVOkSorted(t.kv);
        LeafOfLeaf(t, key, EMPTY);
        value := OuterGet(bm.frames[header].page.kv, key);
        CachedLess(View(), View(), key, t.id);
        if value != ABSENT {
          NowLeafPage(bm.live, t.id);
          CacheInsert(key, header, t.id);
          CachedPut(old(View()), View(), key, Entry(t.id, header));
        }
        HeldFacts(header, t.id);
        Unfix(bm.frames[header].pageId, false);
        assert bm.pins == {} && bm.written == {};
      } else {
        var child := StepDown(header, key, t, lo, hi, h);
        ghost var i := Rank(t.keys, key);
        value := RecursiveGetValue(child, key, t.kids[i], Lo(t.keys, i, lo), Hi(t.keys, i, hi), h - 1);
      }
    }

    /** get_value: the value of the key in the tree, INT64_MIN if it has none. */
    method GetValue(key: int) returns (value: Value)
      requires Valid() && IsKey(key)
      modifies bm, bm.storage, CacheParts()
      ensures Valid() && bm.live == old(bm.live) && bm.issued == old(bm.issued)
      ensures if value != ABSENT then Took(old(Seen()), Seen(), key) && Points(key) else Seen() == old(Seen())
      ensures KVOk(Flat(tree)) && value == OuterGet(Flat(tree), key)
      ensures bm.DirtyIds() <= old(bm.DirtyIds())
    {
      hide *;
      PartsAre();
      ValidFacts();
      ConfigIs();
      InvFacts();
      Radix.KeyIs(key);
      OwnPage(tree);
      var header := Request(rootId);
      assert bm.pins == {tree.id};
      value := RecursiveGetValue(header, key, tree, LOW, INT64_MAX, height);
      LeafSearch(tree, key, LOW, INT64_MAX, height, C());
      SameLeaf(old(bm.live), old(View()), View(), tree, key, LOW, INT64_MAX, height, C());
      StoredIntro(tree);
      SettledIntro();
      ValidIntro();
    }

    /** update_recursive: the key is entered into the cache with its leaf, also when it is not stored. */
    method RecursiveUpdate(header: nat, key: int, value: Value, ghost t: Tree, ghost lo: int, ghost hi: int, ghost h: nat)
      requires Inv() && bm.pins == {t.id} && bm.written == {} && Held(header, t.id) && Rep(bm.live, t) && Disj(t)
      requires OK(t, lo, hi, h, C()) && lo < key <= hi && IsKey(key)
      modifies bm, bm.storage, CacheParts()
      ensures Inv() && bm.pins == {} && bm.written == {} && bm.issued == old(bm.issued)
      ensures LeafOf(t, key).Leaf? && |LeafOf(t, key).kv.keys| == |LeafOf(t, key).kv.vals|
      ensures bm.live == old(bm.live)[LeafOf(t, key).id := Outer(OuterUpdate(LeafOf(t, key).kv, key, value), LeafOf(t, key).next)]
      ensures Cached(old(View()), View(), key, LeafOf(t, key).id) && Took(old(Seen()), Seen(), key) && Points(key)
      ensures bm.DirtyIds() <= old(bm.DirtyIds()) + {LeafOf(t, key).id}
      decreases h
    {
      hide *;
      PartsAre();
      ConfigIs();
      HeldFacts(header, t.id);
      RepPage(bm.live, t);
      LeafOrNode(t);
      if bm.frames[header].page.Outer? {
        LeafPageOf(t);
        LeafKV(t, lo, hi, h, C());
        KVOkSorted(t.kv);
        LeafOfLeaf(t, key, EMPTY);
        UpdateKeys(t.kv, key, value);
        var node := bm.frames[header].page;
        WritePage(header, t.id, Outer(OuterUpdate(node.kv, key, value), node.next));
        NowLeafPage(bm.live, t.id);
        CacheInsert(key, header, t.id);
        CachedPut(old(View()), View(), key, Entry(t.id, header));
        HeldFacts(header, t.id);
        Unfix(bm.frames[header].pageId, true);
        assert bm.pins == {} && bm.written == {};
      } else {
        var child := StepDown(header, key, t, lo, hi, h);
        ghost var i := Rank(t.keys, key);
        RecursiveUpdate(child, key, value, t.kids[i], Lo(t.keys, i, lo), Hi(t.keys, i, hi), h - 1);
      }
    }

    /** update: the value of a stored key changes; nothing happens to the pairs for any other key. */
    method Update(key: int, value: Value)
      requires Valid() && IsKey(key)
      modifies this, bm, bm.storage, CacheParts()
      ensures Valid() && bm.issued == old(bm.issued) && Took(old(Seen()), Seen(), key) && Points(key)
      ensures LeafOf(old(tree), key).Leaf? && |LeafOf(old(tree), key).kv.keys| == |LeafOf(old(tree), key).kv.vals|
      ensures tree == SetKV(old(tree), key, OuterUpdate(LeafOf(old(tree), key).kv, key, value)) && height == old(height)
      ensures KVOk(Flat(old(tree))) && Flat(tree) == OuterUpdate(Flat(old(tree)), key, value)
      ensures bm.DirtyIds() <= old(bm.DirtyIds()) + {LeafOf(old(tree), key).id}
    {
      hide *;
      PartsAre();
      ValidFacts();
      ConfigIs();
      InvFacts();
      PinsIn();
      Radix.KeyIs(key);
      OwnPage(tree);
      ghost var t, leaf := tree, LeafOf(tree, key);
      LeafOfIs(t, key, LOW, INT64_MAX, height, C());
      UpdateSwaps(leaf.kv, key, value, C());
      SwapFacts(leaf.kv, OuterUpdate(leaf.kv, key, value), C());
      var header := Request(rootId);
      assert bm.pins == {tree.id};
      RecursiveUpdate(header, key, value, t, LOW, INT64_MAX, height);
      SetTurn(old(bm.live), old(View()), View(), old(bm.issued), t, key, OuterUpdate(leaf.kv, key, value), LOW, INT64_MAX, height, C());
      SetOK(t, key, OuterUpdate(leaf.kv, key, value), LOW, INT64_MAX, height, C());
      SetUpdate(t, key, value, LOW, INT64_MAX, height, C());
      ShellFacts(t, SetKV(t, key, OuterUpdate(leaf.kv, key, value)), C());
      SettledAfter(SetKV(t, key, OuterUpdate(leaf.kv, key, value)), height, old(bm.live), old(View()), old(bm.issued));
      ValidIntro();
    }

    /**
     * scan_recursive: down to the leaf of the key; if that passes the test of the scan,
     * the key is entered into the cache and the chain is walked.
     */
    method RecursiveScan(header: nat, key: int, range: int, slot: nat -> int, ghost t: Tree, ghost lo: int, ghost hi: int, ghost h: nat, ghost ids: seq<nat>) returns (sum: Option<Value>)
      requires Inv() && bm.pins == {t.id} && bm.written == {} && Held(header, t.id) && Rep(bm.live, t) && Disj(t)
      requires OK(t, lo, hi, h, C()) && lo < key <= hi && IsKey(key) && LeafOf(t, key).Leaf?
      requires TreeOperations.LeafChain(bm.live, ids) && ids[0] == LeafOf(t, key).id
      modifies bm, bm.storage, CacheParts()
      ensures (bm.Room(3) ==> Inv()) && bm.written == {} && bm.live == old(bm.live) && bm.issued == old(bm.issued)
      ensures Cached(old(View()), View(), key, LeafOf(t, key).id)
      ensures if TreeOperations.Passes(LeafOf(t, key).kv.keys, key, slot(LeafOf(t, key).id)) then Took(old(Seen()), Seen(), key) else Seen() == old(Seen())
      ensures Rank(LeafOf(t, key).kv.keys, key) <= |TreeOperations.ChainVals(bm.live, ids)|
      ensures
        var leaf := LeafOf(t, key);
        var pass := TreeOperations.Passes(leaf.kv.keys, key, slot(leaf.id));
        && (sum.None? <==> !pass && bm.asserts) && (!pass && !bm.asserts ==> sum == Some(ABSENT))
        && bm.pins == (if sum.None? then {leaf.id} else {}) && bm.stuck == old(bm.stuck) + (if pass || bm.asserts then {} else {leaf.id})
        && (pass ==> sum == Some(TreeOperations.Reported(TreeOperations.Xor(TreeOperations.ChainVals(bm.live, ids)[Rank(leaf.kv.keys, key)..], range))))
      ensures bm.DirtyIds() <= old(bm.DirtyIds())
      decreases h
    {
      hide *;
      PartsAre();
      ConfigIs();
      InvFacts();
      HeldFacts(header, t.id);
      RepPage(bm.live, t);
      LeafOrNode(t);
      if bm.frames[header].page.Outer? {
        LeafPageOf(t);
        LeafKV(t, lo, hi, h, C());
        KVOkSorted(t.kv);
        LeafOfLeaf(t, key, EMPTY);
        CachedLess(View(), View(), key, t.id);
        TreeOperations.AheadNext(bm.live, ids);
        sum := ScanAt(header, key, range, slot, t, ids);
      } else {
        var child := StepDown(header, key, t, lo, hi, h);
        ghost var i := Rank(t.keys, key);
        sum := RecursiveScan(child, key, range, slot, t.kids[i], Lo(t.keys, i, lo), Hi(t.keys, i, hi), h - 1, ids);
      }
    }

    /** The scan from its first leaf. */
    method ScanAt(header: nat, key: int, range: int, slot: nat -> int, ghost t: Tree, ghost ids: seq<nat>) returns (sum: Option<Value>)
      requires Inv() && bm.pins == {t.id} && bm.written == {} && Held(header, t.id) && t.Leaf? && bm.live[t.id] == Outer(t.kv, t.next)
      requires IsKey(key) && KVOk(t.kv) && |t.kv.keys| == |t.kv.vals| && TreeOperations.LeafChain(bm.live, ids) && ids[0] == t.id
      modifies bm, bm.storage, CacheParts()
      ensures (bm.Room(3) ==> Inv()) && bm.written == {} && bm.live == old(bm.live) && bm.issued == old(bm.issued)
      ensures Cached(old(View()), View(), key, t.id)
      ensures if TreeOperations.Passes(t.kv.keys, key, slot(t.id)) then Took(old(Seen()), Seen(), key) else Seen() == old(Seen())
      ensures Rank(t.kv.keys, key) <= |TreeOperations.ChainVals(bm.live, ids)|
      ensures
        var pass := TreeOperations.Passes(t.kv.keys, key, slot(t.id));
        && (sum.None? <==> !pass && bm.asserts) && (!pass && !bm.asserts ==> sum == Some(ABSENT))
        && bm.pins == (if sum.None? then {t.id} else {}) && bm.stuck == old(bm.stuck) + (if pass || bm.asserts then {} else {t.id})
        && (pass ==> sum == Some(TreeOperations.Reported(TreeOperations.Xor(TreeOperations.ChainVals(bm.live, ids)[Rank(t.kv.keys, key)..], range))))
      ensures bm.DirtyIds() <= old(bm.DirtyIds())
    {
      hide *;
      PartsAre();
      InvFacts();
      HeldFacts(header, t.id);
      CachedLess(View(), View(), key, t.id);
      TreeOperations.AheadNext(bm.live, ids);
      assert bm.stuck + {} == bm.stuck;
      var keys := bm.frames[header].page.kv.keys;
      if TreeOperations.Passes(keys, key, slot(bm.frames[header].pageId)) {
        NowLeafPage(bm.live, t.id);
        CacheInsert(key, header, t.id);
        CachedPut(old(View()), View(), key, Entry(t.id, header));
        var total := ScanLeaves(header, Rank(keys, key), range, t, ids);
        return Some(total);
      }
      sum := TreeOperations.Fail(bm, t.id);
      if bm.Room(3) {
        InvIntro();
      }
    }

    method ScanLeaves(header: nat, start: nat, range: int, ghost t: Tree, ghost ids: seq<nat>) returns (sum: Value)
      requires Inv() && bm.pins == {t.id} && bm.written == {} && Held(header, t.id) && t.Leaf? && bm.live[t.id] == Outer(t.kv, t.next)
      requires start <= |t.kv.keys| && TreeOperations.LeafChain(bm.live, ids) && ids[0] == t.id
      modifies bm, bm.storage
      ensures Inv() && bm.pins == {} && bm.written == {} && bm.live == old(bm.live) && bm.issued == old(bm.issued) && View() == old(View())
      ensures bm.stuck == old(bm.stuck)
      ensures start <= |TreeOperations.ChainVals(bm.live, ids)|
      ensures sum == TreeOperations.Reported(TreeOperations.Xor(TreeOperations.ChainVals(bm.live, ids)[start..], range))
      ensures bm.DirtyIds() <= old(bm.DirtyIds())
    {
      hide *;
      InvFacts();
      HeldAt(header, t.id);
      bm.RoomIs(2);
      bm.RoomIs(3);
      Radix.LeavesSame(bm.live, bm.issued);
      label Start: sum := TreeOperations.Walk(bm, header, start, range, ids);
      LinksKept@Start();
    }

    /** The leaf the key leads to passes the test of a scan. */
    ghost predicate Passes(key: int, slot: nat -> int)
      reads this`tree
    {
      LeafOf(tree, key).Leaf? && TreeOperations.Passes(LeafOf(tree, key).kv.keys, key, slot(LeafOf(tree, key).id))
    }

    lemma PassesIs(key: int, slot: nat -> int)
      ensures Passes(key, slot) <==> LeafOf(tree, key).Leaf? && TreeOperations.Passes(LeafOf(tree, key).kv.keys, key, slot(LeafOf(tree, key).id))
    {
    }

    /**
     * scan: if the key's leaf passes the test, the XOR of the values of the first range
     * keys from the given one on, or of all of them if there are fewer, with INT64_MIN
     * replaced. A stored key passes. Otherwise the assertion fails with one page still
     * fixed, or in a build without assertions the answer is INT64_MIN and the leaf
     * is never released.
     */
    method Scan(key: int, range: int, slot: nat -> int) returns (sum: Option<Value>)
      requires Valid() && IsKey(key)
      modifies bm, bm.storage, CacheParts()
      ensures bm.live == old(bm.live) && bm.issued == old(bm.issued) && bm.pins == if sum.None? then {LeafOf(tree, key).id} else {}
      ensures KVOk(Flat(tree)) && (key in Flat(tree).keys ==> Passes(key, slot)) && (sum.Some? && bm.Room(3) ==> Valid())
      ensures (sum.None? <==> !Passes(key, slot) && bm.asserts) && (!Passes(key, slot) && !bm.asserts ==> sum == Some(ABSENT))
      ensures bm.stuck == old(bm.stuck) + if Passes(key, slot) || bm.asserts then {} else {LeafOf(tree, key).id}
      ensures if Passes(key, slot) then Took(old(Seen()), Seen(), key) else Seen() == old(Seen())
      ensures Rank(Flat(tree).keys, key) <= |Flat(tree).vals|
      ensures Passes(key, slot) ==> sum == Some(TreeOperations.Reported(TreeOperations.Xor(Flat(tree).vals[Rank(Flat(tree).keys, key)..], range)))
      ensures bm.DirtyIds() <= old(bm.DirtyIds())
    {
      hide *;
      PartsAre();
      ValidFacts();
      ConfigIs();
      InvFacts();
      PinsIn();
      Radix.KeyIs(key);
      OwnPage(tree);
      PassesIs(key, slot);
      BTreeChain.ScanChain(bm.live, tree, key, LOW, INT64_MAX, height, C());
      LeafSearch(tree, key, LOW, INT64_MAX, height, C());
      KVOkSorted(Flat(tree));
      ContainsIn(Flat(tree).keys, key);
      var header := Request(rootId);
      assert bm.pins == {tree.id};
      sum := RecursiveScan(header, key, range, slot, tree, LOW, INT64_MAX, height, From(tree, key));
      if sum.Some? && bm.Room(3) {
        SameLeaf(old(bm.live), old(View()), View(), tree, key, LOW, INT64_MAX, height, C());
        StoredIntro(tree);
        SettledIntro();
        ValidIntro();
      }
    }

    lemma PinsIn()
      requires Inv()
      ensures bm.pins <= bm.live.Keys <= bm.issued && 0 !in bm.live
    {
      bm.PinsLive();
    }

    lemma HeldFacts(s: nat, id: nat)
      requires Held(s, id)
      ensures id in bm.pins && id in bm.live && s < |bm.frames| && bm.frames[s].pageId == id && bm.frames[s].page == bm.live[id]
    {
    }

    /** Pinned pages that stay pinned stay in their frames. */
    twostate lemma AllHeld()
      requires bm.Valid() && (bm.PinsStay() || bm.pageIdMap == old(bm.pageIdMap))
      ensures forall s, p :: old(Held(s, p)) && p in bm.pins ==> Held(s, p)
    {
      bm.PinsLive();
      forall s, p | old(Held(s, p)) && p in bm.pins ensures Held(s, p) {
        bm.FrameOf(p);
      }
    }

    lemma InvFacts()
      requires Inv()
      ensures n >= 4 && bm.Room(3) && bm.Valid()
      ensures cache != null ==> cache.bm == bm && cache.n == n && cache.Valid() && cache.LinksOk()
    {
    }

    lemma InvIntro()
      requires n >= 4 && bm.Room(3) && bm.Valid()
      requires cache != null ==> cache.bm == bm && cache.n == n && cache.Valid() && cache.LinksOk()
      ensures Inv()
    {
    }

    lemma HeldIntro(s: nat, id: nat)
      requires id in bm.pins && id in bm.live && bm.At(s, id)
      requires s < |bm.frames| && bm.frames[s].pageId == id && bm.frames[s].page == bm.live[id]
      ensures Held(s, id)
    {
    }

    lemma HeldAt(s: nat, id: nat)
      requires Held(s, id)
      ensures bm.At(s, id) && id in bm.live && id in bm.pins
    {
    }

    lemma ViewIs()
      ensures View() == if cache == null || cache.refused then map[] else cache.Contents()
    {
    }

    twostate lemma LinksKept()
      requires old(Inv()) && bm.Valid() && bm.Room(3) && old(|bm.frames|) <= |bm.frames| && old(bm.issued) <= bm.issued
      requires cache != null ==> cache.Valid() && cache.tree == old(cache.tree)
      requires Radix.LeavesStay(old(bm.live), bm.live, old(bm.issued))
      ensures Inv()
    {
      hide Radix.MapOf, Radix.Links, BufferManager.Valid, Radix.LeavesStay, Radix.RadixTree.Valid;
      if cache != null {
        hide Radix.RadixTree.LinksOk;
        cache.LinksStay();
      }
    }
  }

  lemma NonePinned(none: set<nat>, id: nat)
    requires none == {}
    ensures none + {id} == {id} && {id} - {id} == none && none - {id} == none && none + {} == none
  {
  }

  lemma FirstPage(id: nat, p: Page, p': Page)
    ensures map[id := p][id := p'] == map[id := p'] && map[][id := p] == map[id := p] && map[][id := p'] == map[id := p']
  {
  }

  lemma SplitRootNode(t: Tree, rid: nat, id: nat, n: nat)
    requires n >= 4 && CutAt(t, KeepCount(t, n))
    ensures SplitRoot(t, rid, id, n).Node?
  {
  }

  /** A leaf at its minimum fill can spare a key once one was inserted. */
  lemma LeafGains(t: Tree, key: int, value: Value, n: nat)
    requires t.Leaf? && KVOk(t.kv)
    ensures MinFill(t, n) ==> Spare(LeafOf(Leaf(t.id, OuterInsert(t.kv, key, value), t.next), key), n)
  {
  }

  /** Kid j of t lent its last pair or child to kid j + 1. */
  ghost predicate Lends(m: Store, v: View, m': Store, v': View, used: set<nat>, t: Tree, j: nat, lo: int, hi: int) {
    && t.Node? && |t.kids| == |t.keys| + 1 && j < |t.keys| && Size(t.kids[j]) > 0 && CutAt(Both(t, j), Size(t.kids[j]) - 1)
    && Turn(m, v, m', v', used, t, Rebalance(t, j, Size(t.kids[j]) - 1), lo, hi)
  }

  lemma LendsIs(m: Store, v: View, m': Store, v': View, used: set<nat>, t: Tree, j: nat, lo: int, hi: int)
    ensures Lends(m, v, m', v', used, t, j, lo, hi) <==>
      (&& t.Node? && |t.kids| == |t.keys| + 1 && j < |t.keys| && Size(t.kids[j]) > 0 && CutAt(Both(t, j), Size(t.kids[j]) - 1)
       && Turn(m, v, m', v', used, t, Rebalance(t, j, Size(t.kids[j]) - 1), lo, hi))
  {
  }

  lemma InsertPaired(kv: KV, k: int, v: Value)
    requires |kv.keys| == |kv.vals|
    ensures |OuterInsert(kv, k, v).keys| == |OuterInsert(kv, k, v).vals|
  {
  }

  lemma DeletePaired(kv: KV, k: int)
    requires |kv.keys| == |kv.vals|
    ensures |OuterDelete(kv, k).keys| == |OuterDelete(kv, k).vals|
  {
  }

  lemma LeafBelow(t: Tree, i: nat, kid: Tree, key: int, lo: int, hi: int, h: nat, c: Cfg)
    requires t.Node? && i < |t.kids| && Routed(t, i, key, lo, hi) && OK(t, lo, hi, h, c)
    ensures LeafOf(Node(t.id, t.keys, t.kids[i := kid]), key) == LeafOf(kid, key)
  {
    hide OK, Routed;
    SortedKeys(t, lo, hi, h, c);
    SegKeysSorted(t.keys, lo, hi);
    RankRoute(t, i, key, lo, hi);
  }

  lemma LinksPut(m: View, m': View, key: int, e: Entry, frames: nat, issued: set<nat>, live: map<nat, Page>)
    requires Radix.Links(m, frames, issued, live) && Radix.LeafPage(live, e.pageId) && e.frame < frames && live.Keys <= issued && 0 !in live
    requires m' == m[key := e] || forall k :: k in m' ==> k in m && m'[k] == m[k]
    ensures Radix.Links(m', frames, issued, live)
  {
  }

  lemma LinksRepoint(m: View, from: int, to: int, e: Entry, frames: nat, issued: set<nat>, live: map<nat, Page>)
    requires Radix.Links(m, frames, issued, live) && Radix.LeafPage(live, e.pageId) && e.frame < frames && live.Keys <= issued && 0 !in live
    ensures Radix.Links(Repoint(m, from, to, e), frames, issued, live)
  {
  }

  lemma EmptyLeafPage(live: map<nat, Page>, id: nat)
    requires id in live && live[id] == Outer(EMPTY, 0)
    ensures Radix.LeafPage(live, id)
  {
  }

  lemma NotLeafPage(live: map<nat, Page>, id: nat)
    ensures id in live && live[id].Inner? ==> !Radix.LeafPage(live, id)
  {
  }

  lemma LeafPageIntro(live: map<nat, Page>, t: Tree)
    requires t.Leaf? && t.id in live && live[t.id] == PageOf(t) && |t.kv.keys| == |t.kv.vals|
    ensures Radix.LeafPage(live, t.id)
  {
  }

  lemma NowLeafPage(live: map<nat, Page>, id: nat)
    requires id in live && live[id].Outer? && KVOk(live[id].kv)
    ensures Radix.LeafPage(live, id)
  {
  }

  lemma LeavesWrite(live: map<nat, Page>, issued: set<nat>, id: nat, page: Page)
    requires id in live && (Radix.LeafPage(live, id) ==> page.Outer? && |page.kv.keys| == |page.kv.vals|)
    ensures Radix.LeavesStay(live, live[id := page], issued)
  {
  }

  lemma LeavesDelete(live: map<nat, Page>, issued: set<nat>, id: nat)
    ensures Radix.LeavesStay(live, live - {id}, issued)
  {
  }

  lemma LeavesNew(live: map<nat, Page>, issued: set<nat>, id: nat, page: Page)
    requires id !in issued
    ensures Radix.LeavesStay(live, live[id := page], issued)
  {
  }
}
