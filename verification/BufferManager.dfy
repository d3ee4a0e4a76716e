/**
 * The buffer manager (buffer_manager.cc): a bounded set of frames over the
 * disk, with pins, dirty bits and second-chance eviction. A pointer to a frame
 * is its number. To its clients it is the map `live` from page ids to contents.
 */
module Buffer {
  import opened Common
  import opened Pages
  import opened Storage

  datatype BFrame = BFrame(fixCount: nat, dirty: bool, marked: bool, pageId: nat, page: Page)

  /** No frame: the table describes all of them. */
  const NONE: int := -1

  /** table and owner are inverse to each other, except that the frame `hole` belongs to no page. */
  ghost predicate Table(table: map<nat, nat>, owner: seq<nat>, hole: int) {
    && (forall id :: id in table ==> table[id] < |owner| && table[id] != hole && owner[table[id]] == id)
    && (forall s :: 0 <= s < |owner| && s != hole ==> owner[s] in table && table[owner[s]] == s)
    && |table| + (if 0 <= hole < |owner| then 1 else 0) == |owner|
  }

  /** Frame f of page id against the live contents, the pins and the disk. A stuck page has fixes that nobody will release. */
  ghost predicate FrameOk(f: BFrame, id: nat, live: map<nat, Page>, pins: set<nat>, stuck: set<nat>, written: set<nat>, saved: map<nat, Page>) {
    if id in live then
      && f.pageId == id && f.page == live[id]
      && (if id in stuck then f.fixCount > (if id in pins then 1 else 0) else f.fixCount == (if id in pins then 1 else 0))
      && (f.dirty || id in written || (id in saved && saved[id] == live[id]))
    else
      f.pageId == 0 && f.fixCount == 0 && !f.dirty
  }

  ghost predicate FramesOk(table: map<nat, nat>, frames: seq<BFrame>, live: map<nat, Page>, pins: set<nat>, stuck: set<nat>, written: set<nat>, saved: map<nat, Page>) {
    forall id :: id in table ==> table[id] < |frames| && FrameOk(frames[table[id]], id, live, pins, stuck, written, saved)
  }

  /** A live page that is in no frame is on disk. */
  ghost predicate OnDisk(table: map<nat, nat>, live: map<nat, Page>, saved: map<nat, Page>) {
    forall id :: id in live && id !in table ==> id in saved && saved[id] == live[id]
  }

  ghost predicate IdsOk(table: map<nat, nat>, live: map<nat, Page>, pins: set<nat>, stuck: set<nat>, written: set<nat>, issued: set<nat>) {
    && live.Keys <= issued && table.Keys <= issued && 0 !in live
    && written <= pins && pins <= live.Keys && pins <= table.Keys && stuck <= live.Keys && stuck <= table.Keys
  }

  /** Some unfixed frames have lost their mark, nothing else. */
  ghost predicate Unmarked(frames: seq<BFrame>, frames': seq<BFrame>) {
    |frames'| == |frames| && forall s :: 0 <= s < |frames| ==> frames'[s] == frames[s] || (frames[s].fixCount == 0 && frames'[s] == frames[s].(marked := false))
  }

  /** A frame that is left: its page is written to disk if it is dirty, and only then. */
  ghost predicate Leaves(f: BFrame, file: seq<DiskPage>, saved: map<nat, Page>, file': seq<DiskPage>, saved': map<nat, Page>) {
    if f.dirty then file' == FileWith(file, DiskPage(f.pageId, f.page)) && saved' == saved[f.pageId := f.page] else file' == file && saved' == saved
  }

  ghost function DirtyOf(table: map<nat, nat>, frames: seq<BFrame>): set<nat> {
    set id | id in table && table[id] < |frames| && frames[table[id]].dirty
  }

  class BufferManager {
    const storage: StorageManager
    const bufferSize: nat
    /** whether the program is built with assertions */
    const asserts: bool
    var pageIdMap: map<nat, nat>
    var frames: seq<BFrame>

    /** The page each frame is registered for. */
    ghost var owner: seq<nat>
    /** The pages in use, with the contents last written to each. */
    ghost var live: map<nat, Page>
    /** The fixed pages. */
    ghost var pins: set<nat>
    /** The pages with a fix that is never released: a failed scan leaves one behind, unless an assertion ends the run. */
    ghost var stuck: set<nat>
    /** The fixed pages written to since they were last reported dirty. */
    ghost var written: set<nat>
    /** The ids handed out so far. */
    ghost var issued: set<nat>

    ghost predicate Valid()
      reads this, storage
    {
      ValidBut(NONE)
    }

    ghost predicate ValidBut(hole: int)
      reads this, storage
    {
      && storage.Valid() && |frames| <= bufferSize && |owner| == |frames|
      && Table(pageIdMap, owner, hole)
      && FramesOk(pageIdMap, frames, live, pins, stuck, written, storage.saved)
      && OnDisk(pageIdMap, live, storage.saved)
      && IdsOk(pageIdMap, live, pins, stuck, written, issued)
      && (asserts ==> stuck == {}) && forall id: nat :: id in issued ==> !storage.IsFree(id)
    }

    /** At least k frames are free of stuck pages. */
    ghost predicate Room(k: nat)
      reads this`stuck
    {
      |stuck| + k <= bufferSize
    }

    /** Frame s holds page id. */
    predicate At(s: nat, id: nat)
      reads this`pageIdMap
    {
      id in pageIdMap && pageIdMap[id] == s
    }

    /** The pages whose frames differ from the disk, as far as the buffer knows. */
    ghost function DirtyIds(): set<nat>
      reads this`pageIdMap, this`frames
    {
      DirtyOf(pageIdMap, frames)
    }

    ghost predicate Dirty(id: nat)
      reads this`pageIdMap, this`frames
    {
      id in pageIdMap && pageIdMap[id] < |frames| && frames[pageIdMap[id]].dirty
    }

    /** Pinned pages stay where they are. */
    twostate predicate PinsStay()
      reads this
    {
      && |old(frames)| <= |frames|
      && forall id :: id in old(pins) && id in pins && id in old(pageIdMap) ==> id in pageIdMap && pageIdMap[id] == old(pageIdMap[id])
    }

    /** Page id, unfixed and unmarked in the end, has left the frame slot. */
    twostate predicate Evicted(slot: nat, id: nat)
      reads this, storage
    {
      && id in old(pageIdMap) && old(pageIdMap)[id] == slot < |old(frames)| == |frames| && pageIdMap == old(pageIdMap) - {id}
      && old(frames)[slot].fixCount == 0 && !frames[slot].marked && Unmarked(old(frames), frames)
      && Leaves(old(frames)[slot], old(storage.file), old(storage.saved), storage.file, storage.saved)
    }

    /** A frame for another page: a new one while the buffer is not full, and otherwise one that a page has left. */
    twostate predicate Obtained(slot: nat)
      reads this, storage
    {
      if |old(frames)| < bufferSize then
        && slot == |old(frames)| && |frames| == slot + 1 && frames[..slot] == old(frames) && pageIdMap == old(pageIdMap)
        && storage.file == old(storage.file) && storage.saved == old(storage.saved)
      else exists id :: Evicted(slot, id)
    }

    /** Nothing but the frame of page id has changed, to f. */
    twostate predicate FrameNow(id: nat, f: BFrame)
      reads this
    {
      id in pageIdMap && pageIdMap[id] < |old(frames)| && frames == old(frames)[pageIdMap[id] := f]
    }

    /** The frame of page id. */
    ghost function FrameFor(id: nat): BFrame
      reads this
    {
      if id in pageIdMap && pageIdMap[id] < |frames| then frames[pageIdMap[id]] else BFrame(0, false, false, 0, Outer(EMPTY, 0))
    }

    /** Page id, which was in no frame, is in the frame slot now; no page has left its frame while there was one to add. */
    twostate predicate Placed(slot: nat, id: nat)
      reads this, storage
    {
      && slot < |frames|
      && if |old(frames)| < bufferSize then
        && slot == |old(frames)| && |frames| == slot + 1 && frames[..slot] == old(frames) && pageIdMap == old(pageIdMap)[id := slot]
        && storage.file == old(storage.file) && storage.saved == old(storage.saved)
      else exists v :: Replaced(slot, id, v)
    }

    /** Page v, which was unfixed, has left the frame slot to page id. */
    twostate predicate Replaced(slot: nat, id: nat, v: nat)
      reads this, storage
    {
      && v in old(pageIdMap) && old(pageIdMap)[v] == slot < |old(frames)| == |frames| && pageIdMap == (old(pageIdMap) - {v})[id := slot]
      && old(frames)[slot].fixCount == 0 && Unmarked(old(frames), frames[slot := old(frames)[slot]])
      && Leaves(old(frames)[slot], old(storage.file), old(storage.saved), storage.file, storage.saved)
    }

    constructor (s: StorageManager, size: nat, checked: bool)
      requires s.Valid() && !s.IsFree(0)
      ensures Valid() && storage == s && bufferSize == size && asserts == checked
      ensures live == map[] && pins == {} && stuck == {} && written == {} && issued == {0}
    {
      storage, bufferSize, asserts, pageIdMap, frames := s, size, checked, map[], [];
      owner, live, pins, stuck, written, issued := [], map[], {}, {}, {}, {0};
    }

    /** Save the unfixed page id if it is dirty and take it out of its frame. */
    method Expel(id: nat) returns (slot: nat)
      requires Valid() && id in pageIdMap && pageIdMap[id] < |frames| && id !in pins + stuck
      modifies this`pageIdMap, storage
      ensures slot < |frames| && ValidBut(slot)
      ensures slot == old(pageIdMap[id]) && pageIdMap == old(pageIdMap) - {id}
      ensures forall x: nat :: storage.IsFree(x) == old(storage.IsFree(x))
      ensures Leaves(frames[slot], old(storage.file), old(storage.saved), storage.file, storage.saved)
    {
      hide Table, FramesOk, FrameOk, OnDisk, Holds, SmallestFree, Free;
      slot := pageIdMap[id];
      var f := frames[slot];
      TableLose(pageIdMap, owner, id);
      SaveOk(pageIdMap, frames, id, live, pins, stuck, written, storage.saved);
      if f.dirty {
        DirtyIsOwn(pageIdMap, frames, id, live, pins, stuck, written, issued, storage.saved);
        storage.SavePage(f.pageId, f.page);
      }
      pageIdMap := pageIdMap - {id};
    }

    /**
     * Second chance: pick unfixed pages at random; a marked one loses its mark,
     * an unmarked one leaves its frame. Picks of fixed pages change nothing and
     * are left out.
     */
    method EvictPage() returns (slot: nat)
      requires Valid() && |pins + stuck| < |pageIdMap|
      modifies this`pageIdMap, this`frames, storage
      ensures slot < |frames| == |old(frames)| && ValidBut(slot) && exists id :: Evicted(slot, id)
      ensures forall x: nat :: storage.IsFree(x) == old(storage.IsFree(x))
      ensures forall id :: id in pins ==> id in pageIdMap && id in old(pageIdMap) && pageIdMap[id] == old(pageIdMap[id])
    {
      hide Table, FramesOk, FrameOk, OnDisk, Marks, Holds, SmallestFree, Free, Unmarked, Leaves;
      UnmarkedSelf(frames);
      while true
        invariant Valid() && |frames| == |old(frames)| && pageIdMap == old(pageIdMap) && Unmarked(old(frames), frames)
        invariant storage.file == old(storage.file) && storage.saved == old(storage.saved)
        invariant forall x: nat :: storage.IsFree(x) == old(storage.IsFree(x))
        decreases Marks(frames)
        modifies this`pageIdMap, this`frames, storage
      {
        SomeUnfixed(pageIdMap, frames, live, pins, stuck, written, storage.saved);
        var id :| id in pageIdMap && frames[pageIdMap[id]].fixCount == 0;
        FixedIsPinned(pageIdMap, frames, id, live, pins, stuck, written, storage.saved);
        var f := frames[pageIdMap[id]];
        UnmarkedStep(old(frames), frames, pageIdMap[id]);
        if !f.marked {
          slot := Expel(id);
          LeavesAlike(f, old(frames)[slot], old(storage.file), old(storage.saved), storage.file, storage.saved);
          assert Evicted(slot, id);
          return;
        }
        MarksFall(frames, pageIdMap[id]);
        UnmarkOk(pageIdMap, frames, id, live, pins, stuck, written, storage.saved);
        frames := frames[pageIdMap[id] := f.(marked := false)];
      }
    }

    /** An evicted frame, or a new one while the buffer is not full. */
    method ObtainFrame() returns (slot: nat)
      requires Valid() && |pins + stuck| < bufferSize
      modifies this`pageIdMap, this`frames, this`owner, storage
      ensures slot < |frames| && ValidBut(slot) && |old(frames)| <= |frames| && Obtained(slot)
      ensures forall x: nat :: storage.IsFree(x) == old(storage.IsFree(x))
      ensures forall id :: id in pins ==> id in pageIdMap && id in old(pageIdMap) && pageIdMap[id] == old(pageIdMap[id])
      ensures forall id :: id !in old(pageIdMap) ==> id !in pageIdMap
    {
      hide FramesOk, FrameOk, OnDisk, Holds, SmallestFree, Free;
      if |frames| >= bufferSize {
        slot := EvictPage();
      } else {
        slot := |frames|;
        var garbage: BFrame := *;
        TableGrow(pageIdMap, owner);
        MoreFrames(pageIdMap, frames, garbage, live, pins, stuck, written, storage.saved);
        frames := frames + [garbage];
        owner := owner + [0];
      }
    }

    /** The page on disk is read into the frame slot. */
    method LoadInto(slot: nat, id: nat)
      requires slot < |frames| && ValidBut(slot) && id in live && id !in pageIdMap && id !in pins + stuck
      modifies this`pageIdMap, this`frames, this`owner
      ensures Valid() && pageIdMap == old(pageIdMap)[id := slot] && |frames| == |old(frames)| && frames == old(frames)[slot := frames[slot]]
      ensures frames[slot].fixCount == 0 && !frames[slot].dirty
    {
      hide Table, FramesOk, FrameOk, OnDisk, Holds, SmallestFree, Free;
      OnDiskAt(pageIdMap, live, storage.saved, id);
      NotPinned(pageIdMap, live, pins, stuck, written, issued, id);
      var r := storage.LoadPage(id);
      var f := frames[slot].(fixCount := 0, dirty := false, pageId := r.disk.pageId, page := r.disk.page);
      FetchedOk(f, id, live, pins, stuck, written, storage.saved);
      Register(slot, id, f);
    }

    method FetchPageFromDisk(id: nat)
      requires Valid() && id in live && id !in pageIdMap && |pins + stuck| < bufferSize
      modifies this`pageIdMap, this`frames, this`owner, storage
      ensures Valid() && id in pageIdMap && PinsStay() && Placed(pageIdMap[id], id)
      ensures var f := frames[pageIdMap[id]]; f.fixCount == 0 && !f.dirty
    {
      hide Table, FramesOk, FrameOk, OnDisk, Holds, SmallestFree, Free, Leaves, IdsOk;
      NotPinned(pageIdMap, live, pins, stuck, written, issued, id);
      var slot := ObtainFrame();
      ghost var m1, f1, more := pageIdMap, frames, |old(frames)| < bufferSize;
      LoadInto(slot, id);
      if !more {
        ghost var v :| v in old(pageIdMap) && m1 == old(pageIdMap) - {v} && old(pageIdMap)[v] == slot < |old(frames)| == |f1| && old(frames)[slot].fixCount == 0 && Unmarked(old(frames), f1)
          && Leaves(old(frames)[slot], old(storage.file), old(storage.saved), storage.file, storage.saved);
        assert Replaced(slot, id, v);
      }
    }

    /** Put the frame contents f at slot and enter it for page id. */
    method Register(slot: nat, id: nat, f: BFrame)
      requires slot < |frames| && ValidBut(slot) && id !in pageIdMap && id in issued
      requires FrameOk(f, id, live, pins, stuck, written, storage.saved)
      modifies this`pageIdMap, this`frames, this`owner
      ensures Valid() && pageIdMap == old(pageIdMap)[id := slot] && frames == old(frames)[slot := f]
    {
      hide Table, FramesOk, FrameOk, OnDisk, IdsOk, Holds, SmallestFree, Free;
      RegisterIds(pageIdMap, slot, live, pins, stuck, written, issued, id);
      TableGain(pageIdMap, owner, slot, id);
      DropAway(pageIdMap, frames, id, live, pins, stuck, written, storage.saved);
      RegisterOk(pageIdMap, owner, frames, slot, id, f, live, pins, stuck, written, storage.saved);
      frames := frames[slot := f];
      pageIdMap := pageIdMap[id := slot];
      owner := owner[slot := id];
    }

    method RequestPage(id: nat) returns (header: nat)
      requires Valid() && id in live && id !in pins && |pins + stuck| < bufferSize
      modifies this`pageIdMap, this`frames, this`owner, this`pins, storage
      ensures Valid() && pins == old(pins) + {id} && PinsStay() && |old(frames)| <= |frames|
      ensures DirtyIds() <= old(DirtyIds())
      ensures At(header, id) && header < |frames| && frames[header].pageId == id && frames[header].page == live[id]
      ensures old(At(header, id)) ==> pageIdMap == old(pageIdMap) && storage.file == old(storage.file) && storage.saved == old(storage.saved)
      ensures old(At(header, id)) ==> FrameNow(id, old(FrameFor(id)).(fixCount := old(FrameFor(id)).fixCount + 1, marked := true))
      ensures if id in old(pageIdMap) then old(At(header, id)) else Placed(header, id) && frames[header].fixCount == 1 && frames[header].marked && !frames[header].dirty
    {
      hide Table, FramesOk, FrameOk, OnDisk, Holds, SmallestFree, Free, DirtyOf, Leaves, Unmarked, IdsOk;
      TableFits(pageIdMap, owner, frames);
      ghost var there, v: nat := id in pageIdMap, 0;
      if id !in pageIdMap {
        FetchPageFromDisk(id);
        if |old(frames)| >= bufferSize {
          v :| Replaced(pageIdMap[id], id, v);
        }
      }
      header := pageIdMap[id];
      ghost var before := frames;
      Fix(id);
      if !there {
        assert frames[..header] == before[..header];
        if |old(frames)| < bufferSize {
          DirtyGrown(old(pageIdMap), old(frames), frames, header, id);
        } else {
          assert frames[header := old(frames)[header]] == before[header := old(frames)[header]];
          assert Replaced(header, id, v);
          DirtyReplaced(old(pageIdMap), old(owner), old(frames), frames, header, id, v);
        }
      }
    }

    /** The shared part of request_page and fix_page. */
    method Fix(id: nat)
      requires Valid() && id in live && id in pageIdMap && id !in pins
      modifies this`frames, this`pins
      ensures Valid() && pins == old(pins) + {id} && |frames| == |old(frames)|
      ensures DirtyIds() == old(DirtyIds())
      ensures FrameNow(id, old(FrameFor(id)).(fixCount := old(FrameFor(id)).fixCount + 1, marked := true))
      ensures var s := pageIdMap[id]; s < |frames| && frames[s].pageId == id && frames[s].page == live[id]
      ensures forall s :: 0 <= s < |frames| ==> frames[s].pageId == old(frames)[s].pageId
    {
      hide Table, FramesOk, FrameOk, OnDisk, Holds, SmallestFree, Free, DirtyOf;
      var s := pageIdMap[id];
      FrameAt(pageIdMap, frames, id, live, pins, stuck, written, storage.saved);
      var f := frames[s].(fixCount := frames[s].fixCount + 1, marked := true);
      FixOk(pageIdMap, owner, frames, id, live, pins, stuck, written, storage.saved);
      frames := frames[s := f];
      pins := pins + {id};
      DirtyFrame(pageIdMap, owner, old(frames), id, f);
      DirtyAt(pageIdMap, old(frames), id);
      SameOrLess(old(DirtyIds()), id);
    }

    method FixPage(id: nat)
      requires Valid() && (id in pageIdMap ==> id in live && id !in pins)
      modifies this`frames, this`pins
      ensures Valid() && pins == old(pins) + (if id in pageIdMap then {id} else {}) && |frames| == |old(frames)|
      ensures DirtyIds() == old(DirtyIds())
      ensures if id in pageIdMap then FrameNow(id, old(FrameFor(id)).(fixCount := old(FrameFor(id)).fixCount + 1, marked := true)) else frames == old(frames)
      ensures forall s :: 0 <= s < |frames| ==> frames[s].pageId == old(frames)[s].pageId
    {
      hide Table, FramesOk, FrameOk, OnDisk, Holds, SmallestFree, Free, DirtyOf;
      if id in pageIdMap {
        FrameAt(pageIdMap, frames, id, live, pins, stuck, written, storage.saved);
        assert asserts ==> frames[pageIdMap[id]].fixCount == 0;
        Fix(id);
      }
    }

    /** A page that was written to while fixed is reported dirty. */
    method UnfixPage(id: nat, dirty: bool)
      requires Valid() && id in pins && (id in written ==> dirty)
      modifies this`frames, this`pins, this`written
      ensures Valid() && pins == old(pins) - {id} && written == old(written) - {id} && |frames| == |old(frames)|
      ensures dirty ==> Dirty(id)
      ensures DirtyIds() == old(DirtyIds()) + if dirty then {id} else {}
      ensures old(FrameFor(id)).fixCount > 0 && FrameNow(id, old(FrameFor(id)).(fixCount := old(FrameFor(id)).fixCount - 1, dirty := old(FrameFor(id)).dirty || dirty))
      ensures forall s :: 0 <= s < |frames| ==> frames[s].pageId == old(frames)[s].pageId
    {
      hide Table, FramesOk, FrameOk, OnDisk, Holds, SmallestFree, Free, DirtyOf;
      PinnedAt(pageIdMap, live, pins, stuck, written, issued, id);
      FrameAt(pageIdMap, frames, id, live, pins, stuck, written, storage.saved);
      var s := pageIdMap[id];
      var f := frames[s];
      UnfixOk(pageIdMap, owner, frames, id, dirty, live, pins, stuck, written, storage.saved);
      assert asserts ==> f.fixCount == 1;
      frames := frames[s := f.(fixCount := f.fixCount - 1, dirty := f.dirty || dirty)];
      pins := pins - {id};
      written := written - {id};
      DirtyFrame(pageIdMap, owner, old(frames), id, f.(fixCount := f.fixCount - 1, dirty := f.dirty || dirty));
      DirtyAt(pageIdMap, old(frames), id);
      SameOrLess(old(DirtyIds()), id);
    }

    /** The fix of a page is given up without being released, as happens only without assertions. */
    ghost method Strand(id: nat)
      requires Valid() && id in pins && id !in written && !asserts
      modifies this`pins, this`stuck
      ensures Valid() && pins == old(pins) - {id} && stuck == old(stuck) + {id}
    {
      hide Table, FramesOk, FrameOk, OnDisk, Holds, SmallestFree, Free;
      PinnedAt(pageIdMap, live, pins, stuck, written, issued, id);
      StrandOk(pageIdMap, frames, id, live, pins, stuck, written, storage.saved);
      pins, stuck := pins - {id}, stuck + {id};
    }

    lemma RoomIs(k: nat)
      ensures Room(k) <==> |stuck| + k <= bufferSize
    {
    }

    /** k fixed pages leave a frame to evict if there is room for one more. */
    lemma FewFixed(k: nat)
      requires Room(k + 1) && |pins| <= k
      ensures |pins + stuck| < bufferSize
    {
      Together(pins, stuck);
    }

    method MarkDirty(id: nat)
      requires Valid() && id in live
      modifies this`frames, this`written
      ensures Valid() && written == old(written) - {id} && |frames| == |old(frames)|
      ensures DirtyIds() == old(DirtyIds()) + if id in pageIdMap then {id} else {}
      ensures if id in pageIdMap then FrameNow(id, old(FrameFor(id)).(dirty := true)) else frames == old(frames)
    {
      hide Table, FramesOk, FrameOk, OnDisk, Holds, SmallestFree, Free, DirtyOf;
      if id in pageIdMap {
        FrameAt(pageIdMap, frames, id, live, pins, stuck, written, storage.saved);
        DirtyOk(pageIdMap, owner, frames, id, live, pins, stuck, written, storage.saved);
        frames := frames[pageIdMap[id] := frames[pageIdMap[id]].(dirty := true)];
        written := written - {id};
        DirtyFrame(pageIdMap, owner, old(frames), id, old(FrameFor(id)).(dirty := true));
      } else {
        NotPinned(pageIdMap, live, pins, stuck, written, issued, id);
      }
    }

    /** Write through a page pointer: the page is fixed, or already dirty and so cannot be lost. */
    method Write(header: nat, ghost id: nat, page: Page)
      requires Valid() && At(header, id) && id in live && (id in pins || Dirty(id))
      modifies this`frames, this`live, this`written
      ensures Valid() && live == old(live)[id := page] && |frames| == |old(frames)|
      ensures written == old(written) + (if old(Dirty(id)) then {} else {id})
      ensures DirtyIds() == old(DirtyIds())
      ensures FrameNow(id, old(FrameFor(id)).(page := page))
      ensures header < |frames| && frames[header].page == page && frames[header].pageId == id
    {
      hide Table, FramesOk, FrameOk, OnDisk, Holds, SmallestFree, Free, DirtyOf;
      FrameAt(pageIdMap, frames, id, live, pins, stuck, written, storage.saved);
      WriteOk(pageIdMap, owner, frames, id, page, live, pins, stuck, written, storage.saved);
      written := written + (if frames[header].dirty then {} else {id});
      frames := frames[header := frames[header].(page := page)];
      live := live[id := page];
      DirtyFrame(pageIdMap, owner, old(frames), id, old(FrameFor(id)).(page := page));
      DirtyAt(pageIdMap, old(frames), id);
      SameOrLess(old(DirtyIds()), id);
    }

    /** The frame of a live page in the buffer holds its contents. */
    lemma FrameOf(id: nat)
      requires Valid() && id in live && id in pageIdMap
      ensures var s := pageIdMap[id]; s < |frames| && frames[s].pageId == id && frames[s].page == live[id]
    {
      FrameAt(pageIdMap, frames, id, live, pins, stuck, written, storage.saved);
    }

    lemma PinsLive()
      requires Valid()
      ensures pins <= live.Keys && pins <= pageIdMap.Keys && live.Keys <= issued && 0 !in live
    {
    }

    /** A frame that names a page holds it, and that page is live. */
    lemma FrameNames(s: nat)
      requires Valid() && s < |frames| && frames[s].pageId != 0
      ensures var id := frames[s].pageId; id in live && At(s, id) && frames[s].page == live[id]
    {
      hide FrameOk, IdsOk, OnDisk;
      assert owner[s] in pageIdMap;
      FrameAt(pageIdMap, frames, owner[s], live, pins, stuck, written, storage.saved);
      FrameIs(frames[s], owner[s], live, pins, stuck, written, storage.saved);
    }

    /** Give the unowned frame slot to a page id that was never used before. */
    method Adopt(slot: nat) returns (ghost id: nat)
      requires slot < |frames| && ValidBut(slot)
      modifies this, storage
      ensures Valid() && |frames| == |old(frames)| && id !in old(pageIdMap) && pageIdMap == old(pageIdMap)[id := slot]
      ensures slot < |frames| && frames[slot].pageId == id && frames[slot].dirty
      ensures id !in old(issued) && issued == old(issued) + {id} && pins == old(pins) + {id} && written == old(written)
      ensures live == old(live)[id := frames[slot].page] && stuck == old(stuck) && frames == old(frames)[slot := frames[slot]]
      ensures frames[slot].fixCount == 1 && frames[slot].marked && storage.file == old(storage.file) && storage.saved == old(storage.saved)
      ensures id != 0 && old(storage.IsFree(id)) && forall x: nat :: x < id ==> !old(storage.IsFree(x))
    {
      hide Table, FramesOk, FrameOk, OnDisk, IdsOk, Holds, SmallestFree, Free;
      var next := storage.GetUnusedPageId();
      id := next;
      var f := BFrame(1, true, true, next, frames[slot].page);
      NewId(pageIdMap, live, pins, stuck, written, issued, next);
      TableGain(pageIdMap, owner, slot, next);
      NewOk(pageIdMap, owner, frames, slot, next, f, live, pins, stuck, written, storage.saved);
      NewIds(pageIdMap, slot, live, f.page, pins, stuck, written, issued, next);
      issued, live, pins := issued + {next}, live[next := f.page], pins + {next};
      frames := frames[slot := f];
      pageIdMap := pageIdMap[next := slot];
      owner := owner[slot := next];
    }

    /** A fresh page id in a fixed, dirty frame with arbitrary contents. */
    method CreateNewPage() returns (header: nat)
      requires Valid() && |pins + stuck| < bufferSize
      modifies this, storage
      ensures Valid() && PinsStay() && |old(frames)| <= |frames| && header < |frames| && stuck == old(stuck)
      ensures Placed(header, frames[header].pageId) && frames[header].fixCount == 1 && frames[header].marked && frames[header].dirty
      ensures
        var id := frames[header].pageId;
        && old(storage.IsFree(id)) && (forall x: nat :: x < id ==> !old(storage.IsFree(x)))
        && id !in old(issued) && issued == old(issued) + {id} && At(header, id) && Dirty(id)
        && live == old(live)[id := frames[header].page] && pins == old(pins) + {id} && written == old(written)
    {
      hide Table, FramesOk, FrameOk, OnDisk, IdsOk, Holds, SmallestFree, Free, BufferManager.ValidBut;
      header := ObtainFrame();
      ghost var v: nat, before := 0, frames;
      if |old(frames)| >= bufferSize {
        v :| Evicted(header, v);
      }
      var id := Adopt(header);
      if |old(frames)| >= bufferSize {
        assert frames[header := old(frames)[header]] == before[header := old(frames)[header]];
        assert Replaced(header, frames[header].pageId, v);
      }
    }

    /** destroy: every dirty frame is saved, after which the disk alone holds all live pages. */
    method Destroy()
      requires Valid() && pins == {}
      modifies this`pageIdMap, storage
      ensures pageIdMap == map[] && live == old(live) && storage.Valid() && OnDisk(map[], live, storage.saved)
      ensures forall id :: id in live ==> id in storage.saved && storage.saved[id] == live[id]
    {
      hide Table, FramesOk, FrameOk, Holds, SmallestFree, Free;
      while pageIdMap != map[]
        invariant storage.Valid() && FramesOk(pageIdMap, frames, live, pins, stuck, written, storage.saved)
        invariant OnDisk(pageIdMap, live, storage.saved) && written <= pins
        decreases |pageIdMap|
        modifies this`pageIdMap, storage
      {
        var id :| id in pageIdMap;
        FrameAt(pageIdMap, frames, id, live, pins, stuck, written, storage.saved);
        SaveOk(pageIdMap, frames, id, live, pins, stuck, written, storage.saved);
        var f := frames[pageIdMap[id]];
        if f.dirty {
          storage.SavePage(f.pageId, f.page);
        }
        MapSizes(pageIdMap, id, 0);
        pageIdMap := pageIdMap - {id};
      }
    }

    /** The page is given up; its frame stays in the table without an owner until it is evicted. */
    method DeletePage(id: nat)
      requires Valid() && id in live && id !in pins
      modifies this`frames, this`live, this`stuck
      ensures Valid() && live == old(live) - {id} && stuck == old(stuck) - {id} && |frames| == |old(frames)|
      ensures |stuck| <= |old(stuck)|
      ensures if id in pageIdMap then FrameNow(id, old(FrameFor(id)).(pageId := 0, marked := false, dirty := false, fixCount := 0)) else frames == old(frames)
    {
      hide Table, FramesOk, FrameOk, OnDisk, IdsOk, Holds, SmallestFree, Free;
      LessOne(stuck, id);
      NotPinned(pageIdMap, live, pins, stuck, written, issued, id);
      DropIds(pageIdMap, live, pins, stuck, written, issued, id);
      if id in pageIdMap {
        FrameAt(pageIdMap, frames, id, live, pins, stuck, written, storage.saved);
        var s := pageIdMap[id];
        assert asserts ==> frames[s].fixCount == 0;
        DropOk(pageIdMap, owner, frames, id, live, pins, stuck, written, storage.saved);
        frames := frames[s := frames[s].(pageId := 0, marked := false, dirty := false, fixCount := 0)];
      } else {
        DropAway(pageIdMap, frames, id, live, pins, stuck, written, storage.saved);
      }
      live, stuck := live - {id}, stuck - {id};
    }
  }

  /** A frame with fix count 0 belongs to no pinned page. */
  lemma FixedIsPinned(table: map<nat, nat>, frames: seq<BFrame>, id: nat, live: map<nat, Page>, pins: set<nat>, stuck: set<nat>, written: set<nat>, saved: map<nat, Page>)
    requires FramesOk(table, frames, live, pins, stuck, written, saved) && pins + stuck <= live.Keys && id in table
    ensures table[id] < |frames| && (frames[table[id]].fixCount == 0 <==> id !in pins + stuck)
  {
    assert FrameOk(frames[table[id]], id, live, pins, stuck, written, saved);
  }

  /** A dirty frame holds a live page under its own id. */
  lemma DirtyIsOwn(table: map<nat, nat>, frames: seq<BFrame>, id: nat, live: map<nat, Page>, pins: set<nat>, stuck: set<nat>, written: set<nat>, issued: set<nat>, saved: map<nat, Page>)
    requires FramesOk(table, frames, live, pins, stuck, written, saved) && IdsOk(table, live, pins, stuck, written, issued)
    requires id in table && table[id] < |frames| && frames[table[id]].dirty
    ensures frames[table[id]].pageId == id && id in issued
  {
    assert FrameOk(frames[table[id]], id, live, pins, stuck, written, saved);
  }

  /** One frame changes: its page may become dirty. */
  lemma DirtyFrame(table: map<nat, nat>, owner: seq<nat>, frames: seq<BFrame>, id: nat, f: BFrame)
    requires Table(table, owner, NONE) && |owner| == |frames| && id in table
    ensures table[id] < |frames|
    ensures var now := DirtyOf(table, frames[table[id] := f]);
      now == (if f.dirty then DirtyOf(table, frames) + {id} else DirtyOf(table, frames) - {id})
  {
  }

  lemma DirtyGrown(table: map<nat, nat>, frames: seq<BFrame>, frames': seq<BFrame>, slot: nat, id: nat)
    requires slot == |frames| && |frames'| == slot + 1 && frames'[..slot] == frames && !frames'[slot].dirty && id !in table
    requires forall x :: x in table ==> table[x] < |frames|
    ensures DirtyOf(table[id := slot], frames') <= DirtyOf(table, frames)
  {
    forall x | x in DirtyOf(table[id := slot], frames') ensures x in DirtyOf(table, frames) {
      assert frames'[table[x]] == frames'[..slot][table[x]];
    }
  }

  lemma DirtyReplaced(table: map<nat, nat>, owner: seq<nat>, frames: seq<BFrame>, frames': seq<BFrame>, slot: nat, id: nat, v: nat)
    requires v in table && table[v] == slot < |frames| == |frames'| && id !in table && !frames'[slot].dirty
    requires Unmarked(frames, frames'[slot := frames[slot]]) && Table(table, owner, NONE) && |owner| == |frames|
    ensures DirtyOf((table - {v})[id := slot], frames') <= DirtyOf(table, frames)
  {
    forall x | x in DirtyOf((table - {v})[id := slot], frames') ensures x in DirtyOf(table, frames) {
      assert table[x] != slot;
      assert frames'[slot := frames[slot]][table[x]] == frames'[table[x]];
    }
  }

  lemma DirtyAt(table: map<nat, nat>, frames: seq<BFrame>, id: nat)
    ensures id in DirtyOf(table, frames) <==> id in table && table[id] < |frames| && frames[table[id]].dirty
  {
  }

  lemma TableFits(table: map<nat, nat>, owner: seq<nat>, frames: seq<BFrame>)
    requires Table(table, owner, NONE) && |owner| == |frames|
    ensures forall x :: x in table ==> table[x] < |frames|
  {
  }

  lemma SameOrLess(s: set<nat>, id: nat)
    ensures id in s ==> s + {id} == s
    ensures id !in s ==> s - {id} == s
    ensures s + {} == s
  {
  }

  lemma UnmarkedSelf(frames: seq<BFrame>)
    ensures Unmarked(frames, frames)
  {
  }

  lemma UnmarkedStep(frames: seq<BFrame>, frames': seq<BFrame>, s: nat)
    requires Unmarked(frames, frames') && s < |frames'| && frames'[s].fixCount == 0
    ensures s < |frames| && frames[s].fixCount == 0 && (frames'[s] == frames[s] || frames'[s] == frames[s].(marked := false))
    ensures Unmarked(frames, frames'[s := frames'[s].(marked := false)])
  {
  }

  /** The mark makes no difference. */
  lemma LeavesAlike(f: BFrame, g: BFrame, file: seq<DiskPage>, saved: map<nat, Page>, file': seq<DiskPage>, saved': map<nat, Page>)
    requires Leaves(f, file, saved, file', saved') && (f == g || f == g.(marked := false))
    ensures Leaves(g, file, saved, file', saved')
  {
  }

  lemma UnmarkOk(table: map<nat, nat>, frames: seq<BFrame>, id: nat, live: map<nat, Page>, pins: set<nat>, stuck: set<nat>, written: set<nat>, saved: map<nat, Page>)
    requires FramesOk(table, frames, live, pins, stuck, written, saved) && id in table && table[id] < |frames|
    ensures FramesOk(table, frames[table[id] := frames[table[id]].(marked := false)], live, pins, stuck, written, saved)
  {
    var frames' := frames[table[id] := frames[table[id]].(marked := false)];
    forall x | x in table ensures table[x] < |frames'| && FrameOk(frames'[table[x]], x, live, pins, stuck, written, saved) {
      assert FrameOk(frames[table[x]], x, live, pins, stuck, written, saved);
    }
  }

  /** Taking id out of the table leaves its frame without a page. */
  lemma TableLose(table: map<nat, nat>, owner: seq<nat>, id: nat)
    requires Table(table, owner, NONE) && id in table
    ensures Table(table - {id}, owner, table[id])
  {
    var table' := table - {id};
    assert |table'| == |table| - 1 by {
      assert table'.Keys == table.Keys - {id};
      assert |table'.Keys| == |table.Keys| - 1;
    }
  }

  /** Once a dirty victim is saved, everything that leaves the buffer is on disk. */
  lemma SaveOk(table: map<nat, nat>, frames: seq<BFrame>, id: nat, live: map<nat, Page>, pins: set<nat>, stuck: set<nat>, written: set<nat>, saved: map<nat, Page>)
    requires FramesOk(table, frames, live, pins, stuck, written, saved) && OnDisk(table, live, saved)
    requires id in table && id !in pins && written <= pins && table[id] < |frames|
    ensures
      var f := frames[table[id]];
      var saved' := if f.dirty then saved[f.pageId := f.page] else saved;
      FramesOk(table - {id}, frames, live, pins, stuck, written, saved') && OnDisk(table - {id}, live, saved')
  {
    var f := frames[table[id]];
    var saved' := if f.dirty then saved[f.pageId := f.page] else saved;
    assert FrameOk(f, id, live, pins, stuck, written, saved);
    forall x | x in table && x != id ensures table[x] < |frames| && FrameOk(frames[table[x]], x, live, pins, stuck, written, saved') {
      assert FrameOk(frames[table[x]], x, live, pins, stuck, written, saved);
    }
  }

  ghost function Marks(frames: seq<BFrame>): nat {
    if frames == [] then 0 else (if frames[0].marked then 1 else 0) + Marks(frames[1..])
  }

  lemma {:induction false} MarksFall(frames: seq<BFrame>, s: nat)
    requires s < |frames| && frames[s].marked
    ensures Marks(frames[s := frames[s].(marked := false)]) < Marks(frames)
  {
    var f := frames[s].(marked := false);
    if s == 0 {
      assert frames[s := f][1..] == frames[1..];
    } else {
      assert frames[s := f][1..] == frames[1..][s - 1 := f];
      MarksFall(frames[1..], s - 1);
    }
  }

  lemma SomeUnfixed(table: map<nat, nat>, frames: seq<BFrame>, live: map<nat, Page>, pins: set<nat>, stuck: set<nat>, written: set<nat>, saved: map<nat, Page>)
    requires FramesOk(table, frames, live, pins, stuck, written, saved) && |pins + stuck| < |table|
    ensures forall id :: id in table ==> table[id] < |frames|
    ensures exists id :: id in table && frames[table[id]].fixCount == 0
  {
    if table.Keys <= pins + stuck {
      SubsetSize(table.Keys, pins + stuck);
    }
    var id :| id in table && id !in pins + stuck;
    assert FrameOk(frames[table[id]], id, live, pins, stuck, written, saved);
  }

  lemma TableGrow(table: map<nat, nat>, owner: seq<nat>)
    requires Table(table, owner, NONE)
    ensures Table(table, owner + [0], |owner|)
  {
  }

  lemma TableGain(table: map<nat, nat>, owner: seq<nat>, slot: nat, id: nat)
    requires Table(table, owner, slot) && slot < |owner| && id !in table
    ensures Table(table[id := slot], owner[slot := id], NONE)
  {
    assert table[id := slot].Keys == table.Keys + {id};
    assert |table[id := slot].Keys| == |table.Keys| + 1;
  }

  lemma MoreFrames(table: map<nat, nat>, frames: seq<BFrame>, g: BFrame, live: map<nat, Page>, pins: set<nat>, stuck: set<nat>, written: set<nat>, saved: map<nat, Page>)
    requires FramesOk(table, frames, live, pins, stuck, written, saved)
    ensures FramesOk(table, frames + [g], live, pins, stuck, written, saved)
  {
    forall x | x in table ensures table[x] < |frames| + 1 && FrameOk((frames + [g])[table[x]], x, live, pins, stuck, written, saved) {
      assert FrameOk(frames[table[x]], x, live, pins, stuck, written, saved);
    }
  }

  lemma NotPinned(table: map<nat, nat>, live: map<nat, Page>, pins: set<nat>, stuck: set<nat>, written: set<nat>, issued: set<nat>, id: nat)
    requires IdsOk(table, live, pins, stuck, written, issued)
    ensures id !in table ==> id !in pins + stuck && id !in written
    ensures id in live ==> id in issued
  {
  }

  lemma PinnedAt(table: map<nat, nat>, live: map<nat, Page>, pins: set<nat>, stuck: set<nat>, written: set<nat>, issued: set<nat>, id: nat)
    requires IdsOk(table, live, pins, stuck, written, issued) && id in pins
    ensures id in table && id in live
  {
  }

  lemma OnDiskAt(table: map<nat, nat>, live: map<nat, Page>, saved: map<nat, Page>, id: nat)
    requires OnDisk(table, live, saved) && id in live && id !in table
    ensures id in saved && saved[id] == live[id]
  {
  }

  lemma FetchedOk(f: BFrame, id: nat, live: map<nat, Page>, pins: set<nat>, stuck: set<nat>, written: set<nat>, saved: map<nat, Page>)
    requires id in live && id !in pins + stuck && id in saved && saved[id] == live[id]
    requires f.pageId == id && f.page == live[id] && f.fixCount == 0
    ensures FrameOk(f, id, live, pins, stuck, written, saved)
  {
  }

  lemma FrameAt(table: map<nat, nat>, frames: seq<BFrame>, id: nat, live: map<nat, Page>, pins: set<nat>, stuck: set<nat>, written: set<nat>, saved: map<nat, Page>)
    requires FramesOk(table, frames, live, pins, stuck, written, saved) && id in table
    ensures table[id] < |frames| && FrameOk(frames[table[id]], id, live, pins, stuck, written, saved)
    ensures id in live ==> frames[table[id]].pageId == id && frames[table[id]].page == live[id]
    ensures id in live && id !in stuck ==> frames[table[id]].fixCount == if id in pins then 1 else 0
  {
    assert FrameOk(frames[table[id]], id, live, pins, stuck, written, saved);
  }

  lemma FrameIs(f: BFrame, id: nat, live: map<nat, Page>, pins: set<nat>, stuck: set<nat>, written: set<nat>, saved: map<nat, Page>)
    requires FrameOk(f, id, live, pins, stuck, written, saved) && f.pageId != 0
    ensures id in live && f.pageId == id && f.page == live[id]
  {
  }

  /** Changing the frame of one page and the bookkeeping of that page only. */
  lemma OneFrame(table: map<nat, nat>, owner: seq<nat>, frames: seq<BFrame>, id: nat, f: BFrame, live: map<nat, Page>, pins: set<nat>, stuck: set<nat>, written: set<nat>, saved: map<nat, Page>,
                 live': map<nat, Page>, pins': set<nat>, stuck': set<nat>, written': set<nat>)
    requires Table(table, owner, NONE) && FramesOk(table, frames, live, pins, stuck, written, saved) && id in table && table[id] < |frames|
    requires forall x :: x != id ==> (x in live <==> x in live') && (x in live ==> live[x] == live'[x])
    requires forall x :: x != id ==> (x in pins <==> x in pins') && (x in stuck <==> x in stuck') && (x in written ==> x in written')
    requires FrameOk(f, id, live', pins', stuck', written', saved)
    ensures FramesOk(table, frames[table[id] := f], live', pins', stuck', written', saved)
  {
    var frames' := frames[table[id] := f];
    forall x | x in table ensures table[x] < |frames'| && FrameOk(frames'[table[x]], x, live', pins', stuck', written', saved) {
      if x != id {
        assert table[x] != table[id];
        assert FrameOk(frames[table[x]], x, live, pins, stuck, written, saved);
      }
    }
  }

  lemma RegisterOk(table: map<nat, nat>, owner: seq<nat>, frames: seq<BFrame>, slot: nat, id: nat, f: BFrame, live: map<nat, Page>, pins: set<nat>, stuck: set<nat>, written: set<nat>, saved: map<nat, Page>)
    requires Table(table, owner, slot) && slot < |frames| && id !in table
    requires FramesOk(table, frames, live, pins, stuck, written, saved) && FrameOk(f, id, live, pins, stuck, written, saved)
    requires OnDisk(table, live - {id}, saved)
    ensures FramesOk(table[id := slot], frames[slot := f], live, pins, stuck, written, saved)
    ensures OnDisk(table[id := slot], live, saved)
  {
    RegisterDisk(table, slot, id, live, saved);
    hide FrameOk, OnDisk;
    var table', frames' := table[id := slot], frames[slot := f];
    forall x | x in table' ensures table'[x] < |frames'| && FrameOk(frames'[table'[x]], x, live, pins, stuck, written, saved) {
      if x != id {
        assert table[x] != slot;
        assert FrameOk(frames[table[x]], x, live, pins, stuck, written, saved);
      }
    }
  }

  lemma RegisterDisk(table: map<nat, nat>, slot: nat, id: nat, live: map<nat, Page>, saved: map<nat, Page>)
    requires OnDisk(table, live - {id}, saved)
    ensures OnDisk(table[id := slot], live, saved)
  {
  }

  lemma FixOk(table: map<nat, nat>, owner: seq<nat>, frames: seq<BFrame>, id: nat, live: map<nat, Page>, pins: set<nat>, stuck: set<nat>, written: set<nat>, saved: map<nat, Page>)
    requires Table(table, owner, NONE) && FramesOk(table, frames, live, pins, stuck, written, saved)
    requires id in table && id in live && id !in pins && table[id] < |frames|
    ensures
      var f := frames[table[id]];
      FramesOk(table, frames[table[id] := f.(fixCount := f.fixCount + 1, marked := true)], live, pins + {id}, stuck, written, saved)
  {
    var f := frames[table[id]];
    assert FrameOk(f, id, live, pins, stuck, written, saved);
    OneFrame(table, owner, frames, id, f.(fixCount := f.fixCount + 1, marked := true), live, pins, stuck, written, saved, live, pins + {id}, stuck, written);
  }

  lemma UnfixOk(table: map<nat, nat>, owner: seq<nat>, frames: seq<BFrame>, id: nat, dirty: bool, live: map<nat, Page>, pins: set<nat>, stuck: set<nat>, written: set<nat>, saved: map<nat, Page>)
    requires Table(table, owner, NONE) && FramesOk(table, frames, live, pins, stuck, written, saved)
    requires id in table && id in live && id in pins && table[id] < |frames| && (id in written ==> dirty)
    ensures
      var f := frames[table[id]];
      (if id in stuck then f.fixCount > 1 else f.fixCount == 1) &&
      FramesOk(table, frames[table[id] := f.(fixCount := f.fixCount - 1, dirty := f.dirty || dirty)], live, pins - {id}, stuck, written - {id}, saved)
  {
    var f := frames[table[id]];
    assert FrameOk(f, id, live, pins, stuck, written, saved);
    OneFrame(table, owner, frames, id, f.(fixCount := f.fixCount - 1, dirty := f.dirty || dirty), live, pins, stuck, written, saved, live, pins - {id}, stuck, written - {id});
  }

  lemma StrandOk(table: map<nat, nat>, frames: seq<BFrame>, id: nat, live: map<nat, Page>, pins: set<nat>, stuck: set<nat>, written: set<nat>, saved: map<nat, Page>)
    requires FramesOk(table, frames, live, pins, stuck, written, saved) && id in pins && id in live
    ensures FramesOk(table, frames, live, pins - {id}, stuck + {id}, written, saved)
  {
    forall x | x in table ensures table[x] < |frames| && FrameOk(frames[table[x]], x, live, pins - {id}, stuck + {id}, written, saved) {
      assert FrameOk(frames[table[x]], x, live, pins, stuck, written, saved);
    }
  }

  lemma LessOne(s: set<nat>, id: nat)
    ensures |s - {id}| <= |s| && (id !in s ==> s - {id} == s)
  {
    SubsetSize(s - {id}, s);
  }

  lemma Together(a: set<nat>, b: set<nat>)
    ensures |a + b| <= |a| + |b|
  {
    assert |a + b| == |a| + |b - a|;
    SubsetSize(b - a, b);
  }

  lemma DirtyOk(table: map<nat, nat>, owner: seq<nat>, frames: seq<BFrame>, id: nat, live: map<nat, Page>, pins: set<nat>, stuck: set<nat>, written: set<nat>, saved: map<nat, Page>)
    requires Table(table, owner, NONE) && FramesOk(table, frames, live, pins, stuck, written, saved)
    requires id in table && id in live && table[id] < |frames|
    ensures FramesOk(table, frames[table[id] := frames[table[id]].(dirty := true)], live, pins, stuck, written - {id}, saved)
  {
    assert FrameOk(frames[table[id]], id, live, pins, stuck, written, saved);
    OneFrame(table, owner, frames, id, frames[table[id]].(dirty := true), live, pins, stuck, written, saved, live, pins, stuck, written - {id});
  }

  lemma WriteOk(table: map<nat, nat>, owner: seq<nat>, frames: seq<BFrame>, id: nat, page: Page, live: map<nat, Page>, pins: set<nat>, stuck: set<nat>, written: set<nat>, saved: map<nat, Page>)
    requires Table(table, owner, NONE) && FramesOk(table, frames, live, pins, stuck, written, saved) && OnDisk(table, live, saved)
    requires id in table && id in live && table[id] < |frames| && (id in pins || frames[table[id]].dirty)
    ensures
      var written' := written + (if frames[table[id]].dirty then {} else {id});
      && FramesOk(table, frames[table[id] := frames[table[id]].(page := page)], live[id := page], pins, stuck, written', saved)
      && OnDisk(table, live[id := page], saved)
  {
    var written' := written + (if frames[table[id]].dirty then {} else {id});
    assert FrameOk(frames[table[id]], id, live, pins, stuck, written, saved);
    OneFrame(table, owner, frames, id, frames[table[id]].(page := page), live, pins, stuck, written, saved, live[id := page], pins, stuck, written');
  }

  lemma NewId(table: map<nat, nat>, live: map<nat, Page>, pins: set<nat>, stuck: set<nat>, written: set<nat>, issued: set<nat>, id: nat)
    requires IdsOk(table, live, pins, stuck, written, issued) && id !in issued && id != 0
    ensures id !in table && id !in live && id !in pins + stuck && id !in written
  {
  }

  lemma NewOk(table: map<nat, nat>, owner: seq<nat>, frames: seq<BFrame>, slot: nat, id: nat, f: BFrame, live: map<nat, Page>, pins: set<nat>, stuck: set<nat>, written: set<nat>, saved: map<nat, Page>)
    requires Table(table, owner, slot) && slot < |frames|
    requires FramesOk(table, frames, live, pins, stuck, written, saved) && OnDisk(table, live, saved)
    requires id !in table && id !in live && id !in stuck && f.fixCount == 1 && f.dirty && f.pageId == id
    ensures FramesOk(table[id := slot], frames[slot := f], live[id := f.page], pins + {id}, stuck, written, saved)
    ensures OnDisk(table[id := slot], live[id := f.page], saved)
  {
    var live', pins' := live[id := f.page], pins + {id};
    forall x | x in table ensures table[x] < |frames| && FrameOk(frames[table[x]], x, live', pins', stuck, written, saved) {
      assert FrameOk(frames[table[x]], x, live, pins, stuck, written, saved);
    }
    assert FramesOk(table, frames, live', pins', stuck, written, saved);
    RegisterOk(table, owner, frames, slot, id, f, live', pins', stuck, written, saved);
  }

  lemma NewIds(table: map<nat, nat>, slot: nat, live: map<nat, Page>, page: Page, pins: set<nat>, stuck: set<nat>, written: set<nat>, issued: set<nat>, id: nat)
    requires IdsOk(table, live, pins, stuck, written, issued) && id != 0
    ensures IdsOk(table[id := slot], live[id := page], pins + {id}, stuck, written, issued + {id})
  {
  }

  lemma RegisterIds(table: map<nat, nat>, slot: nat, live: map<nat, Page>, pins: set<nat>, stuck: set<nat>, written: set<nat>, issued: set<nat>, id: nat)
    requires IdsOk(table, live, pins, stuck, written, issued) && id in issued
    ensures IdsOk(table[id := slot], live, pins, stuck, written, issued)
  {
  }

  lemma DropIds(table: map<nat, nat>, live: map<nat, Page>, pins: set<nat>, stuck: set<nat>, written: set<nat>, issued: set<nat>, id: nat)
    requires IdsOk(table, live, pins, stuck, written, issued) && id !in pins
    ensures IdsOk(table, live - {id}, pins, stuck - {id}, written, issued) && id !in written
  {
  }

  lemma DropOk(table: map<nat, nat>, owner: seq<nat>, frames: seq<BFrame>, id: nat, live: map<nat, Page>, pins: set<nat>, stuck: set<nat>, written: set<nat>, saved: map<nat, Page>)
    requires Table(table, owner, NONE) && FramesOk(table, frames, live, pins, stuck, written, saved) && OnDisk(table, live, saved)
    requires id in table && table[id] < |frames|
    ensures FramesOk(table, frames[table[id] := frames[table[id]].(pageId := 0, marked := false, dirty := false, fixCount := 0)], live - {id}, pins, stuck - {id}, written, saved)
    ensures OnDisk(table, live - {id}, saved)
  {
    var f := frames[table[id]].(pageId := 0, marked := false, dirty := false, fixCount := 0);
    OneFrame(table, owner, frames, id, f, live, pins, stuck, written, saved, live - {id}, pins, stuck - {id}, written);
  }

  lemma DropAway(table: map<nat, nat>, frames: seq<BFrame>, id: nat, live: map<nat, Page>, pins: set<nat>, stuck: set<nat>, written: set<nat>, saved: map<nat, Page>)
    requires FramesOk(table, frames, live, pins, stuck, written, saved) && OnDisk(table, live, saved) && id !in table
    ensures FramesOk(table, frames, live - {id}, pins, stuck, written, saved) && OnDisk(table, live - {id}, saved)
  {
    forall x | x in table ensures table[x] < |frames| && FrameOk(frames[table[x]], x, live - {id}, pins, stuck, written, saved) {
      assert FrameOk(frames[table[x]], x, live, pins, stuck, written, saved);
    }
  }
}
