/**
 * The disk (storage_manager.cc): the data file as an array of pages, and the
 * bitmap that hands out page ids.
 */
module Storage {
  import opened Common
  import opened Pages

  /** A page in the file: the id in its header and its contents. */
  datatype DiskPage = DiskPage(pageId: nat, page: Page)

  /** Loading fails where the original stops the program: beyond the last page of the file. */
  datatype LoadResult = Loaded(disk: DiskPage) | NoSuchPage

  predicate Free(bits: seq<bool>, id: nat) {
    id >= |bits| || bits[id]
  }

  /** next is the smallest free id above 0, and id 0 is never free. */
  ghost predicate SmallestFree(bits: seq<bool>, next: nat) {
    0 < next < |bits| && bits[next] && forall i :: 0 <= i < next ==> !bits[i]
  }

  /** Every page in saved is in the file under its own id. */
  ghost predicate Holds(file: seq<DiskPage>, saved: map<nat, Page>) {
    forall id :: id in saved ==> id < |file| && file[id] == DiskPage(id, saved[id])
  }

  /** The file after a page was written: a gap before it is filled with copies of it. */
  ghost function FileWith(file: seq<DiskPage>, disk: DiskPage): seq<DiskPage> {
    if disk.pageId < |file| then file[disk.pageId := disk] else file + seq(disk.pageId + 1 - |file|, _ => disk)
  }

  /** What a reader of the file sees: this page, the others as they were, and nothing behind the larger of both ends. */
  lemma FileWithIs(file: seq<DiskPage>, disk: DiskPage)
    ensures |FileWith(file, disk)| == if |file| <= disk.pageId then disk.pageId + 1 else |file|
    ensures forall id :: 0 <= id < |FileWith(file, disk)| ==> FileWith(file, disk)[id] == if id < |file| && id != disk.pageId then file[id] else disk
  {
  }

  class StorageManager {
    const bitmapIncrement: nat
    /** true marks a free id */
    var freeSpaceMap: seq<bool>
    var file: seq<DiskPage>
    var currentPageCount: nat
    var nextFreeSpace: nat

    /** The contents last saved for each page. */
    ghost var saved: map<nat, Page>

    ghost predicate Valid()
      reads this
    {
      && bitmapIncrement > 0
      && currentPageCount == |file|
      && SmallestFree(freeSpaceMap, nextFreeSpace)
      && Holds(file, saved)
    }

    predicate IsFree(id: nat)
      reads this
    {
      Free(freeSpaceMap, id)
    }

    constructor (pageSize: nat)
      requires pageSize > 0
      ensures Valid() && saved == map[] && file == []
      ensures bitmapIncrement % 8 == 0 && pageSize <= bitmapIncrement < pageSize + 8 && |freeSpaceMap| == bitmapIncrement
      ensures !IsFree(0) && forall id :: id > 0 ==> IsFree(id)
    {
      bitmapIncrement := (pageSize + 7) / 8 * 8;
      file, currentPageCount, nextFreeSpace, saved := [], 0, 1, map[];
      freeSpaceMap := [];
      new;
      freeSpaceMap := seq(bitmapIncrement, _ => true);
      freeSpaceMap := freeSpaceMap[0 := false];
      assert freeSpaceMap[1];
      FindNextFreeSpace();
    }

    /** The first set bit behind position pos. */
    method FindNext(pos: nat) returns (r: Option<nat>)
      ensures r.None? ==> forall i :: pos < i < |freeSpaceMap| ==> !freeSpaceMap[i]
      ensures r.Some? ==> pos < r.value < |freeSpaceMap| && freeSpaceMap[r.value]
      ensures r.Some? ==> forall i :: pos < i < r.value ==> !freeSpaceMap[i]
    {
      var i := pos + 1;
      while i < |freeSpaceMap|
        invariant pos < i
        invariant forall j :: pos < j < i && j < |freeSpaceMap| ==> !freeSpaceMap[j]
      {
        if freeSpaceMap[i] {
          return Some(i);
        }
        i := i + 1;
      }
      return None;
    }

    method FindNextFreeSpace()
      requires bitmapIncrement > 0 && 0 < nextFreeSpace <= |freeSpaceMap|
      requires forall i :: 0 <= i < nextFreeSpace ==> !freeSpaceMap[i]
      modifies this`freeSpaceMap, this`nextFreeSpace
      ensures SmallestFree(freeSpaceMap, nextFreeSpace)
      ensures |freeSpaceMap| == old(|freeSpaceMap|) + if exists i :: 0 <= i < old(|freeSpaceMap|) && old(freeSpaceMap)[i] then 0 else bitmapIncrement
      ensures forall id: nat :: IsFree(id) == old(IsFree(id))
    {
      var r := FindNext(nextFreeSpace - 1);
      if r.None? {
        var previousSize := |freeSpaceMap|;
        freeSpaceMap := freeSpaceMap + seq(bitmapIncrement, _ => true);
        assert freeSpaceMap[previousSize];
        r := FindNext(previousSize - 1);
      }
      nextFreeSpace := r.value;
    }

    /** Writing a page, filling a gap before it with copies of it, keeps every other saved page. */
    method SavePage(pageId: nat, page: Page)
      requires Valid()
      modifies this
      ensures Valid() && saved == old(saved)[pageId := page] && file == FileWith(old(file), DiskPage(pageId, page))
      ensures |file| == if old(|file|) <= pageId then pageId + 1 else old(|file|)
      ensures forall id: nat :: IsFree(id) == (old(IsFree(id)) && id != pageId)
    {
      while |freeSpaceMap| <= pageId
        invariant SmallestFree(freeSpaceMap, nextFreeSpace)
        invariant forall id: nat :: IsFree(id) == old(IsFree(id))
        modifies this`freeSpaceMap
      {
        freeSpaceMap := freeSpaceMap + seq(bitmapIncrement, _ => true);
      }
      Put(pageId, page);
      freeSpaceMap := freeSpaceMap[pageId := false];
      saved := saved[pageId := page];
      FindNextFreeSpace();
    }

    method Put(pageId: nat, page: Page)
      requires currentPageCount == |file| && Holds(file, saved)
      modifies this`file, this`currentPageCount
      ensures currentPageCount == |file| && Holds(file, saved[pageId := page]) && file == FileWith(old(file), DiskPage(pageId, page))
    {
      var header := DiskPage(pageId, page);
      if currentPageCount <= pageId {
        while currentPageCount <= pageId
          invariant currentPageCount == |file|
          invariant Holds(file, saved)
          invariant old(|file|) <= currentPageCount <= pageId + 1 && file == old(file) + seq(currentPageCount - old(|file|), _ => header)
          modifies this`file, this`currentPageCount
        {
          file := file + [header];
          currentPageCount := currentPageCount + 1;
        }
      } else {
        file := file[pageId := header];
      }
    }

    method LoadPage(pageId: nat) returns (r: LoadResult)
      requires Valid()
      ensures r == if pageId < |file| then Loaded(file[pageId]) else NoSuchPage
      ensures pageId in saved ==> r == Loaded(DiskPage(pageId, saved[pageId]))
    {
      if pageId > currentPageCount {
        return NoSuchPage;
      }
      if pageId == currentPageCount {
        return NoSuchPage; // the read hits the end of the file
      }
      return Loaded(file[pageId]);
    }

    method DeletePage(pageId: nat)
      requires Valid() && pageId != 0
      modifies this`freeSpaceMap, this`nextFreeSpace
      ensures Valid()
      ensures forall id: nat :: IsFree(id) == (old(IsFree(id)) || id == pageId)
    {
      if |freeSpaceMap| > pageId {
        freeSpaceMap := freeSpaceMap[pageId := true];
      }
      if pageId < nextFreeSpace {
        nextFreeSpace := pageId;
      }
    }

    /** The smallest free id, which is in use afterwards. */
    method GetUnusedPageId() returns (next: nat)
      requires Valid()
      modifies this`freeSpaceMap, this`nextFreeSpace
      ensures Valid()
      ensures next != 0 && old(IsFree(next)) && forall id: nat :: id < next ==> !old(IsFree(id))
      ensures forall id: nat :: IsFree(id) == (old(IsFree(id)) && id != next)
    {
      next := nextFreeSpace;
      freeSpaceMap := freeSpaceMap[next := false];
      FindNextFreeSpace();
    }
  }
}
