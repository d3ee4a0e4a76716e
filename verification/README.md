# Verified model of the storage engine

A B+ tree on a buffer manager, with an adaptive radix tree in front of it as a
cache of leaf pages. The project models the engine in Dafny, layer by layer, and
proves each layer against the abstraction of the one below.

| file | layer |
|---|---|
| `StorageManager.dfy` | the file of pages and the page id allocator |
| `BufferManager.dfy` | frames, fix counts, dirty bits, second-chance eviction |
| `BNodes.dfy`, `Pages.dfy` | B+ tree nodes as arrays, and the page functions they compute |
| `BTreeModel.dfy`, `BTreeSearch.dfy`, `BTreeInsert.dfy`, `BTreeDelete.dfy`, `BTreeLeaves.dfy`, `BTreeChain.dfy` | the B+ tree as a value: invariant, splits, borrows, merges, deletion, leaf chain |
| `BTreeEnter.dfy` | which tree an insertion leaves, in particular along a path without full nodes; cached deletions that change one leaf only |
| `BTreeStale.dfy` | which deletions are clean for a caller, and a tree on which one is not |
| `BTreeStore.dfy`, `BTreeSteps.dfy`, `BTreePages.dfy`, `BTreeMoves.dfy` | the same steps on pages and on the cached entries |
| `BPlusTree.dfy` | the B+ tree class: page requests, pins, writes, calls to the cache |
| `RadixKeys.dfy`, `RadixModel.dfy`, `RadixSpec.dfy`, `RadixLanding.dfy`, `RadixStore.dfy`, `RadixRing.dfy`, `RadixTree.dfy` | the radix tree: key bytes, the tree as a value, insertion and deletion as functions, where searches end, nodes in memory, the ring of inserted keys, the class |
| `RadixRuns.dfy` | runs of the radix tree: what it weighs while it grows and shrinks, and what goes when the budget is used up |
| `RNodes.dfy`, `RLayouts.dfy` | the four radix node layouts, and the node records they stand for |
| `TreeOperations.dfy`, `Bits.dfy` | the scan over the leaf chain, and the bits of its sum |
| `DataManager.dfy` | cache first, then tree |
| `DataLost.dfy`, `DataStale.dfy` | runs of the engine: one that loses writes, one whose scan finds a deleted key, one that scans two equal values, one that makes a stored key unreachable |

How the pieces fit:

- `BufferManager.live` is the map from page ids to contents that clients see. Every
  method says what it does to `live`, whatever is evicted. A page written while it is
  fixed has to be reported dirty (`written`), which every caller in the model does.
- `BPlusTree.tree` is the tree that the pages reachable from the root add up to.
  `BPlusTree.Valid()` says that the live pages are exactly its pages, that it is
  ordered, balanced, filled and chained, that no page is fixed, and that every cached
  stored key names the leaf that holds it. With `Cfg.exact`, which is the case without
  a cache, every separator is also the largest key of the subtree on its left; with a
  cache separators are only bounds, since deletions on cached leaves leave them alone.
- `Turn` describes a change of a subtree: its old pages became the new ones, no page
  outside was touched or lost, and only cached keys of its key range were re-pointed.
  Each split, borrow, merge and leaf write is a turn, and turns compose.
- `Grew` and `GrewRoot` say which tree an insertion leaves, up to the ids of new pages: the
  full nodes on the way of the key, and no others, are split once, and the leaf the way
  then ends at gets the pair.
- `Del` is deletion as a function on trees; `RecursiveDelete` computes it for every
  tree and key. What it does to lookups is settled by `DeleteIff`: deleting is right
  exactly if the key is stored or no separator equal to it is met on the way down. A
  key that is no separator of the tree is always deleted cleanly (`UnmarkedIsClean`).
  With a cache a separator can outlive its key: `UnreachableKey` is a run of the engine
  that gets to such a tree by insertions and one deletion on a cached leaf, and then
  makes another stored key unreachable by deleting the first one again.
- `Inserted` and `Deleted` are radix insertion and deletion as functions on trees without
  addresses, kinds, header keys and prefixes included; the methods compute them, so that
  the byte count, which is exact for every tree, is known after every operation. `Lean`
  is part of `RadixTree.Valid()`: no node is of a kind its fill has not called for.
- `RadixTree.Contents()` is the cache as a map from keys to (page id, frame). A search
  compares only the bytes it branches on, so for a key that is not cached it may end at
  the entry of another one; `Served` is the page the cache then answers with. Which
  entry that is depends on the set of cached keys alone (`Canonical`). An insertion
  beyond the byte budget does nothing but evict the entry that a search for the oldest
  key in the ring ends at; `refused` remembers that it happened, and from then on
  coherence is not claimed (`BPlusTree.View`).
- What an operation of the engine does to the cache is a relation on `CacheState`: the
  cached keys, the bytes, the ring and the cost of growing the root. `Looked` is a lookup,
  `Took` an insertion with its eviction, `Lost` a deletion; `Asked` and `Erased` compose
  them for reads, updates and scans, and for deletions. `LandedOf` is the cached key that
  a search ends at as a function of the set of cached keys.
- `DataManager` reads are right whatever the cache holds. Writes are described exactly:
  they are lost just when the cache answers with a page that does not hold the key
  (`Direct`), and for deletions only if that page can spare one (`Spares`).
  `CachedIsDirect` shows that this cannot happen to a key that is cached coherently. It
  does happen: `LostKey` is a run of the engine, insertions and one
  deletion of a key that was never stored, after which a stored key is in that state
  although no insertion into the cache was refused.
- A scan tests the array word at the key's rank without asking whether a key is there.
  Behind the last key of a leaf that word may be the remnant of a deleted key, or the
  first value. `slot` gives the word behind the last key of each leaf and is free;
  `BOuterNode.Behind` is what the arrays hold, and `ScanDeleted` is a run in which a scan
  from a deleted key succeeds. Of the three outcomes of `DataManager.Scan` exactly one
  applies: it reaches the leaf of its key, goes astray to another leaf, or fails.
- The program can be built with assertions or without (`asserts`), which is the default.
  With them a failed scan ends the run. Without them it answers INT64_MIN, its page is
  never released (`BufferManager.stuck`), and after the cache has failed the tree is
  asked. All contracts hold with any pages stuck as long as three frames are left.
- Inserting a key that is stored already stores it twice, and just then the engine is no
  longer valid.
- Termination: insertion by (root is full, height), deletion by (height, the chosen child
  is still poor), radix insertion by (root is full), radix descents by the remaining depth.
- Apart from stuck pages, at most three pages are fixed at any time, none twice, and none
  between operations; three frames without stuck pages therefore always have one to
  evict. Radix node fix counts also return to zero.

Where the code and its comments differ the model follows the code: `DeleteValue` of the
radix tree reports success also when the page it found does not hold the key, although
its comment speaks of deleting the value (src/radix_tree/radix_tree.h:1492-1497), and
a deleted page id is never handed out again, since the call that would free it is
commented out (src/data/buffer_manager.cc:69).

## Model

| member | source | states |
|---|---|---|
| `Data.DataManager.GetValue` | src/data/data_manager.h:116-125 | for every cache content (stale frame, entry of another key, wrong leaf, refused insertions) the answer is the map's value, or INT64_MIN for a key that is not stored; the tree stays, and the cache changes by the lookup and, if the tree had to find the value, the insertion of the key: its keys, its ring, what is evicted and whether it is; no page becomes dirty |
| `Data.DataManager.Insert` | src/data/data_manager.h:105-109 | for any key the pairs are the old ones and the new one, and the tree is the one the splits on the way give; the engine stays valid, with the map extended, if and only if the key was absent, since a stored key is stored twice; the cache changes by the insertion of the key; without a split no other page than that of the leaf becomes dirty |
| `Data.DataManager.Update` | src/data/data_manager.h:149-157 | exact outcome: the map update in one leaf, except that nothing happens when the cache answers with a page that does not hold the key; unless the cache served the key it is entered into the cache with its leaf, stored or not; no other page becomes dirty than that of the leaf asked |
| `Data.DataManager.DeleteValue` | src/data/data_manager.h:89-98 | exact outcome: the map without the key, except that nothing happens when the cache answers with a page that can spare a key but does not hold this one; the key is never cached afterwards, and the cache loses the entries that the searches for it end at and no other, after a key that changed its leaf for the deletion was entered anew; afterwards the engine is valid if and only if the cached leaf could spare a key or the deletion was clean |
| `Data.DataManager.Scan` | src/data/data_manager.h:133-142 | total, for both builds and any words behind the last keys: a scan that reaches the leaf of its key reports the XOR over the pairs from the key's place on; one that the cache leads astray starts at another leaf; any other one fails, by assertion with one page fixed, or with INT64_MIN and a page that is never released, after the tree was asked too; the key is entered into the cache exactly if the tree is scanned and its leaf passes the test; no page becomes dirty |
| `Data.DataManager.StoredReaches` | src/data/data_manager.h:133-142 | a scan from a stored key reaches its leaf if the cache serves a page that holds it, and without assertions whenever it does not go astray |
| `Data.DataManager.ScanIff` | src/utils/tree_operations.h:41-42 | if no word behind a last key equals the key, a scan reaches its leaf if and only if the key is stored and, with assertions, served by a page that holds it |
| `Data.DataManager.ReachesIs` | src/data/data_manager.h:133-142 | which of the three outcomes applies, from the page the cache serves; on the key's own leaf its rank there is its place among all pairs |
| `Data.DataManager.CachedIsDirect` | src/radix_tree/radix_tree.h:1454-1517 | a stored key that is cached, in a run in which no insertion was refused, is served from the very leaf that holds it or not at all, so that update and delete are exact for it |
| `Data.DataManager.LandsElsewhere` | src/radix_tree/radix_tree.h:693-730 | a key whose search ends at the current entry of another cached key is served by that key's leaf: whether a write is lost is decided by what that leaf holds and can spare |
| `Lost.LostKey` | src/radix_tree/radix_tree.h:1454-1517 | a run of the engine (five insertions, one deletion of a key never stored, no refusal) after which a stored key is served by a leaf that lacks it and can spare a key: update and deletion of it are lost, and a scan from it does not get to its leaf by way of the cache |
| `Lost.ScanDeleted` | src/utils/tree_operations.h:37-60 | a run, in either build and without a cache: insert 1 to 4 into leaves of four, delete 4, scan from 4: the scan succeeds with the empty sum |
| `Lost.ScanTwo` | src/utils/tree_operations.h:33-78 | a run, in either build and without a cache: insert 1 and 2 with the value 1 each, scan two from 1: the answer is 0 |
| `Lost.Remnant` | src/bplus_tree/b_nodes.h:298-311 | the arrays of a leaf after these operations still hold 4 behind the last key, where the test of a scan finds it |
| `Lost.RemnantReaches` | src/utils/tree_operations.h:37-60 | for every engine without a cache: a scan from a key above all stored ones reaches the last leaf if the word behind its last key is that key |
| `Stale.UnreachableKey` | src/bplus_tree/bplus_tree.h:250-263 | a run of the engine with leaves of four: insert 5, 10, 11, 12, 1, 8, read 10, delete 10 twice; then 8 is among the stored pairs, the search does not find it, and the engine is not valid |
| `Stale.DropTen` | src/radix_tree/radix_tree.h:1497-1517 | the first of these deletions happens on the cached leaf and leaves 10 as a separator |
| `Stale.SplitRootLeaf` | src/bplus_tree/bplus_tree.h:92-113 | the insertions of 1 and 8 split the root leaf below the separator 10 and fill the left half |
| `Stale.LandsNowhere` | src/radix_tree/radix_tree.h:693-730 | with 1, 5, 8, 11 and 12 cached, in whatever order, a search for 10 ends nowhere |
| `Lost.ThreeIsLost` | src/radix_tree/radix_tree.h:693-730 | with 256 to 259 cached and 3 stored but not cached, the cache answers for 3 with the leaf of 259, which cannot be the leaf of 3 |
| `Lost.Forget` | src/radix_tree/radix_tree.h:1497-1517 | deleting 65539, never stored, on the cached leaf of 3 drops the cache entry of 3 and changes nothing else |
| `Lost.LandsAt3` | src/radix_tree/radix_tree.h:693-730 | with 3, 256, 257 and 258 cached, in whatever order, a search for 65539 ends at 3 |
| `Lost.LandsAt259` | src/radix_tree/radix_tree.h:693-730 | with 256 to 259 cached, in whatever order, a search for 3 ends at 259 |
| `Data.DataManager.AskDelete` | src/radix_tree/radix_tree.h:1497-1517 | the deletion on the cached leaf removes exactly the key from the tree's pairs when the leaf holds it, keeps minimum fill and leaves separators valid as bounds |
| `Data.DataManager.AskUpdate` | src/radix_tree/radix_tree.h:1454-1468 | the update on the cached leaf changes exactly the key's value when the leaf holds it, and nothing else otherwise; a lookup that is not served loses the stale entry and no other |
| `Data.DataManager.AskScan` | src/radix_tree/radix_tree.h:1477-1490 | a scan served by the cache reports the sum from the key's rank on the served page, wherever that is in the tree, or fails if and only if that page does not pass the test |
| `Data.ServedAnswer` | src/radix_tree/radix_tree.h:1431-1446 | what any leaf page of the tree answers for a key is the right value if it holds the key, and absent otherwise |
| `Data.DataManager.constructor` | src/data/data_manager.h:45-55 | the assembled engine starts empty and valid, with or without a cache |
| `BPlus.BPlusTree.Insert` | src/bplus_tree/bplus_tree.h:1063-1066 | for any key the tree afterwards is the old one with every full node on the key's way, and no other, split once and the pair in the leaf the way then ends at: exactly the old pairs and the new one; nothing stays fixed, no page leaks, the cache still agrees and changes by the insertion of the key; the tree is valid if and only if the key was absent |
| `BPlus.BPlusTree.RecursiveInsert` | src/bplus_tree/bplus_tree.h:46-186 | the descent terminates although it restarts from a new root, enters only nodes with room, splits exactly the full nodes it meets, touches no page outside the subtree and re-points only cached keys of its range |
| `BPlus.BPlusTree.InsertInLeaf` | src/bplus_tree/bplus_tree.h:76-85 | the target leaf is never full, its cached key points to it and to its frame afterwards, and a leaf at its minimum fill can then spare a key |
| `BPlus.BPlusTree.InsertInNode` | src/bplus_tree/bplus_tree.h:115-184 | a full child is split before it is entered and the key is routed to the right half |
| `BPlus.BPlusTree.SplitChild` | src/bplus_tree/bplus_tree.h:125-136 | the split child and its new sibling hang under the node with the right separator, which had room for it: the node with that child cut at the split index |
| `BPlus.BPlusTree.GrowRoot` | src/bplus_tree/bplus_tree.h:92-113 | a full root is split below a new root of height one more with the same pairs |
| `BPlus.BPlusTree.SplitOuterNode` | src/bplus_tree/bplus_tree.h:346-377 | page contents after the split are those of the tree cut at the index, the chain runs through the new leaf, and exactly the cached keys of the upper half name it |
| `BPlus.BPlusTree.SplitInnerNode` | src/bplus_tree/bplus_tree.h:385-408 | page contents after the split are those of the tree cut at the middle key, which leaves both halves |
| `BPlus.BPlusTree.Delete` | src/bplus_tree/bplus_tree.h:1072-1075 | for any key, stored or not, the pages hold the tree the deletion function describes, with exactly the key's pair gone; the key is not cached afterwards: the cache loses the entry that a search for it ends at and no other, after a key that changed its leaf was entered anew; the engine is valid if and only if the deletion is clean, and so always without a cache |
| `BPlus.BPlusTree.RecursiveDelete` | src/bplus_tree/bplus_tree.h:193-310 | every step of the descent (repair, exchange, root collapse, leaf deletion) is the step of the deletion function, terminates, touches only the subtree's pages and keeps the cache in agreement; the key leaves the cache at the leaf, and the one key a leaf repair moves is entered anew before |
| `BPlus.BPlusTree.DeleteInLeaf` | src/bplus_tree/bplus_tree.h:195-203 | the pair goes from the leaf, and the entry that a search for the key ends at from the cache, in which the key is not any more |
| `BPlus.BPlusTree.CacheDelete` | src/bplus_tree/bplus_tree.h:200-201 | exactly the entry that a search for the key ends at leaves the cache, which decides by the set of cached keys; the key itself is not cached any more |
| `BPlus.BPlusTree.CollapseRoot` | src/bplus_tree/bplus_tree.h:209-216 | a root without keys is given up and its only child becomes the root |
| `BPlus.BPlusTree.DeleteInKid` | src/bplus_tree/bplus_tree.h:251-264 | a node is entered only when it can give a key, after its separator has been exchanged if it equals the key |
| `BPlus.BPlusTree.ExchangeKey` | src/bplus_tree/bplus_tree.h:254-262 | the separator is replaced by the second largest key of the subtree on its left, with at most three pages fixed; without an exchange no page becomes dirty |
| `BPlus.BPlusTree.FindBiggestKey` | src/bplus_tree/bplus_tree.h:708-725 | returns the second largest key of the rightmost leaf, in bounds, and releases every page it fixed |
| `BPlus.BPlusTree.Substitute` | src/bplus_tree/bplus_tree.h:429-545 | succeeds exactly when a neighbour can give a key, left neighbour first, and then the subtree is the one with that key moved across the separator; a key moved between leaves is entered into the cache anew, and otherwise the cache is not touched |
| `BPlus.BPlusTree.Merge` | src/bplus_tree/bplus_tree.h:552-701 | the poor child and a neighbour become one page, left neighbour first; the right page is given up, its cached keys follow |
| `BPlus.BPlusTree.BorrowLeftOuter` | src/bplus_tree/bplus_tree.h:493-510 | last pair of the left leaf and the separator move together, and the key is entered into the cache with its new leaf |
| `BPlus.BPlusTree.BorrowRightOuter` | src/bplus_tree/bplus_tree.h:516-533 | first pair of the right leaf and the separator move together, and the key is entered into the cache with its new leaf |
| `BPlus.BPlusTree.BorrowLeftInner` | src/bplus_tree/bplus_tree.h:443-454 | last child of the left node moves through the separator |
| `BPlus.BPlusTree.BorrowRightInner` | src/bplus_tree/bplus_tree.h:461-471 | first child of the right node moves through the separator |
| `BPlus.BPlusTree.MergeOuter` | src/bplus_tree/bplus_tree.h:633-691 | the pairs fit, no insertion meets a full page, the survivor takes over the successor link and the cached keys |
| `BPlus.BPlusTree.MergeInner` | src/bplus_tree/bplus_tree.h:566-612 | separator and children of the right node fit into the left one, no insertion meets a full page |
| `BPlus.BPlusTree.GetValue` | src/bplus_tree/bplus_tree.h:1082-1085 | the value of the key in the tree, INT64_MIN if it has none; the tree stays and the cache still agrees; the key is entered into the cache exactly if it has a value |
| `BPlus.BPlusTree.RecursiveGetValue` | src/bplus_tree/bplus_tree.h:317-338 | the leaf's answer; a value found is entered into the cache with its leaf and frame, and otherwise the cache is not touched |
| `BPlus.BPlusTree.Update` | src/bplus_tree/bplus_tree.h:1103-1106 | exactly the value of a stored key changes, in its leaf; an absent key changes nothing; either way the key is entered into the cache with its leaf |
| `BPlus.BPlusTree.RecursiveUpdate` | src/bplus_tree/bplus_tree.h:733-752 | only the leaf the key leads to is written, and the key is entered into the cache with that leaf and its frame, stored or not |
| `BPlus.BPlusTree.Scan` | src/bplus_tree/bplus_tree.h:1093-1096 | if the key's leaf passes the test, and so for every stored key, the XOR of the values of the first min(range, remaining) keys from the given one on, INT64_MIN replaced by INT64_MIN + 1, and the key is entered into the cache; otherwise the cache stays and the assertion fails, or the answer is INT64_MIN and the leaf is never released |
| `BPlus.BPlusTree.RecursiveScan` | src/bplus_tree/bplus_tree.h:761-774 | the descent ends at the leaf of the key and hands over to the scan of it, which enters the key into the cache exactly if the leaf passes the test |
| `BPlus.BPlusTree.ScanAt` | src/utils/tree_operations.h:33-78 | if the leaf passes the test, on a key or on the word behind the last one, the key is entered into the cache and the chain is walked; otherwise the cache is not touched |
| `BPlus.BPlusTree.constructor` | src/bplus_tree/bplus_tree.h:1049-1056 | one empty leaf, valid |
| `BPlus.BPlusTree.CacheInsert` | src/bplus_tree/bplus_tree.h:79-82 | what an insertion does to the cache: accepted exactly if the budget allows it, then the key is cached with a fixed leaf page and its frame, and the ring remembers it; otherwise exactly the entry that a search for the oldest key in the ring ends at is gone |
| `BPlus.BPlusTree.CacheUpdateRange` | src/bplus_tree/bplus_tree.h:357-361 | exactly the cached keys in the range are re-pointed; keys, bytes and ring stay |
| `BTreeInsert.SplitKidOK` | src/bplus_tree/bplus_tree.h:125-136 | splitting a full child keeps order, fill, height, chain and pairs of the node |
| `BTreeInsert.SplitRootOK` | src/bplus_tree/bplus_tree.h:53-74 | splitting the root keeps the pairs and the invariant, one level higher |
| `BTreeInsert.InsertKidOK` | src/bplus_tree/bplus_tree.h:145-150 | an insertion into the routed child is an insertion into the node, with exact separators still exact |
| `BTreeModel.RepairOK` | src/bplus_tree/bplus_tree.h:429-701 | whichever borrow or merge is chosen, the node keeps its pairs, order, fill and chain |
| `BTreeDelete.RepairRoute` | src/bplus_tree/bplus_tree.h:228-250 | after a repair the key still leads to a child, which now can give a key |
| `BTreeDelete.LentAtRepair` | src/bplus_tree/bplus_tree.h:429-545 | at most one key changes its leaf in a whole deletion: the one that the key's own leaf borrows |
| `BTreeDelete.DelFlat` | src/bplus_tree/bplus_tree.h:193-310 | deleting any key removes exactly its pair from the leaves and keeps the outer chain links |
| `BTreeDelete.DelOK` | src/bplus_tree/bplus_tree.h:193-310 | a clean deletion keeps equal leaf depth, order, minimum fill, separators and chain through every borrow, merge, exchange and collapse |
| `BTreeDelete.DeleteIff` | src/bplus_tree/bplus_tree.h:250-263 | after deleting any key every later lookup is right if and only if the key was stored or no separator equal to it was met |
| `BTreeDelete.DeleteClean` | src/bplus_tree/bplus_tree.h:250-263 | in that case the invariant holds and the lookups answer for exactly the other keys |
| `BTreeDelete.ExactIsClean` | src/bplus_tree/bplus_tree.h:250-263 | with exact separators, as kept without a cache, every deletion is of that kind |
| `BTreeDelete.DelStale` | src/bplus_tree/bplus_tree.h:250-263 | otherwise some stored key becomes unreachable |
| `BTreeDelete.UncleanBreaks` | src/bplus_tree/bplus_tree.h:250-263 | and the invariant holds at no height |
| `BTreeStale.UnmarkedIsClean` | src/bplus_tree/bplus_tree.h:193-310 | deleting a key that is no separator anywhere in the tree is clean, whatever borrows, merges and collapses happen on the way |
| `BTreeStale.AbsentRepair` | src/bplus_tree/bplus_tree.h:429-701 | no borrow or merge makes a separator of a key that is nowhere in the tree |
| `BTreeStale.StaleExample` | src/bplus_tree/bplus_tree.h:250-263 | a tree, valid for an engine with a cache at the bounds of all keys, in which the separator 10 outlived its key: deleting 10 makes the stored key 8 unreachable |
| `BTreeEnter.SplitRoomy` | src/bplus_tree/bplus_tree.h:92-113 | after its split a leaf root offers a path with room, so that the insertion that split it changes one leaf more only |
| `BTreeEnter.EntersKid` | src/bplus_tree/bplus_tree.h:145-150 | an insertion that changes one leaf below a child changes one leaf of the node |
| `BTreeEnter.GrewSplit` | src/bplus_tree/bplus_tree.h:125-150 | an insertion below one half of a split child is the insertion that splits exactly the full nodes on its way |
| `BTreeEnter.GrewBelow` | src/bplus_tree/bplus_tree.h:92-113 | the same for an insertion below a split root |
| `BTreeDelete.Biggest` | src/bplus_tree/bplus_tree.h:708-725 | the key find_biggest returns is the largest one left in the subtree once its last key is deleted |
| `BTreeDelete.ExactSeparator` | src/bplus_tree/bplus_tree.h:253-263 | without a cache every separator is the largest stored key of the subtree on its left |
| `BTreeDelete.MoveSeparator` | src/bplus_tree/bplus_tree.h:253-263 | replacing separator and subtree together keeps all invariants |
| `BTreeSearch.SearchFlat` | src/bplus_tree/bplus_tree.h:317-338 | binary search at every level finds exactly the stored keys, with their values |
| `BTreeSteps.SplitTurn` | src/bplus_tree/bplus_tree.h:346-377 | a leaf split keeps every cached live key naming the page of its leaf |
| `BTreeSteps.RebalanceTurn` | src/bplus_tree/bplus_tree.h:483-540 | a borrow in either direction keeps every cached live key naming the page of its leaf |
| `BTreeSteps.MergeTurn` | src/bplus_tree/bplus_tree.h:622-700 | a merge keeps every cached live key naming the page of its leaf, and frees exactly one page |
| `BTreeSteps.TurnKid` | src/bplus_tree/bplus_tree.h:46-310 | a change below one child is a change of the node: no other page, no other cached key |
| `BTreeMoves.ChildIs` | src/bplus_tree/bplus_tree.h:437-442 | the search for a child id among the ids of the parent finds its one position |
| `BTreeLeaves.LeafSearch` | src/bplus_tree/bplus_tree.h:317-338 | the leaf a key leads to answers for the whole tree |
| `BTreeLeaves.SetOK` | src/radix_tree/radix_tree.h:1497-1517 | rewriting a leaf in place keeps the invariant as long as it keeps enough of its keys |
| `BTreeLeaves.SetDelete` | src/radix_tree/radix_tree.h:1497-1517 | deleting on the leaf alone removes exactly the key from the tree's pairs |
| `BTreeLeaves.SetUpdate` | src/bplus_tree/bplus_tree.h:733-752 | updating on the leaf alone updates exactly the key in the tree's pairs |
| `BTreeLeaves.HolderIs` | src/radix_tree/radix_tree.h:1497-1517 | a leaf page that holds a key is the leaf that key leads to |
| `BTreeLeaves.CohAt` | src/bplus_tree/bplus_tree.h:357-361 | a cached stored key names the page id of the leaf that holds it |
| `BTreeLeaves.EndsTogether` | src/bplus_tree/bplus_tree.h:317-338 | a leaf that holds the smallest and the largest key holds all pairs of the tree |
| `BTreeChain.FromRun` | src/bplus_tree/bplus_tree.h:369-372 | the next pointers from a key's leaf on list all later leaves in order and spell the values from the key's position on |
| `BTreeChain.ScanChain` | src/utils/tree_operations.h:33-78 | in a valid tree that chain ends with 0 and is the one a scan needs |
| `BTreeChain.LeafPageChain` | src/utils/tree_operations.h:33-78 | every leaf page of a valid tree starts such a chain, which spells the pairs from its first one on |
| `BTreeChain.StartOwn` | src/utils/tree_operations.h:37-41 | the place of a key among all pairs is that of its leaf plus its rank in the leaf |
| `TreeOperations.Scan` | src/utils/tree_operations.h:33-78 | the scan goes on exactly if the word at the key's rank is the key; otherwise the assertion fails with the leaf fixed, or INT64_MIN is returned and the leaf is never released |
| `TreeOperations.Passes` | src/utils/tree_operations.h:37-42 | the test holds exactly if the leaf has the key, or the key is above all of its keys and equals the word behind the last one |
| `TreeOperations.Walk` | src/utils/tree_operations.h:48-76 | the walk along the chain reports the XOR of the first min(range, remaining) values, keeps two pages fixed at most and releases them |
| `TreeOperations.XorParity` | src/utils/tree_operations.h:52-76 | every bit of the sum is the parity of that bit over the first min(n, number of values) values |
| `TreeOperations.XorCat` | src/utils/tree_operations.h:52-76 | the sum over two runs of values is the bitwise exclusive or of their sums |
| `BTreePages.MoveOuter` | src/bplus_tree/bplus_tree.h:363-367 | the copying loop of splits and merges appends the pairs in order and never meets a full page |
| `BTreePages.MoveInner` | src/bplus_tree/bplus_tree.h:396-402 | the same for keys with their right children |
| `BTreePages.FindChild` | src/bplus_tree/bplus_tree.h:437-442 | the first position of a child id |
| `BNodes.BinarySearch` | src/bplus_tree/b_nodes.h:46-60 | the number of keys below the given one |
| `BNodes.BOuterNode.Insert` | src/bplus_tree/b_nodes.h:260-277 | the shifting loop inserts the pair at its rank |
| `BNodes.BOuterNode.Update` | src/bplus_tree/b_nodes.h:284-292 | changes the value of a stored key only |
| `BNodes.BOuterNode.DeleteValue` | src/bplus_tree/b_nodes.h:298-311 | the shifting loop removes exactly the key's pair and leaves the old last key behind the new one |
| `BNodes.BOuterNode.PassesScan` | src/utils/tree_operations.h:37-42 | the test of a scan on the arrays is the test on the pairs and the word behind the last key, for a full leaf its first value read as a signed number |
| `BNodes.BOuterNode.GetValue` | src/bplus_tree/b_nodes.h:317-327 | the stored value or INT64_MIN |
| `BNodes.BInnerNode.NextPage` | src/bplus_tree/b_nodes.h:67-72 | the child at the key's rank |
| `BNodes.BInnerNode.Insert` | src/bplus_tree/b_nodes.h:79-96 | key at its rank, child to its right |
| `BNodes.BInnerNode.InsertFirst` | src/bplus_tree/b_nodes.h:103-115 | key and child in front |
| `BNodes.BInnerNode.DeleteValue` | src/bplus_tree/b_nodes.h:121-135 | the key goes with the child to its right |
| `BNodes.BInnerNode.DeleteFirstPair` | src/bplus_tree/b_nodes.h:140-149 | first key and first child go |
| `BNodes.BInnerNode.ContainsKey` | src/bplus_tree/b_nodes.h:155-160 | membership |
| `BNodes.BInnerNode.Exchange` | src/bplus_tree/b_nodes.h:167-171 | the key is replaced in place |
| `BNodes.BOuterNode.CanDeleteFrom` | src/bplus_tree/b_nodes.h:342-345 | the fill test of a leaf |
| `BNodes.BInnerNode.CanDeleteFrom` | src/bplus_tree/b_nodes.h:186-189 | the fill test of an inner node |
| `Pages.ToMapInsert` | src/bplus_tree/b_nodes.h:260-277 | a sorted page is a map: inserting an absent key is map extension |
| `Pages.InsertIff` | src/bplus_tree/b_nodes.h:260-277 | inserting keeps a page sorted without repetition if and only if the key is new |
| `Pages.ToMapDelete` | src/bplus_tree/b_nodes.h:298-311 | deleting is map removal |
| `Pages.ToMapUpdate` | src/bplus_tree/b_nodes.h:284-292 | updating is map update of a stored key |
| `Pages.ToMapGet` | src/bplus_tree/b_nodes.h:317-327 | lookup is map lookup |
| `Buffer.BufferManager.RequestPage` | src/data/buffer_manager.cc:26-39 | for every eviction choice the fixed frame holds what was last written to the page; fixed pages keep their frames; a page in the buffer costs one more fix and a mark and moves nothing; otherwise it gets a new frame while there is one, and only then the frame of an unfixed page |
| `Buffer.BufferManager.CreateNewPage` | src/data/buffer_manager.cc:41-65 | the smallest free id, never used before, in a fixed, marked and dirty frame, a new one while there is one; no other page changes |
| `Buffer.BufferManager.EvictPage` | src/data/buffer_manager.cc:104-131 | second chance: the victim is unfixed and unmarked, is written to the disk if and only if it is dirty, and leaves its frame alone; other frames lose at most the mark of an unfixed page; over picks of unfixed pages the loop ends, since each clears a mark or evicts |
| `Buffer.BufferManager.ObtainFrame` | src/data/buffer_manager.cc:41-53 | while the buffer is not full a new frame, and nothing moves; otherwise the frame of an evicted page |
| `Buffer.BufferManager.FetchPageFromDisk` | src/data/buffer_manager.cc:133-150 | the disk copy of a page outside the buffer is its last contents |
| `Buffer.BufferManager.UnfixPage` | src/data/buffer_manager.cc:93-102 | with assertions the fix count was one; exactly this frame loses a fix and stays or becomes dirty; a written page reported dirty stays safe |
| `Buffer.BufferManager.FixPage` | src/data/buffer_manager.cc:82-91 | fixes and marks an unfixed page that is in the buffer, and nothing else |
| `Buffer.BufferManager.MarkDirty` | src/data/buffer_manager.cc:152-159 | a written page is recorded as dirty, and nothing else changes |
| `Buffer.BufferManager.DeletePage` | src/data/buffer_manager.cc:67-80 | the page is gone, its frame is unfixed, unmarked and clean, so that it is never written |
| `Buffer.BufferManager.Destroy` | src/data/buffer_manager.cc:14-24 | afterwards the disk alone holds every live page |
| `Buffer.SaveOk` | src/data/buffer_manager.cc:119-128 | saving a dirty victim keeps: clean frames equal their disk copies, pages outside the buffer are on disk |
| `Buffer.SomeUnfixed` | src/data/buffer_manager.cc:106-113 | with fewer fixed and stuck pages than buffered ones an evictable frame exists |
| `Storage.StorageManager.SavePage` | src/data/storage_manager.cc:80-121 | the file afterwards: this page at its place, every other page as it was, a gap filled with copies, and no page more than that |
| `Storage.FileWithIs` | src/data/storage_manager.cc:80-121 | such a file is as long as the larger of the old file and the page's place, and differs from the old one in this page and the gap only |
| `Storage.StorageManager.LoadPage` | src/data/storage_manager.cc:57-78 | the page at this place of the file, and so the last contents of a saved page; a page beyond the file is an error |
| `Storage.StorageManager.GetUnusedPageId` | src/data/storage_manager.cc:136-142 | the smallest free id, never 0 and never one in use |
| `Storage.StorageManager.DeletePage` | src/data/storage_manager.cc:123-134 | exactly this id becomes free |
| `Storage.StorageManager.FindNextFreeSpace` | src/data/storage_manager.cc:144-153 | the allocator points to the smallest free id again |
| `RadixKeys.TransformBijection` | src/radix_tree/radix_tree.h:45-60 | transform and inverse_transform are inverse to each other |
| `RadixKeys.TransformOrder` | src/radix_tree/radix_tree.h:45-60 | transform keeps the order of signed keys |
| `RadixKeys.LongestCommonPrefix` | src/radix_tree/radix_tree.h:518-535 | the common byte prefix, at most 7, with different bytes behind it |
| `RadixModel.LandingOwn` | src/radix_tree/radix_tree.h:693-730 | a cached key reaches its own entry |
| `RadixModel.LandingStored` | src/radix_tree/radix_tree.h:693-730 | a search ends nowhere, or at the entry of a stored key that agrees on every byte the path branches on |
| `RadixLanding.Canonical` | src/radix_tree/radix_tree.h:693-730 | two radix trees with the same keys, whatever insertions and deletions built them, send every search to the same entry |
| `Radix.SameKeysLand` | src/radix_tree/radix_tree.h:693-730 | so the cached key a search ends at depends on the set of cached keys alone |
| `Radix.LandedOfIs` | src/radix_tree/radix_tree.h:693-730 | and is a function of that set, by which the contracts of the engine say what leaves the cache |
| `Radix.LandsAtOwn` | src/radix_tree/radix_tree.h:693-730 | the same for signed keys |
| `Radix.LandsOnPath` | src/radix_tree/radix_tree.h:693-730 | the same for signed keys that are not cached |
| `Radix.RadixTree.Insert` | src/radix_tree/radix_tree.h:1277-1300 | accepted exactly when the budget allows it, also after root growth; then the tree is the insertion function's, node by node with kinds, only the key's entry changes and the ring remembers the key, twice after root growth; otherwise the tree is what the deletion function leaves of it, with its root grown first if there was budget for the ring, exactly the entry that a search for the oldest remembered key ends at is evicted and that key forgotten; the byte count is exact |
| `Radix.RadixTree.AdmitsIs` | src/radix_tree/radix_tree.h:1277-1300 | the decision depends on the bytes in use, the kind and fill of the root and the budget only |
| `Radix.RadixTree.AcceptsRoom` | src/radix_tree/radix_tree.h:1277-1300 | an insertion is accepted whenever the largest possible growth still fits the budget |
| `Radix.RadixTree.PushKey` | src/radix_tree/radix_tree.h:1281-1284 | the ring with its two positions is a queue of at most 255 keys; a push beyond that forgets the oldest |
| `Radix.RadixTree.Evict` | src/radix_tree/radix_tree.h:1293-1299 | the oldest remembered key is forgotten together with the entry its search ends at |
| `RadixRing.PushIs` | src/radix_tree/radix_tree.h:1281-1284 | advancing the positions modulo 256 is pushing on the queue, in every position of the two |
| `RadixRing.PopIs` | src/radix_tree/radix_tree.h:1296-1297 | advancing the read position drops the oldest key |
| `Radix.RadixTree.InsertRecursive` | src/radix_tree/radix_tree.h:69-173 | root cases: first leaf, growth with re-entry, prefix split, descent; together the insertion function; a re-entry refused after growth evicts the oldest key of the ring; ends with no node fixed |
| `Radix.RadixTree.InsertBelow` | src/radix_tree/radix_tree.h:122-172 | below the root the tree is the insertion function's: full nodes on the way grow, only the key's entry changes, and the bytes grow by at most one larger node a level, two new nodes and an entry |
| `Radix.RadixTree.ForkKid` | src/radix_tree/radix_tree.h:146-162 | path compression: the new node parts the key from the subtree at their first different byte |
| `Radix.RadixTree.DeleteReference` | src/radix_tree/radix_tree.h:1306-1381 | the tree is the deletion function's, node by node with kinds: exactly the entry the search ends at is gone, whichever key it belongs to, a node below its threshold has moved to a smaller kind, an inner node with a single child has given way to it |
| `Radix.RadixTree.DeleteRecursive` | src/radix_tree/radix_tree.h:738-785 | below the root the same, two nodes ahead of the search; ends with no node fixed |
| `Radix.RadixTree.SettleKid` | src/radix_tree/radix_tree.h:753-769 | a node left with one child is replaced by it, one below its threshold moves to a smaller kind, any other one stays |
| `RadixSpec.InsertedLean` | src/radix_tree/radix_tree.h:69-173 | no node is ever of a larger kind than its fill has called for (16: at least 4, 48: at least 16, 256: at least 48 children): insertion keeps this, where full nodes grow before anything is added |
| `RadixSpec.DeletedLean` | src/radix_tree/radix_tree.h:738-785 | and deletion does, through shrinking and collapsing |
| `RadixSpec.PutGrown` | src/radix_tree/radix_tree.h:86-97 | growing a full root and starting the insertion anew comes to the insertion |
| `RadixRuns.FillThenEmpty` | src/radix_tree/radix_tree.h:377-510 | runs over neighbouring keys, any number inserted and any number deleted again: the bytes are those of the smallest kind that holds the rest, 64, 168, 920 or 2072 and 16 for each entry; 2856 for 49 keys, 128 for 4 left of 5 |
| `RadixRuns.UsedUp` | src/radix_tree/radix_tree.h:1277-1300 | with a budget of 2000 bytes and the keys 0 to 47 cached, the insertion of 48 grows the leaf, is refused and evicts 0, and the leaf shrinks again: 47 keys and 1672 bytes stay |
| `RadixRuns.Weighs` | src/radix_tree/r_nodes.h:17-20 | what such a leaf weighs, that it is full at 4, 16 and 48 entries, and that it then costs 104, 752 and 1152 bytes to grow |
| `Radix.RadixTree.UpdateRange` | src/radix_tree/radix_tree.h:1390-1398 | exactly the cached keys between the bounds are re-pointed, no others; nodes, bytes and ring stay |
| `Radix.RadixTree.UpdateRangeRecursive` | src/radix_tree/radix_tree.h:864-969 | one pass over a node re-points its entries within the bounds and leaves its shape |
| `RadixModel.UpdGet` | src/radix_tree/radix_tree.h:864-969 | comparing truncated prefixes at every depth is sound and complete for the key range |
| `Radix.RadixTree.GetPage` | src/radix_tree/radix_tree.h:693-730 | the frame of the entry the search ends at, if that frame still holds the entry's page; otherwise the stale entry is removed by the deletion function, and without an entry nothing changes |
| `Radix.RadixTree.GetValue` | src/radix_tree/radix_tree.h:1431-1446 | the served leaf's answer; the tree stays unless the entry was stale |
| `Radix.RadixTree.Update` | src/radix_tree/radix_tree.h:1454-1468 | updates on the served leaf only; the tree stays unless the entry was stale |
| `Radix.RadixTree.DeleteValue` | src/radix_tree/radix_tree.h:1497-1517 | deletes on the served leaf if that can spare a key, with the entry the search ends at; otherwise as a lookup |
| `Radix.RadixTree.Scan` | src/radix_tree/radix_tree.h:1477-1490 | INT64_MIN if no leaf is served, otherwise the outcome of the scan from the served leaf, whichever words lie behind its keys |
| `Radix.RadixTree.Resize` | src/radix_tree/radix_tree.h:377-510 | a moved node keeps its children; the byte count changes by the size difference |
| `Radix.RadixTree.FixNode` | src/model/r_header.h:62-67 | the node was not fixed |
| `Radix.RadixTree.UnfixNode` | src/model/r_header.h:72-77 | the node was fixed once |
| `RadixModel.WithKidOK` | src/radix_tree/radix_tree.h:131-144 | adding or replacing a child keeps depths, prefixes and capacities |
| `RadixModel.ForkOK` | src/radix_tree/radix_tree.h:146-160 | the forked node satisfies the tree invariant |
| `RadixModel.CollapseGet` | src/radix_tree/radix_tree.h:754-763 | a node with a single child stands for that child |
| `RadixModel.BytesFork` | src/radix_tree/radix_tree.h:146-160 | a fork costs two small nodes and an entry |
| `RNodes.ListNode.Insert` | src/radix_tree/r_nodes.h:57-74 | RNode4 and RNode16: the map gains or replaces one entry |
| `RNodes.ListNode.GetIndex` | src/radix_tree/r_nodes.h:241-254 | the first matching position below current_size |
| `RNodes.ListNode.DeleteReference` | src/radix_tree/r_nodes.h:131-173 | the map loses the byte, the last pair fills its place |
| `RNodes.IndexNode.Insert` | src/radix_tree/r_nodes.h:444-465 | RNode48: the map gains or replaces one entry, using a free slot |
| `RNodes.IndexNode.FreeSlot` | src/radix_tree/r_nodes.h:453-464 | a free slot exists below 48 entries and the loop finds the first |
| `RNodes.IndexNode.DeleteReference` | src/radix_tree/r_nodes.h:522-558 | the map loses the byte and its slot is free |
| `RNodes.DirectNode.Insert` | src/radix_tree/r_nodes.h:627-634 | RNode256: the map gains or replaces one entry |
| `RNodes.DirectNode.DeleteReference` | src/radix_tree/r_nodes.h:679-714 | the map loses the byte |
| `RNodes.ListToList` | src/radix_tree/radix_tree.h:381-397 | growing 4 to 16 and shrinking 16 to 4 keep the map |
| `RNodes.ListToIndex` | src/radix_tree/radix_tree.h:398-414 | growing 16 to 48 keeps the map |
| `RNodes.IndexToDirect` | src/radix_tree/radix_tree.h:415-434 | growing 48 to 256 keeps the map |
| `RNodes.IndexToList` | src/radix_tree/radix_tree.h:466-485 | shrinking 48 to 16 keeps the map |
| `RNodes.DirectToIndex` | src/radix_tree/radix_tree.h:487-507 | shrinking 256 to 48 keeps the map |
| `RLayouts.IncreaseNodeSize` | src/radix_tree/radix_tree.h:377-437 | a full node record laid out in its arrays becomes, in the next larger layout, the same record of the larger kind |
| `RLayouts.DecreaseNodeSize` | src/radix_tree/radix_tree.h:444-510 | a node record with too few children becomes the same record of the smaller kind |
| `RLayouts.NodeInsert` | src/radix_tree/radix_tree.h:543-573 | inserting a child into whichever layout is setting the byte in the record |
| `RLayouts.NodeInsertFrame` | src/radix_tree/radix_tree.h:582-615 | inserting an entry into whichever leaf layout sets the byte's frame, overwrites an existing frame in place and reports the bytes allocated; no two bytes share a frame |
| `RLayouts.NodeDelete` | src/radix_tree/radix_tree.h:792-820 | deleting a byte from whichever layout removes it from the record |
| `RLayouts.GetNextPage` | src/radix_tree/radix_tree.h:659-686 | the lookup in whichever layout is the lookup in the record |
| `RNodes.ShrinkFits` | src/radix_tree/r_nodes.h:391-394 | a node that fails can_delete fits into the smaller kind |
| `RNodes.GrowFits` | src/radix_tree/r_nodes.h:399-402 | a full node has room in the larger kind |

## Left out

- Data.DataManager.Insert: after a stored key has been inserted again the pairs are known exactly, but the engine is not valid any more and no contract says what later operations do with it.
- TreeOperations.Scan: the words behind the last keys are an argument, free and one per leaf, since pages are modelled without the unused part of their arrays; what the arrays hold after a deletion is proved in `BNodes`. The cache insertion at the head of a scan is done by its caller `ScanAt`, in the same order.
- Storage.StorageManager.GetUnusedPageId: page ids are unbounded, so the narrowing of the id to `int` is not modelled.
- Buffer.BufferManager.EvictPage: the random pick is a free choice among unfixed pages; picks of fixed pages change nothing and are omitted, and so is the question how long the loop takes.
- Buffer.BufferManager.RequestPage: demands a page without a fix that is still to be released, which every caller respects; further fixes are those of stuck pages. That a 16-bit fix count wraps after 65,535 of them is not modelled.
- Data.DataManager.Scan: in a build without assertions, a scan on which the cache fails must leave three frames without stuck pages for the scan of the tree that follows; with fewer the eviction loop need not end.
- BPlus.BPlusTree.Delete: that a page is reported dirty without having been written to, which costs a write to the disk and nothing else, is ruled out for lookups, scans, updates, insertions without a split and the exchange of separators; for splits and the rest of a deletion the contracts only say that every written page is reported.
- BPlus.BPlusTree.SplitOuterNode: the copying loop works on page values that are written back once, instead of on the frame after every pair; the array form of each insertion is in `BNodes`.
- Radix.RadixTree.Resize: nodes are records with a map from bytes to children at an address. `RLayouts` proves that the four array layouts are such records and that growing, shrinking, inserting and deleting on a layout is what is done to the record here; the class itself works on the records.
- Radix.RadixTree.UpdateRangeRecursive: visits bytes in increasing order, while small nodes are visited in the order of insertion in the code; the order does not matter to the result.
- The relation between page size in bytes and node capacities; the capacity n is a parameter with n >= 4, which the constructors of the nodes enforce (src/bplus_tree/b_nodes.h:37-38).
- The byte layout of pages and frames, SSE instructions, real file streams and every `exit(1)` path except that of a page that does not exist.
- `destroy` of the radix tree, the storage manager and the data manager; the self-checks `validate`, `valdidate`, `is_balanced`, `is_ordered`, `is_concatenated`, `is_compressed`, `leaf_depth_correct` and `key_matches`, which check less than the invariants proved here.
- Command line, workloads, debugging output, logging and timing (`src/main.cc`, `src/run_suite`, `src/debug`, `src/utils/logger.h`, `src/utils/time.h`, `src/utils/file.h`).
- Threads: the code at hand is sequential.
