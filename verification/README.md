# Verification of smmr and the BFD session layer

A Dafny model of the storage engine `deps/smmr` and of the BFD daemons that use it, with proofs of what
the code promises for every input and every run.

* **B-tree index** (`NodeKeys`, `Shapes`, `ShapeInsertion`, `ShapeRemoval`, `ShapeRuns`, `TreeNodes`, `TreeInsertion`,
  `TreeRemoval`, `HashVisits`, `Tree`, `RightEdge`, `TreeInstance`). `Tree` keeps the node blocks as the code does, with keys and links in fixed
  slots that shift loops rewrite, and with `current_item`, `newnodei`, `done`, `deleted` and `undersize` as fields that
  the recursive calls share. A ghost tree (`Shapes`) says what the blocks encode; the step lemmas say what a
  split, a rotation or a merge does to it. `ShapeInsertion` and `ShapeRemoval` say what a whole insertion or
  removal makes of it, `ShapeRuns` what a sequence of them does, and `RightEdge` what becomes of a tree under ever
  larger keys.
* **Page allocator** (`PageChains`, `PageLayouts`, `MemoryPage`, `Category`, `AllocatorRuns`). A page is one buffer of
  32-bit words addressed by byte offset, with headers, footers, three root blocks, two doubly linked lists and the
  bucket at their offsets. A ghost layout names the blocks; the bitmaps are hints that only a rebuild refreshes.
  `AllocatorRuns` compares whole runs with a plain allocator.
* **Data files and key/value layer** (`DataFile`, `Database`, `RepeatedStores`). A file is a page bitmap and a byte array;
  items are encoded and decoded byte by byte. `Database` puts index and files together. The hash function is
  an arbitrary function.
* **BFD** (`Discriminators`, `BfdProtocol`, `BfdSessions`, `BfdDaemons`, `BfdNetwork`). Both daemons process a
  packet step by step, each against a function of the stored session and the packet; `BfdNetwork` lets two
  endpoints run over a network that may lose, repeat, delay and reorder.

`Common` holds the two declarations that several of these share.

Where the code does something else than its comments say, the model follows the code:

* `store` always ends by adding a second item and entry (`smmr_database.c:437`), and its callbacks overwrite only the
  items at which the search for the key stops. A key stored again has several entries, and the next search may return
  an old value: not only if the new one does not fit over it, but for values of one size as well, once a split has
  brought another entry of the key into the root. `RepeatedStores.FiveStores` is such an input: after five stores the
  third value is found. `RepeatedStores.StoreThenSearch` says for any index exactly what is found;
  `RepeatedStores.StoreMany` computes it for any stores of one key in a new database, and by
  `RepeatedStores.StoreOneSize` values of one size are lost after exactly 2*3^g - 1 stores with g > 0 (5, 17, 53, ...).
  `Databases.StoreAgain` and `Databases.StoreTwice` are the cases of one old entry and of an index of one node.
* An index entry keeps 24 bits of the offset. `Databases.TruncatedIff` and `Databases.NoneTruncatedIff` say exactly
  which stores lose the rest, and `Databases.LostStore` shows a stored key that is not found.
* A hash of 0 has no category: the item is written and gets no entry (`NotIndexed`).
* Freed pages are credited 128 times over (`DataFiles.DataFile.ChangeFree`).
* The hint of unused area subtracts the headers twice: `MemoryCategories.RebuildAndAllocate` says exactly which requests
  still succeed, and `MemoryCategories.ManySmallBlocks` is a page whose room the hint hides.
* The C daemon goes from Init to Down on receiving Down (`BfdProtocol.Deviation`).
* A full group of the session table takes no updates either, so the 128th session of a group never leaves
  the state in which it was created (`BfdDaemons.StoredIff`, `BfdDaemons.RecvAll`, `BfdDaemons.FillGroup`),
  as long as the counts read back from the store are the ones written last.
* A failing callback ends the whole iteration over the sessions, not only that of its group.

## Model

| member | source | states |
|---|---|---|
| `NodeKeys.CompareIsStrictOrder` | deps/smmr/smmr_tree.c:1006-1021 | the comparison of whole keys is a strict total order, and a smaller hash alone makes a smaller key |
| `NodeKeys.LessIsLexicographic` | deps/smmr/smmr_tree.c:1006-1021 | the hash decides first, then the file, then the place in the file |
| `NodeKeys.InsSorted` | deps/smmr/smmr_tree.c:270-281 | putting an absent key before the first larger one keeps a key sequence strictly ordered and adds exactly that key |
| `NodeKeys.DelSorted` | deps/smmr/smmr_tree.c:739-745 | taking a key out of an ordered sequence keeps the order and removes exactly that key |
| `SmmrTree.Tree.Add` | deps/smmr/smmr_tree.c:222-256 | adding any key to any valid tree gives the old keys in order with that key inserted; if it was present, blocks, root and tree are untouched; order, equal leaf depth, 2..4 keys per node and the ownership of blocks are kept; the shape of the new tree is the one that the function AddShape makes of the old one, up to block addresses |
| `SmmrTree.Tree.InsertItemRecursive` | deps/smmr/smmr_tree.c:262-302 | the recursive step: either the subtree took the key in place, or it split into two good subtrees around the key handed up in current_item and newnodei; only blocks of the subtree change, and exactly one block is added per split |
| `SmmrTree.Tree.TakeFromChild` | deps/smmr/smmr_tree.c:289-300 | a node whose child split takes the key and the new link where there is room and otherwise splits in turn, with the same outcome |
| `SmmrTree.Tree.AddItemToFreeNode` | deps/smmr/smmr_tree.c:313-334 | the shift loop and the two stores put key and link at their places and keep all others in order |
| `SmmrTree.Tree.SplitNode` | deps/smmr/smmr_tree.c:344-388 | keys and links with the new item in place are cut after the second key: lower part in the old block, third key in current_item, upper part in one new block |
| `SmmrTree.Tree.CallocNewNode` | deps/smmr/smmr_tree.c:396-416 | the new root block holds the one key handed up, between the old root and the new block |
| `SmmrTree.Tree.GrowRoot` | deps/smmr/smmr_tree.c:240-244 | a root that split is replaced by a tree one level higher over all old keys and the new one, owning exactly one block more |
| `ShapeInsertion.ChildTaken` | deps/smmr/smmr_tree.c:313-334 | a node with room whose child split becomes what InsShape says |
| `ShapeInsertion.ChildSplits` | deps/smmr/smmr_tree.c:344-388 | a full node whose child split falls into the halves that InsShape says, whatever block the upper half gets |
| `SmmrTree.Tree.Remove` | deps/smmr/smmr_tree.c:627-673 | removing any key from any valid tree leaves exactly the other keys, in order and in balance, and exactly the blocks still reachable; nothing changes if it was absent; the new tree, block addresses included, is the one that the function RemovedShape makes of the old one |
| `SmmrTree.Tree.RemoveItemRecursive` | deps/smmr/smmr_tree.c:729-771 | the recursive step: the subtree without the key, equal leaf depth, at most the top node one key short exactly when undersize says so, and deleted says whether the key was there; the subtree is what RemShape makes of the old one |
| `SmmrTree.Tree.RemoveSuccessor` | deps/smmr/smmr_tree.c:747-759 | a key of an inner node is overwritten by its successor, which is then removed from the subtree to its right, with the same outcome as removing the key itself |
| `SmmrTree.Tree.RemoveItemTarget` | deps/smmr/smmr_tree.c:890-902 | one key and the link behind it leave the node, the rest keeps its order, and undersize says whether fewer than two keys are left |
| `SmmrTree.Tree.MoveRight` | deps/smmr/smmr_tree.c:781-806 | rotation to the right: the last key of the left neighbour goes up, the separator comes down in front, and the last link moves with it |
| `SmmrTree.Tree.MoveLeft` | deps/smmr/smmr_tree.c:816-843 | rotation to the left: the first key of the right neighbour goes up, the separator comes down behind, and the first link moves with it |
| `SmmrTree.Tree.Combine` | deps/smmr/smmr_tree.c:853-880 | a merge puts the left keys, the separator and the right keys into the left block, drops the separator from the parent and frees exactly the right block |
| `SmmrTree.Tree.RemoveItemRestore` | deps/smmr/smmr_tree.c:911-936 | a child that is one key short is repaired by rotation or merge: same keys in order, all children good again, and the node itself short exactly when undersize says so; the child is balanced with its left neighbour, the first one with the second, by a rotation if that has more than two keys and by a merge otherwise, and everything else in the node stays |
| `SmmrTree.Tree.DropEmptyRoot` | deps/smmr/smmr_tree.c:656-667 | a root left without keys gives way to its only child and its block is freed; the keys stay |
| `ShapeRemoval.ShortTurnsLeft` | deps/smmr/smmr_tree.c:911-936 | where a removal leaves a child short that is not the first, every key and subtree to its right stays, and it is balanced with its left neighbour; the first child with the second |
| `ShapeRemoval.MendedBalances` | deps/smmr/smmr_tree.c:911-936 | which pair of children a repair changes and how many keys each of them holds afterwards |
| `ShapeRemoval.EightKeys` | deps/smmr/smmr_tree.c:917-923 | an example: eight keys over three leaves, of which the fourth is removed; its leaf is merged to the left and the sixth key stays in the root |
| `SmmrTree.Tree.SearchItem` | deps/smmr/smmr_tree.c:468-505 | the exact search calls the callback once if and only if the key is present, and 2*3^(visited-1) is at most the number of keys plus one |
| `SmmrTree.Tree.SearchHash` | deps/smmr/smmr_tree.c:557-618 | the search by hash hands over no key of another hash and none twice; if no callback stops it, every key of the hash is handed over; the order is that of HashVisits.Visits |
| `SmmrTree.Tree.SearchHashRecursive` | deps/smmr/smmr_tree.c:557-618 | the downward loop with recursion into the right siblings produces exactly the trace that Visits defines, where a stop ends only its own call |
| `SmmrTree.Tree.SweepNode` | deps/smmr/smmr_tree.c:584-605 | the scan of one node behind the first candidate: keys and the children between them in turn, then the last child, unless a key stopped it |
| `SmmrTree.Tree.CountNode` | deps/smmr/smmr_tree.c:152-171 | the recursive count is the number of keys of the tree |
| `SmmrTree.Tree.Facts` | deps/smmr/smmr_tree.c:911-936 | a valid tree of height h >= 1 holds at least 2*3^(h-1)-1 keys, its blocks are those reachable from the root, each once, and an empty tree owns no block |
| `SmmrTree.RunChanges` | deps/smmr/smmr_tree.c:222-256 | any sequence of adds and removes on an empty tree: the keys are those left by the sequence, in order and in balance, and no block is leaked or shared; the shape, and so the order of every search by hash, follows from the sequence alone |
| `ShapeRuns.AlikeAdded` | deps/smmr/smmr_tree.c:222-256 | trees that differ only in block addresses stay so when a key is added |
| `ShapeRuns.AlikeRemovedShape` | deps/smmr/smmr_tree.c:627-673 | and when a key is removed |
| `Shapes.HeightBound` | deps/smmr/smmr_tree.c:899 | a tree with leaves at depth h and at least two keys below its top node has at least (lo+1)*3^(h-1)-1 keys |
| `TreeInsertion.InsGoesIntoChild` | deps/smmr/smmr_tree.c:270-286 | inserting into the whole key sequence is inserting into the keys of the child that the scan selects |
| `TreeInsertion.GrewInPlace` | deps/smmr/smmr_tree.c:289-296 | after a split below and one insertion into the node, the node and its blocks encode the subtree with the key added |
| `TreeInsertion.SplitAgain` | deps/smmr/smmr_tree.c:297-300 | after a split below and a split of the node, both halves are good trees and together with the key handed up hold the old keys and the new one |
| `TreeInsertion.NewRoot` | deps/smmr/smmr_tree.c:396-416 | two halves under a new root are a valid tree of one more level that owns one block more |
| `TreeRemoval.DelGoesIntoChild` | deps/smmr/smmr_tree.c:761-767 | removing from the whole key sequence is removing from the keys of the child that the scan selects |
| `TreeRemoval.RightRepairs` | deps/smmr/smmr_tree.c:781-806 | a rotation to the right repairs the short child and keeps keys, depth and blocks |
| `TreeRemoval.LeftRepairs` | deps/smmr/smmr_tree.c:816-843 | a rotation to the left repairs the short child and keeps keys, depth and blocks |
| `TreeRemoval.CombineRepairs` | deps/smmr/smmr_tree.c:853-880 | a merge repairs the short child, keeps keys and depth, and leaves one block less |
| `TreeRemoval.RootCollapses` | deps/smmr/smmr_tree.c:656-667 | a root without keys has one good child that holds all keys and all other blocks |
| `HashVisits.VisitsWithin` | deps/smmr/smmr_tree.c:557-618 | the trace of a hash search contains only keys of the hash, each at most as often as it is in the tree |
| `HashVisits.VisitsComplete` | deps/smmr/smmr_tree.c:557-618 | a trace without a stop contains every key of the hash, in any valid tree |
| `HashVisits.SmallTreeVisits` | deps/smmr/smmr_tree.c:574-605 | in a tree of at most four keys the trace ends at the least key of the hash at which the callback stops |
| `HashVisits.AlikeVisits` | deps/smmr/smmr_tree.c:557-618 | the trace of a hash search does not depend on which blocks the tree is in |
| `HashVisits.VisitsAgree` | deps/smmr/smmr_tree.c:557-618 | it depends on the callback only as far as the keys of the tree go |
| `HashVisits.RootFirst` | deps/smmr/smmr_tree.c:574-594 | if the first key of the root has the hash and stops the search, it is the only one called back for |
| `RightEdge.EdgeAdds` | deps/smmr/smmr_tree.c:344-388 | when each new key is the largest, either the root keeps its first key or the tree grows by one level, and all nodes off the right edge keep exactly two keys |
| `RightEdge.LeanSize` | deps/smmr/smmr_tree.c:344-388 | such a tree of height h has at least 2*3^(h-1)-1 and at most 2*3^h-2 keys, so the number of keys alone decides when the root splits |
| `RightEdge.RootKey` | deps/smmr/smmr_tree.c:344-388 | the first key of its root is number 3^(h-1) of all keys |
| `TreeInstances.TreeInstance.Add` | deps/smmr/smmr_tree.c:222-256 | the index adds the key to the tree its hash selects and to no other; the tree changes as AddShape says; a hash of 0 is refused and changes nothing |
| `TreeInstances.TreeInstance.Remove` | deps/smmr/smmr_tree.c:627-673 | the index loses exactly the key, its tree changes as RemovedShape says and no other tree changes; a hash of 0 is refused |
| `TreeInstances.CategoryIsRest` | deps/smmr/smmr_categories.c:306-325 | the category is the remainder of the hash by 4, and a hash of 0 has none |
| `TreeInstances.TreeInstance.SearchHash` | deps/smmr/smmr_tree.c:516-543 | over all categories: only keys of the hash, none twice, all of them if no callback stops; with at most four keys in the index the search ends at the least key that stops it |
| `TreeInstances.TreeInstance.Count` | deps/smmr/smmr_tree.c:123-143 | the counts of all categories add up to the number of keys of the index |
| `DataFiles.DataFile.FindRun` | deps/smmr/smmr_database.c:567-577 | the bitmap scan is first-fit: it returns the lowest run of free pages from page 1 on that is long enough and ends in the file, and 0 if and only if there is none |
| `DataFiles.DataFile.InsertAtFreePage` | deps/smmr/smmr_database.c:552-640 | one file takes an item if and only if its remaining size exceeds the aligned size and it has a free run; the item then lies on the first such run, whose pages are marked, and no other byte or mark changes; remaining size, used length and count are updated exactly |
| `DataFiles.DataFile.FindPlace` | deps/smmr/smmr_database.c:558-583 | the checks before the write: the page chosen is the first fit, and the remaining size is set to zero exactly if an item of one page finds no free page |
| `DataFiles.InsertKeepsFile` | deps/smmr/smmr_database.c:584-613 | stored items keep disjoint runs of marked pages inside the file when an item is put on a free run |
| `DataFiles.DataFile.OverwriteInPlace` | deps/smmr/smmr_database.c:396-421 | an overwrite happens if and only if the new value needs no more pages than the item has, said in the lengths of key and values; it stays inside the pages of the item, keeps key and total length consistent, and changes no other item |
| `DataFiles.OverwriteKeepsFile` | deps/smmr/smmr_database.c:408-421 | after an overwrite all items still have disjoint marked pages and their bytes |
| `DataFiles.DataFile.ChangeFree` | deps/smmr/smmr_database.c:776-848 | for any offset: what fails the checks on range, signature and lengths changes nothing; otherwise exactly the pages that the length field needs become free, counted from the offset rounded up, and the remaining size gets 128 times their size as a 32-bit product; for a stored item these are its own pages and all other items stay |
| `DataFiles.FreeKeepsFile` | deps/smmr/smmr_database.c:836-840 | freeing one item keeps the others disjoint and marked |
| `DataFiles.LookupItem` | deps/smmr/smmr_database.c:138-193 | decoding what was encoded: the checks and comparisons of a callback find the value of a stored item for its own key and for no other key |
| `DataFiles.ItemFields` | deps/smmr/smmr_database.c:517-523 | the header fields, the key and the value read back from the file are those that were written |
| `DataFiles.PagesOfIff` | deps/smmr/smmr_database.c:517-531 | an item has p pages of 128 bytes if and only if header, key and value fit into them and not into one less |
| `DataFiles.OffsetsTile` | deps/smmr/smmr_database.c:586-595 | the pages lie side by side behind the file header, and the last one ends inside the file |
| `DataFiles.LookupIff` | deps/smmr/smmr_database.c:138-193 | on any bytes, when a callback goes wrong and when it is a hit: exactly for a consistent header with positive lengths, the key behind it, and the value behind that |
| `DataFiles.FreeableIff` | deps/smmr/smmr_database.c:814-845 | which headers pass the checks of a free, and which pages and which credit they then claim |
| `DataFiles.PackedFirstFit` | deps/smmr/smmr_database.c:558-577 | in a file that only insertions have written, the first fit for n pages begins right behind the pages taken, and each of the two checks of an insertion holds if and only if n pages are left |
| `DataFiles.PackedMore` | deps/smmr/smmr_database.c:586-629 | an insertion behind the pages taken leaves the file filled from the front, with the remaining size to match |
| `Databases.Database.Search` | deps/smmr/smmr_database.c:33-88 | a search fails if and only if no entry has the key, otherwise it returns a value stored under that key, whatever other keys share the hash; in any index it is the value at the last entry of the key among those called back for, in an index of at most four entries that is its least entry |
| `Databases.Database.Fold` | deps/smmr/smmr_database.c:99-201 | the callbacks on their shared container leave the value of the last entry called back for that is one of the key, a value if the key has one and none otherwise |
| `Databases.CallbackOf` | deps/smmr/smmr_database.c:138-193 | a callback on an entry of the index is a hit exactly if the item it points to has the key looked for |
| `Databases.Database.Store` | deps/smmr/smmr_database.c:217-303 | a store refuses empty keys and values; otherwise how it ends, its file and its offset are those that the pages in use determine, the values of all other keys stay, those of the key are at most the old ones and the new one; the items overwritten are exactly those of the key that a search calls back for and that the value fits over; the tree of the hash takes the new entry as AddShape says; and unless its offset needs more than 24 bits the entry finds the new item |
| `Databases.Database.UpdateEntries` | deps/smmr/smmr_database.c:257-259 | of all items in all files, exactly those are overwritten that are of the key, have an entry in the trace of the search for it, and are large enough |
| `Databases.Database.UpdateOne` | deps/smmr/smmr_database.c:320-440 | one callback of a store overwrites the item it is called for if key and size allow it and touches nothing else |
| `Databases.Database.InsertAtFreePage` | deps/smmr/smmr_database.c:500-646 | the trial of the bitmaps file by file ends at the file that FileFor finds from the counts of pages in use, with the item right behind those pages, or nothing changes |
| `Databases.FileForFirst` | deps/smmr/smmr_database.c:537-547 | the file found is the first in the order of trial that has the pages left, and there is none if and only if no file has them |
| `Databases.Distribution` | deps/smmr/smmr_database.c:537-543 | the order in which files are tried counts up from the one given and goes round at 128, and has every file |
| `Databases.Database.InsertNew` | deps/smmr/smmr_database.c:282-300 | the branch that ends every store: one new item in the file found for it, and one new entry unless the hash is 0 or no file has room |
| `Databases.Database.InsertAtEnd` | deps/smmr/smmr_database.c:656-757 | the append fallback is called only where no file took the item, and then its own check fails for every file, too: while nothing is freed it never takes an item |
| `Databases.PlacedDone` | deps/smmr/smmr_database.c:634-636 | a placed item and the attempt to add its entry together are what a store does, and the index stays valid unless the entry was truncated and is new |
| `Databases.TruncatedIff` | deps/smmr/smmr.h:441 | a store loses offset bits if and only if the pages taken in its file reach the number that 24 bits can address, and exactly then its entry does not lead to the page of its item |
| `Databases.NoneTruncatedIff` | deps/smmr/smmr.h:441 | a history that the files can take has no truncated entry if and only if, for every item with a hash other than 0, the items in front of it in its own file end below 2^24 |
| `Databases.AllStored` | deps/smmr/smmr.h:441 | keys of hashes other than 0 whose items end below 2^24 in each file are all stored |
| `Databases.LostStore` | deps/smmr/smmr.h:441 | behind an item that fills its file up to 2^24, a store under another key of the same hash ends as stored and a search for that key fails |
| `Databases.LostExample` | deps/smmr/smmr.h:441 | such keys and items exist |
| `Databases.Replay` | deps/smmr/smmr_database.c:217-303 | any history of stores in an empty database, up to the first truncated offset: every result is the one computed beforehand from hashes and sizes, the keys with values are those of which a store got an entry, and every value was stored under its key |
| `Databases.ReplayAndSearch` | deps/smmr/smmr_database.c:33-88 | the key/value law: after any history without a truncated entry, a search fails exactly for keys of which no store got an entry, and returns exactly the stored value for a key stored once, hash collisions, full files and hash 0 included |
| `Databases.StoreAgain` | deps/smmr/smmr_database.c:396-437 | storing a key again, in an index of any size: the next search returns the new value or an old one; with one old entry a value that fits over the old one is certainly found; in an index of one node the new value is found if and only if it fits over that of the least entry or its own entry sorts first |
| `Databases.StoreTwice` | deps/smmr/smmr_database.c:396-437 | two stores of one key in a new database: the search returns the second value if and only if, in the lengths of key and values, it needs no more pages than the first, otherwise still the first |
| `Databases.OneByteMore` | deps/smmr/smmr_database.c:396-411 | an example at the limit: 100 bytes under a key of 4 bytes, then 101; the search returns the first value |
| `RepeatedStores.StoreThenSearch` | deps/smmr/smmr_database.c:257-300 | storing a key again, whatever entries it has and whatever else is in the index: what the next search returns is a function of the state before the store; it is the new value if and only if the last entry of the key that this search calls back for is the new one, or one the store called back for and the value fits over, or held that value already |
| `RepeatedStores.StoreMany` | deps/smmr/smmr_database.c:396-437 | any number of stores of one key in a new database, with values of any sizes: with g levels below the root the search ends at the entry of store number 3^g-1, whose item was offered exactly the values stored since the root split last |
| `RepeatedStores.StoreOneSize` | deps/smmr/smmr_database.c:437 | values of one size: the last one is found if and only if their number is not 2*3^g-1 with g > 0 (5, 17, 53, ...); otherwise the search returns the value of store number 3^g, counted from 1 |
| `RepeatedStores.FiveStores` | deps/smmr/smmr_database.c:437 | the failing input: after five values of one byte under one key the search returns the third |
| `RepeatedStores.FoundAgain` | deps/smmr/smmr_database.c:396-421 | the entry at which the search after a store ends, and the value there, from the state before the store |
| `RepeatedStores.ColumnStep` | deps/smmr/smmr_tree.c:344-388 | one more store of the key: tree, items and the values in them stay as described, and the tree keeps its height or grows by one level |
| `RepeatedStores.RootCalled` | deps/smmr/smmr_tree.c:574-594 | the callbacks of each such store and search are one: for the first key of the root |
| `RepeatedStores.HeldLast` | deps/smmr/smmr_database.c:396-421 | where every value fits over the others, an item holds the last one offered to it |
| `PageChains.ChainDetach` | deps/smmr/smmr_memory.c:764-792 | unlinking any block of a doubly linked list leaves the list without it, well linked, with the last block known to the root |
| `PageChains.ChainAttach` | deps/smmr/smmr_memory.c:798-836 | appending a block gives the list with it at the end, well linked, with the last block known to the root |
| `PageLayouts.PageTotals` | deps/smmr/smmr_memory.c:653-734 | in every reachable page the lengths of the blocks in use, of the free blocks and of the bucket add up to the size of the initial bucket, and the bucket header lies in the page even for a bucket of length 0 |
| `PageLayouts.TilesApart` | deps/smmr/smmr.h:140-151 | no two blocks of a page overlap |
| `PageLayouts.TileBounds` | deps/smmr/smmr.h:140-151 | every block lies between the root blocks and the bucket |
| `PageLayouts.FreedKeeps` | deps/smmr/smmr_memory.c:1209-1300 | moving a block from the list in use to the free list keeps both lists, the tiling, the sums, all headers and footers and all payloads |
| `PageLayouts.RecycledKeeps` | deps/smmr/smmr_memory.c:764-836 | the same for the way back |
| `PageLayouts.InsertKeeps` | deps/smmr/smmr_memory.c:689-733 | cutting a block from the bucket and appending it keeps both lists, the tiling, the sums and the payloads of all other blocks |
| `PageLayouts.LooseWrites` | deps/smmr/smmr_memory.c:1043-1063 | nothing written to payloads or to the sums in the roots disturbs a page |
| `MemoryPages.Page.FindFreeItem` | deps/smmr/smmr_memory.c:852-886 | the walk returns the first block of the free list that is large enough and 0 if and only if there is none |
| `MemoryPages.Page.OperateRecycle` | deps/smmr/smmr_memory.c:745-842 | the first fitting free block goes to the end of the blocks in use; otherwise nothing changes; no payload changes |
| `MemoryPages.Page.OperateInsert` | deps/smmr/smmr_memory.c:653-734 | a new block is cut from the front of the bucket if and only if the bucket has room for it, zeroed, and appended to the blocks in use; no other payload changes |
| `MemoryPages.Page.FreeItem` | deps/smmr/smmr_memory.c:1201-1338 | a block in the list in use moves to the end of the free list; any other address, a block already free among them, changes nothing |
| `MemoryPages.Page.SumUsed` | deps/smmr/smmr_memory.c:1013-1042 | the walk never fails on a reachable page and finds the exact number and total length of the blocks in use |
| `MemoryPages.Page.SumFree` | deps/smmr/smmr_memory.c:949-1012 | the walk never fails on a reachable page, finds the exact sums of the free blocks, and sets exactly the bits of the size classes that some free block reaches |
| `MemoryPages.Page.ShrinkBucket` | deps/smmr/smmr_memory.c:1080-1154 | the page is as new: no free blocks, one bucket over the whole area |
| `MemoryPages.Page.UserWrite` | deps/smmr/smmr_tree.c:409-412 | a write into the payload of a block, as the tree makes when it fills a node, keeps the page valid and changes no other payload |
| `MemoryPages.ClassesAgree` | deps/smmr/smmr_memory.c:590-597 | the size class where a search starts is never above the class whose bit a large enough block has set |
| `MemoryPages.ClassesBySize` | deps/smmr/smmr_memory.c:590-597 | the size classes begin above 32, 128, 512 and 2048 bytes, and a search starts in the class of its size, at most the third |
| `MemoryPages.ClassFreeStep` | deps/smmr/smmr_memory.c:962-983 | one more free block extends the classes that have a free block exactly by its own class and those below |
| `MemoryCategories.TakenBlock` | deps/smmr/smmr_memory.c:546-643 | a block just allocated was not in use, lies in its page, has at least the requested payload and overlaps no other block, and the other blocks keep their lengths |
| `MemoryCategories.Category.Shmalloc` | deps/smmr/smmr_memory.c:546-643 | an allocation succeeds if and only if the size is legal and some page without error mark can serve it in a class that is searched and whose bit is on; the block comes from the least class and in it the least page that can serve it; one page changes, by one block, and no payload |
| `MemoryCategories.TakeBlock` | deps/smmr/smmr_memory.c:601-637 | one page serves a request if and only if a hint allows the free list or the bucket and that has room; where the bit of free blocks is on and one is large enough it is the first such block, and the bucket is cut only otherwise |
| `MemoryCategories.FreeFirst` | deps/smmr/smmr_memory.c:603-637 | a block from the free list leaves the bucket as it is, and the bucket is cut only if no free block was on offer |
| `MemoryCategories.RebuildAndReuse` | deps/smmr/smmr_memory.c:603-622 | freed blocks are used again: right after a rebuild, while the first user page has a block in use and a free one that is large enough, a request gets the first such block and the bucket of that page stays |
| `MemoryCategories.Category.Shmfree` | deps/smmr/smmr_memory.c:1164-1340 | a block in use of a page without error mark becomes the last free block; for any other address behind the root block nothing changes, in any page |
| `MemoryCategories.Category.RebuildPage` | deps/smmr/smmr_memory.c:896-1071 | the rebuild of a page never fails, stores the exact sums, sets exactly the bits that the free blocks justify, and turns a page without blocks in use into a new one |
| `MemoryCategories.Category.Rebuild` | deps/smmr/smmr_memory.c:1352-1403 | afterwards no user page is marked as erroneous, every page is rebuilt as above, and the totals in the system page are the sums over all pages |
| `MemoryCategories.Category.RecycleComplete` | deps/smmr/smmr_memory.c:590-622 | with the bits of a rebuild, a free block that is large enough is found whatever its size class |
| `MemoryCategories.Category.FreshServes` | deps/smmr/smmr_memory.c:605-637 | a new page serves every legal request |
| `MemoryCategories.RebuildAndAllocate` | deps/smmr/smmr_memory.c:546-643 | right after a rebuild a request succeeds if and only if it is legal and some page has no block in use, or a free block that is large enough, or room in its bucket that the doubly subtracted headers do not hide |
| `MemoryCategories.Category.PageServes` | deps/smmr/smmr_memory.c:590-637 | a rebuilt page serves a request in some class that is searched if and only if it has a free block that is large enough, or bucket room and the bit of unused area |
| `MemoryCategories.DcHintIff` | deps/smmr/smmr_memory.c:1043-1054 | when the bit of unused area is on, given that the headers are subtracted twice and the difference wraps at 32 bits |
| `MemoryCategories.ManySmallBlocks` | deps/smmr/smmr_memory.c:1044 | the hint of unused area is incomplete: a page of 1924 small blocks with room for any request has none of its bits on |
| `MemoryCategories.SumsFit` | deps/smmr/smmr_memory.c:1055-1063 | the sums of a reachable page fit into 32 bits, and the sum in use is zero only without blocks in use |
| `AllocatorRuns.Run` | deps/smmr/smmr_memory.c:546-643 | any sequence of allocations, frees, writes into blocks held and rebuilds: every step does to the blocks held what a plain allocator does, a block handed out is not held by anyone and large enough, no two held blocks overlap at any time, and at the end the pages show exactly the blocks held, each with what was last written into it |
| `AllocatorRuns.RunFromNew` | deps/smmr/smmr_memory.c:546-643 | the same from a new category of which nothing is held |
| `AllocatorRuns.TookShows` | deps/smmr/smmr_memory.c:601-637 | an allocation adds one block to those held, clear of all others, whose payloads stay |
| `AllocatorRuns.FreedShows` | deps/smmr/smmr_memory.c:1164-1340 | a free takes exactly one block from those held, and the payloads of the others stay |
| `AllocatorRuns.RebuiltShows` | deps/smmr/smmr_memory.c:896-1071 | a rebuild of a page changes nothing for those who hold blocks in it |
| `AllocatorRuns.HeldApart` | deps/smmr/smmr.h:140-151 | blocks held in a page do not overlap, headers and footers included |
| `Discriminators.HtonlTwice` | bfdd/bfdd_event.c:65 | swapping the bytes twice gives the number back |
| `Discriminators.HtonlReverses` | bfdd/bfdd_event.c:65 | the four bytes come out in reverse order |
| `Discriminators.FirstOnes` | bfdd/bfdd_event.c:63-70 | a new daemon hands out 1, 2, ... in network byte order |
| `Discriminators.Distinct` | bfdd/bfdd_event.c:63-70 | no discriminator is zero, and any 2^31 allocations in a row yield different ones, across the reset of the counter |
| `Discriminators.Repeats` | bfdd/bfdd_event.c:66-68 | 2^31 allocations later the same discriminator comes again |
| `Discriminators.Counter.Allocate` | bfdd/bfdd_event.c:63-70 | one step of the counter yields the next discriminator of the sequence |
| `BfdProtocol.Deviation` | bfdd/bfdd_event.c:92-107 | the state machine of the C daemon agrees with section 6.8.6 of RFC 5880 except in Init on receiving Down |
| `BfdProtocol.OnPacketC` | bfdd/bfdd_event.c:23-117 | what one packet does to the session stored for its sender and what is sent back, said of sessions and packets alone: which packets are discarded, when a session is Up, Init or AdminDown afterwards and with which code, what it learns, and that a poll is answered by exactly one packet with final set |
| `BfdProtocol.OnPacketCpp` | bfdd_cpp/bfdd_cpp_session_manager.hpp:101-190 | the same for the C++ daemon, which stays in Init on hearing Down |
| `BfdProtocol.TransmitTells` | bfdd/bfdd_event.c:136-176 | a session sends nothing if it is not attached, or does not know the other side and has more to say than Down; otherwise one packet with its code, its discriminator, the one learned, poll clear, and final set once it was asked |
| `BfdProtocol.TimerTells` | bfdd_cpp/bfdd_cpp_session_manager.hpp:191-215 | the C++ daemon sends one such packet at its timer if and only if the session is attached and alive, was not ended, and knows discriminator and interval of the other side |
| `BfdProtocol.DownRepeated` | bfdd/bfdd_event.c:98-102 | under repeated Down packets the C daemon alternates between Init and Down where the RFC stays in Init |
| `BfdProtocol.BothCautious` | bfdd/bfdd_event.c:84-107 | both state machines enter Up only on hearing Init or Up and leave it only to Down with code 3; no other code is set and AdminDown is not entered |
| `BfdNetwork.EffectBounded` | bfdd/bfdd_event.c:23-117 | for any state machine that is cautious: no advance without the packet reaching it, no loss of Up without diagnostic code 3, no packet sent past Down unless the session is |
| `BfdNetwork.EffectsOfDaemons` | bfdd_cpp/bfdd_cpp_session_manager.hpp:101-190 | these bounds hold for what one packet does to a session of either daemon |
| `BfdNetwork.StepOk` | bfdd/bfdd_event.c:23-117 | every step of two endpoints over the network keeps the invariant of the pair |
| `BfdNetwork.Handshake` | bfdd/bfdd_event.c:82-109 | over any run with loss, repetition, delay and reordering, a side is Up only if the other has already processed a packet that it sent; a daemon that was Up and no longer is shows diagnostic code 3 |
| `BfdNetwork.DownTakesDown` | bfdd/bfdd_event.c:82-109 | over any run: a daemon that gets Down or AdminDown is not Up after that step, and if it was Up it is in Down with code 3 |
| `BfdNetwork.NeverAsks` | bfdd/bfdd_event.c:154-160 | over any run: no packet that a daemon has sent has poll set |
| `BfdNetwork.PassiveSilence` | bfdd/bfdd_event.c:142-177 | two daemons, of whatever kinds, never send a packet to each other and never create a session |
| `BfdNetwork.BothUp` | bfdd/bfdd_event.c:82-109 | a neighbour in the Active role and a daemon of either kind can both reach Up |
| `BfdDaemons.TransitionC` | bfdd/bfdd_event.c:82-109 | the nested branches compute the transition function of the C daemon |
| `BfdDaemons.TransitionCpp` | bfdd_cpp/bfdd_cpp_session_manager.hpp:156-180 | the nested branches compute the transition function of the RFC |
| `BfdDaemons.DaemonC.RecvBfdEvent` | bfdd/bfdd_event.c:23-117 | checks, session selection, allocation of the discriminator, state machine and reply on one packet, for any stored session and any size of its group; no other session changes; while the group has room the session is Up afterwards if and only if it was Up or in Init and heard Init or Up, or in Down and heard Init, and one that leaves Up is in Down with code 3; a poll is answered once, with final set |
| `BfdDaemons.DaemonC.SendBfdEvent` | bfdd/bfdd_event.c:126-177 | one transmission time: the sessions are handed over in the order of the table up to the first whose packet cannot be sent, and what each of them sends goes out once; everything sent tells of one of them, and every attached one that knows the other side or is Down is told of |
| `BfdDaemons.ManagerCpp.OnBfdReceived` | bfdd_cpp/bfdd_cpp_session_manager.hpp:101-190 | the same for the C++ daemon and its map of sessions, which has no groups |
| `BfdDaemons.StoredIff` | bfdd/bfdd_session.c:142-145 | the effect of a packet is stored if and only if the group, with the session just created, has fewer than 128 sessions, or there is no effect |
| `BfdDaemons.RecvAll` | bfdd/bfdd_session.c:142-145 | once a group has 128 sessions, no packets from any addresses change any of them |
| `BfdDaemons.FillGroup` | bfdd/bfdd_session.c:142-145 | a full group is reached: 128 addresses of one hash with one first packet each fill it, 127 sessions are in Init and the last is left as created |
| `BfdSessions.SessionTable.Insert` | bfdd/bfdd_session.c:127-184 | a group of 128 sessions refuses everything, updates included; otherwise exactly the one session is set, a new key goes to the end of the list of its group, and lists, counts and bits stay consistent |
| `BfdSessions.AddKeeps` | bfdd/bfdd_session.c:163-181 | a new session keeps every group at most 128 distinct keys of its own hash, with its bit set if and only if it has any |
| `BfdSessions.SessionTable.Find` | bfdd/bfdd_session.c:194-212 | the session found is the one stored, if any |
| `BfdSessions.SessionTable.Iterate` | bfdd/bfdd_session.c:84-117 | the callback is handed the sessions in table order, all of them or up to its first failure, after which no search is accepted any more |
| `BfdSessions.OrderAscends` | bfdd/bfdd_session.c:84-117 | the groups are visited in ascending order |
| `BfdSessions.VisitedOnce` | bfdd/bfdd_session.c:84-117 | with callbacks that succeed every stored session is visited exactly once |

## Left out

- Allocation failure inside the tree operations: a new block is always available there, at any unused address and with arbitrary stale contents, as `_split_node` takes it; tree and page allocator are not composed.
- `insert_to_datafile`, the append fallback, after pages were freed: its page numbers disagree with the other two functions there. While nothing is freed it never takes an item (`Databases.Database.InsertAtEnd`), so that NoFreeRun is the result of the code itself.
- `remove_tree_unsafe`: the same code as `remove_tree_safe` without the lock.
- Databases.Database.Store: expiry times and the list of reserved removals; items are stored with expire 0.
- Databases.StoreAgain: where the key has several entries in an index of four or more entries, it says only that the value found is the new one or an old one; RepeatedStores.StoreThenSearch says which.
- MemoryCategories.Category.Shmfree: the address is one of a user page and not that of a root block, which no caller holds; a header or footer beyond the page reads as invalid.
- DataFiles.DataFile.ChangeFree: a header with a length beyond the file, which only foreign bytes can have, would clear memory behind the bitmap; only the bitmap is modelled. That other items stay is stated for offsets of stored items.
- Databases.Replay: what a store does after the first truncated entry, which may lead to any bytes of the file.
- `attach`, `rebuild_pages_area` for existing files, `free_tree_unsafe`, the print and status functions, and `smmr_pagedbuffer.c`.
- `remain_length`, `used_length` and `used_count` as the sizes they are meant to be: the updates are modelled exactly, but `remain_length` is what remains only while nothing is freed.
- Bitmaps are arrays of booleans, one element a bit.
- Mutexes, processes and shared memory mapping: every operation is atomic under its lock.
- BfdNetwork.Handshake: detection times and intervals are left out, and with them byte order of the interval fields; whether the C++ daemon's detection time has passed is an input of its timer step. The stored session of the C daemon is taken as always written; BfdDaemons.DaemonC.RecvBfdEvent says when it is not. The session read back is taken as the one written last, while `store` can return an older record of a key stored again (RepeatedStores.StoreThenSearch).
- BfdSessions.SessionTable.Insert: the key/value store is a map whose stores succeed; that a key stored again is found with its new value is not a property of `store` in general: RepeatedStores.StoreThenSearch says when it is.
- BfdDaemons.RecvAll: it rests on this map, too; a stale management record would show a full group with an older count, and so would admit further sessions.
- BfdDaemons.FillGroup: the same, for the counts read back on the way to the full group.
- BfdDaemons.DaemonC.RecvBfdEvent: the same, for the session read back.
- AllocatorRuns.Run: a program writes only into blocks that it holds, and gives back addresses of user pages other than that of a root block; `now` is the same for all steps.
- The timer loop of the C++ daemon over its map, sockets, threads, `unsubscribe`, and the netmap reflector.
- Malformed packets beyond the checked fields: a packet is its decoded fields and its length.
