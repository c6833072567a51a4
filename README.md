# HNSW vector index and its binary heap, in Dafny

This project models the core of a TypeScript library for approximate
nearest-neighbour search. The core is a Hierarchical Navigable Small World
(HNSW) index, the class `HNSW` of `src/index.ts`, and the binary `MinHeap`
of `src/minheap.ts`. The project proves properties of both.

- **`MinHeap`** (`minheap.dfy`) is a class over a `seq` field that `push`
  and `pop` reassign. The caller's comparator is a function
  `(T, T) -> int` that must be a total preorder. JavaScript truthiness of
  stored values is a predicate `truthy` given to the constructor, because
  `pop` consults it (see below).
- **Index data** (`graph.dfy`). Every `HNSWNode` object the index has
  allocated lives in an arena `store: seq<Node>`. An object reference is a
  `Handle`, which is its position in the arena, so identity is handle
  equality. The id map is `nodes: map<int, Handle>` plus `order: seq<int>`,
  the insertion order in which a JavaScript `Map` iterates. A neighbour
  slot is `Empty` (`null`, as the constructor fills it), `Hole`
  (`undefined`, as `deleteNode` pushes it) or `Link(h)`.
- **`HNSW`** (`hnsw.dfy`) is a class with the index's fields. Its methods
  follow the source's loops:
  - greedy descent;
  - best-first search;
  - back-link insertion;
  - link removal and entry-point rescan;
  - the serialize writes into an `array`;
  - the two passes of `deserialize`.
  Each method is proved against the pure definitions of `graph.dfy`,
  `links.dfy` and `codec.dfy`.
- **Insertion edits** (`links.dfy`). `LinkBacks` folds the back-link step
  of `addNode` over the neighbours found at one level. `LinkLevel` is one
  level: the new node's row becomes the first `M` neighbours found, and
  the back-links follow. `LinkDown` folds the levels from the top down.
  A search at a level reaches only its entry and nodes that some row at
  that level links to. The new node is linked from no row below the
  levels already done, so it is never among the neighbours found. Hence
  its row at every level it has lists the first `M` neighbours found
  there.
- **Deletion edits** (`graph.dfy`). `UnlinkSlots` folds the removal of the
  first reference to the deleted id over the deleted node's row at one
  level, read as the loop reads it. `UnlinkLevels` folds that over the
  levels. `UnlinkLevelsRows` states the result row by row.
- **Byte format** (`bytes.dfy`, `codec.dfy`). `DataView` reads and writes
  of little-endian 32-bit words are modelled on `seq` of bytes. `Encode`
  states the bytes `serialize` writes and `Decode` the index `deserialize`
  rebuilds. Both state the exceptions the runtime throws on the way:
  - a `TypeError` for a missing neighbour row;
  - a `RangeError` for a read past the end;
  - a `RangeError` for a record whose level word is `0xFFFFFFFF`, since
    `new Array(level + 1)` is then longer than any array.
  Data that ends inside a record throws. It never yields a partial
  record.
- **Round trip** (`roundtrip.dfy`). `Decode(Encode(ix))` is exactly
  `Reloaded(ix)` for a well-formed index that meets these conditions:
  - every level is 0;
  - every id is an integer in [0, 0xFFFFFFFF);
  - `numDimensions`, `M` and `ef` are below 2^32.

  `Reloaded(ix)` is:
  - the same parameters and ids in the same iteration order;
  - fresh node objects numbered by position;
  - every link rebuilt by id.
  Reading back a second time changes nothing, and the size, entry point
  and maximum level are kept.

The model follows the code as written, including behaviour that looks
unintended:

- `pop` moves the last element to the root only when that element is
  truthy (`src/minheap.ts:39`). When it is falsy (`0`, `""`, `null`), the
  last element is dropped and the old root stays in the heap. `Pop` states
  both outcomes, and `DrainInOrder` promises the full multiset only when
  every value is truthy.
- `randomLevel` stops at the current `maxLevel` (`src/index.ts:43`).
  Insertions therefore never raise `maxLevel`, and `AddNode` proves that it
  is unchanged. An index built by insertions from empty stays at level 0;
  only `deserialize` sets `maxLevel`, from the entry point's record
  (`src/index.ts:333-335`).
- `addNode` checks neither for duplicate ids nor for vector length. A
  duplicate id replaces the map entry, and the old object stays reachable
  through links.
- `_searchKNN` marks an id as visited only when it pops a node with that
  id, and it skips neighbours by id (`src/index.ts:151-152`, `177-182`).
  Two node objects that share an id can therefore both be returned. With
  `M` at least 2, run `addNode(2, b)`, `addNode(1, a)`, `addNode(1, c)`.
  The object for 2 then links to both objects made for id 1 at level 0, so
  `searchKNN(b, 3)` returns three objects, two of them with id 1.
  `SearchLayer` promises distinct node objects, not distinct ids.
- `deleteNode` leaves vacated slots (`Hole`) at the end of rows and adds no
  replacement edges. Its rescan uses strict `>` from level 0, over a map
  that still holds the deleted id. Deleting the entry point at level 0
  therefore leaves no entry point even when nodes remain. The next
  `addNode` then becomes the entry point without being linked.
- An id of -1, written as `ToUint32(-1)`, is `0xFFFFFFFF`. The reader never
  sees -1, so every id word present in the map is resolved.
- `serialize` writes `maxLevel + 1` rows per record. `deserialize` reads as
  many rows as the `maxLevel` it has reached so far, which changes only at
  the entry point's record. The two agree when `maxLevel` is 0, which is
  the only value the library's own insertions produce.
- `deserialize` validates nothing beyond what the runtime checks. It
  throws the `RangeError` of `DataView` for data that ends inside the
  header or inside a record.

## Model

| member | source | states |
|---|---|---|
| MinHeap.MinHeap.constructor | src/minheap.ts:5-8 | a new heap is empty, heap-ordered, and keeps the comparator |
| MinHeap.MinHeap.Size | src/minheap.ts:10-12 | the number of stored elements |
| MinHeap.MinHeap.Peek | src/minheap.ts:14-16 | undefined exactly when empty; otherwise the root, which no stored element compares strictly below |
| MinHeap.MinHeap.Push | src/minheap.ts:18-31 | heap order is kept, and exactly one occurrence of the value is added |
| MinHeap.MinHeap.Pop | src/minheap.ts:33-73 | undefined on an empty heap; otherwise the old root, a minimum of the heap before and after; heap order is kept; with a truthy last element exactly the root is removed, with a falsy one the last element is dropped instead |
| MinHeap.SiftDown | src/minheap.ts:44-70 | starting from a heap broken only at the root, the loop ends heap-ordered and a permutation of its input |
| MinHeap.SiftDownChoice | src/minheap.ts:51-66 | the child the comparisons choose (left on a tie) restores order one level down; no choice means the heap is ordered |
| MinHeap.SiftDownStep | src/minheap.ts:67-69 | swapping with the smaller child moves the break in heap order to that child |
| MinHeap.SiftDownDone | src/minheap.ts:66 | when neither child is below the sifted element, the heap is ordered |
| MinHeap.SiftUpStep | src/minheap.ts:22-26 | swapping a node below its parent moves the break in heap order to the parent |
| MinHeap.SiftUpDone | src/minheap.ts:21-29 | when the node is not below its parent, or is the root, the heap is ordered |
| MinHeap.RootIsMinimal | src/minheap.ts:14-16 | in a heap-ordered sequence no element compares below the root |
| MinHeap.RootBelowAll | src/minheap.ts:14-16 | every element of a non-empty heap compares at least as high as the root |
| MinHeap.Reroot | src/minheap.ts:37-40 | moving the last element to the root removes exactly the old root and breaks order only at the root |
| MinHeap.Parent | src/minheap.ts:22 | the parent index is below the child, whose index is one of the parent's two child positions |
| MinHeap.Swap | src/minheap.ts:25 | exchanges two positions, keeps every other position and the multiset |
| MinHeap.PopOfTruthy | src/minheap.ts:38-40 | when every value is truthy, a pop removes exactly the root and all values left are truthy |
| MinHeap.DrainInOrder | src/minheap.ts:33-73 | popping until empty yields a sequence sorted by the comparator; with all values truthy it is a permutation of the heap |
| MinHeap.SortedAppend | src/minheap.ts:33-73 | appending a value no earlier value exceeds keeps the popped sequence sorted |
| Graph.NewNode | src/index.ts:13-18 | the node carries its id, vector and level, and one row of M empty slots per level 0..level |
| Graph.Row | src/index.ts:78 | a node's row at a level exists exactly when the level is at most the node's level; otherwise reading it throws TypeError |
| Graph.FindFree | src/index.ts:117 | the first slot that is empty or links to a node farther from its owner than the new node; -1 when all are closer links; TypeError when a vacated slot comes first |
| Graph.InsertSlot | src/index.ts:119-122 | the link is spliced in at the index, later slots move up one, and the row is cut back to M |
| Graph.FindRef | src/index.ts:209 | the first slot linking to a node with the id, or -1 when none does |
| Graph.VacateFirstRef | src/index.ts:211-212 | removing that slot and pushing a hole removes exactly one reference to the id, keeps every other link in order, and keeps the length |
| Graph.VacateIsUnlink | src/index.ts:209-212 | the edit changes only references to the deleted id |
| Graph.RescanChoosesFirstHighest | src/index.ts:217-226 | the rescan's level bounds every level; no entry point exactly when it is 0; otherwise the entry point is the first with that level |
| Graph.RescanResultMeaning | src/index.ts:217-226 | over the id map: every registered node is at most the new maxLevel; the new entry point is the first node in iteration order at that level |
| Graph.RescanAllZero | src/index.ts:219-225 | when every level is 0 the rescan finds no entry point |
| Graph.RescanPicksStrictMax | src/index.ts:221 | a unique highest level above 0 is picked |
| Graph.RescanCaps | src/index.ts:217-226 | the rescan's level is at most any bound on all levels and bounds them itself |
| Graph.LevelsInOrder | src/index.ts:220 | the levels of the registered nodes in iteration order |
| Graph.RemoveKeyDistinct | src/index.ts:228 | deleting a key from the iteration order keeps it duplicate-free and shortens it by one exactly when the key was present |
| Graph.RemoveKeepsValid | src/index.ts:228 | deleting a registered id keeps the index well formed and the map one entry smaller |
| Graph.RegisterKeepsValid | src/index.ts:132 | setting an id to a node object that carries it keeps the index well formed |
| Graph.AppendKeepsValid | src/index.ts:96 | allocating a well-formed node object keeps the index well formed |
| Graph.WithRowKeepsValid | src/index.ts:113 | storing a row of at most M links to allocated nodes keeps the index well formed |
| Graph.WithRow | src/index.ts:113 | replaces one row of one node object and leaves every other row, id, vector and level alone |
| Graph.MapSize | src/index.ts:361-363 | the map has one entry per id in iteration order |
| Graph.IndexOf | src/index.ts:171 | the first position of a handle, or -1 exactly when it is absent |
| Graph.LinkRun | src/index.ts:78-81 | the leading run of linked slots, which the greedy scan reads before its break |
| Graph.ChangedOnlyListedStep | src/index.ts:202-215 | unlinking one more level extends the set of rows that may have changed by that level only |
| Graph.Register | src/index.ts:132 | the map sends the id to the node object; the iteration order keeps its prefix and grows by at most one |
| Graph.RegisterOrder | src/index.ts:132 | when the order lists exactly the keys once each, it still does: a new id goes last, a known id keeps its place |
| Graph.RemoveKey | src/index.ts:228 | the order afterwards holds exactly the other ids |
| Graph.VacateSlot | src/index.ts:211-212 | the row keeps its length and ends with a vacated slot |
| Graph.VacateSlotShifts | src/index.ts:211-212 | slots before the index stay, later slots move down one place, and the removed slot is traded for a vacated one |
| Graph.VacateSlotMembers | src/index.ts:211-212 | every slot afterwards was in the row or is vacated |
| Graph.FindRefRefs | src/index.ts:209 | a reference is found exactly when the row holds one |
| Graph.UnlinkRow | src/index.ts:209-213 | one reference to the id fewer when there was one, the row unchanged when there was none; links to other nodes kept in order; length kept |
| Graph.Unlink | src/index.ts:205-214 | TypeError exactly when the neighbour has no row at the level; otherwise only references to the id are removed |
| Graph.UnlinkSlots | src/index.ts:203-215 | the loop over the deleted node's row at one level throws only TypeError and keeps every node's shape |
| Graph.UnlinkSlotsRows | src/index.ts:203-215 | when the deleted node's row lists no node twice and holds no reference to the id, the loop throws exactly when a listed node has no row at the level; otherwise each listed node's row becomes its UnlinkRow and every other row is kept |
| Graph.UnlinkLevels | src/index.ts:202-215 | the loop over the deleted node's levels throws only TypeError and keeps every node's shape |
| Graph.UnlinkLevelsRows | src/index.ts:202-215 | under the same condition at every level, the loop throws exactly when a listed node lacks that level's row; otherwise at each level every listed node's row becomes its UnlinkRow and every other row is kept |
| Graph.UnlinkSlotsLevelZero | src/index.ts:203-215 | at level 0 the removal loop never throws |
| Graph.UnlinkLevelsLevelZero | src/index.ts:202-215 | deleting a node at level 0 never throws |
| Graph.OnlyUnlinkedTrans | src/index.ts:202-215 | removals of references to the id in turn are one removal of references to the id |
| Graph.Rescan | src/index.ts:218-225 | the chosen position, if any, is a position of the level list |
| Graph.RescanStep | src/index.ts:221-224 | one more node replaces the choice exactly when its level is strictly higher |
| Graph.RescanResult | src/index.ts:217-226 | the new entry point is a registered node object |
| Graph.RescanResultSameNodes | src/index.ts:217-226 | the rescan reads only ids and levels, so link edits do not change it |
| Links.BackRow | src/index.ts:116-123 | TypeError only; a row of at most M stays at most M; every link stays to an allocated node object |
| Links.LinkBackStep | src/index.ts:115-123 | TypeError only; the index stays well formed, every id, vector and level kept |
| Links.LinkBackStepRows | src/index.ts:115-123 | the step throws exactly when the neighbour has no row at the level or its BackRow throws; otherwise that row becomes its BackRow and every other row is kept |
| Links.LinkBacks | src/index.ts:115-124 | TypeError only; every id, vector and level kept |
| Links.LinkBacksRows | src/index.ts:115-124 | for neighbours found once each, the loop throws exactly when one lacks the row or its BackRow throws; otherwise each gets its BackRow, computed on the rows before the loop, and every other row is kept |
| Links.LinkBacksFrame | src/index.ts:115-124 | no row of a node not found, and no row at another level, changes |
| Links.FindFreeSameNodes | src/index.ts:117 | the slot search reads only the vectors of the linked nodes |
| Links.Cut | src/index.ts:113 | the first M neighbours found, or all of them when fewer |
| Links.LinkLevel | src/index.ts:112-124 | TypeError only; every id, vector and level kept |
| Links.LinkLevelRows | src/index.ts:112-124 | rows at other levels are kept; when the new node is not among those found, its row at the level lists the first M of them |
| Links.LinkDown | src/index.ts:110-129 | TypeError only; every id, vector and level kept |
| Links.LinkDownCons | src/index.ts:110-129 | one more level below is that level's LinkLevel after the levels above |
| Links.LinkDownNewRows | src/index.ts:110-129 | when the new node is never among those found, its row at each linked level lists the first M found there, and every row at a level outside them is kept |
| Links.ReachedExtend | src/index.ts:177-182 | candidates added from a row at the level are reached from the entry |
| Links.FreshNotLinked | src/index.ts:96 | a newly allocated node object is linked from no row |
| Links.LinkLevelNoLinks | src/index.ts:112-124 | linking level i adds no link at a lower level |
| Links.LinkDownBelow | src/index.ts:110-129 | linking one more level extends LinkDown; the search there cannot find the new node, as no row at that level links to it yet |
| Links.NotReached | src/index.ts:71-92 | a node a search reaches from another entry is not the new node while no row at that level links to it |
| Bytes.ToUint32 | src/index.ts:254 | the value modulo 2^32, the value itself when it fits |
| Bytes.MinusOneIsAllOnes | src/index.ts:254 | -1 is written as 0xFFFFFFFF |
| Bytes.ReadU32 | src/index.ts:289 | reads a word exactly when its four bytes are inside the data; RangeError otherwise |
| Bytes.ReadU32LE | src/index.ts:245-246 | reading back a written word gives the word |
| Bytes.U32LEInjective | src/index.ts:245-246 | distinct words are written as distinct bytes |
| Bytes.ReadLe | src/index.ts:257-276 | the i-th of a run of written words reads back at its offset, whatever comes before or after |
| Bytes.PutU32 | src/index.ts:245 | setUint32 keeps the bytes before the offset and writes the word's four bytes |
| Codec.InOrder | src/index.ts:257 | the node objects of the registered ids, in iteration order |
| Codec.RepeatIsProduct | src/index.ts:234-235 | the record area is count times the record size |
| Codec.BufferSize | src/index.ts:233-235 | the computed buffer size is the header plus one record of the computed node size per registered id |
| Codec.EncodeLength | src/index.ts:232-235 | serialize's bytes are exactly the computed buffer size |
| Codec.EncodeFails | src/index.ts:269-272 | serialize throws exactly when some node object has fewer than maxLevel + 1 rows |
| Codec.WritableAll | src/index.ts:269-272 | writing succeeds exactly when every node object has rows 0..maxLevel |
| Codec.PutVector | src/index.ts:261-264 | the buffer gets the vector's words after the bytes already written |
| Codec.PutRows | src/index.ts:269-275 | rows 0..count-1 are written as ids or 0xFFFFFFFF, or TypeError exactly when a row is missing |
| Codec.RowWords | src/index.ts:270-274 | a row is written as exactly M words |
| Codec.RecordWords | src/index.ts:257-275 | a record is the computed node size in words: id, dim vector words, level, maxLevel + 1 rows of M ids |
| Codec.PutHead | src/index.ts:257-267 | the id, vector and level words are written after the bytes already written |
| Codec.PutRow | src/index.ts:269-275 | one row's ids are written after the bytes already written, or TypeError exactly when the row is missing |
| Codec.ReadRows | src/index.ts:321-329 | count rows of M ids are read exactly when they fit; RangeError otherwise |
| Codec.PutRecord | src/index.ts:257-275 | one record is written after the bytes already written, or TypeError exactly when a row is missing |
| Codec.PutBody | src/index.ts:257-276 | all records are written in iteration order, or TypeError exactly when some node object lacks a row |
| Codec.ReadHeader | src/index.ts:284-299 | the header reads exactly when 17 bytes are present; RangeError otherwise |
| Codec.ReadWords | src/index.ts:311-314 | count words are read exactly when they fit, each the word at its offset |
| Codec.ReadRecord | src/index.ts:307-329 | a record reads exactly when its id, its dim vector words, its level and rowCount rows of M ids all lie inside the data; RangeError otherwise |
| Codec.LoadHeader | src/index.ts:284-299 | the header reads give the header or the RangeError that ReadHeader states |
| Codec.LoadWords | src/index.ts:311-314 | the read loop gives what ReadWords states |
| Codec.LoadRows | src/index.ts:321-329 | the neighbour-id loops give what ReadRows states |
| Codec.LoadRecord | src/index.ts:307-329 | one record read gives what ReadRecord states, and the offset moves past it |
| Codec.ReadRowsFails | src/index.ts:321-329 | once a row read fails, reading more rows fails |
| Codec.ReadRecordsStep | src/index.ts:306-338 | the first pass after one record is the first pass from the next offset with that record taken in |
| Codec.ResolveRow | src/index.ts:345-349 | the second pass keeps the row's length |
| Codec.ResolveLevels | src/index.ts:344-350 | the node keeps its id, vector, level and row sizes; TypeError when an id row has no node row |
| Codec.ResolveAll | src/index.ts:341-352 | every node object keeps its shape, or TypeError |
| Codec.ResolvesStep | src/index.ts:346 | a row of ids needs a node row exactly when one of its ids is registered |
| Codec.ResolveLevelsFails | src/index.ts:344-350 | a TypeError on a prefix of the levels is a TypeError on all of them |
| Codec.ResolveAllFails | src/index.ts:341-352 | a TypeError on some node object is a TypeError for the whole pass |
| Codec.Encode | src/index.ts:231-279 | TypeError exactly when a registered node object lacks a row up to maxLevel; otherwise bytes starting with the metric tag, header included |
| Codec.ReadRecords | src/index.ts:306-338 | the first pass throws only RangeError |
| Codec.ReadStep | src/index.ts:307-337 | one record moves the offset forward |
| Codec.ReadRecordsTruncated | src/index.ts:306-329 | data that ends inside a record throws RangeError |
| Codec.LevelTooLarge | src/index.ts:17 | a record with level word 0xFFFFFFFF makes deserialize throw RangeError |
| Codec.TakeShape | src/index.ts:319-337 | taking a record in appends a node object with empty rows, maps the id to it, keeps its id rows, and makes it the entry point at its level exactly when its id is the entry id |
| Codec.TakeConsistent | src/index.ts:319-337 | taking a record in adds a node object with level + 1 rows of M empty slots, and keeps the node objects, id map and entry point well formed |
| Codec.ReadRecordsConsistent | src/index.ts:306-338 | the first pass keeps the node objects, the id map and the entry point well formed |
| Codec.ResolveLevelsOk | src/index.ts:344-350 | the second pass on one node keeps its rows and their sizes, and every slot it fills links to a registered, allocated node |
| Codec.ResolveAllOk | src/index.ts:341-352 | the second pass keeps every node object well formed when the id map names only allocated node objects |
| Codec.Decode | src/index.ts:281-355 | RangeError for data shorter than the header; what is read back is a well-formed index: each node has level + 1 rows of at most M slots linking only to allocated nodes, the id map is consistent, and the entry point is at maxLevel |
| Hnsw.HNSW.constructor | src/index.ts:31-39 | the parameters are kept; no ids, no entry point, maxLevel 0 |
| Hnsw.HNSW.RandomLevel | src/index.ts:41-47 | the level counts the leading successful draws and never exceeds maxLevel |
| Hnsw.HNSW.SearchLevel | src/index.ts:71-92 | greedy descent ends at a node no farther than the start, with no neighbour in the leading linked run strictly closer; that node is the start or one some row at the level links to; TypeError when a row is missing |
| Hnsw.HNSW.Closest | src/index.ts:141-145 | a candidate at minimal distance, the first such in insertion order |
| Hnsw.HNSW.Furthest | src/index.ts:157-161 | a result at maximal distance, the first such, or none for no results |
| Hnsw.HNSW.PopClosest | src/index.ts:141-152 | removes the first closest candidate and marks its id visited |
| Hnsw.HNSW.Replace | src/index.ts:156-175 | the first furthest result is replaced by the candidate exactly when the candidate is strictly closer; otherwise the search stops |
| Hnsw.HNSW.Admit | src/index.ts:154-175 | below k results the candidate is appended; at k the Replace rule applies; results stay distinct and at most k |
| Hnsw.HNSW.AddCandidates | src/index.ts:177-182 | every linked neighbour whose id is unvisited becomes a candidate, and nothing else does |
| Hnsw.HNSW.SearchLayer | src/index.ts:135-186 | at most k distinct allocated nodes; for k at least 1 one is no farther than the entry; each is the entry or a node some row at the level links to; TypeError only above level 0 |
| Hnsw.HNSW.SearchKNN | src/index.ts:188-194 | empty without an entry point; otherwise as SearchLayer from the descent's end |
| Hnsw.HNSW.SetRow | src/index.ts:113 | one row of one node object is replaced and nothing else changes; the index stays well formed |
| Hnsw.HNSW.LinkBack | src/index.ts:115-123 | the new node is spliced into the neighbour's row at the first free or farther slot and the row trimmed to M, or the row is kept when every slot holds a closer link; TypeError for a missing row or a vacated slot first; the result is LinkBackStep |
| Hnsw.HNSW.LinkBackAll | src/index.ts:115-124 | the arena becomes LinkBacks of the neighbours found, or TypeError exactly when LinkBacks throws; by LinkBacksRows each neighbour's row at the level gets its splice and trim and every other row is kept |
| Hnsw.HNSW.LinkAtLevel | src/index.ts:111-124 | the search returns distinct allocated neighbours, at most M, each the entry or linked at the level; for M at least 1 they are not empty, and one is no farther from the vector than the entry; the arena becomes LinkLevel of them: the new node's row is the first M found, then the back-links |
| Hnsw.HNSW.LevelPass | src/index.ts:110-129 | one pass of the level loop: at a level the new node has, LinkDown extends by that level's neighbour list; the rows at that level and below still do not link the new node; above level 0 the descent continues from a node other than the new one |
| Hnsw.HNSW.LinkLevels | src/index.ts:108-130 | the neighbour lists found from the new node's level down to 0 are distinct, at most M, never the new node, and not empty for M at least 1; the arena becomes LinkDown of them; the map, entry point and maxLevel are kept |
| Hnsw.HNSW.Descend | src/index.ts:126-128 | the greedy descent of addNode, from a node other than the new one at a level no row links the new node from, ends at a node object other than the new one, no farther from the vector than where it started, with no closer node in its row at that level; TypeError only |
| Hnsw.HNSW.Allocate | src/index.ts:96 | the new node object is appended to the arena |
| Hnsw.HNSW.Enroll | src/index.ts:132 | the id is mapped to the node object, replacing an earlier one |
| Hnsw.HNSW.AddNode | src/index.ts:94-133 | the new node's level is the number of leading successful draws, stopping at maxLevel; the first node becomes the entry point unlinked; a later node is appended and the arena becomes LinkDown over its levels (Inserted), so its row at each level lists the first M neighbours found, non-empty for M at least 1, and rows at other levels are kept; it is registered, or a TypeError leaves the map alone; maxLevel never changes; the index stays well formed |
| Hnsw.HNSW.Insert | src/index.ts:108-132 | with an entry point, the node just allocated is linked at each of its levels (Inserted) and then registered under its id; a TypeError leaves the map alone |
| Hnsw.HNSW.UnlinkFrom | src/index.ts:205-214 | removes the first link to the id from one neighbour's row, or changes nothing when none links to it |
| Hnsw.HNSW.UnlinkLevel | src/index.ts:203-215 | the arena becomes UnlinkSlots of the deleted node's row at the level, or TypeError exactly when that throws; only rows of nodes it lists at that level change, and only by losing references to the id |
| Hnsw.HNSW.UnlinkAll | src/index.ts:203-215 | the arena becomes UnlinkLevels over all of the deleted node's levels, or TypeError exactly when that throws; only rows of nodes it lists at its levels change, and only by losing references to the id |
| Hnsw.HNSW.ScanLevels | src/index.ts:217-226 | the rescan loop computes RescanResult |
| Hnsw.HNSW.RescanEntryPoint | src/index.ts:217-226 | the entry point and maxLevel become the rescan's result; nothing else changes |
| Hnsw.HNSW.Forget | src/index.ts:228 | the id leaves the map and the iteration order |
| Hnsw.HNSW.DropEntry | src/index.ts:217-228 | deleting the entry point's id rescans over the map that still holds it; any other id leaves the entry point alone |
| Hnsw.HNSW.DeleteNode | src/index.ts:196-229 | an unknown id changes nothing; otherwise the arena becomes UnlinkLevels of the node, or TypeError exactly when that throws, and only rows of nodes it lists change, only by losing references to the id; the id leaves the map; the entry point is rescanned when it was the deleted node; a TypeError leaves the map and entry point |
| Hnsw.HNSW.Serialize | src/index.ts:231-279 | the bytes are Encode of the index, or TypeError exactly when Encode fails |
| Hnsw.HNSW.PutHeader | src/index.ts:242-255 | the metric tag and four header words are written |
| Hnsw.HNSW.Load | src/index.ts:319-337 | a new node object with empty rows is registered; the entry id's record becomes the entry point and sets maxLevel |
| Hnsw.HNSW.TakeRecord | src/index.ts:307-337 | one turn of the first pass agrees with ReadRecords |
| Hnsw.HNSW.LoadRecords | src/index.ts:306-338 | the first pass gives what ReadRecords states |
| Hnsw.HNSW.LinkRow | src/index.ts:345-349 | a row's registered ids become links to their node objects, other slots stay |
| Hnsw.HNSW.LinkRows | src/index.ts:344-350 | the node object becomes what ResolveLevels states, or TypeError |
| Hnsw.HNSW.LinkNext | src/index.ts:342-351 | one turn of the second pass agrees with ResolveAll |
| Hnsw.HNSW.LinkAll | src/index.ts:341-352 | the second pass gives what ResolveAll states |
| Hnsw.HNSW.Deserialize | src/index.ts:281-355 | succeeds exactly when Decode does, with the same error, and yields a new, well-formed index whose state is Decode's |
| Hnsw.HNSW.GetNodeById | src/index.ts:357-359 | a node object exactly for registered ids, carrying that id |
| Hnsw.HNSW.GetSize | src/index.ts:361-363 | the number of registered ids |
| Hnsw.HNSW.GetEntryPoint | src/index.ts:365-367 | without an entry point maxLevel is 0; with one it is at level maxLevel |
| Hnsw.HNSW.GetMaxLevel | src/index.ts:369-371 | with levels capped, no registered node is above it |
| Hnsw.HNSW.Clear | src/index.ts:373-377 | no ids, no entry point, maxLevel 0 |
| RoundTrip.RoundTrip | src/index.ts:231-355 | for a well-formed index at level 0 with ids integral in [0, 0xFFFFFFFF) and dim, M and ef below 2^32, serialize succeeds and deserialize gives back exactly Reloaded of it |
| RoundTrip.ReadAll | src/index.ts:306-338 | reading a run of written records gives the records taken in one by one |
| RoundTrip.FirstPass | src/index.ts:306-338 | the first pass over serialize's records registers the ids in order, with node objects by position and the written rows |
| RoundTrip.FoldShape | src/index.ts:306-338 | after i records the loaded state has those i ids, their node objects and rows |
| RoundTrip.ResolvePrefix | src/index.ts:341-352 | the second pass over the first i ids relinks exactly those node objects |
| RoundTrip.SecondPass | src/index.ts:341-352 | the second pass gives the node objects of Reloaded, with its map and entry point |
| RoundTrip.HeaderBack | src/index.ts:284-299 | the header written reads back as the index's parameters and entry word |
| RoundTrip.WritableAtZero | src/index.ts:269-272 | with maxLevel 0 serialize never throws, since every node object has row 0 |
| RoundTrip.Position | src/index.ts:333 | the first place of an id in iteration order, which is the handle the reader gives it |
| RoundTrip.Positions | src/index.ts:333 | the reader's id map has the same keys as the index's |
| RoundTrip.Relink | src/index.ts:346-348 | a slot read back is a link exactly when its id is registered |
| RoundTrip.ReloadedNode | src/index.ts:319-349 | the p-th node object read back carries the p-th id, the written vector, level 0 and one row of M relinked slots |
| RoundTrip.ReloadedMapOk | src/index.ts:333 | the id map read back is well formed |
| RoundTrip.ReloadedStoreOk | src/index.ts:319-349 | every node object read back is well formed |
| RoundTrip.ReloadedPortable | src/index.ts:231-355 | what is read back can itself be written and read again |
| RoundTrip.ReloadedLink | src/index.ts:271-348 | a slot read back links exactly when its written id is registered, and then to the node object with that id |
| RoundTrip.ReloadedLinkById | src/index.ts:271-348 | a link to a registered node reads back as a link to the node with the same id; an empty or vacated slot reads back empty |
| RoundTrip.ReloadedFixed | src/index.ts:231-355 | a second round trip changes nothing |
| RoundTrip.ReloadedObservables | src/index.ts:361-371 | size and maxLevel are kept; no entry point stays none; a registered entry point reads back under its id |

## Left out

- computeDistance (`src/index.ts:49-69`): float arithmetic is not modelled. The index receives the distance as a function `distance: (Vector, Vector) -> nat`, and `Deserialize` receives one per metric. Vectors are sequences of 32-bit patterns, so NaN handling and float32 rounding of written components are not modelled.
- `Math.random` is the parameter `coin` of `RandomLevel` and `AddNode`: draw `j` succeeds when `coin(j)` holds.
- `console.warn` in `deleteNode` has no effect on state and is left out.
- The `ArrayBuffer` allocation and its `RangeError` for sizes that are too large are not modelled; `serialize` allocates an array of the computed length.
- `deserialize` takes the data as a sequence of bytes. The `byteOffset` of a view into a larger buffer is not modelled.
- `ef` is stored, written and read, and has no other use, as in the source.
- The `if (!closest) break` of `_searchKNN` (`src/index.ts:147-149`) is taken in the source when every candidate's distance is NaN, for example cosine distance with a zero vector (0/0 at `src/index.ts:66`). Then `currDist < bestDist` (`src/index.ts:144`) never holds, no candidate is chosen, and the search returns the results so far. A `nat` distance is always below `Infinity`, so the model has no such branch. The same holds for `furthestResult` (`src/index.ts:159-163`) over a non-empty result list; the empty list, which gives no furthest result, is modelled.
- `tempNeighborIds` is iterated in the order its keys were first set, the same order as the id map's, so the second pass walks `order`.
- RoundTrip.RoundTrip: covers only well-formed indexes with `maxLevel` 0, every id an integer in [0, 0xFFFFFFFF), and `numDimensions`, `M` and `ef` below 2^32. Level 0 is the only level insertions produce; above it the reader's row count differs from the writer's. Ids outside that range are written through `ToUint32` and read back as other ids. Parameters of 2^32 or more are written modulo 2^32.
- Graph.UnlinkSlotsRows: states the result row by row only when the deleted node's row lists no node twice and holds no reference to its own id; a row that lists a node twice makes the loop remove two of its references. The fold `UnlinkSlots`, which `UnlinkLevel` equals, covers every case.
- Graph.UnlinkLevelsRows: the same condition at every level; the fold `UnlinkLevels`, which `UnlinkAll` and `DeleteNode` equal, covers every case.
- RoundTrip.ReloadedObservables: says nothing about an entry point whose id is no longer registered, which only a rescan at a level above 0 can leave.
- Hnsw.HNSW.SearchKNN: states bounds, distinctness and the entry guarantee, not that the results are the k nearest, which best-first search does not promise.
- MinHeap.MinHeap: a `T` that is literally `null` would make `leftChild !== null` false in the sift-down; the model assumes stored values are not `null`.
- Ids are `int`, and `numDimensions`, `M` and `ef` are `nat`. The source takes any JavaScript number for them; non-integral and negative values are not modelled. A negative `M`, for example, makes `new Array(M)` in the node constructor throw a `RangeError` (`src/index.ts:17`).
- The test helpers and scratch files of the repository are not part of this model.
