# A verified model of asdb

asdb is a document database written from scratch: a page file with a free list, a write-back buffer pool, slotted heap
files, paged B+trees, a catalog, a binary protocol and a query language with a planner and pull-based operators. This
project models its layers in Dafny and proves what each of them promises to the one above, over every input, every
interleaving and every reachable state. `dafny verify dfyconfig.toml` checks all of it.

## The layers

- `Keys.dfy`, `Values.dfy`: byte strings and their order, little-endian numbers, values, UTF-8 (section 4 of RFC 3629).
- `Pool.dfy`: the disk and the buffer pool. The pool stands for a flat page map (`View`); the invariant ties frames,
  page table, dirty bits, stamps and the free list together. Least-recently-used is stated on the access trace alone.
- `Tree.dfy`, `Repair.dfy`, `InOrder.dfy`, `BTree.dfy`: the B+tree over the pool. Each page has a ghost height and
  half-open range of key ranks (`Rank` embeds byte strings of every length into the reals in order); the invariant is
  local to a page, and equal depth, bounding separators, the leaf chain and reachability follow from it.
- `Layout.dfy`: node pages as bytes. `Represents` ties a page to the node that the tree layer reasons with.
- `ByteTree.dfy`: search and insert of a tree of any height on those bytes, in a pool that it may share with anything else.
- `Slotted.dfy`, `Heap.dfy`: heap pages as bytes, and the chain of pages that several handles extend.
- `Codec.dfy`, `Wire.dfy`, `DocCodec.dfy`: the recursive value format and its two independent codecs. A `Term` is a value
  with the fields of its documents in written order, so that both codecs and every map iteration order are covered.
- `KeyOrder.dfy`: index keys. `Catalog.dfy`: the catalog and its page chain.
- `Witnesses.dfy`: runs of the tree that meet its two failures.
- `Collection.dfy`: documents on the heap.
- `Indexes.dfy`, `LeafIndex.dfy`, `Tables.dfy`, `Overflow.dfy`, `Database.dfy`: a collection and its indexes in the pages of one pool.
  An index is the root page that the catalog publishes; its slots are what the bytes of that page represent, and all reads and
  writes go through the page functions of `Layout.dfy`. Inserts are followed past the split of such a page.
- `StaleIndex.dfy`: a run in which a unique index lets a duplicate through.
- `Query.dfy`, `EvalLaws.dfy`: expressions, and what each kind evaluates to in terms of its operands, errors included.
- `Aggregates.dfy`: group keys and folds, stated on the documents of a group.
- `Plans.dfy`, `Leaves.dfy`, `Executor.dfy`, `Operators.dfy`: the operators as states, the list each of them stands for over the
  stored pages, the pulls that yield it, and what the lists mean. `RowLaws.dfy`: what filters, projections and groups make of a row.
- `Planner.dfy`, `Queries.dfy`: the planner's one index rule, and a planned `where` run on stored data.
- `Parser.dfy`, `Locality.dfy`, `Pipeline.dfy`, `Separators.dfy`: the token parser and its optional separators.
- `Printer.dfy`, `StagePrinter.dfy`: every expression and stage written as tokens, with parentheses where the grammar needs them, and the
  proof that the parser reads back what was written and reads nothing that cannot be written.

## What the proofs found

Each of these is a property that the code does not have on all inputs, with the inputs and with the exact condition.

- Deleting from a B-tree panics exactly when the pair is alone in a leaf whose parent is not the root and would be left without
  separators (`BTrees.BTree.Delete`). A tree with a level between root and leaves cannot be emptied: whoever deletes its entries, in
  whatever order, meets that panic (`Witnesses.DeleteAll`), and inserting 34516 integers into a new tree gives such a tree
  (`Witnesses.FillAndEmpty`).
- A handle at a page that is no longer the root finds exactly the keys its page covers (`BTrees.BTree.Search`) and always misses one
  (`Witnesses.StaleMisses`); after 178 integer keys the handle the tree was created with does (`Witnesses.FillAndSearch`).
- Nothing publishes the new root when an index insert splits the root page. From a state in step, inserting a batch keeps the indexes in
  step exactly if every published page has room for the keys that the batch adds; otherwise a live document is missing from a published
  page (`Databases.Database.InsertDocs`), and search and the uniqueness check, which look at that page only, no longer see it. A range
  scan right after the split still follows the link to the upper half. After 178 integers have gone into a unique index one of them goes
  in again, and both calls report success (`StaleIndex.DuplicateGetsIn`). The same condition holds of upsert and of building an index.
- An index plan answers like the full scan exactly if its scan reaches every stored row on which the predicate holds
  (`Planner.PushdownSame`): the field is there, of the kind of the literal, and not the zero of the other sign. Rows are lost by
  `where f == null` (`Planner.NullTestLosesRows`), by an integer test on floats (`Planner.IntTestLosesFloats`) and by a test for 0.0 on a
  negative zero (`Planner.ZeroTestLosesNegative`).
- The positions that the first `where` has absorbed are dropped from every later `where` too. A later `where` is answered rightly exactly
  if on every row the dropped conjuncts hold or those left are false (`Queries.LaterWhereSame`); `where x == 1` and then `where y == 2`
  yields a stored document with y = 3 (`Queries.SecondWhereKeepsRow`).
- `select ... count` directly followed by a stage keyword reads count as a field (`Separators.CountBeforeLimit`); no other stage depends on
  the separator behind it (`Separators.SeparatorsDoNotMatter`). The comment above the parser says all separators are equivalent; the
  model follows the code.

## Model

| member | source | states |
|---|---|---|
| `Disk.DiskManager.AllocatePage` | src/storage/disk.rs:155-173 | the id handed out was not allocated, the page is zeroed, no other page changes, the last freed id is reused first |
| `Disk.DiskManager.FreePage` | src/storage/disk.rs:186-196 | the id goes on the free list exactly if it was allocated |
| `Pool.BufferPool.WithPage` | src/storage/buffer_pool.rs:115-125 | the closure sees the page of the flat map and the map does not change, whatever is evicted |
| `Pool.BufferPool.WithPageMut` | src/storage/buffer_pool.rs:137-148 | the flat map changes at that page only, to what the closure made of it |
| `Pool.BufferPool.NewPage` | src/storage/buffer_pool.rs:157-171 | the new id was free, the closure starts from a zeroed page, everything else stays |
| `Pool.BufferPool.DeletePage` | src/storage/buffer_pool.rs:179-189 | the page leaves cache and map, its id joins the free list exactly if it was allocated |
| `Pool.BufferPool.FlushAll` | src/storage/buffer_pool.rs:205-215 | afterwards the file equals the flat map |
| `Pool.BufferPool.FetchOrLoad` | src/storage/buffer_pool.rs:234-241 | the frame returned holds the logical page, cached or read |
| `Pool.BufferPool.AllocateFrame` | src/storage/buffer_pool.rs:256-294 | an empty frame, else the least recently used one written back if dirty; no write is lost and table and frames stay inverse |
| `Pool.EvictInv` | src/storage/buffer_pool.rs:274-293 | taking out the least recently used frame keeps the invariant and the flat map |
| `Pool.AllocateInv` | src/storage/buffer_pool.rs:157-171 | a recycled id is in no frame and its page reads as zero |
| `Pool.ResidentIsMostRecent` | src/storage/buffer_pool.rs:256-306 | without deletions a page is resident iff it is among the capacity most recently used distinct pages of the trace |
| `Pool.BufferPool.HitIffRecent` | src/storage/buffer_pool.rs:234-241 | an access hits iff the page is among the capacity most recently used ones |
| `Pool.BufferPool.LargerPoolHits` | src/storage/buffer_pool.rs:234-306 | after the same accesses every hit of a pool is a hit of any pool at least as large |
| `Layout.InsertedEntries` | src/btree/node.rs:43-69 | on a page with room the entries gain the pair at its place and slots never meet keys; every other entry reads as before |
| `Layout.RepresentsOne` | src/btree/node.rs:91-97 | a page holds at most one node, so reading it back is never ambiguous |
| `Layout.RoomIsHasSpace` | src/btree/node.rs:246-250 | the byte test for room is the test on the abstract node |
| `Layout.BoundBy` | src/btree/node.rs:308-323 | binary search stops where the predicate holds just before and not at the place, for any predicate |
| `Layout.SlotBoundUnique` | src/btree/node.rs:84-89 | on sorted slots that place is the lower bound of the pair, and the pair is present iff it is there |
| `Layout.LeafSlotBound` | src/btree/node.rs:84-89 | lower_bound_key_doc is the true lower bound among the slots |
| `Layout.KeyLowerBound` | src/btree/node.rs:80-82 | lower_bound_key is the first position whose key is not below the key |
| `Layout.KeyUpperBound` | src/btree/node.rs:199-201 | upper_bound_key is the first position whose key is above the key |
| `Layout.ChildFor` | src/btree/node.rs:177-193 | child_for_key and child_for_lower_bound pick the child at the upper and the lower bound |
| `Layout.NodeHasSpace` | src/btree/node.rs:246-250 | has_space decides whether one more slot and key fit |
| `Layout.PlaceSlot` | src/btree/node.rs:53-68 | the in-place writes give exactly the page with the slot inserted |
| `Layout.LeafInsertSlot` | src/btree/node.rs:43-69 | ordered insertion in the page bytes; refused exactly when the pair is already there |
| `Layout.InternalInsertSlot` | src/btree/node.rs:138-163 | ordered insertion of a separator and child; refused exactly when the separator leads to that child already |
| `Layout.LeafInit` | src/btree/node.rs:25-30 | the page holds an empty leaf |
| `Layout.InternalInit` | src/btree/node.rs:117-125 | the page holds a node with one child and no separator |
| `Layout.LeafEntries` | src/btree/node.rs:91-97 | entries gives back the leaf the page holds |
| `Layout.InternalEntries` | src/btree/node.rs:203-209 | entries gives back the separators and children the page holds |
| `Layout.LeafRebuild` | src/btree/node.rs:99-105 | after rebuild the page holds exactly the entries, for any strictly sorted fitting list with keys of any length |
| `Layout.InternalRebuild` | src/btree/node.rs:211-216 | the same for separators and children |
| `ByteTrees.SearchBytes` | src/btree/btree.rs:72-85 | the search step on the bytes of a page is the one on the node it holds |
| `ByteTrees.InsertBytes` | src/btree/btree.rs:104-114 | the insert step on bytes gives a page that holds the node after the step |
| `ByteTrees.UpperBytes` | src/btree/btree.rs:136-190 | the upper half and the separator of a split, on bytes |
| `ByteTrees.LowerBytes` | src/btree/btree.rs:191-202 | the lower half of a split, linked to the new leaf, on bytes |
| `ByteTrees.LinkBytes` | src/btree/btree.rs:216-225 | the parent page gains separator and child |
| `ByteTrees.Search` | src/btree/btree.rs:87-96 | map lookup on the bytes of a tree of any height, from any of its pages |
| `ByteTrees.SplitBelowOn` | src/btree/btree.rs:136-226 | after the split on bytes every page of the tree holds its node, and pages of others are untouched |
| `ByteTrees.SplitRootOn` | src/btree/btree.rs:136-234 | the same for a full root under a new root |
| `ByteTrees.Insert` | src/btree/btree.rs:98-126 | on bytes the map gains exactly the pair, every page goes on holding its node, pages that are not the tree's stay as they were, and the root page changes iff it was full |
| `Tree.SplitChild` | src/btree/btree.rs:136-234 | splitting a full child keeps all tree invariants and the represented map |
| `Tree.SplitRoot` | src/btree/btree.rs:136-234 | splitting a full root grows the tree by one level and keeps all invariants and the map |
| `Tree.LeafInsert` | src/btree/btree.rs:98-126 | inserting into the covering leaf keeps it sorted, within capacity and exact |
| `Tree.OneParent` | src/btree/btree.rs:270-285 | no page is the child of two nodes |
| `Nodes.SlotBoundAbsent` | src/btree/node.rs:84-89 | among distinct keys the document id plays no part in where a new key goes |
| `InOrder.ChainIsInOrder` | src/btree/btree.rs:136-234 | in every valid tree following next pointers visits exactly the in-order leaves, each once |
| `InOrder.RootReachesAll` | src/btree/btree.rs:506-528 | the pages reachable from the root are exactly the pages of the tree |
| `BTrees.SpaceIsCount` | src/btree/btree.rs:128-134 | with keys of one length the byte test for room is a count of slots |
| `BTrees.NumericCaps` | src/document/key.rs:10-32 | nine-byte keys give 177 leaf entries and 194 separators a page |
| `BTrees.BTree.New` | src/btree/btree.rs:50-59 | an empty tree on a page that was free, all other pages unchanged |
| `BTrees.BTree.Open` | src/btree/btree.rs:61-66 | a handle at any page of a tree, root or not |
| `BTrees.BTree.Search` | src/btree/btree.rs:87-96 | map lookup; from a handle opened at any page of the tree, exactly the keys that page is responsible for are found |
| `BTrees.BTree.CutNode` | src/btree/btree.rs:136-199 | the upper half moves to a new page, in key order, nothing lost |
| `BTrees.BTree.SplitNode` | src/btree/btree.rs:136-234 | the separator and new page are linked from the parent and the invariant holds again |
| `BTrees.BTree.MakeRootRoom` | src/btree/btree.rs:98-101 | a full root is split under a new root first |
| `BTrees.BTree.Insert` | src/btree/btree.rs:98-126 | the map gains exactly the pair, all invariants are kept, pages outside the tree are untouched, pages of the tree stay at their level, and the root page changes iff it was full |
| `BTrees.BTree.FindLeaf` | src/btree/btree.rs:270-285 | the walk ends at a leaf whose range starts at or below the bound |
| `BTrees.BTree.RangeScan` | src/btree/btree.rs:236-268 | exactly the documents with low <= key <= high, in key order, for any bounds; the scan ends |
| `Repair.RemoveSlot` | src/btree/btree.rs:287-307 | removing a slot removes exactly that pair from the map |
| `Repair.DealtInv` | src/btree/btree.rs:409-447 | moving slots between neighbouring leaves and replacing the separator keeps the invariant and the map |
| `Repair.MergedInv` | src/btree/btree.rs:449-456 | merging a leaf into its left neighbour and unlinking it keeps the invariant, the chain and the map |
| `Repair.CollapsedInv` | src/btree/btree.rs:350-367 | a root without separators gives way to its child and the invariant holds |
| `Repair.RepairInv` | src/btree/btree.rs:369-407 | the whole choice of redistribution or merge turns a tree with one empty leaf back into a valid one |
| `BTrees.BTree.TryRedistributeFromLeft` | src/btree/btree.rs:409-427 | the last slot of the left leaf moves over, unless it is the only one; an internal sibling is a panic |
| `BTrees.BTree.TryRedistributeFromRight` | src/btree/btree.rs:429-447 | the first slot of the right leaf moves over, unless it is the only one; an internal sibling is a panic |
| `BTrees.BTree.MergeNodes` | src/btree/btree.rs:449-456 | the right leaf is appended to the left one and dropped from the parent |
| `BTrees.BTree.FixUnderflow` | src/btree/btree.rs:369-407 | left, then right redistribution, then left, then right merge; fails exactly on an internal page |
| `BTrees.BTree.RemoveFromLeaf` | src/btree/btree.rs:287-307 | finds the leaf with the path to it and takes out the pair iff the map holds it |
| `BTrees.BTree.RepairUpwards` | src/btree/btree.rs:309-340 | repairs bottom up; fails exactly when the leaf is empty and its non-root parent runs out of separators |
| `BTrees.BTree.CollapseEmptyRoot` | src/btree/btree.rs:350-367 | the root becomes its only child iff it has no separator |
| `BTrees.BTree.Delete` | src/btree/btree.rs:309-340 | removes exactly the pair or nothing and keeps all invariants; panics iff the pair is alone in a leaf whose non-root parent would be left without separators; a tall tree stays tall |
| `BTrees.BTree.Free` | src/btree/btree.rs:506-528 | exactly the reachable pages go on the free list, each once, and every other page keeps its content |
| `Witnesses.StaleMisses` | src/btree/btree.rs:87-96 | every page but the root leaves out some key of the tree |
| `Witnesses.LowTreeSmall` | src/btree/btree.rs:136-234 | a tree of one or two levels has no more keys than its pages have room for |
| `Witnesses.DeleteAll` | src/btree/btree.rs:309-407 | in a tree with a level between root and leaves, deleting all entries in any order panics on the last entry of a leaf with a stuck parent |
| `Witnesses.FillAndEmpty` | src/btree/btree.rs:98-407 | 34516 inserts into a new tree and then deletes: one of them panics |
| `Witnesses.FillAndSearch` | src/btree/btree.rs:61-126 | 178 inserts into a new tree: search from the page it was created with misses a key that is there |
| `Slotted.RecordAppended` | src/storage/heap.rs:353-375 | a record that fits becomes a new slot and every older slot reads as before |
| `Slotted.Tombstoned` | src/storage/heap.rs:399-406 | only the given slot loses its record; an id out of range changes nothing |
| `Slotted.LinkedRecords` | src/storage/heap.rs:189-191 | writing the link leaves all records alone |
| `Slotted.InitialPage` | src/storage/heap.rs:325-329 | no records, no next page, all space free |
| `Slotted.TryInsertInPage` | src/storage/heap.rs:353-375 | refused exactly when record and slot do not fit, else appended |
| `Slotted.TombstoneSlot` | src/storage/heap.rs:399-406 | in place, the page with that slot emptied |
| `Slotted.ScanSlots` | src/storage/heap.rs:253-262 | the live records of the page in slot order |
| `Heap.HeapFile.Create` | src/storage/heap.rs:108-111 | a one-page chain with no records on a page that was free |
| `Heap.HeapFile.Open` | src/storage/heap.rs:124-127 | the handle starts at the root with a tail in the chain |
| `Heap.HeapFile.FindLastPage` | src/storage/heap.rs:310-319 | from any page of the chain the walk ends at its last page |
| `Heap.HeapFile.Insert` | src/storage/heap.rs:148-194 | through a handle with any stale tail: the id was never issued before, all other records stay, the chain stays one acyclic chain, other pages are untouched |
| `Heap.HeapFile.Read` | src/storage/heap.rs:203-206 | the record of the id, or None if it is deleted or was never issued |
| `Heap.HeapFile.Delete` | src/storage/heap.rs:214-219 | exactly that record becomes None; its id stays issued |
| `Heap.HeapFile.ScanPage` | src/storage/heap.rs:248-264 | the live records of one page and the next page |
| `Heap.HeapFile.ScanAll` | src/storage/heap.rs:266-285 | every live record exactly once with its bytes, and nothing else; the walk ends |
| `Heap.ScanExact` | src/storage/heap.rs:266-285 | the scan of a chain lists an id with bytes iff that is its live record |
| `Heap.Run` | src/storage/heap.rs:148-219 | any interleaving of inserts and deletes, of ids in use before or met in the run, through any number of handles: every insert id is new to the whole run and the records are those of a replay |
| `Format.RoundTrip` | src/wire.rs:254-279 | reading an encoding followed by anything gives the value written and what follows, for both readers |
| `Format.ParsedIsEncoded` | src/wire.rs:254-279 | a reader that succeeds has consumed exactly the encoding of its result |
| `Format.ReadersAgree` | src/document/codec.rs:196-227 | the two readers accept the same bytes with the same value and the same bytes left |
| `Format.BodyReadersAgree` | src/document/codec.rs:218-227 | the same for documents without a tag |
| `Format.ReadersRefuse` | src/wire.rs:264-269 | where they refuse, they give the same reason or the wire reader says Truncated |
| `Format.ParseSettled` | src/wire.rs:213-220 | a verdict other than Truncated does not change when more bytes arrive |
| `Format.PrefixTruncated` | src/wire.rs:254-279 | every strict prefix of an encoding is refused as Truncated by both readers |
| `Orders.SortKeys` | src/wire.rs:189-190 | the keys in strictly increasing order, one result for every iteration order |
| `Orders.CanonicalOrders` | src/wire.rs:187-195 | writing the fields in key order loses nothing |
| `Orders.OrderIsSmall` | src/document/codec.rs:158-164 | no field order has lengths the value does not have |
| `Wire.SentRoundTrip` | src/wire.rs:147-195 | what is sent reads back as the value, at every depth |
| `Wire.SentBodyRoundTrip` | src/wire.rs:187-195 | the same for a document without a tag |
| `Wire.SentUnique` | src/wire.rs:187-195 | different values have different encodings and none is a prefix of another |
| `Wire.SentPrefix` | src/wire.rs:213-220 | every strict prefix of a sent value is Truncated |
| `Wire.PutValue` | src/wire.rs:147-176 | appends the key-ordered encoding, equal for equal values |
| `Wire.PutDocumentBody` | src/wire.rs:187-195 | appends the count and the fields in key order |
| `Wire.Reader.Take` | src/wire.rs:213-220 | the next n bytes, or Truncated without moving |
| `Wire.Reader.Str` | src/wire.rs:246-252 | a counted string of valid UTF-8, with the error of the first check that fails |
| `Wire.Reader.Value` | src/wire.rs:254-279 | the value of the recursive format at the cursor, or its error |
| `Wire.Reader.DocumentBody` | src/wire.rs:281-293 | the document at the cursor; the last of equal keys wins |
| `DocCodec.WriteValue` | src/document/codec.rs:118-147 | appends the encoding of the value in some field order |
| `DocCodec.WriteDocument` | src/document/codec.rs:158-164 | appends count and fields in whatever order the map yields, each field once |
| `DocCodec.Cursor.ReadString` | src/document/codec.rs:229-243 | a counted string of valid UTF-8 |
| `DocCodec.Cursor.ReadValue` | src/document/codec.rs:196-216 | the value at the cursor or the named error, without the count guard |
| `DocCodec.Cursor.ReadDocumentBody` | src/document/codec.rs:218-227 | the document at the cursor |
| `DocCodec.SerializeDocument` | src/document/codec.rs:72-76 | the bytes are the document in one of its field orders |
| `DocCodec.DeserializeDocument` | src/document/codec.rs:78-86 | succeeds iff the bytes are one whole document, with that document; trailing bytes are refused |
| `DocCodec.StoreAndLoad` | src/document/codec.rs:72-86 | every document with lengths below 2^32 comes back, whatever order was written |
| `KeyOrder.KeyOrder` | src/document/key.rs:3-44 | byte order of keys is value order and only equal values share a key, across all types |
| `KeyOrder.FloatOrder` | src/document/key.rs:18-32 | the flipped bits order as the numbers they encode, with -0 just below 0 |
| `KeyOrder.MagnitudeRises` | src/document/key.rs:18-32 | the bit patterns of non-negative doubles rise with their value, subnormals and infinity included |
| `KeyOrder.BEOrder` | src/document/key.rs:10-16 | big-endian bytes order as numbers |
| `KeyOrder.IntBracket` | src/query/planner.rs:330-344 | keys between i64 MIN and MAX are exactly the Int keys |
| `KeyOrder.FloatBracket` | src/query/planner.rs:330-344 | keys between the infinities are exactly the Float keys |
| `KeyOrder.CompoundHas` | src/btree/index.rs:468-477 | a document has a compound key iff it has every field, with no array, document or NaN in it |
| `KeyOrder.CompoundUnique` | src/btree/index.rs:468-477 | compound keys over the same fields are equal iff every part is equal, for strings whose length fits the length field |
| `Planner.SplitKeepsMeaning` | src/query/planner.rs:247-256 | flattening and keeps value, short circuits and errors, whatever the nesting |
| `Planner.ResidualKeepsMeaning` | src/query/planner.rs:114-128 | dropping conjuncts true of a document changes neither the boolean nor the error on it |
| `Planner.PlanSource` | src/query/planner.rs:191-223 | the first conjunct that can drive an index does; it is absorbed iff its bounds are exact |
| `Planner.FlipHolds` | src/query/planner.rs:347-355 | mirroring operator and operands gives the same answer for all values, floats, NaN and nested ones included |
| `Planner.ScanCovers` | src/query/planner.rs:276-344 | an exact scan enforces its conjunct; of the documents on which the conjunct holds the scan has exactly those with the field present, of the kind of the bounds, and not the zero an end shuts out |
| `Planner.FilterCounts` | src/query/executor.rs:405-412 | a filter succeeds iff every row evaluates and keeps exactly the rows that hold |
| `Planner.PushdownExact` | src/query/planner.rs:35-128 | if the full scan succeeds so does the index plan, with exactly the rows of the full answer that the scan reaches, each as often |
| `Planner.PushdownSame` | src/query/planner.rs:35-128 | the two plans give the same bag iff every stored row on which the predicate holds is reached |
| `Planner.NullTestLosesRows` | src/query/planner.rs:276-296 | where f == null with an index on f loses a document without f |
| `Planner.IntTestLosesFloats` | src/query/planner.rs:276-344 | where f >= 0 with an index on f loses a document in which f is a float |
| `Planner.ZeroTestLosesNegative` | src/query/planner.rs:276-296 | where f == 0.0 with an index on f loses a document in which f is -0.0 |
| `Evaluate.Utf8Concat` | src/query/evaluate.rs:203-211 | joining two strings gives valid UTF-8 |
| `EvalLaws.OrMeans` | src/query/evaluate.rs:111-112 | or is true iff its left side is, or that is false and the right one true; false iff both are; an error iff the side reached has it |
| `EvalLaws.AndMeans` | src/query/evaluate.rs:111-112 | the same for and, which stops at a false left side |
| `EvalLaws.NotMeans` | src/query/evaluate.rs:128 | the other boolean, or the same error |
| `EvalLaws.BoolMeans` | src/query/evaluate.rs:82-90 | a condition is the boolean it evaluates to; any other value is reported |
| `EvalLaws.DeMorgan` | src/query/evaluate.rs:109-128 | a negation moves inside or and and, with the same boolean or the same error |
| `EvalLaws.DoubleNot` | src/query/evaluate.rs:128 | two negations cancel |
| `EvalLaws.TernaryMeans` | src/query/evaluate.rs:55-61 | the branch the condition names, or its error; a negated condition swaps the branches |
| `EvalLaws.OperandFails` | src/query/evaluate.rs:113-122 | the first operand that fails gives the error |
| `EvalLaws.IntSum` | src/query/evaluate.rs:241-269 | integers add up, with an overflow exactly if the sum is out of range |
| `EvalLaws.IntDifference` | src/query/evaluate.rs:241-269 | the difference plus the second operand is the first; an overflow exactly if it is out of range |
| `EvalLaws.SumUndone` | src/query/evaluate.rs:241-269 | adding and subtracting the same expression undo each other unless the first step overflows |
| `EvalLaws.IntProduct` | src/query/evaluate.rs:241-269 | integers multiply, with an overflow exactly if the product is out of range |
| `EvalLaws.IntDivision` | src/query/evaluate.rs:253-265 | x = q * y + m with |m| < |y| and m of the sign of x, for / and % alike; an error iff y is zero, an overflow iff q is out of range |
| `EvalLaws.OneDivision` | src/query/evaluate.rs:253-265 | that quotient and that remainder are the only ones |
| `EvalLaws.FloatArithmetic` | src/query/evaluate.rs:195-199 | one double makes it a computation of doubles, with an integer operand converted, and none of them fails |
| `EvalLaws.OtherArithmetic` | src/query/evaluate.rs:195-216 | next to a string + joins the two texts; an array, a document or any other pair is an error |
| `EvalLaws.NegMeans` | src/query/evaluate.rs:129-140 | a number and its negation add up to zero; an overflow for the least integer, an error for anything but numbers |
| `EvalLaws.NegativeIs` | src/query/evaluate.rs:135 | the other sign of a double negates its value, keeps NaN and is its own inverse |
| `EvalLaws.NegTwice` | src/query/evaluate.rs:129-140 | negating twice gives the number back |
| `EvalLaws.OrderMeans` | src/query/evaluate.rs:168-193 | null makes all four tests false; two integers, two numbers as doubles or two strings are tested by their order; NaN and other pairs fail |
| `EvalLaws.LtMeans` | src/query/evaluate.rs:313 | string order: a proper beginning, or the smaller byte at the first difference |
| `EvalLaws.Trichotomy` | src/query/evaluate.rs:168-193 | of comparable values exactly one of <, == and > holds, and <= is < or == |
| `EvalLaws.SameMeans` | src/query/evaluate.rs:299-305 | values are equal iff they hold no NaN and differ at most in the sign of zeros, at any depth |
| `EvalLaws.EqMeans` | src/query/evaluate.rs:299-305 | == never fails and is that equality, an integer next to a double taken as a double; != is its negation |
| `EvalLaws.InMeans` | src/query/evaluate.rs:37-41 | in holds iff == holds for one of the values; not in is its negation |
| `EvalLaws.FieldMeans` | src/query/evaluate.rs:33-43 | a field or null; missing is the negation of exists |
| `EvalLaws.MatchMeans` | src/query/evaluate.rs:44-54 | contains, starts and ends hold iff the string is the pattern with something, nothing before it, or nothing after it; false for anything but strings |
| `EvalLaws.ArrayMeans` | src/query/evaluate.rs:62-68 | the values of the items in order, or the error of the first that fails |
| `EvalLaws.DocMeans` | src/query/evaluate.rs:69-75 | every name with the value of its last field, or the error of the first that fails |
| `EvalLaws.AggregateFails` | src/query/evaluate.rs:76-78 | an aggregate call outside a group is an error |
| `Queries.RunWhere` | src/query/planner.rs:35-105 | planning a where and pulling the plan over the stored pages: as a filter over the sequential scan if no index serves, else the rows of that answer that the scan reaches; a bound without a key panics |
| `Queries.RangeFetches` | src/database/database.rs:355-368 | what an index in step returns for a range is what a scan would fetch for it |
| `Queries.WhereAnswers` | src/query/planner.rs:35-223 | the list of the planned tree against the list of filter over sequential scan, on the same pages |
| `Queries.LaterWhereKept` | src/query/planner.rs:65-72 | a where keeps its meaning, errors included, if no absorbed position is one of its own |
| `Queries.LaterWhereSame` | src/query/planner.rs:65-72 | a later where that evaluates on every row is answered rightly iff on every row the dropped conjuncts hold or those left are false |
| `Queries.SecondWhereDropped` | src/query/planner.rs:58-72 | an equality on an indexed field followed by a where of one conjunct: the second one is not tested |
| `Queries.SecondWhereKeepsRow` | src/query/planner.rs:58-72 | a stored document with x = 1 and y = 3: where x == 1, then where y == 2 yields it from the index plan and not from the full scan |
| `Collections.Collection.Insert` | src/document/collection.rs:98-101 | a fresh id for the document, all others as before |
| `Collections.Collection.Get` | src/document/collection.rs:109-114 | the document stored under the id, if it is live |
| `Collections.Collection.Delete` | src/document/collection.rs:116-118 | only that document is gone |
| `Collections.Collection.Scan` | src/document/collection.rs:151-158 | every live document exactly once: the records of the chain in order, decoded |
| `Collections.Collection.ScanPage` | src/document/collection.rs:138-149 | the live documents of one page of the chain and the page it links to |
| `Indexes.InStepInsert` | src/btree/index.rs:226-237 | adding the entry of a new document keeps the index exact |
| `Indexes.InStepDelete` | src/btree/index.rs:239-250 | removing the entry of a deleted document keeps the index exact |
| `Indexes.FindDecides` | src/btree/index.rs:179-202 | one lookup in a unique index decides whether a document would clash |
| `Indexes.UniqueInsert` | src/btree/index.rs:179-202 | a document that clashes with nothing keeps the key unique |
| `Indexes.ClashAfterDelete` | src/btree/index.rs:179-202 | a document allowed in place of a row clashes with nothing once the row is gone |
| `Indexes.KeyHas` | src/btree/index.rs:459-477 | a document has a key in an index, of one field or of several, iff it has every field, with no array, document or NaN in it |
| `Indexes.KeyMeans` | src/btree/index.rs:459-477 | two documents have the same key iff they have all the fields and equal values in them |
| `Indexes.ClashIsTwin` | src/btree/index.rs:179-202 | a key is taken iff another live document has equal values in all fields of the index |
| `Indexes.UniqueIsNoTwins` | src/btree/index.rs:179-202 | keys are unique iff no two live documents have equal values in all fields of the index |
| `Tables.StillFresh` | src/btree/index.rs:205-224 | while a checked batch is stored the rest of it still clashes with nothing |
| `Tables.OkIsNoRepeat` | src/btree/index.rs:205-224 | a batch passes iff none of its documents has, in all fields of a unique index, the values of a stored or an earlier one |
| `Tables.ConsistentInsert` | src/btree/index.rs:226-237 | adding a document that clashes with nothing to heap and indexes keeps all of them in step and the unique ones unique |
| `Tables.ConsistentDelete` | src/btree/index.rs:239-250 | the same for taking one out of heap and indexes |
| `Tables.RangeIsRows` | src/database/database.rs:355-368 | what an index in step holds for a range is the live documents in the range, each once, in key order |
| `LeafIndexes.RoomIsSpace` | src/btree/node.rs:246-250 | has_space on the page is room for one more slot beside those it holds |
| `LeafIndexes.FindAtPlace` | src/btree/btree.rs:72-85 | the slot at the lower bound of a key decides whether the page has the key, duplicates included |
| `LeafIndexes.SearchLeaf` | src/btree/btree.rs:72-96 | search from a root leaf: the first document under the key, read from the bytes |
| `LeafIndexes.RangeLeaf` | src/btree/btree.rs:236-268 | range scan of a root leaf: exactly the slots with low <= key <= high, in order |
| `LeafIndexes.InsertLeaf` | src/btree/btree.rs:98-126 | on a page with room the slots gain the entry at its place and no other page changes |
| `LeafIndexes.DeleteLeaf` | src/btree/btree.rs:287-340 | the slots lose exactly the entry, or nothing |
| `LeafIndexes.SplitPublished` | src/btree/btree.rs:136-234 | the old root keeps the lower half and links to a new leaf with the upper half and the old link, below a new root page; no other page changes |
| `LeafIndexes.InsertRoot` | src/btree/btree.rs:98-126 | insert from a root leaf, full or not: what its page holds afterwards, which is the lower half and, if it belongs there, the new slot once there was no room |
| `Overflow.FilledState` | src/btree/index.rs:226-237 | after m documents an index is in step if its page had room for all their keys; if not, its slots are right and a live document is missing |
| `Overflow.ConsistentAfter` | src/database/database.rs:193-229 | a batch that passed the check and has room leaves documents and indexes in step and unique ones unique |
| `Overflow.UniqueAfter` | src/btree/index.rs:205-224 | from a state in step a batch that passed the check repeats no unique key |
| `Overflow.UnseenIsClear` | src/btree/index.rs:179-202 | on an index in step the lookup finds nothing iff no other live document has the key |
| `Overflow.PassesIsOk` | src/btree/index.rs:205-224 | on indexes in step the batch check passes iff no unique key would repeat |
| `Overflow.LostKey` | src/btree/index.rs:179-202 | a unique index that misses a live document does not find that document's key |
| `Databases.Database.CheckUniqueExcept` | src/btree/index.rs:179-202 | passes iff no lookup from a published page finds another document; on indexes in step iff no other live document has the values of d in all fields of a unique index |
| `Databases.Database.CheckUniqueBatch` | src/btree/index.rs:205-224 | passes iff no lookup and no earlier document of the batch has a key of the batch; on indexes in step iff no document of the batch has, in all fields of a unique index, the values of a stored or an earlier one; no page changes |
| `Databases.Database.SearchPublished` | src/btree/index.rs:252-262 | search from the published root finds what its page holds |
| `Databases.Database.OnInsert` | src/btree/index.rs:226-237 | every published page becomes what an insert from it makes of it, full or not; the page of an index stays all of its index iff it had room |
| `Databases.Database.InsertPublished` | src/btree/index.rs:226-237 | insert through the published root, full or not: the slots left on the published page, the heap and all other indexes untouched |
| `Databases.Database.OnDelete` | src/btree/index.rs:239-250 | every published page loses exactly the entry of the document; the heap is untouched |
| `Databases.Database.InsertDocs` | src/database/database.rs:193-229 | refused with no page changed iff a lookup finds a unique key taken; else stored under new ids with every published page as the code leaves it. From a state in step: refused iff two documents would have equal values in all fields of a unique index, else no two live documents have; and in step afterwards iff every published page had room for the keys of the batch; if not, a live document is missing from a published page |
| `Databases.Database.ValidNoTwins` | src/btree/index.rs:179-224 | with indexes in step no two live documents have equal values in all fields of a unique index |
| `Databases.AfterInsert` | src/database/database.rs:193-229 | documents and indexes in step are in step after a batch iff the pages had room; unique keys stay unique either way |
| `Databases.Database.DeleteDocs` | src/database/database.rs:243-268 | exactly the live documents of the ids are gone from heap pages and index pages, and their number is returned |
| `Databases.Database.UpsertBy` | src/database/database.rs:314-336 | the match is replaced by its merge, or the document stored; refused with no page changed iff another live document has the values of the new one in all fields of a unique index; indexes are in step afterwards iff their pages have room once the old entry is out |
| `Databases.Database.SearchIndex` | src/database/database.rs:338-353 | the indexed document, or none iff no live document has the value, for published roots in step |
| `Databases.Database.RangeIndex` | src/database/database.rs:355-368 | the live documents with a key in the range, each once, in key order, from the published page |
| `Databases.Database.FetchDocs` | src/database/database.rs:284-301 | the documents of the ids, in their order |
| `Databases.Database.CreateIndex` | src/btree/index.rs:26-138 | a unique one is refused iff two live documents have equal values in all its fields; else the published page is in step with the stored documents iff all their entries fit it, and has right slots but misses a document if not |
| `Databases.Database.ScanCollection` | src/database/database.rs:105-109 | every live document exactly once: the records of the chain in order, decoded |
| `Databases.Database.ScanPage` | src/database/database.rs:121-130 | the live documents of the page at the cursor, or of the root page, and the page it links to |
| `Databases.PageRewritten` | src/btree/index.rs:226-250 | rewriting one published page changes that index and neither the heap nor another index |
| `Databases.HeapFrame` | src/storage/heap.rs:148-194 | documents depend on the pages of their chain only |
| `StaleIndex.FindUnseen` | src/btree/index.rs:179-202 | the uniqueness check passes for one of the values that are stored |
| `StaleIndex.DuplicateGetsIn` | src/database/database.rs:193-229 | a new collection with a unique index, 178 numbers inserted, one of them inserted again: both calls succeed and two live documents share the key |
| `Catalogs.CatalogRoundTrip` | src/document/catalog.rs:336-532 | any encoding of a catalog, in any order and followed by anything, decodes to it |
| `Catalogs.EncodeCatalog` | src/document/catalog.rs:313-404 | the precomputed size is exactly what is written and every entry is written once |
| `Catalogs.DecodeCatalog` | src/document/catalog.rs:441-532 | the catalog the bytes stand for; one without the unique section has none |
| `Catalogs.ReadCatalogChain` | src/document/catalog.rs:416-435 | the chunks of the chain, or a refusal for a link out of the file or back into the chain; ends on every file |
| `Catalogs.FollowWritten` | src/document/catalog.rs:268-289 | following a flushed chain gives its bytes padded with zeros and the overflow pages in use |
| `Catalogs.WriteChunks` | src/document/catalog.rs:279-287 | each chunk lands on its page linked to the next; other pages are untouched |
| `Catalogs.FlushAndReopen` | src/document/catalog.rs:268-289 | flush, chain reading and decoding return the same catalog |
| `Leaves.StreamIsScanAll` | src/query/executor.rs:269-289 | the pages of a chain one after the other are exactly scan_all, document by document |
| `Leaves.LinkIsNextPage` | src/storage/heap.rs:248-264 | following the link of page k is the step to page k + 1, and the last page has none |
| `Leaves.SeqScanIsScanAll` | src/query/executor.rs:269-289 | a fresh sequential scan stands for the list of scan_collection, in its order |
| `Leaves.ReadPage` | src/query/executor.rs:278-281 | one fetch of the scan: the rows of the page at the cursor, and the cursor on the page behind it |
| `Leaves.ReadRange` | src/query/executor.rs:317-334 | the rows of a range from the published page; a missing index and a bound without a key are told apart |
| `Aggregates.GroupKeyMeans` | src/query/executor.rs:660-666 | two documents are in one group iff each group field renders alike in both |
| `Aggregates.ColumnIs` | src/query/executor.rs:727 | the values a fold sees are those of exactly the documents that have the field, in their order |
| `Aggregates.CountMeans` | src/query/executor.rs:717-792 | count is the number of documents, with or without a field |
| `Aggregates.NumbersMean` | src/query/executor.rs:717-792 | sum and avg over the documents that have the field: integers exactly, with an error iff a running total is out of range; as doubles if there is one; avg over the number of those documents; null for none; an error for anything but numbers |
| `Aggregates.ExtremeMeans` | src/query/executor.rs:717-792 | min and max over values of one kind: a document has the value, and no document has a lower (higher) one |
| `Aggregates.ExtremeOfNone` | src/query/executor.rs:717-792 | min and max are null if no document has the field |
| `Aggregates.CollectMeans` | src/query/executor.rs:717-792 | the array of the values of exactly the documents that have the field, in their order |
| `Executor.Next` | src/query/executor.rs:268-867 | one pull of any operator tree over the stored pages yields the head of its list, then the rest; None is permanent; errors come exactly where the list ends in one |
| `Executor.SeqScanNext` | src/query/executor.rs:268-290 | the scan over the heap chain yields its documents in order, passes empty pages and reads a page only when the one before is used up |
| `Executor.IndexScanNext` | src/query/executor.rs:317-334 | the range is read once and its rows are yielded in order |
| `Executor.FilterNext` | src/query/executor.rs:404-413 | skips to the next row on which the predicate is true, and fails where it fails |
| `RowLaws.KeepMeans` | src/query/executor.rs:405-412 | a filter keeps, in order, exactly the rows on which the predicate is true, up to the first on which it fails |
| `Executor.ProjectionNext` | src/query/executor.rs:428-458 | the selected fields, without the id |
| `RowLaws.ProjectMeans` | src/query/executor.rs:447-458 | every name of a projected row holds the value of the last item with that name |
| `RowLaws.NameMeans` | src/query/executor.rs:447-458 | the name of an item is its alias, else the field it selects, else made up from its place |
| `Executor.DropNext` | src/query/executor.rs:472-482 | the row without the named fields |
| `RowLaws.DropMeans` | src/query/executor.rs:472-482 | a row keeps its id and exactly the fields not named |
| `Executor.OffsetNext` | src/query/executor.rs:514-524 | the first n rows are discarded once |
| `RowLaws.LimitThenOffset` | src/query/executor.rs:495-524 | a limit and an offset of the same number cut a list in two |
| `Executor.SortNext` | src/query/executor.rs:559-596 | buffers everything, then yields the sorted rows; on columns that are not all Int, all String or all Float without a NaN the outcome is the one the library sort gives |
| `Executor.AggregateNext` | src/query/executor.rs:622-652 | buffers everything, then yields one row a group, its columns folded over the documents of the group |
| `RowLaws.FoldGroupMeans` | src/query/executor.rs:676-707 | every name of a group row holds the fold of the last item with that name over the documents of the group |
| `RowLaws.LabelMeans` | src/query/executor.rs:676-707 | a column of a group is named by its alias, else as its field, as fold and field joined by an underscore, as the group field in its place, or by its position |
| `Executor.JoinNext` | src/query/executor.rs:832-868 | the nested-loop join in right order, the matches of each right row last first |
| `Executor.MatchAll` | src/query/executor.rs:851-865 | the merges of a right row with every equal left row; null matches nothing |
| `Executor.Drain` | src/query/executor.rs:560-565 | pulling to the end collects exactly the list or its error |
| `Executor.Execute` | src/query/executor.rs:139-160 | running a plan over the pages as they are gives exactly its list, or the error that ends it, and leaves the pages as they are |
| `Operators.SortIsStable` | src/query/executor.rs:559-596 | on columns of one kind the output is an arrangement of the rows in which, of any two, the first key whose values differ puts the smaller before the larger, the larger before the smaller if it is descending, and rows that differ in no key stay in their order |
| `Operators.GroupsPartition` | src/query/executor.rs:622-652 | each document is in the group of its key, in order, and the group sizes add up to the rows |
| `Operators.CountColumn` | src/query/executor.rs:622-792 | the count column holds the size of every group and over all output rows adds up to the input rows |
| `Operators.JoinExact` | src/query/executor.rs:832-868 | a row is in the join iff it merges a left and a right document with equal non-null keys |
| `Operators.JoinIsPairs` | src/query/executor.rs:832-868 | the join lists every pair of a left and a right document with equal non-null keys exactly once, by right position and then by falling left position |
| `Operators.LimitedScan` | src/query/executor.rs:495-506 | a limit over a scan of the heap yields the first n rows of the pages and reads no page beyond the one holding the last of them |
| `Locality.ExprLocal` | src/asl/parser.rs:790-1045 | what an expression parses to does not depend on which stage boundary follows it |
| `Printer.PrintBack` | src/asl/parser.rs:790-1045 | what is written of an expression is read back at its own level of binding |
| `Printer.ExprBack` | src/asl/parser.rs:790-1045 | every expression the grammar has, written with parentheses by precedence and left association, is read back, up to any token that ends it |
| `StagePrinter.StageBack` | src/asl/parser.rs:522-763 | every stage that can be written is read back from its tokens |
| `StagePrinter.KeyDefault` | src/asl/parser.rs:654-663 | an order key without a word is ascending |
| `StagePrinter.OneDocBack` | src/asl/parser.rs:719-744 | an insert of one document needs no brackets |
| `StagePrinter.StageIsWritable` | src/asl/parser.rs:522-763 | every stage the parser reads is one that can be written |
| `StagePrinter.PipelineBack` | src/asl/parser.rs:434-457 | a written pipeline is read back, for every choice of separators, iff no select ends in a bare count right before an omitted one |
| `StagePrinter.ReadIsWritable` | src/asl/parser.rs:434-457 | every pipeline the parser reads is one that can be written |
| `Separators.SelectInContext` | src/asl/parser.rs:561-630 | a select list in front of a stage keyword loses a lone final count, else nothing changes |
| `Separators.StageInContext` | src/asl/parser.rs:536-763 | a stage that parses alone parses in front of every boundary, up to the boundary |
| `Separators.PipelineRead` | src/asl/parser.rs:434-457 | the pipeline read for every choice of separators |
| `Separators.SeparatorsDoNotMatter` | src/asl/parser.rs:434-520 | every choice of pipe, comma or nothing gives the same pipeline iff no select ends in a bare count right before an omitted separator |
| `Separators.CountBeforeLimit` | src/asl/parser.rs:601-630 | from u, select count, limit 1: written without separators the select reads a field named count, with pipes it counts |

## Left out

- Sockets, threads, HTTP, the command line and message framing around wire values.
- Real files, seeking and I/O errors: the disk is a sequence of pages that always succeeds, owned by one pool.
- The width of the pool's clock: stamps are unbounded, so a 64-bit clock running over is not modelled.
- Page ids are unbounded in the tree and the pool; the 64-bit encoding and its reserved value appear in `Layout`, `Slotted`, `Heap` and
  `Databases`, where the file is required to stay below 2^64 - 1 pages.
- BTrees.BTree.Insert: keys are distinct and of one length, and two entries fit a page; equal keys and keys of several lengths are modelled in
  `LeafIndexes` only, where the handle is at a leaf. `ByteTrees.Insert` has the same scope.
- Pages unlinked by a merge or a root collapse are not freed by the code; the model leaves them allocated too.
- Delete and range scan of a tree with several levels work on pages that are node values; search, insert and split run on bytes too.
- Databases.Database.InsertDocs: ends with Overfull where a key has no room in its half of a split page either, which takes keys of different
  lengths; the code splits on. A key too long for an empty page and a value without a key (NaN, array, document) are excluded: the code panics.
- Databases.Database.OnInsert: ends there likewise.
- Databases.Database.CreateIndex: the build, which goes on through one handle below the new root, ends at the insert that moves the root; and
  the page allocated before a refusal is not modelled.
- Databases.Database.DeleteDocs: required to start from indexes in step, as are upsert, lookups by value and range scans.
- Databases.Database.UpsertBy: a document to be written that is too large for a record is excluded, because the code panics on it.
- Joining and splitting the field names of a compound index; the model names an index by its list of fields.
- Allocation of catalog overflow pages, which goes through a second disk handle: the pages are given.
- The order in which `encode_catalog` sorts two of its sections: the proof covers every order.
- Text of error messages, decimal text and debug rendering of values, binary64 arithmetic and integer-to-double rounding: parameters of the
  evaluator and the operators. Comparison of doubles is modelled exactly.
- Pipelines with a where behind another stage than from: the code pushes it below that stage, and no equivalence is stated for them.
- Executor.Next: operators are values whose next returns the new state, because their children are of every kind; update in place and the mutating operators Insert, Update, Upsert and Delete are not part of it.
- Executor.SortNext: what a sort does on columns that are not all Int, all String or all Float without a NaN depends on the library's comparison order and is a parameter.
- Aggregates.GroupKeyMeans: the rendering of a value is a function of it; the code renders a nested document in the order its map happens to
  have, so that equal documents in a group field may fall into different groups.
- Parser.ParseExpr: the cursor is the list of tokens left, and error positions and messages are not modelled; create and drop statements and schemas are left out, as is the lexer.
- Schema declarations, which nothing enforces, and TTL sweeping.
