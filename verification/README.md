# Verified model of the xBase storage engine

The repository reads and writes xBase files: DBF tables, their memo files, four families of index
files, and FAT disk images that may hold them. This project models its stateful core in Dafny and
proves what that core promises. Nothing was executed: every statement is checked by the verifier.
`dafny verify dfyconfig.toml` checks all of it.

Code that changes things step by step is modelled by classes and methods with the same branches:
`NtxIndex.Index`, `NtxCursor.Cursor`, `TableFile.Table`, `WorkArea.Area`, `FatVolume.Volume`,
`FatFile.File`, three memo file classes, `NdxBuild.Index` and `IdxIndex.Index`. In-place loops
(deduplication, insertion sort, the negative-key transform, page and leaf encoders) work on arrays.
Each method is tied to a function or predicate on values, and the laws are proved about those.

## The parts

**NTX B-tree** (`Entries`, `Ntx*`). A tree is a page map, a root offset, a free list and a file
size. A ghost tree says what the pages mean: its in-order reading is the sorted contents, its
footprint the pages in use. `NtxTree` and `NtxMoves` prove the five rearrangements (split, two
rotations, merge, root change) on trees; `NtxImages` ties them to the edits of item lists and page
writes; `NtxIndex` is the code. `NtxMiss` and `NtxMissUp` settle what a deletion does when it finds
nothing, `NtxFate` how any deletion ends, page by page, and which tree it leaves. `NtxQuery`,
`NtxWalk` and `NtxCursor` read; `NtxPage` is the byte form of a page. `NtxRun` puts it together: any
script of insertions, deletions and re-openings behaves as on a bag of entries, up to an operation
that fails. `NtxWitness`, `NtxWorn` and `NtxStranded` hold the files on which the code does not do
what one would expect.

**Work areas and PACK** (`TableFile`, `KeyedRows`, `PackEntries`, `WorkArea`, `AreaRun`). A table is
a file of fixed-size records, compacted in place. A record is its bytes; an index key is a function
of these bytes that does not look at the deletion mark. The header is its 32 bytes, with count and
date rewritten as the code does. An index agrees with a table when it lists exactly (key of record i,
i). Every operation keeps all attached indexes in agreement, and the repair after PACK (drop the
stale, then delete all moved, then insert all moved) yields what a rebuild yields.

**FAT volumes** (`FatTable`, `FatChains`, `FatData`, `FatVolume`, `FatFile`, `FatRun`). The table is
bytes with 16- or 28-bit entries, following the Microsoft FAT32 File System Specification, version
1.03, sections "FAT Data Structure" and "FAT Type Determination". A volume is consistent when every
directory entry owns a chain and chains are acyclic and disjoint. `FatRun` shows that whole scripts
are answered, refusals included, as a user would work out who keeps flat byte arrays, the live names
with their numbers of clusters, and how many slots and clusters are free.

Two things are assumed of a volume that opening it does not check (fatfs/geometry.go:193-257): it has
fewer than 2^28 - 9 clusters (`FatTable.MarksApartWhen` says why), and the table covers all of them.

**Memo files** (`Decimal`, `MemoPointer`, `MemoDbt`, `MemoFpt`, `MemoDbaseIV`, `MemoFields`,
`MemoCompact`, `MemoPack`). Append-only stores in three layouts, the ten-byte pointers to them, and
the copying compaction that PACK of a whole work area runs. Decoding and encoding a record are a
parameter there (`MemoFields.Codec`): the laws hold for any that keeps length and memo pointers.

**Codecs and bulk load** (`Bytes`, `CompactLeaf`, `LeafEncoder`, `IdxIndex`, `NdxTree`, `NdxBuild`,
`NdxPage`, `NumericKeys`, `Julian`). The compact leaf page with both of its decoders, the NDX tree
built from the bottom up, the order-preserving numeric key, and the day number arithmetic.

What the laws speak of is tied to bytes, bits and numbers by lemmas that write these out: the key order
(`Entries.FirstDifference`), the deletion mark (`TableFile.SurvivorBytes`), the key of a record
(`WorkArea.Listing`), a live directory slot (`FatVolume.FileBits`), a cluster chain
(`FatChains.ChainMeans`), a memo pointer (`MemoPointer.ParseMeans`), and where each page, record, header
and memo field lies (the lemmas whose names end in `Means`, `Lies`, `Tells` and `Are`).

## Where the code differs from what one would expect

The model follows the code in each case; the members named state it.

- With even page capacity a split leaves the right half one entry short of what the underflow test
  asks for (ntx/insert.go:108-124, ntx/delete.go:160-162). Deleting an absent entry can then
  rebalance pages, free some, and leave a branch root without entries, and it returns before the
  root collapse and the header write. `NtxWitness.EvenMiss` opens such a file and does it;
  `NtxIndex.Index.Delete` says exactly when pages change (the path is not `Quiet`) and what tree is
  left; `NtxMiss.OddIsQuiet` shows odd capacities free of it.
- A later deletion on such a root, of any entry, can then fail: when the only child of the root ends
  below half a page, `fixChild` asks for the child left of the first (ntx/delete.go:170-205), which
  is an index out of range. `NtxFate.FailsIfStranded` says that with room for three items a deletion
  fails if and only if this is so, and `NtxFate.StrandedWhen` what it means for the fill of that child.
  So the key size alone is no safeguard. A caller is safe with key sizes up to 245 and one of these: an
  odd capacity, no deletion that misses (`NtxRun.Run`), or a root that is a leaf or has entries
  (`NtxFate.DeletionGoesThrough`). `NtxWorn.WearOut` gives, for every key size up to 245 with even
  capacity, a file in good order and a sequence of absent entries whose deletion fails in the end;
  `NtxStranded.Strand` does it with four deletions on the tree that 25 insertions make at key size
  180, and the last is the deletion of an entry that is there.
- Key sizes 246 to 250 leave room for two items a page, and a split then leaves an empty right page
  (`NtxQuery.SplitRightHalf`, `NtxQuery.PageHoldsTwo`). Insertion keeps all invariants even so, but
  for each of these sizes there is a file on which `Max` finds nothing among four entries and the
  deletion of the largest reports damage (`NtxWitness.LargestLost`), and one on which the deletion of
  an absent entry fails as above (`NtxWitness.NoSiblingToAsk`).
- An index that is not unique takes the same key and record number twice. The walks by point queries
  then pass the pair once (`NtxWalk.Walk`, `NtxWalk.DoubledEntry`); the cursor passes it twice.
- After a failed `Seek` the record pointer stays where it was with EOF up, although the comment says
  it is parked (blipperdb/area.go:367-399); a following `Skip(1)` moves one record and EOF stays up,
  since `skipForward` never takes it down. `Seek` reports a match on a prefix of the padded key.
- A key that is too long makes `Append` and `Replace` stop halfway: the record is written, the
  indexes before that one are updated, and after `Replace` that one has lost the record. The table
  and each index stay usable, but they no longer agree.
- Writing past the end of a file shows stale bytes when the last cluster holds some behind the old
  end, which a file made here never has but a foreign one may (`FatData.WriteIsFlat`,
  `FatData.StaleByteShows`). A write that runs out of clusters keeps those it got. The size field
  wraps at 2^32. Reading zero bytes reports the end of the file.
- FPT block sizes above 512 give the first memo block number 0, which means "no memo", so it cannot
  be read (`MemoFpt.FptFile.FirstBlock`), and packing the file loses one (`MemoPack.PackAllFpt`). A
  DBT text with a pair of 0x1A bytes, or one at its end, is cut (`MemoDbt.TextRoundTrip`).
- PACK of a work area re-encodes every record whose memo pointers move (dbf/memo_compact.go): what
  is written is what the encoder makes of the decoded record, so a blank numeric field becomes "0"
  and a blank or "?" logical field "F". One record that does not decode makes the compaction fail
  although every memo can be read, and one that does not encode stops the rewriting halfway, with the
  records before it pointing into the new file and those behind it into the old (`MemoPack.PackAllDbt`,
  `MemoPack.RewrittenOutside`).
- The IDX decoder accepts pages whose key text runs into the entry area, the CDX decoder refuses
  them (`CompactLeaf.DecodersAgree`, `CompactLeaf.DecodersDiffer`). An IDX index takes key sizes up to
  240 but its leaf only up to 15; building an empty one with longer keys succeeds and leaves a page
  that cannot be read (`IdxIndex.Index.Build`).
- The NDX walk does not report entries with record number 0 (`NdxBuild.Index.Entries`).

## Model

| member | source | states |
|---|---|---|
| Entries.CompareKeysFlip | ntx/tree.go:115-128 | Exchanging the two keys turns the sign of the comparison around, and only equal keys compare as zero. |
| Entries.FirstDifference | ntx/tree.go:115-128 | Keys compare as bytes.Compare does: a key is below another if and only if it has the smaller byte where they first differ, or ends there. |
| Entries.EntryOrder | ntx/tree.go:115-128 | Two entries are in order if and only if their keys are equal and the first record number is not the larger, or the first key is below the second in this sense. |
| Entries.Ascends | ntx/cursor.go:61-105 | So of any two entries of the sorted contents the later one has the larger byte where the keys first differ, or the longer key, or the same key and no smaller record number. |
| Entries.LessTransitive | ntx/tree.go:115-128 | The (key, recno) order is transitive. |
| Entries.LessTotal | ntx/tree.go:115-128 | Of two different entries exactly one is below the other, so the record number decides every tie. |
| Entries.LowerBoundIsCut | ntx/tree.go:132-148 | In a sorted list everything in front of the found position is below the entry and nothing from it on is. |
| Entries.CutIsLowerBound | ntx/tree.go:132-148 | That position is the only one with this property, whatever loop finds it. |
| Entries.HoldsIsMembership | ntx/tree.go:132-148 | Looking at the found position alone decides whether the entry is anywhere in the list. |
| Entries.InsertedFacts | ntx/insert.go:9-62 | Insertion at the found position keeps the list sorted and adds exactly one occurrence of the entry. |
| Entries.RemovedFacts | ntx/delete.go:9-46 | Removal keeps the list sorted and takes away exactly one occurrence, or nothing when there is none. |
| Entries.InsertedKeepsDistinctKeys | ntx/insert.go:9-62 | A key that was not there yet leaves all keys distinct. |
| Entries.SortedUnique | ntx/tree.go:115-128 | A sorted list is determined by its bag of entries. |
| Entries.FirstWithKey | ntx/tree.go:178-206 | Searching for (key, 0) finds an entry with the key exactly when some entry has it. |
| Bytes.LeFour | ntx/page.go:53-132 | Four bytes low byte first stand for the sum of each times its power of 256. |
| Bytes.BeFour | dbf/fpt.go:238-265 | And high byte first. |
| Bytes.BePair | dbf/fpt.go:138-170 | The same of two bytes. |
| Bytes.LeBytesAre | ntx/page.go:139-193 | The bytes a number is written as, low byte first. |
| Bytes.BeBytesAre | dbf/fpt.go:277-306 | And high byte first. |
| Bytes.OverwrittenAt | fatfs/file.go:279-343 | A flat write byte by byte: the new bytes at the position, the old ones elsewhere, zeros in the gap behind the old end. |
| NtxTree.FlatAt | ntx/cursor.go:61-105 | The in-order reading of a node is what lies left of child i, child i, and what lies right of it, with the neighbouring entries at the seams. |
| NtxTree.OneToPairFacts | ntx/insert.go:107-151 | Replacing one child by two and a separator keeps the contents and pages of the node when the two hold what the one held. |
| NtxTree.PairToPairFacts | ntx/delete.go:209-240 | Replacing two neighbours and their separator keeps the contents when the new three read the same. |
| NtxTree.PairToOneFacts | ntx/delete.go:276-302 | The same for two neighbours becoming one, which gives up the right page. |
| NtxMoves.SplitKidFacts | ntx/insert.go:107-151 | A split changes neither the contents nor the pages, apart from the new one. |
| NtxMoves.SplitKidShape | ntx/insert.go:107-151 | Both halves of a full page, and the parent, have the required fill and depth. |
| NtxMoves.RotateRightFacts | ntx/delete.go:209-240 | Borrowing from the left keeps contents, pages and depth, and leaves no page under its minimum fill. |
| NtxMoves.RotateLeftFacts | ntx/delete.go:244-271 | Borrowing from the right does the same. |
| NtxMoves.MergeKidsFacts | ntx/delete.go:276-302 | A merge keeps the contents, fits one page, and gives up exactly the right page. |
| NtxSteps.ItemsSorted | ntx/tree.go:132-148 | In a sorted tree the entries of every page are in order, as the search inside a page assumes. |
| NtxSteps.AroundKid | ntx/insert.go:66-102 | Everything left of the child the search chose is below the entry, and nothing right of it is. |
| NtxSteps.InsertStep | ntx/insert.go:66-102 | Inserting into the child the search chose is inserting into the whole node. |
| NtxSteps.RemoveStep | ntx/delete.go:52-118 | Removing from the child the search chose is removing from the whole node. |
| NtxSteps.PromoteStep | ntx/delete.go:52-118 | Replacing a branch entry by the largest entry of the child on its left removes exactly that entry. |
| NtxSteps.UnderAfterSplit | ntx/insert.go:66-102 | After a split the comparison with the median picks the half the new entry belongs under. |
| NtxSteps.GrowSummary | ntx/insert.go:9-62 | A full root put under a new root and split keeps the contents, adds one level, and leaves the new root with room. |
| NtxStore.StoresFrame | ntx/page.go:53-132 | A tree stays stored when only pages outside it are written. |
| NtxStore.FreeChainFrame | ntx/page.go:223-239 | The free list stays intact when only pages outside it are written. |
| NtxStore.AtMostOnce | ntx/page.go:197-220 | No page is used twice, or used and free, or at offset 0. |
| NtxStore.LeafByImage | ntx/page.go:53-132 | A page is a leaf exactly when its right pointer and all its child pointers are zero. |
| NtxImages.SplitParentImage | ntx/insert.go:107-151 | The in-place edits of the parent (shift, separator, two child pointers) are the image of the split node. |
| NtxImages.PairToPairImage | ntx/delete.go:244-271 | Changing a separator in place is the image of the rotated node. |
| NtxImages.MergeParentImage | ntx/delete.go:276-302 | Dropping the separator and redirecting one pointer is the image of the merged node. |
| NtxImages.PairToPairStored | ntx/delete.go:209-240 | After the three page writes of a rotation the whole node is stored. |
| NtxImages.PairToOneStored | ntx/delete.go:276-302 | After the two page writes and the page release of a merge the whole node is stored. |
| NtxImages.SplitApart | ntx/insert.go:107-151 | The page a split takes is none of the pages in use, so its write disturbs nothing. |
| NtxIndex.FindInNode | ntx/tree.go:132-148 | The loop returns the first position whose entry is not below the one looked for, and whether it equals it. |
| NtxIndex.Index.constructor | ntx/tree.go:13-65 | A new index is valid, empty, and its header page is up to date. |
| NtxIndex.Index.Open | ntx/tree.go:71-95 | Opening a file whose header and pages stand for a tree and a free list gives an index over that tree with all invariants. |
| NtxIndex.Index.Pad | ntx/tree.go:153-174 | A short key is extended with spaces to the key size and otherwise kept. |
| NtxIndex.Index.ContainsKey | ntx/tree.go:178-206 | Answers whether some entry has the padded key, descending one path only, or reports a key that is too long. |
| NtxIndex.Index.AllocPage | ntx/page.go:197-220 | The page handed out, from the free list or behind the file, was neither used nor free before and is accounted for once after. |
| NtxIndex.Index.FreePage | ntx/page.go:223-239 | The page becomes the head of the free list and no page is lost. |
| NtxIndex.Index.SplitChild | ntx/insert.go:107-151 | The parent in memory and the three pages on file are those of the split node; pages outside it are untouched. |
| NtxIndex.Index.InsertNonFull | ntx/insert.go:66-102 | The subtree then holds the entry at its place and nothing else changed; shape, storage and page accounting are kept. |
| NtxIndex.Index.Insert | ntx/insert.go:9-62 | Puts the padded entry into the sorted contents and changes nothing else, or reports a key that is too long; a unique index adds nothing when it has the key; the tree, storage and free-space invariants hold after root growth and splits. |
| NtxIndex.Index.RotateRight | ntx/delete.go:209-240 | Memory and file hold the rotated node. |
| NtxIndex.Index.RotateLeft | ntx/delete.go:244-271 | Memory and file hold the rotated node. |
| NtxIndex.Index.MergeChildren | ntx/delete.go:276-302 | Memory and file hold the merged node and the right page is free. |
| NtxIndex.Index.FixChild | ntx/delete.go:170-205 | Refills an underfull child by the first move that applies, in this order: borrow from the left, borrow from the right, merge with the right, merge with the left; the node is exactly the moved one and the contents stay; it fails only at a branch without entries. |
| NtxIndex.Index.DeleteMax | ntx/delete.go:122-158 | Removes and returns the last entry of the subtree, leaves exactly the tree those moves make, and fails exactly where the fate of the tree says. |
| NtxIndex.Index.DeleteRec | ntx/delete.go:52-118 | Removes exactly the entry if the subtree has it, says whether it did and whether the top page is now underfull, leaves exactly the tree the moves on the path make, and fails exactly where the fate of the tree says. |
| NtxIndex.Index.Delete | ntx/delete.go:9-46 | Removes exactly the padded entry and reports whether it was there; says for every tree and entry how it ends: with room for three items it fails if and only if it is stranded, that is the root is a branch without entries and its only child ends below half a page; an absent entry leaves exactly the tree the moves make, and all pages alone if and only if the search path is quiet; the header page is rewritten exactly when something was found. |
| NtxIndex.Index.CollapseRoot | ntx/delete.go:9-46 | A branch root without entries is replaced by its only child, its page is freed, and the contents stay. |
| NtxMiss.OddIsQuiet | ntx/delete.go:160-162 | With odd capacity every search path is quiet, so deleting an absent entry changes no page. |
| NtxFate.DeletionGoesThrough | ntx/delete.go:52-118 | With room for three items a page and a root that is a leaf or has entries, no deletion fails, whether it finds its entry or not. |
| NtxFate.FailsIfStranded | ntx/delete.go:170-205 | With room for three items, a deletion fails if and only if the root is a branch without entries and the deletion leaves its only child less than half full. |
| NtxFate.StrandedWhen | ntx/delete.go:160-162 | Under a root without entries it is the fill of the only child that decides: a leaf fails if and only if it has the entry and holds at most half a page; a branch never fails above half a page, always below, and at exactly half if and only if the deletion merges two of its children. |
| NtxFate.DeletedCount | ntx/delete.go:52-118 | The tree a deletion leaves has as many entries on its top page as its fate says. |
| NtxFate.FateRaised | ntx/delete.go:170-205 | How many entries a node is left with when a child ran low, or that it has no sibling to ask. |
| NtxWitness.EvenIsNotQuiet | ntx/delete.go:160-162 | With even capacity there is a file of twelve entries and an absent entry whose search path is not quiet, and whose deletion leaves the root no entries. |
| NtxWitness.EvenMiss | ntx/delete.go:9-46 | Opening that file and deleting that entry finds nothing, rewrites pages, and leaves the branch root empty. |
| NtxWitness.LargestLost | ntx/query.go:34-55 | For every key size from 246 to 250, a file of four entries on which Max finds nothing and the deletion of the largest reports damage. |
| NtxWitness.NoSiblingToAsk | ntx/delete.go:170-205 | For the same key sizes, a file of seven entries on which the deletion of an absent entry asks for the child left of the first. |
| NtxWorn.LeanFile | ntx/tree.go:71-95 | For every key size up to 245 with even capacity, a file in good order, of any such capacity, whose pages below the root hold one entry less than half a page. |
| NtxWorn.NextMiss | ntx/delete.go:170-205 | On a root without entries whose only child is wearing down, one more deletion of an absent entry merges two of its children, or fails when it is the last one. |
| NtxWorn.WearOut | ntx/delete.go:9-46 | So for every key size up to 245 with even capacity there is a file in good order and a sequence of half a page of deletions of absent entries all of which go through but the last, which fails: the key size alone is no safeguard. |
| NtxStranded.Strand | ntx/delete.go:9-46 | With capacity 4, on the tree of 25 insertions: deletions of the absent 17, 33 and 41 go through, and the deletion of 15, which is there, fails. |
| NtxMissUp.MissUp | ntx/delete.go:52-118 | One level of a deletion that finds nothing: the pages change exactly if they changed below or the child was underfull. |
| NtxRun.ContentsDetermined | ntx/tree.go:115-128 | Two indexes that stand for the same bag of entries have the same contents in the same order. |
| NtxRun.PagesPartitioned | ntx/page.go:197-220 | The pages from 1024 up to the file size are the disjoint union of tree pages and free pages, each counted once. |
| NtxRun.InsertionExpected | ntx/insert.go:9-62 | What the bag says about an insertion is what the index does. |
| NtxRun.DeletionExpected | ntx/delete.go:9-46 | What the bag says about a deletion is what the index does. |
| NtxRun.SafeMiss | ntx/delete.go:9-46 | Where it is safe, a deletion that misses changes no page. |
| NtxRun.Step | ntx/delete.go:9-46 | One insertion, deletion or re-opening answers as the bag does and leaves an index that stands for the changed bag; it stops if and only if the index is stuck, that is the deletion would fail or the header page is stale, and never where it is safe. |
| NtxRun.BlockedDeletion | ntx/delete.go:170-205 | With room for three items, a deletion stops a script if and only if it is stranded. |
| NtxRun.Run | ntx/tree.go:13-65 | Any script of insertions, deletions and re-openings from a fresh file, for every key size, answers as on a bag of entries up to the first operation at which it is stuck: a deletion that fails on a tree that stands for the bag so far, or a re-opening with a stale header; with key sizes up to 245, and odd capacity or no deletion that misses, it is never stuck and all invariants hold at the end. |
| NtxQuery.Min | ntx/query.go:10-31 | The first entry, which precedes or equals every entry of the index byte by byte; with room for three items there is one exactly when the index is not empty. |
| NtxQuery.Max | ntx/query.go:34-55 | The last entry, which follows or equals every other byte by byte, likewise. |
| NtxQuery.FirstGE | ntx/query.go:61-68 | The smallest entry whose key is at or above the padded key, or none. |
| NtxQuery.Successor | ntx/query.go:73-108 | The smallest entry strictly above (key, recno), or none, whether or not that entry is present. |
| NtxQuery.Predecessor | ntx/query.go:113-148 | The largest entry strictly below (key, recno), or none. |
| NtxQuery.DescendFirst | ntx/query.go:151-179 | One descent with a remembered candidate finds the first entry at or above the wanted one. |
| NtxQuery.FindAbove | ntx/query.go:183-199 | The binary search returns the only position with nothing above the entry in front of it and everything above it behind. |
| NtxWalk.OnceStrict | ntx/query.go:73-108 | Each entry of a sorted list once is strictly sorted. |
| NtxWalk.OnceIsAll | ntx/query.go:73-108 | Nothing is dropped if and only if no entry is there twice. |
| NtxWalk.Walk | ntx/query.go:73-108 | Min and repeated Successor, or Max and repeated Predecessor, pass every entry once, in order or in reverse; the walk is complete if and only if no entry is in the index twice, and it ends. |
| NtxWalk.DoubledEntry | ntx/query.go:73-108 | The same key and record number inserted twice: both walks see one of two entries. |
| NtxQuery.SplitRightHalf | ntx/insert.go:107-151 | A split leaves an empty right page exactly when a page holds two items. |
| NtxQuery.PageHoldsTwo | ntx/header.go:135-137 | Every key size leaves room for two items; 246 and above are exactly those that leave room for no more. |
| NtxCursor.Cursor.First | ntx/cursor.go:10-14 | Everything is still to come. |
| NtxCursor.Cursor.Seek | ntx/cursor.go:22-55 | What is still to come is the suffix at or above the padded key; a key that is too long leaves an error and nothing to come. |
| NtxCursor.Cursor.Next | ntx/cursor.go:61-105 | Delivers the next entry of what is still to come; it stops exactly when nothing is left or an error is pending, and every call terminates. |
| NtxCursor.SuffixMeans | ntx/cursor.go:22-55 | That suffix holds exactly the entries whose key is at or above the key. |
| NtxPage.LayoutFits | ntx/header.go:135-137 | Count field, slot table and all items fit a page of 1024 bytes exactly up to the computed capacity, for every key size from 1 to 250. |
| NtxPage.ReadPage | ntx/page.go:53-132 | Follows the slots to the node a page holds, leaf status included; fails exactly when the page holds none. |
| NtxPage.HoldsMeans | ntx/page.go:53-132 | A page holds a node if and only if bytes 0 and 1 count its entries, low byte first, and the slots lead to them and to the right pointer. |
| NtxPage.SlotMeans | ntx/page.go:53-132 | A slot is two bytes from 2 + 2 * slot on; it leads to four bytes child pointer, four bytes record number and the key, all low byte first, and is refused exactly when that would leave the page. |
| NtxPage.CanonicalSlots | ntx/page.go:139-193 | The slots of a written page lead to 2 + 2 * (capacity + 1) + slot * (key size + 8). |
| NtxPage.WritePage | ntx/page.go:139-193 | Succeeds exactly when there are not too many items and all keys have the key size; the page then holds the node with its numbers cut to 32 bits, its slots in canonical order. |
| NtxPage.RoundTrip | ntx/page.go:139-193 | Reading what was written gives the same node if and only if all its numbers fit 32 bits. |
| NtxPage.SlotsMayBePermuted | ntx/page.go:53-132 | A page whose slots lead, in order, to item positions that hold the items and the right pointer decodes to that node, whichever positions these are. |
| NtxPage.Rearranged | ntx/page.go:53-132 | Two pages with the same items at permuted positions decode to the same node. |
| NtxPage.DecodingIsUnique | ntx/page.go:53-132 | A page holds at most one node. |
| NtxPage.LeafStatus | ntx/page.go:53-132 | A written page of a tree tells from its child pointers alone whether it is a leaf. |
| NtxPage.WriteFree | ntx/page.go:223-239 | The first four bytes of a free page name the next one. |
| FatTable.MarksApartWhen | fatfs/geometry.go:193-257 | Cluster numbers stay clear of the end marks if and only if there are fewer than 2^28 - 9 clusters, which opening a volume does not check. |
| FatTable.TypeByCount | fatfs/geometry.go:193-257 | From 4085 clusters on a volume is FAT16, from 65525 on FAT32. |
| FatTable.ClusterOffsetLinear | fatfs/geometry.go:262-265 | Cluster c starts c-2 cluster sizes behind the start of the data region. |
| FatTable.ClustersApart | fatfs/geometry.go:262-265 | Different clusters occupy different bytes. |
| FatTable.EntryRoundTrip | fatfs/volume.go:149-166 | A value written to an entry reads back, and a FAT32 entry keeps its four reserved bits. |
| FatTable.PatchedFacts | fatfs/volume.go:149-166 | Writing one entry changes no other entry and no reserved bit of any entry. |
| FatTable.PatchedLinks | fatfs/volume.go:149-166 | On the decoded table it is the update of one element. |
| FatChains.SameStart | fatfs/volume.go:176-206 | Two chains from the same first cluster are the same. |
| FatChains.ChainMeans | fatfs/geometry.go:274-279 | A chain is a list of clusters of the data region in which the entry of each is the next and that of the last is an end mark: 0xFFF8 and above on FAT16, 0x0FFFFFF8 and above in the low 28 bits on FAT32. |
| FatChains.NoRepeat | fatfs/volume.go:176-206 | A chain that ends never visits a cluster twice. |
| FatChains.Extended | fatfs/volume.go:217-240 | Hanging a free cluster behind a chain extends that chain and leaves all chains acyclic and disjoint. |
| FatChains.Released | fatfs/volume.go:243-260 | Zeroing the entries of a chain empties it and leaves all others as they were. |
| FatChains.ExtendKeepsBalance | fatfs/volume.go:217-240 | Free clusters plus chained clusters stay constant under allocation. |
| FatChains.ReleaseKeepsBalance | fatfs/volume.go:243-260 | And under release. |
| FatTable.FatEntryMeans | fatfs/volume.go:131-144 | An entry is missing exactly when the table ends before it; otherwise it is the number its bytes make up, low byte first, without the top four bits of a FAT32 entry. |
| FatVolume.Volume.SetFatEntry | fatfs/volume.go:149-166 | Fails exactly past the end of the table and then changes nothing; otherwise the entry reads back and, on a table that covers the volume, no other entry changed. |
| FatVolume.Volume.Chain | fatfs/volume.go:176-206 | Returns the chain of the first cluster; it fails exactly when there is none: stray number, loop, or a free cluster on the way. |
| FatVolume.Volume.Allocate | fatfs/volume.go:217-240 | Takes the first free cluster, marks it 0xFFFF or 0x0FFFFFFF as an end, hangs it behind the previous one and changes no other entry; fails exactly when the volume is read-only or full. |
| FatVolume.Volume.FreeChain | fatfs/volume.go:243-260 | Frees exactly the clusters of the chain; fails exactly on a read-only volume or when there is no chain, and then changes nothing. |
| FatVolume.Volume.FreeClusters | fatfs/volume.go:328-340 | Counts the zero entries among the usable clusters. |
| FatVolume.Volume.ReadCluster | fatfs/volume.go:264-273 | Gives the bytes of the cluster, or refuses a number outside the data region. |
| FatVolume.Volume.WriteCluster | fatfs/volume.go:276-288 | Replaces the bytes of the cluster and no other byte of the image; refuses a read-only volume and a number outside the data region. |
| FatVolume.Find | fatfs/dir.go:292-315 | The first live file entry with the name, or none. |
| FatVolume.FileBits | fatfs/dir.go:67-78 | A slot is a live file if and only if it is not free, the bits 0x08 and 0x10 are clear and the four low bits are not all set. |
| FatVolume.GrownFacts | fatfs/file.go:279-343 | One more zeroed cluster lengthens the file in that slot and leaves the bytes, chains and entries of all other files alone. |
| FatVolume.InkedFacts | fatfs/volume.go:276-288 | Writing one cluster of a file overwrites one block of its bytes and leaves all other files alone. |
| FatVolume.EmptiedFacts | fatfs/file.go:170-191 | Releasing a file leaves all other files alone and the cluster count balanced. |
| FatData.DataFrame | fatfs/volume.go:276-288 | The bytes of a chain do not depend on clusters outside it. |
| FatData.ClusterLies | fatfs/geometry.go:262-265 | Cluster c is read from, and written to, the bytes of the image from (first data sector + (c - 2) * sectors per cluster) * bytes per sector on. |
| FatData.DataWrite | fatfs/volume.go:276-288 | Writing the i-th cluster of a chain overwrites the i-th block of its bytes. |
| FatData.WriteIsFlat | fatfs/file.go:279-343 | A write shows as a flat overwrite with zero-filled gap if and only if the uncovered bytes between the old end and the position are zero. |
| FatData.StaleByteShows | fatfs/file.go:279-343 | A file with one byte left behind its end, where a write further on shows that byte. |
| FatData.WriteKeepsClean | fatfs/file.go:279-343 | A file whose bytes behind its end are zero stays one, so that condition holds for every file made here. |
| FatFile.NeededClusters | fatfs/file.go:279-343 | The number of clusters asked for is the least that reaches the end of the write. |
| FatFile.OtherHandleKept | fatfs/file.go:279-343 | A handle on another file keeps its cluster list, entry and bytes. |
| FatFile.File.Seek | fatfs/file.go:212-229 | Moves to the absolute position for each of the three bases; a negative one is refused and moves nothing. |
| FatFile.File.Read | fatfs/file.go:234-268 | Gives the bytes of the flat file from the position on, as many as asked for and there are, each at its place, advances by their number, and reports the end exactly when there were none. |
| FatFile.File.Grow | fatfs/file.go:279-343 | Adds one zeroed cluster, or changes nothing when the volume is full. |
| FatFile.File.Extend | fatfs/file.go:279-343 | Allocates up to the needed number of clusters; when the volume runs full the clusters already taken stay with the file. |
| FatFile.File.CopyIn | fatfs/file.go:279-343 | The block-by-block copy overwrites exactly the written range of the bytes of the file. |
| FatFile.File.Write | fatfs/file.go:279-343 | States when it succeeds, the new position, size and directory entry; the bytes become the flat overwrite if and only if the gap was zero; a failed or empty write leaves the bytes alone; no other file changes and the cluster count stays balanced. |
| FatFile.Open | fatfs/file.go:30-40 | Finds the file and caches its chain, or reports that there is none, exactly when every slot of the name is free, a volume label (0x08), a directory (0x10) or part of a long name (0x0F). |
| FatFile.Create | fatfs/file.go:47-98 | Truncates an existing file or takes the first free slot, which becomes an empty file with attribute 0x20, releasing exactly the old chain; fails exactly on a read-only volume or a full directory, and then changes nothing. |
| FatFile.Remove | fatfs/file.go:170-191 | Frees the slot and its chain; afterwards the name is not found; fails exactly on a read-only volume or when every slot of the name is free, a volume label, a directory or part of a long name. |
| FatFile.CreatedNames | fatfs/file.go:47-98 | After creation the name leads to the slot, and live names stay distinct. |
| FatFile.RemovedNames | fatfs/file.go:170-191 | After removal no live entry has the name. |
| FatRun.MadeCounts | fatfs/file.go:47-98 | A creation that goes through changes the live names, free slots and free clusters as the user expects. |
| FatRun.RemovedCounts | fatfs/file.go:170-191 | So does a removal. |
| FatRun.WrittenCounts | fatfs/file.go:279-343 | So does a write, whether it goes through or runs out of clusters. |
| FatRun.Run | fatfs/file.go:279-343 | Any script of creating, opening, positioning, writing, reading and removing files, one handle each and positions below 2^32, gives exactly the answers, refusals included, that follow from flat byte arrays, those of the files found on the volume included, live names, free slots and free clusters; every cached cluster list is the chain of its file, chains stay acyclic and disjoint, and the cluster count is constant. |
| FatRun.Access | fatfs/file.go:30-40 | A file of a script, open already or found on the volume, gets a handle at position 0 that stands for its bytes; any other name is refused. |
| TableFile.RowWritten | dbf/table.go:88-112 | Writing inside a slot changes that record only. |
| TableFile.RowLies | dbf/table.go:251-254 | Record i, from 0, is the bytes of the file from start + i * length on. |
| TableFile.HeaderTells | dbf/table.go:256-272 | In the written header a reader finds version, date, flags and code page in bytes 0, 1 to 3, 28 and 29, and, low byte first, the number of records, where they start and how long they are from bytes 4, 8 and 10 on; the rest is zero. |
| TableFile.HeaderWritten | dbf/table.go:256-272 | Writing the header changes its 32 bytes and nothing behind them, so all records stay. |
| TableFile.Table.Get | dbf/table.go:59-85 | The record of a number from 1 to the count, that is the bytes of the file from start + (number - 1) * length on, or an error. |
| TableFile.Table.Put | dbf/table.go:88-112 | Replaces one record and no other; the header gets the date, and what lies between header and records stays. |
| TableFile.Table.Append | dbf/table.go:116-149 | Adds a record behind the last, with the end-of-file mark behind it; the header gets the new count and the date, and the field descriptors behind it stay. |
| TableFile.Table.SetDeletionMarker | dbf/table.go:172-186 | Changes the first byte of one record; the header gets the date. |
| TableFile.Table.Survey | dbf/pack.go:61-138 | The first pass numbers the survivors in order; none moves up. |
| TableFile.Table.Compact | dbf/pack.go:61-138 | The forward in-place copy leaves in slot j the original bytes of the j-th survivor, although sources and targets share the file. |
| TableFile.Table.Pack | dbf/pack.go:61-138 | Afterwards no record begins with an asterisk, every other record is there as often as before and is found through the mapping, and a marked one is not found; the header gets the new count and the date, the field descriptors stay, 0x1A follows the last record; with nothing deleted the file is untouched. |
| TableFile.SurvivorMoves | dbf/pack.go:36-42 | A survivor stands under its new number, which is not above its old one. |
| TableFile.SurvivorBytes | dbf/pack.go:141-153 | Of the survivors none begins with 0x2A, and every record that does not survives as often as it was there. |
| TableFile.MappedBytes | dbf/pack.go:36-42 | The mapping finds a record if and only if it does not begin with 0x2A; at its new number then stands that record, and larger old numbers have larger new ones. |
| TableFile.OrderKept | dbf/pack.go:36-42 | Survivors keep their order, so the mapping is injective. |
| TableFile.EveryNumberTaken | dbf/pack.go:36-42 | Every new number belongs to a survivor, so the mapping is onto 1..Kept. |
| TableFile.IdentityMeans | dbf/pack.go:49-49 | As many survivors as records means that nothing was deleted and nothing moves. |
| KeyedRows.SetReplace | blipperdb/area.go:435-479 | Replacing a record exchanges exactly its entry. |
| KeyedRows.ListingIsPermutation | blipperdb/area.go:184-211 | An index in agreement with the table lists every record number exactly once. |
| WorkArea.Listing | ntx/keys.go:87-99 | An index in agreement with the table has as many entries as there are records, and for record i the one whose key is what the key function gives for the record without its first byte, padded. |
| PackEntries.StaleFacts | blipperdb/pack.go:113-185 | The scan collects exactly the entries whose record did not survive, each once. |
| PackEntries.StaleIsDead | blipperdb/pack.go:113-185 | Those are the entries of the removed records. |
| PackEntries.DropMoves | blipperdb/pack.go:113-185 | After dropping them, every old entry of a moved record is present once, and dropping these leaves the entries of records that stay. |
| PackEntries.AddMoves | blipperdb/pack.go:113-185 | None of the new entries collides with those, and together they are what the packed table should list. |
| WorkArea.ScanStale | blipperdb/pack.go:113-185 | The cursor walk returns that list and leaves the index alone. |
| WorkArea.CollectMoves | blipperdb/pack.go:113-185 | The loop over old numbers, reading packed records, gives the moves with the keys the records had before. |
| WorkArea.Rebuild | blipperdb/pack.go:113-185 | Dropping stale entries and renumbering moved ones leaves the index in agreement with the packed table. |
| WorkArea.AgreementIsUnique | ntx/keys.go:87-99 | Two indexes with the same keys in agreement with the same table have the same contents, so a repaired index is what a fresh build gives. |
| WorkArea.Build | ntx/keys.go:87-99 | Indexes every record of the table, and fails exactly when some key is too long. |
| WorkArea.UpdateEntry | blipperdb/area.go:435-479 | Moves the entry of one record to its new key; equal keys leave the index alone. |
| WorkArea.Area.EveryRecordOnce | blipperdb/area.go:267-287 | The controlling order passes every record exactly once. |
| WorkArea.Area.GoTop | blipperdb/area.go:184-211 | Stands at the first record: that of the first entry of the controlling index, or record 1; or on an empty table with EOF up. |
| WorkArea.Area.GoBottom | blipperdb/area.go:215-242 | Stands at the last record of the controlling index, or of the table. |
| WorkArea.Area.GoTo | blipperdb/area.go:245-259 | Stands at an existing record with both flags down, or refuses and moves nothing. |
| WorkArea.Area.SkipForward | blipperdb/area.go:289-326 | One place forward in the order, or EOF at the last; it never takes EOF down. |
| WorkArea.Area.SkipBackward | blipperdb/area.go:328-365 | One place backward, or BOF at the first. |
| WorkArea.Area.Skip | blipperdb/area.go:267-287 | n places in either direction, stopping at the ends with the flag of that direction up; a flag that was already up stops it after one place. |
| WorkArea.Area.Place | blipperdb/area.go:267-287 | The record pointer of a table with records always stands at a place of the controlling order, so moving from it is always possible. |
| WorkArea.Area.CurrentKey | blipperdb/area.go:510-517 | The key computed from the current record is the key the index has for it. |
| WorkArea.Area.WalkForward | blipperdb/area.go:267-287 | GoTop, then Skip(1) until EOF, visits every record exactly once in the controlling order. |
| WorkArea.Area.WalkBackward | blipperdb/area.go:267-287 | GoBottom, then Skip(-1) until BOF, visits the reverse. |
| WorkArea.Area.SetOrder | blipperdb/area.go:126-138 | Changes the controlling order if it exists. |
| WorkArea.Area.Seek | blipperdb/area.go:374-399 | Stands at the record of the first entry at or above the padded key, or leaves the pointer with EOF up; it reports a match exactly when the found key starts with the bytes given. |
| WorkArea.Area.Append | blipperdb/area.go:404-430 | Adds the record and its entry to every index, which then has for every record the key of its bytes behind the mark; fails exactly when some such key is too long, and then the indexes before the first such key agree with the new table and the others with the old. |
| WorkArea.Area.Replace | blipperdb/area.go:435-479 | Replaces the current record and moves its entries; every index then has for every record the key of its bytes behind the mark; fails exactly without a current record or when some such key is too long, and then the first such index lacks the record, those before it agree with the new table and those behind it with the old. |
| WorkArea.Area.Mark | blipperdb/area.go:486-495 | Marks or unmarks the current record; keys do not depend on the mark, so the agreement holds. |
| WorkArea.Area.CreateIndex | blipperdb/area.go:93-110 | Builds and attaches an index that has for every record the key of its bytes behind the mark; fails exactly when some such key is too long; the first one becomes controlling. |
| WorkArea.Area.Pack | blipperdb/pack.go:49-80 | The table then has no record that begins with an asterisk and every other as often as before, every attached index has for every record the key of its bytes behind the mark, and the pointer stands at the first record of the order. |
| AreaRun.Do | blipperdb/area.go:435-479 | One step of a script does to the records what the specification says; it fails exactly when a key is too long, and then says which indexes agree with the new records, which with the old, and which lacks one record. |
| AreaRun.Run | blipperdb/pack.go:49-80 | Any script of appends, replacements, deletion marks, moves and PACKs goes through exactly when no key on the way is too long, and leaves the replayed records and all indexes in agreement with them; one that stops leaves the records of its last operation, and says of every index which records it lists. |
| AreaRun.MarkedIsLost | blipperdb/area.go:486-495 | Marking a record with an asterisk and packing loses that record and no other; marking it with a space and packing keeps it with that space in front. |
| AreaRun.Rebuilt | blipperdb/pack.go:49-80 | An index built afresh over the table has the same contents as the maintained one. |
| Decimal.DigitsValue | dbf/memo.go:218-240 | Decimal digits read back as their number. |
| Decimal.DigitBytes | dbf/memo.go:196-213 | Digits are the bytes 0x30 to 0x39. |
| Decimal.LeadDigit | dbf/memo.go:196-213 | The value of digits is positional: a digit in front of k others counts 10 to the k times its own value. |
| MemoPointer.Format | dbf/memo.go:218-240 | The loop writes the right-aligned decimal block number into ten bytes. |
| MemoPointer.FieldMeans | dbf/memo.go:218-240 | A stored pointer is ten bytes: blanks and then the digits of the number, the first of which is not 0; for block 0 only blanks. |
| MemoPointer.ParseMeans | dbf/memo.go:196-213 | Digits between blanks, with leading zeros or not, are a block number if their value is neither 0 nor above 2^32 - 1; value 0 and nothing but blanks are no memo, everything else is malformed. |
| MemoPointer.Trimmed | dbf/memo.go:196-213 | Every field is blanks, a text and blanks, so these are all cases. |
| MemoPointer.PointerRoundTrip | dbf/memo.go:196-213 | Parsing a formatted pointer gives the block; block 0 reads as no memo. |
| MemoPointer.ParseRange | dbf/memo.go:196-213 | A parsed block lies between 1 and 2^32-1. |
| MemoDbt.FindTerminator | dbf/memo.go:243-251 | The position of the first pair of terminator bytes, or none. |
| MemoDbt.TrimTerminator | dbf/memo.go:256-266 | Cuts a block image to the text it starts with. |
| MemoDbt.TextRoundTrip | dbf/memo.go:149-178 | A text reads back unchanged if and only if it has no pair of 0x1A bytes and does not end in one. |
| MemoDbt.TextInDomain | dbf/memo.go:256-266 | Whatever is read is such a text, so copying a memo loses nothing. |
| MemoDbt.ContentMeans | dbf/memo.go:100-142 | The text of a block starts at 512 times its number and goes up to the first pair of 0x1A bytes, or to the end of the file less one 0x1A there; there is none exactly for block 0 and behind the end of the file. |
| MemoDbt.MemoFile.Create | dbf/memo.go:75-88 | A new file has no memos and its first free block is 1. |
| MemoDbt.MemoFile.Open | dbf/memo.go:52-72 | Re-opening keeps every memo below the next free block readable. |
| MemoDbt.MemoFile.Get | dbf/memo.go:100-142 | Reading block by block gives the text at that block, and for every block returned by Append what was appended. |
| MemoDbt.MemoFile.Append | dbf/memo.go:149-178 | Earlier memos stay; the text lands at 512 times the block with two 0x1A bytes behind it, the next free block follows it and is in the header, low byte first; it reads as its text exactly when the text is in the domain, and as its first part otherwise. |
| MemoFpt.FptFile.Create | dbf/fpt.go:174-203 | A new file has no memos; the first free block follows the header page. |
| MemoFpt.FptFile.Open | dbf/fpt.go:138-170 | Re-opening keeps every stored memo readable. |
| MemoFpt.FptFile.Get | dbf/fpt.go:238-265 | Gives type and bytes of the entry, and for every block returned by Append what was appended. |
| MemoFpt.ContentMeans | dbf/fpt.go:238-265 | At the block number times the block size stand kind and length in four bytes each, high byte first, and then the content; there is none exactly for block 0 and where that would leave the file. |
| MemoFpt.EncodedMeans | dbf/fpt.go:277-306 | And this is how it is stored. |
| MemoFpt.HeaderMeans | dbf/fpt.go:174-203 | The header has the next free block in bytes 0 to 3 and the block size in bytes 6 and 7, high byte first. |
| MemoFpt.FptFile.Append | dbf/fpt.go:277-306 | Earlier memos stay; the new one, any bytes, reads back if and only if its block is not 0. |
| MemoFpt.FptFile.FirstBlock | dbf/fpt.go:231-233 | Block sizes up to 512 never hand out block 0; larger ones begin with it. |
| MemoDbaseIV.MemoFile.Create | dbf/memo_dbaseiv.go:183-210 | A new file has no memos, its first free block is 1, and its header has the table name cut or filled to eight bytes. |
| MemoDbaseIV.MemoFile.Open | dbf/memo_dbaseiv.go:116-144 | Re-opening keeps every stored memo readable. |
| MemoDbaseIV.MemoFile.Get | dbf/memo_dbaseiv.go:270-307 | Gives the text of a block that carries the marker and a sound length. |
| MemoDbaseIV.ContentMeans | dbf/memo_dbaseiv.go:270-307 | At the block number times the block size stand FF FF 08 00, the length in four bytes, low byte first, with these eight bytes counted in, and the text; there is none exactly where the marker or the length does not fit. |
| MemoDbaseIV.EncodedMeans | dbf/memo_dbaseiv.go:223-250 | And this is how it is stored. |
| MemoDbaseIV.MemoFile.Append | dbf/memo_dbaseiv.go:223-250 | Any text reads back, earlier memos stay, and the rest of the header is untouched. |
| MemoFields.MemoPointers | dbf/memo_compact.go:70-103 | Collects exactly the blocks some record of the table points to; fails exactly when a record of a table with memo fields does not decode. |
| MemoFields.FieldIsLive | dbf/memo_compact.go:70-103 | Digits between blanks in the ten bytes of a memo field, of a value from 1 to 2^32 - 1, make that block live. |
| MemoFields.LiveIsField | dbf/memo_compact.go:70-103 | And every live block is one whose number stands in some memo field in this way. |
| MemoFields.InsertionSort | dbf/memo_compact.go:274-285 | The in-place sort leaves a sorted permutation. |
| MemoFields.SortedBlocks | dbf/memo_compact.go:274-285 | The blocks in ascending order, each once. |
| MemoCompact.RewriteRecord | dbf/memo_compact.go:215-270 | Every memo field of a record follows the mapping; the rest is what the encoder makes of the record; says exactly when some pointer moves, as only then the record is written. |
| MemoCompact.RepointedFacts | dbf/memo_compact.go:215-270 | Each rewritten field points where the mapping sends it, and no byte outside the memo fields of what the encoder wrote changes. |
| MemoCompact.RewriteMemoPointers | dbf/memo_compact.go:215-270 | All records of the table are rewritten this way, up to the first that does not decode, or has to be written and does not encode; so it is complete if and only if there is none. |
| MemoCompact.RewritePreserves | dbf/memo_compact.go:215-270 | If the new file holds every live memo where the mapping says, every memo field reads the same content as before. |
| MemoPack.RewrittenOutside | dbf/memo_compact.go:215-270 | A record changes outside its memo fields if and only if it is written and the encoder gives it another form there; one in the encoder's own form does not change there. |
| MemoPack.CompactDbt | dbf/memo_compact.go:134-171 | Copies every live memo once, so that the mapping carries all readings over; fails exactly when a record does not decode or a live pointer cannot be read. |
| MemoPack.CompactFpt | dbf/memo_compact.go:173-206 | The same for FPT files, type included, with block sizes up to 512; with larger ones some live pointer is sent to block 0. |
| MemoPack.DbtReadsAreStorable | dbf/memo_compact.go:134-171 | What was read from a DBT file can be stored again without loss. |
| MemoPack.ReadingsLost | dbf/memo_compact.go:215-270 | A pointer sent to block 0 reads as no memo, so the readings survive only when there is no live pointer. |
| MemoPack.PackAllDbt | blipperdb/pack.go:282-311 | The compaction goes through exactly when every surviving record decodes and every memo one points to can be read; otherwise the table is packed and nothing else happened. The rewriting is complete exactly when the records it has to write encode. Every surviving record then reads the same memos through its new pointers in the new, sound file as through the old ones in the old file, shared blocks included. Outside the memo fields records change only into the form the encoder gives them, and all indexes agree with the table. |
| MemoPack.PackAllFpt | blipperdb/pack.go:282-311 | The same for FPT files of any block size; the readings survive if and only if the block size is at most 512 or nothing points to a memo. |
| NdxTree.SortFacts | ndx/tree.go:84-181 | Sorting gives an ordered permutation of the input. |
| NdxTree.FirstOfEachDistinct | ndx/tree.go:84-181 | Deduplication leaves distinct keys, still in order. |
| NdxTree.FirstOfEachCovers | ndx/tree.go:84-181 | Each key of the input survives, with the lowest of its record numbers. |
| NdxTree.SeparatorIsLast | ndx/tree.go:84-181 | The last entry under a page has its last key, on every level. |
| NdxTree.SeparatorIsHighest | ndx/tree.go:84-181 | In a tree in order, each separator is the key of an entry under its child, and no key under that child is higher. |
| NdxTree.AllReported | ndx/page.go:158-188 | With record numbers other than 0 the walk leaves no entry out. |
| NdxTree.LookupFindsAll | ndx/tree.go:219-232 | In an index that is not unique a lookup gives exactly the record numbers the key was listed with, ascending. |
| NdxTree.LookupFindsLowest | ndx/tree.go:219-232 | In a unique index it gives the lowest of them, and nothing exactly when the key was not listed. |
| NdxTree.CollectRecnos | ndx/tree.go:219-232 | The filter over the walk gives the record numbers under the key, in order. |
| NdxBuild.DropDuplicates | ndx/tree.go:84-181 | The in-place loop leaves the first entry of each key in front. |
| NdxBuild.Leaves | ndx/tree.go:84-181 | The leaf pages hold the sorted entries in order under consecutive numbers, none with more records than fit. |
| NdxBuild.Parents | ndx/tree.go:84-181 | One more level holds the same entries under its separators, one step deeper throughout and no page overfull, and has fewer pages, so the loop over levels ends. |
| NdxBuild.Levels | ndx/tree.go:84-181 | The loop ends with a single root page over all entries. |
| NdxBuild.WalkPage | ndx/page.go:158-188 | On a tree without repeated pages the walk gives its entries in order and revisits nothing; on any pages it terminates. |
| NdxBuild.Index.WritePages | ndx/page.go:65-88 | No page is refused for its number of records. |
| NdxBuild.Index.Build | ndx/tree.go:84-181 | Succeeds exactly when all keys have the key size; the file then holds the sorted input, or the first of each key when unique, in a tree of one depth whose pages have room for their records. |
| NdxBuild.Index.Entries | ndx/tree.go:192-199 | The walk returns exactly these entries, except any with record number 0. |
| NdxBuild.Index.Seek | ndx/tree.go:219-232 | The record numbers under a key in index order; a key of another length is refused. |
| NdxPage.RoomForTwo | ndx/tree.go:26-73 | A page has room for two records exactly for keys of up to 244 bytes. |
| NdxPage.PlacesApart | ndx/types.go:167-169 | Records up to the capacity lie apart and inside the page. |
| NdxPage.WritePage | ndx/page.go:65-88 | Fails exactly when there are too many records; the page then holds each record, its numbers cut to 32 bits and its key fitted to the key size. |
| NdxPage.ReadPage | ndx/page.go:32-62 | Gives the records the page holds; fails exactly for page 0 or when the page holds none. |
| NdxPage.HoldsMeans | ndx/page.go:32-62 | A page holds records if and only if bytes 0 to 3 count them, low byte first, and each is found at its place. |
| NdxPage.RecordPlace | ndx/page.go:32-62 | Record i is the bytes from 4 + i * size on, where the size is the next multiple of four that holds key and eight bytes. |
| NdxPage.RecordMeans | ndx/page.go:32-62 | It is four bytes page number and four bytes record number, low byte first, and the key. |
| NdxPage.PerPageMeans | ndx/types.go:167-169 | A page has room for n records if and only if 4 + n * size does not exceed 512. |
| NdxPage.RoundTrip | ndx/page.go:65-88 | Reading what was written gives the same records if and only if their numbers fit 32 bits and their keys have the key size. |
| CompactLeaf.AndOnes | cdx/node.go:97-167 | Masking with k low bits is the remainder by 2^k. |
| CompactLeaf.AndBit | cdx/node.go:97-167 | Bit by bit: a bit of the result is set if and only if it is set in number and mask. |
| CompactLeaf.ShiftDivides | cdx/node.go:97-167 | Shifting right by k is division by 2^k. |
| CompactLeaf.HeaderMeans | cdx/node.go:97-167 | Where the page says how many entries it has and how they are packed, byte by byte, and when that is usable. |
| CompactLeaf.EntriesFollow | cdx/node.go:97-167 | Entry i is the bytes from 24 + i * width on, low byte first. |
| CompactLeaf.UnpackMeans | cdx/node.go:97-167 | Its fields, from the low end: record number, number of repeated bytes, number of blanks, each under its mask. |
| CompactLeaf.LeafMeans | cdx/node.go:97-167 | The first key repeats bytes of a key of zeros, and the text of the keys ends with the page. |
| CompactLeaf.KeyMeans | cdx/node.go:97-167 | A key is bytes of the key before, the next piece of text towards the front of the page, and blanks 0x20; it is refused when these are more than a key or the text meets the entry area. |
| CompactLeaf.DecodeExterior | cdx/node.go:97-167 | The CDX loop decodes the page as the strict reading does. |
| CompactLeaf.DecodeLeaf | idx/leaf.go:19-75 | The IDX loop decodes it as the lax reading does. |
| CompactLeaf.DecodersAgree | idx/leaf.go:19-75 | On every page whose announced key text stays clear of the entry area the two decoders agree; every other page the CDX decoder refuses. |
| CompactLeaf.DecodersDiffer | idx/leaf.go:19-75 | A page of three keys the IDX decoder reads and the CDX decoder refuses. |
| LeafEncoder.SharedPrefix | cdx/leaf_encoder.go:152-163 | The length of the longest common prefix. |
| LeafEncoder.TrailingSpaces | cdx/leaf_encoder.go:166-172 | The number of blanks at the end. |
| LeafEncoder.TrailingIsAll | cdx/leaf_encoder.go:166-172 | These are blanks, and in front of them is none. |
| LeafEncoder.KeyRebuilt | cdx/leaf_encoder.go:45-147 | Prefix of the key before, stored text and blanks make up the key again. |
| LeafEncoder.UnpackPacked | cdx/leaf_encoder.go:45-147 | The three bit fields come back out of the packed number. |
| LeafEncoder.LeafRoundTrip | cdx/leaf_encoder.go:45-147 | A finished page decodes to its entries, strictly and laxly. |
| LeafEncoder.PutEntry | cdx/leaf_encoder.go:45-147 | Places one entry without touching those before it; refuses it exactly when its number is too large or its text would meet the entry area. |
| LeafEncoder.WriteLeaf | cdx/leaf_encoder.go:45-147 | Accepts a list if and only if it fits one leaf; then both decoders return it unchanged and the free-space field is the gap between entries and text. |
| LeafEncoder.FitsMeans | cdx/leaf_encoder.go:45-147 | A list fits a leaf if and only if the key length is 1 to 15, the record numbers fit 16 bits, and header, three bytes for each entry and the text that is not repeated or blank fit 512 bytes. |
| IdxIndex.Index.Build | idx/leaf.go:113-158 | Succeeds exactly when all keys have the key size and the sorted, deduplicated list fits one leaf or is empty; the page then decodes to that list, except for an empty list with keys longer than 15 bytes, whose page cannot be read. |
| IdxIndex.Index.Entries | idx/leaf.go:161-173 | The decoded leaf, or nothing for an index never built. |
| IdxIndex.Index.Seek | idx/leaf.go:176-191 | The record numbers under a key in index order. |
| NumericKeys.FormatNumeric | dbf/numeric.go:41-92 | Fills the field with the zero-filled digits of the number, and fails exactly when it does not fit. |
| NumericKeys.FitsWhen | dbf/numeric.go:41-92 | A number fits if and only if it has no more digits than there are places, the point taking one. |
| NumericKeys.FieldMeans | dbf/numeric.go:41-92 | The field has the width asked for, a point 0x2E in front of the decimals if there are any, and otherwise digits that make up the number. |
| NumericKeys.FieldOrder | dbf/numeric.go:41-92 | Larger magnitudes give larger fields under byte comparison. |
| NumericKeys.ApplyNegativeKeyTransform | dbf/numeric.go:138-144 | The loop transforms every byte but the point in place. |
| NumericKeys.NegatedDigits | dbf/numeric.go:128-134 | The digits 0 to 9 become 0x2C down to 0x23, the point stays. |
| NumericKeys.NegatedOrder | dbf/numeric.go:138-144 | The transform turns the order of equally shaped fields around. |
| NumericKeys.NegativeBelow | dbf/numeric.go:128-134 | Every transformed field sorts below every field that is not. |
| NumericKeys.NumericKey | ntx/keys.go:63-80 | Gives the key of a value, and fails exactly when length, decimals or value are out of range. |
| NumericKeys.KeyMeans | ntx/keys.go:63-80 | The key of a number from 0 on is its field; the key of its negative has 0x5C minus each byte of it, and the point where it was. |
| NumericKeys.HasKeyWhen | ntx/keys.go:63-80 | A number has a key if and only if the length is 1 to 250 and the digits fit in it, the point taking one place. |
| NumericKeys.KeyOrder | ntx/keys.go:63-80 | u is below v if and only if the key of u is below the key of v, across negatives, zero and positives; equal keys mean equal values. |
| Julian.DecodeEncode | dbf/vfptypes.go:332-343 | Every date of the Gregorian calendar from year 1 on is its own decoding. |
| Julian.EncodeDecode | dbf/vfptypes.go:308-328 | Every day number from 0 on decodes to a valid date that encodes to it. |
| Julian.NextDayEncodes | dbf/vfptypes.go:332-343 | The next calendar day has the next number. |
| Julian.Epoch | dbf/vfptypes.go:332-343 | 1 January 2000 is day 2451545, and midnight is 0 milliseconds. |
| Julian.NextTickEncodes | dbf/vfptypes.go:332-343 | The next millisecond has the next number. |
| Julian.ClockRoundTrip | dbf/vfptypes.go:332-343 | A time of day comes back from its milliseconds. |
| Julian.ClockOfMillis | dbf/vfptypes.go:308-328 | Every number of milliseconds below a day is that of a time of day. |

## Left out

- WorkArea.Area.CreateIndex: key sizes 246 to 250 are left out, because deletion is only safe with room for three items on a page; so are unique indexes.
- NtxIndex.Index.Delete: after a failure in `fixChild`, which in the code is an index out of range and ends the program, nothing is said about the pages already written.
- NtxRun.Run: where a script is stuck, it says nothing about what a careless caller who goes on would see.
- NtxIndex.Index.Open: covers files whose pages make up a tree and a free list, not damaged ones or those with other page parameters or an unaligned size.
- NtxWorn.WearOut: starts from an opened file; that a script from an empty one gets there is not shown.
- NtxStranded.Strand: likewise starts from the tree the insertions make, without replaying them.
- TableFile.Table.Get: gives the bytes of the record; errors of its decoding are left to `MemoFields.Codec`.
- TableFile.Table.Put: takes the bytes of the encoded record; errors of its encoding likewise.
- FatFile.Create: the long-name slots in front of a reused slot are not modelled.
- FatFile.Remove: the same.
- FatVolume.Find: names are compared as given, without normalisation.
- WorkArea.Rebuild: unique indexes and key sizes 246 to 250 are left out, see below.
- WorkArea.UpdateEntry: the same.
- WorkArea.Build: the same, and the index is a fresh one, as in its only use.
- WorkArea.Area.Pack: areas without unique indexes.
- MemoFpt.FptFile.Append: contents of 4 GiB and more, whose length field would wrap, are left out.
- MemoDbaseIV.MemoFile.Append: the same.
- MemoDbaseIV.MemoFile.Open: files that declare a block size below 22, less than their own header, are left out.
- MemoPack.PackAllDbt: the new pointers hold 32 bits, so the readings are promised while the new file has at most 2^32 blocks; key functions that look at memo fields, or at how a field is written rather than at its value, are left out.
- MemoPack.PackAllFpt: the same.
- FatFile.File.Write: a gap and size below 2^32 are assumed for the comparison with a flat file; beyond, only the wrapped size is stated.
- FatRun.Run: a script's write that would end at 2^32 or later is refused by the driver, as the size field would wrap; a script that opens files needs a volume on which no file has stale bytes behind its end, or too few clusters; each name has one handle.
- NdxBuild.Index.Build: keys are compared as bytes; numeric keys, which the code compares as floats, are left out.
- NdxBuild.Index.Seek: the same.
- LeafEncoder.PutEntry: takes keys of exactly the key length, as its callers pass them.
- LeafEncoder.WriteLeaf: takes keys of exactly the key length, as its callers pass them.
- NumericKeys.FormatNumeric: the digits of a scaled integer; signs, space filling and the rendering of floats are library code.
- NumericKeys.NumericKey: the same, and NaN and infinities are not integers.
- NdxBuild.WalkPage: on pages that form no tree it only promises to end.
- Stream errors: seeks, short reads and failed writes are not modelled; files are byte sequences or page maps.
- Header pages and descriptors: of the NTX header only root and free list; the DBF field descriptors, schema checks and the record codec are prefix sums and case analysis; the date in the header is a parameter.
- Unique indexes in work areas and in the repair after PACK: an entry skipped as a duplicate is not found again when its rival goes.
- Attaching a foreign index to an area (`SetIndex`): nothing is known about its contents.
- Key expressions, character, date and logical keys: keys are abstract functions of the record or plain bytes.
- FAT: the boot sector, long names, directory slots on disk, `Flush` to the copies of the table, and name normalisation; the directory is a list of entries.
- CDX trees of several levels, tag directories, CDX rebuild after PACK, and MDX: only single leaves are written by this code.
- Floating point: numeric keys are proved on integers scaled by the number of decimals; formatting and parsing of floats, NDX numeric keys and MDX keys depend on library code.
- SQLite file systems, locks, sessions, OS directories, the database catalogue, code pages: foreign calls and plumbing.
