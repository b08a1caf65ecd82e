# Dafny models of the recovery and lookup code in e2fsck, debugfs and the hidden-file finder

The project models the parts of the repository in which state is edited in place
and has a short meaning that the edits must keep:

- **Extent lists** (`e2fsprogs/e2fsck/journal.c`, `extents.c`). A list of extents
  denotes a finite map from logical block to (physical block, uninit bit).
  `ExtentEditor`, `EditTheorem` and `EditExactness` give the exact condition under
  which an edit (cut a hole, append, sort by length, strip, sort by block, merge)
  denotes the old map with the range removed or overridden. `ExtentListEditing` is
  the array editor itself, with the block bitmap. `ExtentTree` walks the tree by a path
  of cursors, `ExtentRebuild`, `RebuildTheorem` and `SplitTheorem` treat reading a tree
  (coalescing), writing it (splitting to the on-disk maximum) and converting a
  block-mapped file, and `LeafFormat` is a leaf extent as the tree stores it.
- **Fast-commit recovery** (`journal.c`, `recovery.c`). `FastCommit` says which
  prefix of the tagged records the scan accepts, `FcReplay` is the replay as a state
  machine over a write-back cache of one inode's list, and `FcRecovery` is the
  imperative driver, end to end. `FcBitmap` follows the block bitmap over whole runs.
- **The journal log** (`e2fsprogs/debugfs/do_journal.c`, read back as in
  `e2fsprogs/e2fsck/recovery.c`). `JournalFormat`, `JournalLayout`,
  `JournalWriter` and `JournalTransaction`: bytes of descriptor, tag, revoke and
  commit blocks, the writer, the head scan and what replay restores. `JournalRing`
  follows logs round the end of the journal, `JournalSizes` counts blocks, `JournalBytes`
  spells out the format.
- **Tables that refine a plain map or set**: `RegionSpec`/`RegionAllocator`
  (`region.c`), `HashTable` (`src/map.c`), `Refcount` (`ea_refcount.c`),
  `DirInfoTable` (`dirinfo.c`), `EncryptedFiles` (`encrypted_files.c`),
  `DupClaims` with `Dictionary` (`pass1b.c`, `lib/support/dict.c`).
- **Hidden files** (`src/fs.c`, `src/fhf.c`, `src/blk.c`, `e2fsprogs/debugfs/debugfs.c`).
  `BlockText`, `BlockListing` and `BlockQuery` print block lists and read them back,
  `ExtDir` parses directory blocks, `HiddenFiles` dumps, parses and compares.

Objects that the source updates in place are classes; arrays that the source
reallocates are `seq` fields, except where a fixed buffer is filled or shifted, which
stays an `array`. `qsort` is read as returning a permutation in which no adjacent
pair compares greater, since `ex_len_compar` is not a consistent order. Checksums
are arbitrary functions or arbitrary values. Machine arithmetic is written out where
the result depends on it (`ex_end` in 64 bits, extent lengths in 32 bits, `offset`
as an `int`, hashes in 32 bits, the directory parser's 32-bit length).

## Where the code and its intention differ

- An edit denotes the intended map if and only if `EditSafe` holds before it
  (`EditExactness.EditMeaning`), for every pair of 32-bit block and length a tag can
  carry. It goes wrong in exactly four ways. An edit of length 0 at block 0 wipes the
  list, because `ex_end` wraps to 2^64 - 1 (`EditExactness.OriginWrong`). A cut whose kept
  tail starts 2^31 or more blocks into its extent overflows the `int` `offset`
  (`EditExactness.FarCutWrong`). A delete that empties a one-extent list leaves a lone
  empty extent behind (the early return at `journal.c:450`), and if it sits at block 0,
  the next edit is wrong (`EditExactness.LoneEmptyOriginWrong`,
  `EditExactness.DeleteThenAddWitness`, `FcReplay.EmptiedThenExtendedRun`). If the intended
  map has 2^32 consecutive blocks on consecutive physical blocks with one flag, the merge
  wraps a length and loses blocks (`EditExactness.LongRunWrong`,
  `EditExactness.WrappedMergeWitness`).
- Writing a list keeps its map if and only if every written piece starts at a 32-bit
  logical and a 48-bit physical block, because the tree stores the low bits only
  (`lib/ext2fs/extent.c:858-860`; `FcReplay.StoredExact`). `FcReplay.HighStartRun` is a log
  of an add, a delete and a tail after which the file's blocks lie elsewhere.
- The guard `end < (1ULL << 32)` at `extents.c:96-102` adds two 32-bit lengths in
  32 bits, so it never fails. Reading a tree keeps its map if and only if the map has no
  run of 2^32 blocks (`RebuildTheorem.CoalesceMeaning`). `RebuildTheorem.GuardNeverFails`
  is a tree of 2^17 leaves of 2^15 blocks that loses its whole map. As long as no block
  from 2^32 - 1 on is mapped the condition always holds (`RebuildTheorem.WellFormedFits`).
- The scan fails, and recovery then replays nothing, if and only if the first unsound
  record is a head, or a tail or unknown tag before anything was accepted
  (`FastCommit.ScanAcceptsLongest`, `FcRecovery.FcContext.Recover`). So a head of another
  transaction behind accepted tails discards them (`FastCommit.ForeignHeadWitness`).
- The debugfs reader takes `(IND):`, `(DIND):` and `(TIND):` items for data blocks;
  only `(ETB` is skipped. `BlockQuery.ShownIsData` gives the exact condition.
- A data file that is too short makes `journal_add_blocks_to_trans` return `errno`
  (`do_journal.c:314-318`), which can be 0. The call then reports success with too few
  blocks, and the transaction may be committed
  (`JournalTransaction.Transaction.AddBlocks`, `JournalTransaction.Transaction.Write`).
- The comment at `dirinfo.c:268` says that the sum of the two bounds may overflow
  harmlessly. It is computed in 32 bits. Every search ends if and only if there are at
  most 2^31 + 1 entries (`DirInfoTable.SearchEndsExact`), and then the lookup is right. In
  any larger table the search for the last entry but one, or for an inode between it and
  the last, never ends (`DirInfoTable.SearchNeverEnds`).
- The duplicate-claim dictionaries are ordered by `dict_int_cmp`, which returns a 64-bit
  difference as an `int` (`pass1b.c:107-116`). It agrees with the order of two keys if and
  only if they are equal or their distance modulo 2^32 lies in 1 to 2^31 - 1
  (`Dictionary.AgreesExact`). A tree finds all its keys however it is balanced if and only
  if their residues modulo 2^32 lie in one window of 2^31 and the nodes are sorted in it
  (`Dictionary.ShapeExact`). Inside such windows the two dictionaries are mirror images if
  and only if no two different claimed clusters are congruent modulo 2^32
  (`DupClaims.MirrorExact`); inode numbers have 32 bits and never are. With clusters 1 and
  2^32 + 1 an inode is said to share with one that has no cluster in common with it
  (`DupClaims.CollisionWitness`).
- A printed block list of more than 2047 characters is cut without notice. Its whole items
  are read, and the cut one for what it looks like (`BlockQuery.CutLineReads`), so a number
  may come back shortened with a return code of 0 (`BlockListing.ShortenedNumber`).

## Model

| member | source | states |
|---|---|---|
| `Extents.DenDomain` | e2fsprogs/e2fsck/journal.c:398-399 | a block is in the map a list denotes exactly when some extent of the list holds it, whatever the order of the list |
| `Extents.DenIsMaps` | e2fsprogs/e2fsck/journal.c:398-399 | on pairwise disjoint extents the denoted map is exactly the relation "some extent maps l to t" |
| `Extents.SameMapsSameDen` | e2fsprogs/e2fsck/journal.c:398-399 | a disjoint list that relates the same pairs as a map denotes that map |
| `Extents.RunGoesOn` | e2fsprogs/e2fsck/journal.c:474-489 | a run of 2^32 blocks that starts in an extent goes on in an adjoining next one |
| `ExtentEditor.PiecesDenote` | e2fsprogs/e2fsck/journal.c:501-551 | through all four overlap cases one extent is replaced by sorted, in-range pieces that map exactly its blocks outside the hole, and the loop stops only when nothing later can overlap |
| `ExtentEditor.CutDenotes` | e2fsprogs/e2fsck/journal.c:500-551 | for every well-formed list the hole-cutting loop removes exactly the blocks of the range and keeps order and disjointness |
| `ExtentEditor.TrimFrontNear` | e2fsprogs/e2fsck/journal.c:538-545 | a near cut moves start, physical start and length by the same distance |
| `ExtentEditor.TrimFrontFar` | e2fsprogs/e2fsck/journal.c:521-524 | a cut 2^31 or more blocks into the extent shifts the logical start by 2^64 - 2^32 because the offset is an int |
| `EditTheorem.StripKeepsOccupied` | e2fsprogs/e2fsck/journal.c:453-465 | however the length sort breaks ties, stripping at the first empty extent keeps exactly the non-empty extents, as a multiset |
| `EditTheorem.SortedApartIsSpaced` | e2fsprogs/e2fsck/journal.c:470-472 | disjoint non-empty extents with no adjacent inversion by block are sorted and non-overlapping throughout |
| `EditTheorem.MergeDenotes` | e2fsprogs/e2fsck/journal.c:474-489 | if the map has no run of 2^32 blocks, the merge loop keeps well-formedness and the map and leaves no two neighbours that could be merged |
| `EditTheorem.SortMergeDenotes` | e2fsprogs/e2fsck/journal.c:446-490 | every outcome of sort, strip, sort and merge on disjoint pieces of a map without a run of 2^32 blocks is well-formed, fully merged and denotes that map |
| `EditTheorem.SafeEditWellFormed` | e2fsprogs/e2fsck/journal.c:493-567 | every outcome of a safe edit of a well-formed list is again a list an edit may meet, and denotes the intended map |
| `EditExactness.EditMeaning` | e2fsprogs/e2fsck/journal.c:446-567 | for every list an edit can meet, every 32-bit block and length, and every outcome of the sorts: the result denotes the old map with the range removed or overridden if and only if the stated pre-call condition holds, and then the list stays valid |
| `EditExactness.OriginWrong` | e2fsprogs/e2fsck/journal.c:501-536 | an edit of length 0 at block 0 always changes the map of a non-empty list |
| `EditExactness.LoneEmptyOriginWrong` | e2fsprogs/e2fsck/journal.c:446-451 | an edit of positive length, or 2^31 or more blocks away, on a lone empty extent at block 0 never gives the intended map |
| `EditExactness.LoneEmptyAway` | e2fsprogs/e2fsck/journal.c:446-567 | a lone empty extent anywhere else is harmless: the next edit gives the intended map |
| `EditExactness.FarCutWrong` | e2fsprogs/e2fsck/journal.c:521-524 | a cut with an offset of 2^31 or more always loses a block |
| `EditExactness.MergeAddsNothing` | e2fsprogs/e2fsck/journal.c:474-489 | the merge maps no block that was unmapped, even where a length wraps |
| `EditExactness.MergeLoses` | e2fsprogs/e2fsck/journal.c:474-489 | if the map has a run of 2^32 blocks, the merge unmaps a mapped block |
| `EditExactness.LongRunWrong` | e2fsprogs/e2fsck/journal.c:474-489 | an edit whose intended map has a run of 2^32 blocks never gives that map |
| `EditExactness.WrappedMergeWitness` | e2fsprogs/e2fsck/journal.c:485-488 | one block added behind 2^32 - 1 others: every outcome is a single empty extent |
| `EditExactness.LblkComparExact` | e2fsprogs/e2fsck/journal.c:420-430 | the block comparison orders by block, and on equal blocks by length exactly if the lengths differ by a C int |
| `EditExactness.LenComparExact` | e2fsprogs/e2fsck/journal.c:432-444 | the length comparison calls an extent greater exactly if it is shorter, and two extents equal also when the longer one merely does not start behind the other |
| `EditExactness.DeleteThenAddWitness` | e2fsprogs/e2fsck/journal.c:450-451 | a concrete delete that leaves a lone empty extent at block 0, after which a concrete add is wrong under every outcome of the sorts |
| `ExtentListEditing.ExtentList.MakeRoom` | e2fsprogs/e2fsck/journal.c:401-418 | one slot opens at the index and everything around it keeps its place |
| `ExtentListEditing.QSort` | e2fsprogs/e2fsck/journal.c:457-458 | a permutation with no adjacent pair comparing greater |
| `ExtentListEditing.ExtentList.SortAndMerge` | e2fsprogs/e2fsck/journal.c:446-490 | the array ends up as an outcome of sort, strip, sort and merge of its old contents |
| `ExtentListEditing.ExtentList.MergeInPlace` | e2fsprogs/e2fsck/journal.c:474-489 | the in-place merge loop with its inner shift computes the merged list |
| `ExtentListEditing.ExtentList.CloseGap` | e2fsprogs/e2fsck/journal.c:486-488 | exactly the element behind the index disappears |
| `ExtentListEditing.ExtentList.HoleTurn` | e2fsprogs/e2fsck/journal.c:501-551 | one turn replaces one extent by its pieces, clears its blocks exactly when it is touched, and stops exactly when the loop breaks |
| `ExtentListEditing.ExtentList.SplitAt` | e2fsprogs/e2fsck/journal.c:514-528 | the extent becomes its part before and its part after the hole, in place |
| `ExtentListEditing.ExtentList.MakeHole` | e2fsprogs/e2fsck/journal.c:500-551 | the loop computes the cut list and clears exactly the blocks of the touched extents |
| `ExtentListEditing.ExtentList.MarkAll` | e2fsprogs/e2fsck/journal.c:560-563 | every block of the list is marked and no other bit changes |
| `ExtentListEditing.ExtentList.Modify` | e2fsprogs/e2fsck/journal.c:493-567 | the whole edit: intended map exactly when safe, and then the bitmap loses the released blocks, keeps the kept ones and is untouched elsewhere |
| `ExtentListEditing.BitmapExact` | e2fsprogs/e2fsck/journal.c:501-566 | after a safe edit the bitmap is the old one minus the old list's blocks plus the new list's blocks |
| `ExtentRebuild.RebuildList.AttachOrAppend` | e2fsprogs/e2fsck/extents.c:92-128 | the extent joins the last one under the attach test as written, or is appended |
| `ExtentRebuild.RebuildList.Load` | e2fsprogs/e2fsck/extents.c:61-139 | the walk coalesces the leaves in order, skips second visits, frees each internal node once and counts both |
| `ExtentTree.ExtentHandle.Next` | e2fsprogs/lib/ext2fs/extent.c:327-548 | one NEXT step of the path of cursors (down, sideways, up) takes the next visit off what remains of the recursive order; it ends exactly with nothing left, and fails only at an empty block still ahead |
| `ExtentTree.Walk` | e2fsprogs/e2fsck/extents.c:61-139 | stepping from the root succeeds exactly if no index entry points to an empty block, and then visits every leaf once and every index entry before and after its subtree |
| `ExtentTree.WalkSees` | e2fsprogs/e2fsck/extents.c:76-91 | of that walk the rebuild takes the leaf extents once each from left to right, and each block of the tree once |
| `ExtentTree.LoadTree` | e2fsprogs/e2fsck/extents.c:61-139 | reading a tree coalesces its leaf extents and frees each of its blocks once; on an error nothing outside the tree has been freed |
| `ExtentRebuild.RebuildList.FindBlock` | e2fsprogs/e2fsck/extents.c:141-197 | one callback frees an indirect block, or grows the last extent by the block test as written, or appends an extent of one block |
| `ExtentRebuild.RebuildList.FindBlocks` | e2fsprogs/e2fsck/extents.c:141-197 | a whole iteration folds the callbacks and frees the indirect blocks; without uninitialised extents in the list it coalesces the data blocks |
| `ExtentRebuild.CollectIsCoalesce` | e2fsprogs/e2fsck/extents.c:158-194 | without uninitialised extents the callbacks compute the coalescing of the data blocks |
| `ExtentRebuild.RebuildList.Rewrite` | e2fsprogs/e2fsck/extents.c:226-267 | the loop that steps its own index back terminates, writes the split of every extent in order and leaves the residues |
| `RebuildTheorem.CoalesceWideKeeps` | e2fsprogs/e2fsck/extents.c:92-109 | with lengths added without wrap, coalescing keeps the map and the total length and leaves no two extents adjoining |
| `RebuildTheorem.RunsFitExact` | e2fsprogs/e2fsck/extents.c:92-109 | all coalesced lengths fit 32 bits exactly when the map has no run of 2^32 blocks |
| `RebuildTheorem.CoalesceMeaning` | e2fsprogs/e2fsck/extents.c:92-109 | the code's coalescing keeps the map if and only if the map has no run of 2^32 blocks |
| `RebuildTheorem.WrapLosesBlock` | e2fsprogs/e2fsck/extents.c:96-103 | if a run does reach 2^32 blocks, some mapped block is unmapped afterwards |
| `RebuildTheorem.GuardNeverFails` | e2fsprogs/e2fsck/extents.c:96-102 | a tree of 2^17 leaves of the longest on-disk length passes the guard at every step and loses its whole map |
| `RebuildTheorem.WellFormedFits` | e2fsprogs/e2fsck/extents.c:96-102 | lists that map no block from 2^32 - 1 on always meet the condition |
| `RebuildTheorem.CoalesceWellFormed` | e2fsprogs/e2fsck/extents.c:61-139 | reading a well-formed tree without a run of 2^32 blocks gives a well-formed, fully merged list with the same map and total length |
| `SplitTheorem.SplitDenotes` | e2fsprogs/e2fsck/extents.c:230-253 | splitting one extent gives sorted pieces whose length and flag survive the 16-bit field of the tree, all but the last as long as that allows, with the same map and total length |
| `SplitTheorem.SplitAllDenotes` | e2fsprogs/e2fsck/extents.c:230-267 | writing a list emits sorted, disjoint, non-empty pieces whose length and flag survive the 16-bit field of the tree, with the same map and total length |
| `SplitTheorem.MaxLenIsKept` | e2fsprogs/lib/ext2fs/ext3_extents.h:99-100 | the writer's two maxima are exactly the longest written and unwritten lengths that the tree gives back |
| `LeafFormat.LenKeptExact` | e2fsprogs/lib/ext2fs/extent.c:543-556 | a length and its flag survive the stored 16 bits exactly up to 32768 written or 32767 unwritten blocks |
| `LeafFormat.KeptExact` | e2fsprogs/lib/ext2fs/extent.c:855-872 | an extent comes back from the tree unchanged exactly when its block has 32 bits, its physical block 48, and its length survives |
| `SplitTheorem.ReadBack` | e2fsprogs/e2fsck/extents.c:61-139 | reading the written pieces back restores exactly the merged list that was written |
| `SplitTheorem.RebuildKeepsMap` | e2fsprogs/e2fsck/extents.c:346-377 | without a run of 2^32 blocks, load followed by rewrite keeps map and length in pieces whose lengths the tree gives back, and a second rebuild changes nothing |
| `SplitTheorem.DataBlocksDenote` | e2fsprogs/e2fsck/extents.c:141-197 | for callbacks with increasing logical numbers the collected blocks denote exactly the reported pairs |
| `SplitTheorem.ConvertKeepsMap` | e2fsprogs/e2fsck/extents.c:372-376 | converting a block-mapped file: the collected list denotes exactly the reported pairs if and only if they have no run of 2^32 blocks, and then so do the rewritten extents |
| `FastCommit.ScanStep` | e2fsprogs/e2fsck/journal.c:319-378 | a scan step goes on exactly when the record is sound; a step that stops accepts nothing new and is an error, of the kind the record calls for, exactly at a fatal record |
| `FastCommit.ScanAcceptsLongest` | e2fsprogs/e2fsck/journal.c:278-383 | for every sequence of blocks the accepted count is the longest prefix that opens with a head, has only sound records and ends in a tail whose tid and checksum verify; the scan fails exactly when the first unsound record is fatal, with that record's error |
| `FastCommit.EveryTagCovered` | e2fsprogs/e2fsck/journal.c:340-357 | every accepted record lies under the checksum of a verified tail at or after it |
| `FastCommit.ForeignHeadWitness` | e2fsprogs/e2fsck/journal.c:358-368 | a head of another transaction behind a verified tail makes the scan fail although two records are accepted |
| `FcReplay.FlushKeepsView` | e2fsprogs/e2fsck/journal.c:600-609 | flushing keeps what cache and disk mean together exactly when the cached list can be stored, and then the invariant |
| `FcReplay.WriteKeepsMap` | e2fsprogs/e2fsck/extents.c:286-315 | the pieces handed to the tree denote the cached list, a lone empty extent included |
| `FcReplay.StoredExact` | e2fsprogs/lib/ext2fs/extent.c:855-872 | written to the tree with its 16-bit length field and read again, a list keeps its map exactly when every piece starts at a 32-bit block and a 48-bit physical block; no piece is lost by its length |
| `FcReplay.ReadKeepsView` | e2fsprogs/e2fsck/journal.c:581-590 | reading an inode into the cache changes nothing that can be seen |
| `FcReplay.EditAgrees` | e2fsprogs/e2fsck/journal.c:808-853 | an add or delete through the cache equals immediate application if and only if the flush before it can be stored and the edit is safe on the list it meets |
| `FcReplay.StepAgrees` | e2fsprogs/e2fsck/journal.c:912-940 | one successful step of any tag equals immediate replay of the tag (a delete removes exactly the blocks of its range) if and only if it is safe, and then keeps the invariant |
| `FcReplay.StepOutcome` | e2fsprogs/e2fsck/journal.c:860-957 | a step succeeds exactly if its tag names a file that exists and decodes, or its library call succeeds, whatever is cached, and no file appears or vanishes |
| `FcReplay.LibrarySeesDisk` | e2fsprogs/e2fsck/journal.c:645-803 | when a directory-entry or inode tag hands over to the library, or a tail has come, the disk means everything replayed so far, except for the one inode the tag may leave cached |
| `FcReplay.RunAgrees` | e2fsprogs/e2fsck/journal.c:860-957 | over every run of tags and inodes, cache plus disk equals immediate replay at every moment if and only if every flush and edit was safe when it came |
| `FcReplay.CompletedRunOnDisk` | e2fsprogs/e2fsck/journal.c:929-930 | a completed safe run that ends in a tail leaves nothing cached, and the disk alone equals immediate replay |
| `FcReplay.HarmlessLogIsSafe` | e2fsprogs/e2fsck/journal.c:808-853 | if every edit is non-empty, below block 2^31 and 48-bit physical blocks and no delete empties a file, judged on immediate replay alone, every step of every run is safe |
| `FcReplay.EmptiedThenExtendedRun` | e2fsprogs/e2fsck/journal.c:450-451 | a two-tag log on which the run differs from immediate replay |
| `FcReplay.HighStartRun` | e2fsprogs/e2fsck/journal.c:808-853 | a three-tag log after which the file's blocks are stored at another place |
| `FcRecovery.FcContext.ScanTag` | e2fsprogs/e2fsck/journal.c:319-376 | the scan switch updates count, current tag and checksum as one scan step |
| `FcRecovery.FcContext.ScanBlock` | e2fsprogs/e2fsck/journal.c:278-383 | one block: reset and head test at offset 0, refusal of an unexpected offset, else a scan of its records |
| `FcRecovery.FcContext.ScanPass` | e2fsprogs/e2fsck/recovery.c:235-269 | the scan pass over the blocks computes the scan of their concatenation and leaves disk and cache alone |
| `FcRecovery.FcContext.FlushExtents` | e2fsprogs/e2fsck/journal.c:600-609 | the cached list of another inode is written out through the splitter with the stored widths, and the cache emptied |
| `FcRecovery.FcContext.ReadExtents` | e2fsprogs/e2fsck/journal.c:581-590 | the list is read and coalesced unless it is cached already; a missing inode is an error |
| `FcRecovery.FcContext.HandleRange` | e2fsprogs/e2fsck/journal.c:808-853 | add and delete range: flush, read, edit and bitmap update, with the error outcomes |
| `FcRecovery.FcContext.HandleEntry` | e2fsprogs/e2fsck/journal.c:645-803 | directory-entry and inode tags touch the cache only by their flush |
| `FcRecovery.FcContext.ReplayTag` | e2fsprogs/e2fsck/journal.c:912-940 | the replay switch is a step of the state machine |
| `FcRecovery.FcContext.ReplayBlock` | e2fsprogs/e2fsck/journal.c:860-957 | one block replays its first tags up to the remaining count, or stops at the reported error |
| `FcRecovery.FcContext.ReplayPass` | e2fsprogs/e2fsck/recovery.c:235-269 | the replay pass applies exactly the accepted tags in order, or a prefix of them up to a reported error |
| `FcRecovery.FcContext.Recover` | e2fsprogs/e2fsck/recovery.c:235-269 | scan then replay: only the longest verified prefix is ever applied; if the first unsound record is fatal, disk, cache and bitmap are left alone; otherwise the accepted records are replayed, with an error exactly if one of them cannot be |
| `FcRecovery.ReplayOutcome` | e2fsprogs/e2fsck/journal.c:860-957 | replay reports an error exactly if some tag cannot be replayed on the files there were, and stops at the first of them |
| `FcRecovery.RecoveredDisk` | e2fsprogs/e2fsck/journal.c:860-957 | end to end: recovery without error of a harmless log leaves an empty cache and a disk equal to immediate replay of the accepted records |
| `FcBitmap.StepBits` | e2fsprogs/e2fsck/journal.c:501-566 | a safe step leaves marked exactly the blocks in use and those that were marked and not in use before, as long as no block belongs to two files |
| `FcBitmap.RunBits` | e2fsprogs/e2fsck/journal.c:860-957 | over every safe run without shared blocks, at every moment the marked blocks are those in use and those marked at the start and never used |
| `FcBitmap.RecoveredBitmap` | e2fsprogs/e2fsck/journal.c:860-957 | the same after the recovery of a harmless log, judged on immediate replay alone |
| `JournalFormat.HeaderWritten` | e2fsprogs/debugfs/do_journal.c:306-309 | a written header is recognised with its type and sequence |
| `JournalLayout.CountExact` | e2fsprogs/debugfs/do_journal.c:624-649 | counting the tags of a finished descriptor gives the number written, with LAST_TAG or by overflow without it |
| `JournalLayout.RestoreExact` | e2fsprogs/e2fsck/recovery.c:612-690 | walking a written descriptor restores one block per tag, each with its number and unescaped data |
| `JournalRing.WrapExact` | e2fsprogs/debugfs/do_journal.c:613-618 | within one round past the end, wrapping lands between the first and the last block of the log and moves by a whole round |
| `JournalRing.ScanRinged` | e2fsprogs/debugfs/do_journal.c:651-766 | the head scan crosses a stretch of descriptors and revoke blocks that runs past the last block and goes on at the first |
| `JournalRing.ScanLog` | e2fsprogs/debugfs/do_journal.c:651-766 | scanning any number of committed transactions, round the end of the log as often as they go, ends behind the last commit with the sequence advanced by their number |
| `JournalRing.ScanStops` | e2fsprogs/debugfs/do_journal.c:696-757 | whatever the blocks hold, the scan stops at a foreign header, a block outside the log or an unknown block type, and with what |
| `JournalRing.RestoreRing` | e2fsprogs/e2fsck/recovery.c:612-690 | a descriptor whose data runs past the last block restores each block from where it lies |
| `JournalBytes.HeaderOnDisk` | e2fsprogs/lib/ext2fs/kernel-jbd.h:67-92 | a header is the bytes C0 3B 39 98, the block type and the sequence, most significant byte first |
| `JournalBytes.TagBytesExact` | e2fsprogs/lib/ext2fs/kernel-jbd.h:385-401 | a tag has 8, 10, 12, 14 or 16 bytes by the journal's features, a revoke record 4 or 8 |
| `JournalBytes.TagOnDisk` | e2fsprogs/lib/ext2fs/kernel-jbd.h:138-152 | which bytes of a stored tag hold the low half of the number, the flags and the high half |
| `JournalBytes.UuidOnDisk` | e2fsprogs/debugfs/do_journal.c:353-359 | the UUID of the first tag is stored twelve tag sizes behind the tag, where the pointer arithmetic puts it |
| `JournalBytes.TagSumOnDisk` | e2fsprogs/debugfs/journal.c:928-946 | a tag checksum goes into the last four bytes of the larger tag, or its low 16 bits into the two bytes before the flags |
| `JournalBytes.TailOnDisk` | e2fsprogs/debugfs/journal.c:913-926 | with either checksum feature the last four bytes of the block are the checksum, without them nothing is added, and all before stays |
| `JournalBytes.RecordOnDisk` | e2fsprogs/debugfs/do_journal.c:231-237 | a revoke record is its number, most significant byte first |
| `JournalBytes.RevokeBlockOnDisk` | e2fsprogs/lib/ext2fs/kernel-jbd.h:163-167 | behind the header a finished revoke block has the number of bytes used, and its records from byte 16 on unchanged |
| `JournalLayout.ScanChunks` | e2fsprogs/debugfs/do_journal.c:651-766 | the head scan crosses any stretch of whole descriptors and revoke blocks to its end without moving head or sequence |
| `JournalLayout.ChunksFrame` | e2fsprogs/e2fsck/recovery.c:612-690 | what a stretch restores and revokes depends on its own blocks only |
| `JournalLayout.ChunksJoin` | e2fsprogs/debugfs/do_journal.c:499-535 | adjoining stretches restore and revoke the concatenation |
| `JournalWriter.TagWritten` | e2fsprogs/debugfs/do_journal.c:349-369 | a stored tag reads back number (both halves) and flags, whatever the checksum, and changes nothing outside itself and the UUID copy |
| `JournalWriter.AddTag` | e2fsprogs/debugfs/do_journal.c:349-369 | adding a tag keeps all earlier tags and the header |
| `JournalWriter.EscapeRoundTrip` | e2fsprogs/debugfs/do_journal.c:362-365 | escaping a data block and unescaping it by its flag restores it |
| `JournalWriter.FlagBits` | e2fsprogs/debugfs/do_journal.c:351-365 | SAME_UUID, LAST_TAG and ESCAPE are set exactly in their cases |
| `JournalWriter.DescriptorChunk` | e2fsprogs/debugfs/do_journal.c:322-341 | writing out a finished descriptor turns it and the data behind it into a stretch that restores exactly those blocks |
| `JournalTransaction.Transaction.WriteBlock` | e2fsprogs/debugfs/do_journal.c:371-383 | a block inside the journal is stored, one outside is an error |
| `JournalTransaction.Transaction.AddTurn` | e2fsprogs/debugfs/do_journal.c:313-387 | one turn keeps the fill state and fails only if some number is out of range or the blocks do not fit |
| `JournalTransaction.Transaction.TagRoom` | e2fsprogs/debugfs/do_journal.c:320-341 | a full descriptor is written out and the next one begun; fails only if the blocks do not fit |
| `JournalTransaction.Transaction.AddOne` | e2fsprogs/debugfs/do_journal.c:349-385 | tag stored and data written, failing exactly beyond the journal |
| `JournalTransaction.Transaction.FlushDescriptor` | e2fsprogs/debugfs/do_journal.c:322-341 | a full descriptor is written without LAST_TAG and its blocks stay restorable |
| `JournalTransaction.Transaction.LastDescriptor` | e2fsprogs/debugfs/do_journal.c:389-403 | the open descriptor is written and everything handed over is restorable |
| `JournalTransaction.Transaction.AddBlocks` | e2fsprogs/debugfs/do_journal.c:264-411 | succeeds exactly when the handle is open, every number is in the file system and descriptors plus data fit, and then the stretch restores exactly the given pairs in order; with a file that is too short, success means errno 0 and fewer blocks |
| `JournalSizes.DataSizeExact` | e2fsprogs/debugfs/do_journal.c:264-411 | the size by which data blocks fit or not is one journal block each and the fewest descriptors that hold their tags |
| `JournalTransaction.Transaction.RevokeTurn` | e2fsprogs/debugfs/do_journal.c:203-238 | one record stored, a full revoke block written first |
| `JournalTransaction.Transaction.FlushRevokes` | e2fsprogs/debugfs/do_journal.c:204-223 | a revoke block is written with its byte count and reads back its records |
| `JournalTransaction.Transaction.AddRevokes` | e2fsprogs/debugfs/do_journal.c:160-262 | succeeds exactly when the handle is open, numbers are valid and the revoke blocks fit; then exactly the given records can be read back |
| `JournalSizes.RevokeSizeExact` | e2fsprogs/debugfs/do_journal.c:160-262 | the size by which revokes fit or not is the fewest blocks that hold them |
| `JournalTransaction.RevokeBlockReads` | e2fsprogs/e2fsck/recovery.c:894-931 | scanning a finished revoke block yields exactly its records |
| `JournalTransaction.RecordWritten` | e2fsprogs/debugfs/do_journal.c:231-237 | adding a record keeps those before it |
| `JournalTransaction.Transaction.Commit` | e2fsprogs/debugfs/do_journal.c:67-158 | writes a commit header at the current block exactly when the handle is open and there is room |
| `JournalTransaction.Transaction.Write` | e2fsprogs/debugfs/do_journal.c:499-535 | a whole transaction is written exactly when it fits; its log restores the data, revokes the records and ends in the commit block, and nothing before it changes; with a file that is too short and errno 0 fewer blocks are committed |
| `JournalTransaction.WroteMore` | e2fsprogs/debugfs/do_journal.c:499-535 | a later stretch leaves an earlier one readable |
| `JournalTransaction.ScanFindsHead` | e2fsprogs/debugfs/do_journal.c:651-766 | scanning a written transaction ends, with the next sequence, at the block behind its commit, or at the first block of the log if the commit is the last, provided no header of that sequence follows there |
| `JournalTransaction.Scan` | e2fsprogs/debugfs/do_journal.c:651-766 | the scanning loop computes the head and sequence of the recursive scan; an empty log leaves both alone |
| `JournalTransaction.CountTagsLoop` | e2fsprogs/debugfs/do_journal.c:624-649 | the counting loop equals the recursive count |
| `RegionSpec.PlaceExact` | e2fsprogs/e2fsck/region.c:94-139 | a range is placed exactly when disjoint from all allocated addresses; then exactly its addresses are added and the list stays sorted, disjoint and non-touching |
| `RegionSpec.PlaceAtEnd` | e2fsprogs/e2fsck/region.c:75-85 | the shortcut through the last element does what the search would do |
| `RegionSpec.PlaceSkips` | e2fsprogs/e2fsck/region.c:94-121 | passing ranges by does not change the outcome |
| `RegionSpec.ListIsCanonical` | e2fsprogs/e2fsck/region.c:63-139 | the set of allocated addresses determines the list, whatever the order of the calls |
| `RegionAllocator.Region.constructor` | e2fsprogs/e2fsck/region.c:36-49 | an empty region with its bounds |
| `RegionAllocator.Region.Link` | e2fsprogs/e2fsck/region.c:125-138 | an element enters the chain at its index and the last pointer stays the final element |
| `RegionAllocator.Region.Insert` | e2fsprogs/e2fsck/region.c:125-138 | exactly one range is added at its index |
| `RegionAllocator.Region.GrowBehind` | e2fsprogs/e2fsck/region.c:103-118 | a range that starts where an element ends grows it, closes the gap to the next one or is refused, as the placement says |
| `RegionAllocator.Region.AddBefore` | e2fsprogs/e2fsck/region.c:119-138 | a range between its neighbours gets an element of its own, as the placement says |
| `RegionAllocator.Region.Absorb` | e2fsprogs/e2fsck/region.c:104-114 | two neighbours become one and the last pointer follows |
| `RegionAllocator.Region.Unlink` | e2fsprogs/e2fsck/region.c:107-113 | the element behind leaves the chain and the last pointer follows |
| `RegionAllocator.Region.Search` | e2fsprogs/e2fsck/region.c:94-138 | the linked-list search computes the placement |
| `RegionAllocator.Region.Allocate` | e2fsprogs/e2fsck/region.c:63-139 | 0 exactly when n > 0, the range is in bounds and free, and then the covered set grows by exactly it; -1 exactly out of bounds; otherwise unchanged |
| `HashTable.ComputeHash` | src/map.c:21-27 | the loop computes the 32-bit fold over the key's signed characters |
| `HashTable.BitwiseExact` | src/map.c:21-27 | bit by bit, the model's XOR is the sum modulo 2 and its AND the product |
| `HashTable.HashStepParts` | src/map.c:21-27 | one step multiplies by 33 in 32 bits and mixes in the character, which above 127 counts as negative; the hash starts at 5381 |
| `HashTable.MaskIsModulo` | src/map.c:44-48 | masking with a power of two less one is the remainder |
| `HashTable.ChainDecides` | src/map.c:95-108 | the chain a key hashes to holds the key's only node, or the table lacks the key |
| `HashTable.AddedKeeps` | src/map.c:51-55 | a node put at the front of its chain is in its home bucket, and one node is added |
| `HashTable.Table.GetRef` | src/map.c:95-108 | finds a node exactly when the map has the key, and it is that key's node |
| `HashTable.Table.Get` | src/map.c:127-130 | the value of the plain map |
| `HashTable.Table.AddNode` | src/map.c:51-55 | home buckets kept, one node more |
| `HashTable.Table.Resize` | src/map.c:58-92 | after success or failure every node is back in its home bucket and none is lost |
| `HashTable.Table.Grow` | src/map.c:145-149 | the bucket count doubles or becomes one; without memory it stays, and the map is unchanged in both cases |
| `HashTable.Table.Set` | src/map.c:133-156 | the map is updated at the key, or unchanged with -1 exactly when a needed allocation fails; there are never more nodes than buckets |
| `HashTable.Table.Remove` | src/map.c:159-168 | the map loses exactly the key |
| `HashTable.Table.Next` | src/map.c:179-193 | each call visits the next entry and ends only when all have been visited |
| `HashTable.FlatIsAll` | src/map.c:179-193 | the visiting order covers every node exactly once |
| `Refcount.CollapseKeeps` | e2fsprogs/e2fsck/ea_refcount.c:87-105 | a collapse drops exactly the zero entries, keeps the order and changes no count |
| `Refcount.InsertKeeps` | e2fsprogs/e2fsck/ea_refcount.c:112-146 | a new zero entry keeps the order and every count |
| `Refcount.UpdateCounts` | e2fsprogs/e2fsck/ea_refcount.c:222-266 | writing one entry changes one count |
| `Refcount.RefcountTable.Collapse` | e2fsprogs/e2fsck/ea_refcount.c:87-105 | the in-place compaction computes the non-zero entries |
| `Refcount.RefcountTable.InsertEl` | e2fsprogs/e2fsck/ea_refcount.c:112-146 | an entry appears at its place and no count changes |
| `Refcount.RefcountTable.Search` | e2fsprogs/e2fsck/ea_refcount.c:182-192 | bisection finds the key's entry or the place where one belongs |
| `Refcount.RefcountTable.GetEl` | e2fsprogs/e2fsck/ea_refcount.c:154-206 | finds or creates the entry without changing a count; the collapse-and-retry path retries at most once |
| `Refcount.RefcountTable.Fetch` | e2fsprogs/e2fsck/ea_refcount.c:208-220 | the count of the total map |
| `Refcount.RefcountTable.Increment` | e2fsprogs/e2fsck/ea_refcount.c:222-235 | one count grows by one, all others stay |
| `Refcount.RefcountTable.Decrement` | e2fsprogs/e2fsck/ea_refcount.c:237-251 | one count falls by one; fails, changing nothing, exactly at 0 |
| `Refcount.RefcountTable.Store` | e2fsprogs/e2fsck/ea_refcount.c:253-266 | one count is set, all others stay |
| `Refcount.RefcountTable.IntrNext` | e2fsprogs/e2fsck/ea_refcount.c:281-297 | from any cursor, even one a collapse left beyond the end, iteration yields the remaining non-zero entries in order |
| `ExtDir.ParseExt2Dir` | src/fs.c:11-62 | on any bytes the walk terminates, reads only inside the buffer and appends what the record walk yields |
| `ExtDir.ParseSound` | src/fs.c:31-58 | on any bytes every collected entry is a record with an inode and a name other than ".", ".." and the empty one, wholly inside the buffer |
| `ExtDir.ParseFindsLive` | src/fs.c:22-60 | on a run of valid records up to where none can be read it yields exactly those with an inode and a name other than ".", ".." and the empty one, in order; a final 8-byte record skipped by the loop bound has no name to lose |
| `ExtDir.ParsePrefix` | src/fs.c:22-60 | on any bytes the walk reads a run of valid records that ends only in the last 8 bytes or where no valid record lies, and collects its live ones |
| `ExtDir.DotFileSample` | src/fs.c:22-60 | twelve bytes that are a record named ".x", low byte first, are one entry |
| `ExtDir.LenRoundTrip` | src/fs.c:31-34 | the decoded record length inverts the on-disk encoding for every length below 2^18 |
| `ExtDir.ParseEncode` | src/fs.c:11-62 | parsing the encoding of any list of valid records returns its live entries |
| `HiddenFiles.DumpBlocks` | src/fhf.c:170-225 | fails exactly when a named block does not lie on the device; else the i-th piece of the buffer is the device's bytes from base + b * unit on for the i-th block b other than -1, each write in bounds, with one pointer per -1 |
| `HiddenFiles.SegmentIsExtent` | src/fhf.c:186-222 | the bytes between two extent pointers are exactly the device's blocks of that extent, one behind the other, and the last pointer runs to the end |
| `HiddenFiles.BytesExact` | src/fhf.c:186-222 | what the dump is said to hold is the one byte sequence that has each listed block of the device in its place |
| `HiddenFiles.PointersAt` | src/fhf.c:190-198 | each pointer is the size of the extents before it |
| `HiddenFiles.IndexOf` | src/fhf.c:227-238 | the first entry of that C string, or -1 exactly when none has it |
| `HiddenFiles.Compare` | src/fhf.c:240-258 | exactly the entries missing from the listing, in order |
| `HiddenFiles.MissingExact` | src/fhf.c:240-258 | an entry is reported exactly when it is in the raw list and its name is not listed |
| `HiddenFiles.MissingCounts` | src/fhf.c:240-258 | and it is reported as often as it was found |
| `HiddenFiles.FindHidden` | src/fhf.c:260-290 | all segments parsed in order, then the difference; the error cases report nothing |
| `HiddenFiles.DumpInBuffer` | src/fhf.c:275-279 | the segment bounds computed from the dump's pointers never leave the buffer |
| `HiddenFiles.HiddenNames` | src/fhf.c:260-290 | end to end, whatever the blocks hold: fails exactly if there is no extent or a block is not on the device; else a name is reported hidden exactly when a live record in the directory's blocks carries it and the listing does not |
| `HiddenFiles.SomeRecords` | src/fhf.c:260-290 | every directory whose extents are below 4 GiB has records in this sense |
| `BlockText.DecimalValue` | src/blk.c:1024-1038 | reading a printed number gives the number |
| `BlockText.TokensExact` | src/blk.c:1002-1047 | the tokens are the non-empty stretches between commas, and nothing but commas is lost |
| `BlockText.ScanForms` | src/blk.c:1024-1038 | which texts read as one number and which as a range: a hyphen counts only with a digit on both sides, and what follows the digits is ignored |
| `BlockText.ScanNothing` | src/blk.c:1024-1045 | a text has no number exactly if it does not start with a digit |
| `BlockText.IndexToken` | src/blk.c:1011-1014 | a token that has "(ETB" behind its blanks is skipped, whatever follows |
| `BlockText.DecimalSample` | src/blk.c:1024-1038 | the number 1029 is printed as 1029 |
| `BlockText.NextToken` | src/blk.c:1002-1047 | one strtok call returns the next non-empty token and shortens the rest |
| `BlockText.TakeToken` | src/blk.c:1011-1045 | index tokens are skipped; a missing colon and a missing number are told apart; one number or an inclusive range is pushed |
| `BlockText.ReadLine` | src/blk.c:1002-1050 | the token loop returns the blocks of all tokens and ends with matched 2 exactly when all were understood |
| `BlockListing.PieceReads` | e2fsprogs/debugfs/debugfs.c:559-577 | a printed item reads back as its blocks, with or without a leading blank; index nodes are skipped |
| `BlockListing.LineReads` | src/blk.c:1002-1050 | reading any printed line yields exactly its blocks in order |
| `BlockListing.DumpExtents` | e2fsprogs/debugfs/debugfs.c:671-785 | the text is the line of the visited items: second visits and empty extents left out, separators only between items |
| `BlockListing.PiecesBlocks` | e2fsprogs/debugfs/debugfs.c:760-781 | the items of an extent walk stand for exactly the leaf extents' physical blocks |
| `BlockListing.ListBlocks.FinishRange` | e2fsprogs/debugfs/debugfs.c:559-577 | the open range becomes one printed item, or nothing is open |
| `BlockListing.ListBlocks.Proc` | e2fsprogs/debugfs/debugfs.c:579-622 | printed items plus open range always stand for the blocks reported so far |
| `BlockListing.IndirectText` | e2fsprogs/debugfs/debugfs.c:608-622 | the item for an indirect block by its kind, nothing for an unknown kind |
| `BlockListing.DumpBlocks` | e2fsprogs/debugfs/debugfs.c:638-654 | the printed line stands for every reported block except a data block 0 and blocks of unknown kind, and the total counts all callbacks |
| `BlockQuery.GetDataBlocks` | src/blk.c:959-1072 | the line behind the first header line decides: marker, blocks, count and return code, including the failing cases |
| `BlockQuery.FindsLine` | src/blk.c:986-1059 | the line behind the header is found whatever precedes and follows, cut to 2047 characters |
| `BlockQuery.ExtentsRoundTrip` | src/blk.c:986-1059 | printing an extent walk and reading it back gives exactly the leaf extents' blocks with the matching count; a line over 2047 characters is read as its cut front; without items and further output the query fails |
| `BlockQuery.CutLineReads` | src/blk.c:1002-1050 | of a cut line all whole items are read, and the cut one for what it looks like |
| `BlockListing.ShortenedNumber` | src/blk.c:1024-1030 | an item for one block that loses its last digit reads as a tenth of the block |
| `BlockQuery.BlocksRoundTrip` | src/blk.c:986-1059 | the same for a block-mapped file without blocks of unknown kind: every shown block, indirect ones included |
| `BlockQuery.ShownIsData` | e2fsprogs/debugfs/debugfs.c:579-622 | the listing is the data blocks exactly when no indirect block was reported |
| `BlockQuery.QueryFeedsDump` | src/fhf.c:186-190 | the query's result names as many blocks as its count says, so the dump buffer is large enough, and they are the blocks the dump reads |
| `DupClaims.Multiplicities` | e2fsprogs/e2fsck/pass1b.c:121-170 | both lists of claims count each pair as often as it was claimed |
| `DupClaims.Mirror` | e2fsprogs/e2fsck/pass1b.c:121-170 | the two directions of the claims are mirror images with equal multiplicities |
| `DupClaims.MirrorExact` | e2fsprogs/e2fsck/pass1b.c:121-170 | what is filed under the clusters mirrors the inodes' lists if and only if no two different claimed clusters are congruent modulo 2^32 |
| `DupClaims.CollisionWitness` | e2fsprogs/e2fsck/pass1b.c:107-116 | four claims on clusters 1 and 2^32 + 1: inode 11 is listed as sharing with 13 although they have no cluster in common |
| `DupClaims.Pass1b.AddDupe` | e2fsprogs/e2fsck/pass1b.c:121-170 | one claim more; every claiming inode has a node whatever the comparison does; inside the windows every node holds exactly what is filed under its key, with its counter |
| `DupClaims.Pass1b.ProcessBlock` | e2fsprogs/e2fsck/pass1b.c:375-428 | a duplicate block is submitted unless the block before lay in the same logical and physical cluster |
| `DupClaims.ClusterExact` | e2fsprogs/e2fsck/pass1b.c:389-390 | the cluster of a block is the one whose blocks include it |
| `DupClaims.Pass1b.ScanFile` | e2fsprogs/e2fsck/pass1b.c:375-428 | despite the skipping, a file claims exactly the multiply claimed clusters c with c * ratio <= block < (c + 1) * ratio for a block it visits |
| `DupClaims.Pass1b.Scan` | e2fsprogs/e2fsck/pass1b.c:290-373 | afterwards the claims are exactly the pairs of a file and a multiply claimed cluster, and the inode map is the inode dictionary's key set |
| `DupClaims.Pass1b.Collect` | e2fsprogs/e2fsck/pass1b.c:556-566 | each inode other than the file itself joins the shared list once, inside the allocation |
| `DupClaims.Pass1b.SharedWith` | e2fsprogs/e2fsck/pass1b.c:520-568 | the shared list never repeats and stays below the allocation; inside the windows it is exactly the other inodes that share a key, hence, without congruent clusters, those that share a cluster; file_ok and meta_data are exact |
| `DupClaims.SharedExact` | e2fsprogs/e2fsck/pass1b.c:550-566 | the shared list is true if and only if every inode with a cluster congruent to one of this inode's also shares one with it |
| `DupClaims.LookupWorks` | e2fsprogs/e2fsck/pass1b.c:538-542 | inside the windows the lookup that should never fail never fails, and finds everything filed under the key |
| `DupClaims.SharingIsBad` | e2fsprogs/e2fsck/pass1b.c:543-544 | sharing is symmetric, and a sharing file has a cluster with more than one claim filed |
| `Dictionary.AgreesExact` | e2fsprogs/e2fsck/pass1b.c:107-116 | the comparison agrees with the order of two keys if and only if they are equal or their distance modulo 2^32 lies in 1 to 2^31 - 1 |
| `Dictionary.CmpIsRank` | e2fsprogs/e2fsck/pass1b.c:107-116 | inside a window of 2^31 residues the comparison is the difference of the ranks |
| `Dictionary.FiledItems` | e2fsprogs/lib/support/dict.c:578-608 | filing changes one congruent node's value or adds one node, whatever the comparison makes of the keys |
| `Dictionary.FiledSorted` | e2fsprogs/lib/support/dict.c:578-608 | inside a window filing keeps the nodes sorted by rank |
| `Dictionary.LookupFinds` | e2fsprogs/lib/support/dict.c:470-503 | in a tree sorted inside a window a lookup fails only if no key is congruent |
| `Dictionary.ShapeExact` | e2fsprogs/lib/support/dict.c:470-503 | every shape of the tree finds every key if and only if the residues lie in one window of 2^31 and the nodes are sorted in it |
| `DirInfoTable.PlacedScan` | e2fsprogs/e2fsck/dirinfo.c:183-197 | an insertion overrides one inode and shifts the rest unseen |
| `DirInfoTable.ScanAt` | e2fsprogs/e2fsck/dirinfo.c:204-286 | in a sorted table a linear scan finds every slot's entry |
| `DirInfoTable.DirInfoDb.Grow` | e2fsprogs/e2fsck/dirinfo.c:143-160 | entries are kept and the cache dropped when the array moved |
| `DirInfoTable.DirInfoDb.MakeRoom` | e2fsprogs/e2fsck/dirinfo.c:188-191 | slots from the place on move up by one |
| `DirInfoTable.DirInfoDb.FindPlace` | e2fsprogs/e2fsck/dirinfo.c:183-187 | the backward search stops at the sorted place |
| `DirInfoTable.DirInfoDb.OpenSlot` | e2fsprogs/e2fsck/dirinfo.c:183-193 | the inode's own slot, or a new one at its sorted place |
| `DirInfoTable.DirInfoDb.Add` | e2fsprogs/e2fsck/dirinfo.c:130-198 | in order or not, a linear scan afterwards sees the new entry for that inode and the old ones elsewhere; the table stays sorted |
| `DirInfoTable.DirInfoDb.Get` | e2fsprogs/e2fsck/dirinfo.c:204-286 | up to 2^31 + 1 entries: through cache, end checks and bisection with a 32-bit sum the same entry as a linear scan, whatever moved under the cached slot |
| `DirInfoTable.WrappedTurn` | e2fsprogs/e2fsck/dirinfo.c:267-284 | with more than 2^31 + 1 entries a turn for the last inode but one, or one between it and the last, always leads to another turn with the same upper bound |
| `DirInfoTable.SearchNeverEnds` | e2fsprogs/e2fsck/dirinfo.c:267-284 | with more than 2^31 + 1 entries the search for the last inode but one, or one between it and the last, is still going on after any number of turns |
| `DirInfoTable.SearchEndsExact` | e2fsprogs/e2fsck/dirinfo.c:267-284 | every search ends if and only if there are at most 2^31 + 1 entries |
| `DirInfoTable.DirInfoDb.Iterate` | e2fsprogs/e2fsck/dirinfo.c:381-421 | entries in order; only the cache changes |
| `DirInfoTable.DirInfoDb.SetParent` | e2fsprogs/e2fsck/dirinfo.c:428-438 | one field of one entry, or 1 exactly when there is no entry |
| `DirInfoTable.DirInfoDb.SetDotdot` | e2fsprogs/e2fsck/dirinfo.c:445-455 | one field of one entry, or 1 exactly when there is no entry |
| `DirInfoTable.DirInfoDb.GetLinks` | e2fsprogs/e2fsck/dirinfo.c:462-487 | the stored links, or 1 exactly when there is no entry |
| `EncryptedFiles.AppendExact` | e2fsprogs/e2fsck/encrypted_files.c:290-344 | an append adds one inode to the map, changes nothing else and leaves the runs canonical |
| `EncryptedFiles.CanonicalUnique` | e2fsprogs/e2fsck/encrypted_files.c:290-344 | two canonical run lists with the same map are equal: the stored ranges are the only maximal run-length encoding |
| `EncryptedFiles.EncryptedFileInfo.Append` | e2fsprogs/e2fsck/encrypted_files.c:290-344 | accepted exactly when the inode is above all earlier ones; then the map gains it and capacity covers the runs |
| `EncryptedFiles.EncryptedFileInfo.Find` | e2fsprogs/e2fsck/encrypted_files.c:403-425 | bisection returns the appended policy, and NO_ENCRYPTION_POLICY for an inode that was never appended |

## Left out

- The estimate of the journal head after a write (`journal_guess_blocks`, `journal_close_trans`): floor divisions make it an estimate; the head comes from the scan.
- Opening, closing, loading and superblock handling of the journal, and the three-pass ordinary recovery, except for what a written transaction restores and revokes when it is walked.
- Checksum values: a checksum is an arbitrary function in the fast-commit scan and an arbitrary field value in the log blocks.
- The bitmap and block-iterator libraries: they are sequences and sets here. Of the extent-handle library the walk and the stored form of a leaf are modelled; insertion is not, and a tree that is written is the sequence of its leaves. Of the dictionary library, lookup and insertion are modelled and balancing is abstract. Quota and block-count updates are not modelled.
- Extent flags other than the uninit bit.
- Memory exhaustion, except in `src/map.c`, where it is part of the property.
- What the reader makes of output that follows an extent walk without any item.
- `parse_xfs_dir`, the XFS block query, partition, LVM and loop device discovery, and the directory listing through the kernel, which is a parameter.
- The database variant of the directory table (`CONFIG_TDB`).
- Cloning and deleting files with multiply claimed blocks, and the later decrements of the claim counts.
- The policy identifiers behind encrypted inodes (a tree of policies), and reading the encryption attribute.
- `ea_refcount` validation and the debugging mains.
- EditExactness.EditMeaning: physical blocks plus length stay below 2^64, and logical ends of the list at or below 2^33, which every 32-bit block and length meets.
- ExtentRebuild.RebuildList.Rewrite: a failing insertion into the tree, at which the source stops, is not modelled.
- FcReplay.RunAgrees: the files on disk are well-formed lists without a run of 2^32 blocks to begin with; `RebuildTheorem.CoalesceMeaning` says what reading does to others.
- FcRecovery.FcContext.FlushExtents: the early return for inodes with inline data and errors of the rewrite are not modelled.
- FcRecovery.FcContext.ReadExtents: the internal node blocks freed while reading are part of `ExtentRebuild.RebuildList.Load` only.
- FcRecovery.FcContext.HandleEntry: what the handlers do to directories and inodes is a library call; its outcome is a parameter.
- FcRecovery.FcContext.ScanBlock: a block is the sequence of its decoded records, each with the bytes its checksum covers; the walk over tags and lengths is not modelled.
- FcRecovery.FcContext.ReplayBlock: the same.
- JournalLayout.RestoreExact: the revoke test and the tag checksum test of replay are not modelled.
- JournalTransaction.Scan: looks at no more than a given number of blocks, because the source's loop need not end on a log in which every block carries the expected header; the sequence comparison and wrap are the source's.
- JournalTransaction.ScanFindsHead: for a transaction that does not run past the end of the journal, as the writer writes it; `JournalRing.ScanLog` is about those that do.
- ExtentTree.ExtentHandle.Next: read errors, header and checksum tests and the test for cycles are not modelled; the blocks form a finite tree.
- HiddenFiles.HiddenNames: says nothing about an extent of 4 GiB or more, of which the source parses the low 32 bits of its length.
- RegionAllocator.Region.Allocate: for ranges that do not wrap around the 64-bit address space and a count that is not negative.
- HashTable.Table.Resize: a chain is the sequence of its nodes; the relinking through `next` pointers is not modelled.
- HashTable.Table.Remove: the same.
- HiddenFiles.DumpBlocks: byte offsets are not reduced modulo 2^64, and a list that names more blocks than the buffer holds, which the source would write past its end, is not admitted.
- HiddenFiles.FindHidden: the branch for XFS is not modelled.
- BlockText.TakeToken: numbers of any size are read; the source's buffers hold 63 digits and its values 64 bits, and printed numbers come from 32- and 48-bit fields.
- BlockText.ReadLine: the same.
- DirInfoTable.DirInfoDb.Get: for at most 2^31 + 1 entries, beyond which the search need not end.
- DupClaims.Pass1b.SharedWith: one turn of the loop over the inodes, before anything is cloned or deleted; outside the windows of the comparison it says only what the lookups find.
- DupClaims.Pass1b.AddDupe: the balancing of the tree is any that keeps the nodes in their order; outside the windows the nodes' contents are not described.
- Refcount.RefcountTable.Search: the bounds are unbounded integers; the source adds them in an `int`, which overflows beyond 2^30 entries.
- FcBitmap.RunBits: blocks of the extent trees themselves, which reading frees and writing allocates, are not in the bitmap of the model; range tags name an inode other than 0.
