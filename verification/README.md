# A verified model of wwdedup

wwdedup is a deduplicating file system in user space. Files are cut into blocks of a fixed size; a block is
identified by its MurmurHash3, kept once however many files contain it, and counted. This project models the
parts of it that carry the guarantees, and proves what they guarantee and where that ends.

Verify everything with `dafny verify dfyconfig.toml` (Dafny 4.11).

## What is modelled

**The block store** (`StoreModel`, `StoreIntegrity`, `StoreExact`, `StoreCounts`, `StoreLookups`, `StoreSteps`,
`StoreRuns`, `StoreReuse`, `StoreBuffers`, `StoreRewrites`, `StorePasses`, `StoreAccess`, `FlatFiles`, `PlainRuns`,
`StoreLimits`, `StoreHashes`, `BlocksCache`, `OpenFiles`). Three layers of state: the tables `files`, `file_blocks`
and `block_hashes`; the write-back cache; the storage file. `StoreModel` gives every operation as a function from
state to state, with failed assertions, null pointers, failed reads and copies of negative lengths as the outcome
`Aborted`. `BlocksCache` holds the objects of the program (`storage_block`, `block_info`, `file_info`, cache and
database), updated in place, and proves that its methods and loops compute those functions; `OpenFiles` does so for
many open files at once. On the functions rest the theorems: integrity over every run; exact reference counts; and
the refinement of the store by sparse files and by plain byte strings, which is the statement that deduplication
does not show.

**The hashes** (`Bytes`, `Folds`, `Murmur3Mix`, `Murmur3`, `Murmur3Mix32`, `Murmur3x86`, `HashVectors`). The three
MurmurHash3 functions as loops, and the proof that every mixing step is a permutation, with the inverse given. So
one lane of the input and the digest determine each other when the rest is fixed. `HashVectors` has digests of given
keys, byte by byte, which fix what such laws leave open.

**SHA-1** (`Fips180`, `Sha1`, `Sha1Vector`). `Fips180` writes down FIPS 180-4, sections 4.1.1 to 6.1.2,
independently of the program; `Sha1` has the streaming object and proves it against that. `Sha1Vector` is the first
example of the standard.

**The directory tree** (`TreePaths`, `TreeModel`, `FileTree`). Paths are strings, as in the table, and the prefix
tests of the queries are prefix tests on strings. `FileTree` is the table with its row loops.

**The mounted file system** (`Unlinking`, `NamedTrees`, `NamedRuns`). Tree and store together: runs of calls on
paths and open files against a tree of byte strings.

**Definitions as text** (`SqlText`, `SqlDefinitions`, `HexText`). Printing and parsing of column and table
definitions, and hexadecimal text, each with the exact set of values that survives the way there and back.

## What the proofs found

The code keeps its promises under conditions that the theorems state. Each finding below names the lemma with
the exact condition, for all inputs, and the lemma with a concrete state on the wrong side of it.

- A block handle that filled a hole stays marked as empty. Once its pointer is gone, reading the block again
  through the same `file_info` gives zeros, although the data is stored. The pointer is gone if the store already
  had a block with that data, and otherwise once the writer thread evicts the new row, as it may when more than 500
  blocks are cached (`StoreLimits.WriteThenReread`; `StoreLimits.WrittenByteNotReread`,
  `StoreLimits.EvictedByteNotReread`). A second chunk written to that block through the handle lands on zeros, and
  the first chunk is lost (`StoreReuse.TwoWrites`; `StoreLimits.SecondChunkLosesFirst`).
- A block that a handle knows, but that was evicted, is cached anew with a count of 0. Its next lookup through
  a new handle fails the assertion on the counts, after reads alone (`StoreReuse.RelookupCounts`,
  `StoreReuse.NextLookup`; `StoreLimits.ReadsEndInAbort`). A write through such a handle leaves wrong counts
  (`StoreReuse.NamedChunkCounts`).
- Writing a block whose bytes do not change leaves the stored count one too low: the increment in the table is
  overwritten by the lowered count of the cached block (`StoreExact.ShareCounts`, `StoreCounts.NamedWriteCounts`;
  `StoreLimits.SameByteMiscounted`). A buffer that leaves one block as it is and then goes to another block with
  the same bytes fails the assertion on the counts, so that a file with two equal blocks cannot be written over
  with its own contents in one buffer through a new handle (`StoreRewrites.WriteBufOutcome`;
  `StoreLimits.RewriteAborts`). Once a block whose count is too low is evicted and looked up again, the count
  passes for exact, a block of two files passes for one file's own, and a write to one file destroys the other
  (`StoreExact.LinkedWriteView`; `StoreLimits.SharedBlockLost`).
- Truncating over a hole dereferences a null hash (`StoreBuffers.TruncateRefines`;
  `StoreLimits.HoleStopsTruncate`).
- Reading from behind the end of a file computes a negative length to copy (`StoreBuffers.ReadBufRefines`;
  `StoreLimits.ReadBehindEnd`).
- A write of nothing looks up the block at its offset all the same and writes it as it is: a hole gets a block of
  zeros, and an allocated block loses a count (`StoreBuffers.EmptyWrite`; `StoreLimits.EmptyWriteFillsHole`).
- A shrink inside a block leaves the old bytes behind the new end, and a later growth brings them back
  (`FlatFiles.ShrinkThenGrow`; `StoreLimits.CutByteReturns`).
- `rename` does not refuse a destination below the source that does not exist yet, nor a file as its own
  destination (`TreeModel.RenameExact`; `TreeModel.SiblingLost`, `TreeModel.OnlyFileLost`). The check commented
  as guarding against the first refuses siblings instead (`TreeModel.RenameOutcome`; `TreeModel.SiblingRefused`).
- A column that is NOT NULL and UNIQUE loses UNIQUE when its definition is parsed, and any primary key becomes
  the key column `_ID` (`SqlDefinitions.FieldRoundTrip`; `SqlDefinitions.UniqueLost`).

The comment in `_writeBlock` says that the database sets the use count of a released block to 0. The code
lowers it by one, and the model follows the code.

## How to read the theorems about the store

`Integrity` needs nothing but steps that complete, whatever the handles. Contents and counts need more. A handle
may use a block (`StoreExact.Usable`) if it has not used it before, or its entry for the block is that of a hole,
or the entry names the block's row and its pointer is alive, or can be set again because the entry does not count
as empty and the block is cached. `StoreReuse` proves when that holds again after a write or a pass, and that
after a read it always does. Further, a write changes the block and stays below the size, a release meets no hole,
and a file that is removed or shrunk has no blocks left above its new end (`StoreRuns.Allowed`). Blocks seen in a
run do not collide under the hash (`StoreRuns.CollisionFree`); `StoreHashes` proves that for the hash in use and
families of blocks that differ in one lane. Under these conditions `StoreRuns.AllowedRunRefines` speaks of runs of
block steps against sparse files, `PlainRuns.RunIsPlain` of runs of whole operations against byte strings, and
`NamedRuns.CallsArePlain` of runs of calls on paths and open files against a tree of byte strings. The steps are
atomic, and passes of the writer thread come between any two.

## Model

| member | source | states |
|---|---|---|
| StoreRuns.AllowedRunRefines | blockscache.cpp:163-364 | Over every run of block writes, reads, releases, size changes, opens and writer passes on any files in which handles, new or used, may use the blocks they use: no step fails, every read returns what a sparse map of blocks returns, and all counts stay exact |
| StoreRuns.NextRefines | database.cpp:422-556 | The same for one step: sharing, overwriting in place and allocating never change the bytes of another file |
| StoreRuns.EmptyStoreRefines | database.cpp:60-100 | The empty store stands for no files, so every run can start there |
| StoreRuns.RunKeepsIntegrity | database.cpp:422-489 | Over every run, reused handles included, no two rows of block_hashes share a hash and the bytes of each row (cached data, else its slot) hash to the hash recorded for it |
| StoreRuns.NextKeepsIntegrity | blockscache.cpp:134-191 | Every single step that completes keeps that integrity, and every handle stays well formed |
| StoreIntegrity.WriteBlockKeepsIntegrity | blockscache.cpp:163-191 | Writing a block keeps integrity in all three cases, for any entry of any handle |
| StoreIntegrity.GetKeepsIntegrity | blockscache.cpp:327-364 | Looking a block up changes nothing but the cache and no effective bytes |
| StoreIntegrity.PopulateKeepsIntegrity | blockscache.cpp:134-142 | Reading a slot into the cache always succeeds for a row and changes no effective bytes |
| StoreIntegrity.FlushKeepsIntegrity | blockscache.cpp:53-63 | Writing dirty blocks out changes no effective bytes |
| StoreIntegrity.EvictKeepsIntegrity | blockscache.cpp:79-84 | Forgetting clean blocks changes no effective bytes |
| StoreExact.UsableGet | blockscache.cpp:327-364 | Through a handle that is new or may use the block again the assertion that cached and stored counts agree never fails, every row of the file is found, and contents and counts stay |
| StoreExact.LinkedWriteView | blockscache.cpp:163-191 | Whatever counts and entry are, a block write stores its data and touches no other block if and only if it does not overwrite in place a row that another block has; else the other block is lost |
| StoreExact.ShareCounts | database.cpp:436-445 | Sharing a block keeps every count exact if and only if the file block did not have that hash already; if it had, the stored count ends up one below the number of references |
| StoreExact.OverwriteCounts | database.cpp:447-453 | With exact counts the in-place branch is taken by a sole owner only, and keeps every count exact |
| StoreExact.AllocateCounts | database.cpp:454-463 | Allocating a block keeps every count exact |
| StoreExact.WriteBlockView | blockscache.cpp:163-191 | After a block write that block of that file is the data written and every other block of every file is what it was |
| StoreCounts.NamedWriteCounts | database.cpp:422-489 | Through any entry that names the row of its block, and with that row counted right or wrong, counts are exact after a block write if and only if the entry has a pointer, the cached count is right and the hash changes, or it has none and the row was one too low |
| StoreSteps.WriteChunkStep | blockscache.cpp:193-213 | A chunk written through a handle that may use the block succeeds, splices the block and touches no other byte; counts stay exact if and only if the hash changes or the block was a hole |
| StoreReuse.NamedChunkCounts | blockscache.cpp:193-213 | Through any known entry that names the row of an allocated block a chunk keeps exact counts exact if and only if the handle may use the block and its hash changes |
| StoreSteps.ReadChunkStep | blockscache.cpp:240-274 | A chunk read through a handle that may use the block succeeds, returns that slice of it, zeros for a hole, changes no contents and no counts, and leaves the handle able to use it again |
| StoreSteps.ReleaseOutcome | database.cpp:491-521 | Through a handle whose entry is right or not there a release succeeds if and only if the block is allocated |
| StoreSteps.ReleaseEffect | blockscache.cpp:285-293 | A release lowers exactly one count by one, in the table and in the cache, and leaves all others |
| StoreSteps.ReleaseStep | database.cpp:491-521 | A release removes that block from the file and nothing else, and counts stay exact |
| StoreSteps.ResizeStep | database.cpp:231-241 | A size change moves no block, and keeps rows below the size when none lies above the new one |
| StoreSteps.PassStep | blockscache.cpp:44-92 | A writer pass, whatever it evicts, leaves contents and counts as they are |
| StoreSteps.WriteLeavesEntry | database.cpp:431-463 | What a write leaves in the entry of a handle: the row and the hash of the block, the old mark of emptiness, a pointer unless the block was shared |
| StoreSteps.UsableStays | blockscache.cpp:327-346 | A step on one block leaves a handle able to use every other block it could use |
| StoreSteps.RereadOutcome | blockscache.cpp:327-346 | Reading a block again through a reused handle returns its bytes if and only if the entry is not both marked empty and detached, or the bytes are zeros |
| StoreLookups.FirstRead | database.cpp:523-556 | A first read of a block in any store returns the bytes of its row, and zeros for a hole, behind the size that the handle knows and for a reference without a row; it fails if and only if the row is cached with another count |
| StoreLookups.FirstRelease | database.cpp:491-533 | A first release in any store completes if and only if the file has the block and the size that the handle knows reaches it |
| StoreLookups.LookupOutcome | blockscache.cpp:327-364 | In any store, when a lookup completes |
| StoreLookups.ReadOutcome | blockscache.cpp:310-325 | In any store, when a read completes: the lookup does, and the block can be read |
| StoreLookups.WriteOutcome | blockscache.cpp:193-213 | In any store, when a write completes: the lookup does, and the block can be read unless all of it is written |
| StoreLookups.SizeIsSet | database.cpp:231-241 | A size is set through a handle if and only if the handle does not take the file to have it already |
| StoreLookups.GetKeepsLabels | blockscache.cpp:350-357 | Cached blocks stay labelled with the hash of their row after a lookup, unless it caches a block under the hash of an entry that is out of date |
| StoreLookups.WriteKeepsLabels | blockscache.cpp:181-189 | Cached blocks stay labelled with the hash of their row after a write |
| StoreReuse.RelookupCounts | blockscache.cpp:346-362 | Looking a known block up again keeps the counts exact if and only if its entry counts as empty, its pointer is alive, or the block is cached or has no reference |
| StoreReuse.NextLookup | blockscache.cpp:346-362 | After a block was looked up again, the next handle of any file with that block can look it up if and only if the first entry counted as empty, its pointer was alive or the block was cached; else the assertion on the counts fails |
| StoreReuse.RereadExact | blockscache.cpp:327-362 | Reading a block again returns its bytes and keeps the counts exact if and only if the handle may use it, or its entry counts as empty and the block is zeros |
| StoreReuse.UsableAfterWrite | database.cpp:431-463 | After a write the handle may use the block again if and only if the block was not shared, or its entry did not count as empty and the shared block is cached |
| StoreReuse.UsableAfterPass | blockscache.cpp:79-84 | After a pass the handle may use a block again if and only if it is a hole or was not evicted, or was never used |
| StoreReuse.RewriteStep | blockscache.cpp:193-213 | A chunk written through an entry that names the row of its block lands on the bytes of the block, or on zeros if the entry counts as empty and has no pointer, and on no other block |
| StoreReuse.RewriteCounts | database.cpp:422-489 | The counts after such a chunk: exact if and only if the block is cached with the right count and its hash changes, or the entry counts as empty without a pointer and the row was one too low |
| StoreReuse.TwoWrites | blockscache.cpp:193-213 | Two chunks written through one handle, with or without a writer pass in between, are both in the block if and only if the first did not fill a hole with a block that some row had or that the pass evicted, or it leaves only zeros outside of the second; and when the counts are exact |
| StoreLimits.WriteThenReread | blockscache.cpp:193-213 | A chunk written and read again through one handle, with or without a writer pass in between, comes back if and only if its entry did not count as empty when the block was shared or evicted, or the block is zeros; and when the counts are exact |
| StoreLimits.WrittenByteNotReread | database.cpp:436-445 | A store of two files where a byte just written reads as zero through the handle that wrote it |
| StoreLimits.EvictedByteNotReread | blockscache.cpp:342-343 | A store where a new byte is written, its row evicted, and the byte reads as zero through the handle that wrote it |
| StoreLimits.SameByteMiscounted | database.cpp:469-473 | A store where writing a byte over itself makes the counts wrong, while integrity still holds |
| StoreLimits.RewriteAborts | blockscache.cpp:217-238 | A file of two blocks with the same bytes, written over with its own contents, which fails the assertion on the counts |
| StoreLimits.SharedBlockLost | database.cpp:436-473 | Two files share a block; one writes the same byte again, the block is evicted, the file writes another byte, and the other file reads zero instead of its byte |
| StoreLimits.ReadsEndInAbort | blockscache.cpp:350-360 | A file is read, its block evicted, and the file read again through the same handle; then the assertion on the counts fails for the next handle |
| StoreLimits.SecondChunkLosesFirst | blockscache.cpp:193-213 | Two bytes written one after the other through one handle, of which the first is lost |
| StoreLimits.CutByteReturns | blockscache.cpp:276-308 | A file cut inside a block and grown again has the byte that was cut |
| StoreLimits.ReadBehindEnd | blockscache.cpp:242-248 | A file of two bytes, read from behind its end |
| StoreLimits.HoleStopsTruncate | database.cpp:511-514 | A file with one hole that cannot be truncated |
| StoreLimits.EmptyWriteFillsHole | blockscache.cpp:217-238 | A write of nothing within a file that allocates a block for the hole at its offset |
| StoreBuffers.EmptyWrite | blockscache.cpp:217-238 | A write of nothing within a file does what a chunk of no bytes does, which `StoreSteps.WriteChunkStep` describes |
| StoreBuffers.WriteSplices | blockscache.cpp:217-238 | The chunks of a write tile its range once: in the range the buffer, everywhere else, in every file, the old bytes |
| StoreBuffers.ReadSlices | blockscache.cpp:240-274 | The chunks of a read are the slice of the bytes of the file |
| StoreBuffers.ReadBack | blockscache.cpp:217-274 | The step of the next row on the bytes of files: the slice of a range after the splice of a buffer there is the buffer |
| StoreBuffers.WriteThenRead | blockscache.cpp:217-274 | After `writeBuf`, `readBuf` of that range through a new handle returns the buffer |
| StoreBuffers.WriteBufRefines | blockscache.cpp:217-238 | `writeBuf` through a handle that may use the blocks it goes to succeeds, grows the file if needed, splices its bytes, keeps counts exact, and leaves the handle able to use the other blocks |
| StoreRewrites.WriteBufOutcome | blockscache.cpp:217-238 | For any buffer, through a handle that has not used the blocks it goes to, `writeBuf` fails if and only if some chunk goes to a block with bytes that an earlier chunk wrote over themselves; if it completes its bytes are spliced in, and the counts are exact if and only if every chunk changed its block or filled a hole |
| StoreRewrites.LoweredChunk | blockscache.cpp:350-360 | On a store in which some cached rows are counted one too low, a chunk to a block of such a row fails through an entry that is new, and any other chunk does what it does on exact counts |
| StoreRewrites.UnchangedChunk | database.cpp:436-473 | A chunk that leaves its block as it is leaves all counts exact but that of its row, which is one too low |
| StoreBuffers.ReadBufRefines | blockscache.cpp:240-274 | `readBuf` through a handle that may use the blocks it looks up succeeds if and only if it does not start behind the end of the file, returns the bytes up to that end, and can be repeated |
| StoreBuffers.ReleaseFromRefines | blockscache.cpp:285-293 | The loop of `truncate` completes if and only if it meets no hole, and then removes exactly those blocks |
| StoreBuffers.TruncateRefines | blockscache.cpp:276-308 | A shrinking `truncate` through a handle whose entries name the rows it releases completes if and only if all blocks from the new end to the old one are allocated; the rows left are those that begin below the new size |
| StoreBuffers.BlocksBelow | blockscache.cpp:283-284 | The block numbers computed with shifts are those of the blocks that begin below the size |
| FlatFiles.WriteIsPlain | blockscache.cpp:217-238 | On flat byte files a write is the plain one: zero-filled up to the offset, then the buffer, then the old rest |
| FlatFiles.GrowIsPlain | blockscache.cpp:280-282 | Growing a file appends zeros |
| FlatFiles.ShrinkIsPlain | blockscache.cpp:283-308 | Shrinking cuts the contents, and there are only zeros behind them if and only if the bytes left in the last block are zeros, as at a block boundary |
| FlatFiles.ShrinkThenGrow | blockscache.cpp:276-308 | After a shrink and a growth the file is cut and zero-filled if and only if the bytes left in the last block, as far as the growth reaches, are zeros; else they are back |
| FlatFiles.ShrinkByte | blockscache.cpp:283-308 | Byte by byte: what a shrink leaves in the last block |
| StoreHashes.LaneVariantsAreCollisionFree | blockscache.cpp:166-167 | Under the hash the store uses, blocks that pairwise differ in one 16-byte lane never collide |
| StoreHashes.HashOfZeroByte | blockscache.cpp:166-167 | The hash that a block of one zero byte is stored under |
| StoreHashes.SmallBlocksAreCollisionFree | blockscache.cpp:166-167 | Blocks of one size of at most 16 bytes never collide |
| StoreHashes.SmallBlocksAreSafe | blockscache.cpp:163-364 | With such blocks the run theorem, exact counts included, holds from the empty store on without any assumption on the hash |
| PlainRuns.RunIsPlain | blockscache.cpp:217-308 | Over every run of whole writes, reads, truncates, creates and writer passes through open handles that may use the blocks they go to: no operation fails, reads return what plain byte strings return, and the store holds exactly these strings in the end |
| PlainRuns.OperationIsPlain | blockscache.cpp:217-308 | The same for one operation |
| PlainRuns.PerformKeepsIntegrity | blockscache.cpp:217-308 | Whatever the handles, whole operations that complete keep the integrity of the store |
| PlainRuns.EmptyStoreHolds | database.cpp:60-100 | The empty store holds no files, so every such run can start there |
| NamedRuns.CallsArePlain | dedupfs.cpp:78-196 | Over every run of mkdir, create, open, write, read, truncate, unlink, rmdir and rename calls with writer passes in between, that the kernel makes and that are prudent: every call returns the code and the bytes that a tree of byte strings returns, and the table and the store hold exactly that tree in the end |
| NamedRuns.CallIsPlain | dedupfs.cpp:78-196 | The same for one call |
| NamedRuns.NewMountAgrees | database.cpp:45-58 | A new database is the tree with the root alone, so every such run can start there |
| NamedRuns.RepliedNumbers | dedupfs.cpp:145-173 | The numbers that opening, truncating and unlinking return for missing paths, directories and negative sizes |
| NamedRuns.WrittenIsRead | dedupfs.cpp:187-196 | Of the calls on the tree: a buffer written is read through every open file of that path, and its length is returned |
| NamedRuns.ResizedIsCut | dedupfs.cpp:312-315 | Of the calls on the tree: a file resized is cut, or longer by zeros |
| NamedRuns.CreatedIsEmpty | dedupfs.cpp:175-185 | Of the calls on the tree: a file created is open and empty, and a directory created and removed leaves no trace |
| NamedRuns.FileRemoved | dedupfs.cpp:83-94 | Unlinking a file without holes takes its path from the tree and its row and blocks from the store, and nothing else |
| NamedRuns.RenamedAgrees | database.cpp:133-181 | A rename to a place elsewhere that has no bytes moves paths, bytes and open files of the subtree, and nothing else |
| NamedTrees.RigidShows | database.cpp:161-180 | The row updates of a rename are the rename of the tree of byte strings |
| NamedTrees.RenameCodeShows | database.cpp:133-160 | The checks of a rename on the table return what the tree calls for |
| OpenFiles.DedupFS.Write | dedupfs.cpp:193-196 | On the objects, a write through one of many open files does what the operation on values does, and is not seen through the others |
| OpenFiles.DedupFS.Read | dedupfs.cpp:187-191 | The same for a read |
| OpenFiles.DedupFS.Ftruncate | dedupfs.cpp:312-315 | The same for a truncate; -EINVAL and no change for a negative size |
| OpenFiles.DedupFS.Open | dedupfs.cpp:160-173 | A new object for the file, apart from all that are open |
| OpenFiles.DedupFS.Pass | blockscache.cpp:44-92 | A pass lets the pointers of all open files to the evicted blocks expire, and changes nothing else of them |
| OpenFiles.DedupFS.OthersUnseen | dedup_types.h:91-103 | Open files share no table and no entry, and no operation through one changes the value of another |
| Unlinking.UnlinkRemovesFile | dedupfs.cpp:83-94 | A path of a file is unlinked if and only if the file has no hole; then its row and all its blocks are gone, counts are exact, the tree is a tree, and other files keep size and blocks |
| Unlinking.TruncateToNothing | blockscache.cpp:276-308 | Truncating to nothing removes all blocks of the file, if it has no hole, and none of another |
| Unlinking.StoredNeverCollide | database.cpp:432-436 | Among the blocks that are stored no two have one hash |
| StorePasses.PassProgress | blockscache.cpp:65-87 | A pass evicts at most 64 blocks, and some block if and only if more than 500 are cached and one of them was last accessed before ten seconds from now |
| StorePasses.PassChoice | blockscache.cpp:66-80 | Which blocks a pass evicts: those accessed less than ten seconds after the oldest access, and of these the 64 with the lowest numbers |
| StorePasses.UsedStays | blockscache.cpp:72 | A block accessed ten seconds or more after another cached block is not evicted |
| StoreAccess.ReadTouches | blockscache.cpp:310-325 | A read sets the access time of the block it reads to the present, and of no other block |
| StoreAccess.WriteTouches | blockscache.cpp:193-213 | A write sets the access time of the block its entry pointed to, and of a new block, to the present, and of no other |
| StoreAccess.ReadBlockStays | dedup_types.h:59 | A block just read stays cached through the next pass, and the pointer to it alive, if some cached block was not accessed for ten seconds |
| StorePasses.PassesCompose | blockscache.cpp:44-92 | Two passes are one pass that evicts what either evicts |
| StorePasses.SomeEvicted | blockscache.cpp:65-87 | With more than 500 blocks cached and none accessed in the far future a pass makes the cache smaller |
| BlocksCache.BlockStore.LoadFileBlock | database.cpp:523-556 | The entry and use count for a block of a file, as the tables have it |
| BlocksCache.BlockStore.ReplaceStorageBlock | database.cpp:422-489 | Tables, cached counts and entry after sharing, overwriting or allocating; nothing else changes |
| BlocksCache.BlockStore.GetLockedFileBlock | blockscache.cpp:327-364 | The new state of cache and handle, or that the assertion on counts fails |
| BlocksCache.BlockStore.PopulateStorageBlock | blockscache.cpp:134-142 | The slot is in the cache, or the read fails |
| BlocksCache.BlockStore.WriteBlock | blockscache.cpp:163-191 | The whole new state of store and handle after `_writeBlock` |
| BlocksCache.BlockStore.WriteBlockWrapper | blockscache.cpp:193-213 | The whole new state after one chunk, and when it fails |
| BlocksCache.BlockStore.GetStorageBlock | blockscache.cpp:310-325 | The cached block, touched, or a block that is no slot's |
| BlocksCache.BlockStore.ReadBlock | blockscache.cpp:248-257 | State and bytes after one chunk of a read, and when it fails |
| BlocksCache.BlockStore.ReleaseStorageBlock | database.cpp:491-521 | State and block number after a release, and when it fails |
| BlocksCache.BlockStore.ReleaseBlock | blockscache.cpp:285-293 | State after a release in tables and cache |
| BlocksCache.BlockStore.Ftruncate | database.cpp:231-241 | New size in table and handle, or -EINVAL and no change |
| BlocksCache.BlockStore.WriteBuf | blockscache.cpp:217-238 | The chunk loop computes the recursive function the theorems are about; its assertion on block numbers holds |
| BlocksCache.BlockStore.ReadBuf | blockscache.cpp:240-274 | The chunk loop computes the recursive function the theorems are about, and fails behind the end of the file; its assertion on block numbers holds |
| BlocksCache.BlockStore.Truncate | blockscache.cpp:276-308 | The release loop computes the recursive function the theorems are about; -EINVAL for negative sizes |
| BlocksCache.BlockStore.FlushBlocks | blockscache.cpp:53-63 | All dirty blocks are in their slots and clean, and the oldest access is found |
| BlocksCache.BlockStore.FindOld | blockscache.cpp:66-79 | The up to 64 lowest-numbered blocks older than the oldest access plus ten seconds |
| BlocksCache.BlockStore.WriterPass | blockscache.cpp:44-92 | State after a pass: flushed, the chosen blocks evicted, the weak pointers to them expired |
| BlocksCache.BlockStore.RepeatPasses | blockscache.cpp:47-86 | The repeat loop ends, with at most 500 blocks cached, and is together one flush and one eviction |
| BlocksCache.BlockStore.OtherHandles | dedup_types.h:79-102 | Operations through one handle leave the value of every other handle alone; expired pointers stay expired when a block is cached anew |
| BlocksCache.BlockStore.OtherHandlesExpire | blockscache.cpp:79-84 | A pass lets the pointers of every handle to evicted blocks expire, and changes nothing else of it |
| Murmur3.LaneBijection | MurmurHash3.cpp:255-332 | Between fixed bytes and for a fixed seed, x64_128 is a bijection from one aligned 16-byte lane to the digests, with the preimage computed |
| Murmur3.OneLaneNeverCollides | MurmurHash3.cpp:255-332 | Keys of one length that differ in one aligned lane have different digests |
| Murmur3.TailNeverCollides | MurmurHash3.cpp:289-314 | Keys of one length that differ only in the last bytes have different digests |
| Murmur3.SeedsNeverCollide | MurmurHash3.cpp:261-262 | One key under two seeds never has one digest |
| Murmur3.AppendedZerosNeverCollide | MurmurHash3.cpp:319 | Zeros appended within the last lane change the digest, which only the length tells apart |
| HashVectors.LaneAndTailDigest | MurmurHash3.cpp:255-332 | The sixteen digest bytes of the bytes 1 to 31, a lane and a tail, under the seed of the store |
| HashVectors.ZeroByteDigest | MurmurHash3.cpp:289-332 | The sixteen digest bytes of one zero byte |
| Murmur3.Accumulate | MurmurHash3.cpp:255-328 | The loop, the tail switch and the finalization compute the hash function that the theorems and the digests of `HashVectors` are about |
| Murmur3.MurmurHash3_x64_128 | MurmurHash3.cpp:255-332 | The sixteen digest bytes are written to `out`, and nothing behind them |
| Murmur3.TailSwitch | MurmurHash3.cpp:289-314 | Falling through the cases mixes in the little-endian words of the zero-padded tail |
| Murmur3.TailWord1 | MurmurHash3.cpp:305-312 | The first eight cases load the first word of the padded tail |
| Murmur3.TailWord2 | MurmurHash3.cpp:296-302 | The other cases load the second word of the padded tail |
| Murmur3Mix.StepPermutesStates | MurmurHash3.cpp:272-284 | For a fixed lane the body step is a permutation of the states |
| Murmur3Mix.StepPermutesLanes | MurmurHash3.cpp:272-284 | For a fixed state the body step is a bijection from lanes to states |
| Murmur3Mix.TailPermutesLanes | MurmurHash3.cpp:294-314 | For a fixed state the tail is a bijection from padded lanes to states |
| Murmur3Mix.FinalizePermutes | MurmurHash3.cpp:319-328 | Finalization is a permutation of the states for every length |
| Murmur3Mix.UnfmixFmix | MurmurHash3.cpp:81-90 | `fmix64` is undone by the function that runs its steps backwards |
| Folds.FoldPermutes | MurmurHash3.cpp:272-284 | A loop of steps that are permutations is a permutation of the accumulators for fixed input words |
| Folds.OneWordDecides | MurmurHash3.cpp:272-284 | Between fixed words, one word and the outcome of the loop determine each other |
| Murmur3x86.BlockBijection | MurmurHash3.cpp:94-143 | Between fixed bytes, x86_32 is a bijection from one aligned 4-byte block to the digests |
| Murmur3x86.Lane4Bijection | MurmurHash3.cpp:147-251 | Between fixed bytes, x86_128 is a bijection from one aligned 16-byte lane to the digests |
| Murmur3x86.Seeds32NeverCollide | MurmurHash3.cpp:94-100 | One key under two seeds never has one x86_32 digest |
| Murmur3x86.Seeds128NeverCollide | MurmurHash3.cpp:153-156 | One key under two seeds never has one x86_128 digest |
| Murmur3x86.AppendedZeros32NeverCollide | MurmurHash3.cpp:137 | Zeros appended within the last block change the x86_32 digest |
| Murmur3x86.AppendedZeros128NeverCollide | MurmurHash3.cpp:229 | Zeros appended within the last lane change the x86_128 digest |
| HashVectors.BlockAndTailDigest | MurmurHash3.cpp:94-143 | The four x86_32 digest bytes of the bytes 1 to 7, a block and a tail |
| HashVectors.LaneAndTailDigest128 | MurmurHash3.cpp:147-251 | The sixteen x86_128 digest bytes of the bytes 1 to 31, a lane and a tail |
| Murmur3x86.Accumulate32 | MurmurHash3.cpp:94-139 | The loop with its negative index computes the hash function the theorems are about |
| Murmur3x86.MurmurHash3_x86_32 | MurmurHash3.cpp:94-143 | The four digest bytes are written to `out`, and nothing behind them |
| Murmur3x86.Accumulate128 | MurmurHash3.cpp:147-246 | The loop with its negative index and chained additions computes the hash function the theorems are about |
| Murmur3x86.MurmurHash3_x86_128 | MurmurHash3.cpp:147-251 | The sixteen digest bytes are written to `out`, and nothing behind them |
| Murmur3x86.Tail32NeverCollides | MurmurHash3.cpp:124-134 | Keys of one length that differ only in the last bytes have different x86_32 digests |
| Murmur3x86.Tail128NeverCollides | MurmurHash3.cpp:198-225 | Keys of one length that differ only in the last bytes have different x86_128 digests |
| Murmur3x86.TailSwitch128 | MurmurHash3.cpp:196-225 | Falling through the cases mixes in the words of the zero-padded tail |
| Murmur3Mix32.WordStepPermutes | MurmurHash3.cpp:110-121 | The x86_32 body step is a permutation of the state for a fixed block and of the block for a fixed state |
| Murmur3Mix32.Step4Permutes | MurmurHash3.cpp:170-194 | The x86_128 body step is a permutation of the state for a fixed lane and of the lane for a fixed state |
| Murmur3Mix32.FmixPermutes | MurmurHash3.cpp:68-77 | `fmix32` is a permutation |
| Murmur3Mix32.Finalize4Permutes | MurmurHash3.cpp:229-241 | Finalization of x86_128 is a permutation of the states for every length |
| Sha1.HashPieces | easySQLite/SHA1.cpp:54-199 | For every message and every split into `Update` calls the digest is the SHA-1 of the concatenation |
| Sha1Vector.Abc | easySQLite/SHA1.h:64-65 | The digest of "abc", as the standard and the header print it |
| Sha1.CSHA1.Transform | easySQLite/SHA1.cpp:67-106 | The circular schedule and the 80 unrolled rounds with rotating roles are the loop of section 6.1.2 of FIPS 180-4 |
| Sha1.CSHA1.Update | easySQLite/SHA1.cpp:109-134 | Whole blocks are absorbed, the rest is in the buffer, and the count words are the length in bits with carry |
| Sha1.CSHA1.CountBits | easySQLite/SHA1.cpp:113-116 | The split addition with its overflow test counts bits modulo 2^64 |
| Sha1.CSHA1.PadWithZeros | easySQLite/SHA1.cpp:193-194 | The padding loop ends after the number of zero bytes of section 5.1.1 of FIPS 180-4 |
| Sha1.CSHA1.Final | easySQLite/SHA1.cpp:182-199 | The digest of the message, padded as in section 5.1.1 of FIPS 180-4 |
| Sha1.CSHA1.Reset | easySQLite/SHA1.cpp:54-65 | The initial hash value of section 5.3.1 of FIPS 180-4, and nothing counted |
| Sha1.CSHA1.WriteDigest | easySQLite/SHA1.cpp:198-199 | The digest bytes are the big-endian bytes of the state |
| Sha1.CSHA1.Reschedule | easySQLite/SHA1.cpp:32-33 | A slot of the circular schedule takes the next word of the 80-word schedule |
| Sha1.ChAgrees | easySQLite/SHA1.cpp:36-37 | The rewritten Ch is the one of section 4.1.1 of FIPS 180-4 |
| Sha1.MajAgrees | easySQLite/SHA1.cpp:39-39 | The rewritten Maj is the one of section 4.1.1 of FIPS 180-4 |
| Sha1.SwapReadsBigEndian | easySQLite/SHA1.cpp:26-27 | The byte swap of a word loaded little-endian is the big-endian word |
| Sha1.CarryLaw | easySQLite/SHA1.cpp:113-116 | The overflow test sees exactly the carry |
| Sha1.CountBytesAreLength | easySQLite/SHA1.cpp:186-189 | The eight count bytes are the length in bits, big-endian |
| Fips180.PadFillsBlocks | easySQLite/SHA1.cpp:191-196 | A padded message is a whole number of blocks |
| Fips180.AbsorbConcat | easySQLite/SHA1.cpp:119-133 | Absorbing a message in two parts is absorbing it at once |
| TreeModel.RenameExact | database.cpp:133-181 | A rename that returns 0 moves the subtree rigidly and leaves a tree if and only if the new path is neither the old one nor inside it |
| TreeModel.RenameMoves | database.cpp:133-181 | Every path under the old one goes to the same suffix under the new one with its key and at its depth; the old destination is gone; the rest stays |
| TreeModel.RigidKeepsTree | database.cpp:161-179 | Such a move keeps paths unique, depths right and every path in a directory |
| TreeModel.ThereAndBack | database.cpp:133-181 | Renaming to a free path and back restores every row |
| TreeModel.RenameOutcome | database.cpp:133-160 | When a rename is carried out, in terms of the tree; otherwise nothing changes |
| TreeModel.RenameNumbers | database.cpp:133-160 | The number that `rename` returns for every table and pair of paths |
| TreeModel.ReturnedNumbers | database.cpp:183-211 | The numbers that `create`, `Unlink` and `Rmdir` return |
| TreeModel.RenameToItself | database.cpp:144-159 | A file renamed to itself is gone |
| TreeModel.RenameBelowItself | database.cpp:133-181 | A directory renamed below itself leaves paths without directories |
| TreeModel.OnlyFileLost | database.cpp:144-159 | A table of one file that is lost when it is renamed to itself |
| TreeModel.SiblingLost | database.cpp:133-181 | A table in which a directory is renamed below itself, with success |
| TreeModel.SiblingRefused | database.cpp:151-152 | The prefix check refuses a sibling whose name begins with the name of the source |
| TreeModel.TargetVacant | database.cpp:144-159 | When the checks pass, nothing is at the destination or below once the old one is dropped |
| TreeModel.EmptyMeansNothingBelow | database.cpp:291-302 | A directory counts as empty if and only if nothing is below it at any depth |
| TreeModel.ListedAreChildren | database.cpp:304-329 | A listing matches exactly the paths whose parent is the directory |
| TreeModel.RunKeepsTree | database.cpp:133-219 | Over every run of creates, unlinks, removals and guarded renames the table stays a tree |
| TreeModel.CreateKeepsTree | database.cpp:183-211 | `create` keeps the tree |
| TreeModel.RootMakesTree | database.cpp:53-57 | Creating the root in an empty table makes a tree |
| TreeModel.UnlinkKeepsTree | dedupfs.cpp:83-94 | `Unlink` keeps the tree |
| TreeModel.RmdirKeepsTree | dedupfs.cpp:96-104 | For any path `Rmdir` keeps the tree if and only if it does not remove the root |
| TreeModel.RmdirOfNothing | dedupfs.cpp:96-104 | For a path that does not exist `Rmdir` changes nothing, and returns what an uninitialised mode makes of it |
| TreeModel.AncestorsExist | database.cpp:133-219 | All directories on the way to a path exist |
| TreePaths.DirectChild | database.cpp:293-297 | Below a directory and one deeper means: its parent is the directory |
| TreePaths.MovedParent | database.cpp:166-171 | Replacing the front of paths keeps who is whose parent |
| TreePaths.Moved | database.cpp:166-171 | Replacing the front of a path shifts its depth by the depth difference |
| FileTrees.FileTree.GetByPath | database.cpp:110-131 | The key of the row with that path, or 0 |
| FileTrees.FileTree.Create | database.cpp:183-211 | Result code and table after `create` |
| FileTrees.FileTree.Unlink | dedupfs.cpp:83-94 | Result code and table after `Unlink` |
| FileTrees.FileTree.Rmdir | dedupfs.cpp:96-104 | Result code and table after `Rmdir` |
| FileTrees.FileTree.Readdir | database.cpp:304-329 | The keys of the direct children, each once |
| FileTrees.FileTree.MoveBelow | database.cpp:161-174 | The row loop of `rename`: every update meets the constraint that paths are unique |
| FileTrees.FileTree.Rename | database.cpp:133-181 | Result code and table after `rename` |
| SqlDefinitions.TableRoundTrip | easySQLite/SqlFieldSet.cpp:70-85 | A table comes back from its definition if and only if all names are single words without commas and each column is the key column or a plain INTEGER, TEXT, REAL or BLOB column with at most one of NOT NULL and UNIQUE |
| SqlDefinitions.FieldRoundTrip | easySQLite/SqlField.cpp:95-189 | The same for one column |
| SqlDefinitions.FieldReparses | easySQLite/SqlField.cpp:111-189 | Which column comes back from the definition of a column with a proper name |
| SqlDefinitions.UniqueLost | easySQLite/SqlField.cpp:148-170 | A column that is NOT NULL and UNIQUE, and comes back without UNIQUE |
| SqlDefinitions.TypeTexts | easySQLite/SqlField.cpp:66-77 | The text of a plain column of each type |
| SqlDefinitions.FlagTexts | easySQLite/SqlField.cpp:95-109 | The text that each combination of flags adds |
| SqlDefinitions.TablesJoin | easySQLite/SqlFieldSet.cpp:70-85 | The definition of two lists of columns is that of one, a comma and a blank, and that of the other |
| SqlDefinitions.ParsedColumn | easySQLite/SqlField.cpp:111-189 | What any definition of four words or more is parsed to: flags are searched in the third and fourth word as one text |
| SqlDefinitions.ParsedShortColumn | easySQLite/SqlField.cpp:111-189 | What definitions of two and three words are parsed to |
| SqlDefinitions.SecondWordIsUnique | easySQLite/SqlField.cpp:167-170 | A flag that is the second of two words is found |
| SqlDefinitions.PhraseAroundBlank | easySQLite/SqlField.cpp:156-165 | A flag of two words is found in two words if and only if it lies around the blank between them |
| SqlDefinitions.WordInEither | easySQLite/SqlField.cpp:167-170 | A flag of one word is found in two words if and only if it is found in one of them |
| SqlDefinitions.PartIsFound | easySQLite/SqlField.cpp:156-170 | A text is found between any other texts |
| SqlDefinitions.FoundIsPart | easySQLite/SqlField.cpp:156-170 | What is found is a part of the text searched |
| SqlDefinitions.GetTableDefinition | easySQLite/SqlFieldSet.cpp:70-85 | The loop prints the definition whose text `TablesJoin`, `TypeTexts` and `FlagTexts` write out |
| SqlDefinitions.CreateTable | easySQLite/SqlFieldSet.cpp:110-132 | The loop parses as the function the theorems are about |
| SqlDefinitions.GetDefinition | easySQLite/SqlField.cpp:95-109 | The appended parts are the definition whose text `TypeTexts` and `FlagTexts` write out |
| SqlDefinitions.CreateField | easySQLite/SqlField.cpp:111-189 | The column that `ParsedColumn` and `ParsedShortColumn` describe |
| SqlText.ListToVector | easySQLite/SqlCommon.cpp:250-269 | The trimmed tokens between separators |
| SqlText.TrimOf | easySQLite/SqlCommon.cpp:207-245 | Blanks are removed at both ends |
| SqlText.TrimsBlanks | easySQLite/SqlCommon.cpp:207-245 | Exactly blanks, tabs, line ends, vertical tabs and form feeds are removed at both ends |
| SqlText.FirstToken | easySQLite/SqlCommon.cpp:259-266 | What precedes a separator is the first token |
| HexText.HexRoundTrip | easySQLite/SqlCommon.cpp:147-185 | `hexToBin` returns bytes for text if and only if the text is the upper-cased output of `binToHex` for them |
| HexText.PrintedDigits | easySQLite/SqlCommon.cpp:147-163 | The text of bytes, digit by digit |
| HexText.Accepted | easySQLite/SqlCommon.cpp:165-185 | Text is accepted if and only if its length is even and all of it are digits 0-9A-F |
| HexText.HexTextToBin | easySQLite/SqlCommon.cpp:165-185 | The loop over pairs with its table search computes that |
| HexText.LowerBound | easySQLite/SqlCommon.cpp:176-180 | The binary search finds the first table entry not below the character |
| HexText.FoundDigit | easySQLite/SqlCommon.cpp:176-180 | The entry found is the character if and only if it is a digit, and its position is the value |
| HexText.BinToHexText | easySQLite/SqlCommon.cpp:147-163 | The loop prints the text that `PrintedDigits` describes |

## Left out

- Concurrency inside a step: block locks, the unlock between choosing and erasing blocks at
  blockscache.cpp:79, threads using one handle at once, and the reclamation scheme of the skip lists.
- StoreRuns.AllowedRunRefines: is about runs that are allowed and whose handles may use their blocks. What happens otherwise is proved for single uses: the exact condition for counts after a lookup (`StoreReuse.RelookupCounts`), after a write through any entry that names the row of its block, right counts or wrong (`StoreCounts.NamedWriteCounts`, `StoreReuse.RewriteCounts`), for a reread (`StoreReuse.RereadExact`), for a write and a reread and for two writes, with a writer pass in between or not (`StoreLimits.WriteThenReread`, `StoreReuse.TwoWrites`; more passes are one by `StorePasses.PassesCompose`), and for the outcome of a release (`StoreSteps.ReleaseOutcome`). Longer runs after a count has gone wrong are covered by the integrity theorems alone.
- StoreSteps.ReadChunkStep, StoreSteps.WriteChunkStep and the theorems on whole buffers: for a handle whose entry names another row than that of the block, as one has when another handle writes the file, nothing is claimed but integrity.
- StoreRuns.CollisionFree: the hash is a parameter that tells the blocks of a run apart; `StoreHashes` discharges this for the hash in use on some families of blocks only, since no 128-bit hash tells all blocks apart.
- BlocksCache.BlockStore.WriterPass: is one pass on a cache that nobody else changes meanwhile, visiting blocks by their numbers as the skip list does; waiting, sleeping, signals and the end of the thread are not modelled.
- BlocksCache.BlockStore.RepeatPasses: leaves out blocks that are inserted between passes.
- BlocksCache.BlockStore.GetLockedFileBlock: takes the clock as a parameter, like all operations that touch a block; a chunk loop uses one reading of it.
- BlocksCache.BlockStore.PopulateStorageBlock: a slot is read whole or the read fails; the source leaves the buffer resized when it throws, the model leaves it unread.
- TreeModel.Unlink: takes the result of `truncate` as a parameter; `Unlinking` and `NamedRuns` put in what the store makes of it.
- FileTrees.FileTree.GetByPath: gives the key of the row; of its other columns the model has path, depth and kind, and the size in the store. The same holds for FileTrees.FileTree.Readdir.
- TreeModel.Below: `LIKE` is a prefix test, which holds for names without `%`, `_` and differences of case only.
- TreeModel.RunKeepsTree: leaves out what the kernel refuses before the file system sees it: removing the root, and renaming to the path itself or below it.
- Sha1.CSHA1.Update: takes pieces whose length and buffer position sum to less than 2^32, where the 32-bit sum does not wrap; messages are shorter than 2^64 bits.
- Sha1.CSHA1.Final: does not wipe the object after the digest is there.
- Murmur3.MurmurHash3_x64_128: keys are shorter than 2^31 bytes and words are read little-endian, and so for the other two variants.
- SqlDefinitions.TableRoundTrip: strings hold no zero bytes; the index of a column and the map from names to columns are not part of a definition.
- 64-bit overflow of sizes, offsets, row keys and counts: they are integers.
- The block size is the configured one, although `DataBase` reads it through a cast of the FUSE context.
- SQLite and its wrappers, transactions that roll back, crashes, and the opening and signing of the storage file.
- NamedRuns.CallsArePlain: leaves out a rename over a file with bytes in it, which drops the row and leaves the blocks, and what the kernel does not ask for: removing an open file or what does not exist, reading behind the end, renaming a path into itself. Errors of a call are its return codes, checked in the order of the source.
- StoreBuffers.WriteBufRefines, StoreBuffers.WriteThenRead: ask that the buffer changes every allocated block it goes to; `StoreRewrites.WriteBufOutcome` has the outcome for any buffer, through a handle that has not used the blocks.
- The FUSE entry points that only pass calls on, attributes, times, and everything under `#if 0`.
