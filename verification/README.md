# Verified model of an SST compactor

This project models the in-memory compaction pipeline of a small RocksDB-style SST compactor and proves
it correct, layer by layer and end to end:

1. **K-way merge.** A loser-tree merger (a tournament kept in an array, replayed along one path per
   emitted entry) and a heap merger. Both are classes over mutable sources, proved to emit a sorted
   interleaving of their inputs; with distinct keys there is only one such interleaving.
2. **Compaction.** A walk over the merge output asks a strategy (bottommost, snapshot-aware,
   passthrough) what to keep. What is kept is characterised without the walk, as a property of the set
   of versions; from there follow exactly when an independent map-based oracle agrees, exactly which
   point reads are preserved, and that compactions compose and are idempotent.
3. **Sharding.** Sources are cut at common user-key boundaries; the shards' outputs in shard order are
   the unsharded output.
4. **Blocks.** Prefix-compressed data blocks, index blocks with delta-encoded handles, restart arrays,
   varints and zigzag, block trailers, footer and metaindex. Writers and readers are separate loops,
   each proved against a specification; the specifications undo each other, and lemmas say byte by byte
   what stands where and what each checksum covers.
5. **Files.** Building a file and reading it back from memory is the identity on entries, a data block
   changed in a way its hash notices stops the loading, and lookup
   through the index finds what a linear search finds; so a point read through a compacted file finds
   what it would find among the merged sources, exactly when compaction promises it. `Pipeline` joins
   all layers: compact sources to bytes and read the bytes back, sharded or not.

Methods carry the loops, buffers and object updates of the program and are proved equal to pure
functions; the lemmas are about those functions. One module stands in each file:

- foundations: `Wrappers`, `ByteStrings`, `Lists`, `Varint`, `InternalKeys`, `Comparators`
- merge: `Merging` (what a merge is), `Sources`, `Tournament` (loser trees as sequences),
  `MergeInputs`, `LoserTree`, `HeapMerge`
- compaction: `Strategy`, `Compaction`, `SnapshotReads`, `Oracle`, `Sharding`
- file format: `Blocks`, `DataBlock`, `IndexBlock`, `BlockTrailer`, `Footer`, `Metaindex`
- files: `SstBuilder`, `SstLoader`, `Corruption`, `IndexSeek`, `PointReads`, `Pipeline`, `Ingest`, `SizeLimits`

`dafny verify dfyconfig.toml` checks everything.

## How the code is represented

- Bytes are integers 0..255, `u32`/`u64`/`i64` are bounded integers, and truncation and wrap-around are
  written out (`AsU32`, `WrapU64`, `WrapI64`, `% U64_LIMIT`). Or-ing disjoint bit groups is addition,
  exclusive-or is defined bit by bit, and zigzag is given by its arithmetic meaning.
- Hash functions, decompressors and the properties encoder are parameters (`Foreign`,
  `propertiesBlock`), so every theorem holds for all of them.
- A callback `f(key, value)` becomes the list of pairs handed to it. The comparator and strategy traits
  are datatypes with one case per implementation; `PrefixedBytewise` stands for any byte-comparable
  comparator that switches the prefix shortcut on.
- The standard library's binary heap, ordered map, stable sort, `partition_point` and sorted-vector
  lookup appear as "take out some greatest entry", a list in ascending key order, an insertion sort, a
  binary search and membership.
- Preconditions are those of the program: internal keys have at least 8 bytes, sources are sorted,
  arena and file totals stay below 2^32 because spans and restarts are 32-bit (`SizeLimits` derives this
  from the number and size of the inputs), a file handed to the
  loader has at least the footer's 53 bytes, sources given to sharding have not been advanced. Distinct
  internal keys are required only where an output is named by the set of versions it comes from
  (`CompactedSurvivors` and what follows from it: composition, the oracle's exact condition over the
  sources, and the equality of sharded and unsharded output); everything else holds of any sorted merge
  output, the same key twice included.

## Where code and comments disagree

- `crates/oracle/src/lib.rs:58-64` says `>=` keeps the tie-break independent of input order. The code
  keeps whichever version came first: `Oracle.SharedSequenceDiffers` swaps two sources and gets another
  answer, and `Oracle.OrderIndependentIff` says when no order matters, namely if and only if all versions
  tied for a user key's greatest sequence number have the same outcome. The merge prefers the greater
  type byte instead, so compaction and oracle agree if and only if, at every user key, the newest version
  and the one the oracle met first have the same outcome (`Oracle.CompactionAgreesIff`, and
  `Oracle.OracleAgreesIff` where internal keys repeat). Without shared sequence numbers they always do
  (`Oracle.CompactionRefinesOracle`).
- `crates/compactor/src/compaction/strategy.rs:92-101` says readers newer than the snapshot see the
  newest version. That is true of reads at or above the newest version, not of those between it and the
  snapshot: `SnapshotReads.MiddleReadLost` loses one, and `SnapshotReads.ReadPreservedIff` says exactly
  which reads are preserved. The same comment would keep tombstones that are not newer than the
  snapshot: `SnapshotReads.OldTombstoneDropped` has one that is dropped, and
  `Compaction.TombstoneSurvivesIff` says which stay.
- `crates/compactor/src/format/footer.rs:55-58` says moved blocks get distinct checksums. They do
  exactly when the offset halves add up differently (`BlockTrailer.ModifierDistinguishes`,
  `BlockTrailer.MovedBlockCollides`); for offsets below 2^32 that is always
  (`BlockTrailer.SmallOffsetsDistinguished`).
- `crates/compactor/src/format/block_builder.rs:54` and `:138` require ascending keys. The round trips
  need no order, so none is assumed.

## Model

| member | source | states |
|---|---|---|
| LoserTree.LoserTreeMerger.constructor | crates/compactor/src/merge/merger.rs:230-241 | for any number of sources, none included, construction ends with a finished tournament over the sources' current fronts, on the least power of two of leaves that has room for them |
| LoserTree.NextPowerOfTwo | crates/compactor/src/merge/merger.rs:231 | the least exponent whose power of two is not below the number |
| LoserTree.LoserTreeMerger.PeekAt | crates/compactor/src/merge/merger.rs:163-169 | padding leaves and exhausted sources show nothing, any other leaf its source's front |
| LoserTree.LoserTreeMerger.Less | crates/compactor/src/merge/merger.rs:171-178 | decides the match of two leaves as the comparator orders their fronts, an empty leaf losing to any other |
| LoserTree.LoserTreeMerger.PlayMatch | crates/compactor/src/merge/merger.rs:191-197 | plays the match of two played subtrees, right child on ties, and so the parent's |
| LoserTree.LoserTreeMerger.BuildSubtree | crates/compactor/src/merge/merger.rs:185-198 | every match in the subtree is played by the true winners of its children, nothing outside changes, and the subtree's winner is returned |
| LoserTree.LoserTreeMerger.Build | crates/compactor/src/merge/merger.rs:200-202 | afterwards the whole tree is a finished tournament |
| Tournament.FrontLessIs | crates/compactor/src/merge/merger.rs:171-178 | a front wins a match exactly when it is there and the other is not, or the comparator puts it strictly first |
| LoserTree.LoserTreeMerger.ReplayMatch | crates/compactor/src/merge/merger.rs:213-217 | one match on the path against the stored loser, stored loser on ties, settles its node |
| LoserTree.LoserTreeMerger.ReplayOne | crates/compactor/src/merge/merger.rs:212-224 | one round of the replay loop: one more match settled, and the winner taken over at the root |
| LoserTree.LoserTreeMerger.ReplayPath | crates/compactor/src/merge/merger.rs:210-225 | from leaf to root in as many matches as the tree has levels, all settled at the end |
| LoserTree.LoserTreeMerger.ReplayFromLeaf | crates/compactor/src/merge/merger.rs:209-226 | whatever now fronts the old winner's leaf, replaying its path restores the whole tournament invariant with exactly one comparison per level |
| LoserTree.LoserTreeMerger.AdvanceWinner | crates/compactor/src/merge/merger.rs:253-255 | advancing the winner removes exactly its front and keeps the tournament, at one comparison per level |
| LoserTree.LoserTreeMerger.EmitNext | crates/compactor/src/merge/merger.rs:244-255 | one round either extends a partial merge by one entry or finds all sources exhausted and the merge complete |
| LoserTree.LoserTreeMerger.Run | crates/compactor/src/merge/merger.rs:243-257 | terminates, emits a sorted interleaving of all sources with each source in its own order, and leaves every source exhausted |
| Tournament.WinnerIsLeast | crates/compactor/src/merge/merger.rs:141-148 | no leaf of a subtree is strictly below the subtree's winner, ties notwithstanding |
| Tournament.LoserInSubtree | crates/compactor/src/merge/merger.rs:141-148 | every stored loser is a leaf of the subtree under its node |
| Tournament.WinnerAndLosersAreAllLeaves | crates/compactor/src/merge/merger.rs:141-148 | the overall winner and the stored losers are all leaves, each exactly once |
| Tournament.BuildStep | crates/compactor/src/merge/merger.rs:189-197 | playing the match of two played subtrees, right child on ties, plays the parent's subtree and nothing else |
| Tournament.ReplayStarts | crates/compactor/src/merge/merger.rs:209-211 | when only the old winner's leaf changed, exactly the matches on its path are open and each stores the winner beside the path |
| Tournament.ReplayStep | crates/compactor/src/merge/merger.rs:212-224 | one replay step settles one more match on the path, stored loser on ties, and disturbs no other |
| Tournament.ReplayEnds | crates/compactor/src/merge/merger.rs:220-223 | once the root's match is settled the tournament is whole again |
| HeapMerge.HeapMerger.constructor | crates/compactor/src/merge/merger.rs:104-116 | the heap holds exactly one entry per non-exhausted source, carrying that source's front key |
| HeapMerge.HeapMerger.EmitNext | crates/compactor/src/merge/merger.rs:119-129 | a popped entry's source always has a front to emit, and the one-entry-per-source invariant is kept |
| HeapMerge.HeapMerger.Requeue | crates/compactor/src/merge/merger.rs:122-129 | advancing the popped source and pushing its new front restores the heap invariant |
| HeapMerge.TopFrontsLeast | crates/compactor/src/merge/merger.rs:96-101 | a greatest heap entry in the reversed order carries a least front key |
| HeapMerge.HeapMerger.Run | crates/compactor/src/merge/merger.rs:118-131 | terminates and emits a sorted interleaving of all sources |
| HeapMerge.MergesAgree | crates/compactor/src/merge/merger.rs:36-39 | with distinct keys any two mergers emit the same list |
| Merging.MergePermutes | crates/compactor/src/merge/merger.rs:243-257 | a merge holds exactly the multiset union of the sources' entries |
| Merging.MergeIsUnique | crates/compactor/src/merge/merger.rs:36-39 | with distinct keys a merge is the strictly sorted list of all entries and nothing else |
| Sources.ArenaSource.Peek | crates/compactor/src/merge/source.rs:150-156 | shows the first entry the window still has to yield, or nothing |
| Sources.ArenaSource.Advance | crates/compactor/src/merge/source.rs:158-160 | drops exactly the first remaining entry |
| Sources.ArenaSource.Len | crates/compactor/src/merge/source.rs:88-90 | counts the remaining entries, also when the position has passed the end |
| Sources.ArenaSource.Shard | crates/compactor/src/merge/source.rs:104-112 | a new source over the same entries whose window is the given index range |
| Sources.ArenaSource.LowerBound | crates/compactor/src/merge/source.rs:140-146 | on sorted entries the binary search returns the linear search's first index not below the boundary |
| Sources.FirstNotBelowSplits | crates/compactor/src/merge/source.rs:123-146 | everything before the cut is below the boundary's user key and the entry at the cut is not |
| Sources.ArenaSourceBuilder.Push | crates/compactor/src/merge/source.rs:187-202 | appends exactly one entry and leaves those already in the arena alone |
| Sources.ArenaSourceBuilder.Build | crates/compactor/src/merge/source.rs:204-212 | the source yields exactly what was pushed, from the start |
| Comparators.CompareReverse | crates/compactor/src/merge/cmp.rs:85-98 | comparison is antisymmetric and only identical keys are equal, for every comparator |
| Comparators.CompareTransitive | crates/compactor/src/merge/cmp.rs:85-98 | comparison is transitive, for every comparator |
| Comparators.CompareBytesIsLexicographic | crates/compactor/src/merge/cmp.rs:85-98 | byte order is the lexicographic one: less exactly if at the first difference the byte is smaller or missing |
| Comparators.InternalOrderIs | crates/compactor/src/merge/cmp.rs:86-98 | internal keys order by user key and, within a user key, by descending suffix |
| Comparators.VersionsAreContiguous | crates/compactor/src/merge/cmp.rs:86-98 | a key between two versions of a user key is itself a version of it |
| Comparators.VersionsNewestFirst | crates/compactor/src/merge/cmp.rs:90-95 | among versions of one user key the greater sequence and type comes first |
| Comparators.PrefixOrder | crates/compactor/src/merge/cmp.rs:44-49 | different 8-byte prefixes, zero-padded, order keys exactly as byte order does |
| Comparators.PrefixTellsApart | crates/compactor/src/merge/cmp.rs:44-49 | prefixes are equal exactly when the first 8 bytes are, zeros standing for missing ones |
| Comparators.CompareWithPrefixIsCompare | crates/compactor/src/merge/merger.rs:48-56 | the prefix shortcut never changes a comparison, for keys of any length |
| ByteStrings.LittleEndianDigit | crates/compactor/src/format/footer.rs:109 | byte i of a little-endian number is its digit i to base 256 |
| ByteStrings.FromFourBytes | crates/compactor/src/format/footer.rs:207 | what four bytes spell, read as a little-endian number |
| InternalKeys.MakeKeyRoundTrip | crates/compactor/src/format/internal_key.rs:37-51 | splitting a key and putting its parts together undo each other |
| InternalKeys.SuffixBytes | crates/compactor/src/format/internal_key.rs:37-51 | the first suffix byte is the type, the other seven are the sequence number, little-endian |
| InternalKeys.KeyDeterminedByParts | crates/compactor/src/merge/cmp.rs:141-144 | user key and packed suffix determine the key |
| Strategy.CompactionStrategy.DecideNext | crates/compactor/src/compaction/strategy.rs:66-184 | verdict and new state of each strategy, for every key and state |
| Compaction.WalkKeepsSurvivors | crates/compactor/src/compaction/mod.rs:166-184 | the walk over strictly sorted entries keeps exactly the versions the policy's set-level rule names, in order |
| Compaction.CompactedSurvivors | crates/compactor/src/compaction/mod.rs:147-187 | with distinct keys a compaction's output is the sorted list of the survivors, whatever state the strategy starts in |
| Compaction.WalkKeeps | crates/compactor/src/compaction/mod.rs:166-184 | the walk over any sorted merge output, equal keys included, keeps exactly what current reads find, for bottommost unless a tombstone, and what a snapshot's reads find, once each and in order; passthrough keeps everything |
| Compaction.StateDoesNotLeak | crates/compactor/src/compaction/strategy.rs:66-184 | what is kept does not depend on the state the strategy starts in |
| Compaction.TombstoneSurvivesIff | crates/compactor/src/compaction/strategy.rs:92-101 | a tombstone survives a snapshot-aware compaction if and only if it is the newest version or what the snapshot sees |
| Compaction.FirstFlagOnce | crates/compactor/src/compaction/mod.rs:172-177 | the first-for-key flag is raised at exactly one position per user key, the first of them, which holds a newest version; equal keys included |
| Compaction.CompactEntries | crates/compactor/src/compaction/mod.rs:147-184 | the loop walks a merge of the sources and collects exactly the walk's output |
| SnapshotReads.ReadPreservedIff | crates/compactor/src/compaction/strategy.rs:127-173 | which point reads a snapshot-aware compaction preserves, both directions, over any sorted merge output |
| SnapshotReads.PromisedReadsPreserved | crates/compactor/src/compaction/strategy.rs:81-101 | over any sorted merge output, reads at the snapshot and at or above a key's newest version find the same version, tombstones included |
| SnapshotReads.MiddleReadLost | crates/compactor/src/compaction/strategy.rs:166-171 | three versions and a read between snapshot and newest version that changes |
| SnapshotReads.OldTombstoneDropped | crates/compactor/src/compaction/strategy.rs:92-101 | a tombstone no newer than the snapshot that is dropped |
| SnapshotReads.AtMostTwoVersions | crates/compactor/src/compaction/strategy.rs:127-173 | no three positions of the output hold versions of one user key, over any sorted merge output |
| SnapshotReads.CompactionComposes | crates/compactor/src/compaction/strategy.rs:127-173 | compacting some sources first and the rest with the result equals compacting all at once |
| SnapshotReads.CompactionIdempotent | crates/compactor/src/compaction/strategy.rs:127-173 | with distinct keys, compacting a compaction again changes nothing more |
| SnapshotReads.KeptTwice | crates/compactor/src/compaction/strategy.rs:127-173 | walking an output again changes nothing more, whatever sorted merge output it came from |
| Oracle.AbsorbSource | crates/oracle/src/lib.rs:54-69 | the inner loop folds one source's entries into the map |
| Oracle.NaiveCompact | crates/oracle/src/lib.rs:49-76 | the nested loops compute the live slots of the best-version map over all entries |
| Oracle.TombstonesAgree | crates/oracle/src/lib.rs:30-36 | the oracle's own reading of the type byte agrees with the compactor's on tombstones |
| Oracle.BestHolds | crates/oracle/src/lib.rs:51-70 | the map is ordered and holds one slot per user key met: the first entry met among those of the greatest sequence number, and nothing else |
| Oracle.OrdersAgreeIff | crates/oracle/src/lib.rs:57-68 | two lists of the same entries have one result exactly when what each meets first has the same outcome |
| Oracle.OrderIndependentIff | crates/oracle/src/lib.rs:57-68 | no order of the entries changes the oracle's answer if and only if the versions tied for a user key's greatest sequence number have one outcome |
| Oracle.OracleAgreesIff | crates/compactor/src/compaction/mod.rs:147-187 | over any sorted merge output, bottommost compaction with suffixes stripped is the oracle's answer if and only if what the merge puts first and what the oracle meets first have the same outcome |
| Oracle.CompactionAgreesIff | crates/compactor/src/compaction/mod.rs:147-187 | with distinct internal keys, the same in terms of the sources alone: if and only if each user key's newest version and the one met first have the same outcome |
| Oracle.CompactionRefinesOracle | crates/compactor/src/compaction/mod.rs:147-187 | without shared sequence numbers, bottommost compaction with suffixes stripped equals the oracle's output, in order |
| Oracle.SharedSequenceDiffers | crates/oracle/src/lib.rs:57-68 | two sources sharing user key and sequence number: swapping them changes the oracle's answer, and in one order compaction differs from it |
| Sharding.EvenKeysAscend | crates/compactor/src/compaction/mod.rs:269-274 | boundary keys sampled from a sorted source never descend |
| Sharding.Longest | crates/compactor/src/compaction/mod.rs:261-264 | the longest source is chosen, the last one among equals |
| Sharding.SampleIndexIs | crates/compactor/src/compaction/mod.rs:271-272 | boundary i of k lies at the index that is i k-ths of the way, rounded down |
| Sharding.EvenKeysAreEven | crates/compactor/src/compaction/mod.rs:265-274 | one boundary fewer than shards, each the key at its even share of the way, and none of no entries |
| Sharding.PickShardBoundaries | crates/compactor/src/compaction/mod.rs:260-275 | one boundary fewer than shards, boundary i being the longest source's key at index k with k * shards <= n * i < (k + 1) * shards, and none when that source is empty |
| Sharding.CutsAscend | crates/compactor/src/compaction/mod.rs:228-238 | cuts never go backwards, so every shard assertion holds |
| Sharding.ShardMembers | crates/compactor/src/compaction/mod.rs:228-238 | a shard of a source is exactly its entries whose user key lies between the shard's boundaries |
| Sharding.ShardsAreEven | crates/compactor/src/compaction/mod.rs:228-238 | a source with distinct user keys is cut into shards of its length divided by their number, rounded down or up |
| Sharding.CutShard | crates/compactor/src/compaction/mod.rs:229-237 | one shard of one source: a window between two cuts, in a fresh object |
| Sharding.ShardSource | crates/compactor/src/compaction/mod.rs:229-237 | cutting one source yields one window per shard, each in an object of its own |
| Sharding.ShardOutputsOrdered | crates/compactor/src/compaction/mod.rs:195-197 | whatever order a merge gives equal keys, no user key is written by two shards, and shards come in key order |
| Sharding.ShardedOutput | crates/compactor/src/compaction/mod.rs:211-255 | for any ascending boundaries and any policy the shards' outputs in order are the unsharded output |
| Sharding.ShardingPreservesMeaning | crates/compactor/src/compaction/mod.rs:211-275 | the same at the boundaries actually chosen, for every shard count |
| Varint.PutVarint64 | crates/compactor/src/format/varint.rs:37-47 | appends the encoding of the value and nothing else |
| Varint.GetVarint64 | crates/compactor/src/format/varint.rs:11-28 | the loop computes the value of the groups read, or nothing when bytes run out or groups exceed ten |
| Varint.GetVarint32 | crates/compactor/src/format/varint.rs:3-9 | as the 64-bit reader, refusing values beyond 32 bits |
| Varint.VarintRoundTrip | crates/compactor/src/format/varint.rs:11-47 | an encoding anywhere in any buffer reads back exactly, advances by its length, and takes 1 to 10 bytes |
| Varint.VarintDigit | crates/compactor/src/format/varint.rs:37-47 | byte i is digit i to base 128, with the high bit set on all but the last |
| Varint.VarintIsMinimal | crates/compactor/src/format/varint.rs:37-47 | an encoding has exactly as many bytes as the number needs |
| Varint.ZigZagBijective | crates/compactor/src/format/block_builder.rs:188-191 | zigzag maps signed to unsigned 64-bit values one to one and the reader inverts it |
| Varint.ZigZagIsShiftXor | crates/compactor/src/format/block_builder.rs:188-191 | the zigzag value is the doubled value, exclusive-or the sign in every bit |
| Varint.PutVarSigned64 | crates/compactor/src/format/block_builder.rs:188-191 | appends the encoding of the zigzag value |
| Varint.GetVarSigned64 | crates/compactor/src/format/block.rs:390-393 | reads a zigzag value at the position, or nothing |
| Varint.VarSignedRoundTrip | crates/compactor/src/format/block.rs:389-393 | signed values read back exactly from any position in any buffer |
| Blocks.SharedPrefixLen | crates/compactor/src/format/block_builder.rs:97-99 | the length of the longest common prefix, no shorter and no longer |
| Blocks.AppendTrailer | crates/compactor/src/format/block_builder.rs:86-94 | appends the restart offsets and their count |
| Blocks.TrailerLayout | crates/compactor/src/format/block_builder.rs:86-94 | each restart offset stands in four little-endian bytes behind the entries, their number at the very end |
| Blocks.RestartPointsAre | crates/compactor/src/format/block_builder.rs:66-69 | one restart for every interval-th entry, at the offset of that entry, for data and index blocks alike |
| Blocks.ParseBlockContents | crates/compactor/src/format/block.rs:239-258 | the loop reads the restart array, with both error cases |
| Blocks.ParseRoundTrip | crates/compactor/src/format/block.rs:239-258 | parsing a finished block recovers its entry bytes and restarts |
| DataBlock.BlockBuilder.constructor | crates/compactor/src/format/block_builder.rs:32-42 | an empty block with one restart at offset zero |
| DataBlock.BlockBuilder.Add | crates/compactor/src/format/block_builder.rs:56-81 | adds one entry; buffer, restarts, last key and counter stay those of the entries added |
| DataBlock.BlockBuilder.Finish | crates/compactor/src/format/block_builder.rs:86-94 | yields the block's bytes |
| DataBlock.ReadEntry | crates/compactor/src/format/block.rs:288-312 | one entry decoded against the scratch key, with every error case |
| DataBlock.ForEachEntry | crates/compactor/src/format/block.rs:275-316 | what the visit hands on, up to the end or the first error, and which of the two it was |
| DataBlock.DataBlockRoundTrip | crates/compactor/src/format/block.rs:275-316 | for any keys, values and restart interval, visiting a finished block returns exactly what was added |
| DataBlock.EntryLayout | crates/compactor/src/format/block_builder.rs:56-81 | the bytes of every entry: nothing is shared at every interval-th entry and the longest common prefix at any other |
| DataBlock.RestartsAre | crates/compactor/src/format/block_builder.rs:66-69 | restart k is the offset of entry k times the interval, and there is one for each such entry |
| DataBlock.RestartIsSeekTarget | crates/compactor/src/format/block_builder.rs:60-69 | decoding from a restart with an empty scratch key yields exactly the entries from there on |
| DataBlock.DecodeFromEntry | crates/compactor/src/format/block.rs:287-313 | decoding from any entry's offset yields the entries from there, given what it shares with the key before |
| IndexBlock.IndexBlockBuilder.constructor | crates/compactor/src/format/block_builder.rs:118-128 | an empty index with one restart and no previous handle |
| IndexBlock.IndexBlockBuilder.Add | crates/compactor/src/format/block_builder.rs:139-175 | adds one separator and handle; a previous handle is there whenever a delta is written |
| IndexBlock.IndexBlockBuilder.Finish | crates/compactor/src/format/block_builder.rs:177-184 | yields the index block's bytes |
| IndexBlock.ReadEntry | crates/compactor/src/format/block.rs:345-384 | one index entry decoded, full or delta handle, with every error case |
| IndexBlock.ForEachIndexEntry | crates/compactor/src/format/block.rs:328-387 | what the visit hands on, up to the end or the first error, and which of the two it was |
| IndexBlock.DeltaRoundTrip | crates/compactor/src/format/block.rs:375 | adding the wrapped size difference back gives the size, over the full 64-bit range |
| IndexBlock.RestartMeansFull | crates/compactor/src/format/block.rs:364-367 | where the reader sees a restart the writer wrote a full handle |
| IndexBlock.RebuiltKeysAndSizes | crates/compactor/src/format/block.rs:371-379 | keys and sizes come back even when a delta-encoded offset cannot |
| IndexBlock.IndexBlockReadsBack | crates/compactor/src/format/block.rs:328-387 | what the reader makes of any index the writer writes |
| IndexBlock.IndexBlockRoundTrip | crates/compactor/src/format/block.rs:328-387 | every key and handle comes back exactly if and only if each delta-encoded handle starts at offset + size + 5 of the one before, modulo 2^64 |
| IndexBlock.EntryLayout | crates/compactor/src/format/block_builder.rs:139-175 | the bytes of every index entry: a full handle where nothing is shared, and else only the zigzag size difference |
| SstLoader.HandlesAreContiguous | crates/compactor/src/format/sst_builder.rs:123-133 | every data block starts where the one before it ends, trailer included |
| SstLoader.LayoutIndexRoundTrip | crates/compactor/src/format/block.rs:328-387 | an index over laid-out data blocks reads back exactly at every restart interval, delta-encoded handles included |
| BlockTrailer.ModifierDistinguishes | crates/compactor/src/format/footer.rs:55-66 | two offsets share a checksum modifier exactly when the feature is off or their halves add up alike |
| BlockTrailer.MovedBlockCollides | crates/compactor/src/format/footer.rs:55-66 | two different offsets, the second 2^32, that share a modifier for every base |
| BlockTrailer.SmallOffsetsDistinguished | crates/compactor/src/format/footer.rs:55-66 | below 2^32 and with the feature on, modifiers differ exactly when offsets do |
| ByteStrings.XorBits | crates/compactor/src/format/footer.rs:65 | a bit of an exclusive-or is set exactly when the two bits differ |
| BlockTrailer.ModifierBits | crates/compactor/src/format/footer.rs:59-66 | bit by bit, the modifier is the base exclusive-or the offset's two halves added with wrap-around |
| BlockTrailer.StoredField | crates/compactor/src/format/block.rs:75-83 | behind the data stand a zero byte and the foreign hash of data and byte, plus the modifier modulo 2^32 |
| BlockTrailer.ChecksumCovers | crates/compactor/src/format/block.rs:108-136 | any other data of that length and any other compression byte in front of a stored checksum are refused for it exactly when their hash differs, and else taken as the byte says |
| BlockTrailer.CodecByByte | crates/compactor/src/format/block.rs:19-31 | which codec each compression byte stands for, and every failure |
| BlockTrailer.TrailerRoundTrip | crates/compactor/src/format/block.rs:69-136 | a block reads back where it was written; elsewhere it is refused exactly when the checksum can tell |
| Footer.EncodeFooterV6Plus | crates/compactor/src/format/footer.rs:89-133 | pushing fields and patching the checksum yields the footer's bytes |
| Footer.FooterRoundTrip | crates/compactor/src/format/footer.rs:172-253 | the reader recovers every field and finds the metaindex block right before the footer |
| Footer.FooterLayout | crates/compactor/src/format/footer.rs:105-119 | every field stands where the format has it |
| Footer.FooterStoredField | crates/compactor/src/format/footer.rs:121-130 | the checksum field holds the foreign hash of the footer with that field zeroed, plus the modifier modulo 2^32 |
| Footer.FooterChecked | crates/compactor/src/format/footer.rs:200-253 | any footer from version 6 on is refused for its checksum exactly when the field differs from that; accepted, it gives exactly the fields it holds |
| Footer.OldFooterRoundTrip | crates/compactor/src/format/footer.rs:254-260 | a footer before version 6 gives the metaindex handle and then the index handle |
| Metaindex.SortKeepsOrder | crates/compactor/src/format/properties.rs:184-185 | sorting by name is a stable permutation into ascending order |
| Metaindex.BuildMetaindexBlock | crates/compactor/src/format/properties.rs:183-195 | the loop yields the metaindex block of the sorted names |
| Metaindex.FindMeta | crates/compactor/src/compaction/mod.rs:109-127 | the first matching name with a decodable handle, or nothing, or the block's error |
| Metaindex.MetaindexRoundTrip | crates/compactor/src/compaction/mod.rs:109-127 | looking a name up in a built metaindex finds the first handle stored under it, or none if there is none |
| SstBuilder.DataBlocksKeepEntries | crates/compactor/src/format/sst_builder.rs:136-154 | cutting blocks loses, adds and reorders nothing and leaves no block empty |
| SstBuilder.CutKeepsEntries | crates/compactor/src/format/sst_builder.rs:143-150 | closed and pending blocks hold what was added; what is pending is below the target size |
| SstBuilder.DataBlocksAreTheCut | crates/compactor/src/format/sst_builder.rs:136-154 | the data blocks are the only way to cut the entries so that every block but the last reaches 4096 bytes and none does before its last entry |
| SstBuilder.CuttingUnique | crates/compactor/src/format/sst_builder.rs:143 | there is only one way to cut entries like that |
| SstBuilder.FlushDataBlock | crates/compactor/src/format/sst_builder.rs:116-134 | appends a non-empty block with its trailer and indexes it under its last key; an empty one is skipped |
| SstBuilder.AddToBlock | crates/compactor/src/format/sst_builder.rs:140-143 | the entry joins the open block, and the size estimate is exactly the length the finished block would have |
| SstBuilder.StartNextBlock | crates/compactor/src/format/sst_builder.rs:144-149 | closing a block writes and indexes it and leaves a fresh empty one |
| SstBuilder.WriteEntry | crates/compactor/src/format/sst_builder.rs:136-151 | one loop step adds the entry and, exactly when the block then has the target size, closes it; file, index and pending block stay those of the blocks cut so far |
| SstBuilder.WriteDataBlocks | crates/compactor/src/format/sst_builder.rs:89-155 | all data blocks are in the file and in the index |
| SstBuilder.WriteTail | crates/compactor/src/format/sst_builder.rs:157-232 | index, properties, metaindex and footer follow, with the handles of the layout |
| SstBuilder.BuildSst | crates/compactor/src/format/sst_builder.rs:75-233 | the file is the layout's bytes, rewritten entries in ingest mode |
| SstBuilder.ZeroOutSeqno | crates/compactor/src/format/sst_builder.rs:238-245 | the sequence becomes zero; user key and type byte stay |
| SstLoader.BlockStandsAt | crates/compactor/src/format/sst_builder.rs:123-133 | block j stands where its handle says and its separator is its last key |
| SstLoader.BlockReads | crates/compactor/src/compaction/mod.rs:90-107 | reading block j of a written file through its handle gives its entries |
| SstLoader.IndexReads | crates/compactor/src/compaction/mod.rs:58-75 | footer, metaindex and index of a written file read back as written |
| SstLoader.PropertiesFound | crates/compactor/src/format/sst_builder.rs:157-206 | in every written file the metaindex leads to the index block right behind the data and to the properties block, which reads back, checksum included, with the number of entries, the summed key and value lengths and the sizes of data and index |
| SstLoader.TotalsAreSums | crates/compactor/src/format/sst_builder.rs:137-138 | the totals are the lengths of all keys and of all values put together |
| SstLoader.FileRoundTrip | crates/compactor/src/compaction/mod.rs:51-88 | every entry list within the limits reads back exactly, in order |
| SstLoader.OpenFileBytes | crates/compactor/src/compaction/mod.rs:58-75 | from file bytes to the block handles, with every error case |
| SstLoader.ReadDataBlocks | crates/compactor/src/compaction/mod.rs:77-86 | the loop reads all blocks in index order or reports the first error |
| SstLoader.LoadArenaSource | crates/compactor/src/compaction/mod.rs:51-88 | a loaded source yields exactly what the file holds, and loading fails exactly as reading does |
| Corruption.TamperedBlock | crates/compactor/src/format/block.rs:113-123 | a data block changed in the file, compression byte included, is refused exactly when its hash changed |
| Corruption.CorruptBlockRefused | crates/compactor/src/compaction/mod.rs:51-107 | change any one data block of a file so that its hash changes, and loading the file stops with a checksum mismatch |
| IndexSeek.SeparatorsSeparate | crates/compactor/src/format/sst_builder.rs:96-114 | each separator is at or above every key of its block and below every key of later blocks |
| IndexSeek.SeekThroughIndex | crates/compactor/src/format/sst_builder.rs:96-154 | for every target, opening a written file, choosing a block by separator and searching it alone finds the linear search's answer |
| PointReads.ReadBySeek | crates/compactor/src/compaction/strategy.rs:81-101 | a read at a sequence number is a seek to the key with that sequence and the greatest type byte |
| PointReads.FileReadIsRead | crates/compactor/src/format/sst_builder.rs:96-154 | reading through footer, index and one block of a written file finds what the entries hold |
| PointReads.PointReadThroughFile | crates/compactor/src/compaction/strategy.rs:81-173 | a point read through the file of a snapshot-aware compaction finds what it would find in the merged sources, exactly when no version stands in between |
| Ingest.RewriteKeepsOrderIff | crates/compactor/src/format/sst_builder.rs:81-87 | zeroing sequences keeps entries strictly sorted exactly when type bytes descend within each user key |
| Ingest.BottommostLeavesOneVersion | crates/compactor/src/compaction/strategy.rs:66-79 | bottommost output of any sorted merge output has one version per user key |
| Ingest.BottommostRewritesSafely | crates/compactor/src/format/sst_builder.rs:81-87 | bottommost output of any sorted merge output, rewritten for ingestion, is strictly sorted with all sequences zero and nothing else changed |
| Ingest.IngestedFile | crates/compactor/src/format/sst_builder.rs:75-87 | the file a bottommost compaction writes in ingest mode reads back strictly sorted with every sequence zero |
| Ingest.VersionsCollide | crates/compactor/src/format/sst_builder.rs:238-245 | two versions of a user key with one type become the same key |
| SizeLimits.FileSize | crates/compactor/src/format/sst_builder.rs:89-232 | a file is no longer than 91 bytes per entry plus twice the keys and values plus properties plus 240 |
| SizeLimits.SmallSourcesFit | crates/compactor/src/compaction/mod.rs:147-187 | sources whose size keeps below that bound compact to a file within the 4 GiB limits, whatever the policy and the order of equal keys |
| SizeLimits.SmallShardsFit | crates/compactor/src/compaction/mod.rs:211-255 | and so do all their shards, for every shard count |
| SizeLimits.CompactedFileLoads | crates/compactor/src/compaction/mod.rs:51-88 | and the file of such sources can be loaded as a source again |
| Pipeline.CompactWithStrategy | crates/compactor/src/compaction/mod.rs:147-187 | from sources to file: the file holds the walked output of some merge of the sources |
| Pipeline.Compact | crates/compactor/src/compaction/mod.rs:140-142 | the same with a fresh bottommost strategy |
| Pipeline.CompactedReadsBack | crates/compactor/src/compaction/mod.rs:147-187 | whatever order a merge gives equal keys, the file reads back as a walk over some merge of the sources |
| Pipeline.CompactedFileReadsBack | crates/compactor/src/compaction/mod.rs:147-187 | with distinct keys the compacted file reads back as exactly the survivors |
| Pipeline.CompactionEndToEnd | crates/compactor/src/compaction/mod.rs:140-187 | the file read back, suffixes stripped, is the oracle's answer over the sources' entries if and only if their ties agree |
| Pipeline.SplitSources | crates/compactor/src/compaction/mod.rs:225-238 | every shard gets its piece of every source, in objects no other shard has |
| Pipeline.SplitOne | crates/compactor/src/compaction/mod.rs:228-237 | one more source cut at the boundaries, each piece joining its shard |
| Pipeline.CompactShards | crates/compactor/src/compaction/mod.rs:240-254 | one file per shard, in shard order; compacting a shard leaves the others' sources alone |
| Pipeline.CompactSharded | crates/compactor/src/compaction/mod.rs:211-255 | the files are those of the shards: as many as asked for, or one when none are asked for or there is nothing to shard |
| Pipeline.ShardCount | crates/compactor/src/compaction/mod.rs:211-255 | as many files as shards asked for if any source has entries, and else one |
| Pipeline.ShardsAreCutEvenly | crates/compactor/src/compaction/mod.rs:211-238 | the shards are the pieces between boundaries that cut the longest source evenly |
| Pipeline.ShardedEndToEnd | crates/compactor/src/compaction/mod.rs:211-275 | the shard files read in order and joined hold exactly what the unsharded file would |

## Left out

- Asynchronous file input, the command-line binaries, the incremental reader and benchmarks: the model starts from bytes in memory.
- Scheduling of shards on a thread pool: shards are independent calls joined in shard order; a panicking shard is not modelled.
- Checksum algorithms and decompression codecs: parameters. With them go the masking of CRC32C and the last-byte fold of XXH3.
- Contents of the properties block, comparator and column-family names and ingestion stamps: one parameter that yields the block's bytes. The memory and capacity hints of the builders are dropped.
- The list-backed merge source: it behaves as the arena-backed one without sharing.
- Range deletions: the program passes them through as ordinary entries, and so does the model.
- Error texts: an error keeps its fixed part; the numbers formatted into it are dropped.
- Machine arithmetic beyond what is written out: the product of entry count and shard number, position sums on corrupt blocks and the sum of a corrupt handle's offset and size are unbounded.
- A 4 GiB limit is a precondition of building and loading (`FileFits`, `ArenaSize`); what the casts do beyond it is not explored, except that `AsU32` truncates as they do.
- SstLoader.ReadDataBlocks: collects the entries before handing them to the arena, where the program pushes each as it is decoded; on an error no arena survives either way.
- LoserTree.LoserTreeMerger.Run: does not say which of several equal keys comes first; with distinct keys nothing is left open.
- HeapMerge.HeapMerger.Pop: the heap is modelled by its contract (some greatest entry), not by its array layout.
- SnapshotReads.CompactionComposes: assumes distinct internal keys, since with equal keys which of them each stage keeps is open; `SnapshotReads.KeptTwice` does without.
- Pipeline.ShardedEndToEnd: assumes distinct internal keys, since with equal keys the unsharded order itself is open.
- Sharing of one arena by all shards is by value; reference counts are not modelled.
