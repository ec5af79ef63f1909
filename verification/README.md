# MetaDedup, modelled and proved in Dafny

MetaDedup is a deduplicating storage system. A client cuts files into content-defined chunks,
disperses each chunk into n shares of which any k restore it, and uploads the shares to servers;
a server keeps one copy of each share, indexed in a bundled LevelDB store. This project models the
parts of that path where correctness is hard to see, and proves them.

- **Dispersal codec** (`GaloisField`, `Matrix`, `Cauchy`, `Inversion`, `Distribution`, `Regions`,
  `ConvergentDispersal`, `ShareBytes`, `CDCodec`, `RampSharing`, `RampCodec`). Any k rows of the
  identity-over-Cauchy matrix and of the Cauchy matrix are invertible, the in-place Gauss-Jordan
  routine inverts exactly the invertible matrices, and both CAONT-RS and CRSSS give every secret
  back from any k shares and accept only shares that the encoder makes; packages and shares are also
  told byte by byte. Addition is exclusive or; multiplication and division are functions with the
  field laws as hypotheses; hash and cipher are arbitrary functions of the right lengths.
- **LSM store** (`InternalKeys`, `Version`, `Overlap`, `VersionBuilder`, `CompactionWork`,
  `VersionSteps`, `MergedEntries`, `CompactionStep`, `DbImpl`). Over every run of writes, memtable
  switches, flushes, compactions and moves the level invariants hold and reads answer as a plain
  map would.
- **Iterators** (`MergingIterator`, `DbIter`, `StoreIterator`). Under any sequence of moves in any
  direction the user's iterator is a cursor on the sorted list of live pairs, and over the whole
  store that list is the contents of the map.
- **Log and blocks** (`LogFormat`, `LogBytes`, `LogWriter`, `LogReader`, `Coding`, `BlockFormat`,
  `BlockLayout`, `BlockBuilder`, `BlockIterator`). A log cut anywhere reads back as the records it
  holds all of; a prefix-compressed block reads back forward, backward and by restart-point search.
- **Deduplication** (`ContainerNames`, `ShareIndex`, `Containers`, `ReferenceCounts`, `FirstStage`,
  `BufferNodes`, `SecondStage`, `DedupServer`, `DedupSessions`). In every reachable state every
  indexed share is readable where the index says, every byte of every container belongs to exactly
  one indexed share, shares never move, answers are exact, and reference counts are upload counts,
  however sessions interleave.
- **Upload and restore** (`Uploader`, `ContainerCache`, `ShareStream`, `Restore`, `RestoreExact`,
  `EndToEnd`). The client's packages carry a file in order and are never refused; a restore delivers
  each share as stored exactly when it had been stored by the time its container was copied; and a
  file that is uploaded and then downloaded, with any requests of others before each share is looked
  up, comes back as it was, or a collision of the hash is exhibited.
- **Chunker and pipeline** (`Chunker`, `RingBuffer`, `Pipeline`). The rolling hash is the
  polynomial hash in spite of overflow, and chunking after a cut depends on the rest alone; under
  every schedule the round-robin pipeline ends, with all items delivered in order.

`Wrappers`, `Sequences` and `Arithmetic` hold an option type, two facts about sequences and some
about products and quotients.

User keys of the store are real numbers: `InternalKeys.RankOrders` maps byte strings to them in
the comparator's order. Time, the size of table files, and where compaction outputs are cut are
parameters. Reads and writes of files and sockets succeed; files and messages are byte sequences.

Three promises do not hold as they stand.

- A share of no bytes that is alone in its buffer is lost when the buffer is evicted, because an
  empty buffer is not written out. `DedupServer.EmptyShareLost` runs the model into that state, and
  `Containers.EvictionExact` says exactly when an eviction leaves every share reachable. Shares with
  at least one byte are always readable; the codecs produce no others from a secret that is not
  empty.
- A restore may copy a container, and another session may then store a share behind the copy. If the
  restore looks up that share while its copy is still at hand, it sends memory from behind the copy.
  `RestoreExact.StaleCopyServed` is such a run, and `RestoreExact.ReadAsStored` gives the exact
  condition. Shares stored before the restore began are always delivered as stored
  (`RestoreExact.StoredBefore`).
- A download of a file without shares does not end: the client looks for a share before it compares
  counts, and waits for a message that never comes. `ShareStream.Receive` and `Restore.Download` end
  if and only if there is a share.

## Model

| member | source | states |
|---|---|---|
| `Cauchy.CauchyKernel` | client/coding/CDCodec.cc:182-189 | a square Cauchy system over any field of characteristic two has only the zero solution |
| `Distribution.AnyRowsInvertible` | client/coding/CDCodec.cc:171-189 | for n up to 256, any k different rows of the identity-over-Cauchy matrix form an invertible matrix |
| `Distribution.AnyDispersedRowsInvertible` | client/coding/CDCodec.cc:77-84 | the same for the pure Cauchy matrix of CRSSS when n + k is at most 256 |
| `Distribution.InvertRows` | client/coding/CDCodec.cc:555-567 | storing the rows of k shares and inverting them succeeds if and only if these rows of the distribution matrix are invertible |
| `Inversion.SquareMatrixInverting` | client/coding/CDCodec.cc:288-420 | succeeds if and only if the matrix is invertible, and then leaves a two-sided inverse |
| `Inversion.Triangulate` | client/coding/CDCodec.cc:309-381 | the forward pass reaches an upper triangular matrix by row operations, or the matrix is singular |
| `Inversion.FindPivot` | client/coding/CDCodec.cc:310-338 | puts a nonzero pivot on the diagonal, or the rest of the column is zero |
| `Inversion.ClearAbove` | client/coding/CDCodec.cc:383-417 | zeroing single entries in the square matrix while the inverse gets full row operations equals the full row operation on both |
| `Inversion.TrivialKernelInvertible` | client/coding/CDCodec.cc:288-420 | elimination without a stuck pivot exists exactly because the kernel is trivial, so such a matrix is invertible |
| `Regions.CombineRegions` | client/coding/CDCodec.cc:1142-1155 | overwriting with the first product and accumulating the others gives the linear combination of the blocks and touches nothing else |
| `Regions.MultiplyBlocks` | client/coding/CDCodec.cc:1215-1227 | the double loop gives the product of the matrix and the blocks |
| `ConvergentDispersal.BuffersSuffice` | client/coding/CDCodec.cc:143-162 | every secret up to the maximum size fits both buffers as the constructor sizes them |
| `ConvergentDispersal.AlignedRows` | client/coding/CDCodec.cc:1079-1092 | padding reaches the least whole number of rows of k words, with one word for the key |
| `ConvergentDispersal.UnpackagePackage` | client/coding/CDCodec.cc:1229-1263 | opening the all-or-nothing package of an aligned secret gives the secret |
| `ConvergentDispersal.PackageUnpackage` | client/coding/CDCodec.cc:1229-1263 | whatever opens is the package of what comes out |
| `ConvergentDispersal.SharesDeterminePackage` | client/coding/CDCodec.cc:1201-1227 | any k different shares determine the package |
| `ConvergentDispersal.AnySharesRestore` | client/coding/CDCodec.cc:1170-1269 | any k shares of a secret open to that secret and its padding |
| `ConvergentDispersal.AcceptedSharesAreEncoded` | client/coding/CDCodec.cc:1201-1268 | accepted shares are exactly the encoder's shares of what comes out |
| `ShareBytes.PackageMasks` | client/coding/CDCodec.cc:1100-1135 | a package is the aligned secret, byte by byte xored with the encryption, under the hash of the secret, of a block that counts up modulo 256, and then that hash xored with the hash of the masked bytes |
| `ShareBytes.SharesAreBytes` | client/coding/CDCodec.cc:1137-1155 | byte p of the first k shares is the package byte at its place; byte p of a parity share is the xor of the k package bytes in that place, each times the inverse of the sum of two different field elements |
| `CDCodec.FillDistributionMatrix` | client/coding/CDCodec.cc:171-189 | the loops store the identity over the Cauchy matrix |
| `CDCodec.Codec.constructor` | client/coding/CDCodec.cc:111-189 | a codec of accepted parameters is valid, with buffers of its own |
| `CDCodec.Codec.MakePackage` | client/coding/CDCodec.cc:1100-1135 | the in-place steps build in the erasure coding buffer the masked secret and the masked key, stated byte by byte as for PackageMasks |
| `CDCodec.Codec.EmitShares` | client/coding/CDCodec.cc:1137-1155 | the first k shares are the package itself and the last m its Cauchy combinations |
| `CDCodec.Codec.CaontRSEncoding` | client/coding/CDCodec.cc:1072-1157 | succeeds exactly when the aligned secret fits, always up to the maximum size; the n shares written are, byte by byte, the bytes and the parities of a package that masks the padded secret as for PackageMasks |
| `CDCodec.Codec.CaontRSDecoding` | client/coding/CDCodec.cc:1170-1269 | refuses inadmissible sizes; otherwise succeeds exactly when the package that explains the shares opens, and returns the prefix asked for |
| `CDCodec.DisperseAndRestore` | client/coding/CDCodec.cc:1072-1269 | dispersing and restoring from any k shares in any order returns the secret, whatever the codecs' buffers held before |
| `RampSharing.RampBuffersSuffice` | client/coding/CDCodec.cc:62-68 | every secret up to the maximum size fits the CRSSS buffers as the constructor sizes them |
| `RampSharing.SpreadFromOne` | client/coding/CDCodec.cc:465-493 | the data blocks determine the aligned secret |
| `RampSharing.SpreadToOne` | client/coding/CDCodec.cc:465-493 | the aligned secret determines the data blocks |
| `RampSharing.NothingSpread` | client/coding/CDCodec.cc:583-612 | one word that is not the hash of its group: no secret has these data blocks |
| `RampSharing.SharesDetermineSecret` | client/coding/CDCodec.cc:523-617 | any k different CRSSS shares determine the aligned secret |
| `RampSharing.SpreadIsBytes` | client/coding/CDCodec.cc:465-493 | every word of the data blocks is, byte by byte, the secret word or the hash of the seeded group that belongs in its group and column |
| `RampSharing.SumsAreBytes` | client/coding/CDCodec.cc:495-507 | every byte of a CRSSS share is the xor of the k data bytes in its place, each times its Cauchy element |
| `RampCodec.Codec.constructor` | client/coding/CDCodec.cc:28-88 | a CRSSS codec of accepted parameters is valid, with buffers of its own |
| `RampCodec.Codec.SpreadSecret` | client/coding/CDCodec.cc:465-493 | the loops over groups, words and hashes put every word and every seeded hash in its place of the k data blocks |
| `RampCodec.Codec.CrsssEncoding` | client/coding/CDCodec.cc:432-510 | succeeds exactly when the aligned secret fits, always up to the maximum size; data blocks and the n Cauchy combinations written are those of SpreadIsBytes and SumsAreBytes, byte by byte |
| `RampCodec.Codec.GatherSecret` | client/coding/CDCodec.cc:583-612 | reads out the one secret that has the data blocks, or refuses exactly when there is none |
| `RampCodec.Codec.CrsssDecoding` | client/coding/CDCodec.cc:523-617 | refuses inadmissible sizes; otherwise accepts exactly the shares of some aligned secret, and returns the prefix of that secret asked for |
| `RampCodec.DisperseAndRestore` | client/coding/CDCodec.cc:432-617 | CRSSS gives every secret back from any k shares in any order, whatever the codecs' buffers held before |
| `InternalKeys.RankOrders` | server/lib/leveldb/util/comparator.cc:25-27 | the real-number rank of a user key orders keys as the byte-wise comparator does |
| `InternalKeys.KeyOrder` | server/lib/leveldb/db/dbformat.cc:12-66 | comparing packed tags orders entries of a key by decreasing sequence number, and values before deletions |
| `Version.FindFile` | server/lib/leveldb/db/version_set.cc:88-108 | binary search finds the first file whose largest key is not before the key |
| `Version.LevelGet` | server/lib/leveldb/db/version_set.cc:378-395 | one file decides the newest visible entry of a disjoint level |
| `Version.Level0Get` | server/lib/leveldb/db/version_set.cc:362-377 | searching overlapping files newest first finds the newest visible entry of level 0 |
| `Version.Get` | server/lib/leveldb/db/version_set.cc:337-434 | searching level by level finds the newest visible entry among all entries, or that there is none |
| `Overlap.SomeFileOverlapsRange` | server/lib/leveldb/db/version_set.cc:126-161 | the scan and the binary search both decide whether any file touches the range |
| `Overlap.GetOverlappingInputs` | server/lib/leveldb/db/version_set.cc:536-577 | returns exactly the files that touch the range, in order; on level 0 the restarting loop ends with the least range that holds the given one and every file it touches |
| `Overlap.PickLevelForMemTableOutput` | server/lib/leveldb/db/version_set.cc:507-533 | the table goes down from level 0, if it overlaps nothing there, exactly as long as it overlaps nothing in the next level and at most 20 MB in the one after, and at most to level 2 |
| `Overlap.SetupOtherInputs` | server/lib/leveldb/db/version_set.cc:1311-1376 | the files of the next level are those that touch the range of the chosen ones; the inputs are widened if and only if that takes in more files of the level, below the size limit, and none of the next; the grandparents are the files two levels down that all inputs touch; and files left behind share no user key with the inputs of their level and stand beside all inputs in the next |
| `Overlap.PickInputs` | server/lib/leveldb/db/version_set.cc:1257-1309 | a compaction from any file has the inputs of SetupOtherInputs for that file, at level 0 with all it drags in |
| `Overlap.MoveExact` | server/lib/leveldb/db/version_set.cc:1431-1438 | a compaction is a move if and only if its file shares no user key with another one of level 0 or with one of the next level, and the files it touches two levels down add up to at most 20 MB |
| `Overlap.TotalAdds` | server/lib/leveldb/db/version_set.cc:49-55 | the total size of two lists of files is the sum of theirs, and that of a single file is its size |
| `VersionBuilder.SaveLevel` | server/lib/leveldb/db/version_set.cc:716-778 | the merge loop gives exactly the base and added files without the deleted ones, by smallest key and then by number if both lists are in that order, on level 0 too |
| `VersionBuilder.MergedDisjoint` | server/lib/leveldb/db/version_set.cc:716-778 | merging files that are apart keeps a level sorted and disjoint |
| `CompactionWork.BaseLevelCursors.IsBaseLevelForKey` | server/lib/leveldb/db/version_set.cc:1448-1467 | for keys asked in increasing order the monotone cursors agree with a full scan of the deeper levels |
| `CompactionWork.DecideDrop` | server/lib/leveldb/db/db_impl.cc:913-939 | the remembered key and sequence number decide the drop rule as stated on the whole input |
| `CompactionWork.DoCompactionWork` | server/lib/leveldb/db/db_impl.cc:884-976 | the output files hold, in order, exactly the entries that survive; between two of them a file ends if and only if the first one filled it or an entry up to the second one stops it |
| `CompactionWork.KeptSurvives` | server/lib/leveldb/db/db_impl.cc:913-937 | an entry is kept if and only if no newer entry of its user key is at or below the smallest snapshot and it is not a deletion at or below it whose key no deeper level has |
| `CompactionWork.DropsAreInvisible` | server/lib/leveldb/db/db_impl.cc:923-937 | dropping changes no answer of any read at or after the smallest snapshot, tombstones included |
| `VersionSteps.AddKeepsVersion` | server/lib/leveldb/db/db_impl.cc:485-494 | putting a flushed table at the level chosen keeps all level invariants and adds exactly its entries |
| `VersionSteps.ReplaceKeepsVersion` | server/lib/leveldb/db/db_impl.cc:834-852 | exchanging inputs for outputs keeps all level invariants |
| `VersionSteps.ReplacedFiles` | server/lib/leveldb/db/db_impl.cc:834-852 | the inputs are gone from their levels, the outputs are in the next level, and every other file is where it was |
| `VersionSteps.UntouchedIsNewer` | server/lib/leveldb/db/version_set.cc:1448-1467 | where the base level test succeeds, every untouched entry of the key is newer than the inputs |
| `CompactionStep.MergedInput` | server/lib/leveldb/db/version_set.cc:1224-1255 | the merged input is sorted and holds exactly the entries of the inputs |
| `CompactionStep.KeptIncreasing` | server/lib/leveldb/db/db_impl.cc:913-937 | without older snapshots at most one entry of each user key is kept |
| `CompactionStep.OutputsFit` | server/lib/leveldb/db/db_impl.cc:951-976 | however the kept entries are cut, the outputs are valid disjoint files with exactly those entries |
| `CompactionStep.CompactionInvisible` | server/lib/leveldb/db/db_impl.cc:834-976 | a compaction changes no answer at the last sequence number |
| `DbImpl.InsertInto` | server/lib/leveldb/db/db_impl.cc:1182-1213 | entry i of the batch becomes, with its kind and value, the memtable entry with sequence number last + 1 + i, and there is no other new one; the answers change as the map does |
| `DbImpl.UpdatesTaken` | server/lib/leveldb/db/write_batch.cc:112-124 | after a batch a key has the value of the last update of it, none if that was a deletion, and what it had if there was no update of it |
| `DbImpl.MergeInputs` | server/lib/leveldb/db/db_impl.cc:834-976 | a compaction replaces its inputs by files of the kept entries, keeps the level invariants and every answer |
| `DbImpl.MoveFile` | server/lib/leveldb/db/db_impl.cc:683-693 | a trivial move puts the file one level down, keeps the level invariants and all entries |
| `DbImpl.Store.Get` | server/lib/leveldb/db/db_impl.cc:1077-1120 | a read answers with the newest visible entry of memtables and files; at the last sequence number that is the value the map has for the key, or none |
| `DbImpl.Store.Write` | server/lib/leveldb/db/db_impl.cc:1162-1222 | each key has the value of its last update in the batch, or none after a deletion, and other keys keep theirs; the memtable gains exactly one entry for each update, numbered from the last sequence number on, which moves by the length of the batch |
| `DbImpl.Store.SwitchMemTable` | server/lib/leveldb/db/db_impl.cc:1322-1344 | freezes the memtable exactly when the previous one has been flushed, and changes no entry |
| `DbImpl.Store.CompactMemTable` | server/lib/leveldb/db/db_impl.cc:457-530 | the frozen memtable becomes one file at the level picked as for PickLevelForMemTableOutput, or none if it is empty; no entry and no answer changes |
| `DbImpl.Store.BackgroundCompaction` | server/lib/leveldb/db/db_impl.cc:655-712 | flushes first; otherwise compacts from the offered file, if there is one: the file moves down if and only if it stands alone as MoveExact says, and else the inputs are replaced by files of the surviving entries; the map stays |
| `DbImpl.Store.Run` | server/lib/leveldb/db/db_impl.cc:655-712 | any run of writes, switches and background work leaves a valid store that reads as the map to which only the writes were applied |
| `MergingIterator.Iterator.FindSmallest` | server/lib/leveldb/table/merger.cc:155-168 | the smallest child is the next place of the merged list |
| `MergingIterator.Iterator.FindLargest` | server/lib/leveldb/table/merger.cc:170-183 | the largest child is the previous place of the merged list |
| `MergingIterator.Iterator.Next` | server/lib/leveldb/table/merger.cc:59-83 | one place forward in the merged list, also after a change of direction |
| `MergingIterator.Iterator.Prev` | server/lib/leveldb/table/merger.cc:85-112 | one place back in the merged list, also after a change of direction |
| `MergingIterator.Iterator.Seek` | server/lib/leveldb/table/merger.cc:51-57 | the first place at or after the target |
| `MergingIterator.Iterator.SeekToFirst` | server/lib/leveldb/table/merger.cc:35-41 | the first place |
| `MergingIterator.Iterator.SeekToLast` | server/lib/leveldb/table/merger.cc:43-49 | the last place |
| `DbIter.LivePairsAnswer` | server/lib/leveldb/db/db_iter.cc:173-203 | a pair is live exactly when a read of its key at the sequence number answers with its value |
| `DbIter.LivePairsIncrease` | server/lib/leveldb/db/db_iter.cc:173-203 | live pairs come in increasing order of user keys, one to a key |
| `DbIter.Iterator.FindNextUserEntry` | server/lib/leveldb/db/db_iter.cc:173-203 | stops at the next live entry and passes none |
| `DbIter.Iterator.FindPrevUserEntry` | server/lib/leveldb/db/db_iter.cc:232-272 | stops before the previous live entry, whose key and value it has saved, and passes no other |
| `DbIter.Iterator.Current` | server/lib/leveldb/db/db_iter.cc:66-76 | key and value are those of the pair the cursor is at, in both directions |
| `DbIter.Iterator.Next` | server/lib/leveldb/db/db_iter.cc:146-171 | one live pair forward, also after a change of direction |
| `DbIter.Iterator.Prev` | server/lib/leveldb/db/db_iter.cc:205-230 | one live pair back, also after a change of direction |
| `DbIter.Iterator.Seek` | server/lib/leveldb/db/db_iter.cc:274-286 | the first live pair whose key is not before the target |
| `DbIter.Iterator.SeekToFirst` | server/lib/leveldb/db/db_iter.cc:288-297 | the first live pair |
| `DbIter.Iterator.SeekToLast` | server/lib/leveldb/db/db_iter.cc:299-304 | the last live pair |
| `StoreIterator.ConcatenatedSorted` | server/lib/leveldb/db/version_set.cc:232-237 | the files of a disjoint level in a row are one sorted table |
| `StoreIterator.ChildrenListed` | server/lib/leveldb/db/version_set.cc:239-256 | the children of a store iterator are sorted, have no key in common and hold exactly the store's entries |
| `StoreIterator.NewIterator` | server/lib/leveldb/db/db_impl.cc:1035-1134 | a new iterator runs over exactly the pairs of the store's map, in key order |
| `LogFormat.AllComplete` | server/lib/leveldb/db/log_format.h:14-30 | nothing is missing from a whole log |
| `LogBytes.RecordHeld` | server/lib/leveldb/db/log_format.h:14-30 | the bytes of a record, at their places in the file: zeros up to the next place for a header, checksum, length, type 1 to 4, payload, and a fragment ends its block unless it is the last one |
| `LogWriter.Writer.EmitPhysicalRecord` | server/lib/leveldb/db/log_writer.cc:75-100 | appends header and payload and moves the block offset |
| `LogWriter.Writer.AddRecord` | server/lib/leveldb/db/log_writer.cc:27-73 | the file grows by the record alone, in fragments laid out as for RecordHeld, and is the log of the records so far |
| `LogReader.Reader.ReadPhysicalRecord` | server/lib/leveldb/db/log_reader.cc:179-256 | returns the next physical record if the file holds all of it, and otherwise ends |
| `LogReader.Reader.ReadRecord` | server/lib/leveldb/db/log_reader.cc:59-162 | assembles the next record if the file holds all of it, and otherwise reports the end |
| `LogReader.Reader.ReadAll` | server/lib/leveldb/db/log_reader.cc:59-162 | reads exactly the records that the file holds all of |
| `LogReader.WriteCrashRead` | server/lib/leveldb/db/log_writer.cc:27-100 | write any records, keep any number of bytes, read: the first n records come back if and only if the log of these n records is no longer than what was kept |
| `Coding.Fixed32RoundTrip` | server/lib/leveldb/util/coding.cc:9-18 | a fixed 32-bit number reads back |
| `Coding.Fixed32Bytes` | server/lib/leveldb/util/coding.cc:9-18 | the four bytes add up to the number, the least significant first |
| `Coding.VarintBytes` | server/lib/leveldb/util/coding.cc:47-73 | seven bits to a byte, the least significant first, all bytes but the last with the high bit, and no byte too many |
| `Coding.Varint32RoundTrip` | server/lib/leveldb/util/coding.cc:47-129 | a varint reads back with its length, and is one byte exactly for numbers below 128 |
| `BlockFormat.DecodeEncoded` | server/lib/leveldb/table/block.cc:53-74 | the fast path and the slow path both give back the three lengths of an entry |
| `BlockBuilder.CommonPrefix` | server/lib/leveldb/table/block_builder.cc:82-88 | the longest common prefix of two keys |
| `BlockBuilder.Builder.Add` | server/lib/leveldb/table/block_builder.cc:73-107 | the block holds one more pair; it shares with the last key exactly their longest common prefix, except at every interval-th pair, which is a restart point and shares nothing |
| `BlockBuilder.Builder.Finish` | server/lib/leveldb/table/block_builder.cc:63-71 | the finished block is the entries, the restart array and its length |
| `BlockBuilder.Build` | server/lib/leveldb/table/block_builder.cc:63-107 | in the built block pair i is a restart point if and only if i is a multiple of the interval, every other pair shares exactly the longest common prefix with the one before, and the bytes are laid out as for BlockLaidOut |
| `BlockLayout.BlockLaidOut` | server/lib/leveldb/table/block_builder.cc:5-27 | the bytes of a block, at their places: for each pair three varint lengths, the rest of its key and its value; then the offset of each restart point in four bytes, the least significant first, and their number |
| `BlockIterator.Iter.ParseNextKey` | server/lib/leveldb/table/block.cc:226-253 | parses exactly the next entry, or reports the end |
| `BlockIterator.Iter.Next` | server/lib/leveldb/table/block.cc:139-142 | the next pair |
| `BlockIterator.Iter.Prev` | server/lib/leveldb/table/block.cc:144-163 | the previous pair, found from a restart point; nowhere from the first one |
| `BlockIterator.Iter.FindRestart` | server/lib/leveldb/table/block.cc:166-191 | the binary search finds the last restart point whose key is before the target, or the first one |
| `BlockIterator.Iter.Seek` | server/lib/leveldb/table/block.cc:165-203 | the first pair whose key is not before the target, for any strict order of the keys |
| `BlockIterator.Iter.SeekToFirst` | server/lib/leveldb/table/block.cc:205-208 | the first pair |
| `BlockIterator.Iter.SeekToLast` | server/lib/leveldb/table/block.cc:210-215 | the last pair |
| `BlockIterator.RoundTrip` | server/lib/leveldb/table/block_builder.cc:63-107 | for any pairs and any restart interval the built block reads back forward and in reverse |
| `Chunker.WrapIsHarmless` | client/chunking/chunker.cc:174-190 | dropping what does not fit in 32 bits leaves the remainder modulo 2^23 alone |
| `Chunker.Rolled` | client/chunking/chunker.cc:183-190 | one rolling step with the table entry of the leaving byte gives the polynomial hash of the moved window |
| `Chunker.AnchorIs` | client/chunking/chunker.cc:183-197 | a place is an anchor if and only if the sum of its window bytes times powers of 257, modulo 2^23, is a multiple of the mask |
| `Chunker.PowerTable` | client/chunking/chunker.cc:53-60 | the table holds the powers of the base modulo 2^23 |
| `Chunker.RemoveTable` | client/chunking/chunker.cc:62-71 | the table entry of a byte cancels its term at the front of the window |
| `Chunker.MaskFor` | client/chunking/chunker.cc:73-81 | the mask is the largest power of two not above the average chunk size |
| `Chunker.NewChunker` | client/chunking/chunker.cc:30-95 | a chunker is set up exactly when minimum, average and maximum are in order |
| `Chunker.VarSizeChunker.FirstFingerprint` | client/chunking/chunker.cc:174-181 | the first fingerprint of a chunk is the polynomial hash of its window |
| `Chunker.VarSizeChunker.FindEnd` | client/chunking/chunker.cc:166-197 | a chunk ends at the first anchor at or after the minimum size, or at the size limit |
| `Chunker.VarSizeChunker.VarSizeChunking` | client/chunking/chunker.cc:157-207 | the cut list is that of the specification; an empty buffer gets the single cut -1 |
| `Chunker.CutIsFirstAnchor` | client/chunking/chunker.cc:169-206 | every cut is the first anchor at or after the minimum size, or the size limit, or the end of the buffer |
| `Chunker.CutsPartition` | client/chunking/chunker.cc:157-207 | cuts increase up to the last byte, and all chunks but the last have sizes between the bounds |
| `Chunker.CutsAfterCut` | client/chunking/chunker.cc:157-207 | after a cut, the remaining cuts are those of the remaining bytes alone, shifted |
| `Chunker.SameSuffixSameCuts` | client/chunking/chunker.cc:157-207 | two buffers with equal bytes after a cut of each are cut alike from there on |
| `RingBuffer.Ring.InsertItem` | client/utils/BasicRingBuffer.hh:49-62 | on the array the producer waits, is counted and signals as the step of the waiting model says, and the item is the newest of the queue |
| `RingBuffer.Ring.ExtractItem` | client/utils/BasicRingBuffer.hh:64-81 | on the array the consumer waits, is counted and signals as the step of the waiting model says, and gets the oldest item, of which there is one |
| `RingBuffer.InsertKeeps` | client/utils/BasicRingBuffer.hh:49-62 | a single producer that waits once never overflows the buffer |
| `RingBuffer.ExtractKeeps` | client/utils/BasicRingBuffer.hh:64-81 | a single consumer that waits once never takes from an empty buffer |
| `Pipeline.StepKeeps` | client/coding/encoder.cc:24-50 | every step of adder, workers and collector keeps the invariant that ties each lane to its items |
| `Pipeline.OrderIsKept` | client/coding/encoder.cc:83-88 | under every schedule the collector receives the processed items in the order they were added |
| `Pipeline.NeverStuck` | client/coding/encoder.cc:309-317 | in every reachable state some thread can move: a worker or the collector while items are on their way, otherwise the adder |
| `Pipeline.EveryScheduleEnds` | client/coding/encoder.cc:24-50 | no schedule of the threads goes on for ever: the number of its steps is bounded by the items and buffers at the start |
| `Pipeline.EveryScheduleDelivers` | client/coding/encoder.cc:24-50 | when a schedule cannot go on, the collector has received the results of all items in order |
| `Pipeline.WriteSecrets` | client/coding/decoder.cc:59-89 | the buffered writes of the collector give the in-order concatenation of the secrets |
| `Pipeline.WriteCollected` | client/coding/decoder.cc:59-89 | applied to what the pipeline delivered, they give the results of the items in the order in which these were added |
| `ContainerNames.IncrGlobalFileName` | server/dedup/minDedupCore.cc:324-342 | counts the last letter that is not z up and sets those behind it to a, so the rank grows by one; or fails exactly when all letters are z |
| `ContainerNames.RankInjective` | server/dedup/minDedupCore.cc:324-342 | different names have different ranks, so counted names are new |
| `ShareIndex.ReferredRefs` | server/dedup/minDedupCore.cc:708-778 | counting a reference raises exactly that user's count by one and keeps one entry to a user |
| `Containers.OneOwner` | server/dedup/minDedupCore.cc:808-858 | in every valid state each byte of each container belongs to exactly one indexed share |
| `Containers.NewShareOnce` | server/dedup/minDedupCore.cc:808-858 | a new share at the end of its container has bytes of its own, and the container has no others |
| `Containers.EvictionExact` | server/dedup/minDedupCore.cc:378-416 | evicting a node leaves every share reachable if and only if the node has data or nothing is indexed in its container |
| `DedupServer.EmptyShareLost` | server/dedup/minDedupCore.cc:378-416 | two users' uploads, the second late enough to evict the first one's buffer, lose the empty share: it is indexed and its container is nowhere |
| `Containers.EvictionSafe` | server/dedup/minDedupCore.cc:446-485 | every eviction keeps all shares readable that are not empty, and every byte with its one owner |
| `Containers.StoredForGood` | server/dedup/minDedupCore.cc:678-890 | a share keeps its place and its bytes through every later state |
| `FirstStage.IntraUserIndexUpdate` | server/dedup/minDedupCore.cc:548-637 | reports a duplicate exactly when the user owns the share, and then counts one more reference |
| `FirstStage.CheckPackage` | server/dedup/minDedupCore.cc:992-1033 | a share is answered as a duplicate if and only if the user owned it before the package; the size of the bytes asked for; counts that lack exactly the missing shares |
| `BufferNodes.EvictIdle` | server/dedup/minDedupCore.cc:421-490 | a node of another user idle for more than 18 seconds goes to disk with its data, if it has any, and is gone; the own node is touched, the others stay as they are, nothing else changes, and all shares stay readable |
| `BufferNodes.FindOrCreateBufferNode` | server/dedup/minDedupCore.cc:421-537 | a user who has a node keeps it, touched, and gets no other; a user without one gets an empty one with the next name, used now; it stands beside exactly the nodes that were not idle, and all shares stay readable |
| `BufferNodes.StoreShareContainer` | server/dedup/minDedupCore.cc:893-940 | a full buffer goes to disk under its name and the node begins a new container |
| `SecondStage.InterUserIndexUpdate` | server/dedup/minDedupCore.cc:675-890 | one reference moves from pending to counted; an indexed share changes no buffer and no file; a new one is appended to the user's container if and only if both fit its size, and otherwise the buffer goes to disk under its name and the share begins a container with the next name; the index has place, size and user |
| `SecondStage.StoreShare` | server/dedup/minDedupCore.cc:808-858 | the same for a share that the index does not have, as the whole new index, buffers and disk |
| `SecondStage.StorePackage` | server/dedup/minDedupCore.cc:1079-1115 | over a package the user's node goes through a chain of containers, of which each but the last went to disk because the share that the next one begins with did not fit into it, and nothing else went to disk |
| `SecondStage.StoreEntry` | server/dedup/minDedupCore.cc:1088-1112 | accepts the bytes of a share if and only if they have its fingerprint |
| `DedupServer.Server.FirstStageDedup` | server/dedup/minDedupCore.cc:992-1033 | keeps the server valid; asks for exactly the shares that the user did not own |
| `DedupServer.Server.SecondStageDedup` | server/dedup/minDedupCore.cc:1047-1115 | keeps the server valid; counts exactly the shares before the first one whose bytes do not hash to its fingerprint; a buffer of the user goes to disk only because the next new share did not fit |
| `ReferenceCounts.StagesCancel` | server/dedup/minDedupCore.cc:992-1115 | what the first stage of a package leaves pending, its second stage takes away |
| `ReferenceCounts.OccurrencesAre` | server/dedup/minDedupCore.cc:992-1033 | the uses that a package counts for a share are the multiplicity of its fingerprint in the package |
| `DedupSessions.Serve` | server/dedup/minDedupCore.cc:992-1115 | for any interleaving of stages of any sessions and users the server stays valid, no share moves, pending uses are those of the open sessions, and once all packages have completed the count of share and user has grown by the number of times the user uploaded the share |
| `Uploader.CloseUp` | client/comm/uploader.cc:310-322 | closing up the container in place leaves exactly the bytes of the shares the server asked for, in order |
| `Uploader.UniqueAligned` | client/comm/uploader.cc:310-322 | the server's data offset at each share it asked for points at exactly that share's bytes |
| `Uploader.UniqueLength` | server/dedup/minDedupCore.cc:1018-1028 | the closed-up bytes end at the size the server announced |
| `Uploader.HonestAccepted` | server/dedup/minDedupCore.cc:1093-1110 | no share whose fingerprint was made from its bytes is refused |
| `Uploader.SendPackage` | client/comm/uploader.cc:293-333 | a package is accepted, and raises the user's reference counts by the shares in it and no others |
| `Uploader.Uploader.PerformUpload` | client/comm/uploader.cc:293-333 | sends head, metadata and asked-for bytes of the batch as the next package |
| `Uploader.Uploader.UpdateHeader` | client/comm/uploader.cc:344-368 | moves the coming counters to the past ones, conserving their sums, and empties the buffers |
| `Uploader.Uploader.MakeRoom` | client/comm/uploader.cc:54-58 | sends the buffers if and only if the next share does not fit behind their shares |
| `Uploader.Uploader.AddShare` | client/comm/uploader.cc:49-73 | takes the next share after sending what leaves no room for it; nothing is lost or repeated |
| `Uploader.HeadAddsUp` | client/comm/uploader.cc:344-368 | past and coming counters of the last package account for all shares and bytes of the file |
| `Uploader.Upload` | client/comm/uploader.cc:49-79 | the packages of a file concatenate to its shares, each well formed, each sent only because the first share of the next one did not fit, and the server counts the file once more for the user |
| `Uploader.UploadedIsStored` | server/dedup/minDedupCore.cc:992-1115 | after its upload every share of a file is indexed, counted for the user and stored, with the uploaded bytes unless the hash collides |
| `ContainerCache.LookUpFinds` | server/dedup/minDedupCore.cc:952-975 | the buffer of a node, or else the file on disk, gives the bytes of the container, wherever it is, and only then |
| `ContainerCache.ReadContainer` | server/dedup/minDedupCore.cc:952-975 | the scan of the nodes and then of the disk is that look-up |
| `ContainerCache.PushFront` | server/dedup/minDedupCore.cc:1360-1388 | the index array is rotated so that one slot comes first |
| `ContainerCache.Cache.Use` | server/dedup/minDedupCore.cc:1350-1429 | gives the copy at hand, or else takes one now, or fails if the container is nowhere; the copy comes first, slots and names stay distinct |
| `ContainerCache.UsedNames` | server/dedup/minDedupCore.cc:1360-1388 | whatever is used, the names at hand go by last use |
| `ContainerCache.MostRecentAtHand` | server/dedup/minDedupCore.cc:1356-1388 | after any uses the containers at hand are the four used most recently, in that order |
| `ContainerCache.LastUseOrder` | server/dedup/minDedupCore.cc:1356-1388 | in that order every name used stands once, before exactly the names whose last use was earlier |
| `ShareStream.Sender.Put` | server/dedup/minDedupCore.cc:1431-1461 | a piece is never split, and a message is sent only when the next piece does not fit |
| `ShareStream.Receive` | client/comm/downloader.cc:36-80 | the client's loop recovers head and shares from the messages of any file, and ends if and only if there is a share |
| `Restore.ReadShareData` | server/dedup/minDedupCore.cc:1338-1470 | a share is read if and only if it is indexed and its container is at hand or can be read; it is the bytes of the copy at hand, and of memory where the copy is too short |
| `ShareStream.PayloadsArePieces` | server/dedup/minDedupCore.cc:1431-1461 | however whole pieces are grouped into messages, the payloads concatenate to the pieces |
| `Restore.StreamShares` | server/dedup/minDedupCore.cc:1306-1502 | streams the shares of the recipe in order, up to the first one that is not available |
| `Restore.RestoreShareFile` | server/dedup/minDedupCore.cc:1296-1520 | succeeds if and only if all shares are available, and then the payloads concatenate to head and all shares as read, in messages as full as can be; otherwise a prefix of that |
| `Restore.Download` | client/comm/downloader.cc:36-80 | the client ends up with the shares of the recipe in order, as the server read them, whatever others store meanwhile; it ends if and only if the restore succeeds and there is a share |
| `RestoreExact.CopySuffices` | server/dedup/minDedupCore.cc:1466-1470 | bytes from a copy of the beginning of a container are right, whatever memory holds behind it, if and only if the copy reaches far enough |
| `RestoreExact.StoredByThen` | server/dedup/minDedupCore.cc:808-858 | a share lies within an earlier copy of its container if and only if it was indexed by then |
| `RestoreExact.ReadAsStored` | server/dedup/minDedupCore.cc:1338-1470 | for every history of the server, a share is restored as stored if and only if it is empty or was indexed when the copy of its container was taken |
| `RestoreExact.StoredBefore` | server/dedup/minDedupCore.cc:1296-1520 | shares that were stored when the restore began are available and restored as they were then, whatever others store meanwhile |
| `RestoreExact.StaleCopyServed` | server/dedup/minDedupCore.cc:1350-1429 | a run of the model in which a restore succeeds and delivers wrong bytes for a share stored behind its copy |
| `EndToEnd.ServeMeanwhile` | server/dedup/minDedupCore.cc:992-1115 | any requests, served before each look-up, make a history in which nothing stored before is lost or moved |
| `EndToEnd.UploadAndDownload` | client/comm/uploader.cc:49-79 | upload a file, let others make any requests before each share is looked up, download: the client has the uploaded shares in order, or two different contents with one fingerprint are exhibited |

## Left out

- AONT-RS and the older CAONT-RS encoders and decoders: variants of the same package and matrix code.
- RampCodec.Codec.constructor: asks for n + k at most 256, which the code does not check; likewise n at most 256 and different share IDs are asked of the callers of both codecs.
- Inversion.SquareMatrixInverting: the field laws of the GF-Complete library are hypotheses; its arithmetic is not modelled.
- DbImpl.Store.Run: no user snapshots, no write errors, no recovery, and each flush and each compaction is one step; seek-triggered and manual compactions start from any file or not at all.
- DbImpl.Store.Write: one writer at a time; grouping the batches of waiting writers and syncing the log are not modelled.
- MergingIterator.Iterator.Next: children have no key in common, as in every valid store, so the order among equal keys does not matter.
- StoreIterator.NewIterator: files of a level in a row are one table; opening them lazily is not modelled.
- LogReader.Reader.ReadRecord: files are prefixes of written logs read from offset 0, so of the corruption reports only those for a cut end occur; the checksum is an arbitrary function.
- BlockLayout.BlockLaidOut: blocks below 4 GB, because offsets have 32 bits.
- BlockIterator.Iter.Seek: blocks as built and below 4 GB; reports of corrupt entries are not modelled.
- Table files around blocks (index blocks, filters, caches, compression), manifest and version edits on disk.
- Chunker.VarSizeChunker.VarSizeChunking: the window is no longer than the minimum chunk; fixed-size chunking is left out as easy.
- Chunker.MaskFor: masking with 2^k - 1 is modelled as the remainder by 2^k.
- Pipeline.EveryScheduleEnds: no spurious wakeups, one producer and one consumer to a buffer; the metadata segmentation of the encoder's collector is left out.
- DedupServer.Server.SecondStageDedup: stages are atomic, container names are not exhausted, and shares are no larger than a container; the code copies a larger one past the end of the buffer, where nothing is defined. Failed input and output is not modelled.
- SecondStage.StoreEntry: asks for shares no larger than a container, for the same reason.
- DedupSessions.Serve: second stages with such shares, of unknown sessions or with the wrong amount of data change nothing.
- BufferNodes.EvictIdle: the linked list of nodes is a sequence; link surgery is not modelled.
- Uploader.Upload: one file to an upload, not empty, with shares of at most the buffer size; the metadata buffer is a list of records.
- ShareStream.Sender.Put: an entry and its share fit into one message; the eight bytes of message head are reserved and not filled in.
- ShareStream.Receive: the two records are laid out by any functions of the right lengths that can be read back.
- Restore.RestoreShareFile: the recipe is a list of records; an entry and its share fit into one message. Memory behind a copy is any function of slot and place.
- EndToEnd.UploadAndDownload: shares are not empty and fit into one message; the file is not empty, because the end of an upload travels with its last share.
- Recipe files and the metadata deduplication of `DedupCore`, key files, the backend storer, sockets and threads of server and client.
