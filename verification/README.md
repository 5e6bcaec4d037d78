# dottorrent, modelled and verified in Dafny

dottorrent makes and checks BitTorrent v1, v2 and hybrid metafiles. This project models the parts of it that carry state
across many steps, and proves what they promise: the hashing pipeline from files to pieces roots, the shutdown of its
worker pools, the piece verifier, and the structured encodings of a metafile and of magnet links.

`dafny verify dfyconfig.toml` checks everything.

## What is modelled

- Hashes are free constructors (`Digests`): a digest is its input, so equal digests mean equal inputs. Bytes are integers
  below 256; the text of links is made of octets.
- `Merkle`, `FileHashes`, `PieceWriter`: the flat vector of a complete binary tree, the hashes BEP 52 asks for as recursive
  functions of the block digests, and the writer object whose messages come in any order.
- `Storage`, `Pieces`, `V1Reader`, `V1Hasher`, `V2Reader`, `V2Hasher`, `V2HasherMulti`, `HybridLayout`: files on disk or missing,
  the readers and chunk hashers as classes whose methods are proved against functions of the file list, and the padding
  layout of hybrid torrents.
- `PoolProtocol`, `PoolDeadlocks`, `PoolShutdown`: a bounded queue, T workers, stop flags, wake-ups and the drain phase as
  interleaved steps of a state machine, for chunk hashers and for queue processors.
- `HashingRun`: the stages put together as the staged `wait` does, over all schedules and arrival orders.
- `PieceVerifier`, `V2PieceVerifier`, `VerifierRun`: the piece map and its offset table, and a whole verification run.
- `FileTree`, `FileTreeRoundTrip`, `FileTreeReading`, `HybridFiles`, `Trackers`, `AnnounceList`, `AnnounceCodec`,
  `AnnounceAcceptance`, `PieceLayers`: bencode values as a tree datatype and the encoders and parsers over it.
- `Hex`, `PercentEncoding`, `MagnetUri`, `MagnetParsing`, `MagnetRoundTrip`: links.
- `Checksums`, `Progress`: per-file checksums from a chunked stream, and the remembered search for the current file.

Calls into code outside the library become parameters: what is on disk is part of the file list, the value of an
uninitialised variable is an argument (`junk`, `size`), and the standard algorithms on sorted ranges are the halving search
they prescribe. A failed contract of the source (`Expects`, `Ensures`) is either a `requires`, where callers have to respect
it, or a result (`None`, `false`, `ContractFailed`), where the input decides.

## Where the code and its promises part

- Builds with DOTTORRENT_USE_ISAL hash their trees with the multi-buffer `update`, which takes the parent of the left child's
  index: the hash of pair j goes one node too far to the left, and the last node of every inner layer stays zero. Its root
  is that of BEP 52 if and only if the tree has at most two leaf slots (`Merkle.MultiRootExactly`), so in those builds every
  file of more than two blocks gets a wrong pieces root, with either chunk hasher (`HashingRun.HashingRunIsCorrect`,
  `HashingRun.ThreeBlocks`), and unless a piece is one block, its intact copy does not verify as complete
  (`PieceVerifier.BitsTellTheBytes`).
- The v2 reader notices the end of a file only by reading past it, so a file whose size is a multiple of the chunk size
  gets one more, empty, chunk. For a file with content the single-buffer hasher makes a leaf of it: the tree overflows or
  the root is wrong. The multi-buffer hasher does not. In a verification run the extra leaf changes no bit, but overflows
  the tree when the number of blocks of the file is a power of two.
- The reader's `push` contract fails for a storage of one or more regular files without any bytes, and for a file on disk
  whose size is a multiple of the chunk size and which holds all bytes of the storage: with either hasher, a torrent of one
  file of exactly one chunk ends the program. `V2Reader.ReaderFinishesExactly` states the condition,
  `HashingRun.HashingSucceeds` the one under which all hashing runs finish rightly, and
  `VerifierRun.VerificationSucceeds` the one for verification.
- The constructor of the v2 verifier throws for a regular entry without v2 data, which the parser makes of an empty file
  without a pieces root (`V2PieceVerifierObject.V2PieceVerifier.Create`). Verifying a hybrid torrent with the multi-buffer
  hasher fails a contract at the first byte, because that verifier has no queue for the v1 pieces
  (`VerifierRun.HashersAcceptExactly`).
- A hasher pool can deadlock in `wait` with fewer than two queue slots per worker, which a memory limit allows
  (`PoolShutdown.CapacityRule`); a queue processor with several workers can, because the clean-up of one takes the wake-ups of
  another. The library runs its processors with one worker.
- `left_child_n` and `right_child_n` go n + 1 steps down; their comments say n.
- `optimize_alignment` on a storage that has padding bytes already fails its closing contract.
- A nested announce list with a URL in two tiers can fail a contract of the parser although it is well formed:
  `AnnounceAcceptance.AcceptedExactly` states when, as a condition on the nested list, and
  `AnnounceAcceptance.RepeatedTierFails` a simple family of such lists.
- Per-file checksums of a v1 torrent fail a contract when a missing or padding file has a piece to itself: the reader pushes
  chunks without data to the checksum queues as well (`Checksums.V1ChecksumHasher.HashAll`).
- For a file in the tree of a hybrid torrent that has content and is not in its list, the parser dereferences the end
  iterator; `HybridFiles.ParseFileListAndTree` returns an error there.
- A magnet without `xl` has an uninitialised size; topics are written unencoded and read decoded. `MagnetRoundTrips` gives the
  exact condition.
- A percent escape of letters that are no digits writes an uninitialised octet and reports success
  (`PercentEncoding.UnsetOctet`); `PercentEncoding.DeterminedExactly` states which texts have no such escape.
- `from_hexadecimal_string` ignores the last character of an odd-length string.
- In a chunk that a missing file completes, the v1 reader's `file_index` field is one less than in a chunk that a file on
  disk completes, and wraps around when the chunk begins in the first file (`V1Reader.FileIndexWrapsAround`). No v1 hasher
  reads the field.

## Model

| member | source | states |
|---|---|---|
| HashingRun.HashingRunIsCorrect | src/storage_hasher.cpp:93-209 | for every schedule of the hasher pool, every order in which their leaf messages reach the writer and every schedule of the writer, a v2 run whose reader gets to the end leaves each non-empty file on disk with the pieces root and piece layer of BEP 52, no contract of the writer failing, if and only if no file gets the extra leaf of an empty chunk and, in builds with multi-buffer hashing, none has more than two blocks; the contracts of the hashers hold for every chunk |
| HashingRun.HashingSucceeds | src/storage_hasher.cpp:93-209 | with pools that cannot deadlock, runs finish and every one of them is right, no contract failing in the reader, the hashers or the writer, if and only if for every file the reader's contract holds, no extra leaf comes and the tree update of the build is right: a condition on the sizes, the files on disk, the build and the kind of hasher |
| HashingRun.ThreeBlocks | src/v2_piece_writer.cpp:150-171 | in a build with multi-buffer hashing no finished run over one file of three blocks is right, whichever chunk hasher it uses |
| HashingRun.RunsFinish | src/storage_hasher.cpp:186-209 | with such pools finished runs exist if and only if the storage has a byte, if it has a file, and no file on disk whose size is a multiple of the chunk size holds all bytes |
| HashingRun.CompletedRunExists | src/storage_hasher.cpp:186-209 | with pools that cannot deadlock a storage the reader gets through has a finished run, so the theorems about finished runs are not empty |
| HashingRun.OnlyFileOfOneChunk | src/v2_chunk_reader.cpp:46-79 | a storage of one file of one whole chunk fails the reader's contract with either hasher, although the multi-buffer one would send no extra leaf |
| HashingRun.OnlyFileIsEmpty | src/v2_chunk_reader.cpp:46-79 | so does a storage of one empty file |
| HashingRun.WriterRun | src/v2_piece_writer.cpp:150-171 | the same for every interleaving of the leaf messages of all files, in both kinds of build |
| HashingRun.FileRun | src/v2_piece_writer.cpp:106-171 | one file: whatever order its leaves come in it ends with its BEP 52 root and layer exactly when it gets no extra leaf and, in builds with multi-buffer hashing, has at most two blocks |
| HashingRun.ExtraLeafRun | src/v2_chunk_hasher_sb.cpp:69-74 | a size that is a positive multiple of the chunk size overflows the tree (contract failure) or ends in a root or layer other than that of BEP 52 |
| HashingRun.ExtraLeafChangesRoot | src/v2_chunk_hasher_sb.cpp:69-74 | the digest of no bytes in a slot that should be zero always changes the root |
| HashingRun.EmptyFileRun | src/v2_piece_writer.cpp:161-170 | an empty file never makes a contract fail, with or without the extra leaf |
| HashingRun.V1RunIsCorrect | src/storage_hasher.cpp:99-125 | for every schedule and arrival order a completed v1 run fills the piece table: a slot stays unset if and only if its piece lies inside one missing or padding file and behind the chunk that file found begun, and every other slot has the hash of its bytes of the zero-substituted concatenation; with all files on disk every piece has the hash of its bytes; the contract of the hasher holds for every chunk, and the chunks hashed report exactly all bytes as done |
| HashingRun.V1RunExists | src/storage_hasher.cpp:186-209 | with pools that cannot deadlock such runs exist for whatever the reader has pushed |
| HashingRun.HybridRunIsCorrect | src/storage_hasher.cpp:126-150 | a finished hybrid run on the aligned storage fails no contract of the hashers or of the v1 writer, leaves the v1 slot of every piece of a file on disk with the hash of that piece of the zero-padded concatenation and those of missing files unset, and is right on the v2 side if and only if no file gets an extra leaf and, in builds with multi-buffer hashing, none has more than two blocks |
| HashingRun.HybridRunExists | src/storage_hasher.cpp:186-209 | an aligned storage the reader gets through has such a run |
| Arith.Log2CeilLeast | include/dottorrent/utils.hpp:112-118 | `log2_ceil(n)` is the least h with n <= 2^h |
| Arith.Log2FloorUnique | include/dottorrent/utils.hpp:112-114 | `log2_floor(x)` is the only k with 2^k <= x < 2^(k+1) |
| Arith.DivCeilCounts | include/dottorrent/utils.hpp:107-110 | `div_ceil(x, y)` counts the groups of y that x items start: k is below it exactly when k*y < x |
| Arith.DivCeilAsQuotient | src/v2_piece_writer.cpp:94-94 | the two ways the source rounds a quotient up agree |
| Merkle.PositionsAreFlatIndices | include/dottorrent/merkle_tree.hpp:232-251 | (layer, index) to flat index is a bijection onto the vector of a tree of each height, and the layer is recovered from the index |
| Merkle.ChildPositions | include/dottorrent/merkle_tree.hpp:253-263 | children and parents of flat indices are the neighbours in the layers below and above |
| Merkle.NthChildren | include/dottorrent/merkle_tree.hpp:265-271 | `left_child_n` and `right_child_n` are n + 1 steps down, one more than their comments say |
| Merkle.SubRootInjective | include/dottorrent/merkle_tree.hpp:93-105 | equal subtree roots come from equal leaves |
| Merkle.SubRootReadsItsLeaves | include/dottorrent/merkle_tree.hpp:93-105 | a subtree root depends on nothing but the leaves below it |
| Merkle.SubRootOfLayer | include/dottorrent/merkle_tree.hpp:93-105 | hashing on from any layer gives the same root as hashing from the leaves |
| Merkle.MerkleTree.SetLeafNodes | include/dottorrent/merkle_tree.hpp:75-84 | the vector is sized for the least complete tree with that many leaves (height 1 for none), all leaves have the value, and `tree_height` gives that height back |
| Merkle.MerkleTree.SetLeaf | include/dottorrent/merkle_tree.hpp:197-230 | changes the one leaf and nothing else |
| Merkle.MerkleTree.Update | include/dottorrent/merkle_tree.hpp:93-105 | every node of every layer becomes the root of the leaves it covers; leaves are kept |
| Merkle.MerkleTree.UpdateMulti | include/dottorrent/merkle_tree.hpp:108-136 | the update for a multi-buffer hasher leaves every node with the value of the recursive `MultiNode`, however often it runs, and the leaves as they were |
| Merkle.MerkleTree.SubmitPairs | include/dottorrent/merkle_tree.hpp:111-127 | the job of each pair has its left child and then its right one |
| Merkle.MerkleTree.CollectPairs | include/dottorrent/merkle_tree.hpp:128-134 | node i of the layer above gets the hash of pair i + 1, the last one none, and a single node that of pair 0 |
| Merkle.MultiRootExactly | include/dottorrent/merkle_tree.hpp:108-136 | the root of that update is the root of the leaves if and only if the tree has at most two leaf slots |
| Merkle.MultiRootOfThree | include/dottorrent/merkle_tree.hpp:128-134 | the root over three blocks holds the third one alone, and is not that of BEP 52 |
| Merkle.MerkleTree.UpdateLayer | include/dottorrent/merkle_tree.hpp:96-103 | one layer of pairs fills the layer above with subtree roots and leaves the layers below alone |
| Merkle.MerkleTree.HashPair | include/dottorrent/merkle_tree.hpp:97-102 | one round stores the hash of both nodes at their parent, although the index is advanced in between |
| Merkle.MerkleTree.Root | include/dottorrent/merkle_tree.hpp:152-156 | in a hashed tree the root over all leaves |
| Merkle.MerkleTree.GetLayer | include/dottorrent/merkle_tree.hpp:164-169 | in a hashed tree node i of a layer is the root of the leaves it covers |
| FileHashes.PieceLevelFits | src/v2_piece_writer.cpp:119-142 | the tree is higher than the piece level exactly when the file is larger than a piece, and then the level has room for ceil(size/P) pieces |
| FileHashes.PieceIsBlocks | src/v2_piece_writer.cpp:119-120 | a piece is 2^g whole blocks for the g the source computes with logarithms |
| FileHashes.PieceLayer | src/metafile_serialization.cpp:349-356 | the layer is non-empty exactly when the file is larger than a piece, the condition under which it is written |
| FileHashes.RootIdentifiesContent | src/v2_piece_writer.cpp:123-124 | hashes being injective, equal pieces roots mean equal file contents, sizes included |
| PieceWriter.AnyOrderCompletesFile | src/v2_piece_writer.cpp:150-171 | any arrival order of leaves 0..n-1, n at least the block count, gives the same root and layer, or a failed contract exactly when there are more leaves than slots |
| PieceWriter.AnyOrderGivesBep52 | src/v2_piece_writer.cpp:106-171 | whatever the arrival order, root and layer are the recursive specification of BEP 52, with the multi-buffer update if and only if the file has at most two blocks |
| PieceWriter.FilesAreIndependent | src/v2_piece_writer.cpp:157-165 | interleaving the messages of several files gives each file what its own messages alone would give |
| PieceWriter.ProjectOfReordered | src/v2_piece_writer.cpp:157-165 | reordering the messages of all files only reorders those of each file |
| PieceWriter.V2PieceWriter.constructor | src/v2_piece_writer.cpp:87-104 | tree i belongs to file i, empty for padding; all leaves are zero |
| PieceWriter.V2PieceWriter.SetFinishedPiece | src/v2_piece_writer.cpp:150-171 | one message changes its own file only, by storing the leaf and, from the last block on, completing the file |
| PieceWriter.V2PieceWriter.SetPieceLayersAndRoot | src/v2_piece_writer.cpp:107-143 | the entry gets the root and the cut of its hashed tree; no other file changes |
| PieceWriter.V2PieceWriter.CutPieceLayer | src/v2_piece_writer.cpp:119-142 | the cut is empty for files of at most a piece, else the subtree roots of the data pieces without the balancing ones |
| PieceWriter.CutFits | src/v2_piece_writer.cpp:134-140 | the kept part lies inside the piece level |
| V1Reader.V1ChunkReader.Run | src/v1_chunk_reader.cpp:8-83 | with any files missing, the chunks pushed cover the zero-substituted concatenation piece by piece, each starting where the one before ends; the null chunks are exactly the pieces inside one missing or padding file and behind the chunk that file found begun; every chunk has the file index that follows from the offsets noted; the piece index ends at `piece_count`, and the bytes read are those of the files on disk |
| V1Reader.V1ChunkReader.ReadFile | src/v1_chunk_reader.cpp:37-67 | reading a file keeps piece_index*P + chunk_offset at the bytes consumed and the buffer filled with exactly those bytes |
| V1Reader.V1ChunkReader.ReadPart | src/v1_chunk_reader.cpp:38-62 | one read puts the next bytes of the file into the chunk and pushes it when full; a short one ends the file |
| V1Reader.V1ChunkReader.HandleMissingFile | src/v1_chunk_reader.cpp:85-141 | a missing file is accounted for by zero bytes up to the chunk end, one null chunk per whole piece behind that and zero bytes for the rest, so that the chunk left open holds just those; the chunk it completes is pushed with an index one below that of the first file noted |
| V1Reader.FileIndexWrapsAround | src/v1_chunk_reader.cpp:109-114 | a file on disk and a missing one that fill a chunk give it file index 2^32 - 1 |
| V1Reader.V1ChunkReader.FillCurrentChunk | src/v1_chunk_reader.cpp:96-124 | the zero fill stops at the chunk end or the end of the file, what is missing then starts at the first chunk boundary in the file, and a full chunk is pushed |
| V1Reader.V1ChunkReader.PushNullPieces | src/v1_chunk_reader.cpp:126-136 | every whole piece of what is missing gets a null chunk, so the rest is the remainder modulo the piece size |
| V1Reader.V1ChunkReader.PushLastChunk | src/v1_chunk_reader.cpp:71-82 | the last partial chunk completes the pieces |
| V1Reader.OnePieceChunks | src/v1_chunk_reader.cpp:94-136 | with chunks of one piece the null chunks are all the pieces inside one missing or padding file |
| V1Reader.FarInside | src/v1_chunk_reader.cpp:94-136 | whatever the chunk size, a piece a chunk or more into a missing file and inside it goes without data |
| V1Reader.SentNullInside | src/v1_chunk_reader.cpp:126-136 | a piece that goes without data is zero bytes of one missing or padding file |
| V1Reader.DataBetween | src/v1_chunk_reader.cpp:37-62 | no piece of a chunk with data is one of those that go without |
| V1Reader.FileIndexOnDisk | src/v1_chunk_reader.cpp:45-52 | with all files on disk the file index of a chunk is that of the first file that reaches its start |
| V1Hasher.EveryPieceOnce | src/v1_chunk_hasher_sb.cpp:14-48 | the chunks deliver piece 0, 1, ... each once, and hash each over exactly its own bytes if and only if it is not one of those sent without data |
| V1Hasher.TableFromMessages | src/v1_piece_writer.cpp:57-60 | setting the hashes in any order leaves unset exactly the slots of the pieces sent without data and gives every other its hash |
| V1Hasher.SetPiecesAnyOrder | src/file_storage.cpp:218-223 | messages that agree on each index leave in any order each slot with its hash and the others untouched |
| V1Hasher.V1ChunkHasherSb.HashChunk | src/v1_chunk_hasher_sb.cpp:14-48 | one hash per piece of the chunk with consecutive indices; null chunks count a piece as done and hash nothing |
| V1Hasher.AllBytesDone | src/v1_chunk_hasher_sb.cpp:17-48 | the chunks of a run report all bytes of the storage as done, once |
| V2Reader.V2ChunkReader.Run | src/v2_chunk_reader.cpp:8-88 | every file is cut into chunks of its own with piece indices from 0 and an empty chunk after an exact fit; the push contract holds throughout if and only if the last piece index of every regular file is below `piece_count` |
| V2Reader.ReaderFinishesExactly | src/v2_chunk_reader.cpp:46-79 | every chunk's piece index is below `piece_count` if and only if the storage has a byte, if it has a regular file, and no file on disk whose size is a multiple of the chunk size holds all bytes |
| V2Reader.AllowedByFile | src/v2_chunk_reader.cpp:78-79 | the contract holds for every chunk exactly when it holds for the last chunk of every file |
| V2Reader.V2ChunkReader.ReadFile | src/v2_chunk_reader.cpp:46-70 | the end of a file is noticed by a short read only, which gives the extra empty chunk |
| V2Hasher.FileCoverage | src/v2_chunk_reader.cpp:46-65 | cutting into chunks and chunks into blocks emits the leaves of the file in order, plus the digest of no bytes exactly for the single-buffer hasher and sizes that are multiples of the chunk size |
| V2Hasher.LeafCoverage | src/v2_chunk_hasher_sb.cpp:50-74 | leaf k is the digest of block k, once, and nothing else, if and only if the hasher is the multi-buffer one or the size is no multiple of the chunk size |
| V2Hasher.V2ChunkHasherSb.HashChunk | src/v2_chunk_hasher_sb.cpp:36-139 | emits the leaf messages of the chunk at their place in the file and, for hybrid torrents, its v1 pieces at their global index |
| V2Hasher.V2ChunkHasherSb.HashBlocks | src/v2_chunk_hasher_sb.cpp:61-74 | one leaf per block, and one for no bytes when the chunk is empty |
| V2Hasher.V2ChunkHasherSb.HashPieces | src/v2_chunk_hasher_sb.cpp:84-137 | whole pieces, then an incomplete one, zero-filled exactly where padding follows |
| V2Hasher.InitializeV1Offsets | src/v2_chunk_hasher_sb.cpp:14-29 | the table counts the pieces of the regular files in front of each file |
| HybridLayout.RegularBytesDone | src/v2_chunk_hasher_sb.cpp:43-48 | the chunks of a v2 run report the bytes of all regular files, missing ones included |
| V2HasherMulti.V2ChunkHasherMb.HashChunk | src/v2_chunk_hasher_mb.cpp:36-130 | submitting all jobs and collecting them by index emits what the single-buffer hasher emits, but nothing for an empty chunk |
| V2HasherMulti.V2ChunkHasherMb.SubmitBlocks | src/v2_chunk_hasher_mb.cpp:59-68 | job i holds exactly the bytes whose digest is leaf i |
| V2HasherMulti.V2ChunkHasherMb.SubmitPieces | src/v2_chunk_hasher_mb.cpp:94-117 | job k holds piece k, the last one filled up in a second submission where padding follows |
| V2HasherMulti.V2ChunkHasherMb.CollectPieces | src/v2_chunk_hasher_mb.cpp:119-126 | digests are collected in piece order under global indices |
| HybridLayout.FileStorage.OptimizeAlignment | src/file_storage.cpp:431-462 | the new files are the aligned storage, which the next two rows describe; regular bytes are conserved; the closing contract holds if and only if no padding bytes were there before |
| HybridLayout.AlignedShape | src/file_storage.cpp:436-455 | the old files stand in their order, the last one at the end; between two of them stands nothing when the size of the first is a multiple of the piece size, and otherwise one padding entry shorter than a piece, not empty, that makes both a whole number of pieces |
| HybridLayout.RegularOfAligned | src/file_storage.cpp:436-455 | dropping the padding entries gives the old files back, in their order |
| HybridLayout.FileStorage.IsPieceAligned | src/file_storage.cpp:413-428 | true exactly when every regular file starts at a piece boundary |
| HybridLayout.AlignedLayout | src/file_storage.cpp:431-462 | after alignment every regular file starts at the piece its table entry names and is filled up to the next one |
| HybridLayout.FileStorage.GetPiecesOffsets | src/file_storage.cpp:202-216 | the offset is the bytes in front of the file over the piece size, the count the pieces its size begins |
| HybridLayout.LayoutIsAligned | src/file_storage.cpp:202-216 | the hasher's offset table and the offsets computed from cumulative sizes are the same numbers |
| HybridLayout.TableCountsPieces | src/file_storage.cpp:119-123 | the offset table ends at `piece_count` |
| HybridLayout.FilePieces | src/v2_chunk_hasher_sb.cpp:84-137 | the chunks of a file give its pieces once each, whatever the chunk size |
| HybridLayout.ChunksAccepted | src/v2_chunk_hasher_sb.cpp:39-113 | every chunk of an aligned storage meets the contracts of `hash_chunk`: a known file, and padding behind one whose last piece is filled up |
| HybridLayout.HybridPieces | src/v2_chunk_hasher_sb.cpp:84-146 | over the first n files of an aligned storage, any of them missing, the hasher emits the global pieces of the files on disk in order, each once, over exactly the bytes of the zero-padded concatenation |
| HybridLayout.HybridTorrent | src/v2_chunk_hasher_sb.cpp:84-146 | the whole aligned storage gives every piece index below `piece_count` exactly once, except those of missing files, and fails no contract of the hasher; with all files on disk every index is there |
| PoolProtocol.RunInv | src/chunk_hasher_single_buffer.cpp:19-49 | the protocol invariant holds after every schedule of workers and controlling thread |
| PoolProtocol.StepInv | src/chunk_processor_base.cpp:36-62 | every single step of either keeps it |
| PoolProtocol.NothingLost | include/dottorrent/concurrent_queue_processor.hpp:132-165 | in every uncancelled run no worker that is through leaves work queued, no contract in the code fails, and when all are joined every item was processed exactly as often as it was pushed |
| PoolProtocol.RunsEnd | src/chunk_hasher_single_buffer.cpp:19-49 | no schedule is longer than a bound fixed by work and threads |
| PoolProtocol.NeverStuck | src/chunk_processor_base.cpp:36-59 | in a safe configuration some step is possible until all workers are joined |
| PoolShutdown.RunCompletes | src/chunk_processor_base.cpp:36-59 | in a safe configuration every run can be carried on to the point where all workers are joined |
| PoolShutdown.ShutdownDeadlocks | src/chunk_processor_base.cpp:36-59 | no run deadlocks if and only if hashers have a queue for two wake-ups per worker, and processors have one worker and a queue |
| PoolDeadlocks.HasherCanDeadlock | src/chunk_processor_base.cpp:39-54 | with less than two slots per worker a hasher pool has a run in which `wait` blocks forever |
| PoolDeadlocks.ProcessorCanDeadlock | include/dottorrent/concurrent_queue_processor.hpp:159-164 | with several workers the clean-up of one can take the wake-ups of another |
| PoolShutdown.CapacityRule | src/storage_hasher.cpp:49-54 | the default capacity is safe; a memory limit is safe exactly for two threads or with room for two chunks per thread |
| PoolShutdown.CapacityIs | src/storage_hasher.cpp:49-54 | four chunks for every thread by default, or as many blocks as the memory limit holds, but at least four |
| PoolProtocol.StepKeepsItem | src/chunk_hasher_single_buffer.cpp:36-47 | a step neither loses nor duplicates an item: it is waiting, queued, held or processed |
| PoolProtocol.StepKeepsContracts | src/chunk_hasher_single_buffer.cpp:26-26 | the contracts checked on wake-ups and at join never fail |
| PieceVerifier.SlotsPartition | src/v2_piece_verifier.cpp:142-157 | every bit of the piece map belongs to exactly one file, which is not padding |
| PieceVerifier.RootDecides | src/v2_piece_verifier.cpp:200-211 | in a consistent metafile a matching root means that every hash of the layer matches |
| PieceVerifier.ShortcutIsComparison | src/v2_piece_verifier.cpp:200-233 | the root short cut writes the bits that comparing hash by hash writes, with the single-buffer update |
| PieceVerifier.MadeIsConsistent | src/v2_piece_writer.cpp:107-143 | metafiles the library writes are consistent in that sense |
| PieceVerifier.AnyOrderChecksFile | src/v2_piece_verifier.cpp:160-181 | any arrival order of the leaves of a file, the extra one included, decides the bits of its whole tree |
| PieceVerifier.SameRootSameBytes | src/v2_piece_verifier.cpp:229-231 | two hashes of a layer agree exactly when the bytes of the piece do |
| PieceVerifier.BitsTellTheBytes | src/v2_piece_verifier.cpp:160-234 | verifying a file against the metafile of another of its size, with the messages of either hasher in any order, sets the bit of a piece if and only if the bytes of that piece are the same, where the tree update of the build makes comparable nodes; an intact file is complete exactly there; a contract fails if and only if the single-buffer hasher's extra leaf has no slot in the tree |
| PieceVerifier.BitIsMatch | src/v2_piece_verifier.cpp:200-233 | with the single-buffer update, with at most two blocks or with pieces of one block, the bits are those of comparing every piece in a rightly hashed tree |
| PieceVerifier.IntactIsIncomplete | src/v2_piece_verifier.cpp:161-166 | with the multi-buffer update, more than two blocks and larger pieces, the bit of the last piece of an intact file stays clear |
| PieceVerifier.ExtraLeafKeepsBit | src/v2_piece_verifier.cpp:218-231 | the extra leaf lies behind the last piece, so the layer is compared as without it |
| V2PieceVerifierObject.V2PieceVerifier.Create | src/v2_piece_verifier.cpp:5-17 | a verifier is made if and only if every regular entry has v2 data, else the source throws; its map is clear and every file has a tree of zeros and its own range |
| V2PieceVerifierObject.V2PieceVerifier.constructor | src/v2_piece_verifier.cpp:140-157 | counters at 0 and a clear map with one slot range per file |
| V2PieceVerifierObject.V2PieceVerifier.InitializeOffsetsAndTrees | src/v2_piece_verifier.cpp:109-138 | succeeds exactly when every regular entry has v2 data, which `piece_layer()` asks for (src/file_entry.cpp:133-139); then the incremental offset table equals the sum of the slots in front, with a mark for padding |
| V2PieceVerifierObject.V2PieceVerifier.VerifyFinishedPiece | src/v2_piece_verifier.cpp:160-181 | one message changes its own file only and decides its bits from the last block on |
| V2PieceVerifierObject.V2PieceVerifier.VerifyPieceLayersAndRoot | src/v2_piece_verifier.cpp:183-234 | writes the bits of that file and keeps those of all others |
| V2PieceVerifierObject.V2PieceVerifier.Percentage | src/v2_piece_verifier.cpp:70-98 | times the number of slots it is 100 times the number of set bits of the file; it is between 0 and 100, and 100 exactly for padding, empty files and files with all bits set; the sum recomputed here finds the range the offset table gives |
| V2PieceVerifierObject.FullPercent | src/v2_piece_verifier.cpp:93-97 | 100 percent exactly when every bit of the file is set |
| V2PieceVerifierObject.PercentOfBits | src/v2_piece_verifier.cpp:91-97 | the percentage of any bits is the share of those that are set |
| VerifierRun.VerifierRunIsCorrect | src/storage_verifier.cpp:78-179 | for every schedule of the hashers and of the verifier and every arrival order, a finished verification run throws nowhere and fails no contract if and only if every regular entry has v2 data, no full tree gets an extra leaf and the multi-buffer hasher of a hybrid torrent meets no byte; then the bits of missing files are clear and those of the others say which pieces have the original bytes, in builds with multi-buffer hashing only for files of at most two blocks or pieces of one block, and no other intact file is complete |
| VerifierRun.VerificationSucceeds | src/storage_verifier.cpp:156-179 | with pools that cannot deadlock, runs finish and none fails if and only if that holds and the reader's contract does |
| VerifierRun.HashersAcceptExactly | src/storage_verifier.cpp:107-122 | the hashers of a v2 or hybrid verification push no v1 piece to the missing queue unless it is the multi-buffer hasher, the torrent is hybrid and a file on disk has a byte |
| VerifierRun.FileVerified | src/v2_piece_verifier.cpp:160-234 | one file, missing, empty or with content, its messages in any order: when it overflows and which bits it gets |
| VerifierRun.ChecksAreIndependent | src/v2_piece_verifier.cpp:160-181 | interleaving the messages of files does not mix up their bits |
| FileTree.WalkWithStack | src/metafile_parsing.cpp:540-593 | on every finite tree the explicit stack delivers what the recursive depth-first traversal delivers, in the same order and with the same failures, and ends |
| FileTreeReading.ReadExactly | src/metafile_parsing.cpp:540-593 | any tree of sorted dictionaries, well formed or not: reading fails if and only if a place it comes to is no dictionary or, under an empty key, not that of a file; otherwise the entries are exactly the files found by going down their paths, in strictly ascending path order |
| FileTreeReading.WalkExactly | src/metafile_parsing.cpp:562-587 | the same for the dictionary at any path, without the order |
| FileTreeReading.WalkInOrder | src/metafile_parsing.cpp:562-587 | the entries of any readable tree come in strictly ascending path order |
| FileTree.AdvanceOnTrack | src/metafile_parsing.cpp:562-587 | moving past a key keeps delivered plus pending files the same and lowers the measure by what was visited |
| FileTree.PushOnTrack | src/metafile_parsing.cpp:582-585 | a pushed frame has its component pushed with it and names the node below |
| FileTree.InfoRoundTrip | src/metafile_parsing.cpp:451-503 | a file dictionary reads back as the file, without the pieces root of an empty one; one marked as a symbolic link cannot be read |
| FileTree.ParseInfoExactly | src/metafile_parsing.cpp:451-482 | any dictionary is read as a file if and only if it has an integer length, a pieces root of 32 bytes or, for size 0, none, and attribute letters other than that of a symbolic link; the size is the length modulo 2^64 and root and attributes are those given |
| FileTree.AttributesRoundTrip | include/dottorrent/general.hpp:70-107 | attribute letters read back as the attributes |
| FileTree.LettersRead | include/dottorrent/general.hpp:88-107 | any text of attribute letters is read, in any order and with repetitions; any other character is an error |
| FileTree.AttributeLetters | include/dottorrent/general.hpp:70-86 | one letter for each attribute set and nothing else |
| FileTree.InsertFinds | src/metafile_serialization.cpp:97-105 | inserting into a dictionary keeps key order, sets that key and no other |
| Ordering.LessExactly | src/metafile_serialization.cpp:97-105 | the order of keys is decided where two strings first differ |
| Ordering.PathLessExactly | src/metafile_serialization.cpp:95-129 | that of paths where their components first differ, a prefix coming first |
| FileTreeRoundTrip.AddInOrder | src/metafile_serialization.cpp:95-129 | adding a file to a tree puts it, in path order, among the files that are read back |
| FileTreeRoundTrip.AssignInOrder | src/metafile_serialization.cpp:97-105 | one changed key puts one file in order in the walk of the whole dictionary |
| FileTreeRoundTrip.FoundIsTree | src/metafile_serialization.cpp:98-99 | the builder only ever meets dictionaries |
| FileTreeRoundTrip.TreeRoundTrip | src/metafile_serialization.cpp:92-135 | building the tree of any list of files with non-empty components and walking it gives the list in path order, prefixes of paths included, the last of equal paths winning |
| FileTreeRoundTrip.PathOrder | src/metafile_parsing.cpp:557-592 | paths come back strictly ascending, each with exactly what was stored last under it |
| FileTreeRoundTrip.DistinctFilesSurvive | src/metafile_parsing.cpp:540-593 | with distinct paths every file comes back and nothing else |
| HybridFiles.ParseFileListAndTree | src/metafile_parsing.cpp:608-630 | each non-empty tree entry gives its pieces root to the first listed file with its path; a path the list does not have is a failure |
| HybridFiles.AttachedExactly | src/metafile_parsing.cpp:615-629 | for any list and any tree entries: attaching fails if and only if an entry that is not empty has an unlisted path; otherwise each listed file keeps its path, length and attributes and has the root of the last entry for it, or its own when there is none |
| HybridFiles.HybridRoundTrip | src/metafile_serialization.cpp:165-235 | a hybrid storage whose regular files have paths of their own comes back in its own order, regular files with their pieces roots, padding files as listed |
| HybridFiles.TreeEntries | src/metafile_serialization.cpp:199-233 | the tree gives the regular files, each as it is stored, and no padding |
| Trackers.RunKeeps | src/metafile.cpp:26-63 | every run of tracker operations, from the empty list on, keeps the list sorted by tier and URL, tiers contiguous from 0 and URLs unique |
| Trackers.ApplyKeeps | src/metafile_parsing.cpp:47-63 | each single operation keeps it, the prepend-and-shift of the announce key included |
| Trackers.AddedKeeps | src/metafile.cpp:26-42 | adding a tracker, or moving one that is there, keeps it |
| Trackers.MovedTracker | src/metafile.cpp:32-37 | a moved URL is in the tier asked for and all others where they were, but for tiers above an emptied one, which close up |
| Trackers.MovedCount | src/metafile.cpp:26-38 | a URL that is there already is not doubled, and one in that tier already changes nothing |
| Trackers.NewTracker | src/metafile.cpp:38-42 | a new URL joins the others, which are left as they are |
| Trackers.LastTracker | src/metafile.cpp:42-47 | without a tier a URL ends up in the last tier, and alone there |
| Trackers.RemovedTracker | src/metafile.cpp:51-57 | the URL is gone, and when it was there the list is one entry shorter and every other URL in its tier, or one lower above a tier the removal emptied; a URL that is not there changes nothing |
| Trackers.RemovedTrackerEntry | src/metafile.cpp:59-63 | the same for the removal from one tier, which changes nothing when the URL stands in another |
| Trackers.ErasedKeeps | include/dottorrent/announce_url_list.hpp:140-163 | erasing keeps order and closes the gap an emptied tier would leave |
| Trackers.ErasedTiers | include/dottorrent/announce_url_list.hpp:149-162 | every other entry stays, one tier lower when it was above the closed one |
| Trackers.InsertedGapFree | include/dottorrent/announce_url_list.hpp:112-119 | the insertion contract keeps tiers contiguous |
| Trackers.PrependedKeeps | src/metafile_parsing.cpp:47-63 | a new first tier in front of the others keeps the invariant |
| Trackers.AnnouncedFirst | src/metafile_parsing.cpp:47-63 | an unlisted URL is alone in tier 0 afterwards, and every other URL one tier further down |
| Trackers.AnnouncedAgain | src/metafile_parsing.cpp:42-46 | a listed URL changes nothing |
| AnnounceList.AnnounceUrlList.Insert | include/dottorrent/announce_url_list.hpp:112-128 | inserts at the upper bound |
| AnnounceList.AnnounceUrlList.Emplace | include/dottorrent/announce_url_list.hpp:130-138 | searching within the tier comes to the same list as searching all |
| AnnounceList.AnnounceUrlList.EraseAt | include/dottorrent/announce_url_list.hpp:140-163 | removes the entry and renumbers higher tiers exactly when it was the last of its tier |
| AnnounceList.AnnounceUrlList.FindAnnounce | include/dottorrent/announce_url_list.hpp:186-198 | searching the tier only finds what searching the list finds |
| AnnounceList.AnnounceUrlList.Contains | include/dottorrent/announce_url_list.hpp:200-208 | one binary search per tier finds a URL exactly when the linear search does |
| AnnounceList.AnnounceUrlList.GetTier | include/dottorrent/announce_url_list.hpp:239-249 | the range holds exactly the entries of the tier |
| AnnounceList.AnnounceUrlList.Nest | include/dottorrent/serialization/announce_url_list.hpp:11-35 | the one pass with a tier counter writes lists whose entries, tier by tier, are the list, with no empty tier |
| AnnounceCodec.Metafile.AddTracker | src/metafile.cpp:26-42 | adds the URL, or moves it by insert and erase; the invariant holds after |
| AnnounceCodec.Metafile.RemoveTracker | src/metafile.cpp:51-63 | takes out the URL, or its entry in the given tier: one entry less, the URL gone, every other URL in its tier or one lower above a tier that was emptied; without such an entry nothing changes; the invariant holds after |
| AnnounceCodec.Metafile.AddTrackerUrl | src/metafile.cpp:42-47 | without a tier the URL goes to a new last tier |
| AnnounceCodec.Metafile.ParseAnnounceUrl | src/metafile_parsing.cpp:42-63 | a URL that is not listed gets a first tier of its own, one that is changes nothing |
| AnnounceCodec.Metafile.ParseAnnounce | src/metafile_parsing.cpp:15-68 | fails exactly when an entry is more than one tier beyond the list so far |
| AnnounceCodec.TrackersRoundTrip | src/metafile_parsing.cpp:15-68 | writing the nested list and the first URL and reading both into an empty metafile gives the identical list, without a failing contract |
| AnnounceAcceptance.AcceptedExactly | src/metafile_parsing.cpp:24-36 | a nested list is read without a failing contract if and only if no empty tier comes before a tier with entries and no tier that another one follows ends with a URL that is the last one left of an earlier group, groups being told from the nested list alone |
| AnnounceAcceptance.ReadsThrough | src/metafile_parsing.cpp:24-36 | while it is read, the listed URLs stand in tiers as the groups they were last listed in do |
| AnnounceAcceptance.LeavesIsCloses | src/metafile.cpp:26-40 | an entry empties the tier its URL was in exactly when it closes a group |
| AnnounceAcceptance.OneTierEachAccepted | src/metafile_parsing.cpp:24-36 | a nested list with no URL in two tiers is accepted if and only if no empty tier comes before a tier with entries, and is then read as its entries |
| AnnounceAcceptance.RepeatedTierFails | src/metafile_parsing.cpp:24-36 | every list with a tier of one URL, repeated as the whole next tier, and entries in the tier after that fails the contract |
| Hex.GenerateTable | include/dottorrent/hex.hpp:32-44 | the table gives every octet its digit value or the mark for none |
| Hex.DigitsRoundTrip | include/dottorrent/hex.hpp:58-88 | the two digits of a byte, upper or lower case, give the byte back |
| Hex.DigitCharacters | include/dottorrent/hex.hpp:22-30 | the sixteen digits in each case |
| Hex.ToHexadecimalString | include/dottorrent/hex.hpp:126-136 | two digits per byte in place |
| Hex.FromHexadecimalString | include/dottorrent/hex.hpp:110-124 | succeeds exactly for half as many bytes as characters, rounded down, all pairs digits, and gives their bytes |
| Hex.HexRoundTrip | include/dottorrent/hex.hpp:110-136 | bytes written as digits read back as the bytes |
| Hex.ReadThenWrite | include/dottorrent/hex.hpp:110-136 | digits read and written back are the same text in lower case |
| PercentEncoding.PercentEncode | include/dottorrent/percent_encoding.hpp:72-91 | the concatenation of the encoded characters |
| PercentEncoding.UnreservedCharacters | include/dottorrent/percent_encoding.hpp:53-56 | letters, digits, hyphen, period, underscore and tilde and no others are unreserved, as in section 2.3 of RFC 3986 |
| PercentEncoding.EscapedCharacter | include/dottorrent/percent_encoding.hpp:59-70 | any other octet becomes a percent sign and its two digits, in upper case |
| PercentEncoding.PercentDecode | include/dottorrent/percent_encoding.hpp:102-147 | the buffer and flag loop is the state machine, its failures and partial output included |
| PercentEncoding.DecodesToMeaning | include/dottorrent/percent_encoding.hpp:102-147 | every text of characters and complete escapes decodes to the octets it stands for in section 2.1 of RFC 3986 |
| PercentEncoding.DecodesTokens | include/dottorrent/percent_encoding.hpp:102-147 | any text decodes to the octets of the characters and escapes it begins with, and the status says whether it ends, breaks off in an escape or goes on with a character that none can have; an escape that is not of digits gives whatever the uninitialised byte held |
| PercentEncoding.DeterminedExactly | include/dottorrent/percent_encoding.hpp:129-137 | status and output do not depend on uninitialised bytes if and only if every escape read to its end is of hexadecimal digits |
| PercentEncoding.UnsetOctet | include/dottorrent/percent_encoding.hpp:122-137 | an escape of two letters that are no digits succeeds and writes an unset octet |
| PercentEncoding.DecodeInvertsEncode | include/dottorrent/percent_encoding.hpp:72-156 | decoding inverts encoding on every octet string, without a failure status |
| PercentEncoding.EncodedCharacters | include/dottorrent/percent_encoding.hpp:53-70 | only unreserved characters (section 2.3 of RFC 3986) and percent signs are written |
| PercentEncoding.DecodeShortens | include/dottorrent/percent_encoding.hpp:111-141 | decoding never lengthens, and shortens any text with a percent sign |
| MagnetUri.SplitString | src/magnet_uri.cpp:7-26 | the pieces between separators, without an empty one at the very end |
| MagnetParsing.SplitExactly | src/magnet_uri.cpp:7-26 | gluing the pieces with the separator gives the text back, up to one separator at its end, and no piece has a separator in it |
| MagnetParsing.SplitOfGlued | src/magnet_uri.cpp:38-58 | pieces without separators, the last not empty, come back from the text they are glued to |
| MagnetParsing.KeyValueExactly | src/magnet_uri.cpp:28-37 | a part is a pair exactly when it has an equals sign, and is cut at the first |
| MagnetUri.MakeMagnetUri | src/magnet_uri.cpp:63-124 | the loop over the parts is the function the next rows are about, failures included |
| MagnetParsing.ParseExactly | src/magnet_uri.cpp:63-124 | any text: parsing fails if and only if the introducer is missing, a part is no pair or a length no number; otherwise every list field holds the decoded values of its key in order, every single field the last one, and the keywords are the words of all `kt` fields |
| MagnetParsing.KeywordsAdded | src/magnet_uri.cpp:109-115 | for every list of keywords of unreserved characters a `kt` field that joins them with plus signs adds exactly those to the keywords of the link in front of it and changes no other field |
| MagnetParsing.OnlyKeywords | src/magnet_uri.cpp:109-115 | a link of nothing else has exactly those keywords |
| MagnetParsing.UnknownKey | src/magnet_uri.cpp:80-122 | a field under any other key changes nothing |
| MagnetParsing.FieldAtEnd | src/magnet_uri.cpp:77-122 | a field behind a link is set in what the link gives, and fails only by itself or with the link |
| MagnetUri.EncodeMagnetUri | include/dottorrent/magnet_uri.hpp:217-295 | the introducer, the topics as they are and the other fields encoded, in the order of the source |
| MagnetUri.DecimalRoundTrip | src/magnet_uri.cpp:83-93 | a written size reads back |
| MagnetRoundTrip.CleanTopics | src/magnet_uri.cpp:63-124 | with clean topics the link reads back as written, a size of 0 as whatever the field held |
| MagnetRoundTrip.DirtyTopics | src/magnet_uri.cpp:94-96 | a topic with an ampersand or a percent sign never comes back |
| MagnetRoundTrip.NoTopicAtAll | src/magnet_uri.cpp:28-37 | without topics a link with any other field is rejected |
| MagnetRoundTrip.MagnetRoundTrips | include/dottorrent/magnet_uri.hpp:217-295 | a link reads back as its magnet, whatever the uninitialised size holds, if and only if there is a topic, the size is not 0 and no topic has an ampersand or a percent sign |
| PieceLayers.ReadLayers | src/metafile_parsing.cpp:679-711 | files of at least a piece are looked up by root, others keep no layer; a string that is no whole number of hashes fails |
| PieceLayers.ParsePieces | src/metafile_parsing.cpp:634-655 | whole hashes fill the first slots; more hashes than pieces fail a contract |
| PieceLayers.PiecesRoundTrip | src/file_storage.cpp:390-398 | the pieces string cut by 20 gives the hashes back |
| PieceLayers.CutIsJoin | src/file_storage.cpp:400-410 | cutting a joined string gives the hashes and only those |
| PieceLayers.WriteLayers | src/metafile_serialization.cpp:347-358 | one string per root of a file larger than a piece, that of the last file with it |
| PieceLayers.LayersRoundTrip | src/metafile_serialization.cpp:347-360 | every file has its layer back if and only if files that share a root share the layer |
| PieceLayers.HashedLayersRoundTrip | src/metafile_serialization.cpp:347-360 | in a storage with the hashes of BEP 52 files with one root have one content, so the layers of all files come back, whatever 32-byte strings without a collision stand for the digests |
| Checksums.V1ChecksumHasher.HashChunk | src/v1_checksum_hasher.cpp:15-58 | after any prefix of the joined files the closed files have their digests and the hasher holds the begun part; the loop ends although rounds on empty files consume nothing |
| Checksums.V1ChecksumHasher.HashPart | src/v1_checksum_hasher.cpp:30-57 | one round consumes data or closes a file |
| Checksums.V1ChecksumHasher.HashAll | src/v1_checksum_hasher.cpp:15-58 | for every split into chunks, empty ones included, every file up to the last one with content has the digest of exactly its own bytes, the empty ones behind it none; a contract fails if and only if a chunk has no data, or is an empty one behind all bytes when the last file has content |
| Progress.HintIsRight | src/storage_hasher.cpp:252-257 | a search from a remembered index finds what a full search finds if and only if the index is not already behind the answer |
| Progress.ProgressTracker.CurrentFileProgress | src/storage_hasher.cpp:247-265 | for byte counts that never go down the file and the bytes in it are those of a full search |
| Progress.FollowRun | src/storage_hasher.cpp:247-265 | the same over any non-decreasing sequence of byte counts |
| Progress.InclusiveFileSizeScan | src/file_storage.cpp:341-368 | running sums, without padding files for v2 |
| Progress.CountedTotals | src/file_storage.cpp:341-368 | for v1 every file counts with its size, for v2 only the regular ones |

## Left out

- Cryptographic backends: digests are free constructors, so collisions do not exist here.
- `v1_chunk_hasher_mb`: v1 runs are those of the single-buffer hasher.
- Cancellation, weak memory ordering, sleeps and spurious wake-ups: steps are sequentially consistent and runs uncancelled.
- `bytes_hashed` of the v2 hashers, and the shared padding buffer and its lock: padding is a fresh run of zero bytes.
- The object pool that recycles chunk buffers; a buffer taken from it holds arbitrary bytes.
- File-system access, I/O errors, modification times and path normalisation: paths are lists of components.
- The bencode byte format and JSON output.
- Type errors in announce lists, and the `as_nested_vector` helper.
- Symbolic links, whose target is written under one key and read under another, and per-file checksums in the file tree.
- The nested-dictionary builder is a recursion on values: the pointer it moves, and aliasing through it, are not modelled.
- The dictionaries of the v1 file list (the list itself is given), single-file hybrid torrents, and the other metafile fields.
- Writing magnets with keywords: no key is written for them and the loop over several of them does not advance.
- `make_magnet_uri` from a metafile, `v2_checksum_hasher`, `directory_count`, `choose_piece_size` and the verifier for v1.
- The initializer-list constructor of the announce list.
- The setters of `magnet_uri` are updates of a record value, not of an object.
- Widths: tree heights stay below 31 and sizes are unbounded except where 32- or 64-bit truncation matters (chunk indices,
  file lengths, magnet sizes).
- Hex.FromHexadecimalString: characters above 127, which index outside the source's table, read as no digit.
- V2PieceVerifierObject.V2PieceVerifier.Percentage: real arithmetic, without floating-point rounding.
- MagnetUri.EncodeMagnetUri: asks for a magnet without keywords, because the source writes no key for them and its loop over
  several does not end.
- VerifierRun.VerifierRunIsCorrect: files on disk have their declared size, as everywhere in this model.
- VerifierRun.VerificationSucceeds: metafiles have the hashes of BEP 52, not those a build with multi-buffer hashing makes.
- HybridFiles.ParseFileListAndTree: an error stands for the dereferenced end iterator of a tree entry the list lacks.
