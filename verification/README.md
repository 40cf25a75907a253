# A model of p2p-file-sync

p2p-file-sync keeps a directory in step with a peer. This project models its core in Dafny and states what that core promises:

- **Delta exchange** (`internal/delta`): the receiver signs its old file block by block, the sender slides a window over the new file and sends copies and literals, the receiver replays them. `Exchange` composes all of it, both wire formats included, and ends with the new file.
- **Reconciliation** (`internal/merkle`, `internal/diff`): two tree comparisons that skip subtrees with equal hashes. Each is tied, by an if-and-only-if, to a plain comparison path by path that knows no hashes, and the two are tied to each other. For trees made by the constructors the condition is spelled out in terms of the hash inputs.
- **The sync run** (`cmd/p2p-file-sync`) over the content-addressed store (`internal/cas`), both in one file system: what a run requests, writes and deletes and what it keeps sound whatever the peer sends, what it leaves behind if the manifest stays out of the store, and when it succeeds; beneath it the store as a machine of single disk steps that may crash after any of them.
- **Two wire protocols** (`internal/nat`): the signaling directory over whole runs, and the STUN attribute walk.

## Conventions

- SHA-256 is a parameter `sha: Bytes -> Digest` of everything that hashes. Nothing is assumed about it. Where a result needs the absence of a collision, the hypothesis names the strings that must not collide.
- Input streams are `Readers.Reader`: some bytes, then a clean end or an error. Disk failures are parameters, one for every write (`Cas.Faults`). Clocks are parameters. The peer is any answer to every request; equal requests may be answered differently.
- Where the program would stop with an index or a slice out of range, the model has an outcome for it (`Signatures.Panicked`, `Generator.OutOfRange`).
- Integers are unbounded; the 32- and 64-bit fields, casts and wrap-arounds of the wire formats are written out (`BigEndian` keeps the low bytes, `ToInt64` reinterprets, block indices are taken modulo 2^32).
- Paths are sequences of names, names are byte strings, and joining a name to a path cleans it as the program does (`Files.Locate`). The store's files are files of the synchronised directory: `Rebuild.Replica` keeps both views of them equal. Go map iteration order is any order: loops over maps pick names nondeterministically and results are specified as complete lists in any order (`Reports.Lists`).
- `hide` statements keep function bodies out of proofs that do not need them.

| file | models |
|---|---|
| `Bytes`, `Splitting`, `Readers` | integers on the wire, fixed-size blocks, streams |
| `Adler`, `RollingHash`, `Signatures` | weak hash, circular window, block signatures and their wire format |
| `Deltas`, `Greedy`, `Generator`, `Exchange` | delta wire format and replay, the greedy specification, the streaming generator, the whole exchange |
| `Merkle`, `Reports`, `TreeDiff`, `ManifestDiff`, `Pruning` | tree hashing, complete lists of reports, the two comparisons, when pruning is right |
| `ChunkPaths`, `PutSteps`, `Cas` | chunk paths, the disk step machine, chunker and store |
| `Files`, `Rebuild`, `RebuildFacts`, `StoreOverlap` | the file system, rebuilding files in it, what that keeps and leaves, files in the store's directory |
| `Fetching`, `SyncRun` | requesting and storing chunks, the sync run |
| `Signaling`, `Stun` | the two NAT protocols |

## Findings

- An empty file and an empty directory have the same hash, so the tree comparison takes a change from one to the other for no change (`TreeDiff.ClashMissed`).
- Names and hashes run together in the input of a directory's hash: two files can be replaced by one with a fitting name and the hash stays, without any collision (`Merkle.NamesNotDelimited`, `Pruning.ChangeMissed`).
- These two are all there is for constructed trees without collisions: the tree comparison is right if and only if no two nodes at the same path have the same hash input but different types or different names below (`Pruning.TruthfulExactly`), the manifest comparison if and only if none have the same hash input but different names below (`Pruning.TopTruthfulExactly`). For arbitrary hashes, as in a received manifest, each comparison is right if and only if the hashes it meets are truthful (`TreeDiff.Diff`, `ManifestDiff.DiffTrees`).
- The store lies in the directory that a run rebuilds, and a run writes every file a manifest names. A manifest with a file at the place of a chunk can replace the chunk, so that the store is no longer sound (`StoreOverlap.OverlapBreaksStore`). A run that succeeds leaves the store as it was after the downloads if and only if every such file spells the chunk at its place (`SyncRun.Sync`, `StoreOverlap.NodeHarmless`); a manifest without `.storage/chunks` has none. A name leads to an entry of its own directory if and only if it is not empty, a dot or two dots and has no slash (`Files.LocateProper`); the results about the directory are for manifests with such names.
- A block size above 65536 is clamped by the window but not by the loop that fills it. The generator returns the specified delta if and only if the block size or the file is at most 65536 bytes (`Generator.GenerateDelta`). Else a file shorter than a block ends the program with a slice out of range, and for any other the bytes past the window are dropped from the file and from its hash, so that applying the delta reports success for a file that lacks them (`Exchange.LossUnnoticed`).
- Sizing the block list while decoding a signature divides by the block size and can wrap: decoding ends in a panic for a zero block size, for file sizes of at most one minus two blocks, and for huge ones (`Signatures.DecodePanics`, `Signatures.NegativeSizePanics`, `Signatures.PanickingHeaders`).
- The comment in `rolling.go` promises constant-time updates, the code recomputes; `Adler.RollingRecurrence` shows the two agree.
- A sync run never writes an empty file: after a successful run a manifest file has its contents if and only if it is not empty or was already there, empty (`SyncRun.FileArrives`).

## Model

| member | source | states |
|---|---|---|
| `Bytes.BigEndianBytes` | internal/delta/rolling.go:241-259 | integers go on the wire most significant byte first, byte by byte |
| `Bytes.FromBigEndianValue` | internal/delta/rolling.go:262-285 | and are read as the sum of their bytes with weights 256 apart |
| `Adler.ClosedForm` | internal/delta/rolling.go:222-229 | reducing modulo 65521 at every byte gives the unreduced weighted sums modulo 65521 |
| `Adler.WeakValue` | internal/delta/rolling.go:229-231 | the weak hash is the weighted sum modulo 65521 in the high half and one plus the byte sum modulo 65521 in the low half |
| `Adler.SumValues` | internal/delta/rolling.go:222-229 | a further byte adds itself to the byte sum, and the new byte sum to the weighted one |
| `Adler.RollingRecurrence` | internal/delta/rolling.go:83-126 | for every full window, the recomputed sums obey a' = a - out + in and b' = b - n*out + a' - 1 modulo 65521 |
| `RollingHashes.WindowSize` | internal/delta/rolling.go:44-51 | window sizes are 4096 for less than 1, 65536 for more than 65536, and as asked in between |
| `RollingHashes.RollingHash.constructor` | internal/delta/rolling.go:44-60 | a new window is empty and valid |
| `RollingHashes.RollingHash.Reset` | internal/delta/rolling.go:68-79 | forgets everything, whatever block size is asked for; for the buffer's own size the invariant holds again |
| `RollingHashes.RollingHash.Recompute` | internal/delta/rolling.go:83-95 | as long as no more bytes are counted than the buffer holds, both sums are the weak hash of the window's contents in order, across the wrap, and no index is out of range |
| `RollingHashes.RollingHash.RollIn` | internal/delta/rolling.go:98-108 | a byte joins a window that is not full and is ignored by a full one; the invariant (the buffer holds the last bytes fed, the sums are their hash) is kept |
| `RollingHashes.RollingHash.Roll` | internal/delta/rolling.go:112-126 | a full window slides by one byte and the invariant is kept; any other keeps its layout |
| `RollingHashes.RollingHash.Sum` | internal/delta/rolling.go:129-131 | the packed sums are the weak hash a block signature gives to the last bytes fed |
| `RollingHashes.RollingHash.OldestByte` | internal/delta/delta.go:308-311 | the byte the next roll pushes out is the first of the last bytes fed |
| `RollingHashes.RollingHash.Window` | internal/delta/rolling.go:134-147 | the copy starts with exactly the last bytes fed, in both wrap cases, and no slice is out of range |
| `Signatures.PositionsScan` | internal/delta/rolling.go:191-194 | the linear scan behind the index lists exactly the positions with a weak hash, ascending |
| `Signatures.Signature.AddBlock` | internal/delta/rolling.go:181-189 | appends a block and keeps the index equal to a linear scan for every weak hash |
| `Signatures.Signature.FindByWeakHash` | internal/delta/rolling.go:192-194 | returns what the linear scan finds |
| `Signatures.Signature.Encode` | internal/delta/rolling.go:241-259 | the buffer filled by offsets is the concatenation of header and block records |
| `Signatures.DecodeSignature` | internal/delta/rolling.go:262-285 | decodes every input as specified: absent, panic, or a signature with a correct index from the whole records present |
| `Signatures.SignatureRoundTrip` | internal/delta/rolling.go:241-285 | decoding undoes encoding if and only if block size and block count fit 32 bits and sizing the block list does not panic |
| `Signatures.SignatureLayout` | internal/delta/rolling.go:241-259 | the wire layout in numbers: a header of 4, 8 and 4 bytes, then 40 bytes a block, of index, weak and strong hash |
| `Signatures.DecodePanics` | internal/delta/rolling.go:262-275 | a decoded header ends in a panic if and only if sizing its block list does |
| `Signatures.NegativeSizePanics` | internal/delta/rolling.go:170-178 | for negative file sizes that is so if and only if the size plus two blocks is at most one |
| `Signatures.OtherSizePanics` | internal/delta/rolling.go:170-178 | for other file sizes that is so if and only if rounding up passes 2^63 or the list passes 2^48 bytes |
| `Signatures.PanickingHeaders` | internal/delta/rolling.go:170-178 | headers with a zero block size, a negative and a huge file size that panic, and the nearest negative one that does not |
| `Signatures.ComputeBlockSignature` | internal/delta/rolling.go:222-238 | the loop computes the weak hash, the digest is the strong hash |
| `Signatures.GenerateSignature` | internal/delta/delta.go:353-391 | signs every block of the stream in order under its position; fails exactly when the reader fails |
| `Signatures.SignedBlocks` | internal/delta/delta.go:353-391 | the signature in numbers: file size, block count, and for every block its position and the hashes of its slice |
| `Splitting.SplitAt` | internal/delta/delta.go:372-387 | a file has ceil(size/block) blocks and block i is the i-th slice |
| `Deltas.Encode` | internal/delta/delta.go:60-76 | writes the header and every operation in order |
| `Deltas.EncodedLength` | internal/delta/delta.go:26-47 | operations take five bytes each and their literals |
| `Deltas.DeltaLayout` | internal/delta/delta.go:26-76 | the wire layout in numbers: a header of 8, 32 and 4 bytes, opcode 1 for a copy and 2 for a literal, four bytes of index or length |
| `Deltas.Decode` | internal/delta/delta.go:79-121 | decodes every input as specified; less than 44 bytes are an error; size and hash are read from the header |
| `Deltas.DecodeInNumbers` | internal/delta/delta.go:90-118 | nothing is read past the count or the end, other opcodes are skipped and counted, a cut-off operation is an error |
| `Deltas.DecodedOpsFit` | internal/delta/delta.go:90-118 | whatever the input, decoded operations fit the 32-bit fields |
| `Deltas.DeltaRoundTrip` | internal/delta/delta.go:60-121 | decoding gives back all that is sent if and only if operation count and literal lengths fit 32 bits |
| `Deltas.ApplyDelta` | internal/delta/delta.go:395-435 | writes the replay; a missing block is that of the first operation that cannot be replayed, and what came before it was written; reports success only if hash and size match the header |
| `Greedy.FirstMatch` | internal/delta/delta.go:232-234 | the lowest block with both hashes, or none if there is none |
| `Greedy.TokensCover` | internal/delta/delta.go:220-337 | the greedy choices spell the new file without gaps |
| `Greedy.ReferencesBacked` | internal/delta/delta.go:224-285 | every copy names the lowest block with the weak and the strong hash of the stretch it stands for |
| `Greedy.ReferenceLength` | internal/delta/delta.go:235-285 | every copy stands for a whole block or for the end of the file |
| `Greedy.LiteralsAreNeeded` | internal/delta/delta.go:224-314 | no literal byte with a full window ahead of it starts a window that the signature knows |
| `Greedy.DeltaAccounts` | internal/delta/delta.go:236-349 | copied plus literal bytes are the file size, the literal bytes are those of the literal operations, the blocks copied are the number of copy operations, and the encoding is 44 bytes plus TransferSize |
| `Greedy.DeltaCoalesced` | internal/delta/delta.go:236-343 | no empty literals and no two literals in a row |
| `Greedy.DeltaBounded` | internal/delta/delta.go:176-349 | at most 2*(size/block)+1 operations, and for blocks of at least 10 bytes at most size + 49 encoded bytes |
| `Generator.Fill` | internal/delta/delta.go:200-218 | how many bytes a fill reads, which of them a window of the buffer's size keeps, and how it ends |
| `Generator.FindMatch` | internal/delta/delta.go:227-235 | walking the candidates of a weak hash finds the lowest block with both hashes |
| `Generator.MatchWindow` | internal/delta/delta.go:220-235 | a full window is looked up; without candidates it is not copied |
| `Generator.FirstPartial` | internal/delta/delta.go:203-213 | a file smaller than a block becomes one literal if the window kept all of it, else a slice is out of range |
| `Generator.CopyOn` | internal/delta/delta.go:235-297 | a matched window becomes a copy; with a window of block size the run stays on the greedy track, and in any case every byte read is accounted for |
| `Generator.AfterMatch` | internal/delta/delta.go:249-294 | the window is refilled, or the file ends and its tail is handled |
| `Generator.FinishPartial` | internal/delta/delta.go:266-294 | the tail after a copy is copied if the signature knows it, else literal |
| `Generator.SlideOn` | internal/delta/delta.go:307-336 | without a match one byte becomes literal and the window slides, or at the end all of it becomes literal |
| `Generator.LastWindow` | internal/delta/delta.go:318-326 | at the end of the file the window, without its oldest byte, becomes literal |
| `Generator.Slide` | internal/delta/delta.go:220-337 | the main loop ends with all that was not lost accounted for, and handled greedily if the window has block size or nothing can match |
| `Generator.GenerateDelta` | internal/delta/delta.go:176-349 | the streaming pass returns exactly the delta of the greedy specification, statistics and hash included, if and only if the reader does not fail and the block size or the file fits the window; what happens otherwise |
| `Exchange.ReferencesServed` | internal/delta/delta.go:224-285 | without collisions every copy finds in the old file the very bytes it stands for |
| `Exchange.DeltaReplays` | internal/delta/delta.go:395-421 | replaying the greedy delta on the old blocks spells the new file |
| `Exchange.LiteralsAreNew` | internal/delta/delta.go:224-314 | no literal byte with a full window ahead of it starts a window that is a block of the old file |
| `Exchange.UnchangedCostsNothing` | internal/delta/delta.go:176-349 | the delta of an unchanged file has no literal byte if the file has at least one block, else it is all literal |
| `Exchange.SmallFilesFit` | internal/delta/delta.go:40-76 | every delta of a file below 4 GiB fits its wire format |
| `Exchange.SignatureFits` | internal/delta/rolling.go:241-275 | a signature fits its wire format if and only if it has fewer than 2^32 blocks |
| `Exchange.Exchange` | internal/delta/delta.go:176-435 | sign, send, generate, send, apply, for files whose blocks and bytes are counted in 32 bits: success means the new file's length and hash whatever collides, and without collisions it succeeds with exactly the new file |
| `Exchange.ApplyToAnyBase` | internal/delta/delta.go:345-435 | whatever blocks a generated delta is applied to, success means the new file's length and hash |
| `Exchange.LossUnnoticed` | internal/delta/delta.go:176-435 | for block sizes above 65536 and an empty signature, applying the delta reports success for a file that lacks what the first fill dropped |
| `Merkle.BelowIsLexical` | internal/merkle/tree.go:79-81 | the order of names: they agree up to some position, and there the first ends or has the smaller byte |
| `Merkle.NewFileNode` | internal/merkle/tree.go:56-98 | the hash input is the chunk hashes in order, 32 bytes each |
| `Merkle.NewDirNode` | internal/merkle/tree.go:70-115 | the children are the given ones, in ascending byte order of their names; the hash input is their names and hashes in that order |
| `Merkle.SortUnique` | internal/merkle/tree.go:78-81 | on distinct names every sorted permutation is the same list |
| `Merkle.DirHashOrderFree` | internal/merkle/tree.go:70-115 | the input of a directory's hash does not depend on the order its distinctly named children came in |
| `Merkle.GetChild` | internal/merkle/tree.go:132-144 | binary search finds the child of that name, or there is none |
| `Merkle.RootCommits` | internal/merkle/tree.go:88-115 | for trees of one shape without collisions, root hashes are equal if and only if every file has the same chunk list |
| `Merkle.EmptyFileHashesLikeEmptyDir` | internal/merkle/tree.go:88-115 | an empty file and an empty directory share a hash, under every hash function |
| `Merkle.NamesNotDelimited` | internal/merkle/tree.go:102-115 | two empty files hash like one with a fitting name, under every hash function |
| `TreeDiff.LastOfName` | internal/merkle/tree.go:257-266 | of several children with one name the last counts |
| `TreeDiff.ChildMap` | internal/merkle/tree.go:257-266 | the map holds, for every name, the last child of that name |
| `TreeDiff.FindDifferingChunks` | internal/merkle/tree.go:283-300 | exactly the local chunks the remote file does not list, each as often and in the order they stand there |
| `TreeDiff.PlainMeans` | internal/merkle/tree.go:207-333 | what the plain comparison is: a report at exactly the paths where the sides differ and no clash lies above, with the nodes of both sides; an added or deleted file carries its own chunks, a modified one the local chunks the remote list lacks |
| `TreeDiff.CollectAll` | internal/merkle/tree.go:303-333 | reports every node of a one-sided subtree exactly once, with its path |
| `TreeDiff.DiffNodes` | internal/merkle/tree.go:207-280 | the reports are those of the plain comparison, each path once and nothing else, if and only if the hashes met are truthful |
| `TreeDiff.DiffChildren` | internal/merkle/tree.go:257-279 | the same for two directories, over any order of names |
| `TreeDiff.Diff` | internal/merkle/tree.go:179-204 | the same for whole trees, either of which may be missing; with truthful hashes the reports say, once for every difference without a clash above it, what stands on both sides and which chunks go with it; a type clash is one report with nothing below it, given exactly when the hashes differ |
| `TreeDiff.ClashSeen` | internal/merkle/tree.go:227-241 | a type clash between constructed nodes is reported if and only if their hash inputs differ, absent a collision of the two |
| `TreeDiff.ClashMissed` | internal/merkle/tree.go:227-241 | an empty file that became an empty directory is not reported |
| `TreeDiff.FaithfulTruthful` | internal/merkle/tree.go:196-230 | hashes that stand for contents are truthful, at every depth |
| `TreeDiff.ConstructedFaithful` | internal/merkle/tree.go:88-115 | hashes of constructed trees of one shape stand for contents, absent collisions |
| `ManifestDiff.DiffNode` | internal/diff/diff.go:14-56 | every outcome is a fact about the two trees, whatever the hashes; the results are the topmost differences of the plain comparison, each once, if and only if the hashes met are truthful |
| `ManifestDiff.DiffChildNodes` | internal/diff/diff.go:32-55 | the same below two nodes of which one is a directory, over any order of names |
| `ManifestDiff.DiffTrees` | internal/diff/diff.go:58-67 | the same for whole manifests |
| `ManifestDiff.FaithfulTopTruthful` | internal/diff/diff.go:26-27 | hashes that stand for contents are truthful for this comparison |
| `ManifestDiff.TopmostIsTopVerdict` | internal/diff/diff.go:20-56 | the outcome at a path depends only on what stands there and whether both sides have its parent |
| `ManifestDiff.ModifiedAgree` | internal/diff/diff.go:28-30 | on clash-free trees both comparisons call the same files modified |
| `ManifestDiff.FetchedAgree` | internal/diff/diff.go:20-22 | on clash-free trees flattening the added subtrees gives exactly the nodes the tree comparison finds only remotely |
| `ManifestDiff.DeletedAgree` | internal/diff/diff.go:23-25 | on clash-free trees the deleted paths are the topmost ones the tree comparison finds only locally |
| `ManifestDiff.ResultsAgree` | internal/diff/diff.go:14-67 | the three agreements for the lists both programs return |
| `Pruning.TruthfulExactly` | internal/merkle/tree.go:196-280 | for constructed trees without collisions the tree comparison is right if and only if no two nodes at the same path have the same hash input but different types or names below |
| `Pruning.TopTruthfulExactly` | internal/diff/diff.go:14-56 | the manifest comparison is right if and only if none have the same hash input but different names below |
| `Pruning.ChangeMissed` | internal/merkle/tree.go:102-115 | two files replaced by one with a fitting name: neither comparison reports the change |
| `ChunkPaths.HexRoundTrip` | internal/cas/chunk.go:22-25 | hex names decode to the hash |
| `ChunkPaths.HexLetters` | internal/cas/chunk.go:22-25 | two lower-case hexadecimal digits a byte, the high half first |
| `ChunkPaths.SlotInLetters` | internal/cas/store.go:54-86 | a directory of two digits, a file of the other 62, and `.tmp` behind the name of the temporary one |
| `ChunkPaths.SlotsApart` | internal/cas/store.go:54-63 | different chunks have different paths and none is a temporary file's |
| `ChunkPaths.SlotReads` | internal/cas/store.go:267-286 | the walk spells a chunk's path as its hash, and does not skip it as temporary |
| `PutSteps.StepVisible` | internal/cas/store.go:67-120 | every disk step is invisible to readers except the rename, which makes one whole chunk appear that was not there, and a removal |
| `PutSteps.RunKeepsInv` | internal/cas/store.go:67-120 | after every run of honest Puts and removals with errors and crashes anywhere, every chunk path is absent or holds data with its hash |
| `PutSteps.RunKeepsChunk` | internal/cas/store.go:67-120 | over every run that does not remove it, a visible chunk stays with the same data |
| `PutSteps.CrashAnywhere` | internal/cas/store.go:85-119 | a crash after any number of the steps leaves a sound store |
| `Cas.NextChunk` | internal/cas/chunk.go:51-87 | the next 1..4096 bytes in storage of their own, with their hash; end and error exactly when the stream says so |
| `Cas.ChunkAll` | internal/cas/chunk.go:90-105 | all chunks of the stream; reuse of the pooled buffer leaves earlier ones unchanged |
| `Cas.ChunkSizes` | internal/cas/chunk.go:12-105 | all chunks but the last have 4096 bytes, the last 1..4096, and together they are the input |
| `Cas.BlobStore.Put` | internal/cas/store.go:67-120 | readers see the chunk whole or not at all, an existing chunk is kept, and the disk went through a run of the step machine |
| `Cas.BlobStore.WriteTemp` | internal/cas/store.go:85-119 | temporary file, then rename; on every failure nothing is visible, and the temporary file is gone unless removing it failed too |
| `Cas.BlobStore.CleanUp` | internal/cas/store.go:100-117 | after an error the temporary file goes, or stays if removing it fails; readers see neither |
| `Cas.BlobStore.Get` | internal/cas/store.go:123-158 | returns the stored data, or fails exactly when there is none |
| `Cas.BlobStore.Has` | internal/cas/store.go:161-170 | true exactly for visible chunks |
| `Cas.BlobStore.Verify` | internal/cas/store.go:174-205 | true exactly for visible chunks whose data has their hash |
| `Cas.BlobStore.Delete` | internal/cas/store.go:208-223 | removes that chunk and no other |
| `Cas.BlobStore.VerifyAll` | internal/cas/store.go:256-300 | names every corrupted chunk, and only paths that spell a hash failing verification |
| `Cas.StoreReader` | internal/cas/store.go:227-252 | returns the chunk hashes in order, all of them stored, loses and changes nothing, keeps the store sound |
| `Cas.RestoreFile` | internal/cas/store.go:123-252 | the hashes a file was stored under read back as the file, in any later sound store that has them, absent collisions |
| `Files.Remove` | cmd/p2p-file-sync/main.go:537-547 | removes that path at most, and exactly if it is a file or a directory with nothing in it |
| `Files.LocateProper` | cmd/p2p-file-sync/main.go:738-750 | a name leads to an entry of its own directory, from every path, if and only if it is not empty, a dot or two dots and has no slash |
| `Files.LocateOther` | cmd/p2p-file-sync/main.go:738-750 | an empty name and a dot stay, two dots go up, a slash takes one part after the other |
| `Files.MountHolds` | cmd/p2p-file-sync/main.go:366-390 | the store's changes to its files are changes of the directory: reading them back gives the store's files |
| `Rebuild.Replica.WriteFile` | cmd/p2p-file-sync/main.go:763-787 | creates the file and fills it as the specification says; the store's view stays that of the directory |
| `Rebuild.Replica.AppendChunks` | cmd/p2p-file-sync/main.go:775-785 | every chunk is read when its turn comes; a missing one leaves the file cut short; a chunk at the path of the file itself reads as what was written so far |
| `Rebuild.Replica.Reconstruct` | cmd/p2p-file-sync/main.go:733-799 | the recursive rebuild does to the file system what the specification function says, errors included |
| `Rebuild.Replica.ReconstructChildren` | cmd/p2p-file-sync/main.go:715-731 | the same for all children of a directory |
| `RebuildFacts.StorageInLetters` | cmd/p2p-file-sync/main.go:366 | the store lies in `.storage/chunks` |
| `RebuildFacts.KeepsOffStore` | cmd/p2p-file-sync/main.go:366-390 | a manifest without `.storage/chunks` writes no file to the place of a chunk |
| `RebuildFacts.NodeKeepsStore` | cmd/p2p-file-sync/main.go:733-799 | rebuilding such a tree keeps every chunk as it was, whether or not it succeeds |
| `RebuildFacts.NodeFrame` | cmd/p2p-file-sync/main.go:733-799 | rebuilding a subtree touches nothing outside its own path, whether or not it succeeds |
| `RebuildFacts.NodeLays` | cmd/p2p-file-sync/main.go:733-799 | success lays exactly the subtree over the directory, every file restored from the store |
| `RebuildFacts.NodeCounts` | cmd/p2p-file-sync/main.go:733-799 | success means that every chunk of the subtree was there, and counts its files |
| `RebuildFacts.NodeSucceeds` | cmd/p2p-file-sync/main.go:733-799 | it cannot fail when all chunks are there and nothing is in the way |
| `RebuildFacts.NodeNeedsRoom` | cmd/p2p-file-sync/main.go:733-799 | a rebuild that succeeds had nothing in its way |
| `RebuildFacts.FilesCounted` | cmd/p2p-file-sync/main.go:733-799 | the number of files written is the number of paths at which the tree has a file with chunks |
| `StoreOverlap.NodeHarmless` | cmd/p2p-file-sync/main.go:733-799 | a successful rebuild leaves the store as it was if and only if every file at the place of a chunk spells that chunk |
| `StoreOverlap.OverlapBreaksStore` | cmd/p2p-file-sync/main.go:733-799 | a manifest with distinct, proper names whose rebuild succeeds and makes a sound store unsound |
| `Fetching.HandleChunkRequest` | cmd/p2p-file-sync/main.go:238-266 | answers with the data of exactly the stored ones of the requested chunks, and names exactly the others, both in the order of the request |
| `Fetching.HonestPeerDelivers` | cmd/p2p-file-sync/main.go:238-266 | a peer answering from a sound store that has the manifest's chunks delivers them |
| `Fetching.CollectMissing` | cmd/p2p-file-sync/main.go:693-713 | exactly the chunks of the subtree that the store lacks, as often and in the order its files list them |
| `Fetching.CollectAllMissing` | cmd/p2p-file-sync/main.go:463-477 | the same for all added and modified nodes |
| `Fetching.StoreAnswers` | cmd/p2p-file-sync/main.go:507-522 | whatever came is stored under its own hash and nothing else is: the store stays sound |
| `Fetching.Download` | cmd/p2p-file-sync/main.go:485-525 | asks in batches of ten at their positions and fails exactly if one is not answered; stores all answers and nothing else; keeps the store sound for every peer, and gets all chunks from one that delivers |
| `Fetching.OnlyFromManifest` | cmd/p2p-file-sync/main.go:463-477 | only chunks of the manifest are ever requested, whatever hashes it carries |
| `Fetching.NothingForgotten` | cmd/p2p-file-sync/main.go:449-477 | every manifest chunk that the local tree does not list is in a fetched or replaced node |
| `Fetching.DeletesLocalOnly` | cmd/p2p-file-sync/main.go:537-547 | a path to delete exists locally and not in the manifest, whatever hashes it carries |
| `SyncRun.DeletePaths` | cmd/p2p-file-sync/main.go:537-547 | files among the paths are gone, directories exactly if nothing was in them (for paths none of which lies below another), everything else stays |
| `SyncRun.SweepKeeps` | internal/merkle/build.go:79-83 | paths of a local tree have no name that starts with a dot, so that deleting them leaves the store and the directory itself in place |
| `SyncRun.Plan` | cmd/p2p-file-sync/main.go:447-477 | for every manifest, what a run requests and deletes comes from outcomes that are facts about the two trees; with faithful hashes they are the topmost differences |
| `SyncRun.DeletesExactly` | internal/diff/diff.go:14-56 | with truthful hashes exactly the paths are deleted that are local, not in the manifest, and have their parent in both trees |
| `SyncRun.RequestsAll` | cmd/p2p-file-sync/main.go:463-477 | with faithful hashes every chunk that neither the local tree lists nor the store has is requested |
| `SyncRun.Finish` | cmd/p2p-file-sync/main.go:530-547 | the manifest is rebuilt as specified and, if that succeeded, the paths are swept |
| `SyncRun.EndSettles` | cmd/p2p-file-sync/main.go:530-547 | after success the directory holds the manifest's tree, deleted files are gone, and every other path outside the store is as it was |
| `SyncRun.EndDeletes` | cmd/p2p-file-sync/main.go:537-547 | after success every file that only the local tree has, with its parent in both, is gone, and every such directory exactly if nothing was in it |
| `SyncRun.EndExact` | cmd/p2p-file-sync/main.go:530-547 | rebuilding succeeds if and only if every chunk of the manifest is in the store and nothing is in the way |
| `SyncRun.EndHarmless` | cmd/p2p-file-sync/main.go:530-547 | after success the store is as after the downloads if and only if every file at the place of a chunk spells that chunk |
| `SyncRun.Sync` | cmd/p2p-file-sync/main.go:447-551 | a whole run. For every manifest, peer and disk: the store after the downloads, when they fail, what is requested, what is deleted, and when rebuilding keeps the store; exactly what is deleted if the hashes are truthful. For a manifest that stays in its place: the store after the run, exactly when it succeeds, the directory after success with everything that only the local tree had gone |
| `SyncRun.FileArrives` | cmd/p2p-file-sync/main.go:757-785 | after a successful run a manifest file has its exact contents, whoever the peer was, absent collisions, if and only if it is not empty or was there, empty, before |
| `SyncRun.SyncTwice` | cmd/p2p-file-sync/main.go:447-551 | a second run against the same manifest requests nothing, whatever hashes it carries |
| `Signaling.SignalingServer.HandleConnection` | internal/nat/signaling.go:124-160 | what every byte stream does to the directory and what is answered: acknowledgement, lookup, error, or nothing exactly when the stream is cut off |
| `Signaling.SignalingServer.HandleRegister` | internal/nat/signaling.go:162-220 | a well-formed body registers and is acknowledged, any other changes nothing |
| `Signaling.SignalingServer.HandlePeerRequest` | internal/nat/signaling.go:222-245 | answers with the entry, or "peer not found" |
| `Signaling.SignalingServer.Cleanup` | internal/nat/signaling.go:290-311 | exactly the entries older than 300 seconds go, the others stay as they are |
| `Signaling.FrameReads` | internal/nat/signaling.go:130-150 | a frame reads back if and only if its body keeps to 1024 bytes |
| `Signaling.RequestBytes` | internal/nat/signaling.go:328-396 | registrations and lookups in bytes |
| `Signaling.ReplyBytes` | internal/nat/signaling.go:247-288 | acknowledgement, answer and "peer not found" in bytes |
| `Signaling.RegisterExact` | internal/nat/signaling.go:162-205 | a body registers exactly the three strings it starts with, whatever follows |
| `Signaling.LookupSpells` | internal/nat/signaling.go:222-233 | a body asks for exactly the string it starts with |
| `Signaling.RegisterArrives` | internal/nat/signaling.go:328-363 | a registration is accepted with exactly the client's strings if and only if it keeps to the server's limit |
| `Signaling.LookupArrives` | internal/nat/signaling.go:390-396 | the server reads the name the client asked for |
| `Signaling.ResponseArrives` | internal/nat/signaling.go:257-279 | an answer within the limit reads back as the entry's addresses |
| `Signaling.AcceptedFits` | internal/nat/signaling.go:139-142 | every accepted registration gives answers within the client's limit |
| `Signaling.DirectoryIsCurrent` | internal/nat/signaling.go:162-311 | over every run, a name is in the directory if and only if its latest registration was never found too old, with exactly its data |
| `Signaling.LookupExact` | internal/nat/signaling.go:222-495 | over every run, a lookup decodes to the current registration's addresses, and to "not found" when there is none |
| `Signaling.FoundForFiveMinutes` | internal/nat/signaling.go:290-311 | a peer that registered within the limit is found, with its addresses, for five minutes |
| `Signaling.GoneAfterFiveMinutes` | internal/nat/signaling.go:290-311 | a registration that a tick finds older than that is not found, unless the name registers again |
| `Stun.XorBits` | internal/nat/stun.go:258-268 | the exclusive or is taken bit by bit |
| `Stun.XorTwice` | internal/nat/stun.go:258-268 | the exclusive or is undone by itself, at every width |
| `Stun.ParseStunResponse` | internal/nat/stun.go:178-247 | the exact bytes that lead to each failure; an address only from a whole success response with the magic cookie and, for an ID of twelve bytes, for this transaction; "no address" exactly if the walk comes to no address attribute |
| `Stun.HeaderExact` | internal/nat/stun.go:178-214 | a header passes if and only if it is one; of every other input exactly one failure is true |
| `Stun.WalkAttributes` | internal/nat/stun.go:213-246 | the loop is the recursive walk |
| `Stun.WalkDecided` | internal/nat/stun.go:213-246 | stepping over other attributes, each rounded up to four bytes, the first of type 0x0020 or 0x0001 decides |
| `Stun.WalkUndecided` | internal/nat/stun.go:213-246 | where the walk comes to none there is no address |
| `Stun.XorOutcome` | internal/nat/stun.go:250-286 | which bytes of an exclusive-or address are read, what they are combined with, and when it is too short or not supported |
| `Stun.PlainOutcome` | internal/nat/stun.go:289-308 | the same for a plain address, of four or sixteen bytes |
| `Stun.BuildStunRequest` | internal/nat/stun.go:159-175 | the eight header bytes 00 01 00 00 21 12 a4 42, then the transaction ID cut or filled up with zeros to twelve bytes |
| `Stun.AddressReads` | internal/nat/stun.go:250-308 | both address encodings read back to the IPv4 address and port |
| `Stun.WalkSkips` | internal/nat/stun.go:217-244 | other attributes are stepped over, however many and however padded |
| `Stun.AddressArrives` | internal/nat/stun.go:178-308 | in every well-formed success response, after any other attributes and before any further bytes, the first address attribute gives exactly its address and port |

## Left out

- Exchange.Exchange: files with 2^32 or more blocks, or of 4 GiB or more, because their counts do not fit the 32-bit fields; `Signatures.SignatureRoundTrip` and `Deltas.DeltaRoundTrip` say exactly when they fit. Block sizes above 65536 are in `Generator.GenerateDelta` and `Exchange.LossUnnoticed`.
- Signaling.SignalingServer.HandleConnection: all error texts except "peer not found" are one text, because clients treat them alike.
- PutSteps.RunKeepsInv: a crash of the process is modelled, loss of power is not, because the program never forces written data to disk.
- SyncRun.Sync: the local tree is one that the tree builder makes (proper names, none with a leading dot); what a directory at the place of a chunk does to the store and disk errors while files are rebuilt are not modelled; a change between file and directory and a cancelled run are not reconciled.
- Merkle.RootCommits: chunk hashes have 32 bytes by type. A manifest with a shorter one that is missing ends the program while it prints the error; that is not modelled.
- Names that the operating system refuses (a zero byte, too long), links, permissions and case folding.
- QUIC and TLS transport, certificates, protobuf messages and their framing: library plumbing.
- `SyncManager.SyncWithPeer` in `internal/net`: the command line run is modelled instead.
- Hole punching, relay, SQLite index, watcher, metrics, logging and command line flags: timers, sockets, SQL and formatting.
- Manifest nodes that are files and have children: the tree type has no such node.
- Modes, sizes and the floating-point compression ratio: no part of hashing, comparing or replaying.
- Building a tree from the file system and the indexing walk: thin loops over `Cas.ChunkAll` and `Cas.BlobStore.Put`.
