# Vetu, modelled and proved in Dafny

Vetu runs virtual machines and distributes them through OCI registries. This project models four of
its parts and proves what they promise. `dafny verify dfyconfig.toml` checks everything.

**Disk distribution** (`SparseIO`, `Compression`, `Chunker`, `OCI`, `Push`, `DiskPuller`, `Pull`,
`RoundTrip`, `Temporary`). A disk is cut into independently compressed chunks, uploaded as annotated layers,
and put back by concurrent tasks that skip zero data. The main result is `PushThenPull`. Its environment is
arbitrary: the compressor (any state, any buffering, the round-trip law and "no output, no data"), the sizes
of writes and reads, and the order in which all tasks' rounds happen. A round of a task is one read and at
most one positional write, which is taken to be atomic. What the code relies on and does not check is the
predicate `RoundTrip.Distributable`: no digest collision among the data of one image, and disks that fit an
int64 length. A disk may also be the config, kernel or initramfs file; that a config has no zero byte is a
law of its format (JSON). The directory pulled into holds nothing but a config. Duplicate disk names are
covered: such a disk comes back repeated (`StoredExactly`). A pull that is cancelled between two tasks
reports no error; `CancelledPull` says when its disks are right all the same.

**Subnet allocation** (`PrefixTrie`, `SubnetFinder`, `RunNetwork`). Address blocks are bit strings,
containment is the prefix order, and `BlockIsRange` ties this to numeric ranges. The trie is implemented;
`Subtract` followed by `MergeToPrefixBlocks` is modelled by the sibling blocks on the path to the used
block, which `SubtractIsExact` shows to be the only possible outcome. Each interface address is an arbitrary
aligned block; whether the library reads `a.b.c.d/n` as one address or as its whole block does not matter
for `LiveSubnetsAreDisjoint`, which allows both. The repository's README.md (line 58) promises a /30 subnet
for host networking; `internal/network/host/host.go` line 50 asks for a /29, and the model follows the code.

**Apple Streams** (`AppleStream`). LZ4 with a dictionary is an abstract pair of functions with a round-trip
law, which `RepeatLZ4` shows to be satisfiable. The block header fields, the markers, the size limit and its
32-bit sum are the code's. A zero-length block makes the reader report EOF early; `DeliveryExact` says for
exactly which streams this loses data.

**Stores** (`ImageCache`, `FileLock`, `LocalStore`). The image cache is modelled command by command, with a
crash possible between any two file-system changes: a `FileSystem` object makes only as many changes as its
budget allows. The local store is a state machine of arbitrarily many processes whose steps interleave;
exiting at any point, which is also what a crash or an error does, releases a process's locks. Three facts
the proofs bring out: a section under the global lock whose callback fails keeps the lock until the process
exits (`With`), a pull by digest of an image that is not cached is not flagged and disappears with the next
collection unless a dangling tag has been waiting for it (`DigestPullSurvives`), and a tag that resolves to
an older image is not re-pointed when the newer one is already cached (`PulledTag`).

## Model

| member | source | states |
|---|---|---|
| Bytes.ParseIntOfFormat | internal/oci/push.go:246 | A size annotation written by the pusher is parsed back by the puller, except that a number outside int64 is an error |
| Bytes.ParseIntOfSigned | internal/oci/diskpuller/diskpuller.go:61 | A sign is accepted, and negative numbers reach one further |
| Bytes.OnlyNumbersParse | internal/oci/diskpuller/diskpuller.go:61-64 | Anything but decimal digits after at most one sign is an error |
| Bytes.LittleEndian | internal/oci/pull/tart/applestream/applestream.go:80-81 | The bytes of a size field are its base-256 digits, lowest first |
| SparseIO.OffsetWriter.WriteAt | internal/oci/diskpuller/diskpuller.go:151 | A write through the offset writer lands at the task's offset plus its own, growing the file with zeros if needed; one that fails puts only some of its bytes |
| SparseIO.Copy | internal/sparseio/sparseio.go:11-41 | For every schedule of reads (short, empty, data together with EOF, failing) and every write that may fail half-way, exactly the non-zero reads are written at their offsets, in order, up to the failure; a successful copy over a zero-compatible region leaves the data of all reads up to and including the one with EOF |
| SparseIO.DeliveredUpTo | internal/sparseio/sparseio.go:20-38 | The read that reports EOF or an error hands over its data like those before it |
| SparseIO.SparseWritesAreContent | internal/sparseio/sparseio.go:22-29 | No issued write is all zeros; each carries the source's bytes at its own place and stays inside the source's range |
| SparseIO.SparseCopyWritesContent | internal/sparseio/sparseio.go:17-40 | Over a region that is zero where the source is zero, the copy leaves exactly the source there and every other byte untouched |
| SparseIO.SparseCopyExact | internal/sparseio/sparseio.go:23-29 | The copy is right for every way the source may be cut into reads if and only if the destination is already zero wherever the source is |
| Temporary.CopyFile | internal/storage/temporary/temporary.go:46-84 | A file comes out identical exactly when its extents are cloned, or cloning is not supported and no read or write of the sparse copy into the freshly truncated file fails |
| Temporary.CreateFrom | internal/storage/temporary/temporary.go:39-84 | The copied directory equals the source directory exactly when every file can be copied, for every mixture of cloning and copying and every read schedule |
| Compression.NopCodecIsLawful | internal/chunker/chunker_test.go:85-95 | The pass-through writer satisfies the law asked of compressors |
| Compression.FrameCodecIsLawful | internal/chunker/chunker.go:12-15 | So does a writer with a header, held-back data and a trailer flushed by Close |
| Chunking.Chunker.constructor | internal/chunker/chunker.go:42-57 | A new chunker has an empty group of writes and a fresh compressor |
| Chunking.Chunker.ResetPerChunkState | internal/chunker/chunker.go:128-140 | A fresh buffer, size, hash and compressor |
| Chunking.Chunker.Emit | internal/chunker/chunker.go:72-79 | The chunk sent carries the closed compressor's whole output, and the size and digest of its own plaintext |
| Chunking.Chunker.Write | internal/chunker/chunker.go:59-96 | A write goes to the current chunk or, once the buffer has reached the chunk size, to a new one; chunks emitted before keep their bytes |
| Chunking.Chunker.Close | internal/chunker/chunker.go:102-126 | The last chunk is emitted unless it is empty and another one was emitted before; chunks emitted before keep their bytes |
| Chunking.FeedKeepsBytes | internal/chunker/chunker.go:59-96 | Emitted plaintexts followed by the current chunk's are always the bytes written so far |
| Chunking.ChunksKeepBytesExactly | internal/chunker/chunker.go:113-121 | The chunks' plaintexts are the written bytes if and only if Close does not suppress a chunk into which data has gone |
| Chunking.ChunksKeepBytes | internal/chunker/chunker.go:102-126 | With a lawful compressor for which no output decodes to no data, no byte is lost |
| Chunking.LawAloneDoesNotKeepBytes | internal/chunker/chunker.go:113-121 | A compressor that meets the round-trip law alone and for which Close drops a written byte |
| Chunking.EmittedChunksAreFull | internal/chunker/chunker.go:63-84 | Every chunk sent by Write has at least chunkSize compressed bytes |
| Chunking.ChunksAreCutInTime | internal/chunker/chunker.go:63-84 | Without its last write no chunk has put out chunkSize bytes |
| Chunking.ChunkCount | internal/chunker/chunker.go:63-121 | At least one chunk; exactly one when nothing is written; at most compressed output / chunkSize + 1 |
| OCI.PutThenGet | internal/oci/push.go:199 | An uploaded blob is fetched by its descriptor as long as the image's blobs have no digest collision |
| Push.PushBytes | internal/oci/push.go:171-200 | The descriptor carries media type, annotations, and the size and digest of the data, which is stored under that digest |
| Push.ChunkDisk | internal/oci/push.go:216-239 | The chunks received are those of the disk's writes, each with its own size and digest |
| Push.PushDisk | internal/oci/push.go:202-270 | One disk layer per chunk, in order, uploaded under the digest of its data and annotated with the disk's name and the plaintext's size and digest |
| Push.PushFiles | internal/oci/push.go:69-107 | Config and kernel layers, and an initramfs layer exactly when the file exists |
| Push.PushVMDirectory | internal/oci/push.go:37-137 | Succeeds exactly when the config parses and all files are there; the manifest then put has the image configuration and the layers config, kernel, optional initramfs and every disk's chunks in the config's order, all uploaded; a push that fails puts no manifest |
| Push.LayersAreWellDescribed | internal/oci/push.go:180-185 | Every layer of an image has the size and the digest of its own data |
| Push.DescribedLayersDoNotCollide | internal/oci/push.go:180-185 | So blobs overwrite each other only if the digest itself collides |
| RoundTrip.ImageDescribesItself | internal/oci/push.go:69-137 | A pushed image lists config, kernel, initramfs if any, and then the disks' chunks in the config's order, each decoding to a plaintext whose size and digest and disk it names |
| Pull.PreparePull | internal/oci/pull/vetu/vetu.go:30-125 | The tasks and prepared files follow the layers' media types; wrong layer counts, missing blobs, bad configs, unnamed or unlisted disks and bad sizes are errors, after which only the files handled so far have changed |
| Pull.LayersOfType | internal/oci/pull/vetu/vetu.go:35-107 | Filtering by media type gives all layers that have it, in order |
| Pull.FilesFromExact | internal/oci/pull/vetu/vetu.go:35-102 | The files are written if and only if there are one config layer, one kernel layer and at most one initramfs layer, all blobs are there and the config is valid; they are then these blobs and the re-encoded config |
| Pull.PlannedNamesAreListed | internal/oci/pull/vetu/vetu.go:109-125 | Every disk to be written is named by its layer and listed in the config; a layer without a name or with an unlisted one is an error |
| Pull.JobsExact | internal/oci/diskpuller/diskpuller.go:153-162 | A task has data if and only if its blob is there and decodes, and then exactly what it decodes to |
| Pull.PullDisks | internal/oci/diskpuller/diskpuller.go:44-89 | Either the first error in descriptor order, before any file is touched, or one task per descriptor and every disk file opened and truncated to its length, or a negative length and some of the files done |
| DiskPuller.PlanTasks | internal/oci/diskpuller/diskpuller.go:44-73 | Every task's offset is the int64 sum of the sizes of its disk's earlier layers; the recorded lengths are the sums of all of them |
| DiskPuller.EntriesExact | internal/oci/diskpuller/diskpuller.go:49-64 | Layers are planned if and only if every one has an accepted name and a size annotation that is a number |
| DiskPuller.PrepareFiles | internal/oci/diskpuller/diskpuller.go:75-89 | Every disk file is opened without truncation and then truncated to its length, in any order; a negative length is an error that leaves some files done and its own file opened |
| DiskPuller.PreparedKeepsBytes | internal/oci/diskpuller/diskpuller.go:75-89 | A file that was there keeps its bytes up to its length, a new one is all zeros, other files are left alone |
| DiskPuller.RangesTile | internal/oci/diskpuller/diskpuller.go:66-72 | Every position of a disk is in the range of exactly one task |
| DiskPuller.TaskRange | internal/oci/diskpuller/diskpuller.go:66-72 | A task's range lies inside its disk, where exactly the task's data belongs |
| DiskPuller.StepKeepsInv | internal/oci/diskpuller/diskpuller.go:108-121 | Every step of every interleaving keeps each task's finished part in place and spoils nothing |
| DiskPuller.SuccessfulPull | internal/oci/diskpuller/diskpuller.go:108-133 | After any interleaving and any cutting into reads in which all tasks succeed, every disk is its layers' data and other files are unchanged |
| DiskPuller.StepsCommute | internal/oci/diskpuller/diskpuller.go:113-121 | Steps of two tasks can be swapped without changing the result |
| DiskPuller.UnfinishedTaskCanMove | internal/oci/diskpuller/diskpuller.go:138-169 | An unfinished task can always move, and gets closer to its end |
| DiskPuller.TaskIsSparseCopy | internal/oci/diskpuller/diskpuller.go:164 | The rounds of one task have the effect of sparseio.Copy for the same reads |
| DiskPuller.PullExact | internal/oci/diskpuller/diskpuller.go:75-133 | Every successful pull gets all disks right if and only if the files, opened without truncation, have no stray bytes where the disks are zero |
| DiskPuller.AllTasksCanSucceed | internal/oci/diskpuller/diskpuller.go:108-126 | There is a run in which all tasks succeed |
| DiskPuller.CancelledPull | internal/oci/diskpuller/diskpuller.go:113-126 | A pull cancelled after its first n tasks reports no error; it has got a disk right if and only if the disk's other layers were in its file from the beginning, which for a new file means that they are all zeros |
| DiskPuller.CancelledPullCanBeWrong | internal/oci/diskpuller/diskpuller.go:113-126 | A layer and a run for which such a pull is wrong |
| RoundTrip.SelectFromImage | internal/oci/pull/vetu/vetu.go:35-107 | Selecting by media type from a pushed image finds exactly the config, the kernel, the initramfs if any, and the disk layers in order |
| RoundTrip.FilesComeBack | internal/oci/pull/vetu/vetu.go:47-102 | Pulling a pushed image writes the re-encoded config, the same kernel and the same initramfs if any |
| RoundTrip.EntriesComeBack | internal/oci/diskpuller/diskpuller.go:49-64 | Names and sizes read from the layers are those of the pushed chunks |
| RoundTrip.DataComesBack | internal/oci/diskpuller/diskpuller.go:153-162 | Every task's decompressor hands over its chunk's plaintext |
| RoundTrip.JobsAreWellPlaced | internal/oci/diskpuller/diskpuller.go:66-72 | For a pushed image every offset is the amount of data the disk's earlier chunks hold |
| RoundTrip.StoredExactly | internal/command/create/create.go:82-92 | A disk comes back unchanged if and only if the config lists it once, or it is empty; listed k times it comes back repeated k times |
| RoundTrip.PlanOfPushed | internal/oci/pull/vetu/vetu.go:30-132 | A pull of a pushed image is planned without error, with every task where its data belongs and every disk file free of stray bytes, also when disks are the config, kernel or initramfs file |
| RoundTrip.PushThenPull | internal/oci/diskpuller/diskpuller.go:33-136 | Push then pull gives the expected directory: for every lawful compressor, cutting into writes, interleaving of the disk tasks and cutting into reads |
| RoundTrip.PullCanSucceed | internal/oci/diskpuller/diskpuller.go:108-133 | There is a run of such a pull in which all tasks succeed and the directory is the expected one |
| RoundTrip.SomeDirectoryIsDistributable | internal/oci/push.go:37-137 | A directory, a codec and a digest that meet all that is asked of them |
| RoundTrip.PulledIsPushed | internal/oci/pull/vetu/vetu.go:104-132 | With distinct disk names every pulled file equals the pushed one, except for a re-encoded config that is not itself a disk |
| PrefixTries.PrefixTrie.Add | internal/network/subnetfinder/subnetfinder.go:52-54 | The trie holds one more block |
| PrefixTries.PrefixTrie.Remove | internal/network/subnetfinder/subnetfinder.go:50 | The trie holds one block less |
| PrefixTries.PrefixTrie.RemoveElementsContainedBy | internal/network/subnetfinder/subnetfinder.go:42 | Exactly the blocks inside the given one are gone |
| PrefixTries.PrefixTrie.LongestPrefixMatch | internal/network/subnetfinder/subnetfinder.go:47 | The longest block containing the given one, if there is one |
| PrefixTries.PrefixTrie.Iterator | internal/network/subnetfinder/subnetfinder.go:60-63 | All blocks, in address order |
| PrefixTries.ElementsInOrder | internal/network/subnetfinder/subnetfinder.go:60-63 | Blocks are visited in address order |
| SubnetFinder.SubtractIsExact | internal/network/subnetfinder/subnetfinder.go:48-54 | The split has as many blocks as the used block is longer than the match (so splits[0] exists), they are disjoint, and they are exactly the maximal blocks of the match without the used block |
| SubnetFinder.SubtractKeepsExactness | internal/network/subnetfinder/subnetfinder.go:40-55 | Subtracting one interface turns the maximal free blocks into the maximal free blocks with that interface used, for any address width |
| SubnetFinder.MaximalBlocksAreDisjoint | internal/network/subnetfinder/subnetfinder.go:47 | The trie's blocks are pairwise disjoint, so a match is unique |
| SubnetFinder.SubtractInterface | internal/network/subnetfinder/subnetfinder.go:32-56 | One round of the interface loop keeps the trie at exactly the maximal free blocks |
| SubnetFinder.FreeSpace | internal/network/subnetfinder/subnetfinder.go:10-56 | After the loop the trie holds exactly the maximal aligned blocks of private space outside all used blocks; only the set of used blocks matters |
| SubnetFinder.PrivateSpaceValues | internal/network/subnetfinder/subnetfinder.go:16-20 | The private blocks are those of section 3 of RFC 1918 |
| SubnetFinder.FindAvailableSubnet | internal/network/subnetfinder/subnetfinder.go:9-93 | The subnet found is the lowest aligned private block of the length that shares no address with any interface, with its first three hosts; the error is returned if and only if there is none |
| SubnetFinder.FirstFitExists | internal/network/subnetfinder/subnetfinder.go:58-92 | If any block of the length is available there is a lowest one |
| SubnetFinder.FirstFitMeaning | internal/network/subnetfinder/subnetfinder.go:62-92 | Every address of the subnet is private and unused, and no available subnet has a lower numeric address |
| SubnetFinder.FirstFitIsUnique | internal/network/subnetfinder/subnetfinder.go:32-92 | The result depends on the set of used blocks only, not on the order or repetition of interfaces |
| SubnetFinder.BlockIsRange | internal/network/subnetfinder/subnetfinder.go:70-76 | A block of bit strings is an aligned numeric address range |
| SubnetFinder.HostIsOffset | internal/network/subnetfinder/subnetfinder.go:78-83 | The n-th address lies in the subnet, n above the network address |
| SubnetFinder.RoomForHosts | internal/network/subnetfinder/subnetfinder.go:80-85 | Prefixes up to 30, and so the 29 the program asks for, have three hosts |
| RunNetwork.FoundIsNew | internal/network/software/software.go:48-77 | A subnet found differs from every subnet with an address assigned, whether that address is read as itself or as its block |
| RunNetwork.LiveSubnetsAreDisjoint | internal/command/run/run.go:112-203 | In every run of any number of run processes, with crashes and other interfaces changing at will, live VMs' subnets have no address in common, those of VMs whose hypervisors have outlived their processes included |
| RunNetwork.FoundAvoidsInterfaces | internal/network/subnetfinder/subnetfinder.go:22-56 | A subnet found shares no address with any interface the host reports at that moment |
| RunNetwork.InterfaceAddressIsItsOwn | internal/network/software/software.go:48-77 | The interface's address is never the VM's; with software networking it is not the gateway's either, with host networking it is the gateway |
| RunNetwork.OneMoreVM | internal/command/run/run.go:112-122 | From every state in which a subnet is free and nobody has the lock, one more VM can be brought up, in the first free subnet |
| RunNetwork.TwoVMsCanServe | internal/command/run/run.go:112-122 | A run with two VMs serving at once |
| RunNetwork.HowProcessesEnd | internal/command/run/run.go:198-220 | A process that ends takes its lock and interface along; one that is killed leaves its VM with subnet and address until the hypervisor ends |
| AppleStream.Reader.ProcessNextBlock | internal/oci/pull/tart/applestream/applestream.go:62-153 | One block is taken off the stream into buffer and dictionary, or the end marker is noted; on failure buffer and dictionary stay as they were |
| AppleStream.Reader.Read | internal/oci/pull/tart/applestream/applestream.go:46-60 | A read serves the buffer if it suffices, otherwise processes at most one block first; EOF only from an empty buffer |
| AppleStream.NextBlockExact | internal/oci/pull/tart/applestream/applestream.go:62-153 | The parser takes exactly what a grammar over raw bytes allows: "bv4-" or "bv41" blocks that are complete, within the limits and as large as announced, or the end marker |
| AppleStream.FailsExactly | internal/oci/pull/tart/applestream/applestream.go:46-60 | A read fails if and only if the buffer does not suffice, the end has not been reached, and the input goes on with neither |
| AppleStream.EndIsMarked | internal/oci/pull/tart/applestream/applestream.go:145-149 | Whatever the stream and the read sizes, the end is reached only when the last four bytes consumed are the end marker |
| AppleStream.BufferServes | internal/oci/pull/tart/applestream/applestream.go:46-51 | A read that the buffer can serve leaves the stream alone and does not end it |
| AppleStream.BufferIsBounded | internal/oci/pull/tart/applestream/applestream.go:47-51 | However much is read, less than 2^32 bytes are left in the buffer |
| AppleStream.StepKeepsData | internal/oci/pull/tart/applestream/applestream.go:46-60 | One read keeps delivered plus upcoming data equal to the stream's decoding |
| AppleStream.RunKeepsData | internal/oci/pull/tart/applestream/applestream.go:46-153 | At every point of any run, delivered data followed by buffer and the decoding of the rest is the stream's decoding |
| AppleStream.DeliveredIsPrefix | internal/oci/pull/tart/applestream/applestream.go:54-56 | Whatever was delivered is a prefix of the decoding, also when the run ends with an error |
| AppleStream.ReadAll | internal/oci/pull/tart/applestream/applestream_test.go:46-57 | Reading everything with any positive sizes terminates and delivers a prefix of the decoding; an encoded stream of non-empty blocks is returned in full, and nothing behind its end marker is consumed |
| AppleStream.NextBlockOfEncoded | internal/oci/pull/tart/applestream/applestream.go:69-144 | The parser takes exactly one well-formed block, compressed against the dictionary or raw, off any input |
| AppleStream.DecodeOfEncoded | internal/oci/pull/tart/applestream/applestream.go:62-153 | Decoding an encoded sequence of blocks gives their data, whatever follows the end marker |
| AppleStream.RunDeliversAll | internal/oci/pull/tart/applestream/applestream.go:46-60 | Inside an encoded stream no read fails and nothing behind the end marker is consumed |
| AppleStream.StreamRoundTrip | internal/oci/pull/tart/applestream/applestream.go:46-153 | With non-empty blocks and positive read sizes, the bytes up to EOF are exactly the blocks' data and the end marker has been consumed, no more |
| AppleStream.DeliveryExact | internal/oci/pull/tart/applestream/applestream.go:49-59 | Every run that ends in EOF delivers everything if and only if no data follows an empty block |
| AppleStream.SizeCheckExact | internal/oci/pull/tart/applestream/applestream.go:83-88 | The 32-bit sum check holds a block to the limit exactly when the sum does not wrap to a value within it |
| ImageCache.GC | internal/storage/remote/remote.go:234-301 | For any walk order the reference-count pass removes precisely dangling tags and unreferenced unflagged directories; cut short by a crash, it has removed some of them |
| ImageCache.Sweep | internal/storage/remote/remote.go:283-298 | The second loop removes managed directories without references and without the flag, in any order |
| ImageCache.CollectedIsClean | internal/storage/remote/remote.go:240-298 | After a collection every tag resolves and every digest directory is tagged or explicitly pulled |
| ImageCache.CleanHasNoGarbage | internal/storage/remote/remote.go:240-298 | A cache is clean if and only if there is nothing to collect; collecting is idempotent |
| ImageCache.CollectedKeepsGoodNames | internal/storage/remote/remote.go:252-287 | Collection does not change what a tag resolves to |
| ImageCache.MoveIn | internal/storage/remote/remote.go:45-76 | Rename, unlink and symlink happen in that order, up to a crash; after completion digest and tag resolve to the digest directory, and a crash leaves the tag where it was, gone, or leading there, with all other entries unchanged |
| ImageCache.Pull | internal/storage/remote/pull.go:76-112 | The case split on cached or fresh and tag or digest decides which changes are made, in order, up to a crash; a failed download changes nothing |
| ImageCache.Delete | internal/storage/remote/remote.go:134-166 | A name that does not resolve is an error; otherwise the name is gone afterwards, by digest with all tags that led there, by tag with its directory unless that is flagged or tagged otherwise, and everything else that resolves or is flagged stays |
| ImageCache.NextCollectionCleans | internal/command/root.go:30-40 | After any run of commands with crashes between any two changes, the next completed collection leaves a clean cache |
| ImageCache.FlagSurvives | internal/storage/remote/pull.go:99-110 | An explicitly pulled directory survives every run that does not delete it by digest |
| ImageCache.PulledTag | internal/storage/remote/pull.go:76-97 | After a completed pull of a tag it resolves, and to the manifest's digest if and only if that digest was not cached, or the tag did not resolve or already led there; a new directory is not flagged |
| ImageCache.DigestPullSurvives | internal/storage/remote/pull.go:77-110 | After a completed pull by digest the image survives the next collection if and only if it was cached before or a dangling tag has been leading to it |
| ImageCache.FreshDigestPullIsCollected | internal/storage/remote/pull.go:77-84 | Otherwise, as the pull returns before flagging, the next collection leaves what it would have left without the pull |
| ImageCache.CachedDigestPullIsFlagged | internal/storage/remote/pull.go:99-110 | A pull by digest of a cached image flags it and changes nothing else |
| ImageCache.CrashedTag | internal/storage/remote/remote.go:66-72 | A pull cut short leaves its tag as it was, gone, or leading to the digest directory, which is there by then, and every other entry alone |
| FileLocks.FileLock.Trylock | internal/filelock/filelock.go:37-39 | The lock is taken if and only if no other description has a conflicting one; an exclusive lock is never held beside another |
| FileLocks.SharedLocksCoexist | internal/filelock/filelock.go:25-28 | Shared locks get along with each other and with no exclusive one |
| FileLocks.FileLock.Lock | internal/filelock/filelock.go:41-54 | The lock is taken at the first poll at which it is free, unless the context is cancelled by then, whatever the other processes do in between |
| FileLocks.FileLock.Unlock | internal/filelock/filelock.go:56-58 | Only the own lock goes |
| FileLocks.HeldExclusively | internal/filelock/filelock.go:25-28 | Whatever the others do, an exclusive lock stays the only one on its file and nobody else gets one |
| FileLocks.With | internal/globallock/globallock.go:16-43 | The callback runs if and only if the global lock could be taken before a cancellation, and with nobody else holding it; afterwards the process still holds the lock if and only if the callback or the unlocking failed |
| LocalStore.StepKeepsInv | internal/storage/local/local.go:27-120 | Every step of every process keeps the global lock and the directory locks exclusive and the opened, temporary and collected directories where they were opened |
| LocalStore.DeleteRemovesOnlyItsOwn | internal/storage/local/local.go:92-120 | In every interleaving delete only removes a directory on which no other process holds a lock |
| LocalStore.DeleteDeletes | internal/storage/local/local.go:92-120 | In every interleaving, once a delete is through with a name, it is gone, unless another process had the directory locked when the delete tried |
| LocalStore.DeletionLasts | internal/storage/local/local.go:115-117 | A deleted name is absent at every later point of every run unless it is published again |
| LocalStore.LoneDeleterLocks | internal/command/delete/delete.go:39-56 | A delete can open and lock a directory nobody has locked |
| LocalStore.LoneDeleterRemoves | internal/storage/local/local.go:108-119 | It can then remove it, unlock and leave, and nothing else changes |
| LocalStore.NeverStuck | internal/command/delete/delete.go:39-56 | Deletes and collectors can always go on, a delete to the next name |
| LocalStore.LoneOpener | internal/command/run/run.go:67-84 | run and set can lock a directory exclusively that nobody has locked, push and clone shared beside others that have |
| LocalStore.UseStartsLinked | internal/command/run/run.go:67-84 | A directory locked inside the global section is still the one its name leads to, unless it has been moved out |
| LocalStore.UsedStaysLinked | internal/command/run/run.go:67-84 | A directory locked by run or set stays linked under its name while nothing is moved onto or out of that name |
| LocalStore.PublishIsAtomic | internal/storage/local/local.go:27-47 | In every run, crashes included, a name stays between any two points unless deleted or moved out, and leads where it did or to a directory published in between by the process that made it and holds its lock, with the old one left whole under the temporary name |
| LocalStore.PublishTakesEffect | internal/storage/local/local.go:33-42 | Publishing puts the directory made under the name, and touches no other name |
| LocalStore.LoneCreator | internal/storage/temporary/temporary.go:118-134 | A creator can make a temporary directory and lock it |
| LocalStore.LonePublisher | internal/storage/local/local.go:33-46 | A finished directory can be published under a new name |
| LocalStore.LoneReplacer | internal/storage/local/local.go:35-42 | Or under one that is taken, whose old directory is then removed |
| LocalStore.PushMovesOut | internal/command/push/push.go:95-98 | Push can move the directory it has been reading into the cache |
| LocalStore.CollectionSparesCreators | internal/storage/temporary/temporary.go:136-180 | In no interleaving does temporary GC remove a directory on which the process that made its name holds a lock |
| LocalStore.UnlockedLeftoverIsCollected | internal/storage/temporary/temporary.go:147-177 | In every interleaving, once a collector is through with a temporary directory it is gone, unless another process had it locked when the collector tried |
| LocalStore.LoneCollector | internal/storage/temporary/temporary.go:147-177 | A collector can go through with an unlocked leftover |
| LocalStore.CrashLeavesUnlocked | internal/storage/temporary/temporary.go:118-134 | A crashed creator changes no name and leaves no lock of its own; its leftover is locked exactly by the others that had it locked, and before the exchange there are none |
| LocalStore.ExitReleases | internal/globallock/globallock.go:3-7 | However a process ends, all its locks are released, the global one too, and nothing else changes |
| LocalStore.ReplacedDirectoryMayBeLocked | internal/storage/local/local.go:38-42 | A state in which the directory left by a crash right after the exchange is locked by a push |

## Left out

- LocalStore.CollectionSparesCreators: when a temporary directory vanishes between its creation and its creator's lock, copying into it is taken to fail; whether the copying library would create it again is not part of this model.
- ImageCache.NextCollectionCleans: commands run one after the other; a pull does not take the global lock, so no claim is made about a pull racing with a collection.
- Registry client, HTTP, credentials, progress bars, command-line parsing and listing: no algorithm of their own.
- LZ4 and SHA-256: the laws asked of them are stated instead.
- I/O errors other than those named: such a command stops where it is, which the crash points cover. A disk task whose write fails half-way fails, and the pull with it.
- Sizes of files: taken to be below 2^63, as the operating system guarantees; offsets computed from annotations do wrap around.
- Tart images (choice of layers, firmware copy): the same disk puller with the Apple Stream reader as decompressor and one fixed disk name.
- Digest annotations of disk chunks: written by the pusher, never read by the puller.
- Atomicity inside RemoveAll, and repository paths that are prefixes of another repository's tag paths.
- FileLocks.With: the callback is its result and the locks taken and dropped while it runs; what else it does is in the machines that use sections (RunNetwork, LocalStore).
- Protection of a running VM against create or clone onto its name: the code takes no lock that gives it.
- TAP interfaces, netlink, DHCP, gVisor and the hypervisor's arguments: foreign calls.
- Name and JSON parsing: parameters of the model.
