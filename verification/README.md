# NumOS: verified models

NumOS is a small operating system: a kernel in C, and host tools in Python that
prepare its disk. This project models the parts of it whose correctness spans
several functions, several files or whole runs, and proves what they promise.

- **numloss**, the archive format. The host's Python encoder and decoder and the
  kernel's C decoder are modelled separately, each in its own imperative form,
  and meet in one definition of what an archive means (`NumlossFormat.Meaning`).
- **FAT32**. The kernel's driver is modelled from sectors up: the FAT as words in
  mirrored copies, clusters as runs of sectors, directories as bytes, open files
  as descriptors. Above it stands what a user sees: a tree of files, each a
  sequence of bytes.
- **The image builder**, which writes a FAT32 volume without ever reading one.
  Its output is connected to the driver: what is staged is what the kernel reads.
- **The scheduler**: a ring threaded through a process table by links, with
  sleeping, exiting, discarding, threads and reference-counted address spaces.
- **TCP**: the connection state machine, its receive ring and its send window.
- **TLS**: AES-CBC records with a MAC, the SHA-256 buffering, and the big-integer
  arithmetic under RSA.
- **The ELF loader**: segments copied page by page into an address space.

Code that updates objects or arrays is modelled by classes and methods that do
the same updates. Each method is proved against a function or a predicate, and
the theorems are about those: `…Spec`, `Fat32Ops` and `NumlossFormat` hold the
definitions, `…Safety`, `…Runs`, `…Reach` and `…RoundTrip` the theorems about
every input, every step and every run. `NumlossCodes`, `Fat32Bytes`, `Fat32Paths`,
`DiskStaged`, `SchedulerSleep`, `TcpProgress`, `ElfImage`, `TlsBytes` and `TlsFips` say in literal
numbers, bytes and positions, or of the state before and after a call, what those
definitions mean. Predicates with a `depth` argument mean
what they mean at depth zero; the depth only keeps a definition out of proofs
that do not need it.

`dafny verify dfyconfig.toml` checks the project.

Inputs from outside are parameters. Free memory, the answers of the IP layer and
the outcome of a frame allocation are booleans or counts passed to a step; clock
values and initialization vectors are arguments; a peer's segments are events.

## Model

| member | source | states |
|---|---|---|
| `NumlossRoundTrip.KernelRoundTrip` | src/kernel/numloss.c:740-816 | what the host encodes in parts of at most 256 KiB means the data it was made from and is no longer than a bound on data and part size; if it fits the kernel's buffer the kernel decodes it back to exactly that data, whichever version, transform, dictionary or chunking was chosen |
| `NumlossRoundTrip.HostRoundTrip` | tools/numloss_codec.py:939-953 | the host decoder returns what the format says the archive means, and that is the data encoded, whenever the sizes fit the header fields |
| `NumlossRoundTrip.DecodersAgree` | tools/numloss_codec.py:1119-1164 | C and Python decoder accept the same archives, malformed ones included, and return the same bytes |
| `NumlossCodes.MeaningIs` | src/kernel/numloss.c:740-816 | for every byte string, malformed or not, and all bytes: it means those bytes if and only if it stands for them in a definition of the format written in byte values alone: magic, version, sizes, token ranges, code numbers |
| `NumlossCodes.RestoredIs` | src/kernel/numloss.c:421-496 | what each transform number from 0 to 12 and 15 restores, said byte by byte with sums, bits and positions; no other number restores anything |
| `NumlossCodes.LiteralArchive` | src/kernel/numloss.c:672-698 | an archive of one literal token, given byte by byte with any code number, means exactly the bytes that number restores from the literal |
| `NumlossCodes.NewTokenIs` | src/kernel/numloss.c:581-670 | what the first byte of a token says, range by range, what follows it, and what it appends to the output |
| `NumlossCodes.OldTokenIs` | src/kernel/numloss.c:518-579 | the same for the older token set |
| `NumlossCodes.SpellsIs` | tools/numloss_codec.py:1014-1093 | a stream runs to an output if and only if its tokens spell it one after the other |
| `NumlossCodes.ExpandsIs` | src/kernel/numloss.c:382-419 | a text expands to bytes if and only if they are its literals and dictionary words in order |
| `NumlossFormat.StepsConcat` | tools/numloss_codec.py:1014-1093 | running a concatenated token stream is running one part and then the other, so that tokens can be proved one at a time |
| `NumlossFormat.StepsAppend` | tools/numloss_codec.py:821-899 | a token appended to a stream runs on from the state the stream ends in, last offset included |
| `NumlossFormat.CopyBackMatch` | src/kernel/numloss.c:613-668 | a back reference reproduces the source wherever it repeats, also when it overlaps its own output |
| `Encoder.ShortMatchToken` | tools/numloss_codec.py:804-807 | the two bytes packed from a length and an offset are parsed back to exactly that length and offset |
| `NumlossFormat.HeaderReadsBack` | tools/numloss_codec.py:268-308 | header fields that fit 32 bits are read back as written |
| `NumlossFormat.ChunksAppend` | tools/numloss_codec.py:949-953 | a chunk appended to a chunked body appends its contents |
| `NumlossTransforms.UndoDo` | tools/numloss_codec.py:556-617 | each of the fourteen transforms is undone by its inverse on every input |
| `NumlossTransforms.PrevRoundTrip` | tools/numloss_codec.py:493-526 | delta and xor against the byte before are undone |
| `NumlossTransforms.WordRoundTrip` | tools/numloss_codec.py:529-553 | the 32-bit delta is undone, with up to three bytes left over |
| `NumlossTransforms.GroupRoundTrip` | tools/numloss_codec.py:464-490 | regrouping by lanes is undone for every width, with a tail that is no whole word |
| `LaneGrouping.GroupMaps` | src/kernel/numloss.c:333-343 | the target map is a permutation whose inverse is the host's gather map, and it keeps the tail in place |
| `KernelTransforms.InverseDeltaInPlace` | src/kernel/numloss.c:278-285 | the in-place pass is the inverse of the delta on the old bytes and touches nothing else |
| `KernelTransforms.InverseXorInPlace` | src/kernel/numloss.c:287-294 | the in-place pass is the inverse of the xor on the old bytes and touches nothing else |
| `KernelTransforms.InverseDelta2InPlace` | src/kernel/numloss.c:296-305 | one pass with two running sums is two passes of the simple inverse |
| `KernelTransforms.InverseDelta32InPlace` | src/kernel/numloss.c:307-318 | the in-place pass is the inverse of the word delta, wrapping at 32 bits |
| `KernelTransforms.VisitBitmap.Clear` | src/kernel/numloss.c:320-323 | no cell below the bound is marked afterwards |
| `KernelTransforms.VisitBitmap.Get` | src/kernel/numloss.c:325-327 | shift and mask answer whether the cell is marked |
| `KernelTransforms.VisitBitmap.Set` | src/kernel/numloss.c:329-331 | marks one cell and no other |
| `KernelTransforms.GroupInverseTarget` | src/kernel/numloss.c:333-343 | the quotient and remainder computed are the target of the permutation |
| `KernelTransforms.MoveCycle` | src/kernel/numloss.c:364-376 | one walk moves exactly the cycle of its start cell by one place, ends, and marks what it moved |
| `KernelTransforms.MovedAll` | src/kernel/numloss.c:345-380 | once every cell is settled the array is what copying into a second buffer would give |
| `KernelTransforms.InverseGroupInPlace` | src/kernel/numloss.c:345-380 | following cycles in place yields what the out-of-place ungrouping yields, and touches nothing else |
| `KernelDecoder.DecodeMatchStream` | src/kernel/numloss.c:581-670 | the loop accepts exactly the streams the token semantics accepts and produces their bytes |
| `KernelDecoder.DecodeStreamV1` | src/kernel/numloss.c:518-579 | the same for the older token set |
| `KernelDecoder.InverseTextDictionary` | src/kernel/numloss.c:382-419 | succeeds exactly on texts that expand to at most the capacity, and yields the expansion |
| `KernelDecoder.ReadHeader` | src/kernel/numloss.c:238-260 | accepts exactly a known version whose payload is there, and reads both sizes |
| `KernelDecoder.ChunkOverflows` | src/kernel/numloss.c:788-791 | although the sum may wrap, only chunks that do not fit are refused, and none that overflows is let through to a decoder that would take it |
| `KernelDecoder.Decoder.InverseTransform` | src/kernel/numloss.c:421-496 | undoes the transform the code number names, and fails exactly on numbers that name none; `NumlossCodes.RestoredIs` says what each number restores |
| `KernelDecoder.Decoder.DecodeV1` | src/kernel/numloss.c:498-579 | succeeds exactly on version 1 archives that mean something and fit, with their bytes |
| `KernelDecoder.Decoder.DecodeV3` | src/kernel/numloss.c:672-698 | succeeds exactly on version 3 archives that mean something and fit, with their bytes; `NumlossCodes.MeaningIs` says which bytes those are |
| `KernelDecoder.Decoder.DecodeV4` | src/kernel/numloss.c:700-738 | succeeds exactly on version 4 archives that mean something, fit, and whose text fits the buffer |
| `KernelDecoder.Decoder.DecodeChunks` | src/kernel/numloss.c:763-815 | the chunk loop yields the concatenated contents or rejects with cause |
| `KernelDecoder.Decoder.Decode` | src/kernel/numloss.c:740-816 | success if and only if the archive means something, its size fits the capacity and its texts fit the buffer; the bytes are its meaning, which `NumlossCodes.MeaningIs` gives in byte values |
| `PyTransforms.GroupBytes` | tools/numloss_codec.py:464-475 | the nested loops compute the lane grouping |
| `PyTransforms.UngroupBytes` | tools/numloss_codec.py:478-490 | the nested loops compute its inverse |
| `PyTransforms.Delta32Forward` | tools/numloss_codec.py:529-540 | the loop computes the word delta |
| `PyTransforms.Delta32Inverse` | tools/numloss_codec.py:543-553 | the loop computes its inverse |
| `PyDecoder.DecodeMatchStream` | tools/numloss_codec.py:1014-1093 | equals the token semantics, refusals included |
| `PyDecoder.UndoTransform` | tools/numloss_codec.py:588-617 | the chain of tests on the code undoes the transform it names, or refuses; `NumlossCodes.RestoredIs` says what each number restores |
| `PyDecoder.UndoTextDictionary` | tools/numloss_codec.py:678-706 | equals the expansion of announced size, or refuses |
| `PyDecoder.Decode` | tools/numloss_codec.py:1119-1164 | equals the meaning of the archive for every byte string, which `NumlossCodes.MeaningIs` gives in byte values |
| `Encoder.FindRunLen` | tools/numloss_codec.py:335-342 | a run really repeats, and is the longest up to the limit |
| `Encoder.FindMatchV1` | tools/numloss_codec.py:345-380 | what is found is a true match within the limits, whatever the hash slots hold |
| `Encoder.FindCandidatesV3` | tools/numloss_codec.py:709-753 | both candidates are true matches within their reach |
| `Encoder.ChooseSequenceV3` | tools/numloss_codec.py:781-801 | the choice stands for the data at its position, and its token is no longer than what it covers |
| `Encoder.EncodeMatchStream` | tools/numloss_codec.py:821-899 | the archive's stream decodes to the source; the last offset kept by the encoder is the decoder's |
| `Encoder.EncodeV1` | tools/numloss_codec.py:392-461 | the version 1 archive decodes to the data and is at most a sixty-fourth and a header larger |
| `Encoder.ApplyTextDictionary` | tools/numloss_codec.py:640-675 | a text it yields expands back to the data and is no longer than it |
| `Encoder.EncodeBest` | tools/numloss_codec.py:918-936 | whichever candidate wins decodes to the data and is no larger than the version 1 form |
| `Encoder.Encode` | tools/numloss_codec.py:939-953 | refuses exactly oversized data and a non-positive chunk size that is used; otherwise the archive is within the stated bound and means the data |
| `Fat32Reach.EveryRunSound` | src/fs/fat32.c:822-1052 | in every state any run of open, close, read and write calls reaches, FAT copies are mirrored, chains are disjoint and end, no entry dangles, every walk is finite, and no reserved bit has changed |
| `Fat32Reach.StepKeeps` | src/fs/fat32.c:822-1052 | every call keeps the invariant of volume, directory entries and descriptors |
| `Fat32Reach.RunKeeps` | src/fs/fat32.c:822-1052 | so does every run |
| `Fat32Reach.WalkEnds` | src/fs/fat32.c:296-370 | following the FAT from any cluster at all ends within as many steps as there are clusters |
| `Fat32Reach.NextInChain` | src/fs/fat32.c:296-303 | the reader's next cluster is the next one of the chain, and zero after the last |
| `Fat32Runs.WriteMeaning` | src/fs/fat32.c:958-1052 | a write of a count whose low 32 bits are not zero goes through if and only if the end fits 32 bits and the free clusters suffice; then exactly as many bytes as those bits say change from the position on, in that file alone; else it changes no file |
| `Fat32Runs.WriteOfNothing` | src/fs/fat32.c:958-1052 | a write of a multiple of 2^32 bytes changes no file and moves no position, whether it reports 0 or failure |
| `Fat32Runs.ReadKeeps` | src/fs/fat32.c:904-948 | a read of a count cut to 32 bits stops short of it only at the end of the file, moves that position by as many bytes and changes nothing else |
| `Fat32Runs.ReadLength` | src/fs/fat32.c:914-915 | a read returns the smaller of its count and what is left of the file if and only if the count is below 2^32 or its low 32 bits reach the end of the file |
| `Fat32Runs.ReadOfTop` | src/fs/fat32.c:914-947 | a read of 2^32 bytes returns nothing and moves nothing |
| `Fat32Runs.ReadAfterWrite` | src/fs/fat32.c:904-1052 | any later descriptor on the file sees the old bytes with the new ones over them, across any cluster boundary |
| `Fat32Runs.FilledKeeps` | src/fs/fat32.c:1006-1049 | bytes and size go into one file and no other |
| `Fat32Runs.AdoptedKeeps` | src/fs/fat32.c:970-983 | a file's first cluster leaves every file's bytes as they were |
| `Fat32Runs.EnlargedKeeps` | src/fs/fat32.c:988-1004 | growing a chain for a write changes the bytes of no file |
| `Fat32Open.OpenExisting` | src/fs/fat32.c:822-882 | opening a file that exists gives the lowest free descriptor on it, cut to nothing if asked, or fails and changes nothing |
| `Fat32Open.OpenNew` | src/fs/fat32.c:822-882 | with O_CREAT where nothing is, an empty file of that name appears, is found by its path, and is open if a descriptor is left |
| `Fat32Open.OpenHidden` | src/fs/fat32.c:822-882 | a name whose first byte is 0xE5 takes one cluster off the free ones and an entry, no file appears, and the open fails |
| `Fat32Open.ReadOnlyWrites` | src/fs/fat32.c:961 | a descriptor opened with O_RDONLY writes wherever the volume has room |
| `Fat32Open.ReadOnlyRefused` | src/fs/fat32.c:839-842 | a file with the read-only attribute cannot be opened even with O_RDONLY |
| `Fat32Open.OpenKeeps` | src/fs/fat32.c:822-882 | open keeps the invariant for every path and all flags |
| `Fat32Open.CreateKeeps` | src/fs/fat32.c:446-492 | creation keeps the invariant for every path |
| `Fat32Open.CreatedKeeps` | src/fs/fat32.c:446-492 | the tree gains exactly the new empty file, unless its name starts with the deletion mark |
| `Fat32Open.CreatedLocated` | src/fs/fat32.c:446-492 | after a creation the path that led nowhere leads to the new entry |
| `Fat32Spec.EntryWritten` | src/fs/fat32.c:309-330 | one FAT write changes one 28-bit entry in every copy alike and no reserved bit |
| `Fat32Spec.NoDangling` | src/fs/fat32.c:276-303 | with the table threaded by disjoint chains no entry points at a free, bad or missing cluster |
| `Fat32Spec.AllocKeeps` | src/fs/fat32.c:342-347 | marking a free cluster as an end adds a one-cluster chain |
| `Fat32Spec.LinkKeeps` | src/fs/fat32.c:995-1000 | pointing one chain's end at another's start joins the two |
| `Fat32Spec.StreamPatched` | src/fs/fat32.c:1016-1035 | writing one cluster overwrites that stretch of the chain's bytes |
| `Fat32Safety.Framed` | src/fs/fat32.c:958-1052 | a change outside the directories reaches at most the one file that owns the chain |
| `Fat32Safety.EntryRevised` | src/fs/fat32.c:372-389 | revising one entry changes that file alone |
| `Fat32Safety.EntryCreated` | src/fs/fat32.c:446-492 | a new entry in the first gap shows exactly when its name does not start with the deletion mark |
| `Fat32Alloc.FreshKeeps` | src/fs/fat32.c:354-359 | an allocated cluster is a chain of zero bytes that nothing uses |
| `Fat32Alloc.GrownKeeps` | src/fs/fat32.c:988-1004 | growth adds what was asked for or all there is, and changes no file |
| `Fat32Ops.SpreadMeaning` | src/fs/fat32.c:1016-1035 | the volume after a copy holds each stretch in its cluster and every other cluster as before |
| `Fat32Ops.SpreadUnique` | src/fs/fat32.c:1016-1035 | and that is the only such volume |
| `Fat32Names.FormatName` | src/fs/fat32.c:538-562 | the loop computes the short name, or refuses, for every string |
| `Fat32Names.FindMeaning` | src/fs/fat32.c:605-632 | the search finds the first listed entry of the name and fails only if there is none |
| `Fat32Names.SplitLong` | src/fs/fat32.c:391-444 | cutting a component at 255 bytes changes nothing, since past 12 bytes it matches no entry |
| `Fat32Bytes.PathIs` | src/fs/fat32.c:391-444 | for every path: it resolves to a directory and a name if and only if it starts at the root with a leading slash and at the current directory without one, and its words lead there entry by entry |
| `Fat32Bytes.BareName` | src/fs/fat32.c:397-401 | a non-empty name without a slash resolves to itself in the current directory, whatever the root |
| `Fat32Bytes.StartMatters` | src/fs/fat32.c:648-653 | a path without a leading slash does not depend on the root, one with it not on the current directory |
| `Fat32Bytes.ShortIs` | src/fs/fat32.c:538-562 | eleven bytes are the short name of a string if and only if they are its capitals, eight before the first dot and three after it, filled with blanks |
| `Fat32Bytes.FindIs` | src/fs/fat32.c:605-632 | the search finds entry i if and only if its eleven bytes are the name, it is in use, and no entry before it is so or ends the list |
| `Fat32Bytes.NextIs` | src/fs/fat32.c:296-303 | the low 28 bits of a word are the next cluster; 0, 0x0FFFFFF7 and all above end the walk |
| `Fat32Bytes.WordOnDisk` | src/fs/fat32.c:276-290 | word c of FAT copy k is the four bytes at its byte offset on the disk |
| `Fat32Bytes.ClusterOnDisk` | src/fs/fat32.c:233-246 | byte o of cluster c is the byte at its offset on the disk, the first cluster being number 2 |
| `Fat32Paths.SlotIs` | src/fs/fat32.c:644-695 | lookup finds an entry if and only if the path leads to it, word by word, in bytes of directory entries |
| `Fat32Paths.BareSlot` | src/fs/fat32.c:648-653 | a bare name leads to the entry of that name in the current directory and nowhere else |
| `Fat32Paths.ContentsIs` | src/fs/fat32.c:904-948 | the bytes of a file are those its chain holds, cluster after cluster by the FAT, up to its size |
| `Fat32Paths.OpenAt` | src/fs/fat32.c:822-882 | opening what a path leads to gives the lowest free descriptor on that entry, at the start of its bytes or, with flag 16, at their end; with flag 8 the file is empty afterwards, without it nothing on the volume changes |
| `Fat32Paths.OpenRefused` | src/fs/fat32.c:838-847 | a directory, a read-only file with flag 1 or 2, and a full table are refused and nothing changes |
| `Fat32Paths.OpenCuts` | src/fs/fat32.c:875-879 | opening with flag 8 empties that file and changes no other |
| `Fat32Paths.OpenNothing` | src/fs/fat32.c:828-836 | opening what no entry is found for fails without flag 4 |
| `Fat32Paths.CreateBare` | src/fs/fat32.c:446-492 | with flag 4 and a free cluster, a bare name that the current directory does not have becomes an empty file in its first free entry, open if a descriptor is left |
| `Fat32Paths.ReadPath` | src/fs/fat32.c:822-948 | open and read of what a path leads to, from the root or from the current directory, return its bytes |
| `Fat32Paths.BareLeads` | src/fs/fat32.c:397-401 | and a bare name leads into the current directory |
| `Fat32Layout.WordInView` | src/fs/fat32.c:309-330 | a FAT word in its sector is that word of that copy and nothing else of the volume |
| `Fat32Layout.ClusterInView` | src/fs/fat32.c:253-266 | the sectors of a cluster are that cluster and nothing else of the volume |
| `Fat32Device.Device.ReadFatEntry` | src/fs/fat32.c:276-290 | the 28-bit entry, or the bad mark outside the volume |
| `Fat32Device.Device.WriteFatEntry` | src/fs/fat32.c:309-330 | the entry changes in every copy, each keeping its own top four bits; nothing else on the disk does |
| `Fat32Device.Device.ReadCluster` | src/fs/fat32.c:233-246 | the buffer holds the cluster, or the call fails outside the volume |
| `Fat32Device.Device.WriteCluster` | src/fs/fat32.c:253-266 | the cluster holds the buffer, and nothing else of the volume changes |
| `Fat32Driver.Driver.constructor` | src/fs/fat32.c:727-787 | a mount of a sound volume starts in the invariant, in /home where there is one |
| `Fat32Driver.Driver.NextCluster` | src/fs/fat32.c:296-303 | the specified next cluster |
| `Fat32Driver.Driver.CountFreeClusters` | src/fs/fat32.c:216-226 | the number of free clusters, or unknown once an entry reads as bad |
| `Fat32Driver.Driver.FindFreeCluster` | src/fs/fat32.c:332-340 | the lowest free cluster, or zero when none is free |
| `Fat32Driver.Driver.AllocClusterRaw` | src/fs/fat32.c:342-347 | takes the lowest free cluster and marks it as an end |
| `Fat32Driver.Driver.ZeroCluster` | src/fs/fat32.c:349-352 | the cluster is all zero and nothing else changes |
| `Fat32Driver.Driver.AllocCluster` | src/fs/fat32.c:354-359 | a new chain of one zero cluster that nothing uses |
| `Fat32Driver.Driver.LastCluster` | src/fs/fat32.c:361-370 | the last cluster of the chain, by a walk that ends |
| `Fat32Driver.Driver.WalkTo` | src/fs/fat32.c:917-924 | the cluster as many steps down the chain, zero past its end |
| `Fat32Driver.Driver.Capacity` | src/fs/fat32.c:863-869 | the bytes the chain holds |
| `Fat32Driver.Driver.Grow` | src/fs/fat32.c:992-1000 | the chain is longer by what was asked or by all that was free |
| `Fat32Driver.Driver.CopyOut` | src/fs/fat32.c:917-944 | for every count the bytes collected are the stretch of the chain its low 32 bits ask for, and the walk ends |
| `Fat32Driver.Driver.CopyIn` | src/fs/fat32.c:1006-1035 | for every count the chain's bytes are the old ones overwritten from the position on; a position at the very end of the chain is refused |
| `Fat32Driver.Driver.UpdateEntrySize` | src/fs/fat32.c:801-816 | one entry's size field changes |
| `Fat32Driver.Driver.UpdateEntryCluster` | src/fs/fat32.c:372-389 | one entry's two cluster fields change |
| `Fat32Driver.Driver.FindEntryInCluster` | src/fs/fat32.c:605-632 | the specified search in one cluster |
| `Fat32Driver.Driver.SplitPath` | src/fs/fat32.c:391-444 | the loop over the path computes path resolution, which `Fat32Bytes.PathIs` says in words and entries |
| `Fat32Driver.Driver.FindEntry` | src/fs/fat32.c:644-695 | the slot the path leads to, or none; `Fat32Paths.SlotIs` says which |
| `Fat32Driver.Driver.CreateFile` | src/fs/fat32.c:446-492 | the specified creation, in its own order of writes; `Fat32Paths.CreateBare` says what it makes of a bare name |
| `Fat32Driver.Driver.Open` | src/fs/fat32.c:822-882 | the specified open for every path and all flags, and the invariant; `Fat32Paths.OpenAt`, `OpenRefused` and `OpenNothing` say what it does with an entry |
| `Fat32Driver.Driver.Close` | src/fs/fat32.c:888-893 | frees one descriptor and changes nothing else |
| `Fat32Driver.Driver.Read` | src/fs/fat32.c:904-948 | the bytes of the file from the position on, up to the low 32 bits of the count or the end, and the position moved by as many |
| `Fat32Driver.Driver.Write` | src/fs/fat32.c:958-1052 | the specified write for every count: all that its low 32 bits ask for, or for want of clusters nothing |
| `Fat32Driver.Driver.Perform` | src/fs/fat32.c:822-1052 | any one call is one step of a run, so every reachable state of the driver is sound |
| `DiskBoot.ReadStaged` | tools/create_disk.py:617-770 | mounting the built image and opening and reading a staged path returns the staged bytes, and all of them if and only if the low 32 bits of the count reach their length; for a staged file and its directory this is `DiskStaged.ReadStagedFile` |
| `DiskBoot.ReadFile` | src/fs/fat32.c:727-948 | mount, open and read return the bytes of the file a path leads to, and all of them if and only if the low 32 bits of the count reach its length |
| `DiskBoot.StagedMount` | tools/create_disk.py:700-770 | the kernel accepts the image, computes the builder's geometry, sees the builder's volume, and FSInfo's free count is the number of free clusters it sees |
| `DiskStage.StagedFile` | tools/create_disk.py:310-433 | the built volume is sound and the path of every listed file leads to an entry of its short name and exactly its bytes; which files are listed is `DiskStaged.ListedFiles` |
| `DiskStage.AbsentFile` | tools/create_disk.py:318-338 | a name that no listed file and no fixed entry has is not found; an empty staged file is not listed |
| `DiskStaged.ReadStagedFile` | tools/create_disk.py:617-770 | mounting the built image and reading /bin, /run, /home, /include, /boot or /boot/grub with a name returns the bytes staged under that name for that directory, for every staged file with bytes and room that no earlier one hides |
| `DiskStaged.ReadFromHome` | tools/create_disk.py:738-739 | a file staged for /home is read by its bare name |
| `DiskStaged.ListedFiles` | tools/create_disk.py:318-433 | each directory lists exactly the files staged for it that have bytes, in order, as far as its 128 entries go: 126 names, 125 in /boot |
| `DiskStaged.KeptAt` | tools/create_disk.py:405-408 | so every staged file with bytes and room has its entry |
| `DiskStaged.KeptFindable` | tools/create_disk.py:318-338 | and the kernel's search finds it |
| `DiskStaged.MountsHome` | src/fs/fat32.c:727-787 | the mount of a built image starts in /home, at cluster 6 |
| `DiskStage.PlanOnePlace` | tools/create_disk.py:684-693 | every staged record is listed at most once, in at most one directory; that it is listed is `DiskStaged.ListedFiles` |
| `DiskBuilder.AssignClusters` | tools/create_disk.py:507-518 | first clusters follow one another, and empty files get none |
| `DiskBuilder.AppendChain` | tools/create_disk.py:136-160 | one file's clusters are linked and ended in the table |
| `DiskBuilder.CreateFat` | tools/create_disk.py:163-204 | the table built is the directories' chains and then the files' |
| `DiskBuilder.BuiltThreaded` | tools/create_disk.py:163-204 | that table is sound, and exactly the clusters after the files are free |
| `DiskFat.RunsKeep` | tools/create_disk.py:136-160 | files laid out one after the other make one chain each and use up exactly their clusters |
| `DiskFat.RunKeeps` | tools/create_disk.py:136-160 | a run over free clusters adds one chain |
| `DiskNames.ShortNamesAgree` | tools/create_disk.py:225-232 | for a name the builder accepts, kernel and builder form the same short name if and only if no dot is left in the base |
| `DiskParts.DirLive` | tools/create_disk.py:318-338 | exactly the entries put into a directory are listed by the reader |
| `DiskParts.DirFind` | tools/create_disk.py:318-338 | a name is found at the first entry that has it |
| `DiskVolume.BuiltSound` | tools/create_disk.py:700-755 | the built volume satisfies the driver's invariant |
| `DiskVolume.BuiltBytes` | tools/create_disk.py:531-547 | the file at an entry has exactly the staged bytes, padding excluded |
| `DiskVolume.BuiltFree` | tools/create_disk.py:707-711 | the free clusters of the volume are as many as FSInfo says |
| `DiskImage.BootAgrees` | tools/create_disk.py:78-117 | the driver's validity test passes on the builder's boot sector and its layout is the builder's |
| `DiskImage.ImageView` | tools/create_disk.py:700-770 | the image, cut into sectors, is the volume the builder laid out |
| `SchedulerSafety.StepKeeps` | src/kernel/scheduler.c:546-945 | every step keeps one ring headed by idle, exactly one RUNNING process, distinct pids, and reference counts equal to the number of holders |
| `SchedulerSafety.Run` | src/kernel/scheduler.c:546-945 | every state of every run from a safe state is safe |
| `SchedulerSafety.ScheduleKeeps` | src/kernel/scheduler.c:866-901 | after a switch exactly one process is RUNNING and it is the current one |
| `SchedulerSafety.ReleaseKeeps` | src/kernel/scheduler.c:293-323 | an address space goes exactly when its last holder lets go |
| `SchedulerSafety.FreeSlotHasPid` | src/kernel/scheduler.c:266-279 | there is a free pid whenever there is a free slot |
| `SchedulerFairness.BoundedWaiting` | src/kernel/scheduler.c:236-264 | a process that stays READY waits through fewer switches than its delay, at most 255, and the discards that overtake it |
| `SchedulerFairness.BoundedWaitingInKernel` | src/kernel/kmain.c:501-526 | with discards of the newest process only, as the kernel makes them, fewer than 255 switches |
| `SchedulerFairness.StarvationReachable` | src/kernel/scheduler.c:806-815 | without that restriction, for any number of switches there is a run from boot in which process 1 stays READY and is never chosen |
| `SchedulerFairness.StepCloser` | src/kernel/scheduler.c:866-901 | each switch brings a waiting process closer; only an overtaking discard sets it back, by one |
| `SchedulerSleep.ClockWakes` | src/kernel/scheduler.c:236-264 | after a yield, sleep, exit or tick at `now`, every process that was BLOCKED with a deadline in 1 to now is READY or RUNNING with none, and every other BLOCKED one is exactly as it was |
| `SchedulerSleep.SleeperRuns` | src/kernel/scheduler.c:850-945 | over every run: a sleeper is dispatched within 255 switches after the first call that reads the clock at or past its deadline, with the kernel's own discards |
| `SchedulerSleep.SleeperWaits` | src/kernel/scheduler.c:850-945 | without them, within 255 and the discards that overtake it |
| `SchedulerSleep.StaysAsleep` | src/kernel/scheduler.c:244-248 | over every run: until the clock is read at its deadline a sleeper stays BLOCKED with it, and with deadline zero for ever |
| `SchedulerSleep.SleepEnds` | src/kernel/scheduler.c:244-248 | some reading of the clock ends a sleep if and only if its deadline is not zero |
| `SchedulerSleep.SleepFor` | src/kernel/syscall.c:356-359 | a sleep for a duration ends at the sum of clock and duration, at once, or never, by where the sum wraps |
| `SchedulerSleep.YieldIs` | src/kernel/scheduler.c:866-901 | by the table before and after: the nearest process after the current one that is READY or due runs for ten ticks, the caller is READY, and nobody else but the sleepers that are due changes |
| `SchedulerSleep.SleepIs` | src/kernel/scheduler.c:850-860 | the caller goes to the tail of the ring, BLOCKED until its deadline or READY when that has passed, and idle runs |
| `SchedulerSleep.ExitIs` | src/kernel/scheduler.c:824-845 | the caller is a ZOMBIE outside the ring without address space, stack or TLS, and idle runs |
| `SchedulerSleep.TickIs` | src/kernel/scheduler.c:908-945 | the sleepers that are due are READY, and the current slice counts down from ten and starts over |
| `SchedulerSleep.CreateIs` | src/kernel/scheduler.c:546-651 | the new process has the lowest free slot and pid, its group is its pid, and it is READY at the tail of the ring for ten ticks |
| `SchedulerSleep.ThreadIs` | src/kernel/scheduler.c:660-712 | the new thread has the lowest free slot and pid, group and space of its maker, whenever slot, stack and region are to be had; otherwise the ring stays |
| `SchedulerSleep.DiscardIs` | src/kernel/scheduler.c:806-818 | the slot is free without an address space, the process out of the ring, all others as they were |
| `SchedulerSleep.ReapIs` | src/kernel/scheduler.c:795-803 | a ZOMBIE's slot is free again; anything else stays |
| `SchedulerSleep.FirstSleepsAndWakes` | src/kernel/scheduler.c:850-901 | the first process after boot sleeps through an early switch and runs after a late one |
| `SchedulerRegions.BootKeepsRegions` | src/kernel/scheduler.c:401-455 | in every state reachable from boot by placements that stay below their stack, the thread regions of one space are pairwise disjoint and above its image |
| `SchedulerRegions.CarvedRegion` | src/kernel/scheduler.c:401-455 | a carved region ends where the cursor was, starts where it now is and stays above the image; it starts below its stack if and only if the computed drop does not wrap past it |
| `SchedulerRegions.CarvedTls` | src/kernel/scheduler.c:423-449 | a thread's TLS block, rounded up without wrapping, lies below its stack if and only if block and header fit in the room the space has left |
| `SchedulerRegions.MainTlsExact` | src/kernel/scheduler.c:364-397 | the same for the main thread, below the stack the loader gave it |
| `SchedulerRegions.RoundingWraps` | src/kernel/scheduler.c:424-433 | a size of 2^64 - 1 rounds to nothing, is carved, and does not fit |
| `SchedulerRegions.PlacementWraps` | src/kernel/scheduler.c:424-449 | a whole family of sizes is carved with the cursor above where it was |
| `SchedulerRegions.ClearedIsAligned` | src/cpu/x86/paging.c:555-561 | for a power of two the mask rounds down to a multiple |
| `SchedulerRegions.RoundedOrHuge` | src/cpu/x86/paging.c:555-557 | the wrapping round-up is the true one unless the true one exceeds the address space |
| `SchedulerRegions.TlsPlaced` | src/kernel/scheduler.c:424-433 | the subtractions that place the block wrap exactly when it does not fit, and when they leave the bottom above the stack |
| `KernelScheduler.Scheduler.constructor` | src/kernel/scheduler.c:502-538 | the table at boot is the initial state |
| `KernelScheduler.Scheduler.Enqueue` | src/kernel/scheduler.c:179-193 | the links thread the ring with the process at its tail |
| `KernelScheduler.Scheduler.Dequeue` | src/kernel/scheduler.c:195-216 | the links thread the ring without the process, or are unchanged |
| `KernelScheduler.Scheduler.PickNext` | src/kernel/scheduler.c:236-264 | the pointer walk ends and finds the first READY process after the current one, or idle, sleepers woken; `SchedulerSleep.YieldIs` and `ClockWakes` say who that is and who wakes |
| `KernelScheduler.Scheduler.Reschedule` | src/kernel/scheduler.c:866-901 | the specified switch, which `SchedulerSleep.YieldIs` says slot by slot |
| `KernelScheduler.Scheduler.SleepUntil` | src/kernel/scheduler.c:850-860 | the specified sleep, which `SchedulerSleep.SleepIs` says slot by slot |
| `KernelScheduler.Scheduler.TimerTick` | src/kernel/scheduler.c:908-945 | the specified tick, which `SchedulerSleep.TickIs` says slot by slot |
| `KernelScheduler.Scheduler.ReleaseVm` | src/kernel/scheduler.c:293-323 | the specified release |
| `KernelScheduler.Scheduler.MarkAsZombie` | src/kernel/scheduler.c:768-790 | the specified end of a process |
| `KernelScheduler.Scheduler.ReapProcess` | src/kernel/scheduler.c:795-803 | the slot is free |
| `KernelScheduler.Scheduler.DiscardProcess` | src/kernel/scheduler.c:806-818 | the specified discard |
| `KernelScheduler.Scheduler.ExitCurrent` | src/kernel/scheduler.c:824-845 | the specified exit, which `SchedulerSleep.ExitIs` says slot by slot |
| `KernelScheduler.Scheduler.AllocPid` | src/kernel/scheduler.c:266-279 | the lowest pid no live slot holds |
| `KernelScheduler.Scheduler.CreateProcess` | src/kernel/scheduler.c:546-651 | a new process, or nothing changed but a stale slot when table, pids or heap are exhausted |
| `KernelScheduler.Scheduler.SpawnUserThread` | src/kernel/scheduler.c:660-712 | a thread that shares the current space, or its hold given back |
| `KernelScheduler.Scheduler.AllocUserThreadRegion` | src/kernel/scheduler.c:401-455 | carves the region below the cursor, which moves only on success |
| `KernelScheduler.Scheduler.ConfigureImage` | src/kernel/scheduler.c:720-763 | the specified image and main thread TLS |
| `KernelScheduler.Scheduler.Perform` | src/kernel/scheduler.c:546-945 | any one call is one specified step, so every state the kernel reaches is safe |
| `TcpSafety.ReceiveSafety` | src/drivers/network.c:1590-1667 | whatever is dropped, duplicated or reordered, the reader has a prefix of the peer's stream, rcv_nxt says how long it is, and end of stream means all of it |
| `TcpProgress.StreamDelivered` | src/drivers/network.c:1590-1667 | for every stream below 2^31 bytes and any cutting of it: if after a handshake its pieces and FIN come in order, among repeats, pieces out of order, acknowledgements and any calls, and the reads keep room free, the reader gets exactly the stream and its end |
| `TcpProgress.PieceTaken` | src/drivers/network.c:1646-1667 | a piece that arrives is taken if and only if it is the next one and fits, its FIN if and only if nothing is missing before it |
| `TcpProgress.SegmentReceived` | src/drivers/network.c:1646-1667 | in every state but SYN_SENT a segment without RST at rcv_nxt that fits is queued whole and rcv_nxt moves by its length, by one more for its FIN; no other data is |
| `TcpProgress.FeedFromStart` | src/drivers/network.c:1590-1667 | every stream in pieces of at most 8191 bytes has such a run from the start |
| `TcpProgress.SegmentLeads` | src/drivers/network.c:1554-1588 | which state follows which, by what is acknowledged and whether the FIN is taken, and where snd_una moves |
| `TcpProgress.FinFliesOn` | src/drivers/network.c:1554-2091 | the condition of that table holds in every run |
| `TcpProgress.HandshakeIs` | src/drivers/network.c:1627-1641 | SYN_SENT is left exactly by SYN and ACK for the number sent |
| `TcpProgress.SendsAre` | src/drivers/network.c:979-1020 | which numbers SYN, data and FIN take |
| `TcpSafety.StepKeeps` | src/drivers/network.c:1554-2091 | every event keeps the invariant of states, flags and window, forged segments included |
| `TcpSafety.RunKeeps` | src/drivers/network.c:1554-2091 | so does every run |
| `TcpSafety.WindowBounded` | src/drivers/network.c:594-645 | at most 1201 numbers are ever in flight |
| `TcpSpec.AckValidIsMembership` | src/drivers/network.c:640-645 | so the two signed comparisons are membership in the window |
| `TcpSafety.ClosedMeansDone` | src/drivers/network.c:1554-1588 | CLOSED is reached only after both FINs, with nothing counted as in flight |
| `TcpSafety.ClosedAcknowledged` | src/drivers/network.c:2056-2091 | CLOSED means that everything ever sent is acknowledged if and only if the FIN went out above all of it |
| `TcpSafety.ClosedAfterSteadySending` | src/drivers/network.c:1970-2026 | it does if no round ever sends fewer numbers than are unacknowledged |
| `TcpSafety.ClosedWithoutAcknowledgement` | src/drivers/network.c:2056-2091 | from any open state with two numbers above the window, close can end CLOSED with them unacknowledged |
| `TcpSafety.UnacknowledgedClose` | src/drivers/network.c:1970-2091 | a run from the start that does so |
| `TcpSafety.ResendRightOnlyFromStart` | src/drivers/network.c:1970-2026 | in the model's own send, arrival and resend, the two transmissions of a chunk agree for all contents if and only if the segment between them acknowledges none or all of it |
| `TcpSafety.PartlyAcknowledged` | src/drivers/network.c:1554-1558 | from every sending state a segment can acknowledge any part of the chunk, and the connection sends on |
| `TcpSafety.PartialResendWrong` | src/drivers/network.c:1970-2026 | so for every such part there is a chunk whose two transmissions disagree |
| `TcpSafety.LateResend` | src/drivers/network.c:2002-2011 | a resend after all was acknowledged puts the old chunk on the numbers of the next one: they agree if and only if the chunks are equal |
| `TcpSafety.ResetAbsorbs` | src/drivers/network.c:1620-1625 | no step leaves RESET |
| `TcpSafety.StrayBytesBeforeHandshake` | src/drivers/network.c:1590-1667 | a run with an early reset queues bytes that do not begin the peer's stream |
| `TcpSafety.QueuedWithoutHandshake` | src/drivers/network.c:1590-1667 | without a handshake the queue is empty or the piece of the stream at the place of number zero; it is a prefix in all such runs if and only if no such piece differs from the beginning of the stream |
| `Tcp.TcpConn.constructor` | src/drivers/network.c:1927-1939 | the connection is in the start state |
| `Tcp.TcpConn.QueueBytes` | src/drivers/network.c:618-627 | appends all bytes to the ring's contents, or refuses for want of room |
| `Tcp.TcpConn.DequeueBytes` | src/drivers/network.c:629-638 | takes the first bytes of the ring's contents, as many as asked for or there are |
| `Tcp.TcpConn.HandleTcp` | src/drivers/network.c:1590-1667 | the specified reaction to a segment, which `TcpProgress.SegmentReceived`, `SegmentLeads` and `HandshakeIs` say field by field |
| `Tcp.TcpConn.SendSegment` | src/drivers/network.c:979-1020 | the specified effect of a send on the counters |
| `Tcp.TcpConn.Perform` | src/drivers/network.c:1554-2091 | any one event is one step of a run, so every run of the object is covered |
| `TlsRecord.RecordRoundTrip` | src/drivers/net_client.c:833-946 | what is sent is the sealed record, the sealed record opens to what was sealed, and the receiver's buffer holds exactly the sender's bytes and type |
| `TlsRecord.OpenedSealed` | src/drivers/net_client.c:833-946 | opening undoes sealing for every fragment the sender accepts, every initialization vector, round keys and MAC |
| `TlsRecord.SendEncryptedRecord` | src/drivers/net_client.c:833-877 | the bytes handed down are the sealed record, or nothing for an oversized fragment |
| `TlsRecord.RecvRecord` | src/drivers/net_client.c:879-946 | what is taken is what opening the wire gives; anything else is refused |
| `TlsBytes.CoveredBytes` | src/drivers/net_client.c:848-852 | the thirteen bytes before the plaintext, by position: sequence number in eight, record type, version in two, length in two |
| `TlsBytes.HeaderBytes` | src/drivers/net_client.c:872-874 | the five header bytes of the record, by position, then vector and ciphertext |
| `TlsBytes.BodyBytes` | src/drivers/net_client.c:856-865 | before encryption the record is the plaintext, the MAC of what is covered, and 1 to 16 bytes that each say how many more there are, up to a multiple of 16 |
| `TlsAes.DecryptEncrypt` | src/drivers/net_client.c:513-545 | decryption undoes encryption for any round keys |
| `TlsAes.UnchainedChained` | src/drivers/net_client.c:547-573 | CBC decryption undoes CBC encryption over any number of blocks |
| `TlsAes.AesInvertible` | src/drivers/net_client.c:459-511 | S-boxes, row shifts and column maps invert one another |
| `TlsFips.FullRound` | src/drivers/net_client.c:513-528 | section 5.1 of FIPS 197 byte by byte, for every state and key: a full round is twice the substituted byte its row moved there, three times the one below it, the other two of the column and the key byte |
| `TlsFips.LastRound` | src/drivers/net_client.c:513-528 | the last round is the substituted byte its row moved there and the key byte |
| `TlsFips.FirstKey` | src/drivers/net_client.c:513-528 | before the rounds the first key is added |
| `TlsFips.RowsRotate` | src/drivers/net_client.c:467-483 | row r of the state is rotated left by r, and back |
| `TlsFips.MixedCell` | src/drivers/net_client.c:485-497 | each byte of a mixed column is twice the byte, three times the one below it and the other two |
| `TlsFips.SboxValues` | src/drivers/net_client.c:91-127 | the values of the two tables at 0x00 and 0x53, and back |
| `TlsAes.EncryptBlock` | src/drivers/net_client.c:513-528 | the rounds in place are the specified cipher |
| `TlsAes.DecryptBlock` | src/drivers/net_client.c:530-545 | the rounds in place are the specified inverse |
| `TlsAes.MixColumns` | src/drivers/net_client.c:485-497 | in place, the specified column map |
| `TlsAes.InvMixColumns` | src/drivers/net_client.c:499-511 | in place, the specified inverse column map |
| `TlsAes.CbcEncrypt` | src/drivers/net_client.c:547-558 | the blocks in place are the chained encryption, and nothing else changes |
| `TlsAes.CbcDecrypt` | src/drivers/net_client.c:560-573 | the blocks in place are the chained decryption, and nothing else changes |
| `TlsAesField.MulLoop` | src/drivers/net_client.c:422-430 | eight shift-and-add steps are multiplication in the field |
| `TlsAesField.Unmixed` | src/drivers/net_client.c:485-511 | the inverse coefficients recover each byte of a mixed column |
| `TlsAesSbox.InvSubSub` | src/drivers/net_client.c:459-465 | the second table undoes the first at every byte |
| `TlsBigInt.TimesWrittenExact` | src/drivers/net_client.c:626-651 | the multiplication as written is right for all residues if and only if twice the highest residue is at most the buffer's range |
| `TlsBigInt.CarryLost` | src/drivers/net_client.c:606-611 | otherwise m - 1 times 3 comes out wrong |
| `TlsBigInt.AddModExact` | src/drivers/net_client.c:606-611 | the modular addition is right exactly when the sum has no carry |
| `TlsBigInt.PowerWrittenRight` | src/drivers/net_client.c:653-686 | with that room square-and-multiply is exponentiation, for every exponent |
| `TlsBigInt.Compare` | src/drivers/net_client.c:575-581 | the sign of the difference of the two numbers |
| `TlsBigInt.Add` | src/drivers/net_client.c:597-604 | the sum, less the buffer's range when it carries |
| `TlsBigInt.Sub` | src/drivers/net_client.c:583-595 | the difference, with the buffer's range added when it borrows |
| `TlsBigInt.DoubleMod` | src/drivers/net_client.c:613-624 | twice the residue modulo m, for every modulus |
| `TlsBigInt.MulMod` | src/drivers/net_client.c:626-651 | the digits computed are those of the multiplication as written, also when operands and output are one array |
| `TlsBigInt.ModExp` | src/drivers/net_client.c:653-686 | the digits computed are those of the exponentiation as written |
| `TlsSha256.Sha256.Update` | src/drivers/net_client.c:308-326 | whole blocks are folded in and the rest waits, for every length and fill |
| `TlsSha256.Sha256.Final` | src/drivers/net_client.c:328-344 | the state is the fold over the padded message |
| `TlsSha256.DigestOfParts` | src/drivers/net_client.c:308-351 | however a message is cut into updates the result is the digest of the whole |
| `TlsSha256.PadFits` | src/drivers/net_client.c:328-339 | the padding fills whole blocks: one more, or two when the length field does not fit the first; no shorter gap would |
| `TlsBytes.PadBytes` | src/drivers/net_client.c:328-339 | 0x80 stands right after the message, zeros follow, and the last eight bytes are the length in bits, most significant first |
| `ElfLoader.AddressSpace.LoadSegments` | src/kernel/elf_loader.c:419-451 | on success the mapped pages are exactly those the segments touch, with exactly their bytes and permissions |
| `ElfLoader.AddressSpace.LoadedByte` | src/kernel/elf_loader.c:223-299 | every address of a segment is mapped and holds its own file byte, or zero past the file bytes, although segments may share pages |
| `ElfImage.HeaderByte` | src/kernel/elf_loader.c:419-446 | every address of every loadable program header is mapped and holds the header's file byte, or zero past them |
| `ElfImage.MappedByHeader` | src/kernel/elf_loader.c:419-446 | a page is mapped only for a loadable header with an address in it |
| `ElfImage.HeaderLoaded` | src/kernel/elf_loader.c:422-446 | every loadable header is one of the segments shown |
| `ElfLoader.AddressSpace.MapSegment` | src/kernel/elf_loader.c:223-299 | the pages show the earlier segments with this one on top, or memory ran out |
| `ElfLoader.PageImageAt` | src/kernel/elf_loader.c:267-289 | page-wise copies of segment parts give the byte-wise image |
| `ElfLoader.BaseExact` | src/kernel/elf_loader.c:292-296 | the base is below every mapped page if and only if no start on page zero was forgotten |
| `ElfLoader.ZeroForgotten` | src/kernel/elf_loader.c:292-296 | an image with segments on page zero and page one ends with its base at page one |
| `ElfLoader.EndAboveAll` | src/kernel/elf_loader.c:292-296 | the end is above every mapped page |
| `ElfLoader.ComputeLoadBias` | src/kernel/elf_loader.c:78-92 | moves the lowest segment of a position-independent image to the user base, others get none |
| `ElfLoader.BiasMovesAll` | src/kernel/elf_loader.c:78-92 | every segment moves by the same amount, to the user base and above, as long as the image fits |

## Findings

Properties one would expect that do not hold of the code, each with the exact
condition under which they do.

- **Starvation by discard.** A READY process waits through at most 255 switches
  plus the discards that overtake it (`SchedulerFairness.BoundedWaiting`). Without
  a restriction on discards it can wait forever: `StarvationReachable` builds the
  run from boot (src/kernel/scheduler.c:806-815). The kernel's own callers discard
  only the process they just created, and then 255 is a bound
  (`BoundedWaitingInKernel`).
- **Sleeps that never end.** Zero stands for "no deadline" (src/kernel/scheduler.c:244-248),
  and the deadline of a sleep is a sum that wraps at 64 bits (src/kernel/syscall.c:356-359).
  A sleep ends exactly when its deadline is not zero (`SchedulerSleep.SleepEnds`,
  `StaysAsleep`); `SleepFor` says when clock and duration add up to zero, and that any
  other wrapped sum ends the sleep at once.
- **Lost carry.** The modular addition drops the carry out of its top digit before
  it reduces (src/drivers/net_client.c:606-611). Multiplication is right for all
  residues of a modulus exactly when twice the highest residue is at most the
  range of the buffer (`TlsBigInt.TimesWrittenExact`); otherwise m - 1 times 3 is
  wrong (`CarryLost`). A 2048-bit RSA modulus has its top bit set, so it lies
  outside that range.
- **Forgotten page-zero base.** The loader's running base uses zero for "none yet"
  (src/kernel/elf_loader.c:292-296), so a segment that starts on page zero is
  forgotten by the next one. The base is below every mapped page exactly when that
  did not happen (`ElfLoader.BaseExact`; an image where it does is `ZeroForgotten`).
- **Bytes queued after an early reset.** A reset while connecting leaves a state
  other than SYN_SENT, in which data is accepted at `rcv_nxt`, then still zero
  (src/drivers/network.c:1620-1657). The bytes queued are the piece of the peer's
  stream that number zero falls on. They begin the stream in every such run exactly
  when no such piece differs from its beginning (`TcpSafety.QueuedWithoutHandshake`;
  one run is `StrayBytesBeforeHandshake`). After a completed handshake they always do
  (`ReceiveSafety`).
- **CLOSED without acknowledgement.** Every round of the send loop sets `snd_nxt`
  back to `snd_una` (src/drivers/network.c:1970-2026). If a later round sends less,
  numbers already sent lie above the window and the FIN takes one of them. CLOSED
  means that everything sent was acknowledged exactly when the FIN went out above
  all of it (`TcpSafety.ClosedAcknowledged`), which holds if no round sends fewer
  numbers than are unacknowledged (`ClosedAfterSteadySending`) and fails otherwise
  (`ClosedWithoutAcknowledgement`, `UnacknowledgedClose`).
- **Resending after a partial acknowledgement.** The same loop resends the chunk
  from its start at the new `snd_una`. The two transmissions put the same bytes on
  the numbers they share, for all contents, exactly when nothing or all of the
  chunk was acknowledged in between (`TcpSafety.ResendRightOnlyFromStart`). Every part
  can be acknowledged (`PartlyAcknowledged`), and then some chunk is sent differently
  (`PartialResendWrong`).
- **Resending after a complete acknowledgement.** The loop tests whether the chunk is
  acknowledged only after it has resent it, so an acknowledgement that comes late puts
  the old chunk on the numbers of the next one (src/drivers/network.c:2002-2011). The
  two agree exactly when the chunks are equal (`TcpSafety.LateResend`).
- **Names that start with 0xE5.** The driver writes the first byte of a short name
  as it is, and 0xE5 marks a deleted entry. Creating such a file takes a cluster
  and an entry and yields no file, and the open fails (`Fat32Open.OpenHidden`: one
  free cluster less, the tree as it was); for
  every other name the file appears (`OpenNew`).
- **Capacity after a failed growth.** A write that runs out of clusters keeps the
  ones it linked but not their number (src/fs/fat32.c:995-1004). The recorded
  capacity is then below that of the chain. The descriptor invariant allows for it,
  and a later write still goes through exactly when the clusters it asks for are
  free (`Fat32Runs.WriteMeaning`).
- **O_RDONLY passes the write test.** With O_RDONLY 1, O_WRONLY 2 and O_RDWR 3 the
  test for write access (src/fs/fat32.c:961) is met by a descriptor opened for
  reading (`Fat32Open.ReadOnlyWrites`), and by an open for reading of a file that has
  the read-only attribute, which is therefore refused (`ReadOnlyRefused`).
- **Counts of 2^32 and more.** Read and write cut what is left to copy to 32 bits
  (src/fs/fat32.c:915, 936, 985, 1025), and the count comes from the user unchecked
  (src/kernel/syscall.c:161-176). A read returns the smaller of its count and the rest
  of the file exactly when the count is below 2^32 or its low 32 bits reach the end
  (`Fat32Runs.ReadLength`); a count of 2^32 reads nothing (`ReadOfTop`) and writes
  nothing (`WriteOfNothing`).
- **Empty staged files are skipped.** The builder lists no file without bytes
  (tools/create_disk.py:318-338), so the kernel does not find it
  (`DiskStage.AbsentFile`).
- **Short names with several dots.** The builder splits a name at its last dot, the
  kernel at its first. For names the builder accepts they agree exactly when no dot
  is left in the base (`DiskNames.ShortNamesAgree`).
- **TLS blocks that do not fit.** The address of a thread's TLS block is computed by
  a rounding and two subtractions that all wrap (src/kernel/scheduler.c:424-433), from
  sizes that the loader takes over unchecked. The block lies below the stack exactly
  when, rounded up without wrapping, it and its header fit in the room the space has
  left (`SchedulerRegions.CarvedTls`). A size of 2^64 - 1 is carved and does not fit
  (`RoundingWraps`), and a family of sizes moves the cursor up (`PlacementWraps`).

## Left out

Members whose contracts are deliberately narrower than the whole behaviour:

- NumlossRoundTrip.KernelRoundTrip: parts of at most 256 KiB. The kernel's visit
  bitmap and transform buffer have that size; larger grouped archives would run past
  the bitmap, and larger texts are refused, as `KernelDecoder.Decoder.Decode` states.
- KernelDecoder.Decoder.Decode: says when decoding succeeds, not which of the format
  and output error codes a failure gives. Null pointers are not modelled.
- Encoder.EncodeBest: the winner is no larger than the version 1 form; that it is the
  smallest of all candidates is not stated.
- Encoder.ApplyTextDictionary: when it refuses (text that does not look like text, or
  does not shrink) is not stated, because the archive is right either way.
- TlsBigInt.PowerWrittenRight: one way only. The multiplications that occur depend on
  the exponent, so exponentiation can come out right without the room.
- TlsFips.SboxValues: two entries. The S-box is the source's table; that every entry is the
  one of FIPS 197 is not stated, only that the two tables undo each other.
- TlsSha256.DigestOfParts: the compression function is a parameter.
- TlsRecord.RecordRoundTrip: the MAC and the round keys are parameters; the handshake,
  HMAC, the key schedule and certificates are not part of this model.
- Fat32Reach.EveryRunSound: runs in which no file is open twice at once. Two
  descriptors on one file keep separate sizes and capacities.
- Fat32Driver.Driver.constructor: volumes under 4 GiB whose boot sector is at a known
  sector; probing of MBR, GPT and the backup boot sector is not modelled.
- Fat32Driver.Driver.SplitPath: one walk stands for the two copies of it in the source,
  for lookup and for creation.
- DiskBoot.ReadStaged: images of 1 to 80 MB only, like `StagedMount` and
  `DiskImage.ImageView`. The builder writes FATs of 160 sectors whatever the size, and
  they cover no more clusters than that.
- SchedulerRegions.BootKeepsRegions: runs whose TLS placements stay below their stack;
  `PlacementWraps` shows what happens otherwise.
- DiskStage.StagedFile: files listed in a directory; a name preceded by the same short
  name, or spelled differently by the kernel, is not found under it.
- TcpProgress.StreamDelivered: peers that cut their stream at fixed places. A segment that
  begins before `rcv_nxt` is dropped whole, as `TcpProgress.SegmentReceived` states, so a peer that
  cuts differently when it resends may have to send the rest again.
- DiskStaged.ReadStagedFile: staged files whose short name no earlier entry of the directory
  has, with names both sides spell alike.
- ElfLoader.AddressSpace.LoadedByte: segments that do not overlap; where they do, the
  later one wins, as `Shows` defines it.

What the repository does that is not modelled:

- Failing sector reads and writes: the device always answers.
- FAT32 directory listing, stat, chdir, and the display names kept in descriptors.
- The contents of the two text dictionaries: any dictionaries will do.
- Packing of staged ELF files, the offset and preserve modes of the builder, its
  printing, and how files are collected from host directories.
- Context switching, kernel stacks, FPU state, process names and page faults.
- ELF header validation, relocations, TLS headers and the user stack.
- TCP header parsing, checksums, the table of connections and timeouts; that the
  sender delivers everything, given the findings above.
- Drivers, heap, paging, virtual file system, graphics, shell, user programs and the
  build scripts.
