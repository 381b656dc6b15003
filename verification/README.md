# FAT16 file system and process calls, verified

Two parts of the repository, modelled and proved in Dafny.

**The FAT16 file system** (`lab4/simple_fat16_new.c`). A class over the byte image of a volume holds the
program's loops: table lookups and updates in 16-bit arithmetic, the search for free clusters, path lookup over
sectors and cluster chains, the 8.3 name codec, reading, appending, creating and unlinking. The image is abstracted
in two steps. `Layout` turns bytes into a disk of two tables, a root directory and clusters, and each method states its
effect on that disk. `FileSystem` turns a disk that satisfies the invariant into a map from names to files, a file being
the bytes of its clusters and a size. The main theorems, in `Runs`, say that every run of creations, removals and writes
at any offset whose chunks do not outnumber the clusters of the chain keeps the invariant, leaks no cluster, keeps chains
acyclic and disjoint and determines the size of every file.
A run whose writes stay in the clusters of their files, which is decided by the numbers of clusters and the sizes before
the run, is the corresponding run on the map and leaves every byte alone that belongs to no root-level file; for the other
writes the clusters they hit are named exactly.

**Process calls of the kernel** (`lab2/lab2.1/linux/sys.c`). Process groups and sessions, user and group ids,
resource limits, the scaling of memory sizes, and priorities: each call is a method proved against a specification,
and what the call is for is proved over every run. Capability checks, allocations and security hooks are parameters
that may answer anything; fork, exec and exit are steps of the environment.

| module | what it models |
|---|---|
| `Bytes`, `Layout` | little-endian words, writes to an image, the parts of a volume and their separation |
| `Chains` | cluster chains: uniqueness, acyclicity, extension, freeing, contents |
| `Names`, `Directory` | the name codec; directory entries, searches and path resolution |
| `Writes`, `Volumes` | where a write goes and how much of it is kept; the program over the image |
| `WriteLaws` | when a write is right, stays in its file, leaves its cluster or its chain |
| `FileSystem`, `Operations`, `Runs` | the map a volume stands for; the operations end to end; whole runs |
| `Sessions`, `Credentials`, `Limits`, `Sysinfo`, `Priority` | the kernel calls |

Where the code differs from what its comments or the FAT documentation would lead one to expect, the model follows the
code, and the exact condition under which the expected property holds is proved:

- a growing write that ends on a cluster boundary loses its last cluster (`KeptAllIff`), and leaves its file with a spare
  cluster that a short append fills again (`AppendFitsIff`, `SpareHeals`);
- a write that needs no new cluster goes to the last cluster of the file, whatever its offset, and sets the size to where
  it ends; if it is longer than the rest of that cluster it runs into the ones that follow on the disk, which may be
  another file's (`KeptIff`, `ChainKeptIff`, `SpillsOver`). When all this leaves what a write should is stated for all
  writes that the program can do inside a file (`WriteRightIff`);
- the chunks of a growing write can outnumber the clusters of the chain and then go over the root directory or the
  tables (`StaysIff`, `WalksOff`, `OffChain`);
- below the root a new entry can miss the free slot (`PlaceRightIff`, `SixteenthMissed`), and names with bytes from 0x80
  on are never found where characters are signed (`SubdirHitIff`);
- a plain file in the root is taken for any path that begins with its name (`ResolveIff`);
- the dot flag of the name codec is not reset between components (`StaleFlagHarmlessIff`, `StaleFlagHarms`);
- a comment in `edit_size` speaks of the deletion mark; the code writes the size field, and so does the model;
- doubling a cluster number in 16 bits addresses the wrong entry from 0x8000 on (`EntryPlaceIff`);
- on a full volume creation takes a table entry beyond the last cluster, if one is free (`CreatedChainedIff`);
- new links are written to the first table only, freeing writes both; what is free in the first table stays free in the
  second, which is part of the invariant;
- a soft processor-time limit of 1 can stand above a hard limit of 0 (`StrictOrderIff`);
- a memory unit that is not a power of two is scaled by the power of two below it (`BytesKeptIff`);
- setpriority can report success although a task failed, if the security module answers -ESRCH
  (`LastFailureReportedIff`).

The invariant of a volume (`FileSystem.Inv`): the layout fits 16-bit arithmetic; terminators are a suffix of the root
directory; live files have distinct lower-case 8.3 names in canonical form; each has a chain long enough for its size;
chains of different files are disjoint; a cluster free in the first table is free in the second. What the source demands
of its callers beyond that is a precondition: a free cluster for creation, enough free clusters above the tail for a write
and chunks that stay in the chain, directory chains ended by 0xffff for path lookup.

## Model

| member | source | states |
|---|---|---|
| `Runs.RunRefines` | lab4/simple_fat16_new.c:326-716 | every run of root-level creations, writes at any offset that stay in the clusters of their files, and removals does to the map from names to files (clusters and size) exactly what the operations do to a map, the lost bytes of inexact writes included; only what free clusters held is left open |
| `Runs.RunShapes` | lab4/simple_fat16_new.c:581-716 | over every run, with writes that run over the end of their cluster included, the invariant is kept and the number of clusters and the size of every file are determined by those before the run |
| `Runs.RunExact` | lab4/simple_fat16_new.c:581-716 | a run whose writes are right, which the shapes of the files before it decide, is plain creation, writing and removal on the map from names to contents |
| `Runs.RightRunFits` | lab4/simple_fat16_new.c:581-716 | a run of right writes keeps the chain of every file at the length max(1, ceil(size / cluster bytes)) |
| `Runs.RunConserves` | lab4/simple_fat16_new.c:326-360 | over every run, with writes that run over the end of their cluster included, the free clusters together with the clusters of root-level files stay one and the same set: no cluster leaks |
| `Runs.RunKeepsChains` | lab4/simple_fat16_new.c:326-360 | over every run, with writes that run over the end of their cluster included, each live file has a chain of distinct clusters >= 2 ended by 0xffff, and chains of different files are disjoint |
| `Runs.RunKeepsForeign` | lab4/simple_fat16_new.c:581-716 | over every such run a chain that belongs to no root-level file, such as that of a subdirectory or of a file in it, keeps its links; it keeps its bytes if writes stay in the clusters of their files |
| `Runs.SpillKeeps` | lab4/simple_fat16_new.c:703-713 | a write that runs over the end of its cluster leaves alone the chains it does not reach |
| `Runs.StepRefines` | lab4/simple_fat16_new.c:1007-1211 | one creation, removal or write that stays in its file keeps the invariant and is the operation on the map |
| `Runs.StepShapes` | lab4/simple_fat16_new.c:581-716 | one operation keeps the invariant and determines the shapes of all files |
| `Runs.StepMoves` | lab4/simple_fat16_new.c:1145-1211 | each operation changes one slot and the links of one chain: what leaves the chain is free afterwards, what joins it was free, every other entry is untouched; so are all other bytes if a write stays in its file |
| `Runs.FormattedRun` | lab4/simple_fat16_new.c:1007-1328 | a formatted volume satisfies the invariant and holds no file, so after a run it holds what the operations made from the empty map |
| `Runs.PerformCreate` | lab4/simple_fat16_new.c:1007-1139 | running mknod on the image is a creation step |
| `Runs.PerformWrite` | lab4/simple_fat16_new.c:1496-1509 | running write_path on the image is a write step |
| `Runs.PerformRemove` | lab4/simple_fat16_new.c:1177-1328 | running unlink on the image is a removal step |
| `Operations.ReadFile` | lab4/simple_fat16_new.c:534-578 | reading inside a file returns that slice of its content; at or past the end nothing is returned |
| `Operations.ReadSlot` | lab4/simple_fat16_new.c:534-578 | the same for a file given by its slot |
| `Operations.CreateFile` | lab4/simple_fat16_new.c:1007-1139 | mknod adds one empty file to the map, or does nothing if the root directory is full |
| `Operations.WriteFile` | lab4/simple_fat16_new.c:581-716 | write_path at any offset: the shapes of all files are determined; a write that stays in its file rewrites it as specified and leaves every other file alone; a right write leaves what a write should |
| `Operations.WriteRightIff` | lab4/simple_fat16_new.c:581-716 | for every write at an offset inside the file that finds room and whose chunks stay in the chain, those that run over the end of the last cluster included: the content is old bytes, buffer, old bytes, for every buffer, if and only if the program starts at the offset, stays in the file's clusters, keeps everything, and the write reaches the end of the file |
| `Operations.WriteExists` | lab4/simple_fat16_new.c:581-716 | every such write has a result, on every disk |
| `Operations.RoomyWritable` | lab4/simple_fat16_new.c:617-625 | a write that finds room meets what write_path relies on, and cannot outgrow the 32-bit size field |
| `Operations.WrittenFiles` | lab4/simple_fat16_new.c:581-716 | what a write on the disk means for the map of files |
| `Operations.RemoveFile` | lab4/simple_fat16_new.c:1177-1328 | unlink takes the file out of the map and returns 0; for a missing file it returns 1 and nothing changes |
| `Operations.RemovedLookup` | lab4/simple_fat16_new.c:1199-1320 | after unlink lookup fails for the removed name and still finds the same entry for every other file |
| `Operations.RemovedConserves` | lab4/simple_fat16_new.c:1145-1211 | the free set after unlink is the old one plus the chain, disjointly, in both tables |
| `Operations.CreateThenRemove` | lab4/simple_fat16_new.c:1007-1320 | mknod followed by unlink restores both tables and all data exactly and leaves the slot reusable |
| `Operations.ReaddirFiles` | lab4/simple_fat16_new.c:878-905 | readdir of the root lists each live file exactly once, each listed file resolves through both lookups to its own entry, and what else is listed are exactly the directories that are not deleted |
| `Operations.MissingNotFound` | lab4/simple_fat16_new.c:397-444 | a name that is not in the map, and not a directory, is not found by lookup |
| `Operations.UnlinkReady` | lab4/simple_fat16_new.c:1199-1211 | lookup by encoded name succeeds exactly for names in the map, and leads to the chain whose removal takes the name out of the map |
| `FileSystem.BothFind` | lab4/simple_fat16_new.c:1199-1320 | the entry found by encoded name, whose chain unlink frees, is the entry found by decoded name, which unlink marks 0xe5 |
| `FileSystem.LiveFound` | lab4/simple_fat16_new.c:397-424 | lookup by encoded name finds the live file itself |
| `FileSystem.CreateRefines` | lab4/simple_fat16_new.c:1007-1139 | the disk after mknod satisfies the invariant, terminators at the end of the directory and free-in-both-tables included, and its map has one more, empty file of one cluster |
| `FileSystem.CreatedChainedIff` | lab4/simple_fat16_new.c:1007-1139 | the new file has a cluster of the volume if and only if the volume was not full |
| `FileSystem.RemoveRefines` | lab4/simple_fat16_new.c:1177-1328 | the disk after unlink satisfies the invariant and its map lacks the file |
| `FileSystem.WriteRefines` | lab4/simple_fat16_new.c:581-716 | the disk after a write that stays in its file: the file is rewritten, the rest of the map is the same |
| `FileSystem.WriteShapes` | lab4/simple_fat16_new.c:581-716 | the disk after any write: the invariant holds and the shapes are those determined |
| `FileSystem.GrewInv` | lab4/simple_fat16_new.c:602-635 | the invariant after any write, wherever its bytes went |
| `FileSystem.GrewOutside` | lab4/simple_fat16_new.c:602-635 | a write leaves the links of every chain disjoint from the file's own |
| `FileSystem.GrewMirror` | lab4/simple_fat16_new.c:349-358 | a cluster free in the first table stays free in the second although allocation writes the first table only |
| `FileSystem.OnlyAtStores` | lab4/simple_fat16_new.c:1043-1066 | an operation on one slot that leaves other files' clusters alone changes the map at that slot's name only |
| `WriteLaws.RewrittenAtOffset` | lab4/simple_fat16_new.c:581-716 | a contained write that the program starts at its offset leaves the bytes of the chain up to the offset followed by the kept part of the buffer, beyond the end of the file too |
| `WriteLaws.AppendRightIff` | lab4/simple_fat16_new.c:581-716 | an append to a file that fits its chain starts at its offset, and is right if and only if it adds no cluster or ends off a cluster boundary |
| `WriteLaws.RightFits` | lab4/simple_fat16_new.c:617-689 | a right write to a file that fits its chain leaves one that fits |
| `WriteLaws.SpareHeals` | lab4/simple_fat16_new.c:703-713 | an append of at most one cluster to a file with a spare cluster is right and leaves a file that fits |
| `WriteLaws.StaysIff` | lab4/simple_fat16_new.c:652-701 | the chunks of a growing write stay in the grown chain if and only if the offset is not before the first chunk's cluster on a boundary, or not before the last old cluster off one |
| `WriteLaws.WalksOff` | lab4/simple_fat16_new.c:652-701 | a concrete write whose third chunk has no cluster: 4097 bytes at 2048 after 4096 bytes were appended to an empty file, in clusters of 2048 |
| `WriteLaws.ShortHole` | lab4/simple_fat16_new.c:665-668 | a growing write that does not go beyond the cluster it starts in, off a boundary, starts beyond the chain; only there can the unsigned remainder of the size wrap |
| `WriteLaws.KeptIff` | lab4/simple_fat16_new.c:703-713 | a cluster other than the last of the file keeps its bytes, whatever is written, if and only if the write does not reach it |
| `WriteLaws.ChainKeptIff` | lab4/simple_fat16_new.c:703-713 | a chain without that cluster keeps its bytes, whatever is written, if and only if none of its clusters is reached |
| `WriteLaws.ReachesIff` | lab4/simple_fat16_new.c:703-713 | the clusters reached are the ones up to last + (o + size - 1) / cluster bytes |
| `WriteLaws.ReachesNoneIff` | lab4/simple_fat16_new.c:703-713 | no other cluster is reached if and only if o + size <= cluster bytes or the file's last cluster is the last of the volume |
| `WriteLaws.SpillsOver` | lab4/simple_fat16_new.c:703-713 | a concrete write that spills: a cluster's worth of bytes at offset 1 of a file of two clusters |
| `WriteLaws.SpillsWrong` | lab4/simple_fat16_new.c:703-713 | a write that runs over the end of the last cluster starts before that cluster, and some buffer shows that its first byte is not at its offset in the file |
| `WriteLaws.LongOverwrite` | lab4/simple_fat16_new.c:703-713 | a concrete overwrite that goes wrong: two clusters' worth of bytes at the beginning of a file of three clusters |
| `WriteLaws.EarlyWriteTruncates` | lab4/simple_fat16_new.c:703-713 | a concrete write that cuts the file: one byte at the beginning of a file of 600 bytes |
| `WriteLaws.WrongSomehow` | lab4/simple_fat16_new.c:581-716 | a contained write that is not right shows in some buffer, whatever the added clusters held |
| `WriteLaws.NoExtraIff` | lab4/simple_fat16_new.c:617-619 | no cluster is required if and only if the write ends inside the chain |
| `Volumes.Volume.constructor` | lab4/simple_fat16_new.c:271-285 | the layout computed from the boot sector is that of the fields the boot sector was made from, and supports every later access |
| `Volumes.ParseIff` | lab4/fat16.h:23-46 | reading bytes 11 to 23 of the boot sector recovers exactly the fields it was made from, the low byte of each word first |
| `Layout.LayoutMeans` | lab4/simple_fat16_new.c:271-285 | the root directory follows all tables, the data area starts at the next sector boundary, and less than one cluster of the volume is left over |
| `Layout.TestVolume` | lab4/bench.h:45-51 | with 4 reserved sectors, two tables of 60 sectors and 512 root entries the root directory is at sector 124 and the data area at 156 |
| `Layout.TableBytes` | lab4/simple_fat16_new.c:291-303 | entry c of the tables is at byte 512 * reserved + 2c, low byte first, and 512 * table sectors further |
| `Layout.RootBytes` | lab4/simple_fat16_new.c:389-400 | byte j of root entry i is at 512 * first root sector + 32i + j |
| `Layout.ClusterBytesAre` | lab4/simple_fat16_new.c:364-370 | byte j of cluster c is at 512 * (first data sector + (c - 2) * sectors per cluster) + j |
| `Volumes.Volume.SectorRead` | lab4/simple_fat16_new.c:20-24 | a sector inside the image is read exactly |
| `Volumes.Volume.EntryPlace` | lab4/simple_fat16_new.c:291-303 | the 16-bit doubled cluster number addresses entry c mod 0x8000, whole within one sector, in each table |
| `Volumes.Volume.EntryPlaceIff` | lab4/simple_fat16_new.c:295-297 | the place addressed is that of entry c if and only if c < 0x8000 |
| `Volumes.Volume.EntryWraps` | lab4/simple_fat16_new.c:295-297 | a concrete cluster, 0x8000, whose entry is taken to be entry 0 |
| `Volumes.Volume.FatEntryByCluster` | lab4/simple_fat16_new.c:291-303 | returns entry c mod 0x8000 of the first table |
| `Volumes.Volume.ClusterIsEmpty` | lab4/simple_fat16_new.c:340-361 | links c to v and changes nothing else on the disk, unless v is in use: then nothing changes and 1 is returned |
| `Volumes.Volume.FindEmptyCluster` | lab4/simple_fat16_new.c:326-337 | returns the least free entry of the table; that is a cluster of the volume if and only if the volume is not full |
| `Volumes.Volume.FirstSectorIs` | lab4/simple_fat16_new.c:364-370 | the 16-bit sector number is the first sector of the cluster |
| `Volumes.Volume.FreeCluster` | lab4/simple_fat16_new.c:1145-1173 | zeroes the entry in both tables, returns its old value, changes nothing else |
| `Volumes.Volume.FreeChain` | lab4/simple_fat16_new.c:1199-1211 | the freeing loop terminates and zeroes exactly the chain, in both tables |
| `Volumes.Volume.ScanRoot` | lab4/simple_fat16_new.c:389-444 | the sector-by-sector scan of the root is a first-match search of its entries cut at the first 0x00 |
| `Volumes.Volume.FindRoot` | lab4/simple_fat16_new.c:378-445 | an entry is found if and only if the path leads to it: in the root to the first plain file or directory with those eleven bytes, which ends the path if it is a plain file; below the root through directories, where plain files are passed over, to the first plain file or directory for the last component; to any depth, over sectors and cluster chains |
| `Volumes.Volume.ScanSubdir` | lab4/simple_fat16_new.c:462-523 | the scan of one subdirectory over its sectors and cluster chain terminates and is a first-match search of its flattened entries, in raw bytes by SubdirHitIff |
| `Volumes.Volume.FindSubdir` | lab4/simple_fat16_new.c:455-524 | from the directory at a cluster an entry is found if and only if the remaining components lead to it, to any depth |
| `Volumes.Volume.FindFile` | lab4/simple_fat16_new.c:378-445 | the same for a path of one component |
| `Volumes.Volume.ReaddirRoot` | lab4/simple_fat16_new.c:865-905 | returns the decoded names of exactly those entries before the first 0x00 whose attribute is 0x10 or 0x20 and whose first byte is not 0xe5, in slot order |
| `Volumes.Volume.ReadSectors` | lab4/simple_fat16_new.c:544-563 | the sector loop reads the concatenated chain from its start |
| `Volumes.Volume.ReadFrom` | lab4/simple_fat16_new.c:534-578 | returns bytes [offset, offset + size) of the concatenated chain, 0 bytes for offset >= file size |
| `Volumes.Volume.LocateShown` | lab4/simple_fat16_new.c:1237-1260 | finds the first root entry whose decoded name is n, terminators or not |
| `Volumes.Volume.LocateFree` | lab4/simple_fat16_new.c:1043-1066 | finds the first root slot that is a terminator or deleted |
| `Volumes.Volume.LocateFreeBelow` | lab4/simple_fat16_new.c:1068-1109 | below the root: whether mknod puts a new entry anywhere, and at which byte |
| `Volumes.Volume.EditSize` | lab4/simple_fat16_new.c:1358-1494 | sets the size field of that entry and changes nothing else |
| `Volumes.Volume.StrikeOut` | lab4/simple_fat16_new.c:1237-1320 | marks that entry 0xe5 and changes nothing else |
| `Volumes.Volume.DirEntryCreate` | lab4/simple_fat16_new.c:971-1005 | writes the 32 bytes of the entry into its slot and changes nothing else |
| `Volumes.Volume.Mknod` | lab4/simple_fat16_new.c:1007-1139 | the disk afterwards has one more entry and one more end mark, for the first free entry of the table; that is Created(old disk) if the volume is not full |
| `Volumes.Volume.Unlink` | lab4/simple_fat16_new.c:1177-1328 | the disk afterwards is Removed(old disk), or the old disk and result 1 if lookup fails |
| `Volumes.Volume.CountClusters` | lab4/simple_fat16_new.c:602-611 | returns the length of the chain and its last cluster |
| `Volumes.Volume.LinkNext` | lab4/simple_fat16_new.c:624-628 | links the tail to the first free cluster above it |
| `Volumes.Volume.ExtendChain` | lab4/simple_fat16_new.c:619-635 | appends the required number of least free clusters above the tail and ends the chain with 0xffff; nothing else changes |
| `Volumes.Volume.GrowChain` | lab4/simple_fat16_new.c:617-635 | the same for the number of clusters that size + offset calls for |
| `Volumes.Volume.WriteChunk` | lab4/simple_fat16_new.c:687-688 | writes inside one cluster and nowhere else |
| `Volumes.Volume.WriteClusters` | lab4/simple_fat16_new.c:683-701 | the chunk loop writes all chunks but ends with size mod cluster bytes, following the chain, and sets the size after each |
| `Volumes.Volume.WriteInLast` | lab4/simple_fat16_new.c:703-713 | a write that needs no new cluster goes to the last one, at offset modulo the cluster size, and over its end if it is too long, and sets the size to offset + length; nothing else changes |
| `Volumes.Volume.WriteAcross` | lab4/simple_fat16_new.c:707-709 | a write that starts in a cluster changes that one and the ones that follow it on the disk, as far as it goes, and nothing else |
| `Volumes.Volume.WriteAligned` | lab4/simple_fat16_new.c:652-664 | a growing write from a cluster boundary starts in the first new cluster, or in the old last one if the file is empty |
| `Volumes.Volume.WriteUnaligned` | lab4/simple_fat16_new.c:665-701 | a growing write from inside a cluster fills the old last one and goes on in the new ones |
| `Volumes.Volume.WriteBeyond` | lab4/simple_fat16_new.c:667-701 | what remains after the old last cluster is filled goes to the new ones |
| `Volumes.Volume.NothingLeft` | lab4/simple_fat16_new.c:667-683 | if nothing remains the wrapped 64-bit size gives no chunk, for cluster sizes that are powers of two |
| `Volumes.Volume.FillLast` | lab4/simple_fat16_new.c:667-676 | the rest of the old last cluster is filled and the size set |
| `Volumes.Volume.WritePath` | lab4/simple_fat16_new.c:581-716 | for a write of any length at any offset whose chunks stay in the chain: the chain grows by exactly the clusters needed, the size is set, the bytes go where specified, everything else is as it was |
| `Volumes.Volume.OffChain` | lab4/simple_fat16_new.c:683-699 | if that sector does not wrap, a chunk beyond the end of the chain goes to no cluster; every root entry is overwritten as far as the chunk meets it, from entry 16 * (sector - first root sector) on |
| `Volumes.Volume.EndSectorIs` | lab4/simple_fat16_new.c:697-699 | a chunk beyond the end of the chain goes to sector FirstDataSector - 3 * SecPerClus, modulo 65536 |
| `Volumes.Volume.WriteGrown` | lab4/simple_fat16_new.c:644-702 | once the chain has grown, the kept bytes are written where the program starts and the size is set |
| `Writes.NeedIsQuotient` | lab4/simple_fat16_new.c:617-617 | (total - 1) / cluster bytes + 1 is the number of clusters that hold total bytes |
| `Writes.WrittenAll` | lab4/simple_fat16_new.c:683-689 | the chunks add up to the whole size, less one cluster if the size is a multiple of it |
| `WriteLaws.KeptAllIff` | lab4/simple_fat16_new.c:683-689 | of a contained write everything is kept if and only if it adds no cluster, ends off a boundary or is shorter than a cluster; the last is possible only for writes that start beyond the chain; otherwise one cluster less is kept |
| `WriteLaws.AppendFitsIff` | lab4/simple_fat16_new.c:617-689 | an append to a file that fits its chain leaves one that fits if it is exact, and otherwise one with exactly one spare cluster |
| `WriteLaws.BoundaryAppendLoses` | lab4/simple_fat16_new.c:683-689 | a concrete append that loses a cluster: 1024 bytes to an empty file in 512-byte clusters |
| `Writes.GrownChain` | lab4/simple_fat16_new.c:602-635 | the grown table holds the old chain followed by the added clusters, properly ended, and is otherwise unchanged |
| `Writes.AddedIs` | lab4/simple_fat16_new.c:624-626 | the added clusters are free and strictly increasing, above the old tail |
| `Writes.AddedLeast` | lab4/simple_fat16_new.c:624-626 | no free cluster above the tail is passed over |
| `Writes.PlaceFits` | lab4/simple_fat16_new.c:652-713 | what is kept of a contained write fits the clusters of the file |
| `Writes.AlignedNumbers` | lab4/simple_fat16_new.c:652-701 | place, number of chunks and bytes kept of a growing write from a cluster boundary |
| `Writes.UnalignedNumbers` | lab4/simple_fat16_new.c:665-701 | the same from inside a cluster |
| `Writes.Job.AfterIs` | lab4/simple_fat16_new.c:683-701 | the chunks, cluster by cluster, are one write at the beginning of the first one's cluster |
| `Writes.Job.Off` | lab4/simple_fat16_new.c:697-698 | after the last cluster of a chain the walk stands at cluster number 0xffff |
| `Chains.Extension` | lab4/simple_fat16_new.c:619-635 | linking increasing free clusters after the tail gives the old chain followed by exactly these, ended by 0xffff, and changes no other entry |
| `Chains.LinkStep` | lab4/simple_fat16_new.c:622-634 | linking one cluster, which still reads as free while the next is sought, leaves the rest of the same extension to be done |
| `Chains.ChainAcyclic` | lab4/simple_fat16_new.c:603-611 | a chain never visits a cluster twice, so every walk to an end mark ends |
| `Chains.ChainIff` | lab4/simple_fat16_new.c:602-611 | a chain, entry by entry: each cluster is the entry of the one before, and the last entry is at least 0xfff8 |
| `Chains.ChainUnique` | lab4/simple_fat16_new.c:603-611 | a cluster starts at most one chain |
| `Chains.FreeNext` | lab4/simple_fat16_new.c:1199-1211 | freeing one cluster after another zeroes exactly those |
| `Chains.GatherWrite` | lab4/simple_fat16_new.c:687-689 | writing inside the i-th cluster of a chain is writing at that place of its concatenated bytes |
| `Chains.GatherPiece` | lab4/simple_fat16_new.c:549-563 | a sector of the i-th cluster is that piece of the concatenated bytes |
| `Chains.ChainLength` | lab4/simple_fat16_new.c:603-611 | a chain is no longer than the volume |
| `Names.EncodeComponent` | lab4/simple_fat16_new.c:96-189 | the component loop writes positions 0 to 10 of its slot exactly as the 8.3 rules say, whatever the slot held, or gives up |
| `Names.SplitPath` | lab4/simple_fat16_new.c:71-194 | every component is encoded with the flag as the earlier ones left it and the slot as it was; in paths where the flag harms none, each as on its own |
| `Names.StaleFlagHarmlessIff` | lab4/simple_fat16_new.c:95-95 | the flag left over from an earlier component does no harm if and only if the component is . or .., or has at most three characters and no dot, or is refused anyway |
| `Names.StaleFlagHarms` | lab4/simple_fat16_new.c:95-189 | a concrete path that the flag spoils: cdef after a.b |
| `Names.PathDecode` | lab4/simple_fat16_new.c:200-237 | decoding drops blanks, lowers case and puts a dot before a non-blank extension, within its 13 bytes |
| `Names.DecodeMeans` | lab4/simple_fat16_new.c:200-237 | a decoded name is what is not blank of the first eight bytes, in order, a dot if the ninth is not blank, and what is not blank of the last three, upper case lowered |
| `Names.EncodeBytes` | lab4/simple_fat16_new.c:96-189 | each byte of an encoded component: eight characters before the first dot, three after it, upper case, longer parts cut off, blanks elsewhere |
| `Names.RefusedIff` | lab4/simple_fat16_new.c:126-144 | a component is refused if and only if its first dot is last or followed by another within four characters |
| `Names.StaleBytes` | lab4/simple_fat16_new.c:95-189 | each byte of a component encoded with the flag left set, and when it is refused |
| `Names.DecodeEncode` | lab4/simple_fat16_new.c:95-237 | decoding undoes encoding on every lower-case 8.3 name |
| `Names.EncodeDecodeIff` | lab4/simple_fat16_new.c:95-237 | encoding undoes decoding if and only if the 11 bytes are canonical: a dot entry, or two blank-padded fields without dots and lower-case letters |
| `Names.EncodeInjective` | lab4/simple_fat16_new.c:96-189 | different lower-case 8.3 names never share an encoding |
| `Names.ShownOfEncoded` | lab4/simple_fat16_new.c:1414-1414 | what the comparison by decoded name sees of an encoded name is the name itself |
| `Names.ShownOfDeleted` | lab4/simple_fat16_new.c:1245-1245 | a deleted entry never shows a valid name |
| `Directory.NewEntry` | lab4/simple_fat16_new.c:985-991 | name, attribute, zeroes, time, date, first cluster and size are where the accessors read them |
| `Directory.FieldBytes` | lab4/fat16.h:49-62 | the bytes at which name, attribute, time, date, first cluster and size of an entry are, low bytes first |
| `Directory.WithSize` | lab4/simple_fat16_new.c:1410-1494 | editing the size leaves name, attribute and first cluster |
| `Directory.FirstHitIs` | lab4/simple_fat16_new.c:397-424 | an entry is found if it is the first match and no terminator precedes it |
| `Directory.ResolveIff` | lab4/simple_fat16_new.c:378-445 | path lookup finds an entry if and only if the path leads to it, stated in raw bytes |
| `Directory.ResolveInIff` | lab4/simple_fat16_new.c:455-524 | the same below the root, by induction on the components |
| `Directory.RootHitIff` | lab4/simple_fat16_new.c:397-424 | in the root the first entry before a 0x00 with those eleven bytes and attribute 0x10 or 0x20 is taken, whatever remains of the path |
| `Directory.SubdirHitIff` | lab4/simple_fat16_new.c:474-494 | below the root attribute 0x20 is taken for the last component only; names with bytes from 0x80 on never match, as characters are signed |
| `Directory.ListingBytes` | lab4/simple_fat16_new.c:462-523 | entry k of a directory is bytes 32k to 32k + 31 of its concatenated clusters |
| `Directory.ListedIff` | lab4/simple_fat16_new.c:878-905 | the listing is the one sequence of decoded names of the reported slots in increasing order |
| `Directory.DirectoryListed` | lab4/simple_fat16_new.c:892-897 | every directory that is not deleted is listed |
| `Directory.HitFromIs` | lab4/simple_fat16_new.c:462-523 | stepping entry by entry over sectors and clusters is the search of the flattened entry sequence |
| `Directory.PatchedAgain` | lab4/simple_fat16_new.c:692-692 | of several edits of the size only the last counts |
| `Directory.PlaceRightIff` | lab4/simple_fat16_new.c:1078-1109 | below the root the new entry goes to the free slot if and only if that is not the last of its sector, or is the last of its cluster and the directory goes on in the next cluster of the disk |
| `Directory.FreeFromFirst` | lab4/simple_fat16_new.c:1078-1100 | the slot sought below the root is the first terminator or deleted entry in the order of the chain, and is found if there is one |
| `Directory.SixteenthMissed` | lab4/simple_fat16_new.c:1078-1109 | a concrete slot that is missed: the sixteenth, in clusters of four sectors |
| `Layout.UsableIsSupported` | lab4/simple_fat16_new.c:271-285 | tables, root directory and clusters lie one after the other inside the volume |
| `Layout.RootRounding` | lab4/simple_fat16_new.c:276-282 | the data area begins at the first sector boundary after the root directory |
| `Layout.Regions` | lab4/simple_fat16_new.c:271-285 | the byte ranges of the parts do not overlap |
| `Layout.ClustersApart` | lab4/simple_fat16_new.c:364-370 | the byte ranges of different clusters do not overlap |
| `Layout.WriteFirstTable` | lab4/simple_fat16_new.c:351-353 | two bytes written at Rsvd * 512 + 2c change entry c of the first table and nothing else |
| `Layout.WriteSecondTable` | lab4/simple_fat16_new.c:1156-1171 | the same for the second table |
| `Layout.WriteRoot` | lab4/simple_fat16_new.c:997-999 | bytes written inside a root entry change that entry and nothing else |
| `Layout.WriteCluster` | lab4/simple_fat16_new.c:687-688 | bytes written inside a cluster change that cluster and nothing else |
| `Layout.WriteSpill` | lab4/simple_fat16_new.c:707-709 | bytes written from inside a cluster on change that cluster and those that follow it on the disk, and nothing else, even past the end of the image |
| `Sessions.RunKeepsGroups` | lab2/lab2.1/linux/sys.c:921-1099 | over every run of setpgid, setsid, fork, clone, exec and exit all members of a process group share one session and session leaders have session = group = own id |
| `Sessions.LeaderForLife` | lab2/lab2.1/linux/sys.c:1068-1099 | a session leader stays one, with session = group = own id, until it exits |
| `Sessions.SessionForLife` | lab2/lab2.1/linux/sys.c:921-990 | a process that never calls setsid stays in the session it was born in |
| `Sessions.NewSession` | lab2/lab2.1/linux/sys.c:1068-1099 | the session that setsid opens has the caller as its only member |
| `Sessions.ChildMovable` | lab2/lab2.1/linux/sys.c:921-990 | a parent can move a child it has just forked into a group of its own or into any group of the session, and the child can open a session; once the child has executed a program the parent can move it nowhere |
| `Sessions.ExecFixesGroup` | lab2/lab2.1/linux/sys.c:950-961 | over every run a process that has executed a program and makes neither call keeps its group and its session |
| `Sessions.JoinAllowed` | lab2/lab2.1/linux/sys.c:963-983 | a caller that leads no session, and its child before exec, joins every group with a member in the caller's session; nothing else changes |
| `Sessions.FoundAllowed` | lab2/lab2.1/linux/sys.c:963-983 | and founds its own |
| `Sessions.JoinRefused` | lab2/lab2.1/linux/sys.c:967-975 | no process joins another group that has no member in the caller's session |
| `Sessions.ChildMayLead` | lab2/lab2.1/linux/sys.c:1068-1099 | a new child can always open a session |
| `Sessions.RefusalMeans` | lab2/lab2.1/linux/sys.c:921-985 | each error of setpgid if and only if its cause |
| `Sessions.WeakInvariantFails` | lab2/lab2.1/linux/sys.c:953-985 | shared sessions and leader identity alone are not inductive: a concrete table that setpgid breaks |
| `Sessions.InitialInv` | lab2/lab2.1/linux/sys.c:1057-1099 | the invariant holds of the first process alone |
| `Sessions.MoveKeeps` | lab2/lab2.1/linux/sys.c:953-985 | an allowed move keeps the invariant |
| `Sessions.LeadKeeps` | lab2/lab2.1/linux/sys.c:1068-1099 | a new session keeps the invariant |
| `Sessions.EventKeeps` | lab2/lab2.1/linux/sys.c:921-1099 | so does every event |
| `Sessions.TaskTable.Setpgid` | lab2/lab2.1/linux/sys.c:921-990 | succeeds if and only if POSIX allows the move and the hook agrees, then changes one group id; otherwise the named error and no change, whichever group member is examined |
| `Sessions.TaskTable.Setsid` | lab2/lab2.1/linux/sys.c:1068-1099 | succeeds if and only if the caller leads no session and no group bears its id; then session = group = own id |
| `Sessions.TaskTable.SetSpecialPids` | lab2/lab2.1/linux/sys.c:1057-1066 | session and group become the caller's id |
| `Credentials.RunShrinks` | lab2/lab2.1/linux/sys.c:331-820 | over every run without the capability the set of the four ids, and that of the first three, only shrinks |
| `Credentials.DroppedForGood` | lab2/lab2.1/linux/sys.c:464-645 | after setuid(u) with the capability, setreuid(u, u) or setresuid(u, u, u) all four ids are u and stay u over every later run without the capability |
| `Credentials.NotDropped` | lab2/lab2.1/linux/sys.c:535-575 | after setuid without the capability the real and the saved id can be taken back |
| `Credentials.ReachableIff` | lab2/lab2.1/linux/sys.c:582-645 | without the capability an id is reachable as effective id, by some run, if and only if it is the real, effective or saved one |
| `Credentials.SwapTwice` | lab2/lab2.1/linux/sys.c:464-522 | swapping real and effective id twice by setreuid restores both |
| `Credentials.ReachesIff` | lab2/lab2.1/linux/sys.c:331-820 | without the capability the states within reach of any run are exactly: the file system id alone set to one of the four, or the first three taken from the old three and the file system id one of the new three |
| `Credentials.SetresSets` | lab2/lab2.1/linux/sys.c:622-634 | each argument of setresuid becomes its own id, -1 leaves that id alone, and the file system id follows the effective one |
| `Credentials.SetresApart` | lab2/lab2.1/linux/sys.c:622-634 | calls that agree in an argument agree in its id, whatever the others are |
| `Credentials.SetresUndone` | lab2/lab2.1/linux/sys.c:582-645 | setresuid with the three old ids undoes setresuid; without the capability it goes through if and only if none of them was given up |
| `Credentials.SetreSets` | lab2/lab2.1/linux/sys.c:485-511 | setreuid: which argument sets which id, and when the saved id changes |
| `Credentials.SavedIff` | lab2/lab2.1/linux/sys.c:508-510 | setreuid(-1, e) leaves e as the saved id if and only if e is not the old real id or that was saved already |
| `Credentials.SetSets` | lab2/lab2.1/linux/sys.c:553-564 | setuid sets all four ids with the capability, the effective and the file system id without |
| `Credentials.SetFsSets` | lab2/lab2.1/linux/sys.c:766-774 | setfsuid sets the file system id and no other |
| `Credentials.UnprivilegedIff` | lab2/lab2.1/linux/sys.c:331-820 | without the capability, exactly which arguments each of the calls accepts |
| `Credentials.PrivilegedIff` | lab2/lab2.1/linux/sys.c:331-820 | with it, exactly the mapped ones |
| `Credentials.UserNeededIff` | lab2/lab2.1/linux/sys.c:503-507 | a user structure is needed if and only if the real id changes |
| `Credentials.ObjectionsStand` | lab2/lab2.1/linux/sys.c:480-515 | without memory or against the security module no id changes, and the module's answer is returned |
| `Credentials.FailureMeans` | lab2/lab2.1/linux/sys.c:464-645 | each error number if and only if its cause |
| `Credentials.CallShrinks` | lab2/lab2.1/linux/sys.c:331-820 | one call without the capability adds no id |
| `Credentials.Task.Setreuid` | lab2/lab2.1/linux/sys.c:464-522 | sets real and effective id if permitted, the saved id under the BSD rule and the file system id; otherwise the error and no change |
| `Credentials.Task.Setuid` | lab2/lab2.1/linux/sys.c:535-575 | with the capability sets real, saved, effective and file system id; without it only the last two, and only to the real or saved id; otherwise the error and no change |
| `Credentials.Task.Setresuid` | lab2/lab2.1/linux/sys.c:582-645 | the real, effective and saved id become what the first, second and third argument ask for, each one of the old three unless capable, and the file system id the effective one; otherwise the error and no change |
| `Credentials.Task.Setfsuid` | lab2/lab2.1/linux/sys.c:748-782 | returns the old id as the caller knows it; changes it exactly if one of the four ids or the capability permits |
| `Credentials.Task.Setregid` | lab2/lab2.1/linux/sys.c:331-381 | the BSD rule for group ids, with the same conditions and errors |
| `Credentials.Task.Setgid` | lab2/lab2.1/linux/sys.c:388-418 | all four group ids with the capability, effective and file system group id without it |
| `Credentials.Task.Setresgid` | lab2/lab2.1/linux/sys.c:669-719 | the same for the three group ids |
| `Credentials.Task.Setfsgid` | lab2/lab2.1/linux/sys.c:787-820 | returns the old file system group id as the caller knows it; changes it exactly if one of the four ids or the capability permits |
| `Limits.RunKeepsOrder` | lab2/lab2.1/linux/sys.c:1360-1424 | over every run soft <= hard for all resources, except that processor time may be soft 1 with hard 0 |
| `Limits.RunNeverRaises` | lab2/lab2.1/linux/sys.c:1360-1424 | over every run without the capability no hard limit rises |
| `Limits.StrictOrderIff` | lab2/lab2.1/linux/sys.c:1394-1402 | a request leaves soft <= hard if and only if it does not ask for zero processor time, hard and soft |
| `Limits.LastWins` | lab2/lab2.1/linux/sys.c:1404-1409 | over every run a query returns exactly what the last allowed request for the resource asked for, except that zero soft processor time has become 1 |
| `Limits.LastWins64` | lab2/lab2.1/linux/sys.c:1448-1488 | the same through prlimit64, where limits beyond the native width come back infinite |
| `Limits.ReachesIff` | lab2/lab2.1/linux/sys.c:1360-1424 | without the capability the limits within reach of any run are exactly the present one, those in order with a hard limit not above the present one, for processor time none with soft 0 but soft 1 with hard 0 |
| `Limits.OpenFilesBounded` | lab2/lab2.1/linux/sys.c:1371-1373 | over every run the limit on open files never passes the ceiling, even with the capability |
| `Limits.ObjectionsStand` | lab2/lab2.1/linux/sys.c:1378-1393 | over every run requests for dead targets, or against the security module, change nothing |
| `Limits.RefusalMeans` | lab2/lab2.1/linux/sys.c:1366-1393 | each error number if and only if its cause |
| `Limits.HookReported` | lab2/lab2.1/linux/sys.c:1391-1393 | the answer of the security module is returned if nothing else stands against the request |
| `Limits.StrangerMayLimitIff` | lab2/lab2.1/linux/sys.c:1427-1446 | another process without the capability may set limits if and only if all six ids of the target are its own real ones |
| `Limits.NativeRoundTrip` | lab2/lab2.1/linux/sys.c:1335-1357 | native limits to 64 bits and back are unchanged, for every native width |
| `Limits.WideRoundTripIff` | lab2/lab2.1/linux/sys.c:1326-1357 | 64-bit limits to native and back are unchanged if and only if they are below native infinity or infinite |
| `Limits.NarrowSaturates` | lab2/lab2.1/linux/sys.c:1326-1357 | narrowing saturates and the cast never cuts anything off |
| `Limits.ConversionsKeepOrder` | lab2/lab2.1/linux/sys.c:1326-1357 | both conversions keep the order of soft and hard |
| `Limits.Process.DoPrlimit` | lab2/lab2.1/linux/sys.c:1360-1424 | stores the limit asked for, with soft processor time 0 raised to 1, if and only if the request is allowed; returns the old one; otherwise the named error with nothing changed; other resources keep theirs |
| `Limits.Process.Prlimit64` | lab2/lab2.1/linux/sys.c:1448-1488 | the same through the 64-bit conversions: for a permitted caller 0 if and only if the request is allowed, or is a query of a resource of a live target; otherwise the same errors |
| `Limits.CheckPrlimitPermission` | lab2/lab2.1/linux/sys.c:1427-1446 | permitted exactly for oneself, for a target all of whose ids are the caller's real ones, or by capability |
| `Sysinfo.DoSysinfo` | lab2/lab2.1/linux/sys.c:2345-2377 | scales precisely if the total times 2 to the bit count fits the word, then without losing bits of any part of the memory; otherwise the record is unchanged; for every word width |
| `Sysinfo.CountBits` | lab2/lab2.1/linux/sys.c:2348-2357 | the doubling loop detects overflow exactly and counts the bits of the unit |
| `Sysinfo.DoublingDetected` | lab2/lab2.1/linux/sys.c:2353-2356 | a doubled word is smaller than before if and only if it overflowed |
| `Sysinfo.SumDetected` | lab2/lab2.1/linux/sys.c:2345-2347 | the same for the sum of two words |
| `Sysinfo.ShlExactIff` | lab2/lab2.1/linux/sys.c:2366-2374 | a shift loses bits if and only if the product does not fit the word |
| `Sysinfo.BytesKeptIff` | lab2/lab2.1/linux/sys.c:2366-2374 | field times unit is preserved if and only if the unit is a power of two or the field is zero |
| `Sysinfo.ScaledBytes` | lab2/lab2.1/linux/sys.c:2359-2374 | for a power-of-two unit every field stands for as many bytes as before, each in its own place |
| `Sysinfo.Log2Means` | lab2/lab2.1/linux/sys.c:2348-2357 | the bit count is that of the largest power of two not above the unit |
| `Sysinfo.ThreesLost` | lab2/lab2.1/linux/sys.c:2366-2374 | a concrete unit for which bytes are lost: three |
| `Priority.FoldedMeans` | lab2/lab2.1/linux/sys.c:153-239 | -ESRCH exactly if no task was selected, 0 exactly if some were and all succeeded, otherwise the error of the last failing one, as long as the security module never answers -ESRCH |
| `Priority.LastFailureReportedIff` | lab2/lab2.1/linux/sys.c:153-175 | in general the last failure is reported if and only if it is not an -ESRCH followed by a success |
| `Priority.HiddenFailure` | lab2/lab2.1/linux/sys.c:153-175 | a concrete selection where a failure is reported as success |
| `Priority.RunNeverLowers` | lab2/lab2.1/linux/sys.c:153-239 | over every run of calls that never grant the right to a lower value no task's nice value falls |
| `Priority.ReachesIff` | lab2/lab2.1/linux/sys.c:153-239 | without that right a task can be taken, by some run, to exactly its own value and the higher ones of the range |
| `Priority.GetsValueIff` | lab2/lab2.1/linux/sys.c:153-175 | a selected task has the clamped value afterwards if and only if it had it, or is permitted, the security module agrees, and the value is higher or the right is granted; otherwise it keeps its own |
| `Priority.OutcomeMeans` | lab2/lab2.1/linux/sys.c:153-175 | -EPERM if and only if not permitted, -EACCES if and only if permitted and lowered without the right |
| `Priority.HookMeans` | lab2/lab2.1/linux/sys.c:165-169 | the security module is asked last and its answer stands |
| `Priority.RunInRange` | lab2/lab2.1/linux/sys.c:191-194 | over every run a nice value stays as it was or is in the range |
| `Priority.Clamp` | lab2/lab2.1/linux/sys.c:191-194 | the nearest value of the range |
| `Priority.Scheduler.Setpriority` | lab2/lab2.1/linux/sys.c:177-239 | exactly the selected tasks whose outcome is good get the clamped nice value; the result is the fold of the outcomes |
| `Priority.Scheduler.SetOnePrio` | lab2/lab2.1/linux/sys.c:153-175 | sets one task's nice value exactly if it is permitted, not lowered without the right, and the security module agrees; folds its outcome into the error |

## Left out

- The image is a sequence of bytes in a field of the class, replaced by each write, not an array updated cell by cell; short reads and `fflush` are not modelled.
- `fat16_unlink` and `edit_size` below the root, and what `fat16_mknod` writes there: of the latter only the place it computes is modelled. The second lookup of `write_path` sees only the first component of a longer path. Path lookup itself is modelled to any depth.
- WritePath: growing writes whose chunks leave the chain are excluded by a precondition; when that happens and where the first stray chunk goes is proved (StaysIff, EndSectorIs, OffChain), what the later ones overwrite is not. Also excluded are two writes that start beyond the chain, off a cluster boundary: one that ends before the end of the cluster where it starts, for which the unsigned size wraps around and the program reads past its buffer; and one that ends with that cluster, if the cluster size is not a power of two.
- FindEmptyCluster: a table without any free entry, in which the program searches for ever, is excluded by a precondition, here and in Mknod.
- ReadFrom: a read that starts inside the file and ends beyond it returns as many bytes as asked for; the bytes beyond the chain are unspecified, as in the source.
- C memory: `strtok` working in place, copies sized by a pointer, missing terminators, comparisons that stop at a zero byte in a slot that was never filled. Paths are sequences of components.
- `fat16_readdir` of subdirectories, `fat16_getattr`, `fat16_utimens`, `main`, the FUSE context and tracing output.
- Date and time of a new entry come from outside as two 16-bit words; their packing is not modelled.
- Error numbers, the number of resources and the range of nice values are those of the generic Linux headers, which are not part of this model.
- Locking and RCU: each system call is one atomic step. Terminals, connectors and autogroups of `setsid` are not modelled.
- The user structure behind `set_user`, the process-count flag and reference counts; `set_user` is a yes-or-no answer.
- `update_rlimit_cpu`, `copy_from_user` and `copy_to_user` failures in the limit calls.
- How `setpriority` finds the tasks it is asked about, and the comparison of user ids behind its permission answer: the selection and the answers are parameters.
- The rest of `sys.c` (uname, rusage, prctl, times) and the other laboratories: field copies, dispatch, or thin calls into code that is not shown.
