# PinguOS: file system, heap, transmit ring and scheduler

A Dafny model of the parts of PinguOS whose correctness rests on data that several functions share, with proofs.

- **FAT32** (`src/filesystem/fat.cpp`). The disk is a sequence of 512-byte sectors. `Layout` defines the abstract view,
  an array of table entries and an array of clusters, and shows which part of it each sector write changes. `Volumes` is
  the sector-level code proved against that view. `Chains` says what a sound volume is and how chains grow, shrink and
  are conserved. `Content` and `FileSpec` say what files read as. `Fat32Files` is write, read and seek through a handle;
  `Directories`, `Names`, `Paths`, `Slots`, `Lookups` and `Fat32Tree` are the iterator, 8.3 names, paths, stat, open and
  make_file. `WriteAnswers` says in numbers what write, read and seek answer and leave, `Entries` what the write-back of
  a record does to what a directory lists, `Fat32Beside` where make_file puts a file below another directory.
  `Fat32Runs` puts the operations together: over whole runs the root directory is a map from names to byte strings.
  `Sessions` is the same operations through the code, `Fat32Wipes` what happens to the files a write-back wipes, and
  `Fat32Fresh` runs on a freshly formatted volume.
- **Heap** (`src/memory_management.cpp`). `Masks` is the rounding of addresses. `HeapBlocks` is the heap as a list of
  blocks, with the theorems about runs of malloc and free. `LinearAllocation` is the code on linked headers in memory,
  proved to compute that list.
- **Transmit ring** (`src/drivers/intel_82540em.cpp`). `TransmitRing` interleaves the statements of send_packet with the
  card's steps: fetching a byte, completing a descriptor, writing back its DD bit. The card's steps follow section 3.4
  of Intel's PCI/PCI-X Family of Gigabit Ethernet Controllers Software Developer's Manual. The class is the driver code
  with the card running between any two accesses.
- **Scheduler** (`src/multitask.cpp`). `Multitasking` has the scheduler on values with its theorems over runs of ticks
  and additions, and the class proved against it.

Code that updates state in place is a class with methods, each proved against a function of the old state; the theorems
are about those functions.

## What the proofs found

Each of these is stated with the exact condition under which the code does what its callers expect.

- The scan of allocate_cluster includes the word one past the table. With no free entry it fails as it should exactly
  when that word is taken (`Chains.AllocationPastIff`, `Chains.FullTableInput`, `Layout.PastEntryEffect`).
- The table may name more clusters than the disk has, as on the tests' volume (`Layout.TestVolume`). An allocation then
  has sectors behind it exactly when a free cluster on the disk is left (`FileSpec.AllocationBackedIff`).
- WRITE adds to the handle's size; the recorded size is right exactly when it was 0 (`Fat32Files.SizeRightIff`,
  `Fat32Files.SizeDoubled`).
- APPEND writes at the cluster the handle stands on. It starts at the file's size exactly from the last cluster
  (`FileSpec.LandsAtSizeIff`), so not after open of a file of several clusters (`FileSpec.OpenedAppendInput`), nor after
  a WRITE of several; linking behind another cluster cuts the file's tail off (`FileSpec.AppendSoundIff`).
- APPEND is ready for the next APPEND exactly when it wrote nothing or did not end on a cluster boundary
  (`FileSpec.AppendTailIff`); otherwise the next one overwrites the last cluster (`FileSpec.SecondAppendOverwrites`).
- A WRITE or APPEND that runs out of space keeps the file as it was on the disk, but not the handle's size in the case
  of APPEND, nor the clusters taken (`Fat32Files.FailedWrite`, `Fat32Files.FailedAppend`).
- A chain cut by WRITE ends in 0x0FFFFF, which read takes for a cluster. A read stays on the file exactly when the chain
  has the bytes asked for or ends in another mark (`FileSpec.ReadStaysIff`, `FileSpec.CutReadInput`).
- A read that stops on a cluster boundary does not move the handle on (`FileSpec.SyncKeptIff`), and a seek counts from
  the cluster the handle stands on (`FileSpec.SeekSyncIff`, `FileSpec.SeekBeyond`).
- The short write of a directory record zeroes the rest of its sector; its neighbours survive exactly when that rest was
  zero already (`Records.NeighboursKeptIff`). A zeroed record ends the directory, so of two files made one after the
  other, a WRITE to the first makes the second disappear (`Fat32Wipes.SecondFileLost`).
- A stored name is found again exactly when it is a dotted 8.3 name without spaces that does not begin with the deleted
  mark (`Names.NormalIff`, `Lookups.CreatedLookup`); make_file therefore refuses only normal names that exist already.
- A directory without a free record gets a cluster that is linked to itself, and the new entry is never listed
  (`Fat32Tree.Fat32.CreateDirectoryEntry`, `Lookups.GrowthUnlisted`).
- make_file looks its path up and stores the record in the directory that lists the path, not in the one the path names:
  except for "/", the new file is never found under its full path (`Fat32Tree.Fat32.MakeFile`, `Fat32Beside.MadeBeside`).
- The directory iterator loads a cluster into 4096 bytes, which is inside exactly when a cluster has at most 8 sectors
  (`Directories.LoadInsideIff`); the class asks for that.
- malloc keeps the padding in one byte but places the next header by the full gap: the heap stays tiled exactly when the
  gap fits in the byte or nothing is split (`HeapBlocks.MallocKeepsIff`, `HeapBlocks.TilingLostInput`). An aligned block
  holds its bytes exactly when the gap fits too (`HeapBlocks.PayloadInsideIff`, `HeapBlocks.PayloadOutsideInput`).
- free reaches the header exactly when there is no gap or the byte in front of the address happens to be the whole gap,
  so never when the gap is 256 or more (`LinearAllocation.FreeAfterMallocIff`, `LinearAllocation.FreeMissesInput`,
  `LinearAllocation.FreeNeverInput`).
- With 256 packets pending TDH equals TDT, the card sees an empty ring, and nothing is ever sent again
  (`TransmitRing.DrainsIff`, `TransmitRing.BurstWedges`).
- send_packet takes sizes up to 65535 and copies that many bytes into a buffer of 2048: it stays inside exactly when
  `size <= 2048` (`TransmitRing.CopyInsideIff`), which the class asks of its callers.

## Model

| member | source | states |
|---|---|---|
| Disks.Disk.Read28 | src/drivers/ata.cpp:87-143 | a read delivers the first `count` bytes of the sector and changes nothing |
| Disks.Disk.Write28 | src/drivers/ata.cpp:145-177 | a write replaces exactly one sector; what the data does not cover becomes zero |
| Bytes.PutThenGet | src/filesystem/fat.cpp:817-819 | a stored little-endian word is read back, and no word beside it changes |
| Layout.WithEntryEffect | src/filesystem/fat.cpp:813-829 | rewriting one table entry through its sector changes that entry of the abstract table and nothing else: no other entry, no cluster, not the word past the table |
| Layout.PastEntryEffect | src/filesystem/fat.cpp:846-853 | rewriting the word just past the table leaves every entry alone; with one table copy it is the head of cluster 2, with more copies no cluster changes |
| Layout.DataWriteEffect | src/filesystem/fat.cpp:762-803 | rewriting one sector of a cluster changes exactly that sector of that cluster, no other cluster and no table entry |
| Layout.TestVolume | tests/unit/filesystem/test_fat32.cpp:137-180 | the volume the tests run on: a table of 2048 entries, clusters of 4096 bytes from sector 48 on, of which the numbers 2 to 123 lie on the disk |
| Layout.EntryOnDisk | src/filesystem/fat.cpp:805-811 | entry c of the abstract table is the little-endian word at byte 4c of the first table copy |
| Layout.ClusterOnDisk | src/filesystem/fat.cpp:707-734 | byte o of cluster c is byte o % 512 of sector o / 512 behind fatStart + tableSize * copies + perCluster * (c - 2); the cluster has data exactly when those sectors exist |
| Volumes.Volume.HasSectorsIff | src/filesystem/fat.cpp:762-803 | a cluster has data exactly when the disk has its sectors, and those clusters are the first ones |
| Volumes.Volume.GetNextCluster | src/filesystem/fat.cpp:805-811 | the 28 bits of the abstract entry, read through the c/128, c%128 addressing |
| Volumes.Volume.LinkNextCluster | src/filesystem/fat.cpp:813-821 | exactly one abstract entry becomes the given value; data and the rest of the table stay |
| Volumes.Volume.UnlinkCluster | src/filesystem/fat.cpp:823-829 | exactly the predecessor's entry becomes the cut mark 0x0FFFFF |
| Volumes.Volume.DeallocateCluster | src/filesystem/fat.cpp:861-875 | exactly the given entry becomes 0 |
| Volumes.Volume.Claim | src/filesystem/fat.cpp:851-854 | marking the word found free changes one entry, or the word past the table with its effect on cluster 2 |
| Volumes.Volume.AllocateCluster | src/filesystem/fat.cpp:840-859 | returns the first cluster whose low 28 bits are 0, its entry now 0x0FFFFFFF, whenever there is one; otherwise it returns 0 if and only if the word past the table is taken, and else hands out the number one past the table |
| Chains.AllocationPastIff | src/filesystem/fat.cpp:840-859 | a cluster that the table does not have is handed out exactly when none is free and the word behind the table looks free |
| Chains.FullTableInput | src/filesystem/fat.cpp:846 | the input: a full table of 128 entries with a zero word behind it; the answer is cluster 128 |
| FileSpec.AllocationBackedIff | src/filesystem/fat.cpp:840-859 | the cluster handed out has sectors exactly when a free cluster with sectors exists |
| FileSpec.GrowBackedIff | src/filesystem/fat.cpp:328-340 | a chain can be extended to a length with sectors behind every cluster exactly when that many free clusters with sectors exist |
| Chains.LowestFreeIs | src/filesystem/fat.cpp:846-855 | the first free entry met by the scan is the lowest free one; a scan that meets none proves there is none |
| Volumes.SectorSlice | src/filesystem/fat.cpp:707-734 | the sector transfer of a cluster read delivers exactly the wanted slice of the cluster |
| Volumes.Volume.ReadCluster | src/filesystem/fat.cpp:707-760 | for every offset and size in the cluster: exactly that slice arrives in the buffer, the rest of the buffer is untouched |
| Volumes.StepDisk | src/filesystem/fat.cpp:774-800 | one sector step of a cluster write, from the disk's sectors to the abstract clusters |
| Volumes.Volume.WriteCluster | src/filesystem/fat.cpp:762-803 | only that cluster changes: unchanged before the offset, then the buffer, then zeros to the end of the last touched sector, then unchanged |
| Content.OverwriteAt | src/filesystem/fat.cpp:785-793 | the written cluster byte by byte, including the zeroed rest of the last touched sector |
| Content.OverwriteRoundTrip | src/filesystem/fat.cpp:707-803 | a cluster write followed by a read of the same range gives the data back, and keeps what lies before it |
| Content.OverwriteJoin | src/filesystem/fat.cpp:774-800 | two adjacent writes that meet on a sector boundary are one write: the sector loop computes the whole write |
| Chains.EveryClusterOnce | include/filesystem/fat.h:44 | a volume is sound if and only if its chains are, no cluster is in two chains, and a cluster is free exactly when it is in none |
| Chains.ChainDistinct | src/filesystem/fat.cpp:304-313 | a chain that reaches an end mark never revisits a cluster, so the walks end |
| Chains.ChainUnique | src/filesystem/fat.cpp:304-313 | table and start cluster determine the chain |
| Chains.GrowCorrect | src/filesystem/fat.cpp:328-340 | extending a chain, completely or until the disk is full, keeps the volume sound, keeps the old chain as a prefix, takes only free clusters and changes no entry outside the chain |
| Chains.ShrinkCorrect | src/filesystem/fat.cpp:314-327 | cutting a chain keeps the volume sound, keeps a prefix, frees exactly the rest and changes no entry outside the chain |
| Chains.ResizeCorrect | src/filesystem/fat.cpp:297-340 | sizing a chain for any size: sound volume, prefix or extension of exactly the wanted length, freed and taken clusters, all other entries untouched, clusters conserved, also on the disk-full exit |
| Chains.ResizeOkIff | src/filesystem/fat.cpp:334-336 | the disk-full exit is taken exactly when fewer clusters are free than the chain still wants |
| Chains.ResizedEnd | src/filesystem/fat.cpp:314-340 | a chain that was cut ends in 0x0FFFFF, one that grew in 0x0FFFFFFF, and one that stayed leaves the table alone |
| Chains.Conservation | src/filesystem/fat.cpp:297-340 | free clusters plus the length of the changed chain stay the same |
| Chains.FreeAndOwn | src/filesystem/fat.cpp:297-340 | free clusters and one file's clusters are together exactly what the other files leave |
| Chains.NewFileWellFormed | src/filesystem/fat.cpp:480-483 | an allocated cluster is a sound one-cluster file that shares nothing with any other |
| Content.FlatRange | src/filesystem/fat.cpp:402-420 | the bytes of the j-th cluster of a chain are the bytes j*CS.. of the file |
| Content.FillReads | src/filesystem/fat.cpp:341-360 | copying a buffer along a chain cluster by cluster makes the chain read as the buffer |
| FileSpec.ReplaceReads | src/filesystem/fat.cpp:297-369 | after a complete WRITE of any length the chain has length/CS + 1 clusters and reads as exactly the buffer |
| FileSpec.ReplaceKeeps | src/filesystem/fat.cpp:297-369 | a WRITE keeps the volume sound, conserves clusters, leaves every other file's bytes alone, disk full or not, and succeeds exactly when enough clusters are free |
| FileSpec.AppendReads | src/filesystem/fat.cpp:248-296 | an APPEND, from any cluster of the file, keeps everything before its base, the size's offset in the handle's cluster, and puts the written part of the buffer there |
| FileSpec.AppendKeeps | src/filesystem/fat.cpp:248-296 | an APPEND from the last cluster keeps the volume sound, extends the chain with clusters that were free, leaves every other file alone, conserves clusters, and succeeds exactly when the clusters beyond the last one are free |
| FileSpec.AppendExtends | src/filesystem/fat.cpp:248-296 | with the handle on the cluster the next byte goes to, the contents become the old ones followed by the buffer |
| FileSpec.AppendBaseIff | src/filesystem/fat.cpp:251-261 | an APPEND starts writing at the file's size exactly when the handle's cluster is the one the next byte goes to |
| FileSpec.LandsAtSizeIff | src/filesystem/fat.cpp:226-261 | from the k-th cluster of a file whose last cluster takes the next byte, an APPEND starts at the file's size exactly when the k-th is the last |
| FileSpec.AppendSoundIff | src/filesystem/fat.cpp:268-288 | an APPEND from the k-th cluster keeps the volume sound exactly when that is the last one, or it needs no cluster behind it, or none is free; otherwise the clusters behind the k-th are in use and in no file |
| FileSpec.LinkedIff | src/filesystem/fat.cpp:252-275 | an APPEND links a cluster exactly when the buffer does not fit in the handle's cluster and a cluster is free |
| FileSpec.OpenedAppendOverwrites | src/filesystem/fat.cpp:226-261 | an APPEND right after open to a file of two clusters, the first of them full, overwrites the file's beginning |
| FileSpec.OpenedAppendInput | src/filesystem/fat.cpp:226-261 | the input: clusters 3 and 4, 512 bytes of 65, a 7 appended; the file then starts with 7 |
| FileSpec.AppendTailIff | src/filesystem/fat.cpp:252-288 | an APPEND leaves the file ready for the next one exactly when it wrote nothing or did not end on a cluster boundary |
| FileSpec.SecondAppendOverwrites | src/filesystem/fat.cpp:252-261 | an APPEND that fills the only cluster, then a second one, overwrites the file's beginning |
| FileSpec.ReadsContents | src/filesystem/fat.cpp:388-423 | a read from a handle in step with its position delivers the file's bytes from there |
| FileSpec.SyncKeptIff | src/filesystem/fat.cpp:416-418 | a read leaves the handle in step exactly when it delivered nothing or did not stop on a cluster boundary |
| FileSpec.StandsOnLastByte | src/filesystem/fat.cpp:402-420 | after a read that delivered something the handle stands on the cluster of the last byte, (position - 1) / CS |
| FileSpec.ReadsCompose | src/filesystem/fat.cpp:388-423 | two reads with an in-step stop between them deliver what one read would, and leave the same handle |
| FileSpec.BoundaryRepeats | src/filesystem/fat.cpp:416-418 | after a stop on a cluster boundary the next read starts one cluster too early |
| FileSpec.ReadStaysIff | src/filesystem/fat.cpp:402-418 | a read asks only for clusters of the file exactly when the chain has the bytes asked for or ends in a mark of at least 0x0FFFFFF8 |
| FileSpec.CutReadIff | src/filesystem/fat.cpp:402-418 | on a chain cut by a WRITE, reading n bytes from the start asks only for clusters of the file exactly when it has n bytes |
| FileSpec.CutReadInput | src/filesystem/fat.cpp:402-418 | the input: clusters 3 and 4 recorded with 600 bytes, a WRITE of 10, a read of the 610 then recorded; it asks for cluster 0x0FFFFF |
| FileSpec.SeekSyncIff | src/filesystem/fat.cpp:431-448 | a seek leaves the handle in step exactly when it goes to 0 or starts on the first cluster |
| FileSpec.SeekBeyond | src/filesystem/fat.cpp:431-448 | a file of two clusters read into the second one and then sought to its start: the walk asks for a third cluster |
| FileSpec.SeekThenRead | src/filesystem/fat.cpp:388-451 | seek(p) from the first cluster, then read(n), delivers bytes p .. min(p + n, size) |
| FileSpec.WriteThenRead | src/filesystem/fat.cpp:297-423 | WRITE then a read of the same length from the start delivers exactly the buffer |
| Fat32Files.FileStore.CountClusters | src/filesystem/fat.cpp:299-313 | the walk counts the chain and finds its last and its last needed cluster |
| Fat32Files.FileStore.CutChain | src/filesystem/fat.cpp:314-327 | the unlink and free loop computes exactly the cut table |
| Fat32Files.FileStore.ExtendChain | src/filesystem/fat.cpp:328-340 | the allocate and link loop computes exactly the grown table and reports whether it got there |
| Fat32Files.FileStore.SizeChain | src/filesystem/fat.cpp:297-340 | count, cut and extend together compute the resized table |
| Fat32Files.FileStore.CopyOut | src/filesystem/fat.cpp:341-360 | the copy loop computes the filled clusters; its fallback that allocates behind the end of the chain is never reached |
| Fat32Files.FileStore.ReplaceContents | src/filesystem/fat.cpp:297-363 | the WRITE branch computes the abstract WRITE, with the handle's size, cluster and position, on both exits |
| Fat32Files.FileStore.AppendClusters | src/filesystem/fat.cpp:268-288 | the APPEND loop computes the growth and the filled clusters, up to where the disk is full, and leaves the handle on the new last cluster |
| Fat32Files.FileStore.AppendContents | src/filesystem/fat.cpp:248-288 | the APPEND branch computes the abstract APPEND from whatever cluster of the file the handle stands on, with the handle's size and cluster, on both exits |
| Fat32Files.FileStore.FindDirectoryEntry | src/filesystem/fat.cpp:973-1003 | finds the first record along the directory that names the file's first cluster |
| Fat32Files.FileStore.UpdateEntry | src/filesystem/fat.cpp:290-294 | writes the record back with the new size; only that cluster changes |
| Fat32Files.FileStore.Write | src/filesystem/fat.cpp:236-386 | the whole new state of volume, handle and chains, for every mode, exit and cluster the handle stands on, as a function of the old one; the volume stays sound unless an APPEND has a cluster to link behind one that is not the last |
| Fat32Files.FileStore.Read | src/filesystem/fat.cpp:388-423 | the bytes delivered, their number and the handle afterwards, for every position and size, across sectors and clusters, also when the chain is shorter than the recorded size; the rest of the buffer is untouched |
| Fat32Files.FileStore.Seek | src/filesystem/fat.cpp:426-451 | the cluster reached, END_OF_CHAIN exactly when the chain is too short, and an untouched handle on every failure |
| Fat32Files.FileStore.Close | src/filesystem/fat.cpp:454-456 | the handle is no longer valid |
| WriteAnswers.WriteDoes | src/filesystem/fat.cpp:297-369 | WRITE from a handle of any size: SUCCESS exactly when len/CS + 1 clusters can be had, else DISK_FULL; on success the file has that many and begins with the buffer, its record and the handle show the old size plus the length, and the handle stands at the start; on DISK_FULL no byte and nothing in the handle has changed |
| WriteAnswers.WriteReadsBack | tests/unit/filesystem/test_fat32.cpp:442-466 | overwriting a file, whatever it held and whatever its size, and reading as many bytes gives the buffer back |
| WriteAnswers.AppendDoes | src/filesystem/fat.cpp:248-296 | APPEND from any cluster of the file: SUCCESS exactly when the buffer fits into the rest of that cluster and the free ones, else DISK_FULL with what fits written; the bytes stand at size % CS of that cluster, the sizes grow by their number, the handle ends on the last cluster written, and the record is rewritten on success only |
| WriteAnswers.InsertDoes | src/filesystem/fat.cpp:371-381 | INSERT answers NOT_IMPLEMENTED and writes the record back with the handle's size; nothing else changes but the rest of its sector |
| WriteAnswers.WriteNotFound | src/filesystem/fat.cpp:242-246 | a record that begins with 0 makes every mode answer NOT_FOUND and change nothing |
| WriteAnswers.RecordFirst | src/filesystem/fat.cpp:973-1003 | the record written back is, along the path, the first whose first-cluster bytes name the file |
| WriteAnswers.ReadDoes | src/filesystem/fat.cpp:388-423 | what a read leaves, in numbers: the bytes from position % CS of the cluster stood on, as many as were asked for up to the recorded size and the chain's end, the position moved by their number, and the handle on the cluster of the last one, or on the end mark |
| WriteAnswers.SeekDoes | src/filesystem/fat.cpp:431-448 | a seek to p > 0 lands p / CS links behind the cluster stood on |
| Fat32Files.WriteOkIff | src/filesystem/fat.cpp:236-386 | WRITE, and APPEND from the last cluster, succeed exactly when the clusters they still need are free |
| Fat32Files.AppendedSoundIff | src/filesystem/fat.cpp:248-296 | an APPEND through a handle keeps the volume sound exactly when the handle stands on the last cluster, or no cluster is needed behind it, or none is free; in the last two cases no chain changes |
| Fat32Files.FailedWrite | src/filesystem/fat.cpp:334-336 | a WRITE that runs out of space changes no byte of any file or directory and no field of the handle; the clusters it took stay linked behind the file's |
| Fat32Files.FailedAppend | src/filesystem/fat.cpp:271-273 | an APPEND that runs out of space keeps the file's old bytes and its record with the old size, while the handle's size has grown |
| Fat32Files.WrittenContents | src/filesystem/fat.cpp:297-369 | a complete WRITE with its directory update: sound volume, the file reads as the buffer, every file and directory other than the two involved reads as before |
| Fat32Files.AppendedContents | src/filesystem/fat.cpp:248-296 | the same for a complete APPEND from the last cluster: old contents followed by the buffer |
| Fat32Files.WrittenRecord | src/filesystem/fat.cpp:363-367 | the directory record afterwards carries the new size and still names the file; the other records of its cluster survive exactly when the rest of its sector was zero |
| Fat32Files.SizeRightIff | src/filesystem/fat.cpp:358-367 | after a complete WRITE the size in the file's record is the number of bytes written exactly when the handle showed 0 before |
| Fat32Files.SizeDoubled | src/filesystem/fat.cpp:358-367 | the input: 51 bytes written to a file of 51 bytes; the record then says 102 |
| Fat32Files.CutFileReadIff | src/filesystem/fat.cpp:297-418 | after a complete WRITE that cut the chain, a read of the recorded size asks only for the file's clusters exactly when they have that many bytes |
| Records.UpdatedOwn | src/filesystem/fat.cpp:290-294 | the record written back reads as the old one with the new size |
| Records.NeighboursKeptIff | src/filesystem/fat.cpp:290-294 | writing a record back keeps all its neighbours if and only if nothing but zeros follows it in its sector |
| Fat32Wipes.NeighboursWiped | src/filesystem/fat.cpp:363-367 | a complete WRITE clears every record behind the file's in the same sector, whatever it holds |
| Fat32Wipes.ListingCut | src/filesystem/fat.cpp:290-294 | the write-back of a record that is not the last of its sector ends the directory behind it: it lists what was in front and the record itself |
| Fat32Wipes.FileLost | src/filesystem/fat.cpp:297-369 | after a complete WRITE to a file, a name listed only behind that file's record can no longer be found |
| Fat32Wipes.SecondFileLost | src/filesystem/fat.cpp:297-500 | two files made one after the other, then a short WRITE to the first: it succeeds, and the second file is gone |
| Fat32Fresh.FormattedTakesTwo | src/filesystem/fat.cpp:459-500 | a freshly formatted volume with two free clusters on the disk takes two files of different visible normal names, one after the other |
| Fat32Fresh.FreshFileLost | src/filesystem/fat.cpp:297-500 | so that run is one from a fresh volume: both are made, the first is written, the second is gone |
| Fat32Runs.RunRefines | src/filesystem/fat.cpp:213-500 | over every run by name of make_file, open and WRITE, open, seek to the end and APPEND, successful or out of space: the volume stays sound, no chain is named twice, and the root directory holds exactly the files meant to be there, each record with the meant size and each chain with the meant bytes |
| Fat32Runs.ReadAfterRun | src/filesystem/fat.cpp:213-451 | after every such run the path of a name leads to a file exactly when one is meant, the entry shows its size, and seek and read deliver its bytes |
| Fat32Runs.StepRefines | src/filesystem/fat.cpp:213-500 | one operation, by its answer, refines one update of a map from names to byte strings |
| Fat32Runs.WriteStep | src/filesystem/fat.cpp:297-369 | a WRITE through the opened handle: afterwards the entry, found through the rewritten record, shows the new size over the new bytes, and every other name stands for what it did; out of space, all names do |
| Fat32Runs.AppendStep | src/filesystem/fat.cpp:248-296 | the same for an APPEND from the place open and seek lead to |
| Fat32Runs.MadeRefines | src/filesystem/fat.cpp:459-500 | make_file adds an empty file under the normal form of its name and changes what no other name stands for |
| Fat32Runs.CanWrite | src/filesystem/fat.cpp:213-246 | in a sound directory an opened name leads back to the very record it was listed from, and the handle after seek stands on the last cluster |
| Fat32Runs.FormattedRefines | src/filesystem/fat.cpp:459-500 | a freshly formatted volume holds no files: a start for every run |
| Fat32Fresh.FreshRun | src/filesystem/fat.cpp:213-500 | on a freshly formatted volume with enough clusters on the disk, make_file, WRITE and APPEND to one name are a supported run, all succeed, and the volume then holds this file alone, with both pieces one after the other |
| Entries.SlotFound | src/filesystem/fat.cpp:973-1003 | where every chain is named by one record, the search for the first record naming a first cluster ends at the record the entry was listed from |
| Entries.RewrittenRecords | src/filesystem/fat.cpp:290-294 | the write-back of a record with zeros behind it gives the entries of that file the new size and changes no other record of the directory |
| Fat32Files.WrittenDirectory | src/filesystem/fat.cpp:363-367 | after a complete WRITE only the file's record was written back in the directory, and none of its table entries changed |
| Fat32Files.AppendedDirectory | src/filesystem/fat.cpp:290-294 | the same for a complete APPEND |
| Sessions.MakeNamed | tests/unit/filesystem/test_fat32.cpp:280-323 | make_file in the root through the code is the step of a run |
| Sessions.WriteNamed | tests/unit/filesystem/test_fat32.cpp:345-363 | open and WRITE through the code are the step of a run |
| Sessions.AppendNamed | src/filesystem/fat.cpp:213-451 | open, seek to the end and APPEND through the code are the step of a run |
| Sessions.ReadNamed | tests/unit/filesystem/test_fat32.cpp:326-336 | open, seek and read through the code deliver the bytes meant to be in the file from there on |
| Sessions.RootOnTwo | tests/unit/filesystem/test_fat32.cpp:174-175 | with the root directory on cluster 2 and a taken word behind the table, one table copy is enough for every step |
| Directories.ListedExactly | src/filesystem/fat.cpp:101-117 | a directory lists, in order, exactly the records before its first end marker that are not skipped, each as its own entry |
| Directories.ListedIff | src/filesystem/fat.cpp:101-117 | a record is listed exactly when no record up to it begins with 0, it does not begin with 0xE5, and the low four bits of its attribute byte are not all set; its entry shows the bytes of the record: name, attributes, size, first cluster and the cluster it is in |
| Directories.LongNameInput | src/filesystem/fat.cpp:101-117 | the input: a part of a long name, its 8.3 record, a deleted record and an end marker; one entry is listed |
| Directories.DirectoryIterator.constructor | src/filesystem/fat.cpp:32-39 | a new iterator has the whole listing ahead of it |
| Directories.DirectoryIterator.LoadCluster | src/filesystem/fat.cpp:41-59 | the buffer holds exactly the current cluster; an end mark finishes the iterator |
| Directories.LoadInsideIff | src/filesystem/fat.cpp:53-56 | the sectors of a cluster stay inside the iterator's buffer of 4096 bytes exactly when there are at most 8 |
| Directories.DirectoryIterator.LoadNextCluster | src/filesystem/fat.cpp:76-94 | moves to the next cluster of the chain, or finishes exactly at its end |
| Directories.DirectoryIterator.NextEntry | src/filesystem/fat.cpp:96-126 | delivers the first entry of what is ahead and leaves the rest, across clusters, and reports the end exactly when nothing is ahead; it terminates on every chain |
| Directories.DirectoryIterator.ConvertEntry | src/filesystem/fat.cpp:136-149 | the entry made of a record |
| Directories.DirectoryIterator.Reset | src/filesystem/fat.cpp:151-156 | the whole listing is ahead again, the same entries in the same order |
| Names.ConvertName | src/filesystem/fat.cpp:136-144 | the loop computes the decoded name: the first eight bytes without spaces, a dot, the last three without spaces, a terminator |
| Names.StoreName | src/filesystem/fat.cpp:898-925 | the loops store the encoded name in 11 bytes and touch no other byte |
| Names.StoredBytes | src/filesystem/fat.cpp:898-925 | the 11 bytes stored for a name with a dot: up to 8 bytes before its last dot, spaces, and at the end up to 3 bytes behind it, the terminator counting as one of them |
| Names.StoredWithoutDot | src/filesystem/fat.cpp:898-925 | without a dot, up to 8 bytes of the name and spaces |
| Names.StripAround | src/filesystem/fat.cpp:138-142 | reading a name leaves a space out wherever it stands, and keeps every other byte |
| Names.DecodeEncode | src/filesystem/fat.cpp:136-144 | storing any name and reading it back gives base[..8] without spaces, a dot, and ext[..3] without spaces |
| Names.NormalIff | src/filesystem/fat.cpp:898-925 | a name reads back as itself if and only if it has a dot, a base of at most 8, an extension of at most 3 and no spaces |
| Names.ReadsBackIff | src/filesystem/fat.cpp:136-144 | a stored name reads back as given exactly when it has a last dot with at most 8 bytes before it and at most 3 behind it, and no space |
| Names.NormalIdempotent | src/filesystem/fat.cpp:136-149 | what is read back is normal, so normalising twice changes nothing more |
| Paths.Strcmp | include/common/path_utils.hpp:18-25 | true exactly when the two NUL-terminated strings are equal |
| Paths.Strlen | include/common/path_utils.hpp:28-32 | the length of the NUL-terminated string |
| Paths.GetIndex | include/common/path_utils.hpp:69-77 | the last position of the character, or -1 |
| Paths.SplitPath | include/common/path_utils.hpp:36-67 | for every path: false exactly when it is not absolute; otherwise the first max_components non-empty segments, each cut at 255, terminated |
| Paths.MergePath | include/common/path_utils.hpp:107-119 | the two strings, with a slash between them unless the first ends in one |
| Paths.SegmentsOfMerged | include/common/path_utils.hpp:36-119 | merging a name onto an absolute path adds exactly that name as the last segment |
| Paths.SplitMerged | include/common/path_utils.hpp:36-119 | split(merge(p, f)) is split(p) followed by f, within the component limit |
| Paths.SplitPathOf | include/common/path_utils.hpp:36-119 | splitting undoes joining for every list of names |
| Paths.SplitPathAt | include/common/path_utils.hpp:36-67 | a joined path splits into its first n names, each cut to 255 bytes |
| Paths.SegmentsSplit | include/common/path_utils.hpp:44-64 | what was read up to a slash is a segment unless it is empty, so slashes in a row or at an end separate nothing |
| Paths.SegmentsAreNames | include/common/path_utils.hpp:44-64 | splitting never yields an empty segment or one with a slash |
| Fat32Tree.Fat32.FindNamed | src/filesystem/fat.cpp:638-656 | the iterator loop finds the first entry of the directory with the name, or none |
| Fat32Tree.Fat32.Stat | src/filesystem/fat.cpp:624-663 | INVALID_FILESYSTEM when not mounted, INVALID_PATH for a path that is not absolute, and otherwise the recursive lookup of its first 16 components from the root |
| Fat32Tree.Fat32.StatThrough | src/filesystem/fat.cpp:635-662 | by the first record of the root that is seen under the first component: a path of one component answers with what the record says; a longer one is the lookup of the rest in the directory it names if bit 0x10 of its attribute byte is set, and NOT_A_DIRECTORY if not |
| Lookups.LookupThrough | src/filesystem/fat.cpp:635-662 | the same for a lookup from any directory, so for every level of a path |
| Lookups.LookupMissing | src/filesystem/fat.cpp:657-662 | with no record seen under the first component the answer is NOT_FOUND |
| Lookups.FoundIs | src/filesystem/fat.cpp:635-645 | the entry found is that of the first record that is seen under the name |
| Fat32Tree.Fat32.Open | src/filesystem/fat.cpp:213-234 | the handle stands at the start of the file that stat finds, with the fields of its record; a record whose directory bit 0x10 is set answers NOT_A_FILE; every error leaves the handle alone |
| Slots.NewRecordFields | src/filesystem/fat.cpp:919-930 | the new record carries name, attributes, first cluster and size in its fields |
| Slots.PutInFirst | src/filesystem/fat.cpp:889-935 | a new record goes over the first record along the chain that begins with 0 or 0xE5: the 11 name bytes, byte 11, the first cluster in bytes 26, 27, 20 and 21 and the size in bytes 28 to 31 are new, and no other byte of any cluster changes |
| Slots.InsertListing | src/filesystem/fat.cpp:895-935 | what a directory lists after a record is put into its first free slot; behind an end marker, stale records come to light |
| Fat32Tree.Fat32.StoreRecord | src/filesystem/fat.cpp:897-930 | the stores fill exactly the 32 bytes of the slot and keep the record's times |
| Fat32Tree.Fat32.FillSlot | src/filesystem/fat.cpp:895-936 | the first free record of the cluster is filled, or nothing changes and there is none |
| Fat32Tree.Fat32.CreateDirectoryEntry | src/filesystem/fat.cpp:877-971 | the entry goes into the first free record along the chain; with none, into a new cluster that is linked to itself; DISK_FULL changes nothing |
| Lookups.GrowthUnlisted | src/filesystem/fat.cpp:951-962 | an entry stored in that self-linked cluster never shows up in the directory |
| Lookups.CreatedListing | src/filesystem/fat.cpp:877-971 | on a clean slot exactly the new entry is added to the listing |
| Lookups.CreatedLookup | src/filesystem/fat.cpp:459-500 | the new name is found if and only if it is a normal 8.3 name that does not start with the deleted mark; every name other than its normal form is looked up as before |
| Lookups.CreatedPut | src/filesystem/fat.cpp:489-497 | the record make_file stores has the attribute byte 0x20, the new cluster and size 0 |
| Lookups.MadeFile | src/filesystem/fat.cpp:459-500 | make_file in the root: sound volume, a first cluster that was the first free one and is now an end of chain for every reader, stat of the path finds an empty file with the attribute 0x20 exactly for visible normal names, all other root paths answer as before |
| Fat32Tree.Fat32.NewFile | src/filesystem/fat.cpp:479-499 | allocation and directory entry together, or DISK_FULL with nothing changed |
| Fat32Tree.Fat32.MakeFile | src/filesystem/fat.cpp:459-500 | for every path: the exact error with nothing changed, or the first free cluster as an end of chain, and in the first free record of the directory that holds the path's own record (of the root for "/") a record with the name, the attribute 0x20, that cluster and size 0; no other byte changes |
| Fat32Beside.MadeBeside | src/filesystem/fat.cpp:473-497 | make_file below a directory other than the root: whatever the names, a lookup of the directory and then the name does not find the new file; a lookup of the name beside the directory does, if nothing had it and it is visible and normal |
| Fat32Beside.BelowPath | src/filesystem/fat.cpp:459-463 | the components of the new file's full path are the two names |
| HeapBlocks.MallocKeepsIff | src/memory_management.cpp:45-66 | malloc keeps the heap tiled exactly, with no two free neighbours, if and only if the gap in front of the address fits in its byte or the block is not split; alignments up to 256 are safe |
| HeapBlocks.TilingLostInput | src/memory_management.cpp:50-62 | the input: 16 bytes at a multiple of 512 from a fresh heap at 0x1000; the block ends at 0x1110 and the next header is at 0x1210 |
| HeapBlocks.FreeKeeps | src/memory_management.cpp:71-94 | free of a block keeps the heap tiled, with no two free neighbours |
| HeapBlocks.RunKeeps | src/memory_management.cpp:30-94 | over every run of malloc, with gaps that fit in their byte or without a split, and free of addresses handed out without a gap: exact tiling, no free neighbours, no byte lost, at most 2 * live + 1 blocks |
| HeapBlocks.RunBooks | src/memory_management.cpp:30-94 | over every run with default alignment, what was asked for and not released is exactly what is in use, with room for every byte |
| HeapBlocks.OutstandingApart | src/memory_management.cpp:30-94 | the bytes of an outstanding address lie in the heap, apart from every header and from every other outstanding address's bytes |
| HeapBlocks.MallocLive | src/memory_management.cpp:66-68 | malloc without a gap adds exactly the address handed out to the live ones |
| HeapBlocks.FreeLive | src/memory_management.cpp:71-94 | free takes exactly the freed address from the live ones |
| HeapBlocks.FreeDoes | src/memory_management.cpp:71-94 | what free leaves: one free block over the freed one and its free neighbours, their headers of 20 bytes becoming space; every other block stays |
| HeapBlocks.FreeUndoesMalloc | src/memory_management.cpp:52-94 | freeing the block just handed out without a gap restores the list of blocks |
| HeapBlocks.ReleaseAll | src/memory_management.cpp:71-94 | freeing all live blocks of a heap without gaps, in any order, leaves the initial heap |
| HeapBlocks.ReleaseAllAfterRun | src/memory_management.cpp:30-94 | after any run with default alignment from a fresh heap, freeing all that is outstanding, in any order, leaves the fresh heap |
| HeapBlocks.MallocChoice | src/memory_management.cpp:35-42 | malloc fails exactly when no free block is strictly larger than the request; otherwise it takes the lowest such block |
| HeapBlocks.MallocDoes | src/memory_management.cpp:35-68 | what malloc leaves of the first free block strictly larger than the request: with at least 21 bytes to spare behind the gap byte and the request, a block of just that size and a free rest right behind the requested bytes; else the whole block; every other block stays |
| HeapBlocks.MallocAligned | src/memory_management.cpp:45-47 | for a power of two the address is the next multiple of it behind the 20-byte header |
| HeapBlocks.PayloadInsideIff | src/memory_management.cpp:36-66 | the bytes handed out lie inside their block exactly when the gap fits in its byte or is not needed for a split, and fits in the block; without alignment they always do |
| HeapBlocks.PayloadOutsideInput | src/memory_management.cpp:36-66 | the input: a heap of one block of 32 bytes, 16 bytes asked for at a multiple of 64; the address lies behind the heap |
| LinearAllocation.FreeReachesIff | src/memory_management.cpp:50-75 | free of the address handed out reaches the block's header exactly when there is no gap or the byte found in front of the address happens to be the whole gap, so never from 256 on; if that byte is 0 it reaches no header |
| LinearAllocation.FreeAfterMallocIff | src/memory_management.cpp:45-75 | the same condition on the request: freeing what malloc returns leads back to the block it chose exactly when the gap is 0 or the byte found equals it |
| LinearAllocation.FreeNeverInput | src/memory_management.cpp:50-75 | the input: 16 bytes at a multiple of 512 from a block of 32 bytes at 0x10EC; the gap is 256, the byte kept of it 0, and no byte leads free back |
| LinearAllocation.FreeMissesInput | src/memory_management.cpp:74-75 | the input: 16 bytes at a multiple of 64 from a fresh heap at 0x1000; with a zero byte, free goes to 0x102C |
| Masks.MaskIsAlignUp | src/memory_management.cpp:46-47 | for power-of-two alignments the mask expression is the rounding up |
| Masks.AlignUpLeast | src/memory_management.cpp:46-47 | which is a multiple of the alignment, and the least one not below the address |
| Masks.NoPowerInput | src/memory_management.cpp:46-47 | for an alignment that is no power of two it is not: 5 aligned to 3 is 5 |
| LinearAllocation.LinearAllocator.constructor | src/memory_management.cpp:7-21 | one free block over the whole area, or an empty list when not even a header fits |
| LinearAllocation.LinearAllocator.FindChunk | src/memory_management.cpp:35-43 | the list walk finds the first block that fits |
| LinearAllocation.LinearAllocator.AlignedAddress | src/memory_management.cpp:45-50 | for every alignment, the 32-bit sums do not wrap, and the padding byte is the gap modulo 256 |
| LinearAllocation.LinearAllocator.Malloc | src/memory_management.cpp:30-69 | the header stores compute the abstract malloc, for every alignment whose gap fits in its byte; next and prev stay inverse along the whole list |
| LinearAllocation.LinearAllocator.SplitChunk | src/memory_management.cpp:52-65 | the new header is linked in both directions |
| LinearAllocation.LinearAllocator.MergePrev | src/memory_management.cpp:78-85 | unlinking a block into its free predecessor keeps the list linked both ways |
| LinearAllocation.LinearAllocator.MergeNext | src/memory_management.cpp:87-93 | so does absorbing a free successor |
| LinearAllocation.LinearAllocator.Free | src/memory_management.cpp:71-94 | for every address whose header the double lookup reaches, the header stores compute the abstract free |
| TransmitRing.StepKeeps | src/drivers/intel_82540em.cpp:60-91 | every step of driver and card keeps the ring invariant |
| TransmitRing.Delivery | src/drivers/intel_82540em.cpp:60-91 | under any interleaving the card has sent a prefix of the accepted packets, in order and unaltered, and the slots from TDH on hold exactly the rest |
| TransmitRing.NoOverwrite | src/drivers/intel_82540em.cpp:63-77 | no step touches the buffer of a packet whose DD bit is still clear |
| TransmitRing.PendingSlot | src/drivers/intel_82540em.cpp:63-77 | packet j waits in slot j % 256: its descriptor has the command 0x0B, DD clear and the packet's length, and its buffer begins with the packet |
| TransmitRing.AcceptIff | src/drivers/intel_82540em.cpp:63-66 | a packet is taken exactly when fewer than 256 are without their write-back |
| TransmitRing.CardSeesWorkIff | src/drivers/intel_82540em.cpp:82-83 | TDH and TDT differ exactly when packets are pending and fewer than 256 |
| TransmitRing.WedgedForever | src/drivers/intel_82540em.cpp:60-91 | with 256 packets pending nothing is ever sent or accepted again, whatever either side does |
| TransmitRing.BurstWedges | src/drivers/intel_82540em.cpp:60-91 | 256 calls before the card moves reach that state, for every choice of packets |
| TransmitRing.Drains | src/drivers/intel_82540em.cpp:60-91 | with fewer than 256 pending, the card alone sends and acknowledges everything |
| TransmitRing.DrainsIff | src/drivers/intel_82540em.cpp:60-91 | the pending packets can still be sent if and only if they are fewer than 256 |
| TransmitRing.TransmitQueue.constructor | src/drivers/intel_82540em.cpp:282-319 | tx_setup leaves every descriptor done and both registers 0 |
| TransmitRing.TransmitQueue.SendPacket | src/drivers/intel_82540em.cpp:60-91 | with the card running between any two accesses: the packet is appended to the accepted ones or refused, refused only if 256 were unacknowledged, and the invariant holds throughout |
| TransmitRing.CopyInsideIff | src/drivers/intel_82540em.cpp:68-72 | the copy loop stays inside the slot's buffer exactly when the packet has at most 2048 bytes |
| Multitasking.ContextPreserved | src/multitask.cpp:45-56 | over every run: a task interrupted at one tick and next chosen at another is resumed with exactly the context it was interrupted with |
| Multitasking.FirstContext | src/multitask.cpp:37-56 | a task chosen for the first time gets the context it was added with |
| Multitasking.FirstTickDropped | src/multitask.cpp:49-51 | the context arriving with the first tick belongs to no task and is not kept |
| Multitasking.NoTasks | src/multitask.cpp:45-48 | over every run: as long as nothing was added, a tick resumes exactly the context it arrived with and the schedule stays empty |
| Multitasking.Fair | src/multitask.cpp:37-56 | every added task is chosen within 256 ticks, whatever is added in between |
| Multitasking.RoundRobin | src/multitask.cpp:52-54 | with n tasks the slots follow one another cyclically |
| Multitasking.OncePerRound | src/multitask.cpp:52-54 | in any n consecutive ticks each of n tasks' slots runs exactly once |
| Multitasking.TaskManager.AddTask | src/multitask.cpp:37-43 | the task goes behind the others, or is refused exactly when 256 are present, and the slots and fields are otherwise as before |
| Multitasking.TaskManager.Scheduler | src/multitask.cpp:45-56 | without tasks the context that arrived; else that context is kept in the current task, if there is one, and the next slot's is resumed, the first after the last |

## Left out

- Fat32Files.FileStore.Write: asks that the file's record is in the directory searched, since the search has no exit at
  the end of the chain; that the clusters it writes to have sectors; and that the scan of the allocator cannot run past
  the table: either enough clusters are free or the word there is taken.
- Fat32Files.FileStore.FindDirectoryEntry: asks that the record exists, for the same reason.
- Fat32Files.FileStore.Read: asks for a handle on a cluster of the file's chain, and for a chain that is long enough for
  the bytes asked for or ends in a mark of at least 0x0FFFFFF8; beyond another mark the code reads clusters that are
  none, which is stated by ReadStaysIff and not followed further.
- Disks.Disk.Read28: asks for an existing sector and at most 512 bytes, as every caller does; the answers INVALID_SECTOR
  and INVALID_SIZE and the errors of the device are not modelled.
- Disks.Disk.Write28: the same.
- Fat32Runs.RunRefines: covers WRITE to files recorded as empty, APPEND to files whose last cluster takes the next byte,
  writes to files with nothing but zeros behind their record in its sector, new names whose normal form is free and
  visible and for which there is a clean record, and volumes with enough clusters on the disk or none beyond it. What
  happens otherwise is stated by the conditions above. INSERT is no step of a run. All files are in the root directory.
- Sessions.MakeNamed: asks for a free cluster or a taken word behind the table, so that the allocator cannot run past
  the table; Sessions.WriteNamed likewise for enough free clusters or that word.
- Sessions.AppendNamed: likewise; without enough free clusters, the word must also stay as it is while data is written,
  which two table copies or a cluster 2 that belongs to another chain ensure.
- Directories.DirectoryIterator.constructor: asks for a volume with at most 8 sectors per cluster.
- Fat32Beside.MadeBeside: asks for a free record from the directory's own cluster on, with nothing stale behind it, and
  for a directory that is not recorded as its own parent.
- Fat32Tree.Fat32.FindNamed: asks for a sound directory chain whose last mark the iterator recognises, as Stat does.
- Fat32Tree.Fat32.Stat: asks that every directory the path leads through is a sound chain that ends in a mark of at
  least 0x0FFFFFF8, which is what the iterator recognises; a chain cut by WRITE ends in 0x0FFFFF, which it does not.
- Fat32Tree.Fat32.CreateDirectoryEntry: asks that a free record is reached: in the chain, or in the old contents of the
  cluster taken for growth. Otherwise the source keeps taking clusters.
- Fat32Tree.Fat32.MakeFile: asks for a free record in the directory it writes to. Under a path other than "/" that is
  the directory holding the record of the path, as in the code. Names have at most 255 bytes and paths fewer than 4096,
  the sizes of the buffers they are copied to.
- TransmitRing.TransmitQueue.SendPacket: takes packets of at most 2048 bytes, the size of a slot's buffer.
- Paths.MergePath: asks for a non-empty first string; for an empty one the source looks at the byte in front of it.
- LinearAllocation.LinearAllocator.Malloc: asks that the gap fits in its byte or nothing is split; in the other case the
  list of blocks is the one MallocKeepsIff speaks about, and the headers in memory are not followed further. Sums with an
  alignment stay below 2^32.
- Sizes and layout: the table and cluster 2 lie on the disk, and the table has at most 0x0FFFF8 entries, because
  IS_END_OF_CHAIN is `>= 0x0FFFF8`. Sectors have 512 bytes.
- Disk errors: the source ignores them, the model has none. A read past the end of the disk does not occur.
- Temporary buffers: their allocation always succeeds, and the sector buffer that allocate_cluster does not free is not
  accounted for.
- Buffers written to disk are values, so a caller's buffer that overlaps driver memory is not modelled.
- The allocator's headers are a map from addresses; payload bytes are not in it, except for the one that free looks at
  in front of an address. Releasing a block with a gap is not a step of a run.
- The card is the part of the hardware that the ring depends on: wire format, short-packet padding, the checksum, and
  descriptor caching are not modelled. The second look at the status after send_packet only prints.
- A task's registers stay on its own stack; the scheduler moves their address. Task construction and the interrupt
  entry code are not modelled.
- mount, detect, unmount and the boot sector: the geometry is given.
- delete_file, delete_directory, delete_dir_entry: they mark another record than the one found and free no clusters.
- make_directory, open_directory, print_list_directory, exists: they combine operations modelled here.
- WRITE_MODE INSERT only rewrites the record and answers NOT_IMPLEMENTED; no shifting is done by the code.
- zero_cluster, split_filename_ext, safe_strcpy, match_filename: not called by the operations modelled.
- The receive ring, PHY, EEPROM, interrupts, ports, PCI, descriptor tables, keyboard, mouse, screen and GUI.
- Timestamps, long file names and further copies of the table: not kept by the code.
- The method called `next` in the iterator is NextEntry here.
