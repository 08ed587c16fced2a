# ContinuumOS kernel models

Models of the stateful algorithms of the ContinuumOS kernel, with the properties they keep. Each
module follows one part of the system; operations that the kernel carries out in place are methods on
classes with the kernel's fields, proved against functions on values, and the promises of the system
are lemmas about these functions.

- **FAT32** (`FatTable`, `FatVolume`, `FatData`): the allocation table, its cluster chains and the
  clusters of the device, which may refuse any access. A volume is `intact` while no write has failed;
  on a `reliable` one neither the device nor memory ever refuses, so that an operation can only fail
  for a reason of its own. `FatFile` and `FatCursor` are the open file and what it refines: one byte
  sequence with a cursor. `FatSlot`, `FatLongName` and `FatShortName` are the 32-byte slots, long names
  and 8.3 aliases; `FatListing`, `FatDirData`, `FatSearch` and `FatDirectory` reading and changing
  directories; `FatTree`, `FatItems`, `FatSteps`, `FatEdits` and `FatLookup` the tree of directories in
  which no chain has two owners; `FatCommands` and `FatOwners` what the operations mean for
  the tree, for one another and for the chains' owners; `FatFs` the operations themselves.
- **Memory** (`Heap`, `Frames`, `Paging`): the first-fit heap with in-band headers, the frame bitmap,
  and the two-level page tables that take their frames from it.
- **Processes** (`Process`, `Lottery`, `Scheduler`): the self-repairing event ring and the hooks of a
  process, the lottery, and the protocol of polling, waiting, waking, focus and exit. Steps are atomic
  because the kernel runs them with interrupts off.
- **Paths** (`VfsPath`, `Vfs`): splitting, resolving and normalising paths, the mount table and the
  working directory.
- **Line editor** (`EditorText`, `Editor`): the array of rows as one flat text with one cursor, and its
  file format.

`dafny verify dfyconfig.toml` checks everything. `Machine` and `Counting` hold 32-bit arithmetic and the
pigeonhole principle.

## Findings

Where the code does not do what it is for, the model keeps the code and states exactly when it does.

| where | what the code does | failing input | right exactly when | proved by |
|---|---|---|---|---|
| src/kernel/fat32.cpp:1338-1344 | a read whose end wraps in 32 bits delivers slack behind the end of file | a file of 100 bytes in a cluster of 512, 0xFFFFFFFF bytes read at 50 | the cursor is at the end, nothing wraps, or there is no slack | `FatFile.ReadIsExact`, `FatFile.SlackIsRead` |
| src/kernel/fat32.cpp:68-69 | long names decode to their first 13 characters, with `?` for what is not ASCII | 14 times `A` | ASCII of at most 13 characters | `FatLongName.DriverRoundTrip`, `FatLongName.DriverKeepsShortNames`, `FatLongName.IntendedRoundTrip` |
| src/kernel/fat32.cpp:769-777 | a failed write links a chain to a freed cluster | any chain that is extended on a device which refuses to clear the new cluster | the new cluster starts a chain of its own, or the write succeeds | `FatTable.FailedExtendBreaksChain`, `FatTable.FailedClaimIsHarmless`, `FatTable.ExtendKeepsWellFormed` |
| src/kernel/fat32.cpp:811-842 | an entry is deleted the moment it is written, and the chain of such a directory has no owner | the name of the byte 0xE5 | the name does not begin with 0xE5, has no plain 8.3 form, or that form is taken | `FatSearch.DeletedOnArrival`, `FatSearch.MarkedNameIsLost`, `FatSteps.WrittenAddsItem`, `FatOwners.DoneKeepsOwners` |
| src/kernel/fat32.cpp:143-224 | long entries left behind by a name that is deleted on arrival give their name to the next plain entry | the name of 0xE5 and `o`, then the name `B`, which is listed as `?o` | no complete long name with an equal checksum stands in front of the entry | `FatSearch.PlainIsShown`, `FatListing.OrphanTakesOver`, `FatSearch.OrphanRenames` |
| src/kernel/heap.cpp:20-22 | the rounded size wraps to 0 and a block of any size is handed out | 0xFFFFFFFF bytes | sizes up to 0xFFFFFFF0 | `Heap.AlignCovers` |
| src/kernel/heap.cpp:118 | the copy of a resize overruns its block | a live block of 64 bytes in front of a free one of 16, resized to 0xFFFFFFFF | sizes up to 0xFFFFFFF0, nothing fits, or the block given is large enough | `Heap.KernelHeap.Krealloc`, `Heap.CopyOverruns` |
| src/kernel/heap.cpp:83-95 | free neighbours stay apart | the middle of three blocks behind a free one | the block in front was in use | `Heap.MergesForwardOnly`, `Heap.FreeNeighboursRemain` |
| src/kernel/memory.cpp:71-77 | the count of used frames drifts | a frame that is released twice | the released frame was in use | `Frames.FrameAllocator.Free`, `Frames.FreeTwice` |
| src/kernel/paging.cpp:145-179 | the page count of a range wraps | 0xFFFFF001 bytes from address 0 | rounding up stays within 32 bits | `Paging.CountCovers`, `Paging.LargestRangeIsEmpty` |
| src/kernel/scheduler.cpp:160-168 | a process that waits for its own signal by hand sleeps on pending events | one event pending and no hook yet | nothing pending, another hook, or no room for the hook | `Scheduler.Kernel.YieldForEvent`, `Scheduler.WakeUpsAreLost` |
| src/kernel/pci.cpp:350-405 | an event is queued without waking its process | a process that waits for its own signal | the process does not wait for its own signal | `Scheduler.Kernel.PushAlone`, `Scheduler.WakeUpsAreLost` |
| src/kernel/vfs.cpp:642-644 | a `.` in a longer path never ends | `.` in the root directory | no `.` before 32 components are reached | `VfsPath.HangsAtReachedDot`, `Vfs.NormalizedIsMeaning`, `Vfs.LoneDotHangs`, `Vfs.DotAtRootHangs` |
| src/kernel/vfs.cpp:198-235 | changing to `..` succeeds and stays where it was | a working directory of 32 components `a` | fewer than 32 components in the working directory | `Vfs.TwiceIsOnce`, `Vfs.DeepParentStays` |
| src/kernel/vfs.cpp:618-671 | paths of more than 32 components are cut | 33 components `a` | at most 32 | `VfsPath.PlainPathsAreCut`, `VfsPath.ThirtyThreeAreCut` |
| src/user/editor.cpp:445-467 | joining lines drops what does not fit | `b` joined to 127 times `a` | the joined line has at most 127 characters | `EditorText.ErasedIsDelete`, `EditorText.JoinLoses` |
| src/kernel/fat32.cpp:1381-1486 | a write that runs out of clusters leaves a chain that no entry names | the empty file `A`, with one cluster claimed for it and nothing recorded | the file had a chain before, or the write completed | `FatOwners.EditedOwners`, `FatOwners.UnrecordedIsUnowned`, `FatOwners.RefusedKeepsOwners` |
| src/kernel/fat32.cpp:1027-1206 | an entry is not found under the path it was made with, and can be made there again | 14 times `A`, the byte 0xE5, `..` | no dot name, not deleted on arrival, and ASCII of at most 13 characters or spelled by its free plain short form | `FatCommands.MadeIsFound`, `FatCommands.LostNamesAreMadeTwice`, `FatCommands.NamesThatAreLost`, `FatCommands.LongNamesAreMadeTwice` |
| src/kernel/fat32.cpp:2014-2031 | a directory that is not empty is removed, and the chains its entries own are lost | an entry made as `..` in an empty directory | nothing but the dot entries is shown as `.` or `..` | `FatFs.FileSystem.Rmdir`, `FatCommands.EmptyDirs`, `FatCommands.HiddenEntry`, `FatOwners.RemovedOwners` |

Entries made under dot names are found by their alias (`FatCommands.FoundByAlias`, `FatCommands.AliasOfDots`). Only
direct callers of the file system can make them: paths that come through the VFS are canonical and have no
such components (`Vfs.NormalizedIsCanonical`, `Vfs.RelativeRebuilds`).

## Model

| member | source | states |
|---|---|---|
| FatTable.ChainIsAcyclic | src/kernel/fat32.cpp:740-754 | A chain that ends, at whatever value stops the driver (0, 1 or the end marker), never visits a cluster twice. |
| FatTable.ChainIsUnique | src/kernel/fat32.cpp:740-754 | The table determines a chain: two chains that start at the same cluster are the same. |
| FatTable.ExtendGrowsChain | src/kernel/fat32.cpp:764-789 | Hanging a cluster that is not on a chain behind its tail gives a proper chain that is one cluster longer. |
| FatTable.ExtendKeepsWellFormed | src/kernel/fat32.cpp:756-794 | Extending one of the chains with a free cluster keeps all chains in range, linked and pairwise disjoint; only that chain has changed. |
| FatTable.ClearKeepsWellFormed | src/kernel/fat32.cpp:796-809 | Releasing one chain keeps all the others in range, linked and disjoint. |
| FatTable.FailedExtendBreaksChain | src/kernel/fat32.cpp:769-777 | When clearing the new cluster fails, the predecessor stays linked to a freed cluster: neither the old chains nor the grown ones are well formed any more. |
| FatTable.FailedClaimIsHarmless | src/kernel/fat32.cpp:769-777 | Without a predecessor the same failure leaves a well-formed table with as many clusters accounted for. |
| FatTable.RunConserves | src/kernel/fat32.cpp:756-809 | Over every sequence of successful claims, extensions and releases the chains stay well formed and acyclic, and free plus chained clusters is constant. Failed writes and the choice of the cluster are covered by `Volume.AllocateCluster`. |
| FatTable.FreedExactly | src/kernel/fat32.cpp:796-809 | Zeroing each visited entry before following its old link ends on every table the walk does not leave, cyclic ones included, and clears exactly the entries reachable from the start. |
| FatTable.FreedChain | src/kernel/fat32.cpp:796-809 | On a proper chain freeing from its head clears that chain and no other entry. |
| FatVolume.Volume.GetNextCluster | src/kernel/fat32.cpp:683-694 | The low 28 bits of the entry, or the end marker beyond the table. |
| FatVolume.Volume.GetLastCluster | src/kernel/fat32.cpp:740-754 | The last cluster of the chain that begins here, whether it ends at 0, 1 or the end marker; an end value is returned as it is. |
| FatVolume.Volume.AllocateCluster | src/kernel/fat32.cpp:756-794 | Takes the lowest free cluster, zeroes it on the device and either starts a chain or extends exactly the given one; every table copy on the device then equals the table. Without room nothing changes, and on a reliable volume it fails exactly when no cluster is free. No failure touches a used entry other than the predecessor's. |
| FatVolume.Volume.FreeClusterChain | src/kernel/fat32.cpp:796-809 | The loop ends on every contained table and leaves the table with exactly the reachable entries cleared, flushed to every copy if no write failed. |
| FatVolume.Volume.ReleaseChain | src/kernel/fat32.cpp:796-809 | Releasing a registered chain removes that chain, adds exactly its clusters to the free ones and keeps the number of clusters accounted for. |
| FatVolume.SpanFits | src/kernel/fat32.cpp:586-659 | A table of at most 255 sectors is too small for positions on a chain to overflow 32 bits. |
| FatVolume.Volume.Format | src/kernel/fat32.cpp:586-659 | A witness that well-formed volumes exist, which the code takes for granted when it mounts one: every cluster is free but the zeroed one of the root directory. |
| FatFile.OpenFile.constructor | src/kernel/fat32.cpp:1272-1319 | A fresh handle rests at position 0 of the chain and size its directory entry records. |
| FatFile.OpenFile.Read | src/kernel/fat32.cpp:1321-1379 | Delivers the next bytes of the chain up to the clamped count and advances by as many, from any resting place, cluster boundaries and the end of the chain included. Only a device failure prevents it. |
| FatFile.ReadIsExact | src/kernel/fat32.cpp:1338-1344 | A read delivers exactly the next min(count, remaining) bytes if and only if the cursor is at the end, position plus count does not wrap in 32 bits, or the last cluster has no slack. |
| FatFile.SlackIsRead | src/kernel/fat32.cpp:1338-1344 | A concrete read that wraps: 50 bytes are left, 462 are delivered. |
| FatFile.OpenFile.Seek | src/kernel/fat32.cpp:1488-1518 | The position becomes the target, or the size if the target lies beyond, and the handle points to the matching cluster and offset. |
| FatFile.OpenFile.Write | src/kernel/fat32.cpp:1381-1486 | The bytes that were transferred overwrite or extend the chain at the cursor, size and position follow, every other chain and cluster is untouched, and the entry on the device records start and size exactly if everything was transferred. On a reliable volume a short write happens only when no cluster is free. |
| FatFile.OpenFile.EnsureCluster | src/kernel/fat32.cpp:1402-1442 | The cursor is brought inside a cluster that takes a byte: the first cluster of an empty file, a cluster behind an exhausted tail, or the next one of the chain. The bytes on the chain change by added zeros only. |
| FatFile.OpenFile.UpdateEntry | src/kernel/fat32.cpp:844-870 | The directory entry on the device records exactly the start cluster and size of the handle; all other bytes of the device stay. |
| FatFile.ChunkSplice | src/kernel/fat32.cpp:1444-1476 | Writing a piece of one cluster, read first unless it is overwritten whole, splices it into the bytes of the chain at the cursor. |
| FatCursor.Perform | src/kernel/fat32.cpp:1321-1518 | Each seek, read and write on a descriptor does to contents and position what it does on one plain byte sequence; only reads that reach into the slack are excluded, by the exact condition of `ReadIsExact`. On a reliable volume only a write without free clusters fails. |
| FatCursor.Script | src/kernel/fat32.cpp:1321-1518 | Any script of seeks, reads and writes on one descriptor delivers what it delivers on the byte sequence and leaves the same contents and position. |
| FatSlot.WithExtent | src/kernel/fat32.cpp:844-870 | Start cluster and size read back from the slot as they were stored, and no other byte differs. |
| FatSlot.WithSlotSlots | src/kernel/fat32.cpp:117-256 | Replacing one 32-byte slot of a cluster replaces that element of its slot sequence. |
| FatLongName.Checksum | src/kernel/fat32.cpp:48-54 | The loop computes the rotate-and-add checksum over the 11 bytes of the short name. |
| FatLongName.FillChunk | src/kernel/fat32.cpp:475-547 | The 13 units of a long entry hold the name from the given place on, then one terminator, then 0xFFFF. |
| FatLongName.UnitsRoundTrip | src/kernel/fat32.cpp:475-547 | The five, six and two units scattered over the slot read back in order. |
| FatLongName.DecodeChunk | src/kernel/fat32.cpp:56-73 | The in-place decoder leaves the buffer with the units up to a terminator written at the offset, the extra terminator behind a full piece, and never touches the last byte. |
| FatLongName.GatherPrefix | src/kernel/fat32.cpp:161-227 | After any number of a name's entries in directory order the decoder expects the right number of pieces and has collected exactly those seen, with the right checksum. |
| FatLongName.DriverRoundTrip | src/kernel/fat32.cpp:161-227 | For every name of 1 to 255 bytes the written entries are accepted (count and checksum agree) and show the first 13 characters at most. |
| FatLongName.DriverKeepsShortNames | src/kernel/fat32.cpp:56-73 | The name comes back exactly if and only if it is ASCII and has at most 13 characters. |
| FatLongName.IntendedRoundTrip | src/kernel/fat32.cpp:56-73 | Without the extra terminator every name comes back whole, non-ASCII characters replaced. |
| FatShortName.DecimalInjective | src/kernel/fat32.cpp:337-364 | Different numbers have different digits. |
| FatShortName.CountDigits | src/kernel/fat32.cpp:328-335 | The loop counts the digits of the number. |
| FatShortName.DecimalToString | src/kernel/fat32.cpp:337-364 | The digits, produced backwards and then reversed, are those of the number. |
| FatShortName.SanitizeComponent | src/kernel/fat32.cpp:317-326 | Spaces dropped, other characters sanitised, cut to the maximum. |
| FatShortName.PlainShort | src/kernel/fat32.cpp:811-842 | A name of 8.3 form is upper-cased into 11 bytes that start with its own first character and never with a dot; `PlainShortSpells` says what they spell. |
| FatShortName.PlainShortSpells | src/kernel/fat32.cpp:75-109 | The plain short form is displayed as the name in upper case, without a dot at its end, and with 0xE5 for a byte 0x05 in front. |
| FatShortName.TildeSplits | src/kernel/fat32.cpp:366-438 | What follows the last tilde of an alias is its number, whatever the base. |
| FatShortName.CandidatesDiffer | src/kernel/fat32.cpp:366-438 | Different numbers give different aliases, shortened bases included. |
| FatShortName.AliasWithinReach | src/kernel/fat32.cpp:366-438 | In a directory of m short names one of the first m + 1 aliases is unused (pigeonhole). |
| FatListing.InsertOne | src/kernel/fat32.cpp:117-256 | Writing an entry with its long entries into a free run inserts exactly one item into the listing, at that place, or none if the entry is deleted on arrival; the items in front and behind are the same. |
| FatListing.InsertKeepsOk | src/kernel/fat32.cpp:1536-1671 | Insertion into a run that starts at the front or behind a live slot keeps the directory in order: no end marker in front of a live slot. |
| FatListing.OrphanTakesOver | src/kernel/fat32.cpp:143-224 | Long entries whose short entry was deleted on arrival stay behind; a plain entry that is made in its place with an equal checksum is listed under the other's name. |
| FatListing.DeleteOne | src/kernel/fat32.cpp:872-948 | Marking an entry and the long entries in front of it deleted removes exactly that item from the listing. |
| FatListing.DeleteKeepsOk | src/kernel/fat32.cpp:872-948 | Deletion keeps the directory in order. |
| FatListing.GrowKeeps | src/kernel/fat32.cpp:1585-1597 | A zeroed cluster behind a directory changes nothing that is listed. |
| FatDirData.SlotRewrite | src/kernel/fat32.cpp:1623-1671 | Rewriting one slot of a cluster on the device rewrites that one slot of the directory, wherever its chain is. |
| FatSearch.IterateCluster | src/kernel/fat32.cpp:132-245 | The inner loop reports the items of the scanned slots and stops at the first that the callback accepts. |
| FatSearch.Iterate | src/kernel/fat32.cpp:117-256 | The items handed to the callback are those of the listing up to the first it stops at, over any number of clusters, and the location is that item's slot. |
| FatSearch.FindEntry | src/kernel/fat32.cpp:1027-1078 | Finds the first item whose shown or short name matches case-insensitively, and where it is stored, or reports that there is none. |
| FatSearch.ShortNameExists | src/kernel/fat32.cpp:258-280 | True exactly if an item of the directory has that short name. |
| FatSearch.GenerateAlias | src/kernel/fat32.cpp:366-438 | The lowest-numbered unused alias; it is among the first m + 1, so a reliable volume gives none only when all numbers may be taken. |
| FatSearch.PrepareShortName | src/kernel/fat32.cpp:440-473 | The short name is absent from the directory and is the plain form of the name if that is free, printable ASCII otherwise; it marks a deleted slot exactly when the plain form is free and begins with 0xE5; long entries are written exactly when the name is not its short name or that one is taken. |
| FatSearch.DeletedOnArrival | src/kernel/fat32.cpp:811-842 | An entry with a plain short name is free the moment it is written if and only if the name begins with 0xE5. |
| FatSearch.MarkedNameIsLost | src/kernel/fat32.cpp:811-842 | The name that consists of the byte 0xE5 is such a name. |
| FatSearch.PlainIsShown | src/kernel/fat32.cpp:143-224 | A new entry without long entries is listed under its own name unless a complete long name with an equal checksum has been gathered in front of it, which is then shown instead. |
| FatSearch.OrphanRenames | src/kernel/fat32.cpp:143-224 | The name of 0xE5 and `o`, then the name `B`, both made in an empty directory: the only item listed is the second, shown as `?o`. |
| FatDirectory.ReserveInCluster | src/kernel/fat32.cpp:1564-1583 | One cluster of the search continues the run that may have begun in the clusters before, and stops at the first that is long enough. |
| FatDirectory.ReserveEntries | src/kernel/fat32.cpp:1536-1602 | Reserves the first run of free slots that is long enough, growing the directory by zeroed clusters; other chains stay. On a reliable volume it fails only if the directory has no such run and no cluster is free. |
| FatDirectory.WriteEntries | src/kernel/fat32.cpp:1623-1671 | The reserved slots hold the entries, all other slots of the directory and all clusters outside it are the same. |
| FatDirectory.FindPrevious | src/kernel/fat32.cpp:1604-1621 | The cluster in front of the given one in its directory, and 0 for the first one or for one that is not there. |
| FatDirectory.MarkDeleted | src/kernel/fat32.cpp:872-948 | Exactly the entry and the unbroken run of long entries in front of it are marked deleted, walking back over cluster boundaries. |
| FatTree.InsertKeepsTree | src/kernel/fat32.cpp:1714-1827 | Adding an item whose chain nobody owns keeps the tree: every directory in order, short names unique, every entry the only owner of its chain, depth increasing. |
| FatTree.DeleteKeepsTree | src/kernel/fat32.cpp:1829-1859 | Removing an item together with the chain it owns keeps the tree. |
| FatTree.RewriteKeepsTree | src/kernel/fat32.cpp:844-870 | Rewriting the extent of a file's item keeps the tree. |
| FatTree.NewDirKeepsTree | src/kernel/fat32.cpp:1861-1993 | A fresh chain that lists dot entries only may join the directories. |
| FatLookup.LookupPath | src/kernel/fat32.cpp:1080-1206 | Follows the path component by component through the tree: what is found is a listed item that is no dot entry, stored at the reported slot. Only a device failure makes it miss. |
| FatSteps.WrittenAddsItem | src/kernel/fat32.cpp:1714-1827 | The entries written for a name add exactly one item under a short name that is new to the directory, or none exactly if they are deleted on arrival; the item is shown by the first 13 characters of a long name, else by `PlainIsShown`; the tree stays well formed and no chain comes or goes. |
| FatSteps.FreshDirectory | src/kernel/fat32.cpp:992-1025 | A cluster filled with the two dot entries lists exactly these and is not part of the tree yet. |
| FatSteps.FormattedTree | src/kernel/fat32.cpp:586-659 | A witness that well-formed trees exist: on such a volume the zeroed root directory alone is one, with nothing in it. |
| FatSteps.FoundAgain | src/kernel/fat32.cpp:1027-1078 | A new entry is matched by the name it was made with if and only if that is ASCII of at most 13 characters, or its plain short form was free and spells it. |
| FatSteps.LongNamesAreLost | src/kernel/fat32.cpp:1027-1078 | A name of more than 13 characters is never matched by its own entry. |
| FatEdits.DeletedRemovesItem | src/kernel/fat32.cpp:1829-1859 | Freeing the chain and marking the run takes exactly that item out of the tree; all other listings and files are the same. |
| FatEdits.WriteKeepsTree | src/kernel/fat32.cpp:1381-1486 | A write through a handle keeps the tree, whether or not it was completed, and edits exactly that one item. |
| FatEdits.WriteEditsContents | src/kernel/fat32.cpp:1381-1486 | A completed write shows in the contents found through the directory entry as the splice at the clamped offset. |
| FatFs.FileSystem.Create | src/kernel/fat32.cpp:1714-1827 | Done means one new empty file in the parent directory where nothing was found before, its short name new, no other listing, file or chain changed; or no change at all, exactly if the name is deleted on arrival. Refused means nothing changed, and on a reliable volume that the path exists, the parent is no directory, the aliases may be used up, or the directory has no run of slots and no cluster is free. |
| FatFs.FileSystem.Mkdir | src/kernel/fat32.cpp:1861-1993 | Done means one new directory that lists only its dot entries, named by one new item of the parent; or, exactly if the name is deleted on arrival, one new chain that nobody names. If it is refused its cluster is given back; on a reliable volume only for the reasons of `Create`, or because no cluster was free. |
| FatFs.FileSystem.Remove | src/kernel/fat32.cpp:1829-1859 | Done means that exactly the file found under the path and its chain are gone. On a reliable volume this happens if and only if the path leads to a file. |
| FatFs.FileSystem.Rmdir | src/kernel/fat32.cpp:1995-2039 | Done means that exactly the directory found under the path is gone, with its chain. On a reliable volume this happens if and only if the path leads to a directory that shows nothing but `.` and `..`. |
| FatFs.FileSystem.WriteFile | src/kernel/fat32.cpp:1272-1534 | Opening, seeking, writing and closing edits the contents found under the path at the clamped offset and nothing else in the tree. On a reliable volume it opens exactly files, while descriptors last, and is cut short only when no cluster is free. |
| FatFs.FileSystem.ReadFile | src/kernel/fat32.cpp:1272-1534 | Opening, seeking, reading and closing changes nothing, and delivers the part of the contents found under the path if and only if the read begins at the end, does not wrap in 32 bits, or there is no slack. |
| FatFs.FileSystem.Perform | src/kernel/fat32.cpp:1714-2039 | Every command on closed files does exactly what it means or leaves the tree as it was (a write out of clusters edits only its own file), and the tree stays well formed. A completed command leaves a chain without an owner exactly if it made a directory that is deleted on arrival or removed one that listed an owner; a refused one only if it is a write to an empty file. On a reliable volume only impossible commands, or those without room, are refused. |
| FatFs.FileSystem.Script | src/kernel/fat32.cpp:1714-2039 | Over every run of commands, up to the first that the device lets down half-way, each step is related to the next tree of the history by its meaning, the tree stays well formed, chains stay acyclic and pairwise disjoint, free plus chained clusters is constant, and every chain keeps an owner if no step is one of the cases of `Perform`. On a reliable volume every run gets to its end. |
| FatFs.FileSystem.RoundTrip | src/kernel/fat32.cpp:1714-1859 | Calling create, write, read and remove in turn under any name by which entries are found delivers the data that was written and leaves every listing, every other file and the set of chains as they were. |
| FatFs.NewFileSystem | src/kernel/fat32.cpp:586-659 | A witness for both: a mounted file system whose root lists nothing and whose chains are all owned. |
| FatCommands.InsertedIsFound | src/kernel/fat32.cpp:1080-1206 | Whatever lists one item more at the end of a path where nothing was found finds it there exactly if the name matches it. |
| FatCommands.MadeIsFound | src/kernel/fat32.cpp:1080-1206 | A file or directory made under a path where nothing was is found there if and only if its name is no dot name, is not deleted on arrival, and is ASCII of at most 13 characters or spelled by its free plain short form; otherwise nothing is found there. |
| FatCommands.LostNamesAreMadeTwice | src/kernel/fat32.cpp:1714-1993 | Exactly when it is not found there, it can be made again under the same path. |
| FatCommands.NamesThatAreLost | src/kernel/fat32.cpp:1027-1206 | Three names that are not found again: `..`, the byte 0xE5 where its short form is free, and 14 times the letter A. |
| FatCommands.ShownIsFindable | src/kernel/fat32.cpp:1027-1206 | Every ASCII name of at most 13 characters that is no dot name is one by which entries are found. |
| FatCommands.FoundByAlias | src/kernel/fat32.cpp:1027-1078 | Whatever its name, an entry that is listed is found under what its short name spells, if nothing was found there before and that is no dot name. |
| FatCommands.AliasOfDots | src/kernel/fat32.cpp:366-438 | For the name `..` the first alias spells `_~1`. |
| FatCommands.CreatedThenWritten | src/kernel/fat32.cpp:1381-1486 | After creating a file under a name by which it is found (`MadeIsFound`) and writing into it, the file found under the path holds exactly the data. |
| FatCommands.WrittenTwice | src/kernel/fat32.cpp:1381-1486 | A further write to the same path finds the same file and continues from what the first left. |
| FatCommands.CreatedThenRemoved | src/kernel/fat32.cpp:1829-1859 | Removing the file that was just created, under a name by which it is found, restores every listing and every other file. |
| FatCommands.WrittenThenRemoved | src/kernel/fat32.cpp:1829-1859 | So does removing it after it has been written, and the chains are those there were. |
| FatCommands.MadeThenRemoved | src/kernel/fat32.cpp:1995-2039 | The same for a directory that was just made under a name by which it is found. |
| FatCommands.LongNamesAreMadeTwice | src/kernel/fat32.cpp:1714-1827 | After a name of more than 13 characters has been created, creating it again is still possible: duplicates go through. |
| FatCommands.DotNamesAreNotFound | src/kernel/fat32.cpp:1080-1206 | A path that ends in `..` finds nothing, and one that ends in `.` finds what the path in front of it finds: no entry is looked up by such a name. |
| FatCommands.EmptyDirs | src/kernel/fat32.cpp:1995-2039 | What `rmdir` takes for empty is so if and only if nothing but the dot entries is shown as `.` or `..`. |
| FatCommands.HiddenEntry | src/kernel/fat32.cpp:1995-2039 | A file or directory made as `..` in an empty directory hides there: the directory still seems empty and is not. |
| FatOwners.DoneKeepsOwners | src/kernel/fat32.cpp:1381-2039 | If every chain but the root's is named by an entry, it still is after a command that was carried out, unless that made a directory whose entry is deleted on arrival or removed one that listed an owner; in these cases it is not. |
| FatOwners.RemovedOwners | src/kernel/fat32.cpp:1829-2039 | After a removal every chain is owned if and only if it was no directory that listed an owner. |
| FatOwners.RefusedKeepsOwners | src/kernel/fat32.cpp:1381-2039 | So it is after a refused one, unless that was a write that began to fill an empty file. |
| FatOwners.EditedOwners | src/kernel/fat32.cpp:1381-1486 | After a write every chain is owned if and only if the file's entry names whatever chain the file has been given. |
| FatOwners.UnrecordedIsUnowned | src/kernel/fat32.cpp:1381-1486 | On a volume with one empty file, a write that claims a cluster and records nothing leaves a chain that nobody owns. |
| Heap.AlignCovers | src/kernel/heap.cpp:20-22 | The rounded size covers the request if and only if the request is at most 0xFFFFFFF0; for the last 15 sizes it is 0. |
| Heap.LiveDisjoint | src/kernel/heap.cpp:35-80 | Live payloads lie inside the heap and are at least a header apart. |
| Heap.AllocateKeeps | src/kernel/heap.cpp:35-80 | Allocation keeps the tiling and every live block, and adds one of at least the rounded size and less than 28 bytes more. |
| Heap.ReleaseKeeps | src/kernel/heap.cpp:83-95 | Release keeps the tiling and every live block but the released one, merged or not. |
| Heap.MergesForwardOnly | src/kernel/heap.cpp:83-95 | No two free neighbours stay apart after a release if and only if the block in front of the released one was in use. |
| Heap.FreeNeighboursRemain | src/kernel/heap.cpp:83-95 | Three blocks of which releasing the middle one leaves two free neighbours. |
| Heap.RunTiles | src/kernel/heap.cpp:25-122 | Over every run of allocations, releases and resizes the blocks tile the heap, used plus free plus headers is its size, live payloads never overlap, every request is refused exactly when no free block fits, and all other allocations stay. Resizes whose copy overruns are left out by the condition of `KernelHeap.Krealloc`. |
| Heap.ServedMeans | src/kernel/heap.cpp:35-122 | One request: refused exactly when no free block fits, otherwise one live block more, fewer or moved, and no other touched. |
| Heap.CopyOverruns | src/kernel/heap.cpp:98-122 | A heap on which a resize to one of the last 15 sizes copies 64 bytes into a block of 16. |
| Heap.KernelHeap.Init | src/kernel/heap.cpp:25-32 | One free block over the whole heap. |
| Heap.KernelHeap.Kmalloc | src/kernel/heap.cpp:35-80 | Returns null exactly for size 0, without a heap, or when no free block is large enough; otherwise a payload that was not live, from the first block that fits, and the bytes of every live payload are the same. |
| Heap.KernelHeap.Kfree | src/kernel/heap.cpp:83-95 | Exactly the released payload is live no more; the bytes of all others are the same. |
| Heap.KernelHeap.Krealloc | src/kernel/heap.cpp:98-122 | For every size: the copy stays inside its block if and only if the size does not wrap, nothing fits, or the old payload is no larger than the block given; then the old bytes move, all other payloads and their bytes stay, and the result is as large as asked for exactly when the size does not wrap. Null leaves everything as it was. |
| Heap.KernelHeap.GetStats | src/kernel/heap.cpp:125-156 | The figures are the sums over all blocks, they add up to the heap size, and the largest free block is the largest. |
| Frames.MarkSet | src/kernel/memory.cpp:89-94 | Setting the bit of a frame adds exactly that frame to the used set. |
| Frames.UnmarkSet | src/kernel/memory.cpp:96-101 | Clearing the bit removes exactly that frame. |
| Frames.FirstClear | src/kernel/memory.cpp:110-135 | The inner loop finds the lowest clear bit of a word, or that there is none. |
| Frames.FrameAllocator.constructor | src/kernel/memory.cpp:17-57 | Initially exactly the frames below the end of the bitmap itself are in use. |
| Frames.FrameAllocator.FirstFree | src/kernel/memory.cpp:110-135 | The least unused frame below the total, found word by word; none exactly when all are in use. |
| Frames.FrameAllocator.Allocate | src/kernel/memory.cpp:59-69 | Takes the least unused frame and counts it; address 0 exactly when there is none. |
| Frames.FrameAllocator.Free | src/kernel/memory.cpp:71-77 | The frame leaves the used set, and the count stays right exactly when it was in use. |
| Frames.FreeTwice | src/kernel/memory.cpp:71-77 | Releasing a frame twice leaves the count one below the number of used frames. |
| Frames.FrameAllocator.FreeFrames | src/kernel/memory.cpp:84-87 | The reported number is the number of unused frames. |
| Paging.AddTable | src/kernel/paging.cpp:104-143 | Hanging a fresh zeroed table behind an absent directory entry changes no translation and keeps the tables distinct and in use. |
| Paging.SetEntry | src/kernel/paging.cpp:104-143 | Writing one entry of a present table changes the translation of exactly that page. |
| Paging.RangeTranslates | src/kernel/paging.cpp:145-179 | When the covering pages are mapped, every address of the range translates to the matching physical address. |
| Paging.CountCovers | src/kernel/paging.cpp:145-179 | The page count covers the range if and only if rounding up stays within 32 bits. |
| Paging.LargestRangeIsEmpty | src/kernel/paging.cpp:145-179 | A range of almost 4 GB for which the count is 0. |
| Paging.PageTables.Init | src/kernel/paging.cpp:40-71 | Afterwards exactly the pages below 32 MB are translated, each to itself. |
| Paging.PageTables.MapPage | src/kernel/paging.cpp:104-143 | Changes the translation of exactly one page, or of none when no frame is left for its table; that happens exactly if the region has no table and no frame is free. |
| Paging.PageTables.MapRange | src/kernel/paging.cpp:145-179 | Exactly the mapped pages of the range change their translation, and all of them are mapped if there are frames for the missing tables; misaligned pairs map nothing. |
| Process.RepairIsIdempotent | src/kernel/process.cpp:104-166 | Any head, tail and count become a well-formed ring, a well-formed ring is left alone, and once is enough. |
| Process.PushedAllIsRecent | src/kernel/process.cpp:168-192 | Pushing any number of events keeps the most recent 128, in order. |
| Process.ProcessBlock.EnsureIntegrity | src/kernel/process.cpp:104-166 | Afterwards the ring is sound and holds what it held before; with damaged guards it holds nothing. |
| Process.ProcessBlock.Push | src/kernel/process.cpp:168-192 | The pending events are the old ones with the new one behind, the oldest dropped if 128 were pending. |
| Process.ProcessBlock.Pop | src/kernel/process.cpp:193-212 | Takes the oldest pending event, and none exactly when none is pending. |
| Process.ProcessBlock.RegisterHook | src/kernel/process.cpp:227-233 | The hook goes behind the others, and is refused exactly when 8 are registered. |
| Process.ProcessBlock.RemoveHook | src/kernel/process.cpp:235-248 | The first occurrence goes and the gap closes; refused exactly when there is none. |
| Process.ProcessBlock.HasMatchingHook | src/kernel/process.cpp:250-258 | True exactly if the hook is registered. |
| Lottery.ExactlyProportional | src/kernel/scheduler.cpp:81-110 | Of the winning numbers below the total each slot is chosen by exactly its ticket count. |
| Lottery.NoFallThrough | src/kernel/scheduler.cpp:81-110 | The total is 0 exactly when nobody holds a ticket. |
| Lottery.Winner | src/kernel/scheduler.cpp:81-110 | Every winning number below the total has a holder with tickets: the first whose running total exceeds it. |
| Lottery.GeneratorIsInjective | src/kernel/scheduler.cpp:74-79 | Different generator states have different successors, and the state never becomes 0. |
| Scheduler.YieldKeepsAwake | src/kernel/syscalls.cpp:156-168 | Yielding for a chosen hook keeps a process awake if and only if nothing is pending, the hook is not its own signal, or the hook table is full. |
| Scheduler.PushAloneKeepsAwake | src/kernel/pci.cpp:350-405 | An event pushed without resuming is noticed if and only if the process does not wait for its own signal. |
| Scheduler.WakeUpsAreLost | src/kernel/scheduler.cpp:160-168 | A process with one event that asks for its own signal, and one that waits for it when an event is pushed alone, both sleep on a pending event. |
| Scheduler.Kernel.Resume | src/kernel/scheduler.cpp:171-183 | The hook is taken off every process in the table, however often it is registered, and nothing else changes. |
| Scheduler.Kernel.Deliver | src/kernel/keyboard.cpp:19-57 | The event is queued and its process woken; nobody else's events change. |
| Scheduler.Kernel.Poll | src/kernel/syscalls.cpp:130-134 | Takes the oldest event of the process and nothing else. |
| Scheduler.Kernel.WaitForEvent | src/kernel/process.cpp:218-225 | Takes an event, or registers for the own signal, if there is room for the hook, exactly when the queue is empty, so that no wake-up can be missed. |
| Scheduler.Kernel.YieldForEvent | src/kernel/scheduler.cpp:160-168 | Registers the hook once; the no-lost-wake-up invariant survives if and only if nothing is pending, the hook is not the own signal, or the hook table is full. |
| Scheduler.Kernel.PushAlone | src/kernel/pci.cpp:350-405 | The invariant survives an event pushed without a resume if and only if the process does not wait for its own signal. |
| Scheduler.Kernel.DeviceEvent | src/kernel/mouse.cpp:168-191 | The event goes to the foreground process, else to the shell, else to the current process, which is woken. |
| Scheduler.Kernel.SetForeground | src/kernel/scheduler.cpp:356-365 | The old foreground process hears that it lost the focus and the new one that it gained it, unless dead; the old one is remembered while the stack has room. |
| Scheduler.Kernel.RestoreForeground | src/kernel/scheduler.cpp:371-383 | Only the owner, or nobody in particular, gives the foreground back; the process remembered last gets it and waits for nothing any more. |
| Scheduler.Kernel.Draw | src/kernel/scheduler.cpp:81-146 | Nobody exactly if nobody takes part; otherwise the generator advances once and the holder of its number becomes current. The total fits a signed 32-bit integer. |
| Scheduler.Kernel.ContextSwitch | src/kernel/scheduler.cpp:212-251 | A runnable process is drawn; with none the current one goes on, and the kernel panics exactly if that one is dead. |
| Scheduler.Kernel.Tick | src/kernel/timer.cpp:12-17 | Everybody who waits for this time is woken, and a switch happens on every tenth tick only. |
| Scheduler.Kernel.Kill | src/kernel/process.cpp:36-52 | The process is dead before any focus event, so it gets none; if it had the foreground the process below it gets it. |
| Scheduler.Kernel.Exit | src/kernel/scheduler.cpp:275-339 | The current process dies and somebody alive is drawn, waiting or not; the kernel panics exactly when nobody is left. |
| Scheduler.Kernel.SetTickets | src/kernel/scheduler.cpp:153-157 | Only a positive number changes the share; the invariant (total in 32 bits) survives exactly if the share of a process in the table is at most its 32nd part. |
| Scheduler.Kernel.AddProcess | src/kernel/scheduler.cpp:45-57 | The process takes the first empty slot with at least one ticket, and is refused exactly when there is no room. |
| Scheduler.Kernel.Perform | src/kernel/syscalls.cpp:130-180 | Each step does to events, hooks, tickets and life of all processes exactly what the step means, and keeps the invariant; only a yield for the own signal with events pending and room for the hook is excluded. |
| Scheduler.Kernel.Run | src/kernel/syscalls.cpp:130-180 | Over every interleaving of poll, wait, yield, device, tick, focus, restore and exit steps, up to the first step that itself loses a wake-up, each step is related to the next moment of the history by its meaning, and at no moment does a process with events pending wait for its own signal; one that waits for nothing else takes part in the next draw. |
| Scheduler.Kernel.NobodyForgotten | src/kernel/scheduler.cpp:113-122 | The invariant, read for the scheduler: alive, events pending and no other hook means eligible. |
| VfsPath.NextToken | libc/string/string.cpp:143-183 | Each call delivers the next stretch between slashes and the place to go on from, or reports that none is left. |
| VfsPath.ResolvedIsEvaluated | src/kernel/vfs.cpp:618-671 | For every stack and every path: the loop evaluates exactly the tokens it reaches before the stack holds 32 components, and hangs if and only if a `.` is among them. |
| VfsPath.HangsAtReachedDot | src/kernel/vfs.cpp:618-671 | The loop hangs if and only if some `.` comes before the stack has ever been full. |
| VfsPath.PlainPathsAreCut | src/kernel/vfs.cpp:618-671 | A path of plain components is resolved exactly if and only if it has at most 32; longer ones are cut. |
| VfsPath.ThirtyThreeAreCut | src/kernel/vfs.cpp:618-671 | Of 33 components the last is dropped. |
| VfsPath.TokensOfRendered | src/kernel/vfs.cpp:618-671 | Splitting a canonical path gives back the components it was made of. |
| VfsPath.CleanUp | src/kernel/vfs.cpp:549-615 | The squeezed path is clean and fits; unless it is cut it has the same components, and a clean path goes through unchanged. |
| Vfs.ParentIsPopped | src/kernel/vfs.cpp:549-615 | The `..` shortcut, cutting at the last slash, is the path of the popped stack. |
| Vfs.NormalizedIsMeaning | src/kernel/vfs.cpp:549-671 | For every path: normalisation is evaluation of the working directory followed by the path, as far as the loop gets; it hangs if and only if a `.` is reached before the stack is full and the path is not that `.` alone; and when the loop reaches the end, or a shortcut is taken, the result is what the path means. |
| Vfs.FewComponentsAreMeant | src/kernel/vfs.cpp:549-671 | With at most 32 components, those of the working directory included, the result is what the path means, and hanging means a `.` in a longer path. |
| Vfs.NormalizedIsCanonical | src/kernel/vfs.cpp:549-671 | Whatever the path, a result is canonical and fits the buffer. |
| Vfs.NormalizedIsIdempotent | src/kernel/vfs.cpp:549-671 | A canonical path is its own normal form, from any working directory. |
| Vfs.LoneDotHangs | src/kernel/vfs.cpp:618-671 | A lone `.` behind the working directory hangs if and only if that has fewer than 32 components. |
| Vfs.DotAtRootHangs | src/kernel/vfs.cpp:198-235 | Changing directory from the root to `.` hangs. |
| Vfs.TwiceIsOnce | src/kernel/vfs.cpp:198-235 | The second normalisation of a directory change repeats the first if and only if the path is not `..` from 32 components deep, and not `.` from fewer. |
| Vfs.DeepParentStays | src/kernel/vfs.cpp:198-235 | A concrete working directory of 32 components from which the first normalisation of `..` names the parent and the second the directory itself. |
| Vfs.CoversIsComponentPrefix | src/kernel/vfs.cpp:111-139 | On canonical paths the character test is the whole-component prefix test. |
| Vfs.CoverIsUnique | src/kernel/vfs.cpp:111-139 | Two mountpoints of equal length that cover the same path are the same. |
| Vfs.RelativeRebuilds | src/kernel/vfs.cpp:141-173 | The relative path is canonical, and mountpoint and relative path together give back the absolute path, as strings and as components. |
| Vfs.FileSystems.ResolveDots | src/kernel/vfs.cpp:618-671 | The tokenizer loop over the component stack, or its hanging, is what the path resolves to. |
| Vfs.FileSystems.Normalize | src/kernel/vfs.cpp:549-615 | The shortcuts, the resolved path and the squeezing of slashes together are the normal form. |
| Vfs.FileSystems.FindMount | src/kernel/vfs.cpp:111-139 | The mount whose mountpoint covers the path and is strictly longest; none exactly when no mount covers it. |
| Vfs.FileSystems.ResolvePath | src/kernel/vfs.cpp:141-173 | Succeeds exactly when a mount covers the normal form, with the longest such mount and the path relative to it; hangs exactly when normalisation does. |
| Vfs.FileSystems.Chdir | src/kernel/vfs.cpp:198-235 | The working directory stays canonical; it changes exactly when a mount covers the path as normalised with shortcuts and neither normalisation hangs, and then to the path as resolved without them (`TwiceIsOnce` says when that is the same). Anything else leaves it alone. |
| Vfs.FileSystems.MountAt | src/kernel/vfs.cpp:28-73 | Mountpoints stay distinct: a known one is refused, another takes an empty slot, and every other code leaves the table alone. |
| Vfs.FileSystems.Unmount | src/kernel/vfs.cpp:75-109 | Exactly the mount with that mountpoint goes; not found exactly when there is none. |
| EditorText.TypedIsInsert | src/user/editor.cpp:399-408 | A character key inserts that character at the cursor's offset of the joined text and moves on by one; nothing happens if and only if the line is full. |
| EditorText.EnteredIsInsert | src/user/editor.cpp:411-442 | Enter inserts a newline at the offset; nothing happens if and only if 128 lines are there. |
| EditorText.ErasedIsDelete | src/user/editor.cpp:445-467 | Backspace deletes exactly the character in front of the offset if and only if the cursor is inside a line or the joined line fits; nothing happens if and only if the offset is 0. |
| EditorText.JoinLoses | src/user/editor.cpp:445-467 | A full line joined with another loses the text of that one. |
| EditorText.MovedMeans | src/user/editor.cpp:470-504 | Left and Right move the offset by one, arrows keep the text, and only Down on the last line appends an empty line. |
| EditorText.TypedThenErased | src/user/editor.cpp:399-467 | Backspace takes back a typed character: text and cursor are as before. |
| EditorText.EnteredThenErased | src/user/editor.cpp:411-467 | Backspace takes back Enter. |
| EditorText.OffsetIsInjective | src/user/editor.cpp:470-504 | The offset determines line and column. |
| EditorText.SavedIsLoaded | src/user/editor.cpp:97-212 | Loading what was saved gives back the lines except for empty ones at the end, and all of them if and only if there is one line or the last is not empty. |
| EditorText.LongFilesAreCut | src/user/editor.cpp:97-154 | Of a file of plain lines the first 128 are loaded, and the truncation notice appears exactly if there are more. |
| EditorText.LoadedIsPlain | src/user/editor.cpp:97-154 | Whatever the file holds, the loaded lines can be saved. |
| EditorText.PressedAllPlain | src/user/editor.cpp:507-526 | Keys other than newline, carriage return and NUL characters keep the lines such that they can be saved. |
| EditorText.SessionIsKept | src/user/editor.cpp:97-212 | Load any file, press any plain keys, save and load again: the text is as it stood, up to empty lines at the end. |
| Editor.LineBuffer.CopyLine | src/user/editor.cpp:44-47 | The row holds the text and is terminated; no other row changes. |
| Editor.LineBuffer.HandleChar | src/user/editor.cpp:399-408 | Shifting the row in place is the typed edit, cursor included, and every row stays terminated. |
| Editor.LineBuffer.HandleEnter | src/user/editor.cpp:411-442 | Splitting and shifting rows in place is the edit of Enter; `.exit` changes nothing and `.save` only drops its own line. |
| Editor.LineBuffer.HandleBackspace | src/user/editor.cpp:445-467 | Shifting left, or joining rows and closing the gap, is the edit of Backspace. |
| Editor.LineBuffer.HandleArrow | src/user/editor.cpp:470-504 | Cursor movement in place is the movement on the lines. |
| Editor.LineBuffer.HandleKeys | src/user/editor.cpp:507-526 | Keys one after another are their edits one after another, up to Enter on a command line, and plain keys keep plain lines. |
| Editor.LineBuffer.Serialise | src/user/editor.cpp:182-212 | The written data is the saved form of the lines, which lose their empty tail. |
| Editor.LineBuffer.Load | src/user/editor.cpp:97-165 | However the file is cut into reads, up to the first that delivers nothing, the buffer holds the loaded lines with the cursor at the start, and the truncation flag is set exactly when lines were left out. |

## Left out

- FatFs.FileSystem.Remove: after a device failure half-way nothing is promised about the tree, because the chain is freed before its entry is marked; the outcome is then `Unfinished`.
- FatFs.FileSystem.Create: a lookup that fails on the device counts as "not there", as in the code.
- FatFs.FileSystem.Mkdir: the parent entry of a child of the root stores the root's cluster, as the code does, where the FAT specification asks for 0.
- FatFs.FileSystem.WriteFile: files that are open elsewhere, and removing an open file, are not part of the model; the table of 16 descriptors is a counter.
- FatFs.FileSystem.Rmdir: the listing stops at the first entry that is not shown as `.` or `..`, where the code stops at its second entry of any kind; the outcome is the same.
- FatFs.FileSystem.Perform: path strings come as their components; cutting them to 256 bytes and trailing slashes on files are not modelled.
- FatVolume.Volume.GetNextCluster: sectors within a cluster, the partition offset, the boot sector and mounting are left out; a volume is given with its geometry (table of at most 255 sectors) and with chains that end in 0x0FFFFFFF.
- FatTable.RunConserves: the steps are the successful ones; failed writes are stated in `FatVolume.Volume.AllocateCluster` and `FatTable.FailedExtendBreaksChain`.
- FatCursor.Script: reads of a script whose position plus count wraps are allowed at the end of the file only; `FatCursor.Perform` also allows them where there is no slack, which the byte sequence alone does not show.
- FatShortName.DecimalToString: the size of the destination buffer is left out; the callers' buffers hold every number.
- Heap.KernelHeap.Krealloc: what an overrunning copy destroys is not modelled.
- Heap.KernelHeap.WriteHeader: a stored header overwrites twelve unspecified bytes; payloads are not claimed to be 16-byte aligned, since the header has 12 bytes.
- Heap.RunTiles: resizes whose copy overruns are excluded by a condition on the request, because the heap is damaged after one.
- Paging.PageTables.Init: needs a frame for the directory and each of the eight tables; the code does not check. Tables are reached through the identity mapping, and flushing the translation buffer is left out.
- Frames.FrameAllocator.constructor: the memory size comes as a frame count instead of the boot information, and frames are not claimed to avoid the heap region.
- Lottery.ExactlyProportional: counts winning numbers below the total; the slight bias of taking a 32-bit number modulo the total is left out.
- Scheduler.Kernel.SetTickets: the bound that keeps the total in 32 bits is stated per process, not on the sum.
- Scheduler.Kernel.Run: stops in front of a yield that loses a wake-up, and pushes without a resume are not among the steps; the exact effect of both is stated by `YieldForEvent` and `PushAlone`. Removing a process from the table has no callers and is left out.
- Scheduler.Kernel.ContextSwitch: a switch is the choice of the next process; saved registers, trampolines and window handling are left out.
- Process.ProcessBlock.EnsureIntegrity: magic numbers and null pointers of a process are left out.
- Vfs.FileSystems.Normalize: asks for paths shorter than 256 and components shorter than 64 characters, the sizes of the code's buffers.
- Vfs.FileSystems.Unmount: closing the open files of a mount is left out, and so are RamFS and the adapters to both file systems.
- Vfs.FileSystems.MountAt: mountpoints are stored as given; the lemmas about covering ask for canonical ones.
- Editor.LineBuffer.HandleEnter: `.save` on a buffer of one line is excluded, since the code then indexes line -1.
- EditorText.SavedIsLoaded: lines that hold a carriage return, a newline or NUL are excluded; such lines come neither from the loader nor from plain keys.
- The character ring of the keyboard, drivers, drawing, the shell and assembly stubs would only add simple members, or are hardware.
