# NuttX in Dafny

Dafny models of stateful parts of this NuttX tree, with proofs:

- **`model/fs/`**: the pseudo file system. Inodes form a heap of first-child and next-peer pointers. It is proved to be a sorted tree that means a finite map from paths to inodes. Removed inodes are freed when their last reference is returned. Descriptor tables, `mount` and directory streams hold references into the tree; the counts are conserved over whole runs.
- **`model/drivers/`**: the block buffer `rwbuffer.c`, which must be indistinguishable from a plain device that loses its last run of consecutive writes on removal, and the transmit side of the CAN driver, a protocol between writers and an interrupt.
- **`model/nsh/`**: the shell's line-by-line `if`/`then`/`else`/`fi` against the meaning of structured programs, its tokenizer with a printer of quoted and bare arguments to invert, the telnet front end in both directions, and `dd`.
- **`model/binfmt/`**: binary against linear symbol search.

Code that updates things in place is modelled by classes and loops. Each method is proved against a function on values: `TreeStates`, `ParserState`, `BlockBuffer`, `CanProtocol`, `TelnetInput`, `TelnetOutput` and `Tokens.Argument` are those values. The laws are lemmas about the functions.

`dafny verify dfyconfig.toml` checks the whole project.

## How to read the model

- `TreeStates.State` holds the tree shape, its mount points, the removed subtrees still referenced, the allocated inodes, the references handed out and the stored pointers. `Wf` says that the pointers form a sorted tree without sharing, that mount points have no children, that removed subtrees are intact and apart, and that nothing is leaked.
- `Files.Balanced` says that the references handed out are exactly the inodes named by descriptor slots plus the other holds, and that none of them is to a freed inode.
- `Runs.Config` is a tree with its tables; a run is any sequence of enabled actions.
- A path denotes its list of segments. `""` and `"/"` both denote one empty segment, and one trailing `/` is dropped, as in the code.
- Drivers, commands, devices and memory are parameters: return values (`openRet`, `driverRet`), a count of allocations that succeed (`avail`), an oracle for command results (`exec`), what else happens while a writer sleeps (`events`). Short reads and writes are arbitrary choices inside the method.
- Operations that hold the tree, list or buffer semaphore are atomic steps.

## Where the code differs from what it says

The model follows the code unless noted.

- `inode_remove` frees everything below the removed inode whatever the counts below it. `TreeStates.RemovalDangles` is an example; `TreeStates.RemovedCleanIff` and `Files.RemovedBalanced` give the exact condition.
- `opendir` on a directory other than the root counts the first child twice and the directory not at all. `DirStreams.OpenDirMiscounts` is an example; `DirStreams.OpenDir` and `DirStreams.OpenAndClose` give the exact condition. Such a stream rewinds to the directory itself, and `DirStreams.CloseDir` says what closing it does.
- A read-ahead window is tested for overlap only on the requested range, so it can load blocks older than the pending ones. `BlockBuffer.StaleRead` is an example; `BlockBuffer.ReadReads` gives the exact condition for a whole read.
- `can_write` on a non-blocking file can return without starting the transmission. `CanProtocol.StallExample` is an example; `CanProtocol.NonBlockingWriteSound` gives the exact condition and `CanProtocol.StallIsForever` the consequence.
- `can_write` looks up the place behind the tail once per message, before it waits (nuttx/drivers/can.c:409). If another writer puts a message while it sleeps, the place is out of date: accepted messages are lost, or a writer sleeps on an empty FIFO. `CanProtocol.MessageLost` and `CanProtocol.WriterStranded` are examples; `CanProtocol.PutSound`, `CanProtocol.StepSound` and `CanProtocol.RunSoundIff` give the exact conditions.
- An empty quoted argument is not read back as empty. `Tokens.RoundTripIff` gives the exact condition.
- A telnet line that does not fit is cut and loses a character at each cut: `TelnetInput.Delivered`. An empty string printed behind a buffered newline adds a CR: `TelnetOutput.EmptyStringAddsCr`, with `TelnetOutput.EmptyStringExample`.
- `symtab_findorderedbyvalue` finds only exact values although its comment promises the closest: `Symtab.ValuesAgreeIff`, with `Symtab.ValuesDisagree`.
- `nsh_script` returns an error for a script without lines.
- `dup2` returns 0 on success, not the new descriptor, except when both are the same.
- A comment in `mount` counts one reference to the new mount point; the code leaves its count at zero.
- In `rwb_read` the variable `startblock` is initialised from itself (nuttx/drivers/rwbuffer.c:538), and line 564 copies from the position after counting. Here the model follows the comments: one running block number, copied from before it is advanced.

## Model

| member | source | states |
|---|---|---|
| `Names.InodeCompare` | nuttx/fs/fs_inode.c:75-136 | the sign of the result is the lexicographic order of the first path segment and the node name, in all three cases |
| `Names.InodeNextName` | nuttx/fs/fs_inode.c:325-330 | the pointer walk gives what follows the first slash, or the empty name |
| `Names.BeforeTotal` | nuttx/fs/fs_inode.c:75-136 | the order that sibling lists are kept in is total and strict |
| `Names.BeforeIff` | nuttx/fs/fs_inode.c:75-136 | it is the order of the characters at the first place where two names differ, a name being before its extensions |
| `Names.SegmentsOfJoin` | nuttx/fs/fs_inode.c:325-330 | names joined by slashes are cut into those names again, an empty last one being dropped |
| `Forests.SearchIsMeaning` | nuttx/fs/fs_inode.c:208-300 | on every sorted forest the pointer walk finds exactly what the path denotes in the map of paths, where a mount point absorbs the rest, and that rest is a suffix of the path cut just behind a slash |
| `Forests.SearchIsLookup` | nuttx/fs/fs_inode.c:208-300 | the same below any prefix of a path |
| `InodeTrees.InodeTree.InodeSearch` | nuttx/fs/fs_inode.c:208-300 | the loop over heap pointers returns the inode the path denotes and the rest left to it, or nothing exactly when it denotes nothing |
| `Placing.InsertionPoint` | nuttx/fs/fs_inode.c:218-299 | when a search misses, the left peer, the parent and the rest name the one gap of the sibling list where the segment belongs |
| `Placing.GapUnique` | nuttx/fs/fs_inode.c:218-299 | a sorted sibling list has no second gap for a segment |
| `Placing.PlaceSorted` | nuttx/fs/fs_inodereserve.c:105-136 | inserting where a search missed keeps every sibling list strictly increasing |
| `Placing.PlacePaths` | nuttx/fs/fs_inodereserve.c:105-136 | inserting adds exactly the missed path to the map and changes no other |
| `Placing.PlaceLinks` | nuttx/fs/fs_inodereserve.c:105-136 | every old inode has the child and peer pointers of the new shape after one pointer is changed |
| `Placing.PlaceNewLinks` | nuttx/fs/fs_inodereserve.c:105-136 | the new inode has the pointers its place in the shape asks for |
| `Placing.PlaceSearch` | nuttx/fs/fs_inodereserve.c:170-209 | after an insertion the same search misses directly below the new inode, so the loop needs no new search |
| `InodeTrees.InodeTree.InodeInsert` | nuttx/fs/fs_inodereserve.c:105-136 | the heap update is the pointer change of the insertion, at the root, at the head of a list or behind a peer |
| `TreeStates.InsertedWf` | nuttx/fs/fs_inodereserve.c:105-136 | insertion keeps the whole tree invariant |
| `InodeTrees.InodeTree.GrowPath` | nuttx/fs/fs_inodereserve.c:170-209 | the loop adds the missing segments one by one; with too few allocations it stops with exactly as many as succeeded |
| `InodeTrees.InodeTree.InodeReserve` | nuttx/fs/fs_inodereserve.c:148-210 | a relative or resolving path changes nothing; otherwise the tree grows by a prefix of the missing path, all of it if memory lasts, the new inodes have no operations yet, and the result is the new leaf |
| `TreeStates.GrowthStep` | nuttx/fs/fs_inodereserve.c:170-209 | each turn of the loop adds one segment of the path to the map and ends exactly with the last one |
| `TreeStates.ReservedResolves` | nuttx/fs/fs_inodereserve.c:148-210 | a reserved path denotes the new leaf, with nothing left over |
| `TreeStates.ReservedKeeps` | nuttx/fs/fs_inodereserve.c:148-210 | every name that denoted an inode denotes it after a reservation, complete or not |
| `Cutting.CutLinks` | nuttx/fs/fs_inoderemove.c:69-98 | unlinking changes one pointer, and every inode that stays has the pointers of the new shape |
| `Cutting.CutPaths` | nuttx/fs/fs_inoderemove.c:69-98 | the map loses exactly the found path and its extensions |
| `InodeTrees.InodeTree.InodeUnlink` | nuttx/fs/fs_inoderemove.c:69-98 | the heap update is that pointer change, with the peer pointer of the node cleared |
| `InodeTrees.InodeTree.InodeFree` | nuttx/fs/fs_inode.c:306-314 | the recursion frees each inode of the given structure once, and no other |
| `InodeTrees.InodeTree.InodeRemove` | nuttx/fs/fs_inoderemove.c:110-156 | each error in its case and without change; else the inode is unlinked, freed with all below it if unreferenced, and otherwise flagged and busy |
| `TreeStates.RemovedWf` | nuttx/fs/fs_inoderemove.c:110-156 | removal keeps the whole invariant, removed subtrees and absence of leaks included |
| `TreeStates.RemovedView` | nuttx/fs/fs_inoderemove.c:110-156 | the map of paths loses the removed path and all its extensions, and nothing else |
| `TreeStates.RemovedMeaning` | nuttx/fs/fs_inoderemove.c:110-156 | after a removal no name at or below the removed path denotes anything, also none that a removed mount point answered for, and every other name denotes what it did |
| `TreeStates.RemovedCleanIff` | nuttx/fs/fs_inoderemove.c:110-156 | removal leaves no reference to a freed or doomed inode if and only if nothing strictly below the target is referenced |
| `TreeStates.RemovalDangles` | nuttx/fs/fs_inode.c:306-314 | an example: removing /a while /a/b is referenced frees b under its holder |
| `Runs.DeferredDeletion` | nuttx/fs/fs_inoderelease.c:78-106 | through every run, whatever else is opened, closed, inserted, removed or released, a removed inode stays allocated with all below it while it is referenced, and the action that leaves it unreferenced is a release of it that frees exactly that |
| `Runs.LingerStep` | nuttx/fs/fs_inoderelease.c:78-106 | the same for one action of any kind |
| `Runs.RemoveFreesOrDefers` | nuttx/fs/fs_inoderemove.c:110-156 | a removal frees an unreferenced inode with all below it at once; a referenced one starts to linger |
| `Runs.FreedStaysFreed` | nuttx/fs/fs_inode.c:306-314 | nothing is freed twice: what was freed comes back only by being allocated anew |
| `TreeStates.ReleasedWf` | nuttx/fs/fs_inoderelease.c:78-106 | release keeps the whole invariant, for inodes in the tree and removed ones |
| `TreeStates.MountedWf` | nuttx/fs/fs_mount.c:316-325 | turning a leaf into a mount point keeps the whole invariant |
| `InodeTrees.InodeTree.InodeRelease` | nuttx/fs/fs_inoderelease.c:78-106 | the count goes down by one, and the release that reaches zero on a deleted inode frees its subtree |
| `InodeTrees.InodeTree.InodeAddref` | nuttx/fs/fs_inodeaddref.c:75-83 | one more reference, nothing else |
| `InodeTrees.InodeTree.InodeFind` | nuttx/fs/fs_inodefind.c:76-97 | finds exactly what an absolute path denotes, hands out one reference to it, and the relative path is the suffix behind a slash that is left to it |
| `Slots.SlotRefsUpdate` | nuttx/fs/fs_files.c:106-135 | changing one slot exchanges one reference for another in the references of a table |
| `Files.BalancedRelease` | nuttx/fs/fs_inoderelease.c:78-106 | returning a hold keeps the count of every inode equal to its holders |
| `Files.BalancedClose` | nuttx/fs/fs_files.c:106-135 | closing a slot does, and the inode was alive until then |
| `Files.BalancedDup` | nuttx/fs/fs_files.c:260-359 | duplicating into a free slot does |
| `Files.RemovedBalanced` | nuttx/fs/fs_inoderemove.c:110-156 | removal does if and only if nothing strictly below the target is referenced |
| `Files.GrownBalanced` | nuttx/fs/fs_inodereserve.c:148-210 | a complete or partial reservation does |
| `Files.AcquireRelease` | nuttx/fs/fs_open.c:183-189 | a reference taken and given back leaves the tree as it was: what every unwinding exit relies on |
| `Files.AccessModes` | nuttx/fs/fs_open.c:59-70 | opening for reading, writing or both needs exactly those methods, whatever other flags are set |
| `Files.FileSystem.InodeCheckFlags` | nuttx/fs/fs_open.c:59-70 | refuses exactly the accesses the methods do not allow |
| `Files.FileSystem.FilesAllocate` | nuttx/fs/fs_files.c:370-393 | takes the first free slot not below the minimum, fails exactly when there is none, and moves the caller's reference into the slot |
| `Files.FileSystem.FilesRelease` | nuttx/fs/fs_files.c:441-457 | frees a slot and hands its reference back to the caller; a bad descriptor changes nothing |
| `Files.FileSystem.CloseSlot` | nuttx/fs/fs_files.c:106-135 | whatever the driver answers the slot is freed and its reference returned |
| `Files.FileSystem.FilesClose` | nuttx/fs/fs_files.c:405-431 | each error in its case and without change; else the descriptor is freed and its reference returned |
| `Files.FileSystem.FileDup` | nuttx/fs/fs_filedup.c:78-117 | a copy of the slot in the first free one with one more reference, or an error and nothing changed |
| `Files.FileSystem.FilesDup` | nuttx/fs/fs_files.c:260-359 | which of its errors or success it answers is decided by the two slots, the mount points and the drivers; each answer has its effect: unchanged, the target closed, or the target closed and a copy of the slot with one more reference |
| `Files.FileSystem.FileDup2` | nuttx/fs/fs_filedup2.c:80-118 | the same behind the descriptor checks, with equal descriptors a check only |
| `Files.FileSystem.Attach` | nuttx/fs/fs_open.c:126-184 | succeeds exactly when the inode supports the access, a slot is free and the driver agrees; each failure has its error, exactly in its case; then no slot has changed and the caller keeps the reference |
| `Files.FileSystem.Open` | nuttx/fs/fs_open.c:76-190 | succeeds exactly when the path denotes an inode that can be opened so, a slot is free and the driver agrees; then the first free descriptor names it, with one more reference; each error exactly in its case, and then nothing at all has changed |
| `Files.FileSystem.FilesAllocList` | nuttx/fs/fs_files.c:158-173 | a new list of free slots with one user; counts and the other lists stay as they were |
| `Files.FileSystem.FilesAddrefList` | nuttx/fs/fs_files.c:181-198 | one more user, nothing else |
| `Files.FileSystem.FilesReleaseList` | nuttx/fs/fs_files.c:207-251 | while others use the list only its count goes down; the last user returns every slot's reference, in order, whatever the drivers answer, and the list is gone |
| `Runs.StepSound` | nuttx/fs/fs_files.c:106-457 | every action on the tree, on references and on slots keeps the invariant of the whole system |
| `Runs.RunSound` | nuttx/fs/fs_files.c:106-457 | in every state of every run the tree is well formed, each count equals its holders, and free slots are all zero |
| `Runs.BootSound` | nuttx/fs/fs_inode.c:151-167 | in particular for every run from the empty file system |
| `Runs.ReserveIsRun` | nuttx/fs/fs_inodereserve.c:170-209 | the effect of a reservation, complete or partial, is a run of insertions |
| `Runs.MountIsRun` | nuttx/fs/fs_mount.c:251-324 | the effect of a mount is a run: the driver's reference, the reservation, the marking |
| `Runs.CloseListIsRun` | nuttx/fs/fs_files.c:207-251 | the effect of the last release of a list is a run: every open descriptor closed in turn, then the list dropped |
| `Runs.DupIsRun` | nuttx/fs/fs_filedup.c:78-117 | the effect of opening or duplicating is a run that leaves no other hold |
| `Runs.CloseIsRun` | nuttx/fs/fs_files.c:106-135 | so is the effect of closing |
| `Runs.RemoveIsRun` | nuttx/fs/fs_inoderemove.c:110-156 | so is the effect of a removal below which nothing is referenced |
| `Runs.ReferencedIsLive` | nuttx/fs/fs_inoderelease.c:84-88 | in every such state an inode named by a slot is allocated with a count above zero, so the guard on the count is never what saves it |
| `Runs.FreedWhenUnreferenced` | nuttx/fs/fs_inoderelease.c:78-106 | an inode is freed only by a removal or a release, and only when nobody holds it |
| `Mounting.Reserve` | nuttx/fs/fs_inodereserve.c:148-210 | reservation beside open files: it succeeds exactly when the path is absolute and new and memory lasts for its missing segments; counts stay right, old names keep their meaning and their operations, the new one denotes the result, and no new inode has operations |
| `Mounting.Remove` | nuttx/fs/fs_inoderemove.c:110-156 | removal beside open files: each status in its case, every name afterwards means what it did or, at or below the removed path, nothing, and the system stays valid if and only if nothing strictly below the target is referenced |
| `Mounting.FindBlockDriver` | nuttx/fs/fs_findblockdriver.c:80-130 | a usable block driver and one reference to it exactly when the path denotes one; otherwise the error of the case and nothing changed |
| `Mounting.MountAbsorbs` | nuttx/fs/fs_mount.c:251-324 | once the inode is a mount point every extension of its path denotes it |
| `Mounting.MountOver` | nuttx/fs/fs_mount.c:251-324 | a new target becomes a mount point with the operations of the file system, absorbs all longer paths and keeps the driver's reference; the directories made on the way have no operations; an existing or relative target is busy and the reference is given back |
| `Mounting.Mount` | nuttx/fs/fs_mount.c:196-380 | succeeds exactly when the source denotes a usable block driver, if the type needs one, and the target is new and memory lasts; the mount point has the operations of the file system; the driver kept is the one the source denotes; every failing exit returns the references it took |
| `Mounting.OpenMounted` | nuttx/fs/fs_open.c:76-190 | below a mount point every path opens the mount point itself, exactly when its operations allow the access, a slot is free and the file system agrees |
| `Mounting.MountThenOpen` | nuttx/fs/fs_mount.c:251-324 | mounting and then opening a path at or below the target names the new mount point, exactly when the mounted file system allows the access |
| `Mounting.MountableModes` | nuttx/fs/fs_findblockdriver.c:113-120 | a driver can be mounted exactly when it could be opened for reading, or for both |
| `DirStreams.EntriesNext` | nuttx/fs/fs_readdir.c:59-133 | following the peer pointer drops the first of the remaining entries |
| `DirStreams.FindDir` | nuttx/fs/fs_opendir.c:200-231 | the first node for the root, else exactly what the path denotes, or nothing |
| `DirStreams.OpenDir` | nuttx/fs/fs_opendir.c:188-313 | success and each error exactly in their cases, the stream's root and first entry those of the path; failing exits keep no reference; the stream has exactly the references it will return if and only if the path is the root or denotes a mount point, and otherwise its first entry is counted twice instead |
| `DirStreams.OpenDirMiscounts` | nuttx/fs/fs_opendir.c:281-298 | an example: in the tree /a/b opening /a counts b twice and a not at all |
| `DirStreams.OpenAndClose` | nuttx/fs/fs_closedir.c:77-149 | opening a directory and closing it again restores the references if and only if the path is the root or denotes a mount point |
| `DirStreams.OpenMountPoint` | nuttx/fs/fs_opendir.c:75-121 | one reference to the mount point, given back if its file system refuses |
| `DirStreams.ReadDir` | nuttx/fs/fs_readdir.c:59-133 | for streams of any kind: returns the entry at the position in its list, advances, and moves the one reference on the next entry along |
| `DirStreams.Walk` | nuttx/fs/fs_seekdir.c:71-89 | the loop stops at the wanted entry or at the end of the list |
| `DirStreams.SeekDir` | nuttx/fs/fs_seekdir.c:59-110 | afterwards the stream stands at the wanted entry, or at the end: going forward in its own list, going back in the list that starts at its root; the reference on the next entry moves along |
| `DirStreams.RewindDir` | nuttx/fs/fs_rewinddir.c:58-83 | afterwards the next entry is the root of the stream, which for a directory other than the root is the directory itself |
| `DirStreams.CloseDir` | nuttx/fs/fs_closedir.c:77-149 | the references to the next entry and to the root are returned; counts stay right if and only if the one to the root had been taken or no descriptor names it |
| `BlockBuffer.FlushKeepsDisk` | nuttx/drivers/rwbuffer.c:156-183 | a flush, on demand or by timeout, does not change what the user of the disk sees and leaves the media up to date |
| `BlockBuffer.WriteBufferWrites` | nuttx/drivers/rwbuffer.c:233-286 | a buffered write, appended or after a flush, changes the visible disk in exactly its blocks and keeps the bounds of the buffer; which of the two it is and what stays pending is `WriteGathers` |
| `BlockBuffer.WriteGathers` | nuttx/drivers/rwbuffer.c:233-286 | a write that continues the pending run and fits is gathered and nothing reaches the media; any other begins a run of its own behind a flush; one larger than the buffer goes to the media with all that was pending |
| `BlockBuffer.WriteAndWindow` | nuttx/drivers/rwbuffer.c:598-654 | a write empties the read-ahead window if it touches it, and otherwise leaves it alone |
| `BlockBuffer.WriteWrites` | nuttx/drivers/rwbuffer.c:598-654 | any write does, too large ones written through, and keeps the read-ahead buffer in agreement |
| `BlockBuffer.ReadLoopReads` | nuttx/drivers/rwbuffer.c:531-588 | the hit-and-reload loop returns the disk contents from any state of the window |
| `BlockBuffer.ReloadsSuffice` | nuttx/drivers/rwbuffer.c:531-588 | it ends: each reload covers the next wanted block, so one per block is always enough |
| `BlockBuffer.ReloadCoherentIff` | nuttx/drivers/rwbuffer.c:342-380 | a reload keeps both buffers in agreement if and only if no pending block of its whole window differs from the media |
| `BlockBuffer.ReadLoopLoads` | nuttx/drivers/rwbuffer.c:531-588 | what a read leaves in the window depends only on the last window it loads |
| `BlockBuffer.ReadLoopCoherentIff` | nuttx/drivers/rwbuffer.c:531-588 | a whole read keeps both buffers in agreement if and only if it loads no window, or no pending block of the last one differs from the media |
| `BlockBuffer.LoadIsLastWindow` | nuttx/drivers/rwbuffer.c:531-588 | when no reload fails that window starts a whole number of windows behind the first block not in the old one, so the condition can be computed before the call |
| `BlockBuffer.MissIsSafe` | nuttx/drivers/rwbuffer.c:117-134 | it is met whenever the windows that may be loaded for the range miss the pending blocks |
| `BlockBuffer.ReadReads` | nuttx/drivers/rwbuffer.c:498-592 | under the agreement of both buffers a read returns the latest data, and it keeps the agreement under exactly that condition |
| `BlockBuffer.StaleRead` | nuttx/drivers/rwbuffer.c:519-524 | an example: a block is written, a read elsewhere loads a window over it, and reading the block gives the old contents |
| `BlockBuffer.MediaRemovedFacts` | nuttx/drivers/rwbuffer.c:662-676 | removal of the media empties both buffers and loses exactly the pending blocks |
| `BlockBuffer.WriteRefines` | nuttx/drivers/rwbuffer.c:598-654 | the plain device keeps the disk, what would survive a removal, and the run of consecutive writes since; a buffered write moves it as the plain write does |
| `BlockBuffer.ReadSettles` | nuttx/drivers/rwbuffer.c:498-592 | a read makes the pending run safe exactly when it touches it, and changes nothing else the plain device knows |
| `BlockBuffer.StepRefines` | nuttx/drivers/rwbuffer.c:498-676 | each operation outputs what the plain device would and leaves it in the same state, what a removal would lose included, and keeps the agreement of the buffers if and only if it is safe |
| `BlockBuffer.RunRefines` | nuttx/drivers/rwbuffer.c:498-676 | so every safe sequence of reads, writes, timeout flushes and removals of the media outputs what the plain device would, which is defined by the operations alone |
| `BlockBuffer.OneBufferRuns` | nuttx/drivers/rwbuffer.c:498-676 | with only one of the buffers built in every sequence is safe and outputs what the plain device would |
| `RwBuffers.RwBuffer.WrFlush` | nuttx/drivers/rwbuffer.c:156-183 | the pending run is written to its place in one piece and the buffer is reset |
| `RwBuffers.RwBuffer.AppendBlocks` | nuttx/drivers/rwbuffer.c:233-286 | the buffer array holds the pending run, appended to or restarted |
| `RwBuffers.RwBuffer.RwbWrite` | nuttx/drivers/rwbuffer.c:598-654 | the in-place write is the write whose gathering and refinement are proved |
| `RwBuffers.RwBuffer.RhReload` | nuttx/drivers/rwbuffer.c:342-380 | loads the window from the wanted block to its length or the end of the device |
| `RwBuffers.RwBuffer.CountHits` | nuttx/drivers/rwbuffer.c:546-560 | counts the wanted blocks that are in the window |
| `RwBuffers.RwBuffer.RwbRead` | nuttx/drivers/rwbuffer.c:498-592 | the nested loops are the read the refinement is proved of |
| `RwBuffers.RwBuffer.RwbMediaRemoved` | nuttx/drivers/rwbuffer.c:662-676 | resets both buffers |
| `CanProtocol.XmitInOrder` | nuttx/drivers/can.c:351-370 | handing the head to an idle device sends the next accepted message |
| `CanProtocol.SemaphoreStep` | nuttx/drivers/can.c:740-769 | the semaphore goes up by one with every completion on a FIFO that is not empty while someone waits, down with every writer that wakes, and by nothing else; the number of waiters likewise |
| `CanProtocol.PutSound` | nuttx/drivers/can.c:409-475 | a put keeps the order of messages if and only if nobody has put one since the writer looked up the place behind the tail |
| `CanProtocol.StepSound` | nuttx/drivers/can.c:376-498 | every step of any writer and of the interrupt keeps: sent once and in order, in flight exactly when the FIFO is not empty, and no writer asleep that nothing will wake; exactly three can break it: a put at an out-of-date place, a sleep with nothing to wake it, and giving up a non-blocking write before the kick |
| `CanProtocol.RunSoundIff` | nuttx/drivers/can.c:376-498 | a run by any number of writers is sound throughout if and only if none of these steps occurs in it |
| `CanProtocol.BlockingRunSound` | nuttx/drivers/can.c:376-498 | blocking writers between whose beginning of a message and its put nobody else puts one keep all this, under every interleaving with the interrupt |
| `CanProtocol.OneWriterSound` | nuttx/drivers/can.c:376-498 | so a single blocking writer always does |
| `CanProtocol.OneWriterPosted` | nuttx/drivers/can.c:740-769 | in every state of its run a single blocking writer that sleeps while there is room has been posted |
| `CanProtocol.MessageLost` | nuttx/drivers/can.c:409-475 | an example: another writer puts a message while one sleeps, and an accepted message is never sent |
| `CanProtocol.WriterStranded` | nuttx/drivers/can.c:417-463 | an example: in the same way a writer goes to sleep on an empty FIFO |
| `CanProtocol.AtRest` | nuttx/drivers/can.c:740-769 | for such runs, when nothing is in flight everything accepted was sent exactly once, in order, and a sleeping writer has been posted |
| `CanProtocol.NonBlockingWriteSound` | nuttx/drivers/can.c:421-432 | a non-blocking write keeps this if and only if the FIFO was not empty or all messages fit; otherwise the transmitter is stalled |
| `CanProtocol.StallIsForever` | nuttx/drivers/can.c:376-498 | from a stall on no sequence of calls ever sends anything again |
| `CanProtocol.StallExample` | nuttx/drivers/can.c:421-432 | an example: two messages written non-blocking to an idle device whose FIFO holds one |
| `CanRing.RingPut` | nuttx/drivers/can.c:469-475 | storing at the tail and moving it to a place that is not the head appends to the queue the ring stands for if and only if that place is the next one |
| `CanRing.RingTake` | nuttx/drivers/can.c:746-753 | advancing the head removes the first |
| `CanRing.RingEmpty` | nuttx/drivers/can.c:376-498 | equal indices are the empty queue, and a tail just behind the head is the full one, one slot short of the buffer |
| `CanDriver.CanDevice.CanXmit` | nuttx/drivers/can.c:351-370 | sends the head of the ring if there is one |
| `CanDriver.CanDevice.CanTxDone` | nuttx/drivers/can.c:740-769 | removes the head, sends the next and posts a waiting writer: the step whose effect on queue and semaphore is proved |
| `CanDriver.RunsOccur` | nuttx/drivers/can.c:445-458 | every run of the others that leaves the writer asleep can happen meanwhile |
| `CanDriver.CanDevice.SemWait` | nuttx/drivers/can.c:445-458 | whatever other writers and the interrupt do during the wait is a run of the protocol, and all of it that is possible happens; the writer goes on only if it was posted, and not later than it is scheduled |
| `CanDriver.CanDevice.WaitForSpace` | nuttx/drivers/can.c:409-463 | ends when the place looked up before the first sleep is not the head, or with an error, and is a run of the protocol |
| `CanDriver.CanDevice.CanWrite` | nuttx/drivers/can.c:376-498 | a call, with all that others do while it sleeps, is a run of the protocol; a blocking call among blocking ones never takes the exit without the kick, a non-blocking one only puts what fits, and a call that has the driver to itself accepts a prefix of its messages in order, all of them on success |
| `ParserState.Argv` | apps/nshlib/nsh_parse.c:1115-1124 | a command of at most nine words is given to the shell as written, a longer one as its first nine |
| `ParserState.ControlKeepsStack` | apps/nshlib/nsh_parse.c:807-938 | every keyword and every syntax error keeps the stack of levels in shape |
| `ParserState.ConsoleKeepsStack` | apps/nshlib/nsh_parse.c:1042-1100 | so does every sequence of lines, well formed or not |
| `ParserState.FiHasLevel` | apps/nshlib/nsh_parse.c:905-918 | so the check for a missing level in `fi` never fires |
| `ParserState.ErrorIff` | apps/nshlib/nsh_parse.c:807-938 | which lines are syntax errors in which state |
| `ParserState.AfterError` | apps/nshlib/nsh_parse.c:920-938 | after one the shell is at its outermost level with a failed status and nothing was run |
| `ParserState.NothingToRun` | apps/nshlib/nsh_parse.c:1066-1100 | a line of which nothing is to be run leaves the exit status alone and succeeds |
| `Structured.ConsoleRunsProgram` | apps/nshlib/nsh_parse.c:776-962 | every well-nested program within the stack runs exactly the commands, in order, with their arguments and with the exit status, of its structured meaning, whatever the commands answer, and without a syntax error |
| `Structured.ConsoleRunsAsWritten` | apps/nshlib/nsh_parse.c:1042-1124 | the meaning is that of the lines as they are written when none has more than nine words |
| `Structured.TooDeepIsError` | apps/nshlib/nsh_parse.c:838-844 | a program deeper than the stack is met with a syntax error |
| `Structured.ScriptCuts` | apps/nshlib/nsh_fscmds.c:1243-1300 | the lines of a script run what the console would, cut after the first failing command that is not a test, and succeed if and only if there is none |
| `Structured.ScriptRunsProgram` | apps/nshlib/nsh_fscmds.c:1278-1294 | so a program run as a script is its structured meaning, cut there; it succeeds if and only if it has a line and no such command |
| `Nsh.NshParser.NshCmdEnabled` | apps/nshlib/nsh_parse.c:776-799 | commands run exactly when the current level and its branch allow it |
| `Nsh.NshParser.NshIfThenElse` | apps/nshlib/nsh_parse.c:807-938 | the in-place update of the level array is the control step the laws are proved of, error exits included |
| `Nsh.NshParser.NshSaveResult` | apps/nshlib/nsh_parse.c:945-962 | a result becomes the condition of an `if`, or the exit status |
| `Nsh.NshParser.GatherArgs` | apps/nshlib/nsh_parse.c:1115-1124 | the argument vector is the words of the command as far as it goes |
| `Nsh.NshParser.NshParse` | apps/nshlib/nsh_parse.c:1042-1124 | one line as the laws have it, with its status; the command is run with all its arguments |
| `Nsh.NshParser.ConsoleMain` | apps/nshlib/nsh_serial.c:488-506 | the read loop runs all its lines, whatever each returns |
| `Nsh.NshParser.NshScript` | apps/nshlib/nsh_fscmds.c:1243-1300 | the read loop stops at the first line that fails; a script without lines fails |
| `Tokens.NshArgument` | apps/nshlib/nsh_parse.c:634-769 | the scan over the mutated buffer returns the token, the buffer and the save pointer the laws below are proved of |
| `Tokens.FindStart` | apps/nshlib/nsh_parse.c:643-647 | stops at the first character that is not a delimiter |
| `Tokens.FindEnd` | apps/nshlib/nsh_parse.c:708-712 | stops at the first character that ends the token |
| `Tokens.ReadItem` | apps/nshlib/nsh_parse.c:634-769 | behind any delimiters a word, or a quoted text, is returned at its first character; the character that ends it becomes a NUL in the buffer and the save pointer is behind it, or at the end of the line |
| `Tokens.ReadVariable` | apps/nshlib/nsh_parse.c:732-764 | `$?` is the exit status as 1 or 0, any other `$NAME` the value of NAME |
| `Tokens.ReadRedirection` | apps/nshlib/nsh_parse.c:660-674 | `>` and `>>` are tokens of their own whatever follows them, and the buffer stays as it was |
| `Tokens.ReadNothing` | apps/nshlib/nsh_parse.c:649-685 | at a comment and at the end of the line there is no argument, now and whenever it is asked for |
| `Tokens.RoundTrip` | apps/nshlib/nsh_parse.c:634-769 | any list of non-empty arguments, each quoted or bare and separated by any delimiters, is read back exactly, followed by nothing, the save pointer advancing at each |
| `Tokens.RoundTripIff` | apps/nshlib/nsh_parse.c:634-769 | a list is read back if and only if no argument in it is empty |
| `TelnetInput.CutsDoNotMatter` | apps/nshlib/nsh_telnetd.c:364-452 | how the stream is cut into receive buffers has no effect |
| `TelnetInput.ReceiveEncoded` | apps/nshlib/nsh_telnetd.c:364-452 | for every mix of data, option negotiations and other commands the data is gathered as if sent alone, every negotiation is refused with its four bytes, in order, and other commands are skipped |
| `TelnetInput.PutLine` | apps/nshlib/nsh_telnetd.c:273-303 | a line of any length is given to the shell in pieces of a buffer less one, each cut losing a character |
| `TelnetInput.Delivered` | apps/nshlib/nsh_telnetd.c:273-303 | a line arrives as itself if and only if it is shorter than the line buffer |
| `TelnetInput.LinesArrive` | apps/nshlib/nsh_telnetd.c:364-452 | whatever commands are mixed in, wherever carriage returns stand and however the stream is cut, the shell is given exactly the lines sent, in order |
| `TelnetOutput.PrintExactly` | apps/nshlib/nsh_telnetd.c:589-634 | a string waits in the buffer while another line would fit behind it; otherwise all is sent at once; a string without room is cut |
| `TelnetOutput.PrintArrivesIff` | apps/nshlib/nsh_telnetd.c:589-634 | a non-empty string arrives whole with its line end expanded if and only if it fits the rest of the buffer |
| `TelnetOutput.ShortStringsArrive` | apps/nshlib/nsh_telnetd.c:589-634 | strings up to three short of a line always do |
| `TelnetOutput.EmptyStringAddsCr` | apps/nshlib/nsh_telnetd.c:612-621 | printing nothing changes nothing if and only if the buffer does not end in a newline |
| `TelnetOutput.EmptyStringExample` | apps/nshlib/nsh_telnetd.c:612-621 | an example: a newline and then the empty string |
| `TelnetOutput.SessionArrives` | apps/nshlib/nsh_telnetd.c:552-634 | over any sequence of strings, raw writes and flushes, what was sent followed by what is buffered is what was meant |
| `Telnetd.Connection.NshPutChar` | apps/nshlib/nsh_telnetd.c:273-303 | the index stays inside the line buffer for every input, and the shell is given what the buffer holds up to its terminator |
| `Telnetd.Connection.NshReceive` | apps/nshlib/nsh_telnetd.c:364-452 | the byte loop is the machine the laws are proved of |
| `Telnetd.Connection.NshFlush` | apps/nshlib/nsh_telnetd.c:338-354 | everything buffered is sent once |
| `Telnetd.Connection.NshTelnetOutput` | apps/nshlib/nsh_telnetd.c:589-634 | the in-place update never leaves the buffer and is the print the laws are proved of; the result is how much of the string was taken |
| `Telnetd.Connection.NshTelnetWrite` | apps/nshlib/nsh_telnetd.c:552-575 | raw bytes follow what was buffered |
| `Dd.SectorsPad` | apps/nshlib/nsh_ddcmd.c:593-598 | all sectors together are the input and less than a sector of zeros |
| `Dd.SectorsAreBytes` | apps/nshlib/nsh_ddcmd.c:578-619 | a range of sectors is the range of bytes at whole sector lengths |
| `Dd.DdState.ReadCh` | apps/nshlib/nsh_ddcmd.c:299-322 | every pattern of short reads fills the same sector and finds the end exactly when no byte is left |
| `Dd.DdState.ReadBlk` | apps/nshlib/nsh_ddcmd.c:274-292 | reading by offset gives the same sectors as reading on |
| `Dd.DdState.WriteCh` | apps/nshlib/nsh_ddcmd.c:242-267 | every pattern of short writes sends the sector once |
| `Dd.DdState.WriteBlk` | apps/nshlib/nsh_ddcmd.c:208-235 | sectors written by offset lie one behind the other from the start of the device, cut at its end |
| `Dd.DdState.Transfer` | apps/nshlib/nsh_ddcmd.c:578-619 | the output is exactly the wanted sectors, from the skipped ones up to the count or the end of input, as a stream or laid over the device |
| `Dd.CmdDd` | apps/nshlib/nsh_ddcmd.c:545-619 | the same for the whole command, which refuses to skip more than it counts and then changes nothing |
| `Symtab.FindByName` | nuttx/binfmt/symtab_findbyname.c:84-96 | the first entry of the name, or none |
| `Symtab.FindOrderedByName` | nuttx/binfmt/symtab_findorderedbyname.c:88-138 | on a sorted table the binary search meets the contract of the linear one, every probe inside the table |
| `Symtab.NamesAgree` | nuttx/binfmt/symtab_findorderedbyname.c:88-138 | so both return the same entry |
| `Symtab.FindByValue` | nuttx/binfmt/symtab_findbyvalue.c:85-120 | the first entry with the greatest value not above the given one |
| `Symtab.FindOrderedByValue` | nuttx/binfmt/symtab_findorderedbyvalue.c:84-126 | the entry of exactly that value, or none |
| `Symtab.ValuesAgreeIff` | nuttx/binfmt/symtab_findorderedbyvalue.c:84-126 | on a table sorted by value both agree if and only if the value is in the table or below all of it |
| `Symtab.ValuesDisagree` | nuttx/binfmt/symtab_findorderedbyvalue.c:84-126 | an example: searching 3 in a table of 1 and 5 |

## Left out

- Counters are unbounded: the 16-bit `i_crefs`, the 8-bit count of CAN waiters, the 32-bit sector numbers and offsets of `dd`. The one width that matters for a bound, the 8-bit telnet line index, is the condition that the line buffer has at most 256 bytes.
- Names are compared by character code; the signedness of the C `char` type is not modelled.
- Semaphores as primitives, scheduling between holders, and the exits of `rwb_read` that keep a semaphore.
- The exit of `mount` after a failing bind, `umount`, and the registration of drivers.
- Files.FileSystem.FilesAllocList: memory for the list is there.
- `f_priv`, and whether a driver's open and close calls balance.
- Mount point variants of reading, seeking and rewinding directories, and the entry type `readdir` reports.
- RwBuffers.RwBuffer.RwbRead: blocks are values, not byte ranges of a buffer, and the device's reads fail only when `reloads` runs out; failing writes are not modelled.
- The shell is the build without background commands (`CONFIG_NSH_DISABLEBG`), in which a command has at most ten argument entries. `nice` and what is done with a redirection are left out; commands leave the parser state alone.
- Tokens.NshArgument: a quote directly before the end of the line is excluded, since the scan then starts behind the terminator.
- The CAN device accepts every message it is given. Messages are whole values; a trailing piece shorter than a message is ignored by the code and not passed in here.
- The receiving side of the CAN driver, remote transmission requests and open counting.
- Telnetd.Connection.NshTelnetOutput: the empty string with an empty buffer is excluded, since the code then reads before the buffer. Sockets deliver what they are given.
- Dd.CmdDd: a sector size of zero, parsing of the options, and devices that report errors, at which the copy stops.
- Symtab.FindOrderedByName: an empty table is excluded, since the code reads its first entry.
- The thin path calls (`mkdir`, `rename`, `stat` and others), `cp`, `cat`, network commands and loading of programs would add single lookups only.
