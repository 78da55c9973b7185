# VeilOS, verified models

VeilOS is a bare-metal kernel for AArch64. This project models the parts of it that keep
data structures consistent, in memory and on disk, and proves what they promise. The
modules follow the kernel's files; the disk is a sequence of 512-byte sectors or a map of
voids, physical frames and heap blocks are maps, and no hardware is involved.

**FAT32** (`Runs`, `Spans`, `Bytes`, `FatChain`, `FatDisk`, `FatFile`, `FatDirectory`,
`Fat32`, `FatGap`). The allocation table is a forest of acyclic chains. `FatChain` is its
theory: uniqueness, sharing of tails, and what linking a free cluster does to every chain.
`FatDisk` shows that the table entries and the clusters are independent parts of the disk
image, and in which byte of which sector each of them is. The class `FatVolume` has the operations;
`Write` is proved against `Updates`, and `WriteThenRead` and `WriteKeepsOtherFiles` say
what that means for a reader. `FatGap` is about the bytes between the recorded size and a
write behind it.

**FAT names** (`FatNames`, `FatEntries`, `FatFolder`, `FatCases`, `FatLiterals`). How a name is cut over
directory slots, the short name made of it, the search for free slots, and the listing of a
directory. `FatFolder` does this on the volume: a file is created along the chain of its
directory, which may grow, a directory is listed along its chain, and the names outlive a
write to any file in it. `FatCases` are runs on small volumes that go wrong, and
`FatLiterals` has entries and a directory written out in bytes.

**Voidelle** (`VoidBitmap`, `VoidFs`, `VoidFile`, `VoidPath`, `VoidCreate`, `Voidelle`).
The tree of entries is ghost state tied to the voids on disk, from the empty volume on. A
file is a byte map extended by zeros, and a write is a point update of it; paths are looked
up in the tree, and creating a path changes the lookup of that path and of no other.

**Address spaces** (`PageIndex`, `PageTable`, `MapTree`, `Teardown`, `TaskMap`). The
four-level AArch64 translation tables of a task (Arm Architecture Reference Manual,
DDI 0487, section D8.3) and the eight-level tree of address bytes that mirrors them. Both
are trees of distinct blocks at all times; `Valid` says that they agree on every page, and
the end of a task frees every block of both once. What a mapping means is also stated byte
by byte: which physical address the hardware finds for an address, and with which rights.

**Page allocator** (`PageMap`, `Allocator`). First fit over page flags. The used pages are
always the disjoint union of the live blocks, with their header pages, and single pages.

**Scheduler** (`Ring`, `Scheduler`). A circular list with a head outside it, lazily rid of
killed tasks by the scheduling loop and by the timer. `Ring` is its theory on sequences; the
class is proved to follow it, and to hold no pointer to a reclaimed task. The loop is left
with each switch, so that the timer picks a task between any two: `Preempt` is this step.

**SHA-256** (`Sha256Spec`, `Sha256Constants`, `Sha256Vector`, `Sha256`). `Sha256Spec` is FIPS
180-4; the streaming buffer is proved to compute it however the message is cut. The constants
are proved to be those of the standard, roots of primes, and the digest of "abc" to be the
published one.

**Device tree search** (`FlatTree`, `FlatBytes`, `DeviceTree`, `FlatCase`). Trees, their
flattened bytes (Devicetree Specification, section 5.4), and the token loop that looks for a
path, with a run over a blob written out in bytes.

**IO devices** (`IoDevice`). Tokens, and permissions that only one of them can have.

`Options` holds the option type.

## What turned out otherwise

Where a promise fails, the code is kept as it is. Each failure has its exact condition and
an input at which it occurs.

- On a full volume `LinkFreeCluster` cuts the last cluster off the chain it should extend:
  `FatChain.LinkKeepsFilesIffFree`, `FatChain.LinkOnFullVolume`, `FatCases.LinkWhenFull`.
- Nothing clears the bytes between the recorded size of a FAT32 file and a write behind it,
  neither in the rest of its old last cluster nor in clusters newly linked. They read as
  zeros for all old contents of the disk exactly if the write starts at or before the
  recorded size: `FatGap.GapReadsZeroIff`, `FatCases.StaleGap`.
- A directory slot is found again by its short name alone: `FatDirectory.UpdatesOwnSlot`
  has the condition, and `FatDirectory.UpdatesOtherSlot` holds for every directory with two
  equal short names. Creation makes such names and does not look for them:
  `FatNames.ShortsCollide`.
- A file whose name starts with byte 0xE5 is created as a deleted slot, and its long
  entries then name the next file; a file is created where nothing is listed any more if an
  earlier cluster of the directory has an unused slot, but too few of them. These are the
  two cases in which a creation inside the directory is not listed as it should be:
  `FatNames.CreatedIff`, `FatFolder.CreateThenListDirectory`, `FatCases.CreatesDeleted`,
  `FatCases.HiddenFile`.
- A cluster linked to a directory is not cleared, and what it held is listed:
  `FatNames.AppendedIff`, `FatCases.StaleNames`.
- The node that a creation returns has its name pieces in reverse order:
  `FatFolder.CreateFatNode`, and `FatNames.ReturnedNameIff` for the condition.
- Creating "//name" on a Voidelle volume makes "/name", in front of an entry of that name
  that is there already, which cannot be reached any more: `VoidPath.CreateThenLookup`,
  `VoidPath.DoubleSlashCreate`.
- A Voidelle write sets the recorded size to offset + size. This is the larger of the old
  size and the end of the write exactly if the file was not longer
  (`Voidelle.VoidVolume.WriteVoidelle`); `Voidelle.SizeShrinks` shrinks a file of two bytes
  by writing one.
- `UnmapTaskPage` unmaps the range it is given only up to two pages, because it adds a
  growing offset to an advancing address: `TaskMap.UnmapsRangeIffTwo`. So the free system
  call leaves no page of the block mapped exactly if the block has at most two:
  `TaskMap.Task.UnmapAllocation`, `TaskMap.FreedPageStays`.
- With no room, the page allocator reports a run that the end of memory cuts short,
  exactly if the last page is free: `PageMap.OverrunIff`, `PageMap.OverrunHappens`.
- Left to the timer, the scheduler reclaims all killed tasks exactly if some task in the
  ring is alive or the number of tasks is odd: `Ring.AllReclaimedIff`,
  `Scheduler.KilledGoIff`. If two tasks exit one after the other, the second one is never
  reclaimed, and no tick does anything any more: `Scheduler.KilledTaskStays`.
- `get_next_task` picks a killed task exactly if the two tasks after the running one are
  both killed: `Ring.KilledRunsIff`, `Scheduler.KilledTaskPicked`. The timer and the loop
  together pick twice; they switch to a killed task exactly if the three tasks after the
  running one are killed: `Ring.KilledAfterTickIff`, `Scheduler.KilledTaskRuns`.
- A running task that is not killed is left by the timer and never resumed, exactly if the
  ring has three tasks and the other two are killed: the timer drops one, the scheduling
  loop the other, and then `switch_task` returns early for ever. `Ring.NeverResumedIff`,
  `Scheduler.LiveTaskStuck`.
- A task whose time is up is left exactly if another one is picked; otherwise it goes on with
  `stop` set, which only a switch to another task clears: `Scheduler.Scheduler.Tick`,
  `Scheduler.Scheduler.SwitchTask`. So a task that has used up its time alone is not preempted
  any more, although another one is added: `Scheduler.LoneTaskKeepsRunning`.
- The device tree search ignores the names of all ancestors but one, and never looks at the
  root's properties; it is right for every tree exactly for two-component paths:
  `FlatTree.RightIffTwo`, with `FlatTree.OneComponent` and `FlatTree.ThreeComponents`.
- The tokens of a task that ends are freed exactly if it is the task that runs:
  `IoDevice.Device.KillTokens`, `IoDevice.TokenLeaks`.
- kernel/memory/allocator.h describes `MemorySize` as the amount of memory allocated; the
  code returns the size that was asked for. The two are equal exactly if that size is a
  multiple of the page size: `Allocator.Allocator.MemorySize`, `Allocator.MeasureOneByte`.

## Model

| member | source | states |
|---|---|---|
| FatChain.ChainUnique | kernel/fs/fat32.c:212-230 | A cluster starts at most one chain, so following the table from it is well defined. |
| FatChain.EndMarks | kernel/fs/fat32.c:223-229 | 0x0FFFFFF8 is the first entry that ends a chain. |
| FatChain.ChainDistinct | kernel/fs/fat32.c:212-230 | No chain visits a cluster twice: walks along the table end. |
| FatChain.ChainsMeet | kernel/fs/fat32.c:212-230 | Two chains that share a cluster share everything after it, one being a tail of the other when no two entries name the same cluster. |
| FatChain.LinkKeepsForest | kernel/fs/fat32.c:271-286 | With a free cluster, linking keeps the table a forest: every chain with the same end grows by the lowest free cluster, every other chain is unchanged, and exactly that cluster stops being free. |
| FatChain.LinkKeepsFilesIffFree | kernel/fs/fat32.c:271-286 | Every file keeps the clusters it has exactly if some cluster is free before the link. |
| FatChain.LinkOnFullVolume | kernel/fs/fat32.c:271-286 | A full volume on which the link cuts the last cluster off a chain. |
| FatChain.OtherChainKept | kernel/interface/fs/fat32/write.c:39-73 | While one file grows, the chain of every start that shares no cluster with it stays as it was. |
| FatChain.GrownLink | kernel/interface/fs/fat32/write.c:41-45 | One more link keeps the growing file's chain a chain, at the price of one free cluster. |
| FatChain.GrownNew | kernel/interface/fs/fat32/write.c:24-32 | A first cluster taken for an empty file makes a chain of its own and changes no other. |
| FatDisk.EntryPlace | kernel/fs/fat32.c:216-218 | Sector and offset of an entry: they split the entry's byte position without loss and stay inside the table. |
| FatDisk.TableEntry | kernel/fs/fat32.c:212-230 | Entry n of the table is the 28 low bits of four bytes, the lowest first, of sector n / 128 of the table. |
| FatDisk.ContentByte | kernel/fs/fat32.c:232-241 | Byte i of cluster c is byte i % 512 of the sector that lies (c - 2) clusters and i / 512 sectors behind the start of the data. |
| FatDisk.EntryStoredEffect | kernel/fs/fat32.c:254-269 | Storing an entry in its sector changes that entry of the table and no other, and no cluster. |
| FatDisk.ClusterStoredEffect | kernel/fs/fat32.c:243-252 | Storing a cluster changes that cluster and no other, and no table entry. |
| FatDisk.SectorStoredEffect | kernel/fs/fat32.c:325-326 | Storing one sector of a cluster replaces those 512 bytes of it and nothing else. |
| FatDirectory.UpdatesOwnSlot | kernel/fs/fat32.c:288-337 | The slot an entry came from is the one overwritten exactly if no earlier slot has the same short name. |
| FatDirectory.UpdatesOtherSlot | kernel/fs/fat32.c:288-337 | If an earlier slot has the same short name, the first such slot is overwritten instead, and the own slot is left alone. |
| FatDirectory.FindInSector | kernel/fs/fat32.c:293-330 | Searching sector by sector finds the first slot of the whole directory. |
| FatDirectory.KeyIs | kernel/fs/fat32.c:299-310 | Slots are compared by their first eleven bytes up to a NUL. |
| FatDirectory.FieldBytes | kernel/fs/fat32.h:50-65 | In which bytes of a slot the halves of the cluster and the size are, the lowest byte first. |
| Fat32.FatVolume.FreeCluster | kernel/fs/fat32.c:184-210 | The scan returns the lowest free cluster from 2 on, 0 if there is none. |
| Fat32.FatVolume.NextCluster | kernel/fs/fat32.c:212-230 | The link of a cluster in the table, 0 at the end of a chain. |
| Fat32.FatVolume.WriteClusterLink | kernel/fs/fat32.c:254-269 | The table with one entry replaced by the low 28 bits of the value; the data is unchanged. |
| Fat32.FatVolume.LastCluster | kernel/fs/fat32.c:274-281 | The walk ends, at the last cluster of the chain. |
| Fat32.FatVolume.LinkFreeCluster | kernel/fs/fat32.c:271-286 | The table becomes the linked table, the data is unchanged, and the result is the lowest free cluster. |
| Fat32.FatVolume.ReadCluster | kernel/fs/fat32.c:232-241 | The content of that cluster. |
| Fat32.FatVolume.WriteCluster | kernel/fs/fat32.c:243-252 | The content with that cluster replaced, the table unchanged. |
| Fat32.FatVolume.PatchCluster | kernel/interface/fs/fat32/write.c:53-62 | Reading, changing and writing back a cluster replaces a stretch of its bytes. |
| Fat32.FatVolume.FirstCluster | kernel/interface/fs/fat32/write.c:22-32 | The file's first cluster, a chain of one made if it has none; all other chains and all data as before. |
| Fat32.FatVolume.SeekCluster | kernel/interface/fs/fat32/write.c:39-46 | Arrives at the cluster of the given index and extends the chain where it is too short. |
| Fat32.FatVolume.WriteClusters | kernel/interface/fs/fat32/write.c:48-73 | The write loop: all of buf ends up in the chain at the offset, over however many clusters. |
| Fat32.FatVolume.WriteContent | kernel/interface/fs/fat32/write.c:22-73 | The whole content part: chain length, bytes, other chains and other clusters. |
| Fat32.FatVolume.ReadNodeIndex | kernel/fs/fat32.c:592-603 | The cluster of that index in the chain, or failure past its end. |
| Fat32.FatVolume.ReadNode | kernel/fs/fat32.c:605-650 | The slice of the chain's bytes at offset, cut at the end of the chain; empty for directories and empty files. |
| Fat32.FatVolume.FindInSectorBuffer | kernel/fs/fat32.c:299-310 | The first slot of a sector with the given short name. |
| Fat32.FatVolume.UpdateEntry | kernel/fs/fat32.c:288-337 | The directory, over all its clusters, with its first slot of that short name replaced; every other cluster unchanged. |
| Fat32.FatVolume.Write | kernel/interface/fs/fat32/write.c:14-80 | The write as a whole (Updates): chain long enough, bytes at the window, directory slot, recorded size the larger of old and end of write, nothing else changed. |
| Fat32.WriteThenRead | kernel/interface/fs/fat32/write.c:22-79 | After a write the window reads back as written, older bytes outside it are kept, and bytes past the old end are what the new clusters held. |
| Fat32.WriteKeepsOtherFiles | kernel/interface/fs/fat32/write.c:22-79 | A file that shares no cluster with the written one or its directory has the same chain and reads the same. |
| FatGap.GapReadsZeroIff | kernel/interface/fs/fat32/write.c:22-79 | Over all old contents of the disk, the bytes from the recorded size up to the write read as zeros exactly if the write starts at or before that size. |
| FatNames.PieceText | kernel/fs/fat32.c:29-44 | The thirteen characters of a long entry give back the part of the name put into it, cut at its terminator. |
| FatNames.NameReadBack | kernel/fs/fat32.c:78-101 | Long entries in the order of the directory give back the whole name, for every name of 1 to 255 bytes. |
| FatNames.CreatedIff | kernel/fs/fat32.c:383-506 | Listing the directory after a creation in any free run gives the old entries, names and order unchanged, with the new name in between, exactly unless an unused slot is in front of the run or the short name starts with 0xE5; in the first case the listing is the old one, in the second the new long entries are read as part of the name of the next entry. |
| FatNames.CreatedKeeps | kernel/fs/fat32.c:383-506 | The directory with the new file again ends cleanly and has long entries only before the entry they name. |
| FatNames.AppendedIff | kernel/fs/fat32.c:501-590 | A file created in slots linked to the directory is all they add to the listing exactly if its name does not start with 0xE5, they list nothing else and hold no text in front of it. |
| FatNames.ShortStarts | kernel/fs/fat32.c:347-374 | The short name starts with 0xE5 exactly if the name does, and never with 0. |
| FatNames.ShortsCollide | kernel/fs/fat32.c:347-374 | Names without a dot that agree in their first eight characters get one short name. |
| FatNames.UpperCase | kernel/lib/string.c:89-94 | The 26 small letters become capitals, and nothing else changes. |
| FatNames.ShortNameIs | kernel/fs/fat32.c:46-76 | A slot whose stem and extension are filled up with spaces has the name stem, dot, extension. |
| FatNames.ChecksumTurns | kernel/fs/fat32.c:339-345 | Each step of the checksum turns the sum right by one bit and adds a character. |
| FatNames.CharacterBytes | kernel/fs/fat32.c:20-27 | Two bytes, the low one first, are its character, or a question mark if the high one is not 0. |
| FatNames.ReturnedNameIff | kernel/fs/fat32.c:491-501 | The name of the returned node is right for all names of a length exactly up to 13 characters. |
| FatNames.AscendingJoined | kernel/fs/fat32.c:491-501 | Joining the pieces in the order the creation keeps them puts the last piece first. |
| FatNames.ListingParts | kernel/fs/fat32.c:516-590 | A directory is listed part by part, long entries carrying over. |
| FatEntries.GenerateShort | kernel/fs/fat32.c:347-374 | The short name of a name in memory, with the characters that are read behind a name shorter than eight. |
| FatEntries.LfnChecksum | kernel/fs/fat32.c:339-345 | The rotating sum of the eleven characters. |
| FatEntries.PutCharacters | kernel/fs/fat32.c:424-461 | Characters, one terminator, then filler, as two-byte units; the other bytes of the slot are kept. |
| FatEntries.MakeLong | kernel/fs/fat32.c:409-461 | All 32 bytes of the long entry for a piece: order, attribute, checksum and characters. |
| FatEntries.HasRoom | kernel/fs/fat32.c:393-405 | Whether that many slots are free and inside the cluster. |
| FatEntries.CreateInSlots | kernel/fs/fat32.c:387-497 | Takes the first run of free slots of the cluster that fits, or none and changes nothing; the run then holds the pieces in reverse and the short entry. |
| FatEntries.Utf8Filename | kernel/fs/fat32.c:29-44 | The thirteen characters of a long entry, those outside one byte as question marks. |
| FatEntries.SetFilename | kernel/fs/fat32.c:78-101 | The name from the long entries, last entry first, or from the short entry. |
| FatEntries.ListCluster | kernel/fs/fat32.c:526-583 | One cluster more: the entries so far are extended by its own, pending long entries are carried on, and the end of the directory is reported exactly if the cluster has an unused slot. |
| FatFolder.GetFatEntries | kernel/fs/fat32.c:516-590 | The listing of all slots along the whole chain of the directory, long entries carrying over from cluster to cluster. |
| FatFolder.CreateInCluster | kernel/fs/fat32.c:385-497 | On the volume, the cluster is replaced by itself with the new entry in its first run of free slots that fits; the table and all other clusters stay, and nothing changes if none fits. |
| FatFolder.CreateFatNode | kernel/fs/fat32.c:376-506 | The file is in the first run that fits of the first cluster of the directory that has one, the chain being extended by free clusters while none has; every other chain and cluster is as before. The returned node has the place and the entry, and its name pieces in reverse order. |
| FatFolder.CreateThenListDirectory | kernel/fs/fat32.c:376-590 | Creation on the volume and listing from it. If the chain does not grow, the new name stands between the old entries exactly unless an earlier cluster has an unused slot or the name starts with 0xE5. If it grows, the new name and what the new clusters held follow the old entries, and nothing of this if the directory had an unused slot. All other clusters are unchanged. |
| FatFolder.UpdateKeepsNames | kernel/fs/fat32.c:288-337 | Updating the slot of a file keeps every name of the directory. |
| FatFolder.WriteKeepsNames | kernel/interface/fs/fat32/write.c:22-79 | After a write to one of its files the directory lists the same names, over all its clusters. |
| FatLiterals.EntryBytes | kernel/fs/fat32.c:347-480 | All 64 bytes of the long and the short entry of a new file "a.txt". |
| FatLiterals.DirectoryBytes | kernel/fs/fat32.c:516-590 | A directory given in bytes, with a short name, a deleted slot, a long name and an unused slot, and the two names it lists. |
| FatCases.LinkWhenFull | kernel/fs/fat32.c:271-286 | A volume without free cluster whose directory loses its only cluster when it is to be extended. |
| FatCases.StaleGap | kernel/interface/fs/fat32/write.c:14-80 | A file is created, one byte is written, and another at offset 3: byte 2 reads as what the disk held, while the recorded size was 1. |
| FatCases.CreatesDeleted | kernel/fs/fat32.c:376-590 | A file called 0xE5 is created in an empty directory, which then lists nothing. |
| FatCases.HiddenFile | kernel/fs/fat32.c:376-590 | A directory with one unused slot lists the same before and after a creation that needs two. |
| FatCases.StaleNames | kernel/fs/fat32.c:501-590 | A full directory, extended by a cluster that held another one, lists the old entry of that. |
| VoidBitmap.PrefixTaken | kernel/fs/voidelle.c:45-86 | In a bitmap of k leading ones exactly the voids below k are taken. |
| VoidBitmap.NextBitOfPrefix | kernel/fs/voidelle.c:57-74 | The count-trailing-zeros step finds and sets the first zero after n leading ones. |
| VoidBitmap.PrefixGrows | kernel/fs/voidelle.c:76-80 | Setting that bit turns k leading ones into k + 1. |
| VoidFs.VoidIsFull | kernel/fs/voidelle.h:77-82 | Position, successor and content of a voidite fill a void of 512 bytes. |
| VoidCreate.NameVoidsNeeded | kernel/fs/voidelle.c:288-291 | A name and its NUL take as few voidites as hold them, at 496 bytes each. |
| Voidelle.EmptyVolume | kernel/fs/voidelle.c:327-386 | A bitmap of three ones, the root and its name are a well-formed volume without files. |
| Voidelle.VoidVolume.Formatted | kernel/fs/voidelle.c:327-386 | A new volume satisfies the invariant that every operation keeps. |
| Voidelle.VoidVolume.GetFreeVoid | kernel/fs/voidelle.c:45-86 | Returns void k, which was not taken, and turns k leading ones into k + 1. |
| Voidelle.VoidVolume.GetContentAt | kernel/fs/voidelle.c:411-431 | The voidite of that index of a chain, or none past its end. |
| Voidelle.VoidVolume.AppendContent | kernel/fs/voidelle.c:228-241 | One more zeroed voidite at the end of a file's chain; every byte of every file reads as before. |
| Voidelle.VoidVolume.LastContent | kernel/fs/voidelle.c:212-222 | The last voidite of the content and how many there are. |
| Voidelle.VoidVolume.FillContent | kernel/fs/voidelle.c:197-242 | The chain grows to the count asked for, by zeros, and is never shortened. |
| Voidelle.VoidVolume.ReadVoidelle | kernel/fs/voidelle.c:455-496 | Exactly the requested slice of the zero-extended bytes, nothing for a directory. |
| Voidelle.VoidVolume.WriteVoidelle | kernel/interface/fs/voidelle/write.c:22-65 | A point update: the window becomes buf, every other byte of this file and every file, name and path stays. The recorded size is the end of the write; it is the larger of that and the old size exactly if the file was not longer. |
| Voidelle.SizeShrinks | kernel/interface/fs/voidelle/write.c:22-23 | A file of two bytes that has recorded size 1 after a write of one byte, although its second byte is still there. |
| Voidelle.VoidVolume.VoiditeFor | kernel/interface/fs/voidelle/write.c:36-40 | The voidite of that index, the chain filled up to it by zeros if it is too short. |
| Voidelle.VoidVolume.WriteRun | kernel/interface/fs/voidelle/write.c:34-62 | One round of the loop: the voidite's part of the window is stored, the chain extended first if it is too short. |
| VoidFile.AppendKeeps | kernel/fs/voidelle.c:228-241 | Appending a voidite keeps the whole volume well formed. |
| VoidFile.AppendOnly | kernel/fs/voidelle.c:228-241 | Appending a voidite touches the content of that file alone. |
| VoidFile.PatchRun | kernel/interface/fs/voidelle/write.c:42-60 | The stretch copied into voidite k is exactly the part of the window that lies in it. |
| VoidFile.PatchedEnd | kernel/interface/fs/voidelle/write.c:32-63 | Voidites patched up to the last one of the window amount to the point update. |
| Voidelle.VoidVolume.GetName | kernel/fs/voidelle.c:388-409 | The name an entry was created with, of any length, with its terminator. |
| Voidelle.VoidVolume.ChildByName | kernel/interface/fs/voidelle/voidelle.c:57-73 | The first child of that name, 0 if there is none. |
| Voidelle.VoidVolume.FindByPath | kernel/interface/fs/voidelle/voidelle.c:29-90 | Lookup of the path in the tree of entries. |
| Voidelle.VoidVolume.CutName | kernel/fs/voidelle.c:291-313 | The pieces a name is cut into, each in a void of its own. |
| Voidelle.VoidVolume.PopulateName | kernel/fs/voidelle.c:285-325 | The chain of name voidites, stored and linked. |
| Voidelle.VoidVolume.CreateEntry | kernel/fs/voidelle.c:357-386 | Header and name are written in fresh voids; the tree and all lookups are as before. |
| Voidelle.VoidVolume.Create | kernel/interface/fs/voidelle/create.c:24-45 | A new empty entry at an absent path, an error for a present one; all files keep their content, all headers but the link of the parent stay, and lookup changes for that path alone exactly unless it has the form //name. |
| VoidPath.JoinedComponents | kernel/interface/fs/voidelle/voidelle.c:43-85 | Cutting a path at its slashes loses nothing. |
| VoidPath.ParentLookup | kernel/interface/fs/voidelle/voidelle.c:15-27 | Where the parent of a path leads. |
| VoidPath.ReachUnique | kernel/interface/fs/voidelle/voidelle.c:29-90 | No two lists of components lead to the same entry. |
| VoidPath.ReachShadowed | kernel/interface/fs/voidelle/create.c:36-42 | An entry inserted under a directory is reached by its name even if the name was taken; what was below that name is not reached any more, and everything else is as before. |
| VoidPath.ReachInserted | kernel/interface/fs/voidelle/create.c:36-42 | If the name was absent, the new entry is reached by that directory's components and its name, and by nothing else; everything else is reached as before. |
| VoidPath.CreateThenLookup | kernel/interface/fs/voidelle/create.c:24-45 | The created path resolves to the new entry and every other path as before, exactly if it is not of the form //name. |
| VoidPath.DoubleSlashCreate | kernel/interface/fs/voidelle/create.c:24-45 | //name still does not resolve after its creation; /name leads to the new entry, whatever it led to before, nothing is found below it, and everything else is reached as before. |
| VoidCreate.CreateKeeps | kernel/fs/voidelle.c:604-611 | Linking the new entry to its parent makes it the first child and leaves the other children in their order; the volume stays well formed and every file keeps its content. |
| VoidCreate.UnlinkedKeeps | kernel/fs/voidelle.c:357-386 | Between writing and linking the entry the tree is still the old one. |
| PageIndex.TablePathInverse | kernel/memory/mmu.c:45-48 | The four indexes weigh 2^39, 2^30, 2^21 and 2^12 and give the page address back. |
| PageIndex.PageAtInverse | kernel/memory/mmu.c:45-48 | Every choice of four indexes is that of a page. |
| PageIndex.BytePathInverse | kernel/scheduler/task.c:60-62 | The bytes of an address below 2^48, the lowest first, give it back; the last two are 0. |
| PageIndex.PathsInjective | kernel/memory/mmu.c:45-48 | Different pages differ in their indexes and in their bytes. |
| PageTable.PageDescriptorFields | kernel/memory/mmu.c:91-98 | Frame, memory type, permissions and execute bits can be read back from the descriptor that is built; it is valid, inner shareable, not global and with the access flag set, and all other bits are 0. |
| PageTable.FrameIs | kernel/memory/mmu.c:21 | The frame of a word is its bits 12 to 47. |
| PageTable.TableDescriptorFields | kernel/memory/mmu.c:54 | The descriptor of a table is its frame with the two low bits set. |
| PageTable.WalkIsLeaf | kernel/memory/mmu.c:43-98 | The four-level walk finds exactly the valid last-level slots. |
| PageTable.AddTable | kernel/memory/mmu.c:50-81 | A blank table in an empty slot keeps the tables a tree of distinct frames and changes no translation. |
| PageTable.SetLeaf | kernel/memory/mmu.c:98-135 | Storing or clearing a descriptor changes that slot and no other. |
| MapTree.SlotsBelowIff | kernel/scheduler/task.h:40 | With 255 slots a node has one for every byte of all pages below an address exactly if the address is at most 0xFF0000. |
| MapTree.AddNode | kernel/scheduler/task.c:67-68 | A blank node in an empty slot keeps the tree and every mapping. |
| MapTree.MakeLeaf | kernel/scheduler/task.c:88-90 | Making a node a leaf maps its page and no other. |
| MapTree.RemoveLeaf | kernel/scheduler/task.c:127-140 | Unhooking and freeing a leaf forgets its page and no other. |
| TaskMap.Task.constructor | kernel/scheduler/task.c:256-290 | A new task translates nothing. |
| TaskMap.Task.EnsureTable | kernel/memory/mmu.c:50-81 | The table behind a slot, made if missing; no descriptor changes. |
| TaskMap.Task.MapTablePage | kernel/memory/mmu.c:43-99 | Insertion into the partial map of pages. |
| TaskMap.Task.UnmapTablePage | kernel/memory/mmu.c:101-136 | Deletion from the partial map of pages. |
| TaskMap.Task.EnsureLeaf | kernel/scheduler/task.c:64-71 | The node for an address and those above it, made as far as missing. |
| TaskMap.Task.EnsureChild | kernel/scheduler/task.c:67-70 | One step down the tree, the child made if it is missing. |
| TaskMap.Task.GetPagePA | kernel/scheduler/task.c:36-52 | What the tree holds for the page, 0 if nothing. |
| TaskMap.Task.GetTaskPagePA | kernel/scheduler/task.c:36-52 | Tree lookup and hardware walk agree: the frame the walk finds, 0 exactly if it finds none or frame 0. |
| TaskMap.Task.MapPage | kernel/scheduler/task.c:58-96 | One page is mapped in both and they still agree; every other page is translated as before. |
| TaskMap.Task.MapTaskPage | kernel/scheduler/task.c:54-97 | The pages of the range translate to consecutive frames with the permissions given, every other page as before; every one of the size bytes is found at its physical address, in normal memory with the rights asked for. |
| TaskMap.Task.UnmapPage | kernel/scheduler/task.c:107-141 | One page is unmapped in both and they still agree. |
| TaskMap.Task.UnmapTaskPage | kernel/scheduler/task.c:99-143 | Nothing happens if the first page translates to no frame; otherwise exactly the pages visited are unmapped, at triangular distances. |
| TaskMap.UnmapsRangeIffTwo | kernel/scheduler/task.c:104-108 | The pages visited are the pages of the range exactly for two pages at most. |
| TaskMap.MapAgrees | kernel/scheduler/task.c:88-92 | Mapping a page in tree and tables keeps them in agreement on every page. |
| TaskMap.UnmapAgrees | kernel/scheduler/task.c:127-141 | Unmapping a page in both keeps them in agreement. |
| TaskMap.Task.GetTaskValidVA | kernel/scheduler/task.c:181-203 | The lowest run of unmapped pages, from the second page on, that holds the size, if one ends at or below 0xFF0000: no byte of it is mapped, and at every lower page one of the size bytes is. |
| TaskMap.Task.MapAllocation | kernel/memory/allocator.c:144-158 | The malloc system call maps every byte of the new block, none of which was mapped, in the lowest place that takes it, and displaces no existing mapping, if a run of unmapped pages ends at or below 0xFF0000. |
| TaskMap.Task.UnmapAllocation | kernel/memory/allocator.c:160-170 | After the free system call no byte of the block is mapped exactly if the block has at most 8192 bytes. |
| TaskMap.FreedPageStays | kernel/memory/allocator.c:144-170 | Two allocations, of three pages and of one: after the first is freed one of its pages still translates. |
| TaskMap.Task.RemoveMapsFromNode | kernel/scheduler/task.c:145-163 | Every page below a node is unmapped, the nodes at and below it are freed once, all others stay. |
| TaskMap.Task.RemoveMaps | kernel/scheduler/task.c:173 | No page of the task is translated any more and no node is left. |
| TaskMap.Task.FreeTable | kernel/memory/mmu.c:138-158 | Every table below is freed once and no mapped page is; at the top level no table is left. |
| TaskMap.Task.KillTask | kernel/scheduler/task.c:173-176 | Tree and tables are freed completely. |
| Teardown.NextChild | kernel/scheduler/task.c:147-160 | While children are removed one by one, the next one is still whole. |
| Teardown.NothingMapped | kernel/scheduler/task.c:145-163 | With all leaves below the root cleared, the walk finds nothing. |
| Teardown.TablesEmpty | kernel/memory/mmu.c:138-158 | Tables that translate no page hold no valid page descriptor, so that freeing them frees tables only. |
| Sha256Spec.HashOfPrefix | kernel/lib/crypt/sha256.c:83-109 | Hashed blocks do not depend on what follows. |
| Sha256Spec.OctetsInverse | kernel/lib/crypt/sha256.c:136-146 | The bytes of a word, highest first, give the word back. |
| Sha256Spec.ChSelects | kernel/lib/crypt/sha256.c:63 | Bit by bit, the first word selects between the second and the third. |
| Sha256Spec.MajVotes | kernel/lib/crypt/sha256.c:66 | A bit is set exactly if it is set in at least two of the three words. |
| Sha256Constants.PrimesInOrder | kernel/lib/crypt/sha256.c:26-34 | The numbers used next are the first 64 primes. |
| Sha256Constants.ConstantsAreRoots | kernel/lib/crypt/sha256.c:26-34 | Constant t holds the first 32 bits of the fractional part of the cube root of prime t. |
| Sha256Constants.InitialAreRoots | kernel/lib/crypt/sha256.c:14-21 | The initial hash words hold those of the square roots of the first eight. |
| Sha256.Buff.constructor | kernel/lib/crypt/sha256.c:12-24 | The buffer of the empty message. |
| Sha256.Buff.CalcChunk | kernel/lib/crypt/sha256.c:38-81 | The compression of section 6.2.2 of FIPS 180-4. |
| Sha256.Buff.CalcSchedule | kernel/lib/crypt/sha256.c:40-55 | The message schedule. |
| Sha256.Buff.CalcRound | kernel/lib/crypt/sha256.c:60-77 | One round on the working variables. |
| Sha256.CalcBig0 | kernel/lib/crypt/sha256.c:65 | The rotations made of shifts are those of the standard's function for a. |
| Sha256.CalcBig1 | kernel/lib/crypt/sha256.c:62 | Likewise for e. |
| Sha256.CalcSmall0 | kernel/lib/crypt/sha256.c:52 | Likewise for the schedule word fifteen back. |
| Sha256.CalcSmall1 | kernel/lib/crypt/sha256.c:53 | Likewise for the schedule word two back. |
| Sha256.Buff.Update | kernel/lib/crypt/sha256.c:83-109 | The buffer of the message extended by the bytes given: whole blocks hashed, fewer than 64 bytes waiting. |
| Sha256.Buff.FillChunk | kernel/lib/crypt/sha256.c:88-97 | Completes and hashes the waiting chunk if there are enough bytes. |
| Sha256.Buff.HashBlocks | kernel/lib/crypt/sha256.c:99-104 | Takes all whole blocks. |
| Sha256.PaddedParts | kernel/lib/crypt/sha256.c:111-133 | The one or two last blocks of the padded message of section 5.1.1. |
| Sha256.Buff.StoreSize | kernel/lib/crypt/sha256.c:125-131 | The size in bits as eight bytes, highest first. |
| Sha256.Buff.Finalize | kernel/lib/crypt/sha256.c:111-134 | The hash value of the padded message. |
| Sha256.Buff.Read | kernel/lib/crypt/sha256.c:136-146 | The hash value as bytes. |
| Sha256.EasyHash | kernel/lib/crypt/sha256.c:167-174 | The digest of the data. |
| Sha256Vector.HashAbc | kernel/lib/crypt/sha256.c:167-174 | The digest of "abc" is the published one, all its 32 bytes, through all 64 rounds. |
| Sha256.HashPieces | kernel/lib/crypt/sha256.c:83-146 | Whatever pieces a message below 2^61 bytes is cut into, the digest is that of the whole. |
| PageMap.FirstFitIff | kernel/memory/allocator.c:30-65 | The place first fit finds has room for the run exactly if any place has, and is then the lowest. |
| PageMap.OverrunIff | kernel/memory/allocator.c:30-65 | With no room anywhere, a place is still reported exactly if the last page is free. |
| PageMap.OverrunHappens | kernel/memory/allocator.c:30-65 | A map of two pages on which a run of two is reported that only the end of memory cuts short. |
| PageMap.TakeKeeps | kernel/memory/allocator.c:47-57 | Taking a free run keeps the used pages the disjoint union of blocks and single pages. |
| PageMap.ReleaseKeeps | kernel/memory/allocator.c:109-117 | So does releasing a live block. |
| PageMap.SingleKeeps | kernel/memory/pmm.c:84-96 | So does taking a single page. |
| PageMap.ReleaseUndoesTake | kernel/memory/allocator.c:98-120 | Releasing a run just taken restores the flags. |
| PageMap.OwnHeader | kernel/memory/allocator.c:67-78 | From the start of a live block the first header page is the block's own. |
| Allocator.AddressesAre | kernel/memory/allocator.c:67-78 | Page 0 is at 0xFFFF000000000000, each page 4096 bytes behind the one before, and a byte of a page is found to be of that page. |
| Allocator.Allocator.constructor | kernel/memory/pmm.c:17-61 | A page map without headers has no live block, and its used pages are single. |
| Allocator.Allocator.CheckMemory | kernel/memory/allocator.c:30-39 | Whether the pages are free as far as memory goes. |
| Allocator.Allocator.GetFreePage | kernel/memory/allocator.c:41-65 | The lowest run with room, flagged as data pages and a header page. |
| Allocator.Allocator.GetHeader | kernel/memory/allocator.c:67-78 | The first header page from a page on, if any. |
| Allocator.Allocator.Malloc | kernel/memory/allocator.c:80-96 | A new block in the lowest run that takes it, with its header; 0 for size 0. |
| Allocator.Allocator.FreeBlock | kernel/memory/allocator.c:98-120 | Exactly the n + 1 pages of the block become free; the size that was asked for is returned. |
| Allocator.Allocator.MemorySize | kernel/memory/allocator.c:134-142 | The size that was asked for; it is the size of the block exactly if it is a whole number of pages. |
| Allocator.MeasureOneByte | kernel/memory/allocator.c:134-142 | A block of one byte takes a page and is reported as one byte. |
| Allocator.Allocator.GetPhysicalPage | kernel/memory/pmm.c:84-96 | The lowest free page, now used; 0 and no change if there is none. |
| Allocator.AllocateAndFree | kernel/memory/allocator.c:80-120 | Allocating and freeing restores page map and blocks. |
| Ring.EachRunsOnce | kernel/scheduler/scheduler.c:114-164 | Without kills, n rounds in a ring of n run every task once, in order. |
| Ring.EachPreempted | kernel/scheduler/scheduler.c:114-185 | So do n ends of time slices, if there are two tasks at least. |
| Ring.KilledAreDropped | kernel/scheduler/scheduler.c:114-164 | Where calls of get_next_task follow each other directly, finitely many of them leave exactly the tasks that are not killed. |
| Ring.AllReclaimedIff | kernel/scheduler/scheduler.c:114-185 | Time slice after time slice, all killed tasks are reclaimed exactly if some task in the ring is alive or the number of tasks is odd. |
| Ring.AliveKept | kernel/scheduler/scheduler.c:114-185 | No number of time slices drops a task that is not killed. |
| Ring.LoopedOnce | kernel/scheduler/scheduler.c:83-164 | The loop switches to another task in its first round, or goes on with the task it left until it has reclaimed it or for ever. |
| Ring.KilledRunsIff | kernel/scheduler/scheduler.c:119-153 | One call of get_next_task picks a killed task exactly if the two tasks after the running one are killed. |
| Ring.KilledAfterTickIff | kernel/scheduler/scheduler.c:156-185 | At the end of a time slice the timer and the loop switch to a killed task exactly if the three tasks after the running one are killed, be the running one killed or not. |
| Ring.NeverResumedIff | kernel/scheduler/scheduler.c:83-185 | A tick that ends the time of a task that is not killed leaves it for the loop, and the loop then picks it for ever without resuming it, exactly in a ring of three whose other two tasks are killed. |
| Scheduler.Scheduler.AddTask | kernel/scheduler/scheduler.c:55-74 | The task is appended to the circular list. |
| Scheduler.Scheduler.GetNextTask | kernel/scheduler/scheduler.c:114-154 | At most one task is reclaimed, a killed one; the result is a member of the ring, null exactly if the ring is empty; the view from the running task is the old one without the dropped task. |
| Scheduler.Scheduler.UnlinkNext | kernel/scheduler/scheduler.c:121-143 | The next task leaves the ring, the list stays circular, and the head and the running task stay valid. |
| Scheduler.Scheduler.Step | kernel/scheduler/scheduler.c:156-164 | One scheduling step is one round on the ring. |
| Scheduler.Scheduler.Run | kernel/scheduler/scheduler.c:156-164 | k steps are k rounds. |
| Scheduler.Scheduler.Schedule | kernel/scheduler/scheduler.c:156-164 | The loop runs until it switches to another task; from the second round on it changes nothing if it does not. |
| Scheduler.Scheduler.Preempt | kernel/scheduler/scheduler.c:156-185 | Ticks to the end of the time slice and the loop behind them: the ring as Preempted says, and preemption off exactly if at most one task is left. |
| Scheduler.Scheduler.RunPreempted | kernel/scheduler/scheduler.c:156-185 | n of these. |
| Scheduler.KilledGo | kernel/scheduler/scheduler.c:114-164 | From every state with a killed task, some number of calls of get_next_task that follow each other directly leaves exactly the tasks that are not killed. |
| Scheduler.KilledGoIff | kernel/scheduler/scheduler.c:114-185 | From a state in which the timer preempts, all killed tasks of the ring are reclaimed exactly if some task is alive or the number of tasks is odd. |
| Scheduler.Scheduler.SwitchTask | kernel/scheduler/scheduler.c:83-104 | The given member runs; preemption is enabled again exactly if it did not run before. |
| Scheduler.Scheduler.ExitProcess | kernel/scheduler/scheduler.c:196-201 | The running task is marked killed and has no time left; no other task changes. |
| Scheduler.Scheduler.Tick | kernel/scheduler/scheduler.c:166-185 | A tick acts only while preemption is enabled: it counts down, and at the end of the time disables preemption, drops at most one killed task, and leaves the running task exactly if another one is picked. |
| Scheduler.FiveTicks | kernel/scheduler/scheduler.c:166-185 | A task keeps running for four ticks and is left at the fifth. |
| Scheduler.KilledTaskPicked | kernel/scheduler/scheduler.c:114-154 | From an empty ring, by adding three tasks and two exits, a state in which get_next_task returns a killed task. |
| Scheduler.KilledTaskRuns | kernel/scheduler/scheduler.c:114-201 | From an empty ring, by adding four tasks, ticks and three exits, a switch to a killed task. |
| Scheduler.KilledTaskStays | kernel/scheduler/scheduler.c:114-201 | From an empty ring, by adding two tasks, ticks and two exits: a killed task stays the current one, however many ticks follow. |
| Scheduler.LiveTaskStuck | kernel/scheduler/scheduler.c:156-185 | From there ticks and any number of rounds of the loop: the task that is left is alive and still the current one, and no round resumes it. |
| Scheduler.LoneTaskKeepsRunning | kernel/scheduler/scheduler.c:166-185 | A task whose time ran out while it was alone runs on after another one is added, however many ticks follow. |
| Scheduler.Relinked | kernel/scheduler/scheduler.c:140-142 | Unlinking the task after any place keeps the list circular. |
| FlatTree.SearchTree | kernel/interface/dtb.c:82-130 | Over the tokens of a tree, with or without NOP tokens, the search finds the first property named by a component directly in a node at the depth, and with the name, of the component before. |
| FlatTree.TwoComponents | kernel/interface/dtb.c:69-131 | For a path of two components that is the property the path names. |
| FlatTree.OneComponent | kernel/interface/dtb.c:69-131 | A path of one component finds nothing. |
| FlatTree.ThreeComponents | kernel/interface/dtb.c:69-131 | For every longer path, a tree in which a property under an unnamed parent is found. |
| FlatTree.RightIffTwo | kernel/interface/dtb.c:69-131 | The search is right for all trees with distinct sibling names exactly for paths of two components. |
| FlatBytes.BigInverse | kernel/interface/dtb.c:84 | Big-endian words are read back as written. |
| FlatBytes.BigOrder | kernel/interface/dtb.c:73-84 | The highest byte of a word comes first, and the magic number is D0 0D FE ED. |
| FlatBytes.ComponentIn | kernel/interface/dtb.c:43-58 | Where a component of a path starts and what ends it. |
| DeviceTree.ComponentIs | kernel/interface/dtb.c:95-96 | Whether the component of the path at a depth is the name. |
| DeviceTree.PathCmp | kernel/interface/dtb.c:25-41 | 0 exactly if component and name are equal. |
| DeviceTree.GetPathComponent | kernel/interface/dtb.c:43-58 | The start of the component at a depth, none at other depths. |
| DeviceTree.ParseDTB | kernel/interface/dtb.c:69-131 | Terminates; length and place of the value of the property found in the tree, 0 if none is found or the magic number is wrong. |
| FlatCase.FindReg | kernel/interface/dtb.c:69-131 | A blob of 100 bytes in which /memory/reg is found, behind a name and with a value that need filling, and with a NOP. |
| IoDevice.OwnKeeps | kernel/interface/iodevice.c:63-104 | Adding a token keeps the taken permissions the union of what live tokens exclude, and these disjoint. |
| IoDevice.FreeKeeps | kernel/interface/iodevice.c:180-202 | So does giving a token back. |
| IoDevice.ExclusiveMeans | kernel/interface/iodevice.c:63-104 | No two live tokens share an exclusive permission. |
| IoDevice.Device.CheckAvailability | kernel/interface/iodevice.c:15-22 | A permission that is asked for can be had exactly if it is supported and shared or not taken. |
| IoDevice.Device.Own | kernel/interface/iodevice.c:63-104 | Refused exactly if a permission is unsupported or taken, and then nothing changes; otherwise a token at an index that was not live. |
| IoDevice.Device.Free | kernel/interface/iodevice.c:180-202 | Only a live token of the running process is given back, with exactly its exclusive permissions. |
| IoDevice.Device.CheckDevice | kernel/interface/iodevice.c:204-220 | True exactly for a live token of the running process with the permission. |
| IoDevice.Device.KillTokens | kernel/scheduler/task.c:167-171 | The tokens of an ending task become available exactly if that task is the one that runs. |

## Left out

- EMMC, mailbox, GPIO, UART, interrupt controller, timer and framebuffer drivers: register I/O.
- Assembly, TLB maintenance, ASID allocation, and the saving and loading of registers: scheduling is modelled by its steps, and a task that is switched to runs until the next one.
- The kernel's own translation tables, which the allocator fills as it goes (kernel/memory/mmu.c:23-41): they are taken to be present.
- Read errors of the SD card, and 32-bit overflow of byte positions on it.
- FAT mirrors, WriteToFatNode, cleaning the clusters of an updated entry, and path lookup on FAT32; the caller of Write passes the node.
- Fat32.FatVolume.Write: assumes enough free clusters, a size below 4 GiB, table entries that name data clusters, and 512-byte sectors, because FreeCluster's failure is not checked by the code.
- FatFolder.CreateFatNode: some cluster of the directory or some free one has room, because the code goes on with cluster 0 when none is left; the read past the buffer before the bound is checked and the further fields of the returned node are not modelled.
- FatEntries.GenerateShort: eight bytes can be read from the start of the name on, as the code reads them.
- FatFolder.GetFatEntries: the array of twenty pending long entries has no bound here, the extension of a node is left out, and the cluster buffer, which the code frees after the first cluster and goes on using (kernel/fs/fat32.c:581), is taken to stay its own.
- FatNames.CreatedIff: the directory is taken to have nothing behind its first unused slot and long entries only in front of the entry they name.
- FatFolder.CreateThenListDirectory: likewise for the directory before the creation, but not for clusters that are linked; the attributes are not those of a long entry.
- FatFolder.WriteKeepsNames: no earlier slot has the short name of the written file; FatDirectory.UpdatesOtherSlot has the other case.
- Voidelle deletion, which is not reachable through the file system interface, and user ids and time stamps.
- Voidelle.VoidVolume.Formatted: the volume after root and name are stored; nothing in the kernel calls the code that writes them one by one.
- Voidelle.VoidVolume.GetFreeVoid: fewer than 4096 voids in use, because the position of later bitmap sectors is computed wrongly (kernel/fs/voidelle.c:53).
- Voidelle.VoidVolume.WriteVoidelle: e is a file; the code does not look at the directory flag and would patch the headers of children as if they were content. offset + size is positive, because the last voidite index of an empty write at offset 0 wraps around; free voids suffice.
- Voidelle.VoidVolume.Create: the parent exists and is a directory; the code does not check either.
- TaskMap.Task.MapTaskPage: addresses below 2^48 with no byte 0xFF, because a tree node has 255 slots; blocks come from a pool of fresh page-aligned addresses that is large enough.
- TaskMap.Task.UnmapTaskPage: if the first page translates, the pages visited are mapped; the code panics or follows a null pointer otherwise.
- TaskMap.Task.UnmapAllocation: likewise, and all pages of the block are mapped; that the block is freed is Allocator.Allocator.FreeBlock.
- TaskMap.Task.GetTaskValidVA: a run of unmapped pages ends at or below 0xFF0000, because the scan for a later run looks up page 0xFF0000, which reads behind the 255 slots of a node (MapTree.SlotsBelowIff); the search up to the kernel half is not modelled.
- TaskMap.Task.MapAllocation: likewise.
- The full_children counters of the mapping tree: maintained, never used for a decision.
- Sharing of mapped pages between tasks, the name, stack and register blocks of a task, and its device list.
- Allocator.Allocator.Malloc: a full free run exists and sizes do not wrap around; realloc is left out.
- Allocator.Allocator.FreeBlock: called with the start of a live block; other pointers make the code free foreign pages.
- Allocator.Allocator.MemorySize: called with the start of a live block, like FreeBlock.
- Allocator.Allocator.constructor: the initial page map is a parameter; the loops over the device tree and the reserved memory that fill it are not modelled.
- GetTaskByPID and process id lookup in the scheduler.
- The hexadecimal form of a SHA-256 digest.
- DeviceTree.ParseDTB: well-formed blobs and paths that start with a slash; names contain no slash.
- The list of devices by category, reading and writing through a device, and the cursor.
- ELF loading, users and passwords, the table of open files, printing and string helpers.
