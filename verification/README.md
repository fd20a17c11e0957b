# ChrisOS core: a verified model

ChrisOS is a small i686 kernel. This project models the parts of it that keep
state under strong invariants, in Dafny 4.11, and proves what those parts are
for. `dafny verify dfyconfig.toml` checks everything.

* **File system** (`Fat32*.dfy`, `SlotTable.dfy`). The disk is an array of
  512-byte sectors. `Fat32Layout` gives the sector arithmetic and a view of the
  disk as one table of words and one byte string per cluster; `Fat32Chains`
  walks, frees and allocates; `Fat32Directory` has slots and 8.3 names;
  `Fat32Files` defines well-formed volumes and the map from names to contents;
  `Fat32Operations` and `Fat32Theorems` prove that create, write, read and
  delete implement that map; `Fat32Volume` is the driver itself, buffers and
  loops included, proved to follow the operations.
* **Heap** (`HeapBlocks.dfy`, `Heap.dfy`). The list of blocks as a
  specification, and the in-memory linked headers that implement it.
* **Scheduler** (`SchedSpec.dfy`, `SchedStacks.dfy`, `Sched.dfy`). A state
  machine with its fairness and restoration theorems, what the stacks must
  satisfy, and the pushes and pops of the assembly on heap-allocated stacks.
* **Line drawing** (`Line.dfy`). The incremental loop against rounded division.
* **Network** (`Checksum.dfy`, `Packets.dfy`, `Arp.dfy`, `NetStack.dfy`,
  `TcpSpec.dfy`, `TcpReplies.dfy`, `TcpWaits.dfy`, `TcpPeers.dfy`, `Tcp.dfy`,
  `DnsSpec.dfy`, `Dns.dfy`, `Cache.dfy`). Checksums, UDP in IPv4 in Ethernet
  with address resolution, TCP sockets with their ring buffers, what they put on
  the wire and what waiting for connections, data and answers guarantees, the
  resolver, and the ARP and DNS caches.
* **Installer** (`Installer.dfy`). The conversation and the sector copy.

## How to read the model

* The target is 32-bit and little-endian, so a heap header has 12 bytes.
  `Bytes.dfy` defines the memory words; wrap-around and truncation are written
  out wherever the code depends on them.
* Methods carry the loops and in-place updates of the C code. Each is proved against
  a specification function or relation on values, and the theorems are about
  those specifications. What the formats are (entries, headers, segments, queries)
  is said byte by byte, apart from the functions that build and read them.
* File-system theorems about contents are for well-formed volumes: live names
  are distinct, chains end and share no cluster with one another or with the
  root directory, and unused slots come last. Every table index from 2 up names
  a data cluster, because the allocator does not compare with a cluster count,
  and the root directory is one cluster, because the driver reads only one. The
  view-level operations, and the guarantee that a refused write changes nothing,
  need less: links in range, also those of the live entries.
* A name whose 8.3 form starts with byte 0xE5 is written but is found deleted
  afterwards; the map then does not change (`Bind`). An empty file and an absent
  file both read as 0.
* Heap and scheduler memory is an array of words indexed by byte address, used
  at multiples of 4. Payload addresses are 4-byte aligned, not 8-byte aligned:
  only sizes are rounded to 8.
* The waits for packets take the arrivals as a parameter: a sequence of polls,
  each with everything that has arrived by then. The wait is checked between
  polls, as in the code, and running out of polls is the timeout. Nothing is
  assumed about what arrives.
* A received DNS message comes with an arbitrary memory behind it, because the
  answer walk may leave the message.
* The threads table and the boot stack lie below the heap and apart from each
  other, in either order.
* The receiver side reads what the code reads: lengths come from the headers,
  header checksums are not looked at, received sequence numbers are not compared.

## Where the code falls short, and exactly when

* `align_up` wraps: `HeapBlocks.GrantHoldsRequest`.
* The listing and the name parser are inverse only on canonical names:
  `Fat32Directory.NameRoundTrip`.
* Data written under a name whose 8.3 form starts with 0xE5 takes a cluster that
  no file owns: `Fat32Theorems.StepLeaks`.
* The TCP ring has no overflow check: `TcpSpec.RingHoldsExactly`.
* `tcp_send` counts bytes it cuts off: `TcpSpec.SendWhole`.
* `tcp_open` does not reserve the socket it returns: `TcpWaits.TwoOpensAlias`,
  `TcpWaits.SecondOpen`, `TcpWaits.OpenNotReserved`.
* A reset handled in the same poll as the acceptance undoes a connection that
  `tcp_connect` waits for: `TcpWaits.ResetOvertakes`, `TcpWaits.ConnectResolves`.
* A second reply handled in the same poll replaces the address that `dns_lookup`
  returns: `Dns.SecondReplyOverwrites`, `Dns.LookupResolves`.
* The answer walk does not understand labels followed by a compression pointer:
  `DnsSpec.NameSkipExact`, `DnsSpec.AddressFoundExactly`.
* Names of 64 bytes and more are cached under a shortened key and never found,
  but answer lookups of the shortened one: `Dns.CachedName`, `Dns.SecondLookup`,
  `Dns.PrefixAnswered`.
* A datagram for a host that nobody answers for is sent to the zero hardware
  address: `Arp.SentIntoTheVoid`.
* A header that announces less than its own length yields a length near 65536:
  `Packets.HeaderRead`, `Packets.DatagramRead`.

## Model

| member | source | states |
|---|---|---|
| `Fat32Layout.TimesIsProduct` | fs/fat32.c:22 | the cluster address arithmetic is the product the driver computes |
| `Fat32Layout.BootSectorLocates` | fs/fat32.c:154-168 | from the bytes of the boot sector, at the offsets of fs/fat32.h: where the table starts on the disk (sector 20480 onwards), how many entries it has, and where every cluster starts |
| `Fat32Layout.EntryBytes` | fs/fat32.c:35-44 | a table entry is spelled by four bytes of its sector, low byte first |
| `Fat32Layout.FatBounds` | fs/fat32.c:164-165 | the first table copy, the second copy and the clusters follow one another on the disk without overlap |
| `Fat32Layout.ClustersApart` | fs/fat32.c:21-31 | different clusters occupy disjoint sector ranges |
| `Fat32Layout.TableCell` | fs/fat32.c:62-69 | word `i` of table sector `s`, as the allocation scan indexes it, is the entry that the division and remainder of `fat_get` and `fat_set` find |
| `Fat32Layout.ViewAt` | fs/fat32.c:35-44 | entry `i` of the table view is the word at sector `i / 128`, offset `i % 128 * 4`; every cluster of the view is its sectors joined |
| `Fat32Layout.PutTableSectorEffect` | fs/fat32.c:46-59 | rewriting one word in every maintained copy changes exactly that entry of the view, keeps the first two copies equal and writes no sector outside the volume's own |
| `Fat32Layout.PutClusterEffect` | fs/fat32.c:27-31 | writing a cluster changes exactly that cluster of the view and leaves the table copies equal |
| `Fat32Layout.CopiesAgreeExact` | fs/fat32.c:54-57 | the inductive form of "the copies agree" holds exactly when each sector of the second copy equals its twin |
| `Fat32Chains.SetLink` | fs/fat32.c:52-53 | a stored link reads back and the top 4 bits of the word survive |
| `Fat32Chains.FreeWalkExact` | fs/fat32.c:87-93 | on any in-range table, cyclic or cross-linked, freeing terminates and zeroes exactly the least set of clusters closed under links from the start |
| `Fat32Chains.FreeChainExact` | fs/fat32.c:87-93 | on a proper chain freeing zeroes exactly the clusters of that chain |
| `Fat32Chains.FirstFreeExact` | fs/fat32.c:62-84 | allocation takes the least free cluster from 2 up, and reports 0 exactly when there is none |
| `Fat32Chains.AllocThenFree` | fs/fat32.c:62-93 | a cluster allocated and freed again leaves the table bit for bit as it was |
| `Fat32Chains.ChainUnique` | fs/fat32.c:224-230 | a start cluster determines its chain |
| `Fat32Chains.ChainExact` | fs/fat32.c:224-230 | link by link: a chain is a sequence of used table entries, each giving the next in its low 28 bits, that ends with 0, 1 or a value from 0x0FFFFFF8 up |
| `Fat32Chains.ChainAcyclic` | fs/fat32.c:224-230 | a chain that ends visits no cluster twice |
| `Fat32Chains.ChainFrame` | fs/fat32.c:224-230 | a chain depends on the links of its own clusters only |
| `Fat32Directory.NewEntryReads` | fs/fat32.c:326-338 | name, first cluster and size read back from a stored entry, which is live unless its name starts with 0x00 or 0xE5 |
| `Fat32Directory.NewEntryBytes` | fs/fat32.c:326-338 | the entry byte by byte: name, attribute 0x20, zero times, cluster and size low byte first at the offsets of fs/fat32.h |
| `Fat32Directory.SetSlotReads` | fs/fat32.c:326-340 | storing an entry changes its slot and no other |
| `Fat32Directory.FindExact` | fs/fat32.c:120-142 | when unused slots come last, the search reports the first live slot with the name, and fails exactly when there is none |
| `Fat32Directory.SearchExact` | fs/fat32.c:120-142 | in bytes: a slot is reported exactly if one starts with the name, is not 0x00 or 0xE5 first and has no attribute 0x0F, and then the first such slot |
| `Fat32Directory.FreeExact` | fs/fat32.c:120-142 | after a failed search the free offset is the first unused or deleted slot, and -1 exactly when the directory is full |
| `Fat32Directory.CaseInsensitive` | fs/fat32.c:97-115 | names whose bytes are equal or the same letter in the other case have the same 8.3 form, and it has no small letter |
| `Fat32Directory.DottedName` | fs/fat32.c:97-115 | a base of at most 8 characters, a dot and an extension become the two fields, letters raised, padded with spaces, the extension cut to 3 |
| `Fat32Directory.UndottedName` | fs/fat32.c:97-115 | without a dot among the first 9 characters the base is the first 8 and the extension is blank, however long the name |
| `Fat32Directory.NameRoundTrip` | fs/fat32.c:97-115 | typing back what the listing prints (lines 183-193) gives the stored 11 bytes if and only if the stored name is canonical: padded, upper case, no NUL, no dot in the base |
| `Fat32Directory.PrintedChars` | fs/fat32.c:183-193 | the listing prints exactly the bytes of the stored name, a dot before a non-blank extension, and no padding |
| `Fat32Files.ChainsDetermined` | fs/fat32.c:224-230 | the table and the directory determine the chain of every slot |
| `Fat32Files.ConcatAt` | fs/fat32.c:224-230 | cluster `i` of a chain supplies the bytes from `i` cluster sizes on |
| `Fat32Files.FilesAt` | fs/fat32.c:215-231 | the file map sends the name of a live slot to the first `size` bytes of its chain |
| `Fat32Files.FindIsLookup` | fs/fat32.c:215-216 | the search finds a name exactly when the file map has it |
| `Fat32Operations.CreateCorrect` | fs/fat32.c:234-272 | create succeeds exactly for a new name with a free slot and then binds it to the empty file; it keeps the volume well-formed |
| `Fat32Operations.CreatedBytes` | fs/fat32.c:234-272 | create changes one slot of the directory, to the entry of an empty file byte by byte, and nothing else |
| `Fat32Operations.ReleaseKeeps` | fs/fat32.c:293-298 | freeing one slot's chain leaves every other file and chain intact |
| `Fat32Operations.TakeKeeps` | fs/fat32.c:310-323 | allocating a free cluster touches no file, and the cluster belonged to nobody |
| `Fat32Operations.FreeWalkMakesRoom` | fs/fat32.c:298-311 | once an old chain has been freed, the following allocation cannot report a full disk, whatever the shape of the chain |
| `Fat32Operations.RefusedWrite` | fs/fat32.c:275-323 | a refused write leaves the view unchanged, and refusal happens exactly when the data exceeds a cluster, a new name meets a full directory, or no cluster is free and the old file owns none |
| `Fat32Operations.WriteCorrect` | fs/fat32.c:275-343 | a successful write binds the name to exactly the data, keeps every other file and keeps the volume well-formed |
| `Fat32Operations.WrittenBytes` | fs/fat32.c:275-343 | a write stores the data at the start of the cluster it takes, zeros behind it, and the entry byte by byte; no other cluster and no other slot changes |
| `Fat32Operations.DeleteCorrect` | fs/fat32.c:346-366 | delete succeeds exactly for a stored name and removes that binding only |
| `Fat32Operations.DeletedBytes` | fs/fat32.c:346-366 | delete changes one byte of the directory, the first of the slot, to 0xE5, and no other cluster |
| `Fat32Operations.LookupExact` | fs/fat32.c:207-231 | the entry a read follows carries the chain and size of the file the map has under that name |
| `Fat32Theorems.StepRefines` | fs/fat32.c:234-366 | every operation is the corresponding map update when it succeeds, no change when it does not, and keeps the volume well-formed |
| `Fat32Theorems.RunRefines` | fs/fat32.c:234-366 | after any sequence of create, write and delete the volume is well-formed and stores what replaying the successful ones on the map gives |
| `Fat32Theorems.TopBitsKept` | fs/fat32.c:46-84 | no operation on a walkable volume, well-formed or not, changes the top 4 bits of any table entry |
| `Fat32Theorems.StepLeaks` | fs/fat32.c:234-366 | when every used cluster is the root directory's or a file's, that stays so through every operation, except exactly a write of data under a name whose first byte is 0xE5 |
| `Fat32Theorems.RunLeaksNothing` | fs/fat32.c:234-366 | over every run without such a write no cluster is lost |
| `Fat32Theorems.WriteThenDelete` | fs/fat32.c:275-366 | writing a new file and deleting it restores the table bit for bit and the file map |
| `Fat32Volume.Volume.constructor` | fs/fat32.c:154-168 | mounting computes table and data positions from the boot sector when byte 66 is 0x28 or 0x29, and leaves them unset otherwise |
| `Fat32Volume.Volume.FatGet` | fs/fat32.c:35-44 | the result is the low 28 bits of the entry in the view |
| `Fat32Volume.Volume.FatSet` | fs/fat32.c:46-59 | the entry takes the new link, keeps its top bits, both copies stay equal, nothing else changes |
| `Fat32Volume.Volume.FatAllocCluster` | fs/fat32.c:62-84 | the least free cluster is marked as end of chain, or the disk is unchanged and 0 is returned |
| `Fat32Volume.Volume.FatFreeChain` | fs/fat32.c:87-93 | the table becomes what the freeing walk leaves, for every in-range table |
| `Fat32Volume.Volume.NameToFat83` | fs/fat32.c:97-115 | fills the buffer with the specified 8.3 form |
| `Fat32Volume.Volume.FindDirEntry` | fs/fat32.c:120-142 | returns the offset of the slot the search specification names, and the free offset when there is none |
| `Fat32Volume.Volume.FlushDirSector` | fs/fat32.c:145-150 | the sector that holds the slot is written from the buffered directory, and nothing else changes |
| `Fat32Volume.Volume.CreateFile` | fs/fat32.c:234-272 | on a well-formed volume: true exactly for a new name and a free slot, then the map gains an empty file; false leaves the disk untouched |
| `Fat32Operations.FlushIsPut` | fs/fat32.c:145-150 | writing back the one sector that holds the changed slot stores the whole directory |
| `Fat32Operations.CommitIsPut` | fs/fat32.c:310-340 | unless the allocation took the root directory itself, storing the entry changes one slot of the directory |
| `Fat32Volume.Volume.WriteEntry` | fs/fat32.c:275-343 | on any volume with links in range, well-formed or not, the disk follows the write specification exactly, and a result of 0 means not one sector changed |
| `Fat32Volume.Volume.WriteFile` | fs/fat32.c:275-343 | on a well-formed volume: the map is updated with the data, or the write is refused for one of the stated reasons and the disk is unchanged |
| `Fat32Volume.Volume.DeleteFile` | fs/fat32.c:346-366 | on a well-formed volume: true exactly for a stored name, which the map then lacks |
| `Fat32Volume.Volume.ReadFile` | fs/fat32.c:207-232 | returns the length of a file below 2 GiB (and the length less 2^32 of a larger one), fills the buffer with exactly the stored bytes and writes at most up to the end of the last cluster; an absent name reads as 0 and leaves the buffer alone |
| `Fat32Volume.RoundUpExact` | fs/fat32.c:224-230 | the buffer room a reader needs is the fewest whole clusters that hold the file |
| `HeapBlocks.LiveDetermines` | kernel/mm.c:52-67 | two fully coalesced heaps with the same blocks in use are equal: the free blocks are exactly the gaps |
| `HeapBlocks.FirstFitExact` | kernel/mm.c:33-48 | the scan stops at the first free block that is large enough, and fails exactly when there is none |
| `HeapBlocks.CoalesceKeeps` | kernel/mm.c:58-66 | the coalescing loop keeps the tiling and the blocks in use and leaves no two neighbours free |
| `HeapBlocks.MallocKeeps` | kernel/mm.c:29-50 | an allocation keeps the tiling and coalescing invariant and carves exactly one block in use out of a free one, at least as large as every request up to 0xFFFFFFF8 |
| `HeapBlocks.MallocGrants` | kernel/mm.c:29-50 | a request, rounded up to the one multiple of 8 less than 8 above it, takes the lowest free block of that size or more, exactly the rounded bytes of it if 20 more are there and else all; null exactly when no free block is large enough, and for size 0 |
| `HeapBlocks.GrantHoldsRequest` | kernel/mm.c:18-20 | the rounded size is the multiple of 8 at or less than 8 above the request if and only if the request is at most 0xFFFFFFF8; above that it wraps to 0 |
| `HeapBlocks.MallocComplete` | kernel/mm.c:29-50 | null is returned exactly when no run of neighbouring free blocks, merged, could hold the request rounded up to a multiple of 8 |
| `HeapBlocks.FreeUndoesMalloc` | kernel/mm.c:29-67 | freeing what was just allocated restores the block list exactly |
| `HeapBlocks.FreePtrs` | kernel/mm.c:52-67 | freeing a live pointer takes exactly that pointer out of use |
| `HeapBlocks.FreeAllEmpties` | kernel/mm.c:52-67 | freeing all live pointers, in any order, leads back to the single block of `mm_init` |
| `HeapBlocks.Accounting` | kernel/mm.c:69-87 | used bytes are the blocks in use with 12 bytes each, free bytes the other payloads, and with 12 bytes per free block they add up to the range tiled |
| `HeapBlocks.ReachableInv` | kernel/mm.c:22-67 | every heap reachable from `mm_init` by legal calls tiles the 0x100000 bytes, has no two free neighbours and balances its accounts |
| `Heap.Memory.constructor` | kernel/mm.c:22-27 | the header words spell out one free block over the whole heap |
| `Heap.Memory.Kmalloc` | kernel/mm.c:29-50 | pointer and header words become what the list specification says, no payload byte of a block in use changes, and failure changes nothing |
| `Heap.Memory.Kfree` | kernel/mm.c:52-67 | the header words become the coalesced list and no payload byte of a block in use changes |
| `Heap.Memory.CoalesceList` | kernel/mm.c:58-66 | the pointer loop computes the coalesced list in place, writing header words only |
| `Heap.Memory.MmUsed` | kernel/mm.c:69-77 | the walk returns the bytes in use, without overflow |
| `Heap.Memory.MmFree` | kernel/mm.c:79-87 | the walk returns the free payload bytes, without overflow |
| `SchedSpec.NextIsNearest` | kernel/sched.c:28-36 | the scan returns the nearest runnable thread ahead of the current one |
| `SchedSpec.TickKeeps` | kernel/sched.c:118-127 | a tick keeps exactly one running thread and kills none; it hands the CPU to the nearest waiting thread if there is one and otherwise does nothing |
| `SchedSpec.YieldKeeps` | kernel/sched.c:103-116 | so does a yield, which also turns interrupts on |
| `SchedSpec.StiAfterCli` | kernel/sched.c:104-114 | sti sets bit 9 and cli clears it, whatever it was, no other bit changes, and a cli before an sti makes no difference |
| `SchedSpec.ExitKeeps` | kernel/sched.c:83-101 | an exit kills exactly the current thread, and halts, with interrupts on, exactly if no thread waits |
| `SchedSpec.DeadStaysDead` | kernel/sched.c:83-101 | over every run a dead thread stays dead and is never current while anything runs |
| `SchedSpec.SwitchApproaches` | kernel/sched.c:28-36 | each switch makes a ready thread current or brings the current one strictly nearer to it on a ring of 16, which spawning does not stretch |
| `SchedSpec.ReadyRunsWithin` | kernel/sched.c:28-127 | a ready thread becomes current within at most 15 yields, ticks and exits, whatever is spawned in between |
| `SchedSpec.ResumeRestores` | kernel/sched.c:103-127 | when a suspended thread next becomes current the CPU holds exactly the frame it saved, and a fresh thread its first frame |
| `SchedSpec.TickThenResume` | kernel/sched.asm:9-27 | a preempted thread gets back its ebp, edi, esi, ebx and flags, its return address and the stack pointer behind it, whatever others did meanwhile |
| `SchedSpec.YieldThenResume` | kernel/sched.asm:9-27 | a thread that yields gets the same back, with interrupts on |
| `SchedSpec.WaitsAndRuns` | kernel/sched.c:28-127 | a waiting thread becomes current within 15 switches, for the first time with exactly the frame it saved |
| `SchedSpec.FreshStarts` | kernel/sched.c:55-81 | a spawned thread becomes current within 15 switches, with exactly its first frame |
| `SchedSpec.StartsAtTrampoline` | kernel/sched.c:67-74 | with the frame sched_spawn builds that is: at the trampoline, on its own empty stack, interrupts on |
| `SchedSpec.YieldComesBack` | kernel/sched.c:103-116 | a thread that yields to a waiting one goes on behind its call within 15 switches, registers intact and interrupts on |
| `SchedSpec.TickComesBack` | kernel/sched.c:118-127 | so does a preempted one, with the flags it had |
| `SchedStacks.BootStackFirst` | kernel/kernel_entry.asm:10-18 | a boot stack linked before the threads table is an admissible layout, and thread 0 has room on it to switch |
| `SchedSpec.HaltedStays` | kernel/sched.c:93-96 | the all-dead state is terminal |
| `SchedStacks.StacksApart` | kernel/sched.c:61-65 | the stacks of living threads are disjoint blocks of the heap |
| `SchedStacks.SwitchKeeps` | kernel/sched.asm:9-27 | the pushes of a switch and the stored stack pointer leave every other suspended frame readable and add the current thread's own |
| `SchedStacks.SpawnKeepsFrames` | kernel/sched.c:61-76 | building a new thread's first frame leaves every suspended frame alone |
| `SchedStacks.FreedStackClear` | kernel/sched.c:86-89 | a dead thread's freed stack overlaps no header, no saved stack pointer and no living stack, so jumping from it is harmless |
| `SchedStacks.FramesThroughHeapCall` | kernel/mm.c:29-67 | heap calls leave every suspended frame readable |
| `Sched.Scheduler.constructor` | kernel/sched.c:38-53 | the boot thread alone is running |
| `Sched.Scheduler.SchedSwitch` | kernel/sched.asm:9-27 | the pushed words form the frame of the caller, its stack pointer is stored, and the CPU is loaded from the frame at the new stack pointer; nothing else in memory changes |
| `Sched.Scheduler.SchedJump` | kernel/sched.asm:31-40 | the CPU is loaded from the frame at the new stack pointer; only the two words of the call are written |
| `Sched.Scheduler.NextReady` | kernel/sched.c:28-36 | the loop returns the thread the scan specification names |
| `Sched.Scheduler.SchedYield` | kernel/sched.c:103-116 | the memory-level switch is the abstract yield, interrupt flag included, and all suspended frames survive |
| `Sched.Scheduler.SwitchStacks` | kernel/sched.asm:9-27 | the frame of the thread that gives up the CPU is kept on its own stack, that of the next one is loaded, and every other suspended frame stays readable |
| `Sched.Scheduler.SchedTick` | kernel/sched.c:118-127 | the memory-level switch is the abstract tick, and all suspended frames survive |
| `Sched.Scheduler.SchedExit` | kernel/sched.c:83-101 | freeing the stack under the running thread, given back to the heap, and jumping away is the abstract exit |
| `Sched.Scheduler.SchedSpawn` | kernel/sched.c:55-81 | fails exactly with 16 threads or without 8192 bytes of heap; otherwise the new thread has those bytes as its stack, with a first frame of four zero registers, flags 0x202 and the trampoline as return address, its stack pointer in the table, and the entry function recorded for it alone |
| `Line.DrawLine` | ui/draw.c:33-46 | the loop terminates without 32-bit overflow for coordinate differences up to 715827882 after plotting max(abs(dx),abs(dy))+1 pixels, the `k`-th being the ideal one |
| `Line.WithinHalfPixel` | ui/draw.c:33-46 | every ideal pixel is `k` steps along the longer axis and within half a pixel of the exact line along the shorter, on the far side when it lies halfway |
| `Line.Endpoints` | ui/draw.c:33-46 | the first and last ideal pixels are the given endpoints |
| `Line.Connected` | ui/draw.c:42-45 | consecutive pixels differ and touch |
| `Line.NextRound` | ui/draw.c:42-45 | the incremental error test moves the shorter axis exactly when the next rounding goes up |
| `Checksum.OnesSumUnique` | net/ipv4.c:31 | the folded sum is the one 16-bit value congruent to the sum modulo 65535 that is zero only for zero |
| `Checksum.Fold` | net/ipv4.c:31 | the fold loop terminates and computes that value |
| `Checksum.AddWords` | net/ipv4.c:29-30 | the 32-bit accumulator never overflows for any 16-bit length and adds the big-endian words, an odd byte padded |
| `Checksum.Ipv4Checksum` | net/ipv4.c:26-33 | computes the complement of the one's-complement sum (section 1 of RFC 1071) |
| `Checksum.TcpChecksum` | net/tcp.c:33-47 | equals the Internet checksum of pseudo-header followed by segment (section 3.1 of RFC 9293) |
| `Checksum.WordSumAppend` | net/tcp.c:33-45 | sums over an even-length prefix and the rest add up |
| `Checksum.OddByte` | net/ipv4.c:29-30 | an odd last byte is the high half of a word |
| `Checksum.FieldVerifies` | net/ipv4.c:69-72 | storing the checksum in a zeroed even-offset field makes re-checksumming give 0, and any other stored value does so exactly when it is the other representation of the same residue |
| `Packets.HeaderVerifies` | net/ipv4.c:58-72 | the header of every sent packet checksums to 0 |
| `Packets.HeaderBytes` | net/ipv4.c:58-72 | the IPv4 header byte by byte (section 3.1 of RFC 791) |
| `Packets.FrameBytes` | net/udp.c:56-66 | the whole frame of a UDP datagram byte by byte, from the hardware addresses to the payload |
| `Packets.HeaderRead` | net/ipv4.c:35-52 | any received IPv4 frame: dropped when it is for another host, else passed up from behind its options with the announced length less the header, modulo 65536 |
| `Packets.DatagramRead` | net/udp.c:45-54 | any received datagram: one call per callback of its destination port with its source port and announced length, none if it is not UDP or too short |
| `Packets.OthersDropped` | net/netstack.c:20-29 | short frames and frames of other types make no call |
| `Packets.PacketArrives` | net/ipv4.c:35-52 | a sent packet followed by anything is passed up with its sender, protocol and exactly its payload range |
| `Packets.UdpRoundTrip` | net/udp.c:45-66 | for every payload of at most 1464 bytes, the frame sent, with any padding, makes an addressed or broadcast receiver call each callback of the port with the sender's address, port and payload |
| `NetStacks.NetStack.EthSend` | net/eth.c:157-174 | hands the card header plus payload from the current of four buffers when it is up and the frame fits 1536 bytes, and nothing otherwise |
| `NetStacks.NetStack.Ipv4Send` | net/ipv4.c:54-84 | resolves the address, requests and waiting included, and sends one packet under the next identification; more than 1480 bytes are refused without a trace |
| `NetStacks.NetStack.UdpSend` | net/udp.c:56-66 | sends one datagram as the specification of UDP over IPv4 with address resolution says, or refuses more than 1464 bytes without a trace |
| `NetStacks.NetStack.UdpBind` | net/udp.c:27-37 | fails exactly when all 8 slots are used; otherwise the first free slot takes the binding, the port gains one callback and other ports are unchanged |
| `NetStacks.NetStack.UdpUnbind` | net/udp.c:39-43 | removes every callback of the port and none of another |
| `NetStacks.NetStack.Receive` | net/netstack.c:20-29 | a frame that any host's `udp_send` made for this address or for broadcast, padded or not, makes exactly the calls its sender meant; an ARP frame is learned from and answered; any other frame makes the calls its bytes say |
| `NetStacks.NetStack.UdpHandle` | net/udp.c:45-54 | calls every callback bound to the destination port, in slot order, with the range the header announces |
| `TcpSpec.Stored` | net/tcp.c:169-172 | a byte stored in the ring comes last when there is room, and empties the ring when there is not |
| `TcpSpec.RingHoldsExactly` | net/tcp.c:167-173 | the unread stream grows by the payload if and only if at most 4095 bytes are then unread |
| `TcpSpec.SegmentVerifies` | net/tcp.c:50-68 | every sent segment checksums to 0 with its pseudo-header |
| `TcpSpec.SegmentParses` | net/tcp.c:128-140 | a sent segment is parsed back into its ports, numbers, flags and payload |
| `TcpSpec.SendWhole` | net/tcp.c:101-106 | a send reaches the wire whole if and only if it has at most 1440 bytes, although the counter moves by the whole length |
| `TcpSpec.StreamsConserved` | net/tcp.c:101-178 | over every bounded run with in-order segments, what was read followed by what is unread is what was accepted, the wire payloads are what was handed over, and both counters track the streams modulo 2^32 |
| `TcpSpec.ConnectionStreams` | net/tcp.c:74-178 | from the handshake on, both counters equal the initial numbers plus one plus the bytes sent and accepted (section 3.4 of RFC 9293) |
| `TcpSpec.EventsAreCalls` | net/tcp.c:101-178 | the events of such a run are the table's own send, receive and segment handling on that socket |
| `TcpSpec.OpenThenDial` | net/tcp.c:74-91 | an opened and dialled socket is in the state from which the counters are tracked |
| `TcpPeers.EndToEnd` | net/tcp.c:101-178 | between two socket tables, with both ends writing and reading in any interleaving, each reads what the other wrote in order and once, all numbers stay equal, and no other socket notices |
| `TcpPeers.SendResult` | net/tcp.c:101-178 | a send reaches the other end as unread bytes, and the acknowledgement that comes back changes nothing at the writer |
| `TcpWaits.FirstClosedExact` | net/tcp.c:74-84 | the scan of `tcp_open` stops at the first closed socket |
| `TcpWaits.SetAtFirst` | net/tcp.c:74-84 | the scan finds the same socket again if and only if that socket is still closed |
| `TcpWaits.TwoOpensAlias` | net/tcp.c:74-84 | the failing input: after `tcp_init` two opens in a row return the same socket |
| `TcpWaits.SecondOpen` | net/tcp.c:74-91 | a second open returns another socket if and only if the first one has been dialled in between |
| `TcpWaits.OpenNotReserved` | net/tcp.c:74-178 | over any calls and arrivals that do not dial the opened socket, no later open gets past it |
| `TcpWaits.StaysUp` | net/tcp.c:145-177 | an established connection alone on its port survives what arrives if and only if none of it is a reset or finish for it |
| `TcpWaits.ConnectResolves` | net/tcp.c:92-98 | the wait ends with the poll that brings the acceptance, and the connection is then up if and only if no later segment of the same poll resets or finishes it |
| `TcpWaits.ResetOvertakes` | net/tcp.c:92-98 | the failing input: acceptance and reset in one poll leave the connection closed, in two polls it is reported as up |
| `TcpWaits.DataArrives` | net/tcp.c:167-173 | what a poll brings for a connection is appended to its unread bytes in order, as long as it fits |
| `TcpWaits.ReceiveResolves` | net/tcp.c:108-120 | waiting for data ends with the first poll that brings any; the caller gets the first bytes of all it brought and the rest stays unread |
| `TcpWaits.ReceiveAtOnce` | net/tcp.c:108-120 | unread data is returned without a poll, and quiet polls bring nothing |
| `TcpReplies.SegmentBytes` | net/tcp.c:50-68 | the segment byte by byte (section 3.1 of RFC 9293): window 4096, no options, no urgent data |
| `TcpReplies.ParseExact` | net/tcp.c:128-140 | from any bytes: the fields high byte first, options skipped, malformed exactly if too short or with a bad header length |
| `TcpReplies.ChecksumCovers` | net/tcp.c:33-68 | the checksum is over addresses, protocol 6, length and segment |
| `TcpReplies.AcceptanceAnswered` | net/tcp.c:145-156 | an acceptance establishes the connection with the peer's numbers and is answered by exactly one acknowledgement, the third segment of the handshake |
| `TcpReplies.DataAnswered` | net/tcp.c:167-174 | data is answered by exactly one acknowledgement numbered past it |
| `TcpReplies.FinishAnswered` | net/tcp.c:161-166 | a finish closes the connection and is answered by exactly one acknowledging finish numbered past it |
| `TcpReplies.ResetUnanswered` | net/tcp.c:157-160 | a reset closes the connection without an answer |
| `TcpReplies.OthersUnanswered` | net/tcp.c:128-178 | anything else changes nothing and is not answered |
| `TcpReplies.DialPutsOut` | net/tcp.c:74-91 | opening and dialling puts out one SYN numbered 0xABCD1234 and counts it |
| `TcpReplies.WritePutsOut` | net/tcp.c:101-106 | a send on a connection puts out one segment with the first 1440 bytes, on anything else nothing |
| `TcpReplies.HangUpPutsOut` | net/tcp.c:122-126 | closing puts out one acknowledging finish exactly if the socket was connected |
| `Tcp.Socket.Store` | net/tcp.c:169-172 | the store loop appends to the unread stream, losing whole laps of 4096 bytes when there is no room |
| `Tcp.Socket.Drain` | net/tcp.c:114-119 | takes the oldest unread bytes, as many as asked for and available |
| `Tcp.Table.SendFlags` | net/tcp.c:50-68 | puts out the segment with the socket's numbers and at most 1440 bytes of data |
| `Tcp.Table.TcpOpen` | net/tcp.c:74-84 | readies the first closed socket, which stays closed |
| `Tcp.Table.TcpConnect` | net/tcp.c:86-99 | sends a SYN from the next port, counts it, polls while half-open, each poll handling everything that has arrived, and succeeds exactly if the socket is established then |
| `Tcp.Table.TcpSend` | net/tcp.c:101-106 | sends on an established socket only, returning the whole length |
| `Tcp.Table.TcpRecv` | net/tcp.c:108-120 | polls while nothing is unread, each poll handling everything that has arrived, then returns the oldest unread bytes |
| `Tcp.Table.TcpClose` | net/tcp.c:122-126 | says goodbye on an established socket and frees it |
| `Tcp.Table.TcpHandle` | net/tcp.c:128-178 | a segment changes the first socket in use on its destination port as specified, and no other |
| `DnsSpec.NameEncoded` | net/dns.c:110-119 | a dotted name of labels of 1 to 63 bytes is encoded as those labels (section 4.1.2 of RFC 1035) |
| `DnsSpec.PiecesEncoded` | net/dns.c:110-119 | any host name is encoded as its pieces between dots behind their lengths modulo 256, without an empty last one |
| `DnsSpec.QueryBytes` | net/dns.c:101-121 | the query byte by byte (section 4.1 of RFC 1035) |
| `DnsSpec.QuestionEchoed` | net/dns.c:102-121 | the question of a well-formed response is byte for byte what the query asked |
| `DnsSpec.NameSkipExact` | net/dns.c:70-71 | the walk lands on the end of an answer's name if and only if the name is uncompressed or a bare pointer; labels followed by a pointer carry it at least 192 bytes too far (section 4.1.4 of RFC 1035) |
| `DnsSpec.AddressFoundExactly` | net/dns.c:69-82 | an address record that ends a one-answer message is found if and only if its name is uncompressed or a bare pointer; otherwise the walk reads past the message and finds nothing, whatever is there |
| `DnsSpec.WalksAgree` | net/dns.c:69-84 | a walk that stays inside the message does not depend on what follows it in memory, and one that leaves it finds nothing |
| `DnsSpec.BehindIrrelevant` | net/dns.c:60-87 | whatever a message holds, well-formed or not, the memory behind it does not influence the handler's result |
| `DnsSpec.AnswersExact` | net/dns.c:69-84 | over well-formed records the walk stays inside the message, returns the first A record of four bytes and skips every other record |
| `DnsSpec.ResponseWithin` | net/dns.c:60-87 | on a well-formed response the handler never reads past the end and finds its first address |
| `DnsSpec.ResponseUnderstood` | net/dns.c:60-87 | a datagram that is exactly a well-formed response yields its first address, whatever follows it in memory |
| `DnsSpec.TakenFromMessage` | net/dns.c:60-87 | from any datagram at all: an address taken is that of an address record inside it, only datagrams with the awaited number have an effect, and each of them ends the wait |
| `Dns.ForeignIgnored` | net/dns.c:60-65 | datagrams that are too short or answer other queries change nothing |
| `Dns.FirstAnswerEnds` | net/dns.c:132-147 | the wait ends with the poll of the first datagram for the query, and the last address that poll brings is the result |
| `Dns.LookupResolves` | net/dns.c:132-154 | the wait ends with the poll that brings the first well-formed response; its first address is the result if and only if no later datagram of that poll brings another, and other queries' datagrams and later polls do not matter |
| `Dns.LookupUndisturbed` | net/dns.c:132-154 | with only datagrams for other queries behind it, the response decides |
| `Dns.SecondReplyOverwrites` | net/dns.c:60-87 | the failing input: two replies in one poll return the second address, in two polls the first |
| `Dns.LookupReturns` | net/dns.c:96-159 | what the lookup of an uncached name returns and caches: the last address the rest of the first response's poll brings, else that response's first address, else zero |
| `Dns.LookupTimesOut` | net/dns.c:144-148 | without a datagram for the number sent it returns zero and caches nothing |
| `Dns.QueryIsAnswered` | net/dns.c:101-154 | the query carries the awaited number, so a response that echoes it resolves the very query sent |
| `Dns.PrefixAnswered` | net/dns.c:37-58 | an overlong name answers later lookups of its first 63 bytes |
| `Dns.SecondLookup` | net/dns.c:96-159 | after a successful lookup a second one of the same name sends no query and returns the same address if and only if the name has at most 63 bytes |
| `Dns.CachedName` | net/dns.c:37-58 | a looked-up name is found in the cache next time if and only if it has at most 63 bytes |
| `Dns.Resolver.BuildQuery` | net/dns.c:100-121 | for every name whose query fits the buffer, the loops write exactly that query |
| `Dns.Resolver.DnsRx` | net/dns.c:60-87 | the handler's loops compute the specified walk over the message and the memory behind it |
| `Dns.Resolver.DnsLookup` | net/dns.c:96-159 | answers from the cache, or sends one query under the next number, waits poll by poll, and caches and returns a non-zero address |
| `Arp.DefaultSubnet` | net/arp.c:65-70 | under the default mask two hosts share a subnet exactly when their first three bytes agree |
| `Arp.SubnetExact` | net/arp.c:65-70 | under any mask two hosts share a subnet exactly when their addresses agree in every bit it sets |
| `Arp.PacketFields` | net/arp.c:72-84 | the ARP packet byte by byte (RFC 826) |
| `Arp.AnsweredExactly` | net/arp.c:120-141 | a packet's sender is stored, and exactly one reply goes to it exactly if it is a request for this host |
| `Arp.FramesTeach` | net/arp.c:120-128 | whatever frames arrive, the cache takes exactly the senders of the ARP packets among them, in order |
| `Arp.AnswerEndsWait` | net/arp.c:86-118 | a poll whose last ARP packet comes from the awaited host ends the wait with that host's address |
| `Arp.RequestAnswered` | net/arp.c:120-141 | a host that is asked for answers with its own address and remembers who asked |
| `Arp.AskingFinds` | net/arp.c:86-141 | between two hosts: an unknown next hop, the neighbour itself or the gateway for a host off the subnet, is asked for with one broadcast, its answer to exactly that frame ends the wait, and the address found is its own |
| `Arp.FirstContact` | net/arp.c:86-141 | a first datagram leaves as the request followed by the datagram, to the neighbour or, for a host off the subnet, to the gateway |
| `Arp.KnownHop` | net/ipv4.c:54-84 | to a known next hop a datagram is one frame, to everyone a single broadcast frame, and beyond 1464 bytes none |
| `Arp.SilenceTimesOut` | net/arp.c:86-118 | waiting for a silent host yields the zero address |
| `Arp.SentIntoTheVoid` | net/ipv4.c:54-84 | the datagram is then sent all the same, to the zero address |
| `Arp.CardDown` | net/eth.c:157-174 | with the card down nothing is sent, received or learned |
| `NetStacks.NetStack.ArpHandle` | net/arp.c:120-141 | stores the sender of every packet and answers requests for this host |
| `NetStacks.NetStack.ArpLookup` | net/arp.c:86-118 | asks the cache, and on a miss sends one request and consults the cache after every poll |
| `Cache.StoreRefines` | net/arp.c:42-54 | a store is a map update that keeps the used slots a prefix with distinct keys; only a new key in a full cache drops another binding, that of slot 0 |
| `Cache.LookupIsMap` | net/arp.c:56-63 | a lookup reads the map |
| `Cache.StoresFound` | net/arp.c:35-63 | after any stores whatever is found is the latest value, and everything is found while no more keys were stored than there are slots |
| `Cache.LastStoreFound` | net/arp.c:42-63 | the most recent store is always found |
| `Cache.FoundUncut` | net/dns.c:37-58 | a value stored under a shortened key is found again under the full key exactly when nothing was cut |
| `Cache.Cache.Put` | net/arp.c:42-54 | the loop stores in the first empty or matching slot, or in slot 0 |
| `Cache.Cache.Find` | net/arp.c:56-63 | the loop returns the first match |
| `Installer.StateIsHistory` | fs/installer.c:96-203 | the machine waits for a drive number, or for the confirmation, exactly when the history of events says so |
| `Installer.WrittenOnlyConfirmed` | fs/installer.c:145-203 | drive 0 is never written, and drive 1 is written by an event exactly when that event confirms, right after the drive number, a drive detected by the last start |
| `Installer.SourceKept` | fs/installer.c:43-88 | over every run drive 0 keeps its contents |
| `Installer.UnconfirmedUntouched` | fs/installer.c:145-203 | over every run without a confirmation drive 1 keeps its contents |
| `Installer.CopyExact` | fs/installer.c:43-88 | a completed copy makes sectors 0 to 53247 equal to the source; one that fails at sector `k` has copied exactly the sectors before `k` |
| `Installer.Program.InstallerStart` | fs/installer.c:96-143 | detects the drives and activates the conversation only if there are two |
| `Installer.Program.InstallerHandleChar` | fs/installer.c:145-203 | each character takes the specified step |
| `Installer.Program.RunInstall` | fs/installer.c:43-88 | the copy loop stops at the first failure, having replaced exactly the sectors before it |

## Left out

- Port I/O, inline assembly, interrupt set-up and device protocols: the disk is a sector array, the network card takes and delivers byte sequences.
- Interrupts inside an operation: yield, tick, exit, heap and socket calls are atomic steps. At boot the timer handler that `sched_init` installs is replaced (kernel/kernel.c:174), so the tick is a step of the module rather than of the shipped kernel.
- Sched.Scheduler.SchedYield: requires room for the 32 bytes a switch pushes and an aligned stack pointer on the current stack, because nothing in the code checks for stack overflow; words the compiler itself spills around the call, and arithmetic flags its instructions change, are not modelled.
- Sched.Scheduler.SchedExit: requires room for the 8 bytes of the call and an aligned stack pointer on the current stack, for the same reason.
- Sched.Scheduler.SchedTick: the interrupt frame that the stub pushes before the C function runs is part of the interrupted thread's stack and is not modelled.
- Sched.Scheduler.SchedSpawn: the thread's `id` field repeats its index and is not modelled.
- Fat32Volume.Volume.WriteFile: allocation failure of the driver's own buffers and disk errors are not modelled, because the code checks neither.
- Fat32Volume.Volume.ReadFile: the caller's buffer must hold whole clusters, because the last cluster is copied whole.
- Fat32Volume.Volume.constructor: the sector after a bad signature is not interpreted, and the operations are modelled on mounted volumes only.
- Directories of more than one cluster, long names and subdirectories: the driver skips or ignores them, and so does the model.
- Dns.Resolver.BuildQuery: requires the query to fit the 512-byte buffer; the code does not check it and would write behind the buffer.
- Dns.Resolver.DnsLookup: has the same requirement when the name is not cached; the console output and the clock are not modelled.
- NetStacks.NetStack.UdpHandle: the callback is a number and its call a record of what it is given; the payload is a range of the receive buffer, so nothing is said when a header announces more than was received.
- NetStacks.NetStack.ArpLookup: of the frames that arrive during the wait only the ARP packets are followed; what other frames make the upper layers do meanwhile is not modelled here, and the time limit is the end of the polls.
- NetStacks.NetStack.EthSend: requires that header and payload stay below 65536 bytes, as every caller guarantees; a longer payload would wrap the length.
- TcpPeers.EndToEnd: starts from two established ends; the module has no passive open, so no handshake between two of its own hosts exists.
- Tcp.Table.TcpConnect: the time limit is the end of the polls; ticks are not modelled.
- Tcp.Table.SendFlags: what goes to the network layer is recorded; its address resolution, with the polls inside it, is modelled on its own.
- Tcp.Table.TcpRecv: the time limit is the end of the polls; ticks are not modelled.
- ICMP, DHCP, HTTP and the system-call socket table: thin layers over the modelled code.
- Installer.Program.RunInstall: drives have at least 53248 sectors, a failed write writes nothing, and the progress output is not modelled.
- Terminal, fonts, windows, mouse, shell and all drawing but lines: user interface without deep invariants.
- ELF loading: it copies to addresses named by the file, which may lie anywhere.
