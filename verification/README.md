# Verification of the 56pfs core

56pfs is a small-file store. A name server picks a storage server, storage servers choose a
directory and a file name for each upload, services exchange framed messages over buffered
connections, and a shared-memory monitor counts events. This project models the parts of it that
keep state with non-trivial invariants, and proves what they keep over whole runs.

`dafny verify dfyconfig.toml` checks everything. Code that works in place is modelled by classes,
arrays and loops, each proved equal to a function on values; the theorems are about those functions.

| part | files |
|---|---|
| shared notions | `Common` |
| shared-memory hash table, growth by rehash, iteration | `Chains`, `ShmTable`, `ShmGrowth`, `ShmSizes`, `ShmRuns`, `ShmBuffer` |
| double-buffered counters | `NmShm` |
| MD5, HMAC and file digests | `Md5`, `Md5Stream`, `Md5Transform`, `Md5Vector` |
| intrusive rings and the timer pool | `Rings`, `Timers`, `TimerPool` |
| directory table and allocator | `DiskDirs`, `DirTable` |
| base64 and generated file names | `Base64`, `FileNames` |
| connection buffers and the sender | `MyBuff`, `Sender` |
| signalling frames, streamed report bodies | `Framing`, `Poss`, `PossService` |
| address registry and group reloads | `Registry`, `RegistryRuns`, `IpTable` |
| choice of domain and replica | `NameServer`, `Replicas` |
| log counting table | `LogTable`, `LogCounter` |

The receive loops that drive framing are `check_req` and `svc_recv`, in `network/N/pfs_sig.c` (lines
146 to 195) and `network/POSS/pfs_poss.c` (lines 142 to 231). Rows about them cite the parsing,
buffer and body functions those loops call.

## What was found

The code is modelled as it is. Where an intended property does not hold for all inputs, the lemma
named here says exactly when it does.

- Growing the shared-memory table adds an overflow slot in one step if and only if
  `hash_size % 5 + data_size >= 5` (`ShmTable.GrowthExact`). `Add` ends if and only if there is room
  or some growth gives sizes that the keys fit (`ShmGrowth.FinishesExactly`). So it always ends from
  four overflow slots on, and for a new key from five slots on (`ShmSizes.FourFinishes`,
  `ShmSizes.ExpandingFinishes`, `ShmSizes.NewKeyFinishes`). From five heads on only repetitions of
  keys can keep it from ending (`ShmSizes.HeadsFinishExactly`). Below five slots growing changes
  neither size, and it ends if and only if the overflow slots that the keys demand fit
  (`ShmSizes.SmallFinishesExactly`); one head, no overflow area and one live key is a case where it
  does not (`ShmSizes.OneHeadStuck`).
- A directory code decodes to its directory exactly when `d2 < DIR1`, so the allocator is right for
  the whole configuration exactly when `DIR2 <= DIR1` (`DiskDirs.AllDecodeExactly`).
- A second refresh fails exactly when a disk it visits is full (`DirTable.LaterPass`).
- Two uploads get the same name if and only if they fall in one second, a multiple of 99999 uploads
  apart, in the same directory and with the same kept extension (`FileNames.NamesUniqueExactly`).
- A slash in the kept extension shifts the components that are read back. The directory is then read
  right only in the cases `FileNames.ReadBackExactly` lists; `FileNames.SlashExamples` gives one
  upload that is misread and one that happens to be read right. This and the previous result range
  over all extensions; one that does not fit the 256 bytes of `localfile` behind the stem has no
  defined result in the source, and for those they say only what a large enough buffer would give.
- `getfilemd5` does not notice a read error unless it falls on a multiple of the buffer size
  (`Md5Stream.GetFileMd5`).
- A reload leaves no registration pointing at a freed domain if and only if the newest registrations
  of each address of the old group, as many as the group lists it, are the group's own
  (`Registry.ReloadExactly`), and a run never leaves one if and only if this holds at each of its
  reloads (`Registry.RunExactly`); an address that moves between groups breaks it when the new group
  is reloaded first (`RegistryRuns.MovedAddressDangles`).
- Domains start with a load and task count of zero and only minima are kept, so the load and task
  policies never tell two domains apart and choose the first eligible one
  (`NameServer.LoadStaysZero`, `NameServer.EqualLoadsChooseFirst`).
- The report service's receive loop fails to make progress exactly on a whole message whose header
  claims a length of zero (`Poss.SpinsExactly`). A submission whose claimed length is shorter than a
  header, or too long for an `int`, makes it write whatever is buffered when the first write takes
  some, other messages included (`Poss.OverrunsExactly`, `Poss.NegativeExactly`), also when its header
  arrived alone (`Poss.NextChunkSwallowed`). After a write that was cut short it waits for
  more bytes to arrive although some are buffered (`Poss.StallsExactly`).
- Data queued behind a part-sent file goes on the wire inside it (`Sender.OvertakesExactly`,
  `Sender.FileIsSplit`).
- Ending a reading round early throws away exactly the counts it had not handed out
  (`NmShm.FlipsAccount`).
- A looping timer fires again in a second scan of the same instant exactly when its span is negative
  (`Timers.ScanSettles`).

## Model
| member | source | states |
|---|---|---|
| Chains.ChainsDisjoint | 3rdlib/TShmBuffer.h:153-201 | a slot lies on the chain of at most one bucket |
| Chains.ChainsCover | 3rdlib/TShmBuffer.h:153-201 | every head and every used overflow slot lies on some bucket's chain |
| Chains.AppendLink | 3rdlib/TShmBuffer.h:171-195 | linking a new overflow slot keeps links increasing, unique and complete, extends one chain by that slot and leaves every other chain alone |
| ShmTable.Alloc | 3rdlib/TShmBuffer.h:126-151 | a new segment is well formed, empty and has the requested split between heads and overflow |
| ShmTable.Find | 3rdlib/TShmBuffer.h:203-228 | walking one chain finds a slot with the key, and fails exactly when no slot of the table has it |
| ShmTable.Landing | 3rdlib/TShmBuffer.h:153-170 | the walk of `Add` ends at a free slot of the chain, or at its end with every slot of the chain taken |
| ShmTable.FirstFound | 3rdlib/TShmBuffer.h:153-228 | of several entries of one key the first on the chain is found, and the walk of `Add` passes no free slot |
| ShmTable.PutKeeps | 3rdlib/TShmBuffer.h:153-201 | filling a free slot of the right chain keeps the table well formed and adds exactly that entry |
| ShmTable.AppendKeeps | 3rdlib/TShmBuffer.h:153-201 | so does filling a newly linked overflow slot |
| ShmTable.GrowthExact | 3rdlib/TShmBuffer.h:327-337 | one growth step enlarges the overflow area if and only if `hash_size % 5 + data_size >= 5`; always from `data_size >= 5` on |
| ShmTable.GrowthStuck | 3rdlib/TShmBuffer.h:327-337 | without overflow area, or below five slots in all, no number of growth steps adds an overflow slot |
| ShmGrowth.TightAdd | 3rdlib/TShmBuffer.h:153-201 | in a table without freed slots the next key finds room if and only if the overflow slots its keys demand then fit the overflow area |
| ShmGrowth.AddWithin | 3rdlib/TShmBuffer.h:153-201 | for a table of any size, an `Add` that ends within a bound on its nesting has added exactly the entry, at the sizes of some later growth step |
| ShmGrowth.ReallocWithin | 3rdlib/TShmBuffer.h:327-376 | for a table of any size, a growth that ends has kept exactly the entries, without freed slots |
| ShmGrowth.FinishesExactly | 3rdlib/TShmBuffer.h:153-201 | for a table of any size, `Add` ends if and only if there is room, or some number of growth steps gives sizes that all the keys fit |
| ShmGrowth.AddMore | 3rdlib/TShmBuffer.h:153-201 | a larger bound on the nesting changes nothing: an `Add` that ends has one result |
| ShmGrowth.Add | 3rdlib/TShmBuffer.h:153-201 | for a table of any size, an `Add` that ends, through any number of nested growths, leaves a well-formed table with exactly the old entries and the new one, at the sizes of some later growth step |
| ShmGrowth.AddIs | 3rdlib/TShmBuffer.h:153-201 | its result is that of every bound that is enough |
| ShmGrowth.AddCases | 3rdlib/TShmBuffer.h:153-201 | with room the entry is put in place; otherwise the table was rebuilt and its counter is exact |
| ShmGrowth.RehashTurn | 3rdlib/TShmBuffer.h:355-368 | re-adding the next live slot of the old table is the next turn of its rehash, and ends when the whole rehash does |
| ShmSizes.DemandCovered | 3rdlib/TShmBuffer.h:153-201 | the used overflow slots of any table cover what its keys demand |
| ShmSizes.SmallFixed | 3rdlib/TShmBuffer.h:327-337 | below five slots in all, growing leaves both sizes as they are |
| ShmSizes.SmallRehash | 3rdlib/TShmBuffer.h:327-376 | below five slots, one growth rebuilds the same keys at the same sizes, and is full for the new key again if and only if the keys demand more than the overflow area |
| ShmSizes.SmallFinishesExactly | 3rdlib/TShmBuffer.h:153-201 | below five slots `Add` ends if and only if there is room or the keys with the new one demand no more than the overflow area |
| ShmSizes.ExpandingFinishes | 3rdlib/TShmBuffer.h:153-201 | with five overflow slots, or with fewer than five heads but five slots, `Add` always ends, with no more nested growths than entries to hold |
| ShmSizes.FourFinishes | 3rdlib/TShmBuffer.h:153-201 | with four overflow slots `Add` always ends: growing a multiple of five heads lowers its power of five |
| ShmSizes.HeadsFinishExactly | 3rdlib/TShmBuffer.h:153-201 | from five heads on `Add` ends if and only if there is room or the overflow area comes, at some growth step, to hold the repetitions of keys |
| ShmSizes.NewKeyFinishes | 3rdlib/TShmBuffer.h:153-201 | from five slots on, adding a new key to a table that holds each key once always ends |
| ShmSizes.NoOverflowExactly | 3rdlib/TShmBuffer.h:153-201 | without overflow area and from five heads on, `Add` ends if and only if there is room or no key is repeated |
| ShmSizes.OneHeadStuck | 3rdlib/TShmBuffer.h:153-201 | with one head, no overflow area and one live key, a second `Add` ends within no bound |
| ShmRuns.Clear | 3rdlib/TShmBuffer.h:253-258 | `Clear` leaves an empty well-formed table of the same sizes |
| ShmRuns.FreeSlot | 3rdlib/TShmBuffer.h:230-251 | freeing a slot removes exactly its entry and keeps the chains |
| ShmRuns.StepCounts | 3rdlib/TShmBuffer.h:153-258 | for a table of any size, each call that ends changes the counter's excess over the live entries as the drift says: up for a successful erase, down for the deletion of a free slot, reset by `Clear` and by a rebuild |
| ShmRuns.CounterMoves | 3rdlib/TShmBuffer.h:153-258 | the counter itself goes one up for an entry put in place, one down for a deletion, stays at an erase, is zero after `Clear` and exact after a rebuild |
| ShmRuns.SlotsPartitioned | 3rdlib/TShmBuffer.h:153-201 | every used slot lies on exactly one chain |
| ShmRuns.RunsKeepTable | 3rdlib/TShmBuffer.h:153-258 | over every run of calls that end, on tables of any size, the table stays well formed, the chains partition the used slots, and `total_size` minus the live entries is the number of successful erases less the deletions of free slots since the last clear or rebuild |
| ShmRuns.FindAgrees | 3rdlib/TShmBuffer.h:203-228 | a table that refines a map finds exactly the keys of the map, with their values |
| ShmRuns.StoreContents | 3rdlib/TNmShm.cpp:105-122 | find-then-add changes exactly one binding |
| ShmRuns.StoreRefines | 3rdlib/TNmShm.cpp:105-122 | find-then-add on a refining table is a map update |
| ShmRuns.EraseRefines | 3rdlib/TShmBuffer.h:230-251 | erasing takes the key out of the map |
| ShmRuns.DeleteRefines | 3rdlib/TShmBuffer.h:397-404 | deleting a node takes its key out of the map |
| ShmRuns.StoresEnd | 3rdlib/TNmShm.cpp:105-122 | from five slots on, a table used through find-then-add takes every store |
| ShmRuns.CallsAgreeWithMap | 3rdlib/TNmShm.cpp:105-122 | on a table of any size, after any run of stores that end, erasures, deletions and clearings, through any growths, `Find` agrees with the map treated alike |
| ShmRuns.NextFrom | 3rdlib/TShmBuffer.h:282-302 | `Next` yields the first live slot at or after the cursor, or shows there is none |
| ShmRuns.IterationComplete | 3rdlib/TShmBuffer.h:276-302 | at every cursor position, what lies before it and what `Next` still yields are together each live entry once, in slot order |
| ShmBuffer.Buffer.constructor | 3rdlib/TShmBuffer.h:126-151 | the segment of arrays starts as the empty table |
| ShmBuffer.Buffer.Find | 3rdlib/TShmBuffer.h:203-228 | the loop over the array computes `Find` |
| ShmBuffer.Buffer.SetValue | 3rdlib/TNmShm.cpp:105-122 | writing through the found pointer changes one value |
| ShmBuffer.Buffer.Erase | 3rdlib/TShmBuffer.h:230-251 | erases the found slot and reports whether there was one |
| ShmBuffer.Buffer.Delete | 3rdlib/TShmBuffer.h:397-404 | frees the slot and lowers the counter |
| ShmBuffer.Buffer.Clear | 3rdlib/TShmBuffer.h:253-258 | the loop resets every slot |
| ShmBuffer.Buffer.Next | 3rdlib/TShmBuffer.h:282-302 | yields the next live entry and moves the cursor past it |
| ShmBuffer.Buffer.Place | 3rdlib/TShmBuffer.h:153-201 | the part of `Add` that needs no growth |
| ShmBuffer.Buffer.Add | 3rdlib/TShmBuffer.h:153-201 | the in-place `Add` on a table of any size, mutually recursive with `Realloc`, computes the value-level one whenever that ends |
| ShmBuffer.Buffer.RehashSlot | 3rdlib/TShmBuffer.h:357-367 | the body of the rehash loop takes the rehash one slot on |
| ShmBuffer.Buffer.Realloc | 3rdlib/TShmBuffer.h:327-376 | the in-place rehash loop computes the value-level growth |
| NmShm.Wrap | 3rdlib/TNmShm.cpp:174-190 | the stored sum fits the 32-bit counter and is congruent to the true sum |
| NmShm.BumpRefines | 3rdlib/TNmShm.cpp:172-190 | on the map of counters, `inc_shm` adds to the counter of its key or starts it, as 32-bit words |
| NmShm.OverwriteRefines | 3rdlib/TNmShm.cpp:105-122 | on the map of counters, `set_shm` replaces the counter of its key |
| NmShm.OverwriteCounts | 3rdlib/TNmShm.cpp:105-122 | after it the counter of the key is the value, and no other counter has moved |
| NmShm.BumpCounts | 3rdlib/TNmShm.cpp:174-190 | an increment adds its amount to its own key's counter, modulo the word, and moves no other |
| NmShm.ReadCounts | 3rdlib/TNmShm.cpp:90-103 | reading one entry takes exactly that entry's count from what is left to read |
| NmShm.StepConserves | 3rdlib/TNmShm.cpp:74-190 | every step moves counts between held, handed out and thrown away, and adds exactly what is counted; only the end of a round throws away, what it had not read |
| NmShm.FlipsAccount | 3rdlib/TNmShm.cpp:74-190 | in every interleaving of increments and settings with reading rounds, also rounds ended early, for every key handed out plus held plus thrown away equals the start plus what was entered, modulo the word: an increment enters its amount, a setting what it is above the counter it replaces |
| NmShm.NothingLostAcrossFlips | 3rdlib/TNmShm.cpp:74-190 | when every round is read to its end nothing is lost or counted twice |
| NmShm.CountedIsEntered | 3rdlib/TNmShm.cpp:74-190 | without settings what is entered is the sum of the increments, whatever the state |
| NmShm.RoundReads | 3rdlib/TNmShm.cpp:74-103 | while a round lasts the drained table stands still, and handed out followed by pending never changes |
| NmShm.RoundComplete | 3rdlib/TNmShm.cpp:74-103 | a round read to its end hands out each entry the table held when it began, once, in slot order |
| NmShm.BumpInPlace | 3rdlib/TNmShm.cpp:174-190 | the in-place increment computes the value-level one, growths included |
| NmShm.StoreInPlace | 3rdlib/TNmShm.cpp:105-122 | likewise for `set_shm` |
| NmShm.Monitor.constructor | 3rdlib/TNmShm.cpp:20-72 | two empty tables, index zero |
| NmShm.Monitor.IncShm | 3rdlib/TNmShm.cpp:174-190 | an increment step on the table the index names |
| NmShm.Monitor.SetShm | 3rdlib/TNmShm.cpp:105-122 | a setting step of the protocol, on the table the index names |
| NmShm.Monitor.BeginReadShm | 3rdlib/TNmShm.cpp:74-81 | flips the index and starts a round on the table it named |
| NmShm.Monitor.ReadShm | 3rdlib/TNmShm.cpp:90-103 | hands out the next entry of the round, or ends it |
| NmShm.Monitor.EndReadShm | 3rdlib/TNmShm.cpp:83-88 | clears the table of the round, read to its end or not |
| Md5.Padding | lib/md5.c:114-153 | the padding of sections 3.1 and 3.2 of RFC 1321 completes a block and takes 9 to 72 bytes |
| Md5.LengthWeighs | lib/md5.c:145-147 | the eight bytes of the length field, low-order byte first, stand for the bit length modulo 2^64 |
| Md5.DigestWords | lib/md5.c:149-151 | bytes 4i to 4i+3 of a digest, low-order byte first, stand for word i of the last chaining value |
| Md5.FoldAppend | lib/md5.c:66-108 | compressing block-aligned messages one after the other is compressing their concatenation |
| Md5.FoldSplit | lib/md5.c:66-108 | only complete blocks have been compressed; new bytes extend the tail |
| Md5.FoldFill | lib/md5.c:81-104 | a block completed from tail and new bytes is compressed once |
| Md5.CounterAdds | lib/md5.c:66-78 | the two-word bit counter with its carry test counts 8 times the length modulo 2^64 |
| Md5.CounterTail | lib/md5.c:66-82 | the buffered byte count is recovered from the low word |
| Md5.ZeroCount | lib/md5.c:114-140 | both branches of the padding code give the number of zeros of section 3.1 |
| Md5Stream.Context.constructor | lib/md5.c:51-60 | the initial context stands for the empty message |
| Md5Stream.Context.Update | lib/md5.c:66-108 | after any update the context holds the fold over all complete blocks, the tail and the bit count of all bytes so far |
| Md5Stream.Context.PadOut | lib/md5.c:114-140 | 0x80 and the right number of zeros, through an extra block when fewer than eight bytes are left |
| Md5Stream.Context.Final | lib/md5.c:114-153 | the digest is that of the message with exactly its padding and length field |
| Md5Stream.GetMd5 | lib/util_misc.c:27-32 | the digest of the data |
| Md5Stream.Md5OfChunks | lib/md5.c:66-153 | however a message is cut into updates, the digest is that of the whole |
| Md5Stream.MakePads | lib/md5.c:280-308 | both pads are the zero-filled or hashed key xored with 0x36 and 0x5c |
| Md5Stream.HmacMd5 | lib/md5.c:280-318 | section 2 of RFC 2104 for every key length |
| Md5Stream.HmacMd5Two | lib/md5.c:320-360 | the HMAC of the concatenation of both texts |
| Md5Stream.HmacMeans | lib/md5.c:280-320 | HMAC byte by byte: the key, or its digest when longer than a block, filled with zeros and xored with 0x36 inside and 0x5c outside |
| Md5Stream.GetFileMd5 | lib/util_misc.c:33-63 | the digest of everything readable, or an error exactly when the file cannot be opened or reading stops short at a multiple of the buffer size |
| Md5Stream.WholeFileDigest | lib/util_misc.c:33-63 | a readable file of any length gets the digest of its whole contents |
| Md5Transform.F1IsF | lib/md5.c:157-158 | the optimised F1 is F of section 3.4 of RFC 1321 for all words |
| Md5Transform.F2IsG | lib/md5.c:159 | F2 is G for all words |
| Md5Transform.PickIsMix | lib/md5.c:157-161 | all four selections are those of the RFC |
| Md5Transform.StepIsRfc | lib/md5.c:164-165 | one MD5STEP is one step of the RFC with the registers rotated |
| Md5Transform.Transform | lib/md5.c:172-253 | the 64 unrolled steps with their words, shifts and constants, and the final addition, are the compression of the RFC |
| Md5Transform.CompressBlock | lib/md5.c:81-104 | on a buffered block, low-order byte first |
| Md5Transform.WordsWeigh | lib/md5.c:81-104 | word i of a block is what its bytes 4i to 4i+3 stand for, low-order byte first |
| Md5Vector.AbcCompress | lib/md5.c:172-253 | the 64 steps on the one block of "abc", row by row, end in the published registers |
| Md5Vector.AbcDigest | lib/md5.c:114-153 | the digest of "abc" is that of section A.5 of RFC 1321 |
| Rings.Insert | lib/list.h:39-47 | the four pointers of `__list_add` |
| Rings.ListAdd | lib/list.h:57-60 | the node becomes first of the ring; no other node changes |
| Rings.ListAddTail | lib/list.h:70-73 | the node becomes last of the ring |
| Rings.Unlink | lib/list.h:82-86 | the ring without its k-th entry |
| Rings.ListDelInit | lib/list.h:104-108 | and the removed node is a ring of its own |
| Rings.EmptyExactly | lib/list.h:137-140 | `list_empty` holds exactly for the ring without entries |
| Rings.ListMove | lib/list.h:115-119 | the node leaves one ring and becomes first of another |
| Rings.ListMoveFront | lib/list.h:115-119 | within one ring the node moves to the front and the others keep their order |
| Rings.ListMoveTail | lib/list.h:126-131 | the node leaves one ring and becomes last of another |
| Rings.ListRequeue | lib/list.h:126-131 | within one ring the node moves to the end and the others keep their order |
| Rings.ListSpliceInit | lib/list.h:142-181 | the first ring is put in front of the second and left empty |
| Rings.TraverseSafe | lib/list.h:255-260 | the safe traversal visits every original entry once, in order, when its body removes any of the entries it stands on |
| Timers.ScanConserves | network/pfs_timer.c:67-88 | a scan fires or keeps each one-shot timer, once |
| Timers.OneShotsFireOnce | network/pfs_timer.c:40-88 | over every run of adds and scans a one-shot timer has fired or is waiting exactly as often as it was added |
| Timers.FiresExactlyDue | network/pfs_timer.c:67-88 | a scan fires each due timer as often as it is active, and no other |
| Timers.ScanOne | network/pfs_timer.c:67-88 | one timer runs if its time is past; then it is armed for one span after the scan if it loops and dropped if not |
| Timers.ScanConcat | network/pfs_timer.c:67-88 | a scan treats every timer by itself, in list order |
| Timers.ScanKeeps | network/pfs_timer.c:67-88 | exactly the timers that loop or are not due stay, in order, with the due ones armed again |
| Timers.LoopsStay | network/pfs_timer.c:67-88 | a list of looping timers keeps its length, each due one armed again in its place |
| Timers.ScanSettles | network/pfs_timer.c:67-88 | a second scan at the same instant fires nothing if and only if no due looping timer has a negative span |
| TimerPool.Pool.Empty | network/pfs_timer.c:18-24 | two empty rings |
| TimerPool.Pool.Fill | network/pfs_timer.c:18-38 | so many new nodes in the home ring; home and active stay disjoint and hold every node made |
| TimerPool.Pool.AddToDelayTask | network/pfs_timer.c:40-65 | the first home node, or a new one, becomes the first active one with the armed timer; no node is lost |
| TimerPool.Pool.ScanTurn | network/pfs_timer.c:72-86 | one entry fires if due, is re-armed if looping, and otherwise goes home |
| TimerPool.Pool.ScanDelayTask | network/pfs_timer.c:67-88 | the scan fires exactly the due timers in list order, and says which nodes stay and which go home, in which order |
| DiskDirs.DecodeExactly | network/pfs_init.c:498-510 | a code decodes to its directory if and only if `d2 < DIR1` |
| DiskDirs.AllDecodeExactly | network/pfs_init.c:498-510 | every directory of the configuration decodes if and only if `DIR2 <= DIR1` |
| DiskDirs.Scan | network/pfs_init.c:510-523 | the cell loop stops at the first cell that holds the code or zero |
| DiskDirs.Slot | network/pfs_init.c:491-527 | the disk loop stops at the first disk that is unused or of that file system |
| DiskDirs.ScanFinds | network/pfs_init.c:475-532 | a stored directory is found before a zero cell is, directory (0,0) included |
| DiskDirs.ScanAppends | network/pfs_init.c:475-532 | a new directory keeps the cells a permutation of the directories stored |
| DiskDirs.VisitKnown | network/pfs_init.c:475-532 | one call on a known file system records the directory, or fails exactly when its disk is full |
| DiskDirs.VisitNew | network/pfs_init.c:475-532 | one call on a new file system takes the next disk |
| DiskDirs.CursorsStay | network/pfs_init.c:475-532 | no call moves a cursor or touches another disk than the one it names |
| DiskDirs.PassFrom | network/pfs_init.c:534-558 | from any reached table, the rest of a pass succeeds if and only if no file system has too many directories |
| DirTable.CodesIncrease | network/pfs_init.c:534-558 | the visiting order visits codes in increasing order |
| DirTable.FirstPass | network/pfs_init.c:475-558 | a first refresh succeeds if and only if every file system fits, and then each disk's cells are a permutation of exactly its directories |
| DirTable.LaterPass | network/pfs_init.c:475-558 | a later refresh changes no cell, and succeeds if and only if none of the disks it visits is full |
| DirTable.FurtherIgnored | network/pfs_init.c:489-532 | once every disk belongs to another file system, directories on a further one are passed over |
| DirTable.TakeRound | network/pfs_init.c:805-816 | `count` consecutive allocations are the cells once round from the cursor |
| DirTable.FairAllocation | network/pfs_init.c:805-816 | any `count` consecutive allocations return each directory of the disk exactly once |
| DirTable.TakeHolds | network/pfs_init.c:805-816 | handing a directory out leaves the disk holding the same directories |
| DirTable.CodesDecode | network/pfs_init.c:498-510 | what is handed out decodes to the directories of that file system and to all of them |
| DirTable.EveryDirectoryServed | network/pfs_init.c:475-558 | after the first refresh, a round of allocations on a disk returns each directory of its file system exactly once and no other |
| DirTable.DiskInfo.constructor | network/pfs_init.c:653-672 | the zeroed table without a chosen disk |
| DirTable.DiskInfo.SetInfoDisk | network/pfs_init.c:475-532 | the nested loops compute the value-level call, its full and its no-slot case included |
| DirTable.DiskInfo.RefreshDiskInfo | network/pfs_init.c:534-558 | both loops compute the pass over the directories in visiting order |
| DirTable.DiskInfo.GetMaxFreeStorage | network/pfs_init.c:805-816 | returns the decoded directory at the cursor and moves the cursor; zeros when no disk is chosen |
| Base64.RoundTrip | lib/common.c:157-182 | a decoder of section 4 of RFC 4648 recovers every input, padded or not |
| Base64.Injective | lib/common.c:157-182 | two inputs with the same encoding are equal |
| Base64.Alphabet | lib/common.c:157-182 | the characters are those of table 1 of RFC 4648, in order |
| Base64.GroupsAreNumbers | lib/common.c:157-182 | every group of three bytes is the same 24-bit number as its four sextets, and a shorter last group the same with zeros |
| Base64.PaddedLength | lib/common.c:178-181 | padding fills up with `=` to four characters for every three bytes begun |
| Base64.PlainEncoding | lib/common.c:157-182 | digits and underscores encode without slash, plus or dot |
| Base64.IndexIsSextet | lib/common.c:157-176 | the code's shifting and masking by bit offset computes the sextets of the RFC |
| Base64.Base64Encode | lib/common.c:157-182 | the buffer gets exactly the encoding and a terminator, and nothing beyond changes |
| FileNames.StemSpelled | network/U/pfs_up_task.c:97-114 | the stem is base64 of time, address and counter in decimal, in this order, between underscores, the counter with at least four digits |
| FileNames.ExtensionFirstDot | network/U/pfs_up_task.c:97-114 | the extension is the rest of the uploaded name from its first dot |
| FileNames.NameSpelled | network/U/pfs_up_task.c:97-114 | a name is directories, stem and extension, cut to 255 characters |
| FileNames.StemUnique | network/U/pfs_up_task.c:97-114 | equal stems come from the same second, server and counter |
| FileNames.StemFits | network/U/pfs_up_task.c:97-114 | directory and stem always fit the name field; only an extension is cut |
| FileNames.NameUnique | network/U/pfs_up_task.c:97-114 | equal names come from the same second, server, counter, directory and kept extension |
| FileNames.IndexCycles | network/U/pfs_up_task.c:97-114 | the picture counter counts modulo 99999 |
| FileNames.NamesUniqueExactly | network/U/pfs_up_task.c:97-114 | over every run, two uploads get the same name if and only if they are in one second, a multiple of 99999 calls apart, in one directory and with the same kept extension |
| FileNames.AtoiReads | network/pfs_init.c:708-740 | `atoi` skips blanks, takes one sign and the digits up to the first other character |
| FileNames.CModRemains | network/pfs_init.c:708-740 | the remainder has the sign of the number and is smaller than the modulus |
| FileNames.ReadsComponents | network/pfs_init.c:708-740 | `get_dir1_dir2` reads the third and second last components |
| FileNames.ReadFailsExactly | network/pfs_init.c:708-740 | it fails if and only if there are fewer than three slashes |
| FileNames.ReadBackExactly | network/pfs_init.c:708-740 | for every extension, the allocated directory is read back if and only if the kept extension has no slash, or one and the directory is (0,0), or two and the first index is 0 and the middle part reads as the second, or more and its third and second last parts read as the directory |
| FileNames.NameReadsBack | network/pfs_init.c:708-740 | so it is whenever the uploaded extension has no slash |
| FileNames.SlashExamples | network/pfs_init.c:708-740 | the name of `f.a/b` in directory (0,1) is misread, that of `f.a/5/b` in (0,5) happens to be read right |
| FileNames.Namer.GetLocalFilename | network/U/pfs_up_task.c:97-114 | the name built step by step is the specified one, and the counter advances or wraps |
| MyBuff.Buff.constructor | lib/mybuff.c:15-21 | an empty buffer without a file |
| MyBuff.Buff.SetData | lib/mybuff.c:22-46 | the contents are the old ones followed by the new bytes, through allocation and growth |
| MyBuff.Buff.GetData | lib/mybuff.c:47-55 | succeeds if and only if bytes are queued, and gives them |
| MyBuff.Buff.SkipData | lib/mybuff.c:56-67 | drops that many bytes from the front, or all |
| MyBuff.Buff.SkipFile | lib/mybuff.c:86-99 | the range left is the old one without its first bytes; a finished file is closed |
| MyBuff.Buff.Reinit | lib/mybuff.c:100-114 | nothing is queued, no file is open and the buffer is not oversized |
| Sender.TurnConserves | network/pfs_so.c:163-238 | what a turn sends and what it leaves are, in order, what was queued; file bytes go out only when no buffered byte remains |
| Sender.TurnAmounts | network/pfs_so.c:163-238 | a turn sends what the first write took, and what the second took if the first left nothing and a file is queued, never more than the limit of one call |
| Sender.VerdictExact | network/pfs_so.c:163-238 | the sender stops asking to write if and only if nothing is pending, and closes if and only if a call it made failed |
| Sender.QueueSteps | network/pfs_so.c:100-112 | bytes queue behind those already there, a file replaces a pending one |
| Sender.RunConserves | network/pfs_so.c:100-238 | over any run and any kernel answers, buffered bytes are sent once and in order, every queued file byte is sent, pending or dropped by a replacement, and `send_len` grows with the wire |
| Sender.FilesInOrder | network/pfs_so.c:100-238 | when no unfinished file is replaced, file bytes too are sent once and in order |
| Sender.RunOrdered | network/pfs_so.c:100-238 | when nothing is queued behind an unfinished file, the wire followed by what is pending is the queued stream |
| Sender.OvertakesExactly | network/pfs_so.c:100-112 | queueing data keeps the stream in order if and only if the data and what is left of the file commute |
| Sender.FileIsSplit | network/pfs_so.c:163-238 | a run of four steps that puts queued data on the wire between two parts of a file |
| Sender.Conn.SetClientData | network/pfs_so.c:100-105 | the bytes join the buffered ones, ahead of what is left of a file |
| Sender.Conn.SetClientFd | network/pfs_so.c:107-112 | the range of the file becomes what is left of a file, the buffered bytes stay |
| Sender.RetriedMeans | network/pfs_so.c:181-203 | a call is repeated exactly while it is interrupted |
| Sender.Conn.SendBuffered | network/pfs_so.c:177-204 | the first retry loop takes the answered bytes off the buffer |
| Sender.Conn.SendFile | network/pfs_so.c:205-238 | the second one takes them off the file range, at most GSIZE at a time |
| Sender.Conn.DoSend | network/pfs_so.c:163-238 | both loops together compute one turn |
| Framing.NeverTooLong | lib/protocol.c:16-30 | the 16-bit length can never reach the limit that closes the connection |
| Framing.Layout | lib/protocol.c:32-49 | on the wire: body length with the high-order byte first, command, status, body |
| Framing.ParseEncoded | lib/protocol.c:16-49 | a whole message parses as itself whatever bytes follow |
| Framing.ParseCut | lib/protocol.c:16-49 | a message cut anywhere asks for more, and says which part is missing |
| Framing.ParseIsEncode | lib/protocol.c:16-49 | whatever parses is the encoding of the result |
| Framing.DrainConserves | lib/protocol.c:16-30 | the messages delivered from any bytes, encoded, and the rest are those bytes |
| Framing.DrainAppend | lib/protocol.c:16-30 | delivering early or late gives the same messages |
| Framing.FeedIsDrain | network/pfs_so.c:85-98 | how the stream is cut into chunks makes no difference |
| Framing.DeliversExactly | lib/protocol.c:16-49 | for any chunking of whole messages and the start of one more, exactly the whole ones are delivered, in order, and the start waits |
| Framing.CreateSigMsg | lib/protocol.c:32-49 | the header in network order and the body |
| Framing.Receiver.CheckReq | network/pfs_so.c:85-98 | the front message is delivered and consumed if it is whole, with the verdict of its handler, and nothing changes otherwise |
| Framing.Receiver.SvcRecv | network/pfs_so.c:85-98 | the loop delivers everything whole up to and including the first request whose handler closes the connection, and leaves exactly the rest |
| Poss.SpinsExactly | lib/pro_poss.c:53-64 | a turn of the loop goes on without consuming anything if and only if a whole message claims length zero |
| Poss.NegativeExactly | network/POSS/pfs_poss_sub.c:94-97 | the stored body length is negative if and only if the header claims less than a header or more than an `int` holds |
| Poss.OverrunsExactly | network/POSS/pfs_poss_sub.c:31-69 | any turn in a body writes more than is left of it if and only if the claimed length is negative, bytes are there and the write takes some; and exactly which bytes it writes |
| Poss.ServeOrderly | network/POSS/pfs_poss_sub.c:31-99 | every state reached on any bytes, well-formed messages or not, is one that condition speaks about |
| Poss.NextChunkSwallowed | network/POSS/pfs_poss_sub.c:31-99 | when a header claiming less than a header arrives alone, the next chunk goes into the file whole |
| Poss.StallsExactly | network/POSS/pfs_poss_sub.c:31-69 | a body waits with bytes still buffered if and only if a write was cut short |
| Poss.GoodExactly | lib/pro_poss.c:25-50 | the messages taken as input: the four commands, a 32-bit number, a body shorter than 2^31 |
| Poss.Layout | lib/pro_poss.c:25-50 | on the wire: whole length, command, number, body |
| Poss.SmallWeighs | lib/pro_poss.c:53-64 | header words are read with the high-order byte first |
| Poss.BodyTurn | network/POSS/pfs_poss_sub.c:31-69 | a failed write closes the connection and leaves the file; a body ends if and only if as much as its header said is written; nothing is lost or reordered between buffer and file |
| Poss.ClosesExactly | network/POSS/pfs_poss_sub.c:71-99 | a turn closes the connection if and only if the command is none of the four, or is a submission whose first write fails |
| Poss.LoopEnds | network/POSS/pfs_poss_sub.c:71-99 | the loop closes the connection if and only if its last turn does |
| Poss.HeadRead | lib/pro_poss.c:53-64 | the three words of a header are read as written |
| Poss.SubRecvKeeps | network/POSS/pfs_poss_sub.c:31-69 | a short, whole or failed write keeps the account of written and pending bytes |
| Poss.CheckReqKeeps | network/POSS/pfs_poss_sub.c:71-99 | one turn handles exactly one message or leaves the account as it is, and a turn that goes on consumes bytes |
| Poss.LoopKeeps | network/POSS/pfs_poss_sub.c:31-99 | the loop ends on every stream of good messages and keeps the account |
| Poss.ServeKeeps | network/POSS/pfs_poss_sub.c:31-99 | so does any run over any chunks |
| Poss.FileIsPrefix | network/POSS/pfs_poss_sub.c:31-99 | at every moment the file is a prefix of the submitted bodies: no header and no byte of another message is ever written |
| Poss.AllWritten | network/POSS/pfs_poss_sub.c:31-99 | once all is consumed the file is exactly the submitted bodies and the other messages were handled in order |
| Poss.FullWritesDeliver | network/POSS/pfs_poss_sub.c:31-99 | when writes are not cut short, for any chunking everything is consumed, every body is in the file and no connection is closed |
| PossService.Service.ReceiveBody | network/POSS/pfs_poss_sub.c:31-69 | the in-place step computes the value-level one |
| PossService.Service.BeginBody | network/POSS/pfs_poss_sub.c:94-97 | the header is consumed and the body length recorded |
| PossService.Service.CheckRequest | network/POSS/pfs_poss_sub.c:71-99 | dispatch on the command, whole messages waited for |
| PossService.Service.Receive | network/POSS/pfs_poss_sub.c:31-69 | a running body first, then the loop |
| Registry.RemoveCounts | network/pfs_init.c:307-324 | removing an address takes out exactly the registration its lookup finds |
| Registry.RemoveAllOf | network/pfs_init.c:326-334 | removing a list of addresses takes the newest registrations of each, one for each mention |
| Registry.AtAddress | network/pfs_init.c:326-362 | at each address, the newest registrations being the group's own, exactly the group's being removed and none of them being left are the same |
| Registry.OthersExactly | network/pfs_init.c:336-362 | a reload destroys exactly the groups of its name and keeps the others as often as they were |
| Registry.AccountedIsSafe | network/pfs_init.c:336-436 | when registrations are exactly those of services and configured domains, none points at a freed domain |
| Registry.DestroyKeeps | network/pfs_init.c:336-362 | destroying a settled group removes exactly its registrations |
| Registry.DestroyExactly | network/pfs_init.c:336-362 | destroying a group leaves no dangling registration if and only if the newest registrations of each of its addresses, as many as it lists, are its own |
| Registry.AddDomainKeeps | network/pfs_init.c:289-305 | loading a line registers exactly the addresses its domain keeps |
| Registry.InitGroupKeeps | network/pfs_init.c:364-436 | a load or reload, successful or not, keeps registrations and configuration in agreement |
| Registry.LinesBecomeDomains | network/pfs_init.c:385-436 | the lines up to the first malformed one, and up to and with the first of more than 64 addresses, become domains, last line first, each with its first 64 addresses; loading succeeds if and only if there is no such line |
| Registry.LoadBecomesGroup | network/pfs_init.c:364-436 | after a load the group stands first with the domains of its lines, and the groups of other names are unchanged |
| Registry.LoadWithoutFile | network/pfs_init.c:366-384 | without a file name the group is gone, with a file that cannot be opened it is empty; both fail |
| Registry.ReloadExactly | network/pfs_init.c:364-436 | a reload, whatever it loads, leaves nothing dangling if and only if the old group was settled |
| Registry.RunExactly | network/pfs_init.c:336-436 | over any run of loads nothing dangles at any point if and only if every reload finds the old group settled; then registrations and configuration agree |
| RegistryRuns.LookupAgrees | network/pfs_init.c:108-123 | with distinct addresses a lookup gives exactly what configuration and services say |
| RegistryRuns.LinesAreFound | network/pfs_init.c:364-436 | after a load without clashes every address of every line read, up to the 64th, looks up to the domain of its line |
| RegistryRuns.OnceExactly | network/pfs_init.c:88-106 | no address is registered twice if and only if all registered addresses differ |
| RegistryRuns.OnceSettles | network/pfs_init.c:336-362 | distinct addresses settle every group |
| RegistryRuns.DistinctRun | network/pfs_init.c:336-436 | over any run of loads and reloads whose addresses never clash, lookups agree with the configuration and nothing dangles |
| RegistryRuns.MovedAddressDangles | network/pfs_init.c:307-436 | moving an address and reloading its new group first leaves a registration to a freed domain, which lookups then return |
| IpTable.BucketLookup | network/pfs_init.c:108-123 | searching one bucket is a linear search of all registrations |
| IpTable.BucketRemove | network/pfs_init.c:307-324 | removing from one bucket is removing from all registrations |
| IpTable.BucketHome | network/pfs_init.c:88-106 | a registration is in the bucket of the five low bits of its address and in no other |
| IpTable.AddressTable.AddIp | network/pfs_init.c:88-106 | the registration becomes the newest |
| IpTable.AddressTable.GetIpInfo | network/pfs_init.c:108-123 | finds the newest registration of the address, or that there is none |
| IpTable.AddressTable.DelIp | network/pfs_init.c:307-324 | removes the newest registration of the address |
| IpTable.AddressTable.DestroyStorageIp | network/pfs_init.c:326-334 | removes one registration per address of a domain |
| IpTable.AddressTable.DestroyOldGroup | network/pfs_init.c:336-362 | destroys every group of that name, with its domains and registrations |
| IpTable.AddressTable.AddStorages | network/pfs_init.c:289-305 | registers addresses up to the limit and reports an excess |
| IpTable.AddressTable.LoadGroup | network/pfs_init.c:364-436 | the reload, with its missing, unreadable, malformed and overlong cases |
| NameServer.RefreshExtremes | network/N/pfs_sig_base.c:30-54 | free space becomes the largest, load and task count the smallest of the old figure and the reports |
| NameServer.CheckMoreHalfOnline | network/N/pfs_sig_base.c:30-54 | a domain is eligible if and only if at least half its servers are connected |
| NameServer.EligibleExactly | network/N/pfs_sig_base.c:46-53 | eligible means that at least half of the positions in the list have a connected server |
| NameServer.BestUnique | network/N/pfs_sig_base.c:56-84 | the best domain is unique |
| NameServer.BestExactly | network/N/pfs_sig_base.c:56-84 | in the figures: the best domain has the most free space, the least load or the fewest tasks of all eligible ones, strictly so among those before it |
| NameServer.ChooseDomain | network/N/pfs_sig_base.c:68-84 | the walk finds the first eligible domain that no eligible one beats, or that none is eligible |
| NameServer.LoadStaysZero | network/N/pfs_sig_base.c:42-44 | load and task count start at zero and stay there over any refreshes |
| NameServer.EqualLoadsChooseFirst | network/N/pfs_sig_base.c:56-84 | so under those policies the best domain is exactly the first eligible one |
| NameServer.RecordTidy | network/N/pfs_sig_base.c:85-107 | group names stay a duplicate-free prefix of the table; a full table takes no new group |
| NameServer.RecordThenGet | network/N/pfs_sig_base.c:85-153 | a recorded group is found with its new domain, and every other lookup is unchanged |
| NameServer.TableIsMap | network/N/pfs_sig_base.c:85-153 | over any run the table is a map of the latest choices bounded to its size |
| NameServer.BestDomains.GetDomainByGroup | network/N/pfs_sig_base.c:141-153 | the search by name |
| NameServer.BestDomains.UpdateGroupDomain | network/N/pfs_sig_base.c:68-112 | records the best domain, or fails without a change if and only if none is eligible |
| Replicas.PickExactly | network/N/pfs_sig_sub.c:9-46 | a server is returned if and only if one is connected: the one at the index if that is connected, otherwise the first connected one |
| Replicas.Rotates | network/N/pfs_sig_sub.c:9-46 | consecutive calls start at consecutive servers, cyclically |
| Replicas.EveryReplicaServed | network/N/pfs_sig_sub.c:9-46 | as many calls as there are servers return every connected one |
| Replicas.Rotation.GetValidIp4Up | network/N/pfs_sig_sub.c:9-46 | the loop and the fallback give the server at the index, or the first connected one |
| LogTable.FindExactly | api/hasht.c:68-86 | a name is found if and only if a slot in use holds it, and there |
| LogTable.AddCases | api/hasht.c:88-119 | which slot is filled, and that adding fails if and only if the bucket is taken and no overflow slot is left |
| LogTable.CountExactly | api/imgtool.c:160-175 | counting a name adds one occurrence, or fails if and only if it is new and has no room |
| LogTable.TallyExactly | api/imgtool.c:160-175 | every name is counted as often as it occurs in the lines read, and reading stops early only at a new name without room |
| LogTable.ReadBack | api/imgtool.c:160-175 | from an empty table, a name is found with its number of occurrences, or does not occur |
| LogTable.LongNamesNotFound | api/hasht.c:68-86 | a name too long for its field is stored as its first 127 characters and never found under itself |
| LogCounter.Counter.constructor | api/hasht.c:48-66 | the empty table with a quarter of the slots as heads |
| LogCounter.Counter.FindNode | api/hasht.c:68-86 | the walk computes the lookup |
| LogCounter.Counter.AddNode | api/hasht.c:88-119 | links and fills a slot; a failed add changes nothing |
| LogCounter.Counter.CountLog | api/imgtool.c:160-175 | the counting loop computes the tally and the number of lines counted |

## Left out
- ShmSizes.HeadsFinishExactly: for one to three overflow slots and more repetitions of keys than overflow slots, whether the overflow area ever grows is left as a condition on the sequence of sizes `h`, `h + h / 5`, and so on.
- NmShm.Monitor.BeginReadShm: one reader at a time, and each call is one atomic step; attaching to segments that exist already is not modelled.
- DirTable.DiskInfo.GetMaxFreeStorage: asks for a chosen disk inside the table; what a read beyond it would give when every slot is taken is not modelled.
- MyBuff.Buff.SetData: allocation succeeds.
- Sender.Conn.DoSend: the file is at least as long as the queued range, and the event-loop calls that follow the verdict are not modelled.
- Poss.FileIsPrefix: takes submissions whose claimed length is that of a header and a body an `int` can hold; `Poss.OverrunsExactly` says what the others do. Opening the local file succeeds, and the renaming that starts a new file is not modelled: the file is everything written on the connection.
- PossService.Service.Receive: is given a state from which the loop ends, which `Poss.SpinsExactly` delimits.
- IpTable.AddressTable.LoadGroup: buckets and lists are sequences; that the ring operations act on rings as on sequences is proved in `Rings`. Text of addresses and the local-address flags are not modelled.
- FileNames.Namer.GetLocalFilename: stem and extension fit the local buffer, as the source takes for granted.
- LogTable.CountExactly: names of 1 to 127 characters; the hash is any function of the name.
- The keyed overload of `Next`, timestamps, `KeepAlive`, segment attachment and 32-bit overflow of table sizes in the shared-memory table; the string twins of the counters.
- The big-endian build of MD5, and any claim that the context is wiped: the closing memset covers only the size of a pointer.
- `statfs` and `lstat` failures and the choice of the disk with most free space.
- Timer callbacks that change the timer lists.
- Name changes and storage selection types of the name server: they are lookups in hash lists like the registry's.
- Address text conversion in `lib/util_ip.c`, hex conversion and the printing of digests.
- The client's own send loop, task queues, replication, the deletion log, and `sortdata`, which ends the life of the log table.
- Sockets, epoll, threads, shared-memory calls, configuration files and logging: their results are inputs of the model or absent.
