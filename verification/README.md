# Luma3DS core routines: model and proofs

A Dafny model of the routines of Luma3DS, and of its debug-server console, that have a
functional meaning which can be stated without the hardware. Each routine that works in place
is a method over arrays or an object with fields. It is proved against a specification on
values, and the lemmas about the specification say what the routine is for.

| file | subject |
|---|---|
| `Machine.dfy`, `Words.dfy` | bytes, 32-bit words, byte order, exclusive or |
| `Lzss.dfy` | the backward LZSS decompressor, which writes its output over its own input |
| `Counter.dfy`, `Fifo.dfy`, `Aes.dfy`, `Nand.dfy` | the AES driver: counter arithmetic and layouts, the FIFO, batches and modes (sections 6.1, 6.2 and 6.5 of NIST SP 800-38A), and encrypted NAND sectors |
| `Mmu.dfy` | ARMv6 page tables (section B4.7 of ARM DDI 0100I): readers, the permission pass, the boot routine |
| `Arm9Patch.dfy` | the rewriter of the exception-vector installer, and the handlers it must not disturb |
| `MemSearch.dfy` | Boyer-Moore-Horspool search against naive search |
| `Crc.dfy`, `LegacyBlock.dfy`, `DeliverArg.dfy` | table-driven checksums against bitwise division, and the argument block they seal across a reboot, in every boot mode |
| `RosalinaLock.dfy` | locking groups of threads while a menu is open, over whole runs |
| `SessionTable.dfy` | the sorted session table against a finite map, over whole runs |
| `Firm.dfy` | firmware check and launch |
| `Fmt.dfy` | number printing and reading |
| `KeyCombo.dfy`, `FixedPoint.dfy` | two option formats of the configuration file |
| `Ini.dfy` | the INI parser on its line buffer, and rendered documents |
| `DebugServer.dfy`, `Directory.dfy` | message framing and the directory codec |

Conventions. Integer widths are explicit: 32- and 64-bit wrap-around is written as a remainder,
bit patterns are `bv8` or `bv32`, or integers split into named fields. The block cipher and the
hash are arbitrary functions; the cipher's decryption is assumed to invert its encryption only
where a lemma requires it. Failing or nondeterministic surroundings are parameters: cards
have faulty sectors, the AES engine runs whenever it likes but not never, the network hands over
fragments of any length, and an INI handler may base its answer on every call it has received.

## What the code does not do

These are facts about the code that its callers may not expect; each is proved.

- Reading a sub-range of NAND sectors matches the larger read exactly when no 2^32 boundary of
  byte offsets lies between the two starts (`Nand.SubRead`).
- The vector-page rewriter follows a store's address exactly when the store is pre-indexed, has
  the write-back bit, or has offset zero (`Arm9Patch.PatchTracksR0`, `Arm9Patch.PostIndexedIsMissed`).
- A mask with several lock groups selects only the lowest one, so a thread of the hid/ir group
  that escaped a lock is not caught on return from a system call while the application group is
  locked too (`RosalinaLock.SelectedByLowestGroup`, `RosalinaLock.CaughtOnSvcReturn`).
- Looking up or removing a session that is not in the table affects its upper neighbour, and a
  table that has once been full stays as it is for ever: sessions that are destroyed never leave
  it and later ones never enter (`SessionTable.RemoveRefines`, `SessionTable.LookupRefines`,
  `SessionTable.FullTableStays`, `SessionTable.RunRepresents`).
- The sealed boot argument block is protected only from 0x400 to 0x53F (`DeliverArg.DamageDetected`).
- The length check of the legacy launcher block is the wrong way round: only a block whose length
  field points past its end survives loading, and its checksum then also covers the zeros there
  (`LegacyBlock.OnlyLongBlocksSurvive`).
- Fixed-point options survive saving exactly when they are not negative and their eighth decimal
  is zero; the comment at config.c:320 says that the loop removes trailing zeros, but it removes
  trailing digits that are not zero (`FixedPoint.FixedPointRoundTrip`, `FixedPoint.ChangedValues`).
- `hexAtoi` misreads lower-case digits exactly when one of the seven low digits is a letter
  (`Fmt.LowerCaseReads`).
- A directory listing carries exactly the entries whose size is below 2^31 and whose name
  consists of characters from 2 to 0x7F. Names pass through ASCII on both sides, which turns
  every character above 0x7F into a question mark (`Directory.ListingRoundTrip`,
  `Directory.AccentIsLost`, `Directory.SizeRoundTrip`).
- A message is received as the one sent exactly when the read that begins it leaves the whole
  size field in the buffer: what the read does not bring has to be there from before
  (`DebugServer.FirstDelivery`, `DebugServer.ServesExactly`, `DebugServer.SplitHeaderIsMisread`).
- The firmware check does not look at where a section's source ends, nor at whether one section
  goes over another one's source. Whatever the hash function is, some image is accepted and yet
  entered at other bytes than those hashed for the section that holds the entry point
  (`Firm.AcceptedButNotInstalled`). A section of an accepted image is installed as hashed, for
  all contents of memory and all hash functions, exactly when every byte of it arrives from its
  own source (`Firm.InstalledExactly`). That no section disturbs it is sufficient but not
  necessary: a disturbing copy can be harmless, for instance that of an identical section.

## Model

| member | source | states |
|---|---|---|
| Lzss.PackEncodes | Luma3DS_Mod/arm9/source/firm.c:292-328 | any token list framed in flag groups of eight is an encoding that the decompressor's reading order accepts |
| Lzss.EncodedLength | Luma3DS_Mod/arm9/source/firm.c:292-328 | every encoding of the same tokens has the same length: one flag byte per eight tokens, one byte per literal, two per match |
| Lzss.CopyIsPeriodic | Luma3DS_Mod/arm9/source/firm.c:308-316 | a match, even one that overlaps its own output, repeats with its distance as period and keeps what came before |
| Lzss.PackedIsWellFormed | Luma3DS_Mod/arm9/source/firm.c:288-328 | a packed token list between the footer's limit and input position can be decompressed in place if the remaining output is never shorter than the remaining input |
| Lzss.CopyMatch | Luma3DS_Mod/arm9/source/firm.c:308-316 | the loop that counts down by 16 copies count/16 + 1 bytes, one at a time and downwards |
| Lzss.DecodeToken | Luma3DS_Mod/arm9/source/firm.c:301-323 | one token consumes exactly its bytes and writes exactly its expansion below the write position |
| Lzss.DecodeGroup | Luma3DS_Mod/arm9/source/firm.c:294-327 | a flag byte and up to eight tokens: unread input stays intact, and what remains expands to the rest of the output |
| Lzss.LzssDecompress | Luma3DS_Mod/arm9/source/firm.c:267-331 | run in place it leaves exactly the pure expansion of the tokens below the footer's top, changes nothing outside, returns the last byte written, and terminates |
| Lzss.DecompressPacked | Luma3DS_Mod/arm9/source/firm.c:286-331 | the same in terms of the footer's bytes alone: packed tokens between c and h bytes below the end become the output that ends x bytes above the end, and every other byte stays |
| Lzss.Example | Luma3DS_Mod/arm9/source/firm.c:286-331 | a buffer that meets all of this with no byte to spare, and its output |
| Words.SwapReverses | Luma3DS_Mod/arm9/source/crypto.c:48-75 | a swapped word has the bytes of the word from the other end |
| Words.SwapTwice | Luma3DS_Mod/arm9/source/crypto.c:48-75 | swapping a word's bytes twice gives the word back |
| Words.XorBlockInverts | Luma3DS_Mod/arm9/source/crypto.c:239-280 | exclusive or with a key stream block is undone by a second one |
| Counter.AddArm | Luma3DS_Mod/arm9/source/crypto.c:62-73 | the conditional add-and-carry chain is addition modulo 2^128 on the four limbs |
| Counter.AddThumb | Luma3DS_Mod/arm9/source/crypto.c:77-89 | so is the add-with-carry chain of the Thumb build |
| Counter.CounterBytes | Luma3DS_Mod/arm9/source/crypto.c:135-182 | in every layout the counter is the big-endian number of its sixteen bytes in their order, which for data blocks is the order in memory |
| Counter.AdvanceCounter | Luma3DS_Mod/arm9/source/crypto.c:157-182 | for every byte and word order, that big-endian number grows by the given amount, modulo 2^128 |
| Counter.ChangeLayout | Luma3DS_Mod/arm9/source/crypto.c:184-204 | changing the order of a counter's words and bytes keeps its value |
| Fifo.OutSplits | Luma3DS_Mod/arm9/source/crypto.c:247-279 | processing a run of blocks with the chaining value carried over gives that part of the one-go output |
| Fifo.Engine.Poll | Luma3DS_Mod/arm9/source/crypto.c:219-228 | between two register accesses the engine may make any number of moves in any order: take a word in, work on a block once its four words are there, hand a word of the result out |
| Fifo.FlowPath | Luma3DS_Mod/arm9/source/crypto.c:206-237 | every path of moves keeps the words in the engine those of the blocks in flight, in order, with the chaining value that belongs there, and leaves less to do |
| Fifo.FlowFits | Luma3DS_Mod/arm9/source/crypto.c:217-228 | neither FIFO ever holds more than sixteen words, and no more than one block and one result are inside the engine |
| Fifo.BlockInOrder | Luma3DS_Mod/arm9/source/crypto.c:219-222 | the engine works on four words of one block in the order of their places, and on nothing else |
| Fifo.NotStuck | Luma3DS_Mod/arm9/source/crypto.c:217-236 | while a block is outstanding that can neither be pushed nor popped, the engine can move |
| Fifo.AesBatch | Luma3DS_Mod/arm9/source/crypto.c:206-237 | under every interleaving of the driver's word accesses with the engine the FIFOs hold at most sixteen words, blocks leave in source order, no source block is overwritten before it is pushed when dst does not lie above src, and the loop ends |
| Fifo.NextBatch | Luma3DS_Mod/arm9/source/crypto.c:276-278 | after a batch the output of the blocks so far is one longer prefix of the one-go output |
| Aes.CtrIsOneShot | Luma3DS_Mod/arm9/source/crypto.c:239-280 | the driver's CTR step function is the one-shot mode: block i is encrypted with counter T + i |
| Aes.CbcEncryptIsOneShot | Luma3DS_Mod/arm9/source/crypto.c:239-280 | likewise for CBC encryption |
| Aes.CbcDecryptIsOneShot | Luma3DS_Mod/arm9/source/crypto.c:239-280 | likewise for CBC decryption |
| Aes.CtrRoundTrip | Luma3DS_Mod/arm9/source/crypto.c:239-280 | CTR applied twice from one counter gives the data back |
| Aes.CbcRoundTrip | Luma3DS_Mod/arm9/source/crypto.c:239-280 | CBC decryption undoes CBC encryption |
| Aes.SavedValue | Luma3DS_Mod/arm9/source/crypto.c:255-274 | the block saved before decryption, the block saved after encryption and the advanced counter are each the chaining value of the next batch |
| Aes.SetIv | Luma3DS_Mod/arm9/source/crypto.c:135-155 | the counter register receives the value of the iv in either word order |
| Aes.RunAes | Luma3DS_Mod/arm9/source/crypto.c:239-280 | for any number of blocks, in place or shifted down, memory holds the mode's one-go output over the source as it was at the start, and iv is ready for the data that follows |
| Nand.ReadAfterWrite | Luma3DS_Mod/arm9/source/crypto.c:370-418 | sectors read back are the sectors written |
| Nand.CounterContinues | Luma3DS_Mod/arm9/source/crypto.c:374 | the counter of a later sector continues that of an earlier one if and only if no 2^32 boundary of byte offsets lies between |
| Nand.CounterMatters | Luma3DS_Mod/arm9/source/crypto.c:388 | different counters never decrypt the same data alike |
| Nand.SubRead | Luma3DS_Mod/arm9/source/crypto.c:370-391 | reading a sub-range gives the matching slice of a larger read if and only if the two start sectors lie in one 2^32 window |
| Nand.CtrNand.Write | Luma3DS_Mod/arm9/source/crypto.c:393-418 | the 0x4000-byte chunks are unobservable: the card holds a prefix of the one-go encryption, all of it unless a sector fails, else up to the first chunk of 32 sectors that holds a failing one |
| Nand.CtrNand.Read | Luma3DS_Mod/arm9/source/crypto.c:370-391 | the caller's buffer holds the one-go decryption of the stored sectors, which start at sector + fatStart on the NAND, and emuOffset further on the SD card |
| Nand.CtrNand.WriteThenRead | Luma3DS_Mod/arm9/source/crypto.c:370-418 | a write to SysNAND followed by a read of the same sectors leaves the data written in the reader's buffer, unless one of the sectors fails |
| Mmu.L1SplitRaw | Luma3DS_Mod/k11_extension/source/mmu.c:7-30 | packing and splitting a first-level descriptor's bit fields are inverse |
| Mmu.WalkersRead | Luma3DS_Mod/k11_extension/source/mmu.c:102-212 | both walkers from the bits of the first-level descriptor: sections of 1 MB and supersections of 16 MB keep the offset, and the permission bits are read as the architecture has them |
| Mmu.PagesRead | Luma3DS_Mod/k11_extension/source/mmu.c:136-238 | the same for large pages of 64 KB and small pages of 4 KB |
| Mmu.RegionMoves | Luma3DS_Mod/k11_extension/source/mmu.c:102-160 | addresses in one region are translated with the same difference |
| Mmu.RwxL1Fields | Luma3DS_Mod/k11_extension/source/mmu.c:32-68 | rewriting a section or supersection sets its access bits and execute-never bit and keeps every other field |
| Mmu.RwxL2Fields | Luma3DS_Mod/k11_extension/source/mmu.c:70-100 | rewriting a large or small page does the same and keeps its type and base |
| Mmu.PassKeepsPA | Luma3DS_Mod/k11_extension/source/mmu.c:32-160 | the pass changes no translation below 0x40000000, also when first-level entries share a second-level table |
| Mmu.PassGrantsAll | Luma3DS_Mod/k11_extension/source/mmu.c:32-238 | afterwards the user permission is 7 where an address was mapped and 0 elsewhere |
| Mmu.PassIdempotent | Luma3DS_Mod/k11_extension/source/mmu.c:32-100 | a second pass changes nothing and no descriptor ever changes type |
| Mmu.MmuTables.L1RwxForAll | Luma3DS_Mod/k11_extension/source/mmu.c:32-100 | the in-place loops do exactly the pass of the specification |
| Mmu.MmuTables.RelocateAndSetup | Luma3DS_Mod/k11_extension/source/main.c:51-107 | the table-filling loops leave exactly the tables of the boot specification |
| Mmu.BootMapsPhysical | Luma3DS_Mod/k11_extension/source/main.c:92-100 | after boot the readers find 0x80000000 + pa at pa with permission 7 for every pa below 0x30000000 |
| Mmu.BootMapsExtension | Luma3DS_Mod/k11_extension/source/main.c:57-107 | on every core the extension's pages, up to 256, are found at their places, closed to the user, and the rest of the megabyte is unmapped; on the other cores the shared table is the one that core 0 has filled |
| Arm9Patch.StoreBits | Luma3DS_Mod/arm9/source/patches.c:534-541 | which words are stores through r0, and where their fields are, in bit positions |
| Arm9Patch.PatchTracksR0 | Luma3DS_Mod/arm9/source/patches.c:531-549 | the patch's address and r0 are the processor's if and only if the store is pre-indexed, has the write-back bit or has offset zero |
| Arm9Patch.PatchableMeans | Luma3DS_Mod/arm9/source/patches.c:531-549 | what is assumed of a store: the patch computes the processor's address and next r0, the target lies in the vector page, and r0 is not stored unless it holds the page's address |
| Arm9Patch.ExecRewritten | Luma3DS_Mod/arm9/source/patches.c:536-545 | one rewritten instruction, run with r0 fixed, has the effect of the original up to dropped stores |
| Arm9Patch.PatchPreservesMeaning | Luma3DS_Mod/arm9/source/patches.c:531-549 | the rewritten stream performs, in order, the original stores to kept addresses, and leaves the other registers as the original does |
| Arm9Patch.ExampleRewritten | Luma3DS_Mod/arm9/source/patches.c:531-549 | five concrete words that meet the assumptions, and what they become |
| Arm9Patch.OnlyKeptWordsChange | Luma3DS_Mod/arm9/source/patches.c:540-543 | a word is what the original leaves if its address is kept, and untouched if not |
| Arm9Patch.InstallArm9Handlers | Luma3DS_Mod/arm9/source/exceptions.c:39-51 | the installer writes each non-null handler's veneer and no other word |
| Arm9Patch.NoOtherWord | Luma3DS_Mod/arm9/source/exceptions.c:39-51 | no other address is touched by the installation |
| Arm9Patch.Veneers | Luma3DS_Mod/arm9/source/exceptions.c:39-51 | an installed vector is a jump through its second word, which is the handler |
| Arm9Patch.HandlersSurvive | Luma3DS_Mod/arm9/source/exceptions.c:39-51 | after the rewritten code has run, started at the vector page, every installed handler except those of the two kept vectors is in place; the words at multiples of 8, at 0x08000004 and at 0x08000014 are what the original code leaves there, and every other word is as it was |
| Arm9Patch.PostIndexedIsMissed | Luma3DS_Mod/arm9/source/patches.c:536-539 | a post-indexed store for which the patch computes the wrong address and the wrong r0 |
| Arm9Patch.PatchExceptionHandlersInstall | Luma3DS_Mod/arm9/source/patches.c:521-552 | the code is refused, and left alone, exactly when the pattern occurs nowhere in its bytes; otherwise exactly the words from the first store to the end mark are rewritten, in place |
| Arm9Patch.NotFound | Luma3DS_Mod/arm9/source/patches.c:523-527 | code without the pattern is never excluded |
| Arm9Patch.ExampleFound | Luma3DS_Mod/arm9/source/patches.c:521-529 | three concrete words in which the pattern, the first store and the end mark are found |
| MemSearch.NaiveIsLeftmost | Luma3DS_Mod/arm9/source/memory.c:34-56 | naive search finds the leftmost occurrence, or none exactly when there is none |
| MemSearch.ShiftSkipsNoMatch | Luma3DS_Mod/arm9/source/memory.c:47-53 | moving by a safe shift skips no match |
| MemSearch.ShiftTable | Luma3DS_Mod/arm9/source/memory.c:39-43 | every entry of the table is a safe shift and at least 1 |
| MemSearch.MemSearch | Luma3DS_Mod/arm9/source/memory.c:34-56 | the fast search returns what the naive one does |
| Crc.TableIsBitByBit | Luma3DS_Mod/arm9/source/utils.c:169-182 | one table step equals eight single-bit division steps, for any polynomial |
| Crc.Table.Initialize | Luma3DS_Mod/arm9/source/utils.c:166-177 | each entry is the remainder of its index after eight steps |
| Crc.Table.Update | Luma3DS_Mod/arm9/source/utils.c:179-184 | the loop, with a table filled once, computes the bitwise remainder of the message |
| Crc.Crc16 | Luma3DS_Mod/arm9/source/utils.c:161-185 | CRC-16 is the bitwise remainder and stays within 16 bits |
| Crc.Crc32 | Luma3DS_Mod/arm9/source/utils.c:187-211 | CRC-32 is the complemented bitwise remainder, as in section 8 of RFC 1952 for initial value 0xFFFFFFFF |
| Crc.CheckValues | Luma3DS_Mod/arm9/source/utils.c:161-211 | the published check values of both routines for the text 123456789 |
| Crc.RemainderSplits | Luma3DS_Mod/arm9/source/utils.c:179-184 | a message may be checked in pieces |
| Crc.StepInjective | Luma3DS_Mod/arm9/source/utils.c:172-175 | no two registers of either routine have the same successor |
| Crc.BurstDetected | Luma3DS_Mod/arm9/source/utils.c:161-211 | equal-length messages that differ only in a window of four bytes (CRC-32) or two (CRC-16) have the same remainder if and only if they are equal |
| Crc.ByteChangeDetected | Luma3DS_Mod/arm9/source/utils.c:161-211 | changing any one byte of any message changes the remainder |
| DeliverArg.SealedIsAccepted | Luma3DS_Mod/arm9/source/deliver_arg.c:53-61 | a sealed block passes the check, and sealing changes only the pattern and checksum words |
| DeliverArg.SealedWords | Luma3DS_Mod/arm9/source/deliver_arg.c:98-104 | the pattern at 0x438 and the checksum at 0x43C of the bytes from 0x400 to 0x540 |
| DeliverArg.RebootKeepsBlock | Luma3DS_Mod/arm9/source/deliver_arg.c:34-108 | what one run commits the run after the reboot finds |
| DeliverArg.SealedTwice | Luma3DS_Mod/arm9/source/deliver_arg.c:98-104 | committing an unedited block stores the same bytes |
| DeliverArg.DamageDetected | Luma3DS_Mod/arm9/source/deliver_arg.c:53-61 | one damaged byte makes the next run find zeros if and only if it lies in 0x400-0x53F |
| DeliverArg.NextRunFinds | Luma3DS_Mod/arm9/source/deliver_arg.c:34-109 | in every boot mode: the next run finds the block committed, in a legacy mode if and only if its launcher block is accepted or empty and nothing lies behind 0x400 |
| DeliverArg.FoundIsKept | Luma3DS_Mod/arm9/source/deliver_arg.c:34-109 | an accepted block, or any block of a legacy mode, that was found and not edited is found again by the run after a commit |
| LegacyBlock.LegacyBytes | Luma3DS_Mod/arm9/source/memory.c:58-80 | bytes spread over every fourth halfword are gathered again |
| LegacyBlock.CopyFromLegacyModeFcram | Luma3DS_Mod/arm9/source/memory.c:58-68 | the loop gathers the legacy part and changes nothing behind it |
| LegacyBlock.CopyToLegacyModeFcram | Luma3DS_Mod/arm9/source/memory.c:70-80 | the loop spreads it and keeps every byte in between |
| LegacyBlock.LegacyRoundTrip | Luma3DS_Mod/arm9/source/deliver_arg.c:63-78 | a block stored in a legacy mode is found again if and only if it is clean |
| LegacyBlock.FoundIsClean | Luma3DS_Mod/arm9/source/deliver_arg.c:63-78 | whatever memory holds, the block found is clean |
| LegacyBlock.OnlyLongBlocksSurvive | Luma3DS_Mod/arm9/source/deliver_arg.c:68-77 | a launcher block that is not cleared begins with TLNC and has a length above 248, and its checksum covers the block's data and length - 248 zeros |
| LegacyBlock.HalfwordIs | Luma3DS_Mod/arm9/source/deliver_arg.c:73 | the stored checksum is read with its low byte first |
| DeliverArg.Run.Validate | Luma3DS_Mod/arm9/source/deliver_arg.c:53-60 | the check decides acceptance and puts the cleared field back |
| DeliverArg.Run.Load | Luma3DS_Mod/arm9/source/deliver_arg.c:34-84 | in every boot mode, the first load of a run finds the accepted block or zeros; later loads keep the run's block |
| DeliverArg.Run.ValidateTlnc | Luma3DS_Mod/arm9/source/deliver_arg.c:68-77 | the magic, length and checksum tests of the launcher block, on the buffer it is loaded into |
| DeliverArg.Run.Commit | Luma3DS_Mod/arm9/source/deliver_arg.c:86-109 | the whole new state in every boot mode: the boot register, the run's block (sealed in CTR mode), memory, and when a fresh run finds exactly this block |
| RosalinaLock.SelectedByLowestGroup | Luma3DS_Mod/k11_extension/source/synchronization.c:93-123 | every thread is in at most one group, and a mask selects the threads of its lowest group only |
| RosalinaLock.GroupDigits | Luma3DS_Mod/k11_extension/source/synchronization.c:99-122 | the group by the halves of the title id |
| RosalinaLock.LockedMask | Luma3DS_Mod/k11_extension/source/synchronization.c:77-91 | locking adds 0x40 to a mask in which this bit is clear, and nothing else |
| RosalinaLock.UnlockedMask | Luma3DS_Mod/k11_extension/source/synchronization.c:168-180 | unlocking takes 0x40 away, unless the low four bits are 2 |
| RosalinaLock.Kernel.RescheduleThread | Luma3DS_Mod/k11_extension/source/synchronization.c:77-91 | only bit 0x40 changes, the scheduler is told the old mask exactly when it did, and the lock is released |
| RosalinaLock.Kernel.LockThreads | Luma3DS_Mod/k11_extension/source/synchronization.c:125-166 | every selected thread except the mutex owner is locked and no other changes; each change is reported once with its old mask, running threads last; the cross-core flags of the other cores and the interrupts are exactly those due, and this core's flag is cleared exactly when a selected thread was running; the lock depth is restored |
| RosalinaLock.Kernel.TriggerCrossCoreInterrupt | Luma3DS_Mod/k11_extension/source/synchronization.c:44-52 | every other core is interrupted once, in order, and the flag is cleared |
| RosalinaLock.Kernel.UnlockThreads | Luma3DS_Mod/k11_extension/source/synchronization.c:168-180 | exactly the selected, locked, non-terminating threads are unlocked, in the numbers of their masks, each reported once |
| RosalinaLock.Kernel.LogInOrder | Luma3DS_Mod/k11_extension/source/synchronization.c:131-160 | no running thread is reported before one that is not running |
| RosalinaLock.LogsMean | Luma3DS_Mod/k11_extension/source/synchronization.c:77-91 | every changed thread is reported with its old mask, and there are as many reports as changed threads |
| RosalinaLock.Kernel.SetState | Luma3DS_Mod/k11_extension/source/svc/KernelSetState.c:115-140 | each thread is locked or unlocked by the toggle of its own group alone |
| RosalinaLock.ToggledMask | Luma3DS_Mod/k11_extension/source/svc/KernelSetState.c:115-140 | what a toggle does to a mask, in numbers |
| RosalinaLock.Kernel.PostprocessSvc | Luma3DS_Mod/k11_extension/source/svc.c:134-141 | a returning thread is locked exactly when its group is the lowest active one of 1 and 4 |
| RosalinaLock.GroupsApart | Luma3DS_Mod/k11_extension/source/svc/KernelSetState.c:127-139 | the three rounds of a toggle do not interfere |
| RosalinaLock.LockedOnlyWhileActive | Luma3DS_Mod/k11_extension/source/synchronization.c:69-180 | in every run a thread that is never terminating at a toggle is locked only while its group is active |
| RosalinaLock.LockedExactlyWhileActive | Luma3DS_Mod/k11_extension/source/synchronization.c:69-180 | and, if it never holds the mutex at a toggle, exactly while its group is active |
| RosalinaLock.TogglesFind | Luma3DS_Mod/k11_extension/source/synchronization.c:174 | that assumption in terms of the low bits of the mask each toggle finds |
| RosalinaLock.MenuOpensAndCloses | Luma3DS_Mod/k11_extension/source/svc/KernelSetState.c:115-140 | a menu is opened and closed: the thread is stopped in between and as it was afterwards |
| RosalinaLock.LockThenUnlock | Luma3DS_Mod/k11_extension/source/synchronization.c:77-180 | locking then unlocking restores a selected thread if and only if it was not locked before; for a terminating thread, if and only if the lock did nothing |
| RosalinaLock.CaughtOnSvcReturn | Luma3DS_Mod/k11_extension/source/svc.c:134-141 | which threads that escaped a lock are caught on return from a system call, for every state |
| SessionTable.LowerBoundIsUnique | Luma3DS_Mod/k11_extension/source/ipc.c:39-61 | in a sorted table only the lower bound lies between smaller and not smaller sessions, and a present session is there |
| SessionTable.Table.FindClosestSlot | Luma3DS_Mod/k11_extension/source/ipc.c:39-61 | the bisection ends at the lower bound |
| SessionTable.Table.Lookup | Luma3DS_Mod/k11_extension/source/ipc.c:63-79 | the record at the lower bound if it is still hooked |
| SessionTable.Table.FindFirst | Luma3DS_Mod/k11_extension/source/ipc.c:81-98 | the first record whose name agrees in twelve characters, if it is still hooked |
| SessionTable.Table.Add | Luma3DS_Mod/k11_extension/source/ipc.c:100-135 | in place, the table takes the step of the specification and stays sorted, and every lock is released |
| SessionTable.Table.Remove | Luma3DS_Mod/k11_extension/source/ipc.c:137-165 | likewise, and the vacated record is cleared |
| SessionTable.AddRefines | Luma3DS_Mod/k11_extension/source/ipc.c:100-135 | adding is insertion into the map for new sessions, and nothing for present ones or a full table |
| SessionTable.RemoveRefines | Luma3DS_Mod/k11_extension/source/ipc.c:137-165 | removing is removal from the map if and only if the session is present and the table not full, or it is absent and nothing is taken |
| SessionTable.LookupRefines | Luma3DS_Mod/k11_extension/source/ipc.c:63-79 | lookup is map lookup if and only if the session is present, or nothing hooked lies at its lower bound |
| SessionTable.NeighbourAnswers | Luma3DS_Mod/k11_extension/source/ipc.c:63-165 | a table in which an absent session is answered with its neighbour's record and removes it |
| SessionTable.FoundAsAdded | Luma3DS_Mod/k11_extension/source/ipc.c:63-135 | a session added with a name of at most 12 characters is found with that name |
| SessionTable.FirstOfName | Luma3DS_Mod/k11_extension/source/ipc.c:81-98 | among names of at most 12 characters, the first record of exactly the given name is found |
| SessionTable.RunFreezes | Luma3DS_Mod/k11_extension/source/ipc.c:100-183 | after every run the table is sorted without duplicates and holds, under their first names, the sessions alive at the first moment when there were 345 of them, or else at the end |
| SessionTable.RunRepresents | Luma3DS_Mod/k11_extension/source/ipc.c:100-183 | a run ends with the table representing exactly the live sessions if and only if these are the ones alive at that moment |
| SessionTable.HookedAreLive | Luma3DS_Mod/k11_extension/source/ipc.c:167-184 | the hooked sessions are the live ones in every run |
| SessionTable.LiveSessionsFound | Luma3DS_Mod/k11_extension/source/ipc.c:63-183 | after any run from the empty table a live session is found with its own record if and only if it was alive at that moment under the same name |
| SessionTable.FullTableStays | Luma3DS_Mod/k11_extension/source/ipc.c:100-165 | once full, the table is never changed again by any run |
| Fmt.ShownDenotes | Luma3DS_Mod/arm9/source/fmt.c:112-126 | the digits denote the magnitude, also of the smallest 64-bit number, without leading zeros, and fit the 20-byte buffer |
| Fmt.RenderLength | Luma3DS_Mod/arm9/source/fmt.c:128-147 | the length is the larger of the width and sign, prefix and the larger of digits and precision |
| Fmt.WidthOnlyPads | Luma3DS_Mod/arm9/source/fmt.c:130-146 | a field width only adds blanks outside the number, on the side the flags ask for, or zeros between its prefix and its digits |
| Fmt.TakeDigits | Luma3DS_Mod/arm9/source/fmt.c:108-126 | the buffer holds the digit characters, lowest first |
| Fmt.ProcessNumber | Luma3DS_Mod/arm9/source/fmt.c:84-149 | exactly the rendered number is written at the output position and nothing else |
| Fmt.DecAtoi | Luma3DS_Mod/arm9/source/strings.c:40-49 | the value of the digits up to a terminator or the limit, modulo 2^32 |
| Fmt.HexAtoi | Luma3DS_Mod/arm9/source/strings.c:29-38 | likewise in base 16 |
| Fmt.ReadsBack | Luma3DS_Mod/arm9/source/strings.c:29-49 | reading a printed 32-bit number gives it back, in decimal or upper-case hexadecimal, with any width, precision and zero padding |
| Fmt.LowerCaseReads | Luma3DS_Mod/arm9/source/strings.c:29-38 | lower-case hexadecimal is read back if and only if no digit below the eighth is a letter |
| KeyCombo.NamesDiffer | Luma3DS_Mod/arm9/source/config.c:77-86 | no two named keys have the same name |
| KeyCombo.ParseMeaning | Luma3DS_Mod/arm9/source/config.c:247-292 | the option accepts exactly the lists of key names joined by plus signs and yields the union of their bits |
| KeyCombo.JoinedKeysParse | Luma3DS_Mod/arm9/source/config.c:247-292 | any list of names, in any order and case, parses to the union of their bits |
| KeyCombo.ComboRoundTrip | Luma3DS_Mod/arm9/source/config.c:247-310 | a printed combination parses to itself if it is not empty and all its bits are named, and is rejected otherwise |
| KeyCombo.ParseKeyCombo | Luma3DS_Mod/arm9/source/config.c:247-292 | the token loop computes that meaning |
| KeyCombo.MenuComboToString | Luma3DS_Mod/arm9/source/config.c:294-310 | the printing loop joins the names from the highest bit down |
| FixedPoint.Reread | Luma3DS_Mod/arm9/source/config.c:144-338 | what any printed value parses to |
| FixedPoint.FixedPointRoundTrip | Luma3DS_Mod/arm9/source/config.c:144-338 | a value parses back to itself if and only if it is in range, not negative and its eighth decimal is zero |
| FixedPoint.ChangedValues | Luma3DS_Mod/arm9/source/config.c:312-338 | two values that come back changed |
| FixedPoint.EncodedFloatToString | Luma3DS_Mod/arm9/source/config.c:312-338 | the printing loops produce the printed form |
| FixedPoint.ParseDecInt | Luma3DS_Mod/arm9/source/config.c:105-137 | an optional sign and digits, in 64-bit arithmetic, or an error |
| FixedPoint.SignedDigits | Luma3DS_Mod/arm9/source/config.c:105-137 | a minus sign negates the digits, a plus sign does not, and any other character is an error |
| FixedPoint.ParseDecFloat | Luma3DS_Mod/arm9/source/config.c:144-218 | the parsing loops compute the value and the range check, errors included |
| FixedPoint.DecimalTexts | Luma3DS_Mod/arm9/source/config.c:144-218 | the value of any whole part, also an empty one, a point and up to eight decimals, under each sign |
| DebugServer.HeaderReads | Debug3dsServerConsole/Debug3dsServerConsole/Back.cs:465-471 | the marker, type, response, size and the two numbers as the receiver finds them |
| DebugServer.FramedIsMessage | Debug3dsServerConsole/Debug3dsServerConsole/Back.cs:460-472 | a header and payload name their own total length |
| DebugServer.Client.Read | Debug3dsServerConsole/Debug3dsServerConsole/Back.cs:369-389 | one read, on the buffer in place, is the read of the specification: it asks for a header or at most the rest of the message and keeps the counters accordingly |
| DebugServer.ReadLimit | Debug3dsServerConsole/Debug3dsServerConsole/Back.cs:370-371 | a read brings at most 16 bytes of a new message, and at most 0x1000 of the rest of one |
| DebugServer.Server.Step | Debug3dsServerConsole/Debug3dsServerConsole/Back.cs:555-567 | one turn of the loop is a round of the specification |
| DebugServer.FirstDelivery | Debug3dsServerConsole/Debug3dsServerConsole/Back.cs:369-389 | under every fragmentation, and whatever follows, the first message delivered is the one sent if and only if its size was seen by the read that began it |
| DebugServer.WrongStays | Debug3dsServerConsole/Debug3dsServerConsole/Back.cs:369-389 | a message begun with another size is never delivered in its place |
| DebugServer.RunServes | Debug3dsServerConsole/Debug3dsServerConsole/Back.cs:555-567 | over every run, finished or not: if all sizes are seen, the messages delivered and those pending are those sent, in order; if not, some delivery is or will be wrong |
| DebugServer.ServesExactly | Debug3dsServerConsole/Debug3dsServerConsole/Back.cs:555-567 | when the stream has been read to its end, the messages delivered are those sent, in order, if and only if every read that began a message saw its size |
| DebugServer.ServesFromStart | Debug3dsServerConsole/Debug3dsServerConsole/Back.cs:555-567 | the same for a new connection, with any messages that name their own lengths |
| DebugServer.SizeRead | Debug3dsServerConsole/Debug3dsServerConsole/Back.cs:370-379 | after a first read of any length the size is right if and only if the buffer already held what the read did not bring of it |
| DebugServer.SplitHeaderIsMisread | Debug3dsServerConsole/Debug3dsServerConsole/Back.cs:369-389 | a message of which four bytes come first is delivered as these four bytes |
| DebugServer.Server.Serve | Debug3dsServerConsole/Debug3dsServerConsole/Back.cs:555-567 | the loop is the rounds of the specification, for any fragments, up to the end of the connection |
| Directory.SizeRoundTrip | Debug3dsServerConsole/Debug3dsServerConsole/Back.cs:582-591 | a size is decoded correctly if and only if it is below 2^31 |
| Directory.DecodesAs | Debug3dsServerConsole/Debug3dsServerConsole/Back.cs:582-591 | the decoder adds the two halves as signed 32-bit numbers, modulo 2^64 |
| Directory.NameRoundTrip | Debug3dsServerConsole/Debug3dsServerConsole/Back.cs:81 | a name survives the conversion to bytes and back if and only if it is ASCII |
| Directory.OnlyAscii | Debug3dsServerConsole/Debug3dsServerConsole/Back.cs:81 | nothing but ASCII is sent or shown, with question marks for the rest |
| Directory.ListingDecodes | Debug3dsServerConsole/Debug3dsServerConsole/Back.cs:577-603 | when no name contains a character 0 or 1, kinds are decoded as they are, names with question marks for what is not ASCII, and each size as the decoder's arithmetic has it |
| Directory.ListingRoundTrip | Debug3dsServerConsole/Debug3dsServerConsole/Back.cs:59-87 | any listing decodes to its entries if and only if every character of every name lies in 2..0x7F and every size is below 2^31 |
| Directory.AccentIsLost | Debug3dsServerConsole/Debug3dsServerConsole/Back.cs:81 | a file named with one accented letter comes back named with a question mark |
| Directory.DirectoryEndToEnd | Debug3dsServerConsole/Debug3dsServerConsole/Back.cs:59-87 | the whole message is one message of the framing, and decodes under the same condition |
| Directory.Sender.Write | Debug3dsServerConsole/Debug3dsServerConsole/Back.cs:393-407 | the bytes sent are the first length bytes, whatever the chunks |
| Directory.Sender.SendDirectory | Debug3dsServerConsole/Debug3dsServerConsole/Back.cs:59-87 | the chunked writer sends the header and the concatenated entries, up to the first that does not fit a chunk, at which it fails |
| Directory.NoneTooLong | Debug3dsServerConsole/Debug3dsServerConsole/Back.cs:67-82 | everything is sent if and only if no name is longer than 4087 characters |
| Directory.DecodeDirectory | Debug3dsServerConsole/Debug3dsServerConsole/Back.cs:577-603 | the parsing loop computes the decoding, or reports the exception |
| Firm.CodeAcceptsExactly | Luma3DS_Mod/arm9/source/firm.c:43-106 | the 32-bit tests accept exactly the images that are acceptable in unbounded arithmetic, also when the sum of the sizes wraps around |
| Firm.CheckFirm | Luma3DS_Mod/arm9/source/firm.c:59-106 | the result is acceptability: aligned, in one window, apart from the image, hashed, with both entry points found |
| Firm.EntryLiesInSection | Luma3DS_Mod/arm9/source/firm.c:98-106 | each entry point of an accepted image lies in a section in one of the four windows; only that of the Arm11 may be zero |
| Firm.XMemcpy | Luma3DS_Mod/arm9/source/chainloader.c:34-44 | the byte loop is the upward copy |
| Firm.DoLaunchFirm | Luma3DS_Mod/arm9/source/chainloader.c:46-52 | for any memory and any header, memory is that of copying the four sections in order, each one's description read from memory when its turn comes, addresses wrapping around |
| Firm.LaunchedIsOverlay | Luma3DS_Mod/arm9/source/chainloader.c:46-52 | of every accepted image the header survives the copies, so that reading it again makes no difference |
| Firm.OverlayFrom | Luma3DS_Mod/arm9/source/chainloader.c:34-52 | for any header, every byte comes from one place in the memory before the launch, which the header alone decides |
| Firm.OverlayIsFinal | Luma3DS_Mod/arm9/source/chainloader.c:46-52 | if no section disturbs another one's source or its own, every byte comes from the source of the last section that covers it, and is as it was if none does |
| Firm.InsideIsKept | Luma3DS_Mod/arm9/source/firm.c:80-84 | this is so for every accepted image whose sources lie inside its counted size |
| Firm.ImageIntact | Luma3DS_Mod/arm9/source/chainloader.c:46-52 | no byte of any accepted image is overwritten |
| Firm.LaunchInstallsCheckedSections | Luma3DS_Mod/arm9/source/chainloader.c:46-55 | a section of an accepted image whose source no earlier section goes over, which is copied cleanly, and which no later one overwrites ends up holding exactly the bytes whose hash was checked |
| Firm.LaunchInstallsDisjoint | Luma3DS_Mod/arm9/source/chainloader.c:46-55 | the same with the conditions as intervals of addresses |
| Firm.InstalledExactly | Luma3DS_Mod/arm9/source/chainloader.c:46-55 | given the header of any accepted image, launching installs a section as it was hashed for all other contents of memory and all hash functions under which the image is accepted, if and only if each of the section's bytes arrives from its own source |
| Firm.AcceptedButNotInstalled | Luma3DS_Mod/arm9/source/firm.c:59-106 | for every hash function with 32-byte results, an accepted image of two sections of which the one that is entered ends up holding the other one's bytes |
| Ini.LinesConcatenate | Luma3DS_Mod/arm9/source/ini.c:265-288 | successive reads concatenate to the input |
| Ini.LinesFit | Luma3DS_Mod/arm9/source/ini.c:265-288 | no line is empty or longer than 199 characters, and a newline is its last character |
| Ini.LongLinesSplit | Luma3DS_Mod/arm9/source/ini.c:265-288 | a longer line is read in pieces of 199 characters |
| Ini.Reader.Read | Luma3DS_Mod/arm9/source/ini.c:265-288 | the reader's loop takes the next such line and terminates it |
| Ini.RStrip | Luma3DS_Mod/arm9/source/ini.c:48-54 | writes terminators over trailing white space and changes nothing else |
| Ini.LSkip | Luma3DS_Mod/arm9/source/ini.c:57-62 | the position after leading white space |
| Ini.FindCharsOrComment | Luma3DS_Mod/arm9/source/ini.c:67-82 | the first of the given characters or of an inline comment |
| Ini.SplitPair | Luma3DS_Mod/arm9/source/ini.c:201-212 | in place, the name and the value are both left readable, although terminators are written between and after them |
| Ini.Parser.ReadLine | Luma3DS_Mod/arm9/source/ini.c:157-228 | the branches of the loop body, on the mutable line buffer, do the step of the specification |
| Ini.ParseString | Luma3DS_Mod/arm9/source/ini.c:136-240 | reader and parser together compute the parse of the text |
| Ini.LineReads | Luma3DS_Mod/arm9/source/ini.c:157-228 | each kind of rendered line does what its item says, comments and surrounding blanks removed |
| Ini.CommentedValueReads | Luma3DS_Mod/arm9/source/ini.c:203-210 | a value with a comment after it is read as the value alone |
| Ini.PlainIsWritable | Luma3DS_Mod/arm9/source/ini.c:48-82 | documents that can be written in any case, described by their characters alone |
| Ini.ItemsAreDocument | Luma3DS_Mod/arm9/source/ini.c:165-180 | such items are a document if continuations follow pairs or continuations |
| Ini.RenderedDocumentParses | Luma3DS_Mod/arm9/source/ini.c:136-240 | parsing a rendered document (sections, pairs with either separator and with or without a comment, continuation lines, remarks and blank lines) calls the handler with exactly its sections, names, values and line numbers, up to the first rejected call, whose line is the result |
| Ini.ShortNamesStay | Luma3DS_Mod/arm9/source/ini.c:84-95 | for names under 50 characters the calls are those that the document asks for in its own words: sections and continued names whole |
| Ini.LongNamesCut | Luma3DS_Mod/arm9/source/ini.c:84-95 | longer ones are cut to 49 characters |
| Ini.ParseDocument | Luma3DS_Mod/arm9/source/ini.c:136-240 | the same of the reader and parser run together on a rendered document |

## Left out

- A null end pointer given to the decompressor, for which it does nothing.
- AES rounds, SHA and the registers of the AES engine: the block cipher and the hash are parameters.
- Fifo.Engine.Poll: a word is named by the block it is part of and its place there, not given as a 32-bit value.
- ECB: the driver leaves the counter alone in this mode, which is modelled; its one-shot form is trivial.
- `aes_setkey`, key slots, RSA and the SHA driver.
- `copyKip` and the rest of firmware patching around the decompressor and the check.
- `getCodeOffset`-style searches and the fixed-pattern patches: they depend on kernel bytes that are not part of this model.
- Arm9Patch.PatchExceptionHandlersInstall: a pattern found at another alignment, or without the first store before it or the end mark after it, is excluded; the program then reads misaligned words or leaves the buffer.
- `installMmuHooks`, TLB and cache maintenance around the page-table routines.
- What the legacy launcher block says, and the autoboot configuration that is written into the argument block.
- `vsprintf`'s directive parsing and its character and string conversions: the number core is modelled.
- Overflow of the 32-bit width and precision counters of the number printer, which takes an output of 2 GB.
- The size of the caller's buffers in the option printers.
- `configIniHandler` and the template it is paired with: option names and the packing of small fields.
- RosalinaLock.Kernel: what the scheduler does with a reported thread is not modelled, only that it is told, and the linked list of threads is a sequence.
- SessionTable.Table: sessions are addresses; the reference count that is raised and lowered again around the hook is not modelled.
- Ini.ParseString: section and previous name are kept as strings, cut to 49 characters, and not as fixed arrays.
- Sockets, threads, console commands, menus, drawing, file systems and storage drivers.
