# growlight: partition tables, the zone map and the runtime core

growlight edits partition tables and keeps a picture of the machine's disks in memory. This project models five parts of
it and proves what they promise: the GPT kept in two checksummed copies, the four-entry MBR table, the zone map with the
partition allocator behind the text interface, the runtime state of `src/growlight.c` (scan barrier, log ring,
controller list, two arithmetic loops), and three text machines (command lexer, mount table, serial numbers).

`dafny verify dfyconfig.toml` checks everything.

## How the model is cut

- **A disk is its bytes.** `Gpt`, `GptEdit`, `GptCreate` and `Msdos` store into an `array<byte>` where the C code stores
  into a mapped file. Each method is tied to a function of the old bytes, and the theorems are about those functions.
  CRC32 is a parameter: any function from bytes to 32-bit words.
- **Linked structures are heap objects.** `ZoneChain` builds, walks, frees and closes the circular chain of zone objects;
  `Allocator` and `Controllers` insert into singly linked lists; `LogRing` keeps the wrapped array. Each is tied to a
  sequence: `Zones.ZonesOf`, `Allocator.Insert`, `Controllers.Step`, the ring's history.
- **The scan barrier is a state machine.** Every mutex acquisition, counter change, signal, wait, thread creation and
  spurious wakeup is a step of its own, and theorems quantify over all reachable states.
- **The outside world is an input**: random GUIDs and whether getrandom delivered, what iconv wrote and whether it
  finished, the type code lookup, the order in which sysfs lists partitions, errno before strtoull, PCI probing.
- Integers are the C code's: 64-bit wrap-around and 32-bit truncation are written out wherever they can occur.

Files: `Arithmetic`, `Bytes`, `Decimal`, `Strings`, `CTypes`, `Wrappers` and `Devices` are shared ground; `GptLayout`, `Gpt`, `GptEdit`,
`GptRuns`, `GptCreate`, `GptGeometry` follow `src/gpt.c`; `Msdos` follows `src/msdos.c`; `Zones`, `ZoneChain`, `PartSpec`,
`Allocator`, `AllocatorRuns` follow the allocator through `src/notcurses/notcurses.c`, `src/ptable.c`, `src/gpt.c` and
`src/growlight.c`, and `AllocatorGpt` runs it on a GPT disk; `Mounts` follows `src/mounts.c` and `Fstab` follows
`src/target.c`; the rest carry their subject's name.

## Where the code is not what its comments, or a reader, would expect

The model does what the code does. Each of these is a lemma, with the exact condition where there is one.

- The table written at creation counts 34 sectors where 33 suffice (`GptGeometry.CreationCount`), so its backup array
  starts on the last usable sector, and the first edit moves it up one (`GptCreate.FirstEditMovesBackup`).
- The comment above write_gpt asks for 67 sectors on 512-byte media; at 67 the primary array survives creation only if
  its first and last sectors were equal (`GptCreate.CreatedTooSmall`).
- A "new empty GPT" is empty only if the array's sectors already held zeros (`GptCreate.CreatedIsEmpty`).
- Name, uuid, flag and code edits index the array by the partition number itself, one slot too far
  (`GptRuns.EditsMissOwnSlot`); from number 128 on they write into usable sectors, or on the
  smallest disks into the backup array (`GptRuns.NumbersPastArrayEditData`).
  The uuid edit writes into the name field.
- An add or rename that fails after touching the array leaves it under its old checksum (`GptRuns.FailedAddUnseals`,
  `GptRuns.FailedNameUnseals`).
- add_gpt says it verifies that nothing overlaps; it only reports, and its report misses an old partition that contains
  the new one (`GptEdit.OverlapDiagnostic`, `GptEdit.ContainedAddUnreported`).
- The last usable sector is the disk's last sector, so partitions may cover the backup GPT
  (`AllocatorRuns.ClearOfBackupIff`), and the default "100%" does (`AllocatorRuns.HundredPercentMeetsBackup`); a
  commit then overwrites what they hold there (`AllocatorGpt.CommitSparesIff`).
- "100%" leaves out the zone's last sector, and percentages are said to start at 1 but 0 lexes (`PartSpec.PercentMeans`).
- A size with a suffix wraps at 2^64 bytes (`PartSpec.SizeIsExactIffNoWrap`, `PartSpec.SizeWrapsExample`).
- When no random bytes are to be had, new_gpt fails only after it has cleared the old header
  (`GptCreate.UnfinishedIsUnsealable`).
- A colon range is not compared with the selected zone; one that meets a partition makes the next rebuild fail
  (`AllocatorRuns.AcceptedRebuildsIff`, `AllocatorRuns.ColonOverlapExample`).
- A new MBR entry's start is cut to 32 bits although its size is guarded (`Msdos.StoredRange`,
  `Msdos.StartIsCutExample`).
- A call of watch_dir with a timeout waits once without re-testing; a spurious wakeup there makes the next call's entry
  assertion fail (`ScanBarrier.HurriedCallCanFail`), though no later one (`ScanBarrier.UntimedCallsNeverFail`).
- timeval_subtract returns 1000000 microseconds when the microsecond fields differ by exactly a second, which takes an
  unnormalised input (`Measures.TimevalSubtract`).
- Swap lines and the proc line of the generated fstab have doubled tabs that the mount parser refuses, so it never gets
  through a generated table (`Fstab.UnreadableItem`, `Fstab.DumpIsNeverReadWhole`).
- The target test is a string prefix, so a sibling directory counts as inside the target (`Fstab.SiblingIsPrinted`).

## Model

| member | source | states |
|---|---|---|
| GptLayout.ViewIsWhole | src/gpt.c:434-438 | Cutting a disk into its six stretches loses nothing, so what is proved of views is proved of whole disks. |
| Gpt.ViewFollowsGeometry | src/gpt.c:434-450 | Those stretches are exactly the six parts of the geometry for 512-byte sectors. |
| GptLayout.SealChecks | src/gpt.c:50-63 | After update_crc's stores both checksums check, whatever function the CRC is: the header's over its declared length with its own field zero, the array's over the array. |
| GptLayout.SealOfChecked | src/gpt.c:50-63 | A header whose checksums already check is left alone to the byte. |
| GptLayout.MirrorIsUnique | src/gpt.c:85-96 | A checking header that mirrors the primary can only be the one update_backup writes. |
| GptLayout.GoodIffFixed | src/gpt.c:434-464 | Tables whose two copies check, agree and mirror are exactly the fixed points of unmap_gpt's commit. |
| GptLayout.CommitIsGood | src/gpt.c:434-464 | A commit yields such a table and touches no byte outside headers, checksums and the backup array; the first usable sector stays. |
| GptLayout.CommitForgets | src/gpt.c:434-464 | Of two commits in a row with different entries the first leaves no trace. |
| Gpt.UpdateCrc | src/gpt.c:50-63 | Refuses exactly the unsupported shapes without a change; otherwise the only change is the sealed header. |
| Gpt.UpdateBackup | src/gpt.c:65-110 | The disk becomes the one with array, moved header and its checksums at the end, for any sector count of a copy. |
| Gpt.UnmapGpt | src/gpt.c:434-464 | The whole disk after an edit is the commit of the disk before it; it fails exactly on an unsupported shape. |
| GptEdit.NewEntryFields | src/gpt.c:547-563 | A filled entry is in use, has the requested range, zero flags and the converted name. |
| GptEdit.OverlapDiagnostic | src/gpt.c:518-531 | The overlap report sees every overlap except an old partition sticking out on both sides. |
| GptEdit.ContainedAddUnreported | src/gpt.c:524-530 | On a disk with one partition at 100 to 1000, a request for 200 to 300 passes every check and no overlap is reported. |
| GptEdit.FillSlot | src/gpt.c:547-563 | The field stores of an add amount to one new entry, or to a zeroed slot on either failure. |
| GptEdit.ScanSlots | src/gpt.c:520-535 | The scan finds the lowest free slot and reports exactly when an end of a used entry lies in the range. |
| GptEdit.AddGpt | src/gpt.c:466-567 | The exact condition of success; refusals and a full table change nothing, late failures zero the slot uncommitted, else the new entry is committed. |
| GptEdit.DelGpt | src/gpt.c:719-736 | The entry before the number's is zeroed, as far as the mapping reaches, and the table committed. |
| GptEdit.NameGpt | src/gpt.c:584-609 | The name goes to the slot of the number itself; a failed conversion leaves its bytes uncommitted. |
| GptEdit.UuidGpt | src/gpt.c:611-632 | Sixteen bytes go to the name field of the slot of the number itself, committed. |
| GptEdit.FlagsGpt | src/gpt.c:634-655 | The flag word of the slot of the number itself is replaced, committed. |
| GptEdit.FlagGpt | src/gpt.c:657-682 | The masked bits of that flag word are set or cleared, committed. |
| GptEdit.CodeGpt | src/gpt.c:684-717 | An unknown code changes nothing, an entry without sectors is recommitted and refused, else the type is replaced. |
| GptRuns.Perform | src/gpt.c:466-740 | On an accepted table each successful C function does to the disk exactly what the run theorems assume of a step. |
| GptRuns.RunsKeepTable | src/gpt.c:434-464 | Every run of edits ends with both copies checking, equal and mirrored; data, boot sector and unaddressed slots are untouched. |
| GptRuns.AddTakesLowest | src/gpt.c:518-567 | An add takes the lowest slot whose two GUIDs are all zeros, leaves it in use with its range and changes no other slot. |
| GptRuns.DeleteUndoesAdd | src/gpt.c:719-736 | Deleting the added number restores the disk to the byte exactly when the slot had held only zeros. |
| GptRuns.FirstAddTakesSlotZero | src/gpt.c:520-535 | After a zap and a creation the first add takes slot 0. |
| GptRuns.EditsMissOwnSlot | src/gpt.c:584-717 | Name, uuid, flag and code edits change no slot but the number's own index, so they leave the partition's own entry as it was. |
| GptRuns.NumbersPastArrayEditData | src/gpt.c:595-707 | From number 128 to the end of the mapping the edit changes usable sectors, unless they already held those bytes, and no table; where a small disk has its backup array there, the commit undoes it. |
| GptRuns.FailedNameUnseals | src/gpt.c:595-599 | After a failed rename the table is good exactly when nothing new was written. |
| GptRuns.FailedAddUnseals | src/gpt.c:548-560 | After a failed add the table is good exactly when the chosen slot already held zeros. |
| GptRuns.EditStores | src/gpt.c:547-732 | In its slot each edit changes exactly its own field, to the given value, and an add the whole entry but spare name bytes. |
| Bytes.MaskedBits | src/gpt.c:668-672 | A flag edit leaves the masked bits as asked and all other bits as they were. |
| GptRuns.FlagEditsOverride | src/gpt.c:657-682 | A flag edit after another of the same bits and number leaves the disk it alone would have left. |
| GptCreate.InitializeGpt | src/gpt.c:112-150 | Two refusals change nothing; without random bytes an unfinished header is left; else every field of the sector reads back as set. |
| GptCreate.UnfinishedIsUnsealable | src/gpt.c:140-149 | A header left unfinished has the locations of a finished one and zeros behind them, and no edit will commit it. |
| GptCreate.FreshFields | src/gpt.c:126-149 | Every byte of a fresh header reads back as section 5.3.2 of the UEFI Specification lays it out, checksums zero. |
| GptCreate.ProtectiveMeaning | src/gpt.c:21-35 | The protective record is one MBR partition of type 0xee from sector 1 on with the largest count, three empty entries and the boot signature. |
| GptCreate.WriteGpt | src/gpt.c:159-217 | The disk becomes the created form of the old one; without random bytes only an unfinished header is written. |
| GptCreate.NewGpt | src/gpt.c:219-267 | Refuses exactly disks that are not whole, ragged or under 67 sectors, without a change; else protective record and created form. |
| GptCreate.ZapGpt | src/gpt.c:269-300 | Succeeds exactly on a disk with a GPT, of any size that holds one stretch; then bytes 440 to 17919 and the last 34 whole sectors are zero and every other byte is what it was. |
| GptCreate.ZapKeeps | src/gpt.c:159-217 | So boot code, the sectors between the two stretches and a ragged end survive a zap. |
| GptCreate.CreatedIs | src/gpt.c:159-217 | From 68 sectors on, every stretch of a created disk, old data included. |
| GptCreate.CreatedChecks | src/gpt.c:159-217 | From 68 sectors on both copies of a created table check, agree and mirror, one sector lower than edits put the backup. |
| GptCreate.CreatedIsEmpty | src/gpt.c:191-201 | A created table is empty exactly when its sectors held zeros before. |
| GptCreate.CreatedTooSmall | src/gpt.c:233-236 | At 67 sectors the primary array survives exactly when its first and last sectors were equal. |
| GptCreate.WipeThenCreate | src/gpt.c:241-298 | Zap then new: all entries zero in both copies, all checksums good, boot code bytes 0 to 439 and the sectors between the zapped stretches kept. |
| GptCreate.FirstEditMovesBackup | src/gpt.c:434-450 | The first edit of a created table makes it good, with the backup array one sector up and a stale sector left in the data. |
| GptGeometry.CreationCount | src/gpt.c:160-162 | The creation count is right exactly when 16 KiB does not divide into sectors; otherwise it is one too many. |
| GptGeometry.CountsOf512 | src/gpt.c:160-162 | On 512-byte sectors creation counts 34 sectors and edits 33, the numbers the byte model uses. |
| GptGeometry.EditedLayoutTiles | src/gpt.c:134-145 | For every sector size dividing 16 KiB each sector of an edited disk lies in exactly one of the six parts. |
| GptGeometry.BackupArrayPlaces | src/gpt.c:70-71 | Creation puts the backup array on the last usable sector, edits one past it, ending before the backup header. |
| Msdos.AddMsdos | src/msdos.c:190-275 | Accepts exactly the stated requests and stores one entry, else changes nothing; reports an overlap exactly when an end of a used entry lies in the range. |
| Msdos.AddAcceptedIff | src/msdos.c:199-262 | An add is accepted exactly without a name, with a known type, on a whole disk with a DOS table, for at most 2 * 10^12 bytes, a usable range after rounding and a free entry. |
| Msdos.DelMsdos | src/msdos.c:412-433 | Zeroes the entry of a number from 1 to 4, else changes nothing. |
| Msdos.FlagsMsdos | src/msdos.c:294-323 | Replaces the flag byte of a primary partition by 0 or 0x80, else changes nothing. |
| Msdos.FlagMsdos | src/msdos.c:331-364 | Sets or clears the boot flag of a primary partition, else changes nothing. |
| Msdos.CodeMsdos | src/msdos.c:372-404 | Replaces the type of an entry with sectors, else changes nothing. |
| Msdos.InitializeMsdos | src/msdos.c:44-54 | Without random bytes nothing changes; else a new signature, four zero entries and the boot signature, boot code and other sectors kept. |
| Msdos.RunsKeep | src/msdos.c:190-433 | Over every run, refusals included, boot code, signatures and unaddressed entries never change. |
| Msdos.DeleteUndoesAdd | src/msdos.c:412-433 | An add takes the lowest all-zero entry and deleting its number restores every byte. |
| Msdos.StepStores | src/msdos.c:271-433 | In its entry an accepted request changes exactly its own byte, or for an add and a delete all of it. |
| Msdos.NewEntryFields | src/msdos.c:271-274 | A new entry holds the type, start and count cut to 32 bits, and zeros elsewhere. |
| Msdos.StoredRange | src/msdos.c:271-274 | An accepted add stores its sector count exactly; its start is exact if and only if it fits 32 bits. |
| Msdos.StartIsCutExample | src/msdos.c:271-274 | A start of 2^32, accepted on an empty 4 TiB disk, is stored as 0. |
| Msdos.GuardBound | src/msdos.c:205-208 | What the 2 TB guard lets through has fewer than 2^32 sectors, when the guard's product does not wrap. |
| Devices.AlignUpIsLeast | src/gpt.c:500-504 | Rounding yields the least multiple of a physical sector that is not below the request. |
| Devices.AlignUpIsPhysical | src/gpt.c:500-504 | So it yields the first sector from the request on that starts a physical sector. |
| Zones.FittedPairs | src/notcurses/notcurses.c:5747-5761 | The list condition of the loop says: in bounds below, each range non-empty, every pair in order and disjoint. |
| Zones.RebuildSucceedsIff | src/notcurses/notcurses.c:5732-5781 | The rebuild meets no refused zone if and only if the list is sorted, disjoint and above the first usable sector. |
| Zones.ZonesCoverDisk | src/notcurses/notcurses.c:5732-5781 | Zones run from sector 0 to the end without gap or overlap, but for one sector shared after a trailing empty zone. |
| Zones.ZonesLength | src/notcurses/notcurses.c:5762-5781 | Zone lengths sum to the disk's, plus one exactly when there is a trailing empty zone. |
| Zones.EachPartitionOneZone | src/notcurses/notcurses.c:5747-5761 | Each partition has exactly one zone, with its own sectors, in list order. |
| Zones.ZoneOfSector | src/notcurses/notcurses.c:5732-5781 | Every sector is in an empty zone exactly if it is usable and in no partition, in a partition's zone exactly if it is the partition's, and in a metadata zone exactly if it is not usable or the free last usable one. |
| Zones.FreeStretchHasZone | src/notcurses/notcurses.c:5747-5771 | Every stretch of usable sectors that meets no partition lies within one empty zone. |
| Zones.UnpartitionedIsBlank | src/notcurses/notcurses.c:5732-5737 | A device without a table has an empty map, and partitions on it would make the rebuild fail. |
| ZoneChain.CreateZobj | src/notcurses/notcurses.c:730-756 | Refuses exactly the illegal ranges and numbers; otherwise the doubly linked chain grows by that zone. |
| ZoneChain.BuildChain | src/notcurses/notcurses.c:5732-5781 | Builds the open chain of the whole map, and fails exactly when some zone of the map is illegal. |
| ZoneChain.WalkBack | src/notcurses/notcurses.c:5788-5803 | The backward walk counts the followers of every node and finds the zone to select and the runner-up. |
| ZoneChain.CloseRing | src/notcurses/notcurses.c:5804-5805 | Two assignments turn the counted open chain into a well-formed ring. |
| ZoneChain.Blockobj.FreeZchain | src/notcurses/notcurses.c:5692-5705 | Every node is freed exactly once, none is read after it is freed, and the walk ends. |
| ZoneChain.Blockobj.UpdateBlockobj | src/notcurses/notcurses.c:5714-5821 | The new chain is a ring carrying the map of the list, the old one is freed, and the selection is clamped or chosen. |
| ZoneChain.Blockobj.UsePrevZone | src/notcurses/notcurses.c:3414-3419 | Selects the zone to the left, by number and around the end. |
| ZoneChain.Blockobj.UseNextZone | src/notcurses/notcurses.c:3421-3426 | Selects the zone to the right, by number and around the end. |
| ZoneChain.Blockobj.Press | src/notcurses/notcurses.c:5377-5392 | A run of left and right keys selects the zone that the run lands on, and keeps the ring. |
| ZoneChain.LandedIs | src/notcurses/notcurses.c:3414-3426 | The selection has moved by the net count of the run, around the ring. |
| ZoneChain.ReturnsIff | src/notcurses/notcurses.c:3414-3426 | A run comes back exactly when its net count is a multiple of the number of zones. |
| ZoneChain.MovesAreCyclic | src/notcurses/notcurses.c:3414-3426 | Left and right undo each other, and as many moves as zones return to the start either way. |
| ZoneChain.EveryZoneIsReached | src/notcurses/notcurses.c:3414-3426 | Fewer moves than zones, in either direction, reach any zone. |
| ZoneChain.SelectedByScan | src/notcurses/notcurses.c:5782-5811 | The walk's choice is the clamped old number, or with none the lowest empty zone, else zone 1, else zone 0. |
| PartSpec.LexPartSpec | src/notcurses/notcurses.c:2734-2842 | The loop and its branches compute the functional lexer, for every string. |
| PartSpec.SpecStaysInZone | src/notcurses/notcurses.c:2744-2841 | A percent or size spec starts at its zone and ends inside it, or is empty. |
| PartSpec.PercentMeans | src/notcurses/notcurses.c:2744-2761 | "N%" takes N percent of one sector less than the zone has, rounded down; "100%" leaves the last sector out. |
| PartSpec.OverHundredRefused | src/notcurses/notcurses.c:2744-2761 | More than 100 percent is refused. |
| PartSpec.ColonMeans | src/notcurses/notcurses.c:2762-2793 | "A:B" for any decimals below 2^64 - 1 is sectors A to B whatever the zone. |
| Decimal.StrtoullOfHex | src/notcurses/notcurses.c:2769 | Base 0 reads a number behind 0x in base 16. |
| Decimal.StrtoullOfOctal | src/notcurses/notcurses.c:2769 | Base 0 reads a number behind 0 in base 8. |
| Decimal.DigitValues | src/notcurses/notcurses.c:2769 | The sixteen digits have the values 0 to 15 in either case. |
| PartSpec.SizeMeans | src/notcurses/notcurses.c:2795-2841 | "N" or "N" and the k-th of KMGTPE in either case asks for N * 1024^k bytes modulo 2^64, accepted exactly when that is whole sectors the zone has, stale ERANGE included. |
| PartSpec.OtherSuffixRefused | src/notcurses/notcurses.c:2812-2829 | Any other character, or more than one, behind a size refuses it. |
| PartSpec.MinusRefused | src/notcurses/notcurses.c:2763-2801 | A minus sign in front of a size or range refuses it, although strtoull would read it. |
| PartSpec.SizeIsExactIffNoWrap | src/notcurses/notcurses.c:2809-2840 | An accepted size gets exactly the bytes it names if and only if they fit 64 bits. |
| PartSpec.SizeWrapsExample | src/notcurses/notcurses.c:2809-2840 | "16777217T", 2^64 bytes and a tebibyte, is accepted and gets the tebibyte. |
| Allocator.PartitionList.AddPartitionInner | src/growlight.c:496-536 | The linked list changes by one sorted insertion, or not at all on the three refusals. |
| Allocator.PartitionList.Rescan | src/growlight.c:667-752 | The list becomes the insertion of the listed partitions in the directory's order, up to the first refused one, and fails exactly there. |
| Allocator.InsertAllSorts | src/growlight.c:520-533 | Insertions in any order give a sorted list with exactly the inserted partitions. |
| Allocator.RescanOrderIrrelevant | src/growlight.c:667-752 | Whatever order the directory has, a rescan gives back a sorted, disjoint list unchanged. |
| Allocator.InsertFittedIff | src/growlight.c:520-533 | An inserted range keeps a list disjoint exactly when it meets no member. |
| Allocator.EmptyZoneTakesPartition | src/notcurses/notcurses.c:5747-5781 | Any sub-range of any empty zone can be inserted: list fitted, bounds kept. |
| Allocator.AcceptedIff | src/gpt.c:500-508 | A range is accepted exactly when it is usable and not empty after rounding; it starts at the first physical sector from the request on and keeps its end. |
| AllocatorRuns.RequestStaysInZone | src/gpt.c:500-508 | Lexing, both range checks and rounding together keep an accepted request inside its zone. |
| AllocatorRuns.RequestAcceptedIff | src/ptable.c:262-265 | A lexed request is accepted exactly when the rounded start of the zone is not past its last sector. |
| AllocatorRuns.FreeStretchIsRequestable | src/notcurses/notcurses.c:2844-2875 | Every free stretch of usable sectors that holds a physical sector start lies in one empty zone, and asked for there by its numbers it is created. |
| AllocatorRuns.RunsStayFitted | src/ptable.c:254-309 | Every run of creations and deletions without colon ranges, whatever errno held, keeps the list sorted, disjoint and in bounds, so every rebuild succeeds. |
| AllocatorRuns.AcceptedRebuildsIff | src/notcurses/notcurses.c:2762-2793 | After any accepted range, colon ranges included, the list is disjoint and in bounds, and the rebuild succeeds, exactly when the range met no partition. |
| AllocatorRuns.RescannedIff | src/growlight.c:667-752 | What the kernel lists, in any order, can be mapped again exactly when its partitions are disjoint, and the rescanned list is then they in order. |
| AllocatorRuns.ColonOverlapExample | src/notcurses/notcurses.c:2762-2793 | "100:200" over a partition at 150 to 160 is accepted and the next rebuild fails. |
| AllocatorRuns.ClearOfBackupIff | src/ptable.c:501-505 | An accepted range spares the backup GPT exactly when it ends before its 33 sectors. |
| AllocatorRuns.HundredPercentMeetsBackup | src/notcurses/notcurses.c:2915-2918 | The default spec in the trailing empty zone ends on the sector before the backup header. |
| AllocatorRuns.PartitionBaseP | src/notcurses/notcurses.c:2652-2677 | Accepts exactly a selected empty zone of a loaded, partitioned device. |
| AllocatorRuns.RequestFor | src/notcurses/notcurses.c:2844-2875 | On the ring, the selected zone and the spec give exactly the range whose acceptance is the run theorem's request. |
| AllocatorRuns.CreatePartition | src/notcurses/notcurses.c:2844-2895 | From any spec to redrawn ring on the heap: it creates exactly when the request is accepted and stored, list and chain change as the run theorem's step says, and the rebuild fails exactly when a colon range met a partition. |
| AllocatorRuns.DeletePartition | src/ptable.c:284-309 | The same for a deletion, whatever order the rescan lists the rest in. |
| AllocatorGpt.AddLists | src/gpt.c:518-567 | An add makes the table's used slots hold one partition more, the requested one. |
| AllocatorGpt.DeleteUnlists | src/gpt.c:727-732 | Zeroing a slot makes them hold that slot's partition no more. |
| AllocatorGpt.SlotHolding | src/gpt.c:518-535 | Every partition a table holds has a slot, and so a number to delete it by. |
| AllocatorGpt.FirstGpt | src/gpt.c:750-774 | The first usable sector that a scan caches is the field of the primary header. |
| AllocatorGpt.ListedClearOfPrimary | src/ptable.c:482-499 | No listed partition starts below that field, so with the 34 that creation stores none meets the primary table. |
| AllocatorGpt.AddToTable | src/gpt.c:466-567 | On an accepted range add_gpt succeeds exactly when type code, random bytes and name are complete and a slot is free, storing exactly that partition; else it zeroes at most the chosen slot. |
| AllocatorGpt.AddedToTable | src/gpt.c:434-567 | The table then has two good copies and one partition more, and boot sector and usable sectors are untouched. |
| AllocatorGpt.RefusedByTable | src/gpt.c:545-560 | A refused add leaves the partitions of the table as they were, and a good table good unless it cleared a slot that held bytes. |
| AllocatorGpt.CreateGptPartition | src/notcurses/notcurses.c:2844-2895 | End to end on a GPT disk, for any spec: the exact condition of success and the exact disk either way; boot sector and usable sectors never change; table, list and ring agree afterwards unless a created colon range met a partition. |
| AllocatorGpt.DeleteGptPartition | src/ptable.c:284-309 | They agree after every deletion too, exactly that partition is gone, the copies are good, and boot sector and usable sectors are untouched. |
| AllocatorGpt.CommitSparesIff | src/gpt.c:434-464 | A commit leaves a partition's contents alone exactly when it ends before the last 33 sectors or already holds there the bytes of the backup copy written. |
| ScanBarrier.ReachableInv | src/growlight.c:1389-1499 | In every reachable state mutex ownership, counter, signaller and sleeper are consistent. |
| ScanBarrier.CounterIsExact | src/growlight.c:1463-1470 | In every reachable state the counter is the scans not counted out, plus a launch in progress. |
| ScanBarrier.NoLostWakeup | src/growlight.c:1396-1400 | Whenever the main thread sleeps, some scan has still to finish. |
| ScanBarrier.UntimedCallWaitsForAll | src/growlight.c:1481-1498 | A call without timeout leaves only when every scan has finished, spurious wakeups or not. |
| ScanBarrier.CallLaunchesAll | src/growlight.c:1460-1475 | In every interleaving a call that finds n links and is refused no thread has launched exactly n when it comes to its final wait. |
| ScanBarrier.EveryEntryIsScanned | src/growlight.c:1460-1498 | So an untimed call that leaves has one finished scan for each of its links. |
| ScanBarrier.RefusalEndsLaunches | src/growlight.c:1467-1473 | A call refused a thread after j launches launches no more, however it goes on. |
| ScanBarrier.EntryAssertionHolds | src/growlight.c:1432-1434 | The entry assertion can fail only if the call just before was timed and woken spuriously. |
| ScanBarrier.NextEntryHolds | src/growlight.c:1481-1498 | After a call without timeout the next entry assertion holds in every interleaving, whatever happened before. |
| ScanBarrier.UntimedCallsNeverFail | src/growlight.c:2071-2083 | Once an untimed call has passed its entry, no later entry fails while calls go on untimed, as they do at start-up. |
| ScanBarrier.EntryFailsIff | src/growlight.c:1432-1434 | At the check it fails exactly when some scan thread has not finished. |
| ScanBarrier.HurriedCallCanFail | src/growlight.c:1485-1491 | A reachable run in which a timed call makes the next call's assertion fail. |
| ScanBarrier.StepsLowerRank | src/growlight.c:1426-1499 | Every step but a new call and a spurious wakeup lowers a rank. |
| ScanBarrier.RunsEnd | src/growlight.c:1426-1499 | So a run without them is bounded by the rank of its start. |
| ScanBarrier.NeverStuck | src/growlight.c:1426-1499 | Unless all is at rest or the assertion failed, some thread can step without a spurious wakeup. |
| LogRing.Ring.AddLog | src/growlight.c:104-126 | The history grows by one message and the wrapped array stays its newest 1024. |
| LogRing.Ring.GetLogs | src/growlight.c:128-158 | Copies exactly the newest min(n, logged, 1024) messages, newest first, with an end mark, and terminates. |
| Controllers.IdentInjective | src/growlight.c:246-253 | Equal manufactured identifiers come from equal module names and equal numbers. |
| Controllers.LessIff | src/growlight.c:246-359 | The order of the list is that of strcmp: the first difference decides, and an end comes first. |
| Controllers.StepKeepsGood | src/growlight.c:216-359 | One call keeps one controller per address, distinct sorted identifiers and their numbering. |
| Controllers.ListedIff | src/growlight.c:216-359 | After a call the address is listed exactly if it was, or its PCI lookups succeed and fewer than 100000 controllers of the module are listed; nothing else changes. |
| Controllers.RunsKeepIdentities | src/growlight.c:216-359 | So does every run from the list holding only the virtual bus. |
| Controllers.ControllerList.FindPcieController | src/growlight.c:216-359 | The linked list changes as the step says, and a controller of that address is returned exactly when one is listed. |
| Measures.Alignment | src/growlight.c:483-494 | Terminates with the largest power of two up to 2^63 dividing its argument, despite the wrapping shift. |
| Measures.TimevalSubtract | src/growlight.c:1548-1565 | The difference is exact for all inputs; microseconds are normalised unless the fields differ by exactly a second. |
| Tokenizer.Tokenize | src/readline/readline.c:1680-1772 | The one-pass loop computes the recursive lexer, unterminated quotes included. |
| Tokenizer.TokensOfLine | src/readline/readline.c:1680-1772 | Fails exactly on an odd number of quotes; else balanced non-empty tokens that concatenate to the line minus unquoted spaces. |
| Tokenizer.CutIff | src/readline/readline.c:1680-1772 | A plain line lexes to a list exactly when it is these tokens with any spaces around them and at least one between two. |
| Tokenizer.TokensOfJoined | src/readline/readline.c:1680-1772 | Any list of tokens joined by single spaces lexes to that list. |
| Tokenizer.LexingIsStable | src/readline/readline.c:1680-1772 | Lexing, joining and lexing again is lexing once. |
| Mounts.ParseField | src/mounts.c:56-70 | Finds the graphic run and its space, or says that none leads the text. |
| Mounts.LineUnique | src/mounts.c:49-137 | At most one line begins any text: the grammar is unambiguous and prefix-free. |
| Mounts.ParseMount | src/mounts.c:49-146 | Returns the line that begins the text with its length, and fails exactly when none does. |
| Mounts.ParseMounts | src/mounts.c:244-258 | Reads lines up to the end, or up to a remainder that no line begins, whatever handling them does; returns 0 exactly when all was read and every mount was handled. |
| Mounts.ReadsUnique | src/mounts.c:244-258 | There is only one such reading of a text. |
| Fstab.DumpDeviceTargets | src/target.c:209-254 | Appends the device's lines: its mounts under the target in order, then its swap line. |
| Fstab.DumpTargets | src/target.c:260-315 | The whole table: every controller's disks with their partitions, removable media, and the proc line; nothing without a mounted target. |
| Fstab.TableCoversDevices | src/target.c:277-307 | With no swap in use, what the parser reads from the printed table is exactly the mounts under the target of every disk and partition in order, a removable disk's one mount in its place. |
| Fstab.EveryMountIsRead | src/target.c:277-307 | Each mount under the target of each disk and each partition of each controller is among them. |
| Fstab.NothingElseIsRead | src/target.c:215-220 | Everything among them is such a mount, of a device whose type is not ZFS, or a removable disk. |
| Fstab.PassFields | src/target.c:230-245 | The line of the target's root ends in 0 1, every other in 0 2. |
| Fstab.EntryReadsBack | src/target.c:237-244 | A printed mount line reads back as itself exactly when its four fields are graphic words. |
| Fstab.SpaceInPathMisread | src/target.c:237-244 | A path with a space reads back as a shorter path with its rest as the type. |
| Fstab.UnreadableItem | src/target.c:246-252 | No line begins a text that starts with a swap line or the proc line. |
| Fstab.PrintedIsRead | src/mounts.c:244-258 | Whatever is read from printed clean lines is what was printed, up to the first unreadable one. |
| Fstab.DeviceReadsBack | src/target.c:222-252 | A device's lines come back as its mounts under the target, without error exactly when it has no swap line. |
| Fstab.DumpIsNeverReadWhole | src/target.c:308-313 | What is printed for any clean devices is read up to its first swap line, or the proc line, and then refused. |
| Fstab.RejoinedIff | src/target.c:230-236 | Prefixing the target recovers the path, for every path but the target with a slash appended. |
| Fstab.PathsReadBack | src/target.c:222-245 | Printing a device's mounts, reading them back and prefixing the target gives its own paths in order, exactly when none is the target with a slash appended. |
| Fstab.ShownAbsoluteIff | src/target.c:227-236 | The printed mount point is absolute exactly when the prefix ends at a path component. |
| Fstab.SiblingIsPrinted | src/target.c:227-229 | For target /mnt a mount at /mnt2 is printed as mount point 2. |
| Serial.CleanupSerial | src/sg.c:208-235 | The buffer holds the words of the input up to NUL or limit, joined by single spaces, and a NUL. |
| Serial.CleanedIs | src/sg.c:217-234 | Character by character: every graphic character of the input up to NUL, one space behind each run of them, nothing for the rest, no space at the end. |
| Serial.CleanedKeepsGraphics | src/sg.c:217-234 | Without its spaces the cleaned text is the graphic characters of the input up to NUL, in order. |
| Serial.WordsOfJoin | src/sg.c:217-229 | Splitting undoes joining, for every list of words. |
| Serial.CleanedIsNormal | src/sg.c:208-235 | No leading, trailing or doubled space, all printable, no longer than the input, and cleaning again changes nothing. |

## Left out

- Gpt.UpdateCrc: header sizes above one sector, and array lengths that reach past the disk.
- Gpt.UpdateBackup: the same, where a table's declared length reaches past the end of the copy.
- Gpt.UnmapGpt: tables that declare more than 128 entries. Up to 152 the code checksums the usable sectors behind the array that it maps too, while its copy holds 128; beyond that it reads past what it mapped.
- GptEdit.AddGpt: the same tables.
- GptEdit.DelGpt: numbers whose entry lies outside what is mapped, 0 or above 152, for which the code stores outside its mapping without a test; disks too small for two copies of a table.
- GptEdit.NameGpt: numbers above 151, for the same reason.
- GptEdit.UuidGpt: numbers above 151, for the same reason.
- GptEdit.FlagsGpt: numbers above 151, for the same reason.
- GptEdit.FlagGpt: numbers above 151, for the same reason.
- GptEdit.CodeGpt: numbers above 151, for the same reason.
- GptRuns.RunsKeepTable: runs consist of successful edits on slots inside the array; larger numbers and failed edits have their own lemmas.
- GptCreate.WriteGpt: the order in which memcpy copies when source and destination overlap (67 and 68 sectors; the copy is taken from the bytes before it).
- GptCreate.ZapGpt: disks under 35 sectors that still claim to hold a GPT, where the stretch to clear does not fit.
- ZoneChain.Blockobj.UpdateBlockobj: on a refused zone the code frees the new chain and aborts on assert(0); the model returns failure with the old chain intact.
- ZoneChain.CreateZobj: its three assertions, which abort debug builds on the ranges the following tests refuse.
- AllocatorRuns.RunsStayFitted: colon ranges, for which it is false; AcceptedRebuildsIff has the exact condition.
- AllocatorRuns.CreatePartition: the forms raised on a bad spec; the table driver's outcome is an input here, and AllocatorGpt has its stores for a GPT.
- AllocatorRuns.DeletePartition: the same for a deletion.
- AllocatorGpt.CreateGptPartition: the partition ioctls and their refusals, such as of a range that meets another; that the kernel then lists the table's used slots, in any order, is an assumption on its listing.
- AllocatorGpt.DeleteGptPartition: that a partition's number names the slot with its range, which the kernel sees to, is a precondition.
- ScanBarrier.UntimedCallWaitsForAll: the timed wait on discovery_cond, which uses another mutex and only delays.
- ScanBarrier.CounterIsExact: the event thread, which counts and runs scans of its own; it is started only after the last call of watch_dir.
- LogRing.Ring.AddLog: allocation failure, and the lock around ring accesses.
- Controllers.ControllerList.FindPcieController: firmware strings, link speed and user-interface callbacks; the two PCI lookups are one input.
- Measures.TimevalSubtract: overflow of machine integers.
- Tokenizer.Tokenize: multibyte decoding and its errors; characters are given, and classes are those of the C locale.
- Mounts.ParseMounts: what handle_mount does with each mount; whether each call fails is an input.
- Fstab.DumpDeviceTargets: allocation failure; the lists of mount points and options have one length, as handle_mount keeps them.
- Page-window arithmetic of mmap, msync, fsync, file descriptors, partition ioctls and kernel rescans.
- The fixed table of partition types: codes and GUIDs are inputs, non-zero where that matters.
- Byte order other than little-endian, and sector sizes other than 512 except in GptGeometry.
- Drawing, forms and menus; command wrappers; mkfs, mdadm, ZFS, NVMe, SMART, udev, blkid and crypt support; device discovery and its name lookups.
