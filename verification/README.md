# Verified model of the Luma3DS storage and patching core

This project models the parts of Luma3DS whose correctness is hard to see by reading one function, and proves
what they promise. Each file holds one module.

**The FAT engine** (`arm9/source/fatfs/ff.c`, with the settings of its `ffconf.h`: no exFAT, a private sector
buffer per file, 512-byte sectors, long names, no locks), in four layers that each refine a simpler thing:

- `FatGeometry` computes the layout of a volume from its boot sector and says exactly when that layout is sound.
- `FatImage`, `FatEntries` and `FatVolume`: class `Fatfs` with its one-sector write-back window. Through the window
  the FAT behaves as a plain array of numbers, and a second FAT that equals the first stays equal.
- `FatChains` and the allocator in `FatVolume`: used clusters form disjoint chains, over every run of creation,
  stretching and removal.
- `FatContent`, `FatFile` and `FatRuns`: class `Fil` with cursor, current cluster and dirty sector buffer. A file
  behaves as one sequence of bytes with a cursor, over every run of writes, reads, seeks and truncations, and no
  other file changes. `FatShared`: any number of open files on one volume, used in any interleaving, behave so each
  for itself.

`LongNames` (directory entries of long names) and `PatternMatch` (the `?` and `*` patterns of a directory search)
belong to the same engine; both follow the Microsoft FAT32 File System Specification 1.03 where it fixes a format.

**The other cores**: `Lzss` (in-place backward decoder), `Horspool` (memory search), `AesModes` (counter and chaining
modes in batches, encrypted NAND), `NdmuYield` (load-exclusive and store-exclusive protocol), `MmuTables` (two-level
page tables), `Crc` (table-driven checksums), `SessionTable` (sorted table with destructor hook), `KeyCombos` and
`DecimalText` (configuration printers and parsers). `Machine` holds bytes, words and sectors.

Code that changes state is a class or a method with `modifies`; its contract gives the whole new state, mostly as a
function or relation of the old one, and lemmas about that function or relation say what it means.

Formats are stated on raw bytes and bits, apart from the functions that a method and its contract share: a FAT is one
little-endian number and its entries are fields of it, the characters of a long name are the bytes of three stretches
of an entry, the streams of the decoder come from an encoder written out in bytes, a counter is the sixteen bytes of
a block, a page table lies where bits 10 to 30 of its descriptor say.

Where the code does not keep what one expects of it, the model follows the code and a lemma gives the exact boundary:

- A sector that `check_fs` accepts and that mounts with no 32-bit wrap in `fasize * n_fats` or `bsect + tsect` can
  still give overlapping areas, because the sum of the system sectors is not checked
  (`FatGeometry.OverlappingMount`). For every sector that mounts, the layout is sound if and only if the unwrapped
  system area lies in the volume and the last whole cluster behind it ends by sector 2^32, a condition on the boot
  sector alone (`FatGeometry.LayoutIff`).
- The loop in `encodedFloatToString` that its comment says removes trailing zeroes removes trailing digits that are
  not zero. An option comes back from print and parse if and only if it is not negative, its last decimal digit is 0
  and it is within the bounds (`DecimalText.FloatRoundTrip`); what comes back in every case is
  `DecimalText.PrintedFloatMeans`. The returned length is one too small when there is a fraction.
- `parseDecFloatOption` applies a minus to the integer part twice, so -2 is taken for 2 (`DecimalText.MinusTwo`), and
  takes the integer part modulo 2^64, so 18446744073709551617 is taken for 1 (`DecimalText.LongDecimal`). A decimal is
  treated rightly under all bounds if and only if the overflow test refuses it, or it has no minus and its value is a
  signed 64-bit number, or it has a minus and nothing but zeros before the point (`DecimalText.DecimalIsRight`).
- `SessionInfo_Lookup` never compares the address it finds with the one it was asked for. The request handlers ask for
  any session (`k11_extension/source/svc/SendSyncRequest.c:64` and its other cases). Until the table has been full, a
  session that was never hooked, or is destroyed, is given the entry of the next higher live session, and nothing if
  and only if there is none (`SessionTable.PlayThenLookup`). `SessionInfo_Remove` does not compare either
  (`SessionTable.StrangerTakesNeighbour`), but no run calls it for a session that is not stored
  (`SessionTable.RunsAreGood`).
- A directory search meets names of 1 to 255 characters. It is right about all of them if and only if the pattern has
  at most four groups of wildcards and each has fewer than 256 `?` or even the shortest name it would accept is too
  long, or the pattern has more groups and asks for more than 255 characters anyway (`PatternMatch.SearchIsRight`).
  With more than four groups nothing matches, and the count of a group is cut to eight bits, so that 256 `?` accept
  every name, while none has that many characters (`PatternMatch.ManyMarks`).
- The pass that opens the page tables does not touch bit 15 of a supersection, which the architecture reads as apx: a
  mapped address is fully open by the architecture if and only if it is not in a supersection with that bit set
  (`MmuTables.PassOpensForCpu`). The lookups of the code do not look at the bit (`MmuTables.PassOpensAll`).
- The NAND code numbers blocks by a 32-bit byte offset; the number is right exactly while the offset stays below 2^32
  (`AesModes.StartBlockIff`).

## Model

| member | source | states |
|---|---|---|
| FatGeometry.PowerOfTwoTest | arm9/source/fatfs/ff.c:3523-3524 | the bit test on the cluster size rejects exactly the bytes that are not a power of two |
| FatGeometry.MountIff | arm9/source/fatfs/ff.c:3291-3323 | while the system area does not wrap, exactly which boot sectors mount, by the bytes of the sector: jump, sector size, cluster size, FATs, reserved sectors and root directory, the FAT32 signatures or the other plausible fields, 1 to 0x0FFFFFF5 clusters, and room in the FAT for 12, 16 or 32 bits each |
| FatGeometry.MountedAs | arm9/source/fatfs/ff.c:3512-3561 | and what they mount as: the sub-type by the limits 4085 and 65525, the counts, and every base, the root directory of FAT32 at offset 44, as little-endian numbers of the bytes |
| FatGeometry.MountedBases | arm9/source/fatfs/ff.c:3512-3561 | what every accepted boot sector guarantees: entry counts and sub-type agree, one FAT has room for all entries, and each base is the stated sum modulo 2^32 |
| FatGeometry.MountedSize | arm9/source/fatfs/ff.c:3533-3547 | unless the system area wraps past the volume, the data area of a mount is as many whole clusters as fit behind the system area |
| FatGeometry.LayoutIff | arm9/source/fatfs/ff.c:3512-3561 | for every boot sector that mounts, FATs, root area and data area are in order, disjoint and inside the volume if and only if the unwrapped system area fits the volume and the last whole cluster behind it ends by sector 2^32, both computed from the boot sector |
| FatGeometry.OverlappingMount | arm9/source/fatfs/ff.c:3291-3549 | there is a boot sector that `check_fs` accepts and that mounts without wrap in `fasize * n_fats` or `bsect + tsect`, whose data area still starts before its FAT |
| FatGeometry.ClustersApart | arm9/source/fatfs/ff.c:1144-1152 | in a sound layout the sectors of distinct clusters never meet and lie between the FATs and the end of the data area |
| FatGeometry.ClstToSect | arm9/source/fatfs/ff.c:1144-1152 | in a sound layout the 32-bit arithmetic gives the cluster's first sector, and 0 exactly for illegal clusters |
| FatGeometry.EndMarkValue | arm9/source/fatfs/ff.c:1239-1288 | the all-ones mark read back in 12, 16 or 28 bits is past every cluster number of its sub-type |
| FatEntries.EntryInFat | arm9/source/fatfs/ff.c:1161-1229 | the bytes of every legal entry lie inside the first FAT of a mounted volume |
| FatEntries.EntryIsField | arm9/source/fatfs/ff.c:1161-1229 | the FAT being the little-endian number of its bytes, entry c is its 12, 16 or 28 bits from bit 12c, 16c or 32c on |
| FatEntries.PutEntryIsField | arm9/source/fatfs/ff.c:1239-1288 | after a write that number has the value in those bits, cut to their width, and is the same in all others |
| FatEntries.PutEntrySelf | arm9/source/fatfs/ff.c:1239-1288 | a written entry reads back as the value cut to 12, 16 or 28 bits, also across shared nibbles |
| FatEntries.PutEntryOther | arm9/source/fatfs/ff.c:1239-1288 | writing an entry changes no other entry, although FAT12 neighbours share a byte |
| FatEntries.PutEntryBytes | arm9/source/fatfs/ff.c:1239-1288 | bytes outside the written entry keep their values |
| FatEntries.TopBitsStay | arm9/source/fatfs/ff.c:1273-1283 | the reserved top four bits of every FAT32 entry outlive every write |
| FatEntries.PutEntryArray | arm9/source/fatfs/ff.c:1239-1288 | on the packed bytes, a write is the update of one element of an array of numbers |
| FatImage.FatAreas | arm9/source/fatfs/ff.c:1066-1068 | the FATs are as many stretches of sectors from `fatbase` on as there are FATs, a sector of the second one FAT size above its sector of the first |
| FatImage.FatByteAt | arm9/source/fatfs/ff.c:1173-1191 | byte r of sector q of the first FAT is byte 512 q + r of the FAT |
| FatImage.PutSectorMirrored | arm9/source/fatfs/ff.c:1055-1073 | writing a sector back with its reflection keeps the second FAT equal to the first |
| FatImage.PutFatByte | arm9/source/fatfs/ff.c:1055-1073 | storing one byte in a FAT sector changes exactly one byte of the FAT |
| FatVolume.Sub32Range | arm9/source/fatfs/ff.c:1066-1066 | the single unsigned comparison of the write-back tests exactly whether the sector lies in the first FAT |
| FatVolume.Fatfs.SyncWindow | arm9/source/fatfs/ff.c:1055-1073 | a dirty window is written to its sector and, inside the first FAT, to the second FAT too; the logical disk does not change |
| FatVolume.Fatfs.MoveWindow | arm9/source/fatfs/ff.c:1077-1098 | moving the window changes neither the logical disk nor the FAT |
| FatVolume.Fatfs.GetFat | arm9/source/fatfs/ff.c:1161-1229 | reading through the window gives the element of the logical FAT, which is the field of 12, 16 or 28 bits of the little-endian number of its bytes; 1 for an illegal cluster; nothing changes |
| FatVolume.Fatfs.PutFat | arm9/source/fatfs/ff.c:1239-1288 | writing through the window updates one element of the logical FAT and exactly its field of the number of its bytes, cut to its width, touches no sector outside the FATs and keeps equal FATs equal; an illegal cluster is refused and nothing changes |
| FatVolume.Fatfs.MirroredBehindWindow | arm9/source/fatfs/ff.c:1055-1098 | when the FATs are equal but for the window, the second copy on the disk equals the first on every sector except the one dirty in the window |
| FatVolume.Fatfs.FindFree | arm9/source/fatfs/ff.c:1586-1599 | the wrap-around scan returns the free cluster nearest ahead of its start, 0 only when none is free, 1 only when an entry is 1 |
| FatVolume.Fatfs.CreateChain | arm9/source/fatfs/ff.c:1524-1615 | the new allocator state and result are as the relation Created says, on any FAT and for any hint and free count; count and hint change only with the mark for FSInfo |
| FatVolume.Fatfs.RemoveChain | arm9/source/fatfs/ff.c:1429-1515 | the removal loop through the window equals the removal on the plain array, ends on any FAT, and changes only FAT sectors; the count changes only with the mark for FSInfo |
| FatVolume.Fatfs.Grow | arm9/source/fatfs/ff.c:1524-1615 | on a chain of a volume cut into chains, whatever its free count: the existing successor with nothing changed, or 0 exactly when no cluster is free or the count is 0, or the chain with one more cluster; chains stay disjoint and an exact count exact |
| FatVolume.Fatfs.Chop | arm9/source/fatfs/ff.c:1429-1515 | removal before a position of a chain leaves its first part as a chain and all other chains as they were, whatever the free count; an exact count stays exact |
| FatChains.CreateOutcome | arm9/source/fatfs/ff.c:1534-1603 | with no entry 1 and any free count, allocation follows an existing link without change, otherwise fails exactly when nothing is free or the count is 0, or links a cluster that was free; an exact count stays exact |
| FatChains.FullIffNoneFree | arm9/source/fatfs/ff.c:1545-1545 | the test for a count of 0 refuses nothing that could be had, as long as the count is exact |
| FatChains.RemoveFromAny | arm9/source/fatfs/ff.c:1459-1486 | on any FAT, cyclic or not, removal only turns entries to zero and keeps an exact free count exact |
| FatChains.RemoveRound | arm9/source/fatfs/ff.c:1459-1486 | each round of removal stops or raises the number of zero entries by one, which is why it ends |
| FatChains.RemoveWhole | arm9/source/fatfs/ff.c:1459-1486 | on a well-formed chain removal zeroes exactly the clusters of the chain |
| FatChains.CutChain | arm9/source/fatfs/ff.c:1445-1486 | removal behind a predecessor zeroes exactly what follows, marks the predecessor as an end, touches nothing else, and keeps the partition into chains and the free count |
| FatChains.ExchangeKeepsPartition | arm9/source/fatfs/ff.c:1429-1615 | replacing one chain by another made of its clusters and free ones keeps used clusters cut into disjoint chains |
| FatChains.StepKeepsHealthy | arm9/source/fatfs/ff.c:1429-1615 | one legal creation, stretching or removal keeps the partition and the exact free count |
| FatChains.RunKeepsHealthy | arm9/source/fatfs/ff.c:1429-1615 | over every run of them, used clusters stay cut into acyclic disjoint chains and a known free count stays exact |
| FatContent.SecsDistinct | arm9/source/fatfs/ff.c:1144-1152 | the sectors of a file's chain are pairwise distinct |
| FatContent.LaidIsSplice | arm9/source/fatfs/ff.c:4014-4126 | a disk on which data has been laid over a file's sectors holds the file's old bytes with that data spliced in |
| FatFile.DirectLaid | arm9/source/fatfs/ff.c:4063-4094 | a direct multi-sector write, with the private buffer refreshed from the same data, lays exactly that data over the file |
| FatFile.DirectRead | arm9/source/fatfs/ff.c:3951-3974 | a direct multi-sector read, patched with the dirty buffer, gives the bytes of the file |
| FatFile.Fil.Write | arm9/source/fatfs/ff.c:4014-4126 | a write replaces exactly the first `*bw` bytes at the cursor, stops early only on a full volume (no free cluster or a free count of 0) or at offset 2^32-1, leaves the file valid and marks it as modified |
| FatFile.Fil.Read | arm9/source/fatfs/ff.c:3914-4004 | a read returns exactly the bytes from the cursor, cut at the end of the file, and changes no content |
| FatFile.Fil.Seek | arm9/source/fatfs/ff.c:4433-4588 | a seek goes to the offset, or to the end for a read-only file, or as far as a full volume allows; the file grows to the cursor, is then marked as modified, and keeps its bytes |
| FatFile.Fil.Truncate | arm9/source/fatfs/ff.c:4912-4953 | truncation keeps exactly the bytes before the cursor and marks the file if there were others |
| FatFile.Fil.Flush | arm9/source/fatfs/ff.c:3975-3982 | writing the dirty sector buffer back changes neither content nor FAT |
| FatFile.Fil.SeekWalk | arm9/source/fatfs/ff.c:4548-4575 | following or stretching the chain ends in the cluster that holds the byte before the target, or at the end of the chain only on a full volume |
| FatFile.Fil.OtherFilesIntact | arm9/source/fatfs/ff.c:3914-4953 | whatever was done to an open file, every other file has its chain and its sectors as when the file was opened, or when another open file had last been worked on |
| FatRuns.Perform | arm9/source/fatfs/ff.c:3914-4953 | each call on the real file is one step of a plain file, a byte sequence with a cursor; a short write means a full volume or offset 2^32-1, a short seek a full volume |
| FatRuns.PerformAll | arm9/source/fatfs/ff.c:3914-4953 | every sequence of calls on the real file is a run of the plain file, with the allocator's state recorded after each call as the reason for any short write or seek; equal FATs stay equal, and if the free count was exact, full means that no cluster is free; a file that is not marked as modified has the start cluster and the bytes it had |
| FatRuns.WriteSeekRead | arm9/source/fatfs/ff.c:3914-4588 | a complete write, a seek back and a read give the written bytes |
| FatRuns.UntouchedByteStays | arm9/source/fatfs/ff.c:3914-4953 | over any run a byte that no write covers and no truncation cuts off stays what it was |
| FatFile.Fil.Rests | arm9/source/fatfs/ff.c:3914-4953 | while one file is worked on, another open file whose buffer is on a sector of its own keeps its chain, its bytes and a buffer that agrees with the disk |
| FatShared.PerformTurn | arm9/source/fatfs/ff.c:3914-4953 | one call on one of any number of open files is a step of that plain file and changes no other open file, no closed file, not the equality of the FATs and not the exactness of the free count |
| FatShared.PerformShared | arm9/source/fatfs/ff.c:3914-4588 | any interleaving of writes, reads and seeks on any number of open files is a run in which each is a plain file of its own |
| FatShared.EachRunsAlone | arm9/source/fatfs/ff.c:3914-4588 | seen from one file, such a run is a run of a plain file through its own calls alone |
| LongNames.SumSfn | arm9/source/fatfs/ff.c:2053-2064 | the checksum loop computes the rotate-and-add sum of the eleven name bytes |
| LongNames.SumDetects | arm9/source/fatfs/ff.c:2053-2064 | short names that differ in exactly one byte have different checksums |
| LongNames.RotatesRight | arm9/source/fatfs/ff.c:2053-2064 | one step of the checksum turns the sum right by one bit, bit by bit, and adds the byte modulo 256 |
| LongNames.EntryKinds | arm9/source/fatfs/ff.c:2338-2363 | the kinds of entries by their bytes: 0 ends, 0xE5 and the dot are passed over, low six bits 0x0F of byte 11 are a part of a name, 8 without the archive bit a volume label |
| LongNames.CharactersInBytes | arm9/source/fatfs/ff.c:516-516 | the thirteen characters are the little-endian pairs of bytes 1 to 10, 14 to 25 and 28 to 31, in this order |
| LongNames.Directory.PutLfn | arm9/source/fatfs/ff.c:1959-1984 | an entry holds its thirteen characters of the name, then the terminator and padding, with order, last flag exactly on the last part, attribute and checksum; bytes 1 to 10, 14 to 25 and 28 to 31 are the little-endian pairs of those thirteen characters in order |
| LongNames.Directory.PickLfn | arm9/source/fatfs/ff.c:1921-1949 | an entry is picked exactly if it fits the buffer and is padded properly, and the buffer then holds its characters, those of earlier parts untouched; both also by the three stretches of its bytes |
| LongNames.PickableIff | arm9/source/fatfs/ff.c:1921-1949 | when an entry is picked, by its bytes alone: bytes 26 and 27 are 0, its characters are nonzero ones, then a terminator and padding, and with their terminator they fit 256 characters at the place the order gives |
| LongNames.Directory.NextEntry | arm9/source/fatfs/ff.c:1745-1796 | the step to the next entry stretches a directory by one cleared cluster at its end, and fails only for the root directory of fixed size, at the greatest size, or when no cluster is left |
| LongNames.Directory.Alloc | arm9/source/fatfs/ff.c:1806-1837 | a block of n free entries is found if and only if the directory has one when stretched by as many clusters as there are and its greatest size allows; it is the first one, and the directory grows by cleared clusters only |
| LongNames.Directory.Register | arm9/source/fatfs/ff.c:2525-2560 | the parts go in reverse order before the short entry, which has the eleven bytes, the two case flags in byte 12 and zeros; all other entries unchanged |
| LongNames.Directory.Create | arm9/source/fatfs/ff.c:2512-2560 | a new name goes to the first large enough block of free entries, fails exactly if there is none in the directory stretched as far as it goes, and no entry in use changes |
| LongNames.Directory.Read | arm9/source/fatfs/ff.c:2306-2381 | a scan finds the next file, reports a long name exactly if a complete run of parts with the short entry's checksum stands before it, and leaves that name in the buffer |
| LongNames.RegisteredIsAccepted | arm9/source/fatfs/ff.c:2341-2361 | the entries of every registered name form such a run |
| LongNames.PartsSpellName | arm9/source/fatfs/ff.c:1921-1949 | what the run leaves in the buffer is the name with its terminator, for every length including multiples of 13 |
| LongNames.RegisterThenRead | arm9/source/fatfs/ff.c:2306-2560 | every name of 1 to 255 characters without 0 and 0xFFFF comes back from the entries it was registered in |
| PatternMatch.LiteralsNeedRoom | arm9/source/fatfs/ff.c:2830-2834 | giving up at the end of the name loses no match, since the remaining literals need more characters |
| PatternMatch.Branch | arm9/source/fatfs/ff.c:2812-2833 | one try from one place of the name succeeds exactly if the pattern matches there, and its stop signal is given only when no later place can match |
| PatternMatch.Match | arm9/source/fatfs/ff.c:2793-2837 | a match is found exactly if there is one after the skip and the wildcard groups do not exceed the recursion limit |
| PatternMatch.GlobIsMatches | arm9/source/fatfs/ff.c:2817-2824 | reading a wildcard group as one skip count means the same as its characters, for fewer than 256 `?` in a group |
| PatternMatch.GlobIffMatches | arm9/source/fatfs/ff.c:2817-2824 | it means the same for every name if and only if no group has 256 or more `?` |
| PatternMatch.MatchName | arm9/source/fatfs/ff.c:4740-4742 | for every pattern and name the outcome of a search, which is the meaning of `?` and `*` for at most four groups of fewer than 256 `?` |
| PatternMatch.SearchIsRight | arm9/source/fatfs/ff.c:4735-4743 | for names of 1 to 255 characters, a search is right about all of them exactly for the patterns described above |
| PatternMatch.ManyMarks | arm9/source/fatfs/ff.c:2817-2824 | an example: 256 `?` in one group are taken to match every name of 1 to 255 characters, and match none |
| Lzss.CopyRunMeaning | arm9/source/firm.c:317-381 | a run of copies repeats the bytes at its distance and leaves what was there behind it |
| Lzss.CopyDown | arm9/source/firm.c:317-381 | the copy loop stores high nibble + 3 bytes in front of the write cursor, each equal to the one at the distance |
| Lzss.Decompress | arm9/source/firm.c:317-381 | in place, on every well-formed stream whose write cursor stays at or above the read cursor, the result is the functional decoding of the original bytes, and everything else in the buffer is unchanged |
| Lzss.StreamIsPending | arm9/source/firm.c:343-371 | the decoder takes a stream apart into the bytes and repetitions it was made of: flags highest bit first, a repetition of 3 to 18 bytes from 3 to 0x1002 up as the little-endian word of both less 3, the count in the top four bits |
| Lzss.ImageIsWellFormed | arm9/source/firm.c:338-341 | the two words before the end of a section lead the decoder to the stream: its end by the top eight bits of the first, its beginning by the low 24, the end of the result by the second |
| Lzss.DecompressImage | arm9/source/firm.c:317-381 | for every list of bytes and repetitions whose result never runs into the unread stream, decompressing its encoding in place gives what they stand for and touches nothing else |
| Horspool.NoMatchSkipped | arm9/source/memory.c:34-56 | no shift jumps over an occurrence |
| Horspool.BuildTable | arm9/source/memory.c:39-43 | the table holds for each byte its distance from the end of the pattern |
| Horspool.MemSearch | arm9/source/memory.c:34-56 | the leftmost occurrence is returned, and NULL exactly when there is none |
| AesModes.XorWordBits | arm9/source/crypto.c:239-280 | a bit of a masked word is set exactly where the two words differ |
| AesModes.ValueInBytes | arm9/source/crypto.c:135-155 | the number of a counter or IV by its sixteen bytes in memory: read from the first byte in normal big-endian order, from the last in reversed little-endian order, with the words the other way around in the two others |
| AesModes.ToBlockIs | arm9/source/crypto.c:135-155 | the engine takes in the one block whose bytes, the first the most significant, are the number |
| AesModes.AdvCtr | arm9/source/crypto.c:157-182 | the counter advances by addition modulo 2^128 in every byte and word order |
| AesModes.ChangeCtrMode | arm9/source/crypto.c:184-205 | changing the byte and word order of a counter keeps its number |
| AesModes.CtrBlocks | arm9/source/crypto.c:239-280 | counter mode masks block j with the encryption of the block whose bytes, the first the most significant, are the start counter plus j modulo 2^128 |
| AesModes.CbcBlocks | arm9/source/crypto.c:239-280 | chaining decryption is the decryption of block j masked with block j-1, encryption that of block j masked with result j-1; for the first block the one of the IV itself |
| AesModes.EcbBlocks | arm9/source/crypto.c:239-280 | without chaining every block is encrypted or decrypted by itself |
| AesModes.StreamJoin | arm9/source/crypto.c:239-280 | for every mode, processing two parts one after the other is processing them at once |
| AesModes.OneBatch | arm9/source/crypto.c:246-275 | one batch produces the mode's stream in place or not and leaves the chaining value of the next batch, saved before an in-place decryption overwrites it |
| AesModes.Aes | arm9/source/crypto.c:239-280 | cutting a message into batches of 0xFFFF blocks gives the one-shot result for every mode and length, in place or not |
| AesModes.CtrUndo | arm9/source/crypto.c:239-280 | counter mode is its own inverse |
| AesModes.CbcUndo | arm9/source/crypto.c:239-280 | chaining decryption undoes chaining encryption when the engine does so on single blocks |
| AesModes.StartBlockIff | arm9/source/crypto.c:370-374 | the computed block number is the sector's first block exactly while the byte offset is below 2^32 |
| AesModes.StartBlockAgain | arm9/source/crypto.c:370-374 | for every sector the number is 32 times the sector modulo 2^23 |
| AesModes.CtrNand.Read | arm9/source/crypto.c:370-391 | a read of the NAND, or of its image on an SD card, returns the counter-mode decryption under the sector numbers of the NAND, which is the plain view of the device while offsets stay below 2^32 |
| AesModes.CtrNand.Write | arm9/source/crypto.c:393-418 | a write in pieces stores the counter-mode encryption of the whole data in the NAND, so its plain view changes to the data there and nowhere else; the view of an image does not change |
| AesModes.WriteThenRead | arm9/source/crypto.c:370-418 | reading any part of a written range back gives the written data |
| NdmuYield.ActKeepsInv | k11_extension/source/ndmu_yield.c:32-64 | every single step of every thread keeps the word equal to the completed updates and every reservation current |
| NdmuYield.AloneCompletes | k11_extension/source/ndmu_yield.c:32-64 | a call that meets no other thread completes in a load and a store and has its effect on the word |
| NdmuYield.StoreExcludes | k11_extension/source/ndmu_yield.c:32-64 | after a successful store of one thread no other store can succeed before its thread has loaded again |
| NdmuYield.OwnReservation | k11_extension/source/ndmu_yield.c:32-64 | a load makes, and a loss takes, only the reservation of its own thread |
| NdmuYield.NoUpdateLost | k11_extension/source/ndmu_yield.c:32-64 | for any number of threads and any interleaving the word is the completed updates applied in the order of their successful stores |
| NdmuYield.LastUpdateDecides | k11_extension/source/ndmu_yield.c:32-64 | a bit is what the last completed update that concerns it made of it |
| NdmuYield.WaitForAck | k11_extension/source/ndmu_yield.c:66-86 | at most 101 reads and 100 sleeps; true exactly when the last read had ACK, bit 1, set, false when it found ASK, bit 0, withdrawn or was the last one |
| MmuTables.TypeBits | k11_extension/source/mmu.c:7-30 | the kinds of descriptors by their bits 0, 1 and 18 |
| MmuTables.PermBits | k11_extension/source/mmu.c:162-238 | the user permission by the bits of a descriptor of each kind |
| MmuTables.SectionBits | k11_extension/source/mmu.c:49-56 | opening a section clears xn and apx, sets ap to 3 and changes no other bit |
| MmuTables.SuperBits | k11_extension/source/mmu.c:57-63 | opening a supersection clears xn, sets ap to 3 and changes no other bit |
| MmuTables.LargeBits | k11_extension/source/mmu.c:80-87 | opening a large page clears xn and apx, sets ap to 3 and changes no other bit |
| MmuTables.SmallBits | k11_extension/source/mmu.c:88-95 | opening a small page does the same and leaves it a small page, although xn is part of its type bits |
| MmuTables.L1OpenedKeeps | k11_extension/source/mmu.c:32-68 | opening a section or supersection keeps its type and address, gives permission 7 as the code computes it, by the architecture 5 for a supersection with bit 15 set, and is idempotent; other entries stay |
| MmuTables.L2OpenedKeeps | k11_extension/source/mmu.c:70-100 | opening a large or small page keeps its type and address, gives permission 7 and is idempotent; faults stay |
| MmuTables.TableAddress | k11_extension/source/mmu.c:40-48 | a second-level table begins at the byte address given by bits 10 to 30 of the number of its descriptor less 0x40000000, modulo 2^32 |
| MmuTables.SeparateByAddress | k11_extension/source/mmu.c:32-68 | no table overlaps the first-level one, by those addresses |
| MmuTables.L2RWXForAll | k11_extension/source/mmu.c:70-100 | all 256 entries of a second-level table are opened and no other word changes |
| MmuTables.L1RWXForAll | k11_extension/source/mmu.c:32-68 | the 1024 entries and every second-level table they lead to are opened once, also when entries share a table, and no other word changes |
| MmuTables.PassReaches | k11_extension/source/mmu.c:32-68 | every word of the 256 at the address that a coarse descriptor gives is opened |
| MmuTables.PassLeaves | k11_extension/source/mmu.c:32-68 | words outside those tables stay, except that the 1024 entries are opened |
| MmuTables.DirectWalk | k11_extension/source/mmu.c:102-204 | where an address leads and what it permits, by the bits of its first-level descriptor |
| MmuTables.TableWalk | k11_extension/source/mmu.c:102-238 | and by the entry that bits 12 to 19 pick in the table at the address its descriptor gives |
| MmuTables.PageAddressBits | k11_extension/source/mmu.c:136-160 | the physical address in a large or small page, by the bits of its descriptor |
| MmuTables.PassOpensAll | k11_extension/source/mmu.c:102-238 | for every address below 2^30 the physical address is unchanged, a mapped one gets user permission 7, an unmapped one keeps 0 |
| MmuTables.PassOpensForCpu | k11_extension/source/mmu.c:32-68 | with apx of supersections read as the architecture does, a mapped address is fully open after the pass exactly if it is not in a supersection with bit 15 set; otherwise it stays write-protected |
| MmuTables.PassIsIdempotent | k11_extension/source/mmu.c:32-100 | a second pass changes nothing |
| Crc.DivideJoin | arm9/source/utils.c:200-206 | division of a message can be continued from the register |
| Crc.Lut16 | arm9/source/utils.c:165-199 | each of the 256 entries is the division of its index, bit by bit, by 0xA001 |
| Crc.Lut32 | arm9/source/utils.c:210-243 | each of the 256 entries is the division of its index, bit by bit, by 0xEDB88320 |
| Crc.TableStep | arm9/source/utils.c:200-203 | one table step is eight steps of division |
| Crc.Crc16 | arm9/source/utils.c:163-206 | the checksum is bit-by-bit reflected division by 0xA001 for every message and start value |
| Crc.Crc32 | arm9/source/utils.c:208-251 | the checksum is the complement of bit-by-bit reflected division by 0xEDB88320 for every message and start value |
| Crc.BurstDetected | arm9/source/utils.c:163-251 | bit strings that differ only within a window of the width of the register leave different registers |
| Crc.Crc16Detects | arm9/source/utils.c:163-206 | messages that differ only within two neighbouring bytes, so also in exactly one byte, have different checksums |
| Crc.Crc32Detects | arm9/source/utils.c:208-251 | messages that differ only within four neighbouring bytes, so also in exactly one byte, have different checksums |
| SessionTable.AtLowerBound | k11_extension/source/ipc.c:39-60 | in a sorted table the lower bound decides whether a session is stored |
| SessionTable.AddedEntries | k11_extension/source/ipc.c:116-128 | a session that is not stored is added with the first twelve characters of its name, filled up with NULs, and all other entries stay |
| SessionTable.RemainingEntries | k11_extension/source/ipc.c:134-165 | removing a stored session keeps all other entries with their names |
| SessionTable.Table.FindClosestSlot | k11_extension/source/ipc.c:39-60 | the binary search returns the lower bound |
| SessionTable.Table.Lookup | k11_extension/source/ipc.c:62-79 | a stored session with the custom table gets its own entry |
| SessionTable.Table.AddSession | k11_extension/source/ipc.c:100-132 | the session is hooked and stored at its place unless it is there or the table is full |
| SessionTable.Table.RemoveSession | k11_extension/source/ipc.c:134-165 | the entry at the lower bound goes, unless the table is full |
| SessionTable.Table.DestructorHook | k11_extension/source/ipc.c:168-172 | a destroyed session is unhooked and removed |
| SessionTable.RemoveTakesOwn | k11_extension/source/ipc.c:134-165 | below the limit, removing a stored session takes exactly its own entry |
| SessionTable.StrangerTakesNeighbour | k11_extension/source/ipc.c:134-165 | of the function alone: removing a session that is not stored would take exactly the entry of the next higher session, and nothing if there is none |
| SessionTable.RunsAreGood | k11_extension/source/ipc.c:39-183 | over every run the table stays sorted without duplicates, each destructor takes its own session or finds the table full, and a full table never changes again |
| SessionTable.Play | k11_extension/source/ipc.c:39-183 | any possible sequence of events on the real table, hooked sessions included, is such a run |
| SessionTable.OwnEntryIffLive | k11_extension/source/ipc.c:39-60 | while the table has never been full, a session has its own entry at its lower bound exactly if it is hooked and not destroyed |
| SessionTable.StrangerSeesNeighbour | k11_extension/source/ipc.c:39-60 | while the table has never been full, the lower bound of a session that is not live is the entry of the next higher live session, or the end of the table exactly if there is none |
| SessionTable.PlayThenLookup | k11_extension/source/ipc.c:39-183 | after any possible events on an empty table that is not full, a lookup gives a session its own entry exactly if it is live; any other session is given the entry of the next higher live one, and nothing exactly if there is none |
| KeyCombos.NamesDiffer | arm9/source/config.c:79-88 | no two button names are equal without regard to case |
| KeyCombos.PadBits | arm9/source/buttons.h:33-46 | the bits of the twelve buttons of the pad by their names |
| KeyCombos.OtherBits | arm9/source/config.c:79-88 | the bits of the other buttons by their names |
| KeyCombos.CaseIgnored | arm9/source/config.c:272-272 | names are compared without regard to the case of letters, and to nothing else |
| KeyCombos.ParseKeyComboOption | arm9/source/config.c:249-293 | a text means its buttons if every part between `+` signs is a button name, otherwise parsing fails |
| KeyCombos.MenuComboToString | arm9/source/config.c:296-312 | the names are printed from the highest button down, joined with `+` |
| KeyCombos.PrintedMeans | arm9/source/config.c:249-312 | by induction over the buttons: what a printed combination means |
| KeyCombos.RoundTrip | arm9/source/config.c:249-312 | parsing a printed combination gives it back if and only if it is not empty and all its bits are named buttons; otherwise parsing fails |
| DecimalText.ProcessNumber | arm9/source/fmt.c:84-149 | padding, sign, prefix, zeros and digits are laid out as the flags, width and precision say |
| DecimalText.PrintedNumber | arm9/source/fmt.c:84-149 | what is printed: the digits are worth the number to base 10 or 16, in the case asked for and without leading zeros, unsigned ones modulo 2^64; sign and prefix by the flags; zeros up to the precision or the width, otherwise spaces up to the width, on one side only |
| DecimalText.DigitText | arm9/source/fmt.c:114-146 | the digits of every 64-bit number fit the buffer of twenty and come out in order |
| DecimalText.IntRoundTrip | arm9/source/config.c:107-139 | every signed 64-bit number in range is read back from its print |
| DecimalText.ParseDecInt | arm9/source/config.c:107-139 | a text is accepted exactly if it is an optional sign and digits with a value in range, modulo 2^64 |
| DecimalText.ParseDecFloat | arm9/source/config.c:146-220 | the parser computes the function FloatMeaning of the text, whose value the next rows state |
| DecimalText.DecimalMeans | arm9/source/config.c:146-220 | every decimal of any length: refused when the overflow test sees its wrapped integer part or the result is outside the bounds, otherwise the wrapped sum of integer part and eight digits, with the sign as the code applies it |
| DecimalText.DecimalIsRight | arm9/source/config.c:146-220 | every decimal of any length is treated rightly under all bounds if and only if the overflow test refuses it, or there is no minus and the value is a signed 64-bit number, or there is a minus and nothing but zeros before the point |
| DecimalText.LongDecimal | arm9/source/config.c:146-220 | an example: 18446744073709551617 is taken for 1 under the bounds 0 and 4 |
| DecimalText.MinusTwo | arm9/source/config.c:189-212 | an example: -2 is taken for 2 |
| DecimalText.EncodedFloatToString | arm9/source/config.c:314-340 | the printed text, with what its digit loop leaves of the fraction, and the returned length |
| DecimalText.PrintedFloatMeans | arm9/source/config.c:146-340 | for every option but the least number, parsing its print yields exactly the surviving value, if that is within the bounds |
| DecimalText.FloatRoundTrip | arm9/source/config.c:146-340 | for every option but the least number, that is the option itself if and only if it is not negative, its last decimal digit is 0 and it is within the bounds |

## Left out

- Disk errors: every sector transfer succeeds, so the paths that return FR_DISK_ERR or abort a file do not occur.
- FSInfo loading and writing, `sync_fs`, and the object validation of each call; free count and hint of a mounted volume are arbitrary values.
- Opening a file, paths, directories as trees, rename, mkdir, and the directory entry's size and start cluster after `f_sync`: a file starts from a chain and a size.
- exFAT, GPT, fast seek, locks and every other part that `ffconf.h` switches off.
- FatVolume.Fatfs: the disk is a sequence of sectors, not a device; the window is an array.
- FatFile.Fil.Write: the caller's buffer is a value, so a caller that passes the file's own sector buffer is not covered; the same holds for FatFile.Fil.Read.
- FatFile.Fil.Seek: while the chain is followed, the cursor lives in a local variable instead of the object field; the field is set at the end.
- FatShared.PerformShared: runs of several files contain no truncation. After one the private buffer may stand for a sector the file has lost and another file may get; the single step FatShared.PerformTurn covers truncation, and asks that the buffers of the other files be on sectors of their own.
- Code pages, `ff_wtoupper` and UTF-8 decoding: names are sequences of 16-bit units or code points, and case folding is any function that maps only 0 to 0.
- LongNames.Directory.Read: the directory is a list of entries; that it sits in sectors seen through the window is not modelled.
- LongNames.Directory.Alloc: how many clusters `create_chain` can still give is a number the caller passes; errors inside the FAT while a directory is stretched are not modelled.
- LongNames.RegisterThenRead: names that contain 0xFFFF are outside, since that unit is the padding mark.
- Numbered short names (`gen_numname`) and the comparison of names in `dir_find`.
- `copyKip`, which edits KIP headers around the decoder, and the early return of the decoder for a null end pointer.
- Horspool.MemSearch: an empty pattern or one longer than the area is not covered; the unsigned differences in the source wrap for them and it reads outside both areas.
- The AES engine is a function on blocks; its registers, key slots and FIFOs are not modelled.
- Memory barriers, and the other parties of the yield handshake: they are other threads or arbitrary words that a read finds.
- Cache and translation buffer maintenance after a table changes, and `PatchDescriptorAccessControl`.
- SessionTable.Table: locks and reference counts; the vtable pointer is a set of hooked sessions.
- DecimalText.EncodedFloatToString: the least 64-bit number is excluded, since its negation overflows.
- KeyCombos.ParseKeyComboOption: a combination is the set of its bits instead of a 32-bit word.
- The remaining format conversions, hexadecimal options, screen filters, menus, firmware patches and everything that talks to hardware.
