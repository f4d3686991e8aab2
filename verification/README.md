# OH-WES: a verified model of its core algorithms

OH-WES is a small i386 kernel with a tool for FAT disk images. This project models, in Dafny, the
parts of both whose correctness is hard to see: the FAT cluster allocator and file store, the long
file name codec, the virtual terminal, number formatting and parsing, the pool allocator with its
intrusive lists, the serial transmit path, the N_TTY line discipline, the GDB packet layer and the
kernel log. `dafny verify dfyconfig.toml` checks everything.

How it is laid out. Code that changes things step by step is a class or a method in the same form
as the source (`FatDisk`, `FatCreate`, `LongNames`, `TerminalDevice`, `Printf`, `Strtoull`, `Lists`,
`PoolAllocator`, `Ring`, `SerialPort`, `TtyDisc`, `GdbStub`, `KernelLog`). Each of its methods is
proved equal to a step of a pure model (`FatWrite`, `TerminalModel`, `Numerals`, `Pool`,
`SerialModel`, `TtyModel`, `TtyLine`, `GdbModel`, `LogModel`), and the laws are proved of that model, over
every input and every run.

The main results:

- **FAT.** On a volume whose chains are in range, acyclic, disjoint and terminated, writing a file
  of any size keeps it such a volume, conserves free clusters, never runs out of clusters once the
  free-space test has passed, keeps every other file's chain and bytes and all metadata, and what is
  read back is what was written. Seen from outside, the disk refines a list of files and their
  contents over any number of writes, closes and reopens (`FatStore`). The packed 12-bit table
  behaves as an array of numbers. Where all of this lies on the disk is stated in bytes (`FatBytes`).
- **Long names.** Reading undoes writing for every accepted name and key; the checksum test is
  characterised exactly, so one wrong checksum byte is always caught and two can cancel. One changed
  byte of the short name always changes the checksum.
- **Terminal.** Every byte stream keeps all indices in range, with ESC M on the top row as the exact
  exception; `n` printable characters show the window after max(0, ceil(n/cols) - rows) scrolls. For
  every escape and control sequence, over the bytes that make it up, it is stated where it leaves the
  cursor and what it makes of each cell (`TerminalEffects`).
- **Numbers.** `%lld` is read back for every value, flag, width and precision; hexadecimal is read
  back exactly when there is a prefix, no leading zero, or a value below 8. What is read is given by a
  grammar (`NumberGrammar`).
- **Pools.** Whatever the order of calls, creating a pool keeps the allocator sound exactly when the
  lowest free chunks follow each other, and in every run that destroys pools in reverse order of
  creation they do. What is handed out can be given back.
- **Serial.** Conservation of characters in every interleaving. Queued data never loses its wake-up
  without CRTSCTS, and the exact step that loses it with CRTSCTS; a pending flow control character
  can lose its wake-up either way, and without CRTSCTS the events alone say exactly when it has.
- **Tty.** Throttled exactly below 128 free slots, and no loss for a sender that reacts in time. The
  line discipline runs over this serial port: in every run, what is written and echoed, after
  expansion, is what the wire carries followed by the queue.
- **Log.** Every console gets the end of the log and then every print.
- **GDB.** Every damaged copy of a packet is answered with a NACK and every good one with an ACK, and
  the sender's frames are identical. The stub's own command loop is not told the difference: a damaged
  packet is acted on exactly when the length variable is not zero, because an earlier packet left it so
  or because it was never set. Nothing in the code makes it zero before the first packet.

Where the code does not do what one would expect, the model follows the code and the exact condition
is proved: `FatSizing.CountsAgree` (a disk can be reopened with one cluster more than was planned),
`FatCreate.CreatedExactly` (fields that are too narrow, and an assertion that fails above 65535
sectors), `FatLayout.SectorTestExactly` (a 32-bit product and sum), `FatWrite.NewCountExact` (the
32-bit sum in CeilDiv), `TerminalProofs.StepInv` (ESC M on row 0), `TerminalEffects.CursorDown` (a
count near 2^31 moves up), `NumberRoundTrip.HexRoundTrip` (a leading zero means octal even in base
16), `Pool.CreateExact` (scattered chunks), `SerialModel.StepAwake` (a resume by CTS disables the
transmitter), `SerialModel.StepControlAwake` (a stop silences a pending flow control character),
`GdbModel.DispatchedExactly` (a wrong checksum returns the status of a right one),
`TtyModel.HangsExactly` (a CR with IGNCR is re-read for ever), `LongNames.PassesExactly` (cancelling
checksum errors).

Where code and documentation disagree, the code wins: SetLongName refuses the back quote and accepts
the backslash, the reverse of the comment at tools/fatfs/fat.c:535; `list_add` appends and
`list_add_tail` prepends, as src/include/kernel/list.h:71 says and unlike the list test; clusters 0,
1 and BAD end a walk along a chain (tools/fatfs/FatDisk.cpp:530-540).

## Model

| member | source | states |
|---|---|---|
| `FatTable.SetRefinesUpdate` | tools/fatfs/fat.c:149-205 | in the packed 12- or 16-bit table a store changes its own entry, modulo the width, and no other, although neighbours share a byte |
| `FatTable.SetHits` | tools/fatfs/fat.c:178-205 | reading a stored entry gives the stored value modulo 4096 or 65536 |
| `FatTable.SetMisses` | tools/fatfs/fat.c:178-205 | reading any other entry gives what it held before |
| `FatTable.EntryBytes16` | tools/fatfs/fat.c:166-176 | entry i of a 16-bit table is byte 2i plus 256 times byte 2i + 1 |
| `FatTable.EntryBytes12` | tools/fatfs/fat.c:149-164 | 12-bit entries 2k and 2k + 1 share bytes 3k to 3k + 2: the even one has the first byte and the low half of the second, the odd one the rest |
| `FatTable.NeighbourAbove` | tools/fatfs/fat.c:178-195 | writing an even 12-bit entry keeps the half byte of the odd entry above it |
| `FatTable.NeighbourBelow` | tools/fatfs/fat.c:178-195 | writing an odd 12-bit entry keeps the half byte of the even entry below it |
| `FatTable.SetCluster` | tools/fatfs/fat.c:178-205 | the in-place store returns the old entry and leaves the specified buffer |
| `FatTable.InitFat` | tools/fatfs/fat.c:127-147 | a new table holds the media mark, the end mark and otherwise free entries |
| `FatChains.ChainDistinct` | tools/fatfs/FatDisk.cpp:435-456 | a chain that reaches an end mark never revisits a cluster |
| `FatChains.SameStart` | tools/fatfs/FatDisk.cpp:435-456 | a first cluster determines the whole chain |
| `FatChains.FreeNotInChain` | tools/fatfs/FatDisk.cpp:458-468 | a free cluster belongs to no file |
| `FatChains.FreeCountUpdate` | tools/fatfs/FatDisk.cpp:411-421 | rewriting one entry moves the free count by what that entry gains or loses |
| `FatChains.EnoughFree` | tools/fatfs/FatDisk.cpp:752-835 | after the free-space test a free cluster is left for every iteration but the last |
| `FatChains.StepWriting` | tools/fatfs/FatDisk.cpp:781-835 | an iteration that writes a cluster keeps the partial chain linked, distinct and correctly accounted |
| `FatChains.StepLast` | tools/fatfs/FatDisk.cpp:781-835 | the iteration that puts the end mark leaves a finished chain and the rest of the old chain untouched |
| `FatChains.StepTrim` | tools/fatfs/FatDisk.cpp:781-835 | an iteration past the new size frees exactly the next cluster of the old chain |
| `FatChains.WriteKeepsOthers` | tools/fatfs/FatDisk.cpp:737-846 | every other file keeps its chain and shares no cluster with the written one |
| `FatChains.WriteKeepsFiles` | tools/fatfs/FatDisk.cpp:737-846 | a finished write turns a volume into a volume; free clusters plus chain length are conserved |
| `FatImage.WriteExtends` | tools/fatfs/FatDisk.cpp:795-813 | storing the next piece in the next cluster extends the file's bytes by that piece |
| `FatImage.OverwriteCluster` | tools/fatfs/FatDisk.cpp:667-696 | writing a cluster's bytes into the image changes that cluster's contents and nothing else |
| `FatWrite.RunHolds` | tools/fatfs/FatDisk.cpp:781-835 | what the write loop has done to table and data before every iteration, for growing, shrinking, new and empty files |
| `FatWrite.RunReady` | tools/fatfs/FatDisk.cpp:781-835 | every iteration can be carried out: cluster in range, bytes left, a free cluster when one is needed |
| `FatWrite.RunDone` | tools/fatfs/FatDisk.cpp:781-835 | after the loop the file has exactly its count of clusters, starting at its first cluster, holding its bytes |
| `FatWrite.OthersKeepBytes` | tools/fatfs/FatDisk.cpp:737-846 | every other file reads the same afterwards |
| `FatWrite.FirstFree` | tools/fatfs/FatDisk.cpp:781-835 | the entry's first cluster is left free exactly when nothing was written |
| `FatWrite.NewCountExact` | tools/fatfs/FatDisk.cpp:752-766 | the cluster count covers the file, by less than one cluster too much, exactly when the 32-bit sum does not wrap |
| `FatWrite.WrappedTakesNone` | tools/fatfs/FatDisk.cpp:752-766 | when it wraps the count is zero |
| `FatWrite.LargestFileGetsNothing` | tools/fatfs/FatDisk.cpp:752-766 | a file of 2^32 - 1 bytes is given no cluster |
| `FatLayout.ClustersFitDisk` | tools/fatfs/FatDisk.cpp:374-382 | the data area of a valid layout lies behind the metadata and inside the image |
| `FatLayout.WriteCopy` | tools/fatfs/FatDisk.cpp:715-735 | writing one copy of the table keeps the other copies and all other areas |
| `FatDisk.Disk.GetCluster` | tools/fatfs/FatDisk.cpp:504-515 | table lookup; beyond the clusters an end mark |
| `FatDisk.Disk.SetCluster` | tools/fatfs/FatDisk.cpp:517-528 | in-range stores update one entry and return the old one; others change nothing |
| `FatDisk.Disk.CountFreeClusters` | tools/fatfs/FatDisk.cpp:411-421 | the number of free clusters |
| `FatDisk.Disk.FindNextFreeCluster` | tools/fatfs/FatDisk.cpp:458-468 | the lowest free cluster, or an end mark when there is none |
| `FatDisk.Disk.CountClusters` | tools/fatfs/FatDisk.cpp:435-456 | the length of the chain; one for an entry whose first cluster is free |
| `FatDisk.Disk.ReadCluster` | tools/fatfs/FatDisk.cpp:572-601 | succeeds exactly in range and returns that cluster's bytes |
| `FatDisk.Disk.WriteCluster` | tools/fatfs/FatDisk.cpp:667-696 | succeeds exactly in range; replaces one cluster's bytes, keeps metadata and slack |
| `FatDisk.Disk.ReadSector` | tools/fatfs/FatDisk.cpp:549-570 | succeeds exactly when the 32-bit bounds test passes, and fills the buffer from the image; what lies behind the image is not read although the call succeeds; while neither product nor sum wraps these are exactly the sectors of the disk |
| `FatLayout.SectorInDisk` | tools/fatfs/FatDisk.cpp:549-558 | the test passes exactly for the sectors of the disk as long as neither product nor sum wraps |
| `FatLayout.SectorTestExactly` | tools/fatfs/FatDisk.cpp:549-558 | for every index and a sector size that divides 2^32: it passes exactly for the sectors of the disk, counted round and round, and for the last sector before each round begins again |
| `FatLayout.WrappedSector` | tools/fatfs/FatDisk.cpp:549-558 | with 512-byte sectors, sector 2^23 is looked for at address 0 |
| `FatLayout.LastSectorPasses` | tools/fatfs/FatDisk.cpp:549-558 | with 512-byte sectors, sector 2^23 - 1 passes the test on every disk |
| `FatDisk.Disk.WriteSector` | tools/fatfs/FatDisk.cpp:648-665 | the same test; overwrites the bytes there, and an address that passes only because the sum wraps extends the image |
| `FatDisk.Disk.WriteFAT` | tools/fatfs/FatDisk.cpp:715-735 | every copy on the image becomes the table in memory; all other areas keep their bytes |
| `FatDisk.Disk.WriteRoot` | tools/fatfs/FatDisk.cpp:698-713 | the root directory's sectors hold the buffer; nothing else changes |
| `FatDisk.Disk.ReadFile` | tools/fatfs/FatDisk.cpp:603-646 | exactly when it is refused, and else the bytes of the root or of the file's chain in order |
| `FatDisk.Disk.WriteFile` | tools/fatfs/FatDisk.cpp:737-846 | exactly when it is refused, changing nothing; else the volume invariant, the cluster count, conservation, the stored bytes, and all other files and metadata unchanged |
| `FatDisk.Disk.WriteThenRead` | tools/fatfs/FatDisk.cpp:620-846 | reading after writing returns the bytes written; when the size sum wraps the data area is unchanged |
| `FatDisk.Disk.Open` | tools/fatfs/FatDisk.cpp:166-297 | the table in memory is the first copy on the image; the disk is valid exactly when entry 1 of that copy is an end mark |
| `FatDisk.Disk.Close` | tools/fatfs/FatDisk.cpp:299-307 | afterwards the first copy on the image is the table in memory; the data area is unchanged |
| `FatStore.StoresReplaced` | tools/fatfs/FatDisk.cpp:737-846 | a written chain and unchanged bytes of the others make the store with one file's contents replaced |
| `FatStore.Replace` | tools/fatfs/FatDisk.cpp:737-846 | overwriting a file or directory refines the update of its contents; refused exactly for lack of free clusters, changing nothing; a size whose sum wraps empties the file |
| `FatStore.Add` | tools/fatfs/FatDisk.cpp:737-846 | writing an entry whose first cluster is free refines adding a file or a one-cluster directory; a size whose sum wraps adds nothing |
| `FatStore.Empty` | tools/fatfs/FatDisk.cpp:737-846 | writing size zero removes the file's contents and frees exactly its chain |
| `FatStore.Fetch` | tools/fatfs/FatDisk.cpp:620-646 | reading any file of the store returns its contents |
| `FatStore.Reopen` | tools/fatfs/FatDisk.cpp:166-307 | closing and opening again keeps table, data and every file's contents |
| `FatSizing.SizeTable` | tools/fatfs/Command_Create.cpp:153-212 | the search ends after at most 256 passes with the smallest table size that decides |
| `FatSizing.LargeDecides` | tools/fatfs/Command_Create.cpp:157-212 | from 131054 bytes on a table always decides |
| `FatSizing.FitsExactly` | tools/fatfs/Command_Create.cpp:164-211 | the nested tests accept a width exactly when the request allows it, the count is in its range and the table has the capacity |
| `FatSizing.AcceptedTable` | tools/fatfs/Command_Create.cpp:167-212 | an accepted table holds entries 0 .. clusters+1, is 12 bits wide exactly when clusters <= 4084, and no cluster number is a BAD or end mark |
| `FatSizing.CountsAgree` | tools/fatfs/FatDisk.cpp:374-382 | opening finds the planned cluster count exactly when the alignment gap fits into the left-over sectors, else one more |
| `FatSizing.AlignedDiskAgrees` | tools/fatfs/Command_Create.cpp:147-162 | on a disk of whole clusters the counts always agree |
| `FatSizing.OpenedWithAnotherWidth` | tools/fatfs/Command_Create.cpp:157-212 | a concrete disk laid out as FAT12 that is opened as FAT16 |
| `FatSizing.PlanIsValid` | tools/fatfs/Command_Create.cpp:157-212 | the layout planned for an accepted request is valid, with the planned clusters and width, when the counts agree |
| `FatCreate.ImageSize` | tools/fatfs/FatDisk.cpp:81-150 | the reserved sectors, tables, root directory and data written one after the other have the size of the disk |
| `FatCreate.ImageCopies` | tools/fatfs/FatDisk.cpp:90-104 | every copy of the table on the new image is the table that was initialised |
| `FatCreate.CreateNew` | tools/fatfs/FatDisk.cpp:10-159 | returns early exactly for a missing count, a sector size below 512 or sizes that are no powers of two; fails its own assertions exactly with no reserved sector or more than 65535 sectors; else the image has the stated contents and the size of the disk |
| `FatCreate.OpenDisk` | tools/fatfs/FatDisk.cpp:166-275 | refused exactly by the checks on the stored block and the image size; else the table is the first copy |
| `FatCreate.CreateThenOpen` | tools/fatfs/Command_Create.cpp:240-250 | succeeds exactly when neither step objects, and gives a volume without files on which every cluster is free |
| `FatCreate.CreatedExactly` | tools/fatfs/Command_Create.cpp:214-250 | an accepted request is made and opened as planned exactly when tables fit 8 bits, root entries and sectors fit 16, the disk has at least 4096 bytes, and the counts agree |
| `FatCreate.TablesLost` | tools/fatfs/Command_Create.cpp:222-227 | 256 tables are accepted, stored as none, and refused on opening |
| `FatCreate.LargeDiskAborts` | tools/fatfs/FatDisk.cpp:49-52 | a disk of 70000 sectors is accepted and its creation fails its own assertion |
| `FatBytes.MarksExactly` | tools/fatfs/FatDisk.cpp:530-540 | the numbers that end a walk are 0, 1 and those from 0xFF7 or 0xFFF7 on |
| `FatBytes.EndMarkBytes` | tools/fatfs/FatDisk.cpp:490-495 | the end mark in bytes of the table: entry 1, with the two highest bits set in a 16-bit table |
| `FatBytes.ClusterByte` | tools/fatfs/FatDisk.cpp:572-601 | byte i of cluster c is byte (c - 2) * size + i of the data area |
| `FatBytes.FileByte` | tools/fatfs/FatDisk.cpp:620-646 | byte i of the j-th cluster of a chain is byte j * size + i of the file |
| `FatBytes.ReadByte` | tools/fatfs/FatDisk.cpp:549-570 | a read takes bytes up to the end of the image and leaves the rest of the buffer |
| `FatBytes.BeyondByte` | tools/fatfs/FatDisk.cpp:648-665 | a write behind the end lengthens the image, with zeros in a gap |
| `FatBytes.RefusedExactly` | tools/fatfs/fat.h:387-409 | the root is the directory without a cluster; refused are entries marked 0xE5 or 0x00, a link of a long name, a device, a volume label, or a size without a cluster; nothing else is |
| `FatBytes.FloppyTables` | tools/fatfs/FatDisk.cpp:90-104 | the tables of a 1.44 MB disk are in sectors 1 and 10 |
| `FatBytes.Floppy` | tools/fatfs/FatDisk.cpp:374-382 | its root directory is in sectors 19 to 32 and its data from sector 33 on, in 2847 clusters with 12-bit entries; it can be created and opened |
| `FatBytes.PowerOrZero` | tools/fatfs/FatDisk.cpp:36-43 | the test for a power of two accepts the powers of two and zero |
| `FatBytes.BootSectors` | tools/fatfs/FatDisk.cpp:81-86 | every reserved sector of a new disk is the boot sector |
| `FatBytes.LabelSector` | tools/fatfs/FatDisk.cpp:106-140 | the volume label is in the first sector of the root directory, and everything behind that sector is zero |
| `FatBytes.CapacityExactly` | tools/fatfs/Command_Create.cpp:164-165 | a 16-bit table has room for exactly its capacity, and so has a 12-bit one unless two bytes are left over, which would hold one more |
| `FatBytes.TooManyExactly` | tools/fatfs/Command_Create.cpp:170-188 | the search gives up exactly for more than 4084 clusters where 12 bits are asked for, or more than 65524, once the table has room for more |
| `FatBytes.TooFewExactly` | tools/fatfs/Command_Create.cpp:190-211 | it finds too few exactly when there is no cluster, or fewer than 4085 where 16 bits are asked for |
| `FatBytes.Aligned` | tools/fatfs/Command_Create.cpp:161-162 | alignment gives the smallest multiple that is not less |
| `LongNames.GetShortNameChecksum` | tools/fatfs/fat.c:584-595 | the loop computes the checksum that the next two rows are about |
| `LongNames.ChecksumTellsApart` | tools/fatfs/fat.c:584-595 | short names that differ in exactly one byte have different checksums |
| `LongNames.SampleChecksum` | tools/fatfs/fat.c:584-595 | the checksum of `FOO     TXT` is 0x65 |
| `LongNames.TrimExactly` | tools/fatfs/fat.c:515-524 | trimming removes exactly the leading white space, then trailing white space and dots but never the first character left |
| `LongNames.ForbiddenExactly` | tools/fatfs/fat.c:537-545 | exactly the nine characters " * / : < > ? ` and the vertical bar are refused |
| `LongNames.AcceptableExactly` | tools/fatfs/fat.c:526-546 | acceptable names have 1 to 255 characters and none of those |
| `LongNames.StartsExactly` | tools/fatfs/fat.c:437-440 | a chain starts at a slot that is marked as the last link, is not deleted, and has the four attribute bits and no cluster |
| `LongNames.LinkFields` | tools/fatfs/fat.c:553-578 | a link holds its characters 5, 6 and 2 to a field, its number in byte 0 with 0x40 on the last one, attributes 0x0F and cluster 0 |
| `LongNames.XorOfDeviations` | tools/fatfs/fat.c:487-495 | the rolling XOR, corrected for odd chains, is the XOR of all deviations from the right checksum |
| `LongNames.PassesExactly` | tools/fatfs/fat.c:487-504 | for every key the test passes exactly when the last checksum is right and the other deviations cancel |
| `LongNames.IntactPasses` | tools/fatfs/fat.c:487-504 | a chain with right checksums passes, odd or even, for every key |
| `LongNames.OneChangeFails` | tools/fatfs/fat.c:487-504 | one wrong checksum byte anywhere makes the test fail |
| `LongNames.TwoChangesCanPass` | tools/fatfs/fat.c:487-504 | two equal wrong checksums cancel |
| `LongNames.TamperedReadsEmpty` | tools/fatfs/fat.c:435-508 | changing one checksum of a right chain makes it read as the empty name |
| `LongNames.PutLink` | tools/fatfs/fat.c:425-578 | a link holds its 13 characters, ended by a NUL when not full; behind the NUL the first field holds 0xFFFF and the others 0, as the three fills of the first field leave it |
| `LongNames.SetLongName` | tools/fatfs/fat.c:510-582 | accepts exactly the acceptable trimmed names; writes the links in reverse order, padded as above, and then the short entry, and no other slot |
| `LongNames.LinkYields` | tools/fatfs/fat.c:456-475 | a link gives back exactly its part of the name |
| `LongNames.YankChain` | tools/fatfs/fat.c:450-491 | walking any chain that stays in directory and buffer lays each link's characters in its bucket, counts them, and rolls up the checksums |
| `LongNames.LaidTwo` | tools/fatfs/fat.c:460-473 | copying two fields one after the other, stopping at a NUL, is copying both at once |
| `LongNames.GetLongName` | tools/fatfs/fat.c:435-508 | for any chain that stays in directory and buffer: the laid-out characters, cut at the counted length when the checksum test passes and at the start otherwise, and the slot behind the chain |
| `LongNames.EncodedReads` | tools/fatfs/fat.c:435-508 | a chain that holds a name can be read, and gives the name exactly when the checksums pass |
| `LongNames.IntactReads` | tools/fatfs/fat.c:435-508 | with right checksums it gives the name, whatever the key |
| `LongNames.SetThenGet` | tools/fatfs/fat.c:435-582 | for every name of nonzero 16-bit characters and every key, reading gives the trimmed name and the short entry |
| `Memory.MemMove` | src/libc/string.c:81-110 | overlapping copies in either direction move the old contents |
| `TerminalProofs.StepInv` | src/kernel/char/terminal.c:577-899 | one byte keeps cursor, saved cursor, parameter index and pending wrap in range exactly unless it is ESC M on row 0 |
| `TerminalProofs.TallestGoesRound` | src/kernel/char/terminal.c:1024-1031 | with 4096 rows the 12-bit row would go round instead of scrolling |
| `TerminalProofs.CsiStepInv` | src/kernel/char/terminal.c:769-899 | every control sequence character keeps them in range, for every 32-bit parameter |
| `TerminalProofs.EscStepInv` | src/kernel/char/terminal.c:691-767 | every escape character does, except ESC M on row 0 |
| `TerminalProofs.ReachableIndex` | src/kernel/char/terminal.c:577-686 | after any byte stream the cursor's cell lies inside the frame buffer |
| `TerminalProofs.ShiftWindow` | src/kernel/char/terminal.c:1055-1091 | a one-line scroll moves the window one line along the stream |
| `TerminalProofs.WrapShows` | src/kernel/char/terminal.c:1018-1031 | a pending wrap goes to the next line and scrolls only from the last row |
| `TerminalProofs.PrintShows` | src/kernel/char/terminal.c:577-686 | one printable character more extends the window shown |
| `TerminalProofs.PrintAll` | src/kernel/char/terminal.c:577-686 | n printable characters on a reset terminal show the window after max(0, ceil(n/cols) - rows) scrolls, with cursor and pending wrap |
| `TerminalProofs.FullScreen` | src/kernel/char/terminal.c:577-686 | filling the whole screen scrolls nothing |
| `TerminalEffects.DecimalRead` | src/kernel/char/terminal.c:769-793 | a decimal number in a control sequence is read as its value |
| `TerminalEffects.Separators` | src/kernel/char/terminal.c:769-793 | a semicolon begins the next of sixteen parameters |
| `TerminalEffects.CursorBack` | src/kernel/char/terminal.c:795-827 | CSI n A and D go up and left by max(n, 1), not past the edge |
| `TerminalEffects.CursorDown` | src/kernel/char/terminal.c:795-827 | CSI n B goes down by max(n, 1) to the last row at most, or back up when the 32-bit sum wraps |
| `TerminalEffects.CursorRight` | src/kernel/char/terminal.c:795-827 | CSI n C goes right in the same way |
| `TerminalEffects.CursorNextLine` | src/kernel/char/terminal.c:795-827 | CSI n E goes to the start of a line further down |
| `TerminalEffects.CursorPreviousLine` | src/kernel/char/terminal.c:795-827 | CSI n F goes to the start of a line further up |
| `TerminalEffects.CursorColumn` | src/kernel/char/terminal.c:795-827 | CSI n G goes to column min(max(n, 1), cols), counted from one |
| `TerminalEffects.CursorPlace` | src/kernel/char/terminal.c:828-835 | CSI n ; m H goes to row min(max(n, 1), rows) and column min(max(m, 1), cols), counted from one |
| `TerminalEffects.CursorRow` | src/kernel/char/terminal.c:828-835 | CSI n H goes to the start of that row |
| `TerminalEffects.ErasesScreen` | src/kernel/char/terminal.c:1093-1120 | CSI n J, cell by cell: from the cursor on, up to it, or everything becomes blank; every other cell stays |
| `TerminalEffects.ErasesLine` | src/kernel/char/terminal.c:1122-1147 | CSI n K, cell by cell: the same within the cursor line |
| `TerminalEffects.ScrollsUp` | src/kernel/char/terminal.c:1055-1091 | CSI n S, cell by cell: each cell takes what was n rows below, or a blank |
| `TerminalEffects.ScrollsDown` | src/kernel/char/terminal.c:1055-1091 | CSI n T, cell by cell: each cell takes what was n rows above, or a blank |
| `TerminalEffects.Saves` | src/kernel/char/terminal.c:989-1010 | CSI s and ESC 7 remember the cursor, ESC 7 the tab stops too, and change nothing else |
| `TerminalEffects.Restores` | src/kernel/char/terminal.c:989-1010 | CSI u and ESC 8 go back to what was remembered |
| `TerminalEffects.AttributesStay` | src/kernel/char/terminal.c:769-899 | CSI m moves no cursor and changes no character |
| `TerminalEffects.UnknownIgnored` | src/kernel/char/terminal.c:769-899 | a sequence with any other final character changes nothing |
| `TerminalEffects.EscapeLines` | src/kernel/char/terminal.c:691-767 | ESC D and E feed a line, ESC E to its start; ESC M goes up a row |
| `TerminalEffects.EscapeTabs` | src/kernel/char/terminal.c:691-767 | ESC H and h set and clear the tab stop at the cursor; ESC c clears the screen and goes home |
| `TerminalEffects.EscapeIgnored` | src/kernel/char/terminal.c:691-767 | ESC with any other character changes nothing |
| `TerminalEffects.Prints` | src/kernel/char/terminal.c:641-676 | from any state, a printable character changes its own cell and no other, and moves on or leaves a wrap pending |
| `TerminalEffects.WrapsFirst` | src/kernel/char/terminal.c:641-676 | a pending wrap is a carriage return and a line feed before the next printable character |
| `TerminalEffects.ControlMoves` | src/kernel/char/terminal.c:577-686 | what backspace, CR, the three line feeds, cancel, bell and delete do in every mode |
| `TerminalEffects.TabMoves` | src/kernel/char/terminal.c:1042-1053 | a tab goes to the nearest stop on the right, or to the last column |
| `TerminalEffects.DefaultStops` | src/kernel/char/terminal.c:373-400 | after a reset a tab goes to the next of columns 7, 15, 23 and so on |
| `TerminalDevice.Device.constructor` | src/kernel/char/terminal.c:358-400 | a new terminal is valid and equal to its own reset |
| `TerminalDevice.Device.ScrollLines` | src/kernel/char/terminal.c:1055-1091 | the overlapping memmove and blanking are the specified scroll, up or down by any number of lines |
| `TerminalDevice.Device.LineFeed` | src/kernel/char/terminal.c:1024-1031 | refines the model's line feed with its 12-bit row |
| `TerminalDevice.Device.Tab` | src/kernel/char/terminal.c:1042-1053 | goes to the next tab stop or the last column |
| `TerminalDevice.Device.Erase` | src/kernel/char/terminal.c:1093-1120 | blanks exactly the selected part of the screen |
| `TerminalDevice.Device.EraseLine` | src/kernel/char/terminal.c:1122-1147 | blanks exactly the selected part of the line |
| `TerminalDevice.Device.EscChar` | src/kernel/char/terminal.c:691-767 | refines the model's escape step |
| `TerminalDevice.Device.CsiChar` | src/kernel/char/terminal.c:769-899 | refines the model's control sequence step |
| `TerminalDevice.Device.PrintChar` | src/kernel/char/terminal.c:641-676 | refines the model's printing of a character with deferred wrap |
| `TerminalDevice.Device.Putchar` | src/kernel/char/terminal.c:577-686 | is one step of the model; stays valid exactly unless the byte is ESC M on row 0 |
| `TerminalDevice.Device.Write` | src/kernel/char/terminal.c:561-575 | a buffer is a run of the model |
| `Numerals.ValueOfDigits` | src/libc/printf.c:498-507 | the digits of a number, read in their radix, give the number |
| `Numerals.DigitsCase` | src/libc/printf.c:494-505 | `%X` uses no small letter and `%x` no capital |
| `NumberRoundTrip.OutputShape` | src/libc/printf.c:512-592 | the output from the flags alone: sign and prefix, its length at least the width, spaces in front only when right justified and behind only when left justified and only up to the width, zeros for precision, octal or zero padding |
| `NumberRoundTrip.SampleRight` | src/libc/printf.c:494-592 | 255 as `%#6X` is two spaces and 0XFF |
| `NumberRoundTrip.SampleLeft` | src/libc/printf.c:494-592 | 255 as `%-4x` is ff and two spaces |
| `Printf.FillDigits` | src/libc/printf.c:498-510 | the digit loop fills the end of the 64-character buffer and never overruns it |
| `Printf.Measure` | src/libc/printf.c:512-545 | zeros, sign and total length before padding |
| `Printf.LeadIn` | src/libc/printf.c:551-561 | right justification by zeros or spaces |
| `Printf.FormatNumber` | src/libc/printf.c:490-592 | one numeric conversion equals lead, sign, prefix, zeros, digits and trail |
| `Strtoull.StrToULL` | src/libc/string.c:229-357 | the character state machine computes the number and end position the string denotes |
| `NumberRoundTrip.DecimalRoundTrip` | src/libc/printf.c:454-592 | every 64-bit signed number, with any flags, width and precision, is read back in base 10 |
| `NumberRoundTrip.OctalRoundTrip` | src/libc/string.c:229-357 | `%llo` in base 8 and `%#llo` in base 0 are always read back |
| `NumberRoundTrip.HexRoundTrip` | src/libc/string.c:229-357 | `%llx` in base 16 is read back exactly when it has a prefix, no leading zero, or is below 8 |
| `NumberRoundTrip.PlainHexRoundTrip` | src/libc/string.c:229-357 | unpadded `%llx` is always read back in base 16 |
| `NumberRoundTrip.PaddedHexIsLost` | src/libc/string.c:281-298 | 0x10 printed as `%04llx` is 0010, which is read in base 16 as 8 |
| `NumberRoundTrip.AlternateHexRoundTrip` | src/libc/string.c:229-357 | `%#llx` is always read back in base 0 |
| `NumberGrammar.DigitAlphabet` | src/libc/string.c:300-311 | the digits of every base in both cases: what is written and what is read |
| `NumberGrammar.PlainNumber` | src/libc/string.c:259-357 | white space of any of the six kinds, at most one sign and digits are read as the number with its sign modulo 2^64, up to the first character that is no digit |
| `NumberGrammar.PrefixedNumber` | src/libc/string.c:281-357 | a leading 0 selects octal for bases 0, 8 and 16, and with any number of x behind it hexadecimal; without digits the end is behind the 0 or at the last x |
| `NumberGrammar.NoNumber` | src/libc/string.c:259-357 | without a digit the value is 0 and nothing is taken |
| `NumberGrammar.SampleHex` | src/libc/string.c:259-357 | tab, newline and -0x1F in base 0 |
| `NumberGrammar.SampleOctal` | src/libc/string.c:259-357 | 0179 in base 0 is 15 and ends at the 9 |
| `Lists.InsertAtEnd` | src/kernel/list.c:24-32 | linking a node between the last and the first node of a circle extends it |
| `Lists.RemoveAtEnd` | src/kernel/list.c:34-42 | unlinking a node closes the circle without it |
| `Lists.ListFrame` | src/kernel/list.c:24-68 | a list does not notice changes to other nodes' links |
| `Lists.ListInit` | src/kernel/list.c:44-48 | the list is empty |
| `Lists.ListEmpty` | src/kernel/list.c:50-53 | true exactly for the empty list |
| `Lists.ListAdd` | src/kernel/list.c:55-58 | the item becomes the last one; links of other nodes are unchanged |
| `Lists.ListAddTail` | src/kernel/list.c:60-63 | the item becomes the first one; links of other nodes are unchanged |
| `Lists.ListRemoveFirst` | src/kernel/list.c:65-68 | the rest of the list stays, the item links to itself |
| `Bitmap.PickAscends` | src/kernel/pool.c:146-159 | successive lowest-bit scans find set bits in ascending order and clear no others |
| `Bitmap.PicksContiguous` | src/kernel/pool.c:146-159 | n scans yield consecutive bits exactly when the n lowest set bits follow each other |
| `Pool.LivePlusFree` | src/kernel/pool.c:215-278 | live items plus free items make up a pool's capacity |
| `Pool.ItemsApart` | src/kernel/pool.c:237-238 | different items occupy disjoint memory |
| `Pool.OthersKeep` | src/kernel/pool.c:106-278 | an operation confined to one pool's descriptor, chunks and list keeps every other pool sound |
| `Pool.AllocKeeps` | src/kernel/pool.c:215-243 | taking an item keeps the allocator sound |
| `Pool.FreeKeeps` | src/kernel/pool.c:245-278 | giving a live item back keeps it sound |
| `Pool.SameList` | src/kernel/list.c:24-68 | the links determine the list |
| `Pool.MadeScattered` | src/kernel/pool.c:146-159 | with scattered chunks no reading of the links makes the new pool sound |
| `Pool.CreateExact` | src/kernel/pool.c:106-168 | creation keeps the allocator sound exactly when the lowest free chunks follow each other |
| `Pool.DestroyKeeps` | src/kernel/pool.c:170-193 | destroying a pool keeps the allocator sound |
| `PoolRuns.StepKeeps` | src/kernel/pool.c:106-278 | each call of a run with reverse-order destruction keeps soundness and the stacking of pools |
| `PoolRuns.EveryRun` | src/kernel/pool.c:106-278 | in every state of every such run: sound, capacity accounted for, and the next creation gets consecutive chunks |
| `Bitmap.OutOfOrderScatters` | src/kernel/pool.c:146-159 | out of order, a pool can get chunks 0, 1 and 3 |
| `PoolAllocator.ItemIndex` | src/kernel/pool.c:262-264 | the index computed from an address in the pool is that of the item that holds it |
| `PoolAllocator.ItemsAdjoin` | src/kernel/pool.c:228-242 | items lie one after the other from the base of the pool |
| `PoolAllocator.ItemInMemory` | src/kernel/pool.c:257-264 | every address of every item is in the memory of the pool and leads back to that item |
| `PoolAllocator.OnlyItemsInMemory` | src/kernel/pool.c:257-264 | and no other address is |
| `PoolAllocator.TookLive` | src/kernel/pool.c:228-242 | the item handed out was not live and now is |
| `PoolAllocator.ReturnedLive` | src/kernel/pool.c:262-277 | the item given back was live and no longer is |
| `PoolAllocator.Allocator.constructor` | src/kernel/pool.c:91-104 | all 32 slots and all 256 chunks are free |
| `PoolAllocator.Allocator.PoolAlloc` | src/kernel/pool.c:215-243 | null exactly when the pool is invalid or all items are live; else the front item's address |
| `PoolAllocator.Allocator.PoolFree` | src/kernel/pool.c:245-278 | both error cases exactly, changing nothing; else the item at that address is the new front of the free list |
| `PoolAllocator.Allocator.AllocThenFree` | src/kernel/pool.c:215-278 | what is handed out is accepted back, exactly unless items have no size, and leaves the live items and the free list as before |
| `PoolAllocator.Allocator.PoolCreate` | src/kernel/pool.c:106-168 | null address and panic exactly; else the lowest free slot and chunks, sound exactly when consecutive |
| `PoolAllocator.Allocator.CreateThenAlloc` | src/kernel/pool.c:106-243 | a new pool hands out its memory from the start: its address first, then the item right behind it |
| `PoolAllocator.Allocator.PoolDestroy` | src/kernel/pool.c:170-193 | an invalid pool changes nothing; else chunks and slot are free again, and the first chunk, the descriptor and their links are wiped |
| `Ring.Ring.constructor` | src/kernel/ring.c:26-31 | an empty queue of the given length |
| `Ring.Ring.Empty` | src/kernel/ring.c:33-36 | true exactly when nothing is queued |
| `Ring.Ring.Full` | src/kernel/ring.c:38-41 | true exactly when the buffer is used up |
| `Ring.Ring.Get` | src/kernel/ring.c:43-56 | removes the oldest character; NUL when there is none |
| `Ring.Ring.Put` | src/kernel/ring.c:58-71 | appends unless full |
| `Ring.Ring.Erase` | src/kernel/ring.c:73-85 | takes back the youngest character; NUL when there is none |
| `Ring.Ring.Insert` | src/kernel/ring.c:87-100 | puts a character in front unless full |
| `Ring.Ring.Clear` | src/kernel/ring.c:112-115 | nothing is queued |
| `SerialModel.RunConserves` | src/kernel/char/serial.c:499-679 | in every interleaving, characters accepted equal data sent followed by the queue, which never exceeds its size |
| `SerialModel.TransmitSends` | src/kernel/char/serial.c:932-965 | an interrupt sends the pending flow control character, then, unless stopped, the oldest sixteen characters in order or all there are |
| `SerialModel.WriteQueues` | src/kernel/char/serial.c:517-565 | a write queues the front of the text, up to 1024 characters in all |
| `SerialModel.FlowEvents` | src/kernel/char/serial.c:585-679 | throttle and unthrottle ask for 0x13 and 0x11 under IXOFF and move RTS under CRTSCTS; CTS counts only under CRTSCTS |
| `SerialModel.StoppedSendsNoData` | src/kernel/char/serial.c:932-965 | no event sends queued data while the line is stopped |
| `SerialModel.StepControlAwake` | src/kernel/char/serial.c:585-679 | a pending flow control character loses its interrupt exactly by a stop of a running line or a CTS resume |
| `SerialModel.StepStaysSilent` | src/kernel/char/serial.c:499-965 | and gets it back exactly by the listed steps; a start helps only when data is queued |
| `SerialModel.RunTold` | src/kernel/char/serial.c:499-965 | in every run without CRTSCTS the events alone decide how much waits, whether the line is stopped, which flow control character is pending and whether its interrupt is on |
| `SerialModel.RunControlAwake` | src/kernel/char/serial.c:499-965 | a pending flow control character has lost its wake-up exactly when the running line was stopped since the request, and is still stopped or has no data to send |
| `SerialModel.ControlDelivered` | src/kernel/char/serial.c:932-947 | otherwise its interrupt is on, and the transmission sends the last requested character before any data, stopped or not |
| `SerialModel.UnstoppedControlAwake` | src/kernel/char/serial.c:585-679 | without CRTSCTS, runs that never stop the line lose none |
| `SerialModel.StopRequestSilenced` | src/kernel/char/serial.c:613-679 | without CRTSCTS, after throttle, stop and start the stop character is still pending with the interrupt off |
| `SerialModel.RtsFollows` | src/kernel/char/serial.c:585-639 | the RTS line is down exactly under CRTSCTS after a throttle |
| `SerialModel.StepAwake` | src/kernel/char/serial.c:499-902 | the only step that leaves sendable queued data without the interrupt is a CTS resume with data waiting |
| `SerialModel.RunAwake` | src/kernel/char/serial.c:499-965 | without CRTSCTS every reachable state with sendable queued data has the transmit interrupt on |
| `SerialModel.SleepsAfterResume` | src/kernel/char/serial.c:881-901 | with CRTSCTS a concrete run leaves data asleep |
| `SerialModel.Drains` | src/kernel/char/serial.c:932-965 | on a line that may send, k transmit interrupts send everything exactly when the queue holds at most 16k characters |
| `SerialPort.Port.SerialWrite` | src/kernel/char/serial.c:517-565 | queues the prefix that fits, returns its length, is one step of the model |
| `SerialPort.Port.SerialFlush` | src/kernel/char/serial.c:499-515 | one step of the model |
| `SerialPort.Port.SerialWriteRoom` | src/kernel/char/serial.c:567-583 | the free space of the queue |
| `SerialPort.Port.StartTty` | src/kernel/char/serial.c:641-660 | start_tty and serial_start are one step of the model |
| `SerialPort.Port.StopTty` | src/kernel/char/serial.c:662-679 | stop_tty and serial_stop are one step of the model |
| `SerialPort.Port.SerialThrottle` | src/kernel/char/serial.c:613-639 | requests the stop character under IXOFF and drops RTS under CRTSCTS |
| `SerialPort.Port.SerialUnthrottle` | src/kernel/char/serial.c:585-611 | requests the start character under IXOFF and raises RTS under CRTSCTS |
| `SerialPort.Port.CheckModemStatus` | src/kernel/char/serial.c:881-901 | CTS flow control as coded |
| `SerialPort.Port.SendChars` | src/kernel/char/serial.c:932-965 | the control character, then at most 16 queued ones in order, then the interrupt off when nothing is left |
| `TtyModel.StepInv` | src/kernel/char/tty_ldisc.c:106-275 | every received character and every read iteration keeps the invariant of the next row |
| `TtyModel.RunInv` | src/kernel/char/tty_ldisc.c:106-389 | in every reachable state: throttled exactly below 128 free slots, throttle and unthrottle calls alternate, so do stop and start calls, and stored characters are those read followed by those buffered |
| `TtyModel.DroppedExactly` | src/kernel/char/tty_ldisc.c:248-263 | a character is dropped exactly when the buffer is full, or all but full with echo |
| `TtyModel.HangsExactly` | src/kernel/char/tty_ldisc.c:231-237 | the receiver hangs exactly when it is given a CR it is to ignore |
| `TtyModel.StoredAs` | src/kernel/char/tty_ldisc.c:216-263 | what is stored for a character: NL for CR under ICRNL, CR for NL under INLCR, else the character |
| `TtyModel.EchoedAs` | src/kernel/char/tty_ldisc.c:321-336 | what is echoed: a caret and the character 64 further up for a control character under ECHOCTL, `^?` for DEL, else the character |
| `TtyModel.EchoedLine` | src/kernel/char/tty_ldisc.c:292-336 | an NL is echoed as CR NL under OPOST and ONLCR |
| `TtyModel.FlowCharacters` | src/kernel/char/tty_ldisc.c:218-228 | under IXON 0x13 suspends and 0x11 resumes, and neither is stored |
| `TtyModel.Rings` | src/kernel/char/tty_ldisc.c:250-255 | with echo a character that finds fewer than two free slots rings the bell and is dropped |
| `TtyModel.NothingLost` | src/kernel/char/tty_ldisc.c:199-275 | a sender that sends at most 127 characters after a throttle call, 126 with echo, has all of its translated input read or buffered |
| `TtyModel.FloodKeeps` | src/kernel/char/tty_ldisc.c:199-275 | without a reader exactly the first 1024 characters are kept, 1023 with echo |
| `TtyOutput.FitIsLongest` | src/kernel/char/tty_ldisc.c:154-191 | a prefix fits after expansion exactly when it is no longer than the computed length |
| `TtyOutput.ExpandJoin` | src/kernel/char/tty_ldisc.c:154-191 | texts are expanded part by part |
| `TtyOutput.ExpandedLines` | src/kernel/char/tty_ldisc.c:292-319 | under OPOST an NL goes out as CR NL with ONLCR, and a CR as NL with OCRNL |
| `TtyOutput.ExpandedSame` | src/kernel/char/tty_ldisc.c:292-319 | no other character is touched |
| `TtyLine.ReadNTakes` | src/kernel/char/tty_ldisc.c:106-152 | reading takes characters from the front, in order |
| `TtyLine.StepLinked` | src/kernel/char/tty_ldisc.c:106-389 | each step of tty and port together keeps the link of the next row |
| `TtyLine.RunLinked` | src/kernel/char/tty_ldisc.c:106-389 | in every run of the line discipline over the serial port: the driver's space is the port's, what the tty has said is what was sent followed by what is queued, both agree on being stopped, RTS is down exactly while the tty is throttled under CRTSCTS, and under IXOFF the last flow control character sent or pending is the stop character exactly while it is throttled |
| `TtyLine.WireCarries` | src/kernel/char/serial.c:517-565 | in every run, what is written and echoed, after expansion, is what the wire carries as data followed by what is queued |
| `TtyLine.WriteTwo` | src/kernel/char/serial.c:517-565 | two writes that fit are one |
| `TtyLine.WriteThenFlush` | src/kernel/char/serial.c:499-565 | a flush after a write changes nothing, and a write of nothing is a flush |
| `TtyDisc.Discipline.Opost` | src/kernel/char/tty_ldisc.c:292-319 | hands the expansion of a character to the port completely or not at all |
| `TtyDisc.Discipline.Echo` | src/kernel/char/tty_ldisc.c:321-336 | hands the echo of a character to the port completely or not at all |
| `TtyDisc.Discipline.Throttle` | src/kernel/char/tty_ldisc.c:355-365 | calls the port only on a change, and leaves it as that call does |
| `TtyDisc.Discipline.Unthrottle` | src/kernel/char/tty_ldisc.c:343-353 | calls the port only on a change, and leaves it as that call does |
| `TtyDisc.Discipline.Start` | src/kernel/char/tty_ldisc.c:367-377 | calls the port only on a change, and leaves it as that call does |
| `TtyDisc.Discipline.Stop` | src/kernel/char/tty_ldisc.c:379-389 | calls the port only on a change, and leaves it as that call does |
| `TtyDisc.Discipline.RecvRoom` | src/kernel/char/tty_ldisc.c:277-290 | the free slots of the buffer |
| `TtyDisc.Discipline.NTtyRecv` | src/kernel/char/tty_ldisc.c:199-275 | receiving a character is one step of tty and port together, with echo, flush, throttle, start and stop calls |
| `TtyDisc.Discipline.NTtyRead` | src/kernel/char/tty_ldisc.c:106-152 | a non-blocking read returns the oldest characters, or would-block exactly when there are none, and makes the unthrottle calls |
| `TtyDisc.Discipline.NTtyWrite` | src/kernel/char/tty_ldisc.c:154-191 | queues exactly the expansion of the longest prefix that fits and returns its length, so no CR without its NL |
| `TtyDisc.Discipline.TransmitInterrupt` | src/kernel/char/serial.c:1004-1036 | a transmit interrupt is one step of tty and port together |
| `TtyDisc.Discipline.ModemInterrupt` | src/kernel/char/serial.c:1004-1036 | a modem status change is one step of tty and port together |
| `GdbModel.ByteRoundTrip` | src/i386/kernel/gdbstub.c:649-697 | two hex digits stand for the byte they were made from |
| `GdbModel.HexRoundTrip` | src/i386/kernel/gdbstub.c:649-697 | decoding undoes encoding for every byte string |
| `GdbModel.ChecksumIsSum` | src/i386/kernel/gdbstub.c:490-512 | the checksum is the sum of all payload bytes modulo 256 |
| `GdbModel.FrameBytes` | src/i386/kernel/gdbstub.c:544-585 | a frame is `$`, the payload, `#` and that sum as two small hexadecimal digits, the high one first |
| `GdbModel.OkFrame` | src/i386/kernel/gdbstub.c:544-590 | an acknowledged OK goes out as `$OK#9a` |
| `GdbModel.LongNotSent` | src/i386/kernel/gdbstub.c:556-559 | a payload is refused without a byte sent exactly when it has more than 511 bytes |
| `GdbModel.LongNotReceived` | src/i386/kernel/gdbstub.c:490-512 | the 512th payload byte ends the receive with an error and without an answer |
| `GdbModel.BetweenPackets` | src/i386/kernel/gdbstub.c:456-488 | between packets 0xFF is an error, 0x03 is passed on, and a NACK has the last packet sent again |
| `GdbModel.PutBack` | src/i386/kernel/gdbstub.c:391-412 | anything else in place of an acknowledgement is returned and read again, so a packet that arrives instead is not lost |
| `GdbModel.Timeouts` | src/i386/kernel/gdbstub.c:490-526 | a timeout in a payload makes no difference; in the checksum it leaves what the digit held before, and an end of file there is an error |
| `GdbModel.NoiseIgnored` | src/i386/kernel/gdbstub.c:456-488 | ignorable characters before a packet make no difference |
| `GdbModel.FrameReceived` | src/i386/kernel/gdbstub.c:439-542 | a framed packet is stored and status 0 returned whatever its checksum; a right one is answered with an ACK and sets the length, a wrong one with a NACK and leaves the length |
| `GdbModel.DispatchedExactly` | src/i386/kernel/gdbstub.c:206-223 | a framed packet is dispatched exactly when it is right and not empty, or wrong and the length left from before is not zero; the command is its own first byte |
| `GdbModel.DamagedDispatched` | src/i386/kernel/gdbstub.c:206-223 | once the length is not zero, the first damaged copy is dispatched as it is, with the old length |
| `GdbModel.DamagedContinues` | src/i386/kernel/gdbstub.c:206-247 | after a good `?`, a `g` damaged into `c` is answered with a NACK and continues the program |
| `GdbModel.SendThenReceive` | src/i386/kernel/gdbstub.c:439-585 | what is sent is received with the same payload, whatever ignorable noise precedes it |
| `GdbModel.OneByteRefused` | src/i386/kernel/gdbstub.c:534-541 | replacing one payload byte by another legal byte is always answered with a NACK; status and length do not tell the caller |
| `GdbModel.Retransmits` | src/i386/kernel/gdbstub.c:391-437 | after k NACKs the frame has been sent k + 1 times, byte for byte |
| `GdbModel.NackedThenDispatched` | src/i386/kernel/gdbstub.c:206-218 | while the length is zero, any number of damaged copies are answered with a NACK and passed over, and the first good one is dispatched |
| `GdbModel.Exchange` | src/i386/kernel/gdbstub.c:391-585 | from a receiver whose length is zero, the first packet dispatched is the one sent, and the answers make the sender transmit one frame per copy and stop |
| `GdbStub.EncodeHex` | src/i386/kernel/gdbstub.c:649-667 | two digits per byte; fails exactly when they do not fit |
| `GdbStub.DecodeHex` | src/i386/kernel/gdbstub.c:669-697 | one byte per two digits; fails exactly when there are too few |
| `GdbStub.Stub.GetC` | src/i386/kernel/gdbstub.c:699-720 | the pending character, the next one, or a timeout |
| `GdbStub.Stub.GdbSendPacket` | src/i386/kernel/gdbstub.c:544-585 | equals the model's send, including the retransmit buffer and overlong packets |
| `GdbStub.Stub.GdbRecvAck` | src/i386/kernel/gdbstub.c:391-412 | ACK, NACK with retransmission, or the character put back |
| `GdbStub.Stub.GdbHandleNack` | src/i386/kernel/gdbstub.c:424-437 | sends the last packet again |
| `GdbStub.Stub.GdbRecvPacket` | src/i386/kernel/gdbstub.c:439-542 | status, buffer and length equal the model's receive, with end of file, Ctrl+C, stray answers, overflow and checksum timeouts |
| `GdbStub.Stub.AwaitCommand` | src/i386/kernel/gdbstub.c:206-218 | the command loop up to the next dispatch equals the model's |
| `LogModel.RunMatches` | src/kernel/console.c:48-184 | in every run the log is the end of what was printed and each console has been given exactly what it is due |
| `LogModel.ReceivedSince` | src/kernel/console.c:48-184 | a console that registers at any time has received the last min(total, 8192) characters printed before and everything printed since |
| `LogModel.TailMore` | src/kernel/console.c:154-161 | keeping only the end of the log loses nothing for later ends |
| `LogModel.TailIs` | src/kernel/console.c:154-161 | the end of length n of a text is its last n characters |
| `LogModel.KeptExactly` | src/kernel/console.c:128-184 | the first 1024 characters of a message are printed, or those in front of a NUL |
| `KernelLog.Log.PutLog` | src/kernel/console.c:154-161 | the circular buffer holds the last 8192 characters |
| `KernelLog.Log.RegisterConsole` | src/kernel/console.c:48-89 | registers once and replays the log, in one piece or two |
| `KernelLog.Log.UnregisterConsole` | src/kernel/console.c:91-114 | takes one console off the list |
| `KernelLog.Log.ConsoleWrite` | src/kernel/console.c:128-184 | line-by-line output equals printing the kept part of the message to the log and every console; returns its length |

## Left out

- FatDisk.Disk.WriteThenRead: sizes are below 2^32, the range of the size field.
- FatDisk.Disk.GetCluster: the bounds test admits the index one past the last cluster; that index is allowed only when the table buffer holds its entry.
- FatDisk.Disk.ReadCluster: the same index trips an assertion in the source and is excluded, also in WriteCluster.
- FatCreate.CreateNew: the contents of the boot sector and of the label entry are parameters; layouts are those whose table holds all their clusters.
- FatDisk.Disk.Open: the image has the size that its parameter block states (also OpenDisk).
- TerminalDevice.Device.constructor: at most 4095 rows; the source's row field has 12 bits.
- FatStore.Replace: a store holds files and directories with at least one cluster (also Add); an entry without clusters is not protected from other writes, because its first cluster is free.
- FatStore.Empty: for files; a directory cannot be emptied by WriteFile.
- LongNames.GetLongName: chains that run off the directory, whose numbers are 0 or above 20, or whose characters leave the 256-character buffer are excluded; the source then reads or writes out of bounds or trips its assertion (also YankChain).
- LongNames.SetLongName: the table must have room for the links of an accepted name and the short entry; wide characters above 16 bits are cut as in the source, and white space is that of the C locale.
- TerminalDevice.Device.Write: streams with ESC M on row 0 are excluded, because the row then lies outside the frame buffer; Putchar states the exact step.
- FatSizing.SizeTable: the sums formed by the search must fit a C int.
- PoolAllocator.Allocator.PoolFree: freeing an item that is not live trips the source's assertion and is excluded.
- PoolAllocator.Allocator.PoolAlloc: addresses do not wrap at 32 bits, and clearing the item's memory is not modelled.
- TtyDisc.Discipline.NTtyRecv: one character per call, as every caller passes; a CR with IGNCR set is excluded, because the source does not return.
- GdbModel.Exchange: starts from length zero, which the source does not establish; DamagedDispatched covers every other length.
- TtyDisc.Discipline.NTtyWrite: without OPOST the text must fit the driver, because the source retries a full driver for ever.
- TtyDisc.Discipline.NTtyRead: the blocking form, which spins until a character arrives, is not modelled.
- KernelLog.Log.UnregisterConsole: needs a registered console, because the source follows a null pointer otherwise.
- GdbStub.Stub.GdbRecvPacket: input is the finite sequence of characters that will arrive; running out of it is reported as starvation where the source goes on polling. Packet and acknowledgement counters are not modelled, nor are the handlers of the commands.
- FAT: volume offset (taken as 0), boot sector fields, dates, short names, directory search, file and directory creation, host I/O and allocation failures.
- Terminal: character attributes, blinking and cursor visibility, switching terminals, and the hardware cursor; SGR only moves through its parameters.
- printf: parsing of the format string, strings, characters and pointers, the output limit of snprintf, and the final NUL that is counted in the result.
- strtoull: the narrower wrappers and errno.
- Serial: the receive path, line status, statistics, baud rate and open/close; flow control flags are fixed for a run.
- Pool: names, find_pool and descriptor magic numbers beyond the validity test; a double initialisation.
- Console: consoles without a write function, setup callbacks, input, and the copy sent to port 0xE9.
- Interrupt masking: each critical section is one step.
- Port I/O, inline assembly, page tables, file descriptors, the keyboard and the real-time clock.
