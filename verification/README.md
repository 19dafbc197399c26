# Proofs about a boot loader's algorithms

A Dafny model of the parts of the boot loader that carry an algorithm: the xHCI rings and
the transfers built on them, the FAT reader, the front end of the signature check, the NAND
and eMMC loaders, the EHCI transfer bookkeeping, the OTP UART framing and the image sums.

`dafny verify dfyconfig.toml` checks everything.

## How the model is built

Each C function that changes memory step by step is a method with the same branches,
loops and constants. Its contract ties the new state to a specification function of the old one,
and the lemmas prove what that function is for. Hardware is an explicit step
function: an xHCI controller that sees only its own index, its cycle state and memory; a disk; a flash
whose pages carry a mark; an RSA and a hash engine; a USB device with its own toggle.
32-bit wrap-around is written out with `Wrap32` wherever the C code can meet it.

| module | what it is about |
|---|---|
| `TransferRing`, `RingProtocol`, `BulkTd` | producer rings of usb/xhci_usb.c, the protocol with the controller, the TDs of `bulk_tx` and `ctrl_tx` |
| `EventRing` | the event ring and `wait_for_event` |
| `UsbConfig`, `UsbLimits` | `usb_parse_config`, and what it does beyond its limits |
| `FatMount`, `FatVolume`, `FatReader`, `LbaTable` | fat/fat_boot.c |
| `MontInverse`, `Sha3`, `ImageVerify` | common/verify_image_sp7350_hw.c |
| `BootBlock`, `EmmcScan` | the NAND and eMMC loaders of xboot.c |
| `EhciTransfer`, `EhciReads` | usb/ehci_usb.c, and the reads fat/fat_boot.c causes there |
| `OtpFrame` | otp/mon_rw_otp.c |
| `ImageSum` | lib/image.c |
| `DivMod`, `LapCounter`, `Bytes`, `Wrappers` | arithmetic, lap counting, bytes and words, `Option` |

Rings have any size from 3 up, the event ring any number of segments, the eMMC scan any number
of partitions.

## Where the code does less than one would expect

Each of these is stated exactly, with the condition a caller can check.

- The sector readers move 512-byte blocks and the scratch buffer has 512 bytes, whatever sector size
  the volume declares. With 512-byte sectors `fat_read_file` delivers; with wider ones some
  byte of every range that contains a whole sector is left as it was, for a transfer ends short of its sectors
  (`FatReader.FatReadFile`, `FatReader.KeptIsNotCopied`; 1024 bytes from the start of a file with
  1024-byte sectors in `FatReader.WideExample`), and FAT entries come from behind the buffer
  (`FatVolume.NextCluster`, `FatVolume.WideEntryIsBehind`).
- `fat_read_file` computes `remain + length` in 32 bits. When that wraps, it copies nothing, wherever
  the range lies (`FatReader.FatReadFile`). No range that ends below 4 GiB wraps
  (`FatReader.RangesOfFilesDoNotWrap`); a header whose size field is 0xFFFFFFC0, less the 64 bytes of a signature in builds that
  have one, makes the image loader ask for one that does (`FatReader.WrapExample`).
- `fat_read_file` fails exactly for a length of 0 and for a start beyond the end mark of the chain. A
  start in the cluster right behind the chain passes, and reads from the sector computed from the mark
  (`FatReader.FatReadFile`, `FatReader.WalkToCluster`).
- Every value of a FAT entry from 0xFFF5 on is an end mark to the loader on FAT16, although a cluster may have that
  number. `FatReader.FatReadFile` says on every volume when a range passes: exactly if none of the clusters visited on
  the way to its start is such a mark.
- Over EHCI, a whole-cluster read leaves up to 13 bytes of a status wrapper behind `dest + length`.
  `FatReader.FatReadFile` says which bytes, `FatReader.NoOverrunIff` when there are none, and
  `FatReader.OverrunExample` gives a read that leaves all 13.
- The LBA table's builder knows one end mark, 0x0FFFFFFF. It takes every other value of a FAT entry for a
  cluster (`LbaTable.OtherMarksAreClusters`), so on FAT16 it never meets the end
  (`LbaTable.Fat16NeverEnds`). It passes for `start_lba` 0xFFFFFFFF although no sector is cached, because
  `start_lba + 1` wraps, and fails for every other start above 0x80000001, where the signed test ends
  the scan at once (`LbaTable.SectorTable.Build`).
- `usb_parse_config` lists the endpoints of all settings of an interface in the one entry it keeps for it, which has
  the descriptor of the first setting (`UsbConfig.ParseUndoesSerialisation`).
- `usb_parse_config` goes on behind its tables exactly at the descriptors of `UsbLimits.TooMuch`, which
  counts changes of the interface number and endpoints among the whole descriptors of the buffer
  (`UsbLimits.ParseOverrunsExactly`), for one at an endpoint behind a ninth interface
  (`UsbLimits.NinthInterface`).
- The hash keeps its state where the RSA engine keeps P2. When `sp_expmod` finds the modulus pointer
  already in the engine, it makes the engine fetch P2 from there. So once an image has been verified, the
  engine is not ready for an image of the same data length at the same address, unless the hash state happens to
  be P2 of its modulus. The verdict on that image compares its hash with whatever the engine makes of the wrong P2
  (`ImageVerify.VerifyTwice`, with an input in `ImageVerify.DestroyedExample`), and what is known of the
  engine leaves that open (`ImageVerify.NotReadyIsUndetermined`).
  `ImageVerify.Verify` states the exact condition; a pointer the engine does not hold yet and an odd
  modulus meet it (`ImageVerify.ColdPointerSuffices`).
- One toggle flip in software per EHCI transfer agrees with the device exactly when the read's sector
  count is 0, 1 or even (`EhciTransfer.InPipe.ReadStages`, `EhciTransfer.RunReads`).
- The word loop of `sum32` ends exactly for lengths below 0xFFFFFFFC (`ImageSum.GuardStops`).
- `mont_w` delivers an inverse exactly for an odd modulus (`MontInverse.MontW`).
- The last `return -1` of `bblk_read` is reached exactly for a length of 0 or one whose rounding
  up to blocks wraps (`BootBlock.BblkRead`).
- A lone 0xFF in front of a frame makes `receive_package` lose the frame's start, and the whole frame if it has
  no other 0xFF (`OtpFrame.LoneStartByteLosesFrame`).
- `receive_package` that times out still returns the length announced by an incomplete frame
  (`OtpFrame.ReceivePackage`).

## Model

| member | source | states |
|---|---|---|
| TransferRing.Prepare | usb/xhci_usb.c:413-430 | after it there is room for a TRB before the Link, whose cycle bit stays the opposite of the producer's cycle state |
| TransferRing.Queue | usb/xhci_usb.c:432-494 | queueing keeps the ring well formed, and with more TRBs to come never leaves the producer at the Link; what the Link carries is in `RingProtocol.LinkCarriesChain` |
| TransferRing.Giveback | usb/xhci_usb.c:372-385 | the publishing write keeps the ring well formed |
| TransferRing.QueueAll | usb/xhci_usb.c:517-542 | a whole TD, first TRB hidden, keeps the ring well formed through any wrap |
| TransferRing.ProducerRing.constructor | usb/xhci_usb.c:142-237 | a fresh ring is well formed: zeroed TRBs, last a toggling Link with the segment's address, cycle state 1 |
| TransferRing.ProducerRing.PrepareRing | usb/xhci_usb.c:413-430 | the loop's new ring is `Prepare` of the old one |
| TransferRing.ProducerRing.IncEnq | usb/xhci_usb.c:432-494 | the loop, which keeps the Link back when the TD ends in front of it and carries CHAIN over to it otherwise, gives `Queue` of the old ring |
| TransferRing.ProducerRing.QueueTrb | usb/xhci_usb.c:517-542 | writes the TRB at the enqueue place and advances as `Queue` does |
| TransferRing.ProducerRing.GivebackFirstTrb | usb/xhci_usb.c:372-385 | sets exactly the cycle bit of the first TRB to the start cycle |
| TransferRing.ProducerRing.QueueCommand | usb/xhci_usb.c:544-570 | a command is one TRB with the producer's cycle state, at once visible |
| RingProtocol.OwnedIffPublished | usb/xhci_usb.c:413-542 | a cycle bit that matches means exactly: published and not yet taken |
| RingProtocol.ControllerKeepsInv | usb/xhci_usb.c:387-411 | a controller step, over a TRB or over the Link, keeps the invariant |
| RingProtocol.BeginKeepsInv | usb/xhci_usb.c:413-430 | starting a TD, with the Link given to the controller or not, keeps it |
| RingProtocol.LinkCarriesChain | usb/xhci_usb.c:473-480 | a Link the controller steps over has CHAIN exactly if the TRB it took before has it, and leads to the segment's first TRB |
| RingProtocol.QueueEffect | usb/xhci_usb.c:432-542 | queueing writes the slot of the new TRB only, hidden or visible as the protocol needs |
| RingProtocol.QueueKeepsCycles | usb/xhci_usb.c:432-542 | after queueing the cycle bits still separate this lap from the last |
| RingProtocol.QueueKeepsContents | usb/xhci_usb.c:432-542 | no outstanding TRB is overwritten |
| RingProtocol.QueueKeepsLink | usb/xhci_usb.c:459-480 | queueing leaves the Link with the CHAIN bit of the TRB before which it was last given away |
| RingProtocol.QueueKeepsInv | usb/xhci_usb.c:432-570 | queueing and commands keep the whole invariant |
| RingProtocol.PublishKeepsInv | usb/xhci_usb.c:372-385 | publishing keeps the invariant |
| RingProtocol.NextKeepsInv | usb/xhci_usb.c:372-570 | every step of driver or controller keeps the invariant |
| RingProtocol.RunKeepsInv | usb/xhci_usb.c:372-570 | so does every run, over any number of wraps |
| RingProtocol.InitInv | usb/xhci_usb.c:213-237 | a freshly allocated ring satisfies the invariant |
| RingProtocol.RunRecordsSubmitted | usb/xhci_usb.c:517-570 | a run records the TRBs the driver submitted, in order, but for the cycle bit |
| RingProtocol.DequeuedExactlyWhatWasQueued | usb/xhci_usb.c:213-237 | in every run from power-up the controller has taken a prefix of what was submitted and published, in order, once each; the Link's cycle bit is the opposite of `cycle_state`; a Link it steps over has the CHAIN bit of the TRB submitted before it |
| RingProtocol.ControllerCatchesUp | usb/xhci_usb.c:413-542 | from every reachable state the controller alone takes all that is published and no more |
| RingProtocol.OpenTdIsInvisible | usb/xhci_usb.c:1811-1896 | between `prepare_ring` and `giveback_first_trb` the controller, however long it runs, takes nothing of the open TD |
| RingProtocol.RingEffect | usb/xhci_usb.c:432-542 | on any ring the new TRB lands in the slot of its number and the producer stands at the next one, or at the Link before it |
| RingProtocol.ControllerTakesNext | usb/xhci_usb.c:387-411 | what the controller takes is the next TRB of the history, and only if it is published |
| RingProtocol.PublishIsOneWrite | usb/xhci_usb.c:372-385 | publishing changes one TRB, the first of the TD, and of it only the cycle bit |
| RingProtocol.LaterTrbInMemory | usb/xhci_usb.c:1852-1880 | a later TRB of an open TD is already in memory as the controller will take it |
| RingProtocol.LagShrinks | usb/xhci_usb.c:387-411 | each controller step brings it nearer to what is published, never past it |
| RingProtocol.OneWritePublishesAll | usb/xhci_usb.c:372-385 | after that one write the controller owns and takes every TRB of the TD |
| RingProtocol.PublishTdIsRun | usb/xhci_usb.c:1811-1896 | what a driver call does to the ring is a run of the protocol |
| RingProtocol.PublishCommandIsRun | usb/xhci_usb.c:544-570 | so is a command |
| RingProtocol.TdUnbroken | usb/xhci_usb.c:473-480 | as far as the controller works through a published TD, a Link it steps over has the CHAIN bit of the TD's TRB before it, and none in front of the TD |
| BulkTd.SplitCount | usb/xhci_usb.c:1785-1804 | the cut at 64 KB boundaries has one piece per 64 KB window touched, and the pieces sum to the length |
| BulkTd.SplitPieces | usb/xhci_usb.c:1835-1894 | pieces are contiguous from the buffer's address, none crosses a 64 KB boundary, none is empty unless the buffer is |
| BulkTd.BulkTrbs | usb/xhci_usb.c:1842-1880 | one Normal TRB per piece; CHAIN on all but the last, IOC on the last only |
| BulkTd.PredictTrbs | usb/xhci_usb.c:1785-1804 | the predicted TRB count is the number of 64 KB windows, 1 for an empty buffer |
| BulkTd.QueueNormalTrb | usb/xhci_usb.c:1842-1894 | one turn queues the TRB of the next piece; the count says whether more follow |
| BulkTd.QueueBuffer | usb/xhci_usb.c:1835-1894 | the loop queues exactly the TRBs of the pieces, the predicted number of them |
| BulkTd.BulkTx | usb/xhci_usb.c:1785-1896 | the ring afterwards is the old one with the buffer's TD published |
| BulkTd.BulkTdUnbroken | usb/xhci_usb.c:1811-1896 | a bulk TD that wraps is one TD to the controller: a Link inside it has CHAIN, a Link in front of it or behind it has not |
| BulkTd.SetupIsPacket | usb/xhci_usb.c:1660-1661 | the immediate data are the eight bytes of the setup packet of section 9.3 of the USB 2.0 specification |
| BulkTd.ControlTrbs | usb/xhci_usb.c:1656-1711 | as section 6.4.1.2 of the xHCI specification asks, TRB by TRB: setup with 8 bytes of immediate data; data exactly for a positive length, with the buffer's address and length, IN for a request that reads; an empty status stage against the data stage, IN if there is none, which alone interrupts |
| BulkTd.QueueStages | usb/xhci_usb.c:1656-1711 | the stages go to the ring in order with only the setup TRB hidden |
| BulkTd.ControlTx | usb/xhci_usb.c:1650-1713 | the ring afterwards is the old one with the control TD published |
| EventRing.IncDeqRefinesCounter | usb/xhci_usb.c:496-515 | (segment, index, cycle state) refines one counter; the cycle flips exactly on wrap and the place is never past a segment's end |
| EventRing.SeesExactlyPending | usb/xhci_usb.c:592-595 | the cycle test holds exactly when an event is pending, and then shows the oldest one |
| EventRing.AcknowledgeKeepsInv | usb/xhci_usb.c:572-580 | acknowledging keeps the invariant |
| EventRing.PostKeepsInv | usb/xhci_usb.c:496-515 | a controller at most one ring ahead keeps it too |
| EventRing.StepConsumes | usb/xhci_usb.c:572-609 | one step of driver or controller consumes the oldest event, or none |
| EventRing.ConsumedInOrder | usb/xhci_usb.c:572-609 | in every run each posted event is consumed once, in order |
| EventRing.EmptyRingInv | usb/xhci_usb.c:155-181 | the zeroed ring with cycle state 1 satisfies the invariant |
| EventRing.Skipped | usb/xhci_usb.c:586-604 | a wait drops the events before the first expected one, 15 at most |
| EventRing.EventQueue.IncrementDequeue | usb/xhci_usb.c:496-515 | the do-while loop is the cursor's next place |
| EventRing.EventQueue.AcknowledgeEvent | usb/xhci_usb.c:572-580 | the ring afterwards is the acknowledged one |
| EventRing.EventQueue.Look | usb/xhci_usb.c:586-604 | one turn waits, matches the oldest pending event or drops it |
| EventRing.EventQueue.WaitForEvent | usb/xhci_usb.c:582-609 | with events arriving in any number, each portion once the ring has room for it, returns the first expected event, unacknowledged, having dropped exactly those before it; NULL exactly after 15 others |
| UsbConfig.ConfigParser.HandleInterface | usb/xhci_usb.c:902-937 | an interface descriptor changes the table as `OnInterface` says, on every input |
| UsbConfig.ConfigParser.HandleEndpoint | usb/xhci_usb.c:938-974 | the same for endpoints, with their four rejections |
| UsbConfig.ConfigParser.HandleCompanion | usb/xhci_usb.c:975-996 | the same for endpoint companions |
| UsbConfig.ConfigParser.ParseConfig | usb/xhci_usb.c:871-1014 | ends on every buffer, with the table that the walk `Parse` gives |
| UsbConfig.ParseIsFold | usb/xhci_usb.c:895-1012 | the walk over bytes is the walk over the descriptors they spell |
| UsbConfig.OthersIgnored | usb/xhci_usb.c:997-1009 | unknown or wrongly sized descriptors change nothing |
| UsbConfig.ChangesExactly | usb/xhci_usb.c:902-996 | exactly which descriptors change the table: orphans and those without room leave it alone |
| UsbConfig.EndpointFolds | usb/xhci_usb.c:938-996 | an endpoint with its companion, foreign descriptors around, adds exactly itself |
| UsbConfig.SettingFolds | usb/xhci_usb.c:930-936 | a further setting is counted, its endpoints and companions follow the others, descriptor and companions stay |
| UsbConfig.InterfaceFolds | usb/xhci_usb.c:902-996 | an interface with all its settings adds exactly its entry |
| UsbConfig.ParseUndoesSerialisation | usb/xhci_usb.c:871-1014 | for up to 8 interfaces, neighbours numbered differently, each with any number of settings and up to 16 endpoints in all of them, parsing recovers the first descriptors, the numbers of settings, the endpoints and the companions in order, whatever follows the configuration |
| UsbLimits.HandleOverruns | usb/xhci_usb.c:915-996 | one descriptor leads behind a table exactly in the four cases of `GoesBehind` |
| UsbLimits.OverrunsExactlyBehind | usb/xhci_usb.c:871-1014 | from every reachable state an index leaves its table exactly when such a descriptor follows such a state |
| UsbLimits.FoldCounts | usb/xhci_usb.c:917-968 | as long as no index has left its table, the parser's indices are the counts of interfaces and endpoints in the list |
| UsbLimits.OverrunsExactly | usb/xhci_usb.c:871-1014 | on every list of whole descriptors an index leaves its table exactly when a descriptor is too much by those counts |
| UsbLimits.ParseIsFoldOfWhole | usb/xhci_usb.c:895-1012 | on every buffer the walk is the walk over its whole descriptors; those of length 1 and one cut off by the total length change nothing |
| UsbLimits.ParseOverrunsExactly | usb/xhci_usb.c:871-1014 | on every buffer an index leaves its table exactly when a whole descriptor is too much by those counts |
| UsbLimits.NinthInterface | usb/xhci_usb.c:917-959 | a ninth interface, any foreign descriptors and an endpoint are such a list |
| FatMount.Log2 | fat/fat_boot.c:551-557 | the loop finds the exponent of every power of two |
| FatMount.RootFits | fat/fat_boot.c:526-526 | the root directory gets just as many sectors as its 32-byte entries need |
| FatMount.Mount | fat/fat_boot.c:495-557 | reserved sectors, the copies of the FAT, the FAT16 root directory and the data lie behind one another without a gap; sizes as FAT has them make a valid volume |
| FatVolume.FirstSector | fat/fat_boot.c:113-121 | the computed sector is the one reached from the data area's start, cluster 2, one cluster after the other |
| FatVolume.StandardMarkEnds | fat/fat_boot.c:90-93 | a chain that ends in an end mark of the standard ends for the loader |
| FatVolume.ConsecutiveFile | fat/fat_boot.c:113-121 | a file on the clusters 2, 3 and so on is the run of sectors from the data area's start |
| FatVolume.EntryIsInFat | fat/fat_boot.c:37-58 | the entry of cluster c is the little-endian number at byte 4 * c of the FAT, 2 * c on FAT16 |
| FatVolume.BytesOfCluster | fat/fat_boot.c:113-124 | the sector computed from a cluster holds the file's bytes at that place |
| FatVolume.EntryIndex | fat/fat_boot.c:37-58 | shift and mask find a FAT entry's sector and index |
| FatVolume.NextCluster | fat/fat_boot.c:28-62 | through the 512-byte buffer, with 512-byte sectors the FAT's entry, FAT32 or FAT16; with wider ones an entry of one block and the memory behind the buffer |
| FatVolume.WideEntryIsBehind | fat/fat_boot.c:50-53 | with 1024-byte sectors the upper half of a sector's entries is read behind the buffer |
| FatVolume.WideSectorsLieElsewhere | fat/fat_boot.c:113-124 | a sector number is a block number exactly with 512-byte sectors |
| FatReader.TransferSectors | fat/fat_boot.c:173-193 | the step always divides the sectors of a cluster |
| FatReader.ReadIntoDest | usb/ehci_usb.c:643-643 | a transfer fills whole sectors with 512-byte ones, and leaves the last byte of wider ones alone |
| FatReader.WalkToCluster | fat/fat_boot.c:88-101 | finds the chain's cluster for a sector, or the end mark right behind the chain; on every volume fails exactly when a cluster before it is an end mark to the loader |
| FatReader.HeadSize | fat/fat_boot.c:104-111 | the head's length, and what a wrapping sum makes of it |
| FatReader.ReadHead | fat/fat_boot.c:103-141 | delivers the unaligned head and stands at the next sector |
| FatReader.ReadSingle | fat/fat_boot.c:157-169 | one sector straight into the destination extends what is delivered |
| FatReader.ReadLast | fat/fat_boot.c:244-250 | the part of a sector at the end completes the range and writes nothing behind it |
| FatReader.ReadToClusterEnd | fat/fat_boot.c:143-171 | delivers single sectors up to the cluster's end, or the whole rest |
| FatReader.ReadCluster | fat/fat_boot.c:209-212 | delivers one cluster by multi-sector reads straight into the destination |
| FatReader.ReadWholeClusters | fat/fat_boot.c:195-222 | delivers all whole clusters, following the chain through the scratch buffer |
| FatReader.FollowOrGuess | fat/fat_boot.c:214-221 | inside a file the guess of a following cluster is never used |
| FatReader.ReadTail | fat/fat_boot.c:224-250 | delivers the sectors of the last cluster and the part of a sector at the end |
| FatReader.NoOverrunIff | fat/fat_boot.c:173-212 | exactly which reads leave the destination behind the range alone |
| FatReader.OverrunExample | usb/ehci_usb.c:696-697 | a 4096-byte read over EHCI that leaves 13 bytes behind the range |
| FatReader.RangesOfFilesDoNotWrap | fat/fat_boot.c:104-107 | a range that ends below 4 GiB never wraps the head sum |
| FatReader.WrapExample | xboot.c:1078-1088 | offset 64 and length 0xFFFFFFC0, which the image loader asks for after a header of size 0xFFFFFFC0 less the signature's size, wrap, and an untouched destination with a wrong first byte is not the range |
| FatReader.KeptIsNotCopied | fat/fat_boot.c:235-241 | a byte left as it was means a range not delivered, if the old bytes were wrong |
| FatReader.WideExample | fat/fat_boot.c:501-501 | 1024 bytes from the start of a file with 1024-byte sectors are a range that is not delivered |
| FatReader.HeadLoaded | fat/fat_boot.c:113-128 | at every sector size the head comes from the block the loader takes for its sector, and from behind the scratch buffer |
| FatReader.RestLoaded | fat/fat_boot.c:143-162 | so does a rest that ends inside the next sector |
| FatReader.FatReadFile | fat/fat_boot.c:73-251 | with 512-byte sectors PASS, dest[0..length) is the file's slice and the rest of dest is untouched but for the exact status wrapper bytes; with wider sectors a byte of every range with a whole sector is left as it was, and every other range holds the bytes of the blocks the loader computes; with a wrapped sum dest untouched; FAIL exactly for length 0 or beyond an end mark, on every volume; every read is recorded, of one sector or the step |
| LbaTable.CacheGrows | fat/fat_boot.c:286-293 | each scanned sector enters the table at its file position |
| LbaTable.SectorTable.ScanCluster | fat/fat_boot.c:286-293 | one cluster's sectors, until the table is full |
| LbaTable.SectorTable.Scan | fat/fat_boot.c:272-299 | the scan ends on every volume, with the table full or at the one end mark it knows |
| LbaTable.WrappedTests | fat/fat_boot.c:301-302 | the wrapped test and difference after the scan are the unwrapped ones, but for start 0xFFFFFFFF |
| LbaTable.ScanDecides | fat/fat_boot.c:300-304 | where the scan ends tells whether sector `start` was met, and that the table is right |
| LbaTable.SectorTable.Build | fat/fat_boot.c:261-310 | on every volume, FAT type and FAT content: PASS exactly when start is 0xFFFFFFFF, or at most 0x80000001 and scanned before the one end mark; then the entries are the sectors computed for the clusters visited, and the maximum is the table's end or the scan's |
| LbaTable.ScansTheFile | fat/fat_boot.c:272-298 | on a chain that ends in 0x0FFFFFFF the scan is the file, and its sectors are those `fat_read_file` uses |
| LbaTable.CachesFirmware | fat/fat_boot.c:258-310 | for a file that ends in 0x0FFFFFFF, the sector of every byte of the 64 KiB from the start on is in the table exactly if the file goes that far |
| LbaTable.OtherMarksAreClusters | fat/fat_boot.c:295-297 | any other end mark is taken for a cluster: sectors computed from it follow the file, and a start there passes |
| LbaTable.Fat16NeverEnds | fat/fat_boot.c:295-297 | on FAT16 every sector number is scanned, inside the file or not |
| LbaTable.SectorTable.LbaToSector | fat/fat_boot.c:312-317 | larger addresses clamp to the last entry |
| MontInverse.IterateIsPower | common/verify_image_sp7350_hw.c:286-288 | t_k * N = N^(2^k) modulo 2^64 |
| MontInverse.OddPower | common/verify_image_sp7350_hw.c:286-288 | N^(2^k) = 1 modulo 2^(k+2) for odd N and k >= 1 |
| MontInverse.InverseOfOdd | common/verify_image_sp7350_hw.c:279-291 | 62 iterations reach the inverse of every odd word |
| MontInverse.NoInverseOfEven | common/verify_image_sp7350_hw.c:279-291 | an even modulus has no such word |
| MontInverse.MontW | common/verify_image_sp7350_hw.c:279-291 | w * N = -1 modulo 2^64 for the whole modulus, exactly when it is odd |
| Bytes.LeNatDigit | common/verify_image_sp7350_hw.c:285-285 | byte k of a number in memory is worth 256^k |
| Sha3.UnpadPad | common/verify_image_sp7350_hw.c:247-252 | the padding can be undone |
| Sha3.PadInjective | common/verify_image_sp7350_hw.c:247-252 | no two messages share a padded form |
| Sha3.PadIsFips | common/verify_image_sp7350_hw.c:247-252 | the byte padding is the bit padding of FIPS 202, sections 5.1 and 6.1, for blocks of 1600 - 2 * 512 bits and every length |
| Sha3.AbsorbConcat | common/verify_image_sp7350_hw.c:259-274 | absorbing in parts is absorbing the whole |
| Sha3.AbsorbsBlocks | common/verify_image_sp7350_hw.c:187-191 | what is absorbed goes in by blocks of 1600 - 2 * 512 bits, in order |
| Sha3.HashIsSha3 | common/verify_image_sp7350_hw.c:239-277 | the hash is SHA3-512: the first 512 bits of the sponge of FIPS 202, section 4, from 1600 zero bits on, of the padded message |
| ImageVerify.ReverseBuf | common/verify_image_sp7350_hw.c:164-174 | the swaps reverse the region in place and touch nothing else |
| ImageVerify.PadInPlace | common/verify_image_sp7350_hw.c:247-252 | zeroes, mark and top bit write exactly the padding bytes, also when they share a byte |
| ImageVerify.BatchSize | common/verify_image_sp7350_hw.c:190-191 | each batch is a positive multiple of the rate below 2^16 |
| ImageVerify.OneBatch | common/verify_image_sp7350_hw.c:259-274 | one batch through the state at `buf` continues the absorption |
| ImageVerify.AbsorbBatches | common/verify_image_sp7350_hw.c:255-274 | the batches leave the state of absorbing the message once |
| ImageVerify.SpHash | common/verify_image_sp7350_hw.c:239-277 | the aligned buffer holds the sponge state of the original data; only padding and state are written |
| ImageVerify.ExponentIs65537 | common/verify_image_sp7350_hw.c:348-350 | the stored exponent is 65537 |
| ImageVerify.RsaEngine | common/crypto_drv.h:200-226 | one run: right with a fitting word and, where P2 is fetched, with P2 of the modulus in memory; otherwise any function of all it reads |
| ImageVerify.ExpMod | common/verify_image_sp7350_hw.c:293-314 | the engine is ready for every odd modulus when the pointer is new; with a held pointer exactly when the old word fits and P2 of the modulus is still in memory |
| ImageVerify.DecryptSignature | common/verify_image_sp7350_hw.c:346-357 | leaves the reversed digest at dst, P2 behind it and the other regions as laid out |
| ImageVerify.HashedSlices | common/verify_image_sp7350_hw.c:247-252 | hashing leaves everything between padding and state alone |
| ImageVerify.Finish | common/verify_image_sp7350_hw.c:359-360 | the hash is that of the original data and the decrypted digest survives it |
| ImageVerify.Verify | common/verify_image_sp7350_hw.c:319-363 | when the engine is ready, the verdict is 0 exactly when the reversed low 64 bytes of sig^65537 mod N are the SHA3-512 of the original data, otherwise it is about what the engine leaves; afterwards the hash state lies in the area of P2 |
| ImageVerify.ColdPointerSuffices | common/verify_image_sp7350_hw.c:300-305 | with a new modulus pointer the engine is ready exactly for odd moduli |
| ImageVerify.PlainDigestIs | common/verify_image_sp7350_hw.c:357-363 | the digest in a signature, read big-endian, is the low 512 bits of sig^65537 mod N |
| ImageVerify.GenuineImage | common/verify_image_sp7350_hw.c:319-363 | for data with 2048 bits of signature and 2048 of odd modulus behind them, and a new pointer, what is tested is that those 512 bits are the SHA3-512 of the data |
| ImageVerify.NotReadyIsUndetermined | common/crypto_drv.h:200-226 | if the engine is not ready, engines that agree wherever they are ready leave the verdict open: any digest can be what the hash is compared with |
| ImageVerify.NotReadyAgain | common/verify_image_sp7350_hw.c:306-308 | after a verification the engine is not ready for an image at the same place whose P2 the hash has destroyed |
| ImageVerify.VerifyTwice | common/verify_image_sp7350_hw.c:319-363 | of two images of the same data length verified at the same address, the second meets an engine that is not ready, unless the hash state happens to be P2; its verdict then compares the hash with what the engine leaves, given its signature, its modulus and the first hash state |
| ImageVerify.DestroyedExample | common/verify_image_sp7350_hw.c:241-245 | for every hash function P2 of the modulus 1 is destroyed exactly if the hash does not end in the zero state |
| BootBlock.SuccessMeans | xboot.c:1598-1668 | success means the data of successive accepted blocks, every block between them rejected when looked at, at most the allowed number of them |
| BootBlock.ExplainedSucceeds | xboot.c:1598-1668 | conversely, when some blocks and data fit that description, the read succeeds with exactly them |
| BootBlock.MarksDecide | xboot.c:1608-1655 | blocks used have marks 0xFF on their first page, and on the second if it is read; a block passed over has another mark on one of the two |
| BootBlock.PagesDistinct | xboot.c:1604-1604 | different blocks and pages are different pages of the flash |
| BootBlock.GoodFlashIsRun | xboot.c:1598-1668 | where no page is marked and none fails, the image is the run of pages from the first block on |
| BootBlock.ReadBlock | xboot.c:1606-1667 | one block: rejected exactly by its marks with its page-0 data cancelled, failed exactly by an unreadable page, else its pages appended |
| BootBlock.BlocksSuffice | xboot.c:1596-1596 | the rounded-up block count holds the whole image unless the rounding wraps |
| BootBlock.StepBlock | xboot.c:1598-1668 | one turn of the block loop keeps to the course of `ReadFrom` |
| BootBlock.ReadBlocks | xboot.c:1598-1671 | the loop ends although `i` goes back, never runs out, and gives the outcome of `ReadFrom` |
| BootBlock.BblkRead | xboot.c:1581-1672 | 0 means dst starts with that data; the last return is reached exactly for length 0 or a wrapping round-up |
| ImageSum.LastWord | lib/image.c:28-33 | the bytes behind the last whole word add the word that zero padding makes of them |
| ImageSum.Sum32 | lib/image.c:6-36 | the sum of the little-endian words of the zero-padded data, modulo 2^32, for every length for which it ends |
| ImageSum.GuardStops | lib/image.c:15-15 | the word loop's guard turns false exactly for lengths below 0xFFFFFFFC |
| ImageSum.WordSumDiffers | lib/image.c:15-23 | a change of one word changes the sum |
| ImageSum.WordSumIsNumber | lib/image.c:15-23 | the words' sum and the number the data holds agree modulo 2^32 - 1 |
| ImageSum.OneWordChangeShows | lib/image.c:57-63 | every change confined to one aligned word changes the checksum |
| ImageSum.Be32IsBeNat | include/image.h:53-57 | a field of the header is the number that its bytes hold, big-endian |
| ImageSum.FieldsOfHeader | include/image.h:15-28 | where a stored header has its magic, sums, size and name |
| ImageSum.HeaderSumIs | lib/image.c:42-55 | the stored sum has to be that of the header with the field 0 |
| ImageSum.AcceptedIffSealed | lib/image.c:42-55 | a header sealed with the byte-swapped sum of itself is accepted, and no other header is |
| ImageSum.CheckHcrc | lib/image.c:42-55 | accepts exactly when the blanked copy's sum is the stored one |
| ImageSum.CheckDcrc | lib/image.c:57-63 | accepts exactly when the data's sum is the stored one |
| EmmcScan.LoadImage | xboot.c:1312-1381 | succeeds exactly when the device's content is a good header or image, whatever memory held before, and then that image is in memory |
| EmmcScan.LoadRest | xboot.c:1362-1380 | the second read and the data check, with the error path of a failed read |
| EmmcScan.HeaderHoldsIff | xboot.c:1336-1349 | the checks ask exactly for the magic number, a name that begins with uboot, and the sum |
| EmmcScan.ImageHoldsIff | xboot.c:1336-1380 | the checks on an image ask that, and that the stored data sum is that of the data |
| EmmcScan.ImageIsRun | xboot.c:1362-1373 | what is loaded is the run of the device's bytes from the partition's start, as far as header, data and signature go |
| EmmcScan.SelectedUnique | xboot.c:1513-1519 | at most one partition is to be booted |
| EmmcScan.SelectUboot | xboot.c:1520-1557 | succeeds exactly when the first good uboot2 behind the first good header, or else uboot1, is good; that image is then in memory and holds its sums |
| EmmcScan.NothingSelected | xboot.c:1546-1557 | when the fallback fails too, no partition was to be booted |
| EhciTransfer.SetPointers | usb/ehci_usb.c:702-724 | followed as section 3.5.4 of the EHCI specification says, the pointers map byte k to addr + k; no pointer beyond the last page is written |
| EhciTransfer.InPipe.RunPackets | usb/ehci_usb.c:866-928 | a transfer takes packets up to its length or a short one, flipping the device's toggle once each |
| EhciTransfer.InPipe.UsbTransfer | usb/ehci_usb.c:694-809 | the 13 bytes added, one software flip |
| EhciTransfer.InPipe.ReadStages | usb/ehci_usb.c:891-928 | in sync after a read exactly for a count of 0, 1 or an even number |
| EhciTransfer.RunReads | usb/ehci_usb.c:625-668 | a run of reads stays in sync exactly when every count is such |
| EhciTransfer.AllTaken | usb/ehci_usb.c:696-697 | data and status wrapper together are one packet more than the sectors |
| EhciReads.SpillIsWhatIsAdded | usb/ehci_usb.c:696-697 | the bytes a read leaves behind its sectors are those the transfer adds to its length |
| FatVolume.Drive.Read | usb/ehci_usb.c:625-668 | one read is recorded and, over EHCI, its data and status stages are run with the toggles in step before and after |
| EhciReads.StepKeepsSync | fat/fat_boot.c:173-193 | the step of the FAT reader on a USB reader is a count that keeps the toggles in step |
| EhciReads.ReadOverEhci | fat/fat_boot.c:73-251 | a file is delivered over EHCI while every read runs its transfers on the pipe, each with the toggles in step |
| EhciReads.LoaderFitsPages | usb/ehci_usb.c:702-724 | every such read fits the five page pointers, wherever its buffer starts |
| OtpFrame.Checksum | otp/mon_rw_otp.c:128-138 | the exclusive or of all bytes |
| OtpFrame.ChecksumIsParity | otp/mon_rw_otp.c:128-138 | bit k of the checksum is the parity of the bytes' bits k |
| OtpFrame.WritePackage | otp/mon_rw_otp.c:216-230 | what is sent is the frame of the payload |
| OtpFrame.FrameShape | otp/mon_rw_otp.c:216-230 | 0xFF, 0xFE, event, command, little-endian length, payload and checksum are at their places |
| OtpFrame.ReceiveByte | otp/mon_rw_otp.c:158-202 | one byte moves the store index inside the buffer and is done exactly when the frame is complete |
| OtpFrame.ReceivePackage | otp/mon_rw_otp.c:140-214 | on every byte stream the result is that of `Listen`; without time-out the length is the number of bytes stored and fits the buffer |
| OtpFrame.ListenConcat | otp/mon_rw_otp.c:152-210 | listening in parts is listening to the whole |
| OtpFrame.FrameIsHeard | otp/mon_rw_otp.c:152-210 | an idle receiver delivers a frame as it is, whatever follows |
| OtpFrame.NoiseIsIgnored | otp/mon_rw_otp.c:190-195 | noise without 0xFF leaves the receiver idle |
| OtpFrame.ReceivesWhatWasSent | otp/mon_rw_otp.c:140-230 | behind such noise every payload's frame is received as sent, passes the checksum test and yields event, command and payload |
| OtpFrame.LoneStartByteLosesFrame | otp/mon_rw_otp.c:158-195 | a lone 0xFF in front of a frame makes the receiver lose the frame's start, and all of it if no other 0xFF is inside |
| OtpFrame.DeliversOnlyFrames | otp/mon_rw_otp.c:140-214 | whatever is delivered, from any stream, has start bytes, its own length and fits the buffer |
| OtpFrame.OneByteErrorShows | otp/mon_rw_otp.c:277-288 | a corrupted byte outside the length field always fails the test |

## Left out

- TransferRing.ProducerRing.QueueTrb: the four words of a TRB are one write here; the C code writes the word with the cycle bit last.
- RingProtocol.DequeuedExactlyWhatWasQueued: a TD starts only when all of it fits beside the outstanding TRBs, which the C code leaves to its callers.
- BulkTd.BulkTx: the TD size in a TRB's third word and transfers of 2 GB and more are not modelled; event handling after the doorbell neither.
- BulkTd.QueueNormalTrb: the TD size in the third word is left out.
- BulkTd.ControlTx: the remainder bits of the length word and the event handling are left out.
- EventRing.EventQueue.WaitForEvent: a wait that is never answered spins for ever in the C code and is not modelled.
- UsbConfig.ParseUndoesSerialisation: configurations beyond 8 interfaces or 16 endpoints are outside the round trip; `UsbLimits.OverrunsExactly` says when the C index leaves its table, and what is written there is not modelled.
- UsbConfig.ConfigParser.ParseConfig: the buffer holds as many bytes as its own total length says; the C code has no length to test that against.
- FatReader.FatReadFile: disk reads succeed, since the C code ignores their result; the start sector kept for a later stage is not modelled. Chains have no cluster number from 0x0FFFF000 on, in whose place the loader may guess the next cluster, nor one that is an end mark to it. Sector sizes are powers of two from 512 up and clusters powers of two of sectors, as FAT has them. With wider sectors the content of a range with whole sectors is stated only as far as a byte it does not get.
- FatReader.ReadToClusterEnd: the copy of the last part of a sector is a byte loop instead of `memcpy`.
- ImageVerify.Verify: Keccak-f is a parameter; the RSA engine is given by its result when it is ready, and is any function of what it reads otherwise; its number P, the optional AES decryption and the alignment the engines ask for are not modelled.
- BootBlock.BblkRead: pages are full length, block numbers are not truncated to 32 bits, and the block last read is not reported; `bblk_find_image` is left out.
- EmmcScan.LoadImage: only with nothing loaded before; image sizes are read as the signed int of the C code.
- EmmcScan.SelectUboot: no partition starts at sector 0xFFFFFFFF, which the C code uses for "none"; starts are those left after truncation to 32 bits.
- EhciTransfer.InPipe.ReadStages: the OUT pipe, stalls, the retry when the status wrapper did not arrive, and the 15-bit length field of the TD are not modelled.
- EhciTransfer.SetPointers: transfers that end above the 32-bit address space are excluded.
- ImageSum.Sum32: lengths from 0xFFFFFFFC up, on which the C loop does not end, are excluded.
- ImageSum.CheckDcrc: data sizes from 0xFFFFFFFC up are excluded for the same reason.
- OtpFrame.ReceivePackage: UART timing is a flag per turn; the commands behind the framing and the OTP access are not modelled.
- Register programming, clocks, pin multiplexing, PHY and DRAM initialisation, and delays: no algorithm behind them.
- SD and eMMC command sequencing, the NAND controllers and I2C: they depend on hardware state and time-outs.
- xHCI contexts, endpoint intervals and hub enumeration.
- The software signature path, which calls ROM functions that are not part of this model.
- Directory search on FAT volumes, printing and the monitor shell.
