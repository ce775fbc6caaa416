# Generic Bootloader: a verified model

A Dafny model of the parts of the Generic Bootloader whose correctness is hardest to see from the code: the
A/B/R slot library, the fastboot session, the EFI memory attributes table, ELF relocation, the network transmit
pool, the boot parameters, the cooperative executors, the libc helpers and the device tree registry.
`dafny verify dfyconfig.toml` covers the whole project.

The model keeps the form of the source. What the source updates in place is a class with `modifies` clauses, or a
method over an array; what it computes is a function. Every such method is proved against a function of the old
state, and the promises are theorems about those functions, over every input and every run. What a function computes
is stated a second time without it: by its inverse, by the bytes it reads, or by what later operations report.

| file | what it models |
|---|---|
| `Basics.dfy` | options, reversal, concatenation and writing over a stretch, for all the others |
| `Crc.dfy`, `Iteration.dfy` | the MSB-first CRC of the A/B/R metadata, the reflected CRC-32, and folds in general |
| `AbrMetadata.dfy`, `Abr.dfy` | the 32 bytes of metadata, and every A/B/R operation as a function of storage and I/O faults |
| `AbrRuns.dfy`, `AbrTheorems.dfy` | the operations reduced to what the storage says, and the theorems over whole runs |
| `AbrEffects.dfy` | what one operation stores, as the replies of the next ones tell it |
| `AbrOps.dfy` | the operations on a storage object, statement by statement |
| `Utf8.dfy`, `FastbootText.dfy`, `FastbootRoute.dfy` | the text of commands, and the calls they stand for |
| `Fastboot.dfy`, `TcpFraming.dfy` | the session over a failing transport, packets over TCP |
| `Emat.dfy` | cutting the runtime regions of the memory map along the firmware's attribute table |
| `TxPool.dfy` | who owns a transmit frame, as a state machine and as the device's methods |
| `Words.dfy`, `ByteOrder.dfy` | memory as bytes and words |
| `Relocation.dfy`, `DynamicSection.dfy`, `ElfImage.dfy` | one relocation table, in place; the dynamic section and both tables; their bytes |
| `Commandline.dfy`, `CommandlineOps.dfy` | the command line parser and builder |
| `Bootconfig.dfy`, `BootconfigOps.dfy` | the bootconfig section and its two writers, in Rust and in C |
| `Executor.dfy` | the cyclic executor, the vector of futures, `join`, `select`, `YieldCounter` |
| `Numbers.dfy`, `NumberOps.dfy`, `NumbersC11.dfy` | printing numbers, `strtoul`, and `strtoul` as C11 has it |
| `Allocators.dfy` | `gbl_malloc` on top of the aligned EFI allocator |
| `DeviceTree.dfy` | the registry and its scratch buffer |

Backends, firmware, transports and storage may do anything their interfaces allow: their answers are parameters,
or chosen arbitrarily inside a method (`:= *`, `:|`). Futures are counters of the polls they still need.

Where a promise does not hold of the code as it is, the exact condition under which it does is proved instead, and a
second member gives an input on which it fails:

- `AbrTheorems.LastMarkedActiveSticks`, `MarkIsLost`: a read fault other than `Other` or `UnsupportedVersion` makes the
  program go on with default metadata and save it, which loses a mark of slot B.
- `Emat.AttributesKeptIff`, `GapLosesProtection`: a gap before a table entry consumes the entry, so its attributes are
  lost, and those of all entries behind it.
- `Relocation.RelIdempotentIff`, `RelMovesAgain`: a second REL pass moves everything again.
- `Commandline.ExtendsIff`, `UncleanFails`: only a line without a stray `=` and without an open quote can be extended.
- `Bootconfig.WritersAgreeIff`, `MagicIsLost`: in C, parameters that end in the magic pass for a trailer, and what they
  hold is cut off later; and appending nothing to a raw section adds no trailer.
- `BootconfigOps.BootConfigBuilder.AddWith`, `ReaderSpoils`: the reader writes over the trailer, so a failing reader
  spares it only by writing the same bytes; and `Add` is all or nothing only below 4 GiB.
- `Allocators.StartIff`, `WrongStart`: above alignment 8 the block that `gbl_free` gives back depends on the eight bytes
  behind it.
- `Allocators.Heap.GblMalloc`: at alignment 0, and for an empty payload at the very end of the address space, the block
  is lost.
- `Numbers.ScratchBound`: in base 8 not every 64-bit number fits the printer's scratch buffer.
- `NumbersC11.MatchesC11Iff`, `Deviations`: an empty text panics in bases 0 and 16; a vertical tab in front, white
  space or a sign without digits behind it, and a prefix `0x` without digits are taken otherwise than in section 7.22.1.4 of C11.

## Model

| member | source | states |
|---|---|---|
| `Crc.ComputeCrc32` | gbl/libabr/src/lib.rs:713-726 | the program's loops over bytes and bits compute the standard CRC-32 of every input |
| `Crc.ReverseByte` | gbl/libabr/src/lib.rs:698-704 | the nibble table reverses the bits of every byte |
| `Crc.ReverseWord` | gbl/libabr/src/lib.rs:706-710 | reversing four bytes and their order mirrors the word |
| `Crc.ProgramCrcIsCrc` | gbl/libabr/src/lib.rs:698-726 | for all inputs the MSB-first CRC equals the standard reflected CRC-32 with polynomial 0xEDB88320 |
| `Crc.CheckValue` | gbl/libabr/src/lib.rs:713-726 | the CRC of the text "a" is 0xE8B7BE43 |
| `Crc.BurstChangesCrc` | gbl/libabr/src/lib.rs:713-726 | changing any up to four neighbouring bytes of an input of any length always changes the CRC |
| `AbrMetadata.NormalizeIsProjection` | gbl/libabr/src/lib.rs:235-251 | what normalising gives is normal, and the normal slots are exactly its fixed points |
| `AbrMetadata.NormalizeKeepsBootability` | gbl/libabr/src/lib.rs:216-251 | normalising does not change whether a slot can boot |
| `AbrMetadata.NormalizedFields` | gbl/libabr/src/lib.rs:235-251 | a slot of priority 0 has neither tries nor mark; one with tries and mark gets seven tries and loses the mark; any other keeps its mark and at most seven of its tries |
| `AbrMetadata.DeserializeSerialize` | gbl/libabr/src/lib.rs:301-353 | reading back serialised metadata gives the same metadata |
| `AbrMetadata.SerializeDeserialize` | gbl/libabr/src/lib.rs:301-353 | serialising what was read from accepted bytes gives the same bytes |
| `AbrMetadata.FieldBytes` | gbl/libabr/src/lib.rs:186-275 | each field is at its byte of the 32, and the checksum at the end, most significant byte first |
| `AbrMetadata.DefaultBytes` | gbl/libabr/src/lib.rs:399-420 | the first 17 bytes of default metadata, literally |
| `AbrMetadata.DamageIsDetected` | gbl/libabr/src/lib.rs:301-337 | after any change within four neighbouring covered bytes, accepted metadata is refused |
| `Abr.LoadIsNormal` | gbl/libabr/src/lib.rs:433-455 | whatever the storage holds, loaded slots are in normal form |
| `AbrRuns.ExecRefinesNext` | gbl/libabr/src/lib.rs:433-695 | every operation, with any I/O fault, acts on what the storage says as one small transition, and leaves the old bytes or valid metadata in normal form |
| `AbrTheorems.RunLeavesNormalForm` | gbl/libabr/src/lib.rs:235-251 | every run of operations leaves the storage as it was or holding valid metadata that is a fixed point of normalising |
| `AbrTheorems.ChargeNeverUnderflows` | gbl/libabr/src/lib.rs:518-541 | the unwrapped decrement of the tries never fails, from any stored bytes |
| `AbrTheorems.AtMostOneSuccessEver` | gbl/libabr/src/lib.rs:518-541 | no run ever marks two slots successful unless the storage started with two |
| `AbrTheorems.BootLeavesOneSuccess` | gbl/libabr/src/lib.rs:518-541 | one working boot removes a second mark that was there |
| `AbrTheorems.LastMarkedActiveSticks` | gbl/libabr/src/lib.rs:550-582 | after a successful `mark_slot_active`, over any run without another, the slot is reported as last marked active if and only if it is A or no step saved default metadata |
| `AbrTheorems.MarkIsLost` | gbl/libabr/src/lib.rs:433-455 | after a successful mark of slot B, one boot whose read fails with a device error loses the mark |
| `AbrTheorems.OneShotStep` | gbl/libabr/src/lib.rs:494-508 | a boot that honours a recovery request gives R, burns no tries and clears exactly that bit; any other boot leaves the request pending |
| `AbrTheorems.RequestStep` | gbl/libabr/src/lib.rs:480-695 | after any operation under any faults a pending request is still pending if and only if the operation did not honour it, revoke it, or save default metadata |
| `AbrTheorems.RequestHonouredOnce` | gbl/libabr/src/lib.rs:480-695 | over any run of operations without another request, under any faults, a request is pending until the first step that strikes it, and is honoured exactly once if that step is a boot that finds it, and otherwise never |
| `AbrTheorems.RequestIsPending` | gbl/libabr/src/lib.rs:660-668 | a recovery request reported as stored is pending |
| `AbrTheorems.DoneMeansStored` | gbl/libabr/src/lib.rs:550-695 | success reported by any operation that edits the metadata, under any faults, means that the storage holds its goal |
| `AbrTheorems.BootConvergence` | gbl/libabr/src/lib.rs:480-544 | from any 32 bytes with no request pending, the reply of the n-th working boot is given for every n: R for an unsupported version, a good slot for ever, else the attempts of one slot, then of the other, at most 14, then R for ever |
| `AbrTheorems.LazyExecIsEager` | gbl/libabr/src/lib.rs:465-474 | with working I/O an operation leaves the bytes that always writing would leave |
| `AbrTheorems.LazyRunIsEager` | gbl/libabr/src/lib.rs:465-474 | the same over every run |
| `AbrEffects.LookIsBoot` | gbl/libabr/src/lib.rs:480-544 | without a request, `get_boot_slot(false)` gives what `get_boot_slot(true)` would give, whatever the writes do, and touches nothing |
| `AbrEffects.LookIgnoresRequest` | gbl/libabr/src/lib.rs:494-544 | with a request pending, it gives what booting gives once the request is revoked, and touches nothing |
| `AbrEffects.IgnoredRequestBoots` | gbl/libabr/src/lib.rs:494-544 | a request that cannot be struck from storage is ignored by the boot |
| `AbrEffects.BootsForetold` | gbl/libabr/src/lib.rs:480-654 | what `get_slot_info` reports of A and B determines the reply of the n-th boot for every n; R is always good, and active exactly when it is booted |
| `AbrEffects.LastMarkedIsFirst` | gbl/libabr/src/lib.rs:573-582 | where both slots can be booted, the slot reported as last marked active is the one booted; a tie goes to A |
| `AbrEffects.MarkedActive` | gbl/libabr/src/lib.rs:550-567 | after a reported `mark_slot_active` the slot is reported active with seven tries and the other one as before; the next seven boots give it, then the other one gets its tries, then R |
| `AbrEffects.MarkedSuccessful` | gbl/libabr/src/lib.rs:602-630 | after a reported `mark_slot_successful` the slot is reported successful and, if it was active, booted for ever; the other one is not marked, and bootable if and only if it was |
| `AbrEffects.SuccessfulRefusedIff` | gbl/libabr/src/lib.rs:602-613 | with a working write, the mark is refused exactly for R and for slots reported as unbootable |
| `AbrEffects.MarkedUnbootable` | gbl/libabr/src/lib.rs:588-596 | after a reported `mark_slot_unbootable` the slot is reported unbootable and no boot gives it; the other one, and the slot last marked active, are as before |
| `AbrEffects.BootloaderRequested` | gbl/libabr/src/lib.rs:670-675 | the next take of the bootloader flag gives what was set; recovery request and slots are as before |
| `AbrEffects.RecoveryRequested` | gbl/libabr/src/lib.rs:660-665 | recovery is pending if and only if it was enabled; bootloader flag and slots are as before |
| `AbrEffects.BootloaderTaken` | gbl/libabr/src/lib.rs:689-695 | the bootloader flag is gone after it was taken; recovery request and slots are as before |
| `AbrEffects.FlagsTaken` | gbl/libabr/src/lib.rs:680-686 | bit 0 tells the recovery request and bit 1 the bootloader flag, and neither is left; the slots are as before |
| `AbrEffects.FailedEdit` | gbl/libabr/src/lib.rs:550-695 | a failing operation leaves the storage as it was; unless it rejects slot or storage, its error is that of the write |
| `AbrEffects.NewDevice` | gbl/libabr/src/lib.rs:399-455 | storage without valid metadata boots A seven times, B seven times, and then R |
| `AbrOps.Storage.Read` | gbl/libabr/src/lib.rs:39-50 | a read gives the 32 bytes or the fault of the moment |
| `AbrOps.Storage.Write` | gbl/libabr/src/lib.rs:39-50 | a write stores all 32 bytes or fails and stores nothing |
| `AbrOps.ReadMetadata` | gbl/libabr/src/lib.rs:301-337 | reads and checks magic, checksum and version as `Deserialize` does |
| `AbrOps.Load` | gbl/libabr/src/lib.rs:433-455 | loads as `LoadSpec`, with the original kept for comparison |
| `AbrOps.Save` | gbl/libabr/src/lib.rs:458-462 | writes the serialised metadata, or reports the fault |
| `AbrOps.SaveIfChanged` | gbl/libabr/src/lib.rs:465-474 | writes only when the metadata differs from the original |
| `AbrOps.UpdateForBoot` | gbl/libabr/src/lib.rs:509-541 | charges the attempt and forgets other success marks as `AfterBoot` |
| `AbrOps.EditActive` | gbl/libabr/src/lib.rs:550-567 | the statements between load and save leave the goal of `mark_slot_active` |
| `AbrOps.EditSuccessful` | gbl/libabr/src/lib.rs:602-630 | the statements between load and save leave the goal of `mark_slot_successful` |
| `AbrOps.RunGetBootSlot` | gbl/libabr/src/lib.rs:480-544 | reply and storage are those of `Exec` for `get_boot_slot` |
| `AbrOps.RunMarkSlotActive` | gbl/libabr/src/lib.rs:550-567 | reply and storage are those of `Exec` for `mark_slot_active` |
| `AbrOps.RunMarkSlotUnbootable` | gbl/libabr/src/lib.rs:588-596 | reply and storage are those of `Exec` for `mark_slot_unbootable` |
| `AbrOps.RunMarkSlotSuccessful` | gbl/libabr/src/lib.rs:602-630 | reply and storage are those of `Exec` for `mark_slot_successful` |
| `AbrOps.RunGetSlotLastMarkedActive` | gbl/libabr/src/lib.rs:573-582 | reply and storage are those of `Exec` for `get_slot_last_marked_active` |
| `AbrOps.RunGetSlotInfo` | gbl/libabr/src/lib.rs:636-654 | reply and storage are those of `Exec` for `get_slot_info` |
| `AbrOps.RunSetOneShotRecovery` | gbl/libabr/src/lib.rs:660-665 | reply and storage are those of `Exec` for `set_one_shot_recovery` |
| `AbrOps.RunSetOneShotBootloader` | gbl/libabr/src/lib.rs:670-675 | reply and storage are those of `Exec` for `set_one_shot_bootloader` |
| `AbrOps.RunGetAndClearOneShotFlag` | gbl/libabr/src/lib.rs:680-686 | reply and storage are those of `Exec` for `get_and_clear_one_shot_flag` |
| `AbrOps.RunGetAndClearOneShotBootloader` | gbl/libabr/src/lib.rs:689-695 | reply and storage are those of `Exec` for `get_and_clear_one_shot_bootloader` |
| `FastbootText.FetchRoundTrip` | gbl/libfastboot/src/lib.rs:844-872 | any partition name, colons included, with any valid offset and size, comes back out of a fetch command |
| `FastbootText.SplitIff` | gbl/libfastboot/src/lib.rs:963-967 | the parts of a command are those without a colon that make it up when joined by colons |
| `FastbootText.HexToU64Iff` | gbl/libfastboot/src/lib.rs:1022-1024 | a text is read as v if and only if it is digits, after `0x`, a plus sign, both or neither, that denote v in base 16, and v fits 64 bits |
| `FastbootText.HexReadsPrinted` | gbl/libfastboot/src/lib.rs:1022-1024 | a number printed in hexadecimal, with any leading zeros, with `0x` or without, is read back |
| `Utf8.ValidIff` | gbl/libfastboot/src/lib.rs:961-966 | the bytes accepted as a command are exactly the UTF-8 encodings of sequences of Unicode scalar values |
| `FastbootRoute.RouteIff` | gbl/libfastboot/src/lib.rs:967-991 | a text is routed to a call if and only if it is one of the texts of that call, which are listed without parsing; so to none if and only if it is no call's text |
| `FastbootRoute.RouteInvertsText` | gbl/libfastboot/src/lib.rs:967-991 | every call whose arguments can be told apart in a text is reached by its text |
| `FastbootRoute.FetchIff` | gbl/libfastboot/src/lib.rs:844-865 | a fetch command is parsed to a range if and only if it is `fetch:`, the partition, offset and size in hexadecimal, joined by colons |
| `FastbootRoute.DownloadSizeIff` | gbl/libfastboot/src/lib.rs:1031-1052 | the size of a download is the text between the first two colons, in hexadecimal |
| `FastbootRoute.LeavingIff` | gbl/libfastboot/src/lib.rs:968-976 | the session ends after the calls boot and continue, and only boot and reboot may send an OKAY of their own |
| `Fastboot.Transport.ReceiveInto` | gbl/libfastboot/src/lib.rs:98-115 | a packet lands where it was asked for and nothing before it changes |
| `Fastboot.Responder.SendMessage` | gbl/libfastboot/src/lib.rs:539-561 | sends unless an earlier send failed; after a failure nothing goes out any more |
| `Fastboot.Responder.InitiateUpload` | gbl/libfastboot/src/lib.rs:619-626 | announces the size and sets what remains, or neither |
| `Fastboot.Responder.Upload` | gbl/libfastboot/src/lib.rs:628-639 | refuses more than was announced; what remains shrinks by exactly what was accepted |
| `Fastboot.HandleWithInfo` | gbl/libfastboot/src/lib.rs:792-825 | `flash`, `erase`, `getvar`, `set_active`, `oem`, `continue`: the backend is called once, with the right arguments, and then exactly one reply, OKAY or FAIL as the backend returned; bad arguments are refused without a call |
| `Fastboot.HandleWithOkay` | gbl/libfastboot/src/lib.rs:875-896 | `boot` and `reboot` end in a reply of their own, after at most one OKAY of the backend; a reboot that returns is a FAIL |
| `Fastboot.HandleUpload` | gbl/libfastboot/src/lib.rs:828-872 | an upload or fetch is answered, as the backend returned, only if everything announced was sent |
| `Fastboot.HandleDownload` | gbl/libfastboot/src/lib.rs:747-789 | a size that fits is announced, and the data handed over if and only if exactly so much arrives; any other size is refused; an OKAY means that the backend got the first n bytes of the buffer |
| `Fastboot.ReceiveAll` | gbl/libfastboot/src/lib.rs:766-784 | on success the buffer holds the concatenation of the chunks received, exactly as many bytes as announced |
| `Fastboot.HandleGetVar` | gbl/libfastboot/src/lib.rs:694-718 | `max-download-size` is answered at once; other variables go to the backend with their arguments |
| `Fastboot.HandleGetVarAll` | gbl/libfastboot/src/lib.rs:721-744 | the built-in variable comes first, and if it cannot be sent the backend is not asked |
| `Fastboot.Dispatch` | gbl/libfastboot/src/lib.rs:967-991 | every command leads to the call of `Route`, or to none, and is answered; what is answered without a call is given literally |
| `Fastboot.ProcessNextCommand` | gbl/libfastboot/src/lib.rs:952-993 | a non-empty command that succeeds emitted exactly one OKAY or FAIL, as its last packet and as the backend returned (boot and reboot: at most one OKAY more), made exactly the call that its text spells, and stops the session if and only if that is boot or continue; it fails only if the transport did, an upload was left unfinished or a packet size overflows |
| `Fastboot.Run` | gbl/libfastboot/src/lib.rs:1001-1007 | in a session every command but the last was so answered and was not boot or continue; success means the last one was, and failure has one of those reasons |
| `Fastboot.UploadConservation` | gbl/libfastboot/src/lib.rs:619-639 | an answered upload or fetch that announced n sent exactly n payload bytes |
| `Fastboot.DownloadConservation` | gbl/libfastboot/src/lib.rs:747-789 | a download handed over is the concatenation of the chunks received until then, of the announced size |
| `Fastboot.OneReplyEach` | gbl/libfastboot/src/lib.rs:952-1007 | a session has as many replies as non-empty commands, boot and reboot excepted |
| `TcpFraming.DecodeInvertsEncode` | gbl/libfastboot/src/lib.rs:149-167 | decoding any encoded packet sequence gives back the sequence, if and only if every packet fits the receiver's buffer |
| `TcpFraming.PacketLayout` | gbl/libfastboot/src/lib.rs:149-167 | eight bytes of length, most significant first, and then the packet |
| `TcpFraming.NewAndHandshake` | gbl/libfastboot/src/lib.rs:138-146 | succeeds, on a connection that works, if and only if the other side sent the handshake, and consumes nothing else |
| `TcpFraming.SendPacket` | gbl/libfastboot/src/lib.rs:163-166 | a packet sent is its encoding on the wire; sending fails only if the connection does |
| `TcpFraming.ReceivePacket` | gbl/libfastboot/src/lib.rs:150-161 | a packet received is the first one on the wire, and exactly it is taken off; on a connection that works it is received if and only if it is complete and fits |
| `Emat.CutTiles` | gbl/efi/src/fuchsia_boot.rs:179-229 | the records for a region tile it, with neither gap nor overlap |
| `Emat.TilesConservePages` | gbl/efi/src/fuchsia_boot.rs:179-229 | tiles have as many pages as the region |
| `Emat.NoGapVerbatim` | gbl/efi/src/fuchsia_boot.rs:179-229 | without gaps the records are the table's entries verbatim and one tail |
| `Emat.RecordOf` | gbl/efi/src/fuchsia_boot.rs:184-226 | record by record: each has the type of its table entry and is that entry, or fills the gap before it with no attribute but RUNTIME; the last one has the type of the region |
| `Emat.RuntimeIsTopBit` | gbl/efi/src/fuchsia_boot.rs:161-164 | the regions cut up are those whose top attribute bit is set |
| `Emat.AttributesKeptIff` | gbl/efi/src/fuchsia_boot.rs:184-215 | every address keeps the attributes of its table entry if and only if all entries from the first gap on have none but RUNTIME |
| `Emat.GapLosesProtection` | gbl/efi/src/fuchsia_boot.rs:184-202 | a concrete table whose write protection is lost behind a gap |
| `Emat.InsideIsStretch` | gbl/efi/src/fuchsia_boot.rs:179-183 | skipping and taking picks exactly the entries that start in the region |
| `Emat.InsideFits` | gbl/efi/src/fuchsia_boot.rs:170-183 | of a conforming table, the entries picked are inside the region, and none is missed |
| `Emat.RegionTiled` | gbl/efi/src/fuchsia_boot.rs:161-229 | for a conforming memory map and table the records of every region tile it with its page count conserved |
| `Emat.RuntimePagesConserved` | gbl/efi/src/fuchsia_boot.rs:161-230 | all records together have the pages of all runtime regions |
| `Emat.CutEntry` | gbl/efi/src/fuchsia_boot.rs:184-215 | one entry writes one record and moves the base to where the record ends |
| `Emat.CutRegion` | gbl/efi/src/fuchsia_boot.rs:161-229 | the loop over the entries writes the records of `Cut`, or stops when the payload is full |
| `Emat.Generate` | gbl/efi/src/fuchsia_boot.rs:147-248 | success if and only if all records fit, and then the header counts exactly the records written; too small for the header, or too small for the records, are told apart |
| `TxPool.StepIsSafe` | gbl/efi/src/net.rs:191-267 | no step hands out a frame for writing that the firmware owns, and what it owns lies among the first `curr` frames |
| `TxPool.RunIsSafe` | gbl/efi/src/net.rs:191-267 | in every run of takes, recycles, failed transmits, foreign recycles, hijacked frames and resets, no frame is handed out for writing while the firmware owns it |
| `TxPool.CurrIsDraws` | gbl/efi/src/net.rs:191-205 | over every run, the pool is drawn on once for every send for which no frame of it came back since the last reset, and by nothing else |
| `TxPool.PoolLasts` | gbl/efi/src/net.rs:191-248 | while every frame is accepted and one comes back whenever the firmware holds k of them, no number of sends uses up a pool of k frames or more |
| `TxPool.Device.TryGetBuffer` | gbl/efi/src/net.rs:191-205 | a pool frame that comes back is given and the pool not drawn on; otherwise the next frame of the pool is; nothing is given if and only if neither is possible; each is a step of the state machine |
| `TxPool.Device.TakenIsSafe` | gbl/efi/src/net.rs:191-205 | a frame taken is one of the first `curr` and not the firmware's |
| `TxPool.Device.Transmit` | gbl/efi/src/net.rs:232-248 | completes the last step of the run: the frame is passed on with what it holds, an accepted one becomes the firmware's, a refused one does not |
| `TxPool.Device.ResetNetwork` | gbl/efi/src/net.rs:56-68 | after a reset the firmware owns nothing and the pool starts afresh |
| `TxPool.Device.Consume` | gbl/efi/src/net.rs:209-268 | prolongs the legal run of the state machine; data is written only to a frame the firmware does not own, and exactly that frame with exactly that data is passed on by the last step; giving up leaves a reset behind, unless nothing was tried |
| `Relocation.AcceptsIff` | gbl/libelf/relocation.cpp:62-103 | a table is applied in full if and only if all its entries are relative |
| `Relocation.FixUpRelocates` | gbl/libelf/relocation.cpp:62-103 | with disjoint targets each holds base plus addend modulo 2^64 and nothing else changes |
| `Relocation.RelocatedUnique` | gbl/libelf/relocation.cpp:62-103 | that describes one memory only |
| `Relocation.OrderIrrelevant` | gbl/libelf/relocation.cpp:62-103 | the order of the entries makes no difference |
| `Relocation.RelaIdempotent` | gbl/libelf/relocation.cpp:107-116 | a second RELA pass changes nothing |
| `Relocation.RelIdempotentIff` | gbl/libelf/relocation.cpp:119-127 | a second REL pass changes nothing if and only if there is no entry or the base is 0 |
| `Relocation.RelMovesAgain` | gbl/libelf/relocation.cpp:119-127 | a word moved up by 4096 is moved up again, in any memory |
| `Relocation.BasesDiffer` | gbl/libelf/relocation.cpp:62-103 | after one table, images relocated at two bases differ at the targets by exactly the difference of the bases, and nowhere else |
| `Relocation.FixUpEntry` | gbl/libelf/relocation.cpp:75-100 | one entry is applied as `FixOne` |
| `Relocation.FixUpRelxTable` | gbl/libelf/relocation.cpp:62-103 | the in-place loop, reading each entry from the changing memory, is `FixUp` of the table as it was |
| `DynamicSection.ScanFinds` | gbl/libelf/relocation.cpp:136-168 | `Scan` fails exactly on an unsupported tag, and otherwise gives the last entry of each tag, the symbol table moved by the base |
| `DynamicSection.ScanMoves` | gbl/libelf/relocation.cpp:131-170 | where the tables are found does not depend on the base |
| `DynamicSection.ScanSection` | gbl/libelf/relocation.cpp:131-170 | fails if and only if there is an unsupported tag, and otherwise finds, for each tag, the last entry that has it |
| `DynamicSection.ApplyTableInPlace` | gbl/libelf/relocation.cpp:107-127 | a table without its size, or a size without its table, is refused; neither is fine |
| `DynamicSection.RelaStays` | gbl/libelf/relocation.cpp:172-180 | REL relocations leave the RELA table, its address and its size as they were, where no target lies on them |
| `DynamicSection.BothPasses` | gbl/libelf/relocation.cpp:172-180 | REL and then RELA, each reading the memory before it, together move every target of both tables exactly once |
| `DynamicSection.RelocateLoads` | gbl/libelf/relocation.cpp:131-180 | from the dynamic section on, an image laid out as it should be is accepted and loaded |
| `DynamicSection.TwoLoads` | gbl/libelf/relocation.cpp:131-180 | the same image loaded at two bases differs at the targets of both tables by exactly the difference of the bases, and nowhere else |
| `DynamicSection.ApplyRelocation` | gbl/libelf/relocation.cpp:131-180 | an unsupported tag leaves the image as it was; an image laid out as it should be is loaded: after both passes every REL target holds the base plus what it held, every RELA target the base plus its addend, and nothing else has changed |
| `ElfImage.TableReads` | gbl/libelf/relocation.cpp:62-77 | the bytes of any entries, REL of two words and RELA of three, are read back as those entries |
| `ElfImage.LinkedLoads` | gbl/libelf/relocation.cpp:131-180 | an image that holds a dynamic section and two tables byte for byte is loaded at any base, every target of both tables moved once and nothing else changed; without a symbol table it is refused unchanged |
| `ElfImage.IncompleteRefused` | gbl/libelf/relocation.cpp:107-170 | a section with an unsupported tag, or a table without its size or the reverse, is refused |
| `ByteOrder.LastIsHighest` | gbl/libelf/relocation.cpp:74-99 | of a word in memory the last byte is the most significant |
| `Commandline.Fused` | gbl/libbootparams/src/entry.rs:137-149 | after the end or an error the parser yields nothing more |
| `Commandline.ParseAppend` | gbl/libbootparams/src/entry.rs:137-149 | appending a separated text to a clean line appends its entries, and leaves unparsed what that text leaves |
| `Commandline.ExtendsIff` | gbl/libbootparams/src/entry.rs:82-149 | a line can be extended by every text without disturbing the entries of either if and only if it is clean |
| `Commandline.UncleanFails` | gbl/libbootparams/src/entry.rs:82-149 | on every line that is not clean, one fixed text goes wrong |
| `Commandline.LeadingSpace` | gbl/libbootparams/src/entry.rs:78-84 | white space in front makes no difference |
| `Commandline.TrailingSpace` | gbl/libbootparams/src/entry.rs:78-149 | white space at the end makes no difference, on any line |
| `Commandline.TrimParses` | gbl/libbootparams/src/commandline.rs:55-62 | the trimmed line has the entries of the line |
| `Commandline.EntryRoundTripIff` | gbl/libbootparams/src/entry.rs:29-37 | an entry survives being displayed and parsed if and only if its key is non-empty without white space or `=`, and its value has no white space and no quote in front |
| `Commandline.QuotedNext` | gbl/libbootparams/src/entry.rs:108-131 | a value in quotes may hold anything but a quote and ends with it, whatever follows; a missing quote is an error that ends the parse |
| `Commandline.TrimCuts` | gbl/libbootparams/src/commandline.rs:55-62 | trimming takes away white space at both ends and nothing else |
| `Commandline.LineRoundTrip` | gbl/libbootparams/src/entry.rs:29-149 | every list of such entries is read back from the line they were added to |
| `CommandlineOps.CommandlineParser.TakeUntil` | gbl/libbootparams/src/entry.rs:63-76 | takes everything up to the first place with the mark |
| `CommandlineOps.CommandlineParser.ParseKey` | gbl/libbootparams/src/entry.rs:82-91 | the key found and the place after it |
| `CommandlineOps.CommandlineParser.ParseValue` | gbl/libbootparams/src/entry.rs:93-132 | the value, quoted or not, or an error at the end of the text |
| `CommandlineOps.CommandlineParser.Next` | gbl/libbootparams/src/entry.rs:140-148 | yields and advances as `Commandline.Next` of what remains |
| `CommandlineOps.CommandlineParser.Collect` | gbl/libbootparams/src/entry.rs:137-149 | draining the iterator ends, and yields `Parse` of what remained |
| `CommandlineOps.CommandlineBuilder.New` | gbl/libbootparams/src/commandline.rs:34-41 | an empty line, if there is room for its terminator |
| `CommandlineOps.CommandlineBuilder.NewFromPrefix` | gbl/libbootparams/src/commandline.rs:44-47 | continues the line up to the first NUL; fails if and only if there is none |
| `CommandlineOps.CommandlineBuilder.AddWith` | gbl/libbootparams/src/commandline.rs:79-121 | the line grows by a space and what the reader wrote, or stays; the line is always terminated once; a demand for space grows by one |
| `CommandlineOps.CommandlineBuilder.Add` | gbl/libbootparams/src/commandline.rs:125-140 | succeeds if and only if the text fits and has no NUL; the entries are then those of the line and of the text |
| `CommandlineOps.CommandlineBuilder.AsStr` | gbl/libbootparams/src/commandline.rs:55-62 | the trimmed line |
| `CommandlineOps.CommandlineBuilder.Entries` | gbl/libbootparams/src/commandline.rs:143-145 | iterates over the entries of the line, in spite of the leading space |
| `CommandlineOps.AddEntries` | gbl/libbootparams/src/commandline.rs:125-145 | adding displayed entries one by one makes the line parse to exactly those that fitted, and the first that did not could not |
| `Bootconfig.AcceptedIffImage` | libxbc/libxbc.h:22-28 | a section has a trailer that describes all before it if and only if it is body, LE32 size, LE32 sum modulo 2^32 and magic |
| `Bootconfig.ImageAccepted` | gbl/libbootparams/src/bootconfig.rs:97-111 | an image is accepted and gives back its body |
| `Bootconfig.SumOfParts` | libxbc/libxbc.c:33-39 | in the checksum every byte counts once, wherever it is |
| `Bootconfig.ClosedOnce` | libxbc/libxbc.c:89-118 | adding a trailer gives the image if and only if the section is not empty and does not end in the magic, and adding it twice is adding it once |
| `Bootconfig.AppendToImage` | libxbc/libxbc.c:56-84 | appending to an image gives the image of the longer body if and only if that does not end in the magic |
| `Bootconfig.AppendAllIff` | libxbc/libxbc.c:56-118 | any sequence of appends to an image gives the image of the concatenation if and only if no non-empty append makes the text end in the magic |
| `Bootconfig.RawAppendAllIff` | libxbc/libxbc.c:56-118 | appends to a section without a trailer do so if and only if, besides, something is appended and the section does not end in the magic |
| `Bootconfig.WritersAgreeIff` | libxbc/libxbc.c:56-118 | from either start, libxbc leaves what the builder leaves if and only if these conditions hold |
| `Bootconfig.NothingAppended` | libxbc/libxbc.c:56-66 | empty appends leave any section as it was, without a trailer if it had none |
| `Bootconfig.MagicIsLost` | libxbc/libxbc.c:48-84 | parameters equal to the magic are taken for a trailer, whatever comes before |
| `Bootconfig.AppendReserves` | libxbc/libxbc.c:56-84 | an append never needs more than the section, a trailer and the parameters |
| `BootconfigOps.Checksum` | libxbc/libxbc.c:33-39 | the loop computes the sum of the bytes modulo 2^32 |
| `BootconfigOps.WriteTrailer` | gbl/libbootparams/src/bootconfig.rs:97-111 | body and trailer become the image, and nothing else changes |
| `BootconfigOps.IsTrailerPresent` | libxbc/libxbc.c:48-51 | looks at the twelve bytes before the end, wherever the section starts |
| `BootconfigOps.AddBootConfigTrailer` | libxbc/libxbc.c:89-118 | adds the trailer unless the section is empty or seems to have one; null is refused; returns the growth |
| `BootconfigOps.AddBootConfigParameters` | libxbc/libxbc.c:56-84 | null is refused; otherwise memory is as before but for the section, which is `Append` of what was there, and the growth is returned in 32 bits |
| `BootconfigOps.AppendEach` | libxbc/libxbc.c:56-84 | a caller that adds each returned value to the size keeps the right size, section and neighbours over any list of appends, and the values returned sum up to the growth, modulo 2^32, and exactly below 2^31 |
| `BootconfigOps.BootConfigBuilder.New` | gbl/libbootparams/src/bootconfig.rs:39-46 | the image of nothing, if it fits |
| `BootconfigOps.BootConfigBuilder.UpdateTrailer` | gbl/libbootparams/src/bootconfig.rs:97-111 | makes the config the image of its body, if the size fits 32 bits |
| `BootconfigOps.BootConfigBuilder.AddWith` | gbl/libbootparams/src/bootconfig.rs:73-85 | on success the image of the longer body; after a failing reader the config is intact if and only if the reader wrote the bytes that were there |
| `BootconfigOps.BootConfigBuilder.Add` | gbl/libbootparams/src/bootconfig.rs:87-95 | all or nothing, except that a size of 4 GiB is reported after the body has grown |
| `BootconfigOps.AddEach` | gbl/libbootparams/src/bootconfig.rs:87-95 | any list of adds succeeds if and only if all of it fits, and then leaves the image of body and concatenation |
| `BootconfigOps.WriteBoth` | libxbc/libxbc.c:56-118 | both writers run on the same body and the same list, from a raw section or an image: where the builder succeeds, the sections are equal if and only if the conditions of `WritersAgreeIff` hold |
| `BootconfigOps.ReaderSpoils` | gbl/libbootparams/src/bootconfig.rs:73-85 | one byte written by a failing reader is enough to spoil a trailer |
| `Executor.CyclicExecutor.SpawnTask` | gbl/libasync/src/cyclic_executor.rs:32-39 | a new future is polled once and kept unless it is ready |
| `Executor.CyclicExecutor.Poll` | gbl/libasync/src/cyclic_executor.rs:42-51 | every future present is polled exactly once, in spite of the swapping, and exactly the ready ones are removed |
| `Executor.CyclicExecutor.Run` | gbl/libasync/src/cyclic_executor.rs:54-58 | ends after as many rounds as the longest future needs polls, each having been polled exactly as often as it needs |
| `Executor.PollOne` | gbl/libasync/src/cyclic_executor.rs:43-50 | one turn of the loop keeps apart those polled and those not, whether an element is removed or not |
| `Executor.LongestStepped` | gbl/libasync/src/cyclic_executor.rs:54-58 | a round brings the end nearer by exactly one |
| `Executor.VecPinFut.ForEachRemoveIf` | gbl/efi/src/fastboot.rs:198-205 | every element is visited once, last first, by a callback that may change it and remembers what it has seen; exactly those it says are removed |
| `Executor.VisitedKeeps` | gbl/efi/src/fastboot.rs:198-205 | with a callback that only looks, exactly the elements it says are gone |
| `Executor.VisitedInOrder` | gbl/efi/src/fastboot.rs:198-205 | a callback that remembers what it has seen has seen all elements, last first |
| `Executor.Join` | gbl/libasync/src/lib.rs:127-147 | both outputs, each future polled exactly as often as it needs and never after it was ready |
| `Executor.Select` | gbl/libasync/src/lib.rs:150-165 | the outputs ready in the first round in which one is, both futures polled equally often |
| `Executor.YieldCounter.Increment` | gbl/libasync/src/lib.rs:105-124 | yields at the first increment and then whenever the increments since the last yield reach the threshold |
| `Numbers.DigitsValue` | gbl/libc/src/format.c:76-102 | the digits printed denote the number and do not start with 0 |
| `Numbers.DigitsAreLower` | gbl/libc/src/format.c:60-92 | letters are printed in lower case |
| `Numbers.DigitsFitIff` | gbl/libc/src/format.c:85-92 | a number has at most n digits if and only if it is below the n-th power of the base |
| `Numbers.ScratchBound` | gbl/libc/src/format.c:72-92 | the 20-digit scratch buffer suffices for every 64-bit number in bases 10 and 16, and in base 8 if and only if it is below 2^60 |
| `Numbers.ReadsForm` | gbl/libc/src/strtoul.rs:28-102 | every text of white space, sign, digits without a prefix and something else is read as the number it denotes, clamped or negated in 64 bits, up to where the digits end |
| `Numbers.ReadsPrefixed` | gbl/libc/src/strtoul.rs:60-77 | the same with `0x` or `0X` before the digits, in bases 0 and 16 |
| `Numbers.ReadValue` | gbl/libc/src/strtoul.rs:79-102 | a number of more than 64 bits is read as the largest, with or without a sign; any other as it is, or negated modulo 2^64 |
| `Numbers.ReadsRendered` | gbl/libc/src/strtoul.rs:28-102 | reading what was printed gives the number back and stops at the end, in bases 8, 10 and 16 |
| `Numbers.ReadsSigned` | gbl/libc/src/format.c:106-122 | a printed signed number is read as its two's complement, the minimum included |
| `Numbers.ReadsAuto` | gbl/libc/src/strtoul.rs:60-77 | with base 0, decimals are read as printed and hexadecimals behind `0x` |
| `NumbersC11.MatchesC11Iff` | gbl/libc/src/strtoul.rs:20-102 | on every text and in every base, value and end are those of section 7.22.1.4 of C11 if and only if the text is not one of four kinds |
| `NumbersC11.Deviations` | gbl/libc/src/strtoul.rs:28-102 | a text of each kind, the panic on an empty text among them |
| `NumberOps.CollectDigits` | gbl/libc/src/format.c:85-92 | the digit loop leaves the digits in the scratch buffer, last first, if and only if they fit |
| `NumberOps.FormatUnsigned` | gbl/libc/src/format.c:76-102 | as much of the printed number as fits goes into the buffer, and nothing else changes; the scratch buffer overflows if and only if the number has more than 20 digits and there is room for one |
| `NumberOps.CopyReversed` | gbl/libc/src/format.c:94-99 | the copy loop writes the scratch buffer back to front, cut off where the buffer ends |
| `NumberOps.FormatSigned` | gbl/libc/src/format.c:106-122 | the same with a sign, for every 64-bit value |
| `NumberOps.ReadDigits` | gbl/libc/src/strtoul.rs:79-92 | the sticky overflow of the loop tells exactly whether the whole number is too large |
| `NumberOps.ReadNumber` | gbl/libc/src/strtoul.rs:28-102 | the statements compute `Strtoul`, the panic on an empty text included |
| `Allocators.Heap.Alloc` | gbl/libefi/src/allocation.rs:188-227 | memory aligned as asked, in a new block of its own, with nothing outside the block changed; or null, only if the pool refused or the size is too large, and nothing taken |
| `Allocators.Heap.AllocShifted` | gbl/libefi/src/allocation.rs:199-224 | above alignment 8 the payload is shifted inside a larger block and the shift noted behind it |
| `Allocators.Heap.Dealloc` | gbl/libefi/src/allocation.rs:229-250 | gives back the block at the address, or the one the note leads to |
| `Allocators.Heap.GiveBack` | gbl/libefi/src/allocation.rs:229-250 | what `Alloc` gave, at any alignment, is given back as exactly its block |
| `Allocators.Heap.GblMalloc` | gbl/libc/src/lib.rs:70-121 | an aligned payload inside a new block, clear of its notes; fails only for too large a size, when the pool refuses, at alignment 0, or for an empty payload whose address would be 2^64, and takes nothing, except in the last two cases, where the block is lost |
| `Allocators.Heap.GblFree` | gbl/libc/src/lib.rs:130-177 | gives back exactly the block of the payload if and only if the alignment is at most 8 or the word behind the block is 0 |
| `Allocators.Heap.Store` | gbl/libc/src/lib.rs:62-69 | any write to a payload leaves all notes and all other payloads valid |
| `Allocators.PayloadsDisjoint` | gbl/libc/src/lib.rs:70-121 | no payload in use overlaps the block of another |
| `Allocators.FoundAgain` | gbl/libefi/src/allocation.rs:229-250 | the note of a payload in use leads to its block and no other |
| `Allocators.StartIff` | gbl/libc/src/lib.rs:164-176 | above alignment 8 the block given back is the right one if and only if the word behind it is 0 |
| `Allocators.WrongStart` | gbl/libc/src/lib.rs:164-176 | a concrete allocation at alignment 16 for which it is the wrong one |
| `DeviceTree.HoldsStill` | gbl/libgbl/src/device_tree.rs:90-105 | writing behind the registered copies, as the temporary header copy does, changes no component |
| `DeviceTree.CutIsTree` | gbl/libgbl/src/device_tree.rs:171-191 | a tree cut out by its header passes the check of the copy |
| `DeviceTree.Registry.Push` | gbl/libgbl/src/device_tree.rs:130-146 | the copy is aligned, behind all others, and equal to the tree; all earlier components are as they were |
| `DeviceTree.Registry.PeekSize` | gbl/libgbl/src/device_tree.rs:90-105 | the size in the header, if there is one and room to copy it, without touching a component |
| `DeviceTree.Registry.AppendFromDttable` | gbl/libgbl/src/device_tree.rs:118-149 | succeeds if and only if there are few enough entries and all copies fit; then all entries are registered in order with their metadata; after an error a prefix of them is, with its metadata |
| `DeviceTree.Registry.AppendFromMultifdtBuffer` | gbl/libgbl/src/device_tree.rs:155-210 | the trees registered and the rest make up the data; every one is complete; it ends where no header is found or none can be copied, and fails if and only if a tree found there cannot be added |
| `DeviceTree.Registry.Append` | gbl/libgbl/src/device_tree.rs:217-239 | the first tree is registered where it is, the others as copies, in order; fails if and only if there is no first tree or no room for it, or a tree found later cannot be added |
| `DeviceTree.Registry.Autoselect` | gbl/libgbl/src/device_tree.rs:244-262 | succeeds if and only if there is exactly one base tree, and then selects it and changes nothing else |
| `DeviceTree.Registry.Selected` | gbl/libgbl/src/device_tree.rs:266-290 | exactly one selected base tree with the selected overlays in order, or an error |
| `DeviceTree.SelectionMeans` | gbl/libgbl/src/device_tree.rs:266-290 | a selection succeeds if and only if exactly one selected component comes from boot, vendor_boot or dtb; it gives that one and as many overlays as are selected |
| `DeviceTree.SelectedOverlay` | gbl/libgbl/src/device_tree.rs:281-290 | each selected overlay is given, in the order of registration |
| `DeviceTree.AutoselectSelects` | gbl/libgbl/src/device_tree.rs:244-290 | after a successful automatic selection the only base tree is returned with the overlays selected before; with none if nothing was |

## Left out

- EFI protocol wrappers, boot services, `GblOps` forwarding, kernel jumps and assembly: foreign calls without a meaning of their own here.
- libfdt, libufdt, libavb, smoltcp and decompression: other projects. The header check of libfdt is a parameter whose sizes are at least that of a header.
- GPT, sparse images, the fastboot backend and the slot managers: not part of this model; the backend is arbitrary.
- Error and enum conversion tables and the C wrappers of libabr, which translate case by case, and build and Python tooling: nothing there can go wrong across functions.
- `gbl_printf_buffer` and its variadic arguments: only the number formatters are modelled.
- Parsing of a device tree table: its entries are a parameter. Errors of the registry are told apart only as success or failure.
- Async execution: fastboot handlers are synchronous, and a transport answers each call at once.
- Texts of FAIL replies to malformed arguments of `fetch` and `download`: only their kind and their place in the session are modelled.
- AbrOps.Storage.Write: a failing write leaves the storage as it was; torn writes are not modelled.
- Emat.Generate: alignment and padding of the payload buffer, regions that end at 2^64 and more than 2^32 records are not modelled; the inputs conform to section 4.6.4 of UEFI 2.10, as the code assumes.
- TxPool.Device.Consume: the source retries for ever; here `patience` bounds the retries, so that nothing is said about sessions that never get a frame.
- CommandlineOps.CommandlineBuilder.AddWith: a cell of the buffer holds a character, so that capacity in bytes of multi-byte characters and text that is not UTF-8 are not modelled.
- BootconfigOps.AddBootConfigParameters: sections of 4 GiB and more, and a section shorter than a trailer that ends in the magic, are excluded, since the code then writes outside the section; an address below 12 is, since it reads before it.
- Allocators.Heap.AllocatePool: the pool returns any block that does not overlap another; its order of blocks is not modelled.
- Allocators.Heap.GblFree: the size and alignment must make a valid layout, as the source unwraps it.
- DynamicSection.ApplyRelocation: the tables and targets lie in memory, and no target lies in the table that names it, as the code assumes without looking.
