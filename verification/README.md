# BluePillUsbDebugPrototyping: a verified model

A Dafny 4.11 model of the programming and debugging pipeline of this repository: the bootloader on the
STM32F1 target (`Bootloader/`), the GDB server on the host (`GdbServer/`), and the USB device code under
the bootloader. Each method is proved against a specification function, and the properties of the system
are proved about those functions, for all inputs and all runs. `dafny verify dfyconfig.toml` checks the
whole project.

| file | models |
|---|---|
| `Bytes.dfy` | byte memories, storing and flash programming (a bit only goes from one to zero), rounding to a unit |
| `Bootloader.dfy` | the device: regions, clipping, memory commands, half-word programming |
| `HostTarget.dfy` | the host's chunked memory reads and writes, joined to the device by an exchange of frames |
| `WriteBack.dfy` | a one-byte-at-a-time write-back sector machine: the reference for the host's buffer, and what it leaves in flash |
| `FlashCache.dfy` | the host's sector buffer and flash session as code, and the end-to-end theorem |
| `EraseLoop.dfy` | the erase loop that skips blank pages, and the host call that leads to it |
| `Reprogram.dfy` | erase, write and done together: both ends, from the host's calls to the image |
| `UsbControl.dfy` | control transfers: SETUP, DATA, STATUS, zero-length packets, stall, deferred SET_ADDRESS |
| `Descriptors.dfy` | the nested-loop configuration descriptor serializer |
| `MassStorage.dfy`, `DiskSession.dfy` | bulk-only mass storage: transactions, and whole sessions against a reference drive |
| `ScsiHost.dfy` | the host of the mass storage device: its commands, wrappers and reports, in its own encodings |
| `RingBuffer.dfy` | the lock-free ring, as a data structure and as a two-party protocol of single reads and writes |
| `DebugMonitor.dfy` | the debug monitor exception handler as steps of a machine |
| `FlashPatch.dfy`, `FlashPatchRuns.dfy` | the device's breakpoint comparators: one command, and runs of commands |
| `Breakwatch.dfy` | the host's list of break- and watchpoints against the hardware slots |
| `Crc.dfy` | the two CRC-32 loops and the table |
| `GdbPacket.dfy`, `GdbLink.dfy` | GDB remote serial framing, both directions, and both ends over a damaged line |

A word in the properties below: a "proper" comparator array holds in each place 0 or an enabled word with
at least one half selected, and no word twice. "User flash" is 0x08004000 up to 0x08020000. Standards are
cited where they define what a peer does: the host of a control transfer (USB 2.0, sections 5.5.3 and
8.5.3), the host of mass storage (Bulk-Only Transport 1.0, sections 5.1 to 5.3), the comparators (ARMv7-M
Architecture Reference Manual, sections C1.8 and C1.11).

Modelling assumptions: addresses do not wrap 32 bits, except where a wrap is written out (the end of an
erase request, block addresses); allocation succeeds; the USB link delivers frames whole; flash
programming is the bitwise AND with what is there, and erased flash reads 0xFF; on the GDB line, the answers to a
transmission arrive before the sender looks for one; in the ring, where only the two
indices are volatile, the store of an item is not moved past the store that publishes it, nor its load past the
one that frees the slot.

## What the code does against what one would expect

The model follows the code in these places, and a lemma shows each one that has a property at stake.

- A byte rewritten after its sector was left ends up as the AND of both values (`WriteBack.StaleRewriteLoses`; exactly when data can be lost: `WriteBack.CoherenceExactly`).
- The upper limit of the erase loop is 0x80020000, not the end of flash at 0x08020000; erasing beyond flash has no effect in the model.
- An unaligned erase request can skip a page it covers in part (`EraseLoop.UnalignedSkips`; alignment is exactly what it takes: `EraseLoop.SkippingInvisible`), and the host's erase call reports success for addresses no region holds (`EraseLoop.SuccessWithoutErase`; exactly when the success is true: `EraseLoop.SuccessIsTrue`).
- StartFirmware returns before it sets the halt state to running, and leaves an unusable image without returning at all: the loop goes on.
- A mass-storage host that sends a CBW in two packets is answered with a status before the command is known, after power-on even without a signature (`MassStorage.PartialCbwIsAnswered`).
- Word address zero confuses the comparator search (`FlashPatch.ZeroWordSplits`, and exactly when: `FlashPatch.SetOneKeepsProper`).
- A user callback that claims SET_ADDRESS bypasses the range check, and the driver is called with the unchecked value (`UsbControl.ClaimedAddress`); the driver of this chip keeps seven bits of it (Bootloader/libopencm3/lib/stm32/common/st_usbfs_core.c:34-39), so the device answers to another address than the one set. The one callback this firmware registers (Bootloader/App/Usb.cpp:196-230) handles only requests towards the host and so never does (`UsbControl.FirmwareAddress`).
- A write of an odd number of bytes into user flash programs one byte more, left in the command buffer by an earlier frame (`HostTarget.WriteInside`, and exactly when it shows: `HostTarget.NothingBeyond`). The host's flash path writes half-words and is not affected.
- READ(6) ignores the upper five bits of its block address, and a count of 0 in READ(6) and WRITE(6), which stands for 256 blocks, is taken as none (`ScsiHost.SixByteCommands`).
- FORMAT UNIT leaves out the last block, because the count it loops over is stored less one (`MassStorage.FormattedBlocks`); MODE SENSE sends a byte it does not set, and REQUEST SENSE as many old bytes as the host asks for beyond its 18 (`MassStorage.ReportTransaction`).
- The sender reads one answer for each transmission, so one that draws two answers leaves it behind: it retransmits a packet that has arrived, which is delivered again, and an old answer is left for the next packet (`GdbLink.RefusedTwice`, and exactly when: `GdbLink.DeliveredOnce`).
- The request to erase puts its range in a ring of its own, which stays there when the command finds no room (`DebugMonitor.Handler.DebugStartEraseLoop`).
- A '$' that arrives when the packet buffer is full is swallowed as the terminator (`GdbPacket.Restart`), and the checksum characters may hold white space, a sign or a single digit, because `strtol` reads them.
- The transmitter does not escape '*', which the GDB manual asks of a stub's responses; the receiver here does no run-length decoding either, so the round trip is not affected.

## Model

| member | source | states |
|---|---|---|
| FlashCache.FlashTarget.ProgramImage | GdbServer/Gdb/target.c:253-335 | End to end, from the host's sector buffer through the 64-byte frames to the device's half-word programming, for any blocks in the region and whatever flash holds: device memory and the log of programmed half-words end as the one-byte reference machine's, with no live buffer and one call of the region's done callback; if the bytes written were erased and none is written again after its sector was left, memory is the direct application of every byte write (the last of each wins, all else unchanged); if no sector is returned to, no half-word was programmed twice |
| Reprogram.ReprogramFlash | GdbServer/Gdb/target.c:235-335 | The whole job, through the code of both ends: the host's erase call, its request through the device's ring, the erase loop, the writes (inside the range erased, no byte again after its sector was left) and the done call leave in flash exactly the image, erased beside it in the pages of the erase, everything else as it was, whatever flash held before |
| Reprogram.EraseThenWrite | GdbServer/Gdb/target.c:235-335 | The same of the specifications: what an aligned erase leaves is what the writes need |
| FlashCache.FlashTarget.FlashWrite | GdbServer/Gdb/target.c:253-269 | A write is carried out up to the end of the region and no further, as one run of the one-byte reference machine; it returns 0 exactly when no byte was left over |
| FlashCache.FlashTarget.FlashDone | GdbServer/Gdb/target.c:271-284 | The live sector, if any, goes to flash as the reference machine flushes it, no buffer is live any more, and then the region's done callback runs exactly once |
| FlashCache.FlashRegion.WriteBuffered | GdbServer/Gdb/target.c:286-321 | The chunked write-back buffer, for any destination and length, is the machine that takes one byte at a time; a live buffer keeps a sector-aligned address inside the region |
| FlashCache.FlashRegion.DoneBuffered | GdbServer/Gdb/target.c:323-335 | The live sector goes to flash once, as a whole; afterwards there is no live sector and the buffer is released exactly if it was live |
| FlashCache.RunChunk | GdbServer/Gdb/target.c:313-318 | Copying one chunk into the sector buffer is running its bytes one by one through the reference machine |
| WriteBack.Coherence | GdbServer/Gdb/target.c:286-335 | For any order of writes, sector revisits included, in which no byte is rewritten after its sector was left, over erased bytes: flash with the buffered sector programmed over it equals the direct application of all writes so far |
| WriteBack.CoherenceExactly | GdbServer/Gdb/target.c:286-335 | For fixed addresses over erased bytes, that holds for all data if and only if no address comes again after its sector was left |
| WriteBack.LastWriteWins | GdbServer/Gdb/target.c:286-335 | For every run and every written address, the exact condition under which flash ends up with the last value written there: the value must not need a bit that earlier programming of the same address already cleared |
| WriteBack.DisciplinesSuffice | GdbServer/Gdb/target.c:286-335 | Writing no byte twice is enough for coherence, and so is never returning to a sector |
| WriteBack.StaleRewriteLoses | GdbServer/Gdb/target.c:303-312 | An input that is not coherent: three writes after which a byte reads as the AND of its two values |
| WriteBack.ProgramOnce | GdbServer/Gdb/target.c:286-335 | Without sector revisits the programming log has no half-word twice, whatever flash holds |
| WriteBack.RunTracks | GdbServer/Gdb/target.c:300-319 | What any run does, seen at one address: flash below and the pending byte of the buffer follow a two-byte automaton of that address alone |
| HostTarget.TargetSTM32F1.MemWrite | GdbServer/Target/TargetSTM32F1.cpp:180-201 | For every range and length, across the edges of user flash too: returns the largest multiple of the access size that does not exceed the data, and leaves the device as the frames of the write leave it, stale command bytes included; the lemmas below say what that is |
| HostTarget.WriteBeside | GdbServer/Target/TargetSTM32F1.cpp:180-201 | Beside user flash a write is a plain store of the whole elements, and nothing else |
| HostTarget.WriteInside | GdbServer/Target/TargetSTM32F1.cpp:180-201 | Inside user flash, for any count: exactly the whole elements are programmed, each half-word once and in order, with one more byte after an odd count, the one that follows the last payload in the command buffer |
| Bytes.ProgramBits | Bootloader/App/main.cpp:60-68 | Programming clears bits and sets none: a bit is set afterwards exactly if it was set in flash and in the data |
| HostTarget.WrittenIs | GdbServer/Target/TargetSTM32F1.cpp:180-201 | How much of a write is carried out: the length less its remainder by the access size |
| HostTarget.AccessBits | GdbServer/Target/TargetSTM32F1.cpp:27 | The access sizes that pass the test with "and" are exactly the powers of two |
| HostTarget.AlignBits | Bootloader/App/main.cpp:29-33 | The device's test of its one-byte align, by bits: what fails it counts as 1 |
| HostTarget.NothingBeyond | Bootloader/App/main.cpp:60-68 | Nothing but the elements is changed in user flash if and only if their count is even, or memory already has the zero bits of that extra byte |
| HostTarget.WriteSplits | GdbServer/Target/TargetSTM32F1.cpp:184-199 | A write is its whole frames first and then the rest, so a range across an edge of user flash is stored and programmed frame by frame |
| HostTarget.TargetSTM32F1.MemRead | GdbServer/Target/TargetSTM32F1.cpp:154-178 | Reads nothing for a size that is no power of two, otherwise exactly what the chunked protocol reads back; device memory and programming log are untouched |
| HostTarget.ReadBackExact | GdbServer/Target/TargetSTM32F1.cpp:154-178 | For sizes 1, 2 and 4 (any power of two that fits a frame), and a range inside one accessible region, the chunks read back join to exactly the device's bytes |
| HostTarget.ReadBackRefused | Bootloader/App/main.cpp:80-88 | Where no region has any byte of the range, a read returns as many 0xFF bytes as were asked for |
| HostTarget.ReadAfterWrite | GdbServer/Target/TargetSTM32F1.cpp:154-201 | Inside one accessible region, for any length: reading after writing returns the whole elements that were written, beside user flash always, inside it if and only if no written byte needs a bit that is cleared already |
| HostTarget.ErasedReadsBack | GdbServer/Target/TargetSTM32F1.cpp:154-201 | So it does wherever flash was erased |
| HostTarget.DeviceAgrees | GdbServer/Target/TargetSTM32F1.cpp:22-58 | The host's clipping and the device's clipping of one frame agree for every remaining length and power-of-two size |
| HostTarget.WriteStep | GdbServer/Target/TargetSTM32F1.cpp:184-199 | One more frame of a write carries whole elements again, and none exactly when an element does not fit a frame |
| HostTarget.TargetSTM32F1.SendAndReceive | GdbServer/Target/TargetSTM32F1.cpp:131-136 | One command frame gets the device's answer and has the device's whole effect: memory, the log of programmed half-words, the command buffer |
| Bootloader.Device.MemoryReadCommand | Bootloader/App/main.cpp:70-91 | The answer carries the clipped range: the memory's bytes if one region grants access to all of it, 0xFF bytes otherwise; memory is unchanged |
| Bootloader.Device.MemoryWriteCommand | Bootloader/App/main.cpp:93-112 | The clipped payload is programmed into user flash, an odd count with the next byte of the command buffer, or stored elsewhere; the answer says how much |
| Bootloader.Device.FlashWrite | Bootloader/App/main.cpp:60-68 | Programs the bytes as ANDs on memory, half-word by half-word in ascending order, each once |
| Bootloader.PayloadSize | Bootloader/App/main.cpp:36-44 | The payload fits the buffer behind the head, does not exceed the request, and is a whole number of units for access sizes 2 and 4 |
| Bootloader.PayloadIsLargest | Bootloader/App/main.cpp:36-44 | No larger whole number of units fits both |
| Bootloader.DbgMemcpy | Bootloader/App/Memory.cpp:144-183 | Because the size was rounded to the unit, the countdown reaches exactly zero: the destination range becomes the source range and nothing else changes |
| Bootloader.CheckMemRegionAccess | Bootloader/App/Memory.cpp:109-119 | Access is granted exactly when one region of the table holds the whole range |
| EraseLoop.AlignedErase | Bootloader/App/Debug.cpp:148-161 | For page-aligned requests, skipping blank pages gives the same memory as erasing every covered page |
| EraseLoop.SkippingInvisible | Bootloader/App/Debug.cpp:148-161 | For every memory contents the loop does what erasing without looking does, if and only if the address is page-aligned, or the request is empty or lies past flash |
| EraseLoop.AlignedQueue | Bootloader/App/Debug.cpp:142-162 | A whole queue of accepted, aligned requests erases exactly the pages any of them covers, and is used up |
| EraseLoop.EraseAllSafe | Bootloader/App/Debug.cpp:142-162 | For any queue contents, aligned or not, nothing outside user flash changes and every byte changed is erased |
| EraseLoop.LoopStops | Bootloader/App/Debug.cpp:139-147 | A request that begins below user flash or past the limit, or ends past it, ends the loop and leaves the rest queued; any other is served and the loop goes on |
| EraseLoop.UnalignedSkips | Bootloader/App/Debug.cpp:148-161 | The input that shows alignment is needed: an unaligned request skips a page that erasing without looking would erase |
| EraseLoop.Eraser.FlashEraseLoop | Bootloader/App/Debug.cpp:139-163 | The loop consumes the queue and changes memory as the specification function says, ending at the first request it does not accept |
| EraseLoop.EraseThenProgram | Bootloader/App/Debug.cpp:139-162 | An accepted aligned erase establishes what programming needs: the range is erased |
| EraseLoop.TargetFlashErase | GdbServer/Gdb/target.c:235-251 | For any list of regions: the requests sent are those of the specification, and the call reports success either way |
| EraseLoop.RequestsTile | GdbServer/Gdb/target.c:235-251 | The requests are back to back from the first address on; they make up the whole range, or stop exactly where no region holds the next address |
| EraseLoop.SuccessIsTrue | GdbServer/Gdb/target.c:235-251 | For every list of regions: the success reported is true, all of the range asked for, if and only if each of its addresses lies in some region |
| EraseLoop.SuccessWithoutErase | GdbServer/Gdb/target.c:241-243 | The input that shows it can be false: with no regions the call succeeds and asks for nothing |
| EraseLoop.HostEraseWipes | GdbServer/Gdb/target.c:235-251 | From the host's erase call to the flash: the covered pages end erased, all others unchanged |
| UsbControl.ControlIn | Bootloader/libopencm3/lib/usb/usb_control.c:222-238 | For every request with bit 7 of its type set, handled, with at most wLength bytes: after as many IN events as packets less one, the count being ceil(length / packet size), at least 1, plus 1 for the zero-length packet, the machine is in LAST_DATA_IN and the packets the host has seen are, by the host's own rules, exactly the handler's data, complete at the last packet and not before |
| UsbControl.ControlInEnds | Bootloader/libopencm3/lib/usb/usb_control.c:245-315 | Then the empty packet of the host ends the transfer without a stall, and the completion callback has run once if the handler asked for one, and not otherwise |
| UsbControl.ControlInRefused | Bootloader/libopencm3/lib/usb/usb_control.c:173-196 | A request for data that nobody handles is stalled, and nothing is sent |
| UsbControl.ControlOutStage | Bootloader/libopencm3/lib/usb/usb_control.c:198-315 | Control OUT, the whole transfer, for any data that fits the buffer, sent in full packets and a rest: the handler gets exactly the data, once; then an empty packet goes out if it was handled, and a stall if not; the next IN ends the transfer, with the completion callback exactly if asked for |
| UsbControl.ControlOutStarts | Bootloader/libopencm3/lib/usb/usb_control.c:198-238 | A data stage towards the device is refused exactly if the buffer has no room for it, and else awaited as one packet or more |
| UsbControl.ControlNoData | Bootloader/libopencm3/lib/usb/usb_control.c:173-238 | A request without data: an empty packet and the end of the transfer if it was handled, a stall if not |
| UsbControl.OutOfPlace | Bootloader/libopencm3/lib/usb/usb_control.c:240-315 | An OUT packet where none is due, and an IN where there is nothing to send, are stalled |
| UsbControl.PacketsCounted | Bootloader/libopencm3/lib/usb/usb_control.c:93-119 | The division of the data has that many packets |
| UsbControl.DataStage | Bootloader/libopencm3/lib/usb/usb_control.c:93-119 | After any number of IN events of a data stage the packets sent are exactly the first ones of the division of the data, and the state says whether one is left |
| UsbControl.HostReadsAll | Bootloader/libopencm3/lib/usb/usb_control.c:62-70 | A host that stops at a short packet or at wLength reassembles exactly the data from the division; without the zero-length packet it would keep waiting exactly when the code sends one |
| UsbControl.ZlpExactlyWhenNeeded | Bootloader/libopencm3/lib/usb/usb_control.c:62-70 | A zero-length packet is sent if and only if the host would otherwise wait for more |
| UsbControl.StepInvariant | Bootloader/libopencm3/lib/usb/usb_control.c:121-315 | Every event, whatever the host sends, keeps: DATA_OUT has more than one packet to come, LAST_DATA_OUT between 1 byte and one packet, no write past wLength or the buffer, received bytes are the joined packets, an OUT handler was given exactly wLength bytes and only when they had all arrived, STATUS_IN only after a handled request whose data stage is complete, and the completion callback at most once since the SETUP |
| UsbControl.Run | Bootloader/libopencm3/lib/usb/usb_control.c:222-315 | The invariant holds in every state reachable from power-on by any sequence of events |
| UsbControl.OnlyStatusCompletes | Bootloader/libopencm3/lib/usb/usb_control.c:273-315 | The completion callback runs only in a status stage, of a handled request that asked for it, and leaves the machine idle |
| UsbControl.AddressChanges | Bootloader/libopencm3/lib/usb/usb_control.c:299-312 | With a driver that defers the address, it changes only at STATUS_IN of a SET_ADDRESS; the new address is then the current address, below 128, if and only if no user callback claimed the request or its value happens to be that address |
| UsbControl.FirmwareAddress | Bootloader/libopencm3/lib/usb/usb_control.c:299-312 | In every run in which the callbacks claim what this firmware's one callback claims (Bootloader/App/Usb.cpp:196-230), each change of address is at STATUS_IN and to the current address, below 128 |
| UsbControl.FirmwareTakesAddress | Bootloader/libopencm3/lib/usb/usb_control.c:299-312 | And there is such a run: an address below 128 is set and taken |
| UsbControl.ClaimedAddress | Bootloader/libopencm3/lib/usb/usb_control.c:302-309 | The run that shows the exception: a user callback that claims SET_ADDRESS has the driver called with an address nobody checked |
| UsbControl.AddressTaken | Bootloader/libopencm3/lib/usb/usb_control.c:299-312 | SET_ADDRESS as the standard code handles it: an address below 128 is the device address after the status stage (at once for drivers that want it before), any other is stalled and changes nothing |
| UsbControl.ControlEndpoint.ControlSetup | Bootloader/libopencm3/lib/usb/usb_control.c:222-238 | Has the effect of the SETUP event |
| UsbControl.ControlEndpoint.ControlOut | Bootloader/libopencm3/lib/usb/usb_control.c:240-284 | Has the effect of the OUT event: chunk, dispatch when complete, status, stall |
| UsbControl.ControlEndpoint.ControlIn | Bootloader/libopencm3/lib/usb/usb_control.c:286-315 | Has the effect of the IN event: next chunk, status, deferred address and completion |
| UsbControl.ControlEndpoint.UsbControlRecvChunk | Bootloader/libopencm3/lib/usb/usb_control.c:121-139 | Stores one packet behind the ones before it, or stalls a packet shorter than expected |
| UsbControl.ControlEndpoint.UsbStandardSetAddress | Bootloader/libopencm3/lib/usb/usb_standard.c:238-263 | Handled exactly for addresses below 128; the device address moves at once only for drivers that want it before the status stage |
| Descriptors.BuildConfigDescriptor | Bootloader/libopencm3/lib/usb/usb_standard.c:68-140 | For every configuration tree and every requested length: exactly the prefix of length min(len, total) of the in-order concatenation is written, with wTotalLength the sum of all parts however short the request; nothing beyond is touched |
| Descriptors.TotalLengthLeadsToAll | Bootloader/libopencm3/lib/usb/usb_standard.c:68-140 | What a host does with it: any request of at least four bytes shows a wTotalLength with which the next request returns everything |
| Descriptors.EndpointPlace | Bootloader/libopencm3/lib/usb/usb_standard.c:68-140 | Where each part stands: an endpoint descriptor and its extra bytes right behind the bytes of their setting and the endpoints before |
| Descriptors.AltSettingPlace | Bootloader/libopencm3/lib/usb/usb_standard.c:68-140 | A setting and its extra bytes behind the association of their interface and the settings before |
| Descriptors.AssociationPlace | Bootloader/libopencm3/lib/usb/usb_standard.c:68-140 | The configuration first, and each association at the head of its interface |
| Descriptors.TotalIsSum | Bootloader/libopencm3/lib/usb/usb_standard.c:68-140 | And nothing else: the total is the sum of the lengths of all parts |
| MassStorage.ReadTransaction | Bootloader/libopencm3/lib/usb/usb_msc.c:669-731 | For every block count, READ(10) and READ(6): the data sent are exactly blocks lba to lba+n-1 in order in full packets, then one 13-byte CSW with the CBW's tag; the record is back in its initial state with current_block 0 and the disk unchanged. Which blocks a command names: ScsiHost.RequestUnderstood |
| MassStorage.WriteTransaction | Bootloader/libopencm3/lib/usb/usb_msc.c:554-610 | For every block count, WRITE(10) and WRITE(6): write_block is called once per LBA, in order, with exactly the received bytes, one CSW with the tag is sent, and the record is back in its initial state. Which blocks a command names: ScsiHost.RequestUnderstood |
| ScsiHost.RequestUnderstood | Bootloader/libopencm3/lib/usb/usb_msc.c:258-540 | Commands written from the host's side, big-endian as the standards have them, are read by the device as sent, for every operation, 32-bit address and 16-bit count, but for two quirks of the short forms: READ(6) drops the upper five bits of its address, and a count of 256 is taken as none |
| ScsiHost.TenByteCommands | Bootloader/libopencm3/lib/usb/usb_msc.c:299-337 | READ(10) and WRITE(10) name the blocks the host means, for every address and count |
| ScsiHost.SixByteCommands | Bootloader/libopencm3/lib/usb/usb_msc.c:258-297 | What READ(6) and WRITE(6) name |
| ScsiHost.KnownCommands | Bootloader/libopencm3/lib/usb/usb_msc.c:494-538 | Exactly eleven operation codes are known |
| ScsiHost.StatusIs | Bootloader/libopencm3/lib/usb/usb_msc.c:483-491 | A status is, byte for byte, the wrapper the host expects: "USBS", the tag, the residue low byte first, the status |
| ScsiHost.InquiryIs | Bootloader/libopencm3/lib/usb/usb_msc.c:201-220 | INQUIRY data: a removable disk, and the three names in fields of 8, 16 and 4 bytes, cut off or filled up with blanks |
| ScsiHost.SenseIs | Bootloader/libopencm3/lib/usb/usb_msc.c:222-239 | REQUEST SENSE data: key, code and qualifier in bytes 2, 12 and 13 of the fixed format |
| ScsiHost.CapacityIs | Bootloader/libopencm3/lib/usb/usb_msc.c:341-361 | READ CAPACITY data: the last block and 512, each big-endian in four bytes |
| DiskSession.HostReads | Bootloader/libopencm3/lib/usb/usb_msc.c:544-731 | A host that sends READ(10) at any point of any session of its own requests gets for each block what its requests so far have put there, and a good status with its tag, all in the host's own encodings |
| DiskSession.HostWrites | Bootloader/libopencm3/lib/usb/usb_msc.c:544-731 | And WRITE(10) is answered with a good status with its tag |
| DiskSession.SessionReports | Bootloader/libopencm3/lib/usb/usb_msc.c:343-476 | In any session, each report tells what the history says: the disk's name and size, and the sense codes the commands before left |
| MassStorage.WriteReadSession | Bootloader/libopencm3/lib/usb/usb_msc.c:544-731 | A write transaction followed by a read transaction of the same range returns the data written |
| DiskSession.SessionAnswers | Bootloader/libopencm3/lib/usb/usb_msc.c:544-731 | Whole sessions: in any list of commands, each carried out packet by packet through both endpoints, every command that is no report is answered, data and status, as the drive that is only its history answers: a block reads as the part of the last write that covers it, as zeros if formatted since, and as at first otherwise |
| DiskSession.SessionKeeps | Bootloader/libopencm3/lib/usb/usb_msc.c:479-731 | After any list of commands, reports included, the record is ready for the next one, and every block of the 32-bit range and the sense codes are what the history says |
| DiskSession.StoredAt | Bootloader/libopencm3/lib/usb/usb_msc.c:585-595 | One command changes a block exactly if it is a write that covers it, block addresses wrapping at 32 bits, or a format below the stored count |
| MassStorage.WriteThenRead | Bootloader/libopencm3/lib/usb/usb_msc.c:585-595 | Blocks written are read back, for every range of up to 65536 blocks, wrapping included |
| MassStorage.WriteElsewhere | Bootloader/libopencm3/lib/usb/usb_msc.c:585-595 | No other block changes |
| MassStorage.EmptyTransaction | Bootloader/libopencm3/lib/usb/usb_msc.c:479-539 | Commands that transfer nothing send one CSW: passed, or failed for an unknown command; only FORMAT UNIT touches the disk; the record is back in its initial state |
| MassStorage.ReportTransaction | Bootloader/libopencm3/lib/usb/usb_msc.c:343-476 | INQUIRY, REQUEST SENSE, MODE SENSE and READ CAPACITY: the report goes out from the front of the block buffer in full packets and a rest, for both endpoint sizes, then one CSW with the tag and the residue the command sets; the record is back in its initial state, disk unchanged |
| MassStorage.FormattedBlocks | Bootloader/libopencm3/lib/usb/usb_msc.c:363-378 | FORMAT UNIT clears every block but the last |
| MassStorage.PartialCbwIsAnswered | Bootloader/libopencm3/lib/usb/usb_msc.c:554-664 | A quirk kept: a first packet shorter than a CBW is answered at once, with the signature, tag and residue of the transaction before (zeros after power-on), and a status that fails if the opcode byte in the buffer, new or old, is unknown |
| MassStorage.UsbMsc.MscDataRxCb | Bootloader/libopencm3/lib/usb/usb_msc.c:544-666 | Has the effect of the OUT event on the transaction record, disk and endpoint |
| MassStorage.UsbMsc.MscDataTxCb | Bootloader/libopencm3/lib/usb/usb_msc.c:669-731 | Has the effect of the IN event on the transaction record, disk and endpoint |
| MassStorage.UsbMsc.ScsiCommandCbwValid | Bootloader/libopencm3/lib/usb/usb_msc.c:479-539 | For every opcode: sets the counters, the status and tag, the sense codes, the report and, for FORMAT UNIT, the blocks, as the specification does |
| MassStorage.UsbMsc.ScsiCommandNeedStatus | Bootloader/libopencm3/lib/usb/usb_msc.c:479-539 | The second event: an unknown opcode fails and drops the transfer, the two trivial commands reset the sense codes, all others do nothing |
| RingBuffer.Run | Bootloader/App/CircularBuffer.h:13-43 | For any interleaving of the single reads and writes of one producer and one consumer: what was pulled is a prefix of what was accepted, the rest is exactly what the buffer holds, and at most size-1 items are held |
| RingBuffer.SafeStep | Bootloader/App/CircularBuffer.h:13-43 | Every single read or write keeps the protocol's invariant |
| RingBuffer.Linearizable | Bootloader/App/CircularBuffer.h:13-43 | The tests agree with the queue: full is reported only when size-1 items are held and empty only when all are pulled, and a consumer reads no slot before its item was stored |
| RingBuffer.PutAlone | Bootloader/App/CircularBuffer.h:13-19 | The steps of a put that nothing interrupts can all be taken, accept the value as the last exactly if there is room, and end the call |
| RingBuffer.PullAlone | Bootloader/App/CircularBuffer.h:27-32 | The steps of a pull that nothing interrupts can all be taken, take the oldest item exactly if there is one, and end the call |
| RingBuffer.CircularBuffer.Put | Bootloader/App/CircularBuffer.h:13-19 | Appends the value exactly when fewer than size-1 items are held |
| RingBuffer.CircularBuffer.Pull | Bootloader/App/CircularBuffer.h:27-32 | Takes the oldest item, or leaves the out value alone when there is none |
| RingBuffer.CircularBuffer.Get | Bootloader/App/CircularBuffer.h:21-25 | Shows the oldest item without taking it |
| DebugMonitor.InvariantKept | Bootloader/App/Debug.cpp:173-386 | Every event of every run keeps: stepOnThread 2 or 3 implies exitFromInterrupt; BASEPRI is 0x30 exactly when stepOnThread is 2 or 3; the command loop holds no pending step |
| DebugMonitor.StepWaitsForThread | Bootloader/App/Debug.cpp:178-199 | After a step accepted in thread mode, any number of interrupt entries without a breakpoint and of queued commands never reach the command loop or change the halt state |
| DebugMonitor.StepReachesLoop | Bootloader/App/Debug.cpp:178-234 | With a step pending, an entry ends in the command loop exactly if it is from an interrupt with DFSR_BKPT set, or from thread mode unless the step was postponed this very time, except for a request with nothing queued; only there can a breakpoint be reported, and BASEPRI is 0; any other entry leaves the halt state alone |
| DebugMonitor.StepOver | Bootloader/App/Debug.cpp:178-234 | From any state, a step is over by the second thread-mode entry and BASEPRI is 0 again, whatever comes between in interrupts, breakpoints and command loops included |
| DebugMonitor.StepCompletes | Bootloader/App/Debug.cpp:178-234 | The course of a step that meets no breakpoint: the command loop is reached at the first thread-mode entry if no interrupt came before, otherwise at the second, with BASEPRI 0x30 until then |
| DebugMonitor.StartStays | Bootloader/App/Debug.cpp:274-366 | A start command at the head of the queue stays there, whatever happens, until a thread-mode entry |
| DebugMonitor.StartConsumed | Bootloader/App/Debug.cpp:178-366 | From any reachable state it is consumed at the latest in the command loop of the second thread-mode entry, whatever comes between in interrupts: breakpoints, command loops that postpone it again, further commands |
| DebugMonitor.HaltTaken | Bootloader/App/Debug.cpp:246-249 | A halt command is taken off the queue, the handler stays in its loop, and the halt state is "requested" |
| DebugMonitor.HaltedStays | Bootloader/App/Debug.cpp:236-386 | Over any run: once halted, the handler stays in its loop and does not report running until a resume, step or start command is at the head of its queue |
| DebugMonitor.HaltServed | Bootloader/App/Debug.cpp:40-44 | A halt request while the program runs: the next entry and one turn of the loop, and it is halted |
| DebugMonitor.EntryStops | Bootloader/App/Debug.cpp:218-234 | An entry with no step under way reaches the command loop unless it was requested with nothing queued; unrequested and with nothing queued it is reported as a breakpoint |
| DebugMonitor.SteppingEnds | Bootloader/App/Debug.cpp:178-216 | An entry that ends a step, a breakpoint in an interrupt or a thread-mode entry, switches stepping off and unmasks interrupts |
| DebugMonitor.ResumeTaken | Bootloader/App/Debug.cpp:251-257 | A resume command lets the program run without stepping; the exception stays pending only for what is still queued |
| DebugMonitor.StepTaken | Bootloader/App/Debug.cpp:259-272 | A step command lets the program run with stepping on and nothing pending, and in thread mode sets up the step to survive interrupts |
| DebugMonitor.StartTaken | Bootloader/App/Debug.cpp:274-366 | In thread mode a start command continues at its address with its stack: the two loops on a fresh one and reported as running, the firmware on its own and not |
| DebugMonitor.StartRefused | Bootloader/App/Debug.cpp:328-352 | Without firmware, its reset address in user flash and not erased, the start command is used up and the program goes on exactly if it was running |
| DebugMonitor.StartPostponed | Bootloader/App/Debug.cpp:274-366 | In an interrupt a start command stays queued and the program goes on under stepping |
| DebugMonitor.JumpStarts | Bootloader/App/Debug.cpp:280-290 | The registers of a started program: thread mode, the address in pc and lr, the Thumb bit from it |
| DebugMonitor.InterruptIsException | Bootloader/App/Debug.cpp:176 | An interrupt is active exactly for the exception numbers other than 0 (and 256, which the mask leaves out) |
| DebugMonitor.Handler.DebugHaltRequest | Bootloader/App/Debug.cpp:40-44 | Queues the halt command and returns true exactly if there is room, and pends the monitor either way |
| DebugMonitor.Handler.DebugResume | Bootloader/App/Debug.cpp:46-50 | Queues the resume or step command and returns true exactly if there is room, and pends the monitor either way |
| DebugMonitor.Handler.DebugStart | Bootloader/App/Debug.cpp:52-62 | Queues the start command and returns true exactly if there is room, and pends the monitor either way |
| DebugMonitor.Handler.DebugStartEraseLoop | Bootloader/App/Debug.cpp:64-70 | Queues the range in its own ring and the command in the other, each exactly if its ring has room, returns true exactly if both had, and pends the monitor either way |
| DebugMonitor.OnlyThreadModeRewrites | Bootloader/App/Debug.cpp:274-366 | Saved pc, lr, sp and xPSR are rewritten only by a start command taken off the queue in a command loop entered from thread mode |
| DebugMonitor.Handler.DebugHandler | Bootloader/App/Debug.cpp:173-234 | The prologue has the effect of the entry event: postponed, stopped at the gate, or in the command loop |
| DebugMonitor.Handler.CommandLoopTurn | Bootloader/App/Debug.cpp:241-383 | One turn of the command loop has the effect of the turn event |
| DebugMonitor.Handler.StartCommand | Bootloader/App/Debug.cpp:274-366 | The three start commands: run now with fresh registers, or leave and come back from thread mode |
| FlashPatchRuns.SetIsUnion | Bootloader/App/main.cpp:256-282 | For every proper array and every list without word zero: the half-words the array stops at after a set command are the union of those before and the list, if and only if the words in use with the words of the list are no more than the comparators |
| FlashPatchRuns.RoomForAll | Bootloader/App/main.cpp:256-282 | Every breakpoint of a list without word zero finds a comparator at its turn exactly under that count, and the words in use afterwards are the union |
| FlashPatchRuns.RunRepresents | Bootloader/App/main.cpp:247-297 | Over any sequence of commands, none of which sets word zero, the comparators stay proper (0, or enabled with a word and a half selected; no two with one word); and while the words of the half-words set so far, with those of each list, are no more than the comparators, a condition on the commands alone, the unit stops at exactly the half-words set and not cleared since |
| FlashPatchRuns.WordsInUse | Bootloader/App/main.cpp:259-281 | The comparators in use are then those of the words of that set |
| FlashPatch.SetOneRepresents | Bootloader/App/main.cpp:259-281 | One set of a nonzero word adds exactly its half-word, if and only if its word is in use or a comparator is free |
| FlashPatch.ClearAllRepresents | Bootloader/App/main.cpp:284-297 | For every proper array and every list, word zero included, a clear command is set difference |
| FlashPatch.SetThenClear | Bootloader/App/main.cpp:256-297 | Setting a list without word zero and clearing it restores the array bit for bit, full array or not, if and only if none of its half-words was set before |
| FlashPatch.Canonical | Bootloader/App/main.cpp:261-280 | A comparator is determined by the half-words it stops at |
| FlashPatch.HasIsStop | Bootloader/App/main.cpp:261-280 | For code addresses, a comparator "stops at" a half-word exactly when the unit stops a fetch from it, as the architecture manual defines it |
| FlashPatchRuns.RunStops | Bootloader/App/main.cpp:247-297 | After any sequence of commands on code addresses for which the comparators suffice, the unit stops a fetch exactly at the half-words set and not cleared since |
| FlashPatch.ZeroWordSplits | Bootloader/App/main.cpp:266 | Why word zero is excluded: an empty comparator is taken for the one that holds it, and one word ends up in two comparators |
| FlashPatch.SetOneKeepsProper | Bootloader/App/main.cpp:259-281 | For every proper array: setting keeps it proper if and only if the word is not zero or no comparator is empty |
| FlashPatch.FlashPatchUnit.BreakpointCommand | Bootloader/App/main.cpp:247-297 | The loops over the frame's list have the effect of the specification on all comparators |
| Breakwatch.RunRefines | GdbServer/Gdb/target.c:426-482 | For every sequence of set and clear calls from any sound state, the results are those of two bounded bags of requests, one per comparator unit, and the list holds exactly the requests of the bags |
| Breakwatch.StepRefines | GdbServer/Gdb/cortexm.c:990-1057 | One call does to the requests what it does to the bags, with the same result, and keeps the bijection |
| Breakwatch.InitialIsBijective | GdbServer/Gdb/cortexm.c:990-1057 | The empty list with disabled comparators is a sound state |
| Breakwatch.SetKeepsBijection | GdbServer/Gdb/cortexm.c:990-1037 | After a set: a slot flag is true exactly when one list entry of that unit holds the index, comparators hold the encoding of their entry, free slots are disabled |
| Breakwatch.ClearKeepsBijection | GdbServer/Gdb/cortexm.c:1039-1057 | A clear frees exactly the removed entry's slot and keeps the bijection |
| Breakwatch.FullWhenCounted | GdbServer/Gdb/cortexm.c:1003-1008 | All slots of a unit are taken exactly when the list holds as many of its requests as it has slots |
| Breakwatch.SetFails | GdbServer/Gdb/cortexm.c:1003-1023 | Set returns -1 exactly when every slot of its unit is taken, and a call that does not succeed changes nothing |
| Breakwatch.SetThenClear | GdbServer/Gdb/target.c:426-482 | Setting and clearing one request gives back the list, every flag and every enabled comparator |
| Breakwatch.BreakpointStopsThere | GdbServer/Gdb/cortexm.c:996-1001 | For both comparator revisions, the value written for an instruction address matches the fetch at that address and no other |
| Breakwatch.WatchpointCovers | GdbServer/Gdb/cortexm.c:957-988 | The three registers written for an aligned watchpoint of 1, 2 or 4 bytes match exactly the accesses its kind names, reads, writes or both, to exactly its bytes |
| Breakwatch.FunctionFields | GdbServer/Gdb/cortexm.c:971-988 | The other fields of the function register: data size "word" on ARMv7-M, zero on ARMv6-M, and nothing else |
| Breakwatch.FetchStopsAtListed | GdbServer/Gdb/cortexm.c:990-1057 | In every sound state some comparator stops the fetch at an address exactly if a breakpoint there is listed |
| Breakwatch.AccessStopsAtListed | GdbServer/Gdb/cortexm.c:990-1057 | And some comparator stops a read or a write exactly if a listed watchpoint is for it |
| Breakwatch.Target.TargetBreakwatchSet | GdbServer/Gdb/target.c:426-452 | The driver call and the list insertion have the effect of the specification |
| Breakwatch.Target.TargetBreakwatchClear | GdbServer/Gdb/target.c:454-482 | The list search, the driver call and the unlinking have the effect of the specification, -1 when no entry matches |
| Breakwatch.Target.CortexmBreakwatchSet | GdbServer/Gdb/cortexm.c:990-1037 | The slot scan and the register writes have the effect of the specification, and the index is reported |
| Breakwatch.Target.CortexmBreakwatchClear | GdbServer/Gdb/cortexm.c:1039-1057 | Frees the entry's slot and disables its comparator |
| Crc.GenericCrc32 | GdbServer/Gdb/crc32.c:100-116 | For every memory, base and length, the byte-table loop with its 128-byte chunks returns the bit-serial CRC-32 of the range |
| Crc.GenericCrc32Unit | GdbServer/Gdb/crc32.c:119-151 | For every memory, base and length, the loop that feeds swapped words to the CRC unit and finishes bit by bit returns the same bit-serial CRC-32 |
| CrcTable.TableIsSteps | GdbServer/Gdb/crc32.c:28-93 | Each of the 256 literals is eight polynomial steps of its index |
| Crc.CalcFeeds | GdbServer/Gdb/crc32.c:95-98 | One look-up shifts in exactly the eight bits of the byte |
| Crc.WordFeeds | GdbServer/Gdb/crc32.c:134-135 | One byte-swapped word through the unit's 32 steps is the same 32 message bits as its four bytes in memory order |
| Crc.StepsFeed | GdbServer/Gdb/crc32.c:142-149 | Adding the message first and stepping is shifting the message in bit by bit |
| Crc.TailByte | GdbServer/Gdb/crc32.c:143-149 | One round of the bitwise tail shifts in one byte |
| GdbPacket.RoundTrip | GdbServer/Gdb/gdb_packet.c:34-177 | Every payload that fits the buffer is received from its frame, after any prefix without '$' and EOT |
| GdbPacket.PeerRoundTrip | GdbServer/Gdb/gdb_packet.c:114-125 | Every payload that fits is received from any peer, in whichever case it prints the two digits of its checksum |
| GdbPacket.ReceiveDigits | GdbServer/Gdb/gdb_packet.c:114-125 | Framed clean text with two digits behind it, of either case, is accepted exactly if they spell the sum of its bytes modulo 256 |
| GdbPacket.StrtolShort | GdbServer/Gdb/gdb_packet.c:114-125 | What the other pairs of characters spell: one digit before anything else or after a blank or a sign, and otherwise zero |
| GdbPacket.FrameIs | GdbServer/Gdb/gdb_packet.c:142-176 | A frame byte by byte: '$', the escaped payload, '#', the sum in two upper-case digits |
| GdbPacket.EscapedAs | GdbServer/Gdb/gdb_packet.c:155-159 | '$', '#' and '}' are sent as '}' and the byte with bit 5 changed, and no other byte is escaped |
| GdbPacket.FullBuffer | GdbServer/Gdb/gdb_packet.c:95-97 | Any byte that comes when the buffer is full ends the packet |
| GdbPacket.EndOfTransmission | GdbServer/Gdb/gdb_packet.c:50-64 | An end-of-transmission byte between packets is reported as such |
| GdbPacket.Sound | GdbServer/Gdb/gdb_packet.c:95-126 | On any input: an accepted payload fits the buffer and is the unescaping of the bytes since the last unescaped '$', ended by '#' or a full buffer, with the right checksum; every refused frame before it was answered with '-' and it with '+' |
| GdbLink.Delivered | GdbServer/Gdb/gdb_packet.c:34-177 | Both ends together, the sender reading one by one the answers the receiver gives: with the first transmissions damaged, any number of them, into any pieces of which each is text without '$' and EOT, a short frame that lost its end (a '$' coming next), or a frame with a wrong checksum, the sender sends once for each damaged one, once more, and once for each answer it is then behind, four times at most; each intact transmission is delivered; and that many answers stay unread. Damage that overfills the buffer, holds an EOT, or passes the checksum by chance is not covered |
| GdbLink.DeliveredOnce | GdbServer/Gdb/gdb_packet.c:34-177 | With up to three damaged, exactly when each costs one transmission and the packet is delivered once: three are, or from any damaged transmission on there are no more answers than transmissions |
| GdbLink.RefusedTwice | GdbServer/Gdb/gdb_packet.c:115-125 | The run that shows the exception: a transmission that arrives as two refused frames has the sender send three times, and the packet is delivered twice |
| GdbLink.ServeSent | GdbServer/Gdb/gdb_packet.c:34-140 | What calls of the receiver make of the line: only a '-' for each refused frame of the damaged transmissions, then a '+' and a packet for each intact one |
| GdbLink.ReceiveDamaged | GdbServer/Gdb/gdb_packet.c:44-123 | Such pieces leave nothing behind but one '-' for each refused frame |
| GdbPacket.ReceiveFramed | GdbServer/Gdb/gdb_packet.c:95-125 | What the parser makes of any framed clean text that fits, for any two checksum characters: accepted exactly if the number they spell is the sum, otherwise refused and skipped |
| GdbPacket.Restart | GdbServer/Gdb/gdb_packet.c:97-105 | A '$' inside a packet restarts the capture, unless the buffer is full: then it is taken as the terminator |
| GdbPacket.CutShort | GdbServer/Gdb/gdb_packet.c:97-105 | A frame cut short before the buffer is full costs nothing: the next frame is received |
| GdbPacket.UnescapeEscape | GdbServer/Gdb/gdb_packet.c:106-111 | Unescaping undoes escaping, and escaped text holds no frame delimiter |
| GdbPacket.SumIsModulo | GdbServer/Gdb/gdb_packet.c:162-166 | The checksum is the sum of the raw bytes modulo 256 |
| GdbPacket.Transmissions | GdbServer/Gdb/gdb_packet.c:176 | One call transmits until the first '+', at least once and at most four times |
| GdbPacket.Connection.GdbGetPacket | GdbServer/Gdb/gdb_packet.c:34-140 | The wait, capture, check and retry loops return what the parser specification says on every input, send its acknowledgements, terminate the payload with a zero byte, and leave the rest unread |
| GdbPacket.Connection.CaptureData | GdbServer/Gdb/gdb_packet.c:95-113 | The capture loop stores nothing at or past the buffer size |
| GdbPacket.Connection.GdbPutPacket | GdbServer/Gdb/gdb_packet.c:142-177 | Sends exactly the frame of the payload, as often as the replies ask for |

## Left out

- The other end of the GDB line is taken to run the same two functions; replies of the server to its commands are not part of it.
- Sockets, WinUSB, threads, timing and the reply time-out: what a port reads is a parameter; an input that runs out is a call that waits.
- Host register transfer (`regsRead`, `regsWrite`) and the `stm32_mem_write` and `stm32_reg_write` adapters: multi-chunk transfers do not hold there; the flash path calls `memWrite` directly, as modelled.
- Host breakpoint chunking: only the device's command on one frame's list is modelled.
- FlashCache.FlashTarget.FlashWrite: one flash region, where the source walks a list; the STM32F1 probe adds exactly one (GdbServer/Gdb/stm32f1.c:118-125). It also excludes destinations below 0x08004000, where the bootloader itself lives and the device stores instead of programming.
- FlashCache.FlashTarget.FlashDone: the Detach command of the done callback is counted, its effect on the bootloader is not modelled.
- Flash timing, lock bits, failing programming operations and the bus faults of half-word programming at odd addresses.
- The other standard requests (GET_STATUS, SET_CONFIGURATION, SET_INTERFACE and the like) and string and device descriptors: their handlers are abstract replies of at most wLength bytes.
- Control callbacks that return more than wLength bytes.
- Mass storage with 8- or 16-byte endpoints, failing endpoint or disk operations, and a host that reads the status early.
- Races on DEMCR between the handler and the interrupt that queues a command: an event is atomic, except in the ring, whose single reads and writes interleave freely.
- Slot sizing and re-attach in `cortexm_attach`: slot maxima within the arrays are a precondition, and the list is not reset.
- Remote-control packets ('!'), which only probes built without a host process: the modelled build is the hosted one.
- The semihosting, ADIv5, monitor-command and exception parts of the server, hex helpers, FIFO copies and register plumbing.
- Breakwatch.Target.TargetBreakwatchClear: the linked list is a sequence, so relinking and freeing of nodes are not captured.
- FlashCache.FlashRegion.DoneBuffered: a buffer allocated by a write of length zero is not live and so is not released, as in the code; that leak is stated, not judged.
- Bootloader.DbgMemcpy: fault masking around the copy is not modelled, and source and destination are distinct arrays.
