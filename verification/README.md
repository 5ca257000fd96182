# Verified models of the flash store, boot protection, CAN and command line

The project models five pieces of the firmware and proves what they promise, for all inputs and all runs.

**The key-value store in NOR flash** (`Drivers/flash_fs`). Two adjacent pages hold a log of records: id, inverted
id, length, CRC and payload. Readers scan a page byte by byte and re-synchronise on any offset that passes the
record test; the last copy of an id wins. Programming can only clear bits, so a write is a bitwise AND.

- `Bytes`, `NorFlash`: bytes, and flash operations as values. `Cut(m, ops, k, chip)` is the flash after the
  supply lasted for `k` programmed bytes of `ops`, so a statement about every `k` is a statement about every
  power cut and every failing step. The device may read its writes back (CC26x2) or not (STM32F4).
- `Records`: the record test and the scan, with an exact characterisation of what the scan reports.
- `Store`: for every call of the driver, the list of flash operations it performs on a given flash content; for
  page turns, maintenance and initialisation also what they do on any flash and with any supply.
- `FlashFs`: the driver itself as a class over the flash bytes, with the loops of the source. Every method is
  proved to do exactly what `Store` says, wherever a step fails.
- `StoreSteps`, `Copies`, `StoreLaws`, `TurnLaws`: repair, update and page turn on any flash content.
- `Layout`, `Upkeep`: the bytes of marks and records and the refused calls, spelled out; maintenance and formatting.
- `Steady`, `Reads`: what a cut or completed call leaves for `mm_get`: `ReadBack` is what it returns, which differs
  from the last-wins map exactly for an id with a shadowed copy of more than 249 bytes.
- `Runs`, `Sessions`: whole runs, with any ids and values, in which every call but a format may be cut after any
  byte: what can be read is a plain map driven by what the caller sees. `Sessions` makes the calls with the methods
  of the driver. Of dead flash it is assumed that no call leaves a page whose scan reports a record that was never
  stored, or that does not fit.
- `TidyStore`, `TidyOps`, `MildRuns`: a discipline for ids and values under which that is proved instead.
- `Invalidation`, `InitLaws`, `Limits`, `TightFit`: invalidation; initialisation and the reboot counter; where the
  driver's own checks stop short.

**Hang protection of the boot loader** (`Drivers/boot_drv`): `Boot` is the driver over the map that the store
keeps, `BootRuns` its behaviour over any run of resets.

**Message RAM and frames of the CAN controller** (`Drivers/tcan4550_q1_ti`): `Mram` is the layout of seven
sections and the address arithmetic, `Frames` the packing of headers and payloads into words.

**Sending over CAN** (`Drivers/can`, `Drivers/tcan4550_q1`): `CanSend`, segmentation into frames.

**The command-line tokenizer** (`Drivers/cli_drv`): `Cli`, in place on the line buffer.

## What the code does not meet

Some promises do not hold as the comments state them. Each is stated as a lemma that says what happens or
exactly when the promise holds.

- `mm_set` compares the free space with the payload alone (flash_fs.c:420-423). With eight bytes left, a one-byte
  update reports success and loses both the old and the new value (`Limits.TightFitLost`). On every page of 28
  bytes or more a few successful calls after a format lead there (`TightFit.TightFitReached`).
  `StoreLaws.SetExact` has the exact condition for an update to be stored.
- The comment of `mm_set` promises that an interrupted update leaves the old or the new value
  (flash_fs.c:384-388). What `mm_get` returns keeps that promise after every cut if and only if the value read
  before the call, if any, has at most 249 bytes (`Reads.TearExactly`). For a longer one, power lost between payload
  and kill leaves two copies; the first is too long for one zeroing (flash_fs_ll.c:35), so every later read, update
  and invalidation of the id fails (`Reads.StuckFails`). Page turns copy both; no run of calls helps but a format
  (`Runs.StuckRun`). `Limits.StuckReached` has the input, three calls after which this happens.
- With more bytes left than the payload and fewer than header and payload, the new record may end up to six bytes
  after its page (`Limits.OverhangExact`). On such a log the remaining space wraps around (flash_fs.c:217): every
  value passes the space test (`Limits.OverhangAccepts`) and is programmed outside the page (`Limits.SetExtent`),
  a completed update is lost together with the value it replaces, and maintenance never turns the page
  (`Limits.OverhangLost`). A page turn may destroy the record that overhangs (`Limits.OverhangTurn`). One value,
  stored on a freshly formatted page, leads there (`Limits.OverhangReached`).
- `mm_invalidate` of the last record moves the end of the log back onto zeroed bytes
  (`Invalidation.InvalidateExact`). Where writes are not read back, an update carried out there reports success and
  stores nothing that can be found; where they are, it fails (`Invalidation.InvalidateThenSet`,
  `Invalidation.UpdateLost`, `StoreLaws.VerifiedRefuses`). The same holds after a
  torn update whose bytes cannot take the next record. A page turn makes up for both, but not for a long value that
  two copies hide (`Runs.TornRecovers`); the firmware does not start one for this reason.
- A payload that contains the image of a record comes to life when its own header is zeroed
  (`Limits.ImageSurfaces`). Bytes below 0x80 can never do this (`TidyStore.SevenBitIsMild`).
- A duplicate with more than 249 payload bytes cannot be zeroed (`StoreLaws.RepairAccepted`).
- On pages of more than 65535 bytes, erased flash after an invalidated last record passes for a record of id 0 if
  the CRC of 65535 erased bytes is that of erased flash (`Invalidation.LastInvalidated`).
- The filter accessors let one index too many pass (`Mram.SidAccess`, `Mram.XidAccess`, `Mram.XidNone`).
- The final guard of the message-RAM configuration never rejects (`Mram.Mcan.Configure`); the elements are in
  bounds exactly when the total is at most 2048 bytes (`Mram.InBoundsExactly`).
- A format that is cut within its first two bytes completes a half mark on page 2, if no page was active; the old
  records of page 2 are read again then (`Upkeep.FormatAtomic`).
- `boot_try_app` notices a command of the wrong length, but then goes on with the bytes that were read
  (boot_driver.c:135-152); the model follows the code.

## Model

| member | source | states |
|---|---|---|
| Records.ScanStep | Drivers/flash_fs/flash_fs.c:83-114 | The first reported record is the least offset that passes the id, length and CRC test; the scan goes on at its end |
| Records.ScanExact | Drivers/flash_fs/flash_fs.c:83-114 | Records in order and not overlapping are exactly what the re-synchronising scan reports, if and only if no dead offset passes the test |
| Records.ScanFrame | Drivers/flash_fs/flash_fs.c:83-114 | A scan whose claims stay below a bound depends on no byte outside |
| Records.LastIsMap | Drivers/flash_fs/flash_fs.c:189-229 | Searching the last copy of an id is looking the id up in the last-wins map |
| NorFlash.CutFrame | Drivers/flash_fs/flash_fs_ll.c:25-40 | Wherever a run of steps is cut, bytes outside their window are unchanged |
| Bytes.AndExactly | bsp_cc26x2/flash_nvs/flash_nvs_drv.c:89-89 | Programming a byte leaves the one byte whose set bits are those set before and in the data |
| NorFlash.CutClears | bsp_cc26x2/flash_nvs/flash_nvs_drv.c:83-100 | Wherever a run of steps is cut, a byte that no step erases has no bit set that was clear |
| NorFlash.ProgrammableExactly | bsp_cc26x2/flash_nvs/flash_nvs_drv.c:89-89 | Data is read back as written exactly if each of its set bits was set in the flash |
| Layout.ActiveExactly | Drivers/flash_fs/flash_fs.c:25-57 | Page 1 is active exactly with the bytes 00 00 A5 5A on it, page 2 exactly with them on it and not on page 1 |
| Layout.HeaderBytes | Drivers/flash_fs/flash_fs.c:449-453 | The seven bytes of a header: id, its complement and the length, low bytes first, and the CRC |
| Layout.RecordExactly | Drivers/flash_fs/flash_fs.c:88-109 | An offset passes the test exactly if the image of a record is there that starts more than eight bytes before the end of the page and whose payload is shorter than what is left |
| Layout.RecordRead | Drivers/flash_fs/flash_fs.c:101-109 | Such an image is read as its id and payload, and the scan goes on seven bytes and the payload further |
| Layout.SetRefuses | Drivers/flash_fs/flash_fs.c:402-405 | The invalid id, an empty value and a flash without an active page are refused, and nothing is touched |
| Layout.SetFull | Drivers/flash_fs/flash_fs.c:420-446 | A new value with more bytes than are left is refused, and nothing but repairs is done |
| Layout.InvalidateNothing | Drivers/flash_fs/flash_fs.c:557-571 | Invalidating an id that is not stored fails and changes nothing |
| Layout.NextCounterIs | Drivers/flash_fs/flash_fs.c:599-616 | The next counter is zero without a stored one of at most two bytes, and else one more, low byte first, in 16 bits |
| FlashFsDriver.FlashFs.NvsWrite | bsp_cc26x2/flash_nvs/flash_nvs_drv.c:83-100 | Programs the bytes with AND, as far as the supply lasts, and sets no bit; succeeds exactly when the range is accepted, all bytes get programmed and, where writes are read back, could take the data |
| FlashFsDriver.FlashFs.NvsErase | bsp_cc26x2/flash_nvs/flash_nvs_drv.c:102-115 | Erases the range as far as the supply lasts |
| FlashFsDriver.FlashFs.FlashWrite | Drivers/flash_fs/flash_fs_ll.c:25-29 | After a list of steps, one more write: what the extended list leaves, and success exactly when all of it is done |
| FlashFsDriver.FlashFs.FlashZero | Drivers/flash_fs/flash_fs_ll.c:31-40 | The same for zeros, refused above 256 bytes |
| FlashFsDriver.FlashFs.GetActivePage | Drivers/flash_fs/flash_fs.c:34-57 | The marked page, page 1 if both carry the mark |
| FlashFsDriver.FlashFs.CalcRemSize | Drivers/flash_fs/flash_fs.c:59-74 | The bytes from an offset to the end of the active page, in 32 bits with wrap-around |
| FlashFsDriver.FlashFs.TestItem | Drivers/flash_fs/flash_fs.c:91-109 | The test of one offset is the record test of the scan |
| FlashFsDriver.FlashFs.GetNext | Drivers/flash_fs/flash_fs.c:83-114 | Terminates with the least offset at or after its argument that is a record, or reports that there is none |
| FlashFsDriver.FlashFs.FindLast | Drivers/flash_fs/flash_fs.c:189-214 | The search loop zeroes exactly the copies that are not the last, in scan order, and ends at the scan's end |
| FlashFsDriver.FlashFs.FindField | Drivers/flash_fs/flash_fs.c:175-229 | Result, item, empty offset and wrapping remaining space, or failure where a repair fails |
| FlashFsDriver.FlashFs.Get | Drivers/flash_fs/flash_fs.c:516-546 | Succeeds exactly when the repairs get done and the reader's map has the id with a value that fits the buffer, and then returns that value; with a supply that lasts it returns `ReadBack` |
| FlashFsDriver.FlashFs.Set | Drivers/flash_fs/flash_fs.c:395-472 | Performs the repairs, header, payload and kill of the plan, up to the first failure, and reports success exactly when all of it is done |
| FlashFsDriver.FlashFs.Update | Drivers/flash_fs/flash_fs.c:449-471 | Header, payload and kill of the previous header, up to the first failure |
| FlashFsDriver.FlashFs.Invalidate | Drivers/flash_fs/flash_fs.c:557-571 | Performs the repairs and zeroes header and payload of the last copy |
| FlashFsDriver.FlashFs.FindNext | Drivers/flash_fs/flash_fs.c:317-317 | What the copy loop finds next is the first record of the scan from there on, if the page is still active |
| FlashFsDriver.FlashFs.CopyRecords | Drivers/flash_fs/flash_fs.c:313-326 | On any flash, the copy loop writes the next record found, packed, until none is found or a write fails |
| FlashFsDriver.FlashFs.TurnPage | Drivers/flash_fs/flash_fs.c:279-339 | On any flash and with any supply: erase, copies, mark, unmark, stopping at the first failure |
| FlashFsDriver.FlashFs.Maintain | Drivers/flash_fs/flash_fs.c:349-366 | On any flash: turns the page exactly when the space computed is below eight bytes, and otherwise only searches |
| FlashFsDriver.FlashFs.Format | Drivers/flash_fs/flash_fs.c:257-272 | Zeroes the second mark, erases page 1 and marks it, stopping at the first failure |
| FlashFsDriver.FlashFs.CountReboot | Drivers/flash_fs/flash_fs.c:599-624 | With any supply: one more than the counter read is stored, or zero if the read fails |
| FlashFsDriver.FlashFs.Init | Drivers/flash_fs/flash_fs.c:584-626 | With any supply: formats if no page is active, then counts the boot whether or not that succeeded |
| StoreLaws.RepairExact | Drivers/flash_fs/flash_fs.c:189-229 | After a repair exactly the last copy is left if and only if no dead offset passes the record test; then the map is unchanged and a second search writes nothing |
| StoreLaws.RepairAccepted | Drivers/flash_fs/flash_fs_ll.c:31-40 | The repairs are accepted if and only if every copy but the last has at most 249 payload bytes |
| StoreLaws.SetExact | Drivers/flash_fs/flash_fs.c:395-472 | A completed update is scanned as the other records and the new one if and only if the new one is in sight of the scan, its bytes could be programmed and no dead offset passes the test; it is inside the page as well if and only if header and payload fit; then the map is the old one with the id set |
| StoreLaws.SetGoes | Drivers/flash_fs/flash_fs.c:454-469 | An update is completed exactly when the repairs are, the record ends inside the flash region, the supply lasts and, where writes are read back, the bytes can be programmed |
| Reads.ReadIs | Drivers/flash_fs/flash_fs.c:189-229 | With a supply that lasts, `mm_get` returns the last copy of the id, unless a shadowed copy has more than 249 bytes; then it fails |
| Reads.SearchReads | Drivers/flash_fs/flash_fs.c:189-214 | A search cut anywhere, or refused, changes nothing that `mm_get` returns, of any id |
| Reads.SetReads | Drivers/flash_fs/flash_fs.c:384-472 | Cut after any byte, an update leaves every other id reading as before, and the id reading as before while the new record is not found; once it is, the new value is read, unless the copy it replaces is still there and has more than 249 bytes; always after a completed call |
| Reads.TearExactly | Drivers/flash_fs/flash_fs.c:384-388 | After every cut of an update that can be stored a read returns the old or the new value, if and only if the value read before, if any, has at most 249 bytes |
| Reads.LongTear | Drivers/flash_fs/flash_fs.c:459-466 | Cut between payload and kill of a longer value, the new value is the last copy and nothing is read |
| Reads.StuckFails | Drivers/flash_fs/flash_fs.c:198-207 | Where a shadowed copy is too long, every read, update and invalidation of the id fails |
| Reads.TurnReads | Drivers/flash_fs/flash_fs.c:279-339 | A turn cut after any byte changes nothing that `mm_get` returns, of any id, failures included |
| Reads.InvalidateReads | Drivers/flash_fs/flash_fs.c:557-571 | Cut after any byte, an invalidation leaves every other id reading as before, and the id reading as before or gone; gone after a completed call |
| StoreLaws.VerifiedRefuses | Drivers/flash_fs/flash_fs.c:454-462 | Where writes are read back and the bytes cannot be programmed, the update fails and every id reads as before |
| StoreLaws.UpdateUntouched | Drivers/flash_fs/flash_fs.c:449-469 | Wherever an update is cut, no record of another id has changed |
| StoreLaws.UpdateActive | Drivers/flash_fs/flash_fs.c:449-469 | Wherever an update is cut, the active page stays the active page |
| TurnLaws.TurnIsPlan | Drivers/flash_fs/flash_fs.c:279-339 | On a page whose records fit, the turn copies exactly the records that a scan reports on entry |
| TurnLaws.TurnAtomic | Drivers/flash_fs/flash_fs.c:291-338 | After every byte of a page turn some page is active and reads as the old map, also while both pages are marked |
| TurnLaws.TurnCopies | Drivers/flash_fs/flash_fs.c:313-339 | After a turn the same records in the same order, duplicates included; used space is the mark and the record sizes; the rest is erased; the remaining space is not smaller; the old page has no mark |
| TurnLaws.MovedInside | Drivers/flash_fs/flash_fs.c:313-326 | The destination of a copy is never further from its page start than the source |
| TurnLaws.TurnAccepted | Drivers/flash_fs/flash_fs.c:279-339 | No check of the flash driver stops a turn, whether writes are read back or not |
| Upkeep.MaintainStays | Drivers/flash_fs/flash_fs.c:349-366 | With eight bytes left, or on a log that overhangs the page, maintenance leaves flash and supply alone |
| Upkeep.MaintainTurns | Drivers/flash_fs/flash_fs.c:349-366 | With seven bytes left or less the other page becomes active with the same records, and all that they do not need is erased |
| Upkeep.MaintainNothing | Drivers/flash_fs/flash_fs.c:279-289 | Without an active page maintenance succeeds and a turn fails, and nothing is touched |
| Upkeep.MaintainRepairs | Drivers/flash_fs/flash_fs.c:349-366 | A page with a record of the invalid id is never turned |
| Upkeep.MaintainFresh | Drivers/flash_fs/flash_fs.c:349-366 | A freshly formatted store is not turned |
| Upkeep.MaintainMakesRoom | Drivers/flash_fs/flash_fs.c:341-366 | A value that has room beside the live records of a full page, but not behind them, is refused before maintenance, and stored and read after it |
| Upkeep.FormatAtomic | Drivers/flash_fs/flash_fs.c:257-272 | Cut after any byte, a format leaves what was read before, or nothing, but for a half mark on page 2; no page is active while page 1 is being erased and marked |
| TidyStore.SevenBitIsMild | Drivers/flash_fs/flash_fs.c:464-469 | The dead payload of a value of 7-bit bytes can never be taken for a header |
| TidyStore.TidyScan | Drivers/flash_fs/flash_fs.c:83-114 | A page with live records, calm dead bytes and an erased tail is scanned as its records, inside the page |
| TidyStore.TidyKill | Drivers/flash_fs/flash_fs.c:464-469 | Zeroing the header, or all, of a record that is not the last keeps the page tidy |
| TidyOps.TidySearch | Drivers/flash_fs/flash_fs.c:189-214 | A search on a tidy page, completed or refused, leaves a tidy page of records that were there; completed, only the last copy of the id |
| TidyOps.TidySet | Drivers/flash_fs/flash_fs.c:395-472 | An update of a user id with a mild value and room on a tidy page succeeds, keeps the page tidy with an erased tail, and sets the id in the map |
| TidyOps.TidyTurn | Drivers/flash_fs/flash_fs.c:279-339 | A turn cut after any byte leaves a tidy store with the same map |
| TidyOps.TurnTidy | Drivers/flash_fs/flash_fs.c:279-339 | A completed turn of any log of mild records that fits leaves a tidy page |
| TidyOps.FormatReady | Drivers/flash_fs/flash_fs.c:257-272 | From any flash content, formatting gives an empty tidy store |
| Invalidation.InvalidateExact | Drivers/flash_fs/flash_fs.c:557-571 | An invalidation removes the id from the map; the end of the log is still erased if and only if the record was not the last, given that the erased flash does not pass for a record |
| Invalidation.LastInvalidated | Drivers/flash_fs/flash_fs.c:557-571 | After the last record is invalidated exactly the other ids are scanned if and only if the erased flash does not pass for a record: never on pages of at most 65535 bytes, and on longer ones exactly by the CRC of erased flash |
| Invalidation.InvalidateThenSet | Drivers/flash_fs/flash_fs.c:557-571 | After the last record is invalidated, whatever is stored next cannot be found although the call reports success, or the call fails where writes are read back |
| Invalidation.UpdateLost | Drivers/flash_fs/flash_fs.c:449-469 | Where the end of the log cannot be programmed to the new record, an update that is completed, as it is where writes are not read back, is not found |
| Invalidation.ZerosTakeNothing | Drivers/flash_fs/flash_fs.c:449-457 | Zeroed bytes cannot be programmed to any record |
| Steady.SearchAtomic | Drivers/flash_fs/flash_fs.c:189-214 | A search cut anywhere, or refused, changes neither the map nor the end of the log |
| Steady.TurnSteady | Drivers/flash_fs/flash_fs.c:279-339 | A turn cut anywhere keeps the map; completed, it leaves an erased tail |
| Runs.StepRefines | Drivers/flash_fs/flash_fs.c:257-571 | Every call, with any id and value, cut after any byte or not, keeps the store sound, and every read returns what the caller believes from what it saw, given that the call leaves no collision |
| Runs.StepAtomic | Drivers/flash_fs/flash_fs.c:384-388 | Cut or not, a call leaves the map that can be read as it was, or as it should be, unless an update of a value of more than 249 bytes is cut |
| Runs.TornRecovers | Drivers/flash_fs/flash_fs.c:384-388 | After a power loss in an update of a value of at most 249 bytes reads return the old or the new map; a page turn by the caller, itself cut anywhere, keeps what is read, and completed makes the store ready for updates |
| Runs.RunFromFormat | Drivers/flash_fs/flash_fs.c:257-571 | From any flash content, after a format and any run of calls, each cut by power loss or not, a read succeeds exactly if the caller believes in a value from what it saw, and returns it; the tail is erased while the caller keeps the store clean |
| Runs.RunAtomic | Drivers/flash_fs/flash_fs.c:384-388 | If no update of a value of more than 249 bytes is cut, every step of such a run is a step of a plain map |
| Runs.StuckRun | Drivers/flash_fs/flash_fs.c:198-207 | Without a format no run of calls makes an id readable again that has a shadowed copy of more than 249 bytes |
| Sessions.Session | Drivers/flash_fs/flash_fs.c:257-571 | A format and any admissible calls made with the methods of the driver leave the bytes of the run, so every read returns what the caller believes |
| MildRuns.GentleStep | Drivers/flash_fs/flash_fs.c:257-571 | On a tidy store, a call with a user id and a mild value leaves no collision and a tidy store |
| MildRuns.FreshRun | Drivers/flash_fs/flash_fs.c:257-571 | So for runs of mild values the result for all runs holds with nothing assumed of dead flash, but for what follows a power loss in an update, or the invalidation of the last record, until the caller has turned the page |
| InitLaws.InitActive | Drivers/flash_fs/flash_fs.c:584-626 | From any flash content and with any supply an initialisation keeps an active page active, and ends with page 1 active if there was none and the supply lasts for formatting |
| InitLaws.CountExact | Drivers/flash_fs/flash_fs.c:599-624 | On any store with nine bytes left, a boot whose read and update leave no collision stores the next counter, changes no other id and takes nine bytes |
| InitLaws.QuietCount | Drivers/flash_fs/flash_fs.c:599-624 | On a tidy store a boot that stores a counter below 0x8000 leaves no collision and a tidy store |
| InitLaws.BootsCountModulo | Drivers/flash_fs/flash_fs.c:584-626 | With room for `n` boots at the start, `n` boots that leave no collision advance the counter by `n` modulo 65536, change no other id and take nine bytes each |
| InitLaws.BootsCount | Drivers/flash_fs/flash_fs.c:584-626 | On a tidy store with room for `n` boots, counters below 0x8000 advance by `n` with nothing assumed of dead flash |
| InitLaws.FirstBoot | Drivers/flash_fs/flash_fs.c:584-626 | The first boot leaves a formatted store with the counter at zero and nothing else |
| Limits.SpaceTest | Drivers/flash_fs/flash_fs.c:217-217 | The remaining space covers the payload exactly when it ends inside the page without a header, or when the log overhangs the page and the difference wraps |
| Limits.SetExtent | Drivers/flash_fs/flash_fs.c:407-469 | An update, cut anywhere, changes nothing outside the stretch from the first record to the end of the new one; that ends inside the page, at most seven bytes after it, or lies outside altogether, as there is room, no room, or the log overhangs the page |
| Limits.OverhangExact | Drivers/flash_fs/flash_fs.c:419-462 | A completed update is scanned as it should and overhangs the page if and only if more than the payload and eight bytes, but less than header and payload remain, given programmable bytes and quiet dead offsets |
| Limits.OverhangAccepts | Drivers/flash_fs/flash_fs.c:217-423 | Where the log overhangs the page, every new value passes the space test |
| Limits.OverhangLost | Drivers/flash_fs/flash_fs.c:419-471 | There a completed update is lost with the value it replaces, and maintenance never turns the page |
| Limits.OverhangReached | Drivers/flash_fs/flash_fs.c:395-472 | A value seven bytes shorter than the page that ends in four zeros, stored on a freshly formatted page, is read back and leaves such a log |
| Limits.OverhangTurn | Drivers/flash_fs/flash_fs.c:291-298 | On that store the first step of a page turn already changes what is read |
| Limits.TightFitLost | Drivers/flash_fs/flash_fs.c:419-471 | With eight bytes left, a one-byte update reports success and neither value is found |
| TightFit.TightFitReached | Drivers/flash_fs/flash_fs.c:419-471 | On every page of 28 bytes or more, successful calls after a format store a one-byte value that can be read and leave eight bytes; then the next one-byte value of this id, or of any but one other, is reported as stored, and neither it nor the value before it can be read |
| TightFit.TightLoses | Drivers/flash_fs/flash_fs.c:419-471 | On any tidy page with eight bytes left, a one-byte value of any id but that of the last record is reported as stored and removes the id from the map |
| Limits.StuckReached | Drivers/flash_fs/flash_fs.c:459-466 | After a format, a value of more than 249 bytes and a cut update of its id, the id cannot be read any more |
| Limits.ContainedExactly | Drivers/flash_fs/flash_fs.c:91-109 | Page 1 is scanned the same whatever page 2 holds if and only if nothing the scan visits claims bytes of page 2, for any CRC that the last byte decides |
| Limits.ImageSurfaces | Drivers/flash_fs/flash_fs.c:464-469 | The image of a record inside a payload becomes a record when that payload's header is zeroed |
| Limits.SetSame | Drivers/flash_fs/flash_fs.c:409-417 | Storing the value that is already read programs nothing but the repairs of a read |
| Limits.SetTwice | Drivers/flash_fs/flash_fs.c:409-417 | Storing a value again after a call that was scanned as it should writes nothing |
| Boot.BootDriver.BootInit | Drivers/boot_drv/boot_driver.c:251-305 | Counts the launch, or stores STAY_ON after more than five tries; reports what the one store reports, and what a failed store leaves |
| Boot.BootDriver.JumpToCode | Drivers/boot_drv/boot_driver.c:45-104 | Starts exactly a flash address whose stack pointer is in RAM; if only the second test fails, stores STAY_ON and returns what the store reports |
| Boot.BootDriver.TryApp | Drivers/boot_drv/boot_driver.c:127-182 | Starts the application exactly when the command is to launch and the stored address can be started; else the parameters and the result of each branch, with a store that succeeds or fails |
| BootRuns.CommandExactly | Drivers/boot_drv/boot_driver.c:127-153 | A stored command is read as launch or STAY_ON exactly if its first byte is that and zeros follow as far as it was stored |
| BootRuns.LaunchesExactly | Drivers/boot_drv/boot_driver.c:151-166 | The application is started exactly with a stored launch command and a four-byte address that passes both tests |
| BootRuns.InitExactly | Drivers/boot_drv/boot_driver.c:251-305 | A counter above five stores STAY_ON and nothing else; otherwise the counter becomes one more, or zero without one; a lost store changes nothing |
| BootRuns.TryExactly | Drivers/boot_drv/boot_driver.c:127-182 | When nothing is started: without a readable address 0x0001A000 is stored, with one whose stack is not in RAM STAY_ON, and otherwise nothing; and the result |
| BootRuns.AddressIsStored | Drivers/boot_drv/boot_driver.c:160-176 | A launch without an address stores the default one and keeps the command, and the next reset starts it if it can be started and a try is left |
| BootRuns.ChangesOnly | Drivers/boot_drv/boot_driver.c:127-305 | A reset changes the command only on a counter above five or a broken address, the address only when none is readable, and no other parameter |
| BootRuns.UncountedHangs | Drivers/boot_drv/boot_driver.c:288-303 | Without a counter the first reset stores zero, and a hanging application is started exactly seven times |
| Boot.BootDriver.LaunchApp | Drivers/boot_drv/boot_driver.c:186-224 | Stores the launch command, a zero counter and the default address, none of which stops the next when it fails |
| BootRuns.JumpToBootStays | Drivers/boot_drv/boot_driver.c:228-247 | After a jump to the boot loader no run of resets starts the application, however their stores end, until a launch is commanded |
| BootRuns.JumpAndReset | Drivers/boot_drv/boot_driver.c:228-247 | The same for the calls of the driver, unless the command itself could not be stored |
| BootRuns.StayOnAbsorbs | Drivers/boot_drv/boot_driver.c:127-151 | From any parameters whose command reads as STAY_ON, no run of resets starts the application, however their stores end, and the command stays |
| Boot.BootDriver.Proc | Drivers/boot_drv/boot_driver.c:307-333 | Clears the counter once, after two watchdog periods, and reports what that store reports |
| BootRuns.ResetBoard | Drivers/boot_drv/boot_driver.c:251-305 | The calls of one reset compute the reset of the run model |
| BootRuns.StartsExactly | Drivers/boot_drv/boot_driver.c:127-305 | With stores that succeed, after a commanded launch a reset starts the application if and only if no six resets in a row have hung; from then on the stored command is STAY_ON |
| BootRuns.SixHungIs | Drivers/boot_drv/boot_driver.c:263-263 | The run's hang condition is that some six consecutive resets hung |
| BootRuns.HealthyNeverStays | Drivers/boot_drv/boot_driver.c:307-333 | If every start comes up, STAY_ON is never stored and every reset starts the application |
| BootRuns.HangBound | Drivers/boot_drv/boot_driver.c:251-305 | From any stored parameters a hanging application is started at most seven times, six after a commanded launch, and once more for each launch whose store failed |
| BootRuns.BootValuesAreMild | Drivers/boot_drv/boot_driver.c:189-209 | Every value the boot loader stores satisfies the discipline for ids and values of the store |
| Mram.LayoutFits | Drivers/tcan4550_q1_ti/TCAN4550.c:590-763 | For every configuration the sections start and end on words and no offset wraps in 16 bits |
| Mram.SizeTable | Drivers/tcan4550_q1_ti/TCAN4550.c:1471-1476 | The eight element sizes |
| Mram.CountTable | Drivers/tcan4550_q1_ti/TCAN4550.c:597-748 | The most elements that each section gets |
| Mram.ElementTable | Drivers/tcan4550_q1_ti/TCAN4550.c:597-748 | The bytes of one element of each section |
| Mram.SectionOrder | Drivers/tcan4550_q1_ti/TCAN4550.c:597-748 | The order of the sections |
| Mram.RegistersAre | Drivers/tcan4550_q1_ti/TCAN4550.c:597-768 | Each section register is start, count and mode bit, each in its place, or zero |
| Mram.SectionsInOrder | Drivers/tcan4550_q1_ti/TCAN4550.c:597-748 | The sections are disjoint, in order, and neighbours touch |
| Mram.ElementsDisjoint | Drivers/tcan4550_q1_ti/TCAN4550.c:841-892 | Elements of different section or index share no byte |
| Mram.ElementAligned | Drivers/tcan4550_q1_ti/TCAN4550.c:841-892 | Every element starts on a word |
| Mram.InElement | Drivers/tcan4550_q1_ti/TCAN4550.c:841-892 | Every element lies inside its section |
| Mram.InBoundsExactly | Drivers/tcan4550_q1_ti/TCAN4550.c:761-763 | All elements lie in the 2048 bytes of message RAM if and only if the total is at most 2048 |
| Mram.Mcan.Configure | Drivers/tcan4550_q1_ti/TCAN4550.c:590-768 | Writes the layout into the registers with 16-bit sums, and always reports success |
| Mram.Mcan.SidAddress | Drivers/tcan4550_q1_ti/TCAN4550.c:1210-1223 | Passes the indexes up to and including the count register; 16-bit address of the filter |
| Mram.Mcan.XidAddress | Drivers/tcan4550_q1_ti/TCAN4550.c:1288-1301 | The same for extended filters |
| Mram.Mcan.FifoAddress | Drivers/tcan4550_q1_ti/TCAN4550.c:841-892 | 16-bit address of the element of the FIFO, and its size from the size register |
| Mram.Mcan.RxBufferAddress | Drivers/tcan4550_q1_ti/TCAN4550.c:976-996 | 16-bit address of the receive buffer, the index capped at 64 |
| Mram.Mcan.TxAddress | Drivers/tcan4550_q1_ti/TCAN4550.c:1078-1105 | Passes exactly the indexes below the number of buffers; 16-bit address of the buffer |
| Mram.SidAccess | Drivers/tcan4550_q1_ti/TCAN4550.c:1215-1223 | The standard filter addressed is the one of the index, and inside its section if and only if the index is below the count; the check also passes the count itself |
| Mram.XidAccess | Drivers/tcan4550_q1_ti/TCAN4550.c:1293-1301 | The same for extended filters |
| Mram.XidNone | Drivers/tcan4550_q1_ti/TCAN4550.c:1293-1301 | Without extended filters index 0 passes the check and addresses the first byte of the message RAM |
| Mram.FifoAccess | Drivers/tcan4550_q1_ti/TCAN4550.c:841-892 | A FIFO element is addressed exactly, with no wrap, from the registers |
| Mram.RxBufferAccess | Drivers/tcan4550_q1_ti/TCAN4550.c:976-996 | A receive buffer is addressed exactly |
| Mram.TxAccess | Drivers/tcan4550_q1_ti/TCAN4550.c:1084-1105 | A transmit buffer is accepted exactly when it exists, and addressed exactly |
| Frames.HeaderRoundTrip | Drivers/tcan4550_q1_ti/TCAN4550.c:897-914 | Decoding the header words that were sent returns every shared field; a standard id keeps its low 11 bits |
| Frames.DlcTable | Drivers/tcan4550_q1_ti/TCAN4550.c:1448-1462 | The bytes of each length code; from eight on they are the element sizes |
| Frames.HeaderValues | Drivers/tcan4550_q1_ti/TCAN4550.c:1112-1134 | The two header words are the sums of the fields, each times the weight of its place, the event bit included |
| Frames.FirstDecoded | Drivers/tcan4550_q1_ti/TCAN4550.c:897-906 | The flags and the id of a received frame are the digits of the first word |
| Frames.SecondDecoded | Drivers/tcan4550_q1_ti/TCAN4550.c:908-915 | Time stamp, length code, flags and indexes are the digits of the second word |
| Frames.PackedValue | Drivers/tcan4550_q1_ti/TCAN4550.c:1136-1160 | A payload word is the sum of its bytes, the first one lowest, zeros behind the payload |
| Frames.LaneValue | Drivers/tcan4550_q1_ti/TCAN4550.c:932-932 | A byte taken out of a word is the digit of its place |
| Frames.PayloadValues | Drivers/tcan4550_q1_ti/TCAN4550.c:917-937 | A received payload has the bytes announced, but no more than the element holds, and each is a digit of its word |
| Frames.IdRoundTrip | Drivers/tcan4550_q1_ti/TCAN4550.c:1120-1123 | The id survives if and only if it is extended or below 2048 |
| Frames.PayloadRoundTrip | Drivers/tcan4550_q1_ti/TCAN4550.c:1136-1160 | Unpacking the payload words returns the payload |
| Frames.FrameRoundTrip | Drivers/tcan4550_q1_ti/TCAN4550.c:895-937 | Receiving an element that holds the words of a transmitted frame returns its fields and payload, if the payload fits the element |
| Frames.SentFits | Drivers/tcan4550_q1_ti/TCAN4550.c:1107-1160 | The words sent stay inside the element if and only if the payload fits the configured size |
| Frames.ReadFits | Drivers/tcan4550_q1_ti/TCAN4550.c:917-924 | A receive never reads past its element |
| Frames.Link.PackPayload | Drivers/tcan4550_q1_ti/TCAN4550.c:1136-1160 | The packing loops emit the payload four bytes to a word, the first one lowest, the last word padded with zeros |
| Frames.Link.WriteTxBuffer | Drivers/tcan4550_q1_ti/TCAN4550.c:1070-1164 | One burst to the buffer's address, whose header announces exactly the words that follow: the header fields and the payload bytes in their places; and the bit of the buffer; nothing and zero when there is no such buffer |
| Frames.Link.ReadPayload | Drivers/tcan4550_q1_ti/TCAN4550.c:923-937 | The payload loop returns the bytes of the words at consecutive addresses, the lowest of each first |
| Frames.Link.ReadNextFifo | Drivers/tcan4550_q1_ti/TCAN4550.c:834-952 | Nothing from an empty FIFO; else header and payload of the element the status register names, whose index is then acknowledged |
| Frames.Link.ReadRxBuffer | Drivers/tcan4550_q1_ti/TCAN4550.c:970-1053 | Header and payload of the receive buffer, and its bit of the new-data registers |
| CanSend.DlcIsLeast | Drivers/tcan4550_q1/tcan4550_drv.c:350-374 | The length code chosen is the smallest that holds the bytes |
| CanSend.Port.BufferWords | Drivers/tcan4550_q1/tcan4550_drv.c:434-444 | The word loop emits the bytes of the buffer four to a word, the first one lowest, and they unpack to its first bytes |
| CanSend.Port.SendStd | Drivers/tcan4550_q1/tcan4550_drv.c:659-680 | Nothing is handed over without a transmit buffer; else one classic standard data frame: the head word is the id in its place, the control word the length, no other bit is set, and the payload words decode to the bytes; its transmission is requested if the write reports success; success if all of that does |
| CanSend.Port.CanSend | Drivers/can/can_drv.c:14-44 | For up to 65535 bytes, with 16-bit counters: the number of frames tried is the length over eight, rounded up, frame `k` is a classic standard data frame of id 0xD3 that carries chunk `k`, if there is a buffer for it, and the call succeeds exactly if every frame reports success |
| CanSend.SendIsLossless | Drivers/can/can_drv.c:14-44 | If every frame had a buffer, the payloads concatenate to the input; every frame has 1 to 8 bytes, all but the last have 8 |
| Cli.SpansAreWords | Drivers/cli_drv/cli_manager.c:136-152 | The words found are the maximal runs of non-space bytes, in order, and cover every such byte |
| Cli.SpacesAre | Drivers/cli_drv/cli_manager.c:136-152 | The six bytes of white space |
| Cli.ArgumentsAreWords | Drivers/cli_drv/cli_manager.c:136-152 | After the edits each argument is a terminated string equal to its word of the original line |
| Cli.ParseArgs | Drivers/cli_drv/cli_manager.c:132-156 | Terminates; the arguments are the first 12 words, and exactly the bytes directly after those words have become terminators |

## Left out

- TurnLaws.TurnAtomic: requires that the records of the active page end inside it, and of page 1 also that what its scan visits claims no byte of page 2, which a turn erases. The second is sufficient: without it the scan depends on page 2 (ContainedExactly), and whether a turn changes it then depends on the CRC of the bytes that come to lie there; OverhangTurn shows a family where it does. The methods themselves are modelled on any flash.
- TurnLaws.TurnIsPlan: the same condition on the page.
- TurnLaws.TurnCopies: the same condition on the page.
- TurnLaws.MovedInside: the same condition on the page.
- TurnLaws.TurnAccepted: the same condition on the page.
- Steady.TurnSteady: the same condition on the page.
- Upkeep.MaintainTurns: the same condition on the page.
- Upkeep.MaintainMakesRoom: tidy pages, user ids and mild values of eight bytes or more, so that nothing has to be assumed of dead flash.
- Upkeep.FormatAtomic: requires of an active page what a turn requires.
- BootRuns.AddressIsStored: stores that succeed; TryExactly and ChangesOnly are for stores that may fail.
- BootRuns.UncountedHangs: stores that succeed.
- Reads.SetReads: assumes that the scan of the cut flash reports no record that was never stored; with a CRC of eight bits a torn byte sequence may collide.
- Reads.TearExactly: assumes that of every cut, as SetReads does.
- Runs.StepRefines: assumes that no call leaves a collision, values that are refused or leave room for their header, and no update on a store that is not clean.
- Runs.RunFromFormat: the same for every command; outside of these the exact conditions are those of SetExact, OverhangExact, RepairExact and InvalidateExact. A format in the run is not cut; after a cut one the next format starts from whatever it left.
- TidyOps.TidySet: user ids below 0x8000 and mild values, for which nothing has to be assumed of dead flash; for other values SetExact has the condition.
- MildRuns.GentleStep: user ids below 0x8000 and mild values.
- MildRuns.FreshRun: user ids below 0x8000 and mild values; other values are those of RunFromFormat.
- Invalidation.InvalidateExact: for the last record, that the erased flash does not pass for a record; LastInvalidated says exactly when it does, but for pages on which 65534 to 65539 bytes are left, where the payload would overhang.
- Invalidation.InvalidateThenSet: the same condition.
- InitLaws.BootsCountModulo: assumes that no boot leaves a collision.
- InitLaws.BootsCount: counters below 0x8000, where the last byte of a dead counter goes with any user id that may follow; beyond, BootsCountModulo.
- TightFit.TightFitReached: user ids and mild values; of the id that fills the page the loss is not stated.
- BootRuns.StartsExactly: stores that succeed; HangBound and StayOnAbsorbs are for stores that may fail.
- Addresses are counted from the start of the flash region, and page 2 follows page 1 (bsp_cc26x2/flash_nvs/memory_layout.h:16-21); both pages together are shorter than 4 GiB.
- A write that starts inside the flash region and runs past its end is refused, as the CC26x2 driver does; the STM32F4 one programs on. Bytes further than six after page 2 are not modelled.
- The vendor drivers below the two flash steps: an operation works on its bytes in order, and an interrupted erase has erased a prefix; a NULL buffer is not modelled.
- The CRC is an arbitrary function of the payload.
- Automatic page turns inside `mm_set` (FLASH_FS_AUTO_TOGGLE_PAGE), which the build leaves off.
- `mm_get_address`, `mm_get_remaining_space` and `mm_flash_erase`: easy members over the same search.
- `mm_cnt_files` and the usage percentages: diagnostics; the count is always zero.
- Boot.BootDriver.TryApp: the start address is a byte string whose two address tests are parameters; the jump and the reboot end the reset.
- The boot functions without `HAS_BOOTLOADER`, `HAS_FLASH_FS` or `HAS_GENERIC`, and the CRC-checked launch command, which the code treats as unknown.
- Frames.Link.ReadNextFifo: the SPI framing is not modelled; a message RAM address is a function argument. With an empty payload the count is an uninitialised variable, which is a parameter here.
- Frames.Link.WriteTxBuffer: the bit returned for a buffer index of 32 and more, which the language leaves undefined.
- The register cache and the verify-after-write options of the CAN library, and what the SPI transfers report.
- CanSend.Port.CanSend: whether a frame has a buffer and what its transfers report are parameters, and the frame is the one built whatever they report.
- `tcan4550_mram_cfg` and its FIFO helpers: the element-size lookup is applied to a product there, so the layout claims are for the TI library's configuration function.
- Cli.ParseArgs: pointers into the line are offsets; white space is that of the C locale, for bytes below 0x80 and above alike.
- Interrupts, bit timing, floating-point code, board tables and user-interface commands.
