# A verified model of the ESP32-P4 mini-bootloader's boot path

The bootloader reads a partition table, picks an app slot with A/B rollback, checks the slot's image
against its appended SHA-256, copies the image's segments into memory, arms a watchdog and jumps. This
project models that path from the flash device up and proves what it guarantees: for every flash content,
every header, every pattern of ROM read failures, and over every history of boots. Results that a good image is
started need a ROM that does not fail, and say so.

## How the model is built

| file | part of the boot path |
|---|---|
| `Words.dfy` | bytes, `u32` arithmetic with explicit wrap, little-endian words, bit masks, rounding |
| `Memory.dfy`, `LoadedMemory.dfy` | the 32-bit address space segments are copied into |
| `FlashDevice.dfy` | the flash chip behind the ROM routines, with the wrapper's alignment guards |
| `AppImage.dfy` | `read_header`, the size walk and the copying walk |
| `ImageLayout.dfy` | the documented segment layout as an encoder; the walks against it |
| `Verify.dfy` | the streaming hash check |
| `WholeImage.dfy` | whole images: round trip, its converse, hash coverage |
| `Utf8.dfy`, `PartitionTable.dfy` | partition entries, labels, the early-exit table walk |
| `SlotSelect.dfy`, `SelectionProperties.dfy` | `pick` and its factory fallback |
| `Rollback.dfy` | runs of many boots, with otadata persisting across resets |
| `BootMachine.dfy`, `BootProperties.dfy` | `main` from the diagnostic records to the jump or the heartbeat loop |
| `Witnesses.dfy` | concrete chips and histories on which promises that do not hold in general fail |

Routines that change something step by step are methods with loops, over a flash array, a memory object, a
reused chunk buffer, a hasher and an event trace. Each is proved equal to a function of the chip's contents and
of the status of every ROM call; the properties are then proved about those functions, mostly as
if-and-only-if statements against an encoder or a declarative description. What these descriptions rest on (addresses,
magic bytes, labels, offsets, limits, bits) is stated once more in literal bytes and numbers, by the lemmas named
`...Bytes`, `...Bits` or `...InBytes` and their neighbours.

What is assumed, and nowhere hidden:

- **Memory.** All 2^32 addresses can be stored to, and a store changes nothing else. The bootloader's own code and
  stack lie in 0x4FF20000..0x4FF30000; a load that stores there, or may have, ends in `Overwritten`, and nothing at
  all is said about what happens from then on.
- **Between boots** nothing but a boot's own modelled writes changes the flash: neither the app that was started, nor
  whatever runs after the bootloader was overwritten.
- **ROM calls.** The n-th call's status is an arbitrary function of n, so any pattern of transient failures is
  covered. A call whose range does not lie on the chip is refused. A failed read leaves arbitrary bytes in its
  destination, a failed erase arbitrary bytes in its sector, a failed program may clear arbitrary bits of its
  range. The chip is smaller than 2^32 bytes. ROM calls made inside other crates are not numbered.
- **Arithmetic.** `u32` sums wrap, as in the release profile.
- **SHA-256.** An arbitrary function from byte strings to 32 bytes, applied to the concatenation of the updates.
  Nothing is claimed about collisions.
- **`p4_ota`.** Its codec and slot policy are parameters. `Contract` in `SlotSelect.dfy` states what the comments
  in `src/slot_select.rs` and `src/main.rs` say of them; `ContractCanBeMet` shows the contract is satisfiable.
  A store replaces the otadata sector, by the encoded state or, if it fails, by arbitrary bytes.
- **Diagnostics.** Recording a boot leaves the bootlog and bootstat sectors with arbitrary contents and touches
  nothing else.

Results worth knowing when changing the code:

- The documented rollback after `MAX_BOOT_ATTEMPTS` failed boots need not come in time. A boot that cannot read otadata,
  or loses its store without a trace, is not counted; and a failed store may leave anything, in which case the count
  starts afresh from the state it left. `RolledBackIff` says for every run when probation is over. With every store lost
  without a trace a hanging slot is started for ever (`HangingImageStarts`, `HangsForever`), and a torn store can make
  slot A boot although B was the stable slot (`TornStoreDecides`, `ForgetsSlotB`).
- `src/app.rs:147` says the caller makes sure that segments do not clobber the bootloader. `main` does not check it:
  `AcceptedImageOverwritesLoader` has an image that passes every check and replaces all of it. `LoaderKeptIff` gives
  the exact condition on the segments, and every result about a boot that starts an image carries it.
- What a store leaves in otadata cannot change which partition the same boot selects, except when a candidate image
  starts inside that sector (`StoreIsIrrelevantIff`).
- The README's example layout, with the factory app at 0x10000, overlaps the bootlog and bootstat sectors that every
  boot rewrites; the layout in `example-partitions.csv` does not (`DiagnosticsKeepIff`, `ReadmeFactoryIsClobbered`, `CsvSlotsAreUntouched`).
- The hash check accepts images with segment lengths that are no multiple of 4, which the load then refuses
  (`AcceptedLoadsIffAligned`; `WalksAgree` has the exact difference between the walks).
- `README.md:121` of the repository says OTA selection is not implemented; `src/slot_select.rs` implements it, and the
  model follows the code.

## Model

| member | source | states |
|---|---|---|
| Words.RoundingIsLeast | src/app.rs:101-102 | `(total + 1 + 15) & !15` is the least multiple of 16 with room for the checksum byte |
| Words.MaskDropsRemainder | src/app.rs:102 | for every `u32`, masking with `!15` subtracts exactly the remainder modulo 16 |
| Words.Le32Inverse | src/app.rs:68 | little-endian words: decoding and encoding are inverse in both directions |
| Words.BitsWithinBits | src/flash.rs:93-95 | the order used for programming is inclusion of the set bits, bit by bit |
| Memory.OverwriteBytes | src/app.rs:148 | a copy puts byte `k` at `at + k` modulo 2^32, and every other address keeps its value |
| Memory.ReachesLoaderIff | memory.x:23 | a copy reaches the bootloader iff some byte of it is for an address in 0x4FF20000..0x4FF30000 |
| FlashDevice.GuardedRead | src/flash.rs:38-50 | `Unaligned` iff length or destination is no multiple of 4; a nonzero ROM status is handed on unchanged; success yields exactly the range |
| FlashDevice.Flash.Read | src/flash.rs:29-50 | odd lengths and misaligned destinations are refused without a ROM call; a successful read fills the buffer with exactly the flash range; nothing beyond `len` changes |
| FlashDevice.Flash.ReadInto | src/flash.rs:52-59 | a read into a zeroed local array, wherever it lies and whatever its length, yields the flash range, `Unaligned` or the ROM's error |
| FlashDevice.Flash.ReadToRam | src/flash.rs:38-50 | misaligned destinations and lengths are refused; success overwrites exactly the destination range; failure changes nothing outside it |
| FlashDevice.Flash.EraseSector | src/flash.rs:70-89 | new contents and result of a sector erase, refused or failed erases included |
| FlashDevice.Flash.Write | src/flash.rs:91-113 | new contents and result of a program, with odd lengths and misaligned sources refused: bits are only cleared |
| FlashDevice.ErasedBytes | src/flash.rs:70-89 | a sector erase byte by byte: which offsets are refused, which status is handed on, and which 4096 bytes become 0xFF |
| FlashDevice.WrittenBits | src/flash.rs:91-113 | a program bit by bit: on success a bit is set iff it was and the source has it; no failure sets a bit or leaves the range |
| FlashDevice.OutsideUntouched | src/flash.rs:70-113 | over any run of erases and writes, with any failures, bytes that none addresses keep their value |
| FlashDevice.BitsOnlyClear | src/flash.rs:93-95 | between erases of its sector a byte's set bits only shrink, whatever the ROM reports |
| FlashDevice.ReadBackIff | src/flash.rs:93-95 | a successful write reads back its source iff the target still has every bit the source needs |
| FlashDevice.EraseThenWrite | src/flash.rs:70-113 | erase, then write inside the sector: the source reads back, the rest of the sector is 0xFF, all else is unchanged |
| AppImage.ReadHeader | src/app.rs:55-72 | the decoded header, `BadMagic`, or the flash error, in one ROM call |
| AppImage.HeaderBytes | src/app.rs:55-72 | a header is read iff the ROM call succeeds, 24 bytes are on the chip and the first is 0xE9; its fields are the bytes at 1, 4 to 7, 12 to 13 and 23; any other first byte is the one reported |
| AppImage.ComputeImageTotalSize | src/app.rs:74-107 | the total or the first error for every header and flash content; no sum kept in `total` leaves `u32`, none exceeds 0x7F800840 |
| AppImage.TotalSize | src/app.rs:88-106 | the total is the least multiple of 16 above 24 plus the segments' bytes, plus 32 if a hash is appended; an error is that of the walk |
| AppImage.SegmentLength | src/app.rs:91-97 | one turn of the size walk: the length of the segment, or why there is none |
| AppImage.LengthBytes | src/app.rs:91-97 | the length is the word at `pos + 4`, `SegmentTooLarge` with it iff above 0x800000, or the ROM's status |
| AppImage.CopySegment | src/app.rs:125-149 | one turn of the copying walk: checks in order, one segment stored, or an error with the addresses it may have disturbed |
| AppImage.CopyBytes | src/app.rs:125-149 | one turn of the copying walk on the words at `pos` and `pos + 4`: each error with its value, in the order of the checks, or the segment copied |
| AppImage.LoadSegments | src/app.rs:109-153 | on success memory is the in-order fold of all segments; on an error the earlier segments are applied in full and only the torn range is unknown; whether the bootloader's own memory was hit is recorded |
| AppImage.HitsLoaderIff | src/main.rs:285-287 | a load hits the bootloader iff some byte copied, or of a copy that failed, is for an address in 0x4FF20000..0x4FF30000 |
| ImageLayout.EncodingShowsSegments | src/app.rs:11-14 | the encoding is held iff every segment's load address, length and data are in place, each header right behind the previous data |
| ImageLayout.LoadIffEncoded | src/app.rs:4-16 | the copying walk succeeds with a given segment list iff the flash holds that list's encoding, every segment is loadable, and no ROM call fails |
| ImageLayout.SizeOfEncoded | src/app.rs:88-100 | the size walk over an encoding reports its length |
| ImageLayout.SizeFindsEncoding | src/app.rs:88-100 | a size walk that succeeds within the chip has walked over an encoding of exactly that length |
| ImageLayout.WalksAgree | src/app.rs:88-153 | without ROM failures the copying walk succeeds iff the size walk does, the segments end on the chip, and every header is word-aligned; then the size is the length of the bytes copied |
| ImageLayout.SizeErrorIff | src/app.rs:93-97 | the size walk reports an error iff it is that of the first bad header |
| ImageLayout.StoppedAfterPrefix | src/app.rs:124-150 | a failing load has copied exactly the segments before the first bad one |
| ImageLayout.NoSumWraps | src/app.rs:89-99 | for offsets up to 0x807FF7C0 no position of either walk wraps and the image ends within 2^32, for all headers and flash contents |
| LoadedMemory.LastWriterWins | src/app.rs:148 | byte `k` of a segment is at `load_addr + k` modulo 2^32 unless a later segment brought a byte for that address; addresses no segment has a byte for keep their value |
| LoadedMemory.TornLoad | src/app.rs:148 | a load that stopped half-way leaves the memory of the earlier segments except at the addresses of the copy that failed |
| LoadedMemory.RegionKeptIff | src/app.rs:109-115 | loading leaves a region as it was, for all previous contents, iff no segment reaches into it |
| LoadedMemory.LoaderKeptIff | src/app.rs:112-115 | a complete load leaves the bootloader's memory as it was, for all previous contents, iff no segment reaches into it |
| LoadedMemory.BootloaderSurvivesLoad | src/main.rs:285-287 | a load, complete or stopped half-way, that does not hit 0x4FF20000..0x4FF30000 leaves every byte there unchanged |
| Verify.HashPayload | src/verify.rs:67-87 | the chunk loop hashes exactly the payload bytes, once and in order, or reports the first failed read |
| Verify.VerifyAppSha256 | src/verify.rs:52-111 | the verdict equals that of one hash over the whole payload, with the documented error for each failure |
| Verify.StreamClearIff | src/verify.rs:78-99 | all chunk reads and the digest read succeed iff the ROM does not fail and payload and digest lie on the chip |
| Verify.FirstFailedRead | src/verify.rs:75-99 | the fault reported is that of the first failing read, among one read per 1024 bytes begun and one for the 32-byte digest |
| Verify.AcceptedIff | src/verify.rs:56-111 | acceptance with a digest iff a hash is declared, the size walk succeeds, the image is on the chip, no ROM call fails, and the last 32 bytes are the hash of all bytes before them |
| Verify.RefusedIff | src/verify.rs:37-50 | every refusal of a hashed image: size errors keep their cause, a failed chunk or digest read is reported as the first such failure, and a mismatch is reported iff everything was read and the digests differ, carrying appended and computed digest in that order |
| Verify.NeverUnaligned | src/verify.rs:75-78 | no read of the verify pass is refused as unaligned, whatever the segment lengths |
| WholeImage.RoundTrip | src/app.rs:4-16 | every well-formed image, encoded anywhere, is read back: header fields, size, digest accepted, segments delivered |
| WholeImage.AcceptedLoadsIffAligned | src/app.rs:136-138 | the hash check accepts every held hashed image; the load then succeeds iff all its lengths and addresses are whole words |
| WholeImage.AcceptedIsImage | src/main.rs:235-302 | whenever header read, hash check and load succeed, the flash holds the encoding of an image with that header and those segments |
| WholeImage.HashCoversEverythingUsed | src/verify.rs:64-86 | after header read, size walk and load at any call numbers, any chip agreeing on the hashed range alone yields the same header, size and segments, and its verdict depends only on that range and the digest bytes |
| PartitionTable.ParseInvertsEncode | src/partition.rs:40-60 | parsing yields an entry iff the bytes are an encoding of it; the last four bytes are ignored |
| PartitionTable.RealEntryDecodes | src/partition.rs:152-166 | the bytes of the source's own test decode to type 1, subtype 2, offset 0x9000, size 0x6000 and the label `nvs` |
| Utf8.Utf8Iff | src/partition.rs:65 | a label's bytes are accepted as a string iff they are the encoding of some Unicode scalar values |
| PartitionTable.LabelMatchIff | src/partition.rs:62-66 | a string matches iff the label's bytes spell it, up to a NUL or the end, except that the empty string also matches labels that are not UTF-8 |
| PartitionTable.StoredLabelMatches | src/partition.rs:133-146 | a stored label is matched by itself and by no other string |
| PartitionTable.Finder.Visit | src/partition.rs:122-129 | the callback keeps a wanted entry and then stops the walk |
| PartitionTable.ForEachEntry | src/partition.rs:84-118 | the walk leaves in the callback what the table lookup finds, in one flash read |
| PartitionTable.FindFactoryApp | src/partition.rs:120-131 | the first listed factory entry, `NoFactoryApp`, or the flash error |
| PartitionTable.FindByLabel | src/partition.rs:133-146 | the first listed entry with the label, `NoFactoryApp`, or the flash error |
| PartitionTable.ListedBytes | src/partition.rs:102-115 | the walk goes on past a slot iff it starts with AA 50 or EB EB |
| PartitionTable.FindIsFirstOffer | src/partition.rs:102-116 | an entry is found iff its encoding is in the first slot with a wanted one, with AA 50 or EB EB at the start of every slot up to it; nothing is found iff there is no such slot |
| PartitionTable.FactoryBytes | src/partition.rs:120-131 | the factory app is the entry of the first slot in that prefix starting with AA 50 00 00; there is none iff there is no such slot |
| PartitionTable.LookupBytes | src/partition.rs:84-98 | a lookup searches the 1024 bytes at 0x8000, or hands on the status of the read |
| PartitionTable.TerminatorHidesRest | src/partition.rs:114 | behind a slot that starts with neither AA 50 nor EB EB nothing plays a part |
| PartitionTable.Md5MarkerIsInvisible | src/partition.rs:113 | an MD5 marker inserted anywhere up to the terminator changes no lookup |
| SlotSelect.Pick | src/slot_select.rs:75-187 | result, ROM calls and new flash contents of a selection, for every failure pattern |
| SlotSelect.BootSlot | src/slot_select.rs:152-186 | lookup and header check of the chosen slot, with the fallback taken exactly when one of them fails |
| SlotSelect.FallBackToFactory | src/slot_select.rs:189-212 | the factory partition if it has an entry and a valid header, `NoBootableApp` otherwise |
| SelectionProperties.ContractCanBeMet | src/slot_select.rs:5-24 | the contract assumed of the OTA crate is satisfiable for every attempt limit |
| SlotSelect.LoadOta | src/slot_select.rs:84-90 | the state is decoded from 0xF000..0x10000, and there is none if that read fails |
| SelectionProperties.OtaSlotFound | src/slot_select.rs:152-154 | the lookup for slot A or B finds the entry of the first slot whose label bytes are `ota_`, 0x30 or 0x31, NUL; nothing iff there is none |
| SelectionProperties.UsableBytes | src/slot_select.rs:11-14 | usable partitions of a slot and of factory in bytes of the table at 0x8000 and the 0xE9 at their offset |
| SelectionProperties.SelectionUnderFaults | src/slot_select.rs:152-212 | under any ROM statuses: the slot's partition iff its lookup and header read succeed, otherwise exactly what the factory lookup and header read done next give |
| SelectionProperties.PickInBytes | src/slot_select.rs:75-187 | on a fault-free ROM: decoded state, first slot labelled as it asks, and 0xE9 at that offset, outside the otadata sector, determine partition and outcome, `OtaFresh` when otadata is unreadable |
| SelectionProperties.SlotLabelsAreTheirOwn | src/slot_select.rs:152-154 | a label is slot A's iff it starts with the bytes of `ota_0` and a NUL, and slot B's iff with those of `ota_1` and a NUL |
| SelectionProperties.PickIsCorrect | src/slot_select.rs:92-187 | which partition and outcome are returned, as an iff over the stored state, the table and the headers |
| SelectionProperties.SelectionIsCorrect | src/slot_select.rs:152-212 | a partition is returned iff it is the chosen slot's usable one, or that slot has none and it is the usable factory one; the next header read gives the same valid header |
| SelectionProperties.EveryErrorIsNoBootableApp | src/slot_select.rs:205-211 | under any ROM behaviour every failure is `NoBootableApp` |
| SelectionProperties.StoresExactlyTheNewState | src/slot_select.rs:137-150 | without a new state nothing is stored; with one, a successful store changes the sector and reads back as exactly that state; no other byte changes |
| SelectionProperties.PickIgnoresStoreResult | src/slot_select.rs:140-149 | under any ROM behaviour partition and outcome do not depend on whether the store succeeded or on what a failed one left, provided no candidate image starts inside the otadata sector |
| SelectionProperties.StoreIsIrrelevantIff | src/slot_select.rs:140-149 | on a fault-free ROM the result is independent of the sector's contents iff neither the wanted slot's image, nor factory's when that slot is unusable, starts inside it |
| Rollback.RunFromProbation | src/slot_select.rs:18-24 | the exact action of every boot of any run from probation that no failed store disturbs, and the state left, from the number of boots with sound otadata |
| Rollback.ThreeTries | src/slot_select.rs:18-24 | with three tries and otadata sound: attempts 1, 2 and 3, the rollback, then the stable slot, which otadata then holds without probation |
| Rollback.RunCourse | src/slot_select.rs:92-150 | the course of every run, with arbitrary contents left by failed stores: from the last disturbance on it is the run that the state found there begins |
| Rollback.RolledBackIff | src/slot_select.rs:20-24 | after any run probation is over iff the state after the last disturbance was not on probation, or more boots since had sound otadata than that state had tries left |
| Rollback.PendingIsBounded | src/main.rs:221-225 | over any run a pending slot is selected at most as often as tries were left, plus lost stores, plus the attempt limit for each lost store that left another state |
| Rollback.StableForever | src/slot_select.rs:95-102 | without probation no run changes otadata; every boot takes the stable slot, or A if otadata is unreadable |
| Rollback.LostStoresDefeatRollback | src/slot_select.rs:141-148 | while every store is lost without a trace the policy repeats the same attempt and never rolls back |
| Witnesses.HangsForever | src/slot_select.rs:141-148 | on a concrete chip with a good image in each slot, after any history of boots that each lose their store, the next boot starts slot B, as attempt 1 |
| Rollback.TornStoreDecides | src/slot_select.rs:84-90 | after a failed store, later runs count tries or roll back iff the contents left decode to a state on probation; otherwise all take the slot those contents name, or A |
| Rollback.TornStoreForgetsStableSlot | src/slot_select.rs:84-90 | after a store that leaves otadata undecodable every boot takes slot A |
| Witnesses.ForgetsSlotB | src/slot_select.rs:84-90 | on a concrete chip whose good slot B is stable, one torn store makes every later boot start slot A |
| Witnesses.SlotBWouldComeBack | src/slot_select.rs:18-24 | the same chip comes back to slot B after three boots with sound otadata |
| BootMachine.Machine.Boot | src/main.rs:166-328 | how a boot ends, what it wrote to flash and memory, and its events in order, up to the loss of control if the load hits the bootloader |
| BootMachine.Machine.BootPartition | src/main.rs:234-302 | header read, hash check or skip, load: the events up to the first failure or the loss of control, and the effect on memory |
| BootMachine.Machine.LoadAndJump | src/main.rs:285-327 | load, arm, jump in that order, or the heartbeat; nothing is claimed after a load that hits the bootloader |
| BootMachine.Machine.Heartbeat | src/main.rs:337-347 | round `i` of the loop emits tick `i` modulo 2^32 and nothing else |
| BootProperties.JumpOnlyToCheckedImage | src/main.rs:226-327 | under any ROM failures a jump implies the policy's partition, or factory as its reported fallback after that one's lookup or header read failed, magic 0xE9, all `segment_count` segments copied and none onto the bootloader, and for hashed images a whole valid image encoding on flash |
| BootProperties.HashedBootIff | src/main.rs:226-327 | under any ROM behaviour a hashed image is started iff its partition was selected and holds the encoding of one that spares the bootloader, and no ROM call from the header read on fails |
| BootProperties.UnhashedBootIff | src/main.rs:226-327 | under any ROM behaviour an image without a hash is started iff its partition was selected and shows its header and loadable segments that spare the bootloader, and no ROM call from the header read on fails |
| BootProperties.SelectedImageIsLoaded | src/main.rs:285-327 | a loadable image in the selected partition is started, or overwrites the bootloader if one of its segments reaches it |
| Witnesses.AcceptedImageOverwritesLoader | src/main.rs:285-287 | on a concrete chip that lists a hashed image in slot A, every boot accepts and loads it and ends with every byte of the bootloader replaced |
| BootProperties.TraceIsSafe | src/main.rs:226-347 | in every trace of every boot: a jump goes to the entry of a safely loaded image, right after arming the watchdog and after an accepted hash iff one is declared; the watchdog is armed for nothing else; after a heartbeat only heartbeats follow |
| BootProperties.TraceTells | src/main.rs:226-347 | the exact end, error and events of every boot under any ROM behaviour, step by step, with the number of ROM calls before the load |
| Rollback.BytesAfterBoot | src/main.rs:178-196 | the flash after a boot byte by byte: the sectors at 0x12000 and 0x13000, the one at 0xF000 iff a new state is wanted, and nothing else |
| BootProperties.RunKeepsRange | src/main.rs:178-196 | over any run of boots a range clear of the three written sectors never changes |
| BootProperties.DiagnosticsKeepIff | src/main.rs:178-196 | the diagnostic records leave a range alone iff it is clear of their two sectors |
| BootProperties.ReadmeFactoryIsClobbered | README.md:81 | the factory partition of the README's layout is changed by some diagnostic record |
| BootProperties.CsvSlotsAreUntouched | example-partitions.csv:24-31 | the CSV layout's app slots and the partition table are clear of every sector a boot writes |
| BootProperties.GoodImageBoots | src/main.rs:221-327 | after any history of boots, a well-formed image in the chosen slot, clear of the written sectors and sparing the bootloader, is started with exactly its segments |
| BootProperties.GoodFactoryImageBoots | src/slot_select.rs:11-14 | after any history of boots, if the chosen slot is unlisted or never had a valid header, a good factory image is started |
| BootProperties.StableImageComesBack | src/slot_select.rs:18-24 | once as many boots as there were tries left had sound otadata since the last disturbance, the next boot that can read otadata starts the image of the stable slot |
| BootProperties.PendingImageStarts | src/slot_select.rs:18-20 | until then it starts the image on probation, as the attempt counted up to |
| BootProperties.HangingImageStarts | src/slot_select.rs:141-148 | while every store is lost without a trace, any readable boot starts the image on probation, as the same attempt |
| BootProperties.UnreadableStartsSlotA | src/slot_select.rs:84-90 | while otadata cannot be decoded any boot starts slot A's image |

## Left out

- `p4_ota`, `p4_crashdump`, `p4_boot_history` and `p4_bootstat`: separate crates; the model has only the contracts above.
- The computation of SHA-256: a parameter.
- UART output and the log ring, the panic handler, and the mapping of reset causes to log entries.
- Chip bring-up, PSRAM, cache maintenance, `fence.i`, `jr` and the watchdog's registers; arming the watchdog and jumping are events.
- The image's XOR checksum byte, `chip_id` and the partition's size: the code compares none of them, so nothing is stated about them.
- `read_u32`: not called in the boot path.
- LoadSegments: the `on_segment` callback, which only prints, is not modelled.
- Heartbeat: the endless loop is described by each of its finite prefixes.
- Boot: returns whether it jumped, where the original never returns; the steps before the diagnostic records only read flash and are omitted.
- Read: lengths of 2^31 and more, which the cast to `i32` would make negative, are excluded, here and in the other flash operations; no caller passes more than 0x800000.
- ReadToRam: lengths of 2^31 and more are excluded, as for `Read`.
- ReadInto: lengths of 2^31 and more are excluded, as for `Read`.
