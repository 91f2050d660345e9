# Swap-status bookkeeping and flash-map backend of mcuboot, in Dafny

This project models four parts of this mcuboot fork:

- **Swap-status geometry and trailer layout** (`boot/bootutil/src/swap_status.h`). This is the size of a status row, its payload, the number of sector-status rows, one copy of the status area, the `MULT` wear-levelling copies, and the primary and secondary regions. It also gives the byte layout of `struct image_status_trailer` under the C rule that each field starts at a multiple of its alignment. The build parameters are a `Config` value: `CY_FLASH_ALIGN`, `BOOT_MAX_IMG_SECTORS` and `BOOT_MAGIC_SZ`.
- **The swap-status eraser and its helpers** (`boot/bootutil/src/swap_status_misc.c`). `swap_erase_trailer_sectors` is an imperative method with the do-while loop of the source. The loop erases status sectors from the last one down, until the erased bytes reach the status size. Each erase goes into the erase log of a `StatusFlash` object. The method is proved against `TrailerErasePlan`, the function that lists the erases in order. Lemmas prove that:
  - the erases run downward over contiguous sectors;
  - the erased sectors cover the status size;
  - without the last erase they would not.

  The sector helpers are modelled too. `StatusSectorSize` reads a sector's size from the status sector table (`boot_status_sector_size`). `StatusSectorOff` gives a sector's offset relative to sector 0. `StatusNumSectors` divides the status size by sector 0's size (`boot_status_num_sectors`). The disabled `swap_status_init` is modelled as well. `StatusSectorSize` and `StatusNumSectors` have no contract of their own. The lemmas that state their properties (`StatusNumSectorsRoundsDown`, `TrailerErasePlanSpec`, `EraseLoopStep`) are listed under "## Model".
- **The Zephyr flash-map backend** (`boot/zephyr/flash_map_extended.c`). This covers:
  - the device id, base and erased value;
  - the maps between image slots, flash areas and area ids;
  - the sector lookup for one offset;
  - `flash_area_get_sectors_fa`.

  `flash_area_get_sectors_fa` is a method that fills a caller's `array` in a `while` loop. It is proved against `SectorScan`, a recursive definition of the same walk over the device page table. Lemmas prove what `SectorScan` yields: every sector read from the page table at the running offset, the offset reached, and why the walk stopped.
- **The simulator's TLV generator** (`sim/src/tlv.rs`). `TlvGen` is a class whose hashing context is the sequence of bytes fed to it. `MakeTlv` emits one SHA-256 entry in the wire form that `EncodeEntry` defines. `DecodeEntry` reads that form back, and a round-trip lemma connects the two. The generator's invariant `Valid` says that the size announced ahead of time is the length of the block emitted.

Machine integers are written out where they matter:
- `Wrap32` is a C `uint32_t` assignment.
- `U32ToInt` is the conversion from `uint32_t` to `int`.
- The errno values are Zephyr's: `ENOENT` = 2 and `EINVAL` = 22.

The board's build-time configuration is a `Board` value. It holds the slot id macros, the devicetree areas, the Kconfig switches for a single slot and for a scratch area, and the one flash device. A pointer argument that a C function writes through is a `Cell`. The device page-table query `flash_get_page_info_by_offs` is a function parameter `pages`, and SHA-256 is a function parameter `hash`.

### Choices the code makes

- **Secondary status region offset.** The secondary status region starts at `OFFS_PRIM + SZ_PRIM`, that is `MULT × D_SIZE`.
- **Sub-area offset in the eraser.** The eraser's sub-area offset is `BOOT_SWAP_STATUS_SIZE` times the raw flash area id `fa_id`.
- **Unknown flash area in the eraser.** An area that is neither slot of the current image is refused with `BOOT_EFLASH`.
- **Eraser stopping point.** The eraser stops once the erased bytes reach `BOOT_SWAP_STATUS_SIZE`, the size of all `MULT` copies.
- **Erase failures in the eraser.** The result of each erase is checked with `assert`, and the function returns the last erase's code.

## Model

| member | source | states |
|---|---|---|
| FlashTypes.Wrap32 | boot/bootutil/src/swap_status_misc.c:48-49 | a `uint32_t` result is the value reduced modulo 2^32: it differs from the input by a multiple of 2^32, and equals it whenever the input is in range |
| FlashTypes.U32ToInt | boot/zephyr/flash_map_extended.c:156 | a `uint32_t` converted to `int` keeps values below 2^31 and maps the rest to negatives 2^32 lower |
| SwapStatus.RowSz | boot/bootutil/src/swap_status.h:36 | a status row is the flash alignment unit |
| SwapStatus.PayldSz | boot/bootutil/src/swap_status.h:38-40 | payload plus counter plus CRC make exactly one row, and the payload is positive for a valid configuration |
| SwapStatus.SectRowsNumIsCeiling | boot/bootutil/src/swap_status.h:42-50 | the two preprocessor branches compute the ceiling of sectors over payload: enough rows for every sector, one fewer would not be, and none for zero sectors |
| SwapStatus.DSizeIsRowMultiple | boot/bootutil/src/swap_status.h:54-57 | one copy is a whole number of rows, equal to the sector rows plus the trailer row |
| SwapStatus.SizeIsCopyAndRowMultiple | boot/bootutil/src/swap_status.h:59-63 | a slot's status area is exactly `MULT` copies, a whole number of rows, and never empty |
| SwapStatus.StatusRegionsAdjacentDisjoint | boot/bootutil/src/swap_status.h:65-70 | primary and secondary regions have equal size, the secondary starts where the primary ends, they share no byte and together cover their span |
| SwapStatus.AlignUp | boot/bootutil/src/swap_status.h:16-24 | the rounding used for field placement gives the least multiple of the alignment not below the input |
| SwapStatus.TrailerWidthsMatchConstants | boot/bootutil/src/swap_status.h:13-31 | the widths of the struct's fields agree with the named size constants |
| SwapStatus.TrailerLayout | boot/bootutil/src/swap_status.h:16-24 | the trailer fields sit at offsets 0, 16, 32, 36, 37, 38 and 39 |
| SwapStatus.TrailerPacked | boot/bootutil/src/swap_status.h:16-24 | no padding lies between consecutive fields, and the struct size is the packed end of `magic` rounded up to 4 |
| SwapStatusMisc.StatusSectorOff | boot/bootutil/src/swap_status_misc.c:44-50 | sector 0 has relative offset 0, and a sector within 4 GiB above sector 0 has its true distance from it |
| SwapStatusMisc.StatusSectorOffOrder | boot/bootutil/src/swap_status_misc.c:44-50 | relative offsets keep the order of absolute offsets within 4 GiB of sector 0 |
| SwapStatusMisc.StatusNumSectorsRoundsDown | boot/bootutil/src/swap_status_misc.c:214-217 | the sector count is the floor of the status size over sector 0's size |
| SwapStatusMisc.ErasePlanSpec | boot/bootutil/src/swap_status_misc.c:96-107 | the do-while loop erases at least one sector, walking down one index at a time; the erased bytes reach the limit and were below it before the last erase |
| SwapStatusMisc.ErasePlanShape | boot/bootutil/src/swap_status_misc.c:96-107 | the k-th erase is the erase of sector `sector - k`, and there are at most `sector + 1` of them |
| SwapStatusMisc.ErasePlanCoverage | boot/bootutil/src/swap_status_misc.c:96-107 | the loop stops at the first point where the running total reaches the limit |
| SwapStatusMisc.TrailerErasePlanSpec | boot/bootutil/src/swap_status_misc.c:88-107 | the eraser starts at the last status sector, erases each sector at its relative offset plus the sub-area offset, covers the status size, and would not without its last erase |
| SwapStatusMisc.EraseLoopStep | boot/bootutil/src/swap_status_misc.c:97-107 | one pass adds the current sector's size without `uint32_t` wrap, and the remaining plan is this sector's erase followed by the plan from the sector below |
| SwapStatusMisc.StatusFlash.EraseRegion | boot/bootutil/src/swap_status_misc.c:101-103 | an erase is appended to the log and reports success |
| SwapStatusMisc.SwapEraseTrailerSectors | boot/bootutil/src/swap_status_misc.c:52-112 | an area that is neither slot of the current image gets `BOOT_EFLASH` with nothing erased; otherwise the log grows by exactly the erase plan for the status size and the area's sub-offset, and the result is 0 |
| SwapStatusMisc.EraseStatusSectors | boot/bootutil/src/swap_status_misc.c:93-111 | the loop's erases are exactly `TrailerErasePlan`, in order, and the result is 0 |
| SwapStatusMisc.SwapStatusInit | boot/bootutil/src/swap_status_misc.c:114-160 | the disabled initialiser returns 0 and touches nothing |
| FlashMapExtended.FlashDeviceBase | boot/zephyr/flash_map_extended.c:36-45 | an unknown device id gets `-EINVAL` with the output untouched; the board's device gets 0 and its base address |
| FlashMapExtended.FlashAreaGetDeviceId | boot/zephyr/flash_map_extended.c:137-141 | every area reports the board's one flash device |
| FlashMapExtended.FlashAreaErasedVal | boot/zephyr/flash_map_extended.c:143-148 | erased flash reads 0xff |
| FlashMapExtended.FlashAreaFromMultiImageSlot | boot/zephyr/flash_map_extended.c:47-60 | an area exists exactly for slot 0, for slot 1 unless single-slot, and for slot 2 with a scratch area; each slot gives its area |
| FlashMapExtended.FlashAreaFromImageSlot | boot/zephyr/flash_map_extended.c:62-65 | the same slot-to-area mapping, for image 0 |
| FlashMapExtended.FlashAreaIdToMultiImageSlot | boot/zephyr/flash_map_extended.c:67-80 | the result is 0 exactly for the primary id, 1 exactly for a non-primary secondary id when built with two slots, and -1 otherwise |
| FlashMapExtended.FlashAreaToMultiImageSlot | boot/zephyr/flash_map_extended.c:82-95 | the result is 0 exactly for the primary area, 1 exactly for a non-primary secondary area when built with two slots, and -1 otherwise |
| FlashMapExtended.SlotAreaRoundTrip | boot/zephyr/flash_map_extended.c:47-95 | slot to area and back gives the slot, both by area and by area id, on a consistent board |
| FlashMapExtended.AreaSlotRoundTrip | boot/zephyr/flash_map_extended.c:47-95 | an area recognised as a slot is the area that slot's lookup returns |
| FlashMapExtended.ScratchIsNoImageSlot | boot/zephyr/flash_map_extended.c:47-95 | the scratch area is slot 2's area and is recognised as neither image slot |
| FlashMapExtended.FlashAreaSectorFromOff | boot/zephyr/flash_map_extended.c:121-135 | the lookup's code is returned; on success the sector is the page's absolute start and size, and on failure it is untouched |
| FlashMapExtended.SectorsFromPagesAppend | boot/zephyr/flash_map_extended.c:163-169 | appending the page found at the running offset keeps every sector traced to the page table, and the running offset grows by its size |
| FlashMapExtended.ScanFromSpec | boot/zephyr/flash_map_extended.c:160-171 | the walk extends the sectors found, each the page at the running offset made relative to the area, never beyond the room given; it stops only with no room, with the area covered, or with a failed lookup whose code it keeps |
| FlashMapExtended.SectorScanSpec | boot/zephyr/flash_map_extended.c:153-171 | the same facts for the walk from offset 0 with an empty table |
| FlashMapExtended.SectorsOutcomeAsWrittenSpec | boot/zephyr/flash_map_extended.c:173-177 | as coded, success means every lookup succeeded and exactly one of full table and covered area held; a failed lookup's nonzero code is returned unchanged; a complete listing that exactly fills the table gives `-ENOENT`; the count is never written |
| FlashMapExtended.SectorsOutcomeOfSpec | boot/zephyr/flash_map_extended.c:173-177 | with the intended test, success holds exactly when every lookup succeeded and the area was covered; the count is the number of sectors listed |
| FlashMapExtended.ExactFitReportsNoEntry | boot/zephyr/flash_map_extended.c:173-175 | a one-page area listed into a one-entry table is complete but reported `-ENOENT` |
| FlashMapExtended.ShortTableReportsSuccess | boot/zephyr/flash_map_extended.c:173-177 | a two-page area listed into a one-entry table is reported as success; a one-page area with count 2 leaves the caller's count at 2 |
| FlashMapExtended.FlashAreaGetSectorsFa | boot/zephyr/flash_map_extended.c:150-178 | the array's front holds exactly the scan's sectors, the rest of it and the count are untouched, and the result is the coded outcome |
| Tlv.FlagBitsDistinct | sim/src/tlv.rs:16-24 | each header flag is a single bit, and distinct flags have distinct bits |
| Tlv.EncodeEntry | sim/src/tlv.rs:78-82 | an entry is its type byte, a zero pad byte, its payload length as little-endian 16 bits, then the payload |
| Tlv.DecodeEncodeEntry | sim/src/tlv.rs:78-82 | decoding an encoded entry gives the entry back |
| Tlv.TlvGen.NewHashOnly | sim/src/tlv.rs:45-52 | a hash-only generator has the SHA256 flag, one SHA-256 kind, size 4 + 32 and nothing hashed, and it keeps its size invariant |
| Tlv.TlvGen.GetFlags | sim/src/tlv.rs:55-57 | the flags word is the generator's flag bit, 0x02 for the hash-only generator |
| Tlv.TlvGen.GetSize | sim/src/tlv.rs:60-62 | the reported size is what the block of its kinds will occupy, 36 for a SHA-256 block |
| Tlv.TlvGen.AddBytes | sim/src/tlv.rs:65-67 | the hashed bytes grow by exactly the given bytes, and nothing else changes |
| Tlv.TlvGen.MakeTlv | sim/src/tlv.rs:70-86 | with SHA-256 among the kinds, the block is one encoded SHA-256 entry holding the digest of every byte fed; otherwise it is empty; the announced size is the emitted length |
| Tlv.Sha256BlockDecodes | sim/src/tlv.rs:73-83 | a SHA-256 block is 36 bytes with the header 1, 0, 32, 0, and it decodes to type 1 with the digest |

## Left out

- Opening and closing flash areas (`flash_area_open`, `flash_area_close`) are left out. These are calls into the flash driver. The eraser receives the opened status area as a `StatusFlash` object.
- The status row codec (counter and CRC), wear-levelling row selection and the resume and recovery engine are left out. The modelled files contain only their size constants.
- `swap_read_status` is left out. Its body is commented out, and what remains returns an uninitialised `rc`.
- `flash_area_from_direct_image` is left out. It is compiled only for serial direct image upload, and it returns `-EINVAL` through a pointer return type.
- `boot/selfhosted/src/main.c`, `boot/zephyr/keys.c` and `boot/cypress/platforms/BSP/XMC7000/cycfg_notices.h` are not part of this model. They are callers and board data, not core logic.
- The mapping from an image and a slot to an area id (`flash_area_id_from_multi_image_slot`) is not in the modelled files. It is represented by the board's `primaryId` and `secondaryId`.
- SwapStatusMisc.StatusFlash.EraseRegion: `boot_erase_region` is modelled as always succeeding, because the source asserts its result is 0. An erase failure is therefore not modelled.
- SwapStatusMisc.SwapEraseTrailerSectors: for a slot of the current image it requires three things; for any other area it requires nothing:
  - the status size is below 2^31;
  - the first `boot_status_num_sectors` status sectors exist and cover the status size;
  - they total less than 4 GiB.

  Under these conditions the `uint32_t` running total never wraps, and `sector` never decrements past 0. The source does not check either.
- SwapStatusMisc.SwapStatusInit: the `state`, `fap` and `bs` arguments are unread, as in the source, whose body is commented out.
- FlashMapExtended.FlashAreaToMultiImageSlot: the source compares area pointers; the model compares area records by value.
- FlashMapExtended.FlashAreaGetSectorsFa: `off_t` and `size_t` overflow of the running offset is not modelled. The offset is an unbounded integer.
- FlashMapExtended.FlashAreaFromMultiImageSlot: the `__ASSERT` on an unknown slot is modelled as the `NULL` it returns (`None`).
- Logging (`BOOT_LOG_*`) is left out.
- Tlv.TlvGen.MakeTlv: SHA-256 itself is a parameter `hash`, not an implementation. The Rust method consumes the generator; the model leaves the object in place.
- The `size` of TLV kinds other than SHA-256 is left out. No constructor in the source builds such a generator.

## Findings

| source | as written | input that shows it | evidently intended | confidence | as-written member | corrected member |
|---|---|---|---|---|---|---|
| boot/zephyr/flash_map_extended.c:173-175 | returns `-ENOENT` when the table is full and `offset >= fa_size` | an area of one 4 KiB page with `*count == 1`: the table holds the whole area, yet `-ENOENT` is returned; with two pages and `*count == 1` the incomplete table is reported as 0 | `-ENOENT` when the table is full and `offset < fa_size`, so that 0 means the whole area was listed | medium, not executed | FlashMapExtended.ExactFitReportsNoEntry | FlashMapExtended.SectorsOutcomeOfSpec |
| boot/zephyr/flash_map_extended.c:150-178 | `*count` is read but never written back | a one-page area with `*count == 2`: one sector is filled, and the caller still reads 2 | `*count` set to the number of sectors filled | medium, not executed | FlashMapExtended.ShortTableReportsSuccess | FlashMapExtended.SectorsOutcomeOfSpec |
