/**
  The Zephyr flash-map backend: the map from image slots to flash areas and
  back, the single flash device's id, base and erased value, and the
  enumeration of a flash area's erase sectors from the device's page table.
*/
module FlashMapExtended {
  import opened FlashTypes

  /** The value an erased flash byte reads as. */
  const ERASED_VAL: u8 := 0xff

  // ---------------------------------------------------------------------
  // The flash device
  // ---------------------------------------------------------------------

  /**
    Write the base address of device `fdId` to `ret`. Only the board's one
    flash device is known; any other id is refused with `-EINVAL` and `ret`
    is left as it was.
  */
  method FlashDeviceBase(board: Board, fdId: u8, ret: Cell<int>) returns (rc: int)
    modifies ret
    ensures fdId != board.deviceId ==> rc == -EINVAL && ret.value == old(ret.value)
    ensures fdId == board.deviceId ==> rc == 0 && ret.value == board.deviceBase
  {
    if fdId != board.deviceId {
      return -EINVAL;
    }
    ret.value := board.deviceBase;
    return 0;
  }

  /** Every flash area lives on the board's one flash device, whatever the area. */
  function FlashAreaGetDeviceId(board: Board, fa: FlashArea): (r: u8)
    ensures r == board.deviceId
  {
    board.deviceId
  }

  /** Erased flash reads as all ones, on every area. */
  function FlashAreaErasedVal(fa: FlashArea): (r: u8)
    ensures r == ERASED_VAL == 0xff
  {
    ERASED_VAL
  }

  // ---------------------------------------------------------------------
  // Slots and flash areas
  // ---------------------------------------------------------------------

  /** Whether `slot` names an area on this board: the primary always, the secondary unless the build has a single slot, slot 2 when swapping uses a scratch area. */
  predicate SlotExists(board: Board, slot: int) {
    || slot == 0
    || (slot == 1 && !board.singleApplicationSlot)
    || (slot == 2 && board.swapUsingScratch)
  }

  /** The flash area of slot `slot` of image `imageIndex`; `None` stands for the `NULL` of a slot the build does not have. */
  function FlashAreaFromMultiImageSlot(board: Board, imageIndex: int, slot: int): (r: Option<FlashArea>)
    ensures r.Some? <==> SlotExists(board, slot)
    ensures slot == 0 ==> r == Some(board.primaryFa(imageIndex))
    ensures slot == 1 && r.Some? ==> r.value == board.secondaryFa(imageIndex)
    ensures slot == 2 && r.Some? ==> r.value == board.scratchFa
  {
    if slot == 0 then Some(board.primaryFa(imageIndex))
    else if slot == 1 && !board.singleApplicationSlot then Some(board.secondaryFa(imageIndex))
    else if slot == 2 && board.swapUsingScratch then Some(board.scratchFa)
    else None
  }

  /** The flash area of slot `slot` of image 0. */
  function FlashAreaFromImageSlot(board: Board, slot: int): (r: Option<FlashArea>)
    ensures r.Some? <==> SlotExists(board, slot)
    ensures slot == 0 ==> r == Some(board.primaryFa(0))
    ensures slot == 1 && r.Some? ==> r.value == board.secondaryFa(0)
    ensures slot == 2 && r.Some? ==> r.value == board.scratchFa
  {
    FlashAreaFromMultiImageSlot(board, 0, slot)
  }

  /** The slot an area id holds for image `imageIndex`: 0 for the primary, 1 for the secondary (when built), otherwise -1. */
  function FlashAreaIdToMultiImageSlot(board: Board, imageIndex: int, areaId: int): (r: int)
    ensures r == 0 <==> areaId == board.primaryId(imageIndex)
    ensures r == 1 <==>
      areaId != board.primaryId(imageIndex) && !board.singleApplicationSlot && areaId == board.secondaryId(imageIndex)
    ensures r == -1 || r == 0 || r == 1
  {
    if areaId == board.primaryId(imageIndex) then 0
    else if !board.singleApplicationSlot && areaId == board.secondaryId(imageIndex) then 1
    else -1
  }

  /**
    The slot a flash area holds for image `imageIndex`: 0 for the primary, 1
    for the secondary (when built), otherwise -1. The C code compares area
    pointers; areas here are compared by value.
  */
  function FlashAreaToMultiImageSlot(board: Board, imageIndex: int, fa: FlashArea): (r: int)
    ensures r == 0 <==> fa == board.primaryFa(imageIndex)
    ensures r == 1 <==>
      fa != board.primaryFa(imageIndex) && !board.singleApplicationSlot && fa == board.secondaryFa(imageIndex)
    ensures r == -1 || r == 0 || r == 1
  {
    if fa == board.primaryFa(imageIndex) then 0
    else if !board.singleApplicationSlot && fa == board.secondaryFa(imageIndex) then 1
    else -1
  }

  /**
    A board whose image `imageIndex` has two distinct slot areas, each
    carrying the area id the id macros give for it, and a scratch area that
    is neither.
  */
  predicate BoardConsistent(board: Board, imageIndex: int) {
    && board.primaryFa(imageIndex).faId == board.primaryId(imageIndex)
    && board.secondaryFa(imageIndex).faId == board.secondaryId(imageIndex)
    && board.primaryId(imageIndex) != board.secondaryId(imageIndex)
    && board.scratchFa != board.primaryFa(imageIndex)
    && board.scratchFa != board.secondaryFa(imageIndex)
  }

  /** Looking up an image slot's area and asking which slot it is gives the slot back, by area and by area id. */
  lemma SlotAreaRoundTrip(board: Board, imageIndex: int, slot: int)
    requires BoardConsistent(board, imageIndex)
    requires slot == 0 || slot == 1
    requires SlotExists(board, slot)
    ensures var fa := FlashAreaFromMultiImageSlot(board, imageIndex, slot).value;
      && FlashAreaToMultiImageSlot(board, imageIndex, fa) == slot
      && FlashAreaIdToMultiImageSlot(board, imageIndex, fa.faId) == slot
  {
    var fa := FlashAreaFromMultiImageSlot(board, imageIndex, slot).value;
    if slot == 1 {
      assert fa.faId == board.secondaryId(imageIndex);
      assert board.primaryFa(imageIndex).faId != fa.faId;
    }
  }

  /** Whatever slot an area is recognised as, that slot's lookup gives back the same area. */
  lemma AreaSlotRoundTrip(board: Board, imageIndex: int, fa: FlashArea)
    ensures var s := FlashAreaToMultiImageSlot(board, imageIndex, fa);
      s != -1 ==> FlashAreaFromMultiImageSlot(board, imageIndex, s) == Some(fa)
  {
  }

  /** The scratch area, when built, is no image slot: both reverse maps refuse it. */
  lemma ScratchIsNoImageSlot(board: Board, imageIndex: int)
    requires BoardConsistent(board, imageIndex)
    requires board.swapUsingScratch
    ensures FlashAreaFromMultiImageSlot(board, imageIndex, 2) == Some(board.scratchFa)
    ensures FlashAreaToMultiImageSlot(board, imageIndex, board.scratchFa) == -1
  {
  }

  // ---------------------------------------------------------------------
  // Sectors from the device page table
  // ---------------------------------------------------------------------

  /**
    The answer of the page-table query for one device offset: a return code,
    and on success (`rc == 0`) the start offset and size of the page that
    holds the offset.
  */
  datatype PageLookup = PageLookup(rc: int, startOffset: int, size: nat)

  /**
    Look up the page holding device offset `off` and record it in `sector`;
    a failing lookup's code is passed on and `sector` is left as it was.
  */
  method FlashAreaSectorFromOff(pages: int -> PageLookup, off: int, sector: Cell<FlashSector>) returns (rc: int)
    modifies sector
    ensures rc == pages(off).rc
    ensures rc == 0 ==> sector.value == FlashSector(pages(off).startOffset, pages(off).size)
    ensures rc != 0 ==> sector.value == old(sector.value)
  {
    var page := pages(off);
    rc := page.rc;
    if rc != 0 {
      return rc;
    }
    sector.value := FlashSector(page.startOffset, page.size);
    return rc;
  }

  /** Where the sector scan stopped: the sectors found, the area offset reached and the last return code. */
  datatype Scan = Scan(sectors: seq<FlashSector>, offset: int, rc: int)

  /**
    The sector scan of an area at device offset `faOff` of `faSize` bytes,
    with room for `max` sectors, continued from the sectors `acc` found so
    far and the area offset `offset` reached: while there is room and the
    area is not covered, the page at the current offset is appended (its
    offset made relative to the area) and the offset moves past it; a failing
    lookup ends the scan with its code.
  */
  function ScanFrom(pages: int -> PageLookup, faOff: int, faSize: nat, max: int,
                    acc: seq<FlashSector>, offset: int): Scan
    decreases max - |acc|
  {
    if |acc| < max && offset < faSize then
      var p := pages(faOff + offset);
      if p.rc == 0 then
        ScanFrom(pages, faOff, faSize, max, acc + [FlashSector(p.startOffset - faOff, p.size)], offset + p.size)
      else
        Scan(acc, offset, p.rc)
    else
      Scan(acc, offset, 0)
  }

  /** The scan of area `fa` with room for `max` sectors. */
  function SectorScan(pages: int -> PageLookup, fa: FlashArea, max: int): Scan {
    ScanFrom(pages, fa.faOff, fa.faSize, max, [], 0)
  }

  /** Total size of the first `k` sectors of `s`. */
  function SumSizes(s: seq<FlashSector>, k: nat): nat
    requires k <= |s|
  {
    if k == 0 then 0 else SumSizes(s, k - 1) + s[k - 1].fsSize
  }

  lemma {:induction false} SumSizesPrefix(s: seq<FlashSector>, t: seq<FlashSector>, k: nat)
    requires k <= |s|
    ensures SumSizes(s + t, k) == SumSizes(s, k)
  {
    if k > 0 {
      assert (s + t)[k - 1] == s[k - 1];
      SumSizesPrefix(s, t, k - 1);
    }
  }

  /**
    Sector `i` of `s` is the page found at the area offset the sizes of
    sectors `0 .. i-1` add up to, with its start made relative to the area;
    that offset was still inside the area.
  */
  predicate PageSectorAt(pages: int -> PageLookup, faOff: int, faSize: nat, s: seq<FlashSector>, i: nat)
    requires i < |s|
  {
    var at := SumSizes(s, i);
    && at < faSize
    && pages(faOff + at).rc == 0
    && s[i] == FlashSector(pages(faOff + at).startOffset - faOff, pages(faOff + at).size)
  }

  /** Every sector of `s` was read from the page table at its running offset. */
  predicate SectorsFromPages(pages: int -> PageLookup, faOff: int, faSize: nat, s: seq<FlashSector>) {
    forall i :: 0 <= i < |s| ==> PageSectorAt(pages, faOff, faSize, s, i)
  }

  /** Appending the page found at the running offset keeps every sector read from the page table. */
  lemma SectorsFromPagesAppend(pages: int -> PageLookup, faOff: int, faSize: nat, acc: seq<FlashSector>, e: FlashSector)
    requires SectorsFromPages(pages, faOff, faSize, acc)
    requires PageSectorAt(pages, faOff, faSize, acc + [e], |acc|)
    ensures SectorsFromPages(pages, faOff, faSize, acc + [e])
    ensures SumSizes(acc + [e], |acc| + 1) == SumSizes(acc, |acc|) + e.fsSize
  {
    forall i | 0 <= i < |acc|
      ensures PageSectorAt(pages, faOff, faSize, acc + [e], i)
    {
      SumSizesPrefix(acc, [e], i);
      assert (acc + [e])[i] == acc[i];
      assert PageSectorAt(pages, faOff, faSize, acc, i);
    }
    SumSizesPrefix(acc, [e], |acc|);
  }

  /**
    What the scan ends with: the sectors extend those found so far, each read
    from the page table at the running offset, never more than there is room
    for; the offset reached is the sum of their sizes; and it stops for one
    of three reasons: no room left, the area covered, or a failed lookup,
    whose code it keeps, at an offset still inside the area with room left.
  */
  lemma {:induction false} ScanFromSpec(pages: int -> PageLookup, faOff: int, faSize: nat, max: int,
                                        acc: seq<FlashSector>, offset: int)
    requires SectorsFromPages(pages, faOff, faSize, acc)
    requires offset == SumSizes(acc, |acc|)
    requires |acc| <= max || acc == []
    ensures var r := ScanFrom(pages, faOff, faSize, max, acc, offset);
      && acc <= r.sectors
      && SectorsFromPages(pages, faOff, faSize, r.sectors)
      && r.offset == SumSizes(r.sectors, |r.sectors|)
      && (|r.sectors| <= max || r.sectors == acc)
      && (r.rc == 0 ==> |r.sectors| >= max || r.offset >= faSize)
      && (r.rc != 0 ==>
            && |r.sectors| < max && r.offset < faSize
            && pages(faOff + r.offset).rc == r.rc)
    decreases max - |acc|
  {
    if |acc| < max && offset < faSize {
      var p := pages(faOff + offset);
      if p.rc == 0 {
        var e := FlashSector(p.startOffset - faOff, p.size);
        SumSizesPrefix(acc, [e], |acc|);
        assert PageSectorAt(pages, faOff, faSize, acc + [e], |acc|);
        SectorsFromPagesAppend(pages, faOff, faSize, acc, e);
        ScanFromSpec(pages, faOff, faSize, max, acc + [e], offset + p.size);
      }
    }
  }

  /** The whole scan of an area: its sectors read from the page table, as many as there is room for, and why it stopped. */
  lemma SectorScanSpec(pages: int -> PageLookup, fa: FlashArea, max: int)
    ensures var r := SectorScan(pages, fa, max);
      && SectorsFromPages(pages, fa.faOff, fa.faSize, r.sectors)
      && r.offset == SumSizes(r.sectors, |r.sectors|)
      && (|r.sectors| <= max || r.sectors == [])
      && (r.rc == 0 ==> |r.sectors| >= max || r.offset >= fa.faSize)
      && (r.rc != 0 ==> |r.sectors| < max && r.offset < fa.faSize && pages(fa.faOff + r.offset).rc == r.rc)
  {
    ScanFromSpec(pages, fa.faOff, fa.faSize, max, [], 0);
  }

  /** What the call reports: its return code and the sector count the caller reads back. */
  datatype SectorsOutcome = SectorsOutcome(rc: int, count: nat)

  /** The outcome as the code is written: `-ENOENT` when the table is full and the area covered, and `*count` never written. */
  function SectorsOutcomeAsWritten(s: Scan, max: int, faSize: nat, count: u32): SectorsOutcome {
    SectorsOutcome(if |s.sectors| >= max && s.offset >= faSize then -ENOENT else s.rc, count)
  }

  /** The outcome intended: `-ENOENT` when the table filled up before the area was covered, and the number of sectors found reported back. */
  function SectorsOutcomeOf(s: Scan, max: int, faSize: nat): SectorsOutcome {
    SectorsOutcome(if |s.sectors| >= max && s.offset < faSize then -ENOENT else s.rc, |s.sectors|)
  }

  /**
    With the intended outcome, success means exactly that every page lookup
    succeeded and the sectors found cover the whole area, and the count is
    then the number of sectors listed.
  */
  lemma SectorsOutcomeOfSpec(pages: int -> PageLookup, fa: FlashArea, max: int)
    ensures var s := SectorScan(pages, fa, max);
      var o := SectorsOutcomeOf(s, max, fa.faSize);
      && (o.rc == 0 <==> s.rc == 0 && SumSizes(s.sectors, |s.sectors|) >= fa.faSize)
      && (o.rc == -ENOENT <==> s.rc == -ENOENT || (s.rc == 0 && SumSizes(s.sectors, |s.sectors|) < fa.faSize))
      && o.count == |s.sectors|
  {
    SectorScanSpec(pages, fa, max);
  }

  /**
    As written, success means every lookup succeeded and exactly one of the
    two stopping conditions held: the area was covered with room to spare, or
    the table filled up before the area was covered. A failed lookup's code
    is passed on unchanged. A complete listing that exactly fills the table
    is reported as `-ENOENT`.
  */
  lemma SectorsOutcomeAsWrittenSpec(pages: int -> PageLookup, fa: FlashArea, max: int, count: u32)
    ensures var s := SectorScan(pages, fa, max);
      var o := SectorsOutcomeAsWritten(s, max, fa.faSize, count);
      var full, covered := |s.sectors| >= max, SumSizes(s.sectors, |s.sectors|) >= fa.faSize;
      && (o.rc == 0 <==> s.rc == 0 && ((covered && !full) || (full && !covered)))
      && (s.rc != 0 ==> o.rc == s.rc)
      && (s.rc == 0 && full && covered ==> o.rc == -ENOENT)
      && o.count == count
  {
    SectorScanSpec(pages, fa, max);
  }

  /** A page table of fixed `pageSize`-byte pages starting at device offset 0. */
  function UniformPages(pageSize: nat): int -> PageLookup
    requires pageSize > 0
  {
    off => PageLookup(0, off - off % pageSize, pageSize)
  }

  /** As written: an area of exactly one page, listed into a one-entry table, is reported as `-ENOENT` although its table is complete. */
  lemma ExactFitReportsNoEntry()
    ensures var fa := FlashArea(1, 0, 0x1000, 0x1000);
      var s := SectorScan(UniformPages(0x1000), fa, 1);
      && s.sectors == [FlashSector(0, 0x1000)]
      && s.offset == fa.faSize
      && SectorsOutcomeAsWritten(s, 1, fa.faSize, 1).rc == -ENOENT
      && SectorsOutcomeOf(s, 1, fa.faSize) == SectorsOutcome(0, 1)
  {
    var fa := FlashArea(1, 0, 0x1000, 0x1000);
    var pages := UniformPages(0x1000);
    assert pages(0x1000) == PageLookup(0, 0x1000, 0x1000);
    var s1 := ScanFrom(pages, fa.faOff, fa.faSize, 1, [FlashSector(0, 0x1000)], 0x1000);
    assert s1 == Scan([FlashSector(0, 0x1000)], 0x1000, 0);
  }

  /**
    As written: an area of two pages listed into a one-entry table is
    reported as a success, and with a count of 2 for a one-page area the
    caller is told there are 2 sectors when only 1 was filled in.
  */
  lemma ShortTableReportsSuccess()
    ensures var fa := FlashArea(1, 0, 0x1000, 0x2000);
      var s := SectorScan(UniformPages(0x1000), fa, 1);
      && s.sectors == [FlashSector(0, 0x1000)]
      && s.offset < fa.faSize
      && SectorsOutcomeAsWritten(s, 1, fa.faSize, 1).rc == 0
      && SectorsOutcomeOf(s, 1, fa.faSize).rc == -ENOENT
    ensures var fa := FlashArea(1, 0, 0x1000, 0x1000);
      var s := SectorScan(UniformPages(0x1000), fa, 2);
      && |s.sectors| == 1
      && SectorsOutcomeAsWritten(s, 2, fa.faSize, 2) == SectorsOutcome(0, 2)
      && SectorsOutcomeOf(s, 2, fa.faSize) == SectorsOutcome(0, 1)
  {
    var pages := UniformPages(0x1000);
    assert pages(0x1000) == PageLookup(0, 0x1000, 0x1000);
    var fa2 := FlashArea(1, 0, 0x1000, 0x2000);
    assert ScanFrom(pages, fa2.faOff, fa2.faSize, 1, [FlashSector(0, 0x1000)], 0x1000)
        == Scan([FlashSector(0, 0x1000)], 0x1000, 0);
    var fa1 := FlashArea(1, 0, 0x1000, 0x1000);
    assert ScanFrom(pages, fa1.faOff, fa1.faSize, 2, [FlashSector(0, 0x1000)], 0x1000)
        == Scan([FlashSector(0, 0x1000)], 0x1000, 0);
  }

  /**
    List the erase sectors of area `fa` into `ret`, which has room for
    `count.value` entries, from the page table `pages` of the area's device.
    The sectors of the scan fill the front of `ret`, the rest of `ret` and
    the count are untouched, and the return code is the one the code
    computes: `-ENOENT` when the table is full and the area covered,
    otherwise the last lookup's code.
  */
  method FlashAreaGetSectorsFa(fa: FlashArea, count: Cell<u32>, ret: array<FlashSector>,
                               pages: int -> PageLookup) returns (rc: int)
    requires count.value <= ret.Length
    modifies ret
    ensures var s := SectorScan(pages, fa, U32ToInt(count.value));
      && |s.sectors| <= ret.Length
      && ret[..|s.sectors|] == s.sectors
      && ret[|s.sectors|..] == old(ret[..])[|s.sectors|..]
      && SectorsOutcome(rc, count.value) == SectorsOutcomeAsWritten(s, U32ToInt(count.value), fa.faSize, count.value)
  {
    var faOff := fa.faOff;
    var offset := 0;
    var faSize := fa.faSize;
    var maxSectors := U32ToInt(count.value);
    var sectorIdx := 0;
    rc := 0;
    ghost var scan := SectorScan(pages, fa, maxSectors);

    while rc == 0 && sectorIdx < maxSectors && offset < faSize
      invariant 0 <= sectorIdx <= ret.Length
      invariant sectorIdx <= maxSectors || sectorIdx == 0
      invariant ret[sectorIdx..] == old(ret[..])[sectorIdx..]
      invariant rc == 0 ==> scan == ScanFrom(pages, faOff, faSize, maxSectors, ret[..sectorIdx], offset)
      invariant rc != 0 ==> scan == Scan(ret[..sectorIdx], offset, rc)
      decreases maxSectors - sectorIdx, if rc == 0 then 1 else 0
    {
      var fpi := pages(faOff + offset);
      rc := fpi.rc;
      if rc == 0 {
        ghost var before := ret[..sectorIdx];
        ret[sectorIdx] := FlashSector(fpi.startOffset - faOff, fpi.size);
        assert ret[..sectorIdx + 1] == before + [FlashSector(fpi.startOffset - faOff, fpi.size)];
        assert ret[sectorIdx + 1..] == old(ret[..])[sectorIdx + 1..];
        sectorIdx := sectorIdx + 1;
        offset := offset + fpi.size;
      }
    }

    if sectorIdx >= maxSectors && offset >= faSize {
      return -ENOENT;
    }
    return rc;
  }
}
