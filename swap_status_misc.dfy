/**
  The swap-status sector helpers and the eraser that clears one slot's
  status sub-area of the dedicated status flash area, last sector first.
*/
module SwapStatusMisc {
  import opened FlashTypes
  import SwapStatus

  /** The part of the boot loader state the status code reads: the current image and the status area's sector table. */
  datatype LoaderState = LoaderState(currImg: u8, statusSectors: seq<FlashSector>)

  /** Size in bytes of status sector `sector`. */
  function StatusSectorSize(st: LoaderState, sector: nat): nat
    requires sector < |st.statusSectors|
  {
    st.statusSectors[sector].fsSize
  }

  /** Offset of status sector `sector` relative to sector 0, as a `uint32_t` difference. */
  function StatusSectorOff(st: LoaderState, sector: nat): (r: u32)
    requires sector < |st.statusSectors|
    ensures sector == 0 ==> r == 0
    ensures var s := st.statusSectors;
      s[0].fsOff <= s[sector].fsOff < s[0].fsOff + U32_LIMIT ==> r == s[sector].fsOff - s[0].fsOff
  {
    Wrap32(st.statusSectors[sector].fsOff - st.statusSectors[0].fsOff)
  }

  /** Relative offsets keep the order of the absolute ones while they stay within 4 GiB of sector 0. */
  lemma StatusSectorOffOrder(st: LoaderState, i: nat, j: nat)
    requires i < |st.statusSectors| && j < |st.statusSectors|
    requires var s := st.statusSectors;
      s[0].fsOff <= s[i].fsOff <= s[j].fsOff < s[0].fsOff + U32_LIMIT
    ensures StatusSectorOff(st, i) <= StatusSectorOff(st, j)
  {
  }

  /** The configurations the status code is built for: a valid geometry whose area size fits in a C `int`. */
  predicate SizeFits(c: SwapStatus.Config) {
    SwapStatus.ValidConfig(c) && SwapStatus.Size(c) < I32_LIMIT
  }

  /** Number of status sectors: the status size `statusSize` divided by the size of sector 0. */
  function StatusNumSectors(statusSize: nat, st: LoaderState): nat
    requires |st.statusSectors| > 0 && st.statusSectors[0].fsSize > 0
  {
    statusSize / st.statusSectors[0].fsSize
  }

  /** The division rounds down: that many sectors of sector 0's size fit in the status size, one more would not. */
  lemma StatusNumSectorsRoundsDown(statusSize: nat, st: LoaderState)
    requires |st.statusSectors| > 0 && st.statusSectors[0].fsSize > 0
    ensures var n, sz0 := StatusNumSectors(statusSize, st), st.statusSectors[0].fsSize;
      n * sz0 <= statusSize < (n + 1) * sz0
  {
    var sz0 := st.statusSectors[0].fsSize;
    var q := statusSize / sz0;
    SwapStatus.DivModParts(statusSize, sz0);
    assert (q + 1) * sz0 == q * sz0 + sz0;
  }

  /** Total size of status sectors `lo` .. `hi - 1`. */
  function RangeSum(st: LoaderState, lo: nat, hi: nat): nat
    requires lo <= hi <= |st.statusSectors|
    decreases hi - lo
  {
    if lo == hi then 0 else StatusSectorSize(st, lo) + RangeSum(st, lo + 1, hi)
  }

  lemma {:induction false} RangeSumSplit(st: LoaderState, lo: nat, mid: nat, hi: nat)
    requires lo <= mid <= hi <= |st.statusSectors|
    ensures RangeSum(st, lo, hi) == RangeSum(st, lo, mid) + RangeSum(st, mid, hi)
    decreases mid - lo
  {
    if lo < mid {
      RangeSumSplit(st, lo + 1, mid, hi);
    }
  }

  /** Bytes in the `j` sectors from `top` downward. */
  function DownSum(st: LoaderState, top: nat, j: nat): nat
    requires top < |st.statusSectors| && j <= top + 1
  {
    RangeSum(st, top + 1 - j, top + 1)
  }

  /**
    The eraser's precondition on the sector table for a status size
    `statusSize`: a positive sector 0, and the first `StatusNumSectors`
    sectors exist, cover the status size, and span less than 4 GiB (so the
    `uint32_t` running total cannot wrap).
  */
  predicate EraseTableOk(statusSize: nat, st: LoaderState) {
    && 0 < statusSize < I32_LIMIT
    && |st.statusSectors| > 0 && st.statusSectors[0].fsSize > 0
    && StatusNumSectors(statusSize, st) <= |st.statusSectors|
    && RangeSum(st, 0, StatusNumSectors(statusSize, st)) >= statusSize
    && RangeSum(st, 0, StatusNumSectors(statusSize, st)) < U32_LIMIT
  }

  /** One entry of the erase log: an offset in the status area and a length. */
  datatype Erase = Erase(off: u32, size: nat)

  /** The erase the loop issues for `sector`: its relative offset plus the slot's sub-area offset, in `uint32_t`. */
  function EraseOf(st: LoaderState, subOffs: u32, sector: nat): Erase
    requires sector < |st.statusSectors|
  {
    Erase(Wrap32(StatusSectorOff(st, sector) + subOffs), StatusSectorSize(st, sector))
  }

  /**
    The erases the do-while loop issues, in order, when it starts at `sector`
    with `total` bytes already counted and stops once `trailerSz` is reached.
  */
  function ErasePlan(st: LoaderState, subOffs: u32, sector: nat, total: nat, trailerSz: nat): seq<Erase>
    requires sector < |st.statusSectors|
    requires total + RangeSum(st, 0, sector + 1) >= trailerSz
    decreases sector
  {
    var t := total + StatusSectorSize(st, sector);
    if t < trailerSz then
      RangeSumSplit(st, 0, sector, sector + 1);
      [EraseOf(st, subOffs, sector)] + ErasePlan(st, subOffs, sector - 1, t, trailerSz)
    else
      [EraseOf(st, subOffs, sector)]
  }

  /**
    The loop erases a contiguous run of sectors from `sector` downward, one
    index lower each time, at least one; with them the count reaches
    `trailerSz`, and at every earlier point it was still short of it.
  */
  lemma ErasePlanSpec(st: LoaderState, subOffs: u32, sector: nat, total: nat, trailerSz: nat)
    requires sector < |st.statusSectors|
    requires total + RangeSum(st, 0, sector + 1) >= trailerSz
    requires total < trailerSz
    ensures var r := ErasePlan(st, subOffs, sector, total, trailerSz);
      && 1 <= |r| <= sector + 1
      && (forall k :: 0 <= k < |r| ==> r[k] == EraseOf(st, subOffs, sector - k))
      && total + DownSum(st, sector, |r|) >= trailerSz
      && total + DownSum(st, sector, |r| - 1) < trailerSz
      && (forall j :: 0 <= j < |r| ==> total + DownSum(st, sector, j) < trailerSz)
  {
    ErasePlanShape(st, subOffs, sector, total, trailerSz);
    ErasePlanCoverage(st, subOffs, sector, total, trailerSz);
  }

  lemma {:induction false} ErasePlanShape(st: LoaderState, subOffs: u32, sector: nat, total: nat, trailerSz: nat)
    requires sector < |st.statusSectors|
    requires total + RangeSum(st, 0, sector + 1) >= trailerSz
    ensures var r := ErasePlan(st, subOffs, sector, total, trailerSz);
      && 1 <= |r| <= sector + 1
      && (forall k :: 0 <= k < |r| ==> r[k] == EraseOf(st, subOffs, sector - k))
    decreases sector
  {
    var t := total + StatusSectorSize(st, sector);
    if t < trailerSz {
      RangeSumSplit(st, 0, sector, sector + 1);
      ErasePlanShape(st, subOffs, sector - 1, t, trailerSz);
      var r' := ErasePlan(st, subOffs, sector - 1, t, trailerSz);
      var r := ErasePlan(st, subOffs, sector, total, trailerSz);
      assert r == [EraseOf(st, subOffs, sector)] + r';
      forall k | 1 <= k < |r|
        ensures r[k] == EraseOf(st, subOffs, sector - k)
      {
        assert r[k] == r'[k - 1];
      }
    }
  }

  lemma {:induction false} ErasePlanCoverage(st: LoaderState, subOffs: u32, sector: nat, total: nat, trailerSz: nat)
    requires sector < |st.statusSectors|
    requires total + RangeSum(st, 0, sector + 1) >= trailerSz
    requires total < trailerSz
    ensures var m := |ErasePlan(st, subOffs, sector, total, trailerSz)|;
      && 1 <= m <= sector + 1
      && total + DownSum(st, sector, m) >= trailerSz
      && total + DownSum(st, sector, m - 1) < trailerSz
      && (forall j :: 0 <= j < m ==> total + DownSum(st, sector, j) < trailerSz)
    decreases sector
  {
    var t := total + StatusSectorSize(st, sector);
    var m := |ErasePlan(st, subOffs, sector, total, trailerSz)|;
    RangeSumSplit(st, sector, sector + 1, sector + 1);
    if t < trailerSz {
      RangeSumSplit(st, 0, sector, sector + 1);
      ErasePlanCoverage(st, subOffs, sector - 1, t, trailerSz);
      var m' := |ErasePlan(st, subOffs, sector - 1, t, trailerSz)|;
      assert m == m' + 1;
      forall j | 1 <= j <= m
        ensures DownSum(st, sector, j) == DownSum(st, sector - 1, j - 1) + StatusSectorSize(st, sector)
      {
        RangeSumSplit(st, sector + 1 - j, sector, sector + 1);
      }
    }
  }

  /** Byte offset of a slot's sub-area: the status size times the raw flash area id, in `uint32_t`. */
  function SubOffset(c: SwapStatus.Config, faId: u8): u32
    requires SwapStatus.ValidConfig(c)
  {
    Wrap32(SwapStatus.Size(c) * faId)
  }

  /** Every erase the eraser issues for a status size `statusSize` and sub-area offset `subOffs`, in order. */
  function TrailerErasePlan(statusSize: nat, st: LoaderState, subOffs: u32): seq<Erase>
    requires EraseTableOk(statusSize, st)
  {
    var n := StatusNumSectors(statusSize, st);
    ErasePlan(st, subOffs, n - 1, 0, statusSize)
  }

  /**
    The erase plan starts at the last status sector and walks down one sector
    at a time; each erase covers exactly one sector, at the sector's relative
    offset shifted by `subOffs`; the erased sectors cover the status size,
    and without the last one they would not.
  */
  lemma TrailerErasePlanSpec(statusSize: nat, st: LoaderState, subOffs: u32)
    requires EraseTableOk(statusSize, st)
    ensures var plan, n := TrailerErasePlan(statusSize, st, subOffs), StatusNumSectors(statusSize, st);
      && 1 <= |plan| <= n
      && (forall k :: 0 <= k < |plan| ==>
            plan[k] == Erase(Wrap32(StatusSectorOff(st, n - 1 - k) + subOffs), StatusSectorSize(st, n - 1 - k)))
      && DownSum(st, n - 1, |plan|) >= statusSize
      && DownSum(st, n - 1, |plan| - 1) < statusSize
  {
    var n := StatusNumSectors(statusSize, st);
    ErasePlanSpec(st, subOffs, n - 1, 0, statusSize);
  }

  /** The opened swap-status flash area, observed through the erases issued on it. */
  class StatusFlash {
    var erased: seq<Erase>

    constructor ()
      ensures erased == []
    {
      erased := [];
    }

    /** Erase `size` bytes at `off`; the driver reports success. */
    method EraseRegion(off: u32, size: nat) returns (rc: int)
      modifies this
      ensures erased == old(erased) + [Erase(off, size)]
      ensures rc == 0
    {
      erased := erased + [Erase(off, size)];
      rc := 0;
    }
  }

  /**
    Erase the status sub-area of flash area `faId`. An area that is neither the
    current image's primary nor its secondary slot is refused with
    `BOOT_EFLASH` before anything is erased.
  */
  method SwapEraseTrailerSectors(c: SwapStatus.Config, board: Board, st: LoaderState, faId: u8,
                                 flash: StatusFlash) returns (rc: int)
    requires faId == board.primaryId(st.currImg) || faId == board.secondaryId(st.currImg) ==>
      SizeFits(c) && EraseTableOk(SwapStatus.Size(c), st)
    modifies flash
    ensures faId != board.primaryId(st.currImg) && faId != board.secondaryId(st.currImg) ==>
      rc == BOOT_EFLASH && flash.erased == old(flash.erased)
    ensures faId == board.primaryId(st.currImg) || faId == board.secondaryId(st.currImg) ==>
      SizeFits(c) && rc == 0 &&
      flash.erased == old(flash.erased) + TrailerErasePlan(SwapStatus.Size(c), st, SubOffset(c, faId))
  {
    var faIdPrimary := board.primaryId(st.currImg);
    var faIdSecondary := board.secondaryId(st.currImg);
    if faId == faIdPrimary {
    } else if faId == faIdSecondary {
    } else {
      return BOOT_EFLASH;
    }

    var trailerSz: u32 := SwapStatus.Size(c);
    rc := EraseStatusSectors(trailerSz, st, SubOffset(c, faId), flash);
  }

  /** The do-while loop of the eraser: erase sectors from the last status sector down until `trailerSz` bytes are erased. */
  method EraseStatusSectors(trailerSz: u32, st: LoaderState, subOffs: u32, flash: StatusFlash) returns (rc: int)
    requires EraseTableOk(trailerSz, st)
    modifies flash
    ensures rc == 0
    ensures flash.erased == old(flash.erased) + TrailerErasePlan(trailerSz, st, subOffs)
  {
    var n := StatusNumSectors(trailerSz, st);
    var sector: int := n - 1;
    var totalSz: u32 := 0;
    RangeSumSplit(st, 0, n, n);
    rc := 0;
    var stop := false;
    while !stop
      invariant -1 <= sector < n
      invariant totalSz == RangeSum(st, sector + 1, n)
      invariant !stop ==> sector >= 0 && totalSz + RangeSum(st, 0, sector + 1) == RangeSum(st, 0, n)
      invariant !stop ==> old(flash.erased) + TrailerErasePlan(trailerSz, st, subOffs) ==
                          flash.erased + ErasePlan(st, subOffs, sector, totalSz, trailerSz)
      invariant stop ==> flash.erased == old(flash.erased) + TrailerErasePlan(trailerSz, st, subOffs)
      invariant rc == 0
      decreases sector + 1
    {
      EraseLoopStep(st, subOffs, n, sector, totalSz, trailerSz);
      var sz: u32 := StatusSectorSize(st, sector);
      var off := Wrap32(StatusSectorOff(st, sector) + subOffs);
      rc := flash.EraseRegion(off, sz);
      sector := sector - 1;
      totalSz := totalSz + sz;
      stop := totalSz >= trailerSz;
    }
    return rc;
  }

  /** One pass of the eraser's loop: the plan from `sector` is this sector's erase followed by the plan from the next one down. */
  lemma EraseLoopStep(st: LoaderState, subOffs: u32, n: nat, sector: int, total: nat, trailerSz: nat)
    requires 0 <= sector < n <= |st.statusSectors|
    requires total == RangeSum(st, sector + 1, n)
    requires total + RangeSum(st, 0, sector + 1) == RangeSum(st, 0, n) < U32_LIMIT
    requires RangeSum(st, 0, n) >= trailerSz
    ensures var t := total + StatusSectorSize(st, sector);
      && t < U32_LIMIT
      && t == RangeSum(st, sector, n)
      && (t < trailerSz ==>
            && sector > 0
            && t + RangeSum(st, 0, sector) == RangeSum(st, 0, n)
            && ErasePlan(st, subOffs, sector, total, trailerSz) ==
               [EraseOf(st, subOffs, sector)] + ErasePlan(st, subOffs, sector - 1, t, trailerSz))
      && (t >= trailerSz ==> ErasePlan(st, subOffs, sector, total, trailerSz) == [EraseOf(st, subOffs, sector)])
  {
    RangeSumSplit(st, 0, sector, sector + 1);
    RangeSumSplit(st, sector, sector + 1, n);
  }

  /** The status initialiser's body is disabled: it reports success and writes nothing. */
  method SwapStatusInit(st: LoaderState, faId: u8) returns (rc: int)
    ensures rc == 0
  {
    rc := 0;
  }
}
