/**
  Geometry of the dedicated swap-status flash region and the field layout of
  the image-status trailer record. Every quantity is a build-time constant
  derived from the flash alignment (`CY_FLASH_ALIGN`), the maximum number of
  image sectors (`BOOT_MAX_IMG_SECTORS`) and the magic length (`BOOT_MAGIC_SZ`).
*/
module SwapStatus {

  /** The three build parameters the geometry depends on. */
  datatype Config = Config(flashAlign: nat, maxImgSectors: nat, magicSz: nat)

  const ENCK1_SZ: nat := 16
  const ENCK2_SZ: nat := 16
  const SWAPSZ_SZ: nat := 4
  const SWAPINF_SZ: nat := 1
  const COPY_DONE_SZ: nat := 1
  const IMG_OK_SZ: nat := 1
  const CNT_SZ: nat := 4
  const CRC_SZ: nat := 4
  const TRAIL_ROWS_NUM: nat := 1
  const MULT: nat := 2
  const OFFS_PRIM: nat := 0

  function MagicSz(c: Config): nat { c.magicSz }

  /** A configuration whose rows can hold the counter, the CRC and at least one payload byte. */
  predicate ValidConfig(c: Config) {
    c.flashAlign > CNT_SZ + CRC_SZ
  }

  /** Bytes per status row. */
  function RowSz(c: Config): (r: nat)
    ensures r == c.flashAlign
  {
    c.flashAlign
  }

  /** Bytes of payload per row: what is left after the counter and the CRC. */
  function PayldSz(c: Config): (r: nat)
    requires ValidConfig(c)
    ensures r > 0
    ensures r + CNT_SZ + CRC_SZ == RowSz(c)
  {
    RowSz(c) - CNT_SZ - CRC_SZ
  }

  /** Rows the sector-status part needs: the two preprocessor branches on the remainder. */
  function SectRowsNum(c: Config): nat
    requires ValidConfig(c)
  {
    if c.maxImgSectors % PayldSz(c) != 0 then c.maxImgSectors / PayldSz(c) + 1
    else c.maxImgSectors / PayldSz(c)
  }

  /** Size of one copy of the status area: the sector-status rows and the trailer row. */
  function DSize(c: Config): nat
    requires ValidConfig(c)
  {
    RowSz(c) * (SectRowsNum(c) + TRAIL_ROWS_NUM)
  }

  /** Size of the status area of one slot: `MULT` copies for wear levelling. */
  function Size(c: Config): nat
    requires ValidConfig(c)
  {
    MULT * DSize(c)
  }

  function SzPrim(c: Config): nat requires ValidConfig(c) { Size(c) }
  function SzSec(c: Config): nat requires ValidConfig(c) { Size(c) }
  function OffsSec(c: Config): nat requires ValidConfig(c) { OFFS_PRIM + SzPrim(c) }

  predicate InPrim(c: Config, x: int) requires ValidConfig(c) { OFFS_PRIM <= x < OFFS_PRIM + SzPrim(c) }
  predicate InSec(c: Config, x: int) requires ValidConfig(c) { OffsSec(c) <= x < OffsSec(c) + SzSec(c) }

  /** Division facts the ceiling lemma rests on. */
  lemma DivModParts(m: nat, p: nat)
    requires p > 0
    ensures m == (m / p) * p + m % p
    ensures 0 <= m % p < p
  {
  }

  /**
    The number of sector-status rows is the ceiling of `maxImgSectors / PayldSz`:
    enough rows for every sector, and one row fewer would not be.
  */
  lemma SectRowsNumIsCeiling(c: Config)
    requires ValidConfig(c)
    ensures SectRowsNum(c) * PayldSz(c) >= c.maxImgSectors
    ensures (SectRowsNum(c) - 1) * PayldSz(c) < c.maxImgSectors || c.maxImgSectors == 0
    ensures c.maxImgSectors == 0 ==> SectRowsNum(c) == 0
  {
    var m, p := c.maxImgSectors, PayldSz(c);
    var q: int := m / p;
    DivModParts(m, p);
    MulSucc(q, p);
    MulSucc(q - 1, p);
    if m % p != 0 {
      assert SectRowsNum(c) == q + 1;
    } else {
      assert SectRowsNum(c) == q;
    }
  }

  lemma MulSucc(q: int, p: int)
    ensures (q + 1) * p == q * p + p
  {
  }

  /** One copy is a whole number of rows, one more than the sector-status rows. */
  lemma DSizeIsRowMultiple(c: Config)
    requires ValidConfig(c)
    ensures DSize(c) % RowSz(c) == 0
    ensures DSize(c) / RowSz(c) == SectRowsNum(c) + TRAIL_ROWS_NUM
    ensures DSize(c) >= RowSz(c)
  {
    var k := SectRowsNum(c) + TRAIL_ROWS_NUM;
    MultipleFacts(RowSz(c), k);
  }

  lemma MultipleFacts(a: nat, k: nat)
    requires a > 0
    ensures (a * k) % a == 0 && (a * k) / a == k
  {
    DivUnique(a * k, a, k, 0);
  }

  lemma MulAtLeast(d: int, a: int)
    requires a > 0 && d >= 1
    ensures d * a >= a
  {
  }

  /** Euclidean division has one quotient and one remainder. */
  lemma DivUnique(n: int, a: int, q: int, r: int)
    requires a > 0 && 0 <= r < a && n == q * a + r
    ensures n / a == q && n % a == r
  {
    var q', r' := n / a, n % a;
    assert n == q' * a + r';
    assert (q' - q) * a == r - r' by {
      assert q' * a - q * a == (q' - q) * a;
    }
    if q' - q >= 1 {
      MulAtLeast(q' - q, a);
    } else if q - q' >= 1 {
      MulAtLeast(q - q', a);
    }
  }

  /** The area of one slot holds `MULT` whole copies, hence whole rows, and is never empty. */
  lemma SizeIsCopyAndRowMultiple(c: Config)
    requires ValidConfig(c)
    ensures Size(c) % DSize(c) == 0 && Size(c) / DSize(c) == MULT
    ensures Size(c) % RowSz(c) == 0
    ensures Size(c) / RowSz(c) == MULT * (SectRowsNum(c) + TRAIL_ROWS_NUM)
    ensures Size(c) > 0
  {
    DSizeIsRowMultiple(c);
    MultipleFacts(DSize(c), MULT);
    var k := MULT * (SectRowsNum(c) + TRAIL_ROWS_NUM);
    assert Size(c) == RowSz(c) * k;
    MultipleFacts(RowSz(c), k);
  }

  /** The primary and secondary status regions are the same size, adjacent, and disjoint. */
  lemma StatusRegionsAdjacentDisjoint(c: Config)
    requires ValidConfig(c)
    ensures OFFS_PRIM == 0 && OffsSec(c) == OFFS_PRIM + SzPrim(c)
    ensures SzPrim(c) == SzSec(c) == Size(c)
    ensures forall x :: InPrim(c, x) ==> !InSec(c, x)
    ensures forall x :: OFFS_PRIM <= x < OffsSec(c) + SzSec(c) ==> InPrim(c, x) || InSec(c, x)
  {
  }

  // ---------------------------------------------------------------------
  // The image-status trailer record (struct image_status_trailer)
  // ---------------------------------------------------------------------

  /** The record's fields, in declaration order. */
  datatype TrailerField = EncKey1 | EncKey2 | SwapSize | SwapType | CopyDone | ImageOk | Magic

  const TRAILER_FIELDS: seq<TrailerField> := [EncKey1, EncKey2, SwapSize, SwapType, CopyDone, ImageOk, Magic]

  /** C element types of the fields. */
  datatype CType = Uint8 | Uint32

  function CTypeWidth(t: CType): nat {
    match t
    case Uint8 => 1
    case Uint32 => 4
  }

  /** Element type and element count of each field, as declared. */
  function FieldType(f: TrailerField): CType {
    if f == SwapSize then Uint32 else Uint8
  }

  function FieldCount(c: Config, f: TrailerField): nat {
    match f
    case EncKey1 => ENCK1_SZ
    case EncKey2 => ENCK2_SZ
    case Magic => MagicSz(c)
    case _ => 1
  }

  /** Bytes a field occupies, and its alignment (that of its element type). */
  function FieldWidth(c: Config, f: TrailerField): nat {
    FieldCount(c, f) * CTypeWidth(FieldType(f))
  }

  function FieldAlign(f: TrailerField): nat {
    CTypeWidth(FieldType(f))
  }

  /** The least multiple of `a` that is at least `x`. */
  function AlignUp(x: nat, a: nat): (r: nat)
    requires a > 0
    ensures r >= x && r % a == 0 && r - x < a
  {
    if x % a == 0 then x
    else
      DivModParts(x, a);
      MultipleFacts(a, x / a + 1);
      a * (x / a + 1)
  }

  /** Offset of field `i` under the C rule: the end of the previous field rounded up to the field's alignment. */
  function FieldOffset(c: Config, i: nat): nat
    requires i < |TRAILER_FIELDS|
    decreases i
  {
    if i == 0 then 0
    else AlignUp(FieldOffset(c, i - 1) + FieldWidth(c, TRAILER_FIELDS[i - 1]), FieldAlign(TRAILER_FIELDS[i]))
  }

  /** `sizeof(struct image_status_trailer)`: the end of the last field rounded up to the widest alignment. */
  function TrailerSize(c: Config): nat {
    AlignUp(FieldOffset(c, 6) + FieldWidth(c, Magic), 4)
  }

  /** The field widths the struct declares agree with the named size constants. */
  lemma TrailerWidthsMatchConstants(c: Config)
    ensures FieldWidth(c, EncKey1) == ENCK1_SZ && FieldWidth(c, EncKey2) == ENCK2_SZ
    ensures FieldWidth(c, SwapSize) == SWAPSZ_SZ
    ensures FieldWidth(c, SwapType) == SWAPINF_SZ
    ensures FieldWidth(c, CopyDone) == COPY_DONE_SZ
    ensures FieldWidth(c, ImageOk) == IMG_OK_SZ
    ensures FieldWidth(c, Magic) == MagicSz(c)
  {
  }

  /** The fields sit at offsets 0, 16, 32, 36, 37, 38 and 39. */
  lemma TrailerLayout(c: Config)
    ensures FieldOffset(c, 0) == 0 && FieldOffset(c, 1) == 16 && FieldOffset(c, 2) == 32
    ensures FieldOffset(c, 3) == 36 && FieldOffset(c, 4) == 37 && FieldOffset(c, 5) == 38
    ensures FieldOffset(c, 6) == 39
  {
    assert FieldOffset(c, 1) == AlignUp(16, 1) == 16;
    assert FieldOffset(c, 2) == AlignUp(32, 4) == 32;
    assert FieldOffset(c, 3) == AlignUp(36, 1) == 36;
    assert FieldOffset(c, 4) == AlignUp(37, 1) == 37;
    assert FieldOffset(c, 5) == AlignUp(38, 1) == 38;
    assert FieldOffset(c, 6) == AlignUp(39, 1) == 39;
  }

  /** No padding lies between the fields, and the record is the packed fields rounded up to 4 bytes. */
  lemma TrailerPacked(c: Config)
    ensures forall i :: 0 <= i < 6 ==>
      FieldOffset(c, i) + FieldWidth(c, TRAILER_FIELDS[i]) == FieldOffset(c, i + 1)
    ensures TrailerSize(c) == AlignUp(39 + MagicSz(c), 4)
    ensures TrailerSize(c) >= 39 + MagicSz(c)
  {
    TrailerLayout(c);
  }
}
