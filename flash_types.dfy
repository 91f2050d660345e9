/**
  Machine integer ranges, error codes and the flash-map records shared by the
  swap-status eraser and the Zephyr flash-map backend.
*/
module FlashTypes {

  const U8_LIMIT: int := 0x100
  const U16_LIMIT: int := 0x1_0000
  const U32_LIMIT: int := 0x1_0000_0000
  const I32_LIMIT: int := 0x8000_0000

  type u8 = x: int | 0 <= x < U8_LIMIT
  type u16 = x: int | 0 <= x < U16_LIMIT
  type u32 = x: int | 0 <= x < U32_LIMIT

  /** The value a C `uint32_t` holds after an assignment of `x`. */
  function Wrap32(x: int): (r: u32)
    ensures (x - r) % U32_LIMIT == 0
    ensures 0 <= x < U32_LIMIT ==> r == x
  {
    x % U32_LIMIT
  }

  /** The value a C `int` holds after a conversion from `uint32_t`. */
  function U32ToInt(x: u32): (r: int)
    ensures -I32_LIMIT <= r < I32_LIMIT
    ensures x < I32_LIMIT ==> r == x
    ensures x >= I32_LIMIT ==> r < 0 && r + U32_LIMIT == x
  {
    if x < I32_LIMIT then x else x - U32_LIMIT
  }

  /** A value that may be absent (a C `NULL` pointer, a failed parse). */
  datatype Option<T> = None | Some(value: T)

  /** Zephyr errno values. */
  const ENOENT: int := 2
  const EINVAL: int := 22

  /** bootutil's flash error code. */
  const BOOT_EFLASH: int := 1

  /** One erase unit of a flash area: its offset and its size in bytes. */
  datatype FlashSector = FlashSector(fsOff: int, fsSize: nat)

  /** A flash area (partition): its id, the device it sits on, its offset on that device and its size. */
  datatype FlashArea = FlashArea(faId: u8, faDeviceId: u8, faOff: int, faSize: nat)

  /**
    The board's flash configuration, fixed at build time: the area ids of each
    image's slots (`FLASH_AREA_IMAGE_PRIMARY`, `FLASH_AREA_IMAGE_SECONDARY`), the
    area records the devicetree binds to them (`PRIMARY_IMAGE_FA`,
    `SECONDARY_IMAGE_FA`, `SCRATCH_FA`), the Kconfig switches that remove the
    secondary slot or add a scratch area, and the single flash device.
  */
  datatype Board = Board(
    primaryId: int -> int,
    secondaryId: int -> int,
    primaryFa: int -> FlashArea,
    secondaryFa: int -> FlashArea,
    scratchFa: FlashArea,
    singleApplicationSlot: bool,
    swapUsingScratch: bool,
    deviceId: u8,
    deviceBase: nat)

  /** Caller-owned memory that a C function writes through a pointer argument. */
  class Cell<T> {
    var value: T

    constructor (v: T)
      ensures value == v
    {
      value := v;
    }
  }
}
