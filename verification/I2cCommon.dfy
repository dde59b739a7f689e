/** What the two I2C masters share (i2c.c). */
module I2cCommon {
  type byte = x: int | 0 <= x < 0x100

  /** The drivers' results. 2 is `DRV_API_TIMEOUT` (error_handler.h). */
  const NACKED: nat := 0
  const DONE: nat := 1
  const TIMEOUT: nat := 2

  /** The values of the stop-enable flag. */
  const STOP_ON: nat := 0x20
  const STOP_OFF: nat := 0x00

  /** The address byte: bit 0 says read. */
  function WriteId(id: byte): (a: byte)
    ensures a % 2 == 0 && a / 2 == id / 2
  {
    id - id % 2
  }

  function ReadId(id: byte): (a: byte)
    ensures a % 2 == 1 && a / 2 == id / 2
  {
    id - id % 2 + 1
  }
}
