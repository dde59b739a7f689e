# TL321X driver verification

A Dafny model of the algorithms and protocols in the TL321X driver layer of the RF4CE SDK, with proofs of what they
keep, compute and promise. The drivers are modelled as written: the same branches, constants and widths, including the
places where the code does something other than its comments say. Functions that work by changing registers, buffers
and globals are classes and methods with loops; what they promise is stated about the state they leave, and proved for
every input, every run, and every way the hardware may interleave with them.

| file | models |
|---|---|
| `UartPrime.dfy`, `BaudSearch.dfy` | the primality test and the search for the UART divider and bit width |
| `PrimeCertificate.dfy` | that the one prime the test rejects is prime |
| `NorFlash.dfy` | the flash write loop on a device whose program command wraps inside a page; erases |
| `Cache.dfy` | cache invalidation by address range, and agreement of cached reads with flash written behind the cache |
| `FlashCopy.dfy` | the flash write loop with a source in flash, staged through the data cache |
| `MachineTimer.dfy` | the 64-bit timer behind two 32-bit registers, ticking between any two accesses |
| `SpiTransport.dfy` | SPI transfers through the FIFOs: word and byte loops, repetition, full duplex in chunks |
| `I2cMaster.dfy`, `I2c1Master.dfy`, `I2cCommon.dfy` | the two I2C masters: NACK, timeout and stop-flag handling |
| `I2cSlave.dfy`, `UartLanes.dfy` | software lane indices against the hardware's FIFO pointers |
| `DmaSize.dfy` | the packed size register of a DMA channel |
| `Word32.dfy`, `DivMod.dfy` | 32-bit wrap-around, and division facts |

`dafny verify dfyconfig.toml` checks everything.

## What the hardware is assumed to do

- NOR flash programs by AND, wraps inside the 256-byte page, and erases aligned blocks to ones. A flash byte is modelled
  as the set of its bits that are 1, so that AND is intersection.
- The data cache is direct-mapped, 128 lines of 32 bytes; a miss fills a whole line from flash.
- A pointer read of flash goes through the data cache; programming flash leaves the cache alone.
- The timer counts up by one at a time, any number of times between two accesses, and does not wrap at 64 bits.
- Reading the UART's data register moves the receive pointer by one lane, also when the receive FIFO is empty.
- An I2C transfer sends or receives no more bytes than its length registers hold, and a START ends the one before.
- The SPI wire moves on by any number of bytes between two accesses.
- A wait (`wait_condition_fails_or_timeout`) ends with its condition false, or reports a timeout. The cycle counter
  advances between polls.
- Clearing a FIFO's status bit (I2C bits 2 and 3, UART bit 2) or resetting the block empties the FIFO and rewinds its
  pointer. Which further UART status bits rewind the receive pointer is left open: the lemmas hold for every such set.
- A FIFO access at a lane other than the one under the hardware's pointer has an unspecified effect. The I2C model makes
  "lane equals pointer" a precondition of each access, so that every access of the drivers is proved to meet it.
- The I2C slave loops have no timeout: the bus lets only finitely many polls in a row pass in vain.

## Where code and comments differ

- `uart_is_prime` accepts 0 and 1, and the squares of primes congruent to 5 modulo 6 up to 65531 squared (25, 121, 289, ...), and
  rejects one prime, 4294967291, because `i * i` wraps; otherwise it is right on every 32-bit number (`AcceptsMeans`,
  `PrimeRejected`).
- `uart_cal_div_and_bwpc` promises baudrate*(div+1)*(bwpc+1) == pclk. The stored values keep it up to four times the baud
  rate exactly when ten times the adjusted ratio fits 32 bits and the divider its `unsigned short` (`BaudErrorExactly`).
  That is so for ratios of clock to baud rate from 3 up to 2^18, never above 2^20 + 3 (`BaudErrorBound`). The divider
  underflows exactly when ten times the adjusted ratio, in 32 bits, is below 32: for ratios below 3, and again where the
  product wraps, as at 429496730 (`UnderflowsExactly`, `LargeRatioUnderflows`).
- `spi_master_write` does not look at the status of `spi_write`, and the module counts bytes in 24 bits. Above 2^24 bytes
  it can report success, and then has sent only the counted ones (`CountExactly`, `MasterWrite`).
- The comments on spi.c lines 505, 519 and 539 give the SPI FIFOs a depth of 8 bytes; the code uses 20, and so does the model.
- `dcache_invalidate` does nothing when the index range wraps; `icache_invalidate` does not restore its start index for
  the second way (`CoversExactly`, `IcacheCoversExactly`).
- The comment on plmt.c line 95 says the second store keeps the comparand no smaller than the old value. That holds exactly
  when the high word does not get smaller (`SecondStoreKeepsOldExactly`, `SecondStoreBelowOld`); it is always no smaller
  than the new value, which is what the absence of spurious interrupts needs (`IntermediateComparands`).
- `flash_write` accepts a source in flash for any target. A copy whose later source a chunk has overwritten is right only
  within one cache line (`CopyIsSafeExactly`).
- A full-duplex SPI transfer of exactly 8 bytes leaves its last byte unread (`DuplexChunk`).
- Both I2C `write_read` functions report 1 after a timeout in either half. A timeout is the value 2
  (`tl_rf4ce_sdk/platform/tl321x/error_handler/error_handler.h`), which the code takes for success.
- `i2c_master_write` returns 1 once the FIFO is empty and the master idle; it does not look at the answer to the last
  byte again, so 1 means that no NACK was seen, not that the last byte was acknowledged.
- `i2c_master_write` with a length of 0 never issues STOP, whatever the flag (`WriteStops`).
- `uart_clr_irq_status` clears the receive index only for two exact values of its argument, while `i2c_clr_irq_status`
  tests bits (`ClearIrqExactly`).
- The half-word index of the UART is cleared by nothing (`HwordIndexSurvivesReset`).

## Model

| member | source | states |
|---|---|---|
| UartPrime.UartIsPrime | tl_rf4ce_sdk/platform/tl321x/uart.c:887-902 | the loop, with `i * i` wrapping at 32 bits, terminates and returns 1 exactly on the numbers `Accepts` describes by divisors and squares; the `Accepts...` lemmas say which numbers those are |
| UartPrime.AcceptsExactly | tl_rf4ce_sdk/platform/tl321x/uart.c:887-902 | while `i * i` cannot wrap (n up to 65531 squared): accepted exactly when n is at most 3, prime, or the square of a prime congruent to 5 modulo 6 |
| UartPrime.AcceptsExactlyWhenWrapping | tl_rf4ce_sdk/platform/tl321x/uart.c:895-900 | for every larger 32-bit n, where `i * i` wraps: accepted exactly when n is prime and not 4294967291 |
| UartPrime.AcceptsMeans | tl_rf4ce_sdk/platform/tl321x/uart.c:887-902 | for every 32-bit n: accepted exactly when n is not 4294967291 and is at most 3, prime, or the square of a prime congruent to 5 modulo 6 |
| UartPrime.AcceptedIsPrimeOrSquare | tl_rf4ce_sdk/platform/tl321x/uart.c:895-900 | whatever the wrap does, a number above 3 that is accepted is a prime or the square of the loop's last index, itself then a prime |
| UartPrime.SixCandidates | tl_rf4ce_sdk/platform/tl321x/uart.c:895-896 | one round rules out six possible divisors although it divides by two numbers |
| UartPrime.PrimeSquareHasNoSmallDivisor | tl_rf4ce_sdk/platform/tl321x/uart.c:895-896 | the square of a prime has no divisor between 2 and its root, which is why the strict loop bound lets it through |
| UartPrime.SkippedSquareAccepted | tl_rf4ce_sdk/platform/tl321x/uart.c:895 | every square of a prime congruent to 5 modulo 6 is accepted, up to 65531 squared |
| UartPrime.PrimeAccepted | tl_rf4ce_sdk/platform/tl321x/uart.c:895-900 | a prime above 3 is accepted exactly when the loop's guard can fail at an index not above it |
| UartPrime.TopOfRangeRejected | tl_rf4ce_sdk/platform/tl321x/uart.c:895 | no n above 0xFFFFFFF9 is accepted: wrapped odd squares are 1 modulo 8 and stay below it |
| PrimeCertificate.PrimeRejected | tl_rf4ce_sdk/platform/tl321x/uart.c:887-902 | 4294967291 is prime and is rejected |
| PrimeCertificate.Pocklington | tl_rf4ce_sdk/platform/tl321x/uart.c:883-885 | the criterion behind that: a number whose certificate holds has no proper divisor |
| UartPrime.SuccessorOfAcceptedRejected | tl_rf4ce_sdk/platform/tl321x/uart.c:266-267 | the comment on line 267: one more than an accepted number above 3 is never accepted |
| BaudSearch.AdjustBy | tl_rf4ce_sdk/platform/tl321x/uart.c:266-275 | the adjusted ratio is the ratio or its successor, decided by the accepted numbers and the first decimal |
| BaudSearch.AdjustRatio | tl_rf4ce_sdk/platform/tl321x/uart.c:263-275 | the same, from baud rate and clock, with the 32-bit and 8-bit truncations of the source |
| BaudSearch.FirstDecimalIsDigit | tl_rf4ce_sdk/platform/tl321x/uart.c:262-264 | while ten times the clock fits 32 bits, the first decimal is the digit after the point of clock / baud rate |
| BaudSearch.AdjustedExactly | tl_rf4ce_sdk/platform/tl321x/uart.c:262-275 | in that range the ratio goes up by one exactly when it is accepted, or when the clock is 0.6 baud or more above the ratio and the successor is not accepted |
| BaudSearch.AdjustedIsRounded | tl_rf4ce_sdk/platform/tl321x/uart.c:262-275 | when neither the ratio nor its successor is accepted, the adjusted ratio is within 0.6 baud of the clock |
| BaudSearch.FillCandidates | tl_rf4ce_sdk/platform/tl321x/uart.c:277-281 | the two arrays hold the quotient and the decimal digit for each of the thirteen bit widths |
| BaudSearch.ScanCandidates | tl_rf4ce_sdk/platform/tl321x/uart.c:283-295 | one pass finds the last smallest decimal whose quotient is not 1, and the last largest decimal |
| BaudSearch.Decide | tl_rf4ce_sdk/platform/tl321x/uart.c:297-311 | the branches choose by those two extremes; the divider is cut to 16 bits |
| BaudSearch.CalDivAndBwpc | tl_rf4ce_sdk/platform/tl321x/uart.c:231-312 | for every 32-bit clock and baud rate: what is stored is the computed pick, the divider cut to 16 bits; while ten times the clock fits 32 bits, the pick for the ratio or its successor as `AdjustedExactly` decides, and within 0.6 baud where neither is accepted; baudrate*(div+1)*(bwpc+1) == pclk, the equation of the comment, holds up to four times the baud rate exactly when the pick is storable; by the ratio of clock to baud rate, it holds from 3 up to 2^18 and fails above 2^20 + 3, and below 3 the divider reads 0xFFFF |
| BaudSearch.PicksUnique | tl_rf4ce_sdk/platform/tl321x/uart.c:283-311 | the tie rules leave one pick for any table of candidates |
| BaudSearch.PickIsNearest | tl_rf4ce_sdk/platform/tl321x/uart.c:283-311 | for any table of decimals with a quotient other than 1: no candidate is nearer a whole quotient, rounded down or up, than the pick; it rounds up on a tie, and takes the most clocks among equals |
| BaudSearch.SearchExactly | tl_rf4ce_sdk/platform/tl321x/uart.c:277-311 | that pick is a computable function of the adjusted ratio: `Search` gives it, and nothing else is picked |
| BaudSearch.Digit | tl_rf4ce_sdk/platform/tl321x/uart.c:278-280 | while ten times the ratio fits 32 bits, the quotient is exact and the decimal is the scaled remainder, for each bit width |
| BaudSearch.DigitBracket | tl_rf4ce_sdk/platform/tl321x/uart.c:278-280 | in the same range, the decimal brackets the remainder of the ratio by the bit width |
| BaudSearch.SomeDecimalIsExtreme | tl_rf4ce_sdk/platform/tl321x/uart.c:278-295 | for every ratio from 4 up whose tenfold fits 32 bits, some candidate's decimal is at most 2 or at least 7 |
| BaudSearch.NeverFourBelow | tl_rf4ce_sdk/platform/tl321x/uart.c:283-312 | a remainder of 4 is never the best to round down, because another width does better |
| BaudSearch.NeverFourAbove | tl_rf4ce_sdk/platform/tl321x/uart.c:283-312 | nor is 4 short of the next multiple the best to round up |
| BaudSearch.RoundsDown | tl_rf4ce_sdk/platform/tl321x/uart.c:297-308 | when the smallest decimal decides, rounding down loses at most 3 and at most half a bit width, and at most 1 on a decimal of 0 |
| BaudSearch.RoundsUp | tl_rf4ce_sdk/platform/tl321x/uart.c:301-311 | when the largest decimal decides, rounding up adds at most 3 and at most half a bit width |
| BaudSearch.AdjustedRatio | tl_rf4ce_sdk/platform/tl321x/uart.c:263-275 | for every clock-to-baud ratio from 3 up, to the largest: the adjusted ratio is the ratio or one more without wrapping, at least 4, never an accepted number, and within one baud of the clock |
| BaudSearch.ProductNearRatio | tl_rf4ce_sdk/platform/tl321x/uart.c:277-312 | for every N from 4 up whose tenfold fits 32 bits (`InRange`), before the cut to 16 bits: bwpc is 3 to 15, the divider does not underflow, and (div+1)*(bwpc+1) misses N by at most 3 and at most half a bit width |
| BaudSearch.NearExactly | tl_rf4ce_sdk/platform/tl321x/uart.c:277-312 | for every 32-bit N from 4 up: the product is within 3 exactly when ten times N fits 32 bits |
| BaudSearch.CutExactly | tl_rf4ce_sdk/platform/tl321x/uart.c:255-311 | for every 32-bit N: the stored product is within 3 of N exactly when ten times N fits 32 bits and the divider is from 0 to 2^16 - 1 (`Storable`), and otherwise far off |
| BaudSearch.ExactWidthLosesAtMostOne | tl_rf4ce_sdk/platform/tl321x/uart.c:277-312 | if some width divides N with a quotient of at least 2, the product is N or N - 1 exactly when ten times N fits 32 bits |
| BaudSearch.BaudErrorExactly | tl_rf4ce_sdk/platform/tl321x/uart.c:231-312 | for every 32-bit clock and baud rate: the stored values meet the bound of four times the baud rate exactly when the pick is storable |
| BaudSearch.BaudErrorBound | tl_rf4ce_sdk/platform/tl321x/uart.c:231-312 | by the ratio alone, for every 32-bit clock and baud rate: the stored values meet the bound from 3 up to 2^18, and fail it below 3 and above 2^20 + 3 |
| BaudSearch.PickUnderflowsExactly | tl_rf4ce_sdk/platform/tl321x/uart.c:277-311 | for every 32-bit N: the divider underflows exactly when ten times N, in 32 bits, is below 32 |
| BaudSearch.UnderflowsExactly | tl_rf4ce_sdk/platform/tl321x/uart.c:263-311 | the same from clock and baud rate; while the tenfold fits 32 bits, that is when their ratio is below 3 |
| BaudSearch.LargeRatioUnderflows | tl_rf4ce_sdk/platform/tl321x/uart.c:278 | instances beyond that range, at baud rate 1: every even clock above 3 whose wrapped tenfold is below 32, among them 429496730 |
| BaudSearch.DividerFits | tl_rf4ce_sdk/platform/tl321x/uart.c:255 | the divider is below 2^16 for N up to 2^18; above 2^20 + 3 no pick is storable |
| BaudSearch.BoundIsReached | tl_rf4ce_sdk/platform/tl321x/uart.c:277-312 | the bound of 3 is reached: ratio 213 gets 14 * 15 == 210 |
| NorFlash.SingleCommandIffInPage | tl_rf4ce_sdk/platform/tl321x/flash.c:259-287 | why the loop exists: one command over the range is right for every content exactly when the range stays in one page |
| NorFlash.InPageCommand | tl_rf4ce_sdk/platform/tl321x/flash.c:273-280 | a command that stays in its page has the byte-wise effect: old AND data in the range, nothing else |
| NorFlash.ChunksTile | tl_rf4ce_sdk/platform/tl321x/flash.c:259-287 | the commands are back to back, cover the range once and in order, and none crosses a page |
| NorFlash.ChunkWritesIsWritten | tl_rf4ce_sdk/platform/tl321x/flash.c:259-287 | the loop on a page-wrapping device refines the byte-wise write, from any address, length and room left in the page |
| NorFlash.WriteIsBytewise | tl_rf4ce_sdk/platform/tl321x/flash.c:259-287 | both, for the room the code computes |
| NorFlash.NorDevice.Program | tl_rf4ce_sdk/platform/tl321x/flash.c:273-280 | the device's part, assumed: AND into the page of the address, wrapping at its end |
| NorFlash.NorDevice.WriteChunk | tl_rf4ce_sdk/platform/tl321x/flash.c:266-281 | one round, staged through the stack buffer when the source is in flash; the stall above 256 bytes is never reached |
| NorFlash.NorDevice.Write | tl_rf4ce_sdk/platform/tl321x/flash.c:257-288 | the loop: memory and command log are those of the chunk-by-chunk function; old AND data in the range and nothing else changed, when no chunk changes a later one's source |
| NorFlash.FlashToFlashExactly | tl_rf4ce_sdk/platform/tl321x/flash.c:261-272 | with the data cache disabled: copying flash to flash chunk by chunk gives the bytes held before the call, for every content, exactly when no chunk overwrites a later chunk's source |
| NorFlash.OverlapCorrupts | tl_rf4ce_sdk/platform/tl321x/flash.c:261-272 | otherwise some content is copied wrongly, again without the cache |
| FlashCopy.ReadEffect | tl_rf4ce_sdk/platform/tl321x/flash.c:271 | what one pointer read of flash does to the cached view of any other address |
| FlashCopy.StageChunk | tl_rf4ce_sdk/platform/tl321x/flash.c:269-271 | the copy into the stack buffer, byte by byte through the data cache |
| FlashCopy.WriteFromFlash | tl_rf4ce_sdk/platform/tl321x/flash.c:257-288 | the loop with a source in flash: flash and cache end as the chunk-by-chunk function says, and the target holds the bytes from before the call if the copy is safe |
| FlashCopy.SafeCopy | tl_rf4ce_sdk/platform/tl321x/flash.c:261-287 | from a coherent cache a safe copy writes the bytes held before the call |
| FlashCopy.UnsafeCopy | tl_rf4ce_sdk/platform/tl321x/flash.c:261-287 | for every unsafe copy some coherent machine makes it go wrong |
| FlashCopy.CopyIsSafeExactly | tl_rf4ce_sdk/platform/tl321x/flash.c:261-287 | over all flash and cache contents: the copy is right exactly when no chunk changes a later source, or what the first chunk changes of it lies on the cache line of that chunk's last source byte |
| FlashCopy.CacheHidesOverlap | tl_rf4ce_sdk/platform/tl321x/flash.c:261-272 | such a copy that only the cache makes right: 256 bytes moved up by one |
| NorFlash.ZeroStays | tl_rf4ce_sdk/platform/tl321x/flash.c:263-287 | a cleared byte stays cleared through any write |
| NorFlash.ErasedThenWritten | tl_rf4ce_sdk/platform/tl321x/flash.c:85-143 | into an erased block the data itself is written, and all outside the block is unchanged |
| NorFlash.NorDevice.EraseSector | tl_rf4ce_sdk/platform/tl321x/flash.c:91-96 | the aligned 4 KB sector is all ones, the rest unchanged |
| NorFlash.NorDevice.EraseBlock32k | tl_rf4ce_sdk/platform/tl321x/flash.c:114-119 | the same for 32 KB |
| NorFlash.NorDevice.EraseBlock64k | tl_rf4ce_sdk/platform/tl321x/flash.c:138-143 | the same for 64 KB |
| Cache.LineAddressIsLine | tl_rf4ce_sdk/platform/tl321x/cache.c:30-39 | the extracted index is the line number modulo 128, and the address bits above it are the line's tag |
| Cache.CoversExactly | tl_rf4ce_sdk/platform/tl321x/cache.c:49-58 | `dcache_invalidate` goes through every index the range touches exactly when the range is in one 4 KB window or runs from index 0 to index 127 |
| Cache.ReadIsFlash | tl_rf4ce_sdk/platform/tl321x/cache.h:27-31 | while cached lines agree with flash, a pointer read returns the flash byte and lines still agree |
| Cache.CoveredSweepKeepsCoherence | tl_rf4ce_sdk/platform/tl321x/cache.c:41-58 | a change inside a range whose indices are all invalidated leaves every remaining line in agreement |
| Cache.StaleRead | tl_rf4ce_sdk/platform/tl321x/cache.c:49-58 | an index touched but not invalidated lets some later read return what flash no longer holds |
| Cache.SweepIsSafeExactly | tl_rf4ce_sdk/platform/tl321x/cache.c:46-58 | over all flash and cache contents and all writes in the range: invalidating the range keeps agreement exactly when the range fits as above; note 1 of the comment says only `generally within 4k` |
| Cache.ReadsAreNeverStale | tl_rf4ce_sdk/platform/tl321x/cache.c:41-58 | over any run of cached reads and fitting write-and-invalidate updates, every read returns what flash holds at that moment |
| Cache.DataCache.ReadByte | tl_rf4ce_sdk/platform/tl321x/cache.h:27-31 | a pointer read returns the cached byte and fills a missing line from flash |
| Cache.DataCache.DcacheInvalidate | tl_rf4ce_sdk/platform/tl321x/cache.c:49-58 | from the addresses alone: line i becomes invalid exactly for start/32 % 128 <= i <= end/32 % 128 and every other line stays, so a range that wraps invalidates nothing |
| Cache.SweptIsTouched | tl_rf4ce_sdk/platform/tl321x/cache.c:49-58 | no index that the range does not touch is invalidated |
| Cache.DataCache.WriteAndInvalidate | tl_rf4ce_sdk/platform/tl321x/cache.c:41-58 | a flash write followed by invalidation: bytes as written, and agreement again if the range fits |
| Cache.InstructionCache.IcacheInvalidate | tl_rf4ce_sdk/platform/tl321x/cache.c:68-79 | from the addresses alone: way 0 loses the indices from start/32 % 128 to end/32 % 128, way 1 the last of them alone, nothing else is lost |
| Cache.IcacheCoversExactly | tl_rf4ce_sdk/platform/tl321x/cache.c:68-79 | both ways of every touched index are invalidated exactly when the range stays in one line |
| Cache.WayZeroCoversExactly | tl_rf4ce_sdk/platform/tl321x/cache.c:68-79 | every touched index of way 0 is invalidated exactly when the range fits |
| Cache.WayOneHitsTheLast | tl_rf4ce_sdk/platform/tl321x/cache.c:68-79 | in way 1 a touched index of a range that fits is invalidated exactly when it is the index of the end |
| Cache.IcacheHitsAreTouched | tl_rf4ce_sdk/platform/tl321x/cache.c:68-79 | no untouched index is invalidated in either way |
| MachineTimer.MiddleReadIsExact | tl_rf4ce_sdk/platform/tl321x/plmt.c:58-64 | a low word read between equal high words forms, with them, the count at that moment |
| MachineTimer.SingleReadTears | tl_rf4ce_sdk/platform/tl321x/plmt.c:58-62 | without the second high read the result can be below every count of the call |
| MachineTimer.Plmt.GetValue | tl_rf4ce_sdk/platform/tl321x/plmt.c:55-66 | linearizable: the value is the count at an instant inside the call, under any ticking; each retry costs a carry into the high word, so it ends |
| MachineTimer.IntermediateComparands | tl_rf4ce_sdk/platform/tl321x/plmt.c:94-96 | the comparand after the first store is not below the old one, after the second not below the new one |
| MachineTimer.SecondStoreKeepsOldExactly | tl_rf4ce_sdk/platform/tl321x/plmt.c:95 | the comment on line 95, that the second store is no smaller than the old value, holds exactly when the high word does not get smaller |
| MachineTimer.SecondStoreBelowOld | tl_rf4ce_sdk/platform/tl321x/plmt.c:95 | an instance where it is smaller: from 2^32 to 0 |
| MachineTimer.LowFirstIsSpurious | tl_rf4ce_sdk/platform/tl321x/plmt.c:93-96 | storing the low half first can pass through a comparand below both |
| MachineTimer.Plmt.SetCmpValue | tl_rf4ce_sdk/platform/tl321x/plmt.c:88-97 | ends at the value; at every instant the interrupt is raised only where the old or the new comparand raises it |
| MachineTimer.SetValueEndsAt | tl_rf4ce_sdk/platform/tl321x/plmt.c:78-80 | where the count ends when ticks fall between the three stores |
| MachineTimer.Carries | tl_rf4ce_sdk/platform/tl321x/plmt.c:78-80 | exactly when those ticks spoil the result; never while fewer than 2^32 pass |
| MachineTimer.Plmt.SetValue | tl_rf4ce_sdk/platform/tl321x/plmt.c:73-81 | ends at the value plus such carries, and at every instant the count is at most the larger of old and new plus the ticks passed |
| MachineTimer.Plmt.SetIntervalMs | tl_rf4ce_sdk/platform/tl321x/plmt.c:104-107 | the comparand is a count from inside the call plus the interval, in 64-bit arithmetic, and no interrupt is raised that neither the old nor the new comparand raises |
| MachineTimer.IntervalIsKept | tl_rf4ce_sdk/platform/tl321x/plmt.c:106 | short of overflow the interval is never shortened, and stretched by the call's own time at most |
| MachineTimer.IntervalExactly | tl_rf4ce_sdk/platform/tl321x/plmt.c:106 | the comparand is the count plus the interval exactly when neither the 64-bit product nor the sum overflows |
| SpiTransport.DuplexChunk | tl_rf4ce_sdk/platform/tl321x/spi.c:1018-1032 | the reads of a full-duplex transfer follow each other without gap or overlap, never overtake the writes, lag by one byte until the end, and miss a byte exactly for a length of 8 |
| SpiTransport.Gspi.ShiftByte | tl_rf4ce_sdk/platform/tl321x/spi.c:577-588 | the wire, assumed: one byte time conserves both streams and each one's count: bytes out plus bytes counted, bytes on offer minus bytes counted |
| SpiTransport.Gspi.Elapse | tl_rf4ce_sdk/platform/tl321x/spi.c:514-567 | any number of byte times between two accesses conserves both streams and counts |
| SpiTransport.Gspi.WaitWhile | tl_rf4ce_sdk/platform/tl321x/spi.c:125-165 | after any time, a wait ends with its condition false or reports a timeout; no byte is lost or reordered under any schedule of the wire |
| SpiTransport.Gspi.WriteUnit | tl_rf4ce_sdk/platform/tl321x/spi.c:521-524 | one wait and one store: the unit is appended, or nothing on a timeout, and the FIFO never holds more than 20 bytes |
| SpiTransport.Gspi.WriteWords | tl_rf4ce_sdk/platform/tl321x/spi.c:516-525 | the word loop appends the words' bytes in order and never overfills the 20-byte FIFO |
| SpiTransport.Gspi.WriteBytes | tl_rf4ce_sdk/platform/tl321x/spi.c:526-532 | the tail loop likewise |
| SpiTransport.Gspi.Write | tl_rf4ce_sdk/platform/tl321x/spi.c:514-534 | sent ++ FIFO grows by all of the data on success, by a prefix on timeout; occupancy stays within 20; timeout is reported exactly when a wait timed out |
| SpiTransport.Gspi.ReadWords | tl_rf4ce_sdk/platform/tl321x/spi.c:550-558 | the word loop moves the next bytes of the stream to the buffer, in order |
| SpiTransport.Gspi.ReadBytes | tl_rf4ce_sdk/platform/tl321x/spi.c:559-565 | the tail loop likewise |
| SpiTransport.Gspi.Read | tl_rf4ce_sdk/platform/tl321x/spi.c:548-567 | on success the buffer holds the next len bytes of the stream, on timeout a prefix; the rest of the buffer and the counts are unchanged; timeout is reported exactly when a wait timed out |
| SpiTransport.CountExactly | tl_rf4ce_sdk/platform/tl321x/spi.h:538-552 | the 24-bit counter holds the requested count exactly from 1 to 2^24 |
| SpiTransport.HoldsExactly | tl_rf4ce_sdk/platform/tl321x/spi.c:130-165 | a write waits exactly while its 4 bytes or 1 byte do not fit 20, a read exactly while they are not there, the busy wait exactly while bytes remain |
| SpiTransport.Gspi.MasterWrite | tl_rf4ce_sdk/platform/tl321x/spi.c:577-589 | only a prefix of the data is ever sent, and what the counter still holds is the count less what was sent; success means that the counted bytes were sent: all of the data from 1 to 2^24 bytes, never all of it above; timeout is reported exactly when the last wait timed out |
| SpiTransport.Gspi.MasterWriteRepeat | tl_rf4ce_sdk/platform/tl321x/spi.c:663-683 | on success the data went out the given number of times in a row; a total of 0 or above 2^24 bytes never succeeds; the counter holds the count less what was sent; timeout is reported exactly when a wait timed out |
| SpiTransport.Gspi.DuplexLoop | tl_rf4ce_sdk/platform/tl321x/spi.c:1018-1032 | if no wait times out: everything is written, at most 9 bytes are in the FIFOs, and reads cover the buffer from 0 on |
| SpiTransport.Gspi.MasterWriteReadFullDuplex | tl_rf4ce_sdk/platform/tl321x/spi.c:1004-1033 | the same for the call: every byte of the answer arrives, except the last one of exactly 8; the counter holds the count of len less what was sent |
| SpiTransport.Gspi.MasterRead | tl_rf4ce_sdk/platform/tl321x/spi.c:1042-1050 | the buffer holds the next bytes of the stream, all of them on success; the counter holds the count of len less the bytes fetched, so no more than 2^24 bytes ever succeed; timeout is reported exactly when a wait timed out |
| SpiTransport.Loopback | tl_rf4ce_sdk/platform/tl321x/spi.c:514-567 | round trip: what one side writes the other reads, for every length; it succeeds when no wait times out, and never outside 1 to 2^24 bytes |
| I2cCommon.WriteId | tl_rf4ce_sdk/platform/tl321x/i2c.c:271 | bit 0 cleared, the slave's address kept |
| I2cCommon.ReadId | tl_rf4ce_sdk/platform/tl321x/i2c.c:331 | bit 0 set, the slave's address kept |
| I2cMaster.I2c.SendStop | tl_rf4ce_sdk/platform/tl321x/i2c.c:111-120 | the flag becomes the request; `Valid`, kept by every operation, says it equals the last request |
| I2cMaster.I2c.IdNackDetect | tl_rf4ce_sdk/platform/tl321x/i2c.c:205-250 | a NACK is answered with STOP, and only a NACK; 2 exactly when the wait for the STOP timed out |
| I2cMaster.I2c.DataNackDetect | tl_rf4ce_sdk/platform/tl321x/i2c.c:226-250 | likewise, and the bytes still in the FIFO are dropped unless the STOP times out |
| I2cMaster.I2c.Feed | tl_rf4ce_sdk/platform/tl321x/i2c.c:283-293 | a byte enters only if there is room among eight and no NACK is pending, at the lane under the hardware's pointer; the first one launches the data phase |
| I2cMaster.I2c.FillFifo | tl_rf4ce_sdk/platform/tl321x/i2c.c:279-298 | the loop ends, by bytes left and time to the deadline; what entered is a prefix in order |
| I2cMaster.I2c.Drain | tl_rf4ce_sdk/platform/tl321x/i2c.c:299-305 | the loop ends by the deadline set with the last byte; success means an empty FIFO |
| I2cMaster.I2c.MasterWrite | tl_rf4ce_sdk/platform/tl321x/i2c.c:268-311 | 1 only if all bytes entered in order and left with no NACK seen, and never for more than the documented 0xFFFFFF bytes; 0 exactly when a NACK was found and no wait timed out, and then exactly the first `kept` bytes were sent; 2 exactly when a wait or a deadline passed; the command log in every case |
| I2cMaster.I2c.EmptyFifo | tl_rf4ce_sdk/platform/tl321x/i2c.c:342-354 | the loop ends; bytes are taken in order at the lane under the pointer, the rest of the buffer is unchanged |
| I2cMaster.I2c.MasterRead | tl_rf4ce_sdk/platform/tl321x/i2c.c:328-359 | the buffer holds the bytes that arrived after the FIFO was cleared; all of them when the result is 1, which never happens for more than 0xFFFFFF bytes; 0 and 2 as for the write |
| I2cMaster.Loaded | tl_rf4ce_sdk/platform/tl321x/i2c.c:560-565 | the three length registers hold the length exactly up to 0xFFFFFF |
| I2cMaster.I2c.MasterWriteRead | tl_rf4ce_sdk/platform/tl321x/i2c.c:379-404 | the stop flag is as found on every path; the result is 0 exactly when one half found a NACK and had no timeout, and otherwise 1, even after a timeout, against the comment on line 377 |
| I2cMaster.WriteStops | tl_rf4ce_sdk/platform/tl321x/i2c.c:287-292 | a successful write stops the bus exactly when the flag is on and there is a byte to send |
| I2cMaster.RefusedWriteStops | tl_rf4ce_sdk/platform/tl321x/i2c.c:287-304 | a refused write asks for STOP last, and a second time if its data phase was launched with one, as the comment on lines 288-289 fears |
| I2cMaster.WriteReadEndsInStop | tl_rf4ce_sdk/platform/tl321x/i2c.c:361-404 | without timeouts a combined transfer ends by stopping the bus whatever the flag, and with the flag off only there |
| I2c1Master.ReadCount | tl_rf4ce_sdk/platform/tl321x/i2c.c:808-821 | the loop `while (--data_len)` and the byte after it take len bytes, or 2^32 for a length of 0 |
| I2c1Master.WriteStopsAtNack | tl_rf4ce_sdk/platform/tl321x/i2c.c:723-744 | section 3.1.6 of UM10204: a refused byte is followed by one STOP and nothing else; the result says whether a byte was refused |
| I2c1Master.WriteStops | tl_rf4ce_sdk/platform/tl321x/i2c.c:758-783 | exactly one STOP after a refusal, after success exactly when the flag is on |
| I2c1Master.ReadStops | tl_rf4ce_sdk/platform/tl321x/i2c.c:797-828 | the same for reads |
| I2c1Master.ReadMarksTheLastByte | tl_rf4ce_sdk/platform/tl321x/i2c.c:806-821 | exactly the last byte of the requested length carries the master's mark, and the buffer holds the bytes in order |
| I2c1Master.WriteReadEndsInStop | tl_rf4ce_sdk/platform/tl321x/i2c.c:834-871 | without timeouts a combined transfer ends in STOP whatever the flag, and with the flag off that is its only one |
| I2c1Master.I2c1.SendStop | tl_rf4ce_sdk/platform/tl321x/i2c.c:644-653 | as for the first master |
| I2c1Master.I2c1.NackDetect | tl_rf4ce_sdk/platform/tl321x/i2c.c:723-744 | a NACK is answered with STOP, and only a NACK; 2 exactly when the wait for the STOP timed out, else 0 |
| I2c1Master.I2c1.MasterWrite | tl_rf4ce_sdk/platform/tl321x/i2c.c:758-783 | for every pattern of answers and timeouts: START, identifier, a prefix of the data, all acknowledged but the last, then the STOP that the result calls for; 2 exactly when a wait timed out, 0 exactly when a byte was refused and none did |
| I2c1Master.I2c1.ReceiveMost | tl_rf4ce_sdk/platform/tl321x/i2c.c:807-815 | all bytes but the last, unmarked and in order, for every 32-bit length |
| I2c1Master.I2c1.MasterRead | tl_rf4ce_sdk/platform/tl321x/i2c.c:797-828 | the trace of a read for every pattern, with the bytes of the buffer on it; results as for the write |
| I2c1Master.I2c1.MasterWriteRead | tl_rf4ce_sdk/platform/tl321x/i2c.c:846-871 | flag as found on every path; 0 exactly when one half had a byte refused and no timeout, and otherwise 1, even after a timeout, against the comment on line 844 |
| I2cSlave.Slave.SlaveRead | tl_rf4ce_sdk/platform/tl321x/i2c.c:502-513 | over any calls, resets and clears between them: the next bytes received, in order, each read at the lane under the hardware's pointer |
| I2cSlave.Slave.SlaveWrite | tl_rf4ce_sdk/platform/tl321x/i2c.c:521-531 | all bytes enter in order, each at the lane under the pointer, never more than eight waiting |
| I2cSlave.Slave.ClrIrqStatus | tl_rf4ce_sdk/platform/tl321x/i2c.h:411-427 | any combination of bits keeps the index equal to the pointer, because the code tests bits |
| I2cSlave.Slave.HwFsmReset | tl_rf4ce_sdk/platform/tl321x/i2c.h:389-404 | index and pointer restart together |
| UartLanes.LanesAgree | tl_rf4ce_sdk/platform/tl321x/uart.c:400-509 | over every run of sends, time-outs, reads, clears, resets and wake-ups: where byte index, half-word index and pointer stand, by counting; never more than eight bytes in the FIFO |
| UartLanes.ByteLaneExactly | tl_rf4ce_sdk/platform/tl321x/uart.c:437-446 | the next byte goes to the lane under the pointer exactly when the half-words sent since the reset are even in number |
| UartLanes.HwordLaneExactly | tl_rf4ce_sdk/platform/tl321x/uart.c:482-493 | the next half-word goes to its lanes exactly when the counted bytes and half-words add up, its own index counting from power-up |
| UartLanes.HwordIndexSurvivesReset | tl_rf4ce_sdk/platform/tl321x/uart.c:484 | one half-word and a reset leave the half-word index off, because nothing clears it |
| UartLanes.ClearIrqExactly | tl_rf4ce_sdk/platform/tl321x/uart.h:502-520 | clearing status bits keeps the receive index in step exactly if the set is RxBuf alone, RxDone alone, rewinds nothing, or the index is 0 anyway: the code compares for equality |
| UartLanes.CombinedClearFails | tl_rf4ce_sdk/platform/tl321x/uart.h:502-520 | an instance where it fails: two bits cleared at once after one byte was read |
| UartLanes.RxStaysInStep | tl_rf4ce_sdk/platform/tl321x/uart.c:455-461 | over every run whose clears meet that condition, the receive index is the hardware's pointer |
| UartLanes.Resynchronised | tl_rf4ce_sdk/platform/tl321x/uart.h:424-481 | a reset, either lone clear, or a wake-up followed by both index clears mends any state |
| UartLanes.FullExactly | tl_rf4ce_sdk/platform/tl321x/uart.c:400-428 | each of the three FIFO predicates holds exactly when its bytes do not fit eight |
| UartLanes.Uart.SendByte | tl_rf4ce_sdk/platform/tl321x/uart.c:437-446 | on success, in step, the byte is appended; on timeout, which is reported exactly when the wait timed out, nothing is stored and no index moves |
| UartLanes.Uart.SendHword | tl_rf4ce_sdk/platform/tl321x/uart.c:482-493 | likewise for two bytes and the half-word index |
| UartLanes.Uart.SendWord | tl_rf4ce_sdk/platform/tl321x/uart.c:502-509 | likewise for four bytes when the pointer is at lane 0 |
| UartLanes.Uart.ReadByte | tl_rf4ce_sdk/platform/tl321x/uart.c:455-461 | in step, the oldest byte is returned and removed |
| UartLanes.Uart.ClrIrqStatus | tl_rf4ce_sdk/platform/tl321x/uart.h:502-520 | the effect on index, pointer and receive FIFO for every set of bits |
| UartLanes.Uart.HwFsmReset | tl_rf4ce_sdk/platform/tl321x/uart.h:460-481 | all of the hardware and both byte indices restart; the half-word index does not |
| DmaSize.RoundTripExactly | tl_rf4ce_sdk/platform/tl321x/dma.h:418-443 | for every 32-bit size and each width: get after set returns the size exactly up to 22 bits of units, or where rounding up wraps |
| DmaSize.Injective | tl_rf4ce_sdk/platform/tl321x/dma.h:440-443 | within the limit no two sizes share an encoding |
| DmaSize.LimitIsTight | tl_rf4ce_sdk/platform/tl321x/dma.h:411 | the documented maximum (0xFFFFFC for words) is tight: one byte more is already lost |
| DmaSize.FieldsMean | tl_rf4ce_sdk/platform/tl321x/dma.h:440-443 | within the limit the unit field covers the size with no unit to spare, and the two bits above hold the bytes used of a last partial unit |
| DmaSize.TopByteIsClear | tl_rf4ce_sdk/platform/tl321x/dma.h:440-443 | within the limit nothing reaches the byte above the two fields |
| DmaSize.Channel.SetSize | tl_rf4ce_sdk/platform/tl321x/dma.h:418-421 | the register reads back as the size in exactly those cases, and is what `dma_cal_size` predicts |

## Left out

- UartLanes.Uart.ReadByte: says nothing about a read from an empty FIFO or out of step, where the device's answer is not known.
- NorFlash.NorDevice.Write: takes ranges inside the device only; the source has no check for its end.
- MachineTimer.Plmt.GetValue: excludes a wrap of the 64-bit count.
- SpiTransport.Gspi.ReadBytes: keeps the order of the bytes but not the data-register lane, like `WriteBytes`.
- SpiTransport.Gspi.WriteBytes: keeps the order of the bytes but not the data-register lane `i % 4`, which a chunked full-duplex transfer does not keep in step with the FIFO.
- BaudSearch.BaudErrorBound: for ratios between 2^18 and 2^20 + 3 the ratio alone does not decide; there `BaudErrorExactly` does, by the width the search picks.
- BaudSearch.ProductNearRatio: speaks of the divider before it is cut to 16 bits, and of ratios whose tenfold fits 32 bits; `NearExactly` and `CutExactly` are for every ratio.
- NorFlash.FlashToFlashExactly: is the case with the data cache disabled; `FlashCopy.CopyIsSafeExactly` is the statement with it.
- NorFlash.OverlapCorrupts: likewise.
- I2cMaster.I2c.MasterWrite: assumes that the clock moves between polls, and treats the length register and the bus timing as opaque.
- `flash_write_encrypt` and `flash_write_otp`: their loops are that of `flash_write` without the staging branch and, for the first, with a cipher that is not part of this model.
- Flash reads, XIP configuration, decrypt checks, status and vendor queries: opaque commands of the flash controller.
- Instruction-cache contents: only which tags are invalidated is modelled.
- `dcache_clean` and `dcache_flush`: not compiled in.
- SPI command and address phases, half-duplex `spi_master_write_read`, DMA variants: the same FIFO loops behind register set-up.
- I2C and UART DMA modes, stretching, and the automatic clearing of the UART receive pointer by hardware.
- UART RTS/CTS, receive timeouts, and the choice of clocks: single register writes.
- DMA chains and channel registers other than the size.
- Error-code globals and user-replaceable timeout handlers: they record a code and change nothing modelled.
- Register addresses, bit names, reset and clock gating, BTB toggling, CSR encodings: opaque effects.
- ADC, audio, PWM, timers, GPIO, USB, QDEC and the other finite tables of the driver layer: easy members only.
- The RF4CE network, MAC and profile stack: its sources are not part of this model.
