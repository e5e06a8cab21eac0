/** The DS3231 time-register block as both scripts see it: seven bytes read from
    register 0 onwards (seconds, minutes, hours, weekday, date, month, year). */
module Registers {

  /** A register value as the bus returns it. */
  type byte = bv8

  /** Exactly the seven time registers, in register order. */
  type Snapshot = s: seq<byte> | |s| == 7 witness [0, 0, 0, 0, 0, 0, 0]

  // Register offsets inside a snapshot.
  const SECONDS := 0
  const MINUTES := 1
  const HOURS := 2
  const WEEKDAY := 3
  const DATE := 4
  const MONTH := 5
  const YEAR := 6

  /** A byte whose two nibbles are both decimal digits. */
  predicate IsBcdByte(b: byte)
  {
    b >> 4 <= 9 && b & 0x0F <= 9
  }
}
