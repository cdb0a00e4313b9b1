# MCP9801 temperature sensor driver, modelled in Dafny

`py-pi-mcp9801.py` is a small Python driver for the Microchip MCP9801/2/3 I2C
temperature sensor on a Raspberry Pi. Its `MCP9801` class (lines 28-77)
does four things:

- it holds an SMBus object and a device address;
- on construction and on `reset` it writes the default configuration byte
  0x60 to the configuration register;
- its `temperature` property reads the ambient temperature register,
  swaps the two bytes of the word, applies a sign step and divides by 256;
- its `resolution` property reads the configuration register, and the
  matching setter rewrites bits 5-6 of that register.

This project models that class and proves what it computes.

Files:

- `py_int.dfy` (module `PyInt`): Python's `<<`, `>>`, `&` and `|` on
  unbounded integers. The `&` mask is non-negative and `|` takes
  non-negative operands, which are the only cases the driver uses.
  Every operator is described bit by bit through `Bit`, and
  `BitsDetermine` turns bitwise agreement back into equality.
- `mcp9801_decode.dfy` (module `Mcp9801Decode`): the class constants and,
  as pure functions of the word read, the three decodings:
  - the byte swap and the sign step that give the temperature;
  - the getter's mask;
  - the byte the setter writes back.
- `smbus.dfy` (modules `Results`, `SMBus`): a stand-in for the SMBus object
  the driver is given. It is a class holding a register map per device
  address, the set of addresses that acknowledge, and a log of completed
  transfers. It offers the two operations the driver calls,
  `read_word_data` and `write_byte_data`.
- `mcp9801.dfy` (module `Mcp9801`): the driver class. It holds a bus and an
  address, and has methods for construction, reset, the temperature
  getter, and the resolution getter and setter. Each method states which
  transfers it makes, on which register, and what the register map holds
  afterwards.

The model follows the code as written, in two places where the code does
not do what its comments suggest:

- The resolution getter's `_data & 0b01100000 >> 5` parses as
  `_data & (0b01100000 >> 5)`, that is `_data & 3`. It reports the two low
  bits of the configuration word, not bits 5-6. Setting a resolution and
  reading it back is therefore not a round trip: the getter reports the
  low bits of the word as it was before the setter ran
  (`ResolutionUnchangedBySetting`, `Mcp9801.SetThenGet`).
- The sign step subtracts 0x8000 when bit 15 is set. This clears the bit
  rather than decoding two's complement, so the temperature is never
  negative (`Count`, `Celsius`, `CountVersusTwosComplement`).

Two more facts about the model:

- A raw word of 0x2C01 swaps to 0x012C = 300, which decodes to
  300/256 = 1.171875 degrees (`DecodeExample`).
- Constructing the driver without a bus raises Python's `IOError`; here
  that is the `MissingBus` error.

## Model

| member | source | states |
|---|---|---|
| Mcp9801.MCP9801.New | py-pi-mcp9801.py:41-52 | With no bus it fails with `MissingBus` and touches no bus. Otherwise it uses the given address unchecked, or 0x4F when none is given. Its only transfer is the reset write of 0x60 to register 0x01 at that address. A failed write propagates as the bus error. |
| Mcp9801.MCP9801.Reset | py-pi-mcp9801.py:54-55 | Exactly one transfer: it writes 0x60 to register 0x01 at the driver's address. The configuration register then reads back 0x60 whatever it held before, and no other register changes. A non-acknowledging address gives a bus error and no change. |
| Mcp9801.MCP9801.Temperature | py-pi-mcp9801.py:57-64 | One read of register 0x00 and no write. The result is the decoded temperature of the word read, and it lies in [0, 0x7FFF/256]. A bus failure propagates. |
| Mcp9801.MCP9801.Resolution | py-pi-mcp9801.py:66-69 | One read of register 0x01 and no write. The result is the word read modulo 4. |
| Mcp9801.MCP9801.SetResolution | py-pi-mcp9801.py:71-77 | On the same register 0x01, one read and then one write of `ConfigWithResolution(data, mode)` for the word `data` just read. The register map changes only there. A failed read writes nothing. |
| Mcp9801.SetThenGet | py-pi-mcp9801.py:66-77 | Setting a resolution and then getting it returns the configuration word from before the set, modulo 4, whatever mode was set. The device set is unchanged, the configuration register then holds `ConfigWithResolution(data, mode)`, and the log gains the read, the write and the second read. On a non-acknowledging address it fails with nothing changed. |
| Mcp9801Decode.SwapBytes | py-pi-mcp9801.py:60 | The swapped word fits in 16 bits for every raw integer. |
| Mcp9801Decode.SwapBytesBit | py-pi-mcp9801.py:60 | Bit by bit, the swap moves bits 8-15 to bits 0-7 and bits 0-7 to bits 8-15, and clears every bit from 16 up. |
| Mcp9801Decode.SwapBytesOfWord | py-pi-mcp9801.py:60 | The word with bytes (msb, lsb) swaps to the word with bytes (lsb, msb). |
| Mcp9801Decode.SwapBytesInvolutive | py-pi-mcp9801.py:60 | Swapping twice gives back every word in [0, 0xFFFF]. |
| Mcp9801Decode.SwapBytesLow16 | py-pi-mcp9801.py:60 | The swap depends only on the raw value's low 16 bits, whatever its sign or size. |
| Mcp9801Decode.SignBitTest | py-pi-mcp9801.py:61 | On a 16-bit word, `s & 0x8000` is non-zero exactly when s is at least 0x8000. |
| Mcp9801Decode.SignStep | py-pi-mcp9801.py:61-62 | A swapped word below 0x8000 is kept. One at or above 0x8000 loses 0x8000. |
| Mcp9801Decode.Count | py-pi-mcp9801.py:60-62 | The decoded count is always in [0, 0x7FFF]. |
| Mcp9801Decode.CountIsSwappedModulo | py-pi-mcp9801.py:60-62 | The count is the swapped word modulo 0x8000: the sign step only clears bit 15. |
| Mcp9801Decode.CountVersusTwosComplement | py-pi-mcp9801.py:61-62 | The count agrees with the 16-bit two's-complement value of the swapped word when that value is non-negative. When it is negative, the count is 0x8000 above it. |
| Mcp9801Decode.Celsius | py-pi-mcp9801.py:63-64 | The temperature is never negative and never above 0x7FFF/256 degrees. |
| Mcp9801Decode.DecodeExample | py-pi-mcp9801.py:59-64 | Raw 0x2C01 swaps to 0x012C, its count is 300, and its temperature is 1.171875. |
| Mcp9801Decode.ResolutionOfIsLowBits | py-pi-mcp9801.py:69 | The getter's expression `data & 0b01100000 >> 5` equals data modulo 4, and so is at most 3. |
| Mcp9801Decode.EffectiveMode | py-pi-mcp9801.py:73 | `mode & 0x03` is mode modulo 4 for every integer mode, negative ones included. |
| Mcp9801Decode.ConfigWithResolution | py-pi-mcp9801.py:75-76 | The byte the setter writes is at most 0xFF for every word read and every mode. |
| Mcp9801Decode.ConfigWithResolutionBit | py-pi-mcp9801.py:73-76 | Bits 5-6 of the written byte are bits 0-1 of the mode. Bits 0-4 and 7 are those of the word read. Every bit from 8 up is clear. |
| Mcp9801Decode.ModeStoredInBits5And6 | py-pi-mcp9801.py:73-76 | Shifting the written byte right by 5 and masking with 3 gives mode modulo 4. |
| Mcp9801Decode.ConfigWithResolutionOverwrites | py-pi-mcp9801.py:73-76 | Setting over an earlier setting gives the same byte as setting directly: the last mode wins. |
| Mcp9801Decode.ResolutionUnchangedBySetting | py-pi-mcp9801.py:69-76 | What the getter reports for the written byte equals what it reports for the word read before, for every mode. |
| Mcp9801Decode.SetThenGetReadsLowBits | py-pi-mcp9801.py:69-76 | After the setter's write, the getter's expression gives the earlier word modulo 4. |
| Mcp9801Decode.ResolutionOf | py-pi-mcp9801.py:69 | The getter's expression `data & 0b01100000 >> 5`, with `>>` binding first, is never above 3. `ResolutionOfIsLowBits` shows it is data modulo 4. |
| PyInt.And | py-pi-mcp9801.py:60-75 | Python `x & m` for a non-negative mask: the result never exceeds the mask, nor x when x is non-negative. `AndBit` gives it bit by bit. |
| PyInt.Or | py-pi-mcp9801.py:60-76 | Python's OR of x and y on non-negative operands: the result is at least each operand and at most their sum. `OrBit` gives it bit by bit. |
| PyInt.Shl | py-pi-mcp9801.py:60-76 | Python `x << n` keeps the sign of x, and gives zero only for zero. `ShlBit` gives it bit by bit. |
| PyInt.Shr | py-pi-mcp9801.py:60-69 | Python `x >> n` is floor division by 2^n: the largest r with r * 2^n at most x, never negative for non-negative x. `ShrBit` gives it bit by bit. |
| PyInt.AndLowMask | py-pi-mcp9801.py:69 | Masking with 2^n - 1 gives x modulo 2^n, for negative x as well. This is the rule behind the getter's and the setter's `& 3`. |
| PyInt.AndTopBit | py-pi-mcp9801.py:61 | Below 2^(n+1), masking with 2^n is non-zero exactly when the value is at least 2^n. This is the rule behind the sign test. |
| PyInt.ShrBit | py-pi-mcp9801.py:60 | `x >> n` moves bit i+n to bit i, Python's floor semantics included. |
| PyInt.ShlBit | py-pi-mcp9801.py:60 | `x << n` clears the n low bits and moves bit i to bit i+n. |
| PyInt.AndBit | py-pi-mcp9801.py:60 | Bit i of `x & m` is set exactly when it is set in both operands. |
| PyInt.OrBit | py-pi-mcp9801.py:60 | Bit i of the OR of x and y is set exactly when it is set in either operand. |

## Left out

- The `__main__` block (py-pi-mcp9801.py:79-112) is left out, apart from
  the call sequence `ExampleSession` mirrors: construction at the default
  address, setting resolution 2, and one temperature read. The rest is the
  polling loop, `time.sleep` and `time.time`, the wall-clock interval arithmetic,
  `strftime`, console output, `round`, and the mapping of exceptions to
  `SystemExit`. These are I/O and timing.
- The real `smbus` transport and the I2C electrical protocol are not part
  of this model. The bus here is a register map with a transfer log.
  Two choices follow from that:
  - `write_byte_data` stores the byte as the whole word a later
    `read_word_data` returns, so the high byte reads as zero;
  - a register never stored reads as 0.
- The only bus failure modelled is an address that does not acknowledge.
  Other transport errors (arbitration, timeouts) are not modelled. The set
  of acknowledging addresses never changes after the bus is built, so once
  the setter's read succeeds its write succeeds too. The Python path where
  the read at py-pi-mcp9801.py:74 succeeds and the write at line 77 raises,
  leaving the register untouched and the exception propagating, is not
  represented.
- Floating point is not modelled. `/ 256.0` is an exact real division,
  so `Celsius` has no rounding.
- Concurrency is not modelled. The setter's read-modify-write is not
  atomic in Python; here nothing else touches the bus between the read
  and the write.
- The hysteresis and limit registers (py-pi-mcp9801.py:36-37) are declared
  as constants only, because the class never reads or writes them.
