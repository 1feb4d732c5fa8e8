# Bring-up firmware for an STM32F4 board: font builder and register writes

This project models the core logic of a small Rust firmware for an STM32F4
board and proves properties of it in Dafny. The core has three parts.

- **The bitmap font** (`src/font.rs`). The `const fn char` packs a glyph drawn
  as eight rows of text into six column bytes. Bit *r* of column byte *c* is
  set exactly when byte *c* of row *r* is not an ASCII space. `FONT` is the
  table of four glyphs: blank, then A, B and C. Module `Font`, file `font.dfy`.
- **The register drivers** (`src/peripherals.rs`). `Register32` offers
  `read`, `write`, `write_or` and `write_masked` on one 32-bit register.
  `RccAhb1enr::enable_gpiog` switches on the clock of GPIO port G.
  `Gpio::set_mode` and `Gpio::set_high` configure and drive one pin.
  Module `Peripherals`, file `peripherals.dfy`.
- **The entry point** (`src/main.rs`). It has its own copies of the register
  operations, with the addresses written out. `main` runs three of them once:
  clock on for port G, pin PG13 to output, PG13 high. Then it idles. Module
  `Firmware`, file `firmware.dfy`.

Memory-mapped registers are modelled as plain storage (module `Mmio`, file
`mmio.dfy`). A `Memory` object holds a table (`imap`) from 32-bit addresses to
32-bit words. Its `Valid()` says the table covers every address. Each
read-modify-write method updates that table in place. It is proved to leave
exactly the table given by one of three pure functions of the old table:
`AfterWrite`, `AfterWriteOr` or `AfterWriteMasked`. The lemmas about those
functions carry the properties: only the addressed word changes, bits outside
the mask keep their value, and repeating a store changes nothing.

`char` is modelled as the method `Font.BuildChar`. It keeps the two nested
`while` loops and the local six-byte buffer of the source. Its result is proved
equal to the pure fold `Font.Glyph` and to the per-bit specification
`Font.Encodes`. Indexing a row shorter than six bytes panics in the source;
that case is the `None` result. Functions cannot call methods, so the constant
`FONT` is written with `Glyph`. `BuildFont` shows that calling `BuildChar` on
the four pieces of art yields the same table.

The font has four glyphs. Rows longer than six bytes are accepted and their
extra bytes are ignored; only a row shorter than six bytes fails.

## Model

| member | source | states |
|---|---|---|
| Font.BuildChar | src/font.rs:1-23 | Returns a glyph exactly when every row has at least six bytes; the glyph is `Glyph(rows)` and has bit r of column c set iff byte c of row r is not a space |
| Font.ColumnBits | src/font.rs:8-15 | After the inner loop has visited n rows, bit r of the column byte is set iff r < n and byte c of row r is not `' '` |
| Font.GlyphEncodes | src/font.rs:5-20 | A byte sequence meets the per-bit specification (six bytes, bit r of column c on iff row r byte c is marked) iff it equals `Glyph(rows)` |
| Font.ColumnGrows | src/font.rs:9-15 | Visiting more rows only adds bits to a column byte (the OR-assignment never clears one) |
| Font.ColumnSameMarks | src/font.rs:5-17 | A column byte depends only on which of that column's eight bytes are spaces, so columns are independent |
| Font.GlyphSameMarks | src/font.rs:10 | Art with the same space/non-space pattern in bytes 0..5 gives the same glyph: any non-space byte counts as on, and bytes past column 5 are never read |
| Font.BlankGlyph | src/font.rs:2-22 | Eight rows of spaces give six zero bytes |
| Font.FontBlank | src/font.rs:26-33 | `FONT[0]` is `[0,0,0,0,0,0]` |
| Font.FontLetterA | src/font.rs:34-41 | `FONT[1]` is `[0x7C,0x12,0x11,0x12,0x7C,0x00]` |
| Font.FontLetterB | src/font.rs:42-49 | `FONT[2]` is `[0x7F,0x49,0x49,0x49,0x36,0x00]` |
| Font.FontLetterC | src/font.rs:50-57 | `FONT[3]` is `[0x3E,0x41,0x41,0x41,0x22,0x00]` |
| Font.FontTable | src/font.rs:25-58 | `FONT` is the four glyphs above, byte by byte |
| Font.FontBlankEdges | src/font.rs:25-58 | `FONT` has 4 glyphs of 6 bytes; bit 7 (row 7) is clear in every byte and byte 5 (column 5) is 0 in every glyph |
| Font.BuildFont | src/font.rs:25-58 | Applying `char` to the four pieces of art yields `FONT` |
| Mmio.MaskedSelects | src/peripherals.rs:24 | The masked word has value's bits where the mask is 1 and the old word's bits where it is 0 |
| Mmio.MaskedUnique | src/peripherals.rs:24 | Any word with value's bits under the mask and the old bits elsewhere is the masked word |
| Mmio.MaskedIff | src/peripherals.rs:24 | Both directions: a word is (old AND NOT mask) OR (value AND mask) iff it agrees with value under the mask and with old outside it |
| Mmio.MaskedZero | src/peripherals.rs:24 | A zero mask keeps the old word |
| Mmio.MaskedFull | src/peripherals.rs:24 | An all-ones mask gives value |
| Mmio.MaskedIdempotent | src/peripherals.rs:24 | Masking twice with the same mask and value equals masking once |
| Mmio.OrKeepsAndSets | src/peripherals.rs:18 | old OR value keeps every bit of old and has every bit of value |
| Mmio.OrIdempotent | src/peripherals.rs:18 | OR-ing the same value twice equals OR-ing it once |
| Mmio.WriteThenRead | src/main.rs:13-21 | After a store, reading the address gives the stored value, no other address changes, and storing again changes nothing |
| Mmio.WriteOrBits | src/peripherals.rs:16-20 | `write_or` clears no bit of the word, sets value's bits and changes no other address |
| Mmio.WriteOrTwice | src/peripherals.rs:16-20 | A second identical `write_or` leaves the table unchanged |
| Mmio.WriteMaskedBits | src/peripherals.rs:22-26 | `write_masked` gives the word value's bits under the mask, keeps its other bits, and changes no other address |
| Mmio.WriteMaskedZero | src/peripherals.rs:22-26 | `write_masked` with mask 0 leaves the table unchanged |
| Mmio.WriteMaskedFull | src/peripherals.rs:22-26 | `write_masked` with an all-ones mask is a plain store |
| Mmio.WriteMaskedTwice | src/peripherals.rs:22-26 | A second identical `write_masked` leaves the table unchanged |
| Peripherals.Register32.Read | src/peripherals.rs:6-9 | Returns the word at the register's address and changes nothing |
| Peripherals.Register32.Write | src/peripherals.rs:11-14 | The new table is the old one with only the register's word replaced by value |
| Peripherals.Register32.WriteOr | src/peripherals.rs:16-20 | The new table is the old one with only the register's word ORed with value |
| Peripherals.Register32.WriteMasked | src/peripherals.rs:22-26 | The new table is the old one with only the register's word replaced by (old AND NOT mask) OR (value AND mask) |
| Peripherals.RccAhb1enr.EnableGpiog | src/peripherals.rs:32-38 | The new table is the old one with bit 6 ORed into the word at 0x40023830 |
| Peripherals.EnableGpiogBits | src/peripherals.rs:32-38 | `enable_gpiog` sets bit 6 of 0x40023830, clears no bit, changes no other address, and a second call changes nothing |
| Peripherals.Gpio.SetMode | src/peripherals.rs:48-56 | The new table is the old one after a masked write of the mode at bits 2·pin and 2·pin+1 of the word at `base + 0x00` |
| Peripherals.ModeMaskIsTwoBits | src/peripherals.rs:50 | The mask `0b11 << (2*pin)` is exactly bits 2·pin and 2·pin+1 |
| Peripherals.OutputValueIsLowBit | src/peripherals.rs:51 | For `Output` the shifted mode is bit 2·pin alone and lies within the mask, so the field becomes `01` |
| Peripherals.SetModeOutputBits | src/peripherals.rs:48-56 | `set_mode(pin, Output)` leaves bits 2·pin+1..2·pin as `01`, keeps every other bit of MODER, and changes no other address |
| Peripherals.Gpio.SetHigh | src/peripherals.rs:58-65 | The word at `base + 0x18` is overwritten with exactly `1 << pin`, whatever it held; nothing else changes |
| Firmware.ReadReg32 | src/main.rs:13-16 | Returns the word at addr and changes nothing |
| Firmware.WriteReg32 | src/main.rs:18-21 | The new table is the old one with only the word at addr replaced |
| Firmware.MaskedWriteReg32 | src/main.rs:23-27 | The new table is the old one with only the word at addr replaced by (old AND NOT mask) OR (value AND mask) |
| Firmware.ClockEnableGpiog | src/main.rs:29-37 | The new table is the old one with bit 6 ORed into the word at 0x40023830 |
| Firmware.ConfPg13Output | src/main.rs:39-46 | The new table is the old one after a masked write of `01` into bits 26-27 of the word at 0x40021800 |
| Firmware.SetPg13High | src/main.rs:48-54 | The new table is the old one with the word at 0x40021818 replaced by `1 << 13` |
| Firmware.ClockEnableGpiogIsEnableGpiog | src/main.rs:29-37 | `clock_enable_gpiog` has the same effect on memory as `RCC_AHB1ENR.enable_gpiog()` |
| Firmware.ConfPg13OutputIsSetMode | src/main.rs:39-46 | `conf_pg13_output` has the same effect on memory as `GPIOG.set_mode(13, GpioMode::Output)` |
| Firmware.SetPg13HighIsSetHigh | src/main.rs:48-54 | `set_pg13_high` has the same effect on memory as `GPIOG.set_high(13)` |
| Firmware.Startup | src/main.rs:57-60 | `main` before its idle loop runs clock enable, then mode set, then set-high, in that order |
| Firmware.StartupWords | src/main.rs:57-60 | After startup, 0x40023830 holds its old word with bit 6 ORed in, 0x40021800 its old word with `01` masked into bits 26-27, 0x40021818 exactly `1 << 13`, and every other address is unchanged |
| Firmware.StartupClockBits | src/main.rs:57-60 | After startup, bit 6 of 0x40023830 is set and its other bits are as before |
| Firmware.StartupModeBits | src/main.rs:57-60 | After startup, bits 26-27 of 0x40021800 read `01` and its other bits are as before |

## Left out

- The display's SPI command/data framing, the address window, pixel streaming, cursor drawing and the terminal's escape-sequence state machine. None of them is in the modelled files, so there is no source to model them against.
- Overlap and alignment of register words. The table gives every address its own word, independent of the words at neighbouring addresses, whereas a real 4-byte store at one address overlaps the next three. Nothing models the 4-byte alignment that volatile loads and stores require. Every address the firmware uses (0x40023830, 0x40021800, 0x40021818) is aligned, and the words it uses are at least 4 bytes apart.
- Volatile access and hardware side effects. Registers are plain words in a table. A load returns the last value stored, so nothing models BSRR being write-only, a pin actually going high, or a clock actually starting.
- The `#[entry]` and `#![no_main]` runtime, `panic_halt`, and the endless `loop {}` at src/main.rs:62. `Firmware.Startup` stops where that loop begins.
- Compile-time evaluation of the `const fn`. `char` is an ordinary method, and `FONT` is a constant built from the function it is proved to compute.
- Peripherals.Gpio.SetMode: requires pin < 16. For a larger pin, `0b11 << (2 * pin)` overflows: in a debug build the firmware panics, and in a release build Rust masks the shift amount. Neither is modelled.
- Peripherals.Gpio.SetHigh: requires pin < 32, for the same reason with `1 << pin`. It also requires `base + 0x18` to fit in 32 bits. The only port, `GPIOG`, meets that.
- Peripherals.ModeMaskIsTwoBits: stated for pins below 16 only, for the same reason as SetMode.
