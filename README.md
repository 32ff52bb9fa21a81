# Sideband channel, value assembly and ring addressing of test_dma.c

`test_dma.c` is a loop-back test for the Wiredancer ED25519 verify path on an
FPGA card. Besides driving the card through foreign libraries, it contains a
small amount of self-contained, bit-precise logic, which this project models
and proves properties of:

- **The vDIP/vLED sideband byte channel** (`get_vled_byte`). A 16-bit command
  `(sel << 4) | func` is written once to the vDIP register. The vLED status
  register is then read up to 200 times. The first status word whose low
  nibble echoes `func` and whose second nibble echoes `sel` yields its high
  byte. A failed read, or 200 reads without an echo, yields the sentinel 0.
  The status register is an injected, finite script of read results. A read
  past the end of the script counts as a failed read.
- **Multi-byte values read through that channel.** `read_vled_counter`
  assembles a 32-bit counter little-endian from selectors
  `(ctr_sel << 2) | byte`. The AW-address loop in `main` assembles a 64-bit
  address from selectors 0..7 of function 0xE. `dump_vled` fills a 16-byte
  buffer from selectors 0..15 of function 0.
- **Result-ring addressing.** The 32-byte result line of request `m_seq` lies
  at `(m_seq & (DEPTH - 1)) << 5` bytes into the 2 MiB hugepage.
- **The raw status decode** that `main` prints: function, selector and byte
  fields of a status word.

Modules:

- `Bits` (`bits.dfy`) states C's unsigned operators on natural numbers.
  - `Shl`, `Shr`, the conversion `Trunc` to a `w`-bit type, and bitwise
    `BitAnd` and `BitOr`.
  - Lemmas connect these operators to ordinary arithmetic.
- `Sideband` (`sideband.dfy`) holds the channel.
  - Command packing and status decoding.
  - The specification function `Poll` for one exchange.
  - The port class `SidebandPort`, whose methods stand for `fpga_mgmt_set_vDIP`
    and `fpga_mgmt_get_vLED_status`.
  - The method `GetVledByte`, proved against `Poll`.
- `Assembler` (`assembler.dfy`) holds the byte-series specification
  `ReadSeries`, the little-endian value `LittleEndian` and the three loops
  that read multi-byte values.
- `Ring` (`ring.dfy`) holds the slot-offset arithmetic.

Choices where the code and the stated intent differ:

- The comment at `test_dma.c:67` puts the counter number in selector bits
  3:2. That is only true for counter numbers 0 to 3.
  - The selector is computed in a `uint8_t`, so `ctr_sel` keeps only its value
    modulo 64.
  - `Assembler.CounterSelector` therefore states that the selector fits in four
    bits exactly when `ctr_sel % 64 <= 3`. The weaker-sounding `ctr_sel <= 3`
    would be false for 64..67.
  - Every call site uses 0 to 3.
- The echo check compares a 4-bit field with the 8-bit `sel` and `func`.
  Function codes or selectors of 16 and above are therefore never echoed, and
  such an exchange always ends in the sentinel. `Sideband.PollIgnoresWideFields`
  states this.

## Model

| member | source | states |
|---|---|---|
| Sideband.Command | test_dma.c:42 | the command word never exceeds 12 bits (the `uint16_t` store loses nothing), and when the function code fits in four bits it is `sel * 16 + func` |
| Sideband.CommandBits | test_dma.c:42 | the OR of `sel << 4` and `func` stays below 2^12, and is the sum of the two when `func < 16` (the fields do not overlap) |
| Sideband.CommandFields | test_dma.c:42 | for a 4-bit function code and selector, the command's high byte is 0, bits 3:0 decode to `func` and bits 7:4 to `sel` |
| Sideband.DecodeStatus | test_dma.c:176-177 | repacking the decoded fields as `byte * 256 + sel * 16 + func` gives back the status word |
| Sideband.DecodeStatusMasks | test_dma.c:47-48 | the C expressions `v & 0xF`, `(v >> 4) & 0xF` and `(v >> 8) & 0xFF` are exactly the function, selector and byte fields of the word |
| Sideband.DecodeResponse | test_dma.c:176-177 | decoding a word packed from fields gives back those fields (decode is the inverse of the response packing) |
| Sideband.ResponseByte | test_dma.c:48 | `(uint8_t)(v >> 8)` is the decoded data byte of the word |
| Sideband.ResponseByteShift | test_dma.c:48 | the shifted and truncated word is `v / 256`, the high byte |
| Sideband.EchoIsCommand | test_dma.c:42-47 | a status word passes the echo check exactly when both fields of the command fit in four bits and the word's low byte equals the command word |
| Sideband.Poll | test_dma.c:44-51 | an exchange makes at most `budget` status reads, and at least one when the budget is not zero |
| Sideband.PollReturnsFirstEcho | test_dma.c:44-48 | when reads 0..j-1 are stale and read j (within the budget) echoes the command, the result is the data byte of read j after exactly j + 1 reads |
| Sideband.PollStopsOnReadFailure | test_dma.c:46-51 | when reads 0..j-1 are stale and read j fails, polling stops after j + 1 reads with the sentinel 0 |
| Sideband.PollTimesOut | test_dma.c:44-51 | when every read in the budget is stale, the result is 0 after exactly `budget` reads |
| Sideband.PollNeverReturnsStale | test_dma.c:46-48 | every read before the last one of an exchange was stale, and a non-zero result is the data byte of the last read, which echoes the command |
| Sideband.PollIgnoresWideFields | test_dma.c:47-51 | a function code or selector of 16 or more is never echoed, so the result is always 0 |
| Sideband.SidebandPort.SetVdip | test_dma.c:43 | writing the command register appends the command to the log and consumes no status read |
| Sideband.SidebandPort.GetVledStatus | test_dma.c:46 | a status read returns the next scripted result (a failure past the end), consumes it and counts one read |
| Sideband.GetVledByte | test_dma.c:41-52 | writes exactly one command, `Command(func, sel)`, makes at most 200 status reads, and returns and consumes exactly what `Poll` with the 200-read budget prescribes |
| Assembler.ReadSeries | test_dma.c:66-68 | a series of exchanges yields one byte and one command per selector and at most 200 reads per selector |
| Assembler.ReadSeriesAppend | test_dma.c:66-68 | one more exchange appends its byte, its command and its reads to the series and leaves the rest of the script |
| Assembler.ReadSeriesByte | test_dma.c:66-68 | byte k of a series is the result of polling for selector k on what the earlier exchanges left of the script |
| Assembler.ReadSeriesCommand | test_dma.c:66-68 | command k written by a series is the command for selector k, in order |
| Assembler.ReadSeriesWideSelectors | test_dma.c:67-68 | when every selector is 16 or more, every byte of the series is 0 |
| Assembler.LittleEndian | test_dma.c:65-70 | the little-endian value of n bytes is below 2^(8n) |
| Assembler.LittleEndianAppend | test_dma.c:68 | appending a byte adds it times 2^(8n) above the n bytes already there |
| Assembler.LittleEndianByte | test_dma.c:68 | byte i of the sequence is `(value >> 8i) & 0xFF`: it occupies bits 8i..8i+7 |
| Assembler.LittleEndianDigit | test_dma.c:68 | byte i is the value divided by 256^i, modulo 256 |
| Assembler.LittleEndianZero | test_dma.c:65-70 | all-zero bytes give the value 0 |
| Assembler.AccumulateByte | test_dma.c:68 | the step `v \|= ((uintW_t)b) << 8k` on the value of k bytes is the value of those bytes followed by b, without overflow in W bits |
| Assembler.CounterSelector | test_dma.c:67 | the `uint8_t` selector `(ctr_sel << 2) \| byte` is `(4 * ctr_sel + byte) mod 256`, and it fits in four bits exactly when `ctr_sel mod 64 <= 3` |
| Assembler.CounterSelectorBits | test_dma.c:67 | the shifted counter number and the byte index do not overlap, and the 8-bit store keeps `4 * (ctr_sel mod 64) + byte` |
| Assembler.CounterSelectors | test_dma.c:66-67 | the selector list of a counter holds `CounterSelector(ctr_sel, i)` at position i |
| Assembler.FlatSelectors | test_dma.c:125 | the selector list 0, 1, ..., n - 1 holds i at position i |
| Assembler.ReadVledCounter | test_dma.c:64-71 | the counter is the little-endian value of the four bytes read with the counter's selectors, and the port ends in the state the series prescribes |
| Assembler.ReadAwAddress | test_dma.c:124-125 | the AW-address is the little-endian value of the bytes of selectors 0..7 of function 0xE, and the port ends in the state the series prescribes |
| Assembler.DumpVled | test_dma.c:54-56 | a new 16-byte buffer holds the bytes of selectors 0..15 of function 0, and the port ends in the state the series prescribes |
| Assembler.CounterByte | test_dma.c:66-69 | bits 8i..8i+7 of the counter are the channel's answer for selector `(ctr_sel << 2) \| i` |
| Assembler.CounterOutOfRangeIsZero | test_dma.c:64-71 | a counter number whose selectors leave four bits (4 to 63 modulo 64) always reads as 0 |
| Assembler.AwAddressByte | test_dma.c:125 | bits 8s..8s+7 of the AW-address are the channel's answer for selector s of function 0xE |
| Ring.HugePageSize | test_dma.c:16 | `2UL << 20` is 2 MiB |
| Ring.SlotOffset | test_dma.c:167 | the offset is `(m_seq mod 1024) * 32`, a multiple of 32, and the 32-byte line at it lies inside the hugepage |
| Ring.SlotOffsetBits | test_dma.c:167 | `(m_seq & 1023) << 5` is `(m_seq mod 1024) * 32` |
| Ring.SlotOffsetPeriodic | test_dma.c:167 | advancing `m_seq` by whole ring turns, even across the 64-bit wrap-around, gives the same line |
| Ring.WrapKeepsSlot | test_dma.c:167 | the 64-bit wrap-around keeps the position in the 1024-entry ring |
| Ring.SlotOffsetDistinct | test_dma.c:167 | fewer than 1024 consecutive sequence numbers never share a line |

## Left out

- `alloc_hugepage` is not modelled: `mmap`, `memset`, `exit` and `munmap` are operating-system memory management. Only the offset into the page is modelled.
- `_mm_clflush`, `_mm_mfence`, `nanosleep` and `usleep` are not modelled. They are cache and timing effects. The model of `get_vled_byte` does not wait between reads.
- The `fpga_mgmt_*` and `wd_*` libraries are not part of this model. Their source is not available.
  - The vDIP write is a log of commands.
  - The vLED read is a script of results fixed in advance.
  - A script that runs out reads as a failure.
  - Whatever the card does between reads is in the script.
- The final status read in `main` (test_dma.c:174-177) is modelled only through its decode (`DecodeStatus`, `DecodeStatusMasks`). The read itself is `GetVledStatus`.
- All printing is left out as presentation: `hexdump32`, the print loop of `dump_vled`, `print_snapshot`, and the `printf` of `main`, including the `bresp & 0x3` mask, which exists only for printing.
- The `snap_desc` label table is left out. It is descriptive data with no behaviour.
- The calls of `main` are not modelled as one sequence. These are `dump_vled`, the AW-address loop, the BRESP and handshake bytes, and six counters. Each piece is modelled on its own, starting from any port state.
- The pointer `hp + offset` is modelled as the byte offset only. Its address arithmetic is left out.
