# Modbus RTU framing for a battery-voltage reader

This project models the protocol core of a small MicroPython Modbus RTU
master. The master asks a charge controller for its battery voltage. It
sends a "Read Holding Registers" request (function 0x03) for register 0x0101
to slave 1, then decodes the one-register answer. The model covers three
parts:

- **CRC-16/MODBUS** (`calculate_crc`). The accumulator starts at 0xFFFF. Each
  byte is xor-ed in and followed by eight shift rounds, each xor-ing in the
  reflected polynomial 0xA001 when the bit shifted out was set. The result is
  masked to 16 bits and there is no final xor. This is the algorithm of
  section 2.5.1.2 and Appendix B of the MODBUS over Serial Line Specification
  V1.02.
- **The request frame**, built in `read_battery_voltage`. It is the slave
  address, the function code, the register address and register count each
  split big-endian, then the CRC of those six bytes sent low byte first.
  Function 0x03 is defined in section 6.3 of the MODBUS Application Protocol
  Specification V1.1b3.
- **The response decoder**. A missing response, or one shorter than five
  bytes, gives no reading. Otherwise bytes 3 and 4 form the 16-bit raw value.

Bytes are `seq<int>` with range predicates (`Bytes.IsByte`, `Bytes.IsBytes`).
Python integers are unbounded, so `^` and `|` are defined bit by bit on
`nat` (`Bits.Xor`, `Bits.Or`). `x >> k` is k halvings (`Bits.Shr`), proved
equal to division by 2^k. `x & 0xFF` is `x % 256`. The 16-bit bound on the
CRC accumulator is therefore proved, not assumed from a fixed-width type.

Modules, leaves first:

- `Bits`: Python's bit operators on non-negative integers and their algebra.
- `Bytes`: bytes, 16-bit words, and the high/low split and join.
- `Options`: the optional result.
- `Crc16`: the CRC as a fold and as the nested-loop method. It also holds a
  table-driven reference form and the proof that the two agree.
- `CrcValues`: the CRC evaluated on concrete bytes. Xor with 0xA001 is
  rewritten as three single-bit flips, so each round is plain arithmetic.
  Each concrete byte step is checked against a written-out trace of the
  accumulator. This gives the check value 0x4B37 of "123456789", the table
  entry for index 1, and the CRC of the request body sent to slave 1.
- `Request`: the request record, its frame, and a parser that inverts it.
- `Response`: the decoder, and the seven-byte reply a slave sends.
- `Exchange`: one call of `read_battery_voltage` with the UART cut away.

The raw value is in tenths of a volt. The source multiplies it by 0.1.

## Model

| member | source | states |
|---|---|---|
| Crc16.Crc | Modbus_reading_registers.py:32-42 | The CRC is a 16-bit value. The final `& 0xFFFF` never changes the accumulator. The CRC of the empty sequence is the initial value 0xFFFF. |
| Bits.XorBound | Modbus_reading_registers.py:35-39 | Python's `^` on two non-negative values below 2^k gives a value below 2^k, so xor-ing a byte or 0xA001 into the accumulator adds no bit above bit 15. |
| Crc16.RoundBound | Modbus_reading_registers.py:37-41 | One shift round, with or without the 0xA001 xor, keeps a 16-bit accumulator within 0..0xFFFF. |
| Crc16.ByteStepBound | Modbus_reading_registers.py:35-41 | Xor-ing in a byte and running the eight rounds keeps the accumulator within 0..0xFFFF. |
| Crc16.FoldBound | Modbus_reading_registers.py:33-41 | The accumulator stays within 0..0xFFFF through the whole outer loop, for any byte sequence. |
| Crc16.FoldSnoc | Modbus_reading_registers.py:34-41 | The outer loop is a left fold: one more byte is one more byte step on the accumulator reached so far. |
| Crc16.CrcSnoc | Modbus_reading_registers.py:34-42 | `crc(data + [b])` is one byte step applied to `crc(data)`. A byte step is an xor followed by exactly eight rounds. |
| Crc16.CalculateCrc | Modbus_reading_registers.py:32-42 | The nested-loop computation returns the CRC fold of its input, a 16-bit value. |
| Crc16.TableStepAgrees | Modbus_reading_registers.py:35-41 | The bitwise byte step equals the table-driven step `(crc >> 8) ^ table[(crc ^ b) & 0xFF]` for any accumulator and any byte. |
| Crc16.CrcMatchesTable | Modbus_reading_registers.py:32-42 | The CRC equals the table-driven CRC-16/MODBUS reference on every byte sequence. |
| Bits.XorBit | Modbus_reading_registers.py:35-39 | Xor-ing in a single bit 2^j flips bit j of the accumulator and leaves every other bit alone. |
| Bits.XorTrace | Modbus_reading_registers.py:35 | `crc ^= pos` can be evaluated one bit of `pos` at a time: flipping the accumulator at each set bit, from bit 0 up, gives `crc ^ (pos % 2^n)` after n bits, so `crc ^ pos` after the eight bits of a byte. |
| CrcValues.PolyXor | Modbus_reading_registers.py:39 | `crc ^= 0xA001` flips exactly bits 13, 15 and 0 of the accumulator. |
| CrcValues.RoundFlips | Modbus_reading_registers.py:37-41 | On a 16-bit accumulator, one inner-loop pass halves it. When the bit shifted out was set, it also sets bit 15 and flips bits 13 and 0. |
| CrcValues.TableEntryOne | Modbus_reading_registers.py:36-41 | Eight rounds starting from 1 give 0xC0C1, the entry for index 1 of the published CRC-16/MODBUS table. |
| CrcValues.CheckValue | Modbus_reading_registers.py:32-42 | The CRC of the ASCII digits "123456789" is 0x4B37, the catalogued check value of CRC-16/MODBUS. |
| CrcValues.SlaveOneBodyCrc | Modbus_reading_registers.py:32-54 | The CRC of the request body `01 03 01 01 00 01` is 0x36D4. |
| Bytes.SplitJoin | Modbus_reading_registers.py:50-53 | A 16-bit value splits into `(v >> 8) & 0xFF` and `v & 0xFF`, both bytes, and the pair recombines to the value. |
| Bytes.JoinValue | Modbus_reading_registers.py:74 | `(high << 8) \| low` of two bytes is `high * 256 + low`, a 16-bit value. |
| Bytes.JoinSplit | Modbus_reading_registers.py:72-74 | Joining two bytes and splitting the result gives the same two bytes back. |
| Request.Frame | Modbus_reading_registers.py:47-59 | The frame has 8 bytes. Slave and function come first. The address and count appear big-endian and recombine to their values. Bytes 6 and 7 are the low and high byte of the CRC of the first six bytes. |
| Request.BuildRequest | Modbus_reading_registers.py:47-59 | For any slave address 0..255, the frame has 8 bytes. It starts `[slave, 0x03, 0x01, 0x01, 0x00, 0x01]`, and `frame[6] + 256 * frame[7]` is the CRC of those six bytes. |
| Request.ParseFrame | Modbus_reading_registers.py:47-59 | Every valid request survives framing: parsing its frame gives the request back. |
| Request.FrameParse | Modbus_reading_registers.py:47-59 | Every 8-byte sequence that parses is exactly the frame of the request it parses to. |
| Request.BuildRequestParses | Modbus_reading_registers.py:28-59 | The frame sent to a slave carries a read of one holding register at 0x0101 for that slave, and nothing else. |
| Request.SlaveOneFrame | Modbus_reading_registers.py:25-59 | With `SLAVE_ADDRESS` 1, the frame `main` makes `read_battery_voltage` write is exactly `01 03 01 01 00 01 D4 36`. |
| Response.DecodeResponse | Modbus_reading_registers.py:70-80 | A reading exists exactly when a response arrived with at least 5 bytes; an absent, empty or shorter response gives none. The reading is `response[3] * 256 + response[4]`, within 0..65535. |
| Response.DecodeIgnoresFraming | Modbus_reading_registers.py:70-74 | Two responses of 5 or more bytes that agree on bytes 3 and 4 decode to the same reading. The address, function code, byte count and CRC bytes are not checked. |
| Response.DecodeReply | Modbus_reading_registers.py:68-74 | Decoding a slave's reply, or its first 5 or 6 bytes, gives back the register value the slave sent. |
| Exchange.ReadBatteryVoltage | Modbus_reading_registers.py:44-80 | One call writes 8 bytes: `[slave, 0x03, 0x01, 0x01, 0x00, 0x01]`, then the CRC of those six bytes, low byte first. It yields a reading exactly when at least 5 bytes came back. The reading is bytes 3 and 4 big-endian. `Exchange.PollAnsweringSlave` and `Exchange.PollSilentSlave` state its end-to-end behaviour. |
| Exchange.PollAnsweringSlave | Modbus_reading_registers.py:44-80 | Polling a slave that answers with a value yields that value. The frame written is a read of register 0x0101 of that slave. |
| Exchange.PollSilentSlave | Modbus_reading_registers.py:62-80 | No answer, or an answer under 5 bytes, yields no reading. The request is still sent. |

## Left out

- UART set-up, `uart.write`, `uart.read(7)` and `time.sleep(0.1)` are hardware I/O and timing. The bytes the read returns are a parameter of `Exchange.ReadBatteryVoltage`.
- `main` and the console messages only format output.
- The `except Exception` branch returns `"Error: ..."` only when a foreign call fails. The model requires a slave address in 0..255 and excludes out-of-range addresses. Whether `bytearray` rejects such an address or masks it depends on the interpreter.
- The `raw_value * 0.1` scaling is floating point. The model stops at the integer raw value, in tenths of a volt.
- A full reply to the request has 7 bytes, but the code accepts any response of 5 or more bytes. The model follows the code, and `Response.DecodeReply` shows that 5- and 6-byte prefixes of a reply decode too.
- The decoder does not validate the CRC, the echoed address, the function code or the byte count of a response, and neither does the model. `Response.DecodeIgnoresFraming` states this gap.
- The constants `BAUDRATE`, `DATA_BITS`, `STOP_BITS`, `PARITY`, `TX_PIN` and `RX_PIN` configure the serial line only.
- Of the 256 entries of the CRC table, only the entry for index 1 is evaluated on its own. `Crc16.CrcMatchesTable` shows that the bitwise CRC and the table-driven CRC agree on every input.
- `Request.Frame` takes a general request record. The source hard-codes function 0x03, register 0x0101 and count 1, and `Request.BuildRequest` fixes exactly those.
