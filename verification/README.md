# DFRobot visual rotary encoder driver, modelled in Dafny

This project models the register-level behaviour of the MicroPython driver class
`DFRobot_VisualRotaryEncoder` (file `lib/DFRobot_RotaryEncoder_I2C.py`). The driver
talks to an I2C rotary encoder with an LED ring. Its public methods do four things:
they write a gain coefficient, write an encoder count, read back the count, the gain
and an 8-byte identity block, and detect a latched button press. Each method is a
small bounds-checked transformation over the device's byte-wide registers.

The I2C bus is abstracted away. The device is a file of 256 registers (`Bus.Regs`).
Whether a transfer reaches the device is a boolean parameter: `ok`, or `readOk` and
`writeOk` for the button method, which issues two transfers. The modelled transfers
are:

- `_write_reg`: a successful write stores the bytes from the given register on. A
  failed write changes nothing.
- `_read_reg`: a successful read yields the requested registers. A failed read yields
  the fixed fallback `[0, 0]`, whatever length was asked for.

Every driver method is a pure function in module `RotaryEncoder`. It returns a `Step`
that holds three things: the new register file, the bus transfers the call issued, and
the method's return value. Keeping the transfers apart means a value rejected by a
range check ("nothing is written") can be told apart from a write that failed on the
bus ("a transfer, but no change").

Files:

- `wrappers.dfy`: a `Result` type, for the one path where the driver lets a Python
  exception escape.
- `bytes.dfy`: Python's `&`, `|`, `<<` and `>>` on non-negative integers, defined bit
  by bit. It also holds the big-endian byte pair built from them. Inductive lemmas tie
  these operators to quotient and remainder by 256.
- `bus.dfy`: the register file and the two transfer primitives.
- `encoder.dfy`: the register constants, the six public methods, and the properties
  of single calls and of pairs of calls.
- `session.dfy`: any sequence of method calls on one driver object, and what such a
  sequence can and cannot change on the device.

A failed read yields the fixed two-element list `[0, 0]`, whatever length was asked
for. For `get_device_info` this is too short: indexing `data[2]` raises Python's
`IndexError`, which nothing catches, so the call does not return.
`RotaryEncoder.GetDeviceInfo` returns that as `Failure(IndexError(2, 2))`.

## Model

| member | source | states |
|---|---|---|
| Bytes.And | lib/DFRobot_RotaryEncoder_I2C.py:82 | Python's `a & b` on non-negative ints is no larger than either operand |
| Bytes.Or | lib/DFRobot_RotaryEncoder_I2C.py:105 | Python's bitwise or of two non-negative ints is at least each operand and at most their sum |
| Bytes.AndLowMask | lib/DFRobot_RotaryEncoder_I2C.py:82 | masking with `k` one-bits gives a value below `2^k`, and `a == ((a >> k) << k) + (a & (2^k-1))` |
| Bytes.AndHighMask | lib/DFRobot_RotaryEncoder_I2C.py:82 | `a & (b << k) == ((a >> k) & b) << k`, which explains the `0xFF00` mask |
| Bytes.OrDisjoint | lib/DFRobot_RotaryEncoder_I2C.py:92-94 | or-ing a value shifted left by `k` with a value below `2^k` is plain addition |
| Bytes.Shl | lib/DFRobot_RotaryEncoder_I2C.py:92-94 | Python's `a << k`, defined as `a * 2^k`, loses no bit: shifting the result back right by `k` gives `a` |
| Bytes.ShrOfShl | lib/DFRobot_RotaryEncoder_I2C.py:92-94 | `(a << k) >> k == a` for every non-negative `a` and `k` |
| Bytes.Shr | lib/DFRobot_RotaryEncoder_I2C.py:82 | Python's `a >> k` as `k` floor-halvings gives 0 exactly when `a < 2^k` |
| Bytes.ShrFloor | lib/DFRobot_RotaryEncoder_I2C.py:82 | `a >> k` is floor division by `2^k`: `2^k * (a >> k) <= a < 2^k * ((a >> k) + 1)` |
| Bytes.ShiftMaskByte | lib/DFRobot_RotaryEncoder_I2C.py:82 | `a >> 8` is `a / 256` and `a & 0xFF` is `a % 256` |
| Bytes.Join | lib/DFRobot_RotaryEncoder_I2C.py:105 | the bitwise or of `hi << 8` and `lo` equals `hi * 256 + lo` and stays below 2^16 |
| Bytes.HighByte | lib/DFRobot_RotaryEncoder_I2C.py:82 | `(v & 0xFF00) >> 8` of a 16-bit value is a byte equal to `v / 256` |
| Bytes.LowByte | lib/DFRobot_RotaryEncoder_I2C.py:82 | `v & 0x00FF` is a byte equal to `v % 256` |
| Bytes.JoinSplit | lib/DFRobot_RotaryEncoder_I2C.py:82 | splitting a 16-bit value into its two bytes and joining them again gives the value back |
| Bytes.SplitJoin | lib/DFRobot_RotaryEncoder_I2C.py:105 | joining two bytes and splitting the result gives both bytes back |
| Bus.WriteReg | lib/DFRobot_RotaryEncoder_I2C.py:34-47 | a successful write puts `data[i]` in register `reg+i` and leaves every other register alone; a failed write changes nothing |
| Bus.ReadReg | lib/DFRobot_RotaryEncoder_I2C.py:49-62 | a successful read yields exactly the `len` registers from `reg` on; a failed read yields `[0, 0]` whatever `len` was |
| Bus.ReadAfterWrite | lib/DFRobot_RotaryEncoder_I2C.py:44-57 | a successful write then a successful read of the same registers returns the written bytes |
| Bus.ReadOtherAfterWrite | lib/DFRobot_RotaryEncoder_I2C.py:45 | a write, successful or not, does not change a read of registers outside its range |
| RotaryEncoder.SetGainCoefficient | lib/DFRobot_RotaryEncoder_I2C.py:64-73 | a gain in [1, 51] issues exactly one one-byte write to 0x0B, which holds the gain afterwards if the transfer succeeded; any other gain issues no transfer and changes nothing; no register but 0x0B ever changes |
| RotaryEncoder.SetEncoderValue | lib/DFRobot_RotaryEncoder_I2C.py:75-83 | a count in [0, 1023] issues one write of `[v / 256, v % 256]` to 0x08, with a high byte of at most 3, and after a successful transfer 0x08-0x09 hold the count; any other count issues no transfer and changes nothing; no register but 0x08-0x09 ever changes |
| RotaryEncoder.At | lib/DFRobot_RotaryEncoder_I2C.py:92-95 | Python's `data[i]` succeeds exactly when `i` is below the length, giving that element, and otherwise fails with `IndexError`, which the model records with the index and the length |
| RotaryEncoder.DecodeDeviceInfo | lib/DFRobot_RotaryEncoder_I2C.py:92-95 | decoding succeeds exactly when at least 8 bytes are present, giving big-endian PID, VID and version from bytes 0-5 and the address from byte 7; on the two-byte fallback it raises `IndexError` at index 2 |
| RotaryEncoder.DecodeIdentityBlock | lib/DFRobot_RotaryEncoder_I2C.py:90-95 | decoding registers 0x00-0x07 yields the identity information they hold |
| RotaryEncoder.GetDeviceInfo | lib/DFRobot_RotaryEncoder_I2C.py:85-97 | issues one 8-byte read at 0x00 and never writes; on success returns the identity block's PID, VID, version and address, and on a failed read fails with `IndexError(2, 2)` |
| RotaryEncoder.GetEncoderValue | lib/DFRobot_RotaryEncoder_I2C.py:99-105 | issues one 2-byte read at 0x08 and never writes; returns the big-endian count held in 0x08-0x09, or 0 when the read fails |
| RotaryEncoder.GetGainCoefficient | lib/DFRobot_RotaryEncoder_I2C.py:107-114 | issues one 1-byte read at 0x0B and never writes; returns the gain register, or 0 when the read fails |
| RotaryEncoder.DetectButtonDown | lib/DFRobot_RotaryEncoder_I2C.py:116-125 | reports a press exactly when the read succeeds and 0x0A holds 1; it then writes 0 to 0x0A, which clears only that register if the write succeeds; with no press it issues only the read and changes nothing |
| RotaryEncoder.EncodeDeviceInfo | lib/DFRobot_RotaryEncoder_I2C.py:92-95 | the identity block for given information is 8 bytes: PID, VID and version as big-endian pairs in bytes 0-5, the reserved byte at 6 and the address at 7 |
| RotaryEncoder.DecodeEncodeDeviceInfo | lib/DFRobot_RotaryEncoder_I2C.py:92-95 | decoding an encoded identity block recovers the PID, VID, version and address, whatever byte 6 holds |
| RotaryEncoder.DeviceInfoFixture | lib/DFRobot_RotaryEncoder_I2C.py:5-13 | an identity block holding the driver's PID constant 0x01F6 (line 13), VID 1, version 2 and the default address 0x54 (line 5) decodes to those values |
| RotaryEncoder.ReservedByteIgnored | lib/DFRobot_RotaryEncoder_I2C.py:92-95 | changing register 0x06 never changes what `get_device_info` reports |
| RotaryEncoder.GainRoundTrip | lib/DFRobot_RotaryEncoder_I2C.py:72-114 | over a working bus, setting a gain in [1, 51] and reading the gain back returns that gain |
| RotaryEncoder.GainUnchangedUnlessWritten | lib/DFRobot_RotaryEncoder_I2C.py:72-73 | after an out-of-range or failed gain write, the gain read back is what it was before |
| RotaryEncoder.EncoderRoundTrip | lib/DFRobot_RotaryEncoder_I2C.py:81-105 | over a working bus, setting a count in [0, 1023] and reading the count back returns that count |
| RotaryEncoder.EncoderUnchangedUnlessWritten | lib/DFRobot_RotaryEncoder_I2C.py:81-83 | after an out-of-range or failed count write, the count read back is what it was before |
| RotaryEncoder.SettersIndependent | lib/DFRobot_RotaryEncoder_I2C.py:72-83 | setting the gain never changes the count read back, and setting the count never changes the gain read back |
| RotaryEncoder.ButtonPressReportedOnce | lib/DFRobot_RotaryEncoder_I2C.py:121-125 | a latched press is reported, and once it is cleared over a working bus the next call reports no press |
| RotaryEncoder.ButtonPressKeptOnFailedClear | lib/DFRobot_RotaryEncoder_I2C.py:121-122 | if the clearing write fails, the press stays latched and the next successful read reports it again |
| RotaryEncoder.ReadFailureFallbacks | lib/DFRobot_RotaryEncoder_I2C.py:56-62 | on a failed read the count and gain getters return 0 without raising and no press is reported, while `get_device_info` fails |
| RotaryEncoder.GainOutsideDocumentedRange | lib/DFRobot_RotaryEncoder_I2C.py:107-114 | a failed gain read returns 0, outside the documented range 1-51; a successful one is in that range exactly when the gain register is |
| Session.ApplyKeepsDriverWritesOnly | lib/DFRobot_RotaryEncoder_I2C.py:64-125 | no single method call, whatever its transfers' outcome, breaks the driver's register invariant |
| Session.IssuedDriverTxns | lib/DFRobot_RotaryEncoder_I2C.py:64-125 | every write a single call issues is a 2-byte count write whose high byte is at most 3, a clear of the key status, or an in-range gain byte |
| Session.RunKeepsDriverWritesOnly | lib/DFRobot_RotaryEncoder_I2C.py:64-125 | for any sequence of calls and transfer outcomes, registers outside 0x08-0x0B keep their start values, including the identity block; a changed gain is in [1, 51], a changed count is in [0, 1023], and a changed key status is 0 |
| Session.SessionKeepsDriverWritesOnly | lib/DFRobot_RotaryEncoder_I2C.py:64-125 | the same invariant, starting from any register file |
| Session.GettersStayInDocumentedRange | lib/DFRobot_RotaryEncoder_I2C.py:99-114 | if the device starts with a count in 0-1023 and a gain in 1-51, after any session the count read is in 0-1023, and the gain read is in 1-51 whenever the read succeeds |
| Session.TraceDriverTxns | lib/DFRobot_RotaryEncoder_I2C.py:64-125 | for any sequence of calls, every write on the bus targets 0x08 with two bytes whose high byte is at most 3, 0x0A with `[0]`, or 0x0B with a gain in [1, 51] |

## Left out

- The constructor (`I2C(...)`, `Pin(...)`) and its report when the bus cannot be set up. This is hardware initialisation. The device's bus address (`_addr`) is not modelled either: the model has one device.
- The `print` diagnostics in `_write_reg`, `_read_reg` and the constructor. A failed transfer is modelled only by its effect: no change for a write, the `[0, 0]` fallback for a read.
- The string formatting in `get_device_info`. The model returns the four decoded numbers as a `DeviceInfo` record.
- `main.py`. It is an endless polling loop with `sleep` and `print`. It also calls `coefficient()`, `value()`, `str(...)` and `bool(...)` on the driver, and the class defines none of these.
- Python's `int(...)` coercion of arbitrary arguments in the two setters. The setters take integers directly.
- `_write_reg`'s wrapping of a single int into a list. The model's callers pass the one-element list themselves.
- `bytearray` rejecting elements outside 0-255. Every call site passes bytes, so this never happens.
- Bytes.And: the contract only bounds the result by both operands. What the operator means bit by bit is stated by `Bytes.AndLowMask`, `Bytes.AndHighMask` and `Bytes.ShiftMaskByte`.
- Bytes.Or: the contract only bounds the result. The one use the driver makes of it, joining two bytes, is stated exactly by `Bytes.OrDisjoint` and `Bytes.Join`.
- RotaryEncoder.At: Python's `IndexError` carries only a message; the model records the index and the length instead.
- Bytes.Shr: the contract states only when the result is 0; that it is floor division by `2^k` is stated by `Bytes.ShrFloor`, and its value for `k == 8` by `Bytes.ShiftMaskByte`.
- The return ranges in the getters' docstrings (count 0-1023, gain 1-51) are kept by the device, not enforced by the driver. `RotaryEncoder.GetEncoderValue` and `RotaryEncoder.GetGainCoefficient` return whatever the registers hold, and a failed gain read returns 0, outside 1-51 (`RotaryEncoder.GainOutsideDocumentedRange`). The ranges hold after any session that starts in range (`Session.GettersStayInDocumentedRange`).
- Bus.WriteReg: requires the written range to end by register 0xFF. What the device does with a transfer that runs past its last register is not described. The driver only issues fixed transfers inside 0x00-0x0B.
- Bus.ReadReg: requires the read range to end by register 0xFF, for the same reason.
- Changes the device makes itself, such as rotation updating the count or a press setting the key status. The session model covers only the driver's own calls, with nothing else writing between them.
- The product ID constant 0x01F6 is not checked by the driver, and the model does not check it either. It only appears in `RotaryEncoder.DeviceInfoFixture`.
