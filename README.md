# NovaStar MCTRL300 command frames, modelled in Dafny

This project models the core of `novastar-utility`, a small tool that sets the
brightness of a NovaStar MCTRL300 LED controller and shows its test patterns
over a serial line. The model has four parts.

- **The frame builder, `DeviceMsg`** (`device_msg.dfy`). Its `Generate` method
  resets the `msg` buffer, then calls one `Append...` method per `_append_*`
  helper in wire order:
  - marker `55 AA` or `AA 55`, ack, sequence number, `FE 00 01`, port - 1;
  - board address `FF FF` or `00 00`, read/write code, reserved byte;
  - the register address, little-endian over four bytes;
  - the two-byte length field, the optional payload and a two-byte checksum.

  `Append` behaves like `bytearray.append`: a value outside 0..255 raises, and
  the model returns that as an error result instead of excluding it by a
  precondition. The method is proved against the pure specification in
  `frame.dfy`:
  - `Frame.Trace` gives the buffer and the result of one call, including the
    partial buffer left behind when an append raises;
  - `Frame.Encode` is the result alone.

  Lines 52-59 of `generate` (reset, marker, ack, sequence number, source,
  destination, card type, port) are grouped in one method,
  `AppendAddressing`. It holds the three appends that can raise before the
  fixed part of the head.
- **The frame properties** (`frame.dfy`, module `FrameProperties`):
  - the exact layout of every byte;
  - the frame length;
  - when the builder raises, and where;
  - the checksum and its bound;
  - a round trip in both directions with an independent reader of frames,
    `Frame.Decode`.
- **The device client, `Device`** (`device.dfy`). It keeps the output port and
  the message number and holds the shared builder. `ShowPattern` and
  `SetBrightness` each write one frame to the test-pattern register
  `0x02000101` or the overall-brightness register `0x02000001`.

  The serial port is write-only, so it is modelled as the ghost list `written`
  of the frames given to it. The invariant `Valid` says that the message
  number is 0, because nothing ever increments it. Every operation keeps it,
  `SendMsg` included. `ShowPattern` and `SetBrightness` also keep the fact
  that every written frame decodes as one of the device's two commands. Only
  `SendMsg`, which writes whatever it is given, can break that fact.
- **The test patterns and the command line** (`patterns.dfy`,
  `command_line.dfy`):
  - the nine pattern codes;
  - the name-to-code dispatch of `main`;
  - the option ranges;
  - the requests one run of `main` makes.

Four facts about the code:
- A frame with a one-byte payload is 21 bytes and one without a payload is
  20 bytes (main.py:52-66).
- `data=0` appends a `00` byte, because the `elif data is not None` branch
  takes it (main.py:81-82).
- The checksum's high byte is appended unmasked, so it would raise above 255,
  not wrap (main.py:76). `FrameProperties.ChecksumBound` shows that this
  cannot happen with at most one payload byte.
- The second length byte is derived from the already masked first byte, so it
  is always 0 (main.py:86).

## Model

| member | source | states |
|---|---|---|
| Frame.SumOfBytes | main.py:73 | the sum of n bytes lies between 0 and 255·n |
| Frame.RegAddrRoundTrip | main.py:88-92 | the four register bytes are bytes, and read little-endian they give back the address modulo 2^32 |
| Frame.RegAddrOfBytes | main.py:88-92 | any four bytes are the register bytes of their own little-endian value, which lies below 2^32 |
| Frame.DataLenQuirk | main.py:84-86 | byte 16 is the length modulo 256, byte 17 is always 0, so the length field reads back as the length modulo 256 |
| FrameProperties.PayloadShape | main.py:78-82 | an accepted payload is at most one byte, and it is empty exactly for None |
| FrameProperties.PayloadCases | main.py:78-82 | None appends nothing; an int is accepted exactly when it is a byte (0 included) and appends itself; a list is accepted exactly when it holds one byte and appends it; any other list length raises a TypeError |
| FrameProperties.HeadIsBytes | main.py:52-64 | once ack, sequence number and port - 1 are bytes, the 18 head values are all bytes |
| FrameProperties.ChecksumBound | main.py:72-76 | with at most one payload byte the checksum lies in 0x5555..0x5555+16·255, below 0x10000, so its high byte never raises |
| FrameProperties.ChecksumOfHead | main.py:72-74 | the checksum is 0x5555 plus every field from the sequence number to the payload; the marker and the ack are not summed |
| FrameProperties.EncodeSucceeds | main.py:41-67 | `generate` returns a frame if and only if the ack and the sequence number are bytes, the port is 1..256 and the payload is None, an int byte or a one-byte list |
| FrameProperties.EncodeError | main.py:52-82 | which exception is raised: the ack first, then the sequence number, then the port, then the payload |
| FrameProperties.HeadLayout | main.py:52-64 | the 18 head positions: marker, ack, sequence number, FE 00 01, port - 1, board address, read/write code, reserved byte, register bytes, length bytes |
| FrameProperties.EncodedFrame | main.py:52-76 | a returned frame is head, payload, then the checksum's low and high byte; the body is all bytes and the checksum is below 0x10000 |
| FrameProperties.FrameLayout | main.py:52-120 | every position of a returned frame. It includes the register round trip, byte 16 = length mod 256, byte 17 = 0 and the payload at 18. The last two bytes read little-endian equal 0x5555 plus the sum from index 3 to the payload's end. |
| FrameProperties.FrameLength | main.py:52-66 | a returned frame is 20 bytes with no payload and 21 with one |
| FrameProperties.PayloadOnlyChangesTail | main.py:65 | two frames that differ only in their payload agree on their first 18 bytes |
| FrameProperties.EncodeDecode | main.py:41-67 | reading a returned frame gives back every argument, with the register modulo 2^32, the length modulo 256 and the payload bytes |
| FrameProperties.DecodeEncode | main.py:41-67 | every well-formed frame with at most one payload byte is exactly what `generate` builds from the fields read from it |
| DeviceMsgs.DeviceMsg.constructor | main.py:38-39 | the buffer starts empty |
| DeviceMsgs.DeviceMsg.Append | main.py:55 | `bytearray.append`: a byte is appended and anything else raises, leaving the buffer as it was |
| DeviceMsgs.DeviceMsg.AppendAll | main.py:96-97 | the append loop appends the given bytes in order |
| DeviceMsgs.DeviceMsg.AppendHeader | main.py:94-97 | appends `55 AA` for a command, `AA 55` otherwise |
| DeviceMsgs.DeviceMsg.AppendAck | main.py:69-70 | appends the ack, or raises when it is not a byte |
| DeviceMsgs.DeviceMsg.AppendSrc | main.py:99-100 | appends `FE` |
| DeviceMsgs.DeviceMsg.AppendDest | main.py:102-103 | appends `00` |
| DeviceMsgs.DeviceMsg.AppendCardType | main.py:105-107 | appends `01` |
| DeviceMsgs.DeviceMsg.AppendPortAddr | main.py:109-110 | appends port - 1, and raises exactly when the port is outside 1..256 |
| DeviceMsgs.DeviceMsg.AppendBoardAddr | main.py:112-114 | appends `FF FF` for a command, `00 00` otherwise |
| DeviceMsgs.DeviceMsg.AppendCmdType | main.py:116-117 | appends 1 for a write, 0 for a read |
| DeviceMsgs.DeviceMsg.AppendReserved | main.py:119-120 | appends `00` |
| DeviceMsgs.DeviceMsg.AppendRegAddr | main.py:88-92 | appends the four masked register bytes; none of them can raise |
| DeviceMsgs.DeviceMsg.AppendDataLen | main.py:84-86 | appends the masked length byte, then the always-zero second byte |
| DeviceMsgs.DeviceMsg.AppendData | main.py:78-82 | appends the payload bytes, or raises with the buffer unchanged, as `PayloadBytes` says |
| DeviceMsgs.DeviceMsg.AppendChecksum | main.py:72-76 | appends the low byte of 0x5555 plus the sum from index 3, then its unmasked high byte, which raises when above 255 |
| DeviceMsgs.DeviceMsg.AppendAddressing | main.py:52-59 | a fresh buffer holding marker, ack, sequence number, FE 00 01 and port - 1, or the exception and the partial buffer at the first of those that is not a byte |
| DeviceMsgs.DeviceMsg.Generate | main.py:41-67 | the buffer and the result of one call are those of `Frame.Trace`, whatever the buffer held before |
| Devices.WriteRequestSucceeds | main.py:139-154 | the single-byte write both device operations request is built if and only if the value is a byte and the port is 1..256 |
| Devices.WriteRequestDecodes | main.py:139-154 | the frame of that write to a 32-bit register reads back as a write command with ack 0, sequence number 0, that port and register, length 1 and the value as payload |
| Devices.DeviceFramesAppend | main.py:139-154 | writing one more frame that reads back as one of the two commands keeps every written frame such a command |
| Devices.Device.constructor | main.py:130-133 | keeps the port, starts the message number at 0 with nothing written, and establishes `Valid` |
| Devices.Device.SendMsg | main.py:135-136 | writes the given frame, changes nothing else and keeps `Valid` |
| Devices.Device.ShowPattern | main.py:138-145 | one `generate` call for the test-pattern register with sequence number 0, length 1 and the code as payload. Its frame is written exactly when it succeeds (code a byte, port 1..256) and then decodes to that write command. If every earlier frame was a device command, every frame still is. The builder's buffer is left as that `generate` call leaves it. Port and message number are unchanged and `Valid` is kept. |
| Devices.Device.SetBrightness | main.py:147-154 | the same, for the overall-brightness register and the level |
| Devices.BrightnessZeroFrame | main.py:147-154 | brightness 0 on output 1 is the frame `55 AA 00 00 FE 00 01 00 FF FF 01 00 01 00 00 02 01 00 00 57 58` |
| Devices.RedPatternFrame | main.py:138-145 | the red pattern on output 3 with sequence number 5 is `55 AA 00 05 FE 00 01 02 FF FF 01 00 01 01 00 02 01 00 02 61 58` |
| Patterns.PatternCode | main.py:177-194 | a name selects a code exactly when it is one of the nine choices; every code is in 1..9, and code 1 belongs to "normal" alone |
| Patterns.PatternName | main.py:12-20 | every code 1..9 is selected by one of the nine names |
| Patterns.PatternCodeInjective | main.py:177-194 | two names that select the same code are the same name |
| Patterns.PatternNameOfCode | main.py:177-194 | the name of a choice's code is that choice |
| Patterns.ChoicesDistinct | main.py:32 | the nine choices are distinct names with distinct codes |
| CommandLine.Requests | main.py:164-194 | one run makes the brightness request when `--brightness` is given. It then makes the pattern request when `--test` names a pattern, unless the brightness request raised, which ends the run. Every request but the last returns a frame, and every request uses the output, sequence number 0 and length 1. |
| CommandLine.RequestsSucceed | main.py:26-28 | with the brightness in 0..255 and the output in 1..256, every request of a run yields a frame whose port byte is output - 1 |
| CommandLine.OutputZeroRaises | main.py:28 | output 0 passes the option check, yet every request for it raises at the port byte |

## Left out

- Parsing the options with `argparse` is not modelled. Only the accepted ranges and the order of requests in `main` are kept (`CommandLine`).
- Opening the serial port (`serial.Serial`, `BAUDRATE`, `TIMEOUT`) is I/O in a foreign library. `serport.write` becomes appending to the ghost list `written`; transport errors and partial writes are not modelled.
- `log` writes the wall-clock time to standard output. It has no effect on the frames and is left out.
- Arguments that are not ints or lists of ints are not modelled: strings, floats, bytes and Python's `True`/`False`. The TypeError or the 0/1 byte they would give is not covered.
- A list payload with zero or several elements raises TypeError (`append([])`, `append(a, b)`). It is modelled as the error `BadListPayload`, not as a frame.
- Devices.Device.ShowPattern: an exception from `generate` is modelled as an error result with nothing written. Its propagation out of `main` is not modelled.
- Devices.Device.SetBrightness: the same.
- The builder `message` is one object shared by every `Device` through the class. Here it is a reference handed to the constructor and named in `modifies`. Aliasing between several devices is therefore not modelled; `generate` resets the buffer on every call, so no state carries over.
- `DeviceMsg.msg` is modelled as a `seq<int>` field that the methods reassign, not as a mutable byte array.

## Findings

| source | as written | input that shows it | evidently intended | confidence | as-written member | corrected member |
|---|---|---|---|---|---|---|
| main.py:28 | `--output` accepts `choices=range(256)`, so 0..255 | `--output 0 --brightness 10`: port - 1 is -1 and `bytearray.append` raises ValueError at main.py:110 before anything is written; output 256 is refused although its port byte 0xFF would fit | outputs counted from 1, i.e. 1..256 | medium, not executed | CommandLine.OutputZeroRaises | CommandLine.RequestsSucceed |
