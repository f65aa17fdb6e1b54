/**
  `Device`: the client for one controller output. It keeps the output port
  and a message number, builds each frame with the class-wide `DeviceMsg`
  and hands it to a write-only serial port, modelled here as the ghost list
  `written` of frames in the order they were written.
*/
module Devices {
  import opened Frame
  import opened FrameProperties
  import opened DeviceMsgs
  import Patterns

  const RegTestPattern: int := 0x0200_0101
  const RegBrightnessOverall: int := 0x0200_0001

  /** A single-byte write of `value` to register `reg` on `port`, with sequence number 0, as the device sends it. */
  ghost predicate CommandFrame(f: seq<int>, port: int, reg: int, value: int)
  {
    Decode(f) == Some(Decoded(true, 0, 0, port, true, reg, 1, [value]))
  }

  /** A frame either operation of the device can have written. */
  ghost predicate DeviceFrame(f: seq<int>, port: int)
  {
    exists v :: CommandFrame(f, port, RegBrightnessOverall, v) || CommandFrame(f, port, RegTestPattern, v)
  }

  /** Every frame of a list is one of the device's commands. */
  ghost predicate DeviceFrames(written: seq<seq<int>>, port: int)
  {
    forall i :: 0 <= i < |written| ==> DeviceFrame(written[i], port)
  }

  /** The request of a single-byte write with sequence number 0. */
  function WriteRequest(port: int, reg: int, v: int): Request
  {
    Request(0, reg, 1, Int(v), port, true, true, 0)
  }

  /** A single-byte write is built exactly when the value is a byte and the port is 1..256. */
  lemma WriteRequestSucceeds(port: int, reg: int, v: int)
    ensures Encode(WriteRequest(port, reg, v)).Ok? <==> IsByte(v) && 1 <= port <= 0x100
  {
    EncodeSucceeds(WriteRequest(port, reg, v));
  }

  /** The frame of a single-byte write to a 32-bit register decodes as that command. */
  lemma WriteRequestDecodes(port: int, reg: int, v: int)
    requires 0 <= reg < Word32
    requires Encode(WriteRequest(port, reg, v)).Ok?
    ensures CommandFrame(Encode(WriteRequest(port, reg, v)).value, port, reg, v)
  {
    var q := WriteRequest(port, reg, v);
    assert reg % Word32 == reg;
    EncodeSucceeds(q);
    assert PayloadOf(q) == [v];
    EncodeDecode(q);
  }

  /** Writing one more of the device's commands keeps every written frame a device frame. */
  lemma DeviceFramesAppend(written: seq<seq<int>>, port: int, f: seq<int>, reg: int, v: int)
    requires DeviceFrames(written, port)
    requires reg == RegTestPattern || reg == RegBrightnessOverall
    requires CommandFrame(f, port, reg, v)
    ensures DeviceFrames(written + [f], port)
  {
    assert DeviceFrame(f, port);
    var w := written + [f];
    forall i | 0 <= i < |w| ensures DeviceFrame(w[i], port) {
      if i < |written| { assert w[i] == written[i]; }
    }
  }

  class Device {
    var port: int
    var msgNo: int
    /** The builder shared by every device (`Device.message`). */
    const message: DeviceMsg
    /** What `serport.write` has been given. */
    ghost var written: seq<seq<int>>

    /** The message number never moves from 0: nothing increments it. */
    ghost predicate Valid()
      reads this
    {
      msgNo == 0
    }

    constructor (port: int, message: DeviceMsg)
      ensures this.port == port && this.message == message
      ensures msgNo == 0 && written == []
      ensures Valid()
    {
      this.port := port;
      this.message := message;
      msgNo := 0;
      written := [];
    }

    /** `send_msg`: writes a frame as given. */
    method SendMsg(msg: seq<int>)
      requires Valid()
      modifies this
      ensures written == old(written) + [msg]
      ensures port == old(port) && msgNo == old(msgNo)
      ensures Valid()
    {
      written := written + [msg];
    }

    /** `show_pattern`: one frame writing the pattern code to the test-pattern register. */
    method ShowPattern(pattern: int) returns (r: Result<seq<int>>)
      requires Valid()
      modifies this, message
      ensures r == Encode(Request(0, RegTestPattern, 1, Int(pattern), port, true, true, 0))
      ensures r.Ok? <==> IsByte(pattern) && 1 <= port <= 0x100
      ensures r.Ok? ==> CommandFrame(r.value, port, RegTestPattern, pattern)
      ensures written == old(written) + (if r.Ok? then [r.value] else [])
      ensures DeviceFrames(old(written), port) ==> DeviceFrames(written, port)
      ensures message.msg == Trace(Request(0, RegTestPattern, 1, Int(pattern), port, true, true, 0)).buffer
      ensures port == old(port) && msgNo == old(msgNo)
      ensures Valid()
    {
      r := message.Generate(serno := msgNo, port := port, regAddr := RegTestPattern, dataLen := 1,
                            data := Int(pattern));
      WriteRequestSucceeds(port, RegTestPattern, pattern);
      if r.Ok? {
        WriteRequestDecodes(port, RegTestPattern, pattern);
        if DeviceFrames(written, port) {
          DeviceFramesAppend(written, port, r.value, RegTestPattern, pattern);
        }
        written := written + [r.value];
      }
    }

    /** `set_brightness`: one frame writing the level to the overall-brightness register. */
    method SetBrightness(value: int) returns (r: Result<seq<int>>)
      requires Valid()
      modifies this, message
      ensures r == Encode(Request(0, RegBrightnessOverall, 1, Int(value), port, true, true, 0))
      ensures r.Ok? <==> IsByte(value) && 1 <= port <= 0x100
      ensures r.Ok? ==> CommandFrame(r.value, port, RegBrightnessOverall, value)
      ensures written == old(written) + (if r.Ok? then [r.value] else [])
      ensures DeviceFrames(old(written), port) ==> DeviceFrames(written, port)
      ensures message.msg == Trace(Request(0, RegBrightnessOverall, 1, Int(value), port, true, true, 0)).buffer
      ensures port == old(port) && msgNo == old(msgNo)
      ensures Valid()
    {
      r := message.Generate(serno := msgNo, port := port, regAddr := RegBrightnessOverall, dataLen := 1,
                            data := Int(value));
      WriteRequestSucceeds(port, RegBrightnessOverall, value);
      if r.Ok? {
        WriteRequestDecodes(port, RegBrightnessOverall, value);
        if DeviceFrames(written, port) {
          DeviceFramesAppend(written, port, r.value, RegBrightnessOverall, value);
        }
        written := written + [r.value];
      }
    }
  }

  /**
    `set_brightness(0)` on output 1, field by field: marker, ack, sequence
    number, source, destination, card type, port, board address, write,
    reserved, register 0x02000001, length 1, payload 0, checksum 0x5857.
  */
  lemma BrightnessZeroFrame()
    ensures Encode(Request(0, RegBrightnessOverall, 1, Int(0), 1, true, true, 0)) == Ok(
      [0x55, 0xAA] + [0x00] + [0x00] + [0xFE] + [0x00] + [0x01] + [0x00]
      + [0xFF, 0xFF] + [0x01] + [0x00] + [0x01, 0x00, 0x00, 0x02] + [0x01, 0x00]
      + [0x00] + [0x57, 0x58])
  {
    var q := Request(0, RegBrightnessOverall, 1, Int(0), 1, true, true, 0);
    EncodeSucceeds(q);
    EncodedFrame(q);
    assert PayloadOf(q) == [0];
    assert RegAddrBytes(q.regAddr) == [0x01, 0x00, 0x00, 0x02];
    assert DataLenBytes(q.dataLen) == [0x01, 0x00];
    ChecksumOfHead(q, [0]);
    assert Checksum(Head(q) + [0]) == 0x5857;
  }

  /**
    `show_pattern` with the red code on output 3 and sequence number 5:
    port byte 02, register 0x02000101, payload 02, checksum 0x5861.
  */
  lemma RedPatternFrame()
    ensures Encode(Request(5, RegTestPattern, 1, Int(Patterns.PatternRed), 3, true, true, 0)) == Ok(
      [0x55, 0xAA] + [0x00] + [0x05] + [0xFE] + [0x00] + [0x01] + [0x02]
      + [0xFF, 0xFF] + [0x01] + [0x00] + [0x01, 0x01, 0x00, 0x02] + [0x01, 0x00]
      + [0x02] + [0x61, 0x58])
  {
    var q := Request(5, RegTestPattern, 1, Int(Patterns.PatternRed), 3, true, true, 0);
    EncodeSucceeds(q);
    EncodedFrame(q);
    assert PayloadOf(q) == [2];
    assert RegAddrBytes(q.regAddr) == [0x01, 0x01, 0x00, 0x02];
    assert DataLenBytes(q.dataLen) == [0x01, 0x00];
    ChecksumOfHead(q, [2]);
    assert Checksum(Head(q) + [2]) == 0x5861;
  }
}
