/**
  `DeviceMsg`: the frame builder that fills its `msg` buffer append by append.
  Each `Append...` method is one `_append_*` helper; `Generate` restarts the
  buffer and runs them in wire order, stopping at the first append that
  raises. Its contract ties the buffer and the result to `Frame.Trace`.
*/
module DeviceMsgs {
  import opened Frame

  class DeviceMsg {
    /** The `bytearray` being built. */
    var msg: seq<int>

    constructor ()
      ensures msg == []
    {
      msg := [];
    }

    /** `bytearray.append`: a value outside 0..255 raises and leaves the buffer as it was. */
    method Append(b: int) returns (ok: bool)
      modifies this
      ensures ok == IsByte(b)
      ensures msg == if ok then old(msg) + [b] else old(msg)
    {
      ok := IsByte(b);
      if ok {
        msg := msg + [b];
      }
    }

    /** Appends every value of a list of bytes, in order. */
    method AppendAll(bytes: seq<int>)
      requires AllBytes(bytes)
      modifies this
      ensures msg == old(msg) + bytes
    {
      for i := 0 to |bytes|
        invariant msg == old(msg) + bytes[..i]
      {
        var ok := Append(bytes[i]);
        assert bytes[..i + 1] == bytes[..i] + [bytes[i]];
      }
    }

    method AppendHeader(isCmd: bool)
      modifies this
      ensures msg == old(msg) + Marker(isCmd)
    {
      var header := if isCmd then [0x55, 0xAA] else [0xAA, 0x55];
      AppendAll(header);
    }

    method AppendAck(ack: int) returns (ok: bool)
      modifies this
      ensures ok == IsByte(ack)
      ensures msg == if ok then old(msg) + [ack] else old(msg)
    {
      ok := Append(ack);
    }

    method AppendSrc()
      modifies this
      ensures msg == old(msg) + [Src]
    {
      var ok := Append(0xFE);
    }

    method AppendDest()
      modifies this
      ensures msg == old(msg) + [Dest]
    {
      var ok := Append(0x00);
    }

    method AppendCardType()
      modifies this
      ensures msg == old(msg) + [CardType]
    {
      var ok := Append(0x01);
    }

    /** The zero-based port index; port 0 or above 256 raises. */
    method AppendPortAddr(port: int) returns (ok: bool)
      modifies this
      ensures ok == (1 <= port <= 0x100)
      ensures msg == if ok then old(msg) + [port - 1] else old(msg)
    {
      ok := Append(port - 1);
    }

    method AppendBoardAddr(isCmd: bool)
      modifies this
      ensures msg == old(msg) + BoardAddr(isCmd)
    {
      AppendAll(if isCmd then [0xFF, 0xFF] else [0x00, 0x00]);
    }

    method AppendCmdType(isWrite: bool)
      modifies this
      ensures msg == old(msg) + [CmdType(isWrite)]
    {
      var ok := Append(if isWrite then 0x01 else 0x00);
    }

    method AppendReserved()
      modifies this
      ensures msg == old(msg) + [Reserved]
    {
      var ok := Append(0x00);
    }

    /** Four bytes, lowest first; each mask keeps the value in 0..255, so no append raises. */
    method AppendRegAddr(regAddr: int)
      modifies this
      ensures msg == old(msg) + RegAddrBytes(regAddr)
    {
      RegAddrRoundTrip(regAddr);
      var ok := Append(regAddr % 0x100);
      ok := Append((regAddr % 0x1_0000) / 0x100);
      ok := Append((regAddr % 0x100_0000) / 0x1_0000);
      ok := Append((regAddr % 0x1_0000_0000) / 0x100_0000);
    }

    method AppendDataLen(dataLen: int)
      modifies this
      ensures msg == old(msg) + DataLenBytes(dataLen)
    {
      var ok := Append(dataLen % 0x100);
      ok := Append((dataLen % 0x100) / 0x100);
    }

    /** None appends nothing; an int (0 included) or a one-element list appends one byte. */
    method AppendData(data: Payload) returns (err: Option<FrameError>)
      modifies this
      ensures err.None? <==> PayloadBytes(data).Ok?
      ensures err.Some? ==> PayloadBytes(data) == Err(err.value)
      ensures msg == if err.None? then old(msg) + PayloadBytes(data).value else old(msg)
    {
      match data
      case NoData =>
        err := None;
      case Int(v) =>
        var ok := Append(v);
        err := if ok then None else Some(ByteOutOfRange(DataField));
      case List(items) =>
        if |items| != 1 {
          err := Some(BadListPayload(|items|));
        } else {
          var ok := Append(items[0]);
          assert items == [items[0]];
          err := if ok then None else Some(ByteOutOfRange(DataField));
        }
    }

    /** Sum of the bytes from index 3 on, plus 0x5555: low byte, then the unmasked high byte. */
    method AppendChecksum() returns (ok: bool)
      modifies this
      ensures var c := Checksum(old(msg));
        ok == IsByte(c / 0x100)
        && msg == old(msg) + (if ok then [c % 0x100, c / 0x100] else [c % 0x100])
    {
      var c := Sum(if |msg| >= 3 then msg[3..] else []);
      c := c + 0x5555;
      ok := Append(c % 0x100);
      ok := Append(c / 0x100);
    }

    /**
      Lines 52-59 of `generate`: a fresh buffer, then marker, ack, sequence
      number, source, destination, card type and port. An ack, sequence
      number or port that is not a byte raises at its own append.
    */
    method AppendAddressing(ack: int, serno: int, port: int, isCmd: bool) returns (err: Option<FrameError>)
      modifies this
      ensures !IsByte(ack) ==>
        err == Some(ByteOutOfRange(AckField)) && msg == Marker(isCmd)
      ensures IsByte(ack) && !IsByte(serno) ==>
        err == Some(ByteOutOfRange(SernoField)) && msg == Marker(isCmd) + [ack]
      ensures IsByte(ack) && IsByte(serno) && !IsByte(port - 1) ==>
        err == Some(ByteOutOfRange(PortField))
        && msg == Marker(isCmd) + [ack] + [serno] + [Src] + [Dest] + [CardType]
      ensures IsByte(ack) && IsByte(serno) && IsByte(port - 1) ==>
        err == None && msg == Marker(isCmd) + [ack] + [serno] + [Src] + [Dest] + [CardType] + [port - 1]
    {
      msg := [];
      AppendHeader(isCmd);
      assert msg == Marker(isCmd);
      var ok := AppendAck(ack);
      if !ok {
        return Some(ByteOutOfRange(AckField));
      }
      ok := Append(serno);
      if !ok {
        return Some(ByteOutOfRange(SernoField));
      }
      AppendSrc();
      AppendDest();
      AppendCardType();
      ok := AppendPortAddr(port);
      if !ok {
        return Some(ByteOutOfRange(PortField));
      }
      err := None;
    }

    /** Builds one frame in a fresh buffer; the old contents of `msg` play no part. */
    method Generate(serno: int, regAddr: int, dataLen: int, data: Payload, port: int,
                    isCmd: bool := true, isWrite: bool := true, ack: int := 0)
      returns (r: Result<seq<int>>)
      modifies this
      ensures var t := Trace(Request(serno, regAddr, dataLen, data, port, isCmd, isWrite, ack));
        msg == t.buffer && r == t.result
    {
      ghost var q := Request(serno, regAddr, dataLen, data, port, isCmd, isWrite, ack);
      var err := AppendAddressing(ack, serno, port, isCmd);
      if err.Some? {
        return Err(err.value);
      }
      AppendBoardAddr(isCmd);
      AppendCmdType(isWrite);
      AppendReserved();
      AppendRegAddr(regAddr);
      AppendDataLen(dataLen);
      assert msg == Head(q);
      err := AppendData(data);
      if err.Some? {
        return Err(err.value);
      }
      var ok := AppendChecksum();
      if !ok {
        return Err(ByteOutOfRange(ChecksumField));
      }
      return Ok(msg);
    }
  }
}
