/**
  The wire format of a NovaStar MCTRL300 command frame, as a pure specification.

  A frame is the sequence of values appended to a Python `bytearray`:
  marker, ack, sequence number, source, destination, card type, port,
  board address, read/write code, reserved byte, register address,
  length field, payload and checksum. `bytearray.append` refuses a value
  outside 0..255 (ValueError) and anything that is not one integer
  (TypeError); `Trace` records how far the buffer got before such a
  failure, `Encode` is the result the caller sees.

  Python's `x & 0xFF` and `(x & 0xFF00) >> 8` on unbounded integers are
  written as the Euclidean `x % 0x100` and `(x % 0x1_0000) / 0x100`, which
  agree with them for negative `x` as well.
*/
module Frame {

  datatype Option<T> = None | Some(value: T)

  /** Which append refused its value. */
  datatype Field = AckField | SernoField | PortField | DataField | ChecksumField

  datatype FrameError =
    | ByteOutOfRange(field: Field)               // ValueError from bytearray.append
    | BadListPayload(count: nat)                 // TypeError: a list payload that is not exactly one element

  datatype Result<T> = Ok(value: T) | Err(error: FrameError)

  /** The `data` argument of `generate`: None, an int, or a list of ints. */
  datatype Payload = NoData | Int(v: int) | List(items: seq<int>)

  /** The keyword arguments of one `generate` call. */
  datatype Request = Request(
    serno: int, regAddr: int, dataLen: int, data: Payload,
    port: int, isCmd: bool, isWrite: bool, ack: int)

  /** The buffer left behind by one `generate` call, and what the call returned or raised. */
  datatype Outcome = Outcome(buffer: seq<int>, result: Result<seq<int>>)

  const Src: int := 0xFE
  const Dest: int := 0x00
  const CardType: int := 0x01        // 00 sender, 01 receiver, 02 function card
  const Reserved: int := 0x00
  const ChecksumBias: int := 0x5555
  const Word32: int := 0x1_0000_0000

  /** Number of bytes before the payload. */
  const HeadLength: nat := 18

  predicate IsByte(x: int) { 0 <= x < 0x100 }

  predicate AllBytes(s: seq<int>) { forall i :: 0 <= i < |s| ==> IsByte(s[i]) }

  function Marker(isCmd: bool): seq<int> { if isCmd then [0x55, 0xAA] else [0xAA, 0x55] }

  function BoardAddr(isCmd: bool): seq<int> { if isCmd then [0xFF, 0xFF] else [0x00, 0x00] }

  function CmdType(isWrite: bool): int { if isWrite then 0x01 else 0x00 }

  /** The four register-address bytes, each taken with the source's mask and shift. */
  function RegAddrBytes(reg: int): seq<int>
  {
    [reg % 0x100,
     (reg % 0x1_0000) / 0x100,
     (reg % 0x100_0000) / 0x1_0000,
     (reg % 0x1_0000_0000) / 0x100_0000]
  }

  /** The two length bytes: the second is derived from the already masked first one. */
  function DataLenBytes(len: int): seq<int>
  {
    [len % 0x100, (len % 0x100) / 0x100]
  }

  /** Little-endian value of a byte sequence. */
  function LittleEndian(s: seq<int>): int
  {
    if s == [] then 0 else s[0] + 0x100 * LittleEndian(s[1..])
  }

  /** The bytes `_append_data` appends, or the exception it raises. */
  function PayloadBytes(d: Payload): Result<seq<int>>
  {
    match d
    case NoData => Ok([])
    case Int(v) => if IsByte(v) then Ok([v]) else Err(ByteOutOfRange(DataField))
    case List(items) =>
      if |items| != 1 then Err(BadListPayload(|items|))
      else if IsByte(items[0]) then Ok(items)
      else Err(ByteOutOfRange(DataField))
  }

  predicate ValidPayload(d: Payload) { PayloadBytes(d).Ok? }

  /** Python's `sum` over a list of ints. */
  function Sum(s: seq<int>): int
  {
    if s == [] then 0 else s[0] + Sum(s[1..])
  }

  /** `msg[3:]`: the bytes the checksum covers. */
  function Drop3(s: seq<int>): seq<int> { if |s| >= 3 then s[3..] else [] }

  /** The unmasked checksum `c` of `_append_checksum`. */
  function Checksum(body: seq<int>): int { Sum(Drop3(body)) + ChecksumBias }

  /** The values of bytes 0..17 once ack, sequence number and port have been accepted. */
  function Head(q: Request): seq<int>
  {
    Marker(q.isCmd) + [q.ack] + [q.serno] + [Src] + [Dest] + [CardType] + [q.port - 1]
    + BoardAddr(q.isCmd) + [CmdType(q.isWrite)] + [Reserved]
    + RegAddrBytes(q.regAddr) + DataLenBytes(q.dataLen)
  }

  /** One run of `generate`, append by append, stopping at the first append that raises. */
  function Trace(q: Request): Outcome
  {
    if !IsByte(q.ack) then Outcome(Marker(q.isCmd), Err(ByteOutOfRange(AckField)))
    else if !IsByte(q.serno) then
      Outcome(Marker(q.isCmd) + [q.ack], Err(ByteOutOfRange(SernoField)))
    else if !IsByte(q.port - 1) then
      Outcome(Marker(q.isCmd) + [q.ack] + [q.serno] + [Src] + [Dest] + [CardType],
              Err(ByteOutOfRange(PortField)))
    else
      match PayloadBytes(q.data)
      case Err(e) => Outcome(Head(q), Err(e))
      case Ok(p) =>
        var body := Head(q) + p;
        var c := Checksum(body);
        if !IsByte(c / 0x100) then
          Outcome(body + [c % 0x100], Err(ByteOutOfRange(ChecksumField)))
        else
          Outcome(body + [c % 0x100, c / 0x100], Ok(body + [c % 0x100, c / 0x100]))
  }

  /** What `generate` returns (Ok) or raises (Err). */
  function Encode(q: Request): Result<seq<int>>
  {
    Trace(q).result
  }

  /** The fields a well-formed frame carries. */
  datatype Decoded = Decoded(
    isCmd: bool, ack: int, serno: int, port: int, isWrite: bool,
    regAddr: int, dataLen: int, payload: seq<int>)

  /**
    Reads a frame back: a reference definition of the layout, independent of
    the order of appends. Rejects anything that is not a well-formed frame.
  */
  function Decode(f: seq<int>): Option<Decoded>
  {
    if |f| < HeadLength + 2 || !AllBytes(f) then None
    else
      var isCmd := f[0] == 0x55;
      var n := |f|;
      if f[..2] != Marker(isCmd) || f[4..7] != [Src, Dest, CardType]
         || f[8..10] != BoardAddr(isCmd) || f[10] > 1 || f[11] != Reserved || f[17] != 0
      then None
      else if f[n - 2] + 0x100 * f[n - 1] != Sum(f[3..n - 2]) + ChecksumBias then None
      else Some(Decoded(isCmd, f[2], f[3], f[7] + 1, f[10] == 1,
                        LittleEndian(f[12..16]), LittleEndian(f[16..18]), f[HeadLength..n - 2]))
  }

  // ---------------------------------------------------------------------
  // Byte arithmetic

  /** A sum of bytes is at most 255 per byte. */
  lemma {:induction false} SumOfBytes(s: seq<int>)
    requires AllBytes(s)
    ensures 0 <= Sum(s) <= 0xFF * |s|
  {
    if s != [] {
      assert AllBytes(s[1..]) by {
        forall i | 0 <= i < |s[1..]| ensures IsByte(s[1..][i]) { assert s[1..][i] == s[i + 1]; }
      }
      SumOfBytes(s[1..]);
    }
  }

  /** The sum of two runs of bytes laid end to end. */
  lemma {:induction false} SumConcat(a: seq<int>, b: seq<int>)
    ensures Sum(a + b) == Sum(a) + Sum(b)
  {
    if a != [] {
      assert (a + b)[1..] == a[1..] + b;
      SumConcat(a[1..], b);
    } else {
      assert a + b == b;
    }
  }

  /** Unfolds `LittleEndian` on a sequence of four values. */
  lemma LittleEndian4(b: seq<int>)
    requires |b| == 4
    ensures LittleEndian(b) == b[0] + 0x100 * b[1] + 0x1_0000 * b[2] + 0x100_0000 * b[3]
  {
    var t3 := b[3..];
    assert LittleEndian(t3[1..]) == 0 by { assert t3[1..] == []; }
    assert LittleEndian(t3) == b[3];
    assert b[2..][1..] == t3;
    assert LittleEndian(b[2..]) == b[2] + 0x100 * b[3];
    assert b[1..][1..] == b[2..];
    assert LittleEndian(b[1..]) == b[1] + 0x100 * (b[2] + 0x100 * b[3]);
  }

  /** Bytes 12..15 hold the register address modulo 2^32, little-endian. */
  lemma RegAddrRoundTrip(reg: int)
    ensures AllBytes(RegAddrBytes(reg))
    ensures LittleEndian(RegAddrBytes(reg)) == reg % Word32
  {
    var b := RegAddrBytes(reg);
    var m := reg % Word32;
    var q := reg / Word32;
    assert reg % 0x100 == m % 0x100 by { ModShift(0x100_0000 * q, m, 0x100); }
    assert reg % 0x1_0000 == m % 0x1_0000 by { ModShift(0x1_0000 * q, m, 0x1_0000); }
    assert reg % 0x100_0000 == m % 0x100_0000 by { ModShift(0x100 * q, m, 0x100_0000); }
    LittleEndian4(b);
    Mod256Split(m);
  }

  lemma ModShift(k: int, m: int, d: int)
    requires d > 0
    ensures (d * k + m) % d == m % d
  {
    var x := d * k + m;
    var r, r' := m % d, x % d;
    var j, j' := k + m / d, x / d;
    assert x == d * j + r && x == d * j' + r';
    assert d * (j - j') == r' - r;
    MulAwayFromZero(d, j - j');
  }

  lemma MulAwayFromZero(d: int, t: int)
    ensures d > 0 && t >= 1 ==> d * t >= d
    ensures d > 0 && t <= -1 ==> d * t <= -d
  {
    if d > 0 && t >= 1 {
      assert d * t == d + d * (t - 1);
    } else if d > 0 && t <= -1 {
      assert d * t == -d + d * (t + 1);
    }
  }

  lemma Mod256Split(m: int)
    requires 0 <= m < Word32
    ensures m % 0x100 + 0x100 * ((m % 0x1_0000) / 0x100)
            + 0x1_0000 * ((m % 0x100_0000) / 0x1_0000) + 0x100_0000 * (m / 0x100_0000) == m
  {
    var a := m % 0x100_0000;
    var b := a % 0x1_0000;
    assert m == 0x100_0000 * (m / 0x100_0000) + a;
    assert a == 0x1_0000 * (a / 0x1_0000) + b;
    assert b == 0x100 * (b / 0x100) + b % 0x100;
    assert b == m % 0x1_0000;
    assert b % 0x100 == m % 0x100;
  }

  /** Re-encoding the four register bytes of a frame gives them back. */
  lemma RegAddrOfBytes(b: seq<int>)
    requires |b| == 4 && AllBytes(b)
    ensures 0 <= LittleEndian(b) < Word32
    ensures RegAddrBytes(LittleEndian(b)) == b
  {
    LittleEndian4(b);
    assert IsByte(b[0]) && IsByte(b[1]) && IsByte(b[2]) && IsByte(b[3]);
    RegAddrOfByteValues(b[0], b[1], b[2], b[3]);
    assert b == [b[0], b[1], b[2], b[3]];
  }

  lemma RegAddrOfByteValues(b0: int, b1: int, b2: int, b3: int)
    requires IsByte(b0) && IsByte(b1) && IsByte(b2) && IsByte(b3)
    ensures var x := b0 + 0x100 * b1 + 0x1_0000 * b2 + 0x100_0000 * b3;
      0 <= x < Word32 && RegAddrBytes(x) == [b0, b1, b2, b3]
  {
    var x1 := b0 + 0x100 * b1;
    var x2 := x1 + 0x1_0000 * b2;
    var x := x2 + 0x100_0000 * b3;
    SplitAt(b0, b1 + 0x100 * b2 + 0x1_0000 * b3, 0x100);
    SplitAt(x1, b2 + 0x100 * b3, 0x1_0000);
    SplitAt(x2, b3, 0x100_0000);
    SplitAt(b0, b1, 0x100);
    SplitAt(x1, b2, 0x1_0000);
    SplitAt(x, 0, Word32);
  }

  /** Dividing `lo + d * hi` by `d`, for `lo` below `d`, gives back `hi` and `lo`. */
  lemma SplitAt(lo: int, hi: int, d: int)
    requires 0 <= lo < d
    ensures (lo + d * hi) % d == lo && (lo + d * hi) / d == hi
  {
    ModShift(hi, lo, d);
    DivExact(hi, lo, d);
  }

  lemma DivExact(k: int, m: int, d: int)
    requires 0 <= m < d
    ensures (m + d * k) / d == k
  {
    ModShift(k, m, d);
    assert (d * k + m) % d == m;
    assert m + d * k == d * ((m + d * k) / d) + m;
    MulAwayFromZero(d, (m + d * k) / d - k);
  }

  /** The length field: byte 16 is the masked length, byte 17 is always zero. */
  lemma DataLenQuirk(len: int)
    ensures DataLenBytes(len)[0] == len % 0x100
    ensures DataLenBytes(len)[1] == 0
    ensures LittleEndian(DataLenBytes(len)) == len % 0x100
  {
    var b := DataLenBytes(len);
    assert LittleEndian(b[1..][1..]) == 0 by { assert b[1..][1..] == []; }
  }
}

module FrameProperties {
  import opened Frame

  /** The payload bytes of a request whose payload is accepted. */
  function PayloadOf(q: Request): seq<int>
    requires ValidPayload(q.data)
  {
    PayloadBytes(q.data).value
  }

  /** The request that `generate` would need to produce a decoded frame with at most one payload byte. */
  function RequestFor(d: Decoded): Request
    requires |d.payload| <= 1
  {
    Request(d.serno, d.regAddr, d.dataLen, if d.payload == [] then NoData else Int(d.payload[0]),
            d.port, d.isCmd, d.isWrite, d.ack)
  }

  /** Accepted payloads are at most one byte long and are bytes. */
  lemma PayloadShape(d: Payload)
    requires ValidPayload(d)
    ensures |PayloadBytes(d).value| <= 1 && AllBytes(PayloadBytes(d).value)
    ensures d.NoData? <==> PayloadBytes(d).value == []
  {
  }

  /** `_append_data`: None appends nothing, an int in 0..255 (0 included) appends itself, a one-element list its element. */
  lemma PayloadCases(d: Payload)
    ensures d.NoData? ==> PayloadBytes(d) == Ok([])
    ensures d.Int? ==> (PayloadBytes(d).Ok? <==> IsByte(d.v))
    ensures d.Int? && IsByte(d.v) ==> PayloadBytes(d).value == [d.v]
    ensures d.List? ==> (PayloadBytes(d).Ok? <==> |d.items| == 1 && IsByte(d.items[0]))
    ensures d.List? && |d.items| == 1 && IsByte(d.items[0]) ==> PayloadBytes(d).value == [d.items[0]]
    ensures d.List? && |d.items| != 1 ==> PayloadBytes(d) == Err(BadListPayload(|d.items|))
  {
  }

  /** Bytes 0..17 are 18 bytes once ack, sequence number and port are accepted. */
  lemma HeadIsBytes(q: Request)
    requires IsByte(q.ack) && IsByte(q.serno) && IsByte(q.port - 1)
    ensures |Head(q)| == HeadLength && AllBytes(Head(q))
  {
    RegAddrRoundTrip(q.regAddr);
    var h := Head(q);
    forall i | 0 <= i < |h| ensures IsByte(h[i]) {
      if 12 <= i < 16 { assert h[i] == RegAddrBytes(q.regAddr)[i - 12]; }
    }
  }

  /** The checksum of a frame with at most one payload byte stays below 0x10000. */
  lemma ChecksumBound(body: seq<int>)
    requires AllBytes(body) && HeadLength <= |body| <= HeadLength + 1
    ensures ChecksumBias <= Checksum(body) <= ChecksumBias + 16 * 0xFF < 0x1_0000
    ensures IsByte(Checksum(body) / 0x100)
  {
    var t := Drop3(body);
    assert AllBytes(t) by {
      forall i | 0 <= i < |t| ensures IsByte(t[i]) { assert t[i] == body[i + 3]; }
    }
    SumOfBytes(t);
  }

  /**
    The checksum covers every byte from the sequence number on: the marker
    and the ack do not enter it, the payload does.
  */
  lemma ChecksumOfHead(q: Request, p: seq<int>)
    ensures Checksum(Head(q) + p)
      == ChecksumBias + q.serno + Src + Dest + CardType + (q.port - 1)
         + Sum(BoardAddr(q.isCmd)) + CmdType(q.isWrite) + Reserved
         + Sum(RegAddrBytes(q.regAddr)) + Sum(DataLenBytes(q.dataLen)) + Sum(p)
  {
    var body := Head(q) + p;
    var h1 := Marker(q.isCmd) + [q.ack];
    SumOfPieces(q, p);
    assert body[..3] == h1;
    assert body[..3] + Drop3(body) == body;
    SumConcat(body[..3], Drop3(body));
    SumConcat(Marker(q.isCmd), [q.ack]);
  }

  /** `Sum` taken field by field over a head followed by a payload. */
  lemma SumOfPieces(q: Request, p: seq<int>)
    ensures Sum(Head(q) + p)
      == Sum(Marker(q.isCmd)) + q.ack + q.serno + Src + Dest + CardType + (q.port - 1)
         + Sum(BoardAddr(q.isCmd)) + CmdType(q.isWrite) + Reserved
         + Sum(RegAddrBytes(q.regAddr)) + Sum(DataLenBytes(q.dataLen)) + Sum(p)
  {
    var h1 := Marker(q.isCmd) + [q.ack];
    var h2 := h1 + [q.serno];
    var h3 := h2 + [Src];
    var h4 := h3 + [Dest];
    var h5 := h4 + [CardType];
    var h6 := h5 + [q.port - 1];
    var h7 := h6 + BoardAddr(q.isCmd);
    var h8 := h7 + [CmdType(q.isWrite)];
    var h9 := h8 + [Reserved];
    var h10 := h9 + RegAddrBytes(q.regAddr);
    SumConcat(h10 + DataLenBytes(q.dataLen), p);
    SumConcat(h10, DataLenBytes(q.dataLen));
    SumConcat(h9, RegAddrBytes(q.regAddr));
    SumConcat(h8, [Reserved]);
    SumConcat(h7, [CmdType(q.isWrite)]);
    SumConcat(h6, BoardAddr(q.isCmd));
    SumConcat(h5, [q.port - 1]);
    SumConcat(h4, [CardType]);
    SumConcat(h3, [Dest]);
    SumConcat(h2, [Src]);
    SumConcat(h1, [q.serno]);
    SumConcat(Marker(q.isCmd), [q.ack]);
  }

  /**
    `generate` returns a frame exactly when ack and sequence number are bytes,
    the port is 1..256 and the payload is None, an int byte or a one-byte list;
    the checksum high byte never overflows.
  */
  lemma {:induction false} EncodeSucceeds(q: Request)
    ensures Encode(q).Ok? <==>
      IsByte(q.ack) && IsByte(q.serno) && 1 <= q.port <= 0x100 && ValidPayload(q.data)
  {
    if IsByte(q.ack) && IsByte(q.serno) && 1 <= q.port <= 0x100 && ValidPayload(q.data) {
      HeadIsBytes(q);
      PayloadShape(q.data);
      var body := Head(q) + PayloadOf(q);
      assert AllBytes(body) by {
        forall i | 0 <= i < |body| ensures IsByte(body[i]) {
          if i >= HeadLength { assert body[i] == PayloadOf(q)[i - HeadLength]; }
        }
      }
      ChecksumBound(body);
    }
  }

  /** The error `generate` raises is the first offending field, in append order. */
  lemma EncodeError(q: Request)
    ensures !IsByte(q.ack) ==> Encode(q) == Err(ByteOutOfRange(AckField))
    ensures IsByte(q.ack) && !IsByte(q.serno) ==> Encode(q) == Err(ByteOutOfRange(SernoField))
    ensures IsByte(q.ack) && IsByte(q.serno) && !(1 <= q.port <= 0x100) ==>
      Encode(q) == Err(ByteOutOfRange(PortField))
    ensures IsByte(q.ack) && IsByte(q.serno) && 1 <= q.port <= 0x100 && !ValidPayload(q.data) ==>
      Encode(q) == PayloadBytes(q.data)
  {
  }

  /** Positions 0..17 of the head. */
  lemma HeadLayout(q: Request)
    ensures var h := Head(q);
      && |h| == HeadLength
      && h[..2] == Marker(q.isCmd)
      && h[2] == q.ack && h[3] == q.serno
      && h[4..7] == [Src, Dest, CardType]
      && h[7] == q.port - 1
      && h[8..10] == BoardAddr(q.isCmd)
      && h[10] == CmdType(q.isWrite) && h[11] == Reserved
      && h[12..16] == RegAddrBytes(q.regAddr)
      && h[16..HeadLength] == DataLenBytes(q.dataLen)
  {
  }

  /** A generated frame is the head, the payload, then the low and high checksum bytes, all bytes. */
  lemma EncodedFrame(q: Request)
    requires Encode(q).Ok?
    ensures ValidPayload(q.data)
    ensures var body := Head(q) + PayloadOf(q);
      var c := Checksum(body);
      && AllBytes(body) && |body| == HeadLength + |PayloadOf(q)|
      && ChecksumBias <= c < 0x1_0000
      && Encode(q).value == body + [c % 0x100, c / 0x100]
  {
    EncodeSucceeds(q);
    HeadIsBytes(q);
    PayloadShape(q.data);
    var p := PayloadOf(q);
    var body := Head(q) + p;
    assert AllBytes(body) by {
      forall i | 0 <= i < |body| ensures IsByte(body[i]) {
        if i >= HeadLength { assert body[i] == p[i - HeadLength]; }
      }
    }
    ChecksumBound(body);
  }

  /**
    Every byte position of a generated frame: marker, ack, sequence number,
    FE 00 01, port - 1, board address, read/write code, reserved byte,
    little-endian register address, masked length, payload, checksum.
  */
  lemma {:induction false} FrameLayout(q: Request)
    requires Encode(q).Ok?
    ensures ValidPayload(q.data)
    ensures var f, p := Encode(q).value, PayloadOf(q);
      && |f| == HeadLength + |p| + 2
      && AllBytes(f)
      && f[..2] == Marker(q.isCmd)
      && f[2] == q.ack && f[3] == q.serno
      && f[4..7] == [0xFE, 0x00, 0x01]
      && f[7] == q.port - 1
      && f[8..10] == BoardAddr(q.isCmd)
      && f[10] == (if q.isWrite then 1 else 0) && f[11] == 0
      && f[12..16] == RegAddrBytes(q.regAddr)
      && LittleEndian(f[12..16]) == q.regAddr % Word32
      && f[16] == q.dataLen % 0x100 && f[17] == 0
      && f[HeadLength..|f| - 2] == p
      && f[|f| - 2] + 0x100 * f[|f| - 1] == Sum(f[3..|f| - 2]) + ChecksumBias
  {
    EncodedFrame(q);
    HeadLayout(q);
    RegAddrRoundTrip(q.regAddr);
    DataLenQuirk(q.dataLen);
    var p := PayloadOf(q);
    var h := Head(q);
    var body := h + p;
    var c := Checksum(body);
    var f := Encode(q).value;
    var n := |f|;
    assert f[..n - 2] == body;
    assert f[..HeadLength] == h;
    assert AllBytes(f) by {
      forall i | 0 <= i < n ensures IsByte(f[i]) {
        if i < n - 2 { assert f[i] == body[i]; }
      }
    }
    assert f[3..n - 2] == Drop3(body);
    assert f[..2] == h[..2];
    assert f[4..7] == h[4..7];
    assert f[8..10] == h[8..10];
    assert f[12..16] == h[12..16];
    assert f[16..HeadLength] == h[16..HeadLength];
    assert f[HeadLength..n - 2] == p;
  }

  /** A frame is 20 bytes plus its payload: 21 for an int or one-element list, 20 for None. */
  lemma FrameLength(q: Request)
    requires Encode(q).Ok?
    ensures q.data.NoData? ==> |Encode(q).value| == 20
    ensures !q.data.NoData? ==> |Encode(q).value| == 21
  {
    FrameLayout(q);
    PayloadShape(q.data);
  }

  /** Changing only the payload changes nothing in bytes 0..17. */
  lemma PayloadOnlyChangesTail(q: Request, d: Payload)
    requires Encode(q).Ok? && Encode(q.(data := d)).Ok?
    ensures Encode(q).value[..HeadLength] == Encode(q.(data := d)).value[..HeadLength]
  {
    var q' := q.(data := d);
    EncodeSucceeds(q);
    EncodeSucceeds(q');
    PayloadShape(q.data);
    PayloadShape(d);
    assert Head(q) == Head(q');
    assert Encode(q).value[..HeadLength] == Head(q);
    assert Encode(q').value[..HeadLength] == Head(q');
  }

  /** Decoding a generated frame gives back its fields: the register modulo 2^32, the length modulo 256. */
  lemma {:induction false} EncodeDecode(q: Request)
    requires Encode(q).Ok?
    ensures ValidPayload(q.data)
    ensures Decode(Encode(q).value) ==
      Some(Decoded(q.isCmd, q.ack, q.serno, q.port, q.isWrite,
                   q.regAddr % Word32, q.dataLen % 0x100, PayloadOf(q)))
  {
    FrameLayout(q);
    var f := Encode(q).value;
    assert (f[0] == 0x55) == q.isCmd by { assert f[0] == f[..2][0]; }
    assert (f[10] == 1) == q.isWrite;
    assert LittleEndian(f[16..HeadLength]) == q.dataLen % 0x100 by {
      DataLenQuirk(q.dataLen);
      assert f[16..HeadLength] == DataLenBytes(q.dataLen);
    }
  }

  /** What `Decode` accepting a frame says about its bytes. */
  lemma DecodedFields(f: seq<int>)
    requires Decode(f).Some?
    ensures var d, n := Decode(f).value, |f|;
      && n >= HeadLength + 2 && AllBytes(f)
      && f[..2] == Marker(d.isCmd)
      && f[2] == d.ack && f[3] == d.serno
      && f[4] == Src && f[5] == Dest && f[6] == CardType
      && f[7] == d.port - 1
      && f[8..10] == BoardAddr(d.isCmd)
      && f[10] == CmdType(d.isWrite) && f[11] == Reserved
      && f[12..16] == RegAddrBytes(d.regAddr)
      && f[16..HeadLength] == DataLenBytes(d.dataLen)
      && d.payload == f[HeadLength..n - 2]
      && f[n - 2] + 0x100 * f[n - 1] == Sum(f[3..n - 2]) + ChecksumBias
  {
    var d := Decode(f).value;
    assert f[4] == f[4..7][0] && f[5] == f[4..7][1] && f[6] == f[4..7][2];
    assert IsByte(f[10]) && IsByte(f[16]);
    var t := f[16..HeadLength];
    assert LittleEndian(t) == f[16] by {
      assert LittleEndian(t[1..][1..]) == 0 by { assert t[1..][1..] == []; }
    }
    assert t == [f[16], f[17]];
    DataLenQuirk(d.dataLen);
    RegAddrOfBytes(f[12..16]);
  }

  /** The first 18 values of a sequence, cut the way `Head` is built. */
  lemma HeadPieces(f: seq<int>)
    requires |f| >= HeadLength
    ensures f[..HeadLength] == f[..2] + [f[2]] + [f[3]] + [f[4]] + [f[5]] + [f[6]] + [f[7]]
      + f[8..10] + [f[10]] + [f[11]] + f[12..16] + f[16..HeadLength]
  {
  }

  /** Bytes 0..17 of a well-formed frame are the head `generate` builds from the decoded fields. */
  lemma DecodedHead(f: seq<int>)
    requires Decode(f).Some?
    ensures var d := Decode(f).value;
      f[..HeadLength] == Head(Request(d.serno, d.regAddr, d.dataLen, NoData, d.port, d.isCmd, d.isWrite, d.ack))
  {
    DecodedFields(f);
    HeadPieces(f);
  }

  /** The request rebuilt from a decoded frame is accepted and reproduces its head and payload. */
  lemma DecodedRequest(f: seq<int>)
    requires Decode(f).Some? && |Decode(f).value.payload| <= 1
    ensures var d := Decode(f).value; var q := RequestFor(d);
      Encode(q).Ok? && PayloadOf(q) == d.payload && Head(q) == f[..HeadLength]
  {
    var d := Decode(f).value;
    var q := RequestFor(d);
    DecodedFields(f);
    if d.payload != [] {
      assert d.payload[0] == f[HeadLength];
      assert d.payload == [d.payload[0]];
    }
    assert PayloadBytes(q.data) == Ok(d.payload);
    assert IsByte(f[2]) && IsByte(f[3]) && IsByte(f[7]);
    EncodeSucceeds(q);
    DecodedHead(f);
  }

  /** Every well-formed frame with at most one payload byte is what `generate` builds from its decoded fields. */
  lemma {:induction false} DecodeEncode(f: seq<int>)
    requires Decode(f).Some? && |Decode(f).value.payload| <= 1
    ensures Encode(RequestFor(Decode(f).value)) == Ok(f)
  {
    var d := Decode(f).value;
    var q := RequestFor(d);
    var n := |f|;
    DecodedRequest(f);
    EncodedFrame(q);
    DecodedFields(f);
    FramePieces(f);
    var body := Head(q) + d.payload;
    assert body == f[..n - 2];
    assert Drop3(body) == f[3..n - 2];
    assert IsByte(f[n - 2]);
    SplitAt(f[n - 2], f[n - 1], 0x100);
  }

  /** A frame is its head, its payload and its two checksum bytes. */
  lemma FramePieces(f: seq<int>)
    requires |f| >= HeadLength + 2
    ensures f[..|f| - 2] == f[..HeadLength] + f[HeadLength..|f| - 2]
    ensures f == f[..|f| - 2] + [f[|f| - 2], f[|f| - 1]]
  {
  }
}
