/**
 * The frame layer of websocket_server.rb as values: the header fields, one
 * frame as `read` takes it off the connection, the unmasking of section 5.3
 * of RFC 6455, the opcode dispatch, and the frames `send` and `pong` write.
 */
module FrameCodec {
  import opened Bytes

  /** Why a read stops: the stream ended inside a frame, or `data += c_data` met a non-Array. */
  datatype Error = EndOfInput | NotAnArray

  datatype Result<+T> = Ok(value: T) | Err(error: Error)

  /** One frame after unmasking; `fin` and `opcode` are the Integers `read` computes. */
  datatype Frame = Frame(fin: nat, opcode: nat, payload: seq<byte>)

  /** What `read` returns: the symbol it yields with its data. */
  datatype Message =
    | Cont(fin: nat, data: seq<byte>)     // :cont_0 and :cont_1
    | Text(data: seq<byte>)               // :text (the bytes, not validated as UTF-8)
    | Binary(data: seq<byte>)             // :binary
    | Closed                              // :closed, nil
    | Ping                                // :ping, nil
    | Other(opcode: nat, data: seq<byte>) // the raw opcode with the data

  // The header fields of RFC 6455 section 5.2, as arithmetic on the two first octets.

  function FinBit(b0: byte): (fin: nat) { b0 / 128 }

  function Opcode(b0: byte): (opcode: nat) { b0 % 16 }

  function MaskBit(b1: byte): (mask: nat) { b1 / 128 }

  function LengthIndicator(b1: byte): (indicator: nat) { b1 % 128 }

  /** Octets of extended payload length that follow a length indicator. */
  function ExtendedWidth(indicator: nat): (width: nat)
  {
    if indicator == 126 then 2 else if indicator == 127 then 8 else 0
  }

  /** Section 5.3: octet i of the payload is combined with octet i mod 4 of the key. */
  function Unmask(payload: seq<byte>, mask: seq<byte>): (r: seq<byte>)
    requires |mask| == 4
  {
    seq(|payload|, i requires 0 <= i < |payload| => XorByte(payload[i], mask[i % 4]))
  }

  /**
   * The frame `read` takes from the front of `s` and the number of octets it
   * consumes. The four mask octets are read whatever the MASK bit says: the
   * source tests the Integer 0 or 1, and both are true in Ruby. An empty
   * payload never uses the mask, so a frame of length 0 succeeds even when
   * the input ends inside its mask key (`getbyte` then yields nils that no
   * octet is combined with).
   */
  function DecodeFrame(s: seq<byte>): (r: Result<(Frame, nat)>)
  {
    if |s| < 2 then Err(EndOfInput)
    else
      var width := ExtendedWidth(LengthIndicator(s[1]));
      if |s| < 2 + width then Err(EndOfInput)
      else
        var length := if width == 0 then LengthIndicator(s[1]) else BigEndian(s[2..2 + width]);
        var start := 2 + width + 4;
        if length == 0 then Ok((Frame(FinBit(s[0]), Opcode(s[0]), []), if |s| < start then |s| else start))
        else if |s| < start + length then Err(EndOfInput)
        else Ok((Frame(FinBit(s[0]), Opcode(s[0]), Unmask(s[start..start + length], s[2 + width..start])),
                 start + length))
  }

  /** How `read` labels a (possibly reassembled) payload by its opcode. */
  function Dispatch(opcode: nat, fin: nat, data: seq<byte>): (m: Message)
  {
    if opcode == 0 then Cont(fin, data)
    else if opcode == 1 then Text(data)
    else if opcode == 2 then Binary(data)
    else if opcode == 8 then Closed
    else if opcode == 9 then Ping
    else Other(opcode, data)
  }

  /** The frame `pong` writes: FIN set, opcode 0xA, empty payload. */
  const PongFrame: seq<byte> := [0x8A, 0x00]

  /**
   * The octets `send` writes for `data`. Above 125 octets the length is packed
   * with a single `C` directive, so only its low octet is written.
   */
  function EncodeText(data: seq<byte>): (r: seq<byte>)
  {
    var size := |data|;
    if size < 126 then [0x81, size] + data
    else if size <= 65535 then [0x81, 126, size % 256] + data
    else [0x81, 127, size % 256] + data
  }

  /** A server text frame as section 5.2 lays it out: unmasked, minimal big-endian length. */
  function StandardTextFrame(data: seq<byte>): (frame: seq<byte>)
    requires |data| < Pow256(8)
  {
    var size := |data|;
    if size < 126 then [0x81, size] + data
    else if size <= 65535 then [0x81, 126] + ToBigEndian(size, 2) + data
    else [0x81, 127] + ToBigEndian(size, 8) + data
  }

  /** A masked client frame as section 5.2 lays it out, with the minimal length encoding. */
  function ClientFrame(fin: nat, opcode: nat, mask: seq<byte>, payload: seq<byte>): (frame: seq<byte>)
    requires fin < 2 && opcode < 16 && |mask| == 4 && |payload| < Pow256(8)
  {
    var size := |payload|;
    var lengthField :=
      if size < 126 then [128 + size]
      else if size <= 65535 then [128 + 126] + ToBigEndian(size, 2)
      else [128 + 127] + ToBigEndian(size, 8);
    [fin * 128 + opcode] + lengthField + mask + Unmask(payload, mask)
  }

  // ---------------------------------------------------------------------------
  // Properties of the decoder

  /** Masking and unmasking are the same operation: applied twice it is the identity. */
  lemma UnmaskTwice(payload: seq<byte>, mask: seq<byte>)
    requires |mask| == 4
    ensures Unmask(Unmask(payload, mask), mask) == payload
  {
    var once := Unmask(payload, mask);
    forall i | 0 <= i < |payload|
      ensures Unmask(once, mask)[i] == payload[i]
    {
      XorInvolution(payload[i], mask[i % 4]);
    }
  }

  /**
   * Bytes consumed by one frame: 2 header octets, 0, 2 or 8 of extended
   * length, always 4 of mask, then the payload; a 126 indicator means a
   * 16-bit big-endian length, 127 a 64-bit one. A frame fails only when the
   * input ends before all of these octets, except that a frame of length 0
   * stops at the end of the input wherever that falls after its length.
   */
  lemma DecodeFrameLength(s: seq<byte>)
    ensures DecodeFrame(s).Ok? <==>
              2 <= |s| &&
              var width := ExtendedWidth(LengthIndicator(s[1]));
              2 + width <= |s| &&
              var length := if width == 0 then LengthIndicator(s[1]) else BigEndian(s[2..2 + width]);
              (length == 0 || 2 + width + 4 + length <= |s|)
    ensures DecodeFrame(s).Err? ==> DecodeFrame(s).error == EndOfInput
    ensures DecodeFrame(s).Ok? ==>
              var (f, n) := DecodeFrame(s).value;
              var indicator := LengthIndicator(s[1]);
              var header := 2 + ExtendedWidth(indicator) + 4;
              && f.fin == s[0] / 128 && f.opcode == s[0] % 16
              && (indicator < 126 ==> |f.payload| == indicator)
              && (indicator == 126 ==> |f.payload| == BigEndian(s[2..4]) < 65536)
              && (indicator == 127 ==> |f.payload| == BigEndian(s[2..10]) < Pow256(8))
              && (n == header + |f.payload| || (f.payload == [] && n == |s| < header))
              && 2 <= n <= |s|
  {
    if DecodeFrame(s).Ok? {
      assert Pow256(2) == 65536;
    }
  }

  /** Only the FIN bit and the low nibble matter: the three RSV bits are ignored. */
  lemma ReservedBitsIgnored(b0: byte, rsv: nat)
    requires rsv < 8
    requires b0 / 16 % 8 == 0
    ensures FinBit(b0 + rsv * 16) == FinBit(b0) && Opcode(b0 + rsv * 16) == Opcode(b0)
  {
  }

  /** Round trip: a masked client frame decodes to its fields and its original payload. */
  lemma DecodeClientFrame(fin: nat, opcode: nat, mask: seq<byte>, payload: seq<byte>, rest: seq<byte>)
    requires fin < 2 && opcode < 16 && |mask| == 4 && |payload| < Pow256(8)
    ensures DecodeFrame(ClientFrame(fin, opcode, mask, payload) + rest)
         == Ok((Frame(fin, opcode, payload), |ClientFrame(fin, opcode, mask, payload)|))
  {
    var frame := ClientFrame(fin, opcode, mask, payload);
    var s := frame + rest;
    var size := |payload|;
    var width := if size < 126 then 0 else if size <= 65535 then 2 else 8;
    assert Pow256(2) == 65536;
    assert s[0] == fin * 128 + opcode;
    assert LengthIndicator(s[1]) == (if size < 126 then size else if size <= 65535 then 126 else 127);
    assert |frame| == 2 + width + 4 + size;
    if width != 0 {
      assert s[2..2 + width] == ToBigEndian(size, width);
    }
    assert s[2 + width..2 + width + 4] == mask;
    assert s[2 + width + 4..2 + width + 4 + size] == Unmask(payload, mask);
    UnmaskTwice(payload, mask);
  }

  /** Opcode 0 keeps the FIN bit; opcode 1 hands the payload over unchanged; 8 and 9 carry no data. */
  lemma DispatchCases(opcode: nat, fin: nat, data: seq<byte>)
    ensures opcode == 0 <==> Dispatch(opcode, fin, data) == Cont(fin, data)
    ensures opcode == 1 <==> Dispatch(opcode, fin, data) == Text(data)
    ensures opcode == 2 <==> Dispatch(opcode, fin, data) == Binary(data)
    ensures opcode == 8 <==> Dispatch(opcode, fin, data) == Closed
    ensures opcode == 9 <==> Dispatch(opcode, fin, data) == Ping
    ensures opcode !in {0, 1, 2, 8, 9} <==> Dispatch(opcode, fin, data) == Other(opcode, data)
  {
  }

  // ---------------------------------------------------------------------------
  // Properties of the encoder

  /**
   * The header of every frame `send` writes: FIN set, text opcode, no mask,
   * indicator `size`, 126 or 127; after one octet of (truncated) extended
   * length for large payloads, the data follows unchanged.
   */
  lemma EncodeTextLayout(data: seq<byte>)
    ensures var r := EncodeText(data); var size := |data|;
      && r[0] == 0x81 && FinBit(r[0]) == 1 && Opcode(r[0]) == 1 && MaskBit(r[1]) == 0
      && (size < 126 <==> |r| == size + 2)
      && (size < 126 ==> r == [0x81, size] + data && LengthIndicator(r[1]) == size)
      && (126 <= size <= 65535 <==> (|r| == size + 3 && LengthIndicator(r[1]) == 126))
      && (65535 < size <==> LengthIndicator(r[1]) == 127)
      && (126 <= size ==> r[2] == size % 256 && r[3..] == data)
  {
  }

  /** `send` writes a standard frame exactly when the payload is below 126 octets. */
  lemma EncodeTextStandardIff(data: seq<byte>)
    requires |data| < Pow256(8)
    ensures EncodeText(data) == StandardTextFrame(data) <==> |data| < 126
  {
    assert Pow256(2) == 65536;
    if |data| >= 126 {
      assert |EncodeText(data)| == |data| + 3;
      assert |StandardTextFrame(data)| >= |data| + 4;
    }
  }

  /**
   * The decoder cannot read what the encoder writes: a short, non-empty
   * server frame has no mask key, so the decoder's four mask octets and the
   * payload overrun the frame. Only the empty frame reads back, as an empty
   * text frame, since its payload never needs the mask.
   */
  lemma ServerFrameUnreadable(data: seq<byte>)
    requires |data| < 126
    ensures 0 < |data| ==> DecodeFrame(EncodeText(data)) == Err(EndOfInput)
    ensures data == [] ==> DecodeFrame(EncodeText(data)) == Ok((Frame(1, 1, []), 2))
  {
  }

  /** The pong frame: FIN set, opcode 10, length 0. */
  lemma PongLayout()
    ensures |PongFrame| == 2
    ensures FinBit(PongFrame[0]) == 1 && Opcode(PongFrame[0]) == 10
    ensures MaskBit(PongFrame[1]) == 0 && LengthIndicator(PongFrame[1]) == 0
  {
  }
}
