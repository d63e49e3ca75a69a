/**
 * The `WebsocketServer` class: one connection, modelled as the octets the
 * peer sends (`input`, read from `cursor` on) and the octets written to it
 * (`output`). `accept` runs the handshake and the receive loop; the handler
 * block is represented by the list of messages it is given.
 */
module Server {
  import opened Bytes
  import opened BitString
  import opened FrameCodec
  import opened Reader
  import opened Handshake

  /** A whole run of `accept` on one connection. */
  datatype Run = Run(delivered: seq<Message>, outcome: Outcome, consumed: nat, written: seq<byte>, closed: bool)

  /**
   * What `accept` does with the octets `stream` of a fresh connection, with
   * `digest` standing for `Digest::SHA1.base64digest`.
   */
  function Session(stream: seq<byte>, digest: seq<byte> -> seq<byte>): (run: Run)
  {
    var request := ReadRequest(stream);
    match FindKey(request.text)
    case None => Run([], Rejected, request.consumed, [], true)
    case Some(key) =>
      var rx := Receive(stream[request.consumed..]);
      Run(rx.delivered, rx.outcome, request.consumed + rx.consumed,
          HandshakeResponse(digest(key + Guid)) + rx.written, false)
  }

  /**
   * Without a key the connection is closed, nothing is written and no frame
   * is read; with one, the 101 response built from key and GUID is written
   * first and the receive loop runs on the octets after the request.
   */
  lemma SessionHandshake(stream: seq<byte>, digest: seq<byte> -> seq<byte>)
    ensures var run := Session(stream, digest); var request := ReadRequest(stream);
      && (run.outcome == Rejected <==> forall q :: 0 <= q <= |request.text| ==> !KeyAt(request.text, q))
      && (run.outcome == Rejected ==> run.closed && run.written == [] && run.delivered == [] && run.consumed == request.consumed)
      && (run.outcome != Rejected ==>
            var key := FindKey(request.text).value;
            var response := HandshakeResponse(digest(key + Guid));
            && !run.closed && |response| <= |run.written| && run.written[..|response|] == response
            && run.written[|response|..] == Receive(stream[request.consumed..]).written
            && run.delivered == Receive(stream[request.consumed..]).delivered)
  {
    var request := ReadRequest(stream);
    FindKeyNone(request.text);
  }

  /** `Session` by the outcome of the key match, for the method that runs it. */
  lemma SessionCases(stream: seq<byte>, digest: seq<byte> -> seq<byte>)
    ensures var rq := ReadRequest(stream);
      FindKey(rq.text).None? ==> Session(stream, digest) == Run([], Rejected, rq.consumed, [], true)
    ensures var rq := ReadRequest(stream); var rx := Receive(stream[rq.consumed..]);
      FindKey(rq.text).Some? ==>
        Session(stream, digest) == Run(rx.delivered, rx.outcome, rq.consumed + rx.consumed,
                                       HandshakeResponse(digest(FindKey(rq.text).value + Guid)) + rx.written, false)
  {
  }

  /** One turn of the receive loop, from the octets `s` left after `k` consumed ones. */
  lemma ReceiveStep(s0: seq<byte>, s: seq<byte>, delivered: seq<Message>, k: nat, written: seq<byte>)
    requires var rx := Receive(s);
      Receive(s0) == Received(delivered + rx.delivered, rx.outcome, k + rx.consumed, written + rx.written)
    ensures var st := ReadSpec(s, true);
      && (st.result.Err? ==> Receive(s0) == Received(delivered, Failed(st.result.error), k + st.consumed, written + st.written))
      && (st.result == Ok(Closed) ==> Receive(s0) == Received(delivered, PeerClosed, k + st.consumed, written + st.written))
      && (st.result.Ok? && st.result.value != Closed ==>
            var m := st.result.value;
            var received := if m.Text? || m.Binary? then [m] else [];
            var rx := Receive(s[st.consumed..]);
            Receive(s0) == Received((delivered + received) + rx.delivered, rx.outcome,
                                    (k + st.consumed) + rx.consumed, (written + st.written) + rx.written))
  {
    var st := ReadSpec(s, true);
    if st.result.Err? {
      assert delivered + [] == delivered;
      assert Receive(s) == Received([], Failed(st.result.error), st.consumed, st.written);
    } else if st.result == Ok(Closed) {
      assert delivered + [] == delivered;
    } else {
      var m := st.result.value;
      var received := if m.Text? || m.Binary? then [m] else [];
      var rx := Receive(s[st.consumed..]);
      assert Receive(s) == Received(received + rx.delivered, rx.outcome, st.consumed + rx.consumed, st.written + rx.written);
      Regroup(delivered, received, rx.delivered);
      Regroup(written, st.written, rx.written);
    }
  }

  lemma SubSlice<T>(t: seq<T>, a: nat, b: nat, c: nat)
    requires a <= b <= c <= |t|
    ensures t[b..c] == t[a..][b - a..c - a]
  {
  }

  lemma SuffixOfSuffix<T>(t: seq<T>, a: nat, b: nat)
    requires a <= b <= |t|
    ensures t[b..] == t[a..][b - a..]
  {
  }

  lemma EmptySuffix<T>(a: seq<T>)
    ensures a + [] == a
  {
  }

  lemma Regroup<T>(a: seq<T>, b: seq<T>, c: seq<T>)
    ensures a + (b + c) == (a + b) + c
  {
  }

  class WebsocketServer {
    /** The port `TCPServer.new` would listen on. */
    const port: nat
    /** Whether `@connection` has been set by `accept`. */
    var connected: bool
    /** The octets the peer sends on the connection. */
    var input: seq<byte>
    /** How many of them have been read. */
    var cursor: nat
    /** The octets written to the connection. */
    var output: seq<byte>
    var closed: bool

    ghost predicate Valid()
      reads this
    {
      cursor <= |input|
    }

    /** The octets not read yet. */
    function Unread(): seq<byte>
      reads this
      requires Valid()
    {
      input[cursor..]
    }

    /** `initialize(port)`; the listening socket is not modelled. */
    constructor (port: nat)
      ensures Valid() && this.port == port
      ensures !connected && input == [] && cursor == 0 && output == [] && !closed
    {
      this.port := port;
      connected, input, cursor, output, closed := false, [], 0, [], false;
    }

    /** `@connection.getbyte`; at the end of the stream the read fails. */
    method ReadByte() returns (r: Result<byte>)
      requires Valid()
      modifies this`cursor
      ensures Valid()
      ensures old(cursor) < |input| ==> r == Ok(input[old(cursor)]) && cursor == old(cursor) + 1
      ensures old(cursor) == |input| ==> r == Err(EndOfInput) && cursor == old(cursor)
    {
      if cursor < |input| {
        r := Ok(input[cursor]);
        cursor := cursor + 1;
      } else {
        r := Err(EndOfInput);
      }
    }

    /** `get_byte`: the next octet as eight binary digits. */
    method GetByte() returns (r: Result<string>)
      requires Valid()
      modifies this`cursor
      ensures Valid()
      ensures old(cursor) < |input| ==> r == Ok(ByteBits(input[old(cursor)])) && cursor == old(cursor) + 1
      ensures old(cursor) == |input| ==> r == Err(EndOfInput) && cursor == old(cursor)
    {
      var b := ReadByte();
      if b.Err? {
        return Err(b.error);
      }
      r := Ok(ByteBits(b.value));
    }

    /** `count.times.map { @connection.getbyte }`. */
    method ReadBytes(count: nat) returns (r: Result<seq<byte>>)
      requires Valid()
      modifies this`cursor
      ensures Valid()
      ensures old(cursor) + count <= |input| ==>
                r == Ok(input[old(cursor)..old(cursor) + count]) && cursor == old(cursor) + count
      ensures |input| < old(cursor) + count ==> r == Err(EndOfInput) && cursor == |input|
    {
      var bytes: seq<byte> := [];
      var i := 0;
      while i < count
        invariant Valid() && i <= count
        invariant cursor == old(cursor) + i
        invariant bytes == input[old(cursor)..cursor]
      {
        var b := ReadByte();
        if b.Err? {
          return Err(EndOfInput);
        }
        bytes := bytes + [b.value];
        i := i + 1;
      }
      r := Ok(bytes);
    }

    /** `count.times.map { get_byte }.join("").to_i 2`: an extended payload length. */
    method ReadExtendedLength(count: nat) returns (r: Result<nat>)
      requires Valid()
      modifies this`cursor
      ensures Valid()
      ensures old(cursor) + count <= |input| ==>
                r == Ok(BigEndian(input[old(cursor)..old(cursor) + count])) && cursor == old(cursor) + count
      ensures |input| < old(cursor) + count ==> r == Err(EndOfInput) && cursor == |input|
    {
      var joined := "";
      var i := 0;
      while i < count
        invariant Valid() && i <= count
        invariant cursor == old(cursor) + i
        invariant joined == JoinBits(input[old(cursor)..cursor])
      {
        ghost var before := input[old(cursor)..cursor];
        var bits := GetByte();
        if bits.Err? {
          return Err(EndOfInput);
        }
        assert input[old(cursor)..cursor][..|before|] == before;
        joined := joined + bits.value;
        i := i + 1;
      }
      JoinBitsValue(input[old(cursor)..cursor]);
      r := Ok(FromBase2(joined));
    }

    /**
     * The header of `read`: the two first octets as bit strings, FIN and
     * opcode cut out of the first, the length indicator out of the second,
     * and the extended length when the indicator is 126 or 127.
     */
    method ReadHeader() returns (r: Result<(nat, nat, nat)>)
      requires Valid()
      modifies this`cursor
      ensures Valid()
      ensures var s := old(Unread());
        if 2 <= |s| && 2 + ExtendedWidth(LengthIndicator(s[1])) <= |s| then
          var width := ExtendedWidth(LengthIndicator(s[1]));
          && r == Ok((FinBit(s[0]), Opcode(s[0]), if width == 0 then LengthIndicator(s[1]) else BigEndian(s[2..2 + width])))
          && cursor == old(cursor) + 2 + width
        else r == Err(EndOfInput) && cursor == |input|
    {
      ghost var s := Unread();
      var bits := GetByte();
      if bits.Err? {
        return Err(EndOfInput);
      }
      TopBit(s[0]);
      LowNibble(s[0]);
      var final := FromBase2(bits.value[0..1]);
      var opcode := FromBase2(bits.value[4..8]);
      bits := GetByte();
      if bits.Err? {
        return Err(EndOfInput);
      }
      TopBit(s[1]);
      // `masked` would be FromBase2(bits.value[0..1]), the Integer 0 or 1;
      // both are true in Ruby, so the mask key is read in every case.
      var payloadSize := FromBase2(bits.value[1..8]);
      if payloadSize == 126 || payloadSize == 127 {
        var width := if payloadSize == 126 then 2 else 8;
        var extended := ReadExtendedLength(width);
        if extended.Err? {
          return Err(EndOfInput);
        }
        SubSlice(input, old(cursor), old(cursor) + 2, old(cursor) + 2 + width);
        payloadSize := extended.value;
      }
      r := Ok((final, opcode, payloadSize));
    }

    /**
     * One frame of `read`: the header, the mask key (read whatever the MASK
     * bit is) and the payload, unmasked.
     */
    method ReadFrame() returns (r: Result<(Frame, nat)>)
      requires Valid()
      modifies this`cursor
      ensures Valid()
      ensures r == DecodeFrame(old(Unread()))
      ensures cursor == old(cursor) + (if r.Ok? then r.value.1 else |old(Unread())|)
    {
      ghost var s := Unread();
      var start := cursor;
      var header := ReadHeader();
      if header.Err? {
        return Err(EndOfInput);
      }
      var (final, opcode, payloadSize) := header.value;
      ghost var head := cursor - old(cursor);
      var mask := ReadBytes(4);
      if payloadSize == 0 {
        // No octet is read or unmasked, so a mask key cut short by the end
        // of the input is never used.
        return Ok((Frame(final, opcode, []), cursor - start));
      }
      if mask.Err? {
        return Err(EndOfInput);
      }
      var data := ReadBytes(payloadSize);
      if data.Err? {
        return Err(EndOfInput);
      }
      SubSlice(input, start, start + head, start + head + 4);
      SubSlice(input, start, start + head + 4, start + head + 4 + payloadSize);
      r := Ok((Frame(final, opcode, Unmask(data.value, mask.value)), cursor - start));
    }

    /** `@connection.write`. */
    method Write(bytes: seq<byte>)
      requires connected && !closed
      modifies this`output
      ensures output == old(output) + bytes
    {
      output := output + bytes;
    }

    /** `pong`: writes the frame `[0x8A, 0x00]`. */
    method Pong()
      requires connected && !closed
      modifies this`output
      ensures output == old(output) + PongFrame
    {
      Write(PongFrame);
    }

    /**
     * `read can_repeat`: one frame, then, if it is not final and `canRepeat`
     * holds, the continuation frames up to a final one of opcode 0; the
     * result is dispatched on the first opcode.
     */
    method Read(canRepeat: bool) returns (r: Result<Message>)
      requires Valid() && connected && !closed
      modifies this`cursor, this`output
      ensures Valid()
      ensures var st := ReadSpec(old(Unread()), canRepeat);
        r == st.result && cursor == old(cursor) + st.consumed && output == old(output) + st.written
      decreases if canRepeat then 2 else 0
    {
      ghost var s, start := Unread(), cursor;
      var frame := ReadFrame();
      if frame.Err? {
        return Err(frame.error);
      }
      var (f, n) := frame.value;
      var data := f.payload;
      if f.fin == 0 && canRepeat {
        SuffixOfSuffix(input, start, cursor);
        assert Unread() == s[n..];
        ghost var g := Continuation(s[n..]);
        var more := ReadContinuations();
        if more.Err? {
          return Err(more.error);
        }
        data := data + more.value;
        Regroup(old(output), g.written, PongFor(f.opcode));
      }
      r := Ok(Dispatch(f.opcode, f.fin, data));
      if f.opcode == 9 {
        Pong();
      }
    }

    /**
     * The loop `while c_type != :cont_1` of `read`: further frames read
     * with `read false`, their data appended, up to a final continuation.
     */
    method ReadContinuations() returns (more: Result<seq<byte>>)
      requires Valid() && connected && !closed
      modifies this`cursor, this`output
      ensures Valid()
      ensures var g := Continuation(old(Unread()));
        more == g.result && cursor == old(cursor) + g.consumed && output == old(output) + g.written
      decreases 1
    {
      ghost var rest := Unread();
      var gathered: seq<byte> := [];
      ghost var written: seq<byte> := [];
      var done := false;
      PrependNothing(Continuation(rest));
      while !done
        invariant Valid() && connected && !closed
        invariant old(cursor) <= cursor && output == old(output) + written
        invariant !done ==> Continuation(rest) == Prepend(gathered, cursor - old(cursor), written, Continuation(Unread()))
        invariant done ==> Continuation(rest) == Gathered(Ok(gathered), cursor - old(cursor), written)
        decreases |input| - cursor
      {
        ghost var before, k, w := Unread(), cursor - old(cursor), written;
        ghost var at := cursor;
        var c := Read(false);
        ghost var st := ReadSpec(before, false);
        SuffixOfSuffix(input, at, cursor);
        assert Unread() == before[st.consumed..];
        Regroup(old(output), w, st.written);
        if c.Err? {
          return Err(c.error);
        }
        var m := c.value;
        if !CarriesArray(m) {
          // `data += c_data` with a String or nil raises TypeError
          return Err(NotAnArray);
        }
        if !(m.Cont? && m.fin == 1) {
          PrependTwice(gathered, k, w, m.data, st.consumed, st.written, Continuation(Unread()));
        }
        gathered := gathered + m.data;
        written := written + st.written;
        done := m.Cont? && m.fin == 1;
      }
      more := Ok(gathered);
    }

    /** `@connection.gets`: the next line through its LF, or the rest of the stream. */
    method GetLine() returns (line: Option<seq<byte>>)
      requires Valid()
      modifies this`cursor
      ensures Valid()
      ensures old(cursor) == |input| ==> line == None && cursor == old(cursor)
      ensures old(cursor) < |input| ==>
                var n := LineLength(old(Unread()));
                line == Some(old(Unread())[..n]) && cursor == old(cursor) + n
    {
      if cursor == |input| {
        return None;
      }
      var n := LineLength(Unread());
      line := Some(Unread()[..n]);
      cursor := cursor + n;
    }

    /** The request-reading loop at the start of `accept`. */
    method ReadHttpRequest() returns (request: seq<byte>)
      requires Valid()
      modifies this`cursor
      ensures Valid()
      ensures var rq := ReadRequest(old(Unread())); request == rq.text && cursor == old(cursor) + rq.consumed
    {
      ghost var s := Unread();
      request := [];
      while true
        invariant Valid() && old(cursor) <= cursor
        invariant ReadRequest(s) == Request(request + ReadRequest(Unread()).text, cursor - old(cursor) + ReadRequest(Unread()).consumed)
        decreases |input| - cursor
      {
        ghost var before, c := Unread(), cursor;
        var line := GetLine();
        ReadRequestStep(before);
        if line.None? || line.value == EmptyLine {
          EmptySuffix(request);
          return;
        }
        SuffixOfSuffix(input, c, cursor);
        ghost var rest := ReadRequest(Unread());
        assert ReadRequest(before) == Request(line.value + rest.text, (cursor - c) + rest.consumed);
        Regroup(request, line.value, rest.text);
        request := request + line.value;
      }
    }
    /**
     * `accept`: takes the connection whose peer sends `stream`, runs the
     * handshake and then the receive loop; the result lists the messages
     * the block is called with.
     */
    method Accept(stream: seq<byte>, digest: seq<byte> -> seq<byte>) returns (delivered: seq<Message>, outcome: Outcome)
      modifies this
      ensures Valid() && connected && input == stream
      ensures var run := Session(stream, digest);
        && delivered == run.delivered && outcome == run.outcome
        && cursor == run.consumed && output == run.written && closed == run.closed
    {
      connected, input, cursor, output, closed := true, stream, 0, [], false;
      assert Unread() == stream;
      SessionCases(stream, digest);
      var request := ReadHttpRequest();
      ghost var rq := ReadRequest(stream);
      var key := FindKey(request);
      if key.None? {
        var ok := Close();
        return [], Rejected;
      }
      var response := HandshakeResponse(digest(key.value + Guid));
      Write(response);
      assert output == response && Unread() == stream[rq.consumed..];
      delivered, outcome := ReceiveLoop();
    }

    /** The `loop do ... end` of `accept`: reads until `:closed` or a read raises. */
    method ReceiveLoop() returns (delivered: seq<Message>, outcome: Outcome)
      requires Valid() && connected && !closed
      modifies this`cursor, this`output
      ensures Valid()
      ensures var rx := Receive(old(Unread()));
        && delivered == rx.delivered && outcome == rx.outcome
        && cursor == old(cursor) + rx.consumed && output == old(output) + rx.written
    {
      ghost var s0 := Unread();
      ghost var written: seq<byte> := [];
      delivered := [];
      while true
        invariant Valid() && old(cursor) <= cursor
        invariant output == old(output) + written
        invariant var rx := Receive(Unread());
          Receive(s0) == Received(delivered + rx.delivered, rx.outcome, cursor - old(cursor) + rx.consumed, written + rx.written)
        decreases |input| - cursor
      {
        ghost var before, c := Unread(), cursor;
        var r := Read(true);
        ghost var st := ReadSpec(before, true);
        SuffixOfSuffix(input, c, cursor);
        assert Unread() == before[st.consumed..];
        ReceiveStep(s0, before, delivered, cursor - old(cursor) - st.consumed, written);
        Regroup(old(output), written, st.written);
        if r.Err? {
          return delivered, Failed(r.error);
        }
        if r.value == Closed {
          return delivered, PeerClosed;
        }
        var received := if r.value.Text? || r.value.Binary? then [r.value] else [];
        delivered := delivered + received;
        written := written + st.written;
      }
    }

    /** `send`: writes `data` as a text frame; fails without an open connection. */
    method Send(data: seq<byte>) returns (ok: bool)
      modifies this`output
      ensures ok == (connected && !closed)
      ensures output == if ok then old(output) + EncodeText(data) else old(output)
    {
      ok := connected && !closed;
      if ok {
        Write(EncodeText(data));
      }
    }

    /** `close`: fails only when no connection was ever accepted. */
    method Close() returns (ok: bool)
      modifies this`closed
      ensures ok == connected
      ensures closed == (old(closed) || connected)
    {
      ok := connected;
      if ok {
        closed := true;
      }
    }
  }
}
