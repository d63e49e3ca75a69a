/**
 * `read` and the receive loop of `accept` as functions of the octets still
 * unread on the connection: what each read returns, how many octets it
 * consumes and what it writes back (the pong of a ping).
 */
module Reader {
  import opened Bytes
  import opened FrameCodec

  /** The result of one `read`, the octets it consumed and the octets it wrote. */
  datatype Step = Step(result: Result<Message>, consumed: nat, written: seq<byte>)

  /** The continuation payloads gathered by the `while c_type != :cont_1` loop. */
  datatype Gathered = Gathered(result: Result<seq<byte>>, consumed: nat, written: seq<byte>)

  /** How the receive loop ends: a close frame, or a read that raised. */
  datatype Outcome = Rejected | PeerClosed | Failed(error: Error)

  /** The handler calls of the receive loop, and what the loop consumed and wrote. */
  datatype Received = Received(delivered: seq<Message>, outcome: Outcome, consumed: nat, written: seq<byte>)

  function PongFor(opcode: nat): (pong: seq<byte>)
  {
    if opcode == 9 then PongFrame else []
  }

  /** Results that are Ruby Arrays, which `data += c_data` can append. */
  predicate CarriesArray(m: Message)
  {
    m.Cont? || m.Binary? || m.Other?
  }

  /**
   * The loop `while c_type != :cont_1 do c_type, c_data = read false; data += c_data end`
   * on the octets after a non-final first frame.
   */
  function Continuation(s: seq<byte>): (g: Gathered)
    ensures g.consumed <= |s|
    decreases |s|, 1
  {
    var st := ReadSpec(s, false);
    match st.result
    case Err(e) => Gathered(Err(e), st.consumed, st.written)
    case Ok(m) =>
      if !CarriesArray(m) then Gathered(Err(NotAnArray), st.consumed, st.written)
      else if m.Cont? && m.fin == 1 then Gathered(Ok(m.data), st.consumed, st.written)
      else Prepend(m.data, st.consumed, st.written, Continuation(s[st.consumed..]))
  }

  /** Put a frame's contribution in front of what the rest of the loop gathers. */
  function Prepend(data: seq<byte>, consumed: nat, written: seq<byte>, g: Gathered): (r: Gathered)
  {
    Gathered(if g.result.Ok? then Ok(data + g.result.value) else g.result,
             consumed + g.consumed, written + g.written)
  }

  /** Prepending nothing changes nothing. */
  lemma PrependNothing(g: Gathered)
    ensures Prepend([], 0, [], g) == g
  {
    assert [] + g.written == g.written;
    if g.result.Ok? {
      assert [] + g.result.value == g.result.value;
    }
  }

  /** Prepending twice is prepending the concatenated contributions once. */
  lemma PrependTwice(d1: seq<byte>, c1: nat, w1: seq<byte>, d2: seq<byte>, c2: nat, w2: seq<byte>, g: Gathered)
    ensures Prepend(d1, c1, w1, Prepend(d2, c2, w2, g)) == Prepend(d1 + d2, c1 + c2, w1 + w2, g)
  {
    assert (w1 + w2) + g.written == w1 + (w2 + g.written);
    if g.result.Ok? {
      assert (d1 + d2) + g.result.value == d1 + (d2 + g.result.value);
    }
  }

  /**
   * `read can_repeat` on the unread octets `s`: one frame, then, when it is
   * not final and `canRepeat` holds, the continuation loop, whose inner
   * reads are `read false`.
   */
  function ReadSpec(s: seq<byte>, canRepeat: bool): (st: Step)
    ensures st.consumed <= |s|
    ensures st.result.Ok? ==> 2 <= st.consumed
    decreases |s|, if canRepeat then 2 else 0
  {
    match DecodeFrame(s)
    case Err(e) => Step(Err(e), |s|, [])
    case Ok((f, n)) =>
      DecodeFrameLength(s);
      if f.fin == 0 && canRepeat then
        var g := Continuation(s[n..]);
        match g.result
        case Err(e) => Step(Err(e), n + g.consumed, g.written)
        case Ok(more) => Step(Ok(Dispatch(f.opcode, f.fin, f.payload + more)), n + g.consumed, g.written + PongFor(f.opcode))
      else Step(Ok(Dispatch(f.opcode, f.fin, f.payload)), n, PongFor(f.opcode))
  }

  /**
   * The `loop do ... end` of `accept` on the octets after the handshake:
   * text and binary results go to the handler, in order; the loop stops at
   * `:closed` or when a read raises.
   */
  function Receive(s: seq<byte>): (rx: Received)
    ensures rx.consumed <= |s|
    ensures forall i :: 0 <= i < |rx.delivered| ==> rx.delivered[i].Text? || rx.delivered[i].Binary?
    ensures rx.outcome != Rejected
    decreases |s|
  {
    var st := ReadSpec(s, true);
    match st.result
    case Err(e) => Received([], Failed(e), st.consumed, st.written)
    case Ok(m) =>
      if m == Closed then Received([], PeerClosed, st.consumed, st.written)
      else
        var rx := Receive(s[st.consumed..]);
        Received((if m.Text? || m.Binary? then [m] else []) + rx.delivered, rx.outcome,
                 st.consumed + rx.consumed, st.written + rx.written)
  }

  // ---------------------------------------------------------------------------
  // Properties of `read`

  /**
   * Inner reads never gather further frames: `read false` takes exactly one
   * frame and dispatches it on its own opcode, and on a final frame
   * `can_repeat` makes no difference.
   */
  lemma InnerReadIsSingle(s: seq<byte>, canRepeat: bool)
    ensures DecodeFrame(s).Err? ==> ReadSpec(s, false) == Step(Err(EndOfInput), |s|, [])
    ensures DecodeFrame(s).Ok? ==>
              var (f, n) := DecodeFrame(s).value;
              && ReadSpec(s, false) == Step(Ok(Dispatch(f.opcode, f.fin, f.payload)), n, PongFor(f.opcode))
              && (f.fin == 1 ==> ReadSpec(s, canRepeat) == ReadSpec(s, false))
  {
    DecodeFrameLength(s);
  }

  /** A read that runs out of input has consumed all of it. */
  lemma {:induction false} EndOfInputConsumesAll(s: seq<byte>, canRepeat: bool)
    ensures ReadSpec(s, canRepeat).result == Err(EndOfInput) ==> ReadSpec(s, canRepeat).consumed == |s|
  {
    match DecodeFrame(s)
    case Err(_) =>
    case Ok((f, n)) =>
      if f.fin == 0 && canRepeat {
        ContinuationEndOfInput(s[n..]);
      }
  }

  lemma {:induction false} ContinuationEndOfInput(s: seq<byte>)
    ensures Continuation(s).result == Err(EndOfInput) ==> Continuation(s).consumed == |s|
    decreases |s|
  {
    var st := ReadSpec(s, false);
    if st.result.Ok? && CarriesArray(st.result.value) && !(st.result.value.Cont? && st.result.value.fin == 1) {
      ContinuationEndOfInput(s[st.consumed..]);
    }
  }

  /** Gathering that succeeds wrote nothing: only a ping writes, and a ping inside a message fails. */
  lemma {:induction false} ContinuationWritesNothing(s: seq<byte>)
    ensures Continuation(s).result.Ok? ==> Continuation(s).written == []
    decreases |s|
  {
    var st := ReadSpec(s, false);
    if st.result.Ok? && CarriesArray(st.result.value) {
      match DecodeFrame(s)
      case Ok((f, n)) =>
        assert f.opcode != 9;
        if !(st.result.value.Cont? && st.result.value.fin == 1) {
          ContinuationWritesNothing(s[st.consumed..]);
        }
    }
  }

  /** A successful read writes `[0x8A, 0x00]` when it yields `:ping`, and nothing otherwise. */
  lemma ReadWrites(s: seq<byte>, canRepeat: bool)
    ensures ReadSpec(s, canRepeat).result.Ok? ==>
              ReadSpec(s, canRepeat).written == if ReadSpec(s, canRepeat).result.value == Ping then PongFrame else []
  {
    match DecodeFrame(s)
    case Err(_) =>
    case Ok((f, n)) =>
      DispatchCases(f.opcode, f.fin, f.payload);
      if f.fin == 0 && canRepeat {
        var g := Continuation(s[n..]);
        ContinuationWritesNothing(s[n..]);
        if g.result.Ok? {
          DispatchCases(f.opcode, f.fin, f.payload + g.result.value);
        }
      }
  }

  // ---------------------------------------------------------------------------
  // Reading well-formed client traffic

  /** One frame a client sends: FIN bit, opcode, mask key and payload before masking. */
  datatype ClientFrameSpec = ClientFrameSpec(fin: nat, opcode: nat, mask: seq<byte>, payload: seq<byte>)

  predicate WellFormed(c: ClientFrameSpec)
  {
    c.fin < 2 && c.opcode < 16 && |c.mask| == 4 && |c.payload| < Pow256(8)
  }

  function Wire(c: ClientFrameSpec): (wire: seq<byte>)
    requires WellFormed(c)
  {
    ClientFrame(c.fin, c.opcode, c.mask, c.payload)
  }

  /** The octets of several client frames sent back to back. */
  function WireAll(cs: seq<ClientFrameSpec>): (wire: seq<byte>)
    requires forall i :: 0 <= i < |cs| ==> WellFormed(cs[i])
  {
    if cs == [] then [] else Wire(cs[0]) + WireAll(cs[1..])
  }

  function Payloads(cs: seq<ClientFrameSpec>): (data: seq<byte>)
  {
    if cs == [] then [] else cs[0].payload + Payloads(cs[1..])
  }

  /**
   * Defragmentation (section 5.4 of RFC 6455): continuation frames with FIN clear,
   * closed by one with FIN set, are gathered in arrival order; the gathered
   * length is the sum of their payload lengths.
   */
  lemma {:induction false} GatherContinuations(middle: seq<ClientFrameSpec>, last: ClientFrameSpec, rest: seq<byte>)
    requires forall i :: 0 <= i < |middle| ==> WellFormed(middle[i]) && middle[i].fin == 0 && middle[i].opcode == 0
    requires WellFormed(last) && last.fin == 1 && last.opcode == 0
    ensures Continuation(WireAll(middle) + Wire(last) + rest)
         == Gathered(Ok(Payloads(middle) + last.payload), |WireAll(middle) + Wire(last)|, [])
  {
    if middle == [] {
      assert WireAll(middle) + Wire(last) + rest == Wire(last) + rest;
      GatherLast(last, rest);
      assert Payloads(middle) + last.payload == last.payload;
      assert WireAll(middle) + Wire(last) == Wire(last);
    } else {
      var c := middle[0];
      var tail := WireAll(middle[1..]) + Wire(last) + rest;
      ConcatAssoc(Wire(c), WireAll(middle[1..]), Wire(last), rest);
      GatherMiddle(c, tail);
      GatherContinuations(middle[1..], last, rest);
      ConcatAssoc(c.payload, Payloads(middle[1..]), last.payload, []);
    }
  }

  /** Regrouping of concatenations, kept apart so that callers see only its instance. */
  lemma ConcatAssoc(a: seq<byte>, b: seq<byte>, c: seq<byte>, d: seq<byte>)
    ensures (a + b) + c + d == a + (b + c + d)
    ensures a + (b + c) == (a + b) + c
    ensures |(a + b) + c| == |a| + |b + c|
  {
  }

  lemma DropPrefix(a: seq<byte>, b: seq<byte>)
    ensures (a + b)[|a|..] == b
  {
  }

  lemma GatherLast(last: ClientFrameSpec, rest: seq<byte>)
    requires WellFormed(last) && last.fin == 1 && last.opcode == 0
    ensures Continuation(Wire(last) + rest) == Gathered(Ok(last.payload), |Wire(last)|, [])
  {
    DecodeClientFrame(last.fin, last.opcode, last.mask, last.payload, rest);
    assert ReadSpec(Wire(last) + rest, false) == Step(Ok(Cont(1, last.payload)), |Wire(last)|, []);
  }

  lemma GatherMiddle(c: ClientFrameSpec, tail: seq<byte>)
    requires WellFormed(c) && c.fin == 0 && c.opcode == 0
    ensures Continuation(Wire(c) + tail) == Prepend(c.payload, |Wire(c)|, [], Continuation(tail))
  {
    DecodeClientFrame(c.fin, c.opcode, c.mask, c.payload, tail);
    assert ReadSpec(Wire(c) + tail, false) == Step(Ok(Cont(0, c.payload)), |Wire(c)|, []);
    DropPrefix(Wire(c), tail);
  }

  /**
   * A fragmented message: a first frame with FIN clear, continuation frames,
   * and a final continuation frame read as one message of the first frame's
   * opcode, whose data is all the payloads in order.
   */
  lemma ReadFragmented(first: ClientFrameSpec, middle: seq<ClientFrameSpec>, last: ClientFrameSpec, rest: seq<byte>)
    requires WellFormed(first) && first.fin == 0
    requires forall i :: 0 <= i < |middle| ==> WellFormed(middle[i]) && middle[i].fin == 0 && middle[i].opcode == 0
    requires WellFormed(last) && last.fin == 1 && last.opcode == 0
    ensures ReadSpec(Wire(first) + WireAll(middle) + Wire(last) + rest, true)
         == Step(Ok(Dispatch(first.opcode, 0, first.payload + Payloads(middle) + last.payload)),
                 |Wire(first) + WireAll(middle) + Wire(last)|, PongFor(first.opcode))
  {
    var tail := WireAll(middle) + Wire(last) + rest;
    ConcatAssoc(Wire(first), WireAll(middle), Wire(last), rest);
    DecodeClientFrame(first.fin, first.opcode, first.mask, first.payload, tail);
    DropPrefix(Wire(first), tail);
    GatherContinuations(middle, last, rest);
    ConcatAssoc(first.payload, Payloads(middle), last.payload, []);
  }

  /** A single final frame read with `read true` is taken alone. */
  lemma ReadFinal(c: ClientFrameSpec, rest: seq<byte>)
    requires WellFormed(c) && c.fin == 1
    ensures ReadSpec(Wire(c) + rest, true) == Step(Ok(Dispatch(c.opcode, 1, c.payload)), |Wire(c)|, PongFor(c.opcode))
  {
    DecodeClientFrame(c.fin, c.opcode, c.mask, c.payload, rest);
  }

  /**
   * A message as a client sends it: one final frame, or a first frame with
   * FIN clear, continuation frames with FIN clear and a final continuation
   * frame (section 5.4 of RFC 6455).
   */
  datatype ClientMessage =
    | Single(frame: ClientFrameSpec)
    | Fragmented(first: ClientFrameSpec, middle: seq<ClientFrameSpec>, last: ClientFrameSpec)

  /** A well-formed message other than a close. */
  predicate WellFormedMessage(m: ClientMessage)
  {
    match m
    case Single(c) => WellFormed(c) && c.fin == 1 && c.opcode != 8
    case Fragmented(first, middle, last) =>
      && WellFormed(first) && first.fin == 0 && first.opcode != 8
      && (forall i :: 0 <= i < |middle| ==> WellFormed(middle[i]) && middle[i].fin == 0 && middle[i].opcode == 0)
      && WellFormed(last) && last.fin == 1 && last.opcode == 0
  }

  function MessageWire(m: ClientMessage): (wire: seq<byte>)
    requires WellFormedMessage(m)
  {
    match m
    case Single(c) => Wire(c)
    case Fragmented(first, middle, last) => Wire(first) + WireAll(middle) + Wire(last)
  }

  /** The octets of several messages sent back to back. */
  function MessagesWire(ms: seq<ClientMessage>): (wire: seq<byte>)
    requires forall i :: 0 <= i < |ms| ==> WellFormedMessage(ms[i])
  {
    if ms == [] then [] else MessageWire(ms[0]) + MessagesWire(ms[1..])
  }

  /** The type of a message is the opcode of its first frame. */
  function MessageOpcode(m: ClientMessage): (opcode: nat)
  {
    match m
    case Single(c) => c.opcode
    case Fragmented(first, _, _) => first.opcode
  }

  /** The data of a message is the payloads of its frames, in order. */
  function MessageData(m: ClientMessage): (data: seq<byte>)
  {
    match m
    case Single(c) => c.payload
    case Fragmented(first, middle, last) => first.payload + Payloads(middle) + last.payload
  }

  /** The handler call a message should cause: one for text and binary messages, none otherwise. */
  function HandlerCall(m: ClientMessage): (calls: seq<Message>)
  {
    var opcode := MessageOpcode(m);
    if opcode == 1 then [Text(MessageData(m))]
    else if opcode == 2 then [Binary(MessageData(m))]
    else []
  }

  /** The handler calls for several messages, in arrival order. */
  function Handled(ms: seq<ClientMessage>): (calls: seq<Message>)
  {
    if ms == [] then [] else HandlerCall(ms[0]) + Handled(ms[1..])
  }

  /** One pong per ping message. */
  function Pongs(ms: seq<ClientMessage>): (pongs: seq<byte>)
  {
    if ms == [] then [] else PongFor(MessageOpcode(ms[0])) + Pongs(ms[1..])
  }

  /**
   * The receive loop over messages, each a single final frame or a
   * fragmented one, followed by a close frame: the handler gets exactly the
   * text and binary messages in arrival order, each with the payloads of
   * all its frames, each ping is answered by one pong, everything else is
   * dropped, and the loop stops right after the close frame.
   */
  lemma {:induction false} ReceiveMessages(ms: seq<ClientMessage>, close: ClientFrameSpec, rest: seq<byte>)
    requires forall i :: 0 <= i < |ms| ==> WellFormedMessage(ms[i])
    requires WellFormed(close) && close.fin == 1 && close.opcode == 8
    ensures Receive(MessagesWire(ms) + Wire(close) + rest)
         == Received(Handled(ms), PeerClosed, |MessagesWire(ms) + Wire(close)|, Pongs(ms))
  {
    if ms == [] {
      assert MessagesWire(ms) + Wire(close) + rest == Wire(close) + rest;
      assert MessagesWire(ms) + Wire(close) == Wire(close);
      ReadFinal(close, rest);
    } else {
      var m := ms[0];
      var tail := MessagesWire(ms[1..]) + Wire(close) + rest;
      ConcatAssoc(MessageWire(m), MessagesWire(ms[1..]), Wire(close), rest);
      ReceiveMessage(m, tail);
      ReceiveMessages(ms[1..], close, rest);
    }
  }

  /** One message other than a close, then the rest of the loop. */
  lemma ReceiveMessage(m: ClientMessage, tail: seq<byte>)
    requires WellFormedMessage(m)
    ensures var rx := Receive(tail);
      Receive(MessageWire(m) + tail)
        == Received(HandlerCall(m) + rx.delivered, rx.outcome, |MessageWire(m)| + rx.consumed,
                    PongFor(MessageOpcode(m)) + rx.written)
  {
    DropPrefix(MessageWire(m), tail);
    match m
    case Single(c) =>
      ReadFinal(c, tail);
      DispatchCases(c.opcode, 1, c.payload);
    case Fragmented(first, middle, last) =>
      ReadFragmented(first, middle, last, tail);
      DispatchCases(first.opcode, 0, MessageData(m));
  }
}
