# websocket_server.rb in Dafny

A model of `WebsocketServer`, a small Ruby WebSocket server (RFC 6455) made
of five parts:

- the frame decoder (`get_byte` and `read`): FIN, opcode, mask flag and
  length from the two first octets, the 16- or 64-bit extended length, the
  mask key and the unmasking of the payload;
- defragmentation of a message whose first frame has FIN clear, and the
  dispatch of the result on its opcode, where a ping answers with a pong;
- the frame encoder of `send` and `pong`;
- the opening handshake in `accept`: reading the request, matching
  `Sec-WebSocket-Key`, and writing the `101 Switching Protocols` response;
- the receive loop in `accept`, which passes text and binary messages to
  the handler block and stops at a close frame.

The connection is modelled as the class `Server.WebsocketServer`. Its field
`input` holds the octets the peer sends, `cursor` says how many of them have
been read, `output` holds everything written, and `connected` and `closed`
hold the state of `@connection`. Every `getbyte` advances `cursor`. Every
`write` appends to `output`. Each method is proved against a function of the
unread input:

- `Reader.ReadSpec` specifies `read`;
- `Reader.Continuation` specifies its `while c_type != :cont_1` loop;
- `Reader.Receive` specifies the receive loop;
- `Handshake.ReadRequest` and `Handshake.FindKey` specify the handshake;
- `Server.Session` specifies the whole of `accept`.

The lemmas about these functions state what the program promises.

The files follow the structure of the program:

| file | module | contents |
|---|---|---|
| `bytes.dfy` | `Bytes` | octets, big-endian integers, `Integer#^` |
| `bit_string.dfy` | `BitString` | the bit strings of `get_byte` and `to_i 2` |
| `frame_codec.dfy` | `FrameCodec` | one frame decoded, unmasking, dispatch, the frames `send` and `pong` write |
| `reader.dfy` | `Reader` | `read`, its defragmentation loop and the receive loop as functions |
| `handshake.dfy` | `Handshake` | request reading, key match, response |
| `websocket_server.dfy` | `Server` | the class and `accept` as a whole |

The model follows the code in these places:

- The mask key is read and applied on every frame. `masked` is the Integer 0
  or 1, and both are true in Ruby.
- `send` writes one octet, `size % 256`, as the extended length. Every
  `pack` uses a single `C` for it.
- The handshake response ends its lines with a bare LF and ends with
  `"\n\n"`.
- A close frame ends the receive loop but does not close the connection.
  The code never calls `close` on that path, though section 5.5.1 of
  RFC 6455 asks an endpoint that receives a Close frame to send one back.
- A frame with payload length 0 is read without its mask octets when the
  input ends before them: the mask read by `getbyte` then gives nils, but
  they are never combined with anything (websocket_server.rb:146-154).
  Such a frame succeeds and consumes the rest of the input. So the frame
  `send("")` writes reads back as an empty text message.
- A fragmented message is read with `read false`, frame by frame. A frame
  whose result is an Array (a continuation, binary data or an unknown
  opcode) is appended to the message. A text, close or ping frame inside
  the message makes `data += c_data` raise a TypeError; the model gives
  `Err(NotAnArray)`. A ping frame there still writes its pong first. The
  loop ends only at a continuation frame with FIN set.

## Model

| member | source | states |
|---|---|---|
| BitString.ByteBits | websocket_server.rb:113-117 | `get_byte` always yields exactly eight characters |
| BitString.ByteBitsValue | websocket_server.rb:113-117 | the eight characters, read back in base 2, are the octet itself |
| BitString.FromBase2ToBase2 | websocket_server.rb:115 | `to_i 2` undoes `to_s 2` for every natural number |
| BitString.TopBit | websocket_server.rb:126-132 | `byte[0].to_i` is the top bit (octet / 128), `byte[1..7].to_i 2` is the low seven bits (octet % 128) |
| BitString.LowNibble | websocket_server.rb:127 | `byte[4..7].to_i 2` is the low four bits of the octet (octet % 16) |
| BitString.JoinBitsValue | websocket_server.rb:134-139 | the joined bit strings of several octets, read in base 2, are their big-endian value |
| Bytes.XorInvolution | websocket_server.rb:154 | combining with the same key octet twice restores the original octet |
| FrameCodec.UnmaskTwice | websocket_server.rb:153-155 | unmasking applied twice is the identity |
| FrameCodec.DecodeFrameLength | websocket_server.rb:124-154 | a frame decodes exactly when the input holds 2 header octets, the extended length and, unless the length is 0, 4 mask octets and the payload; it fails only by running out of input; FIN is octet 0 / 128 and the opcode octet 0 % 16; indicator below 126 is the length, 126 a 16-bit and 127 a 64-bit big-endian length; the frame consumes 6, 8 or 14 octets plus the payload, or the rest of a short input when the length is 0 |
| FrameCodec.ReservedBitsIgnored | websocket_server.rb:125-127 | the three RSV bits change neither FIN nor the opcode |
| FrameCodec.DecodeClientFrame | websocket_server.rb:123-155 | a masked client frame laid out as in section 5.2 of RFC 6455 decodes to its FIN, opcode and original payload, consuming exactly its octets |
| FrameCodec.DispatchCases | websocket_server.rb:169-195 | opcode 0 gives the continuation with its FIN, 1 text with the payload unchanged, 2 binary, 8 close, 9 ping, anything else the opcode with its data, each if and only if |
| FrameCodec.EncodeTextLayout | websocket_server.rb:76-96 | `send` writes 0x81 first (FIN, text, unmasked); below 126 octets exactly `[0x81, size] + data`; 126 for sizes up to 65535 and 127 above; in both large cases one octet `size % 256` and then the data |
| FrameCodec.EncodeTextStandardIff | websocket_server.rb:84-95 | the frame `send` writes equals the frame section 5.2 of RFC 6455 prescribes if and only if the payload is below 126 octets |
| FrameCodec.ServerFrameUnreadable | websocket_server.rb:85-86 | a frame of 1 to 125 octets written by `send` cannot be read back by `read`, because the four mask octets `read` always takes run past its end; the frame of empty data reads back as an empty final text frame of 2 octets |
| FrameCodec.PongLayout | websocket_server.rb:200-204 | the pong frame is two octets: FIN set, opcode 10, no mask, length 0 |
| Reader.Continuation | websocket_server.rb:157-167 | the continuation loop consumes at most the input |
| Reader.ReadSpec | websocket_server.rb:123-196 | `read can_repeat` consumes at most the input, and at least the 2 header octets when it succeeds |
| Reader.Receive | websocket_server.rb:60-71 | the receive loop consumes at most the input, hands only text and binary messages to the handler, and always ends with a close frame or a failed read |
| Reader.InnerReadIsSingle | websocket_server.rb:157-167 | `read false` decodes exactly one frame and dispatches it on its own opcode, failing with end of input when that frame is cut short; `read true` on a frame with FIN set is the same |
| Reader.EndOfInputConsumesAll | websocket_server.rb:123-196 | a read that runs out of input has consumed all of it |
| Reader.ContinuationEndOfInput | websocket_server.rb:157-167 | the continuation loop that runs out of input has consumed all of it |
| Reader.ContinuationWritesNothing | websocket_server.rb:157-167 | a continuation loop that succeeds has written nothing |
| Reader.ReadWrites | websocket_server.rb:169-204 | a successful read writes `[0x8A, 0x00]` when it yields ping, and nothing otherwise |
| Reader.GatherContinuations | websocket_server.rb:157-167 | continuation frames with FIN clear, closed by one with FIN set, are gathered in arrival order, so the result's length is the sum of their payload lengths; the loop consumes exactly their octets and writes nothing |
| Reader.ReadFragmented | websocket_server.rb:157-173 | a first frame with FIN clear, continuation frames and a final continuation frame are read as one message of the first frame's opcode with FIN 0, whose data is all payloads in order |
| Reader.ReceiveMessage | websocket_server.rb:61-71 | one message, a final frame other than close or a first frame, continuation frames and a final continuation frame, is handed to the handler if its first opcode is text or binary, with all its payloads joined; a ping message gets one pong; the loop goes on after it |
| Reader.ReceiveMessages | websocket_server.rb:61-71 | for messages, fragmented or not, followed by a close frame, the handler gets exactly the text and binary messages in arrival order with their joined data, each ping message gets one pong, and the loop stops right after the close frame |
| Reader.ReadFinal | websocket_server.rb:123-196 | a final frame is read alone and dispatched on its own opcode, a ping writing one pong |
| Handshake.LineLength | websocket_server.rb:38 | `gets` returns the octets up to and including the first LF, or the rest of the input |
| Handshake.ReadRequestShape | websocket_server.rb:37-40 | the consumed octets are the request text and a `"\r\n"` line, or the whole input when there is no such line; the text is whole lines, ending with LF unless it is all of the input, and none of its lines is `"\r\n"`, so the terminator is the first such line |
| Handshake.RunLength | websocket_server.rb:44 | `\S+` takes the maximal run of non-space octets |
| Handshake.FirstKeyAtLeftmost | websocket_server.rb:44 | the match is the leftmost line start followed by `Sec-WebSocket-Key: ` and a non-space octet, and it is absent if and only if there is no such position |
| Handshake.FindKeyNone | websocket_server.rb:44 | there is no key if and only if no line starts with the header and a non-space octet |
| Handshake.FindKeyMeaning | websocket_server.rb:44 | when the first match is at `p`, the key is the non-empty, maximal run of non-space octets after the header there |
| Handshake.ResponseEnding | websocket_server.rb:45-52 | the response ends with two bare LFs |
| Server.SessionHandshake | websocket_server.rb:36-71 | without a key, `accept` closes the connection, writes nothing and reads no frame; with one, it keeps the connection open, writes the response built from key and GUID first, and then runs the receive loop on the octets after the request |
| Server.WebsocketServer.constructor | websocket_server.rb:22-25 | a new server has no connection, nothing read and nothing written |
| Server.WebsocketServer.ReadByte | websocket_server.rb:146 | `getbyte` returns the next octet and advances the cursor by one; at the end of input it fails |
| Server.WebsocketServer.GetByte | websocket_server.rb:113-117 | `get_byte` returns the bit string of the next octet and advances by one |
| Server.WebsocketServer.ReadBytes | websocket_server.rb:146-150 | `count.times.map { getbyte }` returns the next `count` octets, or fails with the cursor at the end of input |
| Server.WebsocketServer.ReadExtendedLength | websocket_server.rb:134-139 | joining the bit strings of the next `count` octets gives their big-endian value |
| Server.WebsocketServer.ReadHeader | websocket_server.rb:124-139 | the two header octets and the extended length give FIN, opcode and payload length as the frame decoder defines them |
| Server.WebsocketServer.ReadFrame | websocket_server.rb:123-155 | the frame read off the connection is the decoded frame of the unread input, and the cursor moves past it (to the end of input on failure) |
| Server.WebsocketServer.Write | websocket_server.rb:45 | a write appends its octets to the output |
| Server.WebsocketServer.Pong | websocket_server.rb:200-204 | `pong` appends `[0x8A, 0x00]` to the output |
| Server.WebsocketServer.Read | websocket_server.rb:123-196 | `read` returns, consumes and writes exactly what the read specification gives for the unread input |
| Server.WebsocketServer.ReadContinuations | websocket_server.rb:157-167 | the `while c_type != :cont_1` loop returns, consumes and writes what the continuation loop specification gives |
| Server.WebsocketServer.GetLine | websocket_server.rb:38 | `gets` returns the next line and advances past it, or nothing at the end of input |
| Server.WebsocketServer.ReadHttpRequest | websocket_server.rb:37-40 | the request-reading loop builds the request text and consumes the octets as the request specification gives |
| Server.WebsocketServer.ReceiveLoop | websocket_server.rb:60-71 | the loop hands over, consumes and writes what the receive loop specification gives |
| Server.WebsocketServer.Accept | websocket_server.rb:32-72 | `accept` on a fresh connection delivers, consumes, writes and closes exactly as the session specification gives |
| Server.WebsocketServer.Send | websocket_server.rb:76-96 | `send` appends the encoded text frame exactly when a connection is open, and otherwise writes nothing and fails |
| Server.WebsocketServer.Close | websocket_server.rb:100-103 | `close` closes an accepted connection and fails without one |

## Left out

- The listening socket (`TCPServer.new`) and `@server.accept`: `Accept` takes the octets the peer will send as `stream` and starts from an empty output.
- `Digest::SHA1.base64digest` is a library call: it is the parameter `digest` of `Accept` and `Session`. So the accept token of the example in section 1.3 of RFC 6455 is not computed.
- The handler block: `Accept` returns the messages it would be called with, in order. What the block itself does is not modelled.
- Interleaving with the block: the model takes the input octets to be all known when `accept` starts. A `send` from inside the block is not interleaved with the reads.
- End of input: the model says a read fails with `EndOfInput`, with the cursor at the end of input. In Ruby, `getbyte` returning nil fails differently in different places. In `get_byte`, `nil.to_s 2` raises. When the payload is not empty, a mask or payload read short yields nils, and `nil ^ x` or `x ^ nil` then gives booleans or a TypeError. These nil values are not modelled. A frame of length 0 never combines its mask, so it succeeds whether the mask was read in full or not, and the model keeps that.
- Exceptions from a read inside the receive loop end `accept` in the model with the outcome `Failed`. Whatever happens outside `accept` after that is not modelled.
- String encodings: data is a sequence of octets. `force_encoding("utf-8")` only relabels a text message, so a text message keeps its octets. `"#{data}".size` counts characters: for multi-octet UTF-8 text it is smaller than the octet count, and `A#{size}` then truncates. The model takes the size to be the octet count, as for ASCII.
- `"#{data}"` converts any object to a String; `Send` takes octets.
- The unused local `to_send` of `send` (websocket_server.rb:79) has no effect and is not modelled.
- Closing a connection that is already closed is taken to do nothing, as `IO#close` does in current Ruby versions.
