/**
 * The opening handshake of `accept`: the request lines read with `gets`,
 * the `Sec-WebSocket-Key` match and the 101 response (RFC 6455 sections
 * 1.3 and 4.2.2), on octets.
 */
module Handshake {
  import opened Bytes

  datatype Option<+T> = None | Some(value: T)

  const LF: byte := 10
  const CR: byte := 13

  /** The line that ends the request: `"\r\n"`. */
  const EmptyLine: seq<byte> := [CR, LF]

  /** The GUID of section 1.3 of RFC 6455 that is appended to the client's key. */
  const Guid: seq<byte> := Ascii("258EAFA5-E914-47DA-95CA-C5AB0DC85B11")

  const KeyHeader: seq<byte> := Ascii("Sec-WebSocket-Key: ")

  /** The length of the line `gets` returns from the front of `s`: through the first LF, or all of `s`. */
  function LineLength(s: seq<byte>): (n: nat)
    ensures n <= |s|
    ensures s != [] ==> 0 < n
    ensures forall i :: 0 <= i < n - 1 ==> s[i] != LF
    ensures 0 < n ==> n == |s| || s[n - 1] == LF
  {
    if s == [] then 0 else if s[0] == LF then 1 else 1 + LineLength(s[1..])
  }

  /** The text `http_request` holds when the reading loop stops, and the octets read. */
  datatype Request = Request(text: seq<byte>, consumed: nat)

  /** `^` matches at the start of the text and after every LF. */
  predicate LineStart(t: seq<byte>, p: nat)
  {
    p == 0 || (0 < p <= |t| && t[p - 1] == LF)
  }

  /** No line of `t` is the line CR LF. */
  predicate NoEmptyLine(t: seq<byte>)
  {
    forall p: nat :: LineStart(t, p) && p + 2 <= |t| ==> t[p..p + 2] != EmptyLine
  }

  /** `while line = @connection.gets and line != "\r\n" do http_request += line end`. */
  function ReadRequest(s: seq<byte>): (r: Request)
    ensures r.consumed <= |s|
    decreases |s|
  {
    if s == [] then Request([], 0)
    else
      var n := LineLength(s);
      if s[..n] == EmptyLine then Request([], n)
      else
        var r := ReadRequest(s[n..]);
        Request(s[..n] + r.text, n + r.consumed)
  }

  /**
   * The text is the input up to the first line that is exactly CR LF, which
   * is consumed but not kept, or all of the input when there is no such
   * line. The text is made of whole lines (it ends with LF unless it is all
   * of the input) and none of them is CR LF.
   */
  lemma {:induction false} ReadRequestShape(s: seq<byte>)
    ensures var r := ReadRequest(s);
      && (s[..r.consumed] == r.text + EmptyLine || (r.consumed == |s| && r.text == s))
      && (r.text == [] || r.text[|r.text| - 1] == LF || r.text == s)
      && NoEmptyLine(r.text)
    decreases |s|
  {
    if s != [] {
      var n := LineLength(s);
      if s[..n] != EmptyLine {
        var r := ReadRequest(s[n..]);
        assert ReadRequest(s) == Request(s[..n] + r.text, n + r.consumed);
        ReadRequestShape(s[n..]);
        ExtendRequest(s, n, r.text, r.consumed);
        ExtendLines(s, n, r.text, r.consumed);
      }
    }
  }

  lemma ExtendRequest(s: seq<byte>, n: nat, text: seq<byte>, c: nat)
    requires n + c <= |s|
    requires s[n..][..c] == text + EmptyLine || (c == |s| - n && text == s[n..])
    ensures s[..n + c] == (s[..n] + text) + EmptyLine || (n + c == |s| && s[..n] + text == s)
  {
    assert s[..n + c] == s[..n] + s[n..][..c];
    if s[n..][..c] == text + EmptyLine {
      assert s[..n + c] == (s[..n] + text) + EmptyLine;
    } else {
      assert s[..n] + s[n..] == s;
    }
  }

  /** A line other than CR LF in front of whole lines none of which is CR LF. */
  lemma ExtendLines(s: seq<byte>, n: nat, text: seq<byte>, c: nat)
    requires s != [] && n == LineLength(s) && s[..n] != EmptyLine
    requires n + c <= |s|
    requires s[n..][..c] == text + EmptyLine || (c == |s| - n && text == s[n..])
    requires text == [] || text[|text| - 1] == LF || text == s[n..]
    requires NoEmptyLine(text)
    ensures var t := s[..n] + text; t == [] || t[|t| - 1] == LF || t == s
    ensures NoEmptyLine(s[..n] + text)
  {
    var t := s[..n] + text;
    assert t[..n] == s[..n];
    if n == 1 && s[0] != LF {
      assert c == 0 && text == [];
    }
    forall p: nat | LineStart(t, p) && p + 2 <= |t|
      ensures t[p..p + 2] != EmptyLine
    {
      if n <= p {
        var q := p - n;
        assert t[p..p + 2] == text[q..q + 2];
        assert LineStart(text, q);
      } else {
        FirstLineNotEmpty(s, n, t, p);
      }
    }
  }

  /** Inside the first line only position 0 starts a line, and it is not CR LF. */
  lemma FirstLineNotEmpty(s: seq<byte>, n: nat, t: seq<byte>, p: nat)
    requires s != [] && n == LineLength(s) && s[..n] != EmptyLine
    requires p < n <= |t| && t[..n] == s[..n] && p + 2 <= |t|
    requires n == 1 && s[0] != LF ==> |t| == 1
    ensures LineStart(t, p) ==> t[p..p + 2] != EmptyLine
  {
    if 0 < p {
      assert t[p - 1] == t[..n][p - 1] == s[p - 1];
    } else if n == 1 {
      assert t[0] == t[..n][0] == s[0];
    } else {
      assert t[0] == t[..n][0] == s[0] && t[1] == t[..n][1] == s[1];
      assert t[0..2] == [t[0], t[1]] && s[..2] == [s[0], s[1]];
    }
  }

  /** One turn of the reading loop. */
  lemma ReadRequestStep(s: seq<byte>)
    ensures s == [] ==> ReadRequest(s) == Request([], 0)
    ensures s != [] && s[..LineLength(s)] == EmptyLine ==> ReadRequest(s) == Request([], LineLength(s))
    ensures s != [] && s[..LineLength(s)] != EmptyLine ==>
              var n := LineLength(s);
              ReadRequest(s) == Request(s[..n] + ReadRequest(s[n..]).text, n + ReadRequest(s[n..]).consumed)
  {
  }

  /** `\s` of Ruby's regular expressions: space, tab, LF, vertical tab, form feed, CR. */
  predicate IsSpace(b: byte)
  {
    b == 9 || b == 10 || b == 11 || b == 12 || b == 13 || b == 32
  }

  /** `/^Sec-WebSocket-Key: (\S+)/` can match at position `p` of `t`. */
  predicate KeyAt(t: seq<byte>, p: nat)
  {
    && LineStart(t, p)
    && p + |KeyHeader| < |t|
    && t[p..p + |KeyHeader|] == KeyHeader
    && !IsSpace(t[p + |KeyHeader|])
  }

  /** The length of the run of non-space octets that starts at `i` (`\S+` is greedy). */
  function RunLength(t: seq<byte>, i: nat): (n: nat)
    requires i <= |t|
    ensures i + n <= |t|
    ensures forall j :: i <= j < i + n ==> !IsSpace(t[j])
    ensures i + n == |t| || IsSpace(t[i + n])
    decreases |t| - i
  {
    if i == |t| || IsSpace(t[i]) then 0 else 1 + RunLength(t, i + 1)
  }

  /** The first position at or after `p` where the key header matches (the regex is leftmost). */
  function FirstKeyAt(t: seq<byte>, p: nat): (r: Option<nat>)
    requires p <= |t|
    ensures r.Some? ==> p <= r.value && r.value + |KeyHeader| < |t|
    decreases |t| - p
  {
    if KeyAt(t, p) then Some(p)
    else if p == |t| then None
    else FirstKeyAt(t, p + 1)
  }

  /**
   * `FirstKeyAt` finds the leftmost match at or after `p`, and finds none
   * exactly when there is none.
   */
  lemma {:induction false} FirstKeyAtLeftmost(t: seq<byte>, p: nat)
    requires p <= |t|
    ensures FirstKeyAt(t, p).None? <==> forall q :: p <= q <= |t| ==> !KeyAt(t, q)
    ensures FirstKeyAt(t, p).Some? ==>
              && KeyAt(t, FirstKeyAt(t, p).value)
              && forall q :: p <= q < FirstKeyAt(t, p).value ==> !KeyAt(t, q)
    decreases |t| - p
  {
    if !KeyAt(t, p) && p < |t| {
      FirstKeyAtLeftmost(t, p + 1);
    }
  }

  /** What `FirstKeyAt` finds is a match. */
  lemma {:induction false} FirstKeyAtMatches(t: seq<byte>, p: nat)
    requires p <= |t|
    ensures FirstKeyAt(t, p).Some? ==> KeyAt(t, FirstKeyAt(t, p).value)
    decreases |t| - p
  {
    if !KeyAt(t, p) && p < |t| {
      FirstKeyAtMatches(t, p + 1);
    }
  }

  /** `matches[1]`: the key the request carries, if any. */
  function FindKey(t: seq<byte>): (key: Option<seq<byte>>)
  {
    match FirstKeyAt(t, 0)
    case None => None
    case Some(p) =>
      var start := p + |KeyHeader|;
      Some(t[start..start + RunLength(t, start)])
  }

  /** There is no key exactly when no line starts with the header and a non-space octet. */
  lemma FindKeyNone(t: seq<byte>)
    ensures FindKey(t).None? <==> forall q :: 0 <= q <= |t| ==> !KeyAt(t, q)
  {
    FirstKeyAtLeftmost(t, 0);
  }

  /**
   * When the first match is at `p`, the key is the maximal non-empty run of
   * non-space octets after `Sec-WebSocket-Key: ` there.
   */
  lemma FindKeyMeaning(t: seq<byte>, p: nat)
    requires FirstKeyAt(t, 0) == Some(p)
    ensures KeyAt(t, p)
    ensures FindKey(t).Some?
    ensures var key := FindKey(t).value; var start := p + |KeyHeader|;
      && |key| >= 1 && t[start..start + |key|] == key
      && (forall j :: 0 <= j < |key| ==> !IsSpace(key[j]))
      && (start + |key| == |t| || IsSpace(t[start + |key|]))
  {
    FirstKeyAtMatches(t, 0);
    var start := p + |KeyHeader|;
    KeyRun(t, start, t[start..start + RunLength(t, start)]);
  }

  /**
   * The run of non-space octets at `start`, when `t[start]` is not a space:
   * not empty, without a space, and followed by a space or the end of `t`.
   */
  lemma KeyRun(t: seq<byte>, start: nat, key: seq<byte>)
    requires start < |t| && !IsSpace(t[start])
    requires key == t[start..start + RunLength(t, start)]
    ensures |key| >= 1 && t[start..start + |key|] == key
    ensures forall j :: 0 <= j < |key| ==> !IsSpace(key[j])
    ensures start + |key| == |t| || IsSpace(t[start + |key|])
  {
    forall j | 0 <= j < |key|
      ensures !IsSpace(key[j])
    {
      assert key[j] == t[start + j];
    }
  }

  /** The response `accept` writes: three LF-terminated lines, the accept line and an empty line. */
  function HandshakeResponse(accept: seq<byte>): (r: seq<byte>)
  {
    Ascii("HTTP/1.1 101 Switching Protocols\n")
      + Ascii("Upgrade: websocket\n")
      + Ascii("Connection: Upgrade\n")
      + Ascii("Sec-WebSocket-Accept: ") + accept
      + Ascii("\n\n")
  }

  /** The response ends with two bare LFs, not with CR LF CR LF. */
  lemma ResponseEnding(accept: seq<byte>)
    ensures var r := HandshakeResponse(accept); |r| >= 2 && r[|r| - 2..] == [LF, LF]
  {
    var r := HandshakeResponse(accept);
    var tail := Ascii("\n\n");
    assert r[|r| - 2..] == tail;
  }
}
