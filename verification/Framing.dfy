/** BGP message headers and the stream deframer (src/message/mod.rs, and the read loop of src/peer.rs). */
module Framing {
  import opened Wire

  datatype MessageType = Open | Update | Notification | Keepalive | RouteRefresh

  datatype MessageError =
    | UnknownType(code: byte)
    | TooShort(expected: nat, got: nat)
    | InvalidMarker
    | InvalidLength(length: u16)
    | ParseError
    | BufferUnderflow  // reading past the end of a buffer panics

  datatype Header = Header(length: u16, msgType: MessageType)

  datatype BgpMessage = BgpMessage(header: Header, body: seq<byte>)

  const HEADER_LEN: nat := 19
  const MAX_MESSAGE_LEN: nat := 4096
  const MARKER: seq<byte> :=
    [0xFF, 0xFF, 0xFF, 0xFF, 0xFF, 0xFF, 0xFF, 0xFF, 0xFF, 0xFF, 0xFF, 0xFF, 0xFF, 0xFF, 0xFF, 0xFF]

  function TypeCode(t: MessageType): byte {
    match t
    case Open => 1
    case Update => 2
    case Notification => 3
    case Keepalive => 4
    case RouteRefresh => 5
  }

  function TypeOf(code: byte): Result<MessageType, MessageError> {
    match code
    case 1 => Ok(Open)
    case 2 => Ok(Update)
    case 3 => Ok(Notification)
    case 4 => Ok(Keepalive)
    case 5 => Ok(RouteRefresh)
    case _ => Err(UnknownType(code))
  }

  /** The length is a truncating cast. */
  function NewHeader(t: MessageType, bodyLen: nat): Header {
    Header((HEADER_LEN + bodyLen) % 0x1_0000, t)
  }

  function SerializeHeader(h: Header): (s: seq<byte>)
    ensures |s| == HEADER_LEN
  {
    MARKER + PutU16(h.length) + [TypeCode(h.msgType)]
  }

  function ParseHeader(buf: seq<byte>): (r: Result<Header, MessageError>)
    ensures r.Ok? ==> HEADER_LEN <= r.value.length <= MAX_MESSAGE_LEN
  {
    if |buf| < HEADER_LEN then Err(TooShort(HEADER_LEN, |buf|))
    else if buf[..16] != MARKER then Err(InvalidMarker)
    else
      var length := GetU16(buf[16..]);
      if length < HEADER_LEN || length > MAX_MESSAGE_LEN then Err(InvalidLength(length))
      else
        match TypeOf(buf[18])
        case Err(e) => Err(e)
        case Ok(t) => Ok(Header(length, t))
  }

  /** One complete message and the octets after it, None if more data is needed. */
  function ParseMessage(buf: seq<byte>): (r: Result<Option<(BgpMessage, seq<byte>)>, MessageError>)
    ensures r.Ok? && r.value.Some? ==> |r.value.value.1| + HEADER_LEN <= |buf|
  {
    if |buf| < HEADER_LEN then Ok(None)
    else
      match ParseHeader(buf)
      case Err(e) => Err(e)
      case Ok(header) =>
        var total: nat := header.length;
        if |buf| < total then Ok(None)
        else Ok(Some((BgpMessage(header, buf[HEADER_LEN..total]), buf[total..])))
  }

  /** A whole message on the wire. */
  function Frame(t: MessageType, body: seq<byte>): seq<byte> {
    SerializeHeader(NewHeader(t, |body|)) + body
  }

  lemma ReadHeader(h: Header, rest: seq<byte>)
    ensures var buf := SerializeHeader(h) + rest;
            && buf[..16] == MARKER
            && GetU16(buf[16..]) == h.length
            && TypeOf(buf[18]) == Ok(h.msgType)
            && buf[HEADER_LEN..] == rest
  {
    var buf := SerializeHeader(h) + rest;
    assert buf[16..] == PutU16(h.length) + ([TypeCode(h.msgType)] + rest);
    GetPutU16(h.length, [TypeCode(h.msgType)] + rest);
  }

  /** Framing then deframing gives the message back, and exactly the suffix, if and only if the
      message is within the protocol's limit. */
  lemma FrameRoundTrip(t: MessageType, body: seq<byte>, suffix: seq<byte>)
    ensures ParseMessage(Frame(t, body) + suffix) == Ok(Some((BgpMessage(NewHeader(t, |body|), body), suffix)))
       <==> HEADER_LEN + |body| <= MAX_MESSAGE_LEN
  {
    var h := NewHeader(t, |body|);
    var buf := Frame(t, body) + suffix;
    assert buf == SerializeHeader(h) + (body + suffix);
    ReadHeader(h, body + suffix);
    var total := HEADER_LEN + |body|;
    if total <= MAX_MESSAGE_LEN {
      assert buf[HEADER_LEN..total] == buf[HEADER_LEN..][..|body|] == body;
      assert buf[total..] == buf[HEADER_LEN..][|body|..] == suffix;
    }
  }

  /** Deframing leaves the right suffix only for a message within the limit. */
  lemma SuffixMeansFits(t: MessageType, body: seq<byte>, suffix: seq<byte>)
    ensures var r := ParseMessage(Frame(t, body) + suffix);
            r.Ok? && r.value.Some? && r.value.value.1 == suffix ==> HEADER_LEN + |body| <= MAX_MESSAGE_LEN
  {
    hide SerializeHeader, ParseHeader;
  }

  lemma TypeOfCode(code: byte)
    ensures TypeOf(code).Ok? ==> TypeCode(TypeOf(code).value) == code
  {
  }

  /** Every accepted message is the frame of its body: nothing else parses to it. */
  lemma AcceptedIsFrame(buf: seq<byte>)
    requires ParseMessage(buf).Ok? && ParseMessage(buf).value.Some?
    ensures var (m, rest) := ParseMessage(buf).value.value;
            buf == Frame(m.header.msgType, m.body) + rest && m.header == NewHeader(m.header.msgType, |m.body|)
  {
    hide PutU16, GetU16, TypeOf, TypeCode;
    var (m, rest) := ParseMessage(buf).value.value;
    PutGetU16(buf[16..]);
    TypeOfCode(buf[18]);
    var length := PutU16(m.header.length);
    assert length == buf[16..18];
    assert buf == MARKER + length + [buf[18]] + (m.body + rest);
  }

  // ----- The read loop -----

  /** What the inner loop delivers from a buffer: messages, what is left, and the error that ended it. */
  datatype Drained = Drained(messages: seq<BgpMessage>, rest: seq<byte>, error: Option<MessageError>)

  function Drain(buf: seq<byte>): Drained
    decreases |buf|
  {
    match ParseMessage(buf)
    case Err(e) => Drained([], buf, Some(e))
    case Ok(None) => Drained([], buf, None)
    case Ok(Some((m, rest))) =>
      var d := Drain(rest);
      Drained([m] + d.messages, d.rest, d.error)
  }

  /** What a session that reads `chunks` one by one delivers, with the chunks it did not get to. */
  datatype Fed = Fed(drained: Drained, unread: seq<seq<byte>>)

  function Feed(buf: seq<byte>, chunks: seq<seq<byte>>): Fed
    decreases |chunks|
  {
    if chunks == [] then Fed(Drained([], buf, None), [])
    else
      var d := Drain(buf + chunks[0]);
      if d.error.Some? then Fed(d, chunks[1..])
      else
        var f := Feed(d.rest, chunks[1..]);
        Fed(Drained(d.messages + f.drained.messages, f.drained.rest, f.drained.error), f.unread)
  }

  /** More data never changes a delivered message or a reported error. */
  lemma ParseExtend(buf: seq<byte>, more: seq<byte>)
    ensures ParseMessage(buf).Err? ==> ParseMessage(buf + more) == ParseMessage(buf)
    ensures ParseMessage(buf).Ok? && ParseMessage(buf).value.Some? ==>
              var (m, rest) := ParseMessage(buf).value.value;
              ParseMessage(buf + more) == Ok(Some((m, rest + more)))
  {
    if |buf| >= HEADER_LEN {
      var all := buf + more;
      assert all[..16] == buf[..16] && all[18] == buf[18];
      assert all[16..][..2] == buf[16..][..2];
      assert GetU16(all[16..]) == GetU16(buf[16..]);
      var r := ParseMessage(buf);
      if r.Ok? && r.value.Some? {
        var total: nat := r.value.value.0.header.length;
        assert all[HEADER_LEN..total] == buf[HEADER_LEN..total];
        assert all[total..] == buf[total..] + more;
      }
    }
  }

  /** Going on from a drained buffer when `more` arrives. */
  function DrainMore(d: Drained, more: seq<byte>): Drained {
    if d.error.Some? then d.(rest := d.rest + more)
    else
      var e := Drain(d.rest + more);
      Drained(d.messages + e.messages, e.rest, e.error)
  }

  lemma {:induction false} DrainExtend(buf: seq<byte>, more: seq<byte>)
    ensures Drain(buf + more) == DrainMore(Drain(buf), more)
    decreases |buf|
  {
    hide ParseMessage;
    ParseExtend(buf, more);
    var d := Drain(buf);
    match ParseMessage(buf)
    case Err(_) =>
    case Ok(None) =>
      var e := Drain(buf + more);
      assert [] + e.messages == e.messages;
    case Ok(Some((m, rest))) =>
      DrainExtend(rest, more);
      var dr := Drain(rest);
      if d.error.None? {
        var e := Drain(d.rest + more);
        assert [m] + (dr.messages + e.messages) == d.messages + e.messages;
      }
  }

  /** Deframing does not depend on how the stream is cut into reads: the same messages, the same
      error, and the same octets left once those of the unread chunks are counted. */
  lemma {:induction false} ChunkingIrrelevant(buf: seq<byte>, chunks: seq<seq<byte>>)
    requires ParseMessage(buf) == Ok(None)
    ensures var fed, whole := Feed(buf, chunks), Drain(buf + Concat(chunks));
            && fed.drained.messages == whole.messages
            && fed.drained.error == whole.error
            && fed.drained.rest + Concat(fed.unread) == whole.rest
            && (whole.error.None? ==> fed.unread == [])
    decreases |chunks|
  {
    if chunks == [] {
      assert buf + Concat(chunks) == buf;
    } else {
      var first, rest := buf + chunks[0], Concat(chunks[1..]);
      assert buf + Concat(chunks) == first + rest;
      DrainExtend(first, rest);
      var d := Drain(first);
      if d.error.None? {
        DrainStops(first);
        ChunkingIrrelevant(d.rest, chunks[1..]);
      }
    }
  }

  lemma {:induction false} DrainStops(buf: seq<byte>)
    requires Drain(buf).error.None?
    ensures ParseMessage(Drain(buf).rest) == Ok(None)
    decreases |buf|
  {
    var r := ParseMessage(buf);
    if r.Ok? && r.value.Some? {
      DrainStops(r.value.value.1);
    }
  }

  function Frames(messages: seq<BgpMessage>): seq<byte> {
    if messages == [] then []
    else Frame(messages[0].header.msgType, messages[0].body) + Frames(messages[1..])
  }

  /** No octet is lost or invented: the delivered frames and the rest are the input. */
  lemma {:induction false} DrainConserves(buf: seq<byte>)
    ensures var d := Drain(buf); Frames(d.messages) + d.rest == buf
    ensures var d := Drain(buf); HEADER_LEN * |d.messages| + |d.rest| <= |buf|
    decreases |buf|
  {
    var r := ParseMessage(buf);
    if r.Ok? && r.value.Some? {
      var (m, rest) := r.value.value;
      AcceptedIsFrame(buf);
      DrainConserves(rest);
      var d := Drain(rest);
      assert Drain(buf).messages == [m] + d.messages;
      assert ([m] + d.messages)[1..] == d.messages;
      assert Frame(m.header.msgType, m.body) + (Frames(d.messages) + d.rest)
          == Frame(m.header.msgType, m.body) + Frames(d.messages) + d.rest;
    }
  }

  /** The receive buffer of a session. */
  class ReadBuffer {
    var buf: seq<byte>

    constructor ()
      ensures buf == []
    {
      buf := [];
    }

    /** `BgpMessage::parse`: peeks the header, and consumes only a complete message. */
    method NextMessage() returns (r: Result<Option<BgpMessage>, MessageError>)
      modifies this
      ensures match ParseMessage(old(buf))
              case Err(e) => r == Err(e) && buf == old(buf)
              case Ok(None) => r == Ok(None) && buf == old(buf)
              case Ok(Some((m, rest))) => r == Ok(Some(m)) && buf == rest && |buf| + HEADER_LEN <= |old(buf)|
    {
      if |buf| < HEADER_LEN {
        return Ok(None);
      }
      var header := ParseHeader(buf);
      match header
      case Err(e) => return Err(e);
      case Ok(h) =>
        var total: nat := h.length;
        if |buf| < total {
          return Ok(None);
        }
        var body := buf[HEADER_LEN..total];
        buf := buf[total..];
        return Ok(Some(BgpMessage(h, body)));
    }

    /** Takes every complete message in the buffer. */
    method TakeMessages() returns (messages: seq<BgpMessage>, error: Option<MessageError>)
      modifies this
      ensures Drained(messages, buf, error) == Drain(old(buf))
    {
      messages, error := [], None;
      while true
        invariant Drain(old(buf)) == var e := Drain(buf); Drained(messages + e.messages, e.rest, e.error)
        decreases |buf|
      {
        var r := NextMessage();
        match r {
          case Err(e) =>
            error := Some(e);
            return;
          case Ok(None) =>
            error := None;
            return;
          case Ok(Some(m)) =>
            ghost var e := Drain(buf);
            assert messages + ([m] + e.messages) == (messages + [m]) + e.messages;
            messages := messages + [m];
        }
      }
    }

    /** The session's read loop: extend the buffer, then take every complete message; the first
        error ends the session with the remaining chunks unread. */
    method ReadAll(chunks: seq<seq<byte>>)
      returns (messages: seq<BgpMessage>, error: Option<MessageError>, unread: seq<seq<byte>>)
      modifies this
      ensures Fed(Drained(messages, buf, error), unread) == Feed(old(buf), chunks)
    {
      messages, error, unread := [], None, chunks;
      while unread != []
        invariant error.None?
        invariant Feed(old(buf), chunks) == Resume(messages, buf, unread)
        decreases |unread|
      {
        ghost var before, done := messages, buf;
        buf := buf + unread[0];
        var more;
        more, error := TakeMessages();
        unread := unread[1..];
        messages := messages + more;
        if error.Some? {
          return;
        }
        ghost var f := Feed(buf, unread).drained;
        assert before + (more + f.messages) == messages + f.messages;
      }
    }
  }

  /** The outcome of a session that has delivered `messages` and goes on from `buf`. */
  function Resume(messages: seq<BgpMessage>, buf: seq<byte>, chunks: seq<seq<byte>>): Fed {
    var f := Feed(buf, chunks);
    Fed(f.drained.(messages := messages + f.drained.messages), f.unread)
  }
}
