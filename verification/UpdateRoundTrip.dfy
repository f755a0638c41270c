/** Which UPDATE messages survive framing, deframing and parsing, one by one and in a stream. */
module UpdateRoundTrip {
  import opened Wire
  import opened Attr
  import opened Prefixes
  import opened Framing
  import opened Updates
  import AttrRoundTrip

  /** The octets of the address that are not sent are zero. */
  predicate UnsentOctetsZero(p: Prefix)
    requires Serializable(p)
  {
    PutU32(p.address)[EncodedLen(p.prefixLen)..] == ZEROS[EncodedLen(p.prefixLen)..]
  }

  ghost predicate AllCanonical(ps: seq<Prefix>) {
    forall i :: 0 <= i < |ps| ==> Serializable(ps[i]) && UnsentOctetsZero(ps[i])
  }

  lemma PutGetU32(s: seq<byte>)
    requires |s| == 4
    ensures PutU32(GetU32(s)) == s
  {
    hide PutU16, GetU16;
    var hi, lo := GetU16(s), GetU16(s[2..]);
    PutGetU16(s);
    PutGetU16(s[2..]);
    assert GetU32(s) / 0x1_0000 == hi && GetU32(s) % 0x1_0000 == lo;
    assert s == s[..2] + s[2..][..2];
  }

  lemma ReadPrefix(p: Prefix, rest: seq<byte>)
    requires Serializable(p)
    ensures var r := ParsePrefix(SerializePrefix(p) + rest);
            && r.Ok? && r.value.1 == rest
            && (UnsentOctetsZero(p) ==> r.value.0 == p)
  {
    var buf, n := SerializePrefix(p) + rest, EncodedLen(p.prefixLen);
    var octets := PutU32(p.address);
    assert buf[1..1 + n] == octets[..n];
    assert buf[1 + n..] == rest;
    if UnsentOctetsZero(p) {
      assert octets[..n] + ZEROS[n..] == octets;
      GetPutU32(p.address, []);
      assert octets + [] == octets;
    }
  }

  /** Whatever is parsed, the octets beyond the encoded length come out zero. */
  lemma ParsedIsCanonical(buf: seq<byte>)
    requires ParsePrefix(buf).Ok? && Serializable(ParsePrefix(buf).value.0)
    ensures UnsentOctetsZero(ParsePrefix(buf).value.0)
  {
    var n := EncodedLen(buf[0]);
    PutGetU32(buf[1..1 + n] + ZEROS[n..]);
  }

  lemma {:induction false} ReadPrefixList(acc: seq<Prefix>, ps: seq<Prefix>)
    requires AllCanonical(ps)
    ensures AllSerializable(ps)
    ensures ParsePrefixes(acc, SerializePrefixes(ps)) == Ok(acc + ps)
    decreases |ps|
  {
    if ps == [] {
      assert acc + ps == acc;
    } else {
      ReadPrefix(ps[0], SerializePrefixes(ps[1..]));
      ReadPrefixList(acc + [ps[0]], ps[1..]);
      assert acc + [ps[0]] + ps[1..] == acc + ps;
    }
  }

  lemma {:induction false} ParsedListIsCanonical(acc: seq<Prefix>, buf: seq<byte>)
    requires ParsePrefixes(acc, buf).Ok?
    requires AllCanonical(acc)
    requires AllSerializable(ParsePrefixes(acc, buf).value)
    ensures AllCanonical(ParsePrefixes(acc, buf).value)
    decreases |buf|
  {
    if buf != [] {
      var (p, rest) := ParsePrefix(buf).value;
      ParsedKeepsPrefix(acc + [p], rest);
      var all := ParsePrefixes(acc + [p], rest).value;
      assert p == all[|acc|];
      ParsedIsCanonical(buf);
      ParsedListIsCanonical(acc + [p], rest);
    }
  }

  lemma {:induction false} ParsedKeepsPrefix(acc: seq<Prefix>, buf: seq<byte>)
    requires ParsePrefixes(acc, buf).Ok?
    ensures acc <= ParsePrefixes(acc, buf).value
    decreases |buf|
  {
    if buf != [] {
      var (p, rest) := ParsePrefix(buf).value;
      ParsedKeepsPrefix(acc + [p], rest);
    }
  }

  lemma ReadSection(s: seq<byte>, rest: seq<byte>)
    requires |s| < 0x1_0000
    ensures var buf := Section(s) + rest;
            GetU16(buf) == |s| && buf[2..2 + |s|] == s && buf[2 + |s|..] == rest && |buf| - 2 >= |s|
  {
    var buf := Section(s) + rest;
    assert buf == PutU16(|s|) + (s + rest);
    GetPutU16(|s|, s + rest);
  }

  /** The parser sees exactly the three sections the printer wrote. */
  lemma ParseSections(u: UpdateMessage)
    requires CanSerialize(u) && |UpdateBody(u)| < 0x1_0000
    ensures ParseUpdate(UpdateBody(u))
         == match ParsePrefixes([], SerializePrefixes(u.withdrawn))
            case Err(e) => Err(e)
            case Ok(withdrawn) =>
              match Attr.Parse(Serialize(u.attrs))
              case Err(_) => Err(ParseError)
              case Ok(attrs) =>
                match ParsePrefixes([], SerializePrefixes(u.nlri))
                case Err(e) => Err(e)
                case Ok(nlri) => Ok(UpdateMessage(withdrawn, attrs, nlri))
  {
    hide PutU16, ParsePrefixes, Attr.Parse, Serialize, SerializePrefixes;
    var w, a, n := SerializePrefixes(u.withdrawn), Serialize(u.attrs), SerializePrefixes(u.nlri);
    ReadSection(w, Section(a) + n);
    ReadSection(a, n);
  }

  /** The caller's test: the message fits, its attributes are well formed and its prefixes have
      no address octets beyond those sent. */
  ghost predicate Transmissible(u: UpdateMessage)
    requires CanSerialize(u)
  {
    && HEADER_LEN + |UpdateBody(u)| <= MAX_MESSAGE_LEN
    && AttrRoundTrip.WellFormed(u.attrs)
    && AllCanonical(u.withdrawn)
    && AllCanonical(u.nlri)
  }

  /** The UPDATE a delivered message carries: the session dispatches on its type, then parses. */
  function UpdateIn(m: BgpMessage): Option<UpdateMessage> {
    if m.header.msgType != Update then None
    else
      match ParseUpdate(m.body)
      case Ok(u) => Some(u)
      case Err(_) => None
  }

  /** A received UPDATE with the octets after it, None if there is none. */
  function Receive(buf: seq<byte>): Option<(UpdateMessage, seq<byte>)> {
    match ParseMessage(buf)
    case Ok(Some((m, rest))) => if UpdateIn(m).Some? then Some((UpdateIn(m).value, rest)) else None
    case _ => None
  }

  lemma BodyRoundTrip(u: UpdateMessage)
    requires CanSerialize(u) && |UpdateBody(u)| < 0x1_0000
    ensures ParseUpdate(UpdateBody(u)) == Ok(u)
       <==> AttrRoundTrip.WellFormed(u.attrs) && AllCanonical(u.withdrawn) && AllCanonical(u.nlri)
  {
    hide ParseUpdate, UpdateBody, Attr.Parse, Serialize, AttrRoundTrip.WellFormed;
    hide ParsePrefixes, SerializePrefixes, UnsentOctetsZero, AllSerializable;
    ParseSections(u);
    AttrRoundTrip.RoundTrip(u.attrs);
    if AllCanonical(u.withdrawn) {
      ReadPrefixList([], u.withdrawn);
      assert [] + u.withdrawn == u.withdrawn;
    }
    if AllCanonical(u.nlri) {
      ReadPrefixList([], u.nlri);
      assert [] + u.nlri == u.nlri;
    }
    if ParseUpdate(UpdateBody(u)) == Ok(u) {
      ParsedListIsCanonical([], SerializePrefixes(u.withdrawn));
      ParsedListIsCanonical([], SerializePrefixes(u.nlri));
    }
  }

  /** An UPDATE comes back through framing, with exactly the following octets left over, if and
      only if it is transmissible. */
  lemma {:induction false} RoundTrip(u: UpdateMessage, suffix: seq<byte>)
    requires CanSerialize(u)
    ensures Receive(SerializeUpdate(u) + suffix) == Some((u, suffix)) <==> Transmissible(u)
  {
    hide ParseMessage, ParseUpdate, UpdateBody, AttrRoundTrip.WellFormed, AllCanonical;
    var body := UpdateBody(u);
    FrameRoundTrip(Update, body, suffix);
    SuffixMeansFits(Update, body, suffix);
    if HEADER_LEN + |body| <= MAX_MESSAGE_LEN {
      BodyRoundTrip(u);
    }
  }

  // ----- A stream of updates, cut anywhere -----

  ghost predicate AllTransmissible(us: seq<UpdateMessage>) {
    forall i :: 0 <= i < |us| ==> CanSerialize(us[i]) && Transmissible(us[i])
  }

  function SerializeAll(us: seq<UpdateMessage>): seq<byte>
    requires forall i :: 0 <= i < |us| ==> CanSerialize(us[i])
  {
    if us == [] then [] else SerializeUpdate(us[0]) + SerializeAll(us[1..])
  }

  /** The updates carried by delivered messages. */
  function Decode(messages: seq<BgpMessage>): seq<Option<UpdateMessage>> {
    if messages == [] then []
    else [UpdateIn(messages[0])] + Decode(messages[1..])
  }

  function Somes(us: seq<UpdateMessage>): seq<Option<UpdateMessage>> {
    if us == [] then [] else [Some(us[0])] + Somes(us[1..])
  }

  lemma DrainNothing()
    ensures Drain([]) == Drained([], [], None)
  {
  }

  lemma {:induction false} DrainSerialized(us: seq<UpdateMessage>)
    requires AllTransmissible(us)
    ensures var d := Drain(SerializeAll(us));
            d.rest == [] && d.error.None? && Decode(d.messages) == Somes(us)
  {
    hide ParseMessage, ParseUpdate, Transmissible, SerializeUpdate, CanSerialize;
    if us == [] {
      DrainNothing();
    } else {
      var buf := SerializeAll(us);
      RoundTrip(us[0], SerializeAll(us[1..]));
      DrainSerialized(us[1..]);
      var (m, rest) := ParseMessage(buf).value.value;
      var d := Drain(rest);
      assert Drain(buf).messages == [m] + d.messages;
      assert ([m] + d.messages)[1..] == d.messages;
    }
  }

  /** Any list of transmissible updates, written back to back and read in chunks of any sizes,
      arrives complete, in order and with nothing left over. */
  lemma {:induction false} StreamDelivered(us: seq<UpdateMessage>, chunks: seq<seq<byte>>)
    requires AllTransmissible(us) && Concat(chunks) == SerializeAll(us)
    ensures var fed := Feed([], chunks);
            && Decode(fed.drained.messages) == Somes(us)
            && fed.drained.rest == []
            && fed.drained.error.None?
            && fed.unread == []
  {
    DrainSerialized(us);
    ChunkingIrrelevant([], chunks);
    assert [] + Concat(chunks) == Concat(chunks);
  }

  /** The UPDATE parser reads past its buffer exactly when the withdrawn routes parse and leave
      fewer than two octets for the attribute length. */
  lemma UnderflowIff(body: seq<byte>)
    ensures ParseUpdate(body) == Err(BufferUnderflow)
       <==> |body| >= 4 && |body| - 4 < GetU16(body) <= |body| - 2
            && ParsePrefixes([], body[2..2 + GetU16(body)]).Ok?
  {
    if |body| >= 4 && GetU16(body) <= |body| - 2 {
      NoUnderflow([], body[2..2 + GetU16(body)]);
      var tail := body[2 + GetU16(body)..];
      if |tail| >= 2 && |tail| - 2 >= GetU16(tail) {
        NoUnderflow([], tail[2 + GetU16(tail)..]);
      }
    }
  }

  /** Four octets that announce one octet of withdrawn routes. */
  lemma UnderflowExample()
    ensures ParseUpdate([0, 1, 0, 0]) == Err(BufferUnderflow)
  {
    var body: seq<byte> := [0, 1, 0, 0];
    assert GetU16(body) == 1 && body[2..3] == [0] && body[3..] == [0];
    assert [0][..0] == [] && [0][1..0 + 1] == [] && [0][1..] == [];
    assert ParsePrefix([0]).Ok? && ParsePrefix([0]).value.1 == [];
    assert ParsePrefixes([], [0]).Ok?;
  }

  lemma {:induction false} NoUnderflow(acc: seq<Prefix>, buf: seq<byte>)
    ensures ParsePrefixes(acc, buf) != Err(BufferUnderflow)
    decreases |buf|
  {
    if buf != [] && ParsePrefix(buf).Ok? {
      var (p, rest) := ParsePrefix(buf).value;
      NoUnderflow(acc + [p], rest);
    }
  }
}
