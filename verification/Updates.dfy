/** NLRI prefixes and UPDATE messages (src/message/update.rs). */
module Updates {
  import opened Wire
  import opened Attr
  import opened Prefixes
  import opened Framing
  import AttrCodec

  /** Number of octets that carry a prefix of `len` bits. */
  function EncodedLen(len: byte): nat {
    (len + 7) / 8
  }

  const ZEROS: seq<byte> := [0, 0, 0, 0]

  /** Reads one prefix. Lengths above 32 are accepted: at least `EncodedLen` octets must be there,
      but only the four address octets are consumed. */
  function ParsePrefix(buf: seq<byte>): (r: Result<(Prefix, seq<byte>), MessageError>)
    ensures r.Ok? ==> |r.value.1| < |buf|
  {
    if |buf| < 1 then Err(MessageError.TooShort(1, 0))
    else
      var octets := EncodedLen(buf[0]);
      if |buf| - 1 < octets then Err(MessageError.TooShort(octets, |buf| - 1))
      else
        var taken := if octets < 4 then octets else 4;
        Ok((Prefix(GetU32(buf[1..1 + taken] + ZEROS[taken..]), buf[0]), buf[1 + taken..]))
  }

  function ParsePrefixes(acc: seq<Prefix>, buf: seq<byte>): Result<seq<Prefix>, MessageError>
    decreases |buf|
  {
    if buf == [] then Ok(acc)
    else
      match ParsePrefix(buf)
      case Err(e) => Err(e)
      case Ok((p, rest)) => ParsePrefixes(acc + [p], rest)
  }

  /** The address octets are sliced, which panics above 32 bits. */
  predicate Serializable(p: Prefix) {
    p.prefixLen <= 32
  }

  function SerializePrefix(p: Prefix): seq<byte>
    requires Serializable(p)
  {
    [p.prefixLen] + PutU32(p.address)[..EncodedLen(p.prefixLen)]
  }

  ghost predicate AllSerializable(ps: seq<Prefix>) {
    forall i :: 0 <= i < |ps| ==> Serializable(ps[i])
  }

  function SerializePrefixes(ps: seq<Prefix>): seq<byte>
    requires AllSerializable(ps)
  {
    if ps == [] then [] else SerializePrefix(ps[0]) + SerializePrefixes(ps[1..])
  }

  datatype UpdateMessage = UpdateMessage(withdrawn: seq<Prefix>, attrs: PathAttributes, nlri: seq<Prefix>)

  ghost predicate CanSerialize(u: UpdateMessage) {
    AllSerializable(u.withdrawn) && AllSerializable(u.nlri)
  }

  /** The part of an UPDATE body after the withdrawn routes. */
  function ParseTail(withdrawn: seq<Prefix>, body: seq<byte>): Result<UpdateMessage, MessageError> {
    if |body| < 2 then Err(BufferUnderflow)
    else
      var attrLen: nat := GetU16(body);
      if |body| - 2 < attrLen then Err(MessageError.TooShort(attrLen, |body| - 2))
      else
        match Attr.Parse(body[2..2 + attrLen])
        case Err(_) => Err(ParseError)
        case Ok(attrs) =>
          match ParsePrefixes([], body[2 + attrLen..])
          case Err(e) => Err(e)
          case Ok(nlri) => Ok(UpdateMessage(withdrawn, attrs, nlri))
  }

  function ParseUpdate(body: seq<byte>): Result<UpdateMessage, MessageError> {
    if |body| < 4 then Err(MessageError.TooShort(4, |body|))
    else
      var withdrawnLen: nat := GetU16(body);
      if |body| - 2 < withdrawnLen then Err(MessageError.TooShort(withdrawnLen, |body| - 2))
      else
        match ParsePrefixes([], body[2..2 + withdrawnLen])
        case Err(e) => Err(e)
        case Ok(withdrawn) => ParseTail(withdrawn, body[2 + withdrawnLen..])
  }

  function Section(s: seq<byte>): seq<byte> {
    PutU16(|s| % 0x1_0000) + s
  }

  function UpdateBody(u: UpdateMessage): seq<byte>
    requires CanSerialize(u)
  {
    Section(SerializePrefixes(u.withdrawn)) + (Section(Serialize(u.attrs)) + SerializePrefixes(u.nlri))
  }

  function SerializeUpdate(u: UpdateMessage): seq<byte>
    requires CanSerialize(u)
  {
    Frame(Update, UpdateBody(u))
  }

  // ----- The buffer-driven forms -----

  method ReadOctets(buf: seq<byte>, byteLen: nat) returns (octets: array<byte>, taken: nat)
    requires |buf| >= byteLen
    ensures taken == (if byteLen < 4 then byteLen else 4)
    ensures octets.Length == 4 && octets[..] == buf[..taken] + ZEROS[taken..]
  {
    octets, taken := new byte[4](_ => 0), 0;
    while taken < 4 && taken < byteLen
      invariant 0 <= taken <= 4 && taken <= byteLen
      invariant octets[..] == buf[..taken] + ZEROS[taken..]
    {
      octets[taken] := buf[taken];
      taken := taken + 1;
    }
  }

  method ReadPrefixes(input: seq<byte>) returns (r: Result<seq<Prefix>, MessageError>)
    ensures r == ParsePrefixes([], input)
  {
    hide GetU32, EncodedLen;
    var prefixes, buf := [], input;
    while |buf| > 0
      invariant ParsePrefixes([], input) == ParsePrefixes(prefixes, buf)
      decreases |buf|
    {
      var prefixLen, rest := buf[0], buf[1..];
      var byteLen := EncodedLen(prefixLen);
      if |rest| < byteLen {
        return Err(MessageError.TooShort(byteLen, |rest|));
      }
      var octets, taken := ReadOctets(rest, byteLen);
      assert rest[..taken] == buf[1..1 + taken] && rest[taken..] == buf[1 + taken..];
      prefixes := prefixes + [Prefix(GetU32(octets[..]), prefixLen)];
      buf := rest[taken..];
    }
    return Ok(prefixes);
  }

  method ReadUpdate(body: seq<byte>) returns (r: Result<UpdateMessage, MessageError>)
    ensures r == ParseUpdate(body)
  {
    if |body| < 4 {
      return Err(MessageError.TooShort(4, |body|));
    }
    var withdrawnLen: nat, rest := GetU16(body), body[2..];
    if |rest| < withdrawnLen {
      return Err(MessageError.TooShort(withdrawnLen, |rest|));
    }
    assert rest[..withdrawnLen] == body[2..2 + withdrawnLen];
    assert rest[withdrawnLen..] == body[2 + withdrawnLen..];
    var withdrawn := ReadPrefixes(rest[..withdrawnLen]);
    if withdrawn.Err? {
      return Err(withdrawn.error);
    }
    rest := rest[withdrawnLen..];
    if |rest| < 2 {
      return Err(BufferUnderflow);
    }
    var attrLen: nat := GetU16(rest);
    if |rest| - 2 < attrLen {
      return Err(MessageError.TooShort(attrLen, |rest| - 2));
    }
    var attrs := AttrCodec.ParseAttributes(rest[2..2 + attrLen]);
    if attrs.Err? {
      return Err(ParseError);
    }
    var nlri := ReadPrefixes(rest[2 + attrLen..]);
    if nlri.Err? {
      return Err(nlri.error);
    }
    return Ok(UpdateMessage(withdrawn.value, attrs.value, nlri.value));
  }

  method WritePrefixes(ps: seq<Prefix>) returns (buf: seq<byte>)
    requires AllSerializable(ps)
    ensures buf == SerializePrefixes(ps)
  {
    hide PutU32;
    buf := [];
    for i := 0 to |ps|
      invariant buf + SerializePrefixes(ps[i..]) == SerializePrefixes(ps)
    {
      assert ps[i..][1..] == ps[i + 1..];
      var p := ps[i];
      ghost var next := SerializePrefixes(ps[i + 1..]);
      assert buf + (SerializePrefix(p) + next) == buf + SerializePrefix(p) + next;
      buf := buf + ([p.prefixLen] + PutU32(p.address)[..EncodedLen(p.prefixLen)]);
    }
  }

  lemma Joined(h: seq<byte>, a: seq<byte>, w: seq<byte>, b: seq<byte>, s: seq<byte>, n: seq<byte>)
    ensures h + a + w + b + s + n == h + ((a + w) + ((b + s) + n))
  {
  }

  method WriteUpdate(u: UpdateMessage) returns (out: seq<byte>)
    requires CanSerialize(u)
    ensures out == SerializeUpdate(u)
  {
    hide Serialize, SerializePrefixes, SerializeHeader, PutU16, AllSerializable;
    var withdrawnBuf := WritePrefixes(u.withdrawn);
    var attrBuf := AttrCodec.SerializeAttributes(u.attrs);
    var nlriBuf := WritePrefixes(u.nlri);
    var bodyLen := 2 + |withdrawnBuf| + 2 + |attrBuf| + |nlriBuf|;
    var header := SerializeHeader(NewHeader(Update, bodyLen));
    var withdrawnLen, attrLen := PutU16(|withdrawnBuf| % 0x1_0000), PutU16(|attrBuf| % 0x1_0000);
    out := header + withdrawnLen + withdrawnBuf + attrLen + attrBuf + nlriBuf;
    Joined(header, withdrawnLen, withdrawnBuf, attrLen, attrBuf, nlriBuf);
  }
}
