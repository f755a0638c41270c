/** BGP path attributes and their TLV codec (src/attr.rs). */
module Attr {
  import opened Wire

  datatype Origin = Igp | Egp | Incomplete

  function OriginCode(o: Origin): byte {
    match o
    case Igp => 0
    case Egp => 1
    case Incomplete => 2
  }

  datatype AsPathSegment = AsSet(asns: seq<u32>) | AsSequence(asns: seq<u32>)

  datatype AttrError = TooShort | InvalidOrigin(code: byte) | InvalidAsPathSegment(code: byte)

  /** A flagged, typed value: the wire unit, and also how unknown attributes are kept. */
  datatype RawAttribute = RawAttribute(flags: byte, typeCode: byte, value: seq<byte>)

  datatype PathAttributes = PathAttributes(
    origin: Option<Origin>,
    asPath: seq<AsPathSegment>,
    nextHop: Option<u32>,
    multiExitDisc: Option<u32>,
    localPref: Option<u32>,
    atomicAggregate: bool,
    aggregator: Option<(u16, u32)>,
    communities: seq<u32>,
    originatorId: Option<u32>,
    clusterList: seq<u32>,
    unknown: seq<RawAttribute>)

  const DEFAULT_ATTRIBUTES: PathAttributes :=
    PathAttributes(None, [], None, None, None, false, None, [], None, [], [])

  const FLAG_OPTIONAL: byte := 0x80
  const FLAG_TRANSITIVE: byte := 0x40

  /** Bit 0x10 of the flags octet: the length field has two octets. */
  predicate HasExtendedLen(flags: byte) {
    flags / 0x10 % 2 == 1
  }

  function WithExtendedLen(flags: byte): byte {
    if HasExtendedLen(flags) then flags else flags + 0x10
  }

  /** AS_PATH length for best-path selection: an AS_SET counts as one. */
  function AsPathLen(path: seq<AsPathSegment>): nat {
    if path == [] then 0
    else (if path[0].AsSet? then 1 else |path[0].asns|) + AsPathLen(path[1..])
  }

  /** The End-of-RIB test on the attribute set. */
  predicate IsEmpty(a: PathAttributes) {
    a == DEFAULT_ATTRIBUTES
  }

  // ----- Parsing -----

  /** Reads one AS_PATH segment; the caller has seen at least two octets. */
  function ReadSegment(buf: seq<byte>): (r: Result<(AsPathSegment, seq<byte>), AttrError>)
    requires |buf| >= 2
    ensures r.Ok? ==> |r.value.1| + 2 + 4 * |r.value.0.asns| == |buf| && |r.value.0.asns| < 0x100
  {
    var n: nat := buf[1];
    if |buf| - 2 < 4 * n then Err(TooShort)
    else
      var asns := GetU32s(buf[2..], n);
      match buf[0]
      case 1 => Ok((AsSet(asns), buf[2 + 4 * n..]))
      case 2 => Ok((AsSequence(asns), buf[2 + 4 * n..]))
      case code => Err(InvalidAsPathSegment(code))
  }

  function ParseSegments(acc: seq<AsPathSegment>, buf: seq<byte>): Result<seq<AsPathSegment>, AttrError>
    decreases |buf|
  {
    if |buf| < 2 then Ok(acc)
    else
      match ReadSegment(buf)
      case Err(e) => Err(e)
      case Ok((s, rest)) => ParseSegments(acc + [s], rest)
  }

  /** Reads one attribute; the caller has seen at least three octets. */
  function ReadTlv(buf: seq<byte>): (r: Result<(RawAttribute, seq<byte>), AttrError>)
    requires |buf| >= 3
    ensures r.Ok? ==> |r.value.1| < |buf|
  {
    var header := if HasExtendedLen(buf[0]) then 4 else 3;
    if |buf| < header then Err(TooShort)
    else
      var len: nat := if HasExtendedLen(buf[0]) then GetU16(buf[2..]) else buf[2];
      if |buf| - header < len then Err(TooShort)
      else Ok((RawAttribute(buf[0], buf[1], buf[header..header + len]), buf[header + len..]))
  }

  /** Files one attribute value under its field. */
  function Store(a: PathAttributes, t: RawAttribute): Result<PathAttributes, AttrError> {
    var v := t.value;
    match t.typeCode
    case 1 =>
      if v == [] then Err(TooShort)
      else (match v[0]
            case 0 => Ok(a.(origin := Some(Igp)))
            case 1 => Ok(a.(origin := Some(Egp)))
            case 2 => Ok(a.(origin := Some(Incomplete)))
            case code => Err(InvalidOrigin(code)))
    case 2 =>
      (match ParseSegments(a.asPath, v)
       case Ok(path) => Ok(a.(asPath := path))
       case Err(e) => Err(e))
    case 3 => if |v| < 4 then Err(TooShort) else Ok(a.(nextHop := Some(GetU32(v))))
    case 4 => if |v| < 4 then Err(TooShort) else Ok(a.(multiExitDisc := Some(GetU32(v))))
    case 5 => if |v| < 4 then Err(TooShort) else Ok(a.(localPref := Some(GetU32(v))))
    case 6 => Ok(a.(atomicAggregate := true))
    case 7 =>
      if |v| < 6 then Err(TooShort)
      else Ok(a.(aggregator := Some((GetU16(v), GetU32(v[2..])))))
    case 8 => Ok(a.(communities := a.communities + GetU32s(v, |v| / 4)))
    case 9 => if |v| < 4 then Err(TooShort) else Ok(a.(originatorId := Some(GetU32(v))))
    case 10 => Ok(a.(clusterList := a.clusterList + GetU32s(v, |v| / 4)))
    case _ => Ok(a.(unknown := a.unknown + [t]))
  }

  /** What the parse loop returns when it has filled `a` and `buf` is left. */
  function ParseFrom(a: PathAttributes, buf: seq<byte>): Result<PathAttributes, AttrError>
    decreases |buf|
  {
    if |buf| < 3 then Ok(a)
    else
      match ReadTlv(buf)
      case Err(e) => Err(e)
      case Ok((t, rest)) =>
        match Store(a, t)
        case Err(e) => Err(e)
        case Ok(a') => ParseFrom(a', rest)
  }

  function Parse(buf: seq<byte>): Result<PathAttributes, AttrError> {
    ParseFrom(DEFAULT_ATTRIBUTES, buf)
  }

  // ----- Serializing -----

  function PutSegment(s: AsPathSegment): seq<byte> {
    [if s.AsSet? then 1 else 2, |s.asns| % 0x100] + PutU32s(s.asns)
  }

  function PutSegments(path: seq<AsPathSegment>): seq<byte> {
    if path == [] then [] else PutSegment(path[0]) + PutSegments(path[1..])
  }

  /** One attribute on the wire; the length field is a truncating cast. */
  function WriteAttr(t: RawAttribute): seq<byte> {
    if |t.value| > 255 then
      [WithExtendedLen(t.flags), t.typeCode] + PutU16(|t.value| % 0x1_0000) + t.value
    else
      [t.flags, t.typeCode, |t.value|] + t.value
  }

  function WriteAttrs(ts: seq<RawAttribute>): seq<byte> {
    if ts == [] then [] else WriteAttr(ts[0]) + WriteAttrs(ts[1..])
  }

  function Word(flags: byte, code: byte, x: Option<u32>): seq<RawAttribute> {
    if x.None? then [] else [RawAttribute(flags, code, PutU32(x.value))]
  }

  function Words(flags: byte, code: byte, xs: seq<u32>): seq<RawAttribute> {
    if xs == [] then [] else [RawAttribute(flags, code, PutU32s(xs))]
  }

  const FIELDS: nat := 11

  /** What `serialize` writes for the i-th field it looks at. */
  function FieldTlvs(a: PathAttributes, i: nat): seq<RawAttribute> {
    match i
    case 0 =>
      if a.origin.None? then [] else [RawAttribute(FLAG_TRANSITIVE, 1, [OriginCode(a.origin.value)])]
    case 1 =>
      if a.asPath == [] then [] else [RawAttribute(FLAG_TRANSITIVE, 2, PutSegments(a.asPath))]
    case 2 => Word(FLAG_TRANSITIVE, 3, a.nextHop)
    case 3 => Word(FLAG_OPTIONAL, 4, a.multiExitDisc)
    case 4 => Word(FLAG_TRANSITIVE, 5, a.localPref)
    case 5 => if a.atomicAggregate then [RawAttribute(FLAG_TRANSITIVE, 6, [])] else []
    case 6 =>
      if a.aggregator.None? then []
      else [RawAttribute(FLAG_OPTIONAL + FLAG_TRANSITIVE, 7,
                         PutU16(a.aggregator.value.0) + PutU32(a.aggregator.value.1))]
    case 7 => Words(FLAG_OPTIONAL + FLAG_TRANSITIVE, 8, a.communities)
    case 8 => Word(FLAG_OPTIONAL, 9, a.originatorId)
    case 9 => Words(FLAG_OPTIONAL, 10, a.clusterList)
    case _ => a.unknown
  }

  /** Everything written from the i-th field on. */
  function TlvsFrom(a: PathAttributes, i: nat): seq<RawAttribute>
    decreases FIELDS - i
  {
    if i >= FIELDS then [] else FieldTlvs(a, i) + TlvsFrom(a, i + 1)
  }

  function Serialize(a: PathAttributes): seq<byte> {
    WriteAttrs(TlvsFrom(a, 0))
  }
}
