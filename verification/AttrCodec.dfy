/** The buffer-driven attribute parser and printer of src/attr.rs, proved against the functions in Attr. */
module AttrCodec {
  import opened Wire
  import opened Attr

  method ReadSegments(path: seq<AsPathSegment>, value: seq<byte>) returns (r: Result<seq<AsPathSegment>, AttrError>)
    ensures r == ParseSegments(path, value)
  {
    hide GetU32;
    var out, segBuf := path, value;
    while |segBuf| >= 2
      invariant ParseSegments(path, value) == ParseSegments(out, segBuf)
      decreases |segBuf|
    {
      var segType, segLen: nat := segBuf[0], segBuf[1];
      if |segBuf| - 2 < segLen * 4 {
        return Err(TooShort);
      }
      var body := segBuf[2..];
      var rest, asns: seq<u32> := body, [];
      for i := 0 to segLen
        invariant rest == body[4 * i..]
        invariant asns == GetU32s(body, i)
      {
        GetU32sAppend(body, i);
        asns := asns + [GetU32(rest)];
        rest := rest[4..];
      }
      assert rest == segBuf[2 + 4 * segLen..];
      if segType == 1 {
        out := out + [AsSet(asns)];
      } else if segType == 2 {
        out := out + [AsSequence(asns)];
      } else {
        return Err(InvalidAsPathSegment(segType));
      }
      segBuf := rest;
    }
    return Ok(out);
  }

  /** Pushes every whole 32-bit word of `value`; up to three trailing octets are ignored. */
  method ReadWords(words: seq<u32>, value: seq<byte>) returns (r: seq<u32>)
    ensures r == words + GetU32s(value, |value| / 4)
  {
    r := words;
    var b := value;
    ghost var i := 0;
    while |b| >= 4
      invariant 0 <= i <= |value| / 4
      invariant b == value[4 * i..]
      invariant r == words + GetU32s(value, i)
      decreases |b|
    {
      GetU32sAppend(value, i);
      r := r + [GetU32(b)];
      b := b[4..];
      i := i + 1;
    }
  }

  method FileAttribute(attrs: PathAttributes, flags: byte, typeCode: byte, value: seq<byte>)
    returns (r: Result<PathAttributes, AttrError>)
    ensures r == Store(attrs, RawAttribute(flags, typeCode, value))
  {
    match typeCode
    case 1 =>
      if value == [] {
        return Err(TooShort);
      }
      match value[0] {
        case 0 => r := Ok(attrs.(origin := Some(Igp)));
        case 1 => r := Ok(attrs.(origin := Some(Egp)));
        case 2 => r := Ok(attrs.(origin := Some(Incomplete)));
        case code => r := Err(InvalidOrigin(code));
      }
    case 2 =>
      var path := ReadSegments(attrs.asPath, value);
      match path {
        case Err(e) => r := Err(e);
        case Ok(p) => r := Ok(attrs.(asPath := p));
      }
    case 6 =>
      r := Ok(attrs.(atomicAggregate := true));
    case 7 =>
      if |value| < 6 {
        return Err(TooShort);
      }
      r := Ok(attrs.(aggregator := Some((GetU16(value), GetU32(value[2..])))));
    case 8 =>
      var words := ReadWords(attrs.communities, value);
      r := Ok(attrs.(communities := words));
    case 10 =>
      var words := ReadWords(attrs.clusterList, value);
      r := Ok(attrs.(clusterList := words));
    case code =>
      if code in {3, 4, 5, 9} {
        if |value| < 4 {
          return Err(TooShort);
        }
        var word := Some(GetU32(value));
        if code == 3 {
          r := Ok(attrs.(nextHop := word));
        } else if code == 4 {
          r := Ok(attrs.(multiExitDisc := word));
        } else if code == 5 {
          r := Ok(attrs.(localPref := word));
        } else {
          r := Ok(attrs.(originatorId := word));
        }
      } else {
        r := Ok(attrs.(unknown := attrs.unknown + [RawAttribute(flags, typeCode, value)]));
      }
  }

  method ParseAttributes(input: seq<byte>) returns (r: Result<PathAttributes, AttrError>)
    ensures r == Parse(input)
  {
    var attrs, buf := DEFAULT_ATTRIBUTES, input;
    while |buf| >= 3
      invariant Parse(input) == ParseFrom(attrs, buf)
      decreases |buf|
    {
      hide Store;
      var flags, typeCode, header := buf[0], buf[1], 3;
      var length: nat := buf[2];
      if HasExtendedLen(flags) {
        if |buf| - 2 < 2 {
          return Err(TooShort);
        }
        length, header := GetU16(buf[2..]), 4;
      }
      if |buf| - header < length {
        return Err(TooShort);
      }
      var value := buf[header..header + length];
      var filed := FileAttribute(attrs, flags, typeCode, value);
      match filed {
        case Err(e) => return Err(e);
        case Ok(a) => attrs := a;
      }
      buf := buf[header + length..];
    }
    return Ok(attrs);
  }

  // ----- Printing -----

  /** What `serialize` has written once the first `i` fields are done. */
  function Written(a: PathAttributes, i: nat): seq<byte> {
    if i == 0 then [] else Written(a, i - 1) + WriteAttrs(FieldTlvs(a, i - 1))
  }

  lemma {:induction false} WriteAttrsAppend(xs: seq<RawAttribute>, ys: seq<RawAttribute>)
    ensures WriteAttrs(xs + ys) == WriteAttrs(xs) + WriteAttrs(ys)
  {
    if xs == [] {
      assert xs + ys == ys;
    } else {
      assert (xs + ys)[1..] == xs[1..] + ys;
      WriteAttrsAppend(xs[1..], ys);
    }
  }

  lemma TlvsStep(a: PathAttributes, i: nat)
    requires i < FIELDS
    ensures TlvsFrom(a, i) == FieldTlvs(a, i) + TlvsFrom(a, i + 1)
  {
    hide FieldTlvs;
  }

  lemma {:induction false} WrittenAll(a: PathAttributes, i: nat)
    requires i <= FIELDS
    ensures Written(a, i) + WriteAttrs(TlvsFrom(a, i)) == Serialize(a)
  {
    hide FieldTlvs, TlvsFrom, WriteAttrs;
    if i > 0 {
      var part, rest := FieldTlvs(a, i - 1), TlvsFrom(a, i);
      WrittenAll(a, i - 1);
      TlvsStep(a, i - 1);
      WriteAttrsAppend(part, rest);
      assert Written(a, i) + WriteAttrs(rest) == Written(a, i - 1) + (WriteAttrs(part) + WriteAttrs(rest));
    }
  }

  lemma WrittenNext(a: PathAttributes, i: nat, part: seq<RawAttribute>)
    requires part == FieldTlvs(a, i)
    ensures Written(a, i + 1) == Written(a, i) + WriteAttrs(part)
  {
  }

  lemma WriteOne(t: RawAttribute)
    ensures WriteAttrs([t]) == WriteAttr(t)
  {
    assert [t][1..] == [];
  }

  method AppendAttr(buf: seq<byte>, flags: byte, typeCode: byte, value: seq<byte>) returns (r: seq<byte>)
    ensures r == buf + WriteAttrs([RawAttribute(flags, typeCode, value)])
  {
    var len := |value|;
    if len > 255 {
      r := buf + [WithExtendedLen(flags), typeCode] + PutU16(len % 0x1_0000);
    } else {
      r := buf + [flags, typeCode, len];
    }
    r := r + value;
    WriteOne(RawAttribute(flags, typeCode, value));
  }

  method AppendWord(buf: seq<byte>, flags: byte, typeCode: byte, x: Option<u32>) returns (r: seq<byte>)
    ensures r == buf + WriteAttrs(Word(flags, typeCode, x))
  {
    r := buf;
    if x.Some? {
      r := AppendAttr(buf, flags, typeCode, PutU32(x.value));
    }
  }

  method AppendWords(buf: seq<byte>, flags: byte, typeCode: byte, xs: seq<u32>) returns (r: seq<byte>)
    ensures r == buf + WriteAttrs(Words(flags, typeCode, xs))
  {
    r := buf;
    if xs != [] {
      var v := [];
      for i := 0 to |xs|
        invariant v == PutU32s(xs[..i])
      {
        assert xs[..i + 1] == xs[..i] + [xs[i]];
        PutU32sAppend(xs[..i], xs[i]);
        v := v + PutU32(xs[i]);
      }
      assert xs[..|xs|] == xs;
      r := AppendAttr(buf, flags, typeCode, v);
    }
  }

  lemma PutSegmentsAppend(path: seq<AsPathSegment>, s: AsPathSegment)
    ensures PutSegments(path + [s]) == PutSegments(path) + PutSegment(s)
  {
    hide PutSegment;
    if path == [] {
      assert [s][1..] == [];
      assert PutSegments([s]) == PutSegment(s) + PutSegments([]);
    } else {
      assert (path + [s])[1..] == path[1..] + [s];
      PutSegmentsAppend(path[1..], s);
    }
  }

  method AppendPath(buf: seq<byte>, path: seq<AsPathSegment>) returns (r: seq<byte>)
    ensures r == buf + WriteAttrs(if path == [] then [] else [RawAttribute(FLAG_TRANSITIVE, 2, PutSegments(path))])
  {
    r := buf;
    if path != [] {
      var segBuf := [];
      for i := 0 to |path|
        invariant segBuf == PutSegments(path[..i])
      {
        assert path[..i + 1] == path[..i] + [path[i]];
        PutSegmentsAppend(path[..i], path[i]);
        var asns := path[i].asns;
        var words := [];
        for j := 0 to |asns|
          invariant words == PutU32s(asns[..j])
        {
          assert asns[..j + 1] == asns[..j] + [asns[j]];
          PutU32sAppend(asns[..j], asns[j]);
          words := words + PutU32(asns[j]);
        }
        assert asns[..|asns|] == asns;
        segBuf := segBuf + ([if path[i].AsSet? then 1 else 2, |asns| % 0x100] + words);
      }
      assert path[..|path|] == path;
      r := AppendAttr(buf, FLAG_TRANSITIVE, 2, segBuf);
    }
  }

  method AppendOrigin(buf: seq<byte>, a: PathAttributes) returns (r: seq<byte>)
    ensures r == buf + WriteAttrs(FieldTlvs(a, 0))
  {
    r := buf;
    if a.origin.Some? {
      r := AppendAttr(r, FLAG_TRANSITIVE, 1, [OriginCode(a.origin.value)]);
    }
  }

  method AppendAtomic(buf: seq<byte>, a: PathAttributes) returns (r: seq<byte>)
    ensures r == buf + WriteAttrs(FieldTlvs(a, 5))
  {
    r := buf;
    if a.atomicAggregate {
      r := AppendAttr(r, FLAG_TRANSITIVE, 6, []);
    }
  }

  method AppendAggregator(buf: seq<byte>, a: PathAttributes) returns (r: seq<byte>)
    ensures r == buf + WriteAttrs(FieldTlvs(a, 6))
  {
    r := buf;
    if a.aggregator.Some? {
      var (asn, ip) := a.aggregator.value;
      r := AppendAttr(r, FLAG_OPTIONAL + FLAG_TRANSITIVE, 7, PutU16(asn) + PutU32(ip));
    }
  }

  lemma WriteNextAttr(ts: seq<RawAttribute>, i: nat)
    requires i < |ts|
    ensures WriteAttrs(ts[..i + 1]) == WriteAttrs(ts[..i]) + WriteAttrs([ts[i]])
  {
    assert ts[..i + 1] == ts[..i] + [ts[i]];
    WriteAttrsAppend(ts[..i], [ts[i]]);
  }

  method AppendUnknown(buf: seq<byte>, unknown: seq<RawAttribute>) returns (r: seq<byte>)
    ensures r == buf + WriteAttrs(unknown)
  {
    r := buf;
    assert WriteAttrs([]) == [];
    for i := 0 to |unknown|
      invariant r == buf + WriteAttrs(unknown[..i])
    {
      var t := unknown[i];
      WriteNextAttr(unknown, i);
      Assoc(buf, WriteAttrs(unknown[..i]), WriteAttrs([t]));
      r := AppendAttr(r, t.flags, t.typeCode, t.value);
    }
    assert unknown[..|unknown|] == unknown;
  }

  lemma NothingWritten(a: PathAttributes)
    ensures Written(a, 0) == []
  {
  }

  lemma TlvsEnd(a: PathAttributes)
    ensures WriteAttrs(TlvsFrom(a, FIELDS)) == []
  {
  }

  lemma WrittenWhole(a: PathAttributes)
    ensures Written(a, FIELDS) == Serialize(a)
  {
    hide Written, TlvsFrom, WriteAttrs;
    WrittenAll(a, FIELDS);
    TlvsEnd(a);
    assert Written(a, FIELDS) + [] == Written(a, FIELDS);
  }

  /** ORIGIN to LOCAL_PREF. */
  method AppendFirstFields(a: PathAttributes) returns (buf: seq<byte>)
    ensures buf == Written(a, 5)
  {
    hide Written, WriteAttrs;
    NothingWritten(a);
    buf := AppendOrigin([], a);
    WrittenNext(a, 0, FieldTlvs(a, 0));
    buf := AppendPath(buf, a.asPath);
    WrittenNext(a, 1, FieldTlvs(a, 1));
    buf := AppendWord(buf, FLAG_TRANSITIVE, 3, a.nextHop);
    WrittenNext(a, 2, FieldTlvs(a, 2));
    buf := AppendWord(buf, FLAG_OPTIONAL, 4, a.multiExitDisc);
    WrittenNext(a, 3, FieldTlvs(a, 3));
    buf := AppendWord(buf, FLAG_TRANSITIVE, 5, a.localPref);
    WrittenNext(a, 4, FieldTlvs(a, 4));
  }

  /** ATOMIC_AGGREGATE to CLUSTER_LIST. */
  method AppendMiddleFields(start: seq<byte>, a: PathAttributes) returns (buf: seq<byte>)
    requires start == Written(a, 5)
    ensures buf == Written(a, 10)
  {
    hide Written, WriteAttrs;
    buf := AppendAtomic(start, a);
    WrittenNext(a, 5, FieldTlvs(a, 5));
    buf := AppendAggregator(buf, a);
    WrittenNext(a, 6, FieldTlvs(a, 6));
    buf := AppendWords(buf, FLAG_OPTIONAL + FLAG_TRANSITIVE, 8, a.communities);
    WrittenNext(a, 7, FieldTlvs(a, 7));
    buf := AppendWord(buf, FLAG_OPTIONAL, 9, a.originatorId);
    WrittenNext(a, 8, FieldTlvs(a, 8));
    buf := AppendWords(buf, FLAG_OPTIONAL, 10, a.clusterList);
    WrittenNext(a, 9, FieldTlvs(a, 9));
  }

  method SerializeAttributes(a: PathAttributes) returns (buf: seq<byte>)
    ensures buf == Serialize(a)
  {
    hide Written, TlvsFrom, WriteAttrs, Serialize;
    buf := AppendFirstFields(a);
    buf := AppendMiddleFields(buf, a);
    buf := AppendUnknown(buf, a.unknown);
    WrittenNext(a, 10, FieldTlvs(a, 10));
    WrittenWhole(a);
  }
}
