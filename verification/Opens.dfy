/** OPEN messages and the exchange of capabilities through them (src/message/open.rs). */
module Opens {
  import opened Wire
  import opened Framing
  import Capabilities

  datatype OptionalParam = OptionalParam(paramType: byte, value: seq<byte>)

  datatype OpenMessage = OpenMessage(
    version: byte, myAs: u16, holdTime: u16, bgpId: u32, optionalParams: seq<OptionalParam>)

  function NewWithCapabilities(myAs: u16, holdTime: u16, bgpId: u32, caps: seq<Capabilities.Capability>): OpenMessage {
    OpenMessage(4, myAs, holdTime, bgpId,
                if caps == [] then [] else [OptionalParam(2, Capabilities.CapBytes(caps))])
  }

  function PutParams(params: seq<OptionalParam>): seq<byte> {
    if params == [] then []
    else [params[0].paramType, |params[0].value| % 0x100] + params[0].value + PutParams(params[1..])
  }

  function FixedPart(o: OpenMessage): (s: seq<byte>)
    ensures |s| == 9
  {
    [o.version] + PutU16(o.myAs) + PutU16(o.holdTime) + PutU32(o.bgpId)
  }

  function OpenBody(o: OpenMessage): seq<byte> {
    var opt := PutParams(o.optionalParams);
    FixedPart(o) + ([|opt| % 0x100] + opt)
  }

  function SerializeOpen(o: OpenMessage): seq<byte> {
    Frame(Open, OpenBody(o))
  }

  /** The parameter loop: `remaining` octets of parameters are still due. */
  function ParseParams(acc: seq<OptionalParam>, body: seq<byte>, remaining: nat): Result<seq<OptionalParam>, MessageError>
    requires remaining <= |body|
    decreases remaining
  {
    if remaining < 2 then Ok(acc)
    else
      var len: nat := body[1];
      if |body| - 2 < len || remaining - 2 < len then Err(ParseError)
      else ParseParams(acc + [OptionalParam(body[0], body[2..2 + len])], body[2 + len..], remaining - 2 - len)
  }

  function ParseOpen(body: seq<byte>): Result<OpenMessage, MessageError> {
    if |body| < 10 then Err(TooShort(10, |body|))
    else
      var optLen: nat := body[9];
      if |body| - 10 < optLen then Err(TooShort(optLen, |body| - 10))
      else
        match ParseParams([], body[10..], optLen)
        case Err(e) => Err(e)
        case Ok(params) => Ok(OpenMessage(body[0], GetU16(body[1..]), GetU16(body[3..]), GetU32(body[5..]), params))
  }

  /** `Capability::parse_from_open_params`: rebuilds the raw block, then parses it. */
  function CapabilitiesOf(o: OpenMessage): seq<Capabilities.Capability> {
    Capabilities.ParamsFrom(PutParams(o.optionalParams), 0, [])
  }

  // ----- The buffer-driven forms -----

  method ReadOpen(input: seq<byte>) returns (r: Result<OpenMessage, MessageError>)
    ensures r == ParseOpen(input)
  {
    if |input| < 10 {
      return Err(TooShort(10, |input|));
    }
    var optLen: nat, body := input[9], input[10..];
    if |body| < optLen {
      return Err(TooShort(optLen, |body|));
    }
    var params, remaining := [], optLen;
    while remaining >= 2
      invariant 0 <= remaining <= |body|
      invariant ParseParams([], input[10..], optLen) == ParseParams(params, body, remaining)
      decreases remaining
    {
      var paramType, paramLen: nat := body[0], body[1];
      remaining := remaining - 2;
      if |body| - 2 < paramLen || remaining < paramLen {
        return Err(ParseError);
      }
      params := params + [OptionalParam(paramType, body[2..2 + paramLen])];
      body := body[2 + paramLen..];
      remaining := remaining - paramLen;
    }
    return Ok(OpenMessage(input[0], GetU16(input[1..]), GetU16(input[3..]), GetU32(input[5..]), params));
  }

  method WriteParams(params: seq<OptionalParam>) returns (opt: seq<byte>)
    ensures opt == PutParams(params)
  {
    opt := [];
    for i := 0 to |params|
      invariant opt + PutParams(params[i..]) == PutParams(params)
    {
      assert params[i..][1..] == params[i + 1..];
      var p: seq<byte> := [params[i].paramType, |params[i].value| % 0x100] + params[i].value;
      assert opt + (p + PutParams(params[i + 1..])) == opt + p + PutParams(params[i + 1..]);
      opt := opt + p;
    }
  }

  method WriteOpen(o: OpenMessage) returns (out: seq<byte>)
    ensures out == SerializeOpen(o)
  {
    hide PutParams, FixedPart, SerializeHeader;
    var opt := WriteParams(o.optionalParams);
    var body := FixedPart(o) + ([|opt| % 0x100] + opt);
    out := SerializeHeader(NewHeader(Open, |body|)) + body;
  }

  // ----- The OPEN round trip -----

  lemma ReadOneParam(acc: seq<OptionalParam>, p: OptionalParam, tail: seq<byte>, rest: seq<byte>)
    requires |p.value| < 0x100
    ensures var opt := [p.paramType, |p.value|] + p.value + tail;
            ParseParams(acc, opt + rest, |opt|) == ParseParams(acc + [p], tail + rest, |tail|)
  {
    var body := [p.paramType, |p.value|] + p.value + tail + rest;
    assert body[2..2 + |p.value|] == p.value;
    assert body[2 + |p.value|..] == tail + rest;
  }

  lemma {:induction false} ReadParams(acc: seq<OptionalParam>, params: seq<OptionalParam>, rest: seq<byte>)
    requires |PutParams(params)| < 0x100
    ensures ParseParams(acc, PutParams(params) + rest, |PutParams(params)|) == Ok(acc + params)
    decreases |params|
  {
    if params == [] {
      assert acc + params == acc;
    } else {
      var p, tail := params[0], PutParams(params[1..]);
      ReadOneParam(acc, p, tail, rest);
      ReadParams(acc + [p], params[1..], rest);
      assert PutParams(params) == [p.paramType, |p.value|] + p.value + tail;
      assert acc + [p] + params[1..] == acc + params;
    }
  }

  function ParamsSize(params: seq<OptionalParam>): nat {
    if params == [] then 0 else 2 + |params[0].value| + ParamsSize(params[1..])
  }

  lemma {:induction false} PutParamsSize(params: seq<OptionalParam>)
    ensures |PutParams(params)| == ParamsSize(params)
  {
    if params != [] { PutParamsSize(params[1..]); }
  }

  lemma {:induction false} ParamsSizeAppend(params: seq<OptionalParam>, p: OptionalParam)
    ensures ParamsSize(params + [p]) == ParamsSize(params) + 2 + |p.value|
  {
    if params == [] {
      assert [p][1..] == [];
    } else {
      assert (params + [p])[1..] == params[1..] + [p];
      ParamsSizeAppend(params[1..], p);
    }
  }

  lemma {:induction false} ParsedParamsSize(acc: seq<OptionalParam>, body: seq<byte>, remaining: nat)
    requires remaining <= |body| && ParseParams(acc, body, remaining).Ok?
    ensures ParamsSize(ParseParams(acc, body, remaining).value) <= ParamsSize(acc) + remaining
    decreases remaining
  {
    if remaining >= 2 {
      var len: nat := body[1];
      var p := OptionalParam(body[0], body[2..2 + len]);
      ParamsSizeAppend(acc, p);
      ParsedParamsSize(acc + [p], body[2 + len..], remaining - 2 - len);
    }
  }

  lemma ReadFixedPart(o: OpenMessage, rest: seq<byte>)
    ensures var body := FixedPart(o) + rest;
            && body[0] == o.version && GetU16(body[1..]) == o.myAs && GetU16(body[3..]) == o.holdTime
            && GetU32(body[5..]) == o.bgpId && body[9..] == rest
  {
    var body := FixedPart(o) + rest;
    var id := PutU32(o.bgpId) + rest;
    assert body[1..] == PutU16(o.myAs) + (PutU16(o.holdTime) + id);
    assert body[3..] == PutU16(o.holdTime) + id;
    assert body[5..] == id;
    GetPutU16(o.myAs, PutU16(o.holdTime) + id);
    GetPutU16(o.holdTime, id);
    GetPutU32(o.bgpId, rest);
  }

  /** The parameters read back from a block whose length octet was cast to one octet. */
  function ParamsBack(opt: seq<byte>): Result<seq<OptionalParam>, MessageError> {
    ParseParams([], opt, |opt| % 0x100)
  }

  function WithParams(o: OpenMessage, params: Result<seq<OptionalParam>, MessageError>): Result<OpenMessage, MessageError> {
    match params
    case Err(e) => Err(e)
    case Ok(ps) => Ok(o.(optionalParams := ps))
  }

  lemma ParseOpenBody(o: OpenMessage)
    ensures ParseOpen(OpenBody(o)) == WithParams(o, ParamsBack(PutParams(o.optionalParams)))
  {
    var opt := PutParams(o.optionalParams);
    var body := OpenBody(o);
    ReadFixedPart(o, [|opt| % 0x100] + opt);
    assert body[9] == body[9..][0] && body[10..] == body[9..][1..] == opt;
  }

  /** An OPEN parses back to itself exactly when its parameters fit their one-octet length. */
  lemma OpenRoundTrip(o: OpenMessage)
    ensures ParseOpen(OpenBody(o)) == Ok(o) <==> |PutParams(o.optionalParams)| < 0x100
  {
    hide ParseOpen, OpenBody, ParseParams, PutParams;
    var opt := PutParams(o.optionalParams);
    ParseOpenBody(o);
    PutParamsSize(o.optionalParams);
    if |opt| < 0x100 {
      ReadParams([], o.optionalParams, []);
      assert opt + [] == opt && [] + o.optionalParams == o.optionalParams;
    } else if ParseOpen(OpenBody(o)) == Ok(o) {
      ParsedParamsSize([], opt, |opt| % 0x100);
    }
  }

  // ----- Capabilities through an OPEN -----

  /** The sender's test: every capability is well formed and the block fits its length octets. */
  predicate Negotiable(caps: seq<Capabilities.Capability>) {
    && (forall i :: 0 <= i < |caps| ==> Capabilities.WellFormed(caps[i]))
    && |Capabilities.CapBytes(caps)| <= 253
  }

  /** What the peer sees of `caps`: build, frame, deframe, parse, extract. */
  function Exchange(myAs: u16, holdTime: u16, bgpId: u32, caps: seq<Capabilities.Capability>, suffix: seq<byte>)
    : Option<(seq<Capabilities.Capability>, seq<byte>)>
  {
    match ParseMessage(SerializeOpen(NewWithCapabilities(myAs, holdTime, bgpId, caps)) + suffix)
    case Ok(Some((m, rest))) =>
      if m.header.msgType != Open then None
      else
        (match ParseOpen(m.body)
         case Ok(o) => Some((CapabilitiesOf(o), rest))
         case Err(_) => None)
    case _ => None
  }

  lemma OneParamBytes(p: OptionalParam)
    ensures PutParams([p]) == [p.paramType, |p.value| % 0x100] + p.value
  {
    assert [p][1..] == [];
    assert p.value + [] == p.value;
  }

  /** Parsing a capability block whose length octets may have been truncated leaves a prefix of it. */
  lemma ParseOneParam(bytes: seq<byte>)
    ensures var opt := [2, |bytes| % 0x100] + bytes;
            var r := ParamsBack(opt);
            && r.Ok?
            && (|bytes| <= 253 ==> r.value == [OptionalParam(2, bytes)])
            && (|bytes| > 253 ==> r.value == [] || exists n :: 0 <= n < |bytes| && n < 0x100 && r.value == [OptionalParam(2, bytes[..n])])
  {
    var opt := [2, |bytes| % 0x100] + bytes;
    var n := |bytes| % 0x100;
    if |opt| % 0x100 >= 2 {
      assert |opt| % 0x100 == n + 2;
      assert opt[2..2 + n] == bytes[..n];
      var p := OptionalParam(2, bytes[..n]);
      assert ParseParams([p], opt[2 + n..], 0) == Ok([p]);
      assert [] + [p] == [p];
      if |bytes| <= 253 {
        assert bytes[..n] == bytes;
      }
    }
  }

  lemma CapabilitiesOfPrefix(o: OpenMessage, bytes: seq<byte>)
    requires |bytes| < 0x100 && o.optionalParams == [OptionalParam(2, bytes)]
    ensures CapabilitiesOf(o) == Capabilities.CapsFrom([2, |bytes|] + bytes, 2, 2 + |bytes|, [])
    ensures |Capabilities.CapBytes(CapabilitiesOf(o))| <= |bytes|
  {
    hide PutParams, Capabilities.ParamsFrom, Capabilities.CapsFrom, Capabilities.CapBytes;
    OneParamBytes(o.optionalParams[0]);
    Capabilities.OneParam(bytes);
  }

  lemma NoParams(o: OpenMessage)
    requires o.optionalParams == []
    ensures CapabilitiesOf(o) == []
  {
  }

  lemma ExtractedCapabilities(o: OpenMessage, caps: seq<Capabilities.Capability>)
    requires caps != [] && o.optionalParams == [OptionalParam(2, Capabilities.CapBytes(caps))]
    ensures var r := ParseOpen(OpenBody(o));
            r.Ok? && (CapabilitiesOf(r.value) == caps <==> Negotiable(caps))
  {
    hide ParseOpen, OpenBody, ParamsBack, CapabilitiesOf, PutParams;
    hide Capabilities.CapBytes, Capabilities.CapsFrom, Capabilities.WellFormed, Capabilities.ReparsedAll;
    var bytes := Capabilities.CapBytes(caps);
    ParseOpenBody(o);
    OneParamBytes(o.optionalParams[0]);
    ParseOneParam(bytes);
    var r := ParseOpen(OpenBody(o)).value;
    if |bytes| <= 253 {
      CapabilitiesOfPrefix(r, bytes);
      var data := [2, |bytes|] + bytes;
      assert data[2..] == bytes;
      Capabilities.CapsParsed(data, 2, caps, []);
      assert [] + Capabilities.ReparsedAll(caps) == Capabilities.ReparsedAll(caps);
      Capabilities.ReparsedAllIff(caps);
    } else if r.optionalParams == [] {
      NoParams(r);
    } else {
      var n :| 0 <= n < |bytes| && n < 0x100 && r.optionalParams == [OptionalParam(2, bytes[..n])];
      CapabilitiesOfPrefix(r, bytes[..n]);
    }
  }

  /** A capability list arrives in order and unchanged through an OPEN, leaving exactly the octets
      that followed it, if and only if it is negotiable. */
  lemma CapabilityRoundTrip(myAs: u16, holdTime: u16, bgpId: u32, caps: seq<Capabilities.Capability>, suffix: seq<byte>)
    ensures Exchange(myAs, holdTime, bgpId, caps, suffix) == Some((caps, suffix)) <==> Negotiable(caps)
  {
    hide ParseMessage, ParseOpen, CapabilitiesOf, OpenBody, Capabilities.WellFormed;
    var o := NewWithCapabilities(myAs, holdTime, bgpId, caps);
    FrameRoundTrip(Open, OpenBody(o), suffix);
    SuffixMeansFits(Open, OpenBody(o), suffix);
    OpenSize(o, caps);
    if caps == [] {
      OpenRoundTrip(o);
      NoParams(o);
    } else {
      ExtractedCapabilities(o, caps);
    }
  }

  lemma OpenSize(o: OpenMessage, caps: seq<Capabilities.Capability>)
    requires o.optionalParams == if caps == [] then [] else [OptionalParam(2, Capabilities.CapBytes(caps))]
    ensures |OpenBody(o)| <= 12 + |Capabilities.CapBytes(caps)|
  {
    if caps != [] {
      OneParamBytes(o.optionalParams[0]);
    }
  }

  /** The two encoders write the same block, for every capability list. */
  lemma EncodersAgree(myAs: u16, holdTime: u16, bgpId: u32, caps: seq<Capabilities.Capability>)
    ensures OpenBody(NewWithCapabilities(myAs, holdTime, bgpId, caps))[9..] == Capabilities.Block(caps)
  {
    hide Capabilities.ToBytes, FixedPart;
    var o := NewWithCapabilities(myAs, holdTime, bgpId, caps);
    if caps != [] {
      OneParamBytes(o.optionalParams[0]);
      Capabilities.CapBytesNonEmpty(caps);
    }
  }
}
