/** BGP capabilities and their optional-parameter encoding (src/capabilities.rs). */
module Capabilities {
  import opened Wire

  datatype Capability =
    | MultiProtocol(afi: u16, safi: byte)
    | RouteRefresh
    | FourOctetAsn(asn: u32)
    | GracefulRestart(restartTime: u16, flags: byte)
    | Unknown(code: byte, data: seq<byte>)

  function Code(c: Capability): byte {
    match c
    case MultiProtocol(_, _) => 1
    case RouteRefresh => 2
    case GracefulRestart(_, _) => 64
    case FourOctetAsn(_) => 65
    case Unknown(code, _) => code
  }

  function Value(c: Capability): seq<byte> {
    match c
    case MultiProtocol(afi, safi) => PutU16(afi) + [0, safi]
    case RouteRefresh => []
    case GracefulRestart(time, flags) => PutU16(flags % 16 * 0x1000 + time % 0x1000)
    case FourOctetAsn(asn) => PutU32(asn)
    case Unknown(_, data) => data
  }

  /** Code, length (a truncating cast) and value. */
  function ToBytes(c: Capability): seq<byte> {
    [Code(c), |Value(c)| % 0x100] + Value(c)
  }

  function CapBytes(caps: seq<Capability>): seq<byte> {
    if caps == [] then [] else ToBytes(caps[0]) + CapBytes(caps[1..])
  }

  function ParseOne(code: byte, data: seq<byte>): Capability {
    if code == 1 && |data| >= 4 then MultiProtocol(GetU16(data), data[3])
    else if code == 2 then RouteRefresh
    else if code == 64 && |data| >= 2 then
      var word := GetU16(data);
      GracefulRestart(word % 0x1000, word / 0x1000)
    else if code == 65 && |data| >= 4 then FourOctetAsn(GetU32(data))
    else Unknown(code, data)
  }

  /** The inner loop: capabilities from `pos` while two octets remain before `end`. A value may run
      past `end`, up to the end of the data. */
  function CapsFrom(data: seq<byte>, pos: nat, end: nat, acc: seq<Capability>): seq<Capability>
    decreases |data| - pos
  {
    if pos + 2 <= end && pos + 2 <= |data| then
      var capEnd := pos + 2 + data[pos + 1];
      if capEnd > |data| then acc
      else CapsFrom(data, capEnd, end, acc + [ParseOne(data[pos], data[pos + 2..capEnd])])
    else acc
  }

  /** The outer loop over optional parameters; only type 2 carries capabilities. */
  function ParamsFrom(data: seq<byte>, pos: nat, acc: seq<Capability>): seq<Capability>
    decreases |data| - pos
  {
    if pos + 2 <= |data| then
      var end := pos + 2 + data[pos + 1];
      ParamsFrom(data, end, if data[pos] == 2 then CapsFrom(data, pos + 2, end, acc) else acc)
    else acc
  }

  method ReadCapabilities(data: seq<byte>, pos: nat, end: nat, acc: seq<Capability>) returns (caps: seq<Capability>)
    ensures caps == CapsFrom(data, pos, end, acc)
  {
    hide ParseOne;
    caps := acc;
    var capPos := pos;
    while capPos + 2 <= (if end < |data| then end else |data|)
      invariant capPos >= 0
      invariant CapsFrom(data, pos, end, acc) == CapsFrom(data, capPos, end, caps)
      decreases |data| - capPos
    {
      var capCode, capLen: nat := data[capPos], data[capPos + 1];
      var capEnd := capPos + 2 + capLen;
      if capEnd > |data| {
        break;
      }
      caps := caps + [ParseOne(capCode, data[capPos + 2..capEnd])];
      capPos := capEnd;
    }
  }

  method ParseOptionalParams(data: seq<byte>) returns (caps: seq<Capability>)
    ensures caps == ParamsFrom(data, 0, [])
  {
    hide CapsFrom;
    caps := [];
    var pos := 0;
    while pos + 2 <= |data|
      invariant 0 <= pos
      invariant ParamsFrom(data, 0, []) == ParamsFrom(data, pos, caps)
      decreases |data| - pos
    {
      var paramType, paramLen: nat := data[pos], data[pos + 1];
      pos := pos + 2;
      if paramType == 2 {
        caps := ReadCapabilities(data, pos, pos + paramLen, caps);
      }
      pos := pos + paramLen;
    }
  }

  /** The optional-parameters block with its own length octet: one parameter of type 2, or none. */
  function Block(caps: seq<Capability>): seq<byte> {
    var bytes := CapBytes(caps);
    if bytes == [] then [0] else [(2 + |bytes|) % 0x100, 2, |bytes| % 0x100] + bytes
  }

  lemma CapBytesNonEmpty(caps: seq<Capability>)
    requires caps != []
    ensures |CapBytes(caps)| >= 2
  {
  }

  method BuildCapabilities(caps: seq<Capability>) returns (block: seq<byte>)
    ensures block == Block(caps)
  {
    hide CapBytes;
    var bytes := JoinCapabilities(caps);
    if bytes == [] {
      return [0];
    }
    var out := [2, |bytes| % 0x100] + bytes;
    block := [|out| % 0x100] + out;
  }

  method JoinCapabilities(caps: seq<Capability>) returns (bytes: seq<byte>)
    ensures bytes == CapBytes(caps)
  {
    bytes := [];
    for i := 0 to |caps|
      invariant bytes + CapBytes(caps[i..]) == CapBytes(caps)
    {
      hide ToBytes;
      assert caps[i..][1..] == caps[i + 1..];
      assert bytes + (ToBytes(caps[i]) + CapBytes(caps[i + 1..])) == bytes + ToBytes(caps[i]) + CapBytes(caps[i + 1..]);
      bytes := bytes + ToBytes(caps[i]);
    }
  }

  // ----- What parsing gives back -----

  /** The bits a capability stores are the bits it sends, and an unknown one is not a known one. */
  predicate WellFormed(c: Capability) {
    match c
    case GracefulRestart(time, flags) => time < 0x1000 && flags < 16
    case Unknown(code, data) =>
      && code != 2
      && !(code == 1 && |data| >= 4)
      && !(code == 64 && |data| >= 2)
      && !(code == 65 && |data| >= 4)
    case _ => true
  }

  function Reparsed(c: Capability): Capability {
    ParseOne(Code(c), Value(c))
  }

  lemma RestartReparsed(time: u16, flags: byte)
    ensures Reparsed(GracefulRestart(time, flags)) == GracefulRestart(time % 0x1000, flags % 16)
  {
    var word := flags % 16 * 0x1000 + time % 0x1000;
    GetPutU16(word, []);
    assert PutU16(word) + [] == PutU16(word);
    assert word % 0x1000 == time % 0x1000 && word / 0x1000 == flags % 16;
  }

  lemma MultiProtocolReparsed(afi: u16, safi: byte)
    ensures Reparsed(MultiProtocol(afi, safi)) == MultiProtocol(afi, safi)
  {
    GetPutU16(afi, [0, safi]);
  }

  lemma AsnReparsed(asn: u32)
    ensures Reparsed(FourOctetAsn(asn)) == FourOctetAsn(asn)
  {
    GetPutU32(asn, []);
    assert PutU32(asn) + [] == PutU32(asn);
  }

  lemma {:induction false} ReparsedIff(c: Capability)
    ensures Reparsed(c) == c <==> WellFormed(c)
  {
    match c
    case MultiProtocol(afi, safi) => MultiProtocolReparsed(afi, safi); hide Reparsed;
    case FourOctetAsn(asn) => AsnReparsed(asn); hide Reparsed;
    case GracefulRestart(time, flags) => RestartReparsed(time, flags); hide Reparsed;
    case _ =>
  }

  function ReparsedAll(caps: seq<Capability>): seq<Capability> {
    if caps == [] then [] else [Reparsed(caps[0])] + ReparsedAll(caps[1..])
  }

  lemma {:induction false} ReparsedAllIff(caps: seq<Capability>)
    ensures ReparsedAll(caps) == caps <==> forall i :: 0 <= i < |caps| ==> WellFormed(caps[i])
  {
    if caps != [] {
      ReparsedIff(caps[0]);
      ReparsedAllIff(caps[1..]);
      assert caps == [caps[0]] + caps[1..];
      if ReparsedAll(caps) == caps {
        assert ReparsedAll(caps)[0] == caps[0];
        assert ReparsedAll(caps)[1..] == ReparsedAll(caps[1..]);
        assert forall i :: 0 < i < |caps| ==> caps[i] == caps[1..][i - 1];
      }
    }
  }

  lemma SliceOfSuffix(data: seq<byte>, pos: nat, i: nat, j: nat)
    requires i <= j && pos + j <= |data|
    ensures data[pos + i..pos + j] == data[pos..][i..j]
    ensures data[pos + j..] == data[pos..][j..]
  {
  }

  lemma CapabilityAt(data: seq<byte>, pos: nat, c: Capability, rest: seq<byte>)
    requires pos <= |data| && data[pos..] == ToBytes(c) + rest && |Value(c)| < 0x100
    ensures var next := pos + 2 + |Value(c)|;
            && next <= |data|
            && data[pos] == Code(c) && data[pos + 1] == |Value(c)|
            && data[pos + 2..next] == Value(c)
            && data[next..] == rest
  {
    hide Value, Code;
    var v := Value(c);
    var tail, n := data[pos..], |v|;
    assert tail == [Code(c), n] + (v + rest) by { Assoc([Code(c), n], v, rest); }
    assert data[pos] == tail[0] && data[pos + 1] == tail[1];
    assert tail[2..] == v + rest;
    assert tail[2..2 + n] == v by { assert tail[2..2 + n] == tail[2..][..n]; }
    assert tail[2 + n..] == rest by { assert tail[2 + n..] == tail[2..][n..]; }
    SliceOfSuffix(data, pos, 2, 2 + n);
  }

  lemma CapStep(data: seq<byte>, pos: nat, c: Capability, rest: seq<byte>, acc: seq<Capability>)
    requires pos <= |data| && data[pos..] == ToBytes(c) + rest && |Value(c)| < 0x100
    ensures var next := pos + 2 + |Value(c)|;
            && next <= |data| && data[next..] == rest
            && CapsFrom(data, pos, |data|, acc) == CapsFrom(data, next, |data|, acc + [Reparsed(c)])
  {
    hide ToBytes, Value, Code, ParseOne;
    CapabilityAt(data, pos, c, rest);
  }

  /** The inner loop inverts the list encoding, up to `Reparsed`. */
  lemma {:induction false} CapsParsed(data: seq<byte>, pos: nat, caps: seq<Capability>, acc: seq<Capability>)
    requires pos <= |data| && data[pos..] == CapBytes(caps) && |CapBytes(caps)| < 0x100
    ensures CapsFrom(data, pos, |data|, acc) == acc + ReparsedAll(caps)
    decreases |caps|
  {
    if caps == [] {
      assert acc + [] == acc;
    } else {
      CapsParsedNext(data, pos, caps, acc);
    }
  }

  lemma CapBytesHead(caps: seq<Capability>)
    requires caps != []
    ensures CapBytes(caps) == ToBytes(caps[0]) + CapBytes(caps[1..])
  {
  }

  lemma CapsParsedNext(data: seq<byte>, pos: nat, caps: seq<Capability>, acc: seq<Capability>)
    requires caps != []
    requires pos <= |data| && data[pos..] == CapBytes(caps) && |CapBytes(caps)| < 0x100
    ensures CapsFrom(data, pos, |data|, acc) == acc + ReparsedAll(caps)
    decreases |caps|, 0
  {
    hide Value, Code, CapsFrom, Reparsed, CapBytes;
    var c := caps[0];
    CapBytesHead(caps);
    CapStep(data, pos, c, CapBytes(caps[1..]), acc);
    CapsParsed(data, pos + 2 + |Value(c)|, caps[1..], acc + [Reparsed(c)]);
    Assoc(acc, [Reparsed(c)], ReparsedAll(caps[1..]));
  }

  lemma ParsedSize(code: byte, data: seq<byte>)
    ensures |ToBytes(ParseOne(code, data))| <= 2 + |data|
  {
  }

  lemma {:induction false} CapBytesAppend(caps: seq<Capability>, c: Capability)
    ensures CapBytes(caps + [c]) == CapBytes(caps) + ToBytes(c)
  {
    hide ToBytes;
    if caps == [] {
      assert [c][1..] == [];
      assert CapBytes([c]) == ToBytes(c) + CapBytes([]);
    } else {
      assert (caps + [c])[1..] == caps[1..] + [c];
      CapBytesAppend(caps[1..], c);
    }
  }

  /** Parsed capabilities never take more octets than were read. */
  lemma {:induction false} CapsSize(data: seq<byte>, pos: nat, end: nat, acc: seq<Capability>)
    requires pos <= |data|
    ensures |CapBytes(CapsFrom(data, pos, end, acc))| <= |CapBytes(acc)| + |data| - pos
    decreases |data| - pos
  {
    hide ParseOne, ToBytes;
    if pos + 2 <= end && pos + 2 <= |data| {
      var capEnd := pos + 2 + data[pos + 1];
      if capEnd <= |data| {
        var c := ParseOne(data[pos], data[pos + 2..capEnd]);
        ParsedSize(data[pos], data[pos + 2..capEnd]);
        CapBytesAppend(acc, c);
        CapsSize(data, capEnd, end, acc + [c]);
      }
    }
  }

  /** A single capability parameter holding `bytes`. */
  lemma OneParam(bytes: seq<byte>)
    requires |bytes| < 0x100
    ensures var data := [2, |bytes|] + bytes;
            && ParamsFrom(data, 0, []) == CapsFrom(data, 2, |data|, [])
            && |CapBytes(ParamsFrom(data, 0, []))| <= |bytes|
  {
    hide CapsFrom;
    var data := [2, |bytes|] + bytes;
    var caps := CapsFrom(data, 2, |data|, []);
    assert ParamsFrom(data, |data|, caps) == caps;
    CapsSize(data, 2, |data|, []);
  }
}
