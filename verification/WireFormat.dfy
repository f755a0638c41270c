/** The wire format octet by octet, as sections 4.1 to 4.3 of RFC 4271 lay it out: what the parsers accept
    and refuse, and what the printers write (src/message/, src/attr.rs, src/capabilities.rs). */
module WireFormat {
  import opened Wire
  import opened Prefixes
  import opened Framing
  import opened Updates
  import opened Opens
  import opened Capabilities

  // ----- Integers: network byte order -----

  /** The number a string of octets stands for. */
  function BigEndian(s: seq<byte>): (n: nat)
    ensures |s| <= 1 ==> n < 0x100
    ensures |s| <= 2 ==> n < 0x1_0000
    ensures |s| <= 3 ==> n < 0x100_0000
    ensures |s| <= 4 ==> n < 0x1_0000_0000
  {
    if s == [] then 0 else BigEndian(s[..|s| - 1]) * 256 + s[|s| - 1]
  }

  lemma WordOctets(s: seq<byte>)
    ensures |s| >= 2 ==> GetU16(s) == BigEndian(s[..2])
    ensures |s| >= 4 ==> GetU32(s) == BigEndian(s[..4])
  {
    if |s| >= 2 {
      assert s[..2][..1] == [s[0]] && s[..1][..0] == [];
      assert BigEndian([s[0]]) == s[0];
    }
    if |s| >= 4 {
      assert s[..4][..3] == s[..3] && s[..3][..2] == s[..2];
      assert BigEndian(s[..3]) == BigEndian(s[..2]) * 256 + s[2];
    }
  }

  lemma PutOctets(n: u16, m: u32)
    ensures BigEndian(PutU16(n)) == n && BigEndian(PutU32(m)) == m
  {
    GetPutU16(n, []);
    GetPutU32(m, []);
    assert PutU16(n) + [] == PutU16(n) && PutU16(n)[..2] == PutU16(n);
    assert PutU32(m) + [] == PutU32(m) && PutU32(m)[..4] == PutU32(m);
    WordOctets(PutU16(n));
    WordOctets(PutU32(m));
  }

  // ----- The header -----

  function TypeNamed(code: byte): Option<MessageType> {
    if code == 1 then Some(MessageType.Open)
    else if code == 2 then Some(MessageType.Update)
    else if code == 3 then Some(Notification)
    else if code == 4 then Some(Keepalive)
    else if code == 5 then Some(MessageType.RouteRefresh)
    else None
  }

  predicate AllOnes(s: seq<byte>) {
    forall i :: 0 <= i < |s| ==> s[i] == 255
  }

  lemma MarkerIsOnes(s: seq<byte>)
    requires |s| == 16
    ensures s == MARKER <==> AllOnes(s)
  {
  }

  /** Which headers are accepted, with what, and how each other header is refused. */
  lemma HeaderOctets(buf: seq<byte>)
    ensures |buf| < 19 ==> ParseHeader(buf) == Err(MessageError.TooShort(19, |buf|)) && ParseMessage(buf) == Ok(None)
    ensures |buf| >= 19 ==>
              var marked, length, named := AllOnes(buf[..16]), BigEndian(buf[16..18]), TypeNamed(buf[18]);
              var sized, r := 19 <= length <= 4096, ParseHeader(buf);
              && (!marked ==> r == Err(InvalidMarker))
              && (marked && !sized ==> r.Err? && r.error.InvalidLength? && r.error.length == length)
              && (marked && sized && named.None? ==> r == Err(UnknownType(buf[18])))
              && (marked && sized && named.Some? ==> r == Ok(Header(length, named.value)))
              && (marked && sized && named.Some? ==>
                    ParseMessage(buf)
                    == Ok(if |buf| < length then None
                          else Some((BgpMessage(Header(length, named.value), buf[19..length]), buf[length..]))))
              && (r.Err? ==> ParseMessage(buf) == Err(r.error))
  {
    if |buf| >= 19 {
      MarkerIsOnes(buf[..16]);
      WordOctets(buf[16..]);
      assert buf[16..][..2] == buf[16..18];
    }
  }

  /** The octets of a message, for a body within the limit. */
  lemma FrameOctets(t: MessageType, body: seq<byte>)
    requires 19 + |body| <= 4096
    ensures var f := Frame(t, body);
            && |f| == 19 + |body| && AllOnes(f[..16])
            && BigEndian(f[16..18]) == |f| && TypeNamed(f[18]) == Some(t) && f[19..] == body
  {
    var f := Frame(t, body);
    MarkerIsOnes(MARKER);
    assert f[..16] == MARKER && f[16..18] == PutU16(|f|);
    PutOctets(|f|, 0);
  }

  // ----- Prefixes -----

  /** As many octets as the bits of the prefix need. */
  function OctetsFor(bits: byte): (n: nat)
    ensures 8 * n - 8 < bits <= 8 * n
  {
    if bits % 8 == 0 then bits / 8 else bits / 8 + 1
  }

  function AddressOctets(bits: byte): nat {
    if OctetsFor(bits) < 4 then OctetsFor(bits) else 4
  }

  /** `buf` begins with `p`: the length in bits, then its address octets; those not sent are zero. */
  predicate StartsWith(buf: seq<byte>, p: Prefix) {
    && buf != [] && |buf| >= 1 + OctetsFor(buf[0])
    && p.prefixLen == buf[0]
    && p.address == BigEndian(buf[1..1 + AddressOctets(buf[0])] + [0, 0, 0, 0][AddressOctets(buf[0])..])
  }

  lemma PrefixOctets(buf: seq<byte>)
    ensures buf == [] ==> ParsePrefix(buf) == Err(MessageError.TooShort(1, 0))
    ensures buf != [] && |buf| < 1 + OctetsFor(buf[0]) ==>
              ParsePrefix(buf) == Err(MessageError.TooShort(OctetsFor(buf[0]), |buf| - 1))
    ensures buf != [] && |buf| >= 1 + OctetsFor(buf[0]) ==>
              && ParsePrefix(buf).Ok? && StartsWith(buf, ParsePrefix(buf).value.0)
              && ParsePrefix(buf).value.1 == buf[1 + AddressOctets(buf[0])..]
  {
    if buf != [] {
      assert EncodedLen(buf[0]) == OctetsFor(buf[0]);
      if |buf| >= 1 + OctetsFor(buf[0]) {
        var four := buf[1..1 + AddressOctets(buf[0])] + [0, 0, 0, 0][AddressOctets(buf[0])..];
        WordOctets(four);
        assert four[..4] == four;
      }
    }
  }

  /** `buf` is cut into the prefixes `ps`, with nothing left. */
  predicate PrefixesCut(ps: seq<Prefix>, buf: seq<byte>)
    decreases |ps|
  {
    if ps == [] then buf == []
    else StartsWith(buf, ps[0]) && PrefixesCut(ps[1..], buf[1 + AddressOctets(buf[0])..])
  }

  /** A prefix list is accepted exactly if it can be cut, and then as what it is cut into. */
  lemma {:induction false} PrefixListOctets(acc: seq<Prefix>, buf: seq<byte>)
    ensures forall ps :: PrefixesCut(ps, buf) ==> ParsePrefixes(acc, buf) == Ok(acc + ps)
    ensures ParsePrefixes(acc, buf).Ok? ==> exists ps :: PrefixesCut(ps, buf)
    ensures ParsePrefixes(acc, buf).Err? ==>
              exists i :: 0 <= i < |buf| && ParsePrefix(buf[i..]) == Err(ParsePrefixes(acc, buf).error)
    decreases |buf|
  {
    hide ParsePrefix, BigEndian;
    assert buf[0..] == buf;
    if buf == [] {
      assert PrefixesCut([], buf) && acc + [] == acc;
    } else {
      PrefixOctets(buf);
      if |buf| >= 1 + OctetsFor(buf[0]) {
        var (p, rest) := ParsePrefix(buf).value;
        PrefixListOctets(acc + [p], rest);
        var later := ParsePrefixes(acc + [p], rest);
        if later.Err? {
          var i :| 0 <= i < |rest| && ParsePrefix(rest[i..]) == Err(later.error);
          assert rest[i..] == buf[1 + AddressOctets(buf[0]) + i..];
        }
        forall ps | PrefixesCut(ps, buf) ensures ParsePrefixes(acc, buf) == Ok(acc + ps) {
          assert ps == [p] + ps[1..];
          Assoc(acc, [p], ps[1..]);
        }
        if ps :| PrefixesCut(ps, rest) {
          assert ([p] + ps)[1..] == ps;
          assert PrefixesCut([p] + ps, buf);
        }
      }
    }
  }

  /** A prefix as written: its bits, then the leading octets of its address. */
  lemma PrefixPrinted(p: Prefix)
    requires Serializable(p)
    ensures var s, n := SerializePrefix(p), OctetsFor(p.prefixLen);
            && |s| == 1 + n && s[0] == p.prefixLen
            && exists address: seq<byte> :: |address| == 4 && BigEndian(address) == p.address && s[1..] == address[..n]
  {
    hide BigEndian, PutU32;
    assert EncodedLen(p.prefixLen) == OctetsFor(p.prefixLen) <= 4;
    PutOctets(0, p.address);
    assert SerializePrefix(p)[1..] == PutU32(p.address)[..OctetsFor(p.prefixLen)];
  }

  // ----- UPDATE -----

  /** The three sections of an UPDATE body by position: withdrawn routes, attributes, NLRI; and what is
      reported when one of them does not fit or does not parse. */
  lemma UpdateOctets(body: seq<byte>)
    ensures |body| < 4 ==> ParseUpdate(body) == Err(MessageError.TooShort(4, |body|))
    ensures |body| >= 4 ==>
              var w := BigEndian(body[..2]);
              if 2 + w > |body| then ParseUpdate(body) == Err(MessageError.TooShort(w, |body| - 2))
              else
                var withdrawn := ParsePrefixes([], body[2..2 + w]);
                if withdrawn.Err? then ParseUpdate(body) == Err(withdrawn.error)
                else if 4 + w > |body| then ParseUpdate(body) == Err(BufferUnderflow)
                else
                  var a := BigEndian(body[2 + w..4 + w]);
                  if 4 + w + a > |body| then ParseUpdate(body) == Err(MessageError.TooShort(a, |body| - 4 - w))
                  else
                    var attrs, nlri := Attr.Parse(body[4 + w..4 + w + a]), ParsePrefixes([], body[4 + w + a..]);
                    ParseUpdate(body) == if attrs.Err? then Err(ParseError)
                                         else if nlri.Err? then Err(nlri.error)
                                         else Ok(UpdateMessage(withdrawn.value, attrs.value, nlri.value))
  {
    hide ParsePrefixes, Attr.Parse, BigEndian, GetU16;
    if |body| >= 4 {
      WordOctets(body);
      var w: nat := GetU16(body);
      if 2 + w <= |body| {
        var tail := body[2 + w..];
        WordOctets(tail);
        if |tail| >= 2 {
          assert tail[..2] == body[2 + w..4 + w];
          var a: nat := GetU16(tail);
          if 2 + a <= |tail| {
            assert tail[2..2 + a] == body[4 + w..4 + w + a] && tail[2 + a..] == body[4 + w + a..];
          }
        }
      }
    }
  }

  // ----- OPEN -----

  /** `buf` is cut into the parameters `ps`; a single octet may be left over. */
  predicate ParamsCut(ps: seq<OptionalParam>, buf: seq<byte>)
    decreases |ps|
  {
    if ps == [] then |buf| < 2
    else
      && |buf| >= 2 && 2 + buf[1] as int <= |buf|
      && ps[0] == OptionalParam(buf[0], buf[2..2 + buf[1] as int])
      && ParamsCut(ps[1..], buf[2 + buf[1] as int..])
  }

  lemma BlockParts(body: seq<byte>, n: nat, i: nat)
    requires 2 <= i <= n <= |body|
    ensures body[..n][2..i] == body[2..i] && body[..n][i..] == body[i..][..n - i]
  {
    var rest := body[i..][..n - i];
    assert |body[..n][i..]| == |rest|;
    assert forall j :: 0 <= j < n - i ==> body[..n][i..][j] == body[i + j] == rest[j];
  }

  lemma {:induction false} ParamsOctets(acc: seq<OptionalParam>, body: seq<byte>, n: nat)
    requires n <= |body|
    ensures forall ps :: ParamsCut(ps, body[..n]) ==> ParseParams(acc, body, n) == Ok(acc + ps)
    ensures (forall ps :: !ParamsCut(ps, body[..n])) ==> ParseParams(acc, body, n) == Err(ParseError)
    decreases n
  {
    var block := body[..n];
    if n < 2 {
      assert ParamsCut([], block) && acc + [] == acc;
    } else {
      var len: nat := body[1];
      assert block[0] == body[0] && block[1] == body[1];
      if 2 + len <= n {
        var p := OptionalParam(body[0], body[2..2 + len]);
        var tail := block[2 + len..];
        BlockParts(body, n, 2 + len);
        ParamsOctets(acc + [p], body[2 + len..], n - 2 - len);
        forall ps | ParamsCut(ps, block) ensures ParseParams(acc, body, n) == Ok(acc + ps) {
          assert ps == [p] + ps[1..];
          Assoc(acc, [p], ps[1..]);
        }
        if ps :| ParamsCut(ps, tail) {
          assert ([p] + ps)[1..] == ps;
          assert ParamsCut([p] + ps, block);
        }
      }
    }
  }

  /** The fields of an OPEN body by position. */
  lemma OpenOctets(body: seq<byte>)
    ensures |body| < 10 ==> ParseOpen(body) == Err(MessageError.TooShort(10, |body|))
    ensures |body| >= 10 && 10 + body[9] as int > |body| ==> ParseOpen(body) == Err(MessageError.TooShort(body[9], |body| - 10))
    ensures |body| >= 10 && 10 + body[9] as int <= |body| ==>
              var params := ParseParams([], body[10..], body[9]);
              && (params.Err? ==> ParseOpen(body) == Err(params.error))
              && (params.Ok? ==>
                    && ParseOpen(body).Ok?
                    && var o := ParseOpen(body).value;
                       && o.version == body[0] && o.myAs == BigEndian(body[1..3]) && o.holdTime == BigEndian(body[3..5])
                       && o.bgpId == BigEndian(body[5..9]) && o.optionalParams == params.value)
  {
    hide ParseParams, BigEndian, GetU16, GetU32;
    if |body| >= 10 {
      WordOctets(body[1..]);
      WordOctets(body[3..]);
      WordOctets(body[5..]);
      assert body[1..][..2] == body[1..3] && body[3..][..2] == body[3..5] && body[5..][..4] == body[5..9];
    }
  }

  /** What a speaker that offers `caps` puts into its OPEN: version 4, its AS number, its hold time and its
      identifier, at their places. */
  lemma NewOpenOctets(myAs: u16, holdTime: u16, bgpId: u32, caps: seq<Capability>)
    ensures var body := OpenBody(NewWithCapabilities(myAs, holdTime, bgpId, caps));
            && body[0] == 4 && BigEndian(body[1..3]) == myAs && BigEndian(body[3..5]) == holdTime
            && BigEndian(body[5..9]) == bgpId && body[9..] == Block(caps)
  {
    hide PutParams, BigEndian, Block, CapBytes, PutU16, PutU32;
    var o := NewWithCapabilities(myAs, holdTime, bgpId, caps);
    var body := OpenBody(o);
    PutOctets(myAs, bgpId);
    PutOctets(holdTime, 0);
    assert body[1..3] == PutU16(myAs) && body[3..5] == PutU16(holdTime) && body[5..9] == PutU32(bgpId);
    EncodersAgree(myAs, holdTime, bgpId, caps);
  }

  // ----- Capabilities -----

  /** A capability from its code and value octets, as RFC 4760, 2918, 4724 and 6793 assign them. */
  lemma CapabilityOctets(code: byte, v: seq<byte>)
    ensures code == 1 && |v| >= 4 ==>
              ParseOne(code, v).MultiProtocol? && ParseOne(code, v).afi == BigEndian(v[..2]) && ParseOne(code, v).safi == v[3]
    ensures code == 2 ==> ParseOne(code, v) == Capability.RouteRefresh
    ensures code == 64 && |v| >= 2 ==>
              && ParseOne(code, v).GracefulRestart?
              && ParseOne(code, v).flags == v[0] / 16 && ParseOne(code, v).restartTime == BigEndian([v[0] % 16, v[1]])
    ensures code == 65 && |v| >= 4 ==> ParseOne(code, v).FourOctetAsn? && ParseOne(code, v).asn == BigEndian(v[..4])
    ensures (code == 1 && |v| < 4) || (code == 64 && |v| < 2) || (code == 65 && |v| < 4) || code !in {1, 2, 64, 65} ==>
              ParseOne(code, v) == Capability.Unknown(code, v)
  {
    hide BigEndian;
    WordOctets(v);
    if |v| >= 2 {
      var low := [v[0] % 16, v[1]];
      WordOctets(low);
      assert low[..2] == low;
    }
  }

  /** And its octets: code, length, value; the reserved octet and bits are zero. */
  lemma CapabilityPrinted(c: Capability)
    ensures var s := ToBytes(c);
            match c
            case MultiProtocol(afi, safi) =>
              |s| == 6 && s[..2] == [1, 4] && BigEndian(s[2..4]) == afi && s[4..] == [0, safi]
            case RouteRefresh => s == [2, 0]
            case GracefulRestart(time, flags) =>
              |s| == 4 && s[..2] == [64, 2] && BigEndian(s[2..]) == flags % 16 * 4096 + time % 4096
            case FourOctetAsn(asn) => |s| == 6 && s[..2] == [65, 4] && BigEndian(s[2..]) == asn
            case Unknown(code, data) => s == [code, |data| % 256] + data
  {
    hide BigEndian, PutU16, PutU32;
    match c
    case MultiProtocol(afi, safi) =>
      PutOctets(afi, 0);
      assert ToBytes(c)[2..4] == PutU16(afi);
    case GracefulRestart(time, flags) =>
      PutOctets(flags % 16 * 4096 + time % 4096, 0);
      assert ToBytes(c)[2..] == PutU16(flags % 16 * 4096 + time % 4096);
    case FourOctetAsn(asn) =>
      PutOctets(0, asn);
      assert ToBytes(c)[2..] == PutU32(asn);
    case _ =>
  }
}
