/** Exactly which attribute sets survive serializing and parsing. */
module AttrRoundTrip {
  import opened Wire
  import opened Attr

  predicate KnownCode(code: byte) {
    1 <= code <= 10
  }

  /** An unknown attribute that can be passed through: the stored extended-length bit
      is the one its length calls for. */
  predicate PassesThrough(t: RawAttribute) {
    && !KnownCode(t.typeCode)
    && |t.value| < 0x1_0000
    && (HasExtendedLen(t.flags) <==> |t.value| > 255)
  }

  predicate WellFormed(a: PathAttributes) {
    && (forall i :: 0 <= i < |a.asPath| ==> |a.asPath[i].asns| < 0x100)
    && FieldFits(a, 1) && FieldFits(a, 7) && FieldFits(a, 9) && FieldFits(a, 10)
  }

  /** What the length and flag fields of the i-th written field must satisfy. */
  predicate FieldFits(a: PathAttributes, i: nat) {
    match i
    case 1 => |PutSegments(a.asPath)| < 0x1_0000
    case 7 => 4 * |a.communities| < 0x1_0000
    case 9 => 4 * |a.clusterList| < 0x1_0000
    case 10 => forall j :: 0 <= j < |a.unknown| ==> PassesThrough(a.unknown[j])
    case _ => true
  }

  // ----- Well-formed sets come back -----

  /** The attribute as it reads back: a long value forces the extended-length bit. */
  function OnWire(t: RawAttribute): RawAttribute {
    if |t.value| > 255 then t.(flags := WithExtendedLen(t.flags)) else t
  }

  predicate Readable(t: RawAttribute) {
    |t.value| < 0x1_0000 && (|t.value| <= 255 ==> !HasExtendedLen(t.flags))
  }

  lemma ReadLong(t: RawAttribute, rest: seq<byte>)
    requires 255 < |t.value| < 0x1_0000
    ensures |WriteAttr(t) + rest| >= 3
    ensures ReadTlv(WriteAttr(t) + rest) == Ok((OnWire(t), rest))
  {
    var buf := WriteAttr(t) + rest;
    var len := PutU16(|t.value|);
    assert buf == [WithExtendedLen(t.flags), t.typeCode] + len + t.value + rest;
    assert buf[2..] == len + (t.value + rest);
    GetPutU16(|t.value|, t.value + rest);
    assert buf[4..4 + |t.value|] == t.value;
    assert buf[4 + |t.value|..] == rest;
  }

  lemma ReadShort(t: RawAttribute, rest: seq<byte>)
    requires |t.value| <= 255 && !HasExtendedLen(t.flags)
    ensures |WriteAttr(t) + rest| >= 3
    ensures ReadTlv(WriteAttr(t) + rest) == Ok((OnWire(t), rest))
  {
    var buf := WriteAttr(t) + rest;
    assert buf == [t.flags, t.typeCode, |t.value|] + t.value + rest;
    assert buf[3..3 + |t.value|] == t.value;
    assert buf[3 + |t.value|..] == rest;
  }

  lemma ReadWritten(t: RawAttribute, rest: seq<byte>)
    requires Readable(t)
    ensures |WriteAttr(t) + rest| >= 3
    ensures ReadTlv(WriteAttr(t) + rest) == Ok((OnWire(t), rest))
  {
    hide WriteAttr, ReadTlv, OnWire;
    if |t.value| > 255 { ReadLong(t, rest); } else { ReadShort(t, rest); }
  }

  function StoreAll(a: PathAttributes, ts: seq<RawAttribute>): Result<PathAttributes, AttrError>
    decreases |ts|
  {
    if ts == [] then Ok(a)
    else
      match Store(a, OnWire(ts[0]))
      case Err(e) => Err(e)
      case Ok(a') => StoreAll(a', ts[1..])
  }

  /** The TLV loop over a concatenation of written attributes files them one by one. */
  lemma {:induction false} ParseWritten(a: PathAttributes, ts: seq<RawAttribute>)
    requires forall i :: 0 <= i < |ts| ==> Readable(ts[i])
    ensures ParseFrom(a, WriteAttrs(ts)) == StoreAll(a, ts)
    decreases |ts|
  {
    if ts != [] {
      ReadWritten(ts[0], WriteAttrs(ts[1..]));
      var stored := Store(a, OnWire(ts[0]));
      if stored.Ok? {
        ParseWritten(stored.value, ts[1..]);
      }
    }
  }

  lemma {:induction false} StoreAllAppend(a: PathAttributes, xs: seq<RawAttribute>, ys: seq<RawAttribute>)
    requires StoreAll(a, xs).Ok?
    ensures StoreAll(a, xs + ys) == StoreAll(StoreAll(a, xs).value, ys)
    decreases |xs|
  {
    if xs == [] {
      assert xs + ys == ys;
    } else {
      assert (xs + ys)[1..] == xs[1..] + ys;
      StoreAllAppend(Store(a, OnWire(xs[0])).value, xs[1..], ys);
    }
  }

  lemma ReadPutSegment(s: AsPathSegment, rest: seq<byte>)
    requires |s.asns| < 0x100
    ensures ReadSegment(PutSegment(s) + rest) == Ok((s, rest))
  {
    hide PutU32s, GetU32s;
    var buf := PutSegment(s) + rest;
    assert buf[2..] == PutU32s(s.asns) + rest;
    GetPutU32s(s.asns, rest);
    assert buf[2 + 4 * |s.asns|..] == rest;
  }

  lemma ParseOneSegment(acc: seq<AsPathSegment>, s: AsPathSegment, rest: seq<byte>)
    requires |s.asns| < 0x100
    ensures ParseSegments(acc, PutSegment(s) + rest) == ParseSegments(acc + [s], rest)
  {
    ReadPutSegment(s, rest);
  }

  lemma {:induction false} ParsePutSegments(acc: seq<AsPathSegment>, path: seq<AsPathSegment>)
    requires forall i :: 0 <= i < |path| ==> |path[i].asns| < 0x100
    ensures ParseSegments(acc, PutSegments(path)) == Ok(acc + path)
    decreases |path|
  {
    hide PutSegment, ReadSegment;
    if path == [] {
      assert acc + path == acc;
    } else {
      var s, rest := path[0], path[1..];
      ParseOneSegment(acc, s, PutSegments(rest));
      ParsePutSegments(acc + [s], rest);
      assert path == [s] + rest;
      Assoc(acc, [s], rest);
    }
  }

  /** `a` with only the first `n` written fields filled in. */
  function Filled(a: PathAttributes, n: nat): PathAttributes {
    var d := DEFAULT_ATTRIBUTES;
    PathAttributes(
      if n > 0 then a.origin else d.origin,
      if n > 1 then a.asPath else d.asPath,
      if n > 2 then a.nextHop else d.nextHop,
      if n > 3 then a.multiExitDisc else d.multiExitDisc,
      if n > 4 then a.localPref else d.localPref,
      if n > 5 then a.atomicAggregate else d.atomicAggregate,
      if n > 6 then a.aggregator else d.aggregator,
      if n > 7 then a.communities else d.communities,
      if n > 8 then a.originatorId else d.originatorId,
      if n > 9 then a.clusterList else d.clusterList,
      if n > 10 then a.unknown else d.unknown)
  }

  lemma StoreOne(a: PathAttributes, t: RawAttribute)
    ensures StoreAll(a, [t]) == Store(a, OnWire(t))
  {
    assert [t][1..] == [];
  }

  lemma StoreWord(a: PathAttributes, flags: byte, code: byte, x: u32)
    requires !HasExtendedLen(flags)
    ensures StoreAll(a, Word(flags, code, Some(x))) == Store(a, RawAttribute(flags, code, PutU32(x)))
    ensures GetU32(PutU32(x)) == x
  {
    StoreOne(a, RawAttribute(flags, code, PutU32(x)));
    GetPutU32(x, []);
    assert PutU32(x) + [] == PutU32(x);
  }

  lemma StoreWords(a: PathAttributes, flags: byte, code: byte, xs: seq<u32>)
    requires xs != []
    requires code == 8 || code == 10
    ensures StoreAll(a, Words(flags, code, xs))
         == Ok(if code == 8 then a.(communities := a.communities + xs) else a.(clusterList := a.clusterList + xs))
  {
    hide PutU32s, GetU32s, GetU32, ParseSegments, StoreAll, WithExtendedLen;
    StoreOne(a, RawAttribute(flags, code, PutU32s(xs)));
    GetPutU32s(xs, []);
    assert PutU32s(xs) + [] == PutU32s(xs);
  }

  lemma {:induction false} StoreUnknown(a: PathAttributes, ts: seq<RawAttribute>)
    requires forall i :: 0 <= i < |ts| ==> PassesThrough(ts[i])
    ensures StoreAll(a, ts) == Ok(a.(unknown := a.unknown + ts))
    decreases |ts|
  {
    if ts == [] {
      assert a.unknown + ts == a.unknown;
    } else {
      assert OnWire(ts[0]) == ts[0];
      StoreUnknown(a.(unknown := a.unknown + [ts[0]]), ts[1..]);
      assert a.unknown + [ts[0]] + ts[1..] == a.unknown + ts;
    }
  }

  lemma OriginFieldStored(a: PathAttributes)
    ensures StoreAll(Filled(a, 0), FieldTlvs(a, 0)) == Ok(Filled(a, 1))
  {
    if a.origin.Some? {
      StoreOne(Filled(a, 0), FieldTlvs(a, 0)[0]);
    }
  }

  lemma AsPathFieldStored(a: PathAttributes)
    requires WellFormed(a)
    ensures StoreAll(Filled(a, 1), FieldTlvs(a, 1)) == Ok(Filled(a, 2))
  {
    if a.asPath != [] {
      StoreOne(Filled(a, 1), FieldTlvs(a, 1)[0]);
      ParsePutSegments([], a.asPath);
      assert [] + a.asPath == a.asPath;
    }
  }

  lemma AtomicFieldStored(a: PathAttributes)
    ensures StoreAll(Filled(a, 5), FieldTlvs(a, 5)) == Ok(Filled(a, 6))
  {
    if a.atomicAggregate {
      StoreOne(Filled(a, 5), FieldTlvs(a, 5)[0]);
    }
  }

  lemma AggregatorFieldStored(a: PathAttributes)
    ensures StoreAll(Filled(a, 6), FieldTlvs(a, 6)) == Ok(Filled(a, 7))
  {
    if a.aggregator.Some? {
      var (asn, ip) := a.aggregator.value;
      StoreOne(Filled(a, 6), FieldTlvs(a, 6)[0]);
      GetPutU16(asn, PutU32(ip));
      StoreWord(Filled(a, 6), 0, 3, ip);
    }
  }

  lemma UnknownFieldStored(a: PathAttributes)
    requires WellFormed(a)
    ensures StoreAll(Filled(a, 10), FieldTlvs(a, 10)) == Ok(Filled(a, 11))
  {
    StoreUnknown(Filled(a, 10), a.unknown);
    assert [] + a.unknown == a.unknown;
  }

  /** Each written field fills exactly its own slot. */
  lemma FieldStored(a: PathAttributes, i: nat)
    requires WellFormed(a) && i < FIELDS
    ensures StoreAll(Filled(a, i), FieldTlvs(a, i)) == Ok(Filled(a, i + 1))
  {
    hide FieldTlvs, Filled, StoreAll, WellFormed;
    match i
    case 0 => OriginFieldStored(a);
    case 1 => AsPathFieldStored(a);
    case 5 => AtomicFieldStored(a);
    case 6 => AggregatorFieldStored(a);
    case 7 => ListFieldStored(a, i);
    case 9 => ListFieldStored(a, i);
    case 10 => UnknownFieldStored(a);
    case _ => WordFieldStored(a, i);
  }

  lemma WordFieldStored(a: PathAttributes, i: nat)
    requires i in {2, 3, 4, 8}
    ensures StoreAll(Filled(a, i), FieldTlvs(a, i)) == Ok(Filled(a, i + 1))
  {
    var acc := Filled(a, i);
    if FieldTlvs(a, i) != [] {
      match i
      case 2 => StoreWord(acc, FLAG_TRANSITIVE, 3, a.nextHop.value);
      case 3 => StoreWord(acc, FLAG_OPTIONAL, 4, a.multiExitDisc.value);
      case 4 => StoreWord(acc, FLAG_TRANSITIVE, 5, a.localPref.value);
      case 8 => StoreWord(acc, FLAG_OPTIONAL, 9, a.originatorId.value);
    }
  }

  lemma ListFieldStored(a: PathAttributes, i: nat)
    requires i in {7, 9}
    ensures StoreAll(Filled(a, i), FieldTlvs(a, i)) == Ok(Filled(a, i + 1))
  {
    if FieldTlvs(a, i) == [] {
    } else if i == 7 {
      StoreWords(Filled(a, i), FLAG_OPTIONAL + FLAG_TRANSITIVE, 8, a.communities);
      assert [] + a.communities == a.communities;
    } else {
      StoreWords(Filled(a, i), FLAG_OPTIONAL, 10, a.clusterList);
      assert [] + a.clusterList == a.clusterList;
    }
  }

  lemma {:induction false} FieldsStored(a: PathAttributes, i: nat)
    requires WellFormed(a) && i <= FIELDS
    ensures StoreAll(Filled(a, i), TlvsFrom(a, i)) == Ok(Filled(a, FIELDS))
    decreases FIELDS - i
  {
    hide FieldTlvs, Filled, WellFormed;
    if i < FIELDS {
      FieldStored(a, i);
      StoreAllAppend(Filled(a, i), FieldTlvs(a, i), TlvsFrom(a, i + 1));
      FieldsStored(a, i + 1);
    }
  }

  lemma FieldReadable(a: PathAttributes, i: nat)
    requires WellFormed(a) && i < FIELDS
    ensures forall j :: 0 <= j < |FieldTlvs(a, i)| ==> Readable(FieldTlvs(a, i)[j])
  {
    forall j | 0 <= j < |FieldTlvs(a, i)| ensures Readable(FieldTlvs(a, i)[j]) {
      if i == 10 { assert PassesThrough(a.unknown[j]); }
    }
  }

  lemma {:induction false} FieldsReadable(a: PathAttributes, i: nat)
    requires WellFormed(a) && i <= FIELDS
    ensures forall j :: 0 <= j < |TlvsFrom(a, i)| ==> Readable(TlvsFrom(a, i)[j])
    decreases FIELDS - i
  {
    hide FieldTlvs, WellFormed;
    if i < FIELDS {
      FieldReadable(a, i);
      FieldsReadable(a, i + 1);
    }
  }

  lemma WellFormedComesBack(a: PathAttributes)
    requires WellFormed(a)
    ensures Parse(Serialize(a)) == Ok(a)
  {
    hide FieldTlvs, WellFormed;
    FieldsReadable(a, 0);
    ParseWritten(DEFAULT_ATTRIBUTES, TlvsFrom(a, 0));
    FieldsStored(a, 0);
  }

  // ----- Nothing else does -----

  function SegmentOctets(path: seq<AsPathSegment>): nat {
    if path == [] then 0 else 2 + 4 * |path[0].asns| + SegmentOctets(path[1..])
  }

  /** The fewest octets of attributes that can carry `n` octets of list value: a list may be
      split over several attributes, each with a header of three or four octets. */
  function ListCost(n: nat): nat {
    if n == 0 then 0
    else if n <= 255 then 3 + n
    else if n < 0x1_0000 then 4 + n
    else 7 + n
  }

  function UnknownCost(ts: seq<RawAttribute>): nat {
    if ts == [] then 0
    else HeaderSize(ts[0]) + |ts[0].value| + UnknownCost(ts[1..])
  }

  function HeaderSize(t: RawAttribute): nat {
    if HasExtendedLen(t.flags) then 4 else 3
  }

  /** The fewest octets that can carry the i-th written field of `a`. */
  function FieldCost(a: PathAttributes, i: nat): nat {
    match i
    case 0 => if a.origin.Some? then 4 else 0
    case 1 => ListCost(SegmentOctets(a.asPath))
    case 2 => if a.nextHop.Some? then 7 else 0
    case 3 => if a.multiExitDisc.Some? then 7 else 0
    case 4 => if a.localPref.Some? then 7 else 0
    case 5 => if a.atomicAggregate then 3 else 0
    case 6 => if a.aggregator.Some? then 9 else 0
    case 7 => ListCost(4 * |a.communities|)
    case 8 => if a.originatorId.Some? then 7 else 0
    case 9 => ListCost(4 * |a.clusterList|)
    case _ => UnknownCost(a.unknown)
  }

  /** A lower bound on the wire size of anything that parses to `a`, from field `i` on. */
  function CostFrom(a: PathAttributes, i: nat): nat
    decreases FIELDS - i
  {
    if i >= FIELDS then 0 else FieldCost(a, i) + CostFrom(a, i + 1)
  }

  /** What every parse result satisfies, whatever was on the wire. */
  predicate Parsed(a: PathAttributes) {
    && (forall i :: 0 <= i < |a.asPath| ==> |a.asPath[i].asns| < 0x100)
    && (forall i :: 0 <= i < |a.unknown| ==> ParsedUnknown(a.unknown[i]))
  }

  predicate ParsedUnknown(t: RawAttribute) {
    !KnownCode(t.typeCode) && Framed(t)
  }

  /** The length field of `t` is as wide as its flags say. */
  predicate Framed(t: RawAttribute) {
    |t.value| < if HasExtendedLen(t.flags) then 0x1_0000 else 0x100
  }

  lemma {:induction false} SegmentOctetsAppend(path: seq<AsPathSegment>, s: AsPathSegment)
    ensures SegmentOctets(path + [s]) == SegmentOctets(path) + 2 + 4 * |s.asns|
  {
    if path == [] {
      assert [s][1..] == [];
    } else {
      assert (path + [s])[1..] == path[1..] + [s];
      SegmentOctetsAppend(path[1..], s);
    }
  }

  lemma {:induction false} UnknownCostAppend(ts: seq<RawAttribute>, t: RawAttribute)
    ensures UnknownCost(ts + [t])
         == UnknownCost(ts) + HeaderSize(t) + |t.value|
  {
    if ts == [] {
      assert [t][1..] == [];
    } else {
      assert (ts + [t])[1..] == ts[1..] + [t];
      UnknownCostAppend(ts[1..], t);
    }
  }

  lemma {:induction false} SegmentsCost(acc: seq<AsPathSegment>, buf: seq<byte>)
    requires ParseSegments(acc, buf).Ok?
    requires forall i :: 0 <= i < |acc| ==> |acc[i].asns| < 0x100
    ensures var path := ParseSegments(acc, buf).value;
            && SegmentOctets(path) <= SegmentOctets(acc) + |buf|
            && forall i :: 0 <= i < |path| ==> |path[i].asns| < 0x100
    decreases |buf|
  {
    if |buf| >= 2 {
      var (s, rest) := ReadSegment(buf).value;
      SegmentOctetsAppend(acc, s);
      SegmentsCost(acc + [s], rest);
    }
  }

  /** Which written field an attribute code belongs to. */
  function FieldIndex(code: byte): nat {
    if KnownCode(code) then code - 1 else 10
  }

  lemma StoreParsed(a: PathAttributes, t: RawAttribute)
    requires Parsed(a) && Framed(t) && Store(a, t).Ok?
    ensures Parsed(Store(a, t).value)
  {
    if t.typeCode == 2 {
      SegmentsCost(a.asPath, t.value);
    }
  }

  lemma ListCostGrows(n: nat, m: nat, t: RawAttribute)
    requires Framed(t) && m <= |t.value|
    ensures ListCost(n + m) <= ListCost(n) + HeaderSize(t) + |t.value|
  {
  }

  lemma ListCostMonotone(m: nat, n: nat)
    requires m <= n
    ensures ListCost(m) <= ListCost(n)
  {
  }

  lemma StorePathCost(a: PathAttributes, t: RawAttribute)
    requires Parsed(a) && Framed(t) && t.typeCode == 2 && Store(a, t).Ok?
    ensures FieldCost(Store(a, t).value, 1) <= FieldCost(a, 1) + HeaderSize(t) + |t.value|
  {
    hide ListCost;
    SegmentsCost(a.asPath, t.value);
    var n := SegmentOctets(a.asPath);
    ListCostMonotone(SegmentOctets(Store(a, t).value.asPath), n + |t.value|);
    ListCostGrows(n, |t.value|, t);
  }

  lemma StoreListCost(a: PathAttributes, t: RawAttribute)
    requires Framed(t) && (t.typeCode == 8 || t.typeCode == 10)
    ensures Store(a, t).Ok?
    ensures var i := FieldIndex(t.typeCode);
            FieldCost(Store(a, t).value, i) <= FieldCost(a, i) + HeaderSize(t) + |t.value|
  {
    hide ListCost, ParseSegments;
    var n := |t.value| / 4 * 4;
    ListCostGrows(4 * |a.communities|, n, t);
    ListCostGrows(4 * |a.clusterList|, n, t);
  }

  lemma StoreOwnField(a: PathAttributes, t: RawAttribute)
    requires Parsed(a) && Framed(t) && Store(a, t).Ok?
    ensures var i := FieldIndex(t.typeCode);
            FieldCost(Store(a, t).value, i) <= FieldCost(a, i) + HeaderSize(t) + |t.value|
  {
    hide ListCost, ParseSegments;
    if t.typeCode == 2 {
      StorePathCost(a, t);
    } else if t.typeCode == 8 || t.typeCode == 10 {
      StoreListCost(a, t);
    } else if !KnownCode(t.typeCode) {
      UnknownCostAppend(a.unknown, t);
    }
  }

  lemma StoreOtherField(a: PathAttributes, t: RawAttribute, i: nat)
    requires Store(a, t).Ok? && i < FIELDS && i != FieldIndex(t.typeCode)
    ensures FieldCost(Store(a, t).value, i) == FieldCost(a, i)
  {
  }

  lemma {:induction false} StoreCost(a: PathAttributes, t: RawAttribute, i: nat)
    requires Parsed(a) && Framed(t) && Store(a, t).Ok? && i <= FIELDS
    ensures CostFrom(Store(a, t).value, i)
         <= CostFrom(a, i) + if i <= FieldIndex(t.typeCode) then HeaderSize(t) + |t.value| else 0
    decreases FIELDS - i
  {
    hide FieldCost, Store, Parsed;
    if i < FIELDS {
      if i == FieldIndex(t.typeCode) {
        StoreOwnField(a, t);
      } else {
        StoreOtherField(a, t, i);
      }
      StoreCost(a, t, i + 1);
    }
  }

  lemma {:induction false} ParseCost(a: PathAttributes, buf: seq<byte>)
    requires Parsed(a) && ParseFrom(a, buf).Ok?
    ensures Parsed(ParseFrom(a, buf).value)
    ensures CostFrom(ParseFrom(a, buf).value, 0) <= CostFrom(a, 0) + |buf|
    decreases |buf|
  {
    if |buf| >= 3 {
      var (t, rest) := ReadTlv(buf).value;
      StoreParsed(a, t);
      StoreCost(a, t, 0);
      ParseCost(Store(a, t).value, rest);
    }
  }

  lemma {:induction false} PutSegmentsSize(path: seq<AsPathSegment>)
    ensures |PutSegments(path)| == SegmentOctets(path)
  {
    if path != [] { PutSegmentsSize(path[1..]); }
  }

  function WrittenSize(ts: seq<RawAttribute>): nat {
    if ts == [] then 0
    else (if |ts[0].value| > 255 then 4 else 3) + |ts[0].value| + WrittenSize(ts[1..])
  }

  lemma {:induction false} WriteAttrsSize(ts: seq<RawAttribute>)
    ensures |WriteAttrs(ts)| == WrittenSize(ts)
  {
    if ts != [] { WriteAttrsSize(ts[1..]); }
  }

  lemma {:induction false} WrittenSizeAppend(xs: seq<RawAttribute>, ys: seq<RawAttribute>)
    ensures WrittenSize(xs + ys) == WrittenSize(xs) + WrittenSize(ys)
  {
    if xs == [] {
      assert xs + ys == ys;
    } else {
      assert (xs + ys)[1..] == xs[1..] + ys;
      WrittenSizeAppend(xs[1..], ys);
    }
  }

  lemma {:induction false} UnknownWrittenSize(ts: seq<RawAttribute>)
    requires forall i :: 0 <= i < |ts| ==> ParsedUnknown(ts[i])
    ensures WrittenSize(ts) <= UnknownCost(ts)
    ensures WrittenSize(ts) == UnknownCost(ts) ==> forall i :: 0 <= i < |ts| ==> PassesThrough(ts[i])
  {
    if ts != [] {
      UnknownWrittenSize(ts[1..]);
      if WrittenSize(ts) == UnknownCost(ts) {
        forall i | 0 <= i < |ts| ensures PassesThrough(ts[i]) {
          if i > 0 { assert ts[i] == ts[1..][i - 1]; }
        }
      }
    }
  }

  lemma OneWritten(t: RawAttribute)
    ensures WrittenSize([t]) == (if |t.value| > 255 then 4 else 3) + |t.value|
  {
    assert [t][1..] == [];
  }

  /** No field is written in more octets than it costs, and in fewer if it does not fit. */
  lemma FieldWritten(a: PathAttributes, i: nat)
    requires Parsed(a) && i < FIELDS
    ensures WrittenSize(FieldTlvs(a, i)) <= FieldCost(a, i)
    ensures WrittenSize(FieldTlvs(a, i)) == FieldCost(a, i) ==> FieldFits(a, i)
  {
    var part := FieldTlvs(a, i);
    if i == 10 {
      UnknownWrittenSize(a.unknown);
    } else if part != [] {
      OneWritten(part[0]);
      assert part == [part[0]];
      PutSegmentsSize(a.asPath);
    } else if i == 1 {
      PutSegmentsSize(a.asPath);
    }
  }

  lemma TlvsWritten(a: PathAttributes, i: nat)
    requires i <= FIELDS
    ensures WrittenSize(TlvsFrom(a, i))
         == if i == FIELDS then 0 else WrittenSize(FieldTlvs(a, i)) + WrittenSize(TlvsFrom(a, i + 1))
  {
    hide FieldTlvs;
    if i < FIELDS {
      WrittenSizeAppend(FieldTlvs(a, i), TlvsFrom(a, i + 1));
    }
  }

  lemma {:induction false} FieldsWritten(a: PathAttributes, i: nat, k: nat)
    requires Parsed(a) && i <= FIELDS
    ensures var size := WrittenSize(TlvsFrom(a, i));
            && size <= CostFrom(a, i)
            && (size == CostFrom(a, i) && i <= k < FIELDS ==> FieldFits(a, k))
    decreases FIELDS - i
  {
    hide FieldTlvs, FieldCost, FieldFits, Parsed, TlvsFrom, WrittenSize;
    TlvsWritten(a, i);
    if i < FIELDS {
      FieldWritten(a, i);
      FieldsWritten(a, i + 1, k);
    }
  }

  /** If the serialized form is as long as the cost demands, nothing was truncated. */
  lemma SerializedFits(a: PathAttributes)
    requires Parsed(a) && CostFrom(a, 0) <= |Serialize(a)|
    ensures WellFormed(a)
  {
    hide TlvsFrom, CostFrom, WrittenSize, WriteAttrs;
    WriteAttrsSize(TlvsFrom(a, 0));
    FieldsWritten(a, 0, 1);
    FieldsWritten(a, 0, 7);
    FieldsWritten(a, 0, 9);
    FieldsWritten(a, 0, 10);
  }

  lemma CostOfNothing()
    ensures Parsed(DEFAULT_ATTRIBUTES) && CostFrom(DEFAULT_ATTRIBUTES, 0) == 0
  {
  }

  /** The round trip, for every attribute set: it holds exactly on the well-formed ones. */
  lemma {:induction false} RoundTrip(a: PathAttributes)
    ensures Parse(Serialize(a)) == Ok(a) <==> WellFormed(a)
  {
    hide WellFormed, TlvsFrom, ParseFrom, WriteAttrs;
    CostOfNothing();
    if WellFormed(a) {
      WellFormedComesBack(a);
    }
    if Parse(Serialize(a)) == Ok(a) {
      ParseCost(DEFAULT_ATTRIBUTES, Serialize(a));
      SerializedFits(a);
    }
  }

  /** An unknown attribute whose sender used a two-octet length for one octet of value. */
  const LONG_FORM: RawAttribute := RawAttribute(0xD0, 99, [7])

  lemma LongFormParses()
    ensures Parse([0xD0, 99, 0, 1, 7]) == Ok(DEFAULT_ATTRIBUTES.(unknown := [LONG_FORM]))
  {
    var received: seq<byte> := [0xD0, 99, 0, 1, 7];
    assert received[2..] == [0, 1, 7] && received[4..5] == [7];
    assert ReadTlv(received) == Ok((LONG_FORM, []));
    var a := DEFAULT_ATTRIBUTES.(unknown := [LONG_FORM]);
    assert DEFAULT_ATTRIBUTES.unknown + [LONG_FORM] == [LONG_FORM];
    assert ParseFrom(a, []) == Ok(a);
  }

  lemma LongFormSerialized()
    ensures Serialize(DEFAULT_ATTRIBUTES.(unknown := [LONG_FORM])) == [0xD0, 99, 1, 7]
  {
    hide FieldTlvs, TlvsFrom;
    TlvsOfUnknown(DEFAULT_ATTRIBUTES.(unknown := [LONG_FORM]), 0);
    assert [LONG_FORM][1..] == [];
    assert WriteAttrs([LONG_FORM]) == WriteAttr(LONG_FORM) + WriteAttrs([]);
  }

  lemma ShortFormRejected()
    ensures Parse([0xD0, 99, 1, 7]) == Err(TooShort)
  {
    var sent: seq<byte> := [0xD0, 99, 1, 7];
    assert sent[2..] == [1, 7];
    assert ReadTlv(sent) == Err(TooShort);
  }

  /** Parse and serialize do not compose the other way: a legal attribute set read from the wire is
      corrupted when passed on. */
  lemma {:induction false} PassThroughCorrupts()
    ensures var received := Parse([0xD0, 99, 0, 1, 7]);
            received.Ok? && Parse(Serialize(received.value)) == Err(TooShort)
  {
    hide Parse, Serialize;
    LongFormParses();
    LongFormSerialized();
    ShortFormRejected();
  }

  lemma NoField(a: PathAttributes, i: nat)
    requires a.(unknown := []) == DEFAULT_ATTRIBUTES && i < 10
    ensures FieldTlvs(a, i) == []
  {
  }

  lemma {:induction false} TlvsOfUnknown(a: PathAttributes, i: nat)
    requires a.(unknown := []) == DEFAULT_ATTRIBUTES && i <= 10
    ensures TlvsFrom(a, i) == a.unknown
    decreases FIELDS - i
  {
    if i == 10 {
      assert TlvsFrom(a, 11) == [];
      assert a.unknown + [] == a.unknown;
    } else {
      NoField(a, i);
      TlvsOfUnknown(a, i + 1);
    }
  }
}
