/** Path attributes octet by octet, as section 4.3 of RFC 4271, RFC 1997 and RFC 4456 lay them out
    (src/attr.rs): what is accepted and refused, where each value goes, and what is written. */
module AttrFormat {
  import opened Wire
  import opened Attr
  import opened AttrCodec
  import opened WireFormat

  lemma {:induction false} WordsRead(s: seq<byte>, n: nat, i: nat)
    requires |s| >= 4 * n && i < n
    ensures GetU32s(s, n)[i] == BigEndian(s[4 * i..4 * i + 4])
    decreases n
  {
    hide GetU32, BigEndian;
    if i == 0 {
      WordOctets(s);
    } else {
      WordsRead(s[4..], n - 1, i - 1);
      assert s[4..][4 * (i - 1)..4 * (i - 1) + 4] == s[4 * i..4 * i + 4];
    }
  }

  lemma {:induction false} WordsPrinted(xs: seq<u32>, i: nat)
    requires i < |xs|
    ensures |PutU32s(xs)| == 4 * |xs| && BigEndian(PutU32s(xs)[4 * i..4 * i + 4]) == xs[i]
    decreases |xs|
  {
    hide PutU32, BigEndian;
    var s := PutU32s(xs);
    if i == 0 {
      PutOctets(0, xs[0]);
      assert s[0..4] == PutU32(xs[0]);
    } else {
      WordsPrinted(xs[1..], i - 1);
      assert s[4..] == PutU32s(xs[1..]);
      assert s[4 * i..4 * i + 4] == s[4..][4 * (i - 1)..4 * (i - 1) + 4];
    }
  }

  /** `xs` are the 32-bit words of `v`; up to three octets may be left over. */
  ghost predicate WordsOf(xs: seq<u32>, v: seq<byte>) {
    |xs| == |v| / 4 && forall i :: 0 <= i < |xs| ==> xs[i] == BigEndian(v[4 * i..4 * i + 4])
  }

  lemma AllWordsRead(v: seq<byte>)
    ensures WordsOf(GetU32s(v, |v| / 4), v)
  {
    hide GetU32s, BigEndian;
    forall i | 0 <= i < |v| / 4 ensures GetU32s(v, |v| / 4)[i] == BigEndian(v[4 * i..4 * i + 4]) {
      WordsRead(v, |v| / 4, i);
    }
  }

  // ----- AS_PATH -----

  /** `v` begins with the segment `s`: type 1 a set, type 2 a sequence, then the count, then the words. */
  ghost predicate StartsWithSegment(v: seq<byte>, s: AsPathSegment) {
    && |v| >= 2 && 2 + 4 * v[1] as int <= |v|
    && ((v[0] == 1 && s.AsSet?) || (v[0] == 2 && s.AsSequence?))
    && WordsOf(s.asns, v[2..2 + 4 * v[1] as int])
  }

  lemma SliceOfSlice(v: seq<byte>, a: nat, b: nat, i: nat, j: nat)
    requires a <= b <= |v| && i <= j <= b - a
    ensures v[a..b][i..j] == v[a + i..a + j]
  {
    assert forall k :: 0 <= k < j - i ==> v[a..b][i..j][k] == v[a + i + k] == v[a + i..a + j][k];
  }

  /** How one segment is read. */
  lemma SegmentOctets(v: seq<byte>)
    requires |v| >= 2
    ensures 2 + 4 * v[1] as int > |v| ==> ReadSegment(v) == Err(AttrError.TooShort)
    ensures 2 + 4 * v[1] as int <= |v| && v[0] !in {1, 2} ==> ReadSegment(v) == Err(InvalidAsPathSegment(v[0]))
    ensures 2 + 4 * v[1] as int <= |v| && v[0] in {1, 2} ==>
              && ReadSegment(v).Ok? && StartsWithSegment(v, ReadSegment(v).value.0)
              && ReadSegment(v).value.1 == v[2 + 4 * v[1] as int..]
  {
    hide GetU32s, BigEndian;
    var n: nat := v[1];
    if 2 + 4 * n <= |v| {
      var words := v[2..2 + 4 * n];
      forall i | 0 <= i < n ensures GetU32s(v[2..], n)[i] == BigEndian(words[4 * i..4 * i + 4]) {
        WordsRead(v[2..], n, i);
        SliceOfSlice(v, 2, 2 + 4 * n, 4 * i, 4 * i + 4);
        SliceOfSlice(v, 2, |v|, 4 * i, 4 * i + 4);
        assert v[2..|v|] == v[2..];
      }
    }
  }

  /** `v` is cut into the segments `path`; a single octet may be left over. */
  ghost predicate PathCut(path: seq<AsPathSegment>, v: seq<byte>)
    decreases |path|
  {
    if path == [] then |v| < 2
    else StartsWithSegment(v, path[0]) && PathCut(path[1..], v[2 + 4 * v[1] as int..])
  }

  lemma SegmentUnique(v: seq<byte>, s: AsPathSegment, s': AsPathSegment)
    requires StartsWithSegment(v, s) && StartsWithSegment(v, s')
    ensures s == s'
  {
    hide BigEndian;
    assert s.asns == s'.asns;
  }

  lemma {:induction false} PathOctets(acc: seq<AsPathSegment>, v: seq<byte>)
    ensures forall path :: PathCut(path, v) ==> ParseSegments(acc, v) == Ok(acc + path)
    ensures ParseSegments(acc, v).Ok? ==> exists path :: PathCut(path, v)
    ensures ParseSegments(acc, v).Err? ==>
              exists i :: 0 <= i <= |v| - 2 && ReadSegment(v[i..]) == Err(ParseSegments(acc, v).error)
    decreases |v|
  {
    hide ReadSegment, StartsWithSegment;
    assert v[0..] == v;
    if |v| < 2 {
      assert PathCut([], v) && acc + [] == acc;
      forall path | PathCut(path, v) ensures path == [] {
        if path != [] { NeedsTwo(v, path[0]); }
      }
    } else {
      SegmentOctets(v);
      forall path | PathCut(path, v) ensures path != [] && StartsWithSegment(v, path[0]) && ReadSegment(v).Ok? {
        NeedsTwo(v, path[0]);
      }
      if ReadSegment(v).Ok? {
        var (s, rest) := ReadSegment(v).value;
        PathOctets(acc + [s], rest);
        var later := ParseSegments(acc + [s], rest);
        if later.Err? {
          var i :| 0 <= i <= |rest| - 2 && ReadSegment(rest[i..]) == Err(later.error);
          assert rest[i..] == v[2 + 4 * v[1] as int + i..];
        }
        forall path | PathCut(path, v) ensures ParseSegments(acc, v) == Ok(acc + path) {
          SegmentUnique(v, s, path[0]);
          assert path == [s] + path[1..];
          Assoc(acc, [s], path[1..]);
        }
        if path :| PathCut(path, rest) {
          assert ([s] + path)[1..] == path;
          assert PathCut([s] + path, v);
        }
      }
    }
  }

  lemma NeedsTwo(v: seq<byte>, s: AsPathSegment)
    requires StartsWithSegment(v, s)
    ensures |v| >= 2 && v[0] in {1, 2} && 2 + 4 * v[1] as int <= |v|
  {
  }

  // ----- One attribute -----

  /** `buf` begins with the attribute `t`: flags, type, and one or, with flag bit 16, two length octets. */
  predicate StartsWithTlv(buf: seq<byte>, t: RawAttribute) {
    && |buf| >= 3
    && var h := if buf[0] / 16 % 2 == 1 then 4 else 3;
       && |buf| >= h
       && var len := BigEndian(buf[2..h]);
          h + len <= |buf| && t == RawAttribute(buf[0], buf[1], buf[h..h + len])
  }

  function AfterTlv(buf: seq<byte>, t: RawAttribute): seq<byte>
    requires StartsWithTlv(buf, t)
  {
    buf[(if buf[0] / 16 % 2 == 1 then 4 else 3) + |t.value|..]
  }

  lemma TlvOctets(buf: seq<byte>)
    requires |buf| >= 3
    ensures ReadTlv(buf).Err? ==> ReadTlv(buf) == Err(AttrError.TooShort) && forall t :: !StartsWithTlv(buf, t)
    ensures ReadTlv(buf).Ok? ==>
              StartsWithTlv(buf, ReadTlv(buf).value.0) && ReadTlv(buf).value.1 == AfterTlv(buf, ReadTlv(buf).value.0)
  {
    if HasExtendedLen(buf[0]) {
      if |buf| >= 4 {
        WordOctets(buf[2..]);
        assert buf[2..][..2] == buf[2..4];
      }
    } else {
      assert buf[2..3] == [buf[2]] && buf[2..3][..0] == [];
      assert BigEndian(buf[2..3]) == buf[2];
    }
  }

  /** `buf` is cut into the attributes `ts`; up to two octets may be left over. */
  predicate TlvsCut(ts: seq<RawAttribute>, buf: seq<byte>)
    decreases |ts|
  {
    if ts == [] then |buf| < 3
    else StartsWithTlv(buf, ts[0]) && TlvsCut(ts[1..], AfterTlv(buf, ts[0]))
  }

  function StoreEach(a: PathAttributes, ts: seq<RawAttribute>): Result<PathAttributes, AttrError>
    decreases |ts|
  {
    if ts == [] then Ok(a)
    else if Store(a, ts[0]).Ok? then StoreEach(Store(a, ts[0]).value, ts[1..])
    else Err(Store(a, ts[0]).error)
  }

  /** An attribute list that can be cut is stored attribute by attribute; any other is refused. */
  lemma {:induction false} AttributesOctets(a: PathAttributes, buf: seq<byte>)
    ensures forall ts :: TlvsCut(ts, buf) ==> ParseFrom(a, buf) == StoreEach(a, ts)
    ensures ParseFrom(a, buf).Ok? ==> exists ts :: TlvsCut(ts, buf)
    decreases |buf|
  {
    hide ReadTlv, Store, StartsWithTlv, AfterTlv;
    if |buf| < 3 {
      assert TlvsCut([], buf);
      forall ts | TlvsCut(ts, buf) ensures ts == [] {
        if ts != [] { NeedsThree(buf, ts[0]); }
      }
    } else {
      TlvOctets(buf);
      if ReadTlv(buf).Ok? {
        var (t, rest) := ReadTlv(buf).value;
        forall ts | TlvsCut(ts, buf) ensures ts != [] && ts[0] == t && TlvsCut(ts[1..], rest) {
          if ts != [] { TlvUnique(buf, t, ts[0]); }
        }
        if Store(a, t).Ok? {
          AttributesOctets(Store(a, t).value, rest);
          if ts :| TlvsCut(ts, rest) {
            assert ([t] + ts)[1..] == ts;
            assert TlvsCut([t] + ts, buf);
          }
        }
      }
    }
  }

  lemma NeedsThree(buf: seq<byte>, t: RawAttribute)
    requires StartsWithTlv(buf, t)
    ensures |buf| >= 3
  {
  }

  lemma TlvUnique(buf: seq<byte>, t: RawAttribute, t': RawAttribute)
    requires StartsWithTlv(buf, t) && StartsWithTlv(buf, t')
    ensures t == t'
  {
  }

  // ----- Where each value goes -----

  /** The single-valued attributes: ORIGIN, NEXT_HOP, MULTI_EXIT_DISC, LOCAL_PREF, ATOMIC_AGGREGATE,
      AGGREGATOR and ORIGINATOR_ID by their type codes; everything else in `a` is kept. */
  lemma StoredValue(a: PathAttributes, flags: byte, v: seq<byte>)
    ensures Store(a, RawAttribute(flags, 1, v))
         == if v == [] then Err(AttrError.TooShort)
            else if v[0] == 0 then Ok(a.(origin := Some(Igp)))
            else if v[0] == 1 then Ok(a.(origin := Some(Egp)))
            else if v[0] == 2 then Ok(a.(origin := Some(Incomplete)))
            else Err(InvalidOrigin(v[0]))
    ensures |v| < 4 ==> forall code :: code in {3, 4, 5, 9} ==> Store(a, RawAttribute(flags, code, v)) == Err(AttrError.TooShort)
    ensures |v| >= 4 ==>
              && Store(a, RawAttribute(flags, 3, v)) == Ok(a.(nextHop := Some(BigEndian(v[..4]))))
              && Store(a, RawAttribute(flags, 4, v)) == Ok(a.(multiExitDisc := Some(BigEndian(v[..4]))))
              && Store(a, RawAttribute(flags, 5, v)) == Ok(a.(localPref := Some(BigEndian(v[..4]))))
              && Store(a, RawAttribute(flags, 9, v)) == Ok(a.(originatorId := Some(BigEndian(v[..4]))))
    ensures Store(a, RawAttribute(flags, 6, v)) == Ok(a.(atomicAggregate := true))
    ensures Store(a, RawAttribute(flags, 7, v))
         == if |v| < 6 then Err(AttrError.TooShort)
            else Ok(a.(aggregator := Some((BigEndian(v[..2]), BigEndian(v[2..6])))))
  {
    WordOctets(v);
    if |v| >= 6 {
      WordOctets(v[2..]);
      assert v[2..][..4] == v[2..6];
    }
  }

  /** COMMUNITIES and CLUSTER_LIST append their words, AS_PATH its segments, and any other type is kept
      as it came. */
  lemma StoredList(a: PathAttributes, flags: byte, v: seq<byte>)
    ensures var r := Store(a, RawAttribute(flags, 8, v));
            r.Ok? && exists xs :: WordsOf(xs, v) && r.value == a.(communities := a.communities + xs)
    ensures var r := Store(a, RawAttribute(flags, 10, v));
            r.Ok? && exists xs :: WordsOf(xs, v) && r.value == a.(clusterList := a.clusterList + xs)
    ensures var r, path := Store(a, RawAttribute(flags, 2, v)), ParseSegments(a.asPath, v);
            if path.Ok? then r == Ok(a.(asPath := path.value)) else r == Err(path.error)
    ensures forall code: byte :: code == 0 || code > 10 ==>
              var t := RawAttribute(flags, code, v);
              Store(a, t) == Ok(a.(unknown := a.unknown + [t]))
  {
    hide WordsOf, ParseSegments;
    AllWordsRead(v);
    assert Store(a, RawAttribute(flags, 8, v)) == Ok(a.(communities := a.communities + GetU32s(v, |v| / 4)));
    assert Store(a, RawAttribute(flags, 10, v)) == Ok(a.(clusterList := a.clusterList + GetU32s(v, |v| / 4)));
  }

  // ----- What is written -----

  /** One attribute on the wire. */
  function Tlv(flags: byte, code: byte, v: seq<byte>): seq<byte>
    requires flags / 16 % 2 == 0
  {
    if |v| <= 255 then [flags, code, |v|] + v else [flags + 16, code] + PutU16(|v| % 65536) + v
  }

  function SegmentsOnWire(path: seq<AsPathSegment>): seq<byte> {
    if path == [] then []
    else
      (match path[0]
       case AsSet(asns) => [1, |asns| % 256] + PutU32s(asns)
       case AsSequence(asns) => [2, |asns| % 256] + PutU32s(asns))
      + SegmentsOnWire(path[1..])
  }

  function WordTlv(flags: byte, code: byte, x: Option<u32>): seq<byte>
    requires flags / 16 % 2 == 0
  {
    if x.Some? then Tlv(flags, code, PutU32(x.value)) else []
  }

  function WordsTlv(flags: byte, code: byte, xs: seq<u32>): seq<byte>
    requires flags / 16 % 2 == 0
  {
    if xs == [] then [] else Tlv(flags, code, PutU32s(xs))
  }

  function UnknownOnWire(ts: seq<RawAttribute>): seq<byte> {
    if ts == [] then []
    else
      var t := ts[0];
      (if t.flags / 16 % 2 == 0 then Tlv(t.flags, t.typeCode, t.value)
       else if |t.value| <= 255 then [t.flags, t.typeCode, |t.value|] + t.value
       else [t.flags, t.typeCode] + PutU16(|t.value| % 65536) + t.value)
      + UnknownOnWire(ts[1..])
  }

  /** The fields in the order in which they are written, that of their type codes: the well-known ones with
      flags 64, MULTI_EXIT_DISC, ORIGINATOR_ID and CLUSTER_LIST with 128, AGGREGATOR and COMMUNITIES with
      192; unknown ones last, with their own flags. */
  function FieldOnWire(a: PathAttributes, i: nat): seq<byte> {
    match i
    case 0 =>
      (match a.origin
       case None => []
       case Some(Igp) => [64, 1, 1, 0]
       case Some(Egp) => [64, 1, 1, 1]
       case Some(Incomplete) => [64, 1, 1, 2])
    case 1 => if a.asPath == [] then [] else Tlv(64, 2, SegmentsOnWire(a.asPath))
    case 2 => WordTlv(64, 3, a.nextHop)
    case 3 => WordTlv(128, 4, a.multiExitDisc)
    case 4 => WordTlv(64, 5, a.localPref)
    case 5 => if a.atomicAggregate then [64, 6, 0] else []
    case 6 =>
      if a.aggregator.None? then []
      else [192, 7, 6] + PutU16(a.aggregator.value.0) + PutU32(a.aggregator.value.1)
    case 7 => WordsTlv(192, 8, a.communities)
    case 8 => WordTlv(128, 9, a.originatorId)
    case 9 => WordsTlv(128, 10, a.clusterList)
    case _ => UnknownOnWire(a.unknown)
  }

  function FieldsOnWire(a: PathAttributes, n: nat): seq<byte> {
    if n == 0 then [] else FieldsOnWire(a, n - 1) + FieldOnWire(a, n - 1)
  }

  lemma WriteAttrIsTlv(t: RawAttribute)
    ensures WriteAttrs([t]) == UnknownOnWire([t])
    ensures t.flags / 16 % 2 == 0 ==> WriteAttrs([t]) == Tlv(t.flags, t.typeCode, t.value)
  {
    hide PutU16;
    WriteOne(t);
    assert [t][1..] == [] && UnknownOnWire([]) == [];
    assert UnknownOnWire([t]) == WriteAttr(t) + [];
  }

  lemma {:induction false} UnknownIsWritten(ts: seq<RawAttribute>)
    ensures WriteAttrs(ts) == UnknownOnWire(ts)
  {
    hide PutU16;
    if ts != [] {
      UnknownIsWritten(ts[1..]);
    }
  }

  lemma {:induction false} SegmentsWritten(path: seq<AsPathSegment>)
    ensures PutSegments(path) == SegmentsOnWire(path)
  {
    if path != [] {
      SegmentsWritten(path[1..]);
    }
  }

  lemma FieldPrinted(a: PathAttributes, i: nat)
    ensures WriteAttrs(FieldTlvs(a, i)) == FieldOnWire(a, i)
  {
    hide WriteAttrs, PutU16, PutU32, PutU32s, UnknownOnWire, SegmentsOnWire, PutSegments;
    NoneWritten();
    SegmentsWritten(a.asPath);
    if i >= 10 {
      UnknownIsWritten(a.unknown);
    } else if FieldTlvs(a, i) != [] {
      WriteAttrIsTlv(FieldTlvs(a, i)[0]);
      assert FieldTlvs(a, i) == [FieldTlvs(a, i)[0]];
    }
  }

  lemma NoneWritten()
    ensures WriteAttrs([]) == []
  {
  }

  lemma {:induction false} FieldsPrinted(a: PathAttributes, n: nat)
    ensures Written(a, n) == FieldsOnWire(a, n)
  {
    hide FieldTlvs, FieldOnWire;
    if n > 0 {
      FieldsPrinted(a, n - 1);
      FieldPrinted(a, n - 1);
    }
  }

  /** The whole attribute list as written. */
  lemma AttributesPrinted(a: PathAttributes)
    ensures Serialize(a) == FieldsOnWire(a, 11)
  {
    hide Written, Serialize, FieldsOnWire;
    WrittenWhole(a);
    FieldsPrinted(a, 11);
  }
}
