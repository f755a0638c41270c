/** Origin validation as the RIB performs it (src/rib.rs, `process_update`): the AS number that is judged
    is the peer's, where section 2 of RFC 6811 derives it from the AS_PATH. */
module OriginValidation {
  import opened Wire
  import opened Attr
  import opened Prefixes
  import opened Dampening
  import opened Decision
  import opened RibModel
  import opened UpdateOutcome

  /** The route origin of section 2 of RFC 6811: the last AS of a final AS_SEQUENCE, the speaker's own
      for an empty path, NONE otherwise. */
  function RouteOrigin(path: seq<AsPathSegment>, localAs: u32): Option<u32> {
    if path == [] then Some(localAs)
    else
      match Last(path)
      case AsSequence(asns) => if asns == [] then None else Some(Last(asns))
      case AsSet(_) => None
  }

  /** The state a route is installed with is the standard's exactly when some ROA counts, unless none
      covers, and one that counts backs the peer's AS if and only if one matches the route's origin. */
  lemma InstalledState(cfg: Config, c: Core, op: RibOp, k: Prefix, localAs: u32)
    requires op.ProcessUpdate? && c.validator.mode != Rpki.Disabled && Rpki.RoasInRange(c.validator.roas)
    requires var who := Announcer(cfg, c.validator, op.peer, op.peerAs, op.attrs);
             k !in Keys(op.withdrawn) && Accepted(who, op.nlri, RibModel.Apply(cfg, c, op).damping, k)
    ensures var t', roas := TableOf(RibModel.Apply(cfg, c, op).adjIn, op.peer), c.validator.roas;
            var origin := RouteOrigin(op.attrs.asPath, localAs);
            && k in t'
            && (t'[k].rovState == Rpki.RfcStateOf(roas, k, origin)
                <==> !Rpki.NoneCounts(roas, k)
                     && (Rpki.Backed(roas, k, op.peerAs) <==> origin.Some? && Rpki.Matched(roas, k, origin.value)))
  {
    hide RibModel.Apply, Accepted, Rpki.Validate, RouteOrigin, Rpki.RfcStateOf;
    UpdatedRoute(cfg, c, op, k);
    Rpki.ValidateAgainstOrigin(c.validator.mode, c.validator.roas, k, op.peerAs, RouteOrigin(op.attrs.asPath, localAs));
  }

  /** Under Strict an announced route is dropped, and what was held stays, exactly when ROAs count but
      none of them backs the peer's AS; its own origin has no say. */
  lemma StrictOutcome(cfg: Config, c: Core, op: RibOp, k: Prefix)
    requires op.ProcessUpdate? && c.validator.mode == Rpki.Strict && Rpki.RoasInRange(c.validator.roas)
    requires k in Keys(op.nlri) && k !in Keys(op.withdrawn)
    requires !Suppressed(RibModel.Apply(cfg, c, op).damping, op.peer, k)
    ensures var t, t' := TableOf(c.adjIn, op.peer), TableOf(RibModel.Apply(cfg, c, op).adjIn, op.peer);
            var roas, who := c.validator.roas, Announcer(cfg, c.validator, op.peer, op.peerAs, op.attrs);
            if (exists r :: r in roas && Rpki.Counts(r, k)) && !Rpki.Backed(roas, k, op.peerAs) then
              (k in t' <==> k in t) && (k in t ==> t'[k] == t[k])
            else k in t' && t'[k] == Installed(who, k, LastStamp(op.nlri, k))
  {
    hide RibModel.Apply, Rpki.Validate, Rpki.Counts;
    UpdatedRoute(cfg, c, op, k);
    Rpki.ValidateByCounting(c.validator.mode, c.validator.roas, k, op.peerAs);
  }

  /** Under Loose validation keeps no route out; it is Invalid exactly when ROAs count but none of them
      backs the peer's AS. */
  lemma LooseOutcome(cfg: Config, c: Core, op: RibOp, k: Prefix)
    requires op.ProcessUpdate? && c.validator.mode == Rpki.Loose && Rpki.RoasInRange(c.validator.roas)
    requires k in Keys(op.nlri) && k !in Keys(op.withdrawn)
    requires !Suppressed(RibModel.Apply(cfg, c, op).damping, op.peer, k)
    ensures var t', roas := TableOf(RibModel.Apply(cfg, c, op).adjIn, op.peer), c.validator.roas;
            var some := exists r :: r in roas && Rpki.Counts(r, k);
            && k in t'
            && t'[k] == Route(k, op.attrs, op.peer, op.peerAs, LastStamp(op.nlri, k), false,
                              if !some then Rpki.NotFound
                              else if Rpki.Backed(roas, k, op.peerAs) then Rpki.Valid else Rpki.Invalid)
  {
    hide RibModel.Apply, Rpki.Counts;
    UpdatedRoute(cfg, c, op, k);
    Rpki.ValidateByCounting(Rpki.Loose, c.validator.roas, k, op.peerAs);
  }

  /** Under Disabled, the default, every route comes in as NotFound, whatever the ROAs say. */
  lemma DisabledOutcome(cfg: Config, c: Core, op: RibOp, k: Prefix)
    requires op.ProcessUpdate? && c.validator.mode == Rpki.Disabled
    requires k in Keys(op.nlri) && k !in Keys(op.withdrawn)
    requires !Suppressed(RibModel.Apply(cfg, c, op).damping, op.peer, k)
    ensures var t' := TableOf(RibModel.Apply(cfg, c, op).adjIn, op.peer);
            && k in t'
            && t'[k] == Route(k, op.attrs, op.peer, op.peerAs, LastStamp(op.nlri, k), false, Rpki.NotFound)
  {
    hide RibModel.Apply;
    UpdatedRoute(cfg, c, op, k);
  }

  // ----- Which origins are always judged right -----

  /** Judging `asn` gives the state of the true origin. */
  ghost predicate JudgedRight(mode: Rpki.RpkiMode, roas: seq<Rpki.Roa>, k: Prefix, asn: u32, origin: Option<u32>) {
    Rpki.RoasInRange(roas) && Rpki.NoDefaultRoas(roas) && !Rpki.OnlyTooLong(roas, k) ==>
      Rpki.Validate(mode, roas, k, asn) == Rpki.RfcStateOf(roas, k, origin)
  }

  /** The departures of the ROA test itself set aside, judging the peer's AS is right for every ROA table
      exactly if the route originates at the peer, with a nonzero AS number; the default route, which
      nothing covers, is always judged right. */
  lemma JudgedRightIff(mode: Rpki.RpkiMode, k: Prefix, asn: u32, origin: Option<u32>)
    requires mode != Rpki.Disabled
    ensures (forall roas :: JudgedRight(mode, roas, k, asn, origin))
       <==> k.prefixLen == 0 || (origin == Some(asn) && asn != 0)
  {
    hide Rpki.Validate, JudgedRight;
    if k.prefixLen == 0 || (origin == Some(asn) && asn != 0) {
      forall roas ensures JudgedRight(mode, roas, k, asn, origin) {
        if k.prefixLen == 0 {
          DefaultRouteUncovered(mode, roas, k, asn, origin);
        } else {
          OwnRouteJudgedRight(mode, roas, k, asn);
        }
      }
    } else {
      OwnRoaMisjudges(mode, k, asn, origin);
    }
  }

  lemma DefaultRouteUncovered(mode: Rpki.RpkiMode, roas: seq<Rpki.Roa>, k: Prefix, asn: u32, origin: Option<u32>)
    requires mode != Rpki.Disabled && k.prefixLen == 0
    ensures JudgedRight(mode, roas, k, asn, origin)
  {
    hide Rpki.Validate;
    if Rpki.RoasInRange(roas) && Rpki.NoDefaultRoas(roas) {
      Rpki.ValidateAgainstOrigin(mode, roas, k, asn, origin);
      assert forall r :: r in roas ==> !Rpki.AddressCovers(r, k);
    }
  }

  lemma OwnRouteJudgedRight(mode: Rpki.RpkiMode, roas: seq<Rpki.Roa>, k: Prefix, asn: u32)
    requires mode != Rpki.Disabled && asn != 0
    ensures JudgedRight(mode, roas, k, asn, Some(asn))
  {
    hide Rpki.Validate, Rpki.RfcState, Rpki.OnlyTooLong;
    if Rpki.RoasInRange(roas) && Rpki.NoDefaultRoas(roas) {
      Rpki.ValidateWithoutDefaultRoas(mode, roas, k, asn);
    }
  }

  /** A ROA that gives the very prefix to the peer makes the code say Valid. */
  lemma OwnRoaMisjudges(mode: Rpki.RpkiMode, k: Prefix, asn: u32, origin: Option<u32>)
    requires mode != Rpki.Disabled && k.prefixLen > 0 && !(origin == Some(asn) && asn != 0)
    ensures exists roas :: !JudgedRight(mode, roas, k, asn, origin)
  {
    hide Rpki.Validate, Rpki.RfcStateOf;
    var roa := Rpki.Roa(k.address, if k.prefixLen < 32 then k.prefixLen else 32, k.prefixLen, asn);
    assert roa in [roa] && Rpki.Counts(roa, k);
    Rpki.ValidateAgainstOrigin(mode, [roa], k, asn, origin);
    assert !JudgedRight(mode, [roa], k, asn, origin);
  }

  // ----- A transit route -----

  /** 10.1.0.0/16 with AS_PATH 65001 65010 from peer AS 65001, against the ROA 10.0.0.0/8, maximum
      length 24, of AS 65010: Valid by the standard, Invalid in the code, and dropped under Strict. */
  lemma TransitExample(cfg: Config, peer: SocketAddr, localAs: u32)
    ensures var k, path := Prefix(0x0A010000, 16), [AsSequence([65001, 65010])];
            var roas := [Rpki.Roa(0x0A000000, 8, 24, 65010)];
            var c := Core(map[], map[], Validator(Rpki.Strict, roas));
            var op := ProcessUpdate(peer, 65001, [Stamped(k, 0.0)], DEFAULT_ATTRIBUTES.(asPath := path), []);
            && Rpki.RfcStateOf(roas, k, RouteOrigin(path, localAs)) == Rpki.Valid
            && Rpki.Validate(Rpki.Strict, roas, k, 65001) == Rpki.Invalid
            && k !in TableOf(RibModel.Apply(cfg, c, op).adjIn, peer)
  {
    hide RibModel.Apply, Rpki.AddressCovers, Rpki.Validate;
    var k, roa := Prefix(0x0A010000, 16), Rpki.Roa(0x0A000000, 8, 24, 65010);
    var path := [AsSequence([65001, 65010])];
    var c := Core(map[], map[], Validator(Rpki.Strict, [roa]));
    var op := ProcessUpdate(peer, 65001, [Stamped(k, 0.0)], DEFAULT_ATTRIBUTES.(asPath := path), []);
    assert roa in [roa];
    Rpki.TenSlashEight(roa, k);
    assert Rpki.Counts(roa, k) && Rpki.Matches(roa, k, 65010);
    Rpki.ValidateByCounting(Rpki.Strict, [roa], k, 65001);
    UpdatedRoute(cfg, c, op, k);
  }
}
