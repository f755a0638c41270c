/** Route origin validation against a local ROA table (src/rpki.rs). */
module Rpki {
  import opened Wire
  import opened Prefixes

  datatype Roa = Roa(prefix: u32, prefixLen: byte, maxLength: byte, originAs: u32)

  datatype RovState = Valid | Invalid | NotFound

  datatype RpkiMode = Disabled | Loose | Strict

  predicate Covers(r: Roa, route: Prefix) {
    r.prefixLen <= route.prefixLen <= r.maxLength
    && SameNetByShifts(r.prefix, route.address, r.prefixLen)
  }

  function Covering(roas: seq<Roa>, route: Prefix): seq<Roa> {
    if roas == [] then []
    else (if Covers(roas[0], route) then [roas[0]] else []) + Covering(roas[1..], route)
  }

  function Validate(mode: RpkiMode, roas: seq<Roa>, route: Prefix, originAs: u32): RovState {
    if mode == Disabled then NotFound
    else
      var covering := Covering(roas, route);
      if covering == [] then NotFound
      else if exists r :: r in covering && r.originAs == originAs then Valid
      else Invalid
  }

  predicate ShouldReject(mode: RpkiMode, state: RovState) {
    mode == Strict && state == Invalid
  }

  class RpkiValidator {
    var mode: RpkiMode
    var roas: seq<Roa>

    constructor (mode: RpkiMode)
      ensures this.mode == mode && roas == []
    {
      this.mode, roas := mode, [];
    }

    method AddRoa(roa: Roa)
      modifies this`roas
      ensures roas == old(roas) + [roa]
      ensures forall route, origin :: Rank(Validate(mode, old(roas), route, origin)) <= Rank(Validate(mode, roas, route, origin))
    {
      forall route, origin
        ensures Rank(Validate(mode, roas, route, origin)) <= Rank(Validate(mode, roas + [roa], route, origin))
      {
        AddRoaRaises(mode, roas, roa, route, origin);
      }
      roas := roas + [roa];
    }
  }

  // ----- Section 2 of RFC 6811 -----

  /** The ROA's prefix covers the route's, whatever the maximum length. */
  predicate AddressCovers(r: Roa, route: Prefix)
    requires r.prefixLen <= 32
  {
    Contains(Prefix(r.prefix, r.prefixLen), route)
  }

  predicate Matches(r: Roa, route: Prefix, originAs: u32)
    requires r.prefixLen <= 32
  {
    AddressCovers(r, route) && route.prefixLen <= r.maxLength && r.originAs == originAs && originAs != 0
  }

  predicate RoasInRange(roas: seq<Roa>) {
    forall r :: r in roas ==> r.prefixLen <= 32
  }

  predicate NoDefaultRoas(roas: seq<Roa>) {
    forall r :: r in roas ==> r.prefixLen >= 1
  }

  predicate Covered(roas: seq<Roa>, route: Prefix)
    requires RoasInRange(roas)
  {
    exists r :: r in roas && AddressCovers(r, route)
  }

  predicate Matched(roas: seq<Roa>, route: Prefix, originAs: u32)
    requires RoasInRange(roas)
  {
    exists r :: r in roas && Matches(r, route, originAs)
  }

  function RfcState(roas: seq<Roa>, route: Prefix, originAs: u32): RovState
    requires RoasInRange(roas)
  {
    if Matched(roas, route, originAs) then Valid
    else if Covered(roas, route) then Invalid
    else NotFound
  }

  /** The state of a route whose origin may be NONE, which no ROA matches. */
  function RfcStateOf(roas: seq<Roa>, route: Prefix, origin: Option<u32>): RovState
    requires RoasInRange(roas)
  {
    if origin.Some? then RfcState(roas, route, origin.value)
    else if Covered(roas, route) then Invalid
    else NotFound
  }

  // ----- Where the code departs from it -----

  /** The ROA takes part in the code's decision: it covers the route, admits its length and, if it is
      for the default route, names the route's very address. */
  predicate Counts(r: Roa, route: Prefix)
    requires r.prefixLen <= 32
  {
    AddressCovers(r, route) && route.prefixLen <= r.maxLength && (r.prefixLen == 0 ==> r.prefix == route.address)
  }

  /** ROAs cover the route by address, but none of them counts. */
  predicate NoneCounts(roas: seq<Roa>, route: Prefix)
    requires RoasInRange(roas)
  {
    Covered(roas, route) && forall r :: r in roas ==> !Counts(r, route)
  }

  /** AS 0 claims the route and a ROA for AS 0 counts. */
  predicate ZeroOriginAdmitted(roas: seq<Roa>, route: Prefix, originAs: u32)
    requires RoasInRange(roas)
  {
    originAs == 0 && exists r :: r in roas && Counts(r, route) && r.originAs == 0
  }

  /** A default-route ROA would match, but only ROAs of other origins count. */
  predicate DefaultMatchMissed(roas: seq<Roa>, route: Prefix, originAs: u32)
    requires RoasInRange(roas)
  {
    && originAs != 0
    && (exists r :: r in roas && r.prefixLen == 0 && route.prefixLen <= r.maxLength && r.originAs == originAs)
    && (exists r :: r in roas && Counts(r, route))
    && (forall r :: r in roas && Counts(r, route) ==> r.originAs != originAs)
  }

  lemma {:induction false} CoveringMembers(roas: seq<Roa>, route: Prefix)
    ensures forall r :: r in Covering(roas, route) <==> r in roas && Covers(r, route)
  {
    hide Covers;
    if roas != [] {
      CoveringMembers(roas[1..], route);
      assert roas == [roas[0]] + roas[1..];
    }
  }

  lemma CoversIsAddressCover(r: Roa, route: Prefix)
    requires 1 <= r.prefixLen <= 32
    ensures Covers(r, route) <==> AddressCovers(r, route) && route.prefixLen <= r.maxLength
  {
    ShiftsAreNetwork(r.prefix, route.address, r.prefixLen);
  }

  /** A ROA of length 0 is treated as a host route: the shift by 32 wraps to a shift by 0. */
  lemma DefaultRoaCoversOneAddress(r: Roa, route: Prefix)
    requires r.prefixLen == 0
    ensures Covers(r, route) <==> route.prefixLen <= r.maxLength && route.address == r.prefix
    ensures AddressCovers(r, route)
  {
    Pow2Word();
    ShrVanishes(r.prefix, 32);
    ShrVanishes(route.address, 32);
  }

  lemma CoversIffCounts(r: Roa, route: Prefix)
    requires r.prefixLen <= 32
    ensures Covers(r, route) <==> Counts(r, route)
    ensures r.prefixLen == 0 ==> AddressCovers(r, route)
  {
    hide Covers, AddressCovers;
    if r.prefixLen == 0 {
      DefaultRoaCoversOneAddress(r, route);
    } else {
      CoversIsAddressCover(r, route);
    }
  }

  /** The code's decision, over the ROAs that count. */
  lemma ValidateByCounting(mode: RpkiMode, roas: seq<Roa>, route: Prefix, originAs: u32)
    requires mode != Disabled && RoasInRange(roas)
    ensures Validate(mode, roas, route, originAs)
         == if exists r :: r in roas && Counts(r, route) && r.originAs == originAs then Valid
            else if exists r :: r in roas && Counts(r, route) then Invalid
            else NotFound
  {
    hide Covers, Counts;
    CoveringMembers(roas, route);
    forall r | r in roas ensures Covers(r, route) <==> Counts(r, route) {
      CoversIffCounts(r, route);
    }
    var covering := Covering(roas, route);
    if covering != [] {
      assert covering[0] in covering;
    }
  }

  /** For ROAs of every length up to 32 the code differs from the standard in exactly three
      situations, with these outcomes. */
  lemma ValidateAgainstRfc(mode: RpkiMode, roas: seq<Roa>, route: Prefix, originAs: u32)
    requires mode != Disabled && RoasInRange(roas)
    ensures var code, rfc := Validate(mode, roas, route, originAs), RfcState(roas, route, originAs);
            && (code == rfc <==> !NoneCounts(roas, route) && !ZeroOriginAdmitted(roas, route, originAs)
                                 && !DefaultMatchMissed(roas, route, originAs))
            && (NoneCounts(roas, route) ==>
                  code == NotFound && rfc == if Matched(roas, route, originAs) then Valid else Invalid)
            && (ZeroOriginAdmitted(roas, route, originAs) ==> code == Valid && rfc == Invalid)
            && (DefaultMatchMissed(roas, route, originAs) ==> code == Invalid && rfc == Valid)
  {
    hide Validate, AddressCovers;
    ValidateByCounting(mode, roas, route, originAs);
    forall r | r in roas ensures r.prefixLen == 0 ==> AddressCovers(r, route) {
      CoversIffCounts(r, route);
    }
    if r :| r in roas && Matches(r, route, originAs) {
      assert AddressCovers(r, route);
    }
    if r :| r in roas && Counts(r, route) {
      assert AddressCovers(r, route);
    }
  }

  predicate Backed(roas: seq<Roa>, route: Prefix, asn: u32)
    requires RoasInRange(roas)
  {
    exists r :: r in roas && Counts(r, route) && r.originAs == asn
  }

  /** The code judges the AS number `asn`, the standard the route's origin, which may be another or
      NONE. They agree exactly when some ROA counts, unless none covers, and one that counts backs `asn`
      if and only if one matches the origin. */
  lemma ValidateAgainstOrigin(mode: RpkiMode, roas: seq<Roa>, route: Prefix, asn: u32, origin: Option<u32>)
    requires mode != Disabled && RoasInRange(roas)
    ensures Validate(mode, roas, route, asn) == RfcStateOf(roas, route, origin)
       <==> !NoneCounts(roas, route)
            && (Backed(roas, route, asn) <==> origin.Some? && Matched(roas, route, origin.value))
  {
    hide Validate, AddressCovers;
    ValidateByCounting(mode, roas, route, asn);
    if r :| r in roas && Counts(r, route) {
      assert AddressCovers(r, route);
    }
    if origin.Some? {
      if r :| r in roas && Matches(r, route, origin.value) {
        assert AddressCovers(r, route);
      }
    }
  }

  /** Every ROA that covers the route by address is too short for it. */
  predicate OnlyTooLong(roas: seq<Roa>, route: Prefix)
    requires RoasInRange(roas)
  {
    Covered(roas, route)
    && forall r :: r in roas && AddressCovers(r, route) ==> r.maxLength < route.prefixLen
  }

  /** Without default-route ROAs two situations remain; Valid coincides for nonzero origins and coded
      Invalid is always Invalid. */
  lemma ValidateWithoutDefaultRoas(mode: RpkiMode, roas: seq<Roa>, route: Prefix, originAs: u32)
    requires mode != Disabled && RoasInRange(roas) && NoDefaultRoas(roas)
    ensures var code, rfc := Validate(mode, roas, route, originAs), RfcState(roas, route, originAs);
            && (code == rfc <==> !OnlyTooLong(roas, route) && !ZeroOriginAdmitted(roas, route, originAs))
            && (originAs != 0 ==> (code == Valid <==> rfc == Valid))
            && (code == Invalid ==> rfc == Invalid)
            && (OnlyTooLong(roas, route) ==> code == NotFound && rfc == Invalid)
  {
    hide Validate, AddressCovers;
    ValidateByCounting(mode, roas, route, originAs);
    ValidateAgainstRfc(mode, roas, route, originAs);
    assert NoneCounts(roas, route) <==> OnlyTooLong(roas, route);
    if r :| r in roas && Matches(r, route, originAs) {
      assert Counts(r, route);
    }
    if r :| r in roas && Counts(r, route) {
      assert AddressCovers(r, route);
    }
  }

  // ----- The departures at an input -----

  /** 10.1.2.0/25 from AS 65001 against the ROA 10.0.0.0/8, maximum length 24, of AS 65001. */
  lemma TooLongExample(mode: RpkiMode)
    requires mode != Disabled
    ensures var roas, route := [Roa(0x0A000000, 8, 24, 65001)], Prefix(0x0A010200, 25);
            Validate(mode, roas, route, 65001) == NotFound && RfcState(roas, route, 65001) == Invalid
  {
    hide AddressCovers, Validate;
    var roa, route := Roa(0x0A000000, 8, 24, 65001), Prefix(0x0A010200, 25);
    assert roa in [roa] && NoDefaultRoas([roa]);
    TenSlashEight(roa, route);
    ValidateWithoutDefaultRoas(mode, [roa], route, 65001);
  }

  lemma TenSlashEight(roa: Roa, route: Prefix)
    requires roa.prefix == 0x0A000000 && roa.prefixLen == 8
    requires route.prefixLen >= 8 && 0x0A000000 <= route.address < 0x0B000000
    ensures AddressCovers(roa, route)
  {
    hide Shr;
    ShrIsQuotient(roa.prefix, 24);
    ShrIsQuotient(route.address, 24);
    Pow2TwentyFour();
  }

  lemma Pow2TwentyFour()
    ensures Pow2(24) == 0x100_0000
  {
    assert Pow2(8) == 256;
    assert Pow2(16) == 256 * Pow2(8);
    assert Pow2(24) == 256 * Pow2(16);
  }

  /** 10.0.0.0/8 claimed by AS 0 against a ROA of AS 0. */
  lemma ZeroOriginExample(mode: RpkiMode)
    requires mode != Disabled
    ensures var roas, route := [Roa(0x0A000000, 8, 8, 0)], Prefix(0x0A000000, 8);
            Validate(mode, roas, route, 0) == Valid && RfcState(roas, route, 0) == Invalid
  {
    hide AddressCovers, Validate;
    var roa, route := Roa(0x0A000000, 8, 8, 0), Prefix(0x0A000000, 8);
    assert roa in [roa];
    TenSlashEight(roa, route);
    ValidateAgainstRfc(mode, [roa], route, 0);
  }

  /** 10.0.0.0/8 from AS 65001 against a default-route ROA of AS 65001 and a ROA 10.0.0.0/8 of AS 65002. */
  lemma DefaultRoaExample(mode: RpkiMode)
    requires mode != Disabled
    ensures var roas, route := [Roa(0, 0, 32, 65001), Roa(0x0A000000, 8, 8, 65002)], Prefix(0x0A000000, 8);
            Validate(mode, roas, route, 65001) == Invalid && RfcState(roas, route, 65001) == Valid
  {
    hide AddressCovers, Validate;
    var any, ten, route := Roa(0, 0, 32, 65001), Roa(0x0A000000, 8, 8, 65002), Prefix(0x0A000000, 8);
    assert any in [any, ten] && ten in [any, ten];
    TenSlashEight(ten, route);
    ValidateAgainstRfc(mode, [any, ten], route, 65001);
  }

  function Rank(s: RovState): nat {
    match s
    case NotFound => 0
    case Invalid => 1
    case Valid => 2
  }

  /** Adding a ROA never lowers a route's state in the order NotFound, Invalid, Valid. */
  lemma AddRoaRaises(mode: RpkiMode, roas: seq<Roa>, roa: Roa, route: Prefix, originAs: u32)
    ensures Rank(Validate(mode, roas, route, originAs)) <= Rank(Validate(mode, roas + [roa], route, originAs))
  {
    hide Covers;
    CoveringMembers(roas, route);
    CoveringMembers(roas + [roa], route);
    var before, after := Covering(roas, route), Covering(roas + [roa], route);
    assert forall r :: r in before ==> r in after;
    if before != [] {
      assert before[0] in after;
    }
  }
}
