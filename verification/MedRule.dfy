/** MED is compared between all neighbours (src/rib.rs, `run_decision_process`), where section 9.1.2.2 of
    RFC 4271 compares it between routes of one neighbour AS. */
module MedRule {
  import opened Wire
  import opened Attr
  import opened Prefixes
  import opened Dampening
  import opened Decision

  function Med(r: Route): nat {
    OrElse(r.attrs.multiExitDisc, 0)
  }

  /** The first three levels: LOCAL_PREF, AS_PATH length, ORIGIN. */
  function CompareLevels(a: PathAttributes, b: PathAttributes): Ordering {
    Then(CompareInt(OrElse(b.localPref, 100), OrElse(a.localPref, 100)),
    Then(CompareInt(AsPathLen(a.asPath), AsPathLen(b.asPath)),
         CompareInt(OriginRank(a), OriginRank(b))))
  }

  predicate Level(a: Route, b: Route) {
    CompareLevels(a.attrs, b.attrs) == Equal
  }

  /** A route of the same neighbour, level with `r`, has a lower MED. */
  ghost predicate Outdone(candidates: set<Route>, r: Route) {
    exists d :: d in candidates && Level(d, r) && d.peerAs == r.peerAs && Med(d) < Med(r)
  }

  /** No candidate is better on the first three levels. */
  ghost predicate TopLevel(candidates: set<Route>, r: Route) {
    r in candidates && forall d :: d in candidates ==> CompareLevels(d.attrs, r.attrs) != Less
  }

  /** The rules with MED compared within a neighbour only: top level, not outdone, and the oldest of these. */
  ghost predicate BestByNeighbour(candidates: set<Route>, r: Route) {
    && TopLevel(candidates, r) && !Outdone(candidates, r)
    && forall d :: d in candidates && Level(d, r) && !Outdone(candidates, d) ==> r.receivedAt <= d.receivedAt
  }

  /** The code's selection always passes the neighbour rule; it is also its selection exactly if every
      older route of another neighbour with a higher MED, level with it, is outdone in its own neighbour. */
  lemma MedSelectionIff(candidates: set<Route>, r: Route)
    requires IsBest(candidates, r)
    ensures TopLevel(candidates, r) && !Outdone(candidates, r)
    ensures BestByNeighbour(candidates, r) <==>
              forall d :: d in candidates && Level(d, r) && d.peerAs != r.peerAs && Med(r) < Med(d) && d.receivedAt < r.receivedAt ==>
                Outdone(candidates, d)
  {
    hide AsPathLen, OriginRank, OrElse;
    forall d | d in candidates
      ensures CompareLevels(d.attrs, r.attrs) != Less
      ensures Level(d, r) ==> Med(r) <= Med(d) && (Med(r) == Med(d) ==> r.receivedAt <= d.receivedAt)
    {
      assert !Better(d, r);
    }
    forall d | d in candidates && Level(d, r) && d.peerAs == r.peerAs && Med(r) < Med(d) ensures Outdone(candidates, d) {
      assert r in candidates && Level(r, d);
    }
  }

  /** An older route of AS 65001 with MED 10 and a newer one of AS 65002 with MED 5: the code selects the
      newer, the neighbour rule the older. */
  lemma MedExample(p: SocketAddr, q: SocketAddr, k: Prefix)
    ensures var older := Route(k, DEFAULT_ATTRIBUTES.(multiExitDisc := Some(10)), p, 65001, 0.0, false, Rpki.NotFound);
            var newer := Route(k, DEFAULT_ATTRIBUTES.(multiExitDisc := Some(5)), q, 65002, 1.0, false, Rpki.NotFound);
            && IsBest({older, newer}, newer) && !BestByNeighbour({older, newer}, newer)
            && BestByNeighbour({older, newer}, older) && !IsBest({older, newer}, older)
  {
    var older := Route(k, DEFAULT_ATTRIBUTES.(multiExitDisc := Some(10)), p, 65001, 0.0, false, Rpki.NotFound);
    var newer := Route(k, DEFAULT_ATTRIBUTES.(multiExitDisc := Some(5)), q, 65002, 1.0, false, Rpki.NotFound);
    assert Better(newer, older) && Level(older, newer);
    assert !Outdone({older, newer}, older) && !Outdone({older, newer}, newer);
  }
}
