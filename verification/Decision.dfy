/** Routes and the best-path comparison (src/rib.rs, `run_decision_process`). */
module Decision {
  import opened Wire
  import opened Attr
  import opened Prefixes
  import opened Dampening
  import Rpki

  datatype Route = Route(
    prefix: Prefix, attrs: PathAttributes, peerAddr: SocketAddr, peerAs: u32,
    receivedAt: Time, stale: bool, rovState: Rpki.RovState)

  datatype Ordering = Less | Equal | Greater

  function CompareInt(a: int, b: int): Ordering {
    if a < b then Less else if a == b then Equal else Greater
  }

  function CompareTime(a: Time, b: Time): Ordering {
    if a < b then Less else if a == b then Equal else Greater
  }

  function Then(first: Ordering, next: Ordering): Ordering {
    if first == Equal then next else first
  }

  function OrElse(x: Option<u32>, default: u32): u32 {
    if x.Some? then x.value else default
  }

  function OriginRank(a: PathAttributes): nat {
    if a.origin.Some? then OriginCode(a.origin.value) else 2
  }

  /** The first four levels: LOCAL_PREF, AS_PATH length, ORIGIN, MED. */
  function ComparePaths(a: PathAttributes, b: PathAttributes): Ordering {
    Then(CompareInt(OrElse(b.localPref, 100), OrElse(a.localPref, 100)),
    Then(CompareInt(AsPathLen(a.asPath), AsPathLen(b.asPath)),
    Then(CompareInt(OriginRank(a), OriginRank(b)),
         CompareInt(OrElse(a.multiExitDisc, 0), OrElse(b.multiExitDisc, 0)))))
  }

  /** `Less` is better; the oldest route wins a tie. */
  function Compare(a: Route, b: Route): Ordering {
    Then(ComparePaths(a.attrs, b.attrs), CompareTime(a.receivedAt, b.receivedAt))
  }

  predicate Better(a: Route, b: Route) {
    Compare(a, b) == Less
  }

  /** The comparison is a total preorder. */
  lemma CompareIsTotalPreorder(a: Route, b: Route, c: Route)
    ensures Compare(a, a) == Equal
    ensures Compare(a, b) == Less <==> Compare(b, a) == Greater
    ensures Compare(a, b) != Greater && Compare(b, c) != Greater ==> Compare(a, c) != Greater
    ensures Compare(a, b) == Less && Compare(b, c) != Greater ==> Compare(a, c) == Less
    ensures Compare(a, b) != Greater && Compare(b, c) == Less ==> Compare(a, c) == Less
  {
    hide AsPathLen, OrElse, OriginRank;
  }

  ghost predicate IsBest(candidates: set<Route>, r: Route) {
    r in candidates && forall c :: c in candidates ==> !Better(c, r)
  }

  /** The head of a stable sort: the first of the best candidates. */
  ghost predicate FirstBest(candidates: seq<Route>, i: nat) {
    && i < |candidates|
    && (forall j :: 0 <= j < |candidates| ==> !Better(candidates[j], candidates[i]))
    && (forall j :: 0 <= j < i ==> Better(candidates[i], candidates[j]))
  }

  method SelectBest(candidates: seq<Route>) returns (best: Route)
    requires candidates != []
    ensures exists i: nat :: FirstBest(candidates, i) && best == candidates[i]
  {
    hide Compare;
    var k := 0;
    best := candidates[0];
    CompareIsTotalPreorder(best, best, best);
    for i := 1 to |candidates|
      invariant 0 <= k < i && best == candidates[k]
      invariant forall j :: 0 <= j < i ==> !Better(candidates[j], best)
      invariant forall j :: 0 <= j < k ==> Better(best, candidates[j])
    {
      var c := candidates[i];
      forall j | 0 <= j < i + 1 ensures Better(c, best) ==> !Better(candidates[j], c) && (j < i ==> Better(c, candidates[j])) {
        CompareIsTotalPreorder(candidates[j], best, c);
        CompareIsTotalPreorder(c, best, candidates[j]);
        CompareIsTotalPreorder(candidates[j], c, c);
        CompareIsTotalPreorder(c, candidates[j], c);
      }
      if Compare(c, best) == Less {
        k, best := i, c;
      }
    }
    assert FirstBest(candidates, k);
  }

  /** Any sorted rearrangement of the candidates starts with a best one. */
  lemma SortedHeadIsBest(candidates: seq<Route>, sorted: seq<Route>)
    requires sorted != [] && multiset(sorted) == multiset(candidates)
    requires forall i, j :: 0 <= i < j < |sorted| ==> Compare(sorted[i], sorted[j]) != Greater
    ensures IsBest((set c | c in candidates), sorted[0])
  {
    hide Compare;
    forall c | c in candidates ensures !Better(c, sorted[0]) {
      assert c in multiset(sorted);
      var j :| 0 <= j < |sorted| && sorted[j] == c;
      CompareIsTotalPreorder(c, sorted[0], c);
    }
    assert sorted[0] in multiset(candidates);
  }

  /** Two selections from the same candidates tie on every level, so without full ties the choice
      does not depend on the order of enumeration. */
  lemma SelectionUnique(candidates: set<Route>, a: Route, b: Route)
    requires IsBest(candidates, a) && IsBest(candidates, b)
    ensures Compare(a, b) == Equal
    ensures (forall c, d :: c in candidates && d in candidates && c != d ==> Compare(c, d) != Equal) ==> a == b
  {
    hide Compare;
    CompareIsTotalPreorder(a, b, a);
    CompareIsTotalPreorder(b, a, b);
  }

  /** The rules in the fields themselves: highest LOCAL_PREF (100 if absent), then shortest AS_PATH, then
      ORIGIN (IGP before EGP before INCOMPLETE, absent like INCOMPLETE), then lowest MED (0 if absent),
      then the oldest. */
  ghost predicate Preferred(a: Route, b: Route) {
    var lp := if a.attrs.localPref.Some? then a.attrs.localPref.value else 100;
    var lp' := if b.attrs.localPref.Some? then b.attrs.localPref.value else 100;
    var len, len' := AsPathLen(a.attrs.asPath), AsPathLen(b.attrs.asPath);
    var o := if a.attrs.origin == Some(Igp) then 0 else if a.attrs.origin == Some(Egp) then 1 else 2;
    var o' := if b.attrs.origin == Some(Igp) then 0 else if b.attrs.origin == Some(Egp) then 1 else 2;
    var med := if a.attrs.multiExitDisc.Some? then a.attrs.multiExitDisc.value else 0;
    var med' := if b.attrs.multiExitDisc.Some? then b.attrs.multiExitDisc.value else 0;
    || lp > lp'
    || (lp == lp' && len < len')
    || (lp == lp' && len == len' && o < o')
    || (lp == lp' && len == len' && o == o' && med < med')
    || (lp == lp' && len == len' && o == o' && med == med' && a.receivedAt < b.receivedAt)
  }

  /** The comparison is exactly these rules, in this order. */
  lemma CompareByRules(a: Route, b: Route)
    ensures Compare(a, b) == Less <==> Preferred(a, b)
    ensures Compare(a, b) == Greater <==> Preferred(b, a)
    ensures Compare(a, b) == Equal <==> !Preferred(a, b) && !Preferred(b, a)
  {
    hide AsPathLen;
  }

  /** So no candidate is preferred to a selected route. */
  lemma BestByRules(candidates: set<Route>, r: Route)
    ensures IsBest(candidates, r) <==> r in candidates && forall c :: c in candidates ==> !Preferred(c, r)
  {
    hide Compare, Preferred;
    forall c | c in candidates ensures Better(c, r) <==> Preferred(c, r) {
      CompareByRules(c, r);
    }
  }

  /** Two routes that differ in ORIGIN only are ranked IGP, EGP, INCOMPLETE; absent ranks with the last. */
  lemma OriginOrder(r: Route, o: Option<Origin>, o': Option<Origin>)
    ensures var a, b := r.(attrs := r.attrs.(origin := o)), r.(attrs := r.attrs.(origin := o'));
            && (Compare(a, b) == Less <==> (o == Some(Igp) && o' != Some(Igp)) || (o == Some(Egp) && (o' == Some(Incomplete) || o' == None)))
            && (Compare(a, b) == Equal <==> o == o' || (o in {None, Some(Incomplete)} && o' in {None, Some(Incomplete)}))
  {
    hide AsPathLen;
  }

  /** An absent LOCAL_PREF counts as 100, an absent MED as 0. */
  lemma AbsentDefaults(r: Route)
    ensures Compare(r.(attrs := r.attrs.(localPref := None)), r.(attrs := r.attrs.(localPref := Some(100)))) == Equal
    ensures Compare(r.(attrs := r.attrs.(multiExitDisc := None)), r.(attrs := r.attrs.(multiExitDisc := Some(0)))) == Equal
  {
    hide AsPathLen;
  }

  /** AS_PATH length adds over segments: one for an AS_SET, its size for an AS_SEQUENCE. */
  lemma {:induction false} AsPathLenAdds(p: seq<AsPathSegment>, s: AsPathSegment)
    ensures AsPathLen(p + [s]) == AsPathLen(p) + if s.AsSet? then 1 else |s.asns|
  {
    if p == [] {
      assert [s][1..] == [];
    } else {
      assert (p + [s])[1..] == p[1..] + [s];
      AsPathLenAdds(p[1..], s);
    }
  }
}
