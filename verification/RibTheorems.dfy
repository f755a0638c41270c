/** Consequences of the RIB invariant for reachable states. */
module RibTheorems {
  import opened Attr
  import opened Prefixes
  import opened Dampening
  import opened Decision
  import opened RibModel

  /** The Loc-RIB keys are the union of the tables' keys, and each entry is its peer's current route
      up to the stale flag, with no better candidate. */
  lemma {:induction false} LocEntry(s: State, k: Prefix)
    requires Invariant(s)
    ensures k in s.loc <==> exists p :: k in TableOf(s.core.adjIn, p)
    ensures k in s.loc ==>
              var p := s.loc[k].peerAddr;
              var table := TableOf(s.core.adjIn, p);
              && s.loc[k].prefix == k
              && k in table && SameRoute(s.loc[k], table[k]) && (s.loc[k].stale ==> table[k].stale)
              && IsBest(Candidates(s.core.adjIn, k), table[k])
  {
    hide IsBest;
    var adjIn := s.core.adjIn;
    var cs := Candidates(adjIn, k);
    assert AgreesAt(adjIn, s.loc, k);
    if p :| k in TableOf(adjIn, p) {
      assert adjIn[p][k] in cs;
    }
    if k in s.loc {
      var c :| IsBest(cs, c) && SameRoute(s.loc[k], c) && (s.loc[k].stale ==> c.stale);
      BestIsCandidate(cs, c);
      var p :| p in adjIn && k in adjIn[p] && adjIn[p][k] == c;
      assert k in TableOf(adjIn, p);
    }
  }

  lemma BestIsCandidate(cs: set<Route>, c: Route)
    requires IsBest(cs, c)
    ensures c in cs
  {
  }

  /** A suppressed route is neither held nor selected, so skipping its announcement leaves no older
      route behind. */
  lemma SuppressedNotSelected(s: State, p: SocketAddr, k: Prefix)
    requires Invariant(s) && Suppressed(s.core.damping, p, k)
    ensures k !in TableOf(s.core.adjIn, p)
    ensures k in s.loc ==> s.loc[k].peerAddr != p
  {
    LocEntry(s, k);
  }

  /** Removing a peer leaves nothing of it: no table, no selected route, no damping state. */
  lemma RemovedPeerGone(cfg: Config, s: State, p: SocketAddr, s': State)
    requires Invariant(s) && Step(cfg, s, RibOp.RemovePeer(p), s')
    ensures p !in s'.core.adjIn
    ensures forall k :: k in s'.loc ==> s'.loc[k].peerAddr != p
    ensures forall key :: key in s'.core.damping ==> key.0 != p
  {
    InvariantStep(cfg, s, RibOp.RemovePeer(p), s');
    forall k | k in s'.loc ensures s'.loc[k].peerAddr != p {
      LocEntry(s', k);
    }
  }

  /** No two peers' routes for one prefix tie on every level. */
  ghost predicate NoFullTies(adjIn: map<SocketAddr, AdjRibIn>) {
    forall p, q, k :: p != q && k in TableOf(adjIn, p) && k in TableOf(adjIn, q) ==>
      Compare(TableOf(adjIn, p)[k], TableOf(adjIn, q)[k]) != Equal
  }

  /** Without full ties the Loc-RIB is determined by the tables, whatever sequence of incremental
      updates led to it; an absent table and an empty one are alike. */
  lemma {:induction false} LocDetermined(s: State, s': State, k: Prefix)
    requires Invariant(s) && Invariant(s') && NoFullTies(s.core.adjIn)
    requires forall q :: TableOf(s.core.adjIn, q) == TableOf(s'.core.adjIn, q)
    ensures k in s.loc <==> k in s'.loc
    ensures k in s.loc ==> SameRoute(s.loc[k], s'.loc[k])
  {
    hide Compare, Invariant;
    LocEntry(s, k);
    LocEntry(s', k);
    if k in s.loc {
      var adjIn := s.core.adjIn;
      var p, q := s.loc[k].peerAddr, s'.loc[k].peerAddr;
      SameCandidates(adjIn, s'.core.adjIn, k);
      SelectionUnique(Candidates(adjIn, k), TableOf(adjIn, p)[k], TableOf(s'.core.adjIn, q)[k]);
    }
  }

  /** A later announcement by another peer that ties with the selected route on LOCAL_PREF, AS_PATH
      length, ORIGIN and MED does not displace it, provided no third route ties with it fully. */
  lemma {:induction false} IncumbentKept(cfg: Config, s: State, op: RibOp, s': State, k: Prefix)
    requires Invariant(s) && Step(cfg, s, op, s') && op.ProcessUpdate?
    requires k in s.loc && s.loc[k].peerAddr != op.peer
    requires forall q :: q != s.loc[k].peerAddr && k in TableOf(s.core.adjIn, q) ==>
               Compare(s.loc[k], TableOf(s.core.adjIn, q)[k]) != Equal
    requires k in TableOf(s'.core.adjIn, op.peer) ==>
               var r := TableOf(s'.core.adjIn, op.peer)[k];
               ComparePaths(s.loc[k].attrs, r.attrs) == Equal && s.loc[k].receivedAt < r.receivedAt
    ensures k in s'.loc && SameRoute(s'.loc[k], s.loc[k])
  {
    LocEntry(s, k);
    InvariantStep(cfg, s, op, s');
    LocEntry(s', k);
    var p := s.loc[k].peerAddr;
    var inc := TableOf(s.core.adjIn, p)[k];
    UpdateLeavesOthers(cfg, s.core, op);
    assert k in TableOf(s'.core.adjIn, p) && TableOf(s'.core.adjIn, p)[k] == inc;
    var q := s'.loc[k].peerAddr;
    var r := TableOf(s'.core.adjIn, q)[k];
    assert inc in Candidates(s'.core.adjIn, k);
    if q != p {
      IncumbentBeats(s, k, q, r, op.peer);
    }
  }

  lemma UpdateLeavesOthers(cfg: Config, c: Core, op: RibOp)
    requires op.ProcessUpdate?
    ensures forall p :: p != op.peer ==> TableOf(RibModel.Apply(cfg, c, op).adjIn, p) == TableOf(c.adjIn, p)
  {
    hide Ingested;
  }

  lemma IncumbentBeats(s: State, k: Prefix, q: SocketAddr, r: Route, announcer: SocketAddr)
    requires Invariant(s) && k in s.loc && q != s.loc[k].peerAddr
    requires q != announcer ==>
               k in TableOf(s.core.adjIn, q) && TableOf(s.core.adjIn, q)[k] == r && Compare(s.loc[k], r) != Equal
    requires q == announcer ==>
               ComparePaths(s.loc[k].attrs, r.attrs) == Equal && s.loc[k].receivedAt < r.receivedAt
    ensures k in TableOf(s.core.adjIn, s.loc[k].peerAddr)
    ensures Better(TableOf(s.core.adjIn, s.loc[k].peerAddr)[k], r)
  {
    hide ComparePaths;
    LocEntry(s, k);
    var inc := TableOf(s.core.adjIn, s.loc[k].peerAddr)[k];
    CompareIgnoresStale(inc, r, s.loc[k].stale, r.stale);
    assert s.loc[k] == inc.(stale := s.loc[k].stale) && r == r.(stale := r.stale);
    if q != announcer {
      assert r in Candidates(s.core.adjIn, k);
      CompareIsTotalPreorder(r, inc, r);
      CompareIsTotalPreorder(inc, r, inc);
    }
  }

  /** The RIB after the first announcement it ever sees. */
  lemma FirstRoute(cfg: Config, addr: SocketAddr, k: Prefix) returns (s': State)
    ensures Step(cfg, EMPTY, RibOp.ProcessUpdate(addr, 0, [Stamped(k, 0.0)], DEFAULT_ATTRIBUTES, []), s')
    ensures k in s'.loc && s'.loc[k].peerAddr == addr && !s'.loc[k].stale
    ensures addr in s'.core.adjIn && k in s'.core.adjIn[addr]
  {
    var op := RibOp.ProcessUpdate(addr, 0, [Stamped(k, 0.0)], DEFAULT_ATTRIBUTES, []);
    var r := Route(k, DEFAULT_ATTRIBUTES, addr, 0, 0.0, false, Rpki.NotFound);
    var who := Announcer(cfg, EMPTY.core.validator, addr, 0, DEFAULT_ATTRIBUTES);
    var start := Ingest(map[], map[], {});
    var g := Ingest(map[], map[k := r], {k});
    assert Announce(who, start, Stamped(k, 0.0)) == g;
    assert [Stamped(k, 0.0)][1..] == [];
    assert AnnounceAll(who, start, [Stamped(k, 0.0)]) == AnnounceAll(who, g, []) == g;
    assert Ingested(cfg, EMPTY.core, op) == g;
    assert map[k := r] - Keys([]) == map[k := r];
    s' := State(EMPTY.core.(adjIn := map[addr := map[k := r]]), map[k := r]);
    assert Candidates(s'.core.adjIn, k) == {r};
    assert !Better(r, r);
  }

  // ----- The summary counters -----

  /** Which peers have a table, and so are counted: an UPDATE creates one even if nothing is accepted, removal
      drops it, and a sweep drops it exactly if no fresh route is left. */
  lemma TablesAfter(cfg: Config, c: Core, op: RibOp, p: SocketAddr)
    ensures p in RibModel.Apply(cfg, c, op).adjIn <==>
              match op
              case ProcessUpdate(peer, _, _, _, _) => p == peer || p in c.adjIn
              case RemovePeer(peer) => p != peer && p in c.adjIn
              case Sweep(peer) => p in c.adjIn && (p == peer ==> exists k :: k in c.adjIn[p] && !c.adjIn[p][k].stale)
              case _ => p in c.adjIn
  {
    hide Ingested;
    if op.Sweep? && op.peer in c.adjIn {
      var t := c.adjIn[op.peer];
      var kept := t - StaleKeys(t);
      assert kept == map[] <==> forall k :: k in t ==> t[k].stale by {
        if k :| k in t && !t[k].stale { assert k in kept; }
        if forall k :: k in t ==> t[k].stale { assert kept.Keys == {}; }
      }
    }
  }

  ghost function AnyPeer(adjIn: map<SocketAddr, AdjRibIn>): (p: SocketAddr)
    requires adjIn != map[]
    ensures p in adjIn
  {
    var p :| p in adjIn;
    p
  }

  /** Total number of routes held over all peers. */
  ghost function TotalRoutes(adjIn: map<SocketAddr, AdjRibIn>): nat
    decreases |adjIn|
  {
    if adjIn == map[] then 0
    else |adjIn[AnyPeer(adjIn)]| + TotalRoutes(adjIn - {AnyPeer(adjIn)})
  }

  ghost function OfferedKeys(adjIn: map<SocketAddr, AdjRibIn>): set<Prefix> {
    set p, k | p in adjIn && k in adjIn[p] :: k
  }

  lemma UnionSize(a: set<Prefix>, b: set<Prefix>)
    ensures |a + b| <= |a| + |b|
  {
    assert a + b == a + (b - a);
  }

  lemma OfferedSplit(adjIn: map<SocketAddr, AdjRibIn>, p: SocketAddr)
    requires p in adjIn
    ensures OfferedKeys(adjIn) == adjIn[p].Keys + OfferedKeys(adjIn - {p})
  {
    forall k | k in OfferedKeys(adjIn) ensures k in adjIn[p].Keys + OfferedKeys(adjIn - {p}) {
      var q :| q in adjIn && k in adjIn[q];
      if q != p { assert q in adjIn - {p} && k in (adjIn - {p})[q]; }
    }
  }

  lemma {:induction false} OfferedBounded(adjIn: map<SocketAddr, AdjRibIn>)
    ensures |OfferedKeys(adjIn)| <= TotalRoutes(adjIn)
    decreases |adjIn|
  {
    if adjIn == map[] {
      assert OfferedKeys(adjIn) == {};
    } else {
      var p := AnyPeer(adjIn);
      OfferedBounded(adjIn - {p});
      OfferedSplit(adjIn, p);
      UnionSize(adjIn[p].Keys, OfferedKeys(adjIn - {p}));
      assert |adjIn[p].Keys| == |adjIn[p]|;
    }
  }

  /** The Loc-RIB never has more entries than the tables have routes. */
  lemma SummaryBounded(s: State)
    requires Invariant(s)
    ensures |s.loc| <= TotalRoutes(s.core.adjIn)
  {
    hide Invariant;
    forall k ensures k in s.loc.Keys <==> k in OfferedKeys(s.core.adjIn) {
      LocEntry(s, k);
      if p :| k in TableOf(s.core.adjIn, p) {
        assert p in s.core.adjIn && k in s.core.adjIn[p];
      }
      if k in OfferedKeys(s.core.adjIn) {
        var p :| p in s.core.adjIn && k in s.core.adjIn[p];
        assert k in TableOf(s.core.adjIn, p);
      }
    }
    assert s.loc.Keys == OfferedKeys(s.core.adjIn);
    OfferedBounded(s.core.adjIn);
  }
}
