/** The routing information base as a state machine (src/rib.rs): the Adj-RIB-In tables, the damping
    state and the ROA table change deterministically; the Loc-RIB is whatever the decision process may
    select, since hash-map order decides between full ties. */
module RibModel {
  import opened Wire
  import opened Attr
  import opened Prefixes
  import opened Dampening
  import opened Decision

  type AdjRibIn = map<Prefix, Route>
  type LocRib = map<Prefix, Route>

  datatype Validator = Validator(mode: Rpki.RpkiMode, roas: seq<Rpki.Roa>)

  /** A prefix of an UPDATE with the clock reading when its turn comes. */
  datatype Stamped = Stamped(prefix: Prefix, at: Time)

  datatype Core = Core(adjIn: map<SocketAddr, AdjRibIn>, damping: Table, validator: Validator)

  datatype State = State(core: Core, loc: LocRib)

  datatype RibOp =
    | ProcessUpdate(peer: SocketAddr, peerAs: u32, nlri: seq<Stamped>, attrs: PathAttributes, withdrawn: seq<Stamped>)
    | RemovePeer(peer: SocketAddr)
    | MarkStale(peer: SocketAddr)
    | Sweep(peer: SocketAddr)
    | Configure(validator: Validator)

  function TableOf(adjIn: map<SocketAddr, AdjRibIn>, peer: SocketAddr): AdjRibIn {
    if peer in adjIn then adjIn[peer] else map[]
  }

  // ----- The deterministic part -----

  function RecordAll(cfg: Config, t: Table, peer: SocketAddr, withdrawn: seq<Stamped>): Table
    decreases |withdrawn|
  {
    if withdrawn == [] then t
    else RecordAll(cfg, Withdrawn(cfg, t, peer, withdrawn[0].prefix, withdrawn[0].at), peer, withdrawn[1..])
  }

  /** Who announces, and with what. */
  datatype Announcer = Announcer(cfg: Config, validator: Validator, peer: SocketAddr, peerAs: u32, attrs: PathAttributes)

  /** The damping state, the peer's table and the keys inserted so far. */
  datatype Ingest = Ingest(damping: Table, table: AdjRibIn, affected: set<Prefix>)

  function Rov(who: Announcer, prefix: Prefix): Rpki.RovState {
    Rpki.Validate(who.validator.mode, who.validator.roas, prefix, who.peerAs)
  }

  /** One announced prefix: skipped if suppressed or rejected by origin validation. */
  function Announce(who: Announcer, g: Ingest, x: Stamped): Ingest {
    var damping := Advertised(who.cfg, g.damping, who.peer, x.prefix, x.at);
    var rov := Rov(who, x.prefix);
    if Suppressed(damping, who.peer, x.prefix) || Rpki.ShouldReject(who.validator.mode, rov) then
      g.(damping := damping)
    else
      Ingest(damping,
             g.table[x.prefix := Route(x.prefix, who.attrs, who.peer, who.peerAs, x.at, false, rov)],
             g.affected + {x.prefix})
  }

  function AnnounceAll(who: Announcer, g: Ingest, nlri: seq<Stamped>): Ingest
    decreases |nlri|
  {
    if nlri == [] then g else AnnounceAll(who, Announce(who, g, nlri[0]), nlri[1..])
  }

  function Keys(xs: seq<Stamped>): set<Prefix> {
    set x | x in xs :: x.prefix
  }

  function StaleKeys(t: AdjRibIn): set<Prefix> {
    set k | k in t && t[k].stale
  }

  function Marked(t: AdjRibIn): AdjRibIn {
    map k | k in t :: t[k].(stale := true)
  }

  function Ingested(cfg: Config, c: Core, op: RibOp): Ingest
    requires op.ProcessUpdate?
  {
    AnnounceAll(Announcer(cfg, c.validator, op.peer, op.peerAs, op.attrs),
                Ingest(RecordAll(cfg, c.damping, op.peer, op.withdrawn), TableOf(c.adjIn, op.peer), {}),
                op.nlri)
  }

  function Apply(cfg: Config, c: Core, op: RibOp): Core {
    match op
    case ProcessUpdate(peer, _, _, _, withdrawn) =>
      var g := Ingested(cfg, c, op);
      c.(adjIn := c.adjIn[peer := g.table - Keys(withdrawn)], damping := g.damping)
    case RemovePeer(peer) => c.(adjIn := c.adjIn - {peer}, damping := WithoutPeer(c.damping, peer))
    case MarkStale(peer) =>
      if peer in c.adjIn then c.(adjIn := c.adjIn[peer := Marked(c.adjIn[peer])]) else c
    case Sweep(peer) =>
      if peer !in c.adjIn then c
      else
        var kept := c.adjIn[peer] - StaleKeys(c.adjIn[peer]);
        c.(adjIn := if kept == map[] then c.adjIn - {peer} else c.adjIn[peer := kept])
    case Configure(validator) => c.(validator := validator)
  }

  /** The keys an operation re-runs the decision process for. */
  function Affected(cfg: Config, c: Core, op: RibOp): set<Prefix> {
    match op
    case ProcessUpdate(_, _, _, _, withdrawn) => Ingested(cfg, c, op).affected + Keys(withdrawn)
    case RemovePeer(peer) => TableOf(c.adjIn, peer).Keys
    case Sweep(peer) => StaleKeys(TableOf(c.adjIn, peer))
    case _ => {}
  }

  // ----- The decision process and the steps -----

  function Candidates(adjIn: map<SocketAddr, AdjRibIn>, k: Prefix): set<Route> {
    set p | p in adjIn && k in adjIn[p] :: adjIn[p][k]
  }

  /** `loc` holds at `k` what one run of the decision process leaves there. */
  ghost predicate Decided(adjIn: map<SocketAddr, AdjRibIn>, loc: LocRib, k: Prefix) {
    var cs := Candidates(adjIn, k);
    if cs == {} then k !in loc else k in loc && IsBest(cs, loc[k])
  }

  ghost predicate SameAt(a: LocRib, b: LocRib, k: Prefix) {
    (k in a <==> k in b) && (k in a ==> a[k] == b[k])
  }

  ghost predicate Redecided(adjIn: map<SocketAddr, AdjRibIn>, loc: LocRib, loc': LocRib, keys: set<Prefix>) {
    && (forall k :: k in keys ==> Decided(adjIn, loc', k))
    && (forall k :: k !in keys ==> SameAt(loc, loc', k))
  }

  ghost predicate Step(cfg: Config, s: State, op: RibOp, s': State) {
    && s'.core == Apply(cfg, s.core, op)
    && Redecided(s'.core.adjIn, s.loc, s'.loc, Affected(cfg, s.core, op))
  }

  const EMPTY: State := State(Core(map[], map[], Validator(Rpki.Disabled, [])), map[])

  ghost predicate IsRun(cfg: Config, states: seq<State>, ops: seq<RibOp>) {
    && |states| == |ops| + 1
    && states[0] == EMPTY
    && forall i :: 0 <= i < |ops| ==> Step(cfg, states[i], ops[i], states[i + 1])
  }

  // ----- What every reachable state satisfies -----

  ghost predicate SameRoute(a: Route, b: Route) {
    a.(stale := false) == b.(stale := false)
  }

  /** The Loc-RIB agrees with the tables at `k`: present exactly if some peer offers the key, and then
      it is, up to the stale flag, a peer's current route that no candidate beats. */
  ghost predicate AgreesAt(adjIn: map<SocketAddr, AdjRibIn>, loc: LocRib, k: Prefix) {
    var cs := Candidates(adjIn, k);
    if cs == {} then k !in loc
    else k in loc && exists c :: IsBest(cs, c) && SameRoute(loc[k], c) && (loc[k].stale ==> c.stale)
  }

  ghost predicate Agrees(adjIn: map<SocketAddr, AdjRibIn>, loc: LocRib) {
    forall k :: AgreesAt(adjIn, loc, k)
  }

  /** Every route is filed under its own peer and prefix. */
  ghost predicate Filed(adjIn: map<SocketAddr, AdjRibIn>) {
    forall p, k :: p in adjIn && k in adjIn[p] ==> adjIn[p][k].peerAddr == p && adjIn[p][k].prefix == k
  }

  /** A suppressed route is not held. */
  ghost predicate NoneHeldSuppressed(c: Core) {
    forall p, k :: Suppressed(c.damping, p, k) ==> k !in TableOf(c.adjIn, p)
  }

  ghost predicate Invariant(s: State) {
    Agrees(s.core.adjIn, s.loc) && Filed(s.core.adjIn) && NoneHeldSuppressed(s.core)
  }

  // ----- Facts about the ingest loops -----

  lemma {:induction false} RecordSuppresses(cfg: Config, t: Table, peer: SocketAddr, withdrawn: seq<Stamped>, p: SocketAddr, k: Prefix)
    requires Suppressed(RecordAll(cfg, t, peer, withdrawn), p, k)
    ensures Suppressed(t, p, k) || (p == peer && k in Keys(withdrawn))
    decreases |withdrawn|
  {
    if withdrawn != [] {
      var w := withdrawn[0];
      RecordSuppresses(cfg, Withdrawn(cfg, t, peer, w.prefix, w.at), peer, withdrawn[1..], p, k);
      assert w in withdrawn;
      assert Keys(withdrawn[1..]) <= Keys(withdrawn);
    }
  }

  /** What announcing does to one key of the announcing peer, and to suppression everywhere. */
  ghost predicate IngestFrame(who: Announcer, g: Ingest, g': Ingest, k: Prefix) {
    && (k in g.affected ==> k in g'.affected)
    && (k !in g'.affected ==> (k in g'.table <==> k in g.table) && (k in g.table ==> g'.table[k] == g.table[k]))
    && (Suppressed(g'.damping, who.peer, k) ==> (k in g'.table ==> k in g.table))
    && (k in g'.table ==>
          (k in g.table && g'.table[k] == g.table[k])
          || (g'.table[k].peerAddr == who.peer && g'.table[k].prefix == k && !g'.table[k].stale))
  }

  lemma AnnounceFrame(who: Announcer, g: Ingest, x: Stamped, k: Prefix)
    ensures IngestFrame(who, g, Announce(who, g, x), k)
  {
    hide Advertised;
  }

  lemma AdvertisedSuppresses(cfg: Config, t: Table, peer: SocketAddr, prefix: Prefix, now: Time, p: SocketAddr, k: Prefix)
    requires Suppressed(Advertised(cfg, t, peer, prefix, now), p, k)
    ensures Suppressed(t, p, k)
  {
  }

  lemma {:induction false} AnnounceAllSuppresses(who: Announcer, g: Ingest, nlri: seq<Stamped>, p: SocketAddr, k: Prefix)
    requires Suppressed(AnnounceAll(who, g, nlri).damping, p, k)
    ensures Suppressed(g.damping, p, k)
    decreases |nlri|
  {
    hide Advertised, Suppressed;
    if nlri != [] {
      AnnounceAllSuppresses(who, Announce(who, g, nlri[0]), nlri[1..], p, k);
      AdvertisedSuppresses(who.cfg, g.damping, who.peer, nlri[0].prefix, nlri[0].at, p, k);
    }
  }

  lemma {:induction false} AnnounceAllFrame(who: Announcer, g: Ingest, nlri: seq<Stamped>, k: Prefix)
    ensures IngestFrame(who, g, AnnounceAll(who, g, nlri), k)
    decreases |nlri|
  {
    hide Announce;
    if nlri != [] {
      var g1 := Announce(who, g, nlri[0]);
      var g' := AnnounceAll(who, g1, nlri[1..]);
      AnnounceFrame(who, g, nlri[0], k);
      AnnounceAllFrame(who, g1, nlri[1..], k);
      if Suppressed(g'.damping, who.peer, k) {
        AnnounceAllSuppresses(who, g1, nlri[1..], who.peer, k);
      }
    }
  }

  // ----- Preservation -----

  /** Outside the affected keys the tables keep their routes, except that marking sets the flag. */
  lemma UnaffectedCandidates(cfg: Config, c: Core, op: RibOp, k: Prefix)
    requires !op.MarkStale? && k !in Affected(cfg, c, op)
    ensures Candidates(Apply(cfg, c, op).adjIn, k) == Candidates(c.adjIn, k)
  {
    var c' := Apply(cfg, c, op);
    forall p ensures k in TableOf(c'.adjIn, p) <==> k in TableOf(c.adjIn, p)
             ensures k in TableOf(c.adjIn, p) ==> TableOf(c'.adjIn, p)[k] == TableOf(c.adjIn, p)[k]
    {
      if op.ProcessUpdate? && p == op.peer {
        UpdatedTable(cfg, c, op, k);
      }
    }
    SameCandidates(c.adjIn, c'.adjIn, k);
  }

  lemma UpdatedTable(cfg: Config, c: Core, op: RibOp, k: Prefix)
    requires op.ProcessUpdate?
    ensures var t, t' := TableOf(c.adjIn, op.peer), TableOf(Apply(cfg, c, op).adjIn, op.peer);
            && (k !in Affected(cfg, c, op) ==> (k in t' <==> k in t) && (k in t ==> t'[k] == t[k]))
            && (k in t' ==> (k in t && t'[k] == t[k]) || (t'[k].peerAddr == op.peer && t'[k].prefix == k && !t'[k].stale))
            && (Suppressed(Apply(cfg, c, op).damping, op.peer, k) && k in t' ==>
                  k in t && Suppressed(c.damping, op.peer, k))
  {
    hide AnnounceAll, RecordAll;
    var who := Announcer(cfg, c.validator, op.peer, op.peerAs, op.attrs);
    var g := Ingest(RecordAll(cfg, c.damping, op.peer, op.withdrawn), TableOf(c.adjIn, op.peer), {});
    AnnounceAllFrame(who, g, op.nlri, k);
    if Suppressed(Apply(cfg, c, op).damping, op.peer, k) {
      AnnounceAllSuppresses(who, g, op.nlri, op.peer, k);
      RecordSuppresses(cfg, c.damping, op.peer, op.withdrawn, op.peer, k);
    }
  }

  lemma OthersNotSuppressed(cfg: Config, c: Core, op: RibOp, p: SocketAddr, k: Prefix)
    requires op.ProcessUpdate? && p != op.peer && Suppressed(Apply(cfg, c, op).damping, p, k)
    ensures Suppressed(c.damping, p, k)
  {
    hide AnnounceAll, RecordAll;
    var who := Announcer(cfg, c.validator, op.peer, op.peerAs, op.attrs);
    var g := Ingest(RecordAll(cfg, c.damping, op.peer, op.withdrawn), TableOf(c.adjIn, op.peer), {});
    AnnounceAllSuppresses(who, g, op.nlri, p, k);
    RecordSuppresses(cfg, c.damping, op.peer, op.withdrawn, p, k);
  }

  lemma SameCandidates(a: map<SocketAddr, AdjRibIn>, b: map<SocketAddr, AdjRibIn>, k: Prefix)
    requires forall p :: k in TableOf(a, p) <==> k in TableOf(b, p)
    requires forall p :: k in TableOf(a, p) ==> TableOf(a, p)[k] == TableOf(b, p)[k]
    ensures Candidates(a, k) == Candidates(b, k)
  {
    forall r | r in Candidates(a, k) ensures r in Candidates(b, k) {
      var p :| p in a && k in a[p] && a[p][k] == r;
      assert k in TableOf(a, p);
      assert p in b && k in b[p] && b[p][k] == r;
    }
    forall r | r in Candidates(b, k) ensures r in Candidates(a, k) {
      var p :| p in b && k in b[p] && b[p][k] == r;
      assert k in TableOf(b, p);
      assert p in a && k in a[p] && a[p][k] == r;
    }
  }

  lemma FiledStep(cfg: Config, c: Core, op: RibOp)
    requires Filed(c.adjIn)
    ensures Filed(Apply(cfg, c, op).adjIn)
  {
    hide Ingested;
    var c' := Apply(cfg, c, op);
    forall p, k | p in c'.adjIn && k in c'.adjIn[p]
      ensures c'.adjIn[p][k].peerAddr == p && c'.adjIn[p][k].prefix == k
    {
      if op.ProcessUpdate? && p == op.peer {
        UpdatedTable(cfg, c, op, k);
      }
    }
  }

  lemma NoneHeldSuppressedStep(cfg: Config, c: Core, op: RibOp)
    requires NoneHeldSuppressed(c)
    ensures NoneHeldSuppressed(Apply(cfg, c, op))
  {
    hide Ingested;
    var c' := Apply(cfg, c, op);
    forall p, k | Suppressed(c'.damping, p, k) ensures k !in TableOf(c'.adjIn, p) {
      if op.ProcessUpdate? {
        if p == op.peer {
          UpdatedTable(cfg, c, op, k);
        } else {
          OthersNotSuppressed(cfg, c, op, p, k);
        }
      }
      assert k in TableOf(c'.adjIn, p) ==> Suppressed(c.damping, p, k) && k in TableOf(c.adjIn, p);
    }
  }

  lemma CompareIgnoresStale(a: Route, b: Route, x: bool, y: bool)
    ensures Compare(a.(stale := x), b.(stale := y)) == Compare(a, b)
  {
  }

  lemma MarkedBest(adjIn: map<SocketAddr, AdjRibIn>, peer: SocketAddr, k: Prefix, c: Route) returns (c': Route)
    requires peer in adjIn && IsBest(Candidates(adjIn, k), c)
    ensures IsBest(Candidates(adjIn[peer := Marked(adjIn[peer])], k), c')
    ensures SameRoute(c, c') && (c.stale ==> c'.stale)
  {
    hide Compare;
    var adjIn' := adjIn[peer := Marked(adjIn[peer])];
    var p :| p in adjIn && k in adjIn[p] && adjIn[p][k] == c;
    c' := adjIn'[p][k];
    forall d' | d' in Candidates(adjIn', k) ensures !Better(d', c') {
      var q :| q in adjIn' && k in adjIn'[q] && adjIn'[q][k] == d';
      var d := adjIn[q][k];
      assert d in Candidates(adjIn, k);
      CompareIgnoresStale(d, c, d'.stale, c'.stale);
      assert d' == d.(stale := d'.stale) && c' == c.(stale := c'.stale);
    }
  }

  lemma MarkedNone(adjIn: map<SocketAddr, AdjRibIn>, peer: SocketAddr, k: Prefix)
    requires peer in adjIn
    ensures Candidates(adjIn[peer := Marked(adjIn[peer])], k) == {} <==> Candidates(adjIn, k) == {}
  {
    var adjIn' := adjIn[peer := Marked(adjIn[peer])];
    if r :| r in Candidates(adjIn', k) {
      var p :| p in adjIn' && k in adjIn'[p] && adjIn'[p][k] == r;
      assert adjIn[p][k] in Candidates(adjIn, k);
    }
    if r :| r in Candidates(adjIn, k) {
      var p :| p in adjIn && k in adjIn[p] && adjIn[p][k] == r;
      assert adjIn'[p][k] in Candidates(adjIn', k);
    }
  }

  lemma MarkedCandidates(adjIn: map<SocketAddr, AdjRibIn>, peer: SocketAddr, loc: LocRib, k: Prefix)
    requires peer in adjIn && AgreesAt(adjIn, loc, k)
    ensures AgreesAt(adjIn[peer := Marked(adjIn[peer])], loc, k)
  {
    hide Candidates, IsBest, Marked;
    MarkedNone(adjIn, peer, k);
    if Candidates(adjIn, k) != {} {
      var c :| IsBest(Candidates(adjIn, k), c) && SameRoute(loc[k], c) && (loc[k].stale ==> c.stale);
      var c' := MarkedBest(adjIn, peer, k, c);
    }
  }

  lemma AgreesStep(cfg: Config, s: State, op: RibOp, s': State)
    requires Agrees(s.core.adjIn, s.loc) && Step(cfg, s, op, s')
    ensures Agrees(s'.core.adjIn, s'.loc)
  {
    hide Apply, Affected, Candidates, IsBest;
    forall k ensures AgreesAt(s'.core.adjIn, s'.loc, k) {
      assert AgreesAt(s.core.adjIn, s.loc, k);
      if k in Affected(cfg, s.core, op) {
        assert Decided(s'.core.adjIn, s'.loc, k);
      } else {
        assert SameAt(s.loc, s'.loc, k);
        if op.MarkStale? {
          MarkStep(cfg, s, op, s', k);
        } else {
          UnaffectedCandidates(cfg, s.core, op, k);
        }
      }
    }
  }

  lemma MarkStep(cfg: Config, s: State, op: RibOp, s': State, k: Prefix)
    requires op.MarkStale? && s'.core == Apply(cfg, s.core, op) && SameAt(s.loc, s'.loc, k)
    requires AgreesAt(s.core.adjIn, s.loc, k)
    ensures AgreesAt(s'.core.adjIn, s'.loc, k)
  {
    if op.peer in s.core.adjIn {
      MarkedCandidates(s.core.adjIn, op.peer, s.loc, k);
    }
  }

  lemma InvariantStep(cfg: Config, s: State, op: RibOp, s': State)
    requires Invariant(s) && Step(cfg, s, op, s')
    ensures Invariant(s')
  {
    AgreesStep(cfg, s, op, s');
    FiledStep(cfg, s.core, op);
    NoneHeldSuppressedStep(cfg, s.core, op);
  }

  /** Every state of every run satisfies the invariant, although each operation recomputes only the
      keys it affects. */
  lemma {:induction false} RunInvariant(cfg: Config, states: seq<State>, ops: seq<RibOp>, i: nat)
    requires IsRun(cfg, states, ops) && i < |states|
    ensures Invariant(states[i])
  {
    if i == 0 {
      assert forall k :: Candidates(EMPTY.core.adjIn, k) == {};
    } else {
      RunInvariant(cfg, states, ops, i - 1);
      assert Step(cfg, states[i - 1], ops[i - 1], states[i]);
      InvariantStep(cfg, states[i - 1], ops[i - 1], states[i]);
    }
  }
}
