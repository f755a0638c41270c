/** What a session leaves of its own peer in the shared RIB (src/peer.rs, src/rib.rs): other peers do not
    interfere, and a removal starts the peer's table afresh. */
module OwnRoutes {
  import opened Wire
  import opened Prefixes
  import opened Dampening
  import opened Decision
  import opened RibModel
  import opened UpdateOutcome
  import opened Session
  import GracefulRestart

  // ----- The deterministic part of a session -----

  function Act(cfg: Config, addr: SocketAddr, asn: u32, c: Core, e: SessionEvent): Core {
    match e
    case Update(nlri, attrs, withdrawn) =>
      var c' := RibModel.Apply(cfg, c, RibOp.ProcessUpdate(addr, asn, nlri, attrs, withdrawn));
      if IsEndOfRib(e) then RibModel.Apply(cfg, c', Sweep(addr)) else c'
    case OtherTask(op) => RibModel.Apply(cfg, c, op)
    case _ => if Removes(e) then RibModel.Apply(cfg, c, RibOp.RemovePeer(addr)) else c
  }

  /** The tables, damping state and ROA table after the events. */
  function CoreAfter(cfg: Config, addr: SocketAddr, asn: u32, c: Core, events: seq<SessionEvent>): Core {
    if events == [] then c
    else Act(cfg, addr, RemoteAs(asn, Front(events)), CoreAfter(cfg, addr, asn, c, Front(events)), Last(events))
  }

  lemma CoreAfterNext(cfg: Config, addr: SocketAddr, asn: u32, c: Core, events: seq<SessionEvent>, e: SessionEvent)
    ensures CoreAfter(cfg, addr, asn, c, events + [e])
         == Act(cfg, addr, RemoteAs(asn, events), CoreAfter(cfg, addr, asn, c, events), e)
    ensures RemoteAs(asn, events + [e]) == if e.Open? then e.open.myAs else RemoteAs(asn, events)
  {
    hide Act;
    assert Front(events + [e]) == events;
  }

  lemma EffectIsAct(cfg: Config, addr: SocketAddr, asn: u32, s: State, e: SessionEvent, s': State)
    requires Effect(cfg, addr, asn, s, e, s')
    ensures s'.core == Act(cfg, addr, asn, s.core, e)
  {
    hide RibModel.Apply, Redecided;
  }

  lemma {:induction false} RunIsCoreAfter(cfg: Config, addr: SocketAddr, asn: u32, s: State, events: seq<SessionEvent>, s': State)
    requires SessionRun(cfg, addr, asn, s, events, s')
    ensures s'.core == CoreAfter(cfg, addr, asn, s.core, events)
    decreases |events|
  {
    hide Effect, Act;
    if events != [] {
      var front := Front(events);
      var mid :| SessionRun(cfg, addr, asn, s, front, mid) && Effect(cfg, addr, RemoteAs(asn, front), mid, Last(events), s');
      RunIsCoreAfter(cfg, addr, asn, s, front, mid);
      EffectIsAct(cfg, addr, RemoteAs(asn, front), mid, Last(events), s');
    }
  }

  lemma {:induction false} CoreAfterBoth(cfg: Config, addr: SocketAddr, asn: u32, c: Core, before: seq<SessionEvent>, after: seq<SessionEvent>)
    ensures RemoteAs(asn, before + after) == RemoteAs(RemoteAs(asn, before), after)
    ensures CoreAfter(cfg, addr, asn, c, before + after)
         == CoreAfter(cfg, addr, RemoteAs(asn, before), CoreAfter(cfg, addr, asn, c, before), after)
    decreases |after|
  {
    hide Act;
    if after == [] {
      assert before + after == before;
    } else {
      assert Front(before + after) == before + Front(after);
      CoreAfterBoth(cfg, addr, asn, c, before, Front(after));
    }
  }

  // ----- Non-interference -----

  ghost predicate SameEntry(a: Table, b: Table, key: (SocketAddr, Prefix)) {
    (key in a <==> key in b) && (key in a ==> a[key] == b[key])
  }

  /** Equal as far as `p` is concerned: its table, its damping entries, and the ROAs. */
  ghost predicate SameFor(a: Core, b: Core, p: SocketAddr) {
    && TableOf(a.adjIn, p) == TableOf(b.adjIn, p)
    && a.validator == b.validator
    && forall k :: SameEntry(a.damping, b.damping, (p, k))
  }

  /** Nothing of `p`. */
  ghost predicate Clean(c: Core, p: SocketAddr) {
    TableOf(c.adjIn, p) == map[] && forall k: Prefix :: (p, k) !in c.damping
  }

  /** How the damping entry of one route compares in two tables: equal, or ahead by some flap. */
  ghost predicate Linked(ahead: bool, a: Table, b: Table, key: (SocketAddr, Prefix)) {
    if ahead then
      && key in a && a[key].penalty > 0.0
      && (key in b ==> 0.0 <= b[key].penalty < a[key].penalty && b[key].lastDecay <= a[key].lastDecay)
    else SameEntry(a, b, key)
  }

  /** Decay over a longer time is stronger. */
  lemma DecayMonotone(decay: real -> real, x: real, y: real)
    requires IsDecay(decay) && 0.0 <= x <= y
    ensures 0.0 < decay(y) <= decay(x) <= 1.0
  {
    assert Splits(decay, x, y - x);
    assert x + (y - x) == y;
    Shrinks(1.0, decay(x), decay(y - x), decay(y));
  }

  lemma Product(p: real, q: real, x: real, y: real)
    requires 0.0 <= q < p && 0.0 < y <= x
    ensures 0.0 <= q * y < p * x
  {
    assert q * y <= q * x;
    assert q * x < p * x;
  }

  /** The decaying of the entry that is ahead never lets the other catch up. */
  lemma DecayedAhead(cfg: Config, a: Entry, b: Entry, now: Time)
    requires IsDecay(cfg.decay) && 0.0 <= b.penalty < a.penalty && b.lastDecay <= a.lastDecay
    ensures var a', b' := Decayed(cfg, a, now), Decayed(cfg, b, now);
            0.0 <= b'.penalty < a'.penalty && b'.lastDecay <= a'.lastDecay
  {
    hide IsDecay;
    var x, y := Elapsed(a.lastDecay, now), Elapsed(b.lastDecay, now);
    assert cfg.decay(0.0) == 1.0 by { DecayAtZero(cfg); }
    DecayMonotone(cfg.decay, x, y);
    Product(a.penalty, b.penalty, cfg.decay(x), cfg.decay(y));
  }

  lemma DecayAtZero(cfg: Config)
    requires IsDecay(cfg.decay)
    ensures cfg.decay(0.0) == 1.0
  {
  }

  ghost predicate Damps(cfg: Config) {
    IsDecay(cfg.decay) && cfg.penaltyPerFlap > 0.0
  }

  lemma LinkedWithdrawn(cfg: Config, ahead: bool, a: Table, b: Table, p: SocketAddr, k: Prefix, now: Time, key: (SocketAddr, Prefix))
    requires Linked(ahead, a, b, key) && (ahead ==> Damps(cfg))
    ensures Linked(ahead, Withdrawn(cfg, a, p, k, now), Withdrawn(cfg, b, p, k, now), key)
  {
    hide IsDecay, Decayed;
    if ahead && key == (p, k) {
      EntryAhead(cfg, a[key], EntryOrNew(b, key, now), key in b, now);
    }
  }

  lemma LinkedAdvertised(cfg: Config, ahead: bool, a: Table, b: Table, p: SocketAddr, k: Prefix, now: Time, key: (SocketAddr, Prefix))
    requires Linked(ahead, a, b, key) && (ahead ==> Damps(cfg))
    ensures Linked(ahead, Advertised(cfg, a, p, k, now), Advertised(cfg, b, p, k, now), key)
  {
    hide IsDecay, Decayed;
    if ahead && key == (p, k) {
      EntryAhead(cfg, a[key], EntryOrNew(b, key, now), key in b, now);
    }
  }

  lemma EntryAhead(cfg: Config, a: Entry, b: Entry, held: bool, now: Time)
    requires IsDecay(cfg.decay) && a.penalty > 0.0
    requires if held then 0.0 <= b.penalty < a.penalty && b.lastDecay <= a.lastDecay else b == NewEntry(now)
    ensures var a', b' := Decayed(cfg, a, now), Decayed(cfg, b, now);
            0.0 <= b'.penalty < a'.penalty && b'.lastDecay <= a'.lastDecay
  {
    if held {
      DecayedAhead(cfg, a, b, now);
    } else {
      DecayedAhead(cfg, a, Entry(0.0, false, None, a.lastDecay, 0), now);
    }
  }

  lemma {:induction false} LinkedRecord(cfg: Config, ahead: bool, a: Table, b: Table, p: SocketAddr, xs: seq<Stamped>, key: (SocketAddr, Prefix))
    requires Linked(ahead, a, b, key) && (ahead ==> Damps(cfg))
    ensures Linked(ahead, RecordAll(cfg, a, p, xs), RecordAll(cfg, b, p, xs), key)
    decreases |xs|
  {
    hide Linked, Damps, Withdrawn;
    if xs != [] {
      var k, now := xs[0].prefix, xs[0].at;
      LinkedWithdrawn(cfg, ahead, a, b, p, k, now, key);
      LinkedRecord(cfg, ahead, Withdrawn(cfg, a, p, k, now), Withdrawn(cfg, b, p, k, now), p, xs[1..], key);
    }
  }

  lemma {:induction false} LinkedAnnounce(ahead: bool, who: Announcer, who': Announcer, g: Ingest, h: Ingest, xs: seq<Stamped>, key: (SocketAddr, Prefix))
    requires Linked(ahead, g.damping, h.damping, key) && (ahead ==> Damps(who.cfg))
    requires who.cfg == who'.cfg && who.peer == who'.peer
    ensures Linked(ahead, AnnounceAll(who, g, xs).damping, AnnounceAll(who', h, xs).damping, key)
    decreases |xs|
  {
    hide Linked, Damps, Advertised, Rov, Rpki.ShouldReject;
    if xs != [] {
      LinkedAdvertised(who.cfg, ahead, g.damping, h.damping, who.peer, xs[0].prefix, xs[0].at, key);
      LinkedAnnounce(ahead, who, who', Announce(who, g, xs[0]), Announce(who', h, xs[0]), xs[1..], key);
    }
  }

  /** An UPDATE keeps damping entries linked, whatever the tables. */
  lemma LinkedUpdate(cfg: Config, ahead: bool, a: Core, b: Core, op: RibOp, key: (SocketAddr, Prefix))
    requires op.ProcessUpdate? && Linked(ahead, a.damping, b.damping, key) && (ahead ==> Damps(cfg))
    ensures Linked(ahead, RibModel.Apply(cfg, a, op).damping, RibModel.Apply(cfg, b, op).damping, key)
  {
    hide Linked, Damps, AnnounceAll, RecordAll;
    LinkedRecord(cfg, ahead, a.damping, b.damping, op.peer, op.withdrawn, key);
    LinkedAnnounce(ahead, Announcer(cfg, a.validator, op.peer, op.peerAs, op.attrs),
                   Announcer(cfg, b.validator, op.peer, op.peerAs, op.attrs),
                   Ingest(RecordAll(cfg, a.damping, op.peer, op.withdrawn), TableOf(a.adjIn, op.peer), {}),
                   Ingest(RecordAll(cfg, b.damping, op.peer, op.withdrawn), TableOf(b.adjIn, op.peer), {}),
                   op.nlri, key);
  }

  predicate AboutOthers(op: RibOp, p: SocketAddr) {
    !op.Configure? && op.peer != p
  }

  /** An operation on another peer changes nothing for `p`. */
  lemma OthersStep(cfg: Config, c: Core, op: RibOp, p: SocketAddr)
    requires AboutOthers(op, p)
    ensures SameFor(RibModel.Apply(cfg, c, op), c, p)
  {
    hide Ingested;
    if op.ProcessUpdate? {
      forall k ensures SameEntry(RibModel.Apply(cfg, c, op).damping, c.damping, (p, k)) {
        OthersDamping(cfg, c, op, (p, k));
      }
    }
  }

  lemma OthersDamping(cfg: Config, c: Core, op: RibOp, key: (SocketAddr, Prefix))
    requires op.ProcessUpdate? && key.0 != op.peer
    ensures SameEntry(RibModel.Apply(cfg, c, op).damping, c.damping, key)
  {
    hide AnnounceAll, RecordAll;
    OthersRecord(cfg, c.damping, op.peer, op.withdrawn, key);
    OthersAnnounce(Announcer(cfg, c.validator, op.peer, op.peerAs, op.attrs),
                   Ingest(RecordAll(cfg, c.damping, op.peer, op.withdrawn), TableOf(c.adjIn, op.peer), {}), op.nlri, key);
  }

  lemma {:induction false} OthersRecord(cfg: Config, t: Table, p: SocketAddr, xs: seq<Stamped>, key: (SocketAddr, Prefix))
    requires key.0 != p
    ensures SameEntry(RecordAll(cfg, t, p, xs), t, key)
    decreases |xs|
  {
    hide Flapped;
    if xs != [] {
      OthersRecord(cfg, Withdrawn(cfg, t, p, xs[0].prefix, xs[0].at), p, xs[1..], key);
    }
  }

  lemma {:induction false} OthersAnnounce(who: Announcer, g: Ingest, xs: seq<Stamped>, key: (SocketAddr, Prefix))
    requires key.0 != who.peer
    ensures SameEntry(AnnounceAll(who, g, xs).damping, g.damping, key)
    decreases |xs|
  {
    hide Checked, Rov, Rpki.ShouldReject;
    if xs != [] {
      OthersAnnounce(who, Announce(who, g, xs[0]), xs[1..], key);
    }
  }

  /** What an operation does for `p` depends only on what is there for `p`. */
  lemma SameForStep(cfg: Config, a: Core, b: Core, op: RibOp, p: SocketAddr)
    requires SameFor(a, b, p)
    ensures SameFor(RibModel.Apply(cfg, a, op), RibModel.Apply(cfg, b, op), p)
  {
    hide RibModel.Apply;
    if AboutOthers(op, p) {
      OthersStep(cfg, a, op, p);
      OthersStep(cfg, b, op, p);
    } else if op.ProcessUpdate? {
      SameForUpdate(cfg, a, b, op);
    } else {
      SameForOther(cfg, a, b, op, p);
    }
  }

  lemma SameForOther(cfg: Config, a: Core, b: Core, op: RibOp, p: SocketAddr)
    requires SameFor(a, b, p) && !op.ProcessUpdate? && !AboutOthers(op, p)
    ensures SameFor(RibModel.Apply(cfg, a, op), RibModel.Apply(cfg, b, op), p)
  {
    if op.RemovePeer? {
    } else if !op.Configure? {
      assert TableOf(a.adjIn, p) == TableOf(b.adjIn, p);
      GracefulRestart.OtherTableStep(cfg, a, b, op);
    }
  }

  lemma SameForUpdate(cfg: Config, a: Core, b: Core, op: RibOp)
    requires op.ProcessUpdate? && SameFor(a, b, op.peer)
    ensures SameFor(RibModel.Apply(cfg, a, op), RibModel.Apply(cfg, b, op), op.peer)
  {
    hide Ingested, Accepted, Rov, LastStamp;
    var a', b' := RibModel.Apply(cfg, a, op), RibModel.Apply(cfg, b, op);
    forall k ensures SameEntry(a'.damping, b'.damping, (op.peer, k)) {
      LinkedUpdate(cfg, false, a, b, op, (op.peer, k));
    }
    forall k ensures SameRouteAt(a', b', op.peer, k) {
      SameOutcome(cfg, a, b, op, k);
    }
    SameTable(a', b', op.peer);
  }

  lemma SameTable(a: Core, b: Core, p: SocketAddr)
    requires forall k :: SameRouteAt(a, b, p, k)
    ensures TableOf(a.adjIn, p) == TableOf(b.adjIn, p)
  {
    var t, t' := TableOf(a.adjIn, p), TableOf(b.adjIn, p);
    assert forall k :: SameRouteAt(a, b, p, k) ==> (k in t <==> k in t') && (k in t ==> t[k] == t'[k]);
  }

  ghost predicate SameRouteAt(a: Core, b: Core, p: SocketAddr, k: Prefix) {
    var t, t' := TableOf(a.adjIn, p), TableOf(b.adjIn, p);
    (k in t <==> k in t') && (k in t ==> t[k] == t'[k])
  }

  /** An UPDATE decides a key alike for equal damping and ROAs, or leaves it alone in both tables. */
  lemma SameOutcome(cfg: Config, a: Core, b: Core, op: RibOp, k: Prefix)
    requires op.ProcessUpdate? && a.validator == b.validator && SameEntry(a.damping, b.damping, (op.peer, k))
    ensures var a', b' := RibModel.Apply(cfg, a, op), RibModel.Apply(cfg, b, op);
            && SameEntry(a'.damping, b'.damping, (op.peer, k))
            && if k in Keys(op.withdrawn) then k !in TableOf(a'.adjIn, op.peer) && k !in TableOf(b'.adjIn, op.peer)
               else || (SameRouteAt(a', b', op.peer, k) && k in TableOf(b'.adjIn, op.peer))
                    || (SameRouteAt(a', a, op.peer, k) && SameRouteAt(b', b, op.peer, k))
  {
    hide RibModel.Apply, Rov, LastStamp, Rpki.ShouldReject;
    LinkedUpdate(cfg, false, a, b, op, (op.peer, k));
    UpdatedRoute(cfg, a, op, k);
    UpdatedRoute(cfg, b, op, k);
  }

  lemma ActSame(cfg: Config, addr: SocketAddr, asn: u32, a: Core, b: Core, e: SessionEvent, p: SocketAddr)
    requires SameFor(a, b, p)
    ensures SameFor(Act(cfg, addr, asn, a, e), Act(cfg, addr, asn, b, e), p)
  {
    hide RibModel.Apply, SameFor;
    match e
    case Update(nlri, attrs, withdrawn) =>
      var op := RibOp.ProcessUpdate(addr, asn, nlri, attrs, withdrawn);
      SameForStep(cfg, a, b, op, p);
      SameForStep(cfg, RibModel.Apply(cfg, a, op), RibModel.Apply(cfg, b, op), Sweep(addr), p);
    case OtherTask(op) => SameForStep(cfg, a, b, op, p);
    case _ => SameForStep(cfg, a, b, RibOp.RemovePeer(addr), p);
  }

  /** The session's own events and the changes of the ROA table, without other peers' business. */
  function Own(addr: SocketAddr, events: seq<SessionEvent>): seq<SessionEvent> {
    if events == [] then []
    else
      var front, e := Own(addr, Front(events)), Last(events);
      if e.OtherTask? && AboutOthers(e.op, addr) then front else front + [e]
  }

  /** Whatever other peers' sessions do meanwhile: for its own peer a session leaves what its own events
      leave in a RIB that agrees on that peer at the start. */
  lemma {:induction false} NonInterference(cfg: Config, addr: SocketAddr, asn: u32, a: Core, b: Core, events: seq<SessionEvent>)
    requires SameFor(a, b, addr)
    ensures SameFor(CoreAfter(cfg, addr, asn, a, events), CoreAfter(cfg, addr, asn, b, Own(addr, events)), addr)
    ensures RemoteAs(asn, Own(addr, events)) == RemoteAs(asn, events)
    decreases |events|
  {
    hide Act, SameFor, CoreAfter, RemoteAs, AboutOthers;
    if events == [] {
      NothingMetYet(cfg, addr, asn, a);
      NothingMetYet(cfg, addr, asn, b);
    } else {
      var front, e := Front(events), Last(events);
      NonInterference(cfg, addr, asn, a, b, front);
      assert front + [e] == events;
      CoreAfterNext(cfg, addr, asn, a, front, e);
      CoreAfterNext(cfg, addr, asn, b, Own(addr, front), e);
      var a', b' := CoreAfter(cfg, addr, asn, a, front), CoreAfter(cfg, addr, asn, b, Own(addr, front));
      if e.OtherTask? && AboutOthers(e.op, addr) {
        OthersAct(cfg, addr, RemoteAs(asn, front), a', b', e);
      } else {
        ActSame(cfg, addr, RemoteAs(asn, front), a', b', e, addr);
      }
    }
  }

  lemma NothingMetYet(cfg: Config, addr: SocketAddr, asn: u32, c: Core)
    ensures CoreAfter(cfg, addr, asn, c, []) == c && RemoteAs(asn, []) == asn
  {
  }

  lemma OthersAct(cfg: Config, addr: SocketAddr, asn: u32, a: Core, b: Core, e: SessionEvent)
    requires SameFor(a, b, addr) && e.OtherTask? && AboutOthers(e.op, addr)
    ensures SameFor(Act(cfg, addr, asn, a, e), b, addr)
  {
    hide RibModel.Apply;
    OthersStep(cfg, a, e.op, addr);
  }

  // ----- Since the last removal -----

  lemma RemovalCleans(cfg: Config, addr: SocketAddr, asn: u32, c: Core, events: seq<SessionEvent>)
    requires events != [] && Removes(Last(events))
    ensures Clean(CoreAfter(cfg, addr, asn, c, events), addr)
  {
  }

  /** At every moment, however long the session ran before: the peer's table and damping state are what
      its own events since the last removal build from nothing. In particular after a read error or a
      malformed message, which remove nothing. */
  lemma SinceRemoval(cfg: Config, addr: SocketAddr, asn: u32, s: State, before: seq<SessionEvent>, after: seq<SessionEvent>, s': State)
    requires SessionRun(cfg, addr, asn, s, before + after, s') && before != [] && Removes(Last(before))
    ensures var nothing := Core(map[], map[], CoreAfter(cfg, addr, asn, s.core, before).validator);
            SameFor(s'.core, CoreAfter(cfg, addr, RemoteAs(asn, before), nothing, Own(addr, after)), addr)
  {
    hide SessionRun, CoreAfter, Own;
    var c := CoreAfter(cfg, addr, asn, s.core, before);
    RunIsCoreAfter(cfg, addr, asn, s, before + after, s');
    CoreAfterBoth(cfg, addr, asn, s.core, before, after);
    RemovalCleans(cfg, addr, asn, s.core, before);
    NonInterference(cfg, addr, RemoteAs(asn, before), c, Core(map[], map[], c.validator), after);
  }
}
