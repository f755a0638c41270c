/** UPDATEs are processed in every session state (src/peer.rs, `handle_message`), not only in Established.
    When does a session leave what its UPDATEs in the Established state alone would leave? */
module OutOfTurn {
  import opened Wire
  import opened Attr
  import opened Prefixes
  import opened Dampening
  import opened Decision
  import opened RibModel
  import opened UpdateOutcome
  import opened Session
  import opened OwnRoutes

  /** The events without the UPDATEs that come in another state than Established. */
  function InTurn(start: BgpState, events: seq<SessionEvent>): seq<SessionEvent> {
    if events == [] then []
    else
      var front, e := InTurn(start, Front(events)), Last(events);
      if e.Update? && StateAfter(start, Front(events)) != Established then front else front + [e]
  }

  lemma {:induction false} StateAfterBoth(start: BgpState, before: seq<SessionEvent>, after: seq<SessionEvent>)
    ensures StateAfter(start, before + after) == StateAfter(StateAfter(start, before), after)
    decreases |after|
  {
    hide NextState;
    if after == [] {
      assert before + after == before;
    } else {
      assert Front(before + after) == before + Front(after);
      StateAfterBoth(start, before, Front(after));
    }
  }

  lemma {:induction false} InTurnBoth(start: BgpState, before: seq<SessionEvent>, after: seq<SessionEvent>)
    ensures InTurn(start, before + after) == InTurn(start, before) + InTurn(StateAfter(start, before), after)
    decreases |after|
  {
    hide StateAfter;
    if after == [] {
      assert before + after == before;
    } else {
      assert Front(before + after) == before + Front(after);
      StateAfterBoth(start, before, Front(after));
      InTurnBoth(start, before, Front(after));
    }
  }

  /** The first `m` events come before the session is Established, the others while it is. */
  ghost predicate SplitsAt(start: BgpState, events: seq<SessionEvent>, m: nat) {
    && m <= |events|
    && (forall i :: 0 <= i < m ==> StateAfter(start, events[..i]) != Established)
    && (forall i :: m <= i < |events| ==> StateAfter(start, events[..i]) == Established)
  }

  /** Until something closes the session there is such a point. */
  lemma {:induction false} SplitExists(start: BgpState, events: seq<SessionEvent>) returns (m: nat)
    requires forall i :: 0 <= i < |events| - 1 ==> !Closes(events[i])
    ensures SplitsAt(start, events, m)
    decreases |events|
  {
    hide StateAfter, Closes;
    if events == [] {
      m := 0;
    } else {
      var front := Front(events);
      m := SplitExists(start, front);
      assert forall i :: 0 <= i <= |front| ==> front[..i] == events[..i];
      if m < |front| {
        StaysEstablished(start, front);
      } else if StateAfter(start, front) != Established {
        m := |events|;
      }
      assert events[..|front|] == front;
    }
  }

  lemma StaysEstablished(start: BgpState, events: seq<SessionEvent>)
    requires events != [] && !Closes(Last(events)) && StateAfter(start, events[..|events| - 1]) == Established
    ensures StateAfter(start, events) == Established
  {
  }

  lemma {:induction false} AllInTurn(start: BgpState, events: seq<SessionEvent>)
    requires SplitsAt(start, events, 0)
    ensures InTurn(start, events) == events
    decreases |events|
  {
    hide StateAfter;
    if events != [] {
      var front := Front(events);
      assert forall i :: 0 <= i < |front| ==> front[..i] == events[..i];
      AllInTurn(start, front);
      assert events[..|front|] == front;
    }
  }

  /** Dropping the session's own UPDATEs changes nothing for another peer. */
  lemma {:induction false} InTurnOthers(cfg: Config, addr: SocketAddr, asn: u32, start: BgpState, a: Core, b: Core, events: seq<SessionEvent>, q: SocketAddr)
    requires q != addr && SameFor(a, b, q)
    ensures SameFor(CoreAfter(cfg, addr, asn, a, events), CoreAfter(cfg, addr, asn, b, InTurn(start, events)), q)
    ensures RemoteAs(asn, InTurn(start, events)) == RemoteAs(asn, events)
    decreases |events|
  {
    hide Act, SameFor, StateAfter, CoreAfter, RemoteAs;
    if events == [] {
      NothingMetYet(cfg, addr, asn, a);
      NothingMetYet(cfg, addr, asn, b);
    } else {
      var front, e := Front(events), Last(events);
      InTurnOthers(cfg, addr, asn, start, a, b, front, q);
      assert front + [e] == events;
      CoreAfterNext(cfg, addr, asn, a, front, e);
      CoreAfterNext(cfg, addr, asn, b, InTurn(start, front), e);
      var a', b' := CoreAfter(cfg, addr, asn, a, front), CoreAfter(cfg, addr, asn, b, InTurn(start, front));
      if e.Update? && StateAfter(start, front) != Established {
        UpdateForOthers(cfg, addr, RemoteAs(asn, front), a', b', e, q);
      } else {
        ActSame(cfg, addr, RemoteAs(asn, front), a', b', e, q);
      }
    }
  }

  lemma UpdateForOthers(cfg: Config, addr: SocketAddr, asn: u32, a: Core, b: Core, e: SessionEvent, q: SocketAddr)
    requires q != addr && SameFor(a, b, q) && e.Update?
    ensures SameFor(Act(cfg, addr, asn, a, e), b, q)
  {
    hide RibModel.Apply;
    var op := RibOp.ProcessUpdate(addr, asn, e.nlri, e.attrs, e.withdrawn);
    OthersStep(cfg, a, op, q);
    OthersStep(cfg, RibModel.Apply(cfg, a, op), Sweep(addr), q);
  }

  // ----- One event of a session that is left alone -----

  /** No removal, and no other task touches the session's peer. */
  predicate Plain(addr: SocketAddr, e: SessionEvent) {
    !Removes(e) && (e.OtherTask? ==> e.op.Configure? || e.op.peer != addr)
  }

  ghost predicate AllPlain(addr: SocketAddr, events: seq<SessionEvent>) {
    forall i :: 0 <= i < |events| ==> Plain(addr, events[i])
  }

  /** Some UPDATE withdraws `k`. */
  ghost predicate WithdrawnIn(events: seq<SessionEvent>, k: Prefix) {
    exists i :: 0 <= i < |events| && events[i].Update? && k in Keys(events[i].withdrawn)
  }

  lemma WithdrawnNext(events: seq<SessionEvent>, k: Prefix)
    requires events != []
    ensures WithdrawnIn(events, k) <==>
              WithdrawnIn(Front(events), k) || (Last(events).Update? && k in Keys(Last(events).withdrawn))
  {
    var n := |events| - 1;
    if i :| 0 <= i < |Front(events)| && Front(events)[i].Update? && k in Keys(Front(events)[i].withdrawn) {
      assert events[i].Update? && k in Keys(events[i].withdrawn);
    }
    if i :| 0 <= i < |events| && events[i].Update? && k in Keys(events[i].withdrawn) {
      if i < n { assert Front(events)[i] == events[i]; }
    }
  }

  ghost predicate NoneStale(c: Core, p: SocketAddr) {
    StaleKeys(TableOf(c.adjIn, p)) == {}
  }

  function UpdateOp(addr: SocketAddr, asn: u32, e: SessionEvent): RibOp
    requires e.Update?
  {
    RibOp.ProcessUpdate(addr, asn, e.nlri, e.attrs, e.withdrawn)
  }

  /** With nothing stale the sweep of an End-of-RIB is idle. */
  lemma UpdateOnly(cfg: Config, addr: SocketAddr, asn: u32, c: Core, e: SessionEvent)
    requires e.Update? && NoneStale(c, addr)
    ensures SameFor(Act(cfg, addr, asn, c, e), RibModel.Apply(cfg, c, UpdateOp(addr, asn, e)), addr)
    ensures NoneStale(Act(cfg, addr, asn, c, e), addr)
  {
    hide Ingested;
    var op := UpdateOp(addr, asn, e);
    var c' := RibModel.Apply(cfg, c, op);
    forall k | k in TableOf(c'.adjIn, addr) ensures !TableOf(c'.adjIn, addr)[k].stale {
      UpdatedTable(cfg, c, op, k);
      assert k in TableOf(c.adjIn, addr) ==> k !in StaleKeys(TableOf(c.adjIn, addr));
    }
    assert NoneStale(c', addr);
    SweepIdle(cfg, c', addr);
  }

  lemma SweepIdle(cfg: Config, c: Core, p: SocketAddr)
    requires NoneStale(c, p)
    ensures SameFor(RibModel.Apply(cfg, c, Sweep(p)), c, p)
  {
    var t := TableOf(c.adjIn, p);
    assert t - {} == t;
  }

  /** Every other event leaves the peer's table and damping entries alone. */
  lemma OtherwiseIdle(cfg: Config, addr: SocketAddr, asn: u32, c: Core, e: SessionEvent)
    requires Plain(addr, e) && !e.Update?
    ensures var c' := Act(cfg, addr, asn, c, e);
            && TableOf(c'.adjIn, addr) == TableOf(c.adjIn, addr)
            && (forall k :: SameEntry(c'.damping, c.damping, (addr, k)))
            && c'.validator == if e.OtherTask? && e.op.Configure? then e.op.validator else c.validator
  {
    hide Ingested;
    if e.OtherTask? && !e.op.Configure? {
      OthersStep(cfg, c, e.op, addr);
    }
  }

  // ----- Before the session is Established -----

  ghost predicate Positive(t: Table, key: (SocketAddr, Prefix)) {
    key in t ==> t[key].penalty > 0.0
  }

  lemma DecayedPositive(cfg: Config, e: Entry, now: Time)
    requires Damps(cfg)
    ensures e.penalty >= 0.0 ==> Decayed(cfg, e, now).penalty >= 0.0
    ensures e.penalty > 0.0 ==> Decayed(cfg, e, now).penalty > 0.0
  {
    if e.penalty >= 0.0 {
      PositiveProduct(e.penalty, cfg.decay(Elapsed(e.lastDecay, now)));
    }
  }

  lemma PositiveProduct(p: real, d: real)
    requires p >= 0.0 && d > 0.0
    ensures p * d >= 0.0 && (p > 0.0 ==> p * d > 0.0)
  {
  }

  lemma {:induction false} RecordTouches(cfg: Config, t: Table, p: SocketAddr, xs: seq<Stamped>, k: Prefix)
    requires Damps(cfg) && Positive(t, (p, k))
    ensures var t' := RecordAll(cfg, t, p, xs);
            Positive(t', (p, k)) && ((p, k) in t' <==> (p, k) in t || k in Keys(xs))
    decreases |xs|
  {
    hide Damps, Decayed;
    if xs != [] {
      KeysCons(xs);
      DecayedPositive(cfg, EntryOrNew(t, (p, k), xs[0].at), xs[0].at);
      assert cfg.penaltyPerFlap > 0.0 by { FlapsCost(cfg); }
      RecordTouches(cfg, Withdrawn(cfg, t, p, xs[0].prefix, xs[0].at), p, xs[1..], k);
    }
  }

  lemma FlapsCost(cfg: Config)
    requires Damps(cfg)
    ensures cfg.penaltyPerFlap > 0.0
  {
  }

  lemma {:induction false} AnnounceTouches(who: Announcer, g: Ingest, xs: seq<Stamped>, k: Prefix)
    requires Damps(who.cfg) && Positive(g.damping, (who.peer, k))
    ensures var t' := AnnounceAll(who, g, xs).damping;
            Positive(t', (who.peer, k)) && ((who.peer, k) in t' <==> (who.peer, k) in g.damping)
    decreases |xs|
  {
    hide Damps, Decayed, Rov, Rpki.ShouldReject;
    if xs != [] {
      DecayedPositive(who.cfg, EntryOrNew(g.damping, (who.peer, k), xs[0].at), xs[0].at);
      AnnounceTouches(who, Announce(who, g, xs[0]), xs[1..], k);
    }
  }

  /** An UPDATE creates damping entries for the prefixes it withdraws, and for no others. */
  lemma UpdateTouches(cfg: Config, c: Core, op: RibOp, k: Prefix)
    requires op.ProcessUpdate? && Damps(cfg) && Positive(c.damping, (op.peer, k))
    ensures var t' := RibModel.Apply(cfg, c, op).damping;
            Positive(t', (op.peer, k)) && ((op.peer, k) in t' <==> (op.peer, k) in c.damping || k in Keys(op.withdrawn))
  {
    hide Damps, AnnounceAll, RecordAll, Positive;
    RecordTouches(cfg, c.damping, op.peer, op.withdrawn, k);
    AnnounceTouches(Announcer(cfg, c.validator, op.peer, op.peerAs, op.attrs),
                    Ingest(RecordAll(cfg, c.damping, op.peer, op.withdrawn), TableOf(c.adjIn, op.peer), {}), op.nlri, k);
  }

  /** How things stand before Established, for `a` with and `b` without the UPDATEs: the damping entries
      of `a` are those of the withdrawn prefixes, and in `b` there is nothing. */
  ghost predicate Early(addr: SocketAddr, a: Core, b: Core, events: seq<SessionEvent>, k: Prefix) {
    && a.validator == b.validator && NoneStale(a, addr) && Clean(b, addr)
    && Positive(a.damping, (addr, k)) && ((addr, k) in a.damping <==> WithdrawnIn(events, k))
  }

  lemma EarlyUpdate(cfg: Config, addr: SocketAddr, asn: u32, a: Core, b: Core, events: seq<SessionEvent>, k: Prefix)
    requires Damps(cfg) && events != [] && Last(events).Update? && Early(addr, a, b, Front(events), k)
    ensures Early(addr, Act(cfg, addr, asn, a, Last(events)), b, events, k)
  {
    hide Act, Damps, WithdrawnIn, Keys, RibModel.Apply, StaleKeys, Clean;
    var e := Last(events);
    WithdrawnNext(events, k);
    UpdateOnly(cfg, addr, asn, a, e);
    UpdateTouches(cfg, a, UpdateOp(addr, asn, e), k);
    UpdateKeepsValidator(cfg, addr, asn, a, e);
    assert SameEntry(Act(cfg, addr, asn, a, e).damping, RibModel.Apply(cfg, a, UpdateOp(addr, asn, e)).damping, (addr, k));
  }

  lemma EarlyOther(cfg: Config, addr: SocketAddr, asn: u32, a: Core, b: Core, events: seq<SessionEvent>, k: Prefix)
    requires events != [] && Plain(addr, Last(events)) && !Last(events).Update? && Early(addr, a, b, Front(events), k)
    ensures Early(addr, Act(cfg, addr, asn, a, Last(events)), Act(cfg, addr, asn, b, Last(events)), events, k)
  {
    hide Act, WithdrawnIn, Keys, StaleKeys, Clean, Plain;
    var e := Last(events);
    WithdrawnNext(events, k);
    OtherwiseIdle(cfg, addr, asn, a, e);
    OtherwiseIdle(cfg, addr, asn, b, e);
    assert SameEntry(Act(cfg, addr, asn, a, e).damping, a.damping, (addr, k));
    StillClean(b, Act(cfg, addr, asn, b, e), addr);
  }

  lemma {:induction false} EarlyPhase(cfg: Config, addr: SocketAddr, asn: u32, start: BgpState, a: Core, b: Core, events: seq<SessionEvent>, k: Prefix)
    requires Damps(cfg) && Clean(a, addr) && Clean(b, addr) && a.validator == b.validator
    requires AllPlain(addr, events) && SplitsAt(start, events, |events|)
    ensures Early(addr, CoreAfter(cfg, addr, asn, a, events), CoreAfter(cfg, addr, asn, b, InTurn(start, events)), events, k)
    ensures RemoteAs(asn, InTurn(start, events)) == RemoteAs(asn, events)
    decreases |events|
  {
    hide StateAfter, Act, Damps, Plain, SplitsAt, AllPlain, Early, Clean, CoreAfter, RemoteAs;
    if events == [] {
      NothingMetYet(cfg, addr, asn, a);
      NothingMetYet(cfg, addr, asn, b);
      NothingEarly(addr, a, b, k);
    } else {
      var front, e, asn' := Front(events), Last(events), RemoteAs(asn, Front(events));
      EarlyFront(addr, start, events);
      EarlyPhase(cfg, addr, asn, start, a, b, front, k);
      assert front + [e] == events;
      CoreAfterNext(cfg, addr, asn, a, front, e);
      CoreAfterNext(cfg, addr, asn, b, InTurn(start, front), e);
      var a', b' := CoreAfter(cfg, addr, asn, a, front), CoreAfter(cfg, addr, asn, b, InTurn(start, front));
      if e.Update? {
        EarlyUpdate(cfg, addr, asn', a', b', events, k);
      } else {
        EarlyOther(cfg, addr, asn', a', b', events, k);
      }
    }
  }

  lemma NothingEarly(addr: SocketAddr, a: Core, b: Core, k: Prefix)
    requires Clean(a, addr) && Clean(b, addr) && a.validator == b.validator
    ensures Early(addr, a, b, [], k)
  {
    NothingStale(a, addr);
    NothingWithdrawn(k);
  }

  lemma EarlyFront(addr: SocketAddr, start: BgpState, events: seq<SessionEvent>)
    requires events != [] && AllPlain(addr, events) && SplitsAt(start, events, |events|)
    ensures var front := Front(events);
            && AllPlain(addr, front) && SplitsAt(start, front, |front|)
            && Plain(addr, Last(events)) && StateAfter(start, front) != Established
  {
    hide StateAfter, Plain;
    var front := Front(events);
    assert forall i :: 0 <= i < |front| ==> front[i] == events[i] && front[..i] == events[..i];
    assert events[..|front|] == front;
  }

  lemma NothingStale(c: Core, p: SocketAddr)
    requires Clean(c, p)
    ensures NoneStale(c, p)
  {
  }

  lemma NothingWithdrawn(k: Prefix)
    ensures !WithdrawnIn([], k)
  {
  }

  lemma StillClean(c: Core, c': Core, p: SocketAddr)
    requires Clean(c, p) && TableOf(c'.adjIn, p) == TableOf(c.adjIn, p)
    requires forall k :: SameEntry(c'.damping, c.damping, (p, k))
    ensures Clean(c', p)
  {
    forall k: Prefix ensures (p, k) !in c'.damping {
      assert SameEntry(c'.damping, c.damping, (p, k));
    }
  }

  lemma UpdateKeepsValidator(cfg: Config, addr: SocketAddr, asn: u32, c: Core, e: SessionEvent)
    requires e.Update?
    ensures Act(cfg, addr, asn, c, e).validator == c.validator
  {
    hide Ingested;
  }

  // ----- While it is -----

  /** A damping entry that is ahead stays ahead. */
  lemma {:induction false} StaysAhead(cfg: Config, addr: SocketAddr, asn: u32, a: Core, b: Core, events: seq<SessionEvent>, k: Prefix)
    requires Damps(cfg) && AllPlain(addr, events) && Linked(true, a.damping, b.damping, (addr, k))
    requires NoneStale(a, addr) && NoneStale(b, addr)
    ensures var a', b' := CoreAfter(cfg, addr, asn, a, events), CoreAfter(cfg, addr, asn, b, events);
            Linked(true, a'.damping, b'.damping, (addr, k)) && NoneStale(a', addr) && NoneStale(b', addr)
    decreases |events|
  {
    hide Act, Damps, RibModel.Apply, Plain;
    if events != [] {
      var front, e, asn' := Front(events), Last(events), RemoteAs(asn, Front(events));
      assert forall i :: 0 <= i < |front| ==> front[i] == events[i];
      StaysAhead(cfg, addr, asn, a, b, front, k);
      var a', b' := CoreAfter(cfg, addr, asn, a, front), CoreAfter(cfg, addr, asn, b, front);
      var a'', b'' := Act(cfg, addr, asn', a', e), Act(cfg, addr, asn', b', e);
      if e.Update? {
        var op := UpdateOp(addr, asn', e);
        UpdateOnly(cfg, addr, asn', a', e);
        UpdateOnly(cfg, addr, asn', b', e);
        LinkedUpdate(cfg, true, a', b', op, (addr, k));
        assert SameEntry(a''.damping, RibModel.Apply(cfg, a', op).damping, (addr, k));
        assert SameEntry(b''.damping, RibModel.Apply(cfg, b', op).damping, (addr, k));
      } else {
        OtherwiseIdle(cfg, addr, asn', a', e);
        OtherwiseIdle(cfg, addr, asn', b', e);
        assert SameEntry(a''.damping, a'.damping, (addr, k)) && SameEntry(b''.damping, b'.damping, (addr, k));
      }
    }
  }

  /** Two tables with equal damping of `k` agree there once an UPDATE has withdrawn or installed `k`; until
      then the one that had no `k` has none, and the other keeps what it had. */
  lemma {:induction false} Converge(cfg: Config, addr: SocketAddr, asn: u32, a: Core, b: Core, events: seq<SessionEvent>, k: Prefix)
    requires AllPlain(addr, events) && a.validator == b.validator && SameEntry(a.damping, b.damping, (addr, k))
    requires NoneStale(a, addr) && NoneStale(b, addr) && k !in TableOf(b.adjIn, addr)
    ensures var a', b' := CoreAfter(cfg, addr, asn, a, events), CoreAfter(cfg, addr, asn, b, events);
            && a'.validator == b'.validator && SameEntry(a'.damping, b'.damping, (addr, k))
            && NoneStale(a', addr) && NoneStale(b', addr)
            && if WithdrawnIn(events, k) || k in TableOf(b'.adjIn, addr) then SameRouteAt(a', b', addr, k)
               else SameRouteAt(a', a, addr, k)
    decreases |events|
  {
    hide Act, RibModel.Apply, WithdrawnIn, Keys, StaleKeys, Plain;
    if events == [] {
      NothingWithdrawn(k);
    } else {
      var front, e, asn' := Front(events), Last(events), RemoteAs(asn, Front(events));
      assert forall i :: 0 <= i < |front| ==> front[i] == events[i];
      Converge(cfg, addr, asn, a, b, front, k);
      WithdrawnNext(events, k);
      var a', b' := CoreAfter(cfg, addr, asn, a, front), CoreAfter(cfg, addr, asn, b, front);
      var a'', b'' := Act(cfg, addr, asn', a', e), Act(cfg, addr, asn', b', e);
      if e.Update? {
        var op := UpdateOp(addr, asn', e);
        UpdateOnly(cfg, addr, asn', a', e);
        UpdateOnly(cfg, addr, asn', b', e);
        UpdateKeepsValidator(cfg, addr, asn', a', e);
        UpdateKeepsValidator(cfg, addr, asn', b', e);
        SameOutcome(cfg, a', b', op, k);
        assert SameEntry(a''.damping, RibModel.Apply(cfg, a', op).damping, (addr, k));
        assert SameEntry(b''.damping, RibModel.Apply(cfg, b', op).damping, (addr, k));
      } else {
        OtherwiseIdle(cfg, addr, asn', a', e);
        OtherwiseIdle(cfg, addr, asn', b', e);
        assert SameEntry(a''.damping, a'.damping, (addr, k)) && SameEntry(b''.damping, b'.damping, (addr, k));
      }
    }
  }

  // ----- When early UPDATEs leave no trace -----

  /** No early UPDATE withdraws anything, and every route they installed is withdrawn by a later UPDATE or
      held also without them. */
  ghost predicate NoTrace(addr: SocketAddr, early: seq<SessionEvent>, late: seq<SessionEvent>, a: Core, b: Core) {
    && (forall k :: !WithdrawnIn(early, k))
    && (forall k :: Overtaken(addr, late, a, b, k))
  }

  ghost predicate Overtaken(addr: SocketAddr, late: seq<SessionEvent>, a: Core, b: Core, k: Prefix) {
    k in TableOf(a.adjIn, addr) ==> k in TableOf(b.adjIn, addr) || WithdrawnIn(late, k)
  }

  lemma SplitParts(start: BgpState, events: seq<SessionEvent>, m: nat)
    requires SplitsAt(start, events, m)
    ensures SplitsAt(start, events[..m], m)
    ensures InTurn(start, events) == InTurn(start, events[..m]) + events[m..]
  {
    hide StateAfter, InTurn;
    var early, late := events[..m], events[m..];
    assert forall i :: 0 <= i <= m ==> early[..i] == events[..i];
    forall i | 0 <= i < |late| ensures StateAfter(StateAfter(start, early), late[..i]) == Established {
      StateAfterBoth(start, early, late[..i]);
      assert early + late[..i] == events[..m + i];
    }
    AllInTurn(StateAfter(start, early), late);
    InTurnBoth(start, early, late);
    assert early + late == events;
  }

  /** A prefix withdrawn early leaves a damping entry that never evens out. */
  lemma EarlyWithdrawalShows(cfg: Config, addr: SocketAddr, asn: u32, a: Core, b: Core, late: seq<SessionEvent>, k: Prefix)
    requires Damps(cfg) && AllPlain(addr, late) && NoneStale(a, addr) && Clean(b, addr)
    requires (addr, k) in a.damping && Positive(a.damping, (addr, k))
    ensures !SameFor(CoreAfter(cfg, addr, asn, a, late), CoreAfter(cfg, addr, asn, b, late), addr)
  {
    hide Damps, AllPlain, StaleKeys, CoreAfter;
    NothingStale(b, addr);
    StaysAhead(cfg, addr, asn, a, b, late, k);
    assert !SameEntry(CoreAfter(cfg, addr, asn, a, late).damping, CoreAfter(cfg, addr, asn, b, late).damping, (addr, k));
  }

  /** Otherwise the damping is the same, and only the tables can differ. */
  lemma LateOutcome(cfg: Config, addr: SocketAddr, asn: u32, a: Core, b: Core, late: seq<SessionEvent>)
    requires AllPlain(addr, late) && a.validator == b.validator && NoneStale(a, addr) && Clean(b, addr)
    requires forall k: Prefix :: (addr, k) !in a.damping
    ensures var a', b' := CoreAfter(cfg, addr, asn, a, late), CoreAfter(cfg, addr, asn, b, late);
            SameFor(a', b', addr) <==> forall k :: Overtaken(addr, late, a, b', k)
  {
    hide AllPlain, CoreAfter, WithdrawnIn, StaleKeys;
    NothingStale(b, addr);
    var a', b' := CoreAfter(cfg, addr, asn, a, late), CoreAfter(cfg, addr, asn, b, late);
    Converge(cfg, addr, asn, a, b, late, Prefix(0, 0));
    forall k
      ensures SameEntry(a'.damping, b'.damping, (addr, k))
      ensures SameRouteAt(a', b', addr, k) <==> Overtaken(addr, late, a, b', k)
    {
      Converge(cfg, addr, asn, a, b, late, k);
    }
    if forall k :: Overtaken(addr, late, a, b', k) {
      SameTable(a', b', addr);
    } else {
      var k :| !Overtaken(addr, late, a, b', k);
      assert !SameRouteAt(a', b', addr, k);
    }
  }

  /** From nothing: a session leaves for its peer what it leaves without the early UPDATEs exactly if
      those leave no trace. */
  lemma EarlyOutcome(cfg: Config, addr: SocketAddr, asn: u32, start: BgpState, a: Core, b: Core, events: seq<SessionEvent>, m: nat)
    requires Damps(cfg) && Clean(a, addr) && Clean(b, addr) && a.validator == b.validator
    requires AllPlain(addr, events) && m <= |events| && SplitsAt(start, events, m)
    ensures var a' := CoreAfter(cfg, addr, asn, a, events);
            var b' := CoreAfter(cfg, addr, asn, b, InTurn(start, events));
            SameFor(a', b', addr) <==> NoTrace(addr, events[..m], events[m..], CoreAfter(cfg, addr, asn, a, events[..m]), b')
  {
    hide CoreAfter, InTurn, Damps, WithdrawnIn, SplitsAt, NoneStale, Positive, Plain, Overtaken, SameFor, RemoteAs;
    var early, late := events[..m], events[m..];
    SplitParts(start, events, m);
    assert early + late == events && |early| == m;
    assert AllPlain(addr, early) && AllPlain(addr, late);
    CoreAfterBoth(cfg, addr, asn, a, early, late);
    CoreAfterBoth(cfg, addr, asn, b, InTurn(start, early), late);
    var a1, b1 := CoreAfter(cfg, addr, asn, a, early), CoreAfter(cfg, addr, asn, b, InTurn(start, early));
    EarlyPhase(cfg, addr, asn, start, a, b, early, Prefix(0, 0));
    forall k: Prefix
      ensures Positive(a1.damping, (addr, k)) && ((addr, k) in a1.damping <==> WithdrawnIn(early, k))
    {
      EarlyPhase(cfg, addr, asn, start, a, b, early, k);
    }
    if k :| WithdrawnIn(early, k) {
      EarlyWithdrawalShows(cfg, addr, RemoteAs(asn, early), a1, b1, late, k);
    } else {
      LateOutcome(cfg, addr, RemoteAs(asn, early), a1, b1, late);
    }
  }

  lemma RemovalInTurn(start: BgpState, events: seq<SessionEvent>)
    requires events != [] && Removes(Last(events))
    ensures InTurn(start, events) != [] && Last(InTurn(start, events)) == Last(events)
  {
  }

  /** The part before the last removal leaves the two runs alike. */
  lemma AlikeBefore(cfg: Config, addr: SocketAddr, asn: u32, start: BgpState, c: Core, before: seq<SessionEvent>)
    requires if before == [] then Clean(c, addr) else Removes(Last(before))
    ensures var a, b := CoreAfter(cfg, addr, asn, c, before), CoreAfter(cfg, addr, asn, c, InTurn(start, before));
            Clean(a, addr) && Clean(b, addr) && a.validator == b.validator
    ensures RemoteAs(asn, InTurn(start, before)) == RemoteAs(asn, before)
  {
    hide Act, Clean;
    InTurnOthers(cfg, addr, asn, start, c, c, before, addr.(host := addr.host + 1));
    if before != [] {
      RemovalInTurn(start, before);
      RemovalCleans(cfg, addr, asn, c, before);
      RemovalCleans(cfg, addr, asn, c, InTurn(start, before));
    }
  }

  /** The session against the one whose UPDATEs out of turn are ignored. Since the peer was last removed,
      or since a start with nothing of it, `early` events came before Established: the two leave the same
      tables, damping state and ROAs exactly if the early UPDATEs leave no trace. */
  lemma EarlyUpdatesHarmlessIff(cfg: Config, addr: SocketAddr, asn: u32, start: BgpState, s: State,
                                before: seq<SessionEvent>, after: seq<SessionEvent>, m: nat, s': State, s'': State)
    requires Damps(cfg)
    requires SessionRun(cfg, addr, asn, s, before + after, s')
    requires SessionRun(cfg, addr, asn, s, InTurn(start, before + after), s'')
    requires if before == [] then Clean(s.core, addr) else Removes(Last(before))
    requires AllPlain(addr, after) && m <= |after| && SplitsAt(StateAfter(start, before), after, m)
    ensures (forall q :: SameFor(s'.core, s''.core, q))
       <==> NoTrace(addr, after[..m], after[m..], CoreAfter(cfg, addr, asn, s.core, before + after[..m]), s''.core)
  {
    hide CoreAfter, InTurn, Damps, AllPlain, SplitsAt, SessionRun, SameFor, Clean, NoTrace, RemoteAs, StateAfter, Removes;
    var events, c, turn := before + after, s.core, InTurn(start, before);
    RunIsCoreAfter(cfg, addr, asn, s, events, s');
    RunIsCoreAfter(cfg, addr, asn, s, InTurn(start, events), s'');
    AlikeBefore(cfg, addr, asn, start, c, before);
    InTurnBoth(start, before, after);
    CoreAfterBoth(cfg, addr, asn, c, before, after);
    CoreAfterBoth(cfg, addr, asn, c, before, after[..m]);
    CoreAfterBoth(cfg, addr, asn, c, turn, InTurn(StateAfter(start, before), after));
    EarlyOutcome(cfg, addr, RemoteAs(asn, before), StateAfter(start, before),
                 CoreAfter(cfg, addr, asn, c, before), CoreAfter(cfg, addr, asn, c, turn), after, m);
    forall q | q != addr ensures SameFor(s'.core, s''.core, q) {
      assert SameFor(c, c, q) by { SameAsItself(c, q); }
      InTurnOthers(cfg, addr, asn, start, c, c, events, q);
    }
  }

  lemma SameAsItself(c: Core, p: SocketAddr)
    ensures SameFor(c, c, p)
  {
  }

  /** Then, without full ties, they also select the same routes. */
  lemma SelectsSame(s: State, s': State, k: Prefix)
    requires Invariant(s) && Invariant(s') && RibTheorems.NoFullTies(s.core.adjIn)
    requires forall q :: SameFor(s.core, s'.core, q)
    ensures k in s.loc <==> k in s'.loc
    ensures k in s.loc ==> SameRoute(s.loc[k], s'.loc[k])
  {
    hide Invariant, RibTheorems.NoFullTies;
    forall q ensures TableOf(s.core.adjIn, q) == TableOf(s'.core.adjIn, q) {
      assert SameFor(s.core, s'.core, q);
    }
    RibTheorems.LocDetermined(s, s', k);
  }

  /** One announcement before the handshake: the state stays OpenSent, yet the route is held and selected,
      where nothing would be without it. */
  lemma EarlyExample(cfg: Config, addr: SocketAddr, k: Prefix) returns (s': State)
    ensures var announce := Update([Stamped(k, 0.0)], DEFAULT_ATTRIBUTES, []);
            && SessionRun(cfg, addr, 0, EMPTY, [announce], s') && StateAfter(OpenSent, [announce]) == OpenSent
            && k in s'.loc && s'.loc[k].peerAddr == addr
            && InTurn(OpenSent, [announce]) == []
            && !SameFor(s'.core, EMPTY.core, addr)
  {
    hide SessionRun, StateAfter;
    var announce := Update([Stamped(k, 0.0)], DEFAULT_ATTRIBUTES, []);
    s' := FirstAnnouncement(cfg, addr, k);
    StillOpenSent(announce);
    NoneInTurn(announce);
  }

  lemma NoneInTurn(e: SessionEvent)
    requires e.Update?
    ensures InTurn(OpenSent, [e]) == []
  {
    assert Front([e]) == [];
  }
}
