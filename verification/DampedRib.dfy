/** The damping table inside the RIB, tied to the flap history of the whole RIB run. */
module DampedRib {
  import opened Prefixes
  import opened Dampening
  import opened RibModel
  import RibTheorems

  function Withdrawals(peer: SocketAddr, xs: seq<Stamped>): seq<Op> {
    if xs == [] then [] else [Withdraw(peer, xs[0].prefix, xs[0].at)] + Withdrawals(peer, xs[1..])
  }

  function Advertisements(peer: SocketAddr, xs: seq<Stamped>): seq<Op> {
    if xs == [] then [] else [Advertise(peer, xs[0].prefix, xs[0].at)] + Advertisements(peer, xs[1..])
  }

  /** The damping operations of one RIB operation performed at `now`. */
  function FlapsOf(op: RibOp, now: Time): seq<Op> {
    match op
    case ProcessUpdate(peer, _, nlri, _, withdrawn) => Withdrawals(peer, withdrawn) + Advertisements(peer, nlri)
    case RemovePeer(peer) => [Forget(peer, now)]
    case _ => []
  }

  function Trace(ops: seq<RibOp>, clock: seq<Time>): seq<Op>
    requires |ops| == |clock|
  {
    if ops == [] then [] else Trace(Front(ops), Front(clock)) + FlapsOf(Last(ops), Last(clock))
  }

  lemma RunNext(cfg: Config, ops: seq<Op>, op: Op)
    ensures Run(cfg, ops + [op]) == Dampening.Apply(cfg, Run(cfg, ops), op)
  {
    assert Front(ops + [op]) == ops;
  }

  lemma {:induction false} RecordAllIsRun(cfg: Config, ops: seq<Op>, peer: SocketAddr, xs: seq<Stamped>)
    ensures RecordAll(cfg, Run(cfg, ops), peer, xs) == Run(cfg, ops + Withdrawals(peer, xs))
    decreases |xs|
  {
    hide Run;
    if xs == [] {
      assert ops + [] == ops;
    } else {
      var op := Withdraw(peer, xs[0].prefix, xs[0].at);
      RunNext(cfg, ops, op);
      RecordAllIsRun(cfg, ops + [op], peer, xs[1..]);
      assert ops + [op] + Withdrawals(peer, xs[1..]) == ops + Withdrawals(peer, xs);
    }
  }

  lemma {:induction false} AnnounceAllIsRun(who: Announcer, g: Ingest, ops: seq<Op>, xs: seq<Stamped>)
    requires g.damping == Run(who.cfg, ops)
    ensures AnnounceAll(who, g, xs).damping == Run(who.cfg, ops + Advertisements(who.peer, xs))
    decreases |xs|
  {
    hide Run, Advertised, Rov;
    if xs == [] {
      assert ops + [] == ops;
    } else {
      var op := Advertise(who.peer, xs[0].prefix, xs[0].at);
      RunNext(who.cfg, ops, op);
      AnnounceAllIsRun(who, Announce(who, g, xs[0]), ops + [op], xs[1..]);
      assert ops + [op] + Advertisements(who.peer, xs[1..]) == ops + Advertisements(who.peer, xs);
    }
  }

  lemma StepIsRun(cfg: Config, c: Core, op: RibOp, now: Time, ops: seq<Op>)
    requires c.damping == Run(cfg, ops)
    ensures RibModel.Apply(cfg, c, op).damping == Run(cfg, ops + FlapsOf(op, now))
  {
    hide Run, RecordAll, AnnounceAll, Withdrawals, Advertisements;
    match op
    case ProcessUpdate(peer, peerAs, nlri, attrs, withdrawn) =>
      RecordAllIsRun(cfg, ops, peer, withdrawn);
      var ws := ops + Withdrawals(peer, withdrawn);
      AnnounceAllIsRun(Announcer(cfg, c.validator, peer, peerAs, attrs),
                       Ingest(RecordAll(cfg, c.damping, peer, withdrawn), TableOf(c.adjIn, peer), {}), ws, nlri);
      assert ops + FlapsOf(op, now) == ws + Advertisements(peer, nlri);
    case RemovePeer(peer) => RunNext(cfg, ops, Forget(peer, now));
    case _ => assert ops + [] == ops;
  }

  /** In every run of the RIB, its damping table is the one the trace of damping operations builds. */
  lemma {:induction false} DampingIsTrace(cfg: Config, states: seq<State>, ops: seq<RibOp>, clock: seq<Time>, i: nat)
    requires IsRun(cfg, states, ops) && |clock| == |ops| && i <= |ops|
    ensures states[i].core.damping == Run(cfg, Trace(ops[..i], clock[..i]))
  {
    hide RibModel.Apply, FlapsOf, Redecided;
    if i > 0 {
      DampingIsTrace(cfg, states, ops, clock, i - 1);
      assert Step(cfg, states[i - 1], ops[i - 1], states[i]);
      assert Front(ops[..i]) == ops[..i - 1] && Front(clock[..i]) == clock[..i - 1];
      StepIsRun(cfg, states[i - 1].core, ops[i - 1], clock[i - 1], Trace(ops[..i - 1], clock[..i - 1]));
    }
  }

  /** So at every point of every run, if the flap history says a peer's route is suppressed, the RIB
      neither holds nor selects it. */
  lemma {:induction false} FlappingRouteNotSelected(cfg: Config, states: seq<State>, ops: seq<RibOp>, clock: seq<Time>, i: nat,
                                 peer: SocketAddr, prefix: Prefix)
    requires IsRun(cfg, states, ops) && |clock| == |ops| && i <= |ops|
    requires IsDecay(cfg.decay) && InOrder(Trace(ops[..i], clock[..i]))
    ensures var trace := Trace(ops[..i], clock[..i]);
            && (Suppressed(states[i].core.damping, peer, prefix) <==> SuppressedSince(cfg, trace, peer, prefix).Some?)
            && (SuppressedSince(cfg, trace, peer, prefix).Some? ==>
                  prefix !in TableOf(states[i].core.adjIn, peer)
                  && (prefix in states[i].loc ==> states[i].loc[prefix].peerAddr != peer))
  {
    hide Invariant, SuppressedSince, Run;
    var trace := Trace(ops[..i], clock[..i]);
    DampingIsTrace(cfg, states, ops, clock, i);
    RunFaithful(cfg, trace, peer, prefix, if trace == [] then 0.0 else Last(trace).at);
    if Suppressed(states[i].core.damping, peer, prefix) {
      RunInvariantAt(cfg, states, ops, i);
      RibTheorems.SuppressedNotSelected(states[i], peer, prefix);
    }
  }

  lemma RunInvariantAt(cfg: Config, states: seq<State>, ops: seq<RibOp>, i: nat)
    requires IsRun(cfg, states, ops) && i <= |ops|
    ensures i < |states| && Invariant(states[i])
  {
    RunInvariant(cfg, states, ops, i);
  }
}
