/** Graceful restart (src/rib.rs, `mark_peer_stale` and `remove_stale_for_peer`): marking, refreshing
    and sweeping leaves what replaying the updates from an empty table would. */
module GracefulRestart {
  import opened Prefixes
  import opened Dampening
  import opened Decision
  import opened RibModel
  import opened RibTheorems

  function ApplyAll(cfg: Config, c: Core, ops: seq<RibOp>): Core
    decreases |ops|
  {
    if ops == [] then c else ApplyAll(cfg, RibModel.Apply(cfg, c, ops[0]), ops[1..])
  }

  /** Anything may happen between the mark and the sweep except another session event of `p`. */
  predicate Between(op: RibOp, p: SocketAddr) {
    op.ProcessUpdate? || op.Configure? || op.peer != p
  }

  /** The routes refreshed since the mark. */
  function Fresh(t: AdjRibIn): AdjRibIn {
    t - StaleKeys(t)
  }

  /** `a` is a marked RIB, `b` one that started with an empty table for `p`. */
  ghost predicate Coupled(a: Core, b: Core, p: SocketAddr) {
    && Alongside(a, b, p)
    && Fresh(TableOf(a.adjIn, p)) == TableOf(b.adjIn, p)
  }

  /** `a` and `b` differ at most in `p`'s table. */
  ghost predicate Alongside(a: Core, b: Core, p: SocketAddr) {
    && a.damping == b.damping && a.validator == b.validator
    && forall q :: q != p ==> TableOf(a.adjIn, q) == TableOf(b.adjIn, q)
  }

  lemma {:induction false} DampingIgnoresTable(who: Announcer, g: Ingest, h: Ingest, nlri: seq<Stamped>)
    requires g.damping == h.damping
    ensures AnnounceAll(who, g, nlri).damping == AnnounceAll(who, h, nlri).damping
    decreases |nlri|
  {
    hide Advertised;
    if nlri != [] {
      DampingIgnoresTable(who, Announce(who, g, nlri[0]), Announce(who, h, nlri[0]), nlri[1..]);
    }
  }

  lemma {:induction false} FreshIngest(who: Announcer, g: Ingest, h: Ingest, nlri: seq<Stamped>)
    requires g.damping == h.damping && Fresh(g.table) == h.table
    ensures Fresh(AnnounceAll(who, g, nlri).table) == AnnounceAll(who, h, nlri).table
    decreases |nlri|
  {
    hide Advertised, Rov;
    if nlri != [] {
      FreshIngest(who, Announce(who, g, nlri[0]), Announce(who, h, nlri[0]), nlri[1..]);
    }
  }

  lemma AlongsideUpdate(cfg: Config, a: Core, b: Core, op: RibOp, p: SocketAddr)
    requires op.ProcessUpdate? && Alongside(a, b, p)
    ensures Alongside(RibModel.Apply(cfg, a, op), RibModel.Apply(cfg, b, op), p)
  {
    hide AnnounceAll, RecordAll;
    var who := Announcer(cfg, a.validator, op.peer, op.peerAs, op.attrs);
    var damping := RecordAll(cfg, a.damping, op.peer, op.withdrawn);
    DampingIgnoresTable(who, Ingest(damping, TableOf(a.adjIn, op.peer), {}),
                        Ingest(damping, TableOf(b.adjIn, op.peer), {}), op.nlri);
    var a', b' := RibModel.Apply(cfg, a, op), RibModel.Apply(cfg, b, op);
    forall q | q != p ensures TableOf(a'.adjIn, q) == TableOf(b'.adjIn, q) {
      assert TableOf(a.adjIn, q) == TableOf(b.adjIn, q);
    }
  }

  lemma AlongsideStep(cfg: Config, a: Core, b: Core, op: RibOp, p: SocketAddr)
    requires Between(op, p) && Alongside(a, b, p)
    ensures Alongside(RibModel.Apply(cfg, a, op), RibModel.Apply(cfg, b, op), p)
  {
    hide Ingested;
    if op.ProcessUpdate? {
      AlongsideUpdate(cfg, a, b, op, p);
    } else if !op.Configure? {
      assert TableOf(a.adjIn, op.peer) == TableOf(b.adjIn, op.peer);
      OtherTableStep(cfg, a, b, op);
      var a', b' := RibModel.Apply(cfg, a, op), RibModel.Apply(cfg, b, op);
      forall q | q != p ensures TableOf(a'.adjIn, q) == TableOf(b'.adjIn, q) {
        assert TableOf(a.adjIn, q) == TableOf(b.adjIn, q);
      }
    }
  }

  /** Session events treat an absent table and an empty one alike. */
  lemma OtherTableStep(cfg: Config, a: Core, b: Core, op: RibOp)
    requires !op.ProcessUpdate? && !op.Configure? && TableOf(a.adjIn, op.peer) == TableOf(b.adjIn, op.peer)
    ensures TableOf(RibModel.Apply(cfg, a, op).adjIn, op.peer) == TableOf(RibModel.Apply(cfg, b, op).adjIn, op.peer)
  {
  }

  lemma CoupledStep(cfg: Config, a: Core, b: Core, op: RibOp, p: SocketAddr)
    requires Between(op, p) && Coupled(a, b, p)
    ensures Coupled(RibModel.Apply(cfg, a, op), RibModel.Apply(cfg, b, op), p)
  {
    hide AnnounceAll, RecordAll;
    AlongsideStep(cfg, a, b, op, p);
    if op.ProcessUpdate? && op.peer == p {
      var who := Announcer(cfg, a.validator, op.peer, op.peerAs, op.attrs);
      var damping := RecordAll(cfg, a.damping, op.peer, op.withdrawn);
      FreshIngest(who, Ingest(damping, TableOf(a.adjIn, p), {}), Ingest(damping, TableOf(b.adjIn, p), {}), op.nlri);
      FreshMinus(Ingested(cfg, a, op).table, Keys(op.withdrawn));
    }
  }

  lemma FreshMinus(t: AdjRibIn, keys: set<Prefix>)
    ensures Fresh(t - keys) == Fresh(t) - keys
  {
  }

  lemma {:induction false} CoupledRun(cfg: Config, a: Core, b: Core, ops: seq<RibOp>, p: SocketAddr)
    requires Coupled(a, b, p) && forall i :: 0 <= i < |ops| ==> Between(ops[i], p)
    ensures Coupled(ApplyAll(cfg, a, ops), ApplyAll(cfg, b, ops), p)
    decreases |ops|
  {
    hide RibModel.Apply, Coupled;
    if ops != [] {
      CoupledStep(cfg, a, b, ops[0], p);
      CoupledRun(cfg, RibModel.Apply(cfg, a, ops[0]), RibModel.Apply(cfg, b, ops[0]), ops[1..], p);
    }
  }

  lemma {:induction false} AlongsideRun(cfg: Config, a: Core, b: Core, ops: seq<RibOp>, p: SocketAddr)
    requires Alongside(a, b, p) && forall i :: 0 <= i < |ops| ==> Between(ops[i], p)
    ensures Alongside(ApplyAll(cfg, a, ops), ApplyAll(cfg, b, ops), p)
    decreases |ops|
  {
    hide RibModel.Apply, Alongside;
    if ops != [] {
      AlongsideStep(cfg, a, b, ops[0], p);
      AlongsideRun(cfg, RibModel.Apply(cfg, a, ops[0]), RibModel.Apply(cfg, b, ops[0]), ops[1..], p);
    }
  }

  /** Mark, any operations in between, then sweep. */
  function Restart(cfg: Config, c: Core, ops: seq<RibOp>, p: SocketAddr): Core {
    RibModel.Apply(cfg, ApplyAll(cfg, RibModel.Apply(cfg, c, MarkStale(p)), ops), Sweep(p))
  }

  /** The same operations on a RIB whose table for `p` is emptied, with the damping state kept. */
  function Replay(cfg: Config, c: Core, ops: seq<RibOp>, p: SocketAddr): Core {
    ApplyAll(cfg, c.(adjIn := c.adjIn - {p}), ops)
  }

  lemma MarkCouples(cfg: Config, c: Core, p: SocketAddr)
    ensures Coupled(RibModel.Apply(cfg, c, MarkStale(p)), c.(adjIn := c.adjIn - {p}), p)
    ensures Alongside(RibModel.Apply(cfg, c, MarkStale(p)), c, p)
  {
  }

  lemma SweepKeepsFresh(cfg: Config, c: Core, p: SocketAddr)
    ensures var c' := RibModel.Apply(cfg, c, Sweep(p));
            TableOf(c'.adjIn, p) == Fresh(TableOf(c.adjIn, p)) && Alongside(c', c, p)
  {
  }

  /** Mark-and-sweep equals replay: `p` ends with exactly what the updates build from an empty table,
      and nothing else is touched by the mark and the sweep. */
  lemma {:induction false} RestartIsReplay(cfg: Config, c: Core, ops: seq<RibOp>, p: SocketAddr)
    requires forall i :: 0 <= i < |ops| ==> Between(ops[i], p)
    ensures TableOf(Restart(cfg, c, ops, p).adjIn, p) == TableOf(Replay(cfg, c, ops, p).adjIn, p)
    ensures Alongside(Restart(cfg, c, ops, p), Replay(cfg, c, ops, p), p)
    ensures Alongside(Restart(cfg, c, ops, p), ApplyAll(cfg, c, ops), p)
  {
    hide RibModel.Apply, ApplyAll;
    var marked := RibModel.Apply(cfg, c, MarkStale(p));
    MarkCouples(cfg, c, p);
    CoupledRun(cfg, marked, c.(adjIn := c.adjIn - {p}), ops, p);
    AlongsideRun(cfg, marked, c, ops, p);
    SweepKeepsFresh(cfg, ApplyAll(cfg, marked, ops), p);
  }

  /** So, without full ties, a RIB that went through the restart and one that replayed the updates
      select the same routes. */
  lemma RestartSelectsSame(cfg: Config, c: Core, ops: seq<RibOp>, p: SocketAddr, s: State, s': State, k: Prefix)
    requires forall i :: 0 <= i < |ops| ==> Between(ops[i], p)
    requires Invariant(s) && s.core == Restart(cfg, c, ops, p)
    requires Invariant(s') && s'.core == Replay(cfg, c, ops, p)
    requires NoFullTies(s.core.adjIn)
    ensures k in s.loc <==> k in s'.loc
    ensures k in s.loc ==> SameRoute(s.loc[k], s'.loc[k])
  {
    hide Restart, Replay, Compare, Between, Invariant, NoFullTies;
    RestartIsReplay(cfg, c, ops, p);
    LocDetermined(s, s', k);
  }
}
