/** What one UPDATE leaves in the announcing peer's table, key by key: a closed form of the loops of
    `process_update` (src/rib.rs). */
module UpdateOutcome {
  import opened Prefixes
  import opened Dampening
  import opened Decision
  import opened RibModel

  /** The clock reading of the last announcement of `k`. */
  function LastStamp(nlri: seq<Stamped>, k: Prefix): Time
    requires k in Keys(nlri)
    decreases |nlri|
  {
    if k in Keys(nlri[1..]) then LastStamp(nlri[1..], k) else nlri[0].at
  }

  predicate Rejected(who: Announcer, k: Prefix) {
    Rpki.ShouldReject(who.validator.mode, Rov(who, k))
  }

  ghost predicate Accepted(who: Announcer, nlri: seq<Stamped>, damping: Table, k: Prefix) {
    k in Keys(nlri) && !Rejected(who, k) && !Suppressed(damping, who.peer, k)
  }

  function Installed(who: Announcer, k: Prefix, at: Time): Route {
    Route(k, who.attrs, who.peer, who.peerAs, at, false, Rov(who, k))
  }

  lemma KeysCons(nlri: seq<Stamped>)
    requires nlri != []
    ensures Keys(nlri) == {nlri[0].prefix} + Keys(nlri[1..])
  {
    assert nlri == [nlri[0]] + nlri[1..];
  }

  lemma {:induction false} OthersLeaveSuppression(who: Announcer, g: Ingest, nlri: seq<Stamped>, k: Prefix)
    requires k !in Keys(nlri)
    ensures Suppressed(AnnounceAll(who, g, nlri).damping, who.peer, k) <==> Suppressed(g.damping, who.peer, k)
    decreases |nlri|
  {
    if nlri != [] {
      KeysCons(nlri);
      OthersLeaveSuppression(who, Announce(who, g, nlri[0]), nlri[1..], k);
    }
  }

  /** The announcement loop at one key. */
  lemma {:induction false} AnnounceOutcome(who: Announcer, g: Ingest, nlri: seq<Stamped>, k: Prefix)
    ensures var g' := AnnounceAll(who, g, nlri);
            if Accepted(who, nlri, g'.damping, k) then
              k in g'.affected && k in g'.table && g'.table[k] == Installed(who, k, LastStamp(nlri, k))
            else
              && (k in g'.affected <==> k in g.affected)
              && (k in g'.table <==> k in g.table)
              && (k in g.table ==> g'.table[k] == g.table[k])
    decreases |nlri|
  {
    hide Advertised, Rov, Rpki.ShouldReject;
    if nlri != [] {
      var x, rest := nlri[0], nlri[1..];
      var g1 := Announce(who, g, x);
      var g' := AnnounceAll(who, g1, rest);
      KeysCons(nlri);
      AnnounceOutcome(who, g1, rest, k);
      if k !in Keys(rest) {
        OthersLeaveSuppression(who, g1, rest, k);
      } else if Suppressed(g'.damping, who.peer, k) {
        AnnounceAllSuppresses(who, g1, rest, who.peer, k);
      }
    }
  }

  /** The whole UPDATE at one key: a withdrawn key is gone even if it was also announced; otherwise an
      announced key that is neither rejected by origin validation nor suppressed afterwards holds the
      new route, and every other key keeps what it had. */
  lemma UpdatedRoute(cfg: Config, c: Core, op: RibOp, k: Prefix)
    requires op.ProcessUpdate?
    ensures var c' := RibModel.Apply(cfg, c, op);
            var who := Announcer(cfg, c.validator, op.peer, op.peerAs, op.attrs);
            var t, t' := TableOf(c.adjIn, op.peer), TableOf(c'.adjIn, op.peer);
            if k in Keys(op.withdrawn) then k !in t'
            else if Accepted(who, op.nlri, c'.damping, k) then
              k in t' && t'[k] == Installed(who, k, LastStamp(op.nlri, k))
            else (k in t' <==> k in t) && (k in t ==> t'[k] == t[k])
  {
    hide AnnounceAll, RecordAll, Accepted;
    AnnounceOutcome(Announcer(cfg, c.validator, op.peer, op.peerAs, op.attrs),
                    Ingest(RecordAll(cfg, c.damping, op.peer, op.withdrawn), TableOf(c.adjIn, op.peer), {}),
                    op.nlri, k);
  }
}
