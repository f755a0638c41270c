/** A prefix both announced and withdrawn in one UPDATE ends up withdrawn (src/rib.rs, `process_update`);
    section 4.3 of RFC 4271 asks to treat it as if it were not listed as withdrawn. */
module BothListed {
  import opened Attr
  import opened Prefixes
  import opened Dampening
  import opened Decision
  import opened RibModel
  import opened UpdateOutcome
  import opened OwnRoutes
  import RibTheorems

  /** The withdrawn routes that are not also announced. */
  function NotAnnounced(withdrawn: seq<Stamped>, announced: set<Prefix>): seq<Stamped> {
    if withdrawn == [] then []
    else if withdrawn[0].prefix in announced then NotAnnounced(withdrawn[1..], announced)
    else [withdrawn[0]] + NotAnnounced(withdrawn[1..], announced)
  }

  /** The UPDATE as the standard reads it. */
  function Read(op: RibOp): RibOp
    requires op.ProcessUpdate?
  {
    op.(withdrawn := NotAnnounced(op.withdrawn, Keys(op.nlri)))
  }

  lemma {:induction false} NotAnnouncedKeys(withdrawn: seq<Stamped>, announced: set<Prefix>)
    ensures Keys(NotAnnounced(withdrawn, announced)) == Keys(withdrawn) - announced
    decreases |withdrawn|
  {
    if withdrawn != [] {
      KeysCons(withdrawn);
      NotAnnouncedKeys(withdrawn[1..], announced);
      if withdrawn[0].prefix !in announced {
        KeysCons(NotAnnounced(withdrawn, announced));
        assert NotAnnounced(withdrawn, announced)[1..] == NotAnnounced(withdrawn[1..], announced);
      }
    }
  }

  /** The damping of a prefix that is in one list at most is the same in both readings. */
  lemma {:induction false} RecordRead(cfg: Config, a: Table, b: Table, p: SocketAddr, withdrawn: seq<Stamped>, announced: set<Prefix>, k: Prefix)
    requires SameEntry(a, b, (p, k)) && !(k in announced && k in Keys(withdrawn))
    ensures SameEntry(RecordAll(cfg, a, p, withdrawn), RecordAll(cfg, b, p, NotAnnounced(withdrawn, announced)), (p, k))
    decreases |withdrawn|
  {
    hide Flapped;
    if withdrawn != [] {
      var w, rest := withdrawn[0], withdrawn[1..];
      KeysCons(withdrawn);
      var a' := Withdrawn(cfg, a, p, w.prefix, w.at);
      if w.prefix in announced {
        RecordRead(cfg, a', b, p, rest, announced, k);
      } else {
        assert NotAnnounced(withdrawn, announced)[1..] == NotAnnounced(rest, announced);
        LinkedWithdrawn(cfg, false, a, b, p, w.prefix, w.at, (p, k));
        RecordRead(cfg, a', Withdrawn(cfg, b, p, w.prefix, w.at), p, rest, announced, k);
      }
    }
  }

  lemma DampingRead(cfg: Config, c: Core, op: RibOp, k: Prefix)
    requires op.ProcessUpdate? && !(k in Keys(op.nlri) && k in Keys(op.withdrawn))
    ensures SameEntry(RibModel.Apply(cfg, c, op).damping, RibModel.Apply(cfg, c, Read(op)).damping, (op.peer, k))
  {
    hide AnnounceAll, RecordAll, NotAnnounced;
    var who, op' := Announcer(cfg, c.validator, op.peer, op.peerAs, op.attrs), Read(op);
    RecordRead(cfg, c.damping, c.damping, op.peer, op.withdrawn, Keys(op.nlri), k);
    LinkedAnnounce(false, who, who, Ingest(RecordAll(cfg, c.damping, op.peer, op.withdrawn), TableOf(c.adjIn, op.peer), {}),
                   Ingest(RecordAll(cfg, c.damping, op.peer, op'.withdrawn), TableOf(c.adjIn, op.peer), {}), op.nlri, (op.peer, k));
  }

  /** The two readings leave the same at `k` unless it is in both lists and either was held before or its
      announcement is accepted; then the code has removed it and the standard keeps it. */
  lemma WithdrawalWinsIff(cfg: Config, c: Core, op: RibOp, k: Prefix)
    requires op.ProcessUpdate?
    ensures var code, rfc := RibModel.Apply(cfg, c, op), RibModel.Apply(cfg, c, Read(op));
            var who := Announcer(cfg, c.validator, op.peer, op.peerAs, op.attrs);
            var both := k in Keys(op.nlri) && k in Keys(op.withdrawn);
            && (SameRouteAt(code, rfc, op.peer, k) <==>
                  !(both && (k in TableOf(c.adjIn, op.peer) || Accepted(who, op.nlri, rfc.damping, k))))
            && (both ==> k !in TableOf(code.adjIn, op.peer))
  {
    hide RibModel.Apply, NotAnnounced, Rov, Rpki.ShouldReject, Keys, LastStamp;
    NotAnnouncedKeys(op.withdrawn, Keys(op.nlri));
    UpdatedRoute(cfg, c, op, k);
    UpdatedRoute(cfg, c, Read(op), k);
    if !(k in Keys(op.nlri) && k in Keys(op.withdrawn)) {
      DampingRead(cfg, c, op, k);
    }
  }

  /** The first announcement of a prefix that the same UPDATE also withdraws: nothing is held. */
  lemma BothListedExample(cfg: Config, p: SocketAddr, k: Prefix)
    ensures var op := ProcessUpdate(p, 0, [Stamped(k, 0.0)], DEFAULT_ATTRIBUTES, [Stamped(k, 0.0)]);
            && k !in TableOf(RibModel.Apply(cfg, EMPTY.core, op).adjIn, p)
            && k in TableOf(RibModel.Apply(cfg, EMPTY.core, Read(op)).adjIn, p)
  {
    hide RibModel.Apply;
    var op := ProcessUpdate(p, 0, [Stamped(k, 0.0)], DEFAULT_ATTRIBUTES, [Stamped(k, 0.0)]);
    assert Stamped(k, 0.0) in op.nlri && Stamped(k, 0.0) in op.withdrawn;
    assert k in Keys(op.nlri) && k in Keys(op.withdrawn);
    assert op.withdrawn[1..] == [];
    assert NotAnnounced(op.withdrawn, Keys(op.nlri)) == NotAnnounced([], Keys(op.nlri)) == [];
    assert Read(op) == op.(withdrawn := []);
    WithdrawalWinsIff(cfg, EMPTY.core, op, k);
    var s' := RibTheorems.FirstRoute(cfg, p, k);
  }
}
