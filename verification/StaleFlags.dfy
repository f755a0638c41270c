/** When a Loc-RIB entry equals its table's route to the flag: `mark_peer_stale` sets the flag in the table
    only (src/rib.rs). */
module StaleFlags {
  import opened Attr
  import opened Prefixes
  import opened Dampening
  import opened Decision
  import opened RibModel
  import opened RibTheorems

  /** The entry at `k` is its peer's current route, stale flag included. */
  ghost predicate ExactAt(s: State, k: Prefix) {
    k in s.loc ==>
      var table := TableOf(s.core.adjIn, s.loc[k].peerAddr);
      k in table && table[k] == s.loc[k]
  }

  /** The operation marks the peer whose unmarked route is selected at `k`. */
  predicate MarksSelected(s: State, op: RibOp, k: Prefix) {
    op.MarkStale? && k in s.loc && s.loc[k].peerAddr == op.peer && !s.loc[k].stale
  }

  /** One operation leaves the entry exact if and only if it redecides the key, or the entry was exact
      and its peer is not newly marked. */
  lemma ExactStep(cfg: Config, s: State, op: RibOp, s': State, k: Prefix)
    requires Invariant(s) && Step(cfg, s, op, s')
    ensures ExactAt(s', k) <==> k in Affected(cfg, s.core, op) || (ExactAt(s, k) && !MarksSelected(s, op, k))
  {
    hide RibModel.Apply, Affected, IsBest, Invariant, Candidates;
    LocEntry(s, k);
    InvariantStep(cfg, s, op, s');
    LocEntry(s', k);
    if k in Affected(cfg, s.core, op) {
      DecidedExact(s', k);
    } else {
      assert SameAt(s.loc, s'.loc, k);
      if k in s.loc {
        if op.MarkStale? {
          MarkedTable(cfg, s.core, op, s.loc[k].peerAddr, k);
        } else {
          UnaffectedTable(cfg, s.core, op, s.loc[k].peerAddr, k);
        }
      }
    }
  }

  lemma DecidedExact(s: State, k: Prefix)
    requires Invariant(s) && Decided(s.core.adjIn, s.loc, k)
    ensures ExactAt(s, k)
  {
    hide Agrees, NoneHeldSuppressed;
    if k in s.loc {
      assert s.loc[k] in Candidates(s.core.adjIn, k);
      var p :| p in s.core.adjIn && k in s.core.adjIn[p] && s.core.adjIn[p][k] == s.loc[k];
    }
  }

  lemma MarkedTable(cfg: Config, c: Core, op: RibOp, p: SocketAddr, k: Prefix)
    requires op.MarkStale? && k in TableOf(c.adjIn, p)
    ensures var t, t' := TableOf(c.adjIn, p), TableOf(RibModel.Apply(cfg, c, op).adjIn, p);
            k in t' && t'[k] == if p == op.peer then t[k].(stale := true) else t[k]
  {
  }

  lemma UnaffectedTable(cfg: Config, c: Core, op: RibOp, p: SocketAddr, k: Prefix)
    requires !op.MarkStale? && k !in Affected(cfg, c, op) && k in TableOf(c.adjIn, p)
    ensures var t, t' := TableOf(c.adjIn, p), TableOf(RibModel.Apply(cfg, c, op).adjIn, p);
            k in t' && t'[k] == t[k]
  {
    hide Ingested;
    if op.ProcessUpdate? && p == op.peer {
      UpdatedTable(cfg, c, op, k);
    }
  }

  /** The i-th operation marked the peer selected at `k`, and no later one redecided the key. */
  ghost predicate Pending(cfg: Config, states: seq<State>, ops: seq<RibOp>, i: nat, n: nat, k: Prefix)
    requires IsRun(cfg, states, ops) && n <= |ops|
  {
    i < n && MarksSelected(states[i], ops[i], k) && forall j :: i < j < n ==> k !in Affected(cfg, states[j].core, ops[j])
  }

  /** At every point of every run: an entry differs from its table's route exactly if the selected peer
      was marked stale and the key has not been redecided since. */
  lemma {:induction false} ExactIff(cfg: Config, states: seq<State>, ops: seq<RibOp>, n: nat, k: Prefix)
    requires IsRun(cfg, states, ops) && n <= |ops|
    ensures ExactAt(states[n], k) <==> !exists i: nat :: Pending(cfg, states, ops, i, n, k)
    decreases n
  {
    hide Step, Affected, MarksSelected, ExactAt, Invariant;
    if n == 0 {
      NothingSelected(k);
    } else {
      var m := n - 1;
      ExactIff(cfg, states, ops, m, k);
      RunInvariant(cfg, states, ops, m);
      assert Step(cfg, states[m], ops[m], states[n]);
      ExactStep(cfg, states[m], ops[m], states[n], k);
      MarkDecidesNothing(cfg, states[m], ops[m], k);
      if i: nat :| Pending(cfg, states, ops, i, n, k) {
        assert i < m ==> Pending(cfg, states, ops, i, m, k) && k !in Affected(cfg, states[m].core, ops[m]);
      }
      if i: nat :| Pending(cfg, states, ops, i, m, k) {
        assert k !in Affected(cfg, states[m].core, ops[m]) ==> Pending(cfg, states, ops, i, n, k);
      }
      if MarksSelected(states[m], ops[m], k) {
        assert Pending(cfg, states, ops, m, n, k);
      }
    }
  }

  lemma NothingSelected(k: Prefix)
    ensures ExactAt(EMPTY, k)
  {
  }

  lemma MarkDecidesNothing(cfg: Config, s: State, op: RibOp, k: Prefix)
    ensures MarksSelected(s, op, k) ==> k !in Affected(cfg, s.core, op)
  {
  }

  lemma MarkStepOnly(cfg: Config, s: State, p: SocketAddr)
    ensures Step(cfg, s, MarkStale(p), State(RibModel.Apply(cfg, s.core, MarkStale(p)), s.loc))
  {
  }

  /** One announcement, then its peer is marked: the table's route is stale, the selected copy is not. */
  lemma MarkedExample(cfg: Config, p: SocketAddr, k: Prefix) returns (s: State, s': State)
    ensures IsRun(cfg, [EMPTY, s, s'], [ProcessUpdate(p, 0, [Stamped(k, 0.0)], DEFAULT_ATTRIBUTES, []), MarkStale(p)])
    ensures k in s'.loc && !s'.loc[k].stale && k in TableOf(s'.core.adjIn, p) && TableOf(s'.core.adjIn, p)[k].stale
    ensures !ExactAt(s', k)
  {
    hide Affected, Redecided;
    s := FirstRoute(cfg, p, k);
    MarkStepOnly(cfg, s, p);
    s' := State(RibModel.Apply(cfg, s.core, MarkStale(p)), s.loc);
    MarkedTable(cfg, s.core, MarkStale(p), p, k);
  }
}
