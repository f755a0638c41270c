/** The RIB as the object src/rib.rs updates in place; every method takes one step of RibModel. */
module Rib {
  import opened Wire
  import opened Attr
  import opened Prefixes
  import opened Dampening
  import opened Decision
  import opened RibModel

  class Rib {
    var adjRibIn: map<SocketAddr, AdjRibIn>
    var locRib: LocRib
    const dampening: DampeningTable
    const rpki: Rpki.RpkiValidator

    ghost function View(): State
      reads this, dampening, rpki
    {
      State(Core(adjRibIn, dampening.state, Validator(rpki.mode, rpki.roas)), locRib)
    }

    constructor (config: Config)
      ensures View() == EMPTY && dampening.config == config
      ensures adjRibIn == map[] && locRib == map[] && dampening.state == map[] && rpki.mode == Rpki.Disabled && rpki.roas == []
      ensures fresh(dampening) && fresh(rpki)
    {
      adjRibIn, locRib := map[], map[];
      dampening := new DampeningTable(config);
      rpki := new Rpki.RpkiValidator(Rpki.Disabled);
    }

    /** The candidates for a key, in the hash map's arbitrary order. */
    method Gather(key: Prefix) returns (candidates: seq<Route>)
      ensures RoutesOf(candidates) == Candidates(adjRibIn, key)
    {
      candidates := [];
      var peers := adjRibIn.Keys;
      while peers != {}
        invariant peers <= adjRibIn.Keys
        invariant RoutesOf(candidates) == Candidates(adjRibIn - peers, key)
        decreases peers
      {
        var p :| p in peers;
        CandidatesNext(adjRibIn, peers, p, key);
        if key in adjRibIn[p] {
          RoutesOfAppend(candidates, adjRibIn[p][key]);
          candidates := candidates + [adjRibIn[p][key]];
        }
        peers := peers - {p};
      }
      assert adjRibIn - {} == adjRibIn;
    }

    method RunDecisionProcess(key: Prefix)
      modifies this`locRib
      ensures Decided(adjRibIn, locRib, key)
      ensures forall k :: k != key ==> SameAt(old(locRib), locRib, k)
    {
      hide Candidates, Compare;
      var candidates := Gather(key);
      if candidates == [] {
        assert RoutesOf(candidates) == {};
        locRib := locRib - {key};
        return;
      }
      var best := SelectBest(candidates);
      ghost var i: nat :| FirstBest(candidates, i) && best == candidates[i];
      assert best in RoutesOf(candidates);
      locRib := locRib[key := best];
    }

    method RunDecisionProcesses(keys: seq<Prefix>)
      modifies this`locRib
      ensures Redecided(adjRibIn, old(locRib), locRib, SetOf(keys))
    {
      for i := 0 to |keys|
        invariant Redecided(adjRibIn, old(locRib), locRib, SetOf(keys[..i]))
      {
        hide Decided;
        ghost var before := locRib;
        RunDecisionProcess(keys[i]);
        SetOfNext(keys, i);
        RedecidedNext(adjRibIn, old(locRib), before, locRib, SetOf(keys[..i]), keys[i]);
      }
      assert keys[..|keys|] == keys;
    }

    method ProcessUpdate(peer: SocketAddr, peerAs: u32, nlri: seq<Stamped>, attrs: PathAttributes, withdrawn: seq<Stamped>)
      modifies this, dampening
      ensures Step(dampening.config, old(View()), RibOp.ProcessUpdate(peer, peerAs, nlri, attrs, withdrawn), View())
      ensures old(Invariant(View())) ==> Invariant(View())
    {
      hide Invariant, RibModel.Apply, Affected, Redecided;
      ghost var s, op := View(), RibOp.ProcessUpdate(peer, peerAs, nlri, attrs, withdrawn);
      var affected := UpdateTables(peer, peerAs, nlri, attrs, withdrawn);
      RunDecisionProcesses(affected);
      if Invariant(s) {
        InvariantStep(dampening.config, s, op, View());
      }
    }

    /** Everything before the decision process; returns the affected keys. */
    method UpdateTables(peer: SocketAddr, peerAs: u32, nlri: seq<Stamped>, attrs: PathAttributes, withdrawn: seq<Stamped>)
      returns (affected: seq<Prefix>)
      modifies this`adjRibIn, dampening
      ensures var op := RibOp.ProcessUpdate(peer, peerAs, nlri, attrs, withdrawn);
              && View().core == RibModel.Apply(dampening.config, old(View().core), op)
              && SetOf(affected) == Affected(dampening.config, old(View().core), op)
    {
      hide AnnounceAll, RecordAll;
      ghost var c, op := View().core, RibOp.ProcessUpdate(peer, peerAs, nlri, attrs, withdrawn);
      RecordWithdrawals(peer, withdrawn);
      if peer !in adjRibIn {
        adjRibIn := adjRibIn[peer := map[]];
      }
      affected := InstallRoutes(peer, peerAs, nlri, attrs);
      ghost var g := Ingested(dampening.config, c, op);
      Overwrite(c.adjIn, peer, map[], g.table);
      RemoveWithdrawn(peer, withdrawn);
      Overwrite(c.adjIn, peer, g.table, g.table - Keys(withdrawn));
      affected := Chain(affected, withdrawn);
    }

    method RecordWithdrawals(peer: SocketAddr, withdrawn: seq<Stamped>)
      modifies dampening
      ensures dampening.state == RecordAll(dampening.config, old(dampening.state), peer, withdrawn)
    {
      for i := 0 to |withdrawn|
        invariant RecordAll(dampening.config, old(dampening.state), peer, withdrawn)
               == RecordAll(dampening.config, dampening.state, peer, withdrawn[i..])
      {
        assert withdrawn[i..][1..] == withdrawn[i + 1..];
        var _ := dampening.RecordWithdrawal(peer, withdrawn[i].prefix, withdrawn[i].at);
      }
    }

    method InstallRoutes(peer: SocketAddr, peerAs: u32, nlri: seq<Stamped>, attrs: PathAttributes) returns (affected: seq<Prefix>)
      requires peer in adjRibIn
      modifies this`adjRibIn, dampening
      ensures var g := AnnounceAll(Announcer(dampening.config, Validator(rpki.mode, rpki.roas), peer, peerAs, attrs),
                                   Ingest(old(dampening.state), old(adjRibIn[peer]), {}), nlri);
              && adjRibIn == old(adjRibIn)[peer := g.table]
              && dampening.state == g.damping
              && SetOf(affected) == g.affected
    {
      ghost var who := Announcer(dampening.config, Validator(rpki.mode, rpki.roas), peer, peerAs, attrs);
      ghost var g := Ingest(dampening.state, adjRibIn[peer], {});
      affected := [];
      for i := 0 to |nlri|
        invariant peer in adjRibIn && adjRibIn == old(adjRibIn)[peer := g.table]
        invariant dampening.state == g.damping && SetOf(affected) == g.affected
        invariant AnnounceAll(who, Ingest(old(dampening.state), old(adjRibIn[peer]), {}), nlri)
               == AnnounceAll(who, g, nlri[i..])
      {
        assert nlri[i..][1..] == nlri[i + 1..];
        var prefix := nlri[i].prefix;
        g := Announce(who, g, nlri[i]);
        var suppressed := dampening.CheckAdvertisement(peer, prefix, nlri[i].at);
        var rov := Rpki.Validate(rpki.mode, rpki.roas, prefix, peerAs);
        if suppressed || Rpki.ShouldReject(rpki.mode, rov) {
          continue;
        }
        var route := Route(prefix, attrs, peer, peerAs, nlri[i].at, false, rov);
        adjRibIn := adjRibIn[peer := adjRibIn[peer][prefix := route]];
        SetOfAppend(affected, prefix);
        affected := affected + [prefix];
      }
    }

    method RemoveWithdrawn(peer: SocketAddr, withdrawn: seq<Stamped>)
      requires peer in adjRibIn
      modifies this`adjRibIn
      ensures adjRibIn == old(adjRibIn)[peer := old(adjRibIn[peer]) - Keys(withdrawn)]
    {
      assert adjRibIn[peer] - Keys([]) == adjRibIn[peer];
      for i := 0 to |withdrawn|
        invariant peer in adjRibIn && adjRibIn == old(adjRibIn)[peer := old(adjRibIn[peer]) - Keys(withdrawn[..i])]
      {
        KeysNext(withdrawn, i);
        MinusNext(old(adjRibIn[peer]), Keys(withdrawn[..i]), withdrawn[i].prefix);
        adjRibIn := adjRibIn[peer := adjRibIn[peer] - {withdrawn[i].prefix}];
      }
      assert withdrawn[..|withdrawn|] == withdrawn;
    }

    method RemovePeer(peer: SocketAddr) returns (removed: seq<Prefix>)
      modifies this, dampening
      ensures Step(dampening.config, old(View()), RibOp.RemovePeer(peer), View())
      ensures SetOf(removed) == TableOf(old(adjRibIn), peer).Keys
      ensures old(Invariant(View())) ==> Invariant(View())
    {
      hide Invariant, Redecided;
      ghost var s, op := View(), RibOp.RemovePeer(peer);
      removed := [];
      if peer in adjRibIn {
        removed := InAnyOrder(adjRibIn[peer].Keys);
        adjRibIn := adjRibIn - {peer};
      }
      assert SetOf(removed) == Affected(dampening.config, s.core, op);
      RunDecisionProcesses(removed);
      dampening.RemovePeer(peer);
      if Invariant(s) {
        InvariantStep(dampening.config, s, op, View());
      }
    }

    method MarkPeerStale(peer: SocketAddr)
      modifies this`adjRibIn
      ensures Step(dampening.config, old(View()), MarkStale(peer), View())
      ensures old(Invariant(View())) ==> Invariant(View())
    {
      ghost var s := View();
      if peer in adjRibIn {
        var keys := InAnyOrder(adjRibIn[peer].Keys);
        ghost var table := adjRibIn[peer];
        assert MarkedAt(table, SetOf([])) == table;
        for i := 0 to |keys|
          invariant peer in adjRibIn && adjRibIn == s.core.adjIn[peer := adjRibIn[peer]]
          invariant adjRibIn[peer] == MarkedAt(table, SetOf(keys[..i]))
        {
          assert keys[i] in SetOf(keys);
          SetOfNext(keys, i);
          MarkedNext(table, SetOf(keys[..i]), keys[i]);
          var route := adjRibIn[peer][keys[i]];
          adjRibIn := adjRibIn[peer := adjRibIn[peer][keys[i] := route.(stale := true)]];
        }
        assert keys[..|keys|] == keys;
        assert MarkedAt(table, table.Keys) == Marked(table);
      }
      if Invariant(s) {
        InvariantStep(dampening.config, s, MarkStale(peer), View());
      }
    }

    method RemoveStaleForPeer(peer: SocketAddr) returns (staleKeys: seq<Prefix>)
      modifies this
      ensures Step(dampening.config, old(View()), Sweep(peer), View())
      ensures SetOf(staleKeys) == StaleKeys(TableOf(old(adjRibIn), peer))
      ensures old(Invariant(View())) ==> Invariant(View())
    {
      hide Invariant, Redecided;
      ghost var s := View();
      staleKeys := [];
      if peer in adjRibIn {
        staleKeys := DropStale(peer);
      }
      assert SetOf(staleKeys) == Affected(dampening.config, s.core, Sweep(peer));
      RunDecisionProcesses(staleKeys);
      if Invariant(s) {
        InvariantStep(dampening.config, s, Sweep(peer), View());
      }
    }

    /** Removes the stale routes, and the table if nothing is left of it. */
    method DropStale(peer: SocketAddr) returns (staleKeys: seq<Prefix>)
      requires peer in adjRibIn
      modifies this`adjRibIn
      ensures SetOf(staleKeys) == StaleKeys(old(adjRibIn[peer]))
      ensures View().core == RibModel.Apply(dampening.config, old(View().core), Sweep(peer))
    {
      ghost var c := View().core;
      var table := adjRibIn[peer];
      staleKeys := InAnyOrder(set k | k in table && table[k].stale);
      assert table - SetOf([]) == table;
      for i := 0 to |staleKeys|
        invariant peer in adjRibIn && adjRibIn == c.adjIn[peer := table - SetOf(staleKeys[..i])]
      {
        SetOfNext(staleKeys, i);
        MinusNext(table, SetOf(staleKeys[..i]), staleKeys[i]);
        adjRibIn := adjRibIn[peer := adjRibIn[peer] - {staleKeys[i]}];
      }
      assert staleKeys[..|staleKeys|] == staleKeys;
      if adjRibIn[peer] == map[] {
        adjRibIn := adjRibIn - {peer};
      }
    }

    /** Any operation, as another session's task may perform it. */
    method Perform(op: RibOp)
      modifies this, dampening, rpki
      ensures Step(dampening.config, old(View()), op, View())
      ensures old(Invariant(View())) ==> Invariant(View())
    {
      match op
      case ProcessUpdate(peer, peerAs, nlri, attrs, withdrawn) => ProcessUpdate(peer, peerAs, nlri, attrs, withdrawn);
      case RemovePeer(peer) => var _ := RemovePeer(peer);
      case MarkStale(peer) => MarkPeerStale(peer);
      case Sweep(peer) => var _ := RemoveStaleForPeer(peer);
      case Configure(validator) =>
        ghost var s := View();
        rpki.mode, rpki.roas := validator.mode, validator.roas;
        if Invariant(s) {
          InvariantStep(dampening.config, s, op, View());
        }
    }
  }

  function SetOf(xs: seq<Prefix>): set<Prefix> {
    set x | x in xs
  }

  lemma SetOfAppend(xs: seq<Prefix>, x: Prefix)
    ensures SetOf(xs + [x]) == SetOf(xs) + {x}
  {
  }

  function RoutesOf(xs: seq<Route>): set<Route> {
    set x | x in xs
  }

  lemma RoutesOfAppend(xs: seq<Route>, x: Route)
    ensures RoutesOf(xs + [x]) == RoutesOf(xs) + {x}
  {
  }

  lemma CandidatesNext(adjIn: map<SocketAddr, AdjRibIn>, left: set<SocketAddr>, p: SocketAddr, k: Prefix)
    requires p in left && p in adjIn
    ensures Candidates(adjIn - (left - {p}), k)
         == Candidates(adjIn - left, k) + if k in adjIn[p] then {adjIn[p][k]} else {}
  {
    var a, b := adjIn - left, adjIn - (left - {p});
    forall r | r in Candidates(b, k) ensures r in Candidates(a, k) + if k in adjIn[p] then {adjIn[p][k]} else {} {
      var q :| q in b && k in b[q] && b[q][k] == r;
      if q != p { assert q in a && k in a[q] && a[q][k] == r; }
    }
    forall r | r in Candidates(a, k) ensures r in Candidates(b, k) {
      var q :| q in a && k in a[q] && a[q][k] == r;
      assert q in b && k in b[q] && b[q][k] == r;
    }
    if k in adjIn[p] {
      assert p in b && k in b[p];
    }
  }

  lemma KeysNext(xs: seq<Stamped>, i: nat)
    requires i < |xs|
    ensures Keys(xs[..i + 1]) == Keys(xs[..i]) + {xs[i].prefix}
  {
    assert xs[..i + 1] == xs[..i] + [xs[i]];
  }

  lemma Overwrite(adjIn: map<SocketAddr, AdjRibIn>, p: SocketAddr, t: AdjRibIn, t': AdjRibIn)
    ensures adjIn[p := t][p := t'] == adjIn[p := t']
  {
  }

  lemma MinusNext(t: AdjRibIn, keys: set<Prefix>, k: Prefix)
    ensures t - keys - {k} == t - (keys + {k})
  {
  }

  /** `t` with the routes of some keys marked stale. */
  function MarkedAt(t: AdjRibIn, keys: set<Prefix>): AdjRibIn {
    map k | k in t :: if k in keys then t[k].(stale := true) else t[k]
  }

  lemma MarkedNext(t: AdjRibIn, keys: set<Prefix>, k: Prefix)
    requires k in t
    ensures MarkedAt(t, keys + {k}) == MarkedAt(t, keys)[k := MarkedAt(t, keys)[k].(stale := true)]
  {
  }

  lemma SetOfNext(xs: seq<Prefix>, i: nat)
    requires i < |xs|
    ensures SetOf(xs[..i + 1]) == SetOf(xs[..i]) + {xs[i]}
  {
    assert xs[..i + 1] == xs[..i] + [xs[i]];
  }

  /** A hash map's keys in some order. */
  method InAnyOrder(keys: set<Prefix>) returns (order: seq<Prefix>)
    ensures SetOf(order) == keys
  {
    order := [];
    var left := keys;
    while left != {}
      invariant left <= keys && SetOf(order) == keys - left
      decreases left
    {
      var k :| k in left;
      SetOfAppend(order, k);
      order := order + [k];
      left := left - {k};
    }
  }

  /** The inserted keys followed by the withdrawn ones. */
  method Chain(keys: seq<Prefix>, withdrawn: seq<Stamped>) returns (all: seq<Prefix>)
    ensures SetOf(all) == SetOf(keys) + Keys(withdrawn)
  {
    all := keys;
    for i := 0 to |withdrawn|
      invariant SetOf(all) == SetOf(keys) + Keys(withdrawn[..i])
    {
      KeysNext(withdrawn, i);
      SetOfAppend(all, withdrawn[i].prefix);
      all := all + [withdrawn[i].prefix];
    }
    assert withdrawn[..|withdrawn|] == withdrawn;
  }

  lemma RedecidedNext(adjIn: map<SocketAddr, AdjRibIn>, loc: LocRib, loc1: LocRib, loc2: LocRib, keys: set<Prefix>, key: Prefix)
    requires Redecided(adjIn, loc, loc1, keys)
    requires Decided(adjIn, loc2, key) && forall k :: k != key ==> SameAt(loc1, loc2, k)
    ensures Redecided(adjIn, loc, loc2, keys + {key})
  {
    forall k ensures if k in keys + {key} then Decided(adjIn, loc2, k) else SameAt(loc, loc2, k) {
      if k != key {
        assert SameAt(loc1, loc2, k);
        if k in keys {
          assert Decided(adjIn, loc1, k);
        } else {
          assert SameAt(loc, loc1, k);
        }
      }
    }
  }
}
