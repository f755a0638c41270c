/** Route-flap damping (src/dampening.rs).

    Penalties are reals and time is a real clock passed in. `decay(t)` stands for 0.5^(t / half_life):
    only its laws are used. */
module Dampening {
  import opened Wire
  import opened Prefixes

  datatype SocketAddr = SocketAddr(host: nat, port: u16)

  type Time = real

  datatype Config = Config(
    penaltyPerFlap: real, suppressLimit: real, reuseLimit: real, decay: real -> real, maxSuppressTime: real)

  datatype Entry = Entry(penalty: real, suppressed: bool, suppressedAt: Option<Time>, lastDecay: Time, suppressCount: nat)

  type Table = map<(SocketAddr, Prefix), Entry>

  function NewEntry(now: Time): Entry {
    Entry(0.0, false, None, now, 0)
  }

  /** `Instant::elapsed` is zero for an instant that has not come yet. */
  function Elapsed(since: Time, now: Time): real {
    if now >= since then now - since else 0.0
  }

  function Decayed(cfg: Config, e: Entry, now: Time): Entry {
    if Elapsed(e.lastDecay, now) > 0.0 then
      e.(penalty := e.penalty * cfg.decay(Elapsed(e.lastDecay, now)), lastDecay := now)
    else e
  }

  function EntryOrNew(t: Table, key: (SocketAddr, Prefix), now: Time): Entry {
    if key in t then t[key] else NewEntry(now)
  }

  function Flapped(cfg: Config, e: Entry, now: Time): Entry {
    var d := Decayed(cfg, e, now);
    var hit := d.(penalty := d.penalty + cfg.penaltyPerFlap);
    if !hit.suppressed && hit.penalty >= cfg.suppressLimit then
      hit.(suppressed := true, suppressedAt := Some(now), suppressCount := hit.suppressCount + 1)
    else hit
  }

  function Checked(cfg: Config, e: Entry, now: Time): Entry {
    var d := Decayed(cfg, e, now);
    if d.suppressedAt.Some? && Elapsed(d.suppressedAt.value, now) >= cfg.maxSuppressTime then
      d.(suppressed := false, suppressedAt := None)
    else if d.suppressed && d.penalty < cfg.reuseLimit then
      d.(suppressed := false, suppressedAt := None)
    else d
  }

  function Withdrawn(cfg: Config, t: Table, peer: SocketAddr, prefix: Prefix, now: Time): Table {
    t[(peer, prefix) := Flapped(cfg, EntryOrNew(t, (peer, prefix), now), now)]
  }

  function Advertised(cfg: Config, t: Table, peer: SocketAddr, prefix: Prefix, now: Time): Table {
    if (peer, prefix) in t then t[(peer, prefix) := Checked(cfg, t[(peer, prefix)], now)] else t
  }

  function Inspected(cfg: Config, t: Table, peer: SocketAddr, prefix: Prefix, now: Time): Table {
    t[(peer, prefix) := Decayed(cfg, EntryOrNew(t, (peer, prefix), now), now)]
  }

  function WithoutPeer(t: Table, peer: SocketAddr): Table {
    map key | key in t && key.0 != peer :: t[key]
  }

  predicate Suppressed(t: Table, peer: SocketAddr, prefix: Prefix) {
    (peer, prefix) in t && t[(peer, prefix)].suppressed
  }

  class DampeningTable {
    var state: Table
    const config: Config

    constructor (config: Config)
      ensures this.config == config && state == map[]
    {
      this.config, state := config, map[];
    }

    method RecordWithdrawal(peer: SocketAddr, prefix: Prefix, now: Time) returns (suppressed: bool)
      modifies this
      ensures state == Withdrawn(config, old(state), peer, prefix, now)
      ensures suppressed == Suppressed(state, peer, prefix)
    {
      var key := (peer, prefix);
      var entry := if key in state then state[key] else NewEntry(now);
      entry := Decayed(config, entry, now);
      entry := entry.(penalty := entry.penalty + config.penaltyPerFlap);
      if !entry.suppressed && entry.penalty >= config.suppressLimit {
        entry := entry.(suppressed := true, suppressedAt := Some(now), suppressCount := entry.suppressCount + 1);
      }
      state := state[key := entry];
      return entry.suppressed;
    }

    method CheckAdvertisement(peer: SocketAddr, prefix: Prefix, now: Time) returns (suppressed: bool)
      modifies this
      ensures state == Advertised(config, old(state), peer, prefix, now)
      ensures suppressed == Suppressed(state, peer, prefix)
    {
      var key := (peer, prefix);
      if key !in state {
        return false;
      }
      var entry := Decayed(config, state[key], now);
      if entry.suppressedAt.Some? && Elapsed(entry.suppressedAt.value, now) >= config.maxSuppressTime {
        state := state[key := entry.(suppressed := false, suppressedAt := None)];
        return false;
      }
      if entry.suppressed && entry.penalty < config.reuseLimit {
        entry := entry.(suppressed := false, suppressedAt := None);
      }
      state := state[key := entry];
      return entry.suppressed;
    }

    method CurrentPenalty(peer: SocketAddr, prefix: Prefix, now: Time) returns (penalty: real)
      modifies this
      ensures state == Inspected(config, old(state), peer, prefix, now)
      ensures penalty == state[(peer, prefix)].penalty
    {
      var key := (peer, prefix);
      var entry := if key in state then state[key] else NewEntry(now);
      entry := Decayed(config, entry, now);
      state := state[key := entry];
      return entry.penalty;
    }

    method RemovePeer(peer: SocketAddr)
      modifies this
      ensures state == WithoutPeer(old(state), peer)
    {
      state := map key | key in state && key.0 != peer :: state[key];
    }
  }

  // ----- Runs of the table -----

  datatype Op =
    | Withdraw(peer: SocketAddr, prefix: Prefix, at: Time)
    | Advertise(peer: SocketAddr, prefix: Prefix, at: Time)
    | Inspect(peer: SocketAddr, prefix: Prefix, at: Time)
    | Forget(peer: SocketAddr, at: Time)

  function Apply(cfg: Config, t: Table, op: Op): Table {
    match op
    case Withdraw(p, k, now) => Withdrawn(cfg, t, p, k, now)
    case Advertise(p, k, now) => Advertised(cfg, t, p, k, now)
    case Inspect(p, k, now) => Inspected(cfg, t, p, k, now)
    case Forget(p, _) => WithoutPeer(t, p)
  }

  function Last<T>(s: seq<T>): T
    requires s != []
  {
    s[|s| - 1]
  }

  function Front<T>(s: seq<T>): seq<T>
    requires s != []
  {
    s[..|s| - 1]
  }

  /** The table after the operations, in order, from an empty one. */
  function Run(cfg: Config, ops: seq<Op>): Table {
    if ops == [] then map[] else Apply(cfg, Run(cfg, Front(ops)), Last(ops))
  }

  predicate InOrder(ops: seq<Op>) {
    forall i, j :: 0 <= i < j < |ops| ==> ops[i].at <= ops[j].at
  }

  // ----- The reference: what the history of flaps alone says -----

  predicate Concerns(op: Op, peer: SocketAddr, prefix: Prefix) {
    op.peer == peer && (op.Forget? || op.prefix == prefix)
  }

  /** The times of the withdrawals of a route since its peer was last removed. */
  function Flaps(ops: seq<Op>, peer: SocketAddr, prefix: Prefix): seq<Time> {
    if ops == [] then []
    else
      var op, before := Last(ops), Flaps(Front(ops), peer, prefix);
      if !Concerns(op, peer, prefix) then before
      else match op
        case Withdraw(_, _, now) => before + [now]
        case Forget(_, _) => []
        case _ => before
  }

  /** The penalty at `now`: every flap counts in full and decays on its own. */
  function History(cfg: Config, flaps: seq<Time>, now: Time): real {
    if flaps == [] then 0.0
    else History(cfg, Front(flaps), now) + cfg.penaltyPerFlap * cfg.decay(now - Last(flaps))
  }

  /** Since when the route is suppressed, judged from the history of flaps alone. */
  function SuppressedSince(cfg: Config, ops: seq<Op>, peer: SocketAddr, prefix: Prefix): Option<Time> {
    if ops == [] then None
    else
      var op, before := Last(ops), SuppressedSince(cfg, Front(ops), peer, prefix);
      if !Concerns(op, peer, prefix) then before
      else
        match op
        case Withdraw(_, _, now) =>
          if before.None? && History(cfg, Flaps(ops, peer, prefix), now) >= cfg.suppressLimit then Some(now) else before
        case Advertise(_, _, now) =>
          if before.Some?
             && (now - before.value >= cfg.maxSuppressTime || History(cfg, Flaps(ops, peer, prefix), now) < cfg.reuseLimit)
          then None else before
        case Inspect(_, _, _) => before
        case Forget(_, _) => None
  }

  /** How often suppression was entered since the peer was last removed. */
  function Suppressions(cfg: Config, ops: seq<Op>, peer: SocketAddr, prefix: Prefix): nat {
    if ops == [] then 0
    else
      var op, before := Last(ops), Suppressions(cfg, Front(ops), peer, prefix);
      if op.Forget? && op.peer == peer then 0
      else if SuppressedSince(cfg, Front(ops), peer, prefix).None? && SuppressedSince(cfg, ops, peer, prefix).Some?
      then before + 1 else before
  }

  // ----- Decay laws -----

  ghost predicate Splits(decay: real -> real, a: real, b: real) {
    decay(a + b) == decay(a) * decay(b)
  }

  ghost predicate IsDecay(decay: real -> real) {
    && decay(0.0) == 1.0
    && (forall a, b :: a >= 0.0 && b >= 0.0 ==> Splits(decay, a, b))
    && (forall a :: a >= 0.0 ==> 0.0 < decay(a) <= 1.0)
  }

  lemma {:induction false} HistoryDecays(cfg: Config, flaps: seq<Time>, t: Time, now: Time)
    requires IsDecay(cfg.decay) && t <= now
    requires forall i :: 0 <= i < |flaps| ==> flaps[i] <= t
    ensures History(cfg, flaps, t) * cfg.decay(now - t) == History(cfg, flaps, now)
  {
    hide IsDecay;
    if flaps != [] {
      var h, w := History(cfg, Front(flaps), t), Last(flaps);
      HistoryDecays(cfg, Front(flaps), t, now);
      DecayAcross(cfg, w, t, now);
      DistributeDecay(h, cfg.penaltyPerFlap, cfg.decay(t - w), cfg.decay(now - t));
    }
  }

  /** Decaying to `t` and on to `now` is decaying to `now`. */
  lemma DecayAcross(cfg: Config, w: Time, t: Time, now: Time)
    requires IsDecay(cfg.decay) && w <= t <= now
    ensures cfg.decay(now - w) == cfg.decay(t - w) * cfg.decay(now - t)
    ensures cfg.decay(t - w) >= 0.0 && cfg.decay(now - t) <= 1.0
  {
    assert Splits(cfg.decay, t - w, now - t);
    assert (t - w) + (now - t) == now - w;
  }

  lemma DistributeDecay(h: real, p: real, x: real, d: real)
    ensures (h + p * x) * d == h * d + p * (x * d)
  {
    assert p * x * d == p * (x * d);
  }

  /** What the entry of one route says, in terms of the reference. */
  ghost predicate Faithful(cfg: Config, ops: seq<Op>, peer: SocketAddr, prefix: Prefix, t: Table, now: Time) {
    var flaps, since := Flaps(ops, peer, prefix), SuppressedSince(cfg, ops, peer, prefix);
    var key := (peer, prefix);
    if key in t then
      && t[key].lastDecay <= now
      && (forall i :: 0 <= i < |flaps| ==> flaps[i] <= t[key].lastDecay)
      && t[key].penalty == History(cfg, flaps, t[key].lastDecay)
      && t[key].suppressed == since.Some?
      && t[key].suppressedAt == since
      && (since.Some? ==> since.value <= now)
      && t[key].suppressCount == Suppressions(cfg, ops, peer, prefix)
    else
      flaps == [] && since.None? && Suppressions(cfg, ops, peer, prefix) == 0
  }

  lemma DecayedPenalty(cfg: Config, flaps: seq<Time>, e: Entry, now: Time)
    requires IsDecay(cfg.decay) && e.lastDecay <= now
    requires forall i :: 0 <= i < |flaps| ==> flaps[i] <= e.lastDecay
    requires e.penalty == History(cfg, flaps, e.lastDecay)
    ensures Decayed(cfg, e, now).penalty == History(cfg, flaps, now)
    ensures Decayed(cfg, e, now) == e.(penalty := Decayed(cfg, e, now).penalty, lastDecay := now)
  {
    HistoryDecays(cfg, flaps, e.lastDecay, now);
  }

  lemma FlapPenalty(cfg: Config, flaps: seq<Time>, now: Time)
    requires IsDecay(cfg.decay)
    ensures History(cfg, flaps + [now], now) == History(cfg, flaps, now) + cfg.penaltyPerFlap
  {
    assert Front(flaps + [now]) == flaps;
    assert now - now == 0.0;
  }

  /** A clock reading before the last one decays nothing and lifts no suppression by time. */
  lemma ClockBackwards(cfg: Config, e: Entry, now: Time)
    requires now <= e.lastDecay && cfg.maxSuppressTime > 0.0 && (e.suppressedAt.Some? ==> now <= e.suppressedAt.value)
    ensures Decayed(cfg, e, now) == e
    ensures e.suppressed ==> (Checked(cfg, e, now).suppressed <==> e.penalty >= cfg.reuseLimit)
  {
  }

  lemma NoFlaps(cfg: Config, now: Time)
    ensures History(cfg, [], now) == 0.0
  {
  }

  /** One operation keeps the table faithful to the reference. */
  lemma StepFaithful(cfg: Config, ops: seq<Op>, peer: SocketAddr, prefix: Prefix, t: Table, now: Time)
    requires IsDecay(cfg.decay) && ops != [] && now <= Last(ops).at
    requires Faithful(cfg, Front(ops), peer, prefix, t, now)
    ensures Faithful(cfg, ops, peer, prefix, Apply(cfg, t, Last(ops)), Last(ops).at)
  {
    hide IsDecay, History, Decayed;
    var op, key := Last(ops), (peer, prefix);
    var before := Front(ops);
    var flaps := Flaps(before, peer, prefix);
    if !Concerns(op, peer, prefix) || op.Forget? {
    } else {
      var e := EntryOrNew(t, key, op.at);
      assert key !in t ==> e.penalty == History(cfg, flaps, e.lastDecay) by { NoFlaps(cfg, op.at); }
      DecayedPenalty(cfg, flaps, e, op.at);
      if op.Withdraw? {
        FlapPenalty(cfg, flaps, op.at);
      }
    }
  }

  /** The closed form: after any run at non-decreasing times, the decaying accumulator of every
      route holds exactly what its history of flaps prescribes, and so does its suppression. */
  lemma {:induction false} RunFaithful(cfg: Config, ops: seq<Op>, peer: SocketAddr, prefix: Prefix, now: Time)
    requires IsDecay(cfg.decay) && InOrder(ops) && (ops != [] ==> Last(ops).at <= now)
    ensures Faithful(cfg, ops, peer, prefix, Run(cfg, ops), now)
  {
    if ops != [] {
      var before := Front(ops);
      RunFaithful(cfg, before, peer, prefix, Last(ops).at);
      StepFaithful(cfg, ops, peer, prefix, Run(cfg, before), Last(ops).at);
    }
  }

  /** Reading the penalty gives the history's value at that moment. */
  lemma {:induction false} PenaltyIsHistory(cfg: Config, ops: seq<Op>, peer: SocketAddr, prefix: Prefix, now: Time)
    requires IsDecay(cfg.decay) && InOrder(ops) && (ops != [] ==> Last(ops).at <= now)
    ensures Inspected(cfg, Run(cfg, ops), peer, prefix, now)[(peer, prefix)].penalty
         == History(cfg, Flaps(ops, peer, prefix), now)
  {
    RunFaithful(cfg, ops, peer, prefix, now);
    var e := EntryOrNew(Run(cfg, ops), (peer, prefix), now);
    DecayedPenalty(cfg, Flaps(ops, peer, prefix), e, now);
  }

  /** Only the flaps matter: reads, checks and other routes' traffic leave no trace in a penalty. */
  lemma {:induction false} OnlyFlapsMatter(cfg: Config, ops: seq<Op>, ops': seq<Op>, peer: SocketAddr, prefix: Prefix, now: Time)
    requires IsDecay(cfg.decay) && InOrder(ops) && InOrder(ops')
    requires (ops != [] ==> Last(ops).at <= now) && (ops' != [] ==> Last(ops').at <= now)
    requires Flaps(ops, peer, prefix) == Flaps(ops', peer, prefix)
    ensures Inspected(cfg, Run(cfg, ops), peer, prefix, now)[(peer, prefix)].penalty
         == Inspected(cfg, Run(cfg, ops'), peer, prefix, now)[(peer, prefix)].penalty
  {
    PenaltyIsHistory(cfg, ops, peer, prefix, now);
    PenaltyIsHistory(cfg, ops', peer, prefix, now);
  }

  /** With no further flap a penalty never rises again. */
  lemma {:induction false} HistoryFades(cfg: Config, flaps: seq<Time>, t: Time, now: Time)
    requires IsDecay(cfg.decay) && cfg.penaltyPerFlap >= 0.0 && t <= now
    requires forall i :: 0 <= i < |flaps| ==> flaps[i] <= t
    ensures History(cfg, flaps, now) <= History(cfg, flaps, t)
  {
    hide IsDecay;
    if flaps != [] {
      HistoryFades(cfg, Front(flaps), t, now);
      var w := Last(flaps);
      DecayAcross(cfg, w, t, now);
      Shrinks(cfg.penaltyPerFlap, cfg.decay(t - w), cfg.decay(now - t), cfg.decay(now - w));
    }
  }

  lemma Shrinks(p: real, x: real, d: real, y: real)
    requires p >= 0.0 && x >= 0.0 && d <= 1.0 && y == x * d
    ensures p * y <= p * x
  {
    assert x - y == x * (1.0 - d) >= 0.0;
    assert p * x - p * y == p * (x - y) >= 0.0;
  }

  /** Hysteresis, over every run: suppression starts only at a withdrawal that brings the penalty to
      the limit, and ends only when the peer is removed or at an advertisement that comes after the
      maximum suppression time or finds the penalty below the reuse limit. */
  lemma {:induction false} Hysteresis(cfg: Config, ops: seq<Op>, peer: SocketAddr, prefix: Prefix)
    requires IsDecay(cfg.decay) && InOrder(ops) && ops != []
    ensures var op := Last(ops);
            var before, after := Run(cfg, Front(ops)), Run(cfg, ops);
            var penalty := History(cfg, Flaps(ops, peer, prefix), op.at);
            && (!Suppressed(before, peer, prefix) ==>
                  (Suppressed(after, peer, prefix)
                   <==> op.Withdraw? && Concerns(op, peer, prefix) && penalty >= cfg.suppressLimit))
            && (Suppressed(before, peer, prefix) ==>
                  before[(peer, prefix)].suppressedAt.Some?
                  && (!Suppressed(after, peer, prefix)
                      <==> Concerns(op, peer, prefix)
                           && (op.Forget?
                               || (op.Advertise? && (op.at - before[(peer, prefix)].suppressedAt.value >= cfg.maxSuppressTime
                                                     || penalty < cfg.reuseLimit)))))
  {
    hide Run, History, Flaps, Suppressions, IsDecay;
    RunFaithful(cfg, Front(ops), peer, prefix, Last(ops).at);
    RunFaithful(cfg, ops, peer, prefix, Last(ops).at);
  }
}
