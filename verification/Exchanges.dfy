/** From frames to states and tables: what a session makes of the messages a peer sends, stated on the octets
    and on the routes held afterwards (src/peer.rs, `run_session` and `handle_message`). */
module Exchanges {
  import opened Wire
  import opened Attr
  import opened Prefixes
  import opened Framing
  import opened Dampening
  import opened Decision
  import opened RibModel
  import opened UpdateOutcome
  import opened OwnRoutes
  import opened Streams
  import AttrFormat
  import UpdateRoundTrip

  // ----- What each frame is met as -----

  /** A framed body at the head of the stream is met next, as its type and content say. */
  lemma FrameMet(t: MessageType, body: seq<byte>, rest: seq<byte>, n: nat, env: Env)
    requires HEADER_LEN + |body| <= MAX_MESSAGE_LEN
    ensures StreamEvents(Frame(t, body) + rest, n, env)
         == Others(env.tasks(n)) + Streams.Then(EventOf(BgpMessage(NewHeader(t, |body|), body), n, env.clock), StreamEvents(rest, n + 1, env))
  {
    hide ParseMessage, StreamEvents, EventOf, Others, Streams.Then, Frame;
    var buf, m := Frame(t, body) + rest, BgpMessage(NewHeader(t, |body|), body);
    FrameRoundTrip(t, body, rest);
    StreamMessage(buf, m, rest, [], n, env);
    assert buf + [] == buf && rest + [] == rest;
  }

  lemma OpenFrame(o: Opens.OpenMessage, rest: seq<byte>, n: nat, env: Env)
    requires |Opens.PutParams(o.optionalParams)| < 0x100
    ensures StreamEvents(Opens.SerializeOpen(o) + rest, n, env)
         == Others(env.tasks(n)) + ([Session.Open(o)] + StreamEvents(rest, n + 1, env))
  {
    hide StreamEvents, Others, Opens.ParseOpen, Frame;
    FrameMet(Open, Opens.OpenBody(o), rest, n, env);
    Opens.OpenRoundTrip(o);
  }

  lemma KeepaliveFrame(rest: seq<byte>, n: nat, env: Env)
    ensures StreamEvents(Frame(Keepalive, []) + rest, n, env)
         == Others(env.tasks(n)) + ([Session.Keepalive] + StreamEvents(rest, n + 1, env))
  {
    hide StreamEvents, Others, Frame;
    FrameMet(Keepalive, [], rest, n, env);
  }

  lemma RefreshFrame(body: seq<byte>, rest: seq<byte>, n: nat, env: Env)
    requires HEADER_LEN + |body| <= MAX_MESSAGE_LEN
    ensures StreamEvents(Frame(RouteRefresh, body) + rest, n, env)
         == Others(env.tasks(n)) + ([Session.RefreshRequest] + StreamEvents(rest, n + 1, env))
  {
    hide StreamEvents, Others, Frame;
    FrameMet(RouteRefresh, body, rest, n, env);
  }

  /** A NOTIFICATION without error code and subcode is malformed and the last thing met. */
  lemma NotificationFrame(body: seq<byte>, rest: seq<byte>, n: nat, env: Env)
    requires HEADER_LEN + |body| <= MAX_MESSAGE_LEN
    ensures StreamEvents(Frame(Notification, body) + rest, n, env)
         == Others(env.tasks(n))
            + if |body| >= 2 then [Session.Notification] + StreamEvents(rest, n + 1, env) else [Session.Malformed]
  {
    hide StreamEvents, Others, Frame;
    FrameMet(Notification, body, rest, n, env);
  }

  /** The prefixes in order, with the clock readings from turn `from` of message `n` on. */
  ghost predicate StampedAs(xs: seq<Stamped>, prefixes: seq<Prefix>, clock: Clock, n: nat, from: nat) {
    |xs| == |prefixes| && forall i :: 0 <= i < |xs| ==> xs[i] == Stamped(prefixes[i], clock(n, from + i))
  }

  lemma {:induction false} StampIsStamped(prefixes: seq<Prefix>, n: nat, from: nat, clock: Clock)
    ensures StampedAs(Stamp(prefixes, n, from, clock), prefixes, clock, n, from)
    decreases |prefixes|
  {
    if prefixes != [] {
      StampIsStamped(prefixes[1..], n, from + 1, clock);
      var xs, ys := Stamp(prefixes, n, from, clock), Stamp(prefixes[1..], n, from + 1, clock);
      forall i | 0 <= i < |xs| ensures xs[i] == Stamped(prefixes[i], clock(n, from + i)) {
        if i > 0 {
          assert xs[i] == ys[i - 1] && prefixes[i] == prefixes[1..][i - 1];
        }
      }
    }
  }

  /** An UPDATE announces its NLRI and withdraws its withdrawn routes. */
  lemma UpdateFrame(u: Updates.UpdateMessage, rest: seq<byte>, n: nat, env: Env) returns (xs: seq<Stamped>, ws: seq<Stamped>)
    requires Updates.CanSerialize(u) && UpdateRoundTrip.Transmissible(u)
    ensures StampedAs(ws, u.withdrawn, env.clock, n, 0)
    ensures StampedAs(xs, u.nlri, env.clock, n, |u.withdrawn|)
    ensures StreamEvents(Updates.SerializeUpdate(u) + rest, n, env)
         == Others(env.tasks(n)) + ([Session.Update(xs, u.attrs, ws)] + StreamEvents(rest, n + 1, env))
  {
    hide StreamEvents, Others, Frame, Updates.ParseUpdate, Updates.UpdateBody, Stamp, StampedAs;
    FrameMet(Update, Updates.UpdateBody(u), rest, n, env);
    UpdateRoundTrip.BodyRoundTrip(u);
    xs, ws := Stamp(u.nlri, n, |u.withdrawn|, env.clock), Stamp(u.withdrawn, n, 0, env.clock);
    StampIsStamped(u.nlri, n, |u.withdrawn|, env.clock);
    StampIsStamped(u.withdrawn, n, 0, env.clock);
  }

  /** A body that does not parse ends the session, whatever follows. */
  lemma BadBody(t: MessageType, body: seq<byte>, rest: seq<byte>, n: nat, env: Env)
    requires HEADER_LEN + |body| <= MAX_MESSAGE_LEN
    requires (t == Update && Updates.ParseUpdate(body).Err?) || (t == Open && Opens.ParseOpen(body).Err?)
    ensures StreamEvents(Frame(t, body) + rest, n, env) == Others(env.tasks(n)) + [Session.Malformed]
  {
    hide StreamEvents, Others, Frame, Updates.ParseUpdate, Opens.ParseOpen;
    FrameMet(t, body, rest, n, env);
  }

  // ----- What it does to the state and the tables -----

  /** No other task at work; the session ends on a failed write, which leaves state and tables alone. */
  function Quiet(clock: Clock): Env {
    Env(clock, n => [], Session.Malformed)
  }

  lemma NothingFollows(n: nat, clock: Clock)
    ensures StreamEvents([], n, Quiet(clock)) == [Session.Malformed] && Others([]) == []
  {
    hide Others;
    NothingBuffered();
    StreamEnd([], n, Quiet(clock));
    assert Others([]) == [] by { NoOthers(); }
    assert [] + [Session.Malformed] == [Session.Malformed];
  }

  lemma NoOthers()
    ensures Others([]) == []
  {
  }

  function Handshake(o: Opens.OpenMessage): seq<byte> {
    Opens.SerializeOpen(o) + Frame(Keepalive, [])
  }

  lemma HandshakeEvents(o: Opens.OpenMessage, rest: seq<byte>, clock: Clock)
    requires |Opens.PutParams(o.optionalParams)| < 0x100
    ensures StreamEvents(Handshake(o) + rest, 0, Quiet(clock))
         == [Session.Open(o), Session.Keepalive] + StreamEvents(rest, 2, Quiet(clock))
  {
    hide StreamEvents, Frame, Opens.SerializeOpen, Others;
    var env := Quiet(clock);
    Assoc(Opens.SerializeOpen(o), Frame(Keepalive, []), rest);
    OpenFrame(o, Frame(Keepalive, []) + rest, 0, env);
    KeepaliveFrame(rest, 1, env);
    NoOthers();
    var later := StreamEvents(rest, 2, env);
    assert [] + ([Session.Keepalive] + later) == [Session.Keepalive] + later;
    assert [] + ([Session.Open(o)] + ([Session.Keepalive] + later)) == [Session.Open(o), Session.Keepalive] + later;
  }

  lemma UpdateEvents(o: Opens.OpenMessage, u: Updates.UpdateMessage, clock: Clock) returns (xs: seq<Stamped>, ws: seq<Stamped>)
    requires |Opens.PutParams(o.optionalParams)| < 0x100 && Updates.CanSerialize(u) && UpdateRoundTrip.Transmissible(u)
    ensures StampedAs(ws, u.withdrawn, clock, 2, 0) && StampedAs(xs, u.nlri, clock, 2, |u.withdrawn|)
    ensures StreamEvents(Handshake(o) + Updates.SerializeUpdate(u), 0, Quiet(clock))
         == [Session.Open(o), Session.Keepalive] + [Session.Update(xs, u.attrs, ws)] + [Session.Malformed]
  {
    hide StreamEvents, Handshake, Others, Updates.SerializeUpdate, UpdateRoundTrip.Transmissible, Updates.CanSerialize, StampedAs;
    HandshakeEvents(o, Updates.SerializeUpdate(u), clock);
    assert Updates.SerializeUpdate(u) + [] == Updates.SerializeUpdate(u);
    xs, ws := UpdateFrame(u, [], 2, Quiet(clock));
    NothingFollows(3, clock);
    var head, e := [Session.Open(o), Session.Keepalive], [Session.Update(xs, u.attrs, ws)];
    assert [] + (e + [Session.Malformed]) == e + [Session.Malformed];
    Assoc(head, e, [Session.Malformed]);
  }

  /** OPEN, KEEPALIVE and UPDATE take a session from OpenSent to Established. */
  lemma HandshakeState(o: Opens.OpenMessage, e: Session.SessionEvent)
    requires e.Update?
    ensures Session.StateAfter(Session.OpenSent, [Session.Open(o), Session.Keepalive] + [e] + [Session.Malformed]) == Session.Established
    ensures Session.RemoteAs(0, [Session.Open(o), Session.Keepalive]) == o.myAs
  {
    hide Session.StateAfter, Session.RemoteAs;
    var head, start := [Session.Open(o), Session.Keepalive], Session.OpenSent;
    assert head == [] + [Session.Open(o)] + [Session.Keepalive];
    Session.StateAfterNext(start, 0, [], Session.Open(o));
    Session.StateAfterNext(start, 0, [] + [Session.Open(o)], Session.Keepalive);
    Session.StateAfterNext(start, 0, head, e);
    Session.StateAfterNext(start, 0, head + [e], Session.Malformed);
    Session.NothingMetAtAll(start, 0);
  }

  /** Nothing but the UPDATE touches the tables. */
  lemma HandshakeCore(cfg: Config, addr: SocketAddr, c: Core, o: Opens.OpenMessage, e: Session.SessionEvent)
    requires e.Update?
    ensures CoreAfter(cfg, addr, 0, c, [Session.Open(o), Session.Keepalive] + [e] + [Session.Malformed])
         == Act(cfg, addr, o.myAs, c, e)
  {
    hide Session.StateAfter, Session.RemoteAs, CoreAfter, Act;
    var head := [Session.Open(o), Session.Keepalive];
    HandshakeState(o, e);
    NothingMetYet(cfg, addr, 0, c);
    CoreAfterNext(cfg, addr, 0, c, head + [e], Session.Malformed);
    CoreAfterNext(cfg, addr, 0, c, head, e);
    assert head == [Session.Open(o)] + [Session.Keepalive];
    CoreAfterNext(cfg, addr, 0, c, [Session.Open(o)], Session.Keepalive);
    assert [Session.Open(o)] == [] + [Session.Open(o)];
    CoreAfterNext(cfg, addr, 0, c, [], Session.Open(o));
    IdleAct(cfg, addr, 0, c, Session.Open(o));
    IdleAct(cfg, addr, Session.RemoteAs(0, [Session.Open(o)]), c, Session.Keepalive);
    IdleAct(cfg, addr, Session.RemoteAs(0, head + [e]), Act(cfg, addr, o.myAs, c, e), Session.Malformed);
  }

  lemma IdleAct(cfg: Config, addr: SocketAddr, asn: u32, c: Core, e: Session.SessionEvent)
    requires e.Open? || e.Keepalive? || e.Malformed?
    ensures Act(cfg, addr, asn, c, e) == c
  {
  }

  /** `i` is the last place where `k` stands in `prefixes`. */
  ghost predicate LastAt(prefixes: seq<Prefix>, k: Prefix, i: nat) {
    i < |prefixes| && prefixes[i] == k && forall j :: i < j < |prefixes| ==> prefixes[j] != k
  }

  lemma {:induction false} LastStampAt(xs: seq<Stamped>, k: Prefix, i: nat)
    requires i < |xs| && xs[i].prefix == k && forall j :: i < j < |xs| ==> xs[j].prefix != k
    ensures k in Keys(xs) && LastStamp(xs, k) == xs[i].at
    decreases |xs|
  {
    assert xs[i] in xs;
    var rest := xs[1..];
    assert forall j :: 0 <= j < |rest| ==> rest[j] == xs[j + 1];
    if i > 0 {
      LastStampAt(rest, k, i - 1);
    }
  }

  lemma KeysOfStamped(xs: seq<Stamped>, prefixes: seq<Prefix>, clock: Clock, n: nat, from: nat)
    requires StampedAs(xs, prefixes, clock, n, from)
    ensures forall k :: k in Keys(xs) <==> k in prefixes
  {
    forall k ensures k in Keys(xs) <==> k in prefixes {
      if k in Keys(xs) {
        var x :| x in xs && x.prefix == k;
        var i :| 0 <= i < |xs| && xs[i] == x;
        assert prefixes[i] == k;
      }
      if k in prefixes {
        var i :| 0 <= i < |prefixes| && prefixes[i] == k;
        assert xs[i] in xs && xs[i].prefix == k;
      }
    }
  }

  /** What an UPDATE with some content leaves in the peer's table at `k`. */
  ghost predicate LeftAt(u: Updates.UpdateMessage, addr: SocketAddr, asn: u32, clock: Clock, n: nat, c: Core, c': Core, k: Prefix) {
    var t, t' := TableOf(c.adjIn, addr), TableOf(c'.adjIn, addr);
    var rov := Rpki.Validate(c.validator.mode, c.validator.roas, k, asn);
    var kept := (k in t' <==> k in t) && (k in t ==> t'[k] == t[k]);
    && (k in u.withdrawn ==> k !in t')
    && (k !in u.withdrawn && k !in u.nlri ==> kept)
    && (forall i :: LastAt(u.nlri, k, i) && k !in u.withdrawn ==>
          if Suppressed(c'.damping, addr, k) || (c.validator.mode == Rpki.Strict && rov == Rpki.Invalid) then kept
          else k in t' && t'[k] == Route(k, u.attrs, addr, asn, clock(n, |u.withdrawn| + i), false, rov))
  }

  lemma UpdateLeaves(cfg: Config, addr: SocketAddr, asn: u32, c: Core, u: Updates.UpdateMessage, clock: Clock, n: nat,
                     xs: seq<Stamped>, ws: seq<Stamped>, k: Prefix)
    requires StampedAs(ws, u.withdrawn, clock, n, 0) && StampedAs(xs, u.nlri, clock, n, |u.withdrawn|)
    ensures LeftAt(u, addr, asn, clock, n, c, RibModel.Apply(cfg, c, RibOp.ProcessUpdate(addr, asn, xs, u.attrs, ws)), k)
  {
    hide RibModel.Apply, Rpki.Validate, Keys, LastStamp;
    var op := RibOp.ProcessUpdate(addr, asn, xs, u.attrs, ws);
    UpdatedRoute(cfg, c, op, k);
    KeysOfStamped(xs, u.nlri, clock, n, |u.withdrawn|);
    KeysOfStamped(ws, u.withdrawn, clock, n, 0);
    forall i | LastAt(u.nlri, k, i) ensures LastStamp(xs, k) == clock(n, |u.withdrawn| + i) {
      LastStampAt(xs, k, i);
    }
  }

  /** A whole session on octets: the peer's OPEN and KEEPALIVE, then an UPDATE with some content. The session
      is Established, and the peer's table has lost the withdrawn prefixes, holds the announced ones with the
      UPDATE's attributes and the AS number of the OPEN unless damping or Strict validation kept them out,
      and is otherwise as it was. */
  lemma SessionHolds(cfg: Config, addr: SocketAddr, s: State, o: Opens.OpenMessage, u: Updates.UpdateMessage, clock: Clock, s': State, k: Prefix)
    requires |Opens.PutParams(o.optionalParams)| < 0x100 && Updates.CanSerialize(u) && UpdateRoundTrip.Transmissible(u)
    requires u.nlri != [] || u.withdrawn != [] || u.attrs != DEFAULT_ATTRIBUTES
    requires Session.SessionRun(cfg, addr, 0, s, StreamEvents(Handshake(o) + Updates.SerializeUpdate(u), 0, Quiet(clock)), s')
    ensures Session.StateAfter(Session.OpenSent, StreamEvents(Handshake(o) + Updates.SerializeUpdate(u), 0, Quiet(clock))) == Session.Established
    ensures LeftAt(u, addr, o.myAs, clock, 2, s.core, s'.core, k)
  {
    hide Session.SessionRun, StreamEvents, Handshake, Updates.SerializeUpdate, UpdateRoundTrip.Transmissible, Updates.CanSerialize;
    hide LeftAt, RibModel.Apply, CoreAfter, Session.StateAfter;
    var xs, ws := UpdateEvents(o, u, clock);
    var e := Session.Update(xs, u.attrs, ws);
    RunIsCoreAfter(cfg, addr, 0, s, StreamEvents(Handshake(o) + Updates.SerializeUpdate(u), 0, Quiet(clock)), s');
    HandshakeState(o, e);
    HandshakeCore(cfg, addr, s.core, o, e);
    UpdateLeaves(cfg, addr, o.myAs, s.core, u, clock, 2, xs, ws, k);
  }

  // ----- End-of-RIB and NOTIFICATION -----

  /** The empty UPDATE: 23 octets. */
  const END_OF_RIB: seq<byte> :=
    [255, 255, 255, 255, 255, 255, 255, 255, 255, 255, 255, 255, 255, 255, 255, 255, 0, 23, 2, 0, 0, 0, 0]

  lemma EmptyUpdate()
    ensures var u := Updates.UpdateMessage([], DEFAULT_ATTRIBUTES, []);
            Updates.CanSerialize(u) && UpdateRoundTrip.Transmissible(u) && Updates.SerializeUpdate(u) == END_OF_RIB
  {
    var u := Updates.UpdateMessage([], DEFAULT_ATTRIBUTES, []);
    assert Serialize(DEFAULT_ATTRIBUTES) == [] by { NoAttributes(); }
    assert Updates.UpdateBody(u) == [0, 0, 0, 0];
    assert PutU16(23) == [0, 23];
  }

  lemma NoAttributes()
    ensures Serialize(DEFAULT_ATTRIBUTES) == []
  {
    AttrFormat.AttributesPrinted(DEFAULT_ATTRIBUTES);
    var a := DEFAULT_ATTRIBUTES;
    assert forall i: nat :: AttrFormat.FieldOnWire(a, i) == [];
    NoFields(a, 11);
  }

  lemma {:induction false} NoFields(a: PathAttributes, n: nat)
    requires forall i: nat :: AttrFormat.FieldOnWire(a, i) == []
    ensures AttrFormat.FieldsOnWire(a, n) == []
  {
    if n > 0 {
      NoFields(a, n - 1);
    }
  }

  /** An End-of-RIB sweeps exactly the peer's stale routes. */
  lemma EndOfRibSweeps(cfg: Config, addr: SocketAddr, s: State, clock: Clock, s': State, k: Prefix)
    requires Session.SessionRun(cfg, addr, 0, s, StreamEvents(END_OF_RIB, 0, Quiet(clock)), s')
    ensures var t, t' := TableOf(s.core.adjIn, addr), TableOf(s'.core.adjIn, addr);
            && (k in t' <==> k in t && !t[k].stale)
            && (k in t' ==> t'[k] == t[k])
            && s'.core.damping == s.core.damping
  {
    hide Session.SessionRun, StreamEvents, Updates.SerializeUpdate, UpdateRoundTrip.Transmissible, CoreAfter, Act;
    var u, env := Updates.UpdateMessage([], DEFAULT_ATTRIBUTES, []), Quiet(clock);
    EmptyUpdate();
    assert END_OF_RIB + [] == END_OF_RIB;
    var xs, ws := UpdateFrame(u, [], 0, env);
    NothingFollows(1, clock);
    var e := Session.Update([], DEFAULT_ATTRIBUTES, []);
    assert xs == [] && ws == [];
    assert StreamEvents(END_OF_RIB, 0, env) == [] + [e] + [Session.Malformed];
    RunIsCoreAfter(cfg, addr, 0, s, [] + [e] + [Session.Malformed], s');
    CoreAfterNext(cfg, addr, 0, s.core, [] + [e], Session.Malformed);
    CoreAfterNext(cfg, addr, 0, s.core, [], e);
    NothingMetYet(cfg, addr, 0, s.core);
    IdleAct(cfg, addr, Session.RemoteAs(0, [] + [e]), Act(cfg, addr, 0, s.core, e), Session.Malformed);
    EmptyUpdateSweeps(cfg, addr, 0, s.core, k);
  }

  lemma EmptyUpdateSweeps(cfg: Config, addr: SocketAddr, asn: u32, c: Core, k: Prefix)
    ensures var c' := Act(cfg, addr, asn, c, Session.Update([], DEFAULT_ATTRIBUTES, []));
            var t, t' := TableOf(c.adjIn, addr), TableOf(c'.adjIn, addr);
            && (k in t' <==> k in t && !t[k].stale)
            && (k in t' ==> t'[k] == t[k])
            && c'.damping == c.damping
  {
    EmptyUpdateIdle(cfg, addr, asn, c);
  }

  lemma EmptyUpdateIdle(cfg: Config, addr: SocketAddr, asn: u32, c: Core)
    ensures var c' := RibModel.Apply(cfg, c, RibOp.ProcessUpdate(addr, asn, [], DEFAULT_ATTRIBUTES, []));
            TableOf(c'.adjIn, addr) == TableOf(c.adjIn, addr) && c'.damping == c.damping
  {
  }

  /** A NOTIFICATION ends an Established session and leaves nothing of the peer. */
  lemma NotificationEnds(cfg: Config, addr: SocketAddr, s: State, body: seq<byte>, clock: Clock, s': State)
    requires Invariant(s) && 2 <= |body| && HEADER_LEN + |body| <= MAX_MESSAGE_LEN
    requires Session.SessionRun(cfg, addr, 0, s, StreamEvents(Frame(Notification, body), 0, Quiet(clock)), s')
    ensures Session.StateAfter(Session.Established, StreamEvents(Frame(Notification, body), 0, Quiet(clock))) == Session.Idle
    ensures Session.NothingLeft(s', addr)
  {
    hide StreamEvents, Frame, Invariant, Session.NothingLeft, Step;
    var env, e := Quiet(clock), Session.Notification;
    assert Frame(Notification, body) + [] == Frame(Notification, body);
    NotificationFrame(body, [], 0, env);
    NothingFollows(1, clock);
    assert StreamEvents(Frame(Notification, body), 0, env) == [e, Session.Malformed];
    Session.StateAfterNext(Session.Established, 0, [], e);
    Session.StateAfterNext(Session.Established, 0, [e], Session.Malformed);
    Session.NothingMetAtAll(Session.Established, 0);
    assert [] + [e] == [e] && [e] + [Session.Malformed] == [e, Session.Malformed];
    assert Front([e, Session.Malformed]) == [e];
    Session.ExitLeavesNothing(cfg, addr, 0, s, [e], s');
  }
}
