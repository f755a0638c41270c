/** The session state machine and its use of the shared RIB (src/peer.rs, src/fsm.rs). */
module Session {
  import opened Wire
  import opened Attr
  import opened Dampening
  import opened RibModel
  import opened Capabilities
  import Opens
  import opened Prefixes
  import Rib
  import RibTheorems

  datatype BgpState = Idle | Connect | Active | OpenSent | OpenConfirm | Established

  datatype BgpEvent =
    | ManualStart | ManualStop | TcpConnectionConfirmed | TcpConnectionFail | BgpOpen
    | KeepAliveMsg | UpdateMsg | NotifMsg | HoldTimerExpired | KeepaliveTimerExpired

  function Transition(s: BgpState, e: BgpEvent): BgpState {
    match (s, e)
    case (Idle, ManualStart) => Connect
    case (Connect, TcpConnectionConfirmed) => OpenSent
    case (Connect, TcpConnectionFail) => Active
    case (Active, TcpConnectionConfirmed) => OpenSent
    case (OpenSent, BgpOpen) => OpenConfirm
    case (OpenConfirm, KeepAliveMsg) => Established
    case (Established, NotifMsg) => Idle
    case (Established, TcpConnectionFail) => Idle
    case (_, ManualStop) => Idle
    case (_, HoldTimerExpired) => Idle
    case _ => s
  }

  /** How each state is entered or kept. */
  lemma Entering(s: BgpState, e: BgpEvent)
    ensures var t, stopped := Transition(s, e), e == ManualStop || e == HoldTimerExpired;
            && (stopped ==> t == Idle)
            && (!stopped ==>
                  && (t == Connect <==> (s == Idle && e == ManualStart)
                                        || (s == Connect && e != TcpConnectionConfirmed && e != TcpConnectionFail))
                  && (t == Active <==> (s == Connect && e == TcpConnectionFail) || (s == Active && e != TcpConnectionConfirmed))
                  && (t == OpenSent <==> (s in {Connect, Active} && e == TcpConnectionConfirmed) || (s == OpenSent && e != BgpOpen))
                  && (t == OpenConfirm <==> (s == OpenSent && e == BgpOpen) || (s == OpenConfirm && e != KeepAliveMsg))
                  && (t == Established <==> (s == OpenConfirm && e == KeepAliveMsg)
                                            || (s == Established && e != NotifMsg && e != TcpConnectionFail)))
  {
  }

  /** What one turn of the session loop may meet: a message that parses, the hold timer, the end of the
      stream, a read error, a header or body that does not parse, or another task's operation on the
      shared RIB. */
  datatype SessionEvent =
    | Open(open: Opens.OpenMessage)
    | Keepalive
    | Update(nlri: seq<Stamped>, attrs: PathAttributes, withdrawn: seq<Stamped>)
    | Notification
    | RefreshRequest
    | HoldTimer
    | EndOfStream
    | ReadError
    | Malformed
    | OtherTask(op: RibOp)

  predicate Exits(e: SessionEvent) {
    CleansUp(e) || e.ReadError? || e.Malformed?
  }

  /** The exits that go through the disconnect handler. */
  predicate CleansUp(e: SessionEvent) {
    e.HoldTimer? || e.EndOfStream?
  }

  function NextState(s: BgpState, e: SessionEvent): BgpState {
    match e
    case Open(_) => Transition(s, BgpOpen)
    case Keepalive => if s == OpenConfirm then Transition(s, KeepAliveMsg) else s
    case Update(_, _, _) => Transition(s, UpdateMsg)
    case Notification => Transition(s, NotifMsg)
    case HoldTimer => Transition(s, HoldTimerExpired)
    case EndOfStream => Transition(s, TcpConnectionFail)
    case ReadError => Transition(s, TcpConnectionFail)
    case _ => s
  }

  function StateAfter(s: BgpState, events: seq<SessionEvent>): BgpState {
    if events == [] then s else NextState(StateAfter(s, Front(events)), Last(events))
  }

  lemma StateAfterNext(s: BgpState, asn: u32, events: seq<SessionEvent>, e: SessionEvent)
    ensures StateAfter(s, events + [e]) == NextState(StateAfter(s, events), e)
    ensures RemoteAs(asn, events + [e]) == if e.Open? then e.open.myAs else RemoteAs(asn, events)
  {
    hide NextState;
    assert Front(events + [e]) == events;
  }

  lemma NothingMetAtAll(s: BgpState, asn: u32)
    ensures StateAfter(s, []) == s && RemoteAs(asn, []) == asn
  {
  }

  /** The AS number the session files routes under: the one of the last OPEN, 0 before it. */
  function RemoteAs(asn: u32, events: seq<SessionEvent>): u32 {
    if events == [] then asn
    else if Last(events).Open? then Last(events).open.myAs
    else RemoteAs(asn, Front(events))
  }

  /** The events at which a session removes its peer from the RIB. */
  predicate Removes(e: SessionEvent) {
    CleansUp(e) || e.Notification?
  }

  predicate IsEndOfRib(e: SessionEvent) {
    e.Update? && e.nlri == [] && e.withdrawn == [] && IsEmpty(e.attrs)
  }

  /** What one event does to the shared RIB. UPDATEs are processed in every state, and an End-of-RIB
      also sweeps; a NOTIFICATION, the hold timer and the end of the stream remove the peer; a read
      error and a malformed message leave the RIB as it is. */
  ghost predicate Effect(cfg: Config, addr: SocketAddr, remoteAs: u32, s: State, e: SessionEvent, s': State) {
    match e
    case Update(nlri, attrs, withdrawn) =>
      var op := RibOp.ProcessUpdate(addr, remoteAs, nlri, attrs, withdrawn);
      if IsEndOfRib(e) then exists mid :: Step(cfg, s, op, mid) && Step(cfg, mid, Sweep(addr), s')
      else Step(cfg, s, op, s')
    case Notification => Step(cfg, s, RibOp.RemovePeer(addr), s')
    case HoldTimer => Step(cfg, s, RibOp.RemovePeer(addr), s')
    case EndOfStream => Step(cfg, s, RibOp.RemovePeer(addr), s')
    case OtherTask(op) => Step(cfg, s, op, s')
    case _ => s' == s
  }

  /** The RIB goes from `s` to `s'` through the effects of `events`, in order. */
  ghost predicate SessionRun(cfg: Config, addr: SocketAddr, asn: u32, s: State, events: seq<SessionEvent>, s': State) {
    if events == [] then s' == s
    else exists mid ::
      SessionRun(cfg, addr, asn, s, Front(events), mid)
      && Effect(cfg, addr, RemoteAs(asn, Front(events)), mid, Last(events), s')
  }

  class Peer {
    const addr: SocketAddr
    const rib: Rib.Rib
    var state: BgpState
    var remoteAs: u32
    var peerRouterId: Option<u32>
    var peerCapabilities: seq<Capability>

    constructor (addr: SocketAddr, rib: Rib.Rib)
      ensures this.addr == addr && this.rib == rib && state == Idle && remoteAs == 0 && peerCapabilities == []
    {
      this.addr, this.rib, state := addr, rib, Idle;
      remoteAs, peerRouterId, peerCapabilities := 0, None, [];
    }

    method Fire(event: BgpEvent)
      modifies this`state
      ensures state == Transition(old(state), event)
    {
      state := Transition(state, event);
    }

    /** Graceful restart if it was negotiated and the session is still Established, otherwise the
        peer's routes go at once. */
    method HandleDisconnect()
      modifies rib, rib.dampening
      ensures Step(rib.dampening.config, old(rib.View()),
                   if state == Established && exists i :: 0 <= i < |peerCapabilities| && peerCapabilities[i].GracefulRestart?
                   then MarkStale(addr) else RibOp.RemovePeer(addr),
                   rib.View())
      ensures old(Invariant(rib.View())) ==> Invariant(rib.View())
    {
      var supportsRestart := false;
      for i := 0 to |peerCapabilities|
        invariant supportsRestart <==> exists j :: 0 <= j < i && peerCapabilities[j].GracefulRestart?
      {
        if peerCapabilities[i].GracefulRestart? {
          supportsRestart := true;
        }
      }
      if supportsRestart && state == Established {
        rib.MarkPeerStale(addr);
      } else {
        var _ := rib.RemovePeer(addr);
      }
    }

    method HandleMessage(e: SessionEvent)
      requires !Exits(e)
      modifies this, rib, rib.dampening, rib.rpki
      ensures state == NextState(old(state), e)
      ensures Effect(rib.dampening.config, addr, old(remoteAs), old(rib.View()), e, rib.View())
      ensures peerCapabilities == if e.Open? then Opens.CapabilitiesOf(e.open) else old(peerCapabilities)
      ensures remoteAs == if e.Open? then e.open.myAs else old(remoteAs)
      ensures peerRouterId == if e.Open? then Some(e.open.bgpId) else old(peerRouterId)
    {
      hide Invariant, Step, Opens.PutParams, ParamsFrom;
      match e
      case Open(open) =>
        var raw := Opens.WriteParams(open.optionalParams);
        peerCapabilities := ParseOptionalParams(raw);
        peerRouterId := Some(open.bgpId);
        remoteAs := open.myAs;
        Fire(BgpOpen);
      case Keepalive =>
        if state == OpenConfirm {
          Fire(KeepAliveMsg);
        }
      case Update(nlri, attrs, withdrawn) =>
        Fire(UpdateMsg);
        var endOfRib := nlri == [] && withdrawn == [] && IsEmpty(attrs);
        rib.ProcessUpdate(addr, remoteAs, nlri, attrs, withdrawn);
        if endOfRib {
          var _ := rib.RemoveStaleForPeer(addr);
        }
      case Notification =>
        Fire(NotifMsg);
        var _ := rib.RemovePeer(addr);
      case RefreshRequest =>
      case OtherTask(op) =>
        rib.Perform(op);
    }

    /** The session loop over the events it meets; `n` of them are consumed. */
    method RunSession(events: seq<SessionEvent>) returns (n: nat)
      modifies this, rib, rib.dampening, rib.rpki
      ensures n <= |events| && (n < |events| ==> n > 0 && Exits(events[n - 1]))
      ensures state == StateAfter(old(state), events[..n])
      ensures SessionRun(rib.dampening.config, addr, old(remoteAs), old(rib.View()), events[..n], rib.View())
    {
      hide NextState, Effect, Step;
      n := 0;
      while n < |events|
        invariant n <= |events| && (n > 0 ==> !Exits(events[n - 1]))
        invariant state == StateAfter(old(state), events[..n])
        invariant remoteAs == RemoteAs(old(remoteAs), events[..n])
        invariant SessionRun(rib.dampening.config, addr, old(remoteAs), old(rib.View()), events[..n], rib.View())
      {
        var e := events[n];
        assert Front(events[..n + 1]) == events[..n] && Last(events[..n + 1]) == e;
        n := n + 1;
        if Exits(e) {
          HandleExit(e);
          return;
        }
        HandleMessage(e);
      }
    }

    /** The ends of the loop. The hold timer and the end of the stream leave the state first, then
        clean up; a read error only leaves the state; a parse error just returns. */
    method HandleExit(e: SessionEvent)
      requires Exits(e)
      modifies this`state, rib, rib.dampening
      ensures state == NextState(old(state), e)
      ensures Effect(rib.dampening.config, addr, remoteAs, old(rib.View()), e, rib.View())
    {
      if e.Malformed? {
        return;
      }
      Fire(if e.HoldTimer? then HoldTimerExpired else TcpConnectionFail);
      if e.ReadError? {
        return;
      }
      ExitLeavesEstablished(old(state), e);
      HandleDisconnect();
    }

    /** An accepted TCP connection: start, confirm, and run. */
    method HandleIncoming(events: seq<SessionEvent>) returns (n: nat)
      requires state == Idle
      modifies this, rib, rib.dampening, rib.rpki
      ensures n <= |events| && (n < |events| ==> n > 0 && Exits(events[n - 1]))
      ensures state == StateAfter(OpenSent, events[..n])
      ensures SessionRun(rib.dampening.config, addr, old(remoteAs), old(rib.View()), events[..n], rib.View())
    {
      Fire(ManualStart);
      Fire(TcpConnectionConfirmed);
      n := RunSession(events);
    }
  }

  /** Nothing of the peer remains: no table, no selected route, no damping state. */
  ghost predicate NothingLeft(s: State, addr: SocketAddr) {
    && addr !in s.core.adjIn
    && (forall k :: k in s.loc ==> s.loc[k].peerAddr != addr)
    && (forall key :: key in s.core.damping ==> key.0 != addr)
  }

  // ----- Every run of a session -----

  lemma EffectKeepsInvariant(cfg: Config, addr: SocketAddr, asn: u32, s: State, e: SessionEvent, s': State)
    requires Invariant(s) && Effect(cfg, addr, asn, s, e, s')
    ensures Invariant(s')
  {
    hide Invariant, Step;
    match e
    case Update(nlri, attrs, withdrawn) =>
      var op := RibOp.ProcessUpdate(addr, asn, nlri, attrs, withdrawn);
      if IsEndOfRib(e) {
        var mid :| Step(cfg, s, op, mid) && Step(cfg, mid, Sweep(addr), s');
        InvariantStep(cfg, s, op, mid);
        InvariantStep(cfg, mid, Sweep(addr), s');
      } else {
        InvariantStep(cfg, s, op, s');
      }
    case OtherTask(op) => InvariantStep(cfg, s, op, s');
    case Open(_) =>
    case Keepalive =>
    case RefreshRequest =>
    case ReadError =>
    case Malformed =>
    case _ => InvariantStep(cfg, s, RibOp.RemovePeer(addr), s');
  }

  lemma {:induction false} SessionKeepsInvariant(cfg: Config, addr: SocketAddr, asn: u32, s: State, events: seq<SessionEvent>, s': State)
    requires Invariant(s) && SessionRun(cfg, addr, asn, s, events, s')
    ensures Invariant(s')
    decreases |events|
  {
    hide Invariant, Effect;
    if events != [] {
      var mid :|
        SessionRun(cfg, addr, asn, s, Front(events), mid)
        && Effect(cfg, addr, RemoteAs(asn, Front(events)), mid, Last(events), s');
      SessionKeepsInvariant(cfg, addr, asn, s, Front(events), mid);
      EffectKeepsInvariant(cfg, addr, RemoteAs(asn, Front(events)), mid, Last(events), s');
    }
  }

  /** However the session went and whatever other tasks did meanwhile, right after the hold timer, the
      end of the stream or a NOTIFICATION nothing of the peer is left in the RIB. */
  lemma {:induction false} ExitLeavesNothing(cfg: Config, addr: SocketAddr, asn: u32, s: State, events: seq<SessionEvent>, s': State)
    requires Invariant(s) && SessionRun(cfg, addr, asn, s, events, s')
    requires events != [] && (Last(events).HoldTimer? || Last(events).EndOfStream? || Last(events).Notification?)
    ensures NothingLeft(s', addr)
  {
    hide Invariant, Step;
    var mid :|
      SessionRun(cfg, addr, asn, s, Front(events), mid)
      && Effect(cfg, addr, RemoteAs(asn, Front(events)), mid, Last(events), s');
    SessionKeepsInvariant(cfg, addr, asn, s, Front(events), mid);
    RibTheorems.RemovedPeerGone(cfg, mid, addr, s');
  }

  /** An exit leaves nothing of the peer exactly if it is the hold timer or the end of the stream, or if
      there was nothing to leave. */
  lemma ExitLeavesNothingIff(cfg: Config, addr: SocketAddr, asn: u32, s: State, e: SessionEvent, s': State)
    requires Invariant(s) && Exits(e) && Effect(cfg, addr, asn, s, e, s')
    ensures NothingLeft(s', addr) <==> e.HoldTimer? || e.EndOfStream? || NothingLeft(s, addr)
  {
    hide Invariant, Step, NothingLeft;
    if CleansUp(e) {
      PeerRemoved(cfg, addr, s, s');
    }
  }

  lemma PeerRemoved(cfg: Config, addr: SocketAddr, s: State, s': State)
    requires Invariant(s) && Step(cfg, s, RibOp.RemovePeer(addr), s')
    ensures NothingLeft(s', addr)
  {
    hide Invariant, Step;
    RibTheorems.RemovedPeerGone(cfg, s, addr, s');
  }

  /** One announced prefix and then a malformed message: the route stays selected after the session. */
  lemma MalformedLeavesRoute(cfg: Config, addr: SocketAddr, k: Prefix) returns (s': State)
    ensures var announce := Update([Stamped(k, 0.0)], DEFAULT_ATTRIBUTES, []);
            && SessionRun(cfg, addr, 0, EMPTY, [announce, Malformed], s')
            && StateAfter(OpenSent, [announce]) == StateAfter(OpenSent, [announce, Malformed]) == OpenSent
            && k in s'.loc && s'.loc[k].peerAddr == addr
            && !NothingLeft(s', addr)
  {
    hide SessionRun, StateAfter, Step;
    var announce := Update([Stamped(k, 0.0)], DEFAULT_ATTRIBUTES, []);
    s' := FirstAnnouncement(cfg, addr, k);
    RunOne(cfg, addr, EMPTY, [announce], s', Malformed, s');
    assert [announce] + [Malformed] == [announce, Malformed];
    StillOpenSent(announce);
  }

  /** A session whose first message is an announcement. */
  lemma FirstAnnouncement(cfg: Config, addr: SocketAddr, k: Prefix) returns (s': State)
    ensures SessionRun(cfg, addr, 0, EMPTY, [Update([Stamped(k, 0.0)], DEFAULT_ATTRIBUTES, [])], s')
    ensures k in s'.loc && s'.loc[k].peerAddr == addr
    ensures addr in s'.core.adjIn && k in s'.core.adjIn[addr]
  {
    hide SessionRun, Step;
    var announce := Update([Stamped(k, 0.0)], DEFAULT_ATTRIBUTES, []);
    s' := RibTheorems.FirstRoute(cfg, addr, k);
    RunNone(cfg, addr, EMPTY);
    RunOne(cfg, addr, EMPTY, [], EMPTY, announce, s');
    assert [] + [announce] == [announce];
  }

  lemma StillOpenSent(e: SessionEvent)
    requires e.Update?
    ensures StateAfter(OpenSent, [e]) == OpenSent && StateAfter(OpenSent, [e, Malformed]) == OpenSent
  {
    assert Front([e]) == [] && Front([e, Malformed]) == [e];
  }

  lemma RunNone(cfg: Config, addr: SocketAddr, s: State)
    ensures SessionRun(cfg, addr, 0, s, [], s)
  {
  }

  lemma RunOne(cfg: Config, addr: SocketAddr, s: State, events: seq<SessionEvent>, mid: State, e: SessionEvent, s': State)
    requires SessionRun(cfg, addr, 0, s, events, mid) && Effect(cfg, addr, RemoteAs(0, events), mid, e, s')
    ensures SessionRun(cfg, addr, 0, s, events + [e], s')
  {
    hide Effect;
    assert Front(events + [e]) == events;
  }

  /** Both cleaning exits leave Established before the disconnect is handled, so the graceful-restart
      branch is never taken. */
  lemma ExitLeavesEstablished(s: BgpState, e: SessionEvent)
    requires CleansUp(e)
    ensures NextState(s, e) != Established
  {
  }

  /** A session only moves forward through these phases. */
  function Phase(s: BgpState): nat {
    match s
    case Idle => 3
    case Established => 2
    case OpenConfirm => 1
    case _ => 0
  }

  predicate InSession(s: BgpState) {
    s != Connect && s != Active
  }

  lemma PhaseNext(s: BgpState, e: SessionEvent)
    requires InSession(s)
    ensures InSession(NextState(s, e)) && Phase(s) <= Phase(NextState(s, e))
  {
  }

  /** The state never returns to Connect or Active, never goes back a phase, and so is Established
      during one uninterrupted stretch at most. */
  lemma {:induction false} SessionMovesForward(events: seq<SessionEvent>, i: nat, j: nat)
    requires i <= j <= |events|
    ensures InSession(StateAfter(OpenSent, events[..i])) && InSession(StateAfter(OpenSent, events[..j]))
    ensures Phase(StateAfter(OpenSent, events[..i])) <= Phase(StateAfter(OpenSent, events[..j]))
    decreases j
  {
    hide NextState, Phase;
    if j > 0 {
      var s := StateAfter(OpenSent, events[..j - 1]);
      assert Front(events[..j]) == events[..j - 1];
      SessionMovesForward(events, if i < j then i else j - 1, j - 1);
      PhaseNext(s, Last(events[..j]));
    }
  }

  ghost predicate Opened(es: seq<SessionEvent>) {
    exists i :: 0 <= i < |es| && es[i].Open?
  }

  ghost predicate Expired(es: seq<SessionEvent>) {
    exists i :: 0 <= i < |es| && es[i].HoldTimer?
  }

  /** Some OPEN is followed by a KEEPALIVE. */
  ghost predicate Answered(es: seq<SessionEvent>) {
    exists i, j :: 0 <= i < j < |es| && es[i].Open? && es[j].Keepalive?
  }

  /** What takes a session out of Established. */
  predicate Closes(e: SessionEvent) {
    e.Notification? || e.HoldTimer? || e.EndOfStream? || e.ReadError?
  }

  /** The handshake completes at `j`: the first KEEPALIVE after an OPEN, with no hold-timer expiry before. */
  ghost predicate HandshakeAt(es: seq<SessionEvent>, j: nat) {
    j < |es| && es[j].Keepalive? && Opened(es[..j]) && !Answered(es[..j]) && !Expired(es[..j])
  }

  ghost predicate Up(es: seq<SessionEvent>) {
    exists j: nat :: HandshakeAt(es, j) && forall m :: j < m < |es| ==> !Closes(es[m])
  }

  lemma OpenedNext(es: seq<SessionEvent>)
    requires es != []
    ensures Opened(es) <==> Opened(Front(es)) || Last(es).Open?
    ensures Expired(es) <==> Expired(Front(es)) || Last(es).HoldTimer?
    ensures Answered(es) <==> Answered(Front(es)) || (Opened(Front(es)) && Last(es).Keepalive?)
  {
    var n := |es| - 1;
    assert forall i :: 0 <= i < n ==> es[i] == Front(es)[i];
    if Last(es).Open? { assert es[n].Open?; }
    if Last(es).HoldTimer? { assert es[n].HoldTimer?; }
    if i, j :| 0 <= i < j < |Front(es)| && Front(es)[i].Open? && Front(es)[j].Keepalive? {
      assert es[i].Open? && es[j].Keepalive?;
    }
    if i :| 0 <= i < |Front(es)| && Front(es)[i].Open? && Last(es).Keepalive? {
      assert es[i].Open? && es[n].Keepalive?;
    }
    if i :| 0 <= i < |Front(es)| && Front(es)[i].Open? { assert es[i].Open?; }
    if i :| 0 <= i < |Front(es)| && Front(es)[i].HoldTimer? { assert es[i].HoldTimer?; }
  }

  lemma UpNext(es: seq<SessionEvent>)
    requires es != []
    ensures Up(es) <==> (Up(Front(es)) && !Closes(Last(es))) || HandshakeAt(es, |es| - 1)
  {
    var n := |es| - 1;
    var front := Front(es);
    assert forall j: nat :: j <= n ==> front[..j] == es[..j];
    if Up(es) {
      var j: nat :| HandshakeAt(es, j) && forall m :: j < m < |es| ==> !Closes(es[m]);
      if j < n {
        assert HandshakeAt(front, j);
        assert forall m :: j < m < |front| ==> !Closes(front[m]);
        assert Up(front) && !Closes(es[n]);
      }
    }
    if Up(front) && !Closes(Last(es)) {
      var j: nat :| HandshakeAt(front, j) && forall m :: j < m < |front| ==> !Closes(front[m]);
      assert HandshakeAt(es, j);
      forall m | j < m < |es| ensures !Closes(es[m]) {
        if m < n { assert es[m] == front[m]; }
      }
    }
  }

  /** Which state a session is in, from the events alone. Established: exactly when a KEEPALIVE has
      answered an OPEN before any hold-timer expiry and nothing closed the session since. */
  lemma {:induction false} StateCharacterized(es: seq<SessionEvent>)
    ensures var s := StateAfter(OpenSent, es);
            && (s == OpenSent <==> !Opened(es) && !Expired(es))
            && (s == OpenConfirm <==> Opened(es) && !Answered(es) && !Expired(es))
            && (s == Established <==> Up(es))
  {
    hide Opened, Expired, Answered, Up;
    if es == [] {
      NothingMet();
    } else {
      var front := Front(es);
      StateCharacterized(front);
      OpenedNext(es);
      UpNext(es);
      AnsweredOpened(front);
      if Up(front) { UpAnswered(front); }
      SessionMovesForward(front, |front|, |front|);
      assert front[..|front|] == front;
      assert es[..|es| - 1] == front;
    }
  }

  lemma AnsweredOpened(es: seq<SessionEvent>)
    ensures Answered(es) ==> Opened(es)
  {
  }

  lemma NothingMet()
    ensures !Opened([]) && !Expired([]) && !Up([])
  {
  }

  lemma UpAnswered(es: seq<SessionEvent>)
    requires Up(es)
    ensures Answered(es) && Opened(es)
  {
    var j: nat :| HandshakeAt(es, j) && forall m :: j < m < |es| ==> !Closes(es[m]);
    var i :| 0 <= i < |es[..j]| && es[..j][i].Open?;
    assert es[i].Open? && es[j].Keepalive?;
  }
}
