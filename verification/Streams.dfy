/** From octets to routes: a session fed by a byte stream (src/peer.rs, `run_session`). The deframer, the
    message parsers and the session loop compose, and the outcome does not depend on how the stream is
    cut into reads. */
module Streams {
  import opened Wire
  import opened Framing
  import opened Dampening
  import opened RibModel
  import Updates
  import Opens
  import OwnRoutes
  import RibTheorems
  import Session

  /** The clock at the j-th prefix of the n-th message. */
  type Clock = (nat, nat) -> Time

  /** The prefixes of the n-th message, read off the clock from turn `from` on. */
  function Stamp(prefixes: seq<Prefixes.Prefix>, n: nat, from: nat, clock: Clock): seq<Stamped> {
    if prefixes == [] then []
    else [Stamped(prefixes[0], clock(n, from))] + Stamp(prefixes[1..], n, from + 1, clock)
  }

  /** What the session makes of the n-th delivered message: dispatch on the type, then parse. */
  function EventOf(m: BgpMessage, n: nat, clock: Clock): Session.SessionEvent {
    match m.header.msgType
    case Open =>
      (match Opens.ParseOpen(m.body)
       case Ok(open) => Session.Open(open)
       case Err(_) => Session.Malformed)
    case Update =>
      (match Updates.ParseUpdate(m.body)
       case Ok(u) =>
         Session.Update(Stamp(u.nlri, n, |u.withdrawn|, clock), u.attrs, Stamp(u.withdrawn, n, 0, clock))
       case Err(_) => Session.Malformed)
    case Notification => if |m.body| < 2 then Session.Malformed else Session.Notification
    case Keepalive => Session.Keepalive
    case RouteRefresh => Session.RefreshRequest
  }

  /** What the octets do not say: the clock, what other tasks do to the RIB before the n-th message is
      handled, and how the session ends if no message is malformed. */
  datatype Env = Env(clock: Clock, tasks: nat -> seq<RibOp>, ending: Session.SessionEvent)

  function Others(ops: seq<RibOp>): seq<Session.SessionEvent> {
    if ops == [] then [] else Others(Front(ops)) + [Session.OtherTask(Last(ops))]
  }

  lemma {:induction false} OthersInOrder(ops: seq<RibOp>)
    ensures |Others(ops)| == |ops| && forall i :: 0 <= i < |ops| ==> Others(ops)[i] == Session.OtherTask(ops[i])
    decreases |ops|
  {
    if ops != [] {
      OthersInOrder(Front(ops));
    }
  }

  /** A malformed message is the last thing a session meets. */
  function Then(e: Session.SessionEvent, rest: seq<Session.SessionEvent>): seq<Session.SessionEvent> {
    if e.Malformed? then [e] else [e] + rest
  }

  /** The events of a session that is delivered `messages` and then, perhaps, a header error. */
  function EventsOf(messages: seq<BgpMessage>, error: bool, n: nat, env: Env): seq<Session.SessionEvent> {
    Others(env.tasks(n))
    + if messages == [] then [if error then Session.Malformed else env.ending]
      else Then(EventOf(messages[0], n, env.clock), EventsOf(messages[1..], error, n + 1, env))
  }

  function SessionEvents(d: Drained, n: nat, env: Env): seq<Session.SessionEvent> {
    EventsOf(d.messages, d.error.Some?, n, env)
  }

  /** The reference: the events of the whole stream at once. */
  function StreamEvents(stream: seq<byte>, n: nat, env: Env): seq<Session.SessionEvent> {
    SessionEvents(Drain(stream), n, env)
  }

  /** The events of a session that reads chunk by chunk are those of the stream. */
  lemma CuttingIrrelevant(chunks: seq<seq<byte>>, env: Env)
    ensures SessionEvents(Feed([], chunks).drained, 0, env) == StreamEvents(Concat(chunks), 0, env)
  {
    hide EventsOf, Drain, Feed;
    ChunkingIrrelevant([], chunks);
    assert [] + Concat(chunks) == Concat(chunks);
  }

  // ----- One message at a time -----

  lemma DrainStep(buf: seq<byte>, m: BgpMessage, rest: seq<byte>)
    requires ParseMessage(buf) == Ok(Some((m, rest)))
    ensures Drain(buf).messages == [m] + Drain(rest).messages && Drain(buf).error == Drain(rest).error
  {
    hide ParseMessage;
  }

  /** A message complete in the buffer is met next, whatever is yet to be read. */
  lemma StreamMessage(buf: seq<byte>, m: BgpMessage, rest: seq<byte>, more: seq<byte>, n: nat, env: Env)
    requires ParseMessage(buf) == Ok(Some((m, rest)))
    ensures StreamEvents(buf + more, n, env)
         == Others(env.tasks(n)) + Then(EventOf(m, n, env.clock), StreamEvents(rest + more, n + 1, env))
  {
    hide ParseMessage, Drain, EventOf, Others, Then;
    ParseExtend(buf, more);
    DrainStep(buf + more, m, rest + more);
    assert Drain(buf + more).messages[1..] == Drain(rest + more).messages;
  }

  lemma StreamError(buf: seq<byte>, more: seq<byte>, n: nat, env: Env)
    requires ParseMessage(buf).Err?
    ensures StreamEvents(buf + more, n, env) == Others(env.tasks(n)) + [Session.Malformed]
  {
    hide ParseMessage, Others;
    ParseExtend(buf, more);
    assert Drain(buf + more).messages == [];
  }

  lemma StreamEnd(buf: seq<byte>, n: nat, env: Env)
    requires ParseMessage(buf) == Ok(None)
    ensures StreamEvents(buf, n, env) == Others(env.tasks(n)) + [env.ending]
  {
    hide ParseMessage, Others;
    assert Drain(buf).messages == [];
  }

  // ----- The session reading octets -----

  method StampAll(prefixes: seq<Prefixes.Prefix>, n: nat, from: nat, clock: Clock) returns (r: seq<Stamped>)
    ensures r == Stamp(prefixes, n, from, clock)
  {
    r := [];
    for i := 0 to |prefixes|
      invariant Stamp(prefixes, n, from, clock) == r + Stamp(prefixes[i..], n, from + i, clock)
    {
      Assoc(r, [Stamped(prefixes[i], clock(n, from + i))], Stamp(prefixes[i + 1..], n, from + i + 1, clock));
      r := r + [Stamped(prefixes[i], clock(n, from + i))];
    }
  }

  /** Dispatch on the message type, then parse the body. */
  method ParseBody(m: BgpMessage, n: nat, clock: Clock) returns (e: Session.SessionEvent)
    ensures e == EventOf(m, n, clock)
    ensures Session.Exits(e) ==> e.Malformed?
  {
    hide Opens.ParseOpen, Updates.ParseUpdate, Stamp;
    match m.header.msgType
    case Open =>
      var open := Opens.ReadOpen(m.body);
      e := if open.Ok? then Session.Open(open.value) else Session.Malformed;
    case Update =>
      var u := Updates.ReadUpdate(m.body);
      if u.Ok? {
        var nlri := StampAll(u.value.nlri, n, |u.value.withdrawn|, clock);
        var withdrawn := StampAll(u.value.withdrawn, n, 0, clock);
        e := Session.Update(nlri, u.value.attrs, withdrawn);
      } else {
        e := Session.Malformed;
      }
    case Notification => e := if |m.body| < 2 then Session.Malformed else Session.Notification;
    case Keepalive => e := Session.Keepalive;
    case RouteRefresh => e := Session.RefreshRequest;
  }

  /** Where a session stood when it began. */
  datatype Start = Start(state: Session.BgpState, asn: u32, rib: State)

  /** The session has met exactly `events` since `start`. */
  ghost predicate Met(peer: Session.Peer, start: Start, events: seq<Session.SessionEvent>)
    reads peer, peer.rib, peer.rib.dampening, peer.rib.rpki
  {
    && peer.state == Session.StateAfter(start.state, events)
    && peer.remoteAs == Session.RemoteAs(start.asn, events)
    && Session.SessionRun(peer.rib.dampening.config, peer.addr, start.asn, start.rib, events, peer.rib.View())
  }

  method Meet(peer: Session.Peer, e: Session.SessionEvent, ghost start: Start, ghost events: seq<Session.SessionEvent>)
    requires Met(peer, start, events)
    modifies peer, peer.rib, peer.rib.dampening, peer.rib.rpki
    ensures Met(peer, start, events + [e])
  {
    hide Session.NextState, Session.Effect;
    assert Front(events + [e]) == events;
    if Session.Exits(e) {
      peer.HandleExit(e);
    } else {
      peer.HandleMessage(e);
    }
  }

  /** Other tasks get their turn at the RIB. */
  method MeetOthers(peer: Session.Peer, ops: seq<RibOp>, ghost start: Start, ghost events: seq<Session.SessionEvent>)
    requires Met(peer, start, events)
    modifies peer, peer.rib, peer.rib.dampening, peer.rib.rpki
    ensures Met(peer, start, events + Others(ops))
  {
    hide Met;
    assert events + Others(ops[..0]) == events;
    for i := 0 to |ops|
      invariant Met(peer, start, events + Others(ops[..i]))
    {
      assert Front(ops[..i + 1]) == ops[..i];
      Meet(peer, Session.OtherTask(ops[i]), start, events + Others(ops[..i]));
      Assoc(events, Others(ops[..i]), [Session.OtherTask(ops[i])]);
    }
    assert ops[..|ops|] == ops;
  }

  /** Takes every complete message in the buffer. `done` are the events met so far, `all` those of the
      session, `more` the octets still to be read. */
  method TakeMessages(peer: Session.Peer, buffer: ReadBuffer, n: nat, env: Env, ghost start: Start,
                      ghost done: seq<Session.SessionEvent>, ghost all: seq<Session.SessionEvent>, ghost more: seq<byte>)
    returns (n': nat, open: bool, ghost done': seq<Session.SessionEvent>)
    requires Met(peer, start, done) && all == done + StreamEvents(buffer.buf + more, n, env)
    modifies peer, peer.rib, peer.rib.dampening, peer.rib.rpki, buffer
    ensures Met(peer, start, done')
    ensures open ==> all == done' + StreamEvents(buffer.buf + more, n', env) && ParseMessage(buffer.buf) == Ok(None)
    ensures !open ==> all == done'
  {
    hide ParseMessage, EventOf, StreamEvents, Met, Others;
    n', open, done' := n, true, done;
    while open
      invariant Met(peer, start, done')
      invariant open ==> all == done' + StreamEvents(buffer.buf + more, n', env)
      invariant !open ==> all == done'
      decreases open, |buffer.buf|
    {
      ghost var before, others := buffer.buf, done' + Others(env.tasks(n'));
      var r := buffer.NextMessage();
      match r {
        case Ok(None) => return;
        case Err(_) =>
          StreamError(before, more, n', env);
          MeetOthers(peer, env.tasks(n'), start, done');
          Meet(peer, Session.Malformed, start, others);
          Assoc(done', Others(env.tasks(n')), [Session.Malformed]);
          done', open := others + [Session.Malformed], false;
        case Ok(Some(m)) =>
          ghost var rest := StreamEvents(buffer.buf + more, n' + 1, env);
          StreamMessage(before, m, buffer.buf, more, n', env);
          var e := ParseBody(m, n', env.clock);
          MeetOthers(peer, env.tasks(n'), start, done');
          Meet(peer, e, start, others);
          Assoc(done', Others(env.tasks(n')), Then(e, rest));
          Assoc(others, [e], rest);
          done', open, n' := others + [e], !e.Malformed?, n' + 1;
      }
    }
  }

  /** The session loop on octets. A chunk is what one read brings, empty if none came in time; after
      the last the hold timer expires, the read fails, the stream ends or a write fails. Other tasks use
      the RIB between any two messages. The outcome is that of the stream, however it is cut. */
  method ServeStream(peer: Session.Peer, chunks: seq<seq<byte>>, env: Env)
    requires Session.Exits(env.ending)
    modifies peer, peer.rib, peer.rib.dampening, peer.rib.rpki
    ensures peer.state == Session.StateAfter(old(peer.state), StreamEvents(Concat(chunks), 0, env))
    ensures Session.SessionRun(peer.rib.dampening.config, peer.addr, old(peer.remoteAs), old(peer.rib.View()),
                               StreamEvents(Concat(chunks), 0, env), peer.rib.View())
  {
    hide ParseMessage, StreamEvents, Others;
    ghost var start := Start(peer.state, peer.remoteAs, peer.rib.View());
    ghost var all, done := StreamEvents(Concat(chunks), 0, env), [];
    var buffer := new ReadBuffer();
    var n, open := 0, true;
    assert buffer.buf + Concat(chunks[0..]) == Concat(chunks);
    NothingBuffered();
    for i := 0 to |chunks|
      invariant fresh(buffer) && open && ParseMessage(buffer.buf) == Ok(None)
      invariant Met(peer, start, done) && all == done + StreamEvents(buffer.buf + Concat(chunks[i..]), n, env)
    {
      Assoc(buffer.buf, chunks[i], Concat(chunks[i + 1..]));
      buffer.buf := buffer.buf + chunks[i];
      n, open, done := TakeMessages(peer, buffer, n, env, start, done, all, Concat(chunks[i + 1..]));
      if !open {
        return;
      }
    }
    assert buffer.buf + Concat([]) == buffer.buf;
    StreamEnd(buffer.buf, n, env);
    MeetOthers(peer, env.tasks(n), start, done);
    Meet(peer, env.ending, start, done + Others(env.tasks(n)));
    Assoc(done, Others(env.tasks(n)), [env.ending]);
  }

  lemma NothingBuffered()
    ensures ParseMessage([]) == Ok(None)
  {
  }

  // ----- What the stream determines -----

  /** The events of a session determine the tables, the damping state and the ROA table. */
  lemma RunDetermined(cfg: Config, addr: SocketAddr, asn: u32, s: State, events: seq<Session.SessionEvent>, a: State, b: State)
    requires Session.SessionRun(cfg, addr, asn, s, events, a) && Session.SessionRun(cfg, addr, asn, s, events, b)
    ensures a.core == b.core
  {
    hide Session.SessionRun, OwnRoutes.CoreAfter;
    OwnRoutes.RunIsCoreAfter(cfg, addr, asn, s, events, a);
    OwnRoutes.RunIsCoreAfter(cfg, addr, asn, s, events, b);
  }

  /** Two sessions that read the same octets in different portions leave the same tables, damping state
      and ROA table; without full ties they also leave the same routes selected. */
  lemma SameStreamSameRib(cfg: Config, addr: SocketAddr, asn: u32, s: State, chunks: seq<seq<byte>>, chunks': seq<seq<byte>>,
                          env: Env, a: State, b: State, k: Prefixes.Prefix)
    requires Invariant(s) && Concat(chunks) == Concat(chunks')
    requires Session.SessionRun(cfg, addr, asn, s, SessionEvents(Feed([], chunks).drained, 0, env), a)
    requires Session.SessionRun(cfg, addr, asn, s, SessionEvents(Feed([], chunks').drained, 0, env), b)
    ensures a.core == b.core
    ensures RibTheorems.NoFullTies(a.core.adjIn) ==>
              (k in a.loc <==> k in b.loc) && (k in a.loc ==> SameRoute(a.loc[k], b.loc[k]))
  {
    hide Invariant, Session.SessionRun, SessionEvents, Feed;
    CuttingIrrelevant(chunks, env);
    CuttingIrrelevant(chunks', env);
    var events := StreamEvents(Concat(chunks), 0, env);
    RunDetermined(cfg, addr, asn, s, events, a, b);
    Session.SessionKeepsInvariant(cfg, addr, asn, s, events, a);
    Session.SessionKeepsInvariant(cfg, addr, asn, s, events, b);
    if RibTheorems.NoFullTies(a.core.adjIn) {
      RibTheorems.LocDetermined(a, b, k);
    }
  }
}
