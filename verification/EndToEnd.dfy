/**
 Whole sessions, from a new driver to what is published: the handshake with any acceptable
 peer completes in a bounded number of polls, and publishing filters by what the peer asked.
 */
module EndToEnd {
  import opened Wrappers
  import opened Bytes
  import opened ConnSpec
  import opened DriverSpec
  import opened ByteMachine
  import opened Polls
  import opened Established
  import opened Transcripts
  import FrameSpec
  import Greetings
  import NullMechanism
  import PlainMechanism
  import SubTable

  // ----- the handshake with an acceptable peer -----

  /** A READY this endpoint takes: a short command naming a fitting socket type. */
  ghost predicate AcceptableReady(cfg: Config, f: FrameSpec.Frame) {
    && f.isCommand && !f.more && |f.body| <= 255 && |f.body| <= cfg.frameCap
    && NullMechanism.GoodReady(cfg.role, f.body)
  }

  /** A HELLO with credentials that the authenticator accepts. */
  ghost predicate AcceptableHello(cfg: Config, f: FrameSpec.Frame) {
    && f.isCommand && !f.more && |f.body| <= cfg.frameCap
    && exists username, password :: PlainMechanism.Carries(f.body, username, password) && cfg.auth(username, password)
  }

  /** What is acceptable is exactly what the connection takes. */
  lemma TakesReady(cfg: Config, c: Conn, f: FrameSpec.Frame)
    requires FrameSpec.Encodable(f) && |f.body| <= cfg.frameCap
    ensures OnReady(cfg, c, f).1 == None <==> AcceptableReady(cfg, f)
  {
    hide NullMechanism.ReadyFrom, NullMechanism.GoodReady;
    NullMechanism.ReadyFromIsGood(cfg.role, f.isCommand, f.body);
  }

  lemma TakesHello(cfg: Config, c: Conn, f: FrameSpec.Frame)
    requires FrameSpec.Encodable(f) && |f.body| <= cfg.frameCap
    ensures OnHello(cfg, c, f).1 == None <==> AcceptableHello(cfg, f)
  {
    hide PlainMechanism.HelloFrom, PlainMechanism.Carries;
    PlainMechanism.HelloCarries(f.isCommand, f.body);
    var hello := PlainMechanism.HelloFrom(f.isCommand, f.body);
    if hello.Ok? {
      assert PlainMechanism.Carries(f.body, hello.value.0, hello.value.1);
    }
  }

  datatype Peer = Peer(greeting: bytes, hello: FrameSpec.Frame, ready: FrameSpec.Frame)

  /** All is well up to READY. A RADIO driver exists for NULL only. */
  ghost predicate Begun(cfg: Config, peer: Peer) {
    && |peer.greeting| == 64 && Greetings.ParseGreeting(cfg.mechanism, peer.greeting).Ok?
    && (cfg.mechanism.Plain? ==> AcceptableHello(cfg, peer.hello))
    && (cfg.role.Radio? ==> cfg.mechanism.Null?)
  }

  ghost predicate Acceptable(cfg: Config, peer: Peer) {
    Begun(cfg, peer) && AcceptableReady(cfg, peer.ready)
  }

  function PeerHandshake(cfg: Config, peer: Peer): bytes {
    FirstTurn(cfg, peer) + FrameSpec.Encode(peer.ready)
  }

  function NewConn(): Conn {
    Init().(greetingSent := true)
  }

  /** After the greeting, and for PLAIN after HELLO, with our answers sent. */
  function AnsweredConn(cfg: Config, g: bytes): Conn
    requires |g| == 64
  {
    NewConn().(state := if cfg.mechanism.Null? then Ready else PlainReady, greeting := g, minor := g[11],
               peerGreeting := true, readySent := true,
               welcomeSent := cfg.mechanism.Plain?)
  }

  function EstablishedConn(cfg: Config, g: bytes): Conn
    requires |g| == 64
  {
    AnsweredConn(cfg, g).(state := Established)
  }

  lemma NewConnInv(cfg: Config)
    requires cfg.role.Radio? ==> cfg.mechanism.Null?
    ensures DriverInv(cfg, NewConn())
  {}

  /** After the peer's greeting, and before anything is answered. */
  function GreetedConn(cfg: Config, g: bytes): Conn
    requires |g| == 64
  {
    NewConn().(state := AfterGreeting(cfg.mechanism), greeting := g, minor := g[11], peerGreeting := true)
  }

  lemma GreetingFed(cfg: Config, g: bytes)
    requires |g| == 64 && Greetings.ParseGreeting(cfg.mechanism, g).Ok?
    ensures Feed(cfg, NewConn(), g) == (GreetedConn(cfg, g), Ok(64))
  {
    Greetings.PartialAgrees(cfg.mechanism, g);
    assert [] + g[..64] == g;
  }

  /** An accepted greeting: for NULL our READY answers it, and for PLAIN nothing yet. */
  lemma GreetingPumped(cfg: Config, g: bytes)
    requires |g| == 64 && (cfg.role.Radio? ==> cfg.mechanism.Null?)
    requires Greetings.ParseGreeting(cfg.mechanism, g).Ok?
    ensures var p := Pump(cfg, NewConn(), g);
            if cfg.mechanism.Null? then p == Pumped(AnsweredConn(cfg, g), Answers(cfg), None)
            else p == Pumped(GreetedConn(cfg, g), [], None) && DriverInv(cfg, p.conn)
  {
    hide Pump, Feed;
    NewConnInv(cfg);
    GreetingFed(cfg, g);
    FeedIsPump(cfg, NewConn(), g);
    FeedIsFed(cfg, NewConn(), g);
    assert g[..64] == g;
    assert [] + NullMechanism.ReadyFrame(cfg.role) == NullMechanism.ReadyFrame(cfg.role);
  }

  /** A frame that an open handshake state accepts is one run of the byte machine. */
  lemma FramePumped(cfg: Config, c: Conn, f: FrameSpec.Frame)
    requires DriverInv(cfg, c) && c.dec == FrameSpec.NeedFlags && c.state != Greeting && !Gated(c)
    requires FrameSpec.Encodable(f) && |f.body| <= cfg.frameCap && OnFrame(cfg, c, f).1.None?
    ensures var (c', out) := React(cfg, c.state, OnFrame(cfg, c, f).0);
            Pump(cfg, c, FrameSpec.Encode(f)) == Pumped(c', out, None)
  {
    hide Pump, OnFrame, FrameSpec.Feed, React, DriverInv;
    var bs := FrameSpec.Encode(f);
    FrameSpec.FeedEncoded(cfg.frameCap, f);
    FeedIsPump(cfg, c, bs);
    assert bs[..|bs|] == bs;
    assert c.(dec := FrameSpec.NeedFlags) == c;
  }

  lemma HelloPumped(cfg: Config, peer: Peer)
    requires Begun(cfg, peer) && cfg.mechanism.Plain?
    ensures Pump(cfg, GreetedConn(cfg, peer.greeting), FrameSpec.Encode(peer.hello)) ==
            Pumped(AnsweredConn(cfg, peer.greeting), Answers(cfg), None)
  {
    hide Pump, Feed, PlainMechanism.HelloFrom, PlainMechanism.Carries;
    GreetingPumped(cfg, peer.greeting);
    TakesHello(cfg, GreetedConn(cfg, peer.greeting), peer.hello);
    FramePumped(cfg, GreetedConn(cfg, peer.greeting), peer.hello);
  }

  /** The peer's part of the handshake up to our answers. */
  function FirstTurn(cfg: Config, peer: Peer): bytes {
    peer.greeting + if cfg.mechanism.Plain? then FrameSpec.Encode(peer.hello) else []
  }

  lemma AnsweredPumped(cfg: Config, peer: Peer)
    requires Begun(cfg, peer)
    ensures Pump(cfg, NewConn(), FirstTurn(cfg, peer)) == Pumped(AnsweredConn(cfg, peer.greeting), Answers(cfg), None)
  {
    hide Pump, Answers, AnsweredConn, Feed;
    GreetingPumped(cfg, peer.greeting);
    if cfg.mechanism.Plain? {
      HelloPumped(cfg, peer);
      PumpAppend(cfg, NewConn(), peer.greeting, FrameSpec.Encode(peer.hello));
      assert [] + Answers(cfg) == Answers(cfg);
    } else {
      assert peer.greeting + [] == peer.greeting;
    }
  }

  lemma AnsweredInv(cfg: Config, peer: Peer)
    requires Begun(cfg, peer)
    ensures DriverInv(cfg, AnsweredConn(cfg, peer.greeting)) && DriverInv(cfg, EstablishedConn(cfg, peer.greeting))
  {}

  lemma ReadyPumped(cfg: Config, peer: Peer)
    requires Acceptable(cfg, peer)
    ensures Pump(cfg, AnsweredConn(cfg, peer.greeting), FrameSpec.Encode(peer.ready)) ==
            Pumped(EstablishedConn(cfg, peer.greeting), [], None)
  {
    hide Pump, NullMechanism.ReadyFrom, NullMechanism.GoodReady, OpOf, TableAfter, Greetings.ParseGreeting, DriverInv;
    AnsweredInv(cfg, peer);
    TakesReady(cfg, AnsweredConn(cfg, peer.greeting), peer.ready);
    FramePumped(cfg, AnsweredConn(cfg, peer.greeting), peer.ready);
  }

  /** With an acceptable peer the byte machine is established, and our part of the handshake is sent. */
  lemma HandshakePumped(cfg: Config, peer: Peer)
    requires Acceptable(cfg, peer)
    ensures Pump(cfg, NewConn(), PeerHandshake(cfg, peer)) ==
            Pumped(EstablishedConn(cfg, peer.greeting), Answers(cfg), None)
    ensures DriverInv(cfg, EstablishedConn(cfg, peer.greeting))
  {
    AnsweredInv(cfg, peer);
    hide Pump, Answers, DriverInv, FirstTurn, Begun, AnsweredConn, EstablishedConn, FrameSpec.Encode;
    AnsweredPumped(cfg, peer);
    ReadyPumped(cfg, peer);
    PumpAppend(cfg, NewConn(), FirstTurn(cfg, peer), FrameSpec.Encode(peer.ready));
    assert Answers(cfg) + [] == Answers(cfg);
  }

  /** A wrong signature or major version is refused as soon as the 11th byte is there. */
  lemma EarlyRefusal(cfg: Config, g: bytes, rest: bytes)
    requires |g| == 11 && (cfg.role.Radio? ==> cfg.mechanism.Null?)
    ensures Pump(cfg, NewConn(), g).error ==
            (if Greetings.ParsePartial(g).Err? then Some(GreetingError(Greetings.ParsePartial(g).error)) else None)
    ensures Greetings.ParsePartial(g).Err? ==> Pump(cfg, NewConn(), g + rest).error == Pump(cfg, NewConn(), g).error
  {
    NewConnInv(cfg);
    assert [] + g[..11] == g && g[..11] == g;
    hide Pump, Greetings.ParsePartial;
    FeedIsPump(cfg, NewConn(), g);
    PumpAppend(cfg, NewConn(), g, rest);
  }

  // ----- whole runs from a new driver -----

  lemma StartIs(cfg: Config, script: seq<ReadEvent>)
    requires cfg.role.Radio? ==> cfg.mechanism.Null?
    ensures Start(cfg, script) == Drv(NewConn(), Net(script, [], Greetings.OwnGreeting(cfg.mechanism)), [])
    ensures Steady(cfg, Start(cfg, script)) && Stream(Start(cfg, script)) == Incoming(script)
  {
    NewConnInv(cfg);
    assert [] + Greetings.OwnGreeting(cfg.mechanism) == Greetings.OwnGreeting(cfg.mechanism);
    assert [] + Incoming(script) == Incoming(script);
  }

  /**
   Handshake and then any bytes at all: the run ends established, with exactly the frames in
   those bytes applied, one PONG for each PING, and the first decode error, if there is one.
   */
  lemma SessionMeaning(cfg: Config, script: seq<ReadEvent>, peer: Peer, tail: bytes)
    requires Acceptable(cfg, peer) && Incoming(script) == PeerHandshake(cfg, peer) + tail
    ensures Steady(cfg, Start(cfg, script)) && Start(cfg, script).net.writeScript == []
    ensures var (d, rs) := PollAll(cfg, Start(cfg, script));
            var decoded := FrameSpec.Decode(cfg.frameCap, FrameSpec.NeedFlags, tail);
            var p := Applied(cfg, EstablishedConn(cfg, peer.greeting), decoded);
            && Verdict(rs) == p.error && d.conn == p.conn.(greeting := d.conn.greeting)
            && d.net.sent == Greetings.OwnGreeting(cfg.mechanism) + Answers(cfg) + p.sent
  {
    hide Pump, PollAll, Verdict, DriverInv, Applied, FrameSpec.Decode, PeerHandshake, Answers, Incoming;
    StartIs(cfg, script);
    RunMeaning(cfg, Start(cfg, script));
    HandshakePumped(cfg, peer);
    PumpAppend(cfg, NewConn(), PeerHandshake(cfg, peer), tail);
    EstablishedMeaning(cfg, EstablishedConn(cfg, peer.greeting), tail);
    var decoded := FrameSpec.Decode(cfg.frameCap, FrameSpec.NeedFlags, tail);
    var p := Applied(cfg, EstablishedConn(cfg, peer.greeting), decoded);
    var own := Greetings.OwnGreeting(cfg.mechanism);
    assert own + (Answers(cfg) + p.sent) == own + Answers(cfg) + p.sent;
  }

  /**
   One PONG for each PING, in order: whatever bytes follow the handshake, and however they are
   cut, the answer to the `i`-th frame in them, a PING, is written right after the answers to
   the PINGs before it, and before those after it.
   */
  lemma PongForEachPing(cfg: Config, script: seq<ReadEvent>, peer: Peer, tail: bytes, i: nat)
    requires Acceptable(cfg, peer) && Incoming(script) == PeerHandshake(cfg, peer) + tail
    requires var fs := FrameSpec.Decode(cfg.frameCap, FrameSpec.NeedFlags, tail).frames;
             i < |fs| && OpOf(cfg.role, peer.greeting[11], fs[i]).Ping?
    ensures Steady(cfg, Start(cfg, script)) && Start(cfg, script).net.writeScript == []
    ensures var fs := FrameSpec.Decode(cfg.frameCap, FrameSpec.NeedFlags, tail).frames;
            var minor := peer.greeting[11];
            PollAll(cfg, Start(cfg, script)).0.net.sent ==
            Greetings.OwnGreeting(cfg.mechanism) + Answers(cfg)
            + Pongs(Pings(Ops(cfg.role, minor, fs[..i])))
            + PongFrame(OpOf(cfg.role, minor, fs[i]).context)
            + Pongs(Pings(Ops(cfg.role, minor, fs[i + 1..])))
  {
    assert |peer.greeting| == 64 && EstablishedConn(cfg, peer.greeting).minor == peer.greeting[11];
    hide PollAll, Verdict, DriverInv, FrameSpec.Decode, PeerHandshake, Answers, Incoming, Start, OpOf, TableAfterAll,
         Pings, Pongs, Ops, PongFrame, Greetings.OwnGreeting, Acceptable, EstablishedConn;
    SessionMeaning(cfg, script, peer, tail);
    var fs, minor := FrameSpec.Decode(cfg.frameCap, FrameSpec.NeedFlags, tail).frames, peer.greeting[11];
    PongsSplit(cfg.role, minor, fs, i);
    Reassociate(Greetings.OwnGreeting(cfg.mechanism) + Answers(cfg), Pongs(Pings(Ops(cfg.role, minor, fs[..i]))),
                PongFrame(OpOf(cfg.role, minor, fs[i]).context), Pongs(Pings(Ops(cfg.role, minor, fs[i + 1..]))));
  }

  lemma Reassociate(a: bytes, b: bytes, c: bytes, d: bytes)
    ensures a + (b + c + d) == a + b + c + d
  {}

  /** A handshake delivered in `k` non-empty reads is reported done by the last of at most `k + 1` polls. */
  lemma BoundedHandshake(cfg: Config, script: seq<ReadEvent>, peer: Peer)
    requires Acceptable(cfg, peer) && Incoming(script) == PeerHandshake(cfg, peer)
    requires AllData(script) && Fits(script)
    ensures Steady(cfg, Start(cfg, script)) && Start(cfg, script).net.writeScript == []
    ensures var (d, rs) := PollAll(cfg, Start(cfg, script));
            && 0 < |rs| <= |script| + 1 && rs[|rs| - 1] == Ok(true)
            && d.conn == EstablishedConn(cfg, peer.greeting)
            && d.net.sent == Greetings.OwnGreeting(cfg.mechanism) + Answers(cfg)
  {
    hide Pump, PollAll, DriverInv, PeerHandshake, Answers, Incoming, Start, AnsweredConn, Greetings.OwnGreeting;
    StartIs(cfg, script);
    RunMeaning(cfg, Start(cfg, script));
    HandshakePumped(cfg, peer);
    PollAllCounts(cfg, Start(cfg, script));
    PeerHandshakeSize(cfg, peer);
    PollAllReports(cfg, Start(cfg, script));
  }

  lemma PeerHandshakeSize(cfg: Config, peer: Peer)
    requires Acceptable(cfg, peer)
    ensures |PeerHandshake(cfg, peer)| > 64
  {}

  ghost predicate AllFramesFit(cfg: Config, fs: seq<FrameSpec.Frame>) {
    forall f :: f in fs ==> FrameSpec.Encodable(f) && |f.body| <= cfg.frameCap
  }

  /** The same, for a list of whole frames after the handshake. */
  lemma SessionOfFrames(cfg: Config, script: seq<ReadEvent>, peer: Peer, fs: seq<FrameSpec.Frame>)
    requires Acceptable(cfg, peer) && AllFramesFit(cfg, fs)
    requires Incoming(script) == PeerHandshake(cfg, peer) + FrameSpec.EncodeAll(fs)
    ensures Steady(cfg, Start(cfg, script)) && Start(cfg, script).net.writeScript == []
    ensures var (d, rs) := PollAll(cfg, Start(cfg, script));
            var ops := Ops(cfg.role, peer.greeting[11], fs);
            && Verdict(rs) == None && d.conn.state == Established
            && d.conn.table == TableAfterAll(cfg, [], ops)
            && d.net.sent == Greetings.OwnGreeting(cfg.mechanism) + Answers(cfg) + Pongs(Pings(ops))
  {
    hide PollAll, Verdict, DriverInv, PeerHandshake, Answers, Incoming, Start;
    SessionMeaning(cfg, script, peer, FrameSpec.EncodeAll(fs));
    FrameSpec.FrameListRoundTrip(cfg.frameCap, fs);
  }

  /**
   Publish filtering, end to end. After any session of whole frames, however it was cut, a PUB
   driver publishes a topic exactly when some prefix of it is in the bag that the peer's
   requests filled; within the capacities, that is when some prefix of it was subscribed more
   often than cancelled ...
   */
  lemma PublishFiltering(cfg: Config, script: seq<ReadEvent>, peer: Peer, fs: seq<FrameSpec.Frame>,
                         topic: bytes, payload: bytes)
    requires cfg.role.Pub? && Acceptable(cfg, peer) && AllFramesFit(cfg, fs)
    requires Incoming(script) == PeerHandshake(cfg, peer) + FrameSpec.EncodeAll(fs)
    ensures Steady(cfg, Start(cfg, script)) && Start(cfg, script).net.writeScript == []
    ensures var headers := PublishHeaders(cfg, PollAll(cfg, Start(cfg, script)).0.conn, topic, payload);
            var ops := Ops(cfg.role, peer.greeting[11], fs);
            && headers.Ok?
            && (headers.value.Some? <==>
                  exists k :: 0 <= k <= |topic| && BagAfterAll(cfg, multiset{}, ops)[topic[..k]] > 0)
            && (NoneRefused(cfg, [], ops) ==>
                  (headers.value.Some? <==> exists k :: 0 <= k <= |topic| && Balance(ops, topic[..k]) > 0))
  {
    hide PollAll, Start, DriverInv, PeerHandshake, Incoming, SubTable.Matches, NoneRefused, TableAfterAll, Balance,
         BagAfterAll;
    SessionOfFrames(cfg, script, peer, fs);
    var ops := Ops(cfg.role, peer.greeting[11], fs);
    MatchesByBag(cfg, ops, topic);
    if NoneRefused(cfg, [], ops) {
      MatchesByBalance(cfg, ops, topic);
    }
  }

  /**
   ... and a RADIO driver publishes to a group exactly when it is in the set that the peer's
   requests filled; within the capacities, when it was joined and not left since.
   */
  lemma GroupFiltering(cfg: Config, script: seq<ReadEvent>, peer: Peer, fs: seq<FrameSpec.Frame>,
                       group: bytes, body: bytes)
    requires cfg.role.Radio? && Acceptable(cfg, peer) && AllFramesFit(cfg, fs)
    requires Incoming(script) == PeerHandshake(cfg, peer) + FrameSpec.EncodeAll(fs)
    ensures Steady(cfg, Start(cfg, script)) && Start(cfg, script).net.writeScript == []
    ensures var headers := PublishHeaders(cfg, PollAll(cfg, Start(cfg, script)).0.conn, group, body);
            var ops := Ops(cfg.role, peer.greeting[11], fs);
            && headers.Ok? && (headers.value.Some? <==> group in SetAfterAll(cfg, {}, ops))
            && (NoneRefused(cfg, [], ops) ==> (headers.value.Some? <==> JoinedSince(ops, group)))
  {
    hide PollAll, Start, DriverInv, PeerHandshake, Incoming, NoneRefused, TableAfterAll, JoinedSince, SetAfterAll;
    SessionOfFrames(cfg, script, peer, fs);
    var ops := Ops(cfg.role, peer.greeting[11], fs);
    MatchesBySet(cfg, ops, group);
    if NoneRefused(cfg, [], ops) {
      MatchesByMembership(cfg, ops, group);
    }
  }
}
