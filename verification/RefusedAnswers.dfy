/**
 What a driver comes to when the transport refuses its WELCOME or its READY: the peer's
 handshake is read again, from wherever the buffer happens to start.
 */
module RefusedAnswers {
  import opened Wrappers
  import opened Bytes
  import opened ConnSpec
  import opened DriverSpec
  import opened ByteMachine
  import opened Polls
  import opened Established
  import opened Transcripts
  import opened EndToEnd
  import opened AnyPeer
  import opened RefusedWrites
  import FrameSpec
  import Greetings
  import NullMechanism
  import PlainMechanism

  // ----- READY refused: exactly what follows -----

  /** In this poll our answers fell due, and READY was refused. */
  ghost predicate ReadyRefused(cfg: Config, d: Drv)
    requires Steady(cfg, d)
  {
    var (d1, r1) := Poll(cfg, d);
    && Fetched(d).rx != [] && Starting(d.conn.state)
    && r1.Err? && r1.error.IoError?
    && (d1.conn.state == Ready || d1.conn.state == PlainReady) && d1.conn.readySent
  }

  /** A connection between frames that awaits READY, and how a new driver came to be that. */
  lemma AnsweredIs(cfg: Config, bs: bytes)
    requires cfg.role.Radio? ==> cfg.mechanism.Null?
    requires var p := Pump(cfg, NewConn(), bs);
             && p.error == None && (p.conn.state == Ready || p.conn.state == PlainReady)
             && p.conn.dec == FrameSpec.NeedFlags
    ensures |bs| >= 64 && Greetings.ParseGreeting(cfg.mechanism, bs[..64]).Ok?
    ensures Pump(cfg, NewConn(), bs).conn == AnsweredConn(cfg, bs[..64])
  {
    hide Pump, FrameSpec.Decode, OnReady, OnHello, Greetings.ParseGreeting, Greetings.ParsePartial, TableAfterAll, Ops;
    EveryPeer(cfg, bs);
    if |bs| >= 64 && GreetingFault(cfg, bs).None? {
      var g, d := bs[..64], FrameSpec.Decode(cfg.frameCap, FrameSpec.NeedFlags, bs[64..]);
      if d.frames != [] {
        FrameErrors(cfg, GreetedConn(cfg, g), AnsweredConn(cfg, g), d.frames[0]);
        if |d.frames| > 1 {
          FrameErrors(cfg, GreetedConn(cfg, g), AnsweredConn(cfg, g), d.frames[1]);
        }
      }
    }
  }

  /** What a refused drain leaves, once it has been pumped. */
  lemma AnsweredAfter(cfg: Config, c: Conn, a: bytes, seen: bytes, c1: Conn)
    requires DriverInv(cfg, c)
    requires var p := Pump(cfg, NewConn(), seen); p.error == None && p.conn == c
    requires var p := Pump(cfg, c, a);
             p.error == None && AsIfSent(p.conn, c1) && c1.dec == FrameSpec.NeedFlags
    requires (c1.state == Ready || c1.state == PlainReady) && c1.readySent
    ensures var all := seen + a;
            && |all| >= 64 && Greetings.ParseGreeting(cfg.mechanism, all[..64]).Ok?
            && c1 == AnsweredConn(cfg, all[..64])
  {
    assert cfg.role.Radio? ==> cfg.mechanism.Null?;
    var p := Pump(cfg, c, a);
    AsIfSentWhole(p.conn, c1);
    hide Pump, DriverInv, Greetings.ParseGreeting, AsIfSent, NewConn;
    PumpAppend(cfg, NewConn(), seen, a);
    AnsweredIs(cfg, seen + a);
    assert p.conn.readySent;
  }

  lemma RefusedDrainLeaves(cfg: Config, c: Conn, net: Net, rx: bytes, seen: bytes)
    requires DriverInv(cfg, c)
    requires var p := Pump(cfg, NewConn(), seen); p.error == None && p.conn == c
    requires var (c1, _, r) := DrainLoop(cfg, c, net, rx);
             r.Err? && r.error.IoError? && (c1.state == Ready || c1.state == PlainReady) && c1.readySent
    ensures var all := seen + rx;
            && |all| >= 64 && Greetings.ParseGreeting(cfg.mechanism, all[..64]).Ok?
            && DrainLoop(cfg, c, net, rx).0 == AnsweredConn(cfg, all[..64])
  {
    hide Pump, DrainLoop, Consumed, DriverInv, Greetings.ParseGreeting, AnsweredConn, AsIfSent, CameOut;
    DrainComesOut(cfg, c, net, rx);
    var k := Consumed(cfg, c, net, rx);
    CameOutRefused(cfg, c, net, rx, k, DrainLoop(cfg, c, net, rx));
    AnsweredAfter(cfg, c, rx[..k], seen, DrainLoop(cfg, c, net, rx).0);
    assert (seen + rx[..k])[..64] == (seen + rx)[..64];
  }

  lemma CameOutRefused(cfg: Config, c: Conn, net: Net, input: bytes, k: nat, r: (Conn, Net, Result<bytes, ConnError>))
    requires WF(cfg, c) && k <= |input| && CameOut(cfg, c, net, input, k, r) && r.2.Err? && r.2.error.IoError?
    ensures var p := Pump(cfg, c, input[..k]);
            p.error == None && AsIfSent(p.conn, r.0) && r.0.dec == FrameSpec.NeedFlags
  {
    hide Pump, AsIfSent;
  }

  /** If READY was written, or tried, nothing tells the connection from one whose answers were sent. */
  lemma AsIfSentWhole(accepted: Conn, c: Conn)
    requires AsIfSent(accepted, c) && c.readySent
    ensures c.state == accepted.state && c.dec == accepted.dec && (accepted.readySent ==> c == accepted)
  {}

  /**
   When READY is refused, the connection awaits the peer's READY all the same, over the whole
   of the buffer, wherever in the peer's handshake that starts.
   */
  lemma RefusedReadyLeaves(cfg: Config, d: Drv, seen: bytes)
    requires Steady(cfg, d) && ReadyRefused(cfg, d)
    requires var p := Pump(cfg, NewConn(), seen); p.error == None && p.conn == d.conn
    ensures var d1 := Poll(cfg, d).0;
            var all := seen + Fetched(d).rx;
            && |all| >= 64 && Greetings.ParseGreeting(cfg.mechanism, all[..64]).Ok?
            && d1.conn == AnsweredConn(cfg, all[..64]) && d1.rx == Fetched(d).rx
            && d1.net.readScript == Fetched(d).net.readScript
  {
    hide Poll, Pump, DrainLoop, DriverInv, Greetings.ParseGreeting, Fetched, AnsweredConn;
    PollDrains(cfg, d);
    FetchedConn(d);
    var e := Fetched(d);
    DrainKeepsReads(cfg, e.conn, e.net, e.rx);
    RefusedDrainLeaves(cfg, e.conn, e.net, e.rx, seen);
  }

  lemma FetchedConn(d: Drv)
    ensures Fetched(d).conn == d.conn
  {}

  /**
   What a refused READY leads to, if the transport takes every write from then on: the frames
   decoded from the buffer, and from what is still to be read, decide, and READY is not sent
   again. The driver reports an established connection exactly when those bytes start with a
   READY from the peer, though ours never went out whole.
   */
  lemma RefusedReadyMeaning(cfg: Config, d: Drv, seen: bytes)
    requires Steady(cfg, d) && ReadyRefused(cfg, d)
    requires var p := Pump(cfg, NewConn(), seen); p.error == None && p.conn == d.conn
    ensures Steady(cfg, Poll(cfg, d).0) && |seen + Fetched(d).rx| >= 64
    ensures var d1 := Poll(cfg, d).0;
            var (d2, rs) := PollAll(cfg, Recovered(d1));
            var bs := Fetched(d).rx + Incoming(Fetched(d).net.readScript);
            var c := AnsweredConn(cfg, (seen + Fetched(d).rx)[..64]);
            var p := AfterAnswers(cfg, c, FrameSpec.Decode(cfg.frameCap, FrameSpec.NeedFlags, bs));
            && (d2.conn.state == Established <==> StartsWithReady(cfg, bs))
            && Verdict(rs) == p.error && d2.conn == p.conn && d2.net.sent == d1.net.sent + p.sent
  {
    assert cfg.role.Radio? ==> cfg.mechanism.Null?;
    PollKeepsSteady(cfg, d);
    RefusedReadyLeaves(cfg, d, seen);
    var d1 := Poll(cfg, d).0;
    var g := (seen + Fetched(d).rx)[..64];
    AwaitingAfterGreeting(cfg, g);
    hide Poll, PollAll, Pump, DriverInv, Greetings.ParseGreeting, Fetched, AnsweredConn, ReadyRefused, Incoming,
         AfterAnswers, FrameSpec.Decode, StartsWithReady, Awaiting, Verdict;
    AwaitingRun(cfg, g, Recovered(d1));
  }

  /** Any driver that awaits READY, to the end of what it will read. */
  lemma AwaitingRun(cfg: Config, g: bytes, d: Drv)
    requires |g| == 64 && Awaiting(cfg, AnsweredConn(cfg, g)) && d.conn == AnsweredConn(cfg, g)
    requires Steady(cfg, d) && d.net.writeScript == []
    ensures var (d', rs) := PollAll(cfg, d);
            var p := AfterAnswers(cfg, d.conn, FrameSpec.Decode(cfg.frameCap, FrameSpec.NeedFlags, Stream(d)));
            && (d'.conn.state == Established <==> StartsWithReady(cfg, Stream(d)))
            && Verdict(rs) == p.error && d'.conn == p.conn && d'.net.sent == d.net.sent + p.sent
  {
    NotGreeting(cfg, g);
    hide PollAll, Pump, DriverInv, AnsweredConn, Stream, AfterAnswers, FrameSpec.Decode, StartsWithReady, Awaiting,
         Verdict;
    RunMeaning(cfg, d);
    ReadyMeaning(cfg, g, Stream(d));
    ReadyExactly(cfg, g, Stream(d));
  }

  lemma NotGreeting(cfg: Config, g: bytes)
    requires |g| == 64
    ensures AnsweredConn(cfg, g).state != State.Greeting
  {}

  // ----- READY refused: when, and two ends -----

  /** What a new driver has read of a greeting that will be accepted. */
  lemma SeenGreeting(cfg: Config, g: bytes, k: nat)
    requires |g| == 64 && Greetings.ParseGreeting(cfg.mechanism, g).Ok? && k < 64 && cfg.mechanism.Null?
    ensures Pump(cfg, NewConn(), g[..k]) == Pumped(NewConn().(greeting := g[..k]), [], None)
    ensures DriverInv(cfg, NewConn().(greeting := g[..k]))
    ensures k > 0 ==> Feed(cfg, NewConn(), g[..k]) == (NewConn().(greeting := g[..k]), Ok(k))
  {
    NewConnInv(cfg);
    hide Pump, Greetings.ParseGreeting, Greetings.ParsePartial;
    Greetings.PartialAgrees(cfg.mechanism, g);
    assert k >= 11 ==> g[..k][..11] == g[..11];
    assert g[..k][..k] == g[..k];
    EveryPeer(cfg, g[..k]);
    if k > 0 {
      GreetingFaultFed(cfg, g[..k]);
    }
    PumpInv(cfg, NewConn(), g[..k]);
  }

  /** The call that completes it. */
  lemma GreetingCompleted(cfg: Config, g: bytes, k: nat, more: bytes)
    requires |g| == 64 && Greetings.ParseGreeting(cfg.mechanism, g).Ok? && k < 64
    ensures Feed(cfg, NewConn().(greeting := g[..k]), g[k..] + more) == (GreetedConn(cfg, g), Ok(64 - k))
  {
    Greetings.PartialAgrees(cfg.mechanism, g);
    assert Greetings.ParseGreeting(cfg.mechanism, g).value == g[11];
    hide Greetings.ParseGreeting, Greetings.ParsePartial;
    assert (g[k..] + more)[..64 - k] == g[k..] && g[..k] + g[k..] == g;
  }

  /** The drain that completes the greeting, and cannot answer it. */
  lemma CompletedDrain(cfg: Config, net: Net, g: bytes, k: nat, more: bytes)
    requires cfg.mechanism.Null? && |g| == 64 && Greetings.ParseGreeting(cfg.mechanism, g).Ok? && k < 64
    requires Send(net, NullMechanism.ReadyFrame(cfg.role)).1.Some?
    ensures var (net', e) := Send(net, NullMechanism.ReadyFrame(cfg.role));
            DrainLoop(cfg, NewConn().(greeting := g[..k]), net, g[k..] + more) ==
            (AnsweredConn(cfg, g), net', Err(e.value))
  {
    hide Feed, NullMechanism.ReadyFrame, Send, Greetings.ParseGreeting;
    GreetingCompleted(cfg, g, k, more);
    assert WF(cfg, NewConn().(greeting := g[..k])) && WF(cfg, GreetedConn(cfg, g));
    DrainOf(cfg, NewConn().(greeting := g[..k]), net, g[k..] + more, GreetedConn(cfg, g), 64 - k);
  }

  /** The poll that completes an accepted greeting, over a transport that refuses our READY, for any cut. */
  lemma RefusedWhenDue(cfg: Config, g: bytes, k: nat, more: bytes, d: Drv)
    requires cfg.mechanism.Null? && |g| == 64 && Greetings.ParseGreeting(cfg.mechanism, g).Ok? && k < 64
    requires d.conn == NewConn().(greeting := g[..k]) && |d.rx| <= RX_SIZE
    requires Fetched(d).rx == g[k..] + more
    requires Send(Fetched(d).net, NullMechanism.ReadyFrame(cfg.role)).1.Some?
    ensures Steady(cfg, d) && ReadyRefused(cfg, d)
    ensures var (net', e) := Send(Fetched(d).net, NullMechanism.ReadyFrame(cfg.role));
            Poll(cfg, d) == (Drv(AnsweredConn(cfg, g), net', Fetched(d).rx), Err(e.value))
  {
    hide Feed, Poll, NullMechanism.ReadyFrame, Send, Greetings.ParseGreeting, DrainLoop, Fetched, DriverInv, Pump;
    SeenGreeting(cfg, g, k);
    SendOnAnyNet(Fetched(d).net, NullMechanism.ReadyFrame(cfg.role));
    FetchedConn(d);
    PollDrains(cfg, d);
    CompletedDrain(cfg, Fetched(d).net, g, k, more);
  }

  /** One end: with the whole greeting in the buffer, its first byte is no frame's, and the next poll fails. */
  lemma RefusedReadyIsFatal(cfg: Config, net: Net, rx: bytes)
    requires cfg.mechanism.Null? && 64 <= |rx| <= RX_SIZE
    requires Greetings.ParseGreeting(cfg.mechanism, rx[..64]).Ok?
    requires Send(net, NullMechanism.ReadyFrame(cfg.role)).1.Some?
    ensures var (d1, r1) := Poll(cfg, Drv(NewConn(), net, rx));
            && r1.Err? && r1.error.IoError? && d1.rx == rx && d1.conn.state == Ready && d1.conn.readySent
            && Poll(cfg, d1).1 == Err(DecodeError(FrameSpec.ReservedFlagBits))
  {
    var g, d := rx[..64], Drv(NewConn(), net, rx);
    Greetings.PartialAgrees(cfg.mechanism, g);
    assert g[..11][0] == rx[0] == 0xFF;
    assert g[..0] == [] && g[0..] + rx[64..] == rx;
    SendOnAnyNet(net, NullMechanism.ReadyFrame(cfg.role));
    hide Feed, Poll, PollAsync, NullMechanism.ReadyFrame, DriverInv, Send, Reply, SendError, Greetings.ParseGreeting;
    RefusedWhenDue(cfg, g, 0, rx[64..], d);
    PollKeepsSteady(cfg, d);
    var d1 := Poll(cfg, d).0;
    PollsAgree(cfg, d1);
    NotAFrame(cfg, d1.conn, rx);
  }

  lemma NotAFrame(cfg: Config, c: Conn, bs: bytes)
    requires WF(cfg, c) && c.state == Ready && c.readySent && c.dec == FrameSpec.NeedFlags && bs != [] && bs[0] == 0xFF
    ensures Feed(cfg, c, bs) == (c.(dec := FrameSpec.Poisoned), Err(DecodeError(FrameSpec.ReservedFlagBits)))
  {}

  /** A greeting whose last bytes, which no check looks at, are those of a READY. */
  function GreetingThatEnds(minor: byte, ready: bytes): (g: bytes)
    requires |ready| <= 31
    ensures |g| == 64 && g[64 - |ready|..] == ready
  {
    Greetings.Layout(Greetings.Zeros(8), minor, Greetings.Null, 0, Greetings.Zeros(31 - |ready|) + ready)
  }

  /** It is acceptable, whatever those bytes are. */
  lemma EndsAcceptably(minor: byte, ready: bytes)
    requires |ready| <= 31
    ensures Greetings.ParseGreeting(Greetings.Null, GreetingThatEnds(minor, ready)) == Ok(minor)
  {
    var g := GreetingThatEnds(minor, ready);
    var filler := Greetings.Zeros(31 - |ready|) + ready;
    assert g[1..9] == Greetings.Zeros(8) && g[33..] == filler;
    Greetings.GreetingExactness(Greetings.Null, g, minor);
  }

  /** The shortest READY of a peer that this endpoint takes. */
  function PeerReady(role: NullMechanism.Role): FrameSpec.Frame {
    var peerType := match role case Pub => NullMechanism.SUB case Radio => NullMechanism.DISH;
    var p := NullMechanism.Property(NullMechanism.SOCKET_TYPE, peerType);
    FrameSpec.Frame(false, true, NullMechanism.READY_NAME + NullMechanism.EncodeProperty(p))
  }

  lemma PeerReadyIsTaken(cfg: Config)
    requires cfg.frameCap >= 26
    ensures AcceptableReady(cfg, PeerReady(cfg.role)) && |FrameSpec.Encode(PeerReady(cfg.role))| <= 28
  {
    var peerType := match cfg.role case Pub => NullMechanism.SUB case Radio => NullMechanism.DISH;
    var p := NullMechanism.Property(NullMechanism.SOCKET_TYPE, peerType);
    var body := PeerReady(cfg.role).body;
    assert body[6..] == NullMechanism.EncodeProperty(p);
    assert NullMechanism.EncodeProperties([]) + NullMechanism.EncodeProperty(p) == NullMechanism.EncodeProperty(p);
    assert NullMechanism.Gives(body[6..], peerType, [], p);
    assert NullMechanism.GivesSocketType(body[6..], peerType);
    assert NullMechanism.Names(cfg.role, peerType, if cfg.role.Pub? then NullMechanism.Sub else NullMechanism.Dish);
  }

  /** Three polls: not there yet; READY refused, so that at most `n` bytes of it are sent; established. */
  ghost predicate MistakenInThree(cfg: Config, d: Drv, g: bytes, code: nat, n: nat)
    requires WF(cfg, d.conn) && d.rx == [] && |g| == 64
  {
    hide Poll;
    var (d1, r1) := Poll(cfg, d);
    var (d2, r2) := Poll(cfg, d1);
    var (d3, r3) := Poll(cfg, d2);
    var ready := NullMechanism.ReadyFrame(cfg.role);
    && r1 == Ok(false) && r2 == Err(IoError(code)) && r3 == Ok(true)
    && d3.conn == EstablishedConn(cfg, g) && d3.rx == []
    && d3.net.sent == Greetings.OwnGreeting(cfg.mechanism) + ready[..Min(n, |ready|)]
  }

  /**
   The other end: a greeting that ends in the bytes of a READY, cut in two right before them.
   Our READY is refused, and the next poll takes the end of the greeting for the peer's READY
   and reports an established connection.
   */
  lemma EstablishedWithoutReady(cfg: Config, minor: byte, f: FrameSpec.Frame, code: nat, n: nat)
    requires cfg.mechanism.Null? && AcceptableReady(cfg, f) && |FrameSpec.Encode(f)| <= 31
    ensures var ready := FrameSpec.Encode(f);
            var g := GreetingThatEnds(minor, ready);
            var script := [Data(g[..64 - |ready|]), Data(ready)];
            var d := NewDriver(cfg, Net(script, [Accepts, Refuses(code, n)], [])).0;
            MistakenInThree(cfg, d, g, code, n)
  {
    var ready := FrameSpec.Encode(f);
    var g, k := GreetingThatEnds(minor, ready), 64 - |ready|;
    var own := Greetings.OwnGreeting(cfg.mechanism);
    hide Poll, DriverInv, NewDriver, FrameSpec.Encode, Greetings.ParseGreeting, GreetingThatEnds,
         NullMechanism.ReadyFrame, Greetings.OwnGreeting, AnsweredConn, EstablishedConn, AcceptableReady, Fetched;
    EndsAcceptably(minor, ready);
    NewlyRefusing(cfg, [Data(g[..k]), Data(ready)], code, n);
    var net1 := Net([Data(ready)], [Refuses(code, n)], own);
    GreetingStarted(cfg, g, k, Net([Data(g[..k]), Data(ready)], [Refuses(code, n)], own), [Data(ready)]);
    ReadyUnsent(cfg, g, k, net1, code, n);
    var net2 := Net([], [], own + NullMechanism.ReadyFrame(cfg.role)[..Min(n, |NullMechanism.ReadyFrame(cfg.role)|)]);
    ReadyMistaken(cfg, g, f, net2);
  }

  lemma NewlyRefusing(cfg: Config, script: seq<ReadEvent>, code: nat, n: nat)
    ensures NewDriver(cfg, Net(script, [Accepts, Refuses(code, n)], [])).0 ==
            Drv(NewConn(), Net(script, [Refuses(code, n)], Greetings.OwnGreeting(cfg.mechanism)), [])
  {
    hide Greetings.OwnGreeting;
    assert [Accepts, Refuses(code, n)][1..] == [Refuses(code, n)];
    assert [] + Greetings.OwnGreeting(cfg.mechanism) == Greetings.OwnGreeting(cfg.mechanism);
  }

  lemma GreetingStarted(cfg: Config, g: bytes, k: nat, net: Net, rest: seq<ReadEvent>)
    requires cfg.mechanism.Null? && |g| == 64 && Greetings.ParseGreeting(cfg.mechanism, g).Ok? && 0 < k < 64
    requires net.readScript == [Data(g[..k])] + rest
    ensures var d1 := Drv(NewConn().(greeting := g[..k]), net.(readScript := rest), []);
            Poll(cfg, Drv(NewConn(), net, [])) == (d1, Ok(false)) && Steady(cfg, d1)
  {
    NewConnInv(cfg);
    SeenGreeting(cfg, g, k);
    var c1 := NewConn().(greeting := g[..k]);
    assert WF(cfg, c1) && WF(cfg, NewConn());
    var net1 := net.(readScript := rest);
    assert Reply(cfg, State.Greeting, c1, net1) == (c1, net1, Ok(false));
    hide Poll, Feed, DriverInv, Reply, DrainLoop, WF, Greetings.ParseGreeting;
    PollReads(cfg, Drv(NewConn(), net, []), g[..k], rest);
    DrainWhole(cfg, NewConn(), net1, g[..k], c1);
  }

  lemma ReadyUnsent(cfg: Config, g: bytes, k: nat, net: Net, code: nat, n: nat)
    requires cfg.mechanism.Null? && |g| == 64 && Greetings.ParseGreeting(cfg.mechanism, g).Ok? && k < 64
    requires net.readScript == [Data(g[k..])] && net.writeScript == [Refuses(code, n)]
    ensures var ready := NullMechanism.ReadyFrame(cfg.role);
            Poll(cfg, Drv(NewConn().(greeting := g[..k]), net, [])) ==
            (Drv(AnsweredConn(cfg, g), Net([], [], net.sent + ready[..Min(n, |ready|)]), g[k..]), Err(IoError(code)))
  {
    hide Poll, DriverInv, NullMechanism.ReadyFrame, Greetings.ParseGreeting, AnsweredConn;
    var d := Drv(NewConn().(greeting := g[..k]), net, []);
    assert Fetched(d) == Drv(d.conn, net.(readScript := []), g[k..]) && g[k..] + [] == g[k..];
    RefusedWhenDue(cfg, g, k, [], d);
    assert net.writeScript[1..] == [];
  }

  lemma ReadyMistaken(cfg: Config, g: bytes, f: FrameSpec.Frame, net: Net)
    requires cfg.mechanism.Null? && |g| == 64 && Greetings.ParseGreeting(cfg.mechanism, g).Ok?
    requires AcceptableReady(cfg, f) && |FrameSpec.Encode(f)| <= RX_SIZE
    ensures Poll(cfg, Drv(AnsweredConn(cfg, g), net, FrameSpec.Encode(f))) ==
            (Drv(EstablishedConn(cfg, g), net, []), Ok(true))
  {
    AwaitingAfterGreeting(cfg, g);
    var bs, c, c1 := FrameSpec.Encode(f), AnsweredConn(cfg, g), EstablishedConn(cfg, g);
    assert bs != [] && WF(cfg, c1);
    TakesReady(cfg, c, f);
    assert OnReady(cfg, c, f) == (c1, None) by { hide NullMechanism.ReadyFrom; }
    assert Reply(cfg, Ready, c1, net) == (c1, net, Ok(false));
    hide Poll, Feed, DriverInv, Reply, DrainLoop, FrameSpec.Encode, FrameSpec.Feed, OnReady, Greetings.ParseGreeting;
    FrameSpec.FeedEncoded(cfg.frameCap, f);
    AwaitingFed(cfg, c, bs);
    PollDrains(cfg, Drv(c, net, bs));
    DrainWhole(cfg, c, net, bs, c1);
  }

  // ----- WELCOME refused -----

  /** WELCOME counts as sent and READY does not, but `poll` owes a READY only in `Ready`. */
  ghost predicate Stuck(d: Drv) {
    d.conn.state == PlainReady && !d.conn.readySent && d.rx != []
  }

  /** Such a driver says `WrongState` to every poll, and nothing moves it. */
  lemma {:induction false} StuckForever(cfg: Config, d: Drv, actions: seq<Action>)
    requires Steady(cfg, d) && Stuck(d)
    ensures Poll(cfg, d) == (d, Err(WrongState)) && RunActions(cfg, d, actions) == d
    decreases |actions|
  {
    StuckPoll(cfg, d);
    hide Poll, DriverInv, DriverPublish;
    if actions != [] {
      StuckPublish(cfg, d, actions[0]);
      StuckForever(cfg, d, actions[1..]);
    }
  }

  lemma StuckPoll(cfg: Config, d: Drv)
    requires Steady(cfg, d) && Stuck(d)
    ensures Poll(cfg, d) == (d, Err(WrongState))
  {
    hide Poll, PollAsync;
    PollsAgree(cfg, d);
    assert Feed(cfg, d.conn, d.rx) == (d.conn, Err(WrongState));
  }

  lemma StuckPublish(cfg: Config, d: Drv, a: Action)
    requires Steady(cfg, d) && Stuck(d) && Poll(cfg, d) == (d, Err(WrongState))
    ensures Act(cfg, d, a) == d
  {
    hide Poll, DriverInv;
  }

  /** And every driver whose WELCOME is refused is such a driver, for any cut of the peer's bytes. */
  lemma RefusedWelcomeIsStuck(cfg: Config, d: Drv, actions: seq<Action>)
    requires Steady(cfg, d) && d.conn.state != PlainReady
    requires var (d1, r1) := Poll(cfg, d);
             r1.Err? && r1.error.IoError? && d1.conn.state == PlainReady && !d1.conn.readySent
    ensures var d1 := Poll(cfg, d).0;
            && d1.rx == Fetched(d).rx != [] && Poll(cfg, d1) == (d1, Err(WrongState))
            && RunActions(cfg, d1, actions) == d1
  {
    hide Poll, PollAsync, DrainLoop, DriverInv, RunActions, Feed, Pump, Consumed;
    PollKeepsSteady(cfg, d);
    if Fetched(d).rx == [] {
      PollsAgree(cfg, d);
      assert false;
    }
    PollDrains(cfg, d);
    ConservationExactly(cfg, Fetched(d));
    StuckForever(cfg, Poll(cfg, d).0, actions);
  }

  /** It is refused when HELLO has just been accepted and the transport does not take WELCOME. */
  lemma WelcomeRefusedWhenDue(cfg: Config, d: Drv)
    requires Steady(cfg, d) && d.conn.state == PlainHello && Fetched(d).rx != []
    requires var (c1, fed) := Feed(cfg, d.conn, Fetched(d).rx); fed.Ok? && c1.state == PlainReady
    requires Send(Fetched(d).net, PlainMechanism.WELCOME_FRAME).1.Some?
    ensures var (d1, r1) := Poll(cfg, d);
            r1.Err? && r1.error.IoError? && d1.conn.state == PlainReady && !d1.conn.readySent
  {
    hide Poll, DriverInv, Feed, Send, Fetched;
    PollDrains(cfg, d);
    FetchedConn(d);
    FeedProgress(cfg, d.conn, Fetched(d).rx);
    FeedIsFed(cfg, d.conn, Fetched(d).rx);
    var (c1, fed) := Feed(cfg, d.conn, Fetched(d).rx);
    SendOnAnyNet(Fetched(d).net, PlainMechanism.WELCOME_FRAME);
    WelcomeReply(cfg, c1, Fetched(d).net);
  }

  lemma WelcomeReply(cfg: Config, c: Conn, net: Net)
    requires Fed(cfg, PlainHello, c) && c.state == PlainReady && Send(net, PlainMechanism.WELCOME_FRAME).1.Some?
    ensures var (c', net', r) := Reply(cfg, PlainHello, c, net);
            c'.state == PlainReady && !c'.readySent && r == Err(Send(net, PlainMechanism.WELCOME_FRAME).1.value)
  {
    hide Send;
  }
}
