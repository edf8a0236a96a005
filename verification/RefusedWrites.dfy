/**
 What a refused write does to a drain: the connection has moved past the bytes already
 consumed, but the buffer still holds them, and the next poll feeds them again.
 */
module RefusedWrites {
  import opened Wrappers
  import opened Bytes
  import opened ConnSpec
  import opened Handshake
  import opened DriverSpec
  import opened ByteMachine
  import opened Polls
  import opened Established
  import Entries
  import FrameSpec
  import Greetings
  import NullMechanism
  import PlainMechanism

  /** After a refused reply: what the accepted one leaves, but for a READY that was to follow a refused WELCOME. */
  ghost predicate AsIfSent(accepted: Conn, c: Conn) {
    && c == accepted.(readySent := c.readySent)
    && (accepted.state != PlainReady ==> c == accepted)
  }

  lemma SendOnAnyNet(net: Net, bs: bytes)
    ensures var (net', e) := Send(net, bs);
            && (e.None? ==> net'.sent == net.sent + bs)
            && (e.Some? ==> e.value.IoError? && net'.sent <= net.sent + bs && net.sent <= net'.sent)
  {}

  /** A reply is sent whole, or fails for its transport with only the start of it sent. */
  lemma ReplyOnAnyNet(cfg: Config, prev: State, c: Conn, net: Net)
    requires Fed(cfg, prev, c)
    ensures var (c', net', r) := Reply(cfg, prev, c, net);
            var (accepted, out) := React(cfg, prev, c);
            match r
            case Ok(stop) => c' == accepted && net'.sent == net.sent + out && stop == Turn(prev, c.state)
            case Err(e) =>
              && e.IoError? && AsIfSent(accepted, c') && net'.sent <= net.sent + out
              && (Turn(prev, c.state) || c.pong.Some?)
  {
    hide Send, NullMechanism.ReadyFrame, PongFrame;
    var ready := NullMechanism.ReadyFrame(cfg.role);
    if Turn(prev, c.state) {
      TurnOnAnyNet(cfg, prev, c, net);
    } else if c.pong.Some? {
      SendOnAnyNet(net, PongFrame(c.pong.value));
    } else {
      assert net.sent + [] == net.sent;
    }
  }

  lemma TurnOnAnyNet(cfg: Config, prev: State, c: Conn, net: Net)
    requires Fed(cfg, prev, c) && Turn(prev, c.state)
    ensures var (c', net', r) := Reply(cfg, prev, c, net);
            var (accepted, out) := React(cfg, prev, c);
            match r
            case Ok(stop) => c' == accepted && net'.sent == net.sent + out && stop
            case Err(e) => e.IoError? && AsIfSent(accepted, c') && net'.sent <= net.sent + out
  {
    hide Send, NullMechanism.ReadyFrame, Greetings.ParseGreeting, TableOk;
    var ready := NullMechanism.ReadyFrame(cfg.role);
    SendOnAnyNet(net, ready);
    if c.state == PlainReady {
      var welcome := PlainMechanism.WELCOME_FRAME;
      SendOnAnyNet(net, welcome);
      var net1 := Send(net, welcome).0;
      SendOnAnyNet(net1, ready);
      assert net.sent + welcome + ready == net.sent + (welcome + ready);
      PrefixGrows(net1.sent, net.sent + welcome, ready);
    }
  }

  lemma PrefixGrows(a: bytes, b: bytes, more: bytes)
    ensures a <= b ==> a <= b + more
  {}

  /**
   How a drain of `input` came out on any transport, when `k` bytes were consumed: it went to
   the end of them; or the reply to the last of them was refused; or the bytes after them were.
   */
  ghost predicate CameOut(cfg: Config, c: Conn, net: Net, input: bytes, k: nat,
                          r: (Conn, Net, Result<bytes, ConnError>))
    requires WF(cfg, c) && k <= |input|
  {
    var p := Pump(cfg, c, input[..k]);
    && p.error == None
    && match r.2
       case Ok(rest) => rest == input[k..] && r.0 == p.conn && r.1.sent == net.sent + p.sent
       case Err(e) =>
         if e.IoError? then
           && k > 0 && AsIfSent(p.conn, r.0) && r.1.sent <= net.sent + p.sent
           && r.0.dec == FrameSpec.NeedFlags
         else k < |input| && Feed(cfg, p.conn, input[k..]) == (r.0, Err(e))
  }

  lemma CameOutLater(cfg: Config, c: Conn, net: Net, input: bytes, n: nat, c1: Conn, net1: Net, k: nat,
                     r: (Conn, Net, Result<bytes, ConnError>))
    requires WF(cfg, c) && WF(cfg, c1) && n <= |input| && k <= |input[n..]|
    requires var p := Pump(cfg, c, input[..n]); p == Pumped(c1, p.sent, None) && net1.sent == net.sent + p.sent
    requires CameOut(cfg, c1, net1, input[n..], k, r)
    ensures CameOut(cfg, c, net, input, n + k, r)
  {
    hide Pump, Feed, DriverInv, AsIfSent, WF;
    var a, b := input[..n], input[n..][..k];
    PumpAppend(cfg, c, a, b);
    assert a + b == input[..n + k] && input[n..][k..] == input[n + k..];
    var p, q := Pump(cfg, c, a), Pump(cfg, c1, b);
    assert net.sent + p.sent + q.sent == net.sent + (p.sent + q.sent);
    assert Pump(cfg, c, input[..n + k]) == Pumped(q.conn, p.sent + q.sent, None);
    assert net1.sent + q.sent == net.sent + (p.sent + q.sent);
  }

  /** There is something to write only between frames. */
  lemma AnsweredAtFrameEnd(cfg: Config, c: Conn, input: bytes)
    requires DriverInv(cfg, c)
    ensures var (c1, r) := Feed(cfg, c, input);
            r.Ok? && (Turn(c.state, c1.state) || c1.pong.Some?) ==> c1.dec == FrameSpec.NeedFlags
  {
    hide FrameSpec.Feed, Greetings.ParseGreeting, Greetings.ParsePartial, NullMechanism.ReadyFrom,
         PlainMechanism.HelloFrom, OpOf, TableAfter;
  }

  lemma FeedIsNoIoError(cfg: Config, c: Conn, input: bytes)
    requires WF(cfg, c)
    ensures var r := Feed(cfg, c, input).1; r.Err? ==> !r.error.IoError?
  {
    hide FrameSpec.Feed, Greetings.ParseGreeting, Greetings.ParsePartial, NullMechanism.ReadyFrom,
         PlainMechanism.HelloFrom, OpOf, TableAfter;
  }

  /** One turn of the loop: what it consumed, if its reply went out; else how the drain came out. */
  lemma TurnCameOut(cfg: Config, c: Conn, net: Net, input: bytes)
    requires DriverInv(cfg, c) && input != []
    ensures var (c1, fed) := Feed(cfg, c, input);
            if fed.Err? then CameOut(cfg, c, net, input, 0, (c1, SendError(c1, net), Err(fed.error)))
            else
              var (c2, net2, replied) := Reply(cfg, c.state, c1, net);
              var p := Pump(cfg, c, input[..fed.value]);
              && 0 < fed.value && DriverInv(cfg, c2) && p.error == None
              && (replied.Err? ==> CameOut(cfg, c, net, input, fed.value, (c2, net2, Err(replied.error))))
              && (replied.Ok? ==> p.conn == c2 && net2.sent == net.sent + p.sent)
  {
    hide Feed, Reply, Fed, DriverInv, React, Pump;
    FeedIsPump(cfg, c, input);
    FeedIsFed(cfg, c, input);
    AnsweredAtFrameEnd(cfg, c, input);
    FeedIsNoIoError(cfg, c, input);
    var (c1, fed) := Feed(cfg, c, input);
    if fed.Ok? {
      ReplyInv(cfg, c.state, c1, net);
      ReplyOnAnyNet(cfg, c.state, c1, net);
      ReactKeepsDecoder(cfg, c.state, c1);
    } else {
      assert Pump(cfg, c, []) == Pumped(c, [], None) by { PumpedNothing(cfg, c); }
      assert input[..0] == [] && input[0..] == input;
    }
  }

  lemma PumpedNothing(cfg: Config, c: Conn)
    requires WF(cfg, c)
    ensures Pump(cfg, c, []) == Pumped(c, [], None)
  {}

  lemma ReactKeepsDecoder(cfg: Config, prev: State, c: Conn)
    requires WF(cfg, c)
    ensures var c' := React(cfg, prev, c).0; c'.dec == c.dec && c'.state == c.state
  {}

  /** Every drain comes out in one of the three ways, on any transport, with as much consumed as its loop counted. */
  lemma {:induction false} DrainComesOut(cfg: Config, c: Conn, net: Net, input: bytes)
    requires DriverInv(cfg, c)
    ensures CameOut(cfg, c, net, input, Consumed(cfg, c, net, input), DrainLoop(cfg, c, net, input))
    decreases |input|
  {
    hide Feed, Reply, DriverInv, Pump, CameOut, SendError;
    if input == [] {
      EmptyCameOut(cfg, c, net);
      return;
    }
    TurnCameOut(cfg, c, net, input);
    var (c1, fed) := Feed(cfg, c, input);
    if fed.Ok? {
      var n := fed.value;
      var (c2, net2, replied) := Reply(cfg, c.state, c1, net);
      if replied == Ok(false) {
        var rest := input[n..];
        DrainComesOut(cfg, c2, net2, rest);
        CameOutLater(cfg, c, net, input, n, c2, net2, Consumed(cfg, c2, net2, rest), DrainLoop(cfg, c2, net2, rest));
      } else if replied.Ok? {
        StoppedCameOut(cfg, c, net, input, n, c2, net2);
      }
    }
  }

  /** Nothing is consumed exactly when the first call is refused. */
  lemma ConsumedNothing(cfg: Config, c: Conn, net: Net, input: bytes)
    requires DriverInv(cfg, c) && input != []
    ensures Consumed(cfg, c, net, input) == 0 <==> Feed(cfg, c, input).1.Err?
  {
    hide Feed, Reply, DriverInv;
    FeedProgress(cfg, c, input);
  }

  lemma EmptyCameOut(cfg: Config, c: Conn, net: Net)
    requires WF(cfg, c)
    ensures CameOut(cfg, c, net, [], 0, (c, net, Ok([])))
  {
    assert net.sent + [] == net.sent;
  }

  lemma StoppedCameOut(cfg: Config, c: Conn, net: Net, input: bytes, n: nat, c2: Conn, net2: Net)
    requires WF(cfg, c) && n <= |input|
    requires var p := Pump(cfg, c, input[..n]); p == Pumped(c2, p.sent, None) && net2.sent == net.sent + p.sent
    ensures CameOut(cfg, c, net, input, n, (c2, net2, Ok(input[n..])))
  {}

  // ----- conservation -----

  /** What was buffered is what the drain's loop consumed, and then what is buffered. */
  ghost predicate Conserves(cfg: Config, d: Drv)
    requires WF(cfg, d.conn)
  {
    d.rx == d.rx[..Consumed(cfg, d.conn, d.net, d.rx)] + Drain(cfg, d).0.rx
  }

  /**
   A drain conserves bytes exactly when it ends without an error, or the very first call of
   `feed` is refused. Either way the connection is where the bytes consumed lead, on any
   transport; after a refused write some always were consumed, and the buffer is whole.
   */
  lemma ConservationExactly(cfg: Config, d: Drv)
    requires Steady(cfg, d)
    ensures var (d', e) := Drain(cfg, d);
            var k := Consumed(cfg, d.conn, d.net, d.rx);
            var p := Pump(cfg, d.conn, d.rx[..k]);
            && (Conserves(cfg, d) <==> e == None || Feed(cfg, d.conn, d.rx).1.Err?)
            && p.error == None
            && (e.None? ==> d'.conn == p.conn && d'.rx == d.rx[k..])
            && (e.Some? && e.value.IoError? ==> k > 0 && d'.rx == d.rx && AsIfSent(p.conn, d'.conn))
            && (e.Some? && !e.value.IoError? ==>
                  k < |d.rx| && d'.rx == d.rx && Feed(cfg, p.conn, d.rx[k..]) == (d'.conn, Err(e.value)))
  {
    hide Pump, DrainLoop, Consumed, Feed, DriverInv, AsIfSent;
    DrainComesOut(cfg, d.conn, d.net, d.rx);
    var k := Consumed(cfg, d.conn, d.net, d.rx);
    assert d.rx == d.rx[..k] + d.rx[k..];
    if d.rx == [] {
      DrainedNothing(cfg, d.conn, d.net);
    } else {
      ConsumedNothing(cfg, d.conn, d.net, d.rx);
    }
  }

  lemma DrainedNothing(cfg: Config, c: Conn, net: Net)
    requires WF(cfg, c)
    ensures DrainLoop(cfg, c, net, []) == (c, net, Ok([])) && Consumed(cfg, c, net, []) == 0
  {}

  /** Established, with its writes taken: when what is buffered has no decode error, or no frame before it. */
  lemma EstablishedConservation(cfg: Config, d: Drv)
    requires Steady(cfg, d) && d.conn.state == State.Established && d.net.writeScript == []
    ensures var read := FrameSpec.Decode(cfg.frameCap, d.conn.dec, d.rx);
            Conserves(cfg, d) <==> read.error == None || read.frames == []
  {
    hide Pump, DrainLoop, Consumed, DriverInv, FrameSpec.Decode, FrameSpec.Feed, OnFrame, Ops, TableAfterAll, Conserves;
    ConservationExactly(cfg, d);
    FinishedDrain(cfg, d);
    FrameSpec.FeedIsDecode(cfg.frameCap, d.conn.dec, d.rx);
    EstablishedTakesFrames(cfg, d.conn, d.rx);
  }

  lemma EstablishedTakesFrames(cfg: Config, c: Conn, input: bytes)
    requires WF(cfg, c) && c.state == State.Established
    ensures Feed(cfg, c, input).1.Err? <==> FrameSpec.Feed(cfg.frameCap, c.dec, input).1.Err?
  {
    hide FrameSpec.Feed;
  }

  // ----- what that means for an established connection -----

  /** The requests in bytes that start at a frame boundary. */
  function Requests(cfg: Config, c: Conn, bs: bytes): seq<Op> {
    Ops(cfg.role, c.minor, FrameSpec.Decode(cfg.frameCap, FrameSpec.NeedFlags, bs).frames)
  }

  /** On an established connection a PONG is refused right after its PING, with the requests up to it applied. */
  lemma RefusedPong(cfg: Config, d: Drv)
    requires Steady(cfg, d) && d.conn.state == State.Established
    requires var e := Drain(cfg, d).1; e.Some? && e.value.IoError?
    ensures var d1 := Drain(cfg, d).0;
            var k := Consumed(cfg, d.conn, d.net, d.rx);
            var read := FrameSpec.Decode(cfg.frameCap, d.conn.dec, d.rx[..k]);
            && 0 < k && d1.rx == d.rx && d1.conn == Applied(cfg, d.conn, read).conn
            && read.st == FrameSpec.NeedFlags && read.error == None
  {
    hide Pump, DrainLoop, Consumed, Feed, DriverInv, FrameSpec.Decode, Ops, TableAfterAll;
    DrainComesOut(cfg, d.conn, d.net, d.rx);
    EstablishedMeaning(cfg, d.conn, d.rx[..Consumed(cfg, d.conn, d.net, d.rx)]);
  }

  lemma FinishedDrain(cfg: Config, d: Drv)
    requires Steady(cfg, d) && d.conn.state == State.Established && d.net.writeScript == []
    ensures var (d', e) := Drain(cfg, d);
            var read := FrameSpec.Decode(cfg.frameCap, d.conn.dec, d.rx);
            && e == DecodeFailure(read.error)
            && (e == None ==> d'.rx == [] && d'.conn == Applied(cfg, d.conn, read).conn)
  {
    hide Pump, DrainLoop, Feed, DriverInv, FrameSpec.Decode, Ops, TableAfterAll;
    DrainIsPump(cfg, d.conn, d.net, d.rx);
    DrainProgress(cfg, d.conn, d.net, d.rx);
    EstablishedMeaning(cfg, d.conn, d.rx);
    assert d.rx[..|d.rx|] == d.rx;
  }

  /** The driver, over a transport that from now on takes every write. */
  function Recovered(d: Drv): Drv {
    d.(net := d.net.(writeScript := []))
  }

  /**
   When a PONG is refused, the requests up to it are in the table; and the next drain reads
   the whole buffer again from a frame boundary, wherever in a frame it had started: it
   fails exactly when that reading does, and otherwise applies the requests it finds then.
   */
  lemma BufferReadTwice(cfg: Config, d: Drv)
    requires Steady(cfg, d) && d.conn.state == State.Established
    requires var e := Drain(cfg, d).1; e.Some? && e.value.IoError?
    ensures Steady(cfg, Drain(cfg, d).0)
    ensures var d1 := Drain(cfg, d).0;
            var (d2, e2) := Drain(cfg, Recovered(d1));
            var k := Consumed(cfg, d.conn, d.net, d.rx);
            var first := FrameSpec.Decode(cfg.frameCap, d.conn.dec, d.rx[..k]);
            var again := FrameSpec.Decode(cfg.frameCap, FrameSpec.NeedFlags, d.rx);
            && d1.rx == d.rx && d1.conn == Applied(cfg, d.conn, first).conn
            && first.st == FrameSpec.NeedFlags
            && e2 == DecodeFailure(again.error)
            && (e2 == None ==> d2.rx == [] && d2.conn == Applied(cfg, d1.conn, again).conn)
  {
    hide Drain, Consumed, DriverInv, FrameSpec.Decode, Ops, TableAfterAll;
    RefusedPong(cfg, d);
    DrainSteady(cfg, d);
    FinishedDrain(cfg, Recovered(Drain(cfg, d).0));
  }

  /** A buffer that started at a frame boundary holds the same requests still, and they are applied once more. */
  lemma OperationsTwice(cfg: Config, d: Drv)
    requires Steady(cfg, d) && d.conn.state == State.Established && d.conn.dec == FrameSpec.NeedFlags
    requires var e := Drain(cfg, d).1; e.Some? && e.value.IoError?
    ensures Steady(cfg, Drain(cfg, d).0)
    ensures var d1 := Drain(cfg, d).0;
            var (d2, e2) := Drain(cfg, Recovered(d1));
            var k := Consumed(cfg, d.conn, d.net, d.rx);
            var (first, rest) := (Requests(cfg, d.conn, d.rx[..k]), Requests(cfg, d.conn, d.rx[k..]));
            && d1.rx == d.rx && d1.conn.table == TableAfterAll(cfg, d.conn.table, first)
            && (e2 == None <==> FrameSpec.Decode(cfg.frameCap, FrameSpec.NeedFlags, d.rx).error == None)
            && (e2 == None ==>
                  d2.rx == [] && d2.conn.table == TableAfterAll(cfg, d.conn.table, first + (first + rest)))
  {
    hide Drain, Consumed, DriverInv, FrameSpec.Decode, Ops, TableAfterAll;
    BufferReadTwice(cfg, d);
    RefusedPong(cfg, d);
    var k := Consumed(cfg, d.conn, d.net, d.rx);
    var (a, b) := (d.rx[..k], d.rx[k..]);
    assert d.rx == a + b;
    FrameSpec.DecodeAppend(cfg.frameCap, FrameSpec.NeedFlags, a, b);
    var fs := FrameSpec.Decode(cfg.frameCap, FrameSpec.NeedFlags, a).frames;
    var gs := FrameSpec.Decode(cfg.frameCap, FrameSpec.NeedFlags, b).frames;
    OpsAppend(cfg.role, d.conn.minor, fs, gs);
    var (first, rest) := (Requests(cfg, d.conn, a), Requests(cfg, d.conn, b));
    TableAfterBoth(cfg, d.conn.table, first, first + rest);
  }

  lemma DrainSteady(cfg: Config, d: Drv)
    requires Steady(cfg, d)
    ensures Steady(cfg, Drain(cfg, d).0)
  {
    hide Drain, DriverInv;
    DrainKeepsSteady(cfg, d);
  }

  // ----- a witness: one subscription becomes two -----

  function SubscribeFrame(prefix: bytes): FrameSpec.Frame {
    FrameSpec.Frame(false, true, [9] + SUBSCRIBE + prefix)
  }

  lemma SubscribeIsAdd(minor: byte, prefix: bytes)
    ensures OpOf(NullMechanism.Pub, minor, SubscribeFrame(prefix)) == Add(prefix)
  {
    var body := [9] + SUBSCRIBE + prefix;
    assert body[0] == 9 && body[1..10] == SUBSCRIBE && body[10..] == prefix;
  }

  /** One whole frame at the start of what an established connection is fed. */
  lemma FedFrame(cfg: Config, c: Conn, f: FrameSpec.Frame, more: bytes)
    requires WF(cfg, c) && c.state == State.Established && c.dec == FrameSpec.NeedFlags
    requires FrameSpec.Encodable(f) && |f.body| <= cfg.frameCap
    ensures Feed(cfg, c, FrameSpec.Encode(f) + more) == (Dispatch(cfg, c, f), Ok(|FrameSpec.Encode(f)|))
  {
    hide FrameSpec.Feed, FrameSpec.Encode, Dispatch;
    FrameSpec.FeedEncoded(cfg.frameCap, f);
    FrameSpec.FeedStopsAtFrame(cfg.frameCap, FrameSpec.NeedFlags, FrameSpec.Encode(f), more);
    assert c.(dec := FrameSpec.NeedFlags) == c;
  }

  /** An established PUB connection with room for two entries, to a peer of version 3.1. */
  ghost predicate Roomy(cfg: Config, c: Conn, prefix: bytes, ttl: bytes, context: bytes) {
    && DriverInv(cfg, c) && c.state == State.Established && c.dec == FrameSpec.NeedFlags && c.table == []
    && c.minor >= 1 && cfg.role.Pub? && cfg.tableCap >= 2 && |prefix| <= cfg.entryCap && |ttl| == 2
    && |SubscribeFrame(prefix).body| <= cfg.frameCap && |PingFrame(ttl, context).body| <= cfg.frameCap
  }

  function SubscribeThenPing(prefix: bytes, ttl: bytes, context: bytes): bytes
    requires |ttl| == 2
  {
    FrameSpec.Encode(SubscribeFrame(prefix)) + FrameSpec.Encode(PingFrame(ttl, context))
  }

  /** The first drain: the subscription is taken, the PONG refused. */
  lemma SubscribedOnce(cfg: Config, c: Conn, net: Net, code: nat, n: nat, prefix: bytes, ttl: bytes, context: bytes)
    requires Roomy(cfg, c, prefix, ttl, context) && net.writeScript == [Refuses(code, n)]
    ensures var (c', net', r) := DrainLoop(cfg, c, net, SubscribeThenPing(prefix, ttl, context));
            c' == c.(table := [prefix]) && net'.writeScript == [] && r == Err(IoError(code))
  {
    var sub, ping := SubscribeFrame(prefix), PingFrame(ttl, context);
    var one, two := FrameSpec.Encode(sub), FrameSpec.Encode(ping);
    var c1 := c.(table := [prefix]);
    SubscribeIsAdd(c.minor, prefix);
    PingIsEchoed(cfg.role, c.minor, ttl, context);
    FedFrame(cfg, c, sub, two);
    FedFrame(cfg, c1, ping, []);
    assert Dispatch(cfg, c, sub) == c1;
    assert (one + two)[|one|..] == two == two + [];
    hide Feed, FrameSpec.Encode, OpOf, SubscribeFrame, PingFrame;
    var c2 := Dispatch(cfg, c1, ping);
    assert Reply(cfg, State.Established, c1, net) == (c1, net, Ok(false));
    var (c3, net3, r3) := Reply(cfg, State.Established, c2, net);
    assert c3 == c1 && net3.writeScript == [] && r3 == Err(IoError(code));
    DrainOf(cfg, c, net, one + two, c1, |one|);
    DrainOf(cfg, c1, net, two, c2, |two|);
  }

  /** One step of the drain's loop, from what the feed gave. */
  lemma DrainOf(cfg: Config, c: Conn, net: Net, input: bytes, c1: Conn, n: nat)
    requires WF(cfg, c) && WF(cfg, c1) && 0 < n <= |input| && Feed(cfg, c, input) == (c1, Ok(n))
    ensures var (c2, net2, replied) := Reply(cfg, c.state, c1, net);
            DrainLoop(cfg, c, net, input) ==
            if replied.Err? then (c2, net2, Err(replied.error))
            else if replied.value then (c2, net2, Ok(input[n..]))
            else DrainLoop(cfg, c2, net2, input[n..])
  {
    hide Feed, Reply;
  }

  /** Its requests, when it is drained with every write taken. */
  lemma RequestsOfBoth(cfg: Config, c: Conn, prefix: bytes, ttl: bytes, context: bytes)
    requires Roomy(cfg, c, prefix, ttl, context)
    ensures FrameSpec.Decode(cfg.frameCap, FrameSpec.NeedFlags, SubscribeThenPing(prefix, ttl, context)) ==
            FrameSpec.Decoded(FrameSpec.NeedFlags, [SubscribeFrame(prefix), PingFrame(ttl, context)], None)
  {
    hide FrameSpec.Decode, FrameSpec.Encode, DriverInv;
    var fs := [SubscribeFrame(prefix), PingFrame(ttl, context)];
    assert fs == [fs[0]] + [fs[1]];
    FrameSpec.EncodeAllAppend([fs[0]], [fs[1]]);
    FrameSpec.EncodeAllOne(fs[0]);
    FrameSpec.EncodeAllOne(fs[1]);
    FrameSpec.FrameListRoundTrip(cfg.frameCap, fs);
  }

  lemma TableOfBoth(cfg: Config, c: Conn, t: seq<bytes>, prefix: bytes, ttl: bytes, context: bytes)
    requires Roomy(cfg, c, prefix, ttl, context) && |t| <= 1
    ensures TableAfterAll(cfg, t, Ops(cfg.role, c.minor, [SubscribeFrame(prefix), PingFrame(ttl, context)])) ==
            t + [prefix]
  {
    hide DriverInv, SubscribeFrame, PingFrame;
    SubscribeIsAdd(c.minor, prefix);
    PingIsEchoed(cfg.role, c.minor, ttl, context);
    hide OpOf;
    var fs := [SubscribeFrame(prefix), PingFrame(ttl, context)];
    assert fs[1..] == [fs[1]] && fs[1..][1..] == [];
    var ops := Ops(cfg.role, c.minor, fs);
    var pong := Ping(context[..Min(|context|, 16)]);
    assert Ops(cfg.role, c.minor, fs[1..]) == [pong] + Ops(cfg.role, c.minor, fs[1..][1..]);
    assert ops == [Add(prefix), pong] && ops[1..] == [pong] && ops[1..][1..] == [];
    var t1 := TableAfter(cfg, t, Add(prefix));
    assert t1 == t + [prefix];
    assert TableAfterAll(cfg, t1, ops[1..]) == TableAfterAll(cfg, TableAfter(cfg, t1, pong), []);
  }

  /** A drain of the two requests with every write taken. */
  lemma BothDrained(cfg: Config, c: Conn, t: seq<bytes>, net: Net, prefix: bytes, ttl: bytes, context: bytes)
    requires Roomy(cfg, c, prefix, ttl, context) && |t| <= 1 && net.writeScript == []
    requires Steady(cfg, Drv(c.(table := t), net, SubscribeThenPing(prefix, ttl, context)))
    ensures var (d', r) := Poll(cfg, Drv(c.(table := t), net, SubscribeThenPing(prefix, ttl, context)));
            r == Ok(true) && d'.rx == [] && d'.conn.table == t + [prefix]
  {
    assert c.state == State.Established && c.dec == FrameSpec.NeedFlags;
    hide Poll, PollAsync, DrainLoop, DriverInv, FrameSpec.Decode, TableAfterAll, Ops, SubscribeFrame, PingFrame, Roomy,
         FrameSpec.Encode;
    var d := Drv(c.(table := t), net, SubscribeThenPing(prefix, ttl, context));
    assert d.rx != [] by { EncodesSomething(SubscribeFrame(prefix)); }
    RequestsOfBoth(cfg, c, prefix, ttl, context);
    TableOfBoth(cfg, c, t, prefix, ttl, context);
    PollsAgree(cfg, d);
    FinishedDrain(cfg, d);
  }

  /**
   SUBSCRIBE and PING in one buffer, with the PONG refused once: the poll fails, the next one
   succeeds, and the table holds the subscription twice, so that one CANCEL does not remove it.
   */
  lemma DoubledSubscription(
    cfg: Config, c: Conn, net: Net, code: nat, n: nat, prefix: bytes, ttl: bytes, context: bytes)
    requires Roomy(cfg, c, prefix, ttl, context) && net.writeScript == [Refuses(code, n)]
    requires |SubscribeThenPing(prefix, ttl, context)| <= RX_SIZE
    ensures var rx := SubscribeThenPing(prefix, ttl, context);
            var (d1, r1) := Poll(cfg, Drv(c, net, rx));
            && r1 == Err(IoError(code)) && d1.rx == rx && d1.conn.table == [prefix]
            && var (d2, r2) := Poll(cfg, d1);
               && r2 == Ok(true) && d2.rx == [] && d2.conn.table == [prefix, prefix]
               && prefix in Entries.Removed(d2.conn.table, prefix)
  {
    var rx := SubscribeThenPing(prefix, ttl, context);
    var d := Drv(c, net, rx);
    assert Steady(cfg, d);
    hide Poll, PollAsync, DrainLoop, DriverInv, FrameSpec.Encode, SubscribeFrame, PingFrame, Roomy;
    assert rx != [] by { EncodesSomething(SubscribeFrame(prefix)); }
    assert [prefix] + [prefix] == [prefix, prefix];
    assert prefix in Entries.Removed([prefix, prefix], prefix);
    PollsAgree(cfg, d);
    PollKeepsSteady(cfg, d);
    SubscribedOnce(cfg, c, net, code, n, prefix, ttl, context);
    BothDrained(cfg, c, [prefix], Poll(cfg, d).0.net, prefix, ttl, context);
  }

  // ----- a witness: a subscription the peer never made -----

  /** What a poll of a driver between polls feeds: what is buffered, or, if nothing is, what it reads. */
  function Fetched(d: Drv): Drv {
    if d.rx != [] then d
    else
      var (net, got) := Receive(d.net, RX_SIZE);
      Drv(d.conn, net, if got.Ok? then got.value else [])
  }

  lemma PollDrains(cfg: Config, d: Drv)
    requires Steady(cfg, d) && Fetched(d).rx != []
    ensures Poll(cfg, d) == DrainAndReport(cfg, Fetched(d)) && Steady(cfg, Fetched(d))
  {
    hide Poll, PollAsync, DrainLoop, DriverInv;
    PollsAgree(cfg, d);
    assert d.rx == [] ==> d.rx + Fetched(d).rx == Fetched(d).rx;
  }

  /** A drain whose one call takes everything, and whose reply goes out. */
  lemma DrainWhole(cfg: Config, c: Conn, net: Net, input: bytes, c1: Conn)
    requires WF(cfg, c) && WF(cfg, c1) && input != [] && Feed(cfg, c, input) == (c1, Ok(|input|))
    requires Reply(cfg, c.state, c1, net).2.Ok?
    ensures var (c2, net2, _) := Reply(cfg, c.state, c1, net); DrainLoop(cfg, c, net, input) == (c2, net2, Ok([]))
  {
    hide Feed, Reply;
    DrainOf(cfg, c, net, input, c1, |input|);
    var (c2, net2, _) := Reply(cfg, c.state, c1, net);
    DrainedNothing(cfg, c2, net2);
  }

  lemma QuietReply(cfg: Config, c: Conn, net: Net)
    requires WF(cfg, c) && c.state == State.Established && c.pong == None
    ensures Reply(cfg, State.Established, c, net) == (c, net, Ok(false))
  {}

  /** Messages of version 3.0 that start with neither 0 nor 1 mean nothing. */
  ghost predicate Ignored(f: FrameSpec.Frame) {
    !f.isCommand && f.body != [] && f.body[0] > 1
  }

  /** A message cut in two: the first part is taken silently, and the second completes it, whatever follows. */
  lemma CutMessage(cfg: Config, c: Conn, f: FrameSpec.Frame, a: bytes, b: bytes, more: bytes) returns (c1: Conn)
    requires WF(cfg, c) && c.state == State.Established && c.dec == FrameSpec.NeedFlags
    requires FrameSpec.Encodable(f) && |f.body| <= cfg.frameCap && Ignored(f)
    requires a + b == FrameSpec.Encode(f) && b != []
    ensures WF(cfg, c1) && c1 == c.(dec := c1.dec) && Feed(cfg, c, a) == (c1, Ok(|a|))
    ensures Feed(cfg, c1, b + more) == (c, Ok(|b|))
  {
    hide FrameSpec.Feed, FrameSpec.Encode, TableAfter;
    FrameSpec.FeedEncoded(cfg.frameCap, f);
    var s1 := FrameSpec.FeedSplit(cfg.frameCap, FrameSpec.NeedFlags, a, b, f);
    c1 := c.(dec := s1);
    FrameSpec.FeedStopsAtFrame(cfg.frameCap, s1, b, more);
    IgnoredIsNothing(cfg.role, c.minor, f);
    assert Dispatch(cfg, c, f) == c by { IgnoreKeeps(cfg, c.table); }
    assert c1.(dec := FrameSpec.NeedFlags) == c;
  }

  /** An ignored message that ends in the bytes of a SUBSCRIBE frame, which `cut` leaves for a second read. */
  ghost predicate Disguised(cfg: Config, f: FrameSpec.Frame, first: bytes, prefix: bytes) {
    && FrameSpec.Encodable(f) && |f.body| <= cfg.frameCap && Ignored(f) && 0 < |first| <= RX_SIZE
    && FrameSpec.Encode(f) == first + FrameSpec.Encode(SubscribeFrame(prefix))
  }

  /** Such messages exist for every prefix that fits. */
  lemma DisguiseExists(cfg: Config, prefix: bytes) returns (f: FrameSpec.Frame, first: bytes)
    requires |FrameSpec.Encode(SubscribeFrame(prefix))| < cfg.frameCap
    ensures Disguised(cfg, f, first, prefix)
  {
    hide SubscribeFrame;
    var sub := FrameSpec.Encode(SubscribeFrame(prefix));
    f := FrameSpec.Frame(false, false, [2] + sub);
    first := FrameSpec.Header(false, false, |f.body|) + [2];
  }

  lemma RefusedPongReply(cfg: Config, c: Conn, net: Net, code: nat, n: nat)
    requires WF(cfg, c) && c.state == State.Established && c.pong.Some? && net.writeScript == [Refuses(code, n)]
    ensures var (c', net', r) := Reply(cfg, State.Established, c, net);
            c' == c.(pong := None) && net'.writeScript == [] && net'.readScript == net.readScript
            && r == Err(IoError(code))
  {
    hide PongFrame;
  }

  /** A whole PING and nothing else, with its PONG refused. */
  lemma PingRefused(cfg: Config, c: Conn, net: Net, code: nat, n: nat, ttl: bytes, context: bytes)
    requires WF(cfg, c) && c.state == State.Established && c.dec == FrameSpec.NeedFlags && c.pong == None
    requires c.minor >= 1 && |ttl| == 2 && |PingFrame(ttl, context).body| <= cfg.frameCap
    requires net.writeScript == [Refuses(code, n)]
    ensures var (c', net', r) := DrainLoop(cfg, c, net, FrameSpec.Encode(PingFrame(ttl, context)));
            c' == c && net'.writeScript == [] && net'.readScript == net.readScript && r == Err(IoError(code))
  {
    var ping := PingFrame(ttl, context);
    var bs := FrameSpec.Encode(ping);
    PingIsEchoed(cfg.role, c.minor, ttl, context);
    FedFrame(cfg, c, ping, []);
    assert bs + [] == bs && bs != [];
    var c1 := Dispatch(cfg, c, ping);
    assert c1 == c.(pong := Some(context[..Min(|context|, 16)]));
    hide Feed, Reply, FrameSpec.Encode, OpOf, PingFrame, Dispatch;
    RefusedPongReply(cfg, c1, net, code, n);
    DrainOf(cfg, c, net, bs, c1, |bs|);
  }

  /** The second drain: the message is completed and ignored, and the PONG behind it refused. */
  lemma MessageThenPing(cfg: Config, c: Conn, c1: Conn, net: Net, code: nat, n: nat, b: bytes,
                        prefix: bytes, ttl: bytes, context: bytes)
    requires Roomy(cfg, c, prefix, ttl, context) && net.writeScript == [Refuses(code, n)]
    requires WF(cfg, c1) && c1.state == State.Established && b != []
    requires Feed(cfg, c1, b + FrameSpec.Encode(PingFrame(ttl, context))) == (c, Ok(|b|))
    ensures var (c', net', r) := DrainLoop(cfg, c1, net, b + FrameSpec.Encode(PingFrame(ttl, context)));
            c' == c && net'.writeScript == [] && net'.readScript == net.readScript && r == Err(IoError(code))
  {
    hide Feed, Reply, FrameSpec.Encode, SubscribeFrame, WF, Inv, PingFrame;
    assert WF(cfg, c) && c.state == State.Established && c.dec == FrameSpec.NeedFlags && c.pong == None;
    var two := FrameSpec.Encode(PingFrame(ttl, context));
    hide DriverInv;
    assert (b + two)[|b|..] == two;
    PingRefused(cfg, c, net, code, n, ttl, context);
    QuietReply(cfg, c, net);
    DrainOf(cfg, c1, net, b + two, c, |b|);
  }

  /** A poll that reads. */
  lemma PollReads(cfg: Config, d: Drv, bs: bytes, rest: seq<ReadEvent>)
    requires Steady(cfg, d) && d.rx == [] && d.net.readScript == [Data(bs)] + rest && 0 < |bs| <= RX_SIZE
    ensures Poll(cfg, d) == DrainAndReport(cfg, Drv(d.conn, d.net.(readScript := rest), bs))
  {
    hide Poll, PollAsync, DrainLoop, DriverInv, DrainAndReport;
    PollDrains(cfg, d);
  }

  /** The first poll reads as far as the message is sent ... */
  lemma FirstPartRead(cfg: Config, c: Conn, net: Net, a: bytes, c1: Conn, rest: seq<ReadEvent>)
    requires DriverInv(cfg, c) && c.state == State.Established && WF(cfg, c1) && c1 == c.(dec := c1.dec)
    requires Feed(cfg, c, a) == (c1, Ok(|a|)) && 0 < |a| <= RX_SIZE && net.readScript == [Data(a)] + rest
    ensures Poll(cfg, Drv(c, net, [])) == (Drv(c1, net.(readScript := rest), []), Ok(true))
    ensures DriverInv(cfg, c1)
  {
    assert c.pong == None;
    hide Feed, Reply, Poll, DrainLoop, DriverInv, WF;
    PollReads(cfg, Drv(c, net, []), a, rest);
    QuietReply(cfg, c1, net.(readScript := rest));
    DrainWhole(cfg, c, net.(readScript := rest), a, c1);
    PollKeepsSteady(cfg, Drv(c, net, []));
  }

  /** ... and the second the rest of it, with the PING. */
  lemma SecondPartRead(cfg: Config, c: Conn, c1: Conn, net: Net, code: nat, n: nat, b: bytes,
                       prefix: bytes, ttl: bytes, context: bytes)
    requires Roomy(cfg, c, prefix, ttl, context) && net.writeScript == [Refuses(code, n)]
    requires DriverInv(cfg, c1) && c1.state == State.Established && b != []
    requires var rx := b + FrameSpec.Encode(PingFrame(ttl, context));
             Feed(cfg, c1, rx) == (c, Ok(|b|)) && |rx| <= RX_SIZE && net.readScript == [Data(rx)]
    ensures var (d2, r2) := Poll(cfg, Drv(c1, net, []));
            r2 == Err(IoError(code)) && d2.rx == b + FrameSpec.Encode(PingFrame(ttl, context)) && d2.conn == c
            && d2.net.writeScript == []
  {
    var rx := b + FrameSpec.Encode(PingFrame(ttl, context));
    hide Feed, Poll, DrainLoop, DriverInv, Roomy, FrameSpec.Encode, PingFrame;
    assert net.readScript == [Data(rx)] + [];
    PollReads(cfg, Drv(c1, net, []), rx, []);
    MessageThenPing(cfg, c, c1, net.(readScript := []), code, n, b, prefix, ttl, context);
  }

  lemma PhantomPolls(cfg: Config, c: Conn, net: Net, code: nat, n: nat, f: FrameSpec.Frame, first: bytes,
                     prefix: bytes, ttl: bytes, context: bytes)
    requires Roomy(cfg, c, prefix, ttl, context) && Disguised(cfg, f, first, prefix)
    requires |SubscribeThenPing(prefix, ttl, context)| <= RX_SIZE && net.writeScript == [Refuses(code, n)]
    requires net.readScript == [Data(first), Data(SubscribeThenPing(prefix, ttl, context))]
    ensures var rx := SubscribeThenPing(prefix, ttl, context);
            var (d1, r1) := Poll(cfg, Drv(c, net, []));
            && r1 == Ok(true) && d1.rx == [] && d1.conn.table == []
            && var (d2, r2) := Poll(cfg, d1);
               r2 == Err(IoError(code)) && d2.rx == rx && d2.conn == c && d2.net.writeScript == []
  {
    var rx := SubscribeThenPing(prefix, ttl, context);
    hide Feed, Poll, DriverInv, FrameSpec.Encode, PingFrame, SubscribeFrame, FrameSpec.Encodable, Ignored;
    var sub, ping := FrameSpec.Encode(SubscribeFrame(prefix)), FrameSpec.Encode(PingFrame(ttl, context));
    assert sub != [] by { EncodesSomething(SubscribeFrame(prefix)); }
    var c1 := CutMessage(cfg, c, f, first, sub, ping);
    assert net.readScript == [Data(first)] + [Data(rx)];
    FirstPartRead(cfg, c, net, first, c1, [Data(rx)]);
    SecondPartRead(cfg, c, c1, net.(readScript := [Data(rx)]), code, n, sub, prefix, ttl, context);
  }

  lemma EncodesSomething(f: FrameSpec.Frame)
    ensures FrameSpec.Encode(f) != []
  {}

  /**
   An ignored message is read in two parts, the second with a PING behind it whose PONG is
   refused. The peer has asked for nothing; but the poll after that finds a SUBSCRIBE at the
   start of the buffer, and the table then holds a subscription that was never made.
   */
  lemma PhantomSubscription(cfg: Config, c: Conn, net: Net, code: nat, n: nat, f: FrameSpec.Frame, first: bytes,
                            prefix: bytes, ttl: bytes, context: bytes)
    requires Roomy(cfg, c, prefix, ttl, context) && Disguised(cfg, f, first, prefix)
    requires |SubscribeThenPing(prefix, ttl, context)| <= RX_SIZE && net.writeScript == [Refuses(code, n)]
    requires net.readScript == [Data(first), Data(SubscribeThenPing(prefix, ttl, context))]
    ensures var rx := SubscribeThenPing(prefix, ttl, context);
            && Requests(cfg, c, first + rx) == [Ignore, Ping(context[..Min(|context|, 16)])]
            && var (d1, r1) := Poll(cfg, Drv(c, net, []));
               && r1 == Ok(true) && d1.rx == [] && d1.conn.table == []
               && var (d2, r2) := Poll(cfg, d1);
                  && r2 == Err(IoError(code)) && d2.rx == rx && d2.conn.table == []
                  && var (d3, r3) := Poll(cfg, d2);
                     r3 == Ok(true) && d3.rx == [] && d3.conn.table == [prefix]
  {
    var d := Drv(c, net, []);
    var d1 := Poll(cfg, d).0;
    var d2 := Poll(cfg, d1).0;
    PhantomPolls(cfg, c, net, code, n, f, first, prefix, ttl, context);
    PhantomRequests(cfg, c, f, first, prefix, ttl, context);
    assert Steady(cfg, d2) && c.(table := []) == c && [] + [prefix] == [prefix];
    hide Poll, DriverInv, SubscribeThenPing, Requests, Disguised, Roomy;
    BothDrained(cfg, c, [], d2.net, prefix, ttl, context);
  }

  lemma PhantomRequests(cfg: Config, c: Conn, f: FrameSpec.Frame, first: bytes,
                        prefix: bytes, ttl: bytes, context: bytes)
    requires Roomy(cfg, c, prefix, ttl, context) && Disguised(cfg, f, first, prefix)
    ensures Requests(cfg, c, first + SubscribeThenPing(prefix, ttl, context)) ==
            [Ignore, Ping(context[..Min(|context|, 16)])]
  {
    hide FrameSpec.Encode, DriverInv, OpOf, SubscribeFrame, Ignored, Requests;
    PingIsEchoed(cfg.role, c.minor, ttl, context);
    IgnoredIsNothing(cfg.role, c.minor, f);
    var sub, ping := FrameSpec.Encode(SubscribeFrame(prefix)), FrameSpec.Encode(PingFrame(ttl, context));
    assert first + (sub + ping) == FrameSpec.Encode(f) + ping;
    TwoRequests(cfg, c, f, PingFrame(ttl, context));
  }

  lemma IgnoredIsNothing(role: NullMechanism.Role, minor: byte, f: FrameSpec.Frame)
    requires Ignored(f)
    ensures OpOf(role, minor, f) == Ignore
  {}

  lemma TwoRequests(cfg: Config, c: Conn, f: FrameSpec.Frame, g: FrameSpec.Frame)
    requires FrameSpec.Encodable(f) && |f.body| <= cfg.frameCap && FrameSpec.Encodable(g) && |g.body| <= cfg.frameCap
    ensures Requests(cfg, c, FrameSpec.Encode(f) + FrameSpec.Encode(g)) ==
            [OpOf(cfg.role, c.minor, f), OpOf(cfg.role, c.minor, g)]
  {
    hide FrameSpec.Decode, FrameSpec.Encode, OpOf;
    var fs := [f, g];
    assert fs == [f] + [g];
    FrameSpec.EncodeAllAppend([f], [g]);
    FrameSpec.EncodeAllOne(f);
    FrameSpec.EncodeAllOne(g);
    FrameSpec.FrameListRoundTrip(cfg.frameCap, fs);
    assert fs[1..] == [g] && fs[1..][1..] == [];
    assert Ops(cfg.role, c.minor, fs[1..]) == [OpOf(cfg.role, c.minor, g)] + Ops(cfg.role, c.minor, fs[1..][1..]);
  }
}
