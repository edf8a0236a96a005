/**
 The driver as a byte-at-a-time machine, and the proof that draining whole buffers in
 whatever pieces the reads delivered is that machine.
 */
module ByteMachine {
  import opened Wrappers
  import opened Bytes
  import opened ConnSpec
  import opened Handshake
  import opened DriverSpec
  import FrameSpec
  import Greetings
  import NullMechanism
  import PlainMechanism

  /** The connections a driver can hold between polls, whatever its transport did. */
  ghost predicate DriverInv(cfg: Config, c: Conn): (holds: bool)
    ensures holds ==> WF(cfg, c)
  {
    && (cfg.role.Radio? ==> cfg.mechanism.Null?)
    && Inv(cfg, c) && c.greetingSent && c.pong == None
    && (c.state == Ready ==> c.readySent)
    && (c.state == PlainReady ==> c.welcomeSent)
    && (c.state == Greeting && |c.greeting| == 64 ==> Greetings.ParseGreeting(cfg.mechanism, c.greeting).Err?)
  }

  lemma NewDriverInv(cfg: Config, net: Net)
    requires cfg.role.Radio? ==> cfg.mechanism.Null?
    ensures DriverInv(cfg, NewDriver(cfg, net).0.conn)
  {}

  /** In a driver, non-empty input is refused or some of it is consumed. */
  lemma FeedProgress(cfg: Config, c: Conn, input: bytes)
    requires DriverInv(cfg, c) && input != []
    ensures var r := Feed(cfg, c, input).1; r.Ok? ==> 0 < r.value
  {
    if c.state == Greeting && |c.greeting| == 64 {
      assert c.greeting + input[..0] == c.greeting;
    }
  }

  predicate Turn(prev: State, now: State) {
    (prev == Greeting && now == Ready) || (prev == PlainHello && now == PlainReady)
  }

  /** A connection that has been fed and not yet answered. */
  ghost predicate Fed(cfg: Config, prev: State, c: Conn) {
    && (cfg.role.Radio? ==> cfg.mechanism.Null?)
    && Inv(cfg, c) && c.greetingSent
    && (c.pong.Some? ==> c.state == Established && prev == Established)
    && (c.state == Ready ==> (prev == Greeting && !c.readySent) || (prev == Ready && c.readySent))
    && (c.state == PlainReady ==>
          || (prev == PlainHello && !c.welcomeSent && !c.readySent)
          || (prev == PlainReady && c.welcomeSent))
    && (c.state == Greeting && |c.greeting| == 64 ==> Greetings.ParseGreeting(cfg.mechanism, c.greeting).Err?)
  }

  lemma OnFrameIsFed(cfg: Config, c: Conn, f: FrameSpec.Frame)
    requires DriverInv(cfg, c) && c.state != Greeting && !Gated(c)
    ensures var (c', refused) := OnFrame(cfg, c, f);
            if refused.None? then Fed(cfg, c.state, c') else DriverInv(cfg, c')
  {
    hide Greetings.ParseGreeting, Greetings.ParsePartial, NullMechanism.ReadyFrom, PlainMechanism.HelloFrom, OpOf,
         TableAfter;
    OnFrameInv(cfg, c, f);
  }

  lemma FeedIsFed(cfg: Config, c: Conn, input: bytes)
    requires DriverInv(cfg, c)
    ensures var (c', r) := Feed(cfg, c, input);
            if r.Ok? then Fed(cfg, c.state, c') else DriverInv(cfg, c')
  {
    hide Greetings.ParseGreeting, Greetings.ParsePartial, NullMechanism.ReadyFrom, PlainMechanism.HelloFrom, OpOf,
         TableAfter, FrameSpec.Feed, OnFrame;
    if c.state == Greeting {
      FeedInv(cfg, c, input);
      var n := Min(|input|, 64 - |c.greeting|);
      assert |c.greeting| == 64 ==> c.greeting + input[..n] == c.greeting;
      if |c.greeting| + n == 64 {
        Greetings.PartialAgrees(cfg.mechanism, c.greeting + input[..n]);
      }
    } else if !Gated(c) {
      var (d, fed) := FrameSpec.Feed(cfg.frameCap, c.dec, input);
      if fed.Ok? && fed.value.1.Some? {
        OnFrameIsFed(cfg, c.(dec := d), fed.value.1.value);
        assert Feed(cfg, c, input).0 == OnFrame(cfg, c.(dec := d), fed.value.1.value).0;
      }
    }
  }

  /** The reply leaves a driver's connection, even when the transport refuses it. */
  lemma ReplyInv(cfg: Config, prev: State, c: Conn, net: Net)
    requires Fed(cfg, prev, c)
    ensures DriverInv(cfg, Reply(cfg, prev, c, net).0)
    ensures Reply(cfg, prev, c, net).0.state == c.state
    ensures Reply(cfg, prev, c, net).2 == Ok(true) ==> Turn(prev, c.state)
  {}

  /** For any transport: the invariant, and progress, so that the loop's only early stop is a turn. */
  lemma {:induction false} DrainProgress(cfg: Config, c: Conn, net: Net, input: bytes)
    requires DriverInv(cfg, c)
    ensures var (c', net', r) := DrainLoop(cfg, c, net, input);
            && DriverInv(cfg, c')
            && (r.Ok? && input != [] ==> |r.value| < |input|)
            && (r.Ok? && r.value != [] ==> Starting(c.state) && !Starting(c'.state))
            && (r.Ok? && !Starting(c.state) ==> !Starting(c'.state))
    decreases |input|
  {
    hide Feed, Reply, Fed, DriverInv;
    if input != [] {
      FeedProgress(cfg, c, input);
      FeedIsFed(cfg, c, input);
      var (c1, fed) := Feed(cfg, c, input);
      if fed.Ok? {
        ReplyInv(cfg, c.state, c1, net);
        StartingStep(cfg, c, input);
        var (c2, net2, replied) := Reply(cfg, c.state, c1, net);
        if replied == Ok(false) {
          DrainProgress(cfg, c2, net2, input[fed.value..]);
        }
      }
    }
  }

  /** The states from which the one turn is still to come. */
  predicate Starting(s: State) {
    s == Greeting || s == PlainHello
  }

  lemma StartingStep(cfg: Config, c: Conn, input: bytes)
    requires DriverInv(cfg, c)
    ensures var (c', r) := Feed(cfg, c, input);
            && (!Starting(c.state) ==> !Starting(c'.state))
            && (r.Ok? && Turn(c.state, c'.state) ==> Starting(c.state) && !Starting(c'.state))
  {
    hide Greetings.ParseGreeting, Greetings.ParsePartial, NullMechanism.ReadyFrom, PlainMechanism.HelloFrom, OpOf,
         TableAfter, FrameSpec.Feed;
  }

  // ----- the byte-at-a-time machine -----

  datatype Pumped = Pumped(conn: Conn, sent: bytes, error: Option<ConnError>)

  /** What the reply to a feed writes, on a transport that accepts it. */
  function React(cfg: Config, prev: State, c: Conn): (Conn, bytes)
    requires WF(cfg, c)
  {
    if Turn(prev, c.state) then
      if c.state == Ready then (c.(readySent := true), NullMechanism.ReadyFrame(cfg.role))
      else
        (c.(welcomeSent := true, readySent := true), PlainMechanism.WELCOME_FRAME + NullMechanism.ReadyFrame(cfg.role))
    else if c.pong.Some? then (c.(pong := None), PongFrame(c.pong.value))
    else (c, [])
  }

  function PumpByte(cfg: Config, c: Conn, b: byte): (p: Pumped)
    requires WF(cfg, c)
    ensures WF(cfg, p.conn)
  {
    var (c1, fed) := Feed(cfg, c, [b]);
    if fed.Err? then Pumped(c1, if c1.state == Failed then ErrorFrame() else [], Some(fed.error))
    else
      var (c2, out) := React(cfg, c.state, c1);
      Pumped(c2, out, None)
  }

  function Following(first: bytes, p: Pumped): Pumped {
    p.(sent := first + p.sent)
  }

  /** The bytes one by one, up to the first error. */
  function Pump(cfg: Config, c: Conn, bs: bytes): (p: Pumped)
    requires WF(cfg, c)
    ensures WF(cfg, p.conn)
    decreases |bs|
  {
    if bs == [] then Pumped(c, [], None)
    else
      var p := PumpByte(cfg, c, bs[0]);
      if p.error.Some? then p else Following(p.sent, Pump(cfg, p.conn, bs[1..]))
  }

  lemma {:induction false} PumpAppend(cfg: Config, c: Conn, a: bytes, b: bytes)
    requires WF(cfg, c)
    ensures var p := Pump(cfg, c, a);
            Pump(cfg, c, a + b) == if p.error.Some? then p else Following(p.sent, Pump(cfg, p.conn, b))
    decreases |a|
  {
    if a == [] {
      assert a + b == b;
    } else {
      var p := PumpByte(cfg, c, a[0]);
      assert (a + b)[1..] == a[1..] + b;
      if p.error.None? {
        PumpAppend(cfg, p.conn, a[1..], b);
        var q := Pump(cfg, p.conn, a[1..]);
        if q.error.None? {
          assert p.sent + (q.sent + Pump(cfg, q.conn, b).sent) == (p.sent + q.sent) + Pump(cfg, q.conn, b).sent;
        }
      }
    }
  }

  /** Equal but for how much of a refused greeting was stored. */
  ghost predicate SameButGreeting(c: Conn, c': Conn) {
    c' == c.(greeting := c'.greeting)
  }

  /**
   The one case where the cut shows: fewer than 11 greeting bytes are stored, the early check
   will refuse, and there are bytes behind the 11th, which a call may store with it.
   */
  ghost predicate Varies(c: Conn, bs: bytes) {
    && c.state == Greeting && |c.greeting| < 11 < |c.greeting| + |bs|
    && Greetings.ParsePartial((c.greeting + bs)[..11]).Err?
  }

  /** Two connections that `bs` led to from `c`: equal, unless the cut shows. */
  ghost predicate Agree(c: Conn, bs: bytes, c1: Conn, c2: Conn) {
    SameButGreeting(c1, c2) && (!Varies(c, bs) ==> c1 == c2)
  }

  // ----- one feed is a run of single bytes -----

  /** Where one byte does not end the call, the call goes on as a call from the next state. */
  ghost predicate GoesOn(cfg: Config, c: Conn, b: byte, rest: bytes)
    requires WF(cfg, c)
  {
    var (c1, r1) := Feed(cfg, c, [b]);
    && r1 == Ok(1) && c1.state == c.state && c1.pong == c.pong
    && (c.state == Greeting ==> c1.greeting == c.greeting + [b])
    && var (c2, r2) := Feed(cfg, c1, rest);
       Feed(cfg, c, [b] + rest) == (c2, if r2.Ok? then Ok(1 + r2.value) else r2)
  }

  ghost predicate EndsAt(cfg: Config, c: Conn, b: byte, rest: bytes)
    requires WF(cfg, c)
  {
    var (c1, r1) := Feed(cfg, c, [b]);
    if r1.Ok? then r1 == Ok(1) && Feed(cfg, c, [b] + rest) == (c1, r1)
    else Feed(cfg, c, [b] + rest).1 == r1 && Agree(c, [b] + rest, c1, Feed(cfg, c, [b] + rest).0)
  }

  lemma QuietByteGoesOn(cfg: Config, c: Conn, b: byte, rest: bytes)
    requires WF(cfg, c) && c.state != Greeting && !Gated(c)
    requires FrameSpec.Step(cfg.frameCap, c.dec, b).1.Silent?
    ensures GoesOn(cfg, c, b, rest)
  {
    hide FrameSpec.Feed, OnFrame, FrameSpec.Step, FrameSpec.DecValid;
    FrameSpec.FeedCons(cfg.frameCap, c.dec, b, []);
    FrameSpec.FeedCons(cfg.frameCap, c.dec, b, rest);
    assert [b] + [] == [b];
    var d1 := FrameSpec.Step(cfg.frameCap, c.dec, b).0;
    FrameSpec.FeedCons(cfg.frameCap, d1, b, []);
    assert Feed(cfg, c, [b]) == (c.(dec := d1), Ok(1));
  }

  lemma OtherByteEnds(cfg: Config, c: Conn, b: byte, rest: bytes)
    requires WF(cfg, c) && c.state != Greeting
    requires Gated(c) || !FrameSpec.Step(cfg.frameCap, c.dec, b).1.Silent?
    ensures EndsAt(cfg, c, b, rest)
  {
    hide FrameSpec.Feed, OnFrame, FrameSpec.Step, FrameSpec.DecValid;
    FrameSpec.FeedCons(cfg.frameCap, c.dec, b, []);
    FrameSpec.FeedCons(cfg.frameCap, c.dec, b, rest);
    assert [b] + [] == [b];
    assert Feed(cfg, c, [b]) == Feed(cfg, c, [b] + rest);
  }

  /** A byte and what follows it are stored in one call as they are in two. */
  lemma GreetingStores(cfg: Config, c: Conn, b: byte, rest: bytes)
    requires WF(cfg, c) && c.state == Greeting && |c.greeting| < 64
    ensures var n := |c.greeting|;
            var k := Min(|rest|, 63 - n);
            var c1 := c.(greeting := c.greeting + [b]);
            var c2 := c.(greeting := c1.greeting + rest[..k]);
            && Feed(cfg, c, [b]) == CheckGreeting(cfg, c1, n, 1)
            && Feed(cfg, c, [b] + rest) == CheckGreeting(cfg, c2, n, 1 + k)
            && Feed(cfg, c1, rest) == CheckGreeting(cfg, c2, n + 1, k)
  {
    hide CheckGreeting;
    var k := Min(|rest|, 63 - |c.greeting|);
    assert [b][..1] == [b] && ([b] + rest)[..1 + k] == [b] + rest[..k];
    assert c.greeting + ([b] + rest[..k]) == c.greeting + [b] + rest[..k];
  }

  /** While the greeting is neither complete nor up for its early check, a byte is just stored. */
  lemma GreetingByteGoesOn(cfg: Config, c: Conn, b: byte, rest: bytes)
    requires WF(cfg, c) && c.state == Greeting && |c.greeting| < 63
    requires |c.greeting| == 10 ==> Greetings.ParsePartial(c.greeting + [b]).Ok?
    ensures GoesOn(cfg, c, b, rest)
  {
    hide Greetings.ParseGreeting, Feed;
    GreetingStores(cfg, c, b, rest);
    var n := |c.greeting|;
    var g1 := c.greeting + [b];
    if n == 10 {
      var g := g1 + rest[..Min(|rest|, 53)];
      assert g1[..11] == g1 && g[..11] == g1;
    }
  }

  lemma GreetingByteEnds(cfg: Config, c: Conn, b: byte, rest: bytes)
    requires WF(cfg, c) && c.state == Greeting
    requires |c.greeting| >= 63 || (|c.greeting| == 10 && Greetings.ParsePartial(c.greeting + [b]).Err?)
    requires |c.greeting| == 64 ==> Greetings.ParseGreeting(cfg.mechanism, c.greeting).Err?
    ensures EndsAt(cfg, c, b, rest)
  {
    var n := |c.greeting|;
    var k := Min(|rest| + 1, 64 - n);
    var g1, input := c.greeting + [b], [b] + rest;
    if n == 64 {
      assert c.greeting + [b][..0] == c.greeting == c.greeting + input[..0];
    } else {
      assert [b][..1] == [b] && input[..k][..1] == [b];
      var g := c.greeting + input[..k];
      assert g[..n + 1] == g1;
      if n == 10 {
        assert g1[..11] == g1;
      }
    }
  }

  lemma Split(cfg: Config, c: Conn, b: byte, rest: bytes)
    requires DriverInv(cfg, c)
    ensures GoesOn(cfg, c, b, rest) || EndsAt(cfg, c, b, rest)
  {
    hide GoesOn, EndsAt;
    if c.state != Greeting {
      if !Gated(c) && FrameSpec.Step(cfg.frameCap, c.dec, b).1.Silent? {
        QuietByteGoesOn(cfg, c, b, rest);
      } else {
        OtherByteEnds(cfg, c, b, rest);
      }
    } else if |c.greeting| >= 63 || (|c.greeting| == 10 && Greetings.ParsePartial(c.greeting + [b]).Err?) {
      GreetingByteEnds(cfg, c, b, rest);
    } else {
      GreetingByteGoesOn(cfg, c, b, rest);
    }
  }

  /** Feeding `input` in one call, and answering it, comes to a run of single bytes. */
  ghost predicate FeedRefines(cfg: Config, c: Conn, input: bytes)
    requires WF(cfg, c)
  {
    var (c1, r) := Feed(cfg, c, input);
    if r.Ok? then
      var (c2, out) := React(cfg, c.state, c1);
      r.value > 0 && Pump(cfg, c, input[..r.value]) == Pumped(c2, out, None)
    else
      var p := Pump(cfg, c, input);
      && p.error == Some(r.error) && p.sent == (if c1.state == Failed then ErrorFrame() else [])
      && Agree(c, input, p.conn, c1)
  }

  lemma PumpCons(cfg: Config, c: Conn, b: byte, rest: bytes)
    requires WF(cfg, c)
    ensures var p := PumpByte(cfg, c, b);
            Pump(cfg, c, [b] + rest) == if p.error.Some? then p else Following(p.sent, Pump(cfg, p.conn, rest))
  {
    assert ([b] + rest)[1..] == rest;
  }

  lemma PumpOne(cfg: Config, c: Conn, b: byte)
    requires WF(cfg, c)
    ensures Pump(cfg, c, [b]) == PumpByte(cfg, c, b)
  {
    var p := PumpByte(cfg, c, b);
    assert p.sent + [] == p.sent;
  }

  lemma LastByteEnds(cfg: Config, c: Conn, b: byte)
    requires DriverInv(cfg, c)
    ensures EndsAt(cfg, c, b, [])
  {
    hide Feed;
    assert [b] + [] == [b];
    FeedProgress(cfg, c, [b]);
  }

  lemma EndsRefines(cfg: Config, c: Conn, b: byte, rest: bytes)
    requires DriverInv(cfg, c) && EndsAt(cfg, c, b, rest)
    ensures FeedRefines(cfg, c, [b] + rest)
  {
    hide Feed;
    PumpOne(cfg, c, b);
    assert ([b] + rest)[..1] == [b];
    FeedProgress(cfg, c, [b]);
  }

  lemma GoesOnRefines(cfg: Config, c: Conn, b: byte, rest: bytes)
    requires DriverInv(cfg, c) && GoesOn(cfg, c, b, rest) && rest != []
    requires FeedRefines(cfg, Feed(cfg, c, [b]).0, rest)
    ensures FeedRefines(cfg, c, [b] + rest)
  {
    hide Pump, Feed, Greetings.ParsePartial;
    var c1 := Feed(cfg, c, [b]).0;
    assert PumpByte(cfg, c, b) == Pumped(c1, [], None);
    var r := Feed(cfg, c1, rest).1;
    var taken := if r.Ok? then rest[..r.value] else rest;
    PumpCons(cfg, c, b, taken);
    var p := Pump(cfg, c1, taken);
    assert Following([], p) == p;
    assert r.Ok? ==> ([b] + rest)[..1 + r.value] == [b] + taken;
    assert c.state == Greeting ==> c1.greeting + rest == c.greeting + ([b] + rest);
  }

  lemma GoesOnInv(cfg: Config, c: Conn, b: byte, rest: bytes)
    requires DriverInv(cfg, c) && GoesOn(cfg, c, b, rest)
    ensures DriverInv(cfg, Feed(cfg, c, [b]).0)
  {
    hide Feed;
    FeedIsFed(cfg, c, [b]);
  }

  /** One call of `feed`, of whatever length, with its reply, is a run of the byte machine. */
  lemma {:induction false} FeedIsPump(cfg: Config, c: Conn, input: bytes)
    requires DriverInv(cfg, c) && input != []
    ensures FeedRefines(cfg, c, input)
    decreases |input|
  {
    hide Pump, Feed, FeedRefines, EndsAt, GoesOn, DriverInv;
    var b, rest := input[0], input[1..];
    assert input == [b] + rest;
    Split(cfg, c, b, rest);
    if rest == [] {
      LastByteEnds(cfg, c, b);
    }
    if EndsAt(cfg, c, b, rest) {
      EndsRefines(cfg, c, b, rest);
    } else {
      GoesOnInv(cfg, c, b, rest);
      FeedIsPump(cfg, Feed(cfg, c, [b]).0, rest);
      GoesOnRefines(cfg, c, b, rest);
    }
  }

  // ----- a drain is a run of the byte machine -----

  lemma ReplyIsReact(cfg: Config, prev: State, c: Conn, net: Net)
    requires Fed(cfg, prev, c) && net.writeScript == []
    ensures var (c', out) := React(cfg, prev, c);
            Reply(cfg, prev, c, net) == (c', net.(sent := net.sent + out), Ok(Turn(prev, c.state)))
  {
    var ready := NullMechanism.ReadyFrame(cfg.role);
    assert net.sent + (PlainMechanism.WELCOME_FRAME + ready) == net.sent + PlainMechanism.WELCOME_FRAME + ready;
    assert net.sent + [] == net.sent;
  }

  /** From `(c, net)` to `(c', net')` by pumping exactly `bs`. */
  ghost predicate Pumps(cfg: Config, c: Conn, net: Net, bs: bytes, c': Conn, net': Net)
    requires WF(cfg, c)
  {
    var p := Pump(cfg, c, bs);
    p.conn == c' && p.error == None && net' == net.(sent := net.sent + p.sent)
  }

  /** Pumping `bs` fails with `e`, having written what was written. */
  ghost predicate Breaks(cfg: Config, c: Conn, net: Net, bs: bytes, c': Conn, net': Net, e: ConnError)
    requires WF(cfg, c)
  {
    var p := Pump(cfg, c, bs);
    Agree(c, bs, p.conn, c') && p.error == Some(e) && net' == net.(sent := net.sent + p.sent)
  }

  lemma PumpsNothing(cfg: Config, c: Conn, net: Net)
    requires WF(cfg, c)
    ensures Pumps(cfg, c, net, [], c, net)
  {
    assert net.sent + [] == net.sent;
  }

  lemma PumpsThenPumps(cfg: Config, c: Conn, net: Net, a: bytes, c1: Conn, net1: Net, b: bytes, c2: Conn, net2: Net)
    requires WF(cfg, c) && Pumps(cfg, c, net, a, c1, net1)
    requires WF(cfg, c1) && Pumps(cfg, c1, net1, b, c2, net2)
    ensures Pumps(cfg, c, net, a + b, c2, net2)
  {
    hide Pump;
    PumpAppend(cfg, c, a, b);
    var p, q := Pump(cfg, c, a), Pump(cfg, c1, b);
    assert net.sent + p.sent + q.sent == net.sent + (p.sent + q.sent);
  }

  lemma PumpByteInv(cfg: Config, c: Conn, b: byte)
    requires DriverInv(cfg, c)
    ensures DriverInv(cfg, PumpByte(cfg, c, b).conn)
  {
    hide Feed, React, Fed, DriverInv;
    FeedIsFed(cfg, c, [b]);
    var (c1, r) := Feed(cfg, c, [b]);
    if r.Ok? {
      ReplyIsReact(cfg, c.state, c1, Net([], [], []));
      ReplyInv(cfg, c.state, c1, Net([], [], []));
    }
  }

  lemma {:induction false} PumpInv(cfg: Config, c: Conn, bs: bytes)
    requires DriverInv(cfg, c)
    ensures DriverInv(cfg, Pump(cfg, c, bs).conn)
    decreases |bs|
  {
    hide PumpByte, DriverInv;
    if bs != [] {
      PumpByteInv(cfg, c, bs[0]);
      var p := PumpByte(cfg, c, bs[0]);
      if p.error.None? {
        PumpInv(cfg, p.conn, bs[1..]);
      }
    }
  }

  lemma FeedStores(cfg: Config, c: Conn, b: byte)
    requires DriverInv(cfg, c)
    ensures var (c', r) := Feed(cfg, c, [b]);
            r.Ok? && c'.state == State.Greeting ==>
              c.state == State.Greeting && c'.greeting == c.greeting + [b]
  {
    hide FrameSpec.Feed, Greetings.ParseGreeting, Greetings.ParsePartial, NullMechanism.ReadyFrom,
         PlainMechanism.HelloFrom, OpOf, TableAfter;
    FeedProgress(cfg, c, [b]);
    if c.state == State.Greeting && |c.greeting| < 64 {
      assert [b][..1] == [b];
    }
  }

  lemma StoresByte(cfg: Config, c: Conn, b: byte)
    requires DriverInv(cfg, c)
    ensures var p := PumpByte(cfg, c, b);
            p.error.None? && p.conn.state == State.Greeting ==>
              c.state == State.Greeting && p.conn.greeting == c.greeting + [b]
  {
    hide Feed, DriverInv, PongFrame, NullMechanism.ReadyFrame;
    FeedStores(cfg, c, b);
  }

  /** While the greeting is being received, every byte of it is stored. */
  lemma {:induction false} GreetingIsStored(cfg: Config, c: Conn, bs: bytes)
    requires DriverInv(cfg, c)
    ensures var p := Pump(cfg, c, bs);
            p.error.None? && p.conn.state == State.Greeting ==>
              c.state == State.Greeting && p.conn.greeting == c.greeting + bs
    decreases |bs|
  {
    hide PumpByte, DriverInv;
    if bs == [] {
      assert c.greeting + bs == c.greeting;
    } else {
      PumpByteInv(cfg, c, bs[0]);
      StoresByte(cfg, c, bs[0]);
      var p := PumpByte(cfg, c, bs[0]);
      if p.error.None? {
        GreetingIsStored(cfg, p.conn, bs[1..]);
        assert c.greeting + [bs[0]] + bs[1..] == c.greeting + bs;
      }
    }
  }

  /** If the cut shows later on, it shows in the whole. */
  lemma VariesLater(cfg: Config, c: Conn, a: bytes, b: bytes)
    requires DriverInv(cfg, c) && Pump(cfg, c, a).error.None? && Varies(Pump(cfg, c, a).conn, b)
    ensures Varies(c, a + b)
  {
    hide Pump, DriverInv;
    GreetingIsStored(cfg, c, a);
    assert c.greeting + a + b == c.greeting + (a + b);
  }

  lemma PumpsThenBreaks(cfg: Config, c: Conn, net: Net, a: bytes, c1: Conn, net1: Net,
                        b: bytes, c2: Conn, net2: Net, e: ConnError)
    requires DriverInv(cfg, c) && Pumps(cfg, c, net, a, c1, net1)
    requires WF(cfg, c1) && Breaks(cfg, c1, net1, b, c2, net2, e)
    ensures Breaks(cfg, c, net, a + b, c2, net2, e)
  {
    hide Pump, DriverInv, Varies;
    PumpAppend(cfg, c, a, b);
    var p, q := Pump(cfg, c, a), Pump(cfg, c1, b);
    assert net.sent + p.sent + q.sent == net.sent + (p.sent + q.sent);
    if Varies(c1, b) {
      VariesLater(cfg, c, a, b);
    }
  }

  /** One turn of the drain's loop. */
  lemma DrainTurn(cfg: Config, c: Conn, net: Net, input: bytes)
    requires DriverInv(cfg, c) && net.writeScript == [] && input != []
    ensures var (c1, fed) := Feed(cfg, c, input);
            match fed
            case Err(e) => Breaks(cfg, c, net, input, c1, SendError(c1, net), e)
            case Ok(n) =>
              var (c2, net2, replied) := Reply(cfg, c.state, c1, net);
              && n > 0 && replied.Ok? && DriverInv(cfg, c2) && net2.writeScript == []
              && Pumps(cfg, c, net, input[..n], c2, net2)
  {
    hide Pump, Feed, Reply, DriverInv, Fed;
    FeedIsPump(cfg, c, input);
    FeedIsFed(cfg, c, input);
    var (c1, fed) := Feed(cfg, c, input);
    if fed.Err? {
      assert net.sent + [] == net.sent;
    } else {
      ReplyIsReact(cfg, c.state, c1, net);
      ReplyInv(cfg, c.state, c1, net);
    }
  }

  /** What a drain of `input` comes to: a prefix of it pumped, or a refusal. */
  ghost predicate Drained(cfg: Config, c: Conn, net: Net, input: bytes, r: (Conn, Net, Result<bytes, ConnError>))
    requires WF(cfg, c)
  {
    match r.2
    case Ok(rest) => |rest| <= |input| && Pumps(cfg, c, net, input[..|input| - |rest|], r.0, r.1)
    case Err(e) => Breaks(cfg, c, net, input, r.0, r.1, e)
  }

  lemma PumpsThenDrained(cfg: Config, c: Conn, net: Net, input: bytes, n: nat, c2: Conn, net2: Net,
                         r: (Conn, Net, Result<bytes, ConnError>))
    requires DriverInv(cfg, c) && WF(cfg, c2) && n <= |input| && Pumps(cfg, c, net, input[..n], c2, net2)
    requires Drained(cfg, c2, net2, input[n..], r)
    ensures Drained(cfg, c, net, input, r)
  {
    hide Pump, Pumps, Breaks, DriverInv;
    var rest := input[n..];
    match r.2
    case Ok(left) =>
      var k := |rest| - |left|;
      PumpsThenPumps(cfg, c, net, input[..n], c2, net2, rest[..k], r.0, r.1);
      assert input[..n] + rest[..k] == input[..n + k];
    case Err(e) =>
      PumpsThenBreaks(cfg, c, net, input[..n], c2, net2, rest, r.0, r.1, e);
      assert input[..n] + rest == input;
  }

  /** A drain consumes a prefix of the buffer as the byte machine does, or fails as it does. */
  lemma {:induction false} DrainIsPump(cfg: Config, c: Conn, net: Net, input: bytes)
    requires DriverInv(cfg, c) && net.writeScript == []
    ensures Drained(cfg, c, net, input, DrainLoop(cfg, c, net, input))
    decreases |input|
  {
    hide Pump, Feed, Reply, Pumps, Breaks, DriverInv;
    if input == [] {
      PumpsNothing(cfg, c, net);
      assert input[..0] == [];
      return;
    }
    DrainTurn(cfg, c, net, input);
    var (c1, fed) := Feed(cfg, c, input);
    if fed.Ok? {
      var (c2, net2, replied) := Reply(cfg, c.state, c1, net);
      var rest := input[fed.value..];
      if replied == Ok(false) {
        DrainIsPump(cfg, c2, net2, rest);
        PumpsThenDrained(cfg, c, net, input, fed.value, c2, net2, DrainLoop(cfg, c2, net2, rest));
      }
    }
  }

  // ----- the case where the cut shows -----

  /** It is always a refusal by the early check. */
  lemma VariesIsEarly(cfg: Config, c: Conn, bs: bytes)
    requires DriverInv(cfg, c) && Varies(c, bs)
    ensures var p := Pump(cfg, c, bs);
            p.error == Some(GreetingError(Greetings.ParsePartial((c.greeting + bs)[..11]).error))
            && p.conn.state == State.Greeting
  {
    hide Pump, DriverInv, Greetings.ParsePartial, Greetings.ParseGreeting;
    FeedIsPump(cfg, c, bs);
    EarlyStores(cfg, c, bs);
  }

  /** A call that meets the early check's refusal has stored all it could of its input. */
  lemma EarlyStores(cfg: Config, c: Conn, bs: bytes)
    requires WF(cfg, c) && c.state == State.Greeting && |c.greeting| < 11 <= |c.greeting| + |bs|
    requires Greetings.ParsePartial((c.greeting + bs)[..11]).Err?
    ensures var stored := c.greeting + bs[..Min(|bs|, 64 - |c.greeting|)];
            Feed(cfg, c, bs) ==
            (c.(greeting := stored), Err(GreetingError(Greetings.ParsePartial((c.greeting + bs)[..11]).error)))
  {
    hide Greetings.ParsePartial, Greetings.ParseGreeting;
    var stored := c.greeting + bs[..Min(|bs|, 64 - |c.greeting|)];
    assert stored[..11] == (c.greeting + bs)[..11];
  }
}
