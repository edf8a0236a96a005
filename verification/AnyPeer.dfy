/**
 Every byte string a peer can send, from the first byte on: what the handshake and what
 follows it come to, and, after any number of polls, what is published.
 */
module AnyPeer {
  import opened Wrappers
  import opened Bytes
  import opened ConnSpec
  import opened DriverSpec
  import opened ByteMachine
  import opened Polls
  import opened Established
  import opened EndToEnd
  import opened Transcripts
  import FrameSpec
  import Greetings
  import NullMechanism
  import PlainMechanism
  import SubTable

  // ----- one handshake frame -----

  /** Between frames, with our part of the handshake written as far as it is due. */
  ghost predicate Awaiting(cfg: Config, c: Conn) {
    && DriverInv(cfg, c) && c.dec == FrameSpec.NeedFlags && !Gated(c)
    && (c.state == PlainHello || c.state == Ready || c.state == PlainReady)
  }

  /** Pumping bytes where a handshake frame is due: it is not complete, or refused, or the rest goes on from there. */
  lemma FrameAwaited(cfg: Config, c: Conn, bs: bytes)
    requires Awaiting(cfg, c)
    ensures var (d, fed) := FrameSpec.Feed(cfg.frameCap, FrameSpec.NeedFlags, bs);
            if fed.Err? then Pump(cfg, c, bs) == Pumped(c.(dec := d), [], Some(DecodeError(fed.error)))
            else if fed.value.1.None? then Pump(cfg, c, bs) == Pumped(c.(dec := d), [], None)
            else
              var (n, f) := (fed.value.0, fed.value.1.value);
              var (c1, refused) := OnFrame(cfg, c, f);
              if refused.Some? then Pump(cfg, c, bs) == Pumped(c1, ErrorFrame(), refused)
              else
                var (c2, out) := React(cfg, c.state, c1);
                DriverInv(cfg, c2) && Pump(cfg, c, bs) == Following(out, Pump(cfg, c2, bs[n..]))
  {
    hide Pump, OnFrame, React, FrameSpec.Feed, ErrorFrame, DriverInv;
    var (d, fed) := FrameSpec.Feed(cfg.frameCap, FrameSpec.NeedFlags, bs);
    if bs == [] {
      PumpOfNothing(cfg, c);
      return;
    }
    FeedIsPump(cfg, c, bs);
    AwaitingFed(cfg, c, bs);
    if fed.Ok? {
      var n := fed.value.0;
      PumpAppend(cfg, c, bs[..n], bs[n..]);
      assert bs[..n] + bs[n..] == bs && bs[..|bs|] == bs;
      PumpInv(cfg, c, bs[..n]);
    }
  }

  lemma PumpOfNothing(cfg: Config, c: Conn)
    requires Awaiting(cfg, c)
    ensures Pump(cfg, c, []) == Pumped(c, [], None)
    ensures FrameSpec.Feed(cfg.frameCap, FrameSpec.NeedFlags, []) == (FrameSpec.NeedFlags, Ok((0, None)))
  {}

  /** The call and its reply. */
  lemma AwaitingFed(cfg: Config, c: Conn, bs: bytes)
    requires Awaiting(cfg, c)
    ensures var (d, fed) := FrameSpec.Feed(cfg.frameCap, FrameSpec.NeedFlags, bs);
            if fed.Err? then Feed(cfg, c, bs) == (c.(dec := d), Err(DecodeError(fed.error)))
            else if fed.value.1.None? then
              Feed(cfg, c, bs) == (c.(dec := d), Ok(|bs|)) && React(cfg, c.state, c.(dec := d)) == (c.(dec := d), [])
            else
              var (n, f) := (fed.value.0, fed.value.1.value);
              var (c1, refused) := OnFrame(cfg, c, f);
              && Feed(cfg, c, bs) == (c1, if refused.Some? then Err(refused.value) else Ok(n))
              && (refused.Some? ==> c1.state == Failed)
  {
    assert c.pong == None;
    hide FrameSpec.Feed, NullMechanism.ReadyFrom, PlainMechanism.HelloFrom, DriverInv;
    var (d, fed) := FrameSpec.Feed(cfg.frameCap, FrameSpec.NeedFlags, bs);
    assert c.(dec := FrameSpec.NeedFlags) == c;
  }

  // ----- the handshake, and all that follows, by the frames in it -----

  function Behind(d: FrameSpec.Decoded): FrameSpec.Decoded
    requires d.frames != []
  {
    d.(frames := d.frames[1..])
  }

  /** What the frames after our answers come to: READY, and then requests. */
  function AfterAnswers(cfg: Config, c: Conn, d: FrameSpec.Decoded): Pumped {
    if d.frames == [] then Pumped(c.(dec := d.st), [], DecodeFailure(d.error))
    else
      var (c1, refused) := OnReady(cfg, c, d.frames[0]);
      if refused.Some? then Pumped(c1, ErrorFrame(), refused) else Applied(cfg, c1, Behind(d))
  }

  /** What the frames after an accepted greeting come to: for PLAIN, HELLO comes first. */
  function AfterAccepted(cfg: Config, g: bytes, d: FrameSpec.Decoded): Pumped
    requires |g| == 64
  {
    var answered := AnsweredConn(cfg, g);
    if cfg.mechanism.Null? then Following(Answers(cfg), AfterAnswers(cfg, answered, d))
    else if d.frames == [] then Pumped(GreetedConn(cfg, g).(dec := d.st), [], DecodeFailure(d.error))
    else
      var (c1, refused) := OnHello(cfg, GreetedConn(cfg, g), d.frames[0]);
      if refused.Some? then Pumped(c1, ErrorFrame(), refused)
      else Following(Answers(cfg), AfterAnswers(cfg, answered, Behind(d)))
  }

  lemma ReadyMeaning(cfg: Config, g: bytes, bs: bytes)
    requires |g| == 64 && Awaiting(cfg, AnsweredConn(cfg, g))
    ensures Pump(cfg, AnsweredConn(cfg, g), bs) ==
            AfterAnswers(cfg, AnsweredConn(cfg, g), FrameSpec.Decode(cfg.frameCap, FrameSpec.NeedFlags, bs))
  {
    hide Pump, FrameSpec.Feed, FrameSpec.Decode, DriverInv, NullMechanism.ReadyFrom, ErrorFrame, Ops, Pongs, Pings,
         TableAfterAll;
    var c := AnsweredConn(cfg, g);
    FrameAwaited(cfg, c, bs);
    FrameSpec.FeedIsDecode(cfg.frameCap, FrameSpec.NeedFlags, bs);
    var fed := FrameSpec.Feed(cfg.frameCap, FrameSpec.NeedFlags, bs).1;
    if fed.Ok? && fed.value.1.Some? {
      var (n, f) := (fed.value.0, fed.value.1.value);
      var rest := FrameSpec.Decode(cfg.frameCap, FrameSpec.NeedFlags, bs[n..]);
      assert FrameSpec.Prepend(f, rest).frames[1..] == rest.frames;
      var (c1, refused) := OnReady(cfg, c, f);
      if refused.None? {
        assert React(cfg, c.state, c1) == (c1, []);
        EstablishedMeaning(cfg, c1, bs[n..]);
        var p := Pump(cfg, c1, bs[n..]);
        assert [] + p.sent == p.sent;
      }
    }
  }

  lemma AwaitingAfterGreeting(cfg: Config, g: bytes)
    requires |g| == 64 && Greetings.ParseGreeting(cfg.mechanism, g).Ok? && (cfg.role.Radio? ==> cfg.mechanism.Null?)
    ensures Awaiting(cfg, AnsweredConn(cfg, g)) && (cfg.mechanism.Plain? ==> Awaiting(cfg, GreetedConn(cfg, g)))
  {
    var minor := Greetings.ParseGreeting(cfg.mechanism, g).value;
    hide Greetings.IsMechanism;
    assert minor == g[11];
  }

  lemma HelloMeaning(cfg: Config, g: bytes, bs: bytes)
    requires |g| == 64 && Awaiting(cfg, AnsweredConn(cfg, g)) && Awaiting(cfg, GreetedConn(cfg, g))
    requires cfg.mechanism.Plain? && cfg.role.Pub?
    ensures Pump(cfg, GreetedConn(cfg, g), bs) ==
            AfterAccepted(cfg, g, FrameSpec.Decode(cfg.frameCap, FrameSpec.NeedFlags, bs))
  {
    hide Pump, FrameSpec.Feed, FrameSpec.Decode, DriverInv, PlainMechanism.HelloFrom, ErrorFrame, AfterAnswers;
    var c := GreetedConn(cfg, g);
    FrameAwaited(cfg, c, bs);
    FrameSpec.FeedIsDecode(cfg.frameCap, FrameSpec.NeedFlags, bs);
    var fed := FrameSpec.Feed(cfg.frameCap, FrameSpec.NeedFlags, bs).1;
    if fed.Ok? && fed.value.1.Some? {
      var (n, f) := (fed.value.0, fed.value.1.value);
      var rest := FrameSpec.Decode(cfg.frameCap, FrameSpec.NeedFlags, bs[n..]);
      assert FrameSpec.Prepend(f, rest).frames[1..] == rest.frames;
      var (c1, refused) := OnHello(cfg, c, f);
      if refused.None? {
        assert React(cfg, c.state, c1) == (AnsweredConn(cfg, g), Answers(cfg));
        ReadyMeaning(cfg, g, bs[n..]);
      }
    }
  }

  /** What a greeting that is not there yet, or not acceptable, is refused for, if anything. */
  function GreetingFault(cfg: Config, bs: bytes): Option<ConnError> {
    if |bs| >= 11 && Greetings.ParsePartial(bs[..11]).Err? then
      Some(GreetingError(Greetings.ParsePartial(bs[..11]).error))
    else if |bs| >= 64 && Greetings.ParseGreeting(cfg.mechanism, bs[..64]).Err? then
      Some(GreetingError(Greetings.ParseGreeting(cfg.mechanism, bs[..64]).error))
    else None
  }

  /** What any bytes come to. */
  function Meaning(cfg: Config, bs: bytes): Pumped {
    var fault := GreetingFault(cfg, bs);
    if |bs| < 64 || fault.Some? then Pumped(NewConn().(greeting := GreetingStored(bs)), [], fault)
    else AfterAccepted(cfg, bs[..64], FrameSpec.Decode(cfg.frameCap, FrameSpec.NeedFlags, bs[64..]))
  }

  /** How much of a greeting is taken. */
  function GreetingStored(bs: bytes): bytes {
    if |bs| >= 11 && Greetings.ParsePartial(bs[..11]).Err? then bs[..11] else bs[..Min(|bs|, 64)]
  }

  /**
   Any bytes at all sent to a new driver. Short of an accepted greeting nothing is answered;
   behind one, the frames decoded from the bytes decide the state, the table, what is written
   and what is refused.
   */
  lemma EveryPeer(cfg: Config, bs: bytes)
    requires cfg.role.Radio? ==> cfg.mechanism.Null?
    ensures Pump(cfg, NewConn(), bs) == Meaning(cfg, bs)
  {
    hide Pump, Greetings.ParseGreeting, Greetings.ParsePartial, DriverInv, FrameSpec.Decode, AfterAnswers, OnHello;
    if |bs| < 64 || GreetingFault(cfg, bs).Some? {
      GreetingFaulted(cfg, bs);
    } else {
      var g, rest := bs[..64], bs[64..];
      assert bs == g + rest;
      GreetingPumped(cfg, g);
      PumpAppend(cfg, NewConn(), g, rest);
      AwaitingAfterGreeting(cfg, g);
      if cfg.mechanism.Null? {
        ReadyMeaning(cfg, g, rest);
      } else {
        HelloMeaning(cfg, g, rest);
        var p := Pump(cfg, GreetedConn(cfg, g), rest);
        assert [] + p.sent == p.sent;
      }
    }
  }

  lemma GreetingFaulted(cfg: Config, bs: bytes)
    requires cfg.role.Radio? ==> cfg.mechanism.Null?
    requires |bs| < 64 || GreetingFault(cfg, bs).Some?
    ensures Pump(cfg, NewConn(), bs) == Pumped(NewConn().(greeting := GreetingStored(bs)), [], GreetingFault(cfg, bs))
  {
    hide Pump, Greetings.ParseGreeting, Greetings.ParsePartial, GreetingFault;
    var taken := GreetingStored(bs);
    if taken == [] {
      PumpNewNothing(cfg);
      assert GreetingFault(cfg, bs) == None by { NoBytesNoFault(cfg, bs); }
    } else {
      StoredPumped(cfg, bs);
      assert bs == taken + bs[|taken|..];
      PumpAppend(cfg, NewConn(), taken, bs[|taken|..]);
      if GreetingFault(cfg, bs) == None {
        assert taken == bs by { NoFaultAllStored(cfg, bs); }
      }
    }
  }

  lemma NoBytesNoFault(cfg: Config, bs: bytes)
    requires GreetingStored(bs) == []
    ensures GreetingFault(cfg, bs) == None && bs == []
  {
    hide Greetings.ParseGreeting, Greetings.ParsePartial;
  }

  lemma NoFaultAllStored(cfg: Config, bs: bytes)
    requires |bs| < 64 && GreetingFault(cfg, bs) == None
    ensures GreetingStored(bs) == bs
  {
    hide Greetings.ParseGreeting, Greetings.ParsePartial;
  }

  lemma StoredPumped(cfg: Config, bs: bytes)
    requires (cfg.role.Radio? ==> cfg.mechanism.Null?) && bs != []
    requires |bs| < 64 || GreetingFault(cfg, bs).Some?
    ensures Pump(cfg, NewConn(), GreetingStored(bs)) ==
            Pumped(NewConn().(greeting := GreetingStored(bs)), [], GreetingFault(cfg, bs))
  {
    NewConnInv(cfg);
    var taken := GreetingStored(bs);
    GreetingFaultFed(cfg, bs);
    assert !Varies(NewConn(), taken) by { StoredDoesNotVary(bs); }
    hide Pump, Feed, DriverInv, GreetingFault, GreetingStored, Varies;
    FeedIsPump(cfg, NewConn(), taken);
    assert taken[..|taken|] == taken;
  }

  lemma StoredDoesNotVary(bs: bytes)
    ensures !Varies(NewConn(), GreetingStored(bs))
  {
    hide Greetings.ParsePartial;
    var taken := GreetingStored(bs);
    assert [] + taken == taken;
    assert |taken| >= 11 ==> taken[..11] == bs[..11];
  }

  lemma PumpNewNothing(cfg: Config)
    ensures Pump(cfg, NewConn(), []) == Pumped(NewConn(), [], None)
  {}

  lemma GreetingFaultFed(cfg: Config, bs: bytes)
    requires bs != [] && (|bs| < 64 || GreetingFault(cfg, bs).Some?)
    ensures var fault := GreetingFault(cfg, bs);
            Feed(cfg, NewConn(), GreetingStored(bs)) ==
            (NewConn().(greeting := GreetingStored(bs)),
             if fault.Some? then Err(fault.value) else Ok(|GreetingStored(bs)|))
  {
    hide Greetings.ParseGreeting, Greetings.ParsePartial;
    var taken := GreetingStored(bs);
    assert [] + taken[..|taken|] == taken;
    assert |taken| >= 11 ==> taken[..11] == bs[..11];
  }

  // ----- exactly which peers are established -----

  /** The bytes start with a READY this endpoint takes, with a size field of either width. */
  ghost predicate StartsWithReady(cfg: Config, bs: bytes) {
    exists f, n: nat :: AcceptableReady(cfg, f) && FrameSpec.StartsWith(cfg.frameCap, bs, f, n)
  }

  /** For PLAIN, a HELLO this endpoint takes, and then such a READY. */
  ghost predicate StartsWithFrames(cfg: Config, bs: bytes) {
    if cfg.mechanism.Null? then StartsWithReady(cfg, bs)
    else
      exists f, n: nat :: n <= |bs| && AcceptableHello(cfg, f) && FrameSpec.StartsWith(cfg.frameCap, bs, f, n)
                          && StartsWithReady(cfg, bs[n..])
  }

  ghost predicate StartsWithHandshake(cfg: Config, bs: bytes) {
    |bs| >= 64 && Greetings.ParseGreeting(cfg.mechanism, bs[..64]).Ok? && StartsWithFrames(cfg, bs[64..])
  }

  lemma StartsWithFits(cap: nat, bs: bytes, f: FrameSpec.Frame, n: nat)
    requires FrameSpec.StartsWith(cap, bs, f, n)
    ensures FrameSpec.Encodable(f) && |f.body| <= cap
  {
    hide FrameSpec.EncodeAs;
  }

  /** The first frame of an input that starts with one. */
  lemma FirstTaken(cfg: Config, bs: bytes)
    ensures var fed := FrameSpec.Feed(cfg.frameCap, FrameSpec.NeedFlags, bs).1;
            if fed.Ok? && fed.value.1.Some? then
              && FrameSpec.StartsWith(cfg.frameCap, bs, fed.value.1.value, fed.value.0)
              && forall f, n: nat :: FrameSpec.StartsWith(cfg.frameCap, bs, f, n) ==>
                                       f == fed.value.1.value && n == fed.value.0
            else forall f, n: nat :: !FrameSpec.StartsWith(cfg.frameCap, bs, f, n)
  {
    hide FrameSpec.Feed, FrameSpec.StartsWith;
    var (s, fed) := FrameSpec.Feed(cfg.frameCap, FrameSpec.NeedFlags, bs);
    if fed.Ok? && fed.value.1.Some? {
      FrameSpec.FeedTakesExactly(cfg.frameCap, bs, fed.value.1.value, fed.value.0);
    }
    forall f, n: nat | FrameSpec.StartsWith(cfg.frameCap, bs, f, n)
      ensures (s, fed) == (FrameSpec.NeedFlags, Ok((n, Some(f))))
    {
      FrameSpec.FeedTakesExactly(cfg.frameCap, bs, f, n);
    }
  }

  lemma FrameErrors(cfg: Config, hello: Conn, ready: Conn, f: FrameSpec.Frame)
    ensures var (c, e) := OnHello(cfg, hello, f);
            c == hello.(state := if e.Some? then Failed else PlainReady) && (e.Some? ==> e.value.PlainError?)
    ensures var (c, e) := OnReady(cfg, ready, f);
            c == ready.(state := if e.Some? then Failed else Established) && (e.Some? ==> e.value.NullError?)
  {
    hide NullMechanism.ReadyFrom, PlainMechanism.HelloFrom;
  }

  /**
   What a completed handshake frame is refused for: HELLO, for its own errors or for credentials
   that the authenticator does not accept; READY, also for a body that no short frame has.
   */
  lemma RefusalsExactly(cfg: Config, c: Conn, f: FrameSpec.Frame)
    ensures var e := OnHello(cfg, c, f).1;
            && (e == Some(PlainError(PlainMechanism.AuthFailed)) <==>
                  f.isCommand && exists u, p :: PlainMechanism.Carries(f.body, u, p) && !cfg.auth(u, p))
            && forall x :: x != PlainMechanism.AuthFailed ==>
                 (e == Some(PlainError(x)) <==> PlainMechanism.HelloFrom(f.isCommand, f.body) == Err(x))
    ensures var e := OnReady(cfg, c, f).1;
            if |f.body| > 255 then e == Some(NullError(NullMechanism.MalformedMetadata))
            else forall x :: e == Some(NullError(x)) <==>
                             NullMechanism.ReadyFrom(cfg.role, f.isCommand, f.body) == Err(x)
  {
    hide NullMechanism.ReadyFrom, PlainMechanism.HelloFrom, PlainMechanism.Carries;
    PlainMechanism.HelloErrors(f.isCommand, f.body);
    PlainMechanism.HelloCarries(f.isCommand, f.body);
    var hello := PlainMechanism.HelloFrom(f.isCommand, f.body);
    if hello.Ok? {
      assert PlainMechanism.Carries(f.body, hello.value.0, hello.value.1);
    }
  }

  /** A connection that awaits READY is established exactly by bytes that start with one it takes. */
  lemma ReadyExactly(cfg: Config, g: bytes, bs: bytes)
    requires |g| == 64 && Awaiting(cfg, AnsweredConn(cfg, g))
    ensures Pump(cfg, AnsweredConn(cfg, g), bs).conn.state == Established <==> StartsWithReady(cfg, bs)
  {
    hide Pump, FrameSpec.Feed, DriverInv, OnReady, AcceptableReady, FrameSpec.StartsWith, ErrorFrame;
    var c := AnsweredConn(cfg, g);
    FrameAwaited(cfg, c, bs);
    FirstTaken(cfg, bs);
    var fed := FrameSpec.Feed(cfg.frameCap, FrameSpec.NeedFlags, bs).1;
    if fed.Ok? && fed.value.1.Some? {
      var (n, f) := (fed.value.0, fed.value.1.value);
      assert FrameSpec.Encodable(f) && |f.body| <= cfg.frameCap by { StartsWithFits(cfg.frameCap, bs, f, n); }
      TakesReady(cfg, c, f);
      FrameErrors(cfg, c, c, f);
      var (c1, refused) := OnReady(cfg, c, f);
      if refused.None? {
        EstablishedMeaning(cfg, c1, bs[n..]);
      }
    }
  }

  lemma HelloExactly(cfg: Config, g: bytes, bs: bytes)
    requires |g| == 64 && Awaiting(cfg, AnsweredConn(cfg, g)) && Awaiting(cfg, GreetedConn(cfg, g))
    requires cfg.mechanism.Plain? && cfg.role.Pub?
    ensures Pump(cfg, GreetedConn(cfg, g), bs).conn.state == Established <==> StartsWithFrames(cfg, bs)
  {
    hide Pump, FrameSpec.Feed, DriverInv, OnHello, AcceptableHello, FrameSpec.StartsWith, ErrorFrame, StartsWithReady;
    var c := GreetedConn(cfg, g);
    FrameAwaited(cfg, c, bs);
    FirstTaken(cfg, bs);
    var fed := FrameSpec.Feed(cfg.frameCap, FrameSpec.NeedFlags, bs).1;
    if fed.Ok? && fed.value.1.Some? {
      var (n, f) := (fed.value.0, fed.value.1.value);
      assert FrameSpec.Encodable(f) && |f.body| <= cfg.frameCap by { StartsWithFits(cfg.frameCap, bs, f, n); }
      TakesHello(cfg, c, f);
      FrameErrors(cfg, c, c, f);
      var (c1, refused) := OnHello(cfg, c, f);
      if refused.None? {
        assert React(cfg, c.state, c1).0 == AnsweredConn(cfg, g);
        ReadyExactly(cfg, g, bs[n..]);
      }
    }
  }

  lemma PumpExactly(cfg: Config, bs: bytes)
    requires cfg.role.Radio? ==> cfg.mechanism.Null?
    ensures Pump(cfg, NewConn(), bs).conn.state == Established <==> StartsWithHandshake(cfg, bs)
  {
    hide Pump, Greetings.ParseGreeting, Greetings.ParsePartial, DriverInv, StartsWithFrames, StartsWithReady;
    if |bs| >= 64 {
      Greetings.PartialAgrees(cfg.mechanism, bs[..64]);
      assert bs[..64][..11] == bs[..11];
    }
    if |bs| < 64 || GreetingFault(cfg, bs).Some? {
      GreetingFaulted(cfg, bs);
    } else {
      var g, rest := bs[..64], bs[64..];
      assert bs == g + rest;
      GreetingPumped(cfg, g);
      PumpAppend(cfg, NewConn(), g, rest);
      AwaitingAfterGreeting(cfg, g);
      if cfg.mechanism.Null? {
        ReadyExactly(cfg, g, rest);
        assert StartsWithFrames(cfg, rest) <==> StartsWithReady(cfg, rest) by { NullFrames(cfg, rest); }
      } else {
        HelloExactly(cfg, g, rest);
      }
    }
  }

  lemma NullFrames(cfg: Config, bs: bytes)
    requires cfg.mechanism.Null?
    ensures StartsWithFrames(cfg, bs) <==> StartsWithReady(cfg, bs)
  {
    hide StartsWithReady;
  }

  /**
   Any bytes at all sent to a new driver: they establish the connection if and only if they
   start with an acceptable handshake. A fault in the greeting is not answered, one in HELLO
   with ERROR, and one in READY with ERROR behind our answers; nothing else fails the connection.
   */
  lemma HandshakeExactness(cfg: Config, bs: bytes)
    requires cfg.role.Radio? ==> cfg.mechanism.Null?
    ensures var p := Pump(cfg, NewConn(), bs);
            && (p.conn.state == Established <==> StartsWithHandshake(cfg, bs))
            && (p.conn.state == Failed <==> p.error.Some? && (p.error.value.NullError? || p.error.value.PlainError?))
            && (p.error.Some? && p.error.value.GreetingError? ==> p.sent == [] && p.conn.state == State.Greeting)
            && (p.error.Some? && p.error.value.PlainError? ==> p.sent == ErrorFrame())
            && (p.error.Some? && p.error.value.NullError? ==> p.sent == Answers(cfg) + ErrorFrame())
  {
    hide Pump, StartsWithHandshake, FrameSpec.Decode, Greetings.ParseGreeting, Greetings.ParsePartial, ErrorFrame,
         Answers, OnReady, OnHello, Ops, Pongs, Pings, TableAfterAll;
    PumpExactly(cfg, bs);
    EveryPeer(cfg, bs);
    if |bs| >= 64 {
      var g, d := bs[..64], FrameSpec.Decode(cfg.frameCap, FrameSpec.NeedFlags, bs[64..]);
      if d.frames != [] {
        FrameErrors(cfg, GreetedConn(cfg, g), AnsweredConn(cfg, g), d.frames[0]);
        if |d.frames| > 1 {
          FrameErrors(cfg, GreetedConn(cfg, g), AnsweredConn(cfg, g), d.frames[1]);
        }
      }
    }
  }

  /** A peer that sends ERROR where its READY is due is told of its error in turn, whatever it sends besides. */
  lemma PeerErrorIsAnswered(cfg: Config, bs: bytes, reason: bytes)
    requires (cfg.role.Radio? ==> cfg.mechanism.Null?) && |reason| <= 248
    requires |bs| >= 64 && Greetings.ParseGreeting(cfg.mechanism, bs[..64]).Ok?
    requires var fs := FrameSpec.Decode(cfg.frameCap, FrameSpec.NeedFlags, bs[64..]).frames;
             var k := if cfg.mechanism.Null? then 0 else 1;
             && k < |fs| && fs[k].isCommand && fs[k].body == NullMechanism.ErrorBody(reason)
             && (cfg.mechanism.Plain? ==> OnHello(cfg, GreetedConn(cfg, bs[..64]), fs[0]).1 == None)
    ensures var p := Pump(cfg, NewConn(), bs);
            p.error == Some(NullError(NullMechanism.PeerError)) && p.sent == Answers(cfg) + ErrorFrame()
            && p.conn.state == Failed
  {
    var fs := FrameSpec.Decode(cfg.frameCap, FrameSpec.NeedFlags, bs[64..]).frames;
    var g, k := bs[..64], if cfg.mechanism.Null? then 0 else 1;
    NullMechanism.ErrorIsPeerError(reason);
    assert |fs[k].body| <= 255;
    hide NullMechanism.ErrorBody, NullMechanism.ReadyCommand;
    assert OnReady(cfg, AnsweredConn(cfg, g), fs[k]).1 == Some(NullError(NullMechanism.PeerError));
    Greetings.PartialAgrees(cfg.mechanism, g);
    assert g[..11] == bs[..11];
    hide Pump, FrameSpec.Decode, Greetings.ParseGreeting, Greetings.ParsePartial, ErrorFrame, Answers, OnReady, OnHello,
         Ops, Pongs, Pings, TableAfterAll;
    EveryPeer(cfg, bs);
    FrameErrors(cfg, GreetedConn(cfg, g), AnsweredConn(cfg, g), fs[k]);
  }

  /** A whole run: established if and only if the peer's bytes, however they are cut, start with such a handshake. */
  lemma EstablishedExactly(cfg: Config, script: seq<ReadEvent>)
    requires cfg.role.Radio? ==> cfg.mechanism.Null?
    ensures Steady(cfg, Start(cfg, script)) && Start(cfg, script).net.writeScript == []
    ensures PollAll(cfg, Start(cfg, script)).0.conn.state == Established <==>
            StartsWithHandshake(cfg, Incoming(script))
  {
    hide Pump, PollAll, Incoming, DriverInv, StartsWithHandshake, Varies;
    StartIs(cfg, script);
    RunMeaning(cfg, Start(cfg, script));
    PumpExactly(cfg, Incoming(script));
  }

  /** And what the run writes and ends with, for any bytes. */
  lemma EverySession(cfg: Config, script: seq<ReadEvent>)
    requires cfg.role.Radio? ==> cfg.mechanism.Null?
    ensures Steady(cfg, Start(cfg, script)) && Start(cfg, script).net.writeScript == []
    ensures var (d, rs) := PollAll(cfg, Start(cfg, script));
            var p := Meaning(cfg, Incoming(script));
            && Verdict(rs) == p.error && d.net.sent == Greetings.OwnGreeting(cfg.mechanism) + p.sent
            && SameButGreeting(p.conn, d.conn) && (p.error == None ==> d.conn == p.conn && d.rx == [])
  {
    hide Pump, PollAll, Incoming, DriverInv, Meaning, Varies;
    StartIs(cfg, script);
    RunMeaning(cfg, Start(cfg, script));
    EveryPeer(cfg, Incoming(script));
  }

  // ----- what is published, at any time -----

  /** The requests in the bytes: those of the frames behind the handshake, so far as they are whole. */
  function Asked(cfg: Config, bs: bytes): seq<Op>
    requires |bs| >= 64
  {
    var fs := FrameSpec.Decode(cfg.frameCap, FrameSpec.NeedFlags, bs[64..]).frames;
    var k := if cfg.mechanism.Null? then 1 else 2;
    Ops(cfg.role, bs[11], fs[Min(k, |fs|)..])
  }

  lemma EstablishedTable(cfg: Config, bs: bytes)
    requires (cfg.role.Radio? ==> cfg.mechanism.Null?) && StartsWithHandshake(cfg, bs)
    ensures var c := Pump(cfg, NewConn(), bs).conn;
            c.state == Established && c.table == TableAfterAll(cfg, [], Asked(cfg, bs))
  {
    hide Pump, FrameSpec.Decode, OnReady, OnHello, StartsWithFrames, Greetings.ParseGreeting, Greetings.ParsePartial,
         TableAfterAll, Ops;
    PumpExactly(cfg, bs);
    EveryPeer(cfg, bs);
    Greetings.PartialAgrees(cfg.mechanism, bs[..64]);
    assert bs[..64][..11] == bs[..11];
    var g, d := bs[..64], FrameSpec.Decode(cfg.frameCap, FrameSpec.NeedFlags, bs[64..]);
    if cfg.mechanism.Null? {
      FrameErrors(cfg, GreetedConn(cfg, g), AnsweredConn(cfg, g), d.frames[0]);
    } else {
      FrameErrors(cfg, GreetedConn(cfg, g), AnsweredConn(cfg, g), d.frames[0]);
      FrameErrors(cfg, GreetedConn(cfg, g), AnsweredConn(cfg, g), d.frames[1]);
      assert d.frames[1..][1..] == d.frames[2..];
    }
  }

  /** The connection after any number of polls, in the middle of a frame or not. */
  lemma AfterPolls(cfg: Config, script: seq<ReadEvent>, n: nat)
    requires cfg.role.Radio? ==> cfg.mechanism.Null?
    ensures var d := Start(cfg, script);
            var (d', e) := PollTimes(cfg, d, n);
            var bs := Used(d, d', e);
            && (d'.conn.state == Established <==> StartsWithHandshake(cfg, bs))
            && (d'.conn.state == Established ==> d'.conn.table == TableAfterAll(cfg, [], Asked(cfg, bs)))
  {
    hide Pump, PollTimes, DriverInv, StartsWithHandshake, Used, TableAfterAll, Asked;
    StartIs(cfg, script);
    var d := Start(cfg, script);
    PollTimesMeaning(cfg, d, n);
    var (d', e) := PollTimes(cfg, d, n);
    var bs := Used(d, d', e);
    PumpExactly(cfg, bs);
    if StartsWithHandshake(cfg, bs) {
      EstablishedTable(cfg, bs);
    }
  }

  /**
   After any number of polls, with a frame half read or refused or not, a PUB driver publishes
   if and only if the bytes used so far start with an acceptable handshake; and a topic exactly
   when some prefix of it is in the bag that the whole frames behind that handshake filled ...
   */
  lemma PublishAnyTime(cfg: Config, script: seq<ReadEvent>, n: nat, topic: bytes, payload: bytes)
    requires cfg.role.Pub?
    ensures var d := Start(cfg, script);
            var (d', e) := PollTimes(cfg, d, n);
            var bs := Used(d, d', e);
            var headers := PublishHeaders(cfg, d'.conn, topic, payload);
            && (headers.Ok? <==> StartsWithHandshake(cfg, bs))
            && (headers.Err? ==> headers == Err(WrongState))
            && (headers.Ok? ==>
                  var ops := Asked(cfg, bs);
                  && (headers.value.Some? <==>
                        exists k :: 0 <= k <= |topic| && BagAfterAll(cfg, multiset{}, ops)[topic[..k]] > 0)
                  && (NoneRefused(cfg, [], ops) ==>
                        (headers.value.Some? <==>
                           exists k :: 0 <= k <= |topic| && Balance(ops, topic[..k]) > 0)))
  {
    hide PollTimes, Start, StartsWithFrames, Used, SubTable.Matches, NoneRefused, TableAfterAll, Balance, BagAfterAll,
         Ops, FrameSpec.Decode, Greetings.ParseGreeting;
    AfterPolls(cfg, script, n);
    var d := Start(cfg, script);
    var (d', e) := PollTimes(cfg, d, n);
    var bs := Used(d, d', e);
    if StartsWithHandshake(cfg, bs) {
      var ops := Asked(cfg, bs);
      MatchesByBag(cfg, ops, topic);
      if NoneRefused(cfg, [], ops) {
        MatchesByBalance(cfg, ops, topic);
      }
    }
  }

  /** ... and a RADIO driver to a group exactly when it is in the set that they filled. */
  lemma PublishToGroupAnyTime(cfg: Config, script: seq<ReadEvent>, n: nat, group: bytes, body: bytes)
    requires cfg.role.Radio? && cfg.mechanism.Null?
    ensures var d := Start(cfg, script);
            var (d', e) := PollTimes(cfg, d, n);
            var bs := Used(d, d', e);
            var headers := PublishHeaders(cfg, d'.conn, group, body);
            && (headers.Ok? <==> StartsWithHandshake(cfg, bs))
            && (headers.Err? ==> headers == Err(WrongState))
            && (headers.Ok? ==>
                  var ops := Asked(cfg, bs);
                  && (headers.value.Some? <==> group in SetAfterAll(cfg, {}, ops))
                  && (NoneRefused(cfg, [], ops) ==> (headers.value.Some? <==> JoinedSince(ops, group))))
  {
    hide PollTimes, Start, StartsWithFrames, Used, NoneRefused, TableAfterAll, JoinedSince, SetAfterAll, Ops,
         FrameSpec.Decode, Greetings.ParseGreeting;
    AfterPolls(cfg, script, n);
    var d := Start(cfg, script);
    var (d', e) := PollTimes(cfg, d, n);
    var bs := Used(d, d', e);
    if StartsWithHandshake(cfg, bs) {
      var ops := Asked(cfg, bs);
      MatchesBySet(cfg, ops, group);
      if NoneRefused(cfg, [], ops) {
        MatchesByMembership(cfg, ops, group);
      }
    }
  }
}
