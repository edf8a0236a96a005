/**
 What holds over every interleaving of public calls on a connection: the handshake
 invariant, the order of the handshake's milestones, and that a fatal error is final.
 */
module Handshake {
  import opened Wrappers
  import opened Bytes
  import opened ConnSpec
  import FrameSpec
  import Greetings
  import NullMechanism
  import PlainMechanism
  import Entries
  import GroupTable

  /** The public calls that can change a connection; `out` is the size of the caller's buffer. */
  datatype Call =
    | WriteGreetingCall(out: nat)
    | WriteReadyCall(out: nat)
    | WriteWelcomeCall(out: nat)
    | WritePongCall(out: nat)
    | FeedCall(input: bytes)

  function After(cfg: Config, c: Conn, call: Call): (c': Conn)
    requires WF(cfg, c)
    ensures WF(cfg, c')
  {
    match call
    case WriteGreetingCall(out) => WriteGreeting(cfg, c, out).0
    case WriteReadyCall(out) => WriteReady(cfg, c, out).0
    case WriteWelcomeCall(out) => WriteWelcome(c, out).0
    case WritePongCall(out) => WritePong(cfg, c, out).0
    case FeedCall(input) => Feed(cfg, c, input).0
  }

  /** The connection after the calls, from new. */
  function Run(cfg: Config, calls: seq<Call>): (c: Conn)
    ensures WF(cfg, c)
  {
    if calls == [] then Init() else After(cfg, Run(cfg, calls[..|calls| - 1]), calls[|calls| - 1])
  }

  // ----- the invariant -----

  ghost predicate TableOk(cfg: Config, t: seq<bytes>) {
    && |t| <= cfg.tableCap
    && (forall e :: e in t ==> |e| <= cfg.entryCap)
    && (cfg.role.Radio? ==> GroupTable.Distinct(t))
  }

  /** The state names the mechanism's own path. */
  ghost predicate PathOk(cfg: Config, c: Conn) {
    if cfg.mechanism.Null? then c.state != PlainHello && c.state != PlainReady && !c.welcomeSent
    else c.state != Ready && (c.readySent ==> c.welcomeSent)
  }

  /** Past `Greeting`: both greetings were exchanged, and the peer's is the one that was accepted. */
  ghost predicate GreetingOk(cfg: Config, c: Conn) {
    if c.state == Greeting then
      && !c.readySent && !c.welcomeSent && c.dec == FrameSpec.NeedFlags
      && (c.peerGreeting ==> |c.greeting| == 64 && Greetings.ParseGreeting(cfg.mechanism, c.greeting) == Ok(c.minor))
    else
      && c.greetingSent && c.peerGreeting && |c.greeting| == 64
      && Greetings.ParseGreeting(cfg.mechanism, c.greeting) == Ok(c.minor) && c.minor == c.greeting[11]
  }

  ghost predicate Inv(cfg: Config, c: Conn) {
    && WF(cfg, c) && PathOk(cfg, c) && GreetingOk(cfg, c) && TableOk(cfg, c.table)
    && (c.state == PlainHello ==> !c.welcomeSent && !c.readySent)
    && (c.state == Established ==> c.readySent && (cfg.mechanism.Plain? ==> c.welcomeSent))
    && (c.state != Established ==> c.table == [] && c.pong == None)
    && (c.state == Failed && cfg.mechanism.Null? ==> c.readySent)
  }

  lemma RemovedIsOld(t: seq<bytes>, e: bytes)
    ensures forall x :: x in Entries.Removed(t, e) ==> x in t
  {
    hide Entries.Removed;
    Entries.RemovedMultiset(t, e);
    var t' := Entries.Removed(t, e);
    forall x | x in t' ensures x in t {
      assert x in multiset(t');
    }
  }

  lemma TableAfterOk(cfg: Config, t: seq<bytes>, op: Op)
    requires TableOk(cfg, t)
    ensures TableOk(cfg, TableAfter(cfg, t, op))
  {
    hide Entries.Removed;
    match op
    case Add(e) =>
      if cfg.role.Radio? {
        GroupTable.JoinedIsSet(cfg.tableCap, cfg.entryCap, t, e);
      }
    case Drop(e) =>
      RemovedIsOld(t, e);
      if cfg.role.Radio? {
        GroupTable.LeftIsSet(t, e);
      }
    case _ =>
  }

  lemma OnFrameInv(cfg: Config, c: Conn, f: FrameSpec.Frame)
    requires Inv(cfg, c) && c.state != Greeting && !Gated(c)
    ensures Inv(cfg, OnFrame(cfg, c, f).0)
  {
    hide Greetings.ParseGreeting, Greetings.ParsePartial, NullMechanism.ReadyFrom, PlainMechanism.HelloFrom, OpOf,
         TableAfter;
    if c.state == Established {
      TableAfterOk(cfg, c.table, OpOf(cfg.role, c.minor, f));
    }
  }

  lemma FeedInv(cfg: Config, c: Conn, input: bytes)
    requires Inv(cfg, c)
    ensures Inv(cfg, Feed(cfg, c, input).0)
  {
    hide Greetings.ParsePartial, NullMechanism.ReadyFrom, PlainMechanism.HelloFrom, OpOf, TableAfter, FrameSpec.Feed,
         OnFrame;
    if c.state == Greeting {
      assert |c.greeting| == 64 ==> c.greeting + input[..0] == c.greeting;
    } else if !Gated(c) {
      var (d, fed) := FrameSpec.Feed(cfg.frameCap, c.dec, input);
      if fed.Ok? && fed.value.1.Some? {
        OnFrameInv(cfg, c.(dec := d), fed.value.1.value);
      }
    }
  }

  lemma AfterInv(cfg: Config, c: Conn, call: Call)
    requires Inv(cfg, c)
    ensures Inv(cfg, After(cfg, c, call))
  {
    if call.FeedCall? {
      FeedInv(cfg, c, call.input);
    }
  }

  lemma {:induction false} RunInv(cfg: Config, calls: seq<Call>)
    ensures Inv(cfg, Run(cfg, calls))
  {
    if calls != [] {
      RunInv(cfg, calls[..|calls| - 1]);
      AfterInv(cfg, Run(cfg, calls[..|calls| - 1]), calls[|calls| - 1]);
    }
  }

  lemma FinalStep(cfg: Config, c: Conn, call: Call)
    requires WF(cfg, c) && (c.state == Established || c.state == Failed)
    ensures After(cfg, c, call).state == c.state
  {
    hide Greetings.ParseGreeting, Greetings.ParsePartial, OpOf, TableAfter, FrameSpec.Feed;
  }

  /** Established and Failed are never left, by any calls. */
  lemma {:induction false} FinalStates(cfg: Config, calls: seq<Call>, more: seq<Call>)
    requires Run(cfg, calls).state == Established || Run(cfg, calls).state == Failed
    ensures Run(cfg, calls + more).state == Run(cfg, calls).state
    decreases |more|
  {
    hide After;
    if more == [] {
      assert calls + more == calls;
    } else {
      var butLast := more[..|more| - 1];
      FinalStates(cfg, calls, butLast);
      assert (calls + more)[..|calls + more| - 1] == calls + butLast;
      FinalStep(cfg, Run(cfg, calls + butLast), more[|more| - 1]);
    }
  }

  // ----- the milestones of the handshake, in the order they are reached -----

  datatype Milestone =
    | SentGreeting
    | AcceptedGreeting(greeting: bytes)
    | Authenticated(username: bytes, password: bytes)
    | SentWelcome
    | SentReady
    | AcceptedReady(body: bytes)

  /** The frame that a call of `Feed` completes. */
  function Completed(cfg: Config, c: Conn, input: bytes): (f: FrameSpec.Frame)
    requires WF(cfg, c)
  {
    match FrameSpec.Feed(cfg.frameCap, c.dec, input).1
    case Ok((_, Some(f))) => f
    case _ => FrameSpec.Frame(false, false, [])
  }

  /** The milestone a call reaches, if any: what was written, by its result; what was accepted, by the new state. */
  function Reached(cfg: Config, c: Conn, call: Call): seq<Milestone>
    requires WF(cfg, c)
  {
    match call
    case WriteGreetingCall(out) => If(WriteGreeting(cfg, c, out).1.Ok?, SentGreeting)
    case WriteReadyCall(out) => If(WriteReady(cfg, c, out).1.Ok?, SentReady)
    case WriteWelcomeCall(out) => If(WriteWelcome(c, out).1.Ok?, SentWelcome)
    case WritePongCall(_) => []
    case FeedCall(input) => Accepted(cfg, c, input)
  }

  function Accepted(cfg: Config, c: Conn, input: bytes): seq<Milestone>
    requires WF(cfg, c)
  {
    var c' := Feed(cfg, c, input).0;
    if c'.state == c.state || c'.state == Failed then []
    else if c.state == Greeting then [AcceptedGreeting(c'.greeting)]
    else
      var f := Completed(cfg, c, input);
      if c'.state == PlainReady then
        var hello := PlainMechanism.HelloFrom(f.isCommand, f.body);
        if hello.Ok? then [Authenticated(hello.value.0, hello.value.1)] else []
      else [AcceptedReady(f.body)]
  }

  function History(cfg: Config, calls: seq<Call>): seq<Milestone> {
    if calls == [] then []
    else
      var before := calls[..|calls| - 1];
      History(cfg, before) + Reached(cfg, Run(cfg, before), calls[|calls| - 1])
  }

  function If(b: bool, m: Milestone): seq<Milestone> {
    if b then [m] else []
  }

  ghost predicate AuthOk(cfg: Config, m: Milestone) {
    m.Authenticated? && cfg.auth(m.username, m.password)
  }

  ghost predicate ReadyOk(cfg: Config, m: Milestone) {
    m.AcceptedReady? && |m.body| <= 255 && NullMechanism.GoodReady(cfg.role, m.body)
  }

  /** The handshake so far, up to the state the connection is in. */
  ghost predicate NullShape(cfg: Config, c: Conn, h: seq<Milestone>) {
    var greetings := [SentGreeting, AcceptedGreeting(c.greeting)];
    match c.state
    case Greeting => h == If(c.greetingSent, SentGreeting)
    case Ready => h == greetings + If(c.readySent, SentReady)
    case Established => |h| == 4 && h[..3] == greetings + [SentReady] && ReadyOk(cfg, h[3])
    case Failed => c.readySent && h == greetings + [SentReady]
    case _ => false
  }

  ghost predicate PlainShape(cfg: Config, c: Conn, h: seq<Milestone>) {
    var greetings := [SentGreeting, AcceptedGreeting(c.greeting)];
    match c.state
    case Greeting => h == If(c.greetingSent, SentGreeting)
    case PlainHello => h == greetings
    case PlainReady =>
      && |h| >= 3 && AuthOk(cfg, h[2])
      && h == greetings + [h[2]] + If(c.welcomeSent, SentWelcome) + If(c.readySent, SentReady)
    case Established =>
      && |h| == 6 && AuthOk(cfg, h[2])
      && h[..5] == greetings + [h[2], SentWelcome, SentReady] && ReadyOk(cfg, h[5])
    case Failed =>
      if c.readySent then |h| == 5 && AuthOk(cfg, h[2]) && h == greetings + [h[2], SentWelcome, SentReady]
      else h == greetings
    case _ => false
  }

  ghost predicate Shape(cfg: Config, c: Conn, h: seq<Milestone>) {
    if cfg.mechanism.Null? then NullShape(cfg, c, h) else PlainShape(cfg, c, h)
  }

  lemma WriteShape(cfg: Config, c: Conn, call: Call, h: seq<Milestone>)
    requires Inv(cfg, c) && Shape(cfg, c, h) && !call.FeedCall?
    ensures Shape(cfg, After(cfg, c, call), h + Reached(cfg, c, call))
  {
    hide Greetings.ParseGreeting, Greetings.ParsePartial, NullMechanism.ReadyFrom, PlainMechanism.HelloFrom, OpOf,
         TableAfter, Feed, Greetings.OwnGreeting, NullMechanism.ReadyFrame, PongFrame, TableOk;
    assert h + [] == h;
  }

  lemma FeedGreetingShape(cfg: Config, c: Conn, input: bytes, h: seq<Milestone>)
    requires Inv(cfg, c) && Shape(cfg, c, h) && c.state == Greeting
    ensures Shape(cfg, Feed(cfg, c, input).0, h + Reached(cfg, c, FeedCall(input)))
  {
    hide Greetings.ParseGreeting, Greetings.ParsePartial, NullMechanism.ReadyFrom, PlainMechanism.HelloFrom, OpOf,
         TableAfter;
    assert h + [] == h;
  }

  /** What a completed frame adds to the milestones. */
  function FrameReached(cfg: Config, c: Conn, f: FrameSpec.Frame): seq<Milestone> {
    var c' := OnFrame(cfg, c, f).0;
    if c'.state == c.state || c'.state == Failed then []
    else if c'.state == PlainReady then
      var hello := PlainMechanism.HelloFrom(f.isCommand, f.body);
      if hello.Ok? then [Authenticated(hello.value.0, hello.value.1)] else []
    else [AcceptedReady(f.body)]
  }

  lemma OnFrameShape(cfg: Config, c: Conn, f: FrameSpec.Frame, h: seq<Milestone>)
    requires Inv(cfg, c) && Shape(cfg, c, h) && c.state != Greeting && !Gated(c)
    ensures Shape(cfg, OnFrame(cfg, c, f).0, h + FrameReached(cfg, c, f))
  {
    hide Greetings.ParseGreeting, Greetings.ParsePartial, NullMechanism.ReadyFrom, PlainMechanism.HelloFrom, OpOf,
         TableAfter, NullMechanism.GoodReady;
    NullMechanism.ReadyFromIsGood(cfg.role, f.isCommand, f.body);
    var r := FrameReached(cfg, c, f);
    assert h + [] == h;
    if r != [] {
      assert (h + r)[..|h|] == h && (h + r)[|h|] == r[0];
    }
  }

  lemma ReachedByFrame(cfg: Config, c: Conn, input: bytes)
    requires WF(cfg, c) && c.state != Greeting && !Gated(c)
    ensures var (d, fed) := FrameSpec.Feed(cfg.frameCap, c.dec, input);
            var (c', r) := (Feed(cfg, c, input).0, Reached(cfg, c, FeedCall(input)));
            if fed.Ok? && fed.value.1.Some?
            then (c', r) == (OnFrame(cfg, c.(dec := d), fed.value.1.value).0,
                             FrameReached(cfg, c.(dec := d), fed.value.1.value))
            else (c', r) == (c.(dec := d), [])
  {
    hide Greetings.ParseGreeting, Greetings.ParsePartial, NullMechanism.ReadyFrom, PlainMechanism.HelloFrom, OpOf,
         TableAfter, FrameSpec.Feed;
  }

  lemma FeedFramesShape(cfg: Config, c: Conn, input: bytes, h: seq<Milestone>)
    requires Inv(cfg, c) && Shape(cfg, c, h) && c.state != Greeting && !Gated(c)
    ensures Shape(cfg, Feed(cfg, c, input).0, h + Reached(cfg, c, FeedCall(input)))
  {
    hide Greetings.ParseGreeting, Greetings.ParsePartial, NullMechanism.ReadyFrom, PlainMechanism.HelloFrom, OpOf,
         TableAfter, FrameSpec.Feed, OnFrame, Reached, FrameReached, Feed;
    ReachedByFrame(cfg, c, input);
    var (d, fed) := FrameSpec.Feed(cfg.frameCap, c.dec, input);
    var c1 := c.(dec := d);
    assert Shape(cfg, c1, h) && Inv(cfg, c1);
    if fed.Ok? && fed.value.1.Some? {
      OnFrameShape(cfg, c1, fed.value.1.value, h);
    } else {
      assert h + [] == h;
    }
  }

  lemma ShapeStep(cfg: Config, c: Conn, call: Call, h: seq<Milestone>)
    requires Inv(cfg, c) && Shape(cfg, c, h)
    ensures Shape(cfg, After(cfg, c, call), h + Reached(cfg, c, call))
  {
    hide Shape, FeedFrames, FeedGreeting;
    if !call.FeedCall? {
      WriteShape(cfg, c, call, h);
    } else if c.state == Greeting {
      FeedGreetingShape(cfg, c, call.input, h);
    } else if Gated(c) {
      assert h + [] == h;
    } else {
      FeedFramesShape(cfg, c, call.input, h);
    }
  }

  /**
   For every list of calls, the milestones reached so far are the mechanism's handshake in
   its order, each once, up to exactly the point that the state and flags show. So
   Established means: our greeting, an accepted peer greeting, for PLAIN accepted
   credentials and WELCOME, our READY, and an accepted peer READY, in that order.
   */
  lemma {:induction false} HandshakeOrder(cfg: Config, calls: seq<Call>)
    ensures Shape(cfg, Run(cfg, calls), History(cfg, calls))
  {
    hide After, Reached, Inv;
    if calls != [] {
      var before, call := calls[..|calls| - 1], calls[|calls| - 1];
      var c := Run(cfg, before);
      HandshakeOrder(cfg, before);
      RunInv(cfg, before);
      ShapeStep(cfg, c, call, History(cfg, before));
    }
  }

  // ----- what may be written, and when -----

  function Latest(h: seq<Milestone>): Option<Milestone> {
    if h == [] then None else Some(h[|h| - 1])
  }

  /** Our READY comes after the peer's greeting, or, for PLAIN, after WELCOME. */
  predicate ReadyDue(cfg: Config, h: seq<Milestone>) {
    match Latest(h)
    case Some(AcceptedGreeting(_)) => cfg.mechanism.Null?
    case Some(SentWelcome) => cfg.mechanism.Plain?
    case _ => false
  }

  predicate WelcomeDue(h: seq<Milestone>) {
    match Latest(h)
    case Some(Authenticated(_, _)) => true
    case _ => false
  }

  /**
   After any calls, each writer succeeds exactly when it is its turn in the handshake and the
   buffer has room; out of turn it gives `WrongState`, also when it has succeeded before.
   */
  lemma WritersExactly(cfg: Config, calls: seq<Call>, out: nat)
    ensures var c, h := Run(cfg, calls), History(cfg, calls);
            && WriteGreeting(cfg, c, out).1 ==
               (if h != [] then Err(WrongState)
                else if out < 64 then Err(BufferTooSmall)
                else Ok(Greetings.OwnGreeting(cfg.mechanism)))
            && WriteReady(cfg, c, out).1 ==
               (if !ReadyDue(cfg, h) then Err(WrongState)
                else if out < (if cfg.role.Pub? then 27 else 29) then Err(BufferTooSmall)
                else Ok(NullMechanism.ReadyFrame(cfg.role)))
            && WriteWelcome(c, out).1 ==
               (if !WelcomeDue(h) then Err(WrongState)
                else if out < 10 then Err(PlainError(PlainMechanism.BufferTooSmall))
                else Ok(PlainMechanism.WELCOME_FRAME))
  {
    hide History, Run, NullMechanism.ReadyFrame, Greetings.OwnGreeting, Greetings.ParseGreeting, TableOk,
         NullMechanism.GoodReady;
    HandshakeOrder(cfg, calls);
    RunInv(cfg, calls);
  }

  function PongCommand(context: PongContext): FrameSpec.Frame {
    FrameSpec.Frame(false, true, [4] + PONG + context)
  }

  /** A PONG is written if one is queued and there is room for it, and then it is queued no longer. */
  lemma PongExactly(cfg: Config, calls: seq<Call>, out: nat)
    ensures var c := Run(cfg, calls);
            var (c', r) := WritePong(cfg, c, out);
            match c.pong
            case None => c' == c && r == Ok(None)
            case Some(context) =>
              if out < 7 + |context| then c' == c && r == Err(BufferTooSmall)
              else c'.pong == None && r == Ok(Some(FrameSpec.Encode(PongCommand(context))))
  {
    PongEncodes(cfg, calls);
    hide Run, PongFrame, FrameSpec.Encode;
  }

  lemma PongEncodes(cfg: Config, calls: seq<Call>)
    ensures var c := Run(cfg, calls);
            c.pong.Some? ==>
              PongFrame(c.pong.value) == FrameSpec.Encode(PongCommand(c.pong.value))
  {
    hide Run;
  }

  // ----- a fatal error is final -----

  ghost predicate Fatal(e: ConnError) {
    e.GreetingError? || e.DecodeError? || e.NullError? || e.PlainError?
  }

  /** No input can move the connection any further. */
  ghost predicate Dead(cfg: Config, c: Conn) {
    match c.state
    case Failed => true
    case Greeting =>
      && 11 <= |c.greeting| <= 64
      && (Greetings.ParsePartial(c.greeting[..11]).Err?
          || (|c.greeting| == 64 && Greetings.ParseGreeting(cfg.mechanism, c.greeting).Err?))
    case _ => c.dec == FrameSpec.Poisoned && !Gated(c)
  }

  /** Neither the handshake nor the table has moved, and no PONG was queued. */
  ghost predicate Unmoved(c: Conn, c': Conn) {
    && c'.state == c.state && c'.minor == c.minor && c'.peerGreeting == c.peerGreeting
    && c'.readySent == c.readySent && c'.welcomeSent == c.welcomeSent && c'.table == c.table
    && (c'.pong == c.pong || c'.pong == None)
  }

  lemma FatalIsDead(cfg: Config, c: Conn, input: bytes)
    requires WF(cfg, c)
    requires var r := Feed(cfg, c, input).1; r.Err? && Fatal(r.error)
    ensures Dead(cfg, Feed(cfg, c, input).0)
  {
    hide Greetings.ParseGreeting, Greetings.ParsePartial, NullMechanism.ReadyFrom, PlainMechanism.HelloFrom, OpOf,
         TableAfter, FrameSpec.Feed;
    if c.state == Greeting {
      var c' := Feed(cfg, c, input).0;
      if |c'.greeting| == 64 {
        Greetings.PartialAgrees(cfg.mechanism, c'.greeting);
      }
    } else {
      var (d, fed) := FrameSpec.Feed(cfg.frameCap, c.dec, input);
      if fed.Ok? && fed.value.1.Some? {
        assert OnFrame(cfg, c.(dec := d), fed.value.1.value).0.state == Failed;
      }
    }
  }

  lemma DeadGreeting(cfg: Config, c: Conn, input: bytes)
    requires WF(cfg, c) && Dead(cfg, c) && c.state == Greeting
    ensures var c' := Feed(cfg, c, input).0; Dead(cfg, c') && Unmoved(c, c')
  {
    var c' := Feed(cfg, c, input).0;
    assert c'.greeting[..11] == c.greeting[..11];
    if |c'.greeting| == 64 {
      Greetings.PartialAgrees(cfg.mechanism, c'.greeting);
      if |c.greeting| == 64 {
        assert c'.greeting == c.greeting;
      }
    }
  }

  /** A poisoned decoder takes nothing, and refuses anything there is to take. */
  lemma PoisonedFeed(cap: nat, input: bytes)
    ensures FrameSpec.Feed(cap, FrameSpec.Poisoned, input) ==
            (FrameSpec.Poisoned, if input == [] then Ok((0, None)) else Err(FrameSpec.ReservedFlagBits))
  {}

  lemma DeadStaysDead(cfg: Config, c: Conn, call: Call)
    requires Inv(cfg, c) && Dead(cfg, c)
    ensures var c' := After(cfg, c, call); Dead(cfg, c') && Unmoved(c, c')
  {
    hide Greetings.ParseGreeting, Greetings.ParsePartial, NullMechanism.ReadyFrom, PlainMechanism.HelloFrom, OpOf,
         TableAfter, FrameSpec.Feed, OnFrame;
    if call.FeedCall? {
      if c.state == Greeting {
        DeadGreeting(cfg, c, call.input);
      } else {
        PoisonedFeed(cfg.frameCap, call.input);
      }
    }
  }

  lemma {:induction false} DeadForever(cfg: Config, calls: seq<Call>, more: seq<Call>)
    requires Dead(cfg, Run(cfg, calls))
    ensures Dead(cfg, Run(cfg, calls + more)) && Unmoved(Run(cfg, calls), Run(cfg, calls + more))
  {
    hide Dead, After;
    if more == [] {
      assert calls + more == calls;
    } else {
      var butLast := more[..|more| - 1];
      DeadForever(cfg, calls, butLast);
      assert (calls + more)[..|calls + more| - 1] == calls + butLast;
      RunInv(cfg, calls + butLast);
      DeadStaysDead(cfg, Run(cfg, calls + butLast), more[|more| - 1]);
    }
  }

  /** A refused greeting or a decode error leaves the state as it was: only what a handshake frame holds fails it. */
  lemma FailedExactly(cfg: Config, c: Conn, input: bytes)
    requires WF(cfg, c)
    requires var r := Feed(cfg, c, input).1; r.Err? && Fatal(r.error)
    ensures var (c', r) := Feed(cfg, c, input);
            && (c'.state == Failed <==> r.error.NullError? || r.error.PlainError?)
            && (c'.state != Failed ==> c'.state == c.state)
  {
    hide FrameSpec.Feed, NullMechanism.ReadyFrom, PlainMechanism.HelloFrom, OpOf, TableAfter, Greetings.ParseGreeting,
         Greetings.ParsePartial;
    if c.state != Greeting {
      var (d, fed) := FrameSpec.Feed(cfg.frameCap, c.dec, input);
      if fed.Ok? && fed.value.1.Some? {
        RefusalFails(cfg, c.(dec := d), fed.value.1.value);
      }
    }
  }

  lemma RefusalFails(cfg: Config, c: Conn, f: FrameSpec.Frame)
    ensures var (c', e) := OnFrame(cfg, c, f);
            e.Some? ==> c'.state == Failed && (e.value.NullError? || e.value.PlainError?)
  {
    hide NullMechanism.ReadyFrom, PlainMechanism.HelloFrom, OpOf, TableAfter;
  }

  /** Any other error of `Feed` is a call out of turn, and leaves the connection as it was. */
  lemma OtherErrorsChangeNothing(cfg: Config, c: Conn, input: bytes)
    requires WF(cfg, c)
    requires var r := Feed(cfg, c, input).1; r.Err? && !Fatal(r.error)
    ensures Feed(cfg, c, input) == (c, Err(WrongState)) && Gated(c)
  {
    hide FrameSpec.Feed, OnFrame;
    if c.state != Greeting && !Gated(c) {
      var (d, fed) := FrameSpec.Feed(cfg.frameCap, c.dec, input);
      if fed.Ok? && fed.value.1.Some? {
        RefusalsAreFatal(cfg, c.(dec := d), fed.value.1.value);
      }
    }
  }

  lemma RefusalsAreFatal(cfg: Config, c: Conn, f: FrameSpec.Frame)
    ensures var e := OnFrame(cfg, c, f).1; e.Some? ==> Fatal(e.value)
  {}

  /**
   Every error of `Feed`, after any calls: either it is a Greeting, Decode, Null or Plain error,
   and no later calls at all advance the handshake, change the table or queue a PONG; or the
   call came out of turn, and the connection is as it was.
   */
  lemma FailureIsPermanent(cfg: Config, calls: seq<Call>, input: bytes, more: seq<Call>)
    requires Feed(cfg, Run(cfg, calls), input).1.Err?
    ensures var e := Feed(cfg, Run(cfg, calls), input).1.error;
            var failed := calls + [FeedCall(input)];
            if Fatal(e) then Unmoved(Run(cfg, failed), Run(cfg, failed + more))
            else e == WrongState && Gated(Run(cfg, calls)) && Run(cfg, failed) == Run(cfg, calls)
  {
    hide Feed, Dead, Unmoved, Fatal;
    var failed := calls + [FeedCall(input)];
    assert failed[..|failed| - 1] == calls;
    if Fatal(Feed(cfg, Run(cfg, calls), input).1.error) {
      FatalIsDead(cfg, Run(cfg, calls), input);
      DeadForever(cfg, failed, more);
    } else {
      OtherErrorsChangeNothing(cfg, Run(cfg, calls), input);
    }
  }

  // ----- when feeding makes no progress -----

  /**
   Non-empty input is neither refused nor consumed exactly when all of an accepted peer
   greeting is stored and ours has not moved the state on: a caller that feeds before it
   writes its greeting must feed once more after writing it.
   */
  lemma StallsExactly(cfg: Config, c: Conn, input: bytes)
    requires Inv(cfg, c) && input != []
    ensures Feed(cfg, c, input).1 == Ok(0) <==>
            c.state == Greeting && |c.greeting| == 64 && Greetings.ParseGreeting(cfg.mechanism, c.greeting).Ok?
  {
    hide OnFrame, Greetings.ParseGreeting, Greetings.ParsePartial;
    if c.state == Greeting && |c.greeting| == 64 {
      assert c.greeting + input[..0] == c.greeting;
    }
  }

  lemma RunOne(cfg: Config, call: Call)
    ensures Run(cfg, [call]) == After(cfg, Init(), call)
  {
    assert [call][..0] == [];
  }

  lemma GreetingAlone(cfg: Config, g: bytes)
    requires |g| == 64 && Greetings.ParseGreeting(cfg.mechanism, g).Ok?
    ensures Feed(cfg, Init(), g).0 == Init().(greeting := g, minor := g[11], peerGreeting := true)
  {
    Greetings.PartialAgrees(cfg.mechanism, g);
    assert [] + g[..64] == g;
    hide Greetings.ParseGreeting, Greetings.ParsePartial, FeedFrames;
  }

  /** Any acceptable greeting fed to a new connection, before anything is written, leads there. */
  lemma StallIsReached(cfg: Config, g: bytes, input: bytes)
    requires |g| == 64 && Greetings.ParseGreeting(cfg.mechanism, g).Ok? && input != []
    ensures var c := Run(cfg, [FeedCall(g)]);
            && c.state == Greeting && c.peerGreeting && !c.greetingSent && c.greeting == g
            && Feed(cfg, c, input).1 == Ok(0)
  {
    var calls := [FeedCall(g)];
    hide Greetings.ParseGreeting, Feed, Inv, Run;
    RunOne(cfg, FeedCall(g));
    GreetingAlone(cfg, g);
    RunInv(cfg, calls);
    StallsExactly(cfg, Run(cfg, calls), input);
  }

  /** Written late, our greeting completes the exchange at the next call of `Feed`, whatever its input. */
  lemma LateGreeting(cfg: Config, c: Conn, input: bytes, out: nat)
    requires Inv(cfg, c) && c.state == Greeting && !c.greetingSent && out >= 64
    requires |c.greeting| == 64 && Greetings.ParseGreeting(cfg.mechanism, c.greeting).Ok?
    ensures Feed(cfg, c, input) == (c.(minor := c.greeting[11], peerGreeting := true), Ok(0))
    ensures var c' := After(cfg, c, WriteGreetingCall(out));
            Feed(cfg, c', input).1 == Ok(0) && Feed(cfg, c', input).0.state == AfterGreeting(cfg.mechanism)
  {
    assert c.greeting + input[..0] == c.greeting;
  }
}
