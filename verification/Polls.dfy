/**
 Whole runs of `poll`: conservation of bytes, progress, independence of how the stream is
 cut into reads, a bound on the number of polls, and agreement of the two drivers' loops.
 */
module Polls {
  import opened Wrappers
  import opened Bytes
  import opened ConnSpec
  import opened Handshake
  import opened DriverSpec
  import opened ByteMachine
  import Greetings
  import NullMechanism

  /** All the data that a script of reads will deliver. */
  function Incoming(script: seq<ReadEvent>): bytes {
    if script == [] then []
    else (if script[0].Data? then script[0].bs else []) + Incoming(script[1..])
  }

  /** The bytes not yet consumed: buffered, then still to be read. */
  function Stream(d: Drv): bytes {
    d.rx + Incoming(d.net.readScript)
  }

  /** A driver between polls. */
  ghost predicate Steady(cfg: Config, d: Drv) {
    DriverInv(cfg, d.conn) && |d.rx| <= RX_SIZE
  }

  /**
   For any transport, in every state a driver can be in: no READY is still owed, a poll with
   buffered bytes only drains them, and only a poll without any reads from the transport.
   So the blocking and the async loops do the same.
   */
  lemma PollsAgree(cfg: Config, d: Drv)
    requires Steady(cfg, d)
    ensures Poll(cfg, d) == (if d.rx == [] then ReadAndDrain(cfg, d) else DrainAndReport(cfg, d))
    ensures PollAsync(cfg, d) == Poll(cfg, d)
  {
    hide DrainLoop;
    assert OwedReady(cfg, d) == (d, None);
    DrainProgress(cfg, d.conn, d.net, d.rx);
  }

  lemma DrainKeepsSteady(cfg: Config, d: Drv)
    requires Steady(cfg, d)
    ensures var (d', r) := DrainAndReport(cfg, d);
            && Steady(cfg, d')
            && (r.Ok? && d.rx != [] ==> |d'.rx| < |d.rx|)
            && (r.Ok? && d'.rx != [] ==> Starting(d.conn.state) && !Starting(d'.conn.state))
            && (r.Ok? && !Starting(d.conn.state) ==> !Starting(d'.conn.state))
            && (r.Ok? ==> r.value == (d'.conn.state == Established))
  {
    DrainProgress(cfg, d.conn, d.net, d.rx);
  }

  lemma PollKeepsSteady(cfg: Config, d: Drv)
    requires Steady(cfg, d)
    ensures Steady(cfg, Poll(cfg, d).0)
  {
    hide Poll, PollAsync, DrainLoop, DriverInv;
    PollsAgree(cfg, d);
    if d.rx != [] {
      DrainKeepsSteady(cfg, d);
    } else {
      var (net, got) := Receive(d.net, RX_SIZE);
      if got.Ok? {
        DrainKeepsSteady(cfg, Drv(d.conn, net, d.rx + got.value));
      }
    }
  }

  // ----- what a poll answers -----

  /** A driver with a read that brings nothing, and how it looks after it. */
  function AfterRead(d: Drv): Drv
    requires d.net.readScript != []
  {
    d.(net := d.net.(readScript := d.net.readScript[1..]))
  }

  ghost predicate PollResult(d: Drv, d': Drv, r: Result<bool, ConnError>) {
    var script := d.net.readScript;
    && (r.Ok? ==> r.value == (d'.conn.state == Established))
    && (d.rx != [] ==> d'.net.readScript == script)
    && (d.rx == [] && script == [] ==> d' == d && r == Err(IoError(0)))
    && (d.rx == [] && script != [] && script[0] == Data([]) ==> d' == AfterRead(d) && r == Err(IoError(0)))
    && (d.rx == [] && script != [] && script[0].ReadFails? ==>
          d' == AfterRead(d) && r == Err(IoError(script[0].code)))
  }

  /**
   What a poll answers, on any transport. With bytes buffered it does not read. Without any, the
   end of file is `IoError(0)`, each time, and a failing read its own error, and both leave all
   as it was; and only data that came can lead to `Ok`, which says whether we are established.
   */
  lemma PollAnswers(cfg: Config, d: Drv)
    requires Steady(cfg, d)
    ensures PollResult(d, Poll(cfg, d).0, Poll(cfg, d).1)
  {
    hide Poll, PollAsync, DrainLoop, DriverInv;
    PollsAgree(cfg, d);
    DrainKeepsReads(cfg, d.conn, d.net, d.rx);
  }

  /** A READY still owed is sent before anything is drained or read, and that is all the poll does. */
  lemma OwedReadyFirst(cfg: Config, d: Drv)
    requires WF(cfg, d.conn) && |d.rx| <= RX_SIZE && d.conn.state == Ready && !d.conn.readySent
    ensures var (d', r) := Poll(cfg, d);
            var (net, e) := Send(d.net, NullMechanism.ReadyFrame(cfg.role));
            && d' == Drv(d.conn.(readySent := true), net, d.rx)
            && r == if e.Some? then Err(e.value) else Ok(false)
  {
    hide NullMechanism.ReadyFrame, Send, DrainLoop;
  }

  /** A refusal is what the poll reports; ERROR is written first if the connection failed, however that write goes. */
  lemma RefusalReported(cfg: Config, d: Drv)
    requires Steady(cfg, d) && d.rx != [] && Feed(cfg, d.conn, d.rx).1.Err?
    ensures var (c, fed) := Feed(cfg, d.conn, d.rx);
            var net := if c.state == Failed then Send(d.net, ErrorFrame()).0 else d.net;
            Poll(cfg, d) == (Drv(c, net, d.rx), Err(fed.error))
  {
    hide Poll, PollAsync, Feed, Send, ErrorFrame, DriverInv;
    PollsAgree(cfg, d);
  }

  /** A read is of at most 512 bytes: whatever more has come is there for the next. */
  lemma ReadsAtMost512(cfg: Config, d: Drv, bs: bytes, rest: seq<ReadEvent>)
    requires Steady(cfg, d) && d.rx == [] && d.net.readScript == [Data(bs)] + rest && |bs| > 512
    ensures Poll(cfg, d) == Poll(cfg, d.(net := d.net.(readScript := [Data(bs[..512]), Data(bs[512..])] + rest)))
  {
    hide Poll, PollAsync, DrainAndReport, DriverInv;
    var e := d.(net := d.net.(readScript := [Data(bs[..512]), Data(bs[512..])] + rest));
    PollsAgree(cfg, d);
    PollsAgree(cfg, e);
    assert d.net.readScript[1..] == rest;
    assert e.net.readScript[1..] == [Data(bs[512..])] + rest;
  }

  lemma SendKeepsReads(net: Net, bs: bytes)
    ensures Send(net, bs).0.readScript == net.readScript
  {}

  lemma {:induction false} DrainKeepsReads(cfg: Config, c: Conn, net: Net, input: bytes)
    requires WF(cfg, c)
    ensures DrainLoop(cfg, c, net, input).1.readScript == net.readScript
    decreases |input|
  {
    hide Feed, Reply, Send, ErrorFrame;
    if input != [] {
      var (c1, fed) := Feed(cfg, c, input);
      SendKeepsReads(net, ErrorFrame());
      if fed.Ok? {
        ReplyKeepsReads(cfg, c.state, c1, net);
        var (c2, net2, replied) := Reply(cfg, c.state, c1, net);
        if replied == Ok(false) && fed.value > 0 {
          DrainKeepsReads(cfg, c2, net2, input[fed.value..]);
        }
      }
    }
  }

  lemma ReplyKeepsReads(cfg: Config, prev: State, c: Conn, net: Net)
    requires WF(cfg, c)
    ensures Reply(cfg, prev, c, net).1.readScript == net.readScript
  {
    hide NullMechanism.ReadyFrame, PongFrame;
  }

  // ----- what a poll does to the stream -----

  /**
   From `d` to `d'` some bytes of the stream were consumed, as the byte machine does it, and
   the rest are still there, in order.
   */
  ghost predicate Advances(cfg: Config, d: Drv, d': Drv)
    requires WF(cfg, d.conn)
  {
    var s, s' := Stream(d), Stream(d');
    && |s'| <= |s| && s' == s[|s| - |s'|..]
    && var p := Pump(cfg, d.conn, s[..|s| - |s'|]);
       && p == Pumped(d'.conn, p.sent, None)
       && d'.net.sent == d.net.sent + p.sent && d'.net.writeScript == d.net.writeScript
  }

  /** From `d` the stream is refused with `e`, as the byte machine refuses it. */
  ghost predicate Fails(cfg: Config, d: Drv, d': Drv, e: ConnError)
    requires WF(cfg, d.conn)
  {
    var p := Pump(cfg, d.conn, Stream(d));
    && p.error == Some(e) && Agree(d.conn, Stream(d), p.conn, d'.conn)
    && d'.net.sent == d.net.sent + p.sent && d'.net.writeScript == d.net.writeScript
  }

  lemma AdvancesNot(cfg: Config, d: Drv, d': Drv)
    requires WF(cfg, d.conn) && d'.conn == d.conn && Stream(d') == Stream(d)
    requires d'.net.sent == d.net.sent && d'.net.writeScript == d.net.writeScript
    ensures Advances(cfg, d, d')
  {
    hide Incoming;
    var s := Stream(d);
    assert s[..0] == [] && s[0..] == s;
    assert d.net.sent + [] == d.net.sent;
  }

  lemma AdvancesTwice(cfg: Config, d: Drv, d1: Drv, d2: Drv)
    requires WF(cfg, d.conn) && WF(cfg, d1.conn) && Advances(cfg, d, d1) && Advances(cfg, d1, d2)
    ensures Advances(cfg, d, d2)
  {
    hide Pump, Incoming;
    var s, s1, s2 := Stream(d), Stream(d1), Stream(d2);
    var a, b := s[..|s| - |s1|], s1[..|s1| - |s2|];
    PumpAppend(cfg, d.conn, a, b);
    assert a + b == s[..|s| - |s2|];
    var p, q := Pump(cfg, d.conn, a), Pump(cfg, d1.conn, b);
    assert d.net.sent + p.sent + q.sent == d.net.sent + (p.sent + q.sent);
  }

  lemma AdvancesThenFails(cfg: Config, d: Drv, d1: Drv, d2: Drv, e: ConnError)
    requires DriverInv(cfg, d.conn) && WF(cfg, d1.conn) && Advances(cfg, d, d1) && Fails(cfg, d1, d2, e)
    ensures Fails(cfg, d, d2, e)
  {
    hide Pump, Incoming, DriverInv, Varies;
    var s, s1 := Stream(d), Stream(d1);
    var a := s[..|s| - |s1|];
    PumpAppend(cfg, d.conn, a, s1);
    assert a + s1 == s;
    var p, q := Pump(cfg, d.conn, a), Pump(cfg, d1.conn, s1);
    assert d.net.sent + p.sent + q.sent == d.net.sent + (p.sent + q.sent);
    if Varies(d1.conn, s1) {
      VariesLater(cfg, d.conn, a, s1);
    }
  }

  lemma DrainAdvances(cfg: Config, d: Drv)
    requires Steady(cfg, d) && d.net.writeScript == []
    ensures var (d', r) := DrainAndReport(cfg, d);
            && (r.Ok? ==> Advances(cfg, d, d'))
            && (r.Err? ==> Fails(cfg, d, d', r.error) && !r.error.IoError?)
            && d'.net.readScript == d.net.readScript
  {
    hide Pump, DrainLoop, Incoming;
    DrainIsPump(cfg, d.conn, d.net, d.rx);
    DrainErrors(cfg, d.conn, d.net, d.rx);
    var (c, net, r) := DrainLoop(cfg, d.conn, d.net, d.rx);
    var more := Incoming(d.net.readScript);
    match r
    case Ok(rest) =>
      var k := |d.rx| - |rest|;
      assert Stream(d)[..k] == d.rx[..k] && Stream(d)[k..] == rest + more;
    case Err(e) =>
      PumpAppend(cfg, d.conn, d.rx, more);
      VariesFurther(d.conn, d.rx, more);
  }

  lemma VariesFurther(c: Conn, a: bytes, more: bytes)
    ensures Varies(c, a) ==> Varies(c, a + more)
  {
    if Varies(c, a) {
      assert (c.greeting + (a + more))[..11] == (c.greeting + a)[..11];
    }
  }

  /** Feeding never reports a transport error. */
  lemma {:induction false} DrainErrors(cfg: Config, c: Conn, net: Net, input: bytes)
    requires DriverInv(cfg, c) && net.writeScript == []
    ensures var r := DrainLoop(cfg, c, net, input).2; r.Err? ==> !r.error.IoError?
    decreases |input|
  {
    hide Pump, Reply, WF, DriverInv, ByteMachine.Breaks, Pumps;
    if input != [] {
      DrainTurn(cfg, c, net, input);
      var (c1, fed) := Feed(cfg, c, input);
      if fed.Ok? {
        var (c2, net2, replied) := Reply(cfg, c.state, c1, net);
        DrainErrors(cfg, c2, net2, input[fed.value..]);
      }
    }
  }

  lemma ReceiveConserves(net: Net, room: nat)
    ensures var (net', got) := Receive(net, room);
            && Incoming(net.readScript) == (if got.Ok? then got.value else []) + Incoming(net'.readScript)
            && net'.sent == net.sent && net'.writeScript == net.writeScript
  {
    if net.readScript != [] && net.readScript[0].Data? && |net.readScript[0].bs| > room {
      var bs, tail := net.readScript[0].bs, net.readScript[1..];
      var script' := [Data(bs[room..])] + tail;
      assert script'[1..] == tail;
      assert bs == bs[..room] + bs[room..];
    }
  }

  /** A failed read, or end of file, loses nothing; every other poll consumes from the stream or is refused. */
  lemma PollAdvances(cfg: Config, d: Drv)
    requires Steady(cfg, d) && d.net.writeScript == []
    ensures var (d', r) := Poll(cfg, d);
            if r.Ok? || r.error.IoError? then Advances(cfg, d, d') else Fails(cfg, d, d', r.error)
  {
    hide Pump, Poll, PollAsync, DrainAndReport, Incoming, Advances, Fails, DriverInv;
    PollsAgree(cfg, d);
    if d.rx != [] {
      DrainAdvances(cfg, d);
    } else {
      ReceiveConserves(d.net, RX_SIZE);
      var (net, got) := Receive(d.net, RX_SIZE);
      var d1 := Drv(d.conn, net, if got.Ok? then got.value else []);
      assert d.rx + d1.rx == d1.rx;
      AdvancesNot(cfg, d, d1);
      if got.Ok? && got.value != [] {
        DrainAdvances(cfg, d1);
        var (d2, r) := DrainAndReport(cfg, d1);
        if r.Ok? {
          AdvancesTwice(cfg, d, d1, d2);
        } else {
          AdvancesThenFails(cfg, d, d1, d2, r.error);
        }
      }
    }
  }

  /** `n` polls, unless one is refused for any reason but a read. */
  function PollTimes(cfg: Config, d: Drv, n: nat): (r: (Drv, Option<ConnError>))
    requires WF(cfg, d.conn) && |d.rx| <= RX_SIZE
    ensures WF(cfg, r.0.conn)
    decreases n
  {
    if n == 0 then (d, None)
    else
      var (d1, r) := Poll(cfg, d);
      if r.Err? && !r.error.IoError? then (d1, Some(r.error)) else PollTimes(cfg, d1, n - 1)
  }

  lemma {:induction false} PollTimesAdvances(cfg: Config, d: Drv, n: nat)
    requires Steady(cfg, d) && d.net.writeScript == []
    ensures var (d', e) := PollTimes(cfg, d, n);
            match e
            case None => Advances(cfg, d, d')
            case Some(x) => Fails(cfg, d, d', x)
    decreases n
  {
    hide Poll, Advances, Fails, DriverInv, Incoming;
    if n == 0 {
      AdvancesNot(cfg, d, d);
    } else {
      PollAdvances(cfg, d);
      PollKeepsSteady(cfg, d);
      var (d1, r) := Poll(cfg, d);
      PollKeepsScript(cfg, d);
      PollTimesAdvances(cfg, d1, n - 1);
      if r.Ok? || r.error.IoError? {
        var (d2, e) := PollTimes(cfg, d1, n - 1);
        match e
        case None => AdvancesTwice(cfg, d, d1, d2);
        case Some(x) => AdvancesThenFails(cfg, d, d1, d2, x);
      }
    }
  }

  /** The bytes of the stream that polls have used up: those consumed, or all if one was refused. */
  function Used(d: Drv, d': Drv, e: Option<ConnError>): bytes {
    var s, s' := Stream(d), Stream(d');
    if e == None && |s'| <= |s| then s[..|s| - |s'|] else s
  }

  /** After any number of polls, the driver is where the byte machine is after the bytes used. */
  lemma PollTimesMeaning(cfg: Config, d: Drv, n: nat)
    requires Steady(cfg, d) && d.net.writeScript == []
    ensures var (d', e) := PollTimes(cfg, d, n);
            var p := Pump(cfg, d.conn, Used(d, d', e));
            && p.error == e && d'.net.sent == d.net.sent + p.sent
            && SameButGreeting(p.conn, d'.conn) && (e == None ==> p.conn == d'.conn)
  {
    hide Pump, PollTimes, Incoming, DriverInv, Varies;
    PollTimesAdvances(cfg, d, n);
  }

  lemma PollKeepsScript(cfg: Config, d: Drv)
    requires Steady(cfg, d) && d.net.writeScript == []
    ensures Poll(cfg, d).0.net.writeScript == []
  {
    hide Poll, Pump, DriverInv;
    PollAdvances(cfg, d);
  }

  lemma SuffixCancels(a: bytes, b: bytes, more: bytes, s: bytes)
    requires s == a + more && |b + more| <= |s| && b + more == s[|s| - |b + more|..]
    ensures |b| <= |a| && a == a[..|a| - |b|] + b && s[..|s| - |b + more|] == a[..|a| - |b|]
  {
    var k := |a| - |b|;
    assert forall i :: 0 <= i < |b| ==> b[i] == (b + more)[i] == s[k + i] == a[k + i];
  }

  lemma AdvancesConserves(cfg: Config, d: Drv, d': Drv, read: bytes)
    requires WF(cfg, d.conn) && Advances(cfg, d, d') && d.rx == []
    requires Incoming(d.net.readScript) == read + Incoming(d'.net.readScript)
    ensures Conserved(cfg, d, d', read)
  {
    hide Pump, Incoming, WF;
    var more := Incoming(d'.net.readScript);
    assert Stream(d) == read + more;
    SuffixCancels(read, d'.rx, more, Stream(d));
  }

  /** Of the bytes `read`, some were consumed, as the byte machine does it, and the rest are buffered. */
  ghost predicate Conserved(cfg: Config, d: Drv, d': Drv, read: bytes)
    requires WF(cfg, d.conn)
  {
    && |d'.rx| <= |read|
    && var consumed := read[..|read| - |d'.rx|];
       read == consumed + d'.rx && Pump(cfg, d.conn, consumed).conn == d'.conn
       && Pump(cfg, d.conn, consumed).error == None
  }

  /**
   Byte conservation: after any number of polls without a refusal, the bytes that have been
   read are the bytes consumed, in order, followed by what is in the buffer.
   */
  lemma BytesAreConserved(cfg: Config, d: Drv, n: nat, read: bytes)
    requires Steady(cfg, d) && d.net.writeScript == [] && d.rx == []
    ensures var (d', e) := PollTimes(cfg, d, n);
            e == None && Incoming(d.net.readScript) == read + Incoming(d'.net.readScript) ==>
              Conserved(cfg, d, d', read)
  {
    hide PollTimes, Pump, Incoming, DriverInv, Advances, Conserved;
    PollTimesAdvances(cfg, d, n);
    var (d', e) := PollTimes(cfg, d, n);
    if e == None && Incoming(d.net.readScript) == read + Incoming(d'.net.readScript) {
      AdvancesConserves(cfg, d, d', read);
    }
  }

  // ----- polling until the stream is used up -----

  function Size(script: seq<ReadEvent>): nat {
    if script == [] then 0
    else 1 + (if script[0].Data? then |script[0].bs| else 0) + Size(script[1..])
  }

  function Left(d: Drv): nat {
    |d.rx| + Size(d.net.readScript)
  }

  lemma ReceiveShrinks(net: Net)
    requires net.readScript != []
    ensures var (net', got) := Receive(net, RX_SIZE);
            Size(net'.readScript) + (if got.Ok? then |got.value| else 0) <= Size(net.readScript) &&
            (got.Err? || got.value == [] ==> Size(net'.readScript) < Size(net.readScript))
  {
    if net.readScript[0].Data? && |net.readScript[0].bs| > RX_SIZE {
      var bs, tail := net.readScript[0].bs, net.readScript[1..];
      assert ([Data(bs[RX_SIZE..])] + tail)[1..] == tail;
    }
  }

  /** Every poll that does not end the run leaves less to do. */
  lemma PollShrinks(cfg: Config, d: Drv)
    requires Steady(cfg, d) && d.net.writeScript == [] && (d.rx != [] || d.net.readScript != [])
    ensures var (d', r) := Poll(cfg, d);
            Steady(cfg, d') && (r.Ok? || r.error.IoError? ==> Left(d') < Left(d))
            && d'.net.writeScript == []
  {
    hide Poll, PollAsync, DrainAndReport, DriverInv, Pump, Incoming;
    PollsAgree(cfg, d);
    PollKeepsSteady(cfg, d);
    PollKeepsScript(cfg, d);
    if d.rx != [] {
      DrainKeepsSteady(cfg, d);
      DrainAdvances(cfg, d);
    } else {
      ReceiveShrinks(d.net);
      ReceiveConserves(d.net, RX_SIZE);
      var (net, got) := Receive(d.net, RX_SIZE);
      if got.Ok? {
        var d1 := Drv(d.conn, net, got.value);
        assert d.rx + got.value == got.value;
        DrainKeepsSteady(cfg, d1);
        DrainAdvances(cfg, d1);
      }
    }
  }

  /**
   Polls until nothing is buffered or to be read, or one is refused for any reason but a read;
   with the results of all of them. That this ends is that the driver makes progress.
   */
  function PollAll(cfg: Config, d: Drv): (Drv, seq<Result<bool, ConnError>>)
    requires Steady(cfg, d) && d.net.writeScript == []
    decreases Left(d)
  {
    if d.rx == [] && d.net.readScript == [] then (d, [])
    else
      PollShrinks(cfg, d);
      var (d1, r) := Poll(cfg, d);
      if r.Err? && !r.error.IoError? then (d1, [r])
      else
        var (d2, rs) := PollAll(cfg, d1);
        (d2, [r] + rs)
  }

  /** The error that ended a run, if one did. */
  function Verdict(rs: seq<Result<bool, ConnError>>): Option<ConnError> {
    if rs == [] then None
    else
      match rs[|rs| - 1]
      case Ok(_) => None
      case Err(e) => if e.IoError? then None else Some(e)
  }

  lemma VerdictOfCons(r: Result<bool, ConnError>, rs: seq<Result<bool, ConnError>>)
    requires r.Ok? || r.error.IoError?
    ensures Verdict([r] + rs) == Verdict(rs)
  {
    if rs != [] {
      assert ([r] + rs)[|rs|] == rs[|rs| - 1];
    }
  }

  /** A run to the end is one pass of the byte machine over the stream. */
  lemma {:induction false} PollAllIsPump(cfg: Config, d: Drv)
    requires Steady(cfg, d) && d.net.writeScript == []
    ensures var (d', rs) := PollAll(cfg, d);
            match Verdict(rs)
            case None => Advances(cfg, d, d') && Stream(d') == []
            case Some(e) => Fails(cfg, d, d', e)
    decreases Left(d)
  {
    hide Pump, Poll, Fails, Size, DriverInv, Advances;
    if d.rx == [] && d.net.readScript == [] {
      AdvancesNot(cfg, d, d);
    } else {
      PollShrinks(cfg, d);
      PollAdvances(cfg, d);
      var (d1, r) := Poll(cfg, d);
      if r.Ok? || r.error.IoError? {
        PollAllIsPump(cfg, d1);
        var (d2, rs) := PollAll(cfg, d1);
        VerdictOfCons(r, rs);
        match Verdict(rs)
        case None => AdvancesTwice(cfg, d, d1, d2);
        case Some(e) => AdvancesThenFails(cfg, d, d1, d2, e);
      }
    }
  }

  /** In terms of the byte machine's own result. */
  lemma RunMeaning(cfg: Config, d: Drv)
    requires Steady(cfg, d) && d.net.writeScript == []
    ensures var (d', rs) := PollAll(cfg, d);
            var p := Pump(cfg, d.conn, Stream(d));
            && Verdict(rs) == p.error && d'.net.sent == d.net.sent + p.sent
            && Agree(d.conn, Stream(d), p.conn, d'.conn)
            && (p.error == None ==> d'.conn == p.conn && d'.rx == [])
  {
    hide Pump, PollAll, Incoming, Verdict, DriverInv, Varies;
    PollAllIsPump(cfg, d);
    var s := Stream(d);
    assert s[..|s|] == s;
  }

  /** The errors of the early check, which the full check may give too. */
  ghost predicate EarlyError(e: ConnError) {
    e == GreetingError(Greetings.InvalidSignature) || e == GreetingError(Greetings.UnsupportedVersionMajor)
  }

  /**
   Driver chunk-independence: two drivers in the same state, whose transports deliver the same
   bytes cut in any two ways and with any failing reads in between, end with the same first
   error, the same transcript and table, and the same connection, unless the early check of
   the greeting refuses with bytes behind the 11th; then how many of those are stored may differ.
   */
  lemma ChunkIndependence(cfg: Config, d: Drv, e: Drv)
    requires Steady(cfg, d) && d.net.writeScript == [] && Steady(cfg, e) && e.net.writeScript == []
    requires d.conn == e.conn && d.net.sent == e.net.sent && Stream(d) == Stream(e)
    ensures var ((d', rs), (e', qs)) := (PollAll(cfg, d), PollAll(cfg, e));
            && Verdict(rs) == Verdict(qs) && d'.net.sent == e'.net.sent
            && SameButGreeting(d'.conn, e'.conn) && d'.conn.table == e'.conn.table
            && (!Varies(d.conn, Stream(d)) ==> d'.conn == e'.conn)
            && (Verdict(rs).None? || !EarlyError(Verdict(rs).value) ==> d'.conn == e'.conn)
  {
    hide Pump, PollAll, Incoming, Verdict, DriverInv, Greetings.ParsePartial;
    RunMeaning(cfg, d);
    RunMeaning(cfg, e);
    if Varies(d.conn, Stream(d)) {
      VariesIsEarly(cfg, d.conn, Stream(d));
      PartialErrors((d.conn.greeting + Stream(d))[..11]);
    }
  }

  lemma PartialErrors(g: bytes)
    requires |g| == 11 && Greetings.ParsePartial(g).Err?
    ensures EarlyError(GreetingError(Greetings.ParsePartial(g).error))
  {}

  /** A driver that has nothing buffered and will be delivered `script`. */
  function Waiting(c: Conn, sent: bytes, script: seq<ReadEvent>): Drv {
    Drv(c, Net(script, [], sent), [])
  }

  /** Two cuts of the same bytes end in different connections. */
  ghost predicate CutShows(cfg: Config, c: Conn, sent: bytes, bs: bytes, x: seq<ReadEvent>, y: seq<ReadEvent>)
    requires DriverInv(cfg, c)
  {
    && Incoming(x) == bs && Incoming(y) == bs
    && PollAll(cfg, Waiting(c, sent, x)).0.conn != PollAll(cfg, Waiting(c, sent, y)).0.conn
  }

  /** A first read that meets the early check's refusal ends the run, with as much stored as it held. */
  lemma EarlyRun(cfg: Config, c: Conn, sent: bytes, bs: bytes, script: seq<ReadEvent>)
    requires script != [] && script[0] == Data(bs)
    requires DriverInv(cfg, c) && c.state == State.Greeting && |c.greeting| < 11 <= |c.greeting| + |bs|
    requires |bs| <= RX_SIZE && Greetings.ParsePartial((c.greeting + bs)[..11]).Err?
    ensures PollAll(cfg, Waiting(c, sent, script)).0.conn ==
            c.(greeting := c.greeting + bs[..Min(|bs|, 64 - |c.greeting|)])
  {
    hide Feed, Greetings.ParsePartial, Poll, Reply, SendError;
    var d := Waiting(c, sent, script);
    EarlyStores(cfg, c, bs);
    PollsAgree(cfg, d);
    assert d.rx + bs == bs;
  }

  /**
   Exactly when the cut shows in the connection: it can, for two suitable cuts, if and only if
   fewer than 11 greeting bytes are stored, the first 11 fail the early check, and more follow.
   */
  lemma CutShowsExactly(cfg: Config, c: Conn, sent: bytes, bs: bytes)
    requires DriverInv(cfg, c)
    ensures Varies(c, bs) <==> exists x, y :: CutShows(cfg, c, sent, bs, x, y)
  {
    hide PollAll, DriverInv;
    if Varies(c, bs) {
      var x, y := CutThatShows(cfg, c, sent, bs);
    }
    if x, y :| CutShows(cfg, c, sent, bs, x, y) {
      assert [] + Incoming(x) == Incoming(x) && [] + Incoming(y) == Incoming(y);
      ChunkIndependence(cfg, Waiting(c, sent, x), Waiting(c, sent, y));
    }
  }

  /** Up to the 11th byte in one read and one byte more in another, against both in one. */
  lemma CutThatShows(cfg: Config, c: Conn, sent: bytes, bs: bytes)
    returns (x: seq<ReadEvent>, y: seq<ReadEvent>)
    requires DriverInv(cfg, c) && Varies(c, bs)
    ensures CutShows(cfg, c, sent, bs, x, y)
  {
    hide PollAll, DriverInv, Greetings.ParsePartial;
    var k := 11 - |c.greeting|;
    x, y := InTwo(bs, k), InTwo(bs, k + 1);
    TwoReads(bs, k);
    TwoReads(bs, k + 1);
    assert (c.greeting + bs[..k])[..11] == (c.greeting + bs[..k + 1])[..11] == (c.greeting + bs)[..11];
    EarlyRun(cfg, c, sent, bs[..k], x);
    EarlyRun(cfg, c, sent, bs[..k + 1], y);
    var cx, cy := PollAll(cfg, Waiting(c, sent, x)).0.conn, PollAll(cfg, Waiting(c, sent, y)).0.conn;
    assert |cx.greeting| == 11 && |cy.greeting| == 12;
  }

  /** Bytes cut in two reads. */
  function InTwo(bs: bytes, k: nat): seq<ReadEvent>
    requires k <= |bs|
  {
    [Data(bs[..k]), Data(bs[k..])]
  }

  lemma TwoReads(bs: bytes, k: nat)
    requires k <= |bs|
    ensures Incoming(InTwo(bs, k)) == bs
  {
    var script := InTwo(bs, k);
    assert script[1..] == [Data(bs[k..])];
    assert Incoming([Data(bs[k..])]) == bs[k..] + Incoming([]);
    assert bs == bs[..k] + bs[k..];
  }

  lemma ZerosRefused()
    ensures Greetings.ParsePartial(Greetings.Zeros(12)[..11]).Err?
  {}

  /** A witness: of 12 zero bytes to a new driver, 11 or all 12 in the first read. */
  lemma CutShowsWitness(cfg: Config, sent: bytes)
    requires cfg.role.Radio? ==> cfg.mechanism.Null?
    ensures var c := NewDriver(cfg, Net([], [], [])).0.conn;
            var bs := Greetings.Zeros(12);
            DriverInv(cfg, c) && CutShows(cfg, c, sent, bs, InTwo(bs, 11), InTwo(bs, 12))
  {
    NewDriverInv(cfg, Net([], [], []));
    var c := NewDriver(cfg, Net([], [], [])).0.conn;
    var bs := Greetings.Zeros(12);
    assert c.state == State.Greeting && c.greeting == [] && |bs| == 12;
    ZerosRefused();
    hide PollAll, DriverInv, NewDriver, Greetings.Zeros, Greetings.ParsePartial;
    assert [] + bs[..11] == bs[..11] && bs[..11][..11] == bs[..11];
    assert [] + bs[..12] == bs[..12] && bs[..12][..11] == bs[..11];
    TwoReads(bs, 11);
    TwoReads(bs, 12);
    EarlyRun(cfg, c, sent, bs[..11], InTwo(bs, 11));
    EarlyRun(cfg, c, sent, bs[..12], InTwo(bs, 12));
    var cx := PollAll(cfg, Waiting(c, sent, InTwo(bs, 11))).0.conn;
    var cy := PollAll(cfg, Waiting(c, sent, InTwo(bs, 12))).0.conn;
    assert |cx.greeting| == 11 && |cy.greeting| == 12;
  }

  // ----- how many polls that takes -----

  /** Whole reads fit the buffer. */
  ghost predicate Fits(script: seq<ReadEvent>) {
    forall i :: 0 <= i < |script| && script[i].Data? ==> |script[i].bs| <= RX_SIZE
  }

  lemma PollCounts(cfg: Config, d: Drv)
    requires Steady(cfg, d) && d.net.writeScript == [] && Fits(d.net.readScript)
    requires d.rx != [] ==> !Starting(d.conn.state)
    requires d.rx != [] || d.net.readScript != []
    ensures var (d', r) := Poll(cfg, d);
            r.Ok? || r.error.IoError? ==>
              && (d'.rx != [] ==> !Starting(d'.conn.state)) && Fits(d'.net.readScript)
              && Bound(d') < Bound(d)
  {
    hide Pump, Poll, PollAsync, DrainAndReport, Incoming, Advances, Fails, DriverInv;
    PollsAgree(cfg, d);
    if d.rx != [] {
      DrainKeepsSteady(cfg, d);
      DrainAdvances(cfg, d);
    } else {
      var (net, got) := Receive(d.net, RX_SIZE);
      assert net.readScript == d.net.readScript[1..];
      if got.Ok? {
        var d1 := Drv(d.conn, net, got.value);
        assert d.rx + got.value == got.value;
        ReceiveConserves(d.net, RX_SIZE);
        DrainKeepsSteady(cfg, d1);
        DrainAdvances(cfg, d1);
      }
    }
  }

  /** One poll for each read, and one more for what the handshake's turn may leave in the buffer. */
  function Bound(d: Drv): nat {
    |d.net.readScript| + if d.rx != [] || Starting(d.conn.state) then 1 else 0
  }

  lemma {:induction false} PollAllCounts(cfg: Config, d: Drv)
    requires Steady(cfg, d) && d.net.writeScript == [] && Fits(d.net.readScript)
    requires d.rx != [] ==> !Starting(d.conn.state)
    ensures |PollAll(cfg, d).1| <= Bound(d)
    decreases Left(d)
  {
    hide Pump, Poll, DriverInv, Advances, Fails, Incoming;
    if d.rx != [] || d.net.readScript != [] {
      PollShrinks(cfg, d);
      PollCounts(cfg, d);
      var (d1, r) := Poll(cfg, d);
      if r.Ok? || r.error.IoError? {
        PollAllCounts(cfg, d1);
      }
    }
  }

  ghost predicate AllData(script: seq<ReadEvent>) {
    forall i :: 0 <= i < |script| ==> script[i].Data? && script[i].bs != []
  }

  lemma PollReports(cfg: Config, d: Drv)
    requires Steady(cfg, d) && d.net.writeScript == [] && AllData(d.net.readScript)
    requires d.rx != [] || d.net.readScript != []
    ensures var (d', r) := Poll(cfg, d);
            && (r.Ok? ==> r.value == (d'.conn.state == Established))
            && (r.Err? ==> !r.error.IoError?) && AllData(d'.net.readScript)
  {
    hide Pump, Poll, PollAsync, DrainAndReport, Incoming, Advances, Fails, DriverInv;
    PollsAgree(cfg, d);
    if d.rx != [] {
      DrainKeepsSteady(cfg, d);
      DrainAdvances(cfg, d);
    } else {
      var (net, got) := Receive(d.net, RX_SIZE);
      assert d.rx + got.value == got.value;
      ReceiveConserves(d.net, RX_SIZE);
      var d1 := Drv(d.conn, net, got.value);
      DrainKeepsSteady(cfg, d1);
      DrainAdvances(cfg, d1);
    }
  }

  /** Without failing reads, a run without an error ends by reporting whether the connection is established. */
  lemma {:induction false} PollAllReports(cfg: Config, d: Drv)
    requires Steady(cfg, d) && d.net.writeScript == [] && AllData(d.net.readScript)
    requires Stream(d) != []
    ensures var (d', rs) := PollAll(cfg, d);
            Verdict(rs) == None ==> rs != [] && rs[|rs| - 1] == Ok(d'.conn.state == Established)
    decreases Left(d)
  {
    hide Pump, Poll, Fails, Size, DriverInv, Advances;
    PollShrinks(cfg, d);
    PollReports(cfg, d);
    PollAdvances(cfg, d);
    var (d1, r) := Poll(cfg, d);
    if r.Ok? {
      var (d2, rs) := PollAll(cfg, d1);
      if Stream(d1) != [] {
        PollAllReports(cfg, d1);
        VerdictOfCons(r, rs);
      } else {
        AllDataEmpty(d1.net.readScript);
      }
    }
  }

  lemma AllDataEmpty(script: seq<ReadEvent>)
    requires AllData(script) && Incoming(script) == []
    ensures script == []
  {}
}
