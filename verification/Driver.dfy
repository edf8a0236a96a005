/** The driver object over an abstract transport: `Driver`, and both `RadioDriver`s. */
module Drivers {
  import opened Wrappers
  import opened Bytes
  import opened ConnSpec
  import opened DriverSpec
  import Connections
  import FrameSpec
  import Greetings
  import NullMechanism
  import PlainMechanism

  class Transport {
    var net: Net

    constructor (net: Net)
      ensures this.net == net
    {
      this.net := net;
    }

    method Read(room: nat) returns (r: Result<bytes, ConnError>)
      modifies this
      ensures (net, r) == Receive(old(net), room)
    {
      if net.readScript == [] {
        return Ok([]);
      }
      match net.readScript[0]
      case ReadFails(code) =>
        net := net.(readScript := net.readScript[1..]);
        return Err(IoError(code));
      case Data(bs) =>
        if |bs| <= room {
          net := net.(readScript := net.readScript[1..]);
          return Ok(bs);
        }
        net := net.(readScript := [Data(bs[room..])] + net.readScript[1..]);
        return Ok(bs[..room]);
    }

    method WriteAll(bs: bytes) returns (e: Option<ConnError>)
      modifies this
      ensures (net, e) == Send(old(net), bs)
    {
      if net.writeScript == [] {
        net := net.(sent := net.sent + bs);
        return None;
      }
      match net.writeScript[0]
      case Accepts =>
        net := net.(writeScript := net.writeScript[1..], sent := net.sent + bs);
        return None;
      case Refuses(code, n) =>
        net := net.(writeScript := net.writeScript[1..], sent := net.sent + bs[..Min(n, |bs|)]);
        return Some(IoError(code));
    }
  }

  class Driver {
    const cfg: Config
    const conn: Connections.Connection
    const transport: Transport
    const rxBuf: array<byte>
    var rxLen: nat

    ghost predicate Valid()
      reads this, transport, rxBuf, conn, conn.Repr
    {
      && conn.Valid() && conn.cfg == cfg
      && this !in conn.Repr && transport !in conn.Repr && rxBuf !in conn.Repr
      && rxBuf.Length == RX_SIZE && rxLen <= RX_SIZE
    }

    ghost function View(): (d: Drv)
      requires Valid()
      reads this, transport, rxBuf, conn, conn.Repr
      ensures WF(cfg, d.conn) && |d.rx| == rxLen
    {
      Drv(conn.View(), transport.net, rxBuf[..rxLen])
    }

    constructor (conn: Connections.Connection, transport: Transport)
      requires conn.Valid() && transport !in conn.Repr
      ensures Valid() && cfg == conn.cfg && this.conn == conn && this.transport == transport && fresh(rxBuf)
      ensures View() == Drv(conn.View(), transport.net, [])
    {
      cfg, this.conn, this.transport := conn.cfg, conn, transport;
      rxBuf := new byte[RX_SIZE];
      rxLen := 0;
    }

    /** `new` and `new_plain`: the greeting is sent at once, and there is no driver if that fails. */
    static method New(cfg: Config, transport: Transport) returns (r: Result<Driver, ConnError>)
      modifies transport
      ensures var (d, e) := NewDriver(cfg, old(transport.net));
              match e
              case Some(e) => r == Err(e) && transport.net == d.net
              case None => r.Ok? && fresh(r.value) && r.value.Valid() && r.value.cfg == cfg && r.value.View() == d
                           && r.value.transport == transport
    {
      hide Greetings.OwnGreeting;
      var conn := new Connections.Connection(cfg);
      var greeting := new byte[64];
      var n := conn.WriteGreeting(greeting);
      var e := transport.WriteAll(greeting[..n.value]);
      if e.Some? {
        return Err(e.value);
      }
      var d := new Driver(conn, transport);
      return Ok(d);
    }

    // ----- polling -----

    method WriteReady() returns (e: Option<ConnError>)
      requires Valid()
      modifies conn, transport
      ensures Valid()
      ensures var (c, net, e') := SendReady(cfg, old(conn.View()), old(transport.net));
              conn.View() == c && transport.net == net && e == e'
    {
      hide NullMechanism.ReadyFrame;
      var ready := new byte[32];
      var n := conn.WriteReady(ready);
      if n.Err? {
        return Some(n.error);
      }
      e := transport.WriteAll(ready[..n.value]);
    }

    method WriteWelcome() returns (e: Option<ConnError>)
      requires Valid()
      modifies conn, transport
      ensures Valid()
      ensures var (c, net, e') := SendWelcome(old(conn.View()), old(transport.net));
              conn.View() == c && transport.net == net && e == e'
    {
      var welcome := new byte[PlainMechanism.WELCOME_LEN];
      var n := conn.WriteWelcome(welcome);
      if n.Err? {
        return Some(n.error);
      }
      e := transport.WriteAll(welcome[..n.value]);
    }

    method WritePong() returns (e: Option<ConnError>)
      requires Valid()
      modifies conn, transport
      ensures Valid()
      ensures var (c, net, e') := SendPong(cfg, old(conn.View()), old(transport.net));
              conn.View() == c && transport.net == net && e == e'
    {
      hide PongFrame;
      var pongBuf := new byte[23];
      var n := conn.WritePong(pongBuf);
      match n
      case Err(err) => return Some(err);
      case Ok(None) => return None;
      case Ok(Some(len)) => e := transport.WriteAll(pongBuf[..len]);
    }

    /** What follows a successful feed: the handshake's turn, after which the drain stops, or a PONG. */
    method Answer(prevState: State) returns (r: Result<bool, ConnError>)
      requires Valid()
      modifies conn, transport
      ensures Valid()
      ensures (conn.View(), transport.net, r) == Reply(cfg, prevState, old(conn.View()), old(transport.net))
    {
      hide SendReady, SendWelcome, SendPong;
      var e;
      if ReadyTurn(cfg.role, prevState, conn.state) {
        e := WriteReady();
        return if e.Some? then Err(e.value) else Ok(true);
      }
      if WelcomeTurn(cfg.role, prevState, conn.state) {
        e := WriteWelcome();
        if e.Some? {
          return Err(e.value);
        }
        e := WriteReady();
        return if e.Some? then Err(e.value) else Ok(true);
      }
      e := WritePong();
      return if e.Some? then Err(e.value) else Ok(false);
    }

    method AnswerError()
      requires Valid()
      modifies transport
      ensures Valid() && conn.View() == old(conn.View())
      ensures transport.net == SendError(conn.View(), old(transport.net))
    {
      hide NullMechanism.ErrorFrame;
      if conn.state == Failed {
        var errBuf := new byte[32];
        var n := conn.WriteError(errBuf);
        if n.Ok? {
          var _ := transport.WriteAll(errBuf[..n.value]);
        }
      }
    }

    method DrainBuffer() returns (e: Option<ConnError>)
      requires Valid()
      modifies this, transport, rxBuf, conn.Repr
      ensures Valid()
      ensures (View(), e) == Drain(cfg, old(View()))
    {
      hide DrainLoop;
      var totalConsumed;
      totalConsumed, e := FeedBuffer();
      if e.None? {
        Compact(totalConsumed);
      }
    }

    /** The loop of `drain_buffer`: how much was consumed, unless an error ended it. */
    method FeedBuffer() returns (totalConsumed: nat, e: Option<ConnError>)
      requires Valid()
      modifies transport, conn.Repr
      ensures Valid() && totalConsumed <= rxLen
      ensures DrainLoop(cfg, old(conn.View()), old(transport.net), rxBuf[..rxLen]) ==
              (conn.View(), transport.net, if e.Some? then Err(e.value) else Ok(rxBuf[..rxLen][totalConsumed..]))
      ensures totalConsumed == Consumed(cfg, old(conn.View()), old(transport.net), rxBuf[..rxLen])
    {
      hide Feed, Reply, SendError, Connections.Connection.View;
      totalConsumed, e := 0, None;
      ghost var rx := rxBuf[..rxLen];
      ghost var whole := DrainLoop(cfg, conn.View(), transport.net, rx);
      ghost var all := Consumed(cfg, conn.View(), transport.net, rx);
      assert rx[0..] == rx;
      while totalConsumed < rxLen
        invariant Valid() && rxBuf[..rxLen] == rx && totalConsumed <= rxLen
        invariant whole == DrainLoop(cfg, conn.View(), transport.net, rx[totalConsumed..])
        invariant all == totalConsumed + Consumed(cfg, conn.View(), transport.net, rx[totalConsumed..])
        modifies transport, conn.Repr
      {
        ghost var rest := rx[totalConsumed..];
        var prevState := StateNow();
        assert rxBuf[totalConsumed..rxLen] == rest;
        var fed := conn.Feed(rxBuf[totalConsumed..rxLen]);
        if fed.Err? {
          AnswerError();
          return totalConsumed, Some(fed.error);
        }
        var consumed := fed.value;
        totalConsumed := totalConsumed + consumed;
        assert rest[consumed..] == rx[totalConsumed..];
        var stop := Answer(prevState);
        if stop.Err? {
          return totalConsumed, Some(stop.error);
        }
        if stop.value || consumed == 0 {
          return totalConsumed, None;
        }
      }
    }

    method StateNow() returns (s: State)
      requires Valid()
      ensures s == conn.View().state
    {
      return conn.state;
    }

    /** `copy_within`, when anything was consumed. */
    method Compact(totalConsumed: nat)
      requires Valid() && totalConsumed <= rxLen
      modifies this, rxBuf
      ensures Valid() && conn.View() == old(conn.View())
      ensures rxBuf[..rxLen] == old(rxBuf[..rxLen])[totalConsumed..]
    {
      if totalConsumed > 0 {
        forall i | 0 <= i < rxLen - totalConsumed {
          rxBuf[i] := rxBuf[totalConsumed + i];
        }
        rxLen := rxLen - totalConsumed;
      }
    }

    /** A read into the free part of the buffer, and a drain. */
    method ReadMore() returns (r: Result<bool, ConnError>)
      requires Valid()
      modifies this, transport, rxBuf, conn.Repr
      ensures Valid()
      ensures (View(), r) == ReadAndDrain(cfg, old(View()))
    {
      hide Drain, Connections.Connection.View;
      var got := transport.Read(RX_SIZE - rxLen);
      if got.Err? {
        return Err(got.error);
      }
      var bs := got.value;
      if |bs| == 0 {
        return Err(IoError(0));
      }
      forall i | 0 <= i < |bs| {
        rxBuf[rxLen + i] := bs[i];
      }
      rxLen := rxLen + |bs|;
      assert rxBuf[..rxLen] == old(rxBuf[..rxLen]) + bs;
      var e := DrainBuffer();
      var now := StateNow();
      return if e.Some? then Err(e.value) else Ok(now == Established);
    }

    /** The first step of both polls: the result, if this was all there is to do. */
    method SendOwedReady() returns (done: Option<Result<bool, ConnError>>)
      requires Valid()
      modifies conn, transport
      ensures Valid()
      ensures (View(), done) == OwedReady(cfg, old(View()))
    {
      hide NullMechanism.ReadyFrame;
      if conn.state != Ready {
        return None;
      }
      var ready := new byte[32];
      var n := conn.WriteReady(ready);
      if n == Err(WrongState) {
        return None;
      }
      if n.Err? {
        return Some(Err(n.error));
      }
      var e := transport.WriteAll(ready[..n.value]);
      return Some(if e.Some? then Err(e.value) else Ok(false));
    }

    /** `poll` of the blocking drivers. */
    method Poll() returns (r: Result<bool, ConnError>)
      requires Valid()
      modifies this, transport, rxBuf, conn.Repr
      ensures Valid()
      ensures (View(), r) == DriverSpec.Poll(cfg, old(View()))
    {
      hide OwedReady, Drain, ReadAndDrain;
      var done := SendOwedReady();
      if done.Some? {
        return done.value;
      }
      if rxLen > 0 {
        var prevRxLen := rxLen;
        var e := DrainBuffer();
        if e.Some? {
          return Err(e.value);
        }
        if rxLen < prevRxLen {
          return Ok(conn.state == Established);
        }
      }
      r := ReadMore();
    }

    /** `poll` of the async RADIO driver. */
    method PollAsync() returns (r: Result<bool, ConnError>)
      requires Valid()
      modifies this, transport, rxBuf, conn.Repr
      ensures Valid()
      ensures (View(), r) == DriverSpec.PollAsync(cfg, old(View()))
    {
      hide OwedReady, Drain, ReadAndDrain;
      var done := SendOwedReady();
      if done.Some? {
        return done.value;
      }
      if rxLen > 0 {
        var e := DrainBuffer();
        return if e.Some? then Err(e.value) else Ok(conn.state == Established);
      }
      r := ReadMore();
    }

    // ----- publishing -----

    method Publish(topic: bytes, payload: bytes) returns (r: Result<nat, ConnError>)
      requires Valid() && |topic| < USIZE_LIMIT && |payload| < USIZE_LIMIT
      modifies transport
      ensures Valid()
      ensures (View(), r) == DriverPublish(cfg, old(View()), topic, payload)
    {
      hide Matches, FrameSpec.Header;
      var headers := conn.MakePublishHeaders(topic, payload);
      if headers.Err? {
        return Err(headers.error);
      }
      if headers.value.None? {
        return Ok(0);
      }
      var h := headers.value.value;
      ghost var spec := PublishHeaders(cfg, conn.View(), topic, payload).value.value;
      assert h.topic[..h.topicLen] == spec.0 && h.payload[..h.payloadLen] == spec.1;
      var e := WriteParts(h.topic[..h.topicLen], topic, h.payload[..h.payloadLen], payload);
      return if e.Some? then Err(e.value) else Ok(h.topicLen + |topic| + h.payloadLen + |payload|);
    }

    /** The four writes of a message. */
    method WriteParts(th: bytes, topic: bytes, ph: bytes, payload: bytes) returns (e: Option<ConnError>)
      requires Valid()
      modifies transport
      ensures Valid() && conn.View() == old(conn.View()) && rxBuf[..rxLen] == old(rxBuf[..rxLen])
      ensures (transport.net, e) == SendAll(old(transport.net), [th, topic, ph, payload])
    {
      hide Send;
      var parts := [th, topic, ph, payload];
      e := None;
      ghost var whole := SendAll(transport.net, parts);
      for i := 0 to 4
        invariant Valid() && e == None
        invariant whole == SendAll(transport.net, parts[i..])
      {
        assert parts[i..][1..] == parts[i + 1..];
        e := transport.WriteAll(parts[i]);
        if e.Some? {
          return;
        }
      }
    }
  }
}
