/**
 The drivers on values: one call of `poll` or `publish` over an abstract transport,
 which is a script of what its reads and writes will do, and the bytes sent so far.
 */
module DriverSpec {
  import opened Wrappers
  import opened Bytes
  import opened ConnSpec
  import Greetings
  import NullMechanism
  import PlainMechanism

  /** A read delivers data (none of it is end of file), or fails. */
  datatype ReadEvent = Data(bs: bytes) | ReadFails(code: nat)

  /** A write is accepted whole, or fails after `sent` bytes. */
  datatype WriteEvent = Accepts | Refuses(code: nat, sent: nat)

  /** Reads past the end of the script find end of file; writes past the end of it succeed. */
  datatype Net = Net(readScript: seq<ReadEvent>, writeScript: seq<WriteEvent>, sent: bytes)

  function Send(net: Net, bs: bytes): (Net, Option<ConnError>) {
    if net.writeScript == [] then (net.(sent := net.sent + bs), None)
    else
      match net.writeScript[0]
      case Accepts => (net.(writeScript := net.writeScript[1..], sent := net.sent + bs), None)
      case Refuses(code, n) =>
        (net.(writeScript := net.writeScript[1..], sent := net.sent + bs[..Min(n, |bs|)]), Some(IoError(code)))
  }

  function Receive(net: Net, room: nat): (r: (Net, Result<bytes, ConnError>))
    ensures r.1.Ok? ==> |r.1.value| <= room
  {
    if net.readScript == [] then (net, Ok([]))
    else
      match net.readScript[0]
      case ReadFails(code) => (net.(readScript := net.readScript[1..]), Err(IoError(code)))
      case Data(bs) =>
        if |bs| <= room then (net.(readScript := net.readScript[1..]), Ok(bs))
        else (net.(readScript := [Data(bs[room..])] + net.readScript[1..]), Ok(bs[..room]))
  }

  /** `rx` is the part of the receive buffer that is filled. */
  datatype Drv = Drv(conn: Conn, net: Net, rx: bytes)

  const RX_SIZE := 512

  // ----- what is written after bytes were fed -----

  function SendReady(cfg: Config, c: Conn, net: Net): (Conn, Net, Option<ConnError>) {
    var (c', r) := WriteReady(cfg, c, 32);
    match r
    case Err(e) => (c', net, Some(e))
    case Ok(bs) => var (net', e) := Send(net, bs); (c', net', e)
  }

  function SendWelcome(c: Conn, net: Net): (Conn, Net, Option<ConnError>) {
    var (c', r) := WriteWelcome(c, PlainMechanism.WELCOME_LEN);
    match r
    case Err(e) => (c', net, Some(e))
    case Ok(bs) => var (net', e) := Send(net, bs); (c', net', e)
  }

  function SendPong(cfg: Config, c: Conn, net: Net): (Conn, Net, Option<ConnError>)
    requires WF(cfg, c)
  {
    var (c', r) := WritePong(cfg, c, 23);
    match r
    case Err(e) => (c', net, Some(e))
    case Ok(None) => (c', net, None)
    case Ok(Some(bs)) => var (net', e) := Send(net, bs); (c', net', e)
  }

  /** Each driver's own test for its READY turn of the handshake. */
  predicate ReadyTurn(role: NullMechanism.Role, prev: State, now: State) {
    now == Ready && (if role.Pub? then prev == Greeting else prev != Ready)
  }

  predicate WelcomeTurn(role: NullMechanism.Role, prev: State, now: State) {
    role.Pub? && prev == PlainHello && now == PlainReady
  }

  /** The result is whether the drain stops here, as it does when a turn was taken. */
  function Reply(cfg: Config, prev: State, c: Conn, net: Net): (r: (Conn, Net, Result<bool, ConnError>))
    requires WF(cfg, c)
    ensures WF(cfg, r.0)
  {
    if ReadyTurn(cfg.role, prev, c.state) then
      var (c1, net1, e) := SendReady(cfg, c, net);
      (c1, net1, if e.Some? then Err(e.value) else Ok(true))
    else if WelcomeTurn(cfg.role, prev, c.state) then
      var (c1, net1, e1) := SendWelcome(c, net);
      if e1.Some? then (c1, net1, Err(e1.value))
      else
        var (c2, net2, e2) := SendReady(cfg, c1, net1);
        (c2, net2, if e2.Some? then Err(e2.value) else Ok(true))
    else
      var (c1, net1, e) := SendPong(cfg, c, net);
      (c1, net1, if e.Some? then Err(e.value) else Ok(false))
  }

  /** An error is answered with an ERROR command if the connection has failed, however that write goes. */
  function SendError(c: Conn, net: Net): Net {
    if c.state == Failed then Send(net, ErrorFrame()).0 else net
  }

  // ----- draining and polling -----

  /** The loop of `drain_buffer` over what is buffered: the part not consumed, or the first error. */
  function DrainLoop(cfg: Config, c: Conn, net: Net, input: bytes): (r: (Conn, Net, Result<bytes, ConnError>))
    requires WF(cfg, c)
    ensures WF(cfg, r.0)
    ensures r.2.Ok? ==> |r.2.value| <= |input| && r.2.value == input[|input| - |r.2.value|..]
    decreases |input|
  {
    hide Feed, Reply;
    if input == [] then (c, net, Ok(input))
    else
      var (c1, fed) := Feed(cfg, c, input);
      match fed
      case Err(e) => (c1, SendError(c1, net), Err(e))
      case Ok(n) =>
        var (c2, net2, replied) := Reply(cfg, c.state, c1, net);
        match replied
        case Err(e) => (c2, net2, Err(e))
        case Ok(stop) =>
          if stop || n == 0 then (c2, net2, Ok(input[n..])) else DrainLoop(cfg, c2, net2, input[n..])
  }

  /** How much the loop has consumed when it ends: its calls of `feed` that were not refused. */
  function Consumed(cfg: Config, c: Conn, net: Net, input: bytes): (k: nat)
    requires WF(cfg, c)
    ensures k <= |input|
    decreases |input|
  {
    hide Feed, Reply;
    if input == [] then 0
    else
      var (c1, fed) := Feed(cfg, c, input);
      match fed
      case Err(_) => 0
      case Ok(n) =>
        var (c2, net2, replied) := Reply(cfg, c.state, c1, net);
        if replied != Ok(false) || n == 0 then n else n + Consumed(cfg, c2, net2, input[n..])
  }

  /** Only a drain without error compacts the buffer. */
  function Drain(cfg: Config, d: Drv): (r: (Drv, Option<ConnError>))
    requires WF(cfg, d.conn)
    ensures WF(cfg, r.0.conn) && |r.0.rx| <= |d.rx|
  {
    var (c, net, r) := DrainLoop(cfg, d.conn, d.net, d.rx);
    match r
    case Err(e) => (Drv(c, net, d.rx), Some(e))
    case Ok(rest) => (Drv(c, net, rest), None)
  }

  function DrainAndReport(cfg: Config, d: Drv): (r: (Drv, Result<bool, ConnError>))
    requires WF(cfg, d.conn)
    ensures WF(cfg, r.0.conn) && |r.0.rx| <= |d.rx|
  {
    var (d', e) := Drain(cfg, d);
    (d', if e.Some? then Err(e.value) else Ok(d'.conn.state == Established))
  }

  function ReadAndDrain(cfg: Config, d: Drv): (r: (Drv, Result<bool, ConnError>))
    requires WF(cfg, d.conn) && |d.rx| <= RX_SIZE
    ensures WF(cfg, r.0.conn) && |r.0.rx| <= RX_SIZE
  {
    var (net, got) := Receive(d.net, RX_SIZE - |d.rx|);
    match got
    case Err(e) => (d.(net := net), Err(e))
    case Ok(bs) =>
      if bs == [] then (d.(net := net), Err(IoError(0)))
      else DrainAndReport(cfg, Drv(d.conn, net, d.rx + bs))
  }

  /** The first step of a poll: a READY still owed is sent, and that is all. */
  function OwedReady(cfg: Config, d: Drv): (Drv, Option<Result<bool, ConnError>>) {
    if d.conn.state != Ready then (d, None)
    else
      var (c, r) := WriteReady(cfg, d.conn, 32);
      match r
      case Err(WrongState) => (d.(conn := c), None)
      case Err(e) => (d.(conn := c), Some(Err(e)))
      case Ok(bs) =>
        var (net, e) := Send(d.net, bs);
        (d.(conn := c, net := net), Some(if e.Some? then Err(e.value) else Ok(false)))
  }

  /** `poll` of the blocking drivers: after a drain that consumed nothing it goes on to read. */
  function Poll(cfg: Config, d: Drv): (r: (Drv, Result<bool, ConnError>))
    requires WF(cfg, d.conn) && |d.rx| <= RX_SIZE
    ensures WF(cfg, r.0.conn) && |r.0.rx| <= RX_SIZE
  {
    var (d1, done) := OwedReady(cfg, d);
    if done.Some? then (d1, done.value)
    else if d1.rx == [] then ReadAndDrain(cfg, d1)
    else
      var (d2, e) := Drain(cfg, d1);
      if e.Some? then (d2, Err(e.value))
      else if |d2.rx| < |d1.rx| then (d2, Ok(d2.conn.state == Established))
      else ReadAndDrain(cfg, d2)
  }

  /** `poll` of the async RADIO driver: after a drain it returns, whatever was consumed. */
  function PollAsync(cfg: Config, d: Drv): (r: (Drv, Result<bool, ConnError>))
    requires WF(cfg, d.conn) && |d.rx| <= RX_SIZE
    ensures WF(cfg, r.0.conn) && |r.0.rx| <= RX_SIZE
  {
    var (d1, done) := OwedReady(cfg, d);
    if done.Some? then (d1, done.value)
    else if d1.rx != [] then DrainAndReport(cfg, d1)
    else ReadAndDrain(cfg, d1)
  }

  /** Four writes in a row, up to the first that fails. */
  function SendAll(net: Net, parts: seq<bytes>): (Net, Option<ConnError>)
    decreases |parts|
  {
    if parts == [] then (net, None)
    else
      var (net', e) := Send(net, parts[0]);
      if e.Some? then (net', e) else SendAll(net', parts[1..])
  }

  ghost function DriverPublish(cfg: Config, d: Drv, topic: bytes, payload: bytes): (Drv, Result<nat, ConnError>) {
    match PublishHeaders(cfg, d.conn, topic, payload)
    case Err(e) => (d, Err(e))
    case Ok(None) => (d, Ok(0))
    case Ok(Some((th, ph))) =>
      var (net, e) := SendAll(d.net, [th, topic, ph, payload]);
      (d.(net := net), if e.Some? then Err(e.value) else Ok(|th| + |topic| + |ph| + |payload|))
  }

  /** A new driver: our greeting has been sent. */
  function NewDriver(cfg: Config, net: Net): (r: (Drv, Option<ConnError>))
    ensures WF(cfg, r.0.conn) && r.0.rx == []
  {
    var (c, r) := WriteGreeting(cfg, Init(), Greetings.GREETING_LEN);
    var (net', e) := Send(net, if r.Ok? then r.value else []);
    (Drv(c, net', []), e)
  }
}
