/**
 The connection as a state machine on values: PUB and RADIO differ only in the READY
 commands and in the table that peer commands update, so `Config.role` tells them apart.
 */
module ConnSpec {
  import opened Wrappers
  import opened Bytes
  import FrameSpec
  import FrameCodec
  import Greetings
  import NullMechanism
  import PlainMechanism
  import Entries
  import SubTable
  import GroupTable

  datatype State = Greeting | Ready | PlainHello | PlainReady | Established | Failed

  datatype ConnError =
    | WrongState
    | BufferTooSmall
    | IoError(code: nat)
    | GreetingError(greetingError: Greetings.GreetingError)
    | NullError(nullError: NullMechanism.NullError)
    | PlainError(plainError: PlainMechanism.PlainError)
    | FrameError(frameError: FrameCodec.FrameError)
    | DecodeError(decodeError: FrameSpec.DecodeError)

  /** The const generics, the mechanism, and the user's authenticator. */
  datatype Config = Config(
    role: NullMechanism.Role,
    mechanism: Greetings.Mechanism,
    tableCap: nat,
    entryCap: nat,
    frameCap: usize,
    auth: (bytes, bytes) -> bool)

  /** `greeting` holds the peer bytes stored so far; `pong` the context of a queued PONG. */
  datatype Conn = Conn(
    state: State,
    greetingSent: bool,
    peerGreeting: bool,
    minor: byte,
    readySent: bool,
    welcomeSent: bool,
    greeting: bytes,
    dec: FrameSpec.DecState,
    table: seq<bytes>,
    pong: Option<bytes>)

  function Init(): Conn {
    Conn(Greeting, false, false, 0, false, false, [], FrameSpec.NeedFlags, [], None)
  }

  ghost predicate WF(cfg: Config, c: Conn) {
    && |c.greeting| <= Greetings.GREETING_LEN
    && FrameSpec.DecValid(cfg.frameCap, c.dec)
    && (c.pong.Some? ==> |c.pong.value| <= 16)
  }

  // ----- what a peer frame asks of an established connection -----

  const SUBSCRIBE: bytes := [0x53, 0x55, 0x42, 0x53, 0x43, 0x52, 0x49, 0x42, 0x45]
  const CANCEL: bytes := [0x43, 0x41, 0x4E, 0x43, 0x45, 0x4C]
  const JOIN: bytes := [0x4A, 0x4F, 0x49, 0x4E]
  const LEAVE: bytes := [0x4C, 0x45, 0x41, 0x56, 0x45]
  const PING: bytes := [0x50, 0x49, 0x4E, 0x47]
  const PONG: bytes := [0x50, 0x4F, 0x4E, 0x47]

  type PongContext = s: bytes | |s| <= 16

  datatype Op = Add(entry: bytes) | Drop(entry: bytes) | Ping(context: PongContext) | Ignore

  function AddName(role: NullMechanism.Role): bytes {
    if role.Pub? then SUBSCRIBE else JOIN
  }

  function DropName(role: NullMechanism.Role): bytes {
    if role.Pub? then CANCEL else LEAVE
  }

  /** The payload after the 2-byte TTL, at most 16 bytes of it. */
  function Context(payload: bytes): PongContext {
    var ctx := if |payload| < 2 then [] else payload[2..];
    ctx[..Min(|ctx|, 16)]
  }

  function CommandOp(role: NullMechanism.Role, minor: byte, name: bytes, payload: bytes): Op {
    if name == AddName(role) then Add(payload)
    else if name == DropName(role) then Drop(payload)
    else if name == PING && minor >= 1 then Ping(Context(payload))
    else Ignore
  }

  /** A command by its name, or a version 3.0 subscription message, to PUB only. */
  function OpOf(role: NullMechanism.Role, minor: byte, f: FrameSpec.Frame): Op {
    if f.body == [] then Ignore
    else if f.isCommand then
      if |f.body| < 1 + f.body[0] as nat then Ignore
      else CommandOp(role, minor, f.body[1..1 + f.body[0]], f.body[1 + f.body[0]..])
    else if role.Radio? then Ignore
    else if f.body[0] == 1 then Add(f.body[1..])
    else if f.body[0] == 0 then Drop(f.body[1..])
    else Ignore
  }

  function TableAfter(cfg: Config, t: seq<bytes>, op: Op): seq<bytes> {
    match op
    case Add(e) =>
      if cfg.role.Pub? then SubTable.Subscribed(cfg.tableCap, cfg.entryCap, t, e).0
      else GroupTable.Joined(cfg.tableCap, cfg.entryCap, t, e).0
    case Drop(e) => Entries.Removed(t, e)
    case _ => t
  }

  // ----- feeding -----

  function Perform(cfg: Config, c: Conn, op: Op): Conn {
    c.(table := TableAfter(cfg, c.table, op), pong := if op.Ping? then Some(op.context) else c.pong)
  }

  /** An established connection: the table is updated, or a PONG queued, or nothing done. */
  function Dispatch(cfg: Config, c: Conn, f: FrameSpec.Frame): Conn {
    Perform(cfg, c, OpOf(cfg.role, c.minor, f))
  }

  function OnHello(cfg: Config, c: Conn, f: FrameSpec.Frame): (Conn, Option<ConnError>) {
    match PlainMechanism.HelloFrom(f.isCommand, f.body)
    case Err(e) => (c.(state := Failed), Some(PlainError(e)))
    case Ok((username, password)) =>
      if cfg.auth(username, password) then (c.(state := PlainReady), None)
      else (c.(state := Failed), Some(PlainError(PlainMechanism.AuthFailed)))
  }

  function OnReady(cfg: Config, c: Conn, f: FrameSpec.Frame): (Conn, Option<ConnError>) {
    if |f.body| > 255 then (c.(state := Failed), Some(NullError(NullMechanism.MalformedMetadata)))
    else
      match NullMechanism.ReadyFrom(cfg.role, f.isCommand, f.body)
      case Err(e) => (c.(state := Failed), Some(NullError(e)))
      case Ok(_) => (c.(state := Established), None)
  }

  /** What a complete frame does, by the state it arrives in. */
  function OnFrame(cfg: Config, c: Conn, f: FrameSpec.Frame): (r: (Conn, Option<ConnError>))
    ensures r.0.greeting == c.greeting && r.0.dec == c.dec
    ensures r.0.pong == c.pong || (r.0.pong.Some? && |r.0.pong.value| <= 16)
  {
    hide OpOf, TableAfter, NullMechanism.ReadyFrom, PlainMechanism.HelloFrom;
    match c.state
    case Established => (Dispatch(cfg, c, f), None)
    case PlainHello => OnHello(cfg, c, f)
    case _ => OnReady(cfg, c, f)
  }

  function FeedFrames(cfg: Config, c: Conn, input: bytes): (r: (Conn, Result<nat, ConnError>))
    requires WF(cfg, c)
    ensures WF(cfg, r.0)
    ensures r.1.Ok? ==> r.1.value <= |input|
  {
    hide OnFrame, FrameSpec.Feed;
    var (d, fed) := FrameSpec.Feed(cfg.frameCap, c.dec, input);
    match fed
    case Err(e) => (c.(dec := d), Err(DecodeError(e)))
    case Ok((n, None)) => (c.(dec := d), Ok(n))
    case Ok((n, Some(f))) =>
      var (c', refused) := OnFrame(cfg, c.(dec := d), f);
      (c', if refused.Some? then Err(refused.value) else Ok(n))
  }

  function AfterGreeting(m: Greetings.Mechanism): State {
    if m.Null? then Ready else PlainHello
  }

  /**
   The checks after `n` more greeting bytes were stored behind the first `before`: the early
   one when the 11th byte has just arrived, the full one whenever all 64 are there.
   */
  function CheckGreeting(cfg: Config, c: Conn, before: nat, n: nat): (r: (Conn, Result<nat, ConnError>))
    requires WF(cfg, c)
    ensures WF(cfg, r.0)
    ensures r.1.Ok? ==> r.1.value == n
  {
    if before < Greetings.GREETING_PARTIAL_LEN <= |c.greeting|
       && Greetings.ParsePartial(c.greeting[..Greetings.GREETING_PARTIAL_LEN]).Err? then
      (c, Err(GreetingError(Greetings.ParsePartial(c.greeting[..Greetings.GREETING_PARTIAL_LEN]).error)))
    else if |c.greeting| == Greetings.GREETING_LEN then
      match Greetings.ParseGreeting(cfg.mechanism, c.greeting)
      case Err(e) => (c, Err(GreetingError(e)))
      case Ok(minor) =>
        (c.(minor := minor, peerGreeting := true,
            state := if c.greetingSent then AfterGreeting(cfg.mechanism) else c.state), Ok(n))
    else (c, Ok(n))
  }

  function FeedGreeting(cfg: Config, c: Conn, input: bytes): (r: (Conn, Result<nat, ConnError>))
    requires WF(cfg, c)
    ensures WF(cfg, r.0)
    ensures r.1.Ok? ==> r.1.value <= |input|
  {
    var n := Min(|input|, Greetings.GREETING_LEN - |c.greeting|);
    CheckGreeting(cfg, c.(greeting := c.greeting + input[..n]), |c.greeting|, n)
  }

  /** Peer frames are not taken before our part of the handshake has been written. */
  predicate Gated(c: Conn) {
    match c.state
    case Ready => !c.readySent
    case PlainReady => !c.welcomeSent || !c.readySent
    case Failed => true
    case _ => false
  }

  function Feed(cfg: Config, c: Conn, input: bytes): (r: (Conn, Result<nat, ConnError>))
    requires WF(cfg, c)
    ensures WF(cfg, r.0)
    ensures r.1.Ok? ==> r.1.value <= |input|
  {
    if c.state == Greeting then FeedGreeting(cfg, c, input)
    else if Gated(c) then (c, Err(WrongState))
    else FeedFrames(cfg, c, input)
  }

  // ----- writing: the bytes put at the front of a caller's buffer of `out` bytes -----

  function WriteGreeting(cfg: Config, c: Conn, out: nat): (Conn, Result<bytes, ConnError>) {
    if c.state != Greeting || c.greetingSent then (c, Err(WrongState))
    else if out < Greetings.GREETING_LEN then (c, Err(BufferTooSmall))
    else (c.(greetingSent := true), Ok(Greetings.OwnGreeting(cfg.mechanism)))
  }

  function WriteReady(cfg: Config, c: Conn, out: nat): (Conn, Result<bytes, ConnError>) {
    var inReadyState := c.state == Ready || (cfg.mechanism.Plain? && c.state == PlainReady && c.welcomeSent);
    if !inReadyState || c.readySent then (c, Err(WrongState))
    else if out < |NullMechanism.ReadyFrame(cfg.role)| then (c, Err(BufferTooSmall))
    else (c.(readySent := true), Ok(NullMechanism.ReadyFrame(cfg.role)))
  }

  function WriteWelcome(c: Conn, out: nat): (Conn, Result<bytes, ConnError>) {
    if c.state != PlainReady || c.welcomeSent then (c, Err(WrongState))
    else if out < PlainMechanism.WELCOME_LEN then (c, Err(PlainError(PlainMechanism.BufferTooSmall)))
    else (c.(welcomeSent := true), Ok(PlainMechanism.WELCOME_FRAME))
  }

  function PongFrame(context: bytes): bytes
    requires |context| <= 16
  {
    [4, 5 + |context|, 4] + PONG + context
  }

  function WritePong(cfg: Config, c: Conn, out: nat): (Conn, Result<Option<bytes>, ConnError>)
    requires WF(cfg, c)
  {
    match c.pong
    case None => (c, Ok(None))
    case Some(context) =>
      if out < 7 + |context| then (c, Err(BufferTooSmall))
      else (c.(pong := None), Ok(Some(PongFrame(context))))
  }

  function ErrorFrame(): bytes {
    NullMechanism.ErrorFrame(NullMechanism.REASON)
  }

  function WriteError(out: nat): Result<bytes, ConnError> {
    if out < 9 + |NullMechanism.REASON| then Err(NullError(NullMechanism.BufferTooSmall))
    else Ok(ErrorFrame())
  }

  /** Our answers to the peer's part of the handshake: READY, after WELCOME for PLAIN. */
  function Answers(cfg: Config): bytes {
    (if cfg.mechanism.Plain? then PlainMechanism.WELCOME_FRAME else []) + NullMechanism.ReadyFrame(cfg.role)
  }

  // ----- publishing -----

  ghost predicate Matches(cfg: Config, c: Conn, topic: bytes) {
    if cfg.role.Pub? then SubTable.Matches(c.table, topic) else topic in c.table
  }

  ghost function PublishHeaders(cfg: Config, c: Conn, topic: bytes, payload: bytes)
    : Result<Option<(bytes, bytes)>, ConnError>
  {
    if c.state != Established then Err(WrongState)
    else if !Matches(cfg, c, topic) then Ok(None)
    else Ok(Some((FrameSpec.Header(true, false, |topic|), FrameSpec.Header(false, false, |payload|))))
  }

  /** The topic in a frame with MORE, and the payload in a frame without. */
  function MessageFrames(topic: bytes, payload: bytes): seq<FrameSpec.Frame> {
    [FrameSpec.Frame(true, false, topic), FrameSpec.Frame(false, false, payload)]
  }

  function Message(topic: bytes, payload: bytes): bytes {
    FrameSpec.Header(true, false, |topic|) + topic + FrameSpec.Header(false, false, |payload|) + payload
  }

  /** An empty result is the source's `Ok(0)`: nothing was written. */
  ghost function Publish(cfg: Config, c: Conn, topic: bytes, payload: bytes, out: nat): Result<bytes, ConnError> {
    match PublishHeaders(cfg, c, topic, payload)
    case Err(e) => Err(e)
    case Ok(None) => Ok([])
    case Ok(Some(_)) => if out < |Message(topic, payload)| then Err(BufferTooSmall) else Ok(Message(topic, payload))
  }

  lemma MessageIsEncoding(topic: bytes, payload: bytes)
    ensures Message(topic, payload) == FrameSpec.EncodeAll(MessageFrames(topic, payload))
  {
    var fs := MessageFrames(topic, payload);
    assert fs[1..] == [fs[1]] && fs[1..][1..] == [];
    assert FrameSpec.EncodeAll(fs[1..]) == FrameSpec.Encode(fs[1]);
  }

  /** What is published is read back as the topic frame, then the payload frame, and nothing else. */
  lemma PublishRoundTrip(cfg: Config, c: Conn, topic: bytes, payload: bytes, out: nat, cap: nat)
    requires |topic| < USIZE_LIMIT && |payload| < USIZE_LIMIT && |topic| <= cap && |payload| <= cap
    ensures var r := Publish(cfg, c, topic, payload, out);
            var size := |topic| + (if |topic| <= 255 then 2 else 9) + |payload| + if |payload| <= 255 then 2 else 9;
            && (r == Err(WrongState) <==> c.state != Established)
            && (r == Err(BufferTooSmall) <==> c.state == Established && Matches(cfg, c, topic) && out < size)
            && (r.Ok? && r.value != [] ==> |r.value| == size)
            && (r == Ok([]) <==> c.state == Established && !Matches(cfg, c, topic))
            && (r.Ok? && r.value != [] ==>
                  FrameSpec.Decode(cap, FrameSpec.NeedFlags, r.value) ==
                  FrameSpec.Decoded(FrameSpec.NeedFlags, MessageFrames(topic, payload), None))
  {
    assert |Message(topic, payload)| >= 4;
    MessageIsEncoding(topic, payload);
    FrameSpec.FrameListRoundTrip(cap, MessageFrames(topic, payload));
  }
}
