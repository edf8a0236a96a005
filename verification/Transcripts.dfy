/** The grammar of what a driver writes, over every run of polls and publishes. */
module Transcripts {
  import opened Wrappers
  import opened Bytes
  import opened ConnSpec
  import opened Handshake
  import opened DriverSpec
  import opened ByteMachine
  import opened Polls
  import Established
  import FrameSpec
  import Greetings
  import NullMechanism
  import PlainMechanism

  /** A slice is no longer than `usize` counts. */
  type Slice = s: bytes | |s| < USIZE_LIMIT

  /** What may follow the handshake. */
  datatype Item = PongItem(context: PongContext) | MessageItem(topic: Slice, payload: Slice) | ErrorItem

  function Render(i: Item): bytes {
    match i
    case PongItem(context) => PongFrame(context)
    case MessageItem(topic, payload) => Message(topic, payload)
    case ErrorItem => ErrorFrame()
  }

  function RenderAll(items: seq<Item>): bytes {
    if items == [] then [] else Render(items[0]) + RenderAll(items[1..])
  }

  lemma {:induction false} RenderAppend(a: seq<Item>, b: seq<Item>)
    ensures RenderAll(a + b) == RenderAll(a) + RenderAll(b)
  {
    hide Render;
    if a == [] {
      assert a + b == b;
    } else {
      assert (a + b)[1..] == a[1..] + b;
      RenderAppend(a[1..], b);
    }
  }

  lemma RenderOne(i: Item)
    ensures RenderAll([i]) == Render(i)
  {
    assert RenderAll([i]) == Render(i) + RenderAll([]);
  }

  // ----- the items a stream of bytes and a publish call for -----

  /** A PONG for a PING that an established connection has just read whole; an ERROR if it has failed. */
  function ByteItems(cfg: Config, c: Conn, b: byte): seq<Item>
    requires WF(cfg, c)
  {
    var (c1, fed) := Feed(cfg, c, [b]);
    if fed.Err? then (if c1.state == Failed then [ErrorItem] else [])
    else if c.state != State.Established then []
    else
      match FrameSpec.Step(cfg.frameCap, c.dec, b).1
      case Emit(f) => PingItems(OpOf(cfg.role, c.minor, f))
      case _ => []
  }

  function PingItems(op: Op): seq<Item> {
    if op.Ping? then [PongItem(op.context)] else []
  }

  function PumpItems(cfg: Config, c: Conn, bs: bytes): seq<Item>
    requires WF(cfg, c)
    decreases |bs|
  {
    if bs == [] then []
    else
      var p := PumpByte(cfg, c, bs[0]);
      ByteItems(cfg, c, bs[0]) + if p.error.Some? then [] else PumpItems(cfg, p.conn, bs[1..])
  }

  /** A message, if it matches at this time. */
  ghost function PublishItems(cfg: Config, c: Conn, topic: Slice, payload: Slice): seq<Item> {
    if c.state == State.Established && Matches(cfg, c, topic) then [MessageItem(topic, payload)] else []
  }

  function PongItems(contexts: seq<PongContext>): seq<Item> {
    if contexts == [] then [] else [PongItem(contexts[0])] + PongItems(contexts[1..])
  }

  /** On an established connection the items are one PONG for each PING frame in the bytes, in order. */
  lemma {:induction false} EstablishedItems(cfg: Config, c: Conn, bs: bytes)
    requires DriverInv(cfg, c) && c.state == State.Established
    ensures var fs := FrameSpec.Decode(cfg.frameCap, c.dec, bs).frames;
            PumpItems(cfg, c, bs) == PongItems(Established.Pings(Established.Ops(cfg.role, c.minor, fs)))
    decreases |bs|
  {
    hide FrameSpec.Step, OpOf, TableAfter, DriverInv, PumpByte, ByteItems;
    if bs != [] {
      var b, rest := bs[0], bs[1..];
      Established.PumpByteEstablished(cfg, c, b);
      EstablishedByteItems(cfg, c, b);
      PumpByteInv(cfg, c, b);
      var p := PumpByte(cfg, c, b);
      if p.error.None? {
        EstablishedItems(cfg, p.conn, rest);
        var (s', o) := FrameSpec.Step(cfg.frameCap, c.dec, b);
        if o.Emit? {
          PingsFirst(cfg.role, c.minor, o.frame, FrameSpec.Decode(cfg.frameCap, s', rest).frames);
        }
      }
    }
  }

  lemma EstablishedByteItems(cfg: Config, c: Conn, b: byte)
    requires DriverInv(cfg, c) && c.state == State.Established
    ensures var o := FrameSpec.Step(cfg.frameCap, c.dec, b).1;
            ByteItems(cfg, c, b) == if o.Emit? then PingItems(OpOf(cfg.role, c.minor, o.frame)) else []
  {
    hide FrameSpec.Step, FrameSpec.Feed, OpOf, TableAfter, DriverInv;
    FrameSpec.FeedCons(cfg.frameCap, c.dec, b, []);
    assert [b] + [] == [b];
    FrameSpec.FeedCons(cfg.frameCap, FrameSpec.Step(cfg.frameCap, c.dec, b).0, b, []);
  }

  lemma PingsFirst(role: NullMechanism.Role, minor: byte, f: FrameSpec.Frame, rest: seq<FrameSpec.Frame>)
    ensures PongItems(Established.Pings(Established.Ops(role, minor, [f] + rest))) ==
            PingItems(OpOf(role, minor, f)) + PongItems(Established.Pings(Established.Ops(role, minor, rest)))
  {
    hide OpOf;
    assert ([f] + rest)[1..] == rest;
    var op, ops := OpOf(role, minor, f), Established.Ops(role, minor, rest);
    assert ([op] + ops)[1..] == ops;
    var ps := Established.Pings(ops);
    if op.Ping? {
      assert ([op.context] + ps)[1..] == ps;
    } else {
      assert [] + ps == ps && [] + PongItems(ps) == PongItems(ps);
    }
  }

  // ----- what has been written, and the items so far -----

  ghost predicate Allowed(s: State, i: Item) {
    match s
    case Established => !i.ErrorItem?
    case Failed => i.ErrorItem?
    case _ => false
  }

  /** Our greeting, our answers if READY is among what was sent, and the items. */
  ghost predicate Written(cfg: Config, c: Conn, sent: bytes, items: seq<Item>) {
    && (c.welcomeSent ==> c.readySent)
    && (forall i :: i in items ==> Allowed(c.state, i))
    && (c.state == Failed ==> items != [])
    && sent == Opening(cfg, c.readySent) + RenderAll(items)
  }

  function Opening(cfg: Config, answered: bool): bytes {
    Greetings.OwnGreeting(cfg.mechanism) + if answered then Answers(cfg) else []
  }

  lemma EmptyOrHas(items: seq<Item>)
    ensures items == [] || exists i :: i in items
  {
    assert items == [] || items[0] in items;
  }

  lemma NothingYet(cfg: Config, c: Conn, sent: bytes, items: seq<Item>)
    requires Written(cfg, c, sent, items) && c.state != State.Established && c.state != Failed
    ensures items == [] && sent == Opening(cfg, c.readySent)
  {
    EmptyOrHas(items);
    assert Opening(cfg, c.readySent) + [] == Opening(cfg, c.readySent);
  }

  /** More items, allowed in the state that has been reached. */
  lemma WrittenGrows(cfg: Config, c: Conn, sent: bytes, items: seq<Item>, c': Conn, more: seq<Item>)
    requires Written(cfg, c, sent, items)
    requires c'.state == c.state || items == []
    requires c'.welcomeSent == c.welcomeSent && c'.readySent == c.readySent
    requires forall i :: i in more ==> Allowed(c'.state, i)
    requires c'.state == Failed && c.state != Failed ==> more != []
    ensures Written(cfg, c', sent + RenderAll(more), items + more)
  {
    hide Opening, RenderAll;
    RenderAppend(items, more);
    var opening := Opening(cfg, c.readySent);
    assert opening + RenderAll(items) + RenderAll(more) == opening + (RenderAll(items) + RenderAll(more));
  }

  lemma NothingMore(cfg: Config, c: Conn, sent: bytes, items: seq<Item>, c': Conn)
    requires Written(cfg, c, sent, items)
    requires c'.state == c.state || (items == [] && c'.state != Failed)
    requires c'.welcomeSent == c.welcomeSent && c'.readySent == c.readySent
    ensures Written(cfg, c', sent, items)
  {
    hide Opening;
    WrittenGrows(cfg, c, sent, items, c', []);
    assert sent + [] == sent && items + [] == items;
  }

  /** Feeding writes nothing, and leaves only a state in which nothing was written yet. */
  lemma FeedMoves(cfg: Config, c: Conn, input: bytes)
    requires WF(cfg, c)
    ensures var c' := Feed(cfg, c, input).0;
            && c'.welcomeSent == c.welcomeSent && c'.readySent == c.readySent
            && (c.state == Established || c.state == Failed ==> c'.state == c.state)
  {
    hide FrameSpec.Feed, Greetings.ParseGreeting, Greetings.ParsePartial, OpOf, TableAfter,
         NullMechanism.ReadyFrom, PlainMechanism.HelloFrom;
  }

  lemma TurnWritten(cfg: Config, prev: State, c: Conn, sent: bytes)
    requires Fed(cfg, prev, c) && Turn(prev, c.state) && Written(cfg, c, sent, [])
    ensures var (c', out) := React(cfg, prev, c); Written(cfg, c', sent + out, [])
  {
    hide Greetings.OwnGreeting, NullMechanism.ReadyFrame, Greetings.ParseGreeting, TableOk;
    var own, out := Greetings.OwnGreeting(cfg.mechanism), React(cfg, prev, c).1;
    assert out == Answers(cfg) by {
      var ready := NullMechanism.ReadyFrame(cfg.role);
      assert [] + ready == ready;
    }
    assert own + [] + [] == own && own + Answers(cfg) + [] == own + out;
  }

  /** Before the handshake is over, a byte is silent, takes the one turn, or fails the connection. */
  lemma ByteWrittenBefore(cfg: Config, c: Conn, b: byte, sent: bytes, items: seq<Item>)
    requires DriverInv(cfg, c) && c.state != State.Established && Written(cfg, c, sent, items)
    ensures var p := PumpByte(cfg, c, b);
            Written(cfg, p.conn, sent + p.sent, items + ByteItems(cfg, c, b))
  {
    hide Feed, Fed, DriverInv, Written, FrameSpec.Step, NullMechanism.ErrorFrame, NullMechanism.ReadyFrame;
    FeedMoves(cfg, c, [b]);
    FeedIsFed(cfg, c, [b]);
    var (c1, r) := Feed(cfg, c, [b]);
    if c.state != Failed {
      NothingYet(cfg, c, sent, items);
    }
    if r.Err? {
      if c1.state == Failed {
        RenderOne(ErrorItem);
        WrittenGrows(cfg, c, sent, items, c1, [ErrorItem]);
      } else {
        NothingMore(cfg, c, sent, items, c1);
        assert sent + [] == sent && items + [] == items;
      }
    } else {
      FedHasNotFailed(cfg, c, [b]);
      NothingMore(cfg, c, sent, items, c1);
      assert items + [] == items && sent + [] == sent;
      if Turn(c.state, c1.state) {
        TurnWritten(cfg, c.state, c1, sent);
      } else {
        assert c1.pong == None by { NoPongBefore(cfg, c.state, c1); }
      }
    }
  }

  lemma NoPongBefore(cfg: Config, prev: State, c: Conn)
    requires Fed(cfg, prev, c) && prev != State.Established
    ensures c.pong == None
  {}

  lemma FedHasNotFailed(cfg: Config, c: Conn, input: bytes)
    requires WF(cfg, c)
    ensures var (c', r) := Feed(cfg, c, input); r.Ok? ==> c'.state != Failed && c.state != Failed
  {
    hide FrameSpec.Feed, Greetings.ParseGreeting, Greetings.ParsePartial, OpOf, TableAfter,
         NullMechanism.ReadyFrom, PlainMechanism.HelloFrom;
  }

  lemma ByteWrittenAfter(cfg: Config, c: Conn, b: byte, sent: bytes, items: seq<Item>)
    requires DriverInv(cfg, c) && c.state == State.Established && Written(cfg, c, sent, items)
    ensures var p := PumpByte(cfg, c, b);
            Written(cfg, p.conn, sent + p.sent, items + ByteItems(cfg, c, b))
  {
    hide DriverInv, Written, FrameSpec.Step, OpOf, TableAfter, ByteItems, PumpByte, PongFrame;
    Established.PumpByteEstablished(cfg, c, b);
    EstablishedByteItems(cfg, c, b);
    var p, more := PumpByte(cfg, c, b), ByteItems(cfg, c, b);
    if more == [] {
      NothingMore(cfg, c, sent, items, p.conn);
      assert sent + [] == sent && items + [] == items;
    } else {
      RenderOne(more[0]);
      WrittenGrows(cfg, c, sent, items, p.conn, more);
    }
  }

  lemma {:induction false} PumpWritten(cfg: Config, c: Conn, bs: bytes, sent: bytes, items: seq<Item>)
    requires DriverInv(cfg, c) && Written(cfg, c, sent, items)
    ensures var p := Pump(cfg, c, bs);
            Written(cfg, p.conn, sent + p.sent, items + PumpItems(cfg, c, bs))
    decreases |bs|
  {
    hide PumpByte, Written, DriverInv, ByteItems;
    if bs == [] {
      assert sent + [] == sent && items + [] == items;
    } else {
      var b, rest := bs[0], bs[1..];
      if c.state == State.Established {
        ByteWrittenAfter(cfg, c, b, sent, items);
      } else {
        ByteWrittenBefore(cfg, c, b, sent, items);
      }
      PumpByteInv(cfg, c, b);
      var p, first := PumpByte(cfg, c, b), ByteItems(cfg, c, b);
      if p.error.Some? {
        assert first + [] == first;
      } else {
        PumpWritten(cfg, p.conn, rest, sent + p.sent, items + first);
        var q := Pump(cfg, p.conn, rest);
        assert sent + p.sent + q.sent == sent + (p.sent + q.sent);
        assert items + first + PumpItems(cfg, p.conn, rest) == items + (first + PumpItems(cfg, p.conn, rest));
      }
    }
  }

  /** The bytes of the stream that a poll feeds: up to the end of what it drains, or to the refusal. */
  function Taken(cfg: Config, d: Drv): bytes
    requires WF(cfg, d.conn) && |d.rx| <= RX_SIZE
  {
    var (d', r) := Poll(cfg, d);
    var s := Stream(d);
    if (r.Ok? || r.error.IoError?) && |Stream(d')| <= |s| then s[..|s| - |Stream(d')|] else s
  }

  lemma PollWritten(cfg: Config, d: Drv, items: seq<Item>)
    requires Steady(cfg, d) && d.net.writeScript == []
    requires Written(cfg, d.conn, d.net.sent, items)
    ensures var d' := Poll(cfg, d).0;
            Written(cfg, d'.conn, d'.net.sent, items + PumpItems(cfg, d.conn, Taken(cfg, d)))
            && d'.net.writeScript == []
  {
    hide Pump, Poll, DriverInv, Written, Stream, PumpItems;
    PollAdvances(cfg, d);
    var d' := Poll(cfg, d).0;
    var taken := Taken(cfg, d);
    PumpWritten(cfg, d.conn, taken, d.net.sent, items);
    NothingMore(cfg, Pump(cfg, d.conn, taken).conn, d'.net.sent, items + PumpItems(cfg, d.conn, taken), d'.conn);
  }

  lemma PublishWritten(cfg: Config, d: Drv, topic: Slice, payload: Slice, items: seq<Item>)
    requires d.net.writeScript == [] && Written(cfg, d.conn, d.net.sent, items)
    ensures var d' := DriverPublish(cfg, d, topic, payload).0;
            Written(cfg, d'.conn, d'.net.sent, items + PublishItems(cfg, d.conn, topic, payload))
            && d'.net.writeScript == []
  {
    hide Written, Matches, FrameSpec.Header, SendAll, FrameSpec.Concat;
    var th, ph := FrameSpec.Header(true, false, |topic|), FrameSpec.Header(false, false, |payload|);
    SendAllConcat(d.net, [th, topic, ph, payload]);
    ConcatFour(th, topic, ph, payload);
    var more := PublishItems(cfg, d.conn, topic, payload);
    if more != [] {
      RenderOne(more[0]);
      WrittenGrows(cfg, d.conn, d.net.sent, items, d.conn, more);
    } else {
      assert items + [] == items;
    }
  }

  lemma {:induction false} SendAllConcat(net: Net, parts: seq<bytes>)
    requires net.writeScript == []
    ensures SendAll(net, parts) == (net.(sent := net.sent + FrameSpec.Concat(parts)), None)
    decreases |parts|
  {
    if parts == [] {
      assert net.sent + [] == net.sent;
    } else {
      var net' := net.(sent := net.sent + parts[0]);
      SendAllConcat(net', parts[1..]);
      assert net'.sent + FrameSpec.Concat(parts[1..]) == net.sent + (parts[0] + FrameSpec.Concat(parts[1..]));
    }
  }

  /** How many writes the transport will take before it refuses one. */
  function Accepted(script: seq<WriteEvent>): (k: nat)
    ensures k <= |script| && (k < |script| ==> script[k].Refuses?)
    ensures forall i :: 0 <= i < k ==> script[i].Accepts?
  {
    if script == [] || script[0].Refuses? then 0 else 1 + Accepted(script[1..])
  }

  /** Parts are written whole up to the first that is refused, and nothing is written behind that. */
  lemma {:induction false} SendAllExactly(net: Net, parts: seq<bytes>)
    ensures var (net', e) := SendAll(net, parts);
            var k, script := Accepted(net.writeScript), net.writeScript;
            if k < |script| && k < |parts| then
              var refused := script[k];
              && e == Some(IoError(refused.code)) && net'.writeScript == script[k + 1..]
              && net'.sent ==
                 net.sent + FrameSpec.Concat(parts[..k]) + parts[k][..Min(refused.sent, |parts[k]|)]
            else e == None && net'.sent == net.sent + FrameSpec.Concat(parts)
    ensures SendAll(net, parts).0.readScript == net.readScript
    decreases |parts|
  {
    var k, script := Accepted(net.writeScript), net.writeScript;
    if parts == [] {
      assert net.sent + [] == net.sent;
    } else if k == 0 && script != [] {
      assert net.sent + FrameSpec.Concat(parts[..0]) == net.sent;
    } else {
      var rest := parts[1..];
      var net1 := Send(net, parts[0]).0;
      SendAllExactly(net1, rest);
      assert net.sent + parts[0] + FrameSpec.Concat(rest) == net.sent + FrameSpec.Concat(parts);
      if k < |script| && k < |parts| {
        assert parts[..k][1..] == rest[..k - 1] && parts[..k][0] == parts[0];
        assert net.sent + parts[0] + FrameSpec.Concat(rest[..k - 1]) == net.sent + FrameSpec.Concat(parts[..k]);
        assert script[1..][k..] == script[k + 1..];
      }
    }
  }

  /**
   What `publish` answers, on any transport: `WrongState` unless established; 0 if nothing
   matches; the error of the first of its four writes that is refused, with nothing written
   behind it; and otherwise the size of the message, all of which was written.
   */
  lemma PublishAnswers(cfg: Config, d: Drv, topic: Slice, payload: Slice)
    ensures var (d', r) := DriverPublish(cfg, d, topic, payload);
            var k, script := Accepted(d.net.writeScript), d.net.writeScript;
            && d'.conn == d.conn && d'.rx == d.rx && d'.net.readScript == d.net.readScript
            && if d.conn.state != Established then d' == d && r == Err(WrongState)
               else if !Matches(cfg, d.conn, topic) then d' == d && r == Ok(0)
               else if k < |script| && k < 4 then
                 && r == Err(IoError(script[k].code)) && d'.net.writeScript == script[k + 1..]
                 && d.net.sent <= d'.net.sent <= d.net.sent + Message(topic, payload)
               else r == Ok(|Message(topic, payload)|) && d'.net.sent == d.net.sent + Message(topic, payload)
  {
    hide Matches, FrameSpec.Header, SendAll, FrameSpec.Concat;
    var th, ph := FrameSpec.Header(true, false, |topic|), FrameSpec.Header(false, false, |payload|);
    var parts := [th, topic, ph, payload];
    SendAllExactly(d.net, parts);
    ConcatFour(th, topic, ph, payload);
    var k := Accepted(d.net.writeScript);
    if k < 4 {
      ConcatPrefix(parts, k);
    }
  }

  lemma {:induction false} ConcatPrefix(parts: seq<bytes>, k: nat)
    requires k < |parts|
    ensures forall n :: 0 <= n <= |parts[k]| ==>
              FrameSpec.Concat(parts[..k]) + parts[k][..n] <= FrameSpec.Concat(parts)
  {
    var all := FrameSpec.Concat(parts);
    if k == 0 {
      assert FrameSpec.Concat(parts[..0]) == [];
    } else {
      ConcatPrefix(parts[1..], k - 1);
      assert parts[..k][1..] == parts[1..][..k - 1] && parts[..k][0] == parts[0];
      assert parts[1..][k - 1] == parts[k];
      forall n | 0 <= n <= |parts[k]| ensures FrameSpec.Concat(parts[..k]) + parts[k][..n] <= all {
        var front := FrameSpec.Concat(parts[1..][..k - 1]) + parts[k][..n];
        assert front <= FrameSpec.Concat(parts[1..]);
        assert FrameSpec.Concat(parts[..k]) + parts[k][..n] == parts[0] + front;
      }
    }
  }

  /** A new driver: our greeting was written, or the transport's error is given. */
  lemma NewAnswers(cfg: Config, net: Net)
    ensures var (d, e) := NewDriver(cfg, net);
            var script := net.writeScript;
            && d.rx == [] && d.net.readScript == net.readScript
            && (e == None <==> script == [] || script[0].Accepts?)
            && (e.Some? ==> e == Some(IoError(script[0].code)))
            && (e == None ==> d.net.sent == net.sent + Greetings.OwnGreeting(cfg.mechanism))
  {
    hide Greetings.OwnGreeting;
  }

  lemma ConcatCons(part: bytes, rest: seq<bytes>)
    ensures FrameSpec.Concat([part] + rest) == part + FrameSpec.Concat(rest)
  {
    assert ([part] + rest)[1..] == rest;
  }

  lemma ConcatFour(a: bytes, b: bytes, c: bytes, d: bytes)
    ensures FrameSpec.Concat([a, b, c, d]) == a + b + c + d
  {
    assert FrameSpec.Concat([]) == [];
    hide FrameSpec.Concat;
    ConcatCons(d, []);
    ConcatCons(c, [d]);
    ConcatCons(b, [c, d]);
    ConcatCons(a, [b, c, d]);
    assert [d] + [] == [d] && [c] + [d] == [c, d] && [b] + [c, d] == [b, c, d] && [a] + [b, c, d] == [a, b, c, d];
    assert a + (b + (c + (d + []))) == a + b + c + d;
  }

  // ----- whole runs -----

  datatype Action = PollAction | PublishAction(topic: Slice, payload: Slice)

  ghost function Act(cfg: Config, d: Drv, a: Action): Drv
    requires WF(cfg, d.conn) && |d.rx| <= RX_SIZE
  {
    match a
    case PollAction => Poll(cfg, d).0
    case PublishAction(topic, payload) => DriverPublish(cfg, d, topic, payload).0
  }

  ghost function RunActions(cfg: Config, d: Drv, actions: seq<Action>): (d': Drv)
    requires WF(cfg, d.conn) && |d.rx| <= RX_SIZE
    ensures WF(cfg, d'.conn) && |d'.rx| <= RX_SIZE
    decreases |actions|
  {
    if actions == [] then d else RunActions(cfg, Act(cfg, d, actions[0]), actions[1..])
  }

  /**
   The items of a run: for each poll, the PONGs for the PINGs in the bytes it fed, or the ERROR
   for its refusal; for each publish, the message, if it matched at that time; in order.
   */
  ghost function RunItems(cfg: Config, d: Drv, actions: seq<Action>): seq<Item>
    requires WF(cfg, d.conn) && |d.rx| <= RX_SIZE
    decreases |actions|
  {
    if actions == [] then []
    else ActItems(cfg, d, actions[0]) + RunItems(cfg, Act(cfg, d, actions[0]), actions[1..])
  }

  ghost function ActItems(cfg: Config, d: Drv, a: Action): seq<Item>
    requires WF(cfg, d.conn) && |d.rx| <= RX_SIZE
  {
    match a
    case PollAction => PumpItems(cfg, d.conn, Taken(cfg, d))
    case PublishAction(topic, payload) => PublishItems(cfg, d.conn, topic, payload)
  }

  lemma PublishKeepsConn(cfg: Config, d: Drv, topic: bytes, payload: bytes)
    ensures var d' := DriverPublish(cfg, d, topic, payload).0; d'.conn == d.conn && d'.rx == d.rx
  {}

  lemma ActKeepsSteady(cfg: Config, d: Drv, a: Action)
    requires Steady(cfg, d)
    ensures Steady(cfg, Act(cfg, d, a))
  {
    hide Poll, DriverPublish, DriverInv;
    match a
    case PollAction => PollKeepsSteady(cfg, d);
    case PublishAction(topic, payload) => PublishKeepsConn(cfg, d, topic, payload);
  }

  lemma {:induction false} RunKeepsSteady(cfg: Config, d: Drv, actions: seq<Action>)
    requires Steady(cfg, d)
    ensures Steady(cfg, RunActions(cfg, d, actions))
    decreases |actions|
  {
    hide Act, DriverInv;
    if actions != [] {
      ActKeepsSteady(cfg, d, actions[0]);
      RunKeepsSteady(cfg, Act(cfg, d, actions[0]), actions[1..]);
    }
  }

  /**
   Whatever a driver's transport has done, and whatever was polled and published: it is in a
   state where input makes progress or is refused, and where both kinds of poll do the same.
   */
  lemma EveryDriver(cfg: Config, net: Net, actions: seq<Action>, input: bytes)
    requires cfg.role.Radio? ==> cfg.mechanism.Null?
    ensures var d := RunActions(cfg, NewDriver(cfg, net).0, actions);
            && Steady(cfg, d)
            && (input != [] ==> var r := Feed(cfg, d.conn, input).1; r.Ok? ==> 0 < r.value)
            && PollAsync(cfg, d) == Poll(cfg, d)
  {
    hide RunActions, NewDriver, Feed, Poll, PollAsync, DriverInv;
    NewDriverInv(cfg, net);
    RunKeepsSteady(cfg, NewDriver(cfg, net).0, actions);
    var d := RunActions(cfg, NewDriver(cfg, net).0, actions);
    PollsAgree(cfg, d);
    if input != [] {
      FeedProgress(cfg, d.conn, input);
    }
  }

  lemma {:induction false} ActionsWritten(cfg: Config, d: Drv, actions: seq<Action>, items: seq<Item>)
    requires Steady(cfg, d) && d.net.writeScript == [] && Written(cfg, d.conn, d.net.sent, items)
    ensures var d' := RunActions(cfg, d, actions);
            Written(cfg, d'.conn, d'.net.sent, items + RunItems(cfg, d, actions))
    decreases |actions|
  {
    hide Poll, DriverPublish, Written, DriverInv, PumpItems, Taken, PublishItems;
    if actions == [] {
      assert items + [] == items;
    } else {
      var a, rest := actions[0], actions[1..];
      if a.PollAction? {
        PollWritten(cfg, d, items);
      } else {
        PublishWritten(cfg, d, a.topic, a.payload, items);
      }
      ActKeepsSteady(cfg, d, a);
      var d1 := Act(cfg, d, a);
      var first, others := ActItems(cfg, d, a), RunItems(cfg, d1, rest);
      ActionsWritten(cfg, d1, rest, items + first);
      assert items + first + others == items + (first + others);
    }
  }

  /** The transcript, by the state: what was written, and the items after the handshake. */
  ghost predicate Grammar(cfg: Config, s: State, sent: bytes, items: seq<Item>) {
    var own := Greetings.OwnGreeting(cfg.mechanism);
    match s
    case Greeting => sent == own && items == []
    case PlainHello => sent == own && items == []
    case Ready => sent == own + Answers(cfg) && items == []
    case PlainReady => sent == own + Answers(cfg) && items == []
    case Established => sent == own + Answers(cfg) + RenderAll(items) && forall i :: i in items ==> !i.ErrorItem?
    case Failed =>
      && items != [] && (forall i :: i in items ==> i.ErrorItem?)
      && (sent == own + Answers(cfg) + RenderAll(items)
          || (cfg.mechanism.Plain? && sent == own + RenderAll(items)))
  }

  lemma WrittenIsGrammar(cfg: Config, c: Conn, sent: bytes, items: seq<Item>)
    requires DriverInv(cfg, c) && Written(cfg, c, sent, items)
    ensures Grammar(cfg, c.state, sent, items)
  {
    hide Greetings.OwnGreeting, Answers, RenderAll, Greetings.ParseGreeting, TableOk;
    if c.state != State.Established && c.state != Failed {
      NothingYet(cfg, c, sent, items);
    }
    var own := Greetings.OwnGreeting(cfg.mechanism);
    assert own + [] == own;
  }

  /** A new driver over a transport that delivers `script` and takes every write. */
  function Start(cfg: Config, script: seq<ReadEvent>): (d: Drv)
    ensures WF(cfg, d.conn) && d.rx == []
  {
    NewDriver(cfg, Net(script, [], [])).0
  }

  lemma StartWritten(cfg: Config, script: seq<ReadEvent>)
    requires cfg.role.Radio? ==> cfg.mechanism.Null?
    ensures var d := Start(cfg, script);
            Steady(cfg, d) && d.net.writeScript == [] && Written(cfg, d.conn, d.net.sent, [])
  {
    hide Greetings.OwnGreeting;
    NewDriverInv(cfg, Net(script, [], []));
    var own := Greetings.OwnGreeting(cfg.mechanism);
    assert [] + own == own && own + [] + [] == own;
  }

  /**
   Whatever the peer sends, however it is cut, and however polls, failing reads, refusals and
   publishes follow one another from a new driver: what was written is our greeting; then, once
   and exactly from the state that follows them on, our answers; then exactly the items of the
   run, which are whole PONGs and messages if established, ERRORs if failed, and none otherwise.
   */
  lemma OutputGrammar(cfg: Config, script: seq<ReadEvent>, actions: seq<Action>)
    requires cfg.role.Radio? ==> cfg.mechanism.Null?
    ensures var d := RunActions(cfg, Start(cfg, script), actions);
            Grammar(cfg, d.conn.state, d.net.sent, RunItems(cfg, Start(cfg, script), actions))
  {
    hide Written, RunActions, RunItems, Start, DriverInv, Grammar;
    StartWritten(cfg, script);
    var d := Start(cfg, script);
    ActionsWritten(cfg, d, actions, []);
    var items := RunItems(cfg, d, actions);
    assert [] + items == items;
    RunKeepsSteady(cfg, d, actions);
    WrittenIsGrammar(cfg, RunActions(cfg, d, actions).conn, RunActions(cfg, d, actions).net.sent, items);
  }

  // ----- what was written, as the peer's decoder reads it -----

  function ItemFrames(i: Item): seq<FrameSpec.Frame> {
    match i
    case PongItem(context) => [FrameSpec.Frame(false, true, [4] + PONG + context)]
    case MessageItem(topic, payload) => MessageFrames(topic, payload)
    case ErrorItem => [FrameSpec.Frame(false, true, NullMechanism.ErrorBody(NullMechanism.REASON))]
  }

  ghost predicate AllEncodable(fs: seq<FrameSpec.Frame>) {
    forall f :: f in fs ==> FrameSpec.Encodable(f)
  }

  lemma ItemIsFrames(i: Item)
    ensures Render(i) == FrameSpec.EncodeAll(ItemFrames(i)) && AllEncodable(ItemFrames(i))
  {
    match i
    case PongItem(context) => FrameSpec.EncodeAllOne(ItemFrames(i)[0]);
    case MessageItem(topic, payload) => MessageIsEncoding(topic, payload);
    case ErrorItem =>
      hide NullMechanism.ErrorBody;
      FrameSpec.EncodeAllOne(ItemFrames(i)[0]);
  }

  lemma {:induction false} ItemsAreFrames(items: seq<Item>) returns (fs: seq<FrameSpec.Frame>)
    ensures RenderAll(items) == FrameSpec.EncodeAll(fs) && AllEncodable(fs)
  {
    fs := [];
    if items != [] {
      hide Render, ItemFrames;
      var rest := ItemsAreFrames(items[1..]);
      ItemIsFrames(items[0]);
      FrameSpec.EncodeAllAppend(ItemFrames(items[0]), rest);
      fs := ItemFrames(items[0]) + rest;
    }
  }

  function AnswerFrames(cfg: Config): seq<FrameSpec.Frame> {
    (if cfg.mechanism.Plain? then [FrameSpec.Frame(false, true, [7] + PlainMechanism.WELCOME)] else [])
    + [FrameSpec.Frame(false, true, NullMechanism.OwnReadyBody(cfg.role))]
  }

  lemma AnswersAreFrames(cfg: Config)
    ensures Answers(cfg) == FrameSpec.EncodeAll(AnswerFrames(cfg)) && AllEncodable(AnswerFrames(cfg))
  {
    hide NullMechanism.ReadyFrame, FrameSpec.Encode, FrameSpec.EncodeAll;
    PlainMechanism.WelcomeFrameIsWelcome();
    NullMechanism.ReadyFrameIsReady(cfg.role);
    var w := if cfg.mechanism.Plain? then [FrameSpec.Frame(false, true, [7] + PlainMechanism.WELCOME)] else [];
    var r := [FrameSpec.Frame(false, true, NullMechanism.OwnReadyBody(cfg.role))];
    FrameSpec.EncodeAllAppend(w, r);
    NoFrames();
    if cfg.mechanism.Plain? {
      FrameSpec.EncodeAllOne(w[0]);
    }
    FrameSpec.EncodeAllOne(r[0]);
  }

  lemma NoFrames()
    ensures FrameSpec.EncodeAll([]) == []
  {}

  /** Everything after our greeting is whole, well-formed frames, that a peer's decoder takes to the end. */
  lemma OutputIsFrames(cfg: Config, script: seq<ReadEvent>, actions: seq<Action>)
    returns (fs: seq<FrameSpec.Frame>)
    requires cfg.role.Radio? ==> cfg.mechanism.Null?
    ensures var sent := RunActions(cfg, Start(cfg, script), actions).net.sent;
            && AllEncodable(fs) && sent == Greetings.OwnGreeting(cfg.mechanism) + FrameSpec.EncodeAll(fs)
            && FrameSpec.Decode(FrameSpec.MaxBody(fs), FrameSpec.NeedFlags, sent[64..]) ==
               FrameSpec.Decoded(FrameSpec.NeedFlags, fs, None)
  {
    hide Start, RunActions, RunItems, RenderAll, Answers, AnswerFrames, Greetings.OwnGreeting, FrameSpec.EncodeAll,
         FrameSpec.Decode;
    OutputGrammar(cfg, script, actions);
    var items := RunItems(cfg, Start(cfg, script), actions);
    var sent := RunActions(cfg, Start(cfg, script), actions).net.sent;
    AnswersAreFrames(cfg);
    var rest := ItemsAreFrames(items);
    NoFrames();
    var own := Greetings.OwnGreeting(cfg.mechanism);
    assert items == [] ==> RenderAll(items) == [] by { RenderNothing(); }
    var first := if own + RenderAll(items) == sent then [] else AnswerFrames(cfg);
    FrameSpec.EncodeAllAppend(first, rest);
    fs := first + rest;
    assert sent == own + (FrameSpec.EncodeAll(first) + FrameSpec.EncodeAll(rest));
    assert (own + FrameSpec.EncodeAll(fs))[64..] == FrameSpec.EncodeAll(fs);
    FrameSpec.FrameListRoundTrip(FrameSpec.MaxBody(fs), fs);
  }

  lemma RenderNothing()
    ensures RenderAll([]) == []
  {}
}
