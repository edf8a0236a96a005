/** The connection object: the source's `Connection` and `RadioConnection`, by role. */
module Connections {
  import opened Wrappers
  import opened Bytes
  import opened ConnSpec
  import FrameSpec
  import FrameCodec
  import Greetings
  import NullMechanism
  import PlainMechanism
  import SubTable
  import GroupTable

  /** A caller's buffer after a write: the bytes at its front, or the error and no change. */
  ghost predicate Wrote(before: bytes, after: bytes, spec: Result<bytes, ConnError>, r: Result<nat, ConnError>) {
    match spec
    case Err(e) => r == Err(e) && after == before
    case Ok(bs) => r == Ok(|bs|) && FrameCodec.Written(before, after, bs)
  }

  /** The two headers, each at the front of a 9-byte buffer. */
  datatype HeaderPair = HeaderPair(topic: bytes, topicLen: nat, payload: bytes, payloadLen: nat)

  class Connection {
    const cfg: Config
    var state: State
    var ourGreetingSent: bool
    var peerGreetingReceived: bool
    var peerVersionMinor: byte
    var ourReadySent: bool
    var ourWelcomeSent: bool
    const greetingBuf: array<byte>
    var greetingPos: nat
    const frameDecoder: FrameCodec.FrameDecoder
    const subTable: SubTable.SubTable?
    const groupTable: GroupTable.GroupTable?
    var pendingPong: Option<(bytes, nat)>

    ghost const Repr: set<object>

    ghost predicate Valid()
      reads this, Repr
    {
      && Repr == {this, greetingBuf, frameDecoder, frameDecoder.buf}
                 + (if subTable != null then {subTable} else {}) + (if groupTable != null then {groupTable} else {})
      && greetingBuf.Length == Greetings.GREETING_LEN && greetingPos <= greetingBuf.Length
      && frameDecoder.Valid() && frameDecoder.buf.Length == cfg.frameCap && frameDecoder.buf != greetingBuf
      && (if cfg.role.Pub? then
            subTable != null && groupTable == null
            && subTable.maxEntries == cfg.tableCap && subTable.maxPrefix == cfg.entryCap
          else
            groupTable != null && subTable == null
            && groupTable.maxEntries == cfg.tableCap && groupTable.maxGroup == cfg.entryCap)
      && (pendingPong.Some? ==> |pendingPong.value.0| == 16 && pendingPong.value.1 <= 16)
    }

    ghost function Table(): seq<bytes>
      requires Valid()
      reads this, Repr
    {
      if cfg.role.Pub? then subTable.entries else groupTable.entries
    }

    ghost function View(): (c: Conn)
      requires Valid()
      reads this, Repr
      ensures WF(cfg, c)
    {
      Conn(state, ourGreetingSent, peerGreetingReceived, peerVersionMinor, ourReadySent, ourWelcomeSent,
           greetingBuf[..greetingPos], frameDecoder.View(), Table(),
           if pendingPong.None? then None else Some(pendingPong.value.0[..pendingPong.value.1]))
    }

    /** `new` and `new_plain`, for either role. */
    constructor (cfg: Config)
      ensures Valid() && fresh(Repr) && this.cfg == cfg && View() == Init()
    {
      this.cfg := cfg;
      state := State.Greeting;
      ourGreetingSent, peerGreetingReceived, peerVersionMinor := false, false, 0;
      ourReadySent, ourWelcomeSent := false, false;
      var buf := new byte[64];
      greetingBuf, greetingPos := buf, 0;
      var decoder := new FrameCodec.FrameDecoder(cfg.frameCap);
      frameDecoder := decoder;
      pendingPong := None;
      if cfg.role.Pub? {
        var table := new SubTable.SubTable(cfg.tableCap, cfg.entryCap);
        subTable, groupTable := table, null;
        Repr := {this, buf, decoder, decoder.buf, table};
      } else {
        var table := new GroupTable.GroupTable(cfg.tableCap, cfg.entryCap);
        subTable, groupTable := null, table;
        Repr := {this, buf, decoder, decoder.buf, table};
      }
    }

    // ----- writing -----

    method WriteGreeting(out: array<byte>) returns (r: Result<nat, ConnError>)
      requires Valid() && out !in Repr
      modifies this, out
      ensures Valid()
      ensures var (c, w) := ConnSpec.WriteGreeting(cfg, old(View()), out.Length);
              View() == c && Wrote(old(out[..]), out[..], w, r)
    {
      if state != State.Greeting || ourGreetingSent {
        return Err(WrongState);
      }
      if out.Length < Greetings.GREETING_LEN {
        return Err(BufferTooSmall);
      }
      hide Greetings.OwnGreeting;
      var arr := new byte[64];
      if cfg.mechanism.Null? {
        Greetings.EncodeGreeting(arr);
      } else {
        Greetings.EncodePlainGreeting(arr);
      }
      var _ := CopyAt(out, 0, arr[..]);
      assert out[..] == out[..64] + out[64..];
      ourGreetingSent := true;
      return Ok(Greetings.GREETING_LEN);
    }

    method WriteReady(out: array<byte>) returns (r: Result<nat, ConnError>)
      requires Valid() && out !in Repr
      modifies this, out
      ensures Valid()
      ensures var (c, w) := ConnSpec.WriteReady(cfg, old(View()), out.Length);
              View() == c && Wrote(old(out[..]), out[..], w, r)
    {
      hide NullMechanism.ReadyFrame;
      var inReadyState := state == Ready || (cfg.mechanism.Plain? && state == PlainReady && ourWelcomeSent);
      if !inReadyState {
        return Err(WrongState);
      }
      if ourReadySent {
        return Err(WrongState);
      }
      if out.Length < (if cfg.role.Pub? then 27 else 29) {
        return Err(BufferTooSmall);
      }
      var encoded := NullMechanism.EncodeReady(cfg.role, out);
      ourReadySent := true;
      return Ok(encoded.value);
    }

    method WriteWelcome(out: array<byte>) returns (r: Result<nat, ConnError>)
      requires Valid() && out !in Repr
      modifies this, out
      ensures Valid()
      ensures var (c, w) := ConnSpec.WriteWelcome(old(View()), out.Length);
              View() == c && Wrote(old(out[..]), out[..], w, r)
    {
      if state != PlainReady || ourWelcomeSent {
        return Err(WrongState);
      }
      var encoded := PlainMechanism.EncodeWelcome(out);
      if encoded.Err? {
        return Err(PlainError(encoded.error));
      }
      ourWelcomeSent := true;
      return Ok(PlainMechanism.WELCOME_LEN);
    }

    method WritePong(out: array<byte>) returns (r: Result<Option<nat>, ConnError>)
      requires Valid() && out !in Repr
      modifies this, out
      ensures Valid()
      ensures var (c, w) := ConnSpec.WritePong(cfg, old(View()), out.Length);
              View() == c &&
              match w
              case Err(e) => r == Err(e) && out[..] == old(out[..])
              case Ok(None) => r == Ok(None) && out[..] == old(out[..])
              case Ok(Some(bs)) => r == Ok(Some(|bs|)) && FrameCodec.Written(old(out[..]), out[..], bs)
    {
      if pendingPong.None? {
        return Ok(None);
      }
      hide PongFrame;
      var (ctx, ctxLen) := pendingPong.value;
      var bodyLen := 1 + 4 + ctxLen;
      var total := 2 + bodyLen;
      if out.Length < total {
        return Err(BufferTooSmall);
      }
      pendingPong := None;
      PutPong(out, ctx[..ctxLen]);
      return Ok(Some(total));
    }

    method WriteError(out: array<byte>) returns (r: Result<nat, ConnError>)
      requires Valid() && out !in Repr
      modifies out
      ensures Valid() && View() == old(View())
      ensures Wrote(old(out[..]), out[..], ConnSpec.WriteError(out.Length), r)
    {
      hide NullMechanism.ErrorFrame;
      var encoded := NullMechanism.EncodeError(out, NullMechanism.REASON);
      if encoded.Err? {
        return Err(NullError(encoded.error));
      }
      ErrorFrameSize();
      return Ok(encoded.value);
    }

    // ----- feeding -----

    method Feed(input: bytes) returns (r: Result<nat, ConnError>)
      requires Valid()
      modifies Repr
      ensures Valid()
      ensures (View(), r) == ConnSpec.Feed(cfg, old(View()), input)
    {
      match state
      case Greeting =>
        r := FeedGreeting(input);
      case Ready =>
        if !ourReadySent {
          return Err(WrongState);
        }
        r := FeedReadyInner(input);
      case PlainHello =>
        r := FeedPlainHello(input);
      case PlainReady =>
        if !ourWelcomeSent || !ourReadySent {
          return Err(WrongState);
        }
        r := FeedReadyInner(input);
      case Established =>
        r := FeedEstablished(input);
      case Failed =>
        r := Err(WrongState);
    }

    method FeedGreeting(input: bytes) returns (r: Result<nat, ConnError>)
      requires Valid() && state == State.Greeting
      modifies this, greetingBuf
      ensures Valid()
      ensures (View(), r) == ConnSpec.FeedGreeting(cfg, old(View()), input)
    {
      hide CheckGreeting;
      var needed := Greetings.GREETING_LEN - greetingPos;
      var toCopy := Min(|input|, needed);
      var prevPos := greetingPos;
      forall i | 0 <= i < toCopy {
        greetingBuf[greetingPos + i] := input[i];
      }
      greetingPos := greetingPos + toCopy;
      assert greetingBuf[..greetingPos] == old(View()).greeting + input[..toCopy];
      r := CheckStored(prevPos, toCopy);
    }

    /** The checks of `feed_greeting` on what is stored, after `toCopy` bytes behind the first `prevPos`. */
    method CheckStored(prevPos: nat, toCopy: nat) returns (r: Result<nat, ConnError>)
      requires Valid() && state == State.Greeting
      modifies this
      ensures Valid()
      ensures (View(), r) == CheckGreeting(cfg, old(View()), prevPos, toCopy)
    {
      hide Greetings.ParsePartial, Greetings.ParseGreeting;
      if prevPos < Greetings.GREETING_PARTIAL_LEN && greetingPos >= Greetings.GREETING_PARTIAL_LEN {
        assert greetingBuf[..greetingPos][..Greetings.GREETING_PARTIAL_LEN]
            == greetingBuf[..Greetings.GREETING_PARTIAL_LEN];
        var partialCheck := Greetings.ParsePartial(greetingBuf[..Greetings.GREETING_PARTIAL_LEN]);
        if partialCheck.Err? {
          return Err(GreetingError(partialCheck.error));
        }
      }
      if greetingPos == Greetings.GREETING_LEN {
        assert greetingBuf[..] == greetingBuf[..greetingPos];
        var peerGreeting := Greetings.ParseGreeting(cfg.mechanism, greetingBuf[..]);
        if peerGreeting.Err? {
          return Err(GreetingError(peerGreeting.error));
        }
        peerVersionMinor := peerGreeting.value;
        peerGreetingReceived := true;
        if ourGreetingSent {
          state := AfterGreeting(cfg.mechanism);
        }
      }
      return Ok(toCopy);
    }

    /** What the decoder alone changes. */
    method Decode(input: bytes) returns (fed: FrameSpec.FeedOut)
      requires Valid()
      modifies frameDecoder, frameDecoder.buf
      ensures Valid()
      ensures var (d, out) := FrameSpec.Feed(cfg.frameCap, old(View()).dec, input);
              View() == old(View()).(dec := d) && fed == out
    {
      hide FrameSpec.Feed;
      fed := frameDecoder.Feed(input);
    }

    method FeedReadyInner(input: bytes) returns (r: Result<nat, ConnError>)
      requires Valid() && (state == Ready || state == PlainReady)
      modifies Repr
      ensures Valid()
      ensures (View(), r) == FeedFrames(cfg, old(View()), input)
    {
      hide FrameSpec.Feed, NullMechanism.ReadyFrom, OnHello, Dispatch;
      var fed := Decode(input);
      if fed.Err? {
        return Err(DecodeError(fed.error));
      }
      var (consumed, maybeFrame) := fed.value;
      if maybeFrame.Some? {
        var frame := maybeFrame.value;
        if |frame.body| > 255 {
          state := Failed;
          return Err(NullError(NullMechanism.MalformedMetadata));
        }
        var parsed := NullMechanism.ParseReadyFrom(cfg.role, frame.isCommand, frame.body);
        if parsed.Err? {
          state := Failed;
          return Err(NullError(parsed.error));
        }
        state := Established;
      }
      return Ok(consumed);
    }

    method FeedPlainHello(input: bytes) returns (r: Result<nat, ConnError>)
      requires Valid() && state == PlainHello
      modifies Repr
      ensures Valid()
      ensures (View(), r) == FeedFrames(cfg, old(View()), input)
    {
      hide FrameSpec.Feed, PlainMechanism.HelloFrom, OnReady, Dispatch;
      var fed := Decode(input);
      if fed.Err? {
        return Err(DecodeError(fed.error));
      }
      var (consumed, maybeFrame) := fed.value;
      if maybeFrame.Some? {
        var frame := maybeFrame.value;
        var hello := PlainMechanism.HelloFrom(frame.isCommand, frame.body);
        if hello.Err? {
          state := Failed;
          return Err(PlainError(hello.error));
        }
        if !cfg.auth(hello.value.0, hello.value.1) {
          state := Failed;
          return Err(PlainError(PlainMechanism.AuthFailed));
        }
        state := PlainReady;
      }
      return Ok(consumed);
    }

    method FeedEstablished(input: bytes) returns (r: Result<nat, ConnError>)
      requires Valid() && state == Established
      modifies Repr
      ensures Valid()
      ensures (View(), r) == FeedFrames(cfg, old(View()), input)
    {
      hide FrameSpec.Feed, Dispatch, OnReady, OnHello;
      var fed := Decode(input);
      if fed.Err? {
        return Err(DecodeError(fed.error));
      }
      var (consumed, maybeFrame) := fed.value;
      if maybeFrame.Some? {
        OnPeerFrame(maybeFrame.value);
      }
      return Ok(consumed);
    }

    /** The dispatcher: a command or a version 3.0 subscription message, or nothing to do. */
    method OnPeerFrame(frame: FrameSpec.Frame)
      requires Valid()
      modifies Repr
      ensures Valid() && View() == Dispatch(cfg, old(View()), frame)
    {
      ghost var c := View();
      assert c.minor == peerVersionMinor;
      IgnoreIsNothing(cfg, c);
      hide Connection.View, TableAfter, CommandOp;
      var body := frame.body;
      if body == [] {
        return;
      }
      if frame.isCommand {
        var nameLen: nat := body[0];
        if |body| < 1 + nameLen {
          return;
        }
        OnCommand(body[1..1 + nameLen], body[1 + nameLen..]);
      } else if cfg.role.Pub? {
        if body[0] == 1 {
          AddEntry(body[1..]);
        } else if body[0] == 0 {
          DropEntry(body[1..]);
        }
      }
    }

    method OnCommand(name: bytes, payload: bytes)
      requires Valid()
      modifies Repr
      ensures Valid() && View() == Perform(cfg, old(View()), CommandOp(cfg.role, old(View()).minor, name, payload))
    {
      ghost var c := View();
      assert c.minor == peerVersionMinor;
      IgnoreIsNothing(cfg, c);
      hide Connection.View, TableAfter;
      if name == AddName(cfg.role) {
        AddEntry(payload);
      } else if name == DropName(cfg.role) {
        DropEntry(payload);
      } else if name == PING && peerVersionMinor >= 1 {
        QueuePong(payload);
      }
    }

    /** SUBSCRIBE or JOIN; a refusal is ignored. */
    method AddEntry(entry: bytes)
      requires Valid()
      modifies Repr - {this, greetingBuf, frameDecoder, frameDecoder.buf}
      ensures Valid() && View() == Perform(cfg, old(View()), Add(entry))
    {
      if cfg.role.Pub? {
        var _ := subTable.Subscribe(entry);
      } else {
        var _ := groupTable.Join(entry);
      }
    }

    /** CANCEL or LEAVE. */
    method DropEntry(entry: bytes)
      requires Valid()
      modifies Repr - {this, greetingBuf, frameDecoder, frameDecoder.buf}
      ensures Valid() && View() == Perform(cfg, old(View()), Drop(entry))
    {
      if cfg.role.Pub? {
        subTable.Cancel(entry);
      } else {
        groupTable.Leave(entry);
      }
    }

    method QueuePong(payload: bytes)
      requires Valid()
      modifies this
      ensures Valid() && View() == Perform(cfg, old(View()), Ping(Context(payload)))
    {
      var ctxBytes := if |payload| < 2 then [] else payload[2..];
      var ctxLen := Min(|ctxBytes|, 16);
      var ctx := ctxBytes[..ctxLen] + Greetings.Zeros(16 - ctxLen);
      assert ctx[..ctxLen] == ctxBytes[..ctxLen];
      pendingPong := Some((ctx, ctxLen));
    }

    // ----- publishing -----

    method IsMatch(topic: bytes) returns (found: bool)
      requires Valid()
      ensures found == Matches(cfg, View(), topic)
    {
      if cfg.role.Pub? {
        found := subTable.IsMatch(topic);
      } else {
        found := groupTable.IsMatch(topic);
      }
    }

    method MakePublishHeaders(topic: bytes, payload: bytes) returns (r: Result<Option<HeaderPair>, ConnError>)
      requires Valid() && |topic| < USIZE_LIMIT && |payload| < USIZE_LIMIT
      ensures match ConnSpec.PublishHeaders(cfg, View(), topic, payload)
              case Err(e) => r == Err(e)
              case Ok(None) => r == Ok(None)
              case Ok(Some((th, ph))) =>
                && r.Ok? && r.value.Some? && var h := r.value.value;
                && |h.topic| == |h.payload| == FrameCodec.MAX_FRAME_HEADER
                && h.topicLen <= |h.topic| && h.topic[..h.topicLen] == th
                && h.payloadLen <= |h.payload| && h.payload[..h.payloadLen] == ph
    {
      if state != Established {
        return Err(WrongState);
      }
      var found := IsMatch(topic);
      if !found {
        return Ok(None);
      }
      var th := new byte[FrameCodec.MAX_FRAME_HEADER];
      var thN := FrameCodec.EncodeMessageFrame(th, |topic|, true);
      var ph := new byte[FrameCodec.MAX_FRAME_HEADER];
      var phN := FrameCodec.EncodeMessageFrame(ph, |payload|, false);
      return Ok(Some(HeaderPair(th[..], thN.value, ph[..], phN.value)));
    }

    method Publish(topic: bytes, payload: bytes, out: array<byte>) returns (r: Result<nat, ConnError>)
      requires Valid() && out !in Repr && |topic| < USIZE_LIMIT && |payload| < USIZE_LIMIT
      modifies out
      ensures Valid() && View() == old(View())
      ensures Wrote(old(out[..]), out[..], ConnSpec.Publish(cfg, View(), topic, payload, out.Length), r)
    {
      ghost var c := View();
      PublishParts(cfg, c, topic, payload, out.Length);
      NothingWritten(out[..]);
      hide View, WF, ConnSpec.Publish, ConnSpec.PublishHeaders, FrameCodec.Written, Matches;
      var headers := MakePublishHeaders(topic, payload);
      if headers.Err? {
        return Err(headers.error);
      }
      if headers.value.None? {
        return Ok(0);
      }
      r := PutMessage(out, headers.value.value, topic, payload);
      assert View() == c;
    }
  }

  /** What is published is the two headers, each in front of its part. */
  lemma PublishParts(cfg: Config, c: Conn, topic: bytes, payload: bytes, out: nat)
    ensures var r := ConnSpec.Publish(cfg, c, topic, payload, out);
            match ConnSpec.PublishHeaders(cfg, c, topic, payload)
            case Err(e) => r == Err(e)
            case Ok(None) => r == Ok([])
            case Ok(Some((th, ph))) =>
              r == if out < |th + topic + ph + payload| then Err(BufferTooSmall) else Ok(th + topic + ph + payload)
  {
    hide Matches, FrameSpec.Header;
  }

  lemma NothingWritten(before: bytes)
    ensures FrameCodec.Written(before, before, [])
  {}

  lemma IgnoreIsNothing(cfg: Config, c: Conn)
    ensures Perform(cfg, c, Ignore) == c
  {}

  lemma ErrorFrameSize()
    ensures |ErrorFrame()| == 9 + |NullMechanism.REASON|
  {}

  /** `out[at..at + bs.len()].copy_from_slice(bs)`, and where the next part goes. */
  method CopyAt(out: array<byte>, at: nat, bs: bytes) returns (next: nat)
    requires at + |bs| <= out.Length
    modifies out
    ensures next == at + |bs|
    ensures out[..next] == old(out[..])[..at] + bs && out[next..] == old(out[..])[next..]
  {
    forall i | 0 <= i < |bs| {
      out[at + i] := bs[i];
    }
    return at + |bs|;
  }

  method PutPong(out: array<byte>, context: PongContext)
    requires 7 + |context| <= out.Length
    modifies out
    ensures FrameCodec.Written(old(out[..]), out[..], PongFrame(context))
  {
    ghost var before := out[..];
    out[0], out[1], out[2] := 4, 5 + |context|, 4;
    forall i | 0 <= i < 4 {
      out[3 + i] := PONG[i];
    }
    forall i | 0 <= i < |context| {
      out[7 + i] := context[i];
    }
    var total := 7 + |context|;
    assert out[..total] == PongFrame(context) && out[total..] == before[total..];
    assert out[..] == out[..total] + out[total..];
  }

  /** The four parts of a message, if there is room for them. */
  method PutMessage(out: array<byte>, h: HeaderPair, topic: bytes, payload: bytes) returns (r: Result<nat, ConnError>)
    requires h.topicLen <= |h.topic| && h.payloadLen <= |h.payload|
    modifies out
    ensures var message := h.topic[..h.topicLen] + topic + h.payload[..h.payloadLen] + payload;
            if out.Length < |message| then r == Err(BufferTooSmall) && out[..] == old(out[..])
            else r == Ok(|message|) && FrameCodec.Written(old(out[..]), out[..], message)
  {
    var HeaderPair(th, thN, ph, phN) := h;
    var total := thN + |topic| + phN + |payload|;
    if out.Length < total {
      return Err(BufferTooSmall);
    }
    var written := CopyParts(out, th[..thN], topic, ph[..phN], payload);
    return Ok(written);
  }

  method CopyParts(out: array<byte>, th: bytes, topic: bytes, ph: bytes, payload: bytes) returns (written: nat)
    requires |th| + |topic| + |ph| + |payload| <= out.Length
    modifies out
    ensures written == |th| + |topic| + |ph| + |payload|
    ensures FrameCodec.Written(old(out[..]), out[..], th + topic + ph + payload)
  {
    ghost var before := out[..];
    var a := CopyAt(out, 0, th);
    assert out[..a] == th;
    ghost var s1 := out[..];
    var b := CopyAt(out, a, topic);
    assert out[..b] == th + topic && out[b..] == s1[b..] == before[b..] by { DropTwice(s1, before, a, b); }
    ghost var s2 := out[..];
    var c := CopyAt(out, b, ph);
    assert out[..c] == th + topic + ph && out[c..] == s2[c..] == before[c..] by { DropTwice(s2, before, b, c); }
    ghost var s3 := out[..];
    written := CopyAt(out, c, payload);
    assert out[written..] == s3[written..] == before[written..] by { DropTwice(s3, before, c, written); }
    assert out[..] == out[..written] + out[written..];
  }

  lemma DropTwice(s: bytes, t: bytes, i: nat, j: nat)
    requires i <= j <= |s| == |t| && s[i..] == t[i..]
    ensures s[j..] == t[j..]
  {
    assert s[j..] == s[i..][j - i..] && t[j..] == t[i..][j - i..];
  }
}
