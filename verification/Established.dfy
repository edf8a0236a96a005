/**
 What an established connection makes of a byte stream: the frames in it, each applied to
 the table in order, and one PONG for each PING.
 */
module Established {
  import opened Wrappers
  import opened Bytes
  import opened ConnSpec
  import opened ByteMachine
  import FrameSpec
  import NullMechanism
  import Entries
  import SubTable
  import GroupTable
  import Handshake

  function Ops(role: NullMechanism.Role, minor: byte, fs: seq<FrameSpec.Frame>): seq<Op> {
    if fs == [] then [] else [OpOf(role, minor, fs[0])] + Ops(role, minor, fs[1..])
  }

  function TableAfterAll(cfg: Config, t: seq<bytes>, ops: seq<Op>): seq<bytes>
    decreases |ops|
  {
    if ops == [] then t else TableAfterAll(cfg, TableAfter(cfg, t, ops[0]), ops[1..])
  }

  /** The contexts of the PINGs, in order. */
  function Pings(ops: seq<Op>): seq<PongContext> {
    if ops == [] then []
    else (if ops[0].Ping? then [ops[0].context] else []) + Pings(ops[1..])
  }

  /** One PONG frame for each context, in order. */
  function Pongs(contexts: seq<PongContext>): bytes {
    if contexts == [] then [] else PongFrame(contexts[0]) + Pongs(contexts[1..])
  }

  function DecodeFailure(e: Option<FrameSpec.DecodeError>): Option<ConnError> {
    match e
    case None => None
    case Some(e) => Some(DecodeError(e))
  }

  /** The connection, the writes and the error that a decoded stream leads to. */
  function Applied(cfg: Config, c: Conn, d: FrameSpec.Decoded): Pumped {
    var ops := Ops(cfg.role, c.minor, d.frames);
    Pumped(c.(dec := d.st, table := TableAfterAll(cfg, c.table, ops)), Pongs(Pings(ops)), DecodeFailure(d.error))
  }

  lemma {:induction false} OpsAppend(
    role: NullMechanism.Role, minor: byte, fs: seq<FrameSpec.Frame>, gs: seq<FrameSpec.Frame>)
    ensures Ops(role, minor, fs + gs) == Ops(role, minor, fs) + Ops(role, minor, gs)
  {
    hide OpOf;
    if fs == [] {
      assert fs + gs == gs;
    } else {
      assert (fs + gs)[1..] == fs[1..] + gs;
      OpsAppend(role, minor, fs[1..], gs);
    }
  }

  lemma {:induction false} TableAfterBoth(cfg: Config, t: seq<bytes>, a: seq<Op>, b: seq<Op>)
    ensures TableAfterAll(cfg, t, a + b) == TableAfterAll(cfg, TableAfterAll(cfg, t, a), b)
    decreases |a|
  {
    hide TableAfter;
    if a == [] {
      assert a + b == b;
    } else {
      assert (a + b)[1..] == a[1..] + b;
      TableAfterBoth(cfg, TableAfter(cfg, t, a[0]), a[1..], b);
    }
  }

  lemma PumpByteEstablished(cfg: Config, c: Conn, b: byte)
    requires DriverInv(cfg, c) && c.state == Established
    ensures var (s', o) := FrameSpec.Step(cfg.frameCap, c.dec, b);
            var c1 := c.(dec := s');
            PumpByte(cfg, c, b) ==
            match o
            case Silent => Pumped(c1, [], None)
            case Fault(e) => Pumped(c1, [], Some(DecodeError(e)))
            case Emit(f) =>
              var op := OpOf(cfg.role, c.minor, f);
              Pumped(c1.(table := TableAfter(cfg, c.table, op)), if op.Ping? then PongFrame(op.context) else [], None)
  {
    hide FrameSpec.Step, FrameSpec.Feed, OpOf, TableAfter, DriverInv;
    DriverNoPong(cfg, c);
    FrameSpec.FeedCons(cfg.frameCap, c.dec, b, []);
    assert [b] + [] == [b];
    FrameSpec.FeedCons(cfg.frameCap, FrameSpec.Step(cfg.frameCap, c.dec, b).0, b, []);
  }

  lemma DriverNoPong(cfg: Config, c: Conn)
    requires DriverInv(cfg, c)
    ensures c.pong == None
  {}

  lemma TableKeepsInv(cfg: Config, c: Conn, s: FrameSpec.DecState, op: Op)
    requires DriverInv(cfg, c) && c.state == Established && FrameSpec.DecValid(cfg.frameCap, s)
    ensures DriverInv(cfg, c.(dec := s, table := TableAfter(cfg, c.table, op)))
  {
    Handshake.TableAfterOk(cfg, c.table, op);
  }

  lemma AppliedFrame(cfg: Config, c: Conn, f: FrameSpec.Frame, d: FrameSpec.Decoded)
    ensures var op := OpOf(cfg.role, c.minor, f);
            var c1 := c.(dec := FrameSpec.NeedFlags, table := TableAfter(cfg, c.table, op));
            Applied(cfg, c, FrameSpec.Prepend(f, d)) ==
            Following(if op.Ping? then PongFrame(op.context) else [], Applied(cfg, c1, d))
  {
    hide OpOf, TableAfter, TableAfterAll;
    var op := OpOf(cfg.role, c.minor, f);
    var rest := Ops(cfg.role, c.minor, d.frames);
    var fs := [f] + d.frames;
    assert fs[1..] == d.frames;
    assert Ops(cfg.role, c.minor, fs) == [op] + rest;
    OpsCons(cfg, c.table, op, rest);
  }

  lemma OpsCons(cfg: Config, t: seq<bytes>, op: Op, rest: seq<Op>)
    ensures TableAfterAll(cfg, t, [op] + rest) == TableAfterAll(cfg, TableAfter(cfg, t, op), rest)
    ensures Pongs(Pings([op] + rest)) == (if op.Ping? then PongFrame(op.context) else []) + Pongs(Pings(rest))
  {
    hide TableAfter;
    assert ([op] + rest)[1..] == rest;
    var ps := Pings(rest);
    if op.Ping? {
      assert ([op.context] + ps)[1..] == ps;
    } else {
      assert [] + ps == ps && [] + Pongs(ps) == Pongs(ps);
    }
  }

  /** On an established connection the byte machine is the decoder, with every frame applied. */
  lemma {:induction false} EstablishedMeaning(cfg: Config, c: Conn, bs: bytes)
    requires DriverInv(cfg, c) && c.state == Established
    ensures Pump(cfg, c, bs) == Applied(cfg, c, FrameSpec.Decode(cfg.frameCap, c.dec, bs))
    decreases |bs|
  {
    hide FrameSpec.Step, OpOf, TableAfter, DriverInv, PumpByte;
    if bs != [] {
      PumpByteEstablished(cfg, c, bs[0]);
      var (s', o) := FrameSpec.Step(cfg.frameCap, c.dec, bs[0]);
      match o
      case Fault(_) =>
      case Silent =>
        TableKeepsInv(cfg, c, s', Ignore);
        assert TableAfter(cfg, c.table, Ignore) == c.table by { IgnoreKeeps(cfg, c.table); }
        assert c.(dec := s', table := c.table) == c.(dec := s');
        EstablishedMeaning(cfg, c.(dec := s'), bs[1..]);
        AppliedSame(cfg, c, s', FrameSpec.Decode(cfg.frameCap, s', bs[1..]));
      case Emit(f) =>
        var op := OpOf(cfg.role, c.minor, f);
        var c1 := c.(dec := s', table := TableAfter(cfg, c.table, op));
        TableKeepsInv(cfg, c, s', op);
        EstablishedMeaning(cfg, c1, bs[1..]);
        AppliedFrame(cfg, c, f, FrameSpec.Decode(cfg.frameCap, s', bs[1..]));
    }
  }

  lemma IgnoreKeeps(cfg: Config, t: seq<bytes>)
    ensures TableAfter(cfg, t, Ignore) == t
  {}

  lemma AppliedSame(cfg: Config, c: Conn, s: FrameSpec.DecState, d: FrameSpec.Decoded)
    ensures Applied(cfg, c.(dec := s), d) == Applied(cfg, c, d)
    ensures Following([], Applied(cfg, c, d)) == Applied(cfg, c, d)
  {
    var p := Applied(cfg, c, d);
    assert [] + p.sent == p.sent;
  }

  // ----- one PONG for each PING, in order -----

  lemma {:induction false} PongsAppend(a: seq<Op>, b: seq<Op>)
    ensures Pongs(Pings(a + b)) == Pongs(Pings(a)) + Pongs(Pings(b))
  {
    hide PongFrame;
    if a == [] {
      assert a + b == b;
    } else {
      assert (a + b)[1..] == a[1..] + b;
      PongsAppend(a[1..], b);
      PingsOfFirst(a);
      PingsOfFirst(a + b);
    }
  }

  lemma PingsOfFirst(ops: seq<Op>)
    requires ops != []
    ensures Pongs(Pings(ops)) ==
            (if ops[0].Ping? then PongFrame(ops[0].context) else []) + Pongs(Pings(ops[1..]))
  {
    var rest := Pings(ops[1..]);
    if ops[0].Ping? {
      assert ([ops[0].context] + rest)[1..] == rest;
    } else {
      assert [] + rest == rest && [] + Pongs(rest) == Pongs(rest);
    }
  }

  /** The PONG for one PING frame stands between those for the frames before it and after it. */
  lemma PongsSplit(role: NullMechanism.Role, minor: byte, fs: seq<FrameSpec.Frame>, i: nat)
    requires i < |fs| && OpOf(role, minor, fs[i]).Ping?
    ensures Pongs(Pings(Ops(role, minor, fs))) ==
            Pongs(Pings(Ops(role, minor, fs[..i]))) + PongFrame(OpOf(role, minor, fs[i]).context)
            + Pongs(Pings(Ops(role, minor, fs[i + 1..])))
  {
    hide OpOf, PongFrame;
    var before, after := fs[..i], fs[i..];
    assert fs == before + after && after[1..] == fs[i + 1..];
    OpsAppend(role, minor, before, after);
    PongsAppend(Ops(role, minor, before), Ops(role, minor, after));
    PingsOfFirst(Ops(role, minor, after));
    assert Ops(role, minor, after)[1..] == Ops(role, minor, after[1..]);
  }

  // ----- which frames ask for what -----

  /** The body of a command with this name and payload. */
  function CommandBody(name: bytes, payload: bytes): bytes
    requires |name| < 256
  {
    [|name|] + name + payload
  }

  lemma CommandBodyParts(name: bytes, payload: bytes, body: bytes)
    requires |name| < 256
    ensures body == CommandBody(name, payload) <==>
            |body| >= 1 + |name| && body[0] == |name| && body[1..1 + |name|] == name && body[1 + |name|..] == payload
  {
    var n := |name|;
    if body == CommandBody(name, payload) {
      assert body[1..1 + n] == name;
    }
    if |body| >= 1 + n && body[0] == n && body[1..1 + n] == name && body[1 + n..] == payload {
      assert body == [body[0]] + body[1..1 + n] + body[1 + n..];
    }
  }

  /**
   A peer asks to be sent `entry` by exactly two frames: for PUB the command SUBSCRIBE, and the
   version 3.0 message that starts with 1; and for RADIO only the command JOIN.
   */
  lemma AddExactly(role: NullMechanism.Role, minor: byte, f: FrameSpec.Frame, entry: bytes)
    ensures OpOf(role, minor, f) == Add(entry) <==>
            match role
            case Pub => f.body == if f.isCommand then CommandBody(SUBSCRIBE, entry) else [1] + entry
            case Radio => f.isCommand && f.body == CommandBody(JOIN, entry)
  {
    CommandBodyParts(if role.Pub? then SUBSCRIBE else JOIN, entry, f.body);
    if !f.isCommand && f.body != [] {
      assert f.body == [f.body[0]] + f.body[1..];
    }
    NamesDiffer(role);
  }

  /** And to be sent it no longer, likewise: CANCEL, and the message that starts with 0; and LEAVE. */
  lemma DropExactly(role: NullMechanism.Role, minor: byte, f: FrameSpec.Frame, entry: bytes)
    ensures OpOf(role, minor, f) == Drop(entry) <==>
            match role
            case Pub => f.body == if f.isCommand then CommandBody(CANCEL, entry) else [0] + entry
            case Radio => f.isCommand && f.body == CommandBody(LEAVE, entry)
  {
    CommandBodyParts(if role.Pub? then CANCEL else LEAVE, entry, f.body);
    if !f.isCommand && f.body != [] {
      assert f.body == [f.body[0]] + f.body[1..];
    }
    NamesDiffer(role);
  }

  lemma NamesDiffer(role: NullMechanism.Role)
    ensures AddName(role) != DropName(role) && AddName(role) != PING && DropName(role) != PING
  {
    assert AddName(role)[0] != DropName(role)[0] && AddName(role)[0] != PING[0] && DropName(role)[0] != PING[0];
  }

  /** What of a PING's payload is echoed: of the bytes behind the first two, up to 16. */
  ghost predicate Echoes(context: bytes, payload: bytes) {
    if |payload| < 2 then context == []
    else if |payload| <= 18 then payload[2..] == context
    else payload[2..18] == context
  }

  /** A PONG is due exactly for the command PING from version 3.1 on; it echoes what follows the TTL. */
  lemma PingExactly(role: NullMechanism.Role, minor: byte, f: FrameSpec.Frame, context: PongContext)
    ensures OpOf(role, minor, f) == Ping(context) <==>
            minor >= 1 && f.isCommand
            && exists payload :: f.body == CommandBody(PING, payload) && Echoes(context, payload)
  {
    NamesDiffer(role);
    if |f.body| >= 5 {
      CommandBodyParts(PING, f.body[5..], f.body);
      ContextEchoes(f.body[5..]);
    }
    if payload :| f.body == CommandBody(PING, payload) && Echoes(context, payload) {
      CommandBodyParts(PING, payload, f.body);
      ContextEchoes(payload);
    }
  }

  lemma ContextEchoes(payload: bytes)
    ensures forall context :: Echoes(context, payload) <==> context == Context(payload)
  {
    if |payload| > 18 {
      assert payload[2..][..16] == payload[2..18];
    }
  }

  /** A PING frame, with any TTL, and its echo. */
  function PingFrame(ttl: bytes, context: bytes): FrameSpec.Frame
    requires |ttl| == 2
  {
    FrameSpec.Frame(false, true, [4] + PING + ttl + context)
  }

  /** From version 3.1 on, a PING is answered with the first 16 bytes of its context; before, it is ignored. */
  lemma PingIsEchoed(role: NullMechanism.Role, minor: byte, ttl: bytes, context: bytes)
    requires |ttl| == 2
    ensures OpOf(role, minor, PingFrame(ttl, context)) ==
            if minor >= 1 then Ping(context[..Min(|context|, 16)]) else Ignore
  {
    var body := [4] + PING + ttl + context;
    assert body[0] == 4 && body[1..5] == PING && body[5..] == ttl + context;
    assert (ttl + context)[2..] == context;
    assert PING[0] != AddName(role)[0] && PING[0] != DropName(role)[0];
  }

  // ----- the table as a bounded bag -----

  function BagAfter(cfg: Config, bag: multiset<bytes>, op: Op): multiset<bytes> {
    match op
    case Add(e) => if |e| <= cfg.entryCap && |bag| < cfg.tableCap then bag + multiset{e} else bag
    case Drop(e) => bag - multiset{e}
    case _ => bag
  }

  function BagAfterAll(cfg: Config, bag: multiset<bytes>, ops: seq<Op>): multiset<bytes>
    decreases |ops|
  {
    if ops == [] then bag else BagAfterAll(cfg, BagAfter(cfg, bag, ops[0]), ops[1..])
  }

  /** A SUB peer's table is a bounded bag, over any operations, though `swap_remove` reorders it. */
  lemma {:induction false} TableIsBag(cfg: Config, t: seq<bytes>, ops: seq<Op>)
    requires cfg.role.Pub?
    ensures multiset(TableAfterAll(cfg, t, ops)) == BagAfterAll(cfg, multiset(t), ops)
    decreases |ops|
  {
    if ops != [] {
      if ops[0].Drop? {
        Entries.RemovedMultiset(t, ops[0].entry);
      }
      TableIsBag(cfg, TableAfter(cfg, t, ops[0]), ops[1..]);
    }
  }

  /** A topic matches exactly when some prefix of it is in the bag. */
  lemma MatchesByBag(cfg: Config, ops: seq<Op>, topic: bytes)
    requires cfg.role.Pub?
    ensures SubTable.Matches(TableAfterAll(cfg, [], ops), topic) <==>
            exists k :: 0 <= k <= |topic| && BagAfterAll(cfg, multiset{}, ops)[topic[..k]] > 0
  {
    hide TableAfterAll, BagAfterAll, SubTable.Matches;
    var none: seq<bytes> := [];
    assert multiset(none) == multiset{};
    TableIsBag(cfg, none, ops);
    SubTable.MatchesIsPrefixCount(TableAfterAll(cfg, [], ops), topic);
  }

  /** What is asked for is within the capacities at the time. */
  ghost predicate NoneRefused(cfg: Config, t: seq<bytes>, ops: seq<Op>)
    decreases |ops|
  {
    ops != [] ==>
      && (ops[0].Add? ==> |ops[0].entry| <= cfg.entryCap && |t| < cfg.tableCap)
      && NoneRefused(cfg, TableAfter(cfg, t, ops[0]), ops[1..])
  }

  /** Subscribes minus cancels of `p`, where a cancel at zero does nothing. */
  function Balance(ops: seq<Op>, p: bytes): nat {
    if ops == [] then 0
    else
      var before := Balance(ops[..|ops| - 1], p);
      var op := ops[|ops| - 1];
      if op == Add(p) then before + 1
      else if op == Drop(p) && before > 0 then before - 1
      else before
  }

  lemma {:induction false} TableSnoc(cfg: Config, t: seq<bytes>, ops: seq<Op>, op: Op)
    ensures TableAfterAll(cfg, t, ops + [op]) == TableAfter(cfg, TableAfterAll(cfg, t, ops), op)
    ensures NoneRefused(cfg, t, ops + [op]) ==>
              NoneRefused(cfg, t, ops) &&
              (op.Add? ==> |op.entry| <= cfg.entryCap && |TableAfterAll(cfg, t, ops)| < cfg.tableCap)
    decreases |ops|
  {
    hide TableAfter;
    if ops == [] {
      assert [op][1..] == [] && ops + [op] == [op];
      assert TableAfterAll(cfg, t, [op]) == TableAfterAll(cfg, TableAfter(cfg, t, op), []);
    } else {
      assert (ops + [op])[1..] == ops[1..] + [op];
      TableSnoc(cfg, TableAfter(cfg, t, ops[0]), ops[1..], op);
    }
  }

  /** One accepted operation moves one count, up or saturating down. */
  lemma CountStep(cfg: Config, t: seq<bytes>, op: Op, p: bytes)
    requires cfg.role.Pub? && (op.Add? ==> |op.entry| <= cfg.entryCap && |t| < cfg.tableCap)
    ensures var n := multiset(t)[p];
            multiset(TableAfter(cfg, t, op))[p] ==
            if op == Add(p) then n + 1 else if op == Drop(p) && n > 0 then n - 1 else n
  {
    if op.Drop? {
      Entries.RemovedMultiset(t, op.entry);
    }
  }

  lemma {:induction false} BalanceIsCount(cfg: Config, ops: seq<Op>, p: bytes)
    requires cfg.role.Pub? && NoneRefused(cfg, [], ops)
    ensures multiset(TableAfterAll(cfg, [], ops))[p] == Balance(ops, p)
    decreases |ops|
  {
    hide TableAfterAll, NoneRefused, TableAfter;
    if ops == [] {
      NothingToApply(cfg, []);
    } else {
      var before, op := ops[..|ops| - 1], ops[|ops| - 1];
      assert ops == before + [op];
      TableSnoc(cfg, [], before, op);
      BalanceIsCount(cfg, before, p);
      CountStep(cfg, TableAfterAll(cfg, [], before), op, p);
    }
  }

  lemma NothingToApply(cfg: Config, t: seq<bytes>)
    ensures TableAfterAll(cfg, t, []) == t
  {}

  /** A topic matches exactly when some prefix of it has more subscribes than cancels. */
  lemma MatchesByBalance(cfg: Config, ops: seq<Op>, topic: bytes)
    requires cfg.role.Pub? && NoneRefused(cfg, [], ops)
    ensures SubTable.Matches(TableAfterAll(cfg, [], ops), topic) <==>
            exists k :: 0 <= k <= |topic| && Balance(ops, topic[..k]) > 0
  {
    hide TableAfterAll, NoneRefused, Balance, SubTable.Matches;
    var t := TableAfterAll(cfg, [], ops);
    SubTable.MatchesIsPrefixCount(t, topic);
    forall k | 0 <= k <= |topic| ensures multiset(t)[topic[..k]] == Balance(ops, topic[..k]) {
      BalanceIsCount(cfg, ops, topic[..k]);
    }
  }

  // ----- the table as a bounded set -----

  function SetAfter(cfg: Config, groups: set<bytes>, op: Op): set<bytes> {
    match op
    case Add(e) => GroupTable.SetJoined(cfg.tableCap, cfg.entryCap, groups, e).0
    case Drop(e) => groups - {e}
    case _ => groups
  }

  function SetAfterAll(cfg: Config, groups: set<bytes>, ops: seq<Op>): set<bytes>
    decreases |ops|
  {
    if ops == [] then groups else SetAfterAll(cfg, SetAfter(cfg, groups, ops[0]), ops[1..])
  }

  /** A DISH peer's table is a bounded set, over any operations. */
  lemma {:induction false} TableIsSet(cfg: Config, t: seq<bytes>, ops: seq<Op>)
    requires cfg.role.Radio? && GroupTable.Distinct(t)
    ensures var t' := TableAfterAll(cfg, t, ops);
            GroupTable.Distinct(t') && GroupTable.Members(t') == SetAfterAll(cfg, GroupTable.Members(t), ops)
    decreases |ops|
  {
    if ops != [] {
      if ops[0].Add? {
        GroupTable.JoinedIsSet(cfg.tableCap, cfg.entryCap, t, ops[0].entry);
      } else if ops[0].Drop? {
        GroupTable.LeftIsSet(t, ops[0].entry);
      }
      TableIsSet(cfg, TableAfter(cfg, t, ops[0]), ops[1..]);
    }
  }

  /** A group matches exactly when it is in the set. */
  lemma MatchesBySet(cfg: Config, ops: seq<Op>, g: bytes)
    requires cfg.role.Radio?
    ensures g in TableAfterAll(cfg, [], ops) <==> g in SetAfterAll(cfg, {}, ops)
  {
    hide TableAfterAll, SetAfterAll;
    TableIsSet(cfg, [], ops);
    assert GroupTable.Members([]) == {};
    assert g in TableAfterAll(cfg, [], ops) <==> g in GroupTable.Members(TableAfterAll(cfg, [], ops));
  }

  /** `g` was joined, and not left after that. */
  ghost predicate JoinedSince(ops: seq<Op>, g: bytes) {
    exists i :: 0 <= i < |ops| && ops[i] == Add(g) && forall j :: i < j < |ops| ==> ops[j] != Drop(g)
  }

  lemma JoinedSinceSnoc(ops: seq<Op>, op: Op, g: bytes)
    ensures JoinedSince(ops + [op], g) <==> op == Add(g) || (op != Drop(g) && JoinedSince(ops, g))
  {
    var all := ops + [op];
    var n := |ops|;
    assert all[n] == op;
    if op == Add(g) {
      assert |all| == n + 1;
    }
    if op != Add(g) && op != Drop(g) && JoinedSince(ops, g) {
      var i :| 0 <= i < n && ops[i] == Add(g) && forall j :: i < j < n ==> ops[j] != Drop(g);
      assert all[i] == Add(g);
      assert forall j :: i < j < |all| ==> all[j] != Drop(g);
    }
    if op != Add(g) && JoinedSince(all, g) {
      var i :| 0 <= i < |all| && all[i] == Add(g) && forall j :: i < j < |all| ==> all[j] != Drop(g);
      assert i < n && ops[i] == Add(g);
      assert forall j :: i < j < n ==> ops[j] == all[j];
    }
  }

  /** A DISH peer's table holds exactly the groups joined and not left since, each once. */
  lemma {:induction false} MatchesByMembership(cfg: Config, ops: seq<Op>, g: bytes)
    requires cfg.role.Radio? && NoneRefused(cfg, [], ops)
    ensures var t := TableAfterAll(cfg, [], ops);
            GroupTable.Distinct(t) && (g in t <==> JoinedSince(ops, g))
    decreases |ops|
  {
    hide TableAfterAll, NoneRefused, JoinedSince;
    if ops == [] {
      NothingToApply(cfg, []);
      assert !JoinedSince(ops, g) by { NothingJoined(g); }
    } else {
      var before, op := ops[..|ops| - 1], ops[|ops| - 1];
      assert ops == before + [op];
      TableSnoc(cfg, [], before, op);
      JoinedSinceSnoc(before, op, g);
      MatchesByMembership(cfg, before, g);
      var t := TableAfterAll(cfg, [], before);
      match op
      case Add(e) =>
        GroupTable.JoinedIsSet(cfg.tableCap, cfg.entryCap, t, e);
      case Drop(e) =>
        GroupTable.LeftIsSet(t, e);
        assert g in Entries.Removed(t, e) <==> g in GroupTable.Members(Entries.Removed(t, e));
      case _ =>
    }
  }

  lemma NothingJoined(g: bytes)
    ensures !JoinedSince([], g)
  {}
}
