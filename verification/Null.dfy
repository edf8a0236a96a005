/** The NULL mechanism's READY and ERROR commands. */
module NullMechanism {
  import opened Wrappers
  import opened Bytes
  import FrameSpec
  import FrameCodec

  datatype Role = Pub | Radio

  datatype PeerSocketType = Sub | Xsub | Dish

  datatype NullError =
    | BufferTooSmall
    | NotACommand
    | UnknownCommand
    | PeerError
    | WrongSocketType
    | MalformedMetadata
    | ReasonTooLong

  const READY: bytes := [0x52, 0x45, 0x41, 0x44, 0x59]
  const ERROR: bytes := [0x45, 0x52, 0x52, 0x4F, 0x52]
  const SOCKET_TYPE: bytes := [0x53, 0x6F, 0x63, 0x6B, 0x65, 0x74, 0x2D, 0x54, 0x79, 0x70, 0x65]
  const PUB: bytes := [0x50, 0x55, 0x42]
  const RADIO: bytes := [0x52, 0x41, 0x44, 0x49, 0x4F]
  const SUB: bytes := [0x53, 0x55, 0x42]
  const XSUB: bytes := [0x58, 0x53, 0x55, 0x42]
  const DISH: bytes := [0x44, 0x49, 0x53, 0x48]

  /** "Invalid socket type", the reason given in every ERROR command we send. */
  const REASON: bytes :=
    [0x49, 0x6E, 0x76, 0x61, 0x6C, 0x69, 0x64, 0x20, 0x73, 0x6F, 0x63, 0x6B, 0x65, 0x74, 0x20, 0x74, 0x79, 0x70, 0x65]

  // ----- READY metadata: the grammar -----

  datatype Property = Property(name: bytes, value: bytes)

  ghost predicate WellFormed(p: Property) {
    |p.name| < 256 && |p.value| < 0x1_0000_0000
  }

  function Width(p: Property): nat { 5 + |p.name| + |p.value| }

  function EncodeProperty(p: Property): (e: bytes)
    requires WellFormed(p)
    ensures |e| == Width(p)
  {
    [|p.name|] + p.name + ToBE(|p.value|, 4) + p.value
  }

  function EncodeProperties(ps: seq<Property>): bytes
    requires forall p :: p in ps ==> WellFormed(p)
  {
    if ps == [] then [] else EncodeProperty(ps[0]) + EncodeProperties(ps[1..])
  }

  function Lower(b: byte): byte {
    if 0x41 <= b <= 0x5A then b + 32 else b
  }

  predicate EqIgnoreCase(a: bytes, b: bytes): (eq: bool)
    ensures eq ==> |a| == |b|
  {
    |a| == |b| && forall i :: 0 <= i < |a| ==> Lower(a[i]) == Lower(b[i])
  }

  /** "socket-type" and "SOCKET-TYPE". */
  const SMALL_SOCKET_TYPE: bytes := [0x73, 0x6F, 0x63, 0x6B, 0x65, 0x74, 0x2D, 0x74, 0x79, 0x70, 0x65]
  const LARGE_SOCKET_TYPE: bytes := [0x53, 0x4F, 0x43, 0x4B, 0x45, 0x54, 0x2D, 0x54, 0x59, 0x50, 0x45]

  /** Every letter of the name may be small or large. */
  predicate IsSocketType(name: bytes) {
    |name| == 11 && forall i :: 0 <= i < 11 ==> name[i] == SMALL_SOCKET_TYPE[i] || name[i] == LARGE_SOCKET_TYPE[i]
  }

  /** That is what the comparison without case comes to. */
  lemma CaseDoesNotMatter(name: bytes)
    ensures EqIgnoreCase(name, SOCKET_TYPE) <==> IsSocketType(name)
  {
    forall i | 0 <= i < 11 && |name| == 11
      ensures Lower(name[i]) == Lower(SOCKET_TYPE[i]) <==>
              name[i] == SMALL_SOCKET_TYPE[i] || name[i] == LARGE_SOCKET_TYPE[i]
    {
      LettersOfSocketType(i);
    }
  }

  lemma LettersOfSocketType(i: nat)
    requires i < 11
    ensures Lower(SOCKET_TYPE[i]) == SMALL_SOCKET_TYPE[i]
    ensures if SMALL_SOCKET_TYPE[i] == 0x2D then LARGE_SOCKET_TYPE[i] == 0x2D
            else LARGE_SOCKET_TYPE[i] + 32 == SMALL_SOCKET_TYPE[i] && 0x61 <= SMALL_SOCKET_TYPE[i] <= 0x7A
  {}

  ghost predicate OtherProperties(ps: seq<Property>) {
    forall p :: p in ps ==> WellFormed(p) && !IsSocketType(p.name)
  }

  /** `meta` gives the socket type `v` after `ps`, which are other properties; anything may follow. */
  ghost predicate Gives(meta: bytes, v: bytes, ps: seq<Property>, p: Property) {
    && OtherProperties(ps) && WellFormed(p) && IsSocketType(p.name) && p.value == v
    && EncodeProperties(ps) + EncodeProperty(p) <= meta
  }

  ghost predicate GivesSocketType(meta: bytes, v: bytes) {
    exists ps, p :: Gives(meta, v, ps, p)
  }

  ghost predicate GivesNoSocketType(meta: bytes) {
    exists ps :: OtherProperties(ps) && meta == EncodeProperties(ps)
  }

  // ----- READY metadata: the walk -----

  /** The property at the start of `meta`, if all its bytes are there. */
  function FirstProperty(meta: bytes): (r: Option<Property>)
    requires meta != []
    ensures r.Some? ==> 5 + |r.value.name| + |r.value.value| <= |meta|
  {
    var n: nat := meta[0];
    if 1 + n + 4 > |meta| then None
    else
      var v := FromBE(meta[1 + n..1 + n + 4]);
      if 1 + n + 4 + v > |meta| then None
      else Some(Property(meta[1..1 + n], meta[1 + n + 4..1 + n + 4 + v]))
  }

  /** The same read in the coordinates of the whole body. */
  lemma FirstPropertyAt(body: bytes, pos: nat)
    requires pos < |body|
    ensures var n: nat := body[pos];
            var at := pos + 1 + n;
            FirstProperty(body[pos..]) ==
            if at + 4 > |body| then None
            else
              var v := FromBE(body[at..at + 4]);
              if at + 4 + v > |body| then None
              else Some(Property(body[pos + 1..at], body[at + 4..at + 4 + v]))
  {
    hide FromBE;
    var meta := body[pos..];
    var n: nat := meta[0];
    if pos + 1 + n + 4 <= |body| {
      var at := pos + 1 + n;
      assert meta[1 + n..5 + n] == body[at..at + 4];
      assert meta[1..1 + n] == body[pos + 1..at];
      var v := FromBE(body[at..at + 4]);
      if at + 4 + v <= |body| {
        assert meta[5 + n..5 + n + v] == body[at + 4..at + 4 + v];
      }
    }
  }

  function SocketTypeOf(meta: bytes): Result<bytes, NullError>
    decreases |meta|
  {
    if meta == [] then Err(WrongSocketType)
    else
      match FirstProperty(meta)
      case None => Err(MalformedMetadata)
      case Some(p) => if IsSocketType(p.name) then Ok(p.value) else SocketTypeOf(meta[Width(p)..])
  }

  lemma FirstPropertyIsWritten(meta: bytes)
    requires meta != [] && FirstProperty(meta).Some?
    ensures var p := FirstProperty(meta).value;
            WellFormed(p) && EncodeProperty(p) == meta[..Width(p)]
  {
    hide FromBE, ToBE;
    var n: nat := meta[0];
    var size := meta[1 + n..5 + n];
    ToBEInverse(size);
    Pow256Values();
    var v := FromBE(size);
    assert meta[..5 + n + v] == [meta[0]] + meta[1..1 + n] + size + meta[5 + n..5 + n + v];
  }

  lemma WrittenIsFirstProperty(meta: bytes, p: Property)
    requires WellFormed(p) && EncodeProperty(p) <= meta
    ensures meta != [] && FirstProperty(meta) == Some(p)
  {
    hide FromBE, ToBE;
    var e := EncodeProperty(p);
    var n, v := |p.name|, |p.value|;
    Pow256Values();
    FromBEInverse(v, 4);
    assert e == meta[..5 + n + v];
    assert e[1..1 + n] == p.name && e[1 + n..5 + n] == ToBE(v, 4) && e[5 + n..] == p.value;
    assert meta[1..1 + n] == e[1..1 + n] && meta[1 + n..5 + n] == e[1 + n..5 + n];
    assert meta[5 + n..5 + n + v] == e[5 + n..];
  }

  lemma FirstPropertyExact(meta: bytes, p: Property)
    requires meta != []
    ensures FirstProperty(meta) == Some(p) <==> WellFormed(p) && EncodeProperty(p) <= meta
  {
    hide FirstProperty, EncodeProperty;
    if FirstProperty(meta) == Some(p) {
      FirstPropertyIsWritten(meta);
    }
    if WellFormed(p) && EncodeProperty(p) <= meta {
      WrittenIsFirstProperty(meta, p);
    }
  }

  lemma {:induction false} WalkFindsGiven(meta: bytes, v: bytes, ps: seq<Property>, p: Property)
    requires Gives(meta, v, ps, p)
    ensures SocketTypeOf(meta) == Ok(v)
    decreases |ps|
  {
    hide FirstProperty, EncodeProperty, IsSocketType;
    var e := EncodeProperties(ps) + EncodeProperty(p);
    if ps == [] {
      assert e == EncodeProperty(p);
      FirstPropertyExact(meta, p);
    } else {
      var q, rest := ps[0], ps[1..];
      var e' := EncodeProperties(rest) + EncodeProperty(p);
      assert e == EncodeProperty(q) + e';
      assert EncodeProperty(q) <= meta && |EncodeProperty(q)| == Width(q);
      FirstPropertyExact(meta, q);
      assert e' == meta[Width(q)..][..|e'|];
      WalkFindsGiven(meta[Width(q)..], v, rest, p);
    }
  }

  lemma {:induction false} WalkFindsNone(ps: seq<Property>)
    requires OtherProperties(ps)
    ensures SocketTypeOf(EncodeProperties(ps)) == Err(WrongSocketType)
  {
    if ps != [] {
      var q, rest := ps[0], ps[1..];
      var meta := EncodeProperties(ps);
      assert |EncodeProperty(q)| == Width(q) && meta[Width(q)..] == EncodeProperties(rest);
      FirstPropertyExact(meta, q);
      WalkFindsNone(rest);
    }
  }

  /** What the walk has passed over, when it ends in a socket type or at the end of the metadata. */
  lemma {:induction false} WalkedOver(meta: bytes) returns (ps: seq<Property>)
    ensures OtherProperties(ps)
    ensures SocketTypeOf(meta).Ok? ==> exists p :: Gives(meta, SocketTypeOf(meta).value, ps, p)
    ensures SocketTypeOf(meta) == Err(WrongSocketType) ==> meta == EncodeProperties(ps)
    decreases |meta|
  {
    hide FirstProperty, EncodeProperty, IsSocketType;
    ps := [];
    if meta != [] && FirstProperty(meta).Some? {
      var q := FirstProperty(meta).value;
      FirstPropertyExact(meta, q);
      if IsSocketType(q.name) {
        assert Gives(meta, q.value, [], q);
      } else {
        var rest := meta[Width(q)..];
        var ps' := WalkedOver(rest);
        ps := [q] + ps';
        assert ps[1..] == ps';
        assert meta == EncodeProperty(q) + rest;
        if SocketTypeOf(rest).Ok? {
          var p :| Gives(rest, SocketTypeOf(rest).value, ps', p);
          var e := EncodeProperties(ps') + EncodeProperty(p);
          assert EncodeProperties(ps) + EncodeProperty(p) == EncodeProperty(q) + e;
          assert Gives(meta, SocketTypeOf(meta).value, ps, p);
        }
      }
    }
  }

  /** The walk answers exactly as the grammar says, whatever the bytes. */
  lemma MetadataExactness(meta: bytes, v: bytes)
    ensures SocketTypeOf(meta) == Ok(v) <==> GivesSocketType(meta, v)
    ensures SocketTypeOf(meta) == Err(WrongSocketType) <==> GivesNoSocketType(meta)
  {
    var walked := WalkedOver(meta);
    if GivesSocketType(meta, v) {
      var ps, p :| Gives(meta, v, ps, p);
      WalkFindsGiven(meta, v, ps, p);
    }
    if GivesNoSocketType(meta) {
      var ps :| OtherProperties(ps) && meta == EncodeProperties(ps);
      WalkFindsNone(ps);
    }
  }

  // ----- the READY command -----

  function ReadyCommand(isCommand: bool, body: bytes): Result<bytes, NullError> {
    if !isCommand then Err(NotACommand)
    else if body == [] || |body| < 1 + body[0] as nat then Err(MalformedMetadata)
    else
      var name := body[1..1 + body[0]];
      if name == ERROR then Err(PeerError)
      else if name != READY then Err(UnknownCommand)
      else SocketTypeOf(body[6..])
  }

  method ParseReadyCommand(isCommand: bool, body: bytes) returns (r: Result<bytes, NullError>)
    ensures r == ReadyCommand(isCommand, body)
  {
    hide FirstProperty, EqIgnoreCase, IsSocketType, FromBE;
    if !isCommand {
      return Err(NotACommand);
    }
    if body == [] {
      return Err(MalformedMetadata);
    }
    var nameLen: nat := body[0];
    if |body| < 1 + nameLen {
      return Err(MalformedMetadata);
    }
    var name := body[1..1 + nameLen];
    if name == ERROR {
      return Err(PeerError);
    }
    if name != READY {
      return Err(UnknownCommand);
    }
    assert nameLen == 5;
    var pos := 1 + nameLen;
    while pos < |body|
      invariant 6 <= pos <= |body|
      invariant SocketTypeOf(body[6..]) == SocketTypeOf(body[pos..])
    {
      ghost var meta := body[pos..];
      FirstPropertyAt(body, pos);
      var propNameLen: nat := body[pos];
      pos := pos + 1;
      if pos + propNameLen > |body| {
        return Err(MalformedMetadata);
      }
      var propName := body[pos..pos + propNameLen];
      pos := pos + propNameLen;
      if pos + 4 > |body| {
        return Err(MalformedMetadata);
      }
      var valLen := FromBE(body[pos..pos + 4]);
      pos := pos + 4;
      if pos + valLen > |body| {
        return Err(MalformedMetadata);
      }
      var val := body[pos..pos + valLen];
      pos := pos + valLen;
      assert FirstProperty(meta) == Some(Property(propName, val));
      assert meta[Width(Property(propName, val))..] == body[pos..];
      CaseDoesNotMatter(propName);
      if propNameLen == 11 && EqIgnoreCase(propName, SOCKET_TYPE) {
        return Ok(val);
      }
    }
    assert body[pos..] == [];
    return Err(WrongSocketType);
  }

  const READY_NAME: bytes := [5, 0x52, 0x45, 0x41, 0x44, 0x59]

  /**
   READY is accepted with value `v` exactly when the body is the READY name, other
   well-formed properties, a Socket-Type property of value `v`, and any bytes after it.
   */
  lemma ReadyExactness(isCommand: bool, body: bytes, v: bytes)
    ensures ReadyCommand(isCommand, body) == Ok(v) <==>
            isCommand && READY_NAME <= body && GivesSocketType(body[6..], v)
    ensures ReadyCommand(isCommand, body) == Err(WrongSocketType) <==>
            isCommand && READY_NAME <= body && GivesNoSocketType(body[6..])
  {
    if READY_NAME <= body {
      assert body[..6] == READY_NAME;
      assert body[0] == READY_NAME[0] == 5;
      assert body[1..6] == READY_NAME[1..6] == READY;
      MetadataExactness(body[6..], v);
    } else if |body| >= 6 && body[1..6] == READY {
      assert body[..6] == [body[0]] + body[1..6];
      assert body[0] != 5;
    }
  }

  /** The socket types a PUB and a RADIO endpoint take as their peer. */
  function ReadyFrom(role: Role, isCommand: bool, body: bytes): (r: Result<PeerSocketType, NullError>)
    ensures r.Ok? ==> isCommand
  {
    match ReadyCommand(isCommand, body)
    case Err(e) => Err(e)
    case Ok(v) =>
      match role
      case Pub => if v == SUB then Ok(Sub) else if v == XSUB then Ok(Xsub) else Err(WrongSocketType)
      case Radio => if v == DISH then Ok(Dish) else Err(WrongSocketType)
  }

  /** The value of the property, and the peer's type that it stands for. */
  predicate Names(role: Role, v: bytes, t: PeerSocketType) {
    || (role == Pub && v == SUB && t == Sub)
    || (role == Pub && v == XSUB && t == Xsub)
    || (role == Radio && v == DISH && t == Dish)
  }

  /** A READY body that this endpoint takes. */
  ghost predicate GoodReady(role: Role, body: bytes) {
    READY_NAME <= body && exists v, t :: Names(role, v, t) && GivesSocketType(body[6..], v)
  }

  lemma ReadyFromExactly(role: Role, isCommand: bool, body: bytes, t: PeerSocketType)
    ensures ReadyFrom(role, isCommand, body) == Ok(t) <==>
            isCommand && READY_NAME <= body && exists v :: Names(role, v, t) && GivesSocketType(body[6..], v)
  {
    hide GivesSocketType, GivesNoSocketType, ReadyCommand;
    forall v ensures ReadyCommand(isCommand, body) == Ok(v) <==>
                     isCommand && READY_NAME <= body && GivesSocketType(body[6..], v) {
      ReadyExactness(isCommand, body, v);
    }
  }

  lemma ReadyFromIsGood(role: Role, isCommand: bool, body: bytes)
    ensures ReadyFrom(role, isCommand, body).Ok? <==> isCommand && GoodReady(role, body)
  {
    hide GivesSocketType, ReadyFrom;
    var r := ReadyFrom(role, isCommand, body);
    if r.Ok? {
      ReadyFromExactly(role, isCommand, body, r.value);
    }
    if isCommand && GoodReady(role, body) {
      var v, t :| Names(role, v, t) && GivesSocketType(body[6..], v);
      ReadyFromExactly(role, isCommand, body, t);
    }
  }

  /** The body has room for the command name that its first byte announces. */
  predicate HasName(body: bytes) {
    body != [] && 1 + body[0] <= |body|
  }

  const ERROR_NAME: bytes := [5, 0x45, 0x52, 0x52, 0x4F, 0x52]

  /** The metadata ends inside a property before any Socket-Type. */
  ghost predicate CutShort(meta: bytes) {
    !GivesNoSocketType(meta) && forall v :: !GivesSocketType(meta, v)
  }

  /** Which error is given for what, and that there is no other. */
  lemma ReadyErrors(role: Role, isCommand: bool, body: bytes)
    ensures var r := ReadyFrom(role, isCommand, body);
            && (r == Err(NotACommand) <==> !isCommand)
            && (r == Err(PeerError) <==> isCommand && ERROR_NAME <= body)
            && (r == Err(UnknownCommand) <==>
                  isCommand && HasName(body) && !(ERROR_NAME <= body) && !(READY_NAME <= body))
            && (r == Err(MalformedMetadata) <==>
                  isCommand && (!HasName(body) || (READY_NAME <= body && CutShort(body[6..]))))
            && (r == Err(WrongSocketType) <==>
                  isCommand && READY_NAME <= body && !CutShort(body[6..]) && !GoodReady(role, body))
  {
    hide GivesSocketType, GivesNoSocketType, SocketTypeOf;
    CommandName(body);
    if READY_NAME <= body {
      SocketTypeErrors(body[6..]);
      ReadyFromIsGood(role, true, body);
    }
  }

  lemma CommandName(body: bytes)
    ensures ERROR_NAME <= body <==> HasName(body) && body[1..1 + body[0]] == ERROR
    ensures READY_NAME <= body <==> HasName(body) && body[1..1 + body[0]] == READY
  {
    assert ERROR_NAME == [5] + ERROR && READY_NAME == [5] + READY;
    if |body| >= 6 {
      assert body[..6] == [body[0]] + body[1..6];
    }
  }

  lemma SocketTypeErrors(meta: bytes)
    ensures var r := SocketTypeOf(meta);
            && (r == Err(MalformedMetadata) <==> CutShort(meta))
            && (r.Err? ==> r.error == MalformedMetadata || r.error == WrongSocketType)
  {
    hide GivesSocketType, GivesNoSocketType;
    WalkErrors(meta);
    forall v ensures SocketTypeOf(meta) == Ok(v) <==> GivesSocketType(meta, v) {
      MetadataExactness(meta, v);
    }
    MetadataExactness(meta, []);
  }

  lemma {:induction false} WalkErrors(meta: bytes)
    ensures var r := SocketTypeOf(meta); r.Err? ==> r.error == MalformedMetadata || r.error == WrongSocketType
    decreases |meta|
  {
    hide FirstProperty, IsSocketType;
    if meta != [] && FirstProperty(meta).Some? {
      WalkErrors(meta[Width(FirstProperty(meta).value)..]);
    }
  }

  method ParseReadyFrom(role: Role, isCommand: bool, body: bytes) returns (r: Result<PeerSocketType, NullError>)
    ensures r == ReadyFrom(role, isCommand, body)
    ensures forall t :: r == Ok(t) <==>
              isCommand && READY_NAME <= body && exists v :: Names(role, v, t) && GivesSocketType(body[6..], v)
  {
    forall t ensures ReadyFrom(role, isCommand, body) == Ok(t) <==>
                     isCommand && READY_NAME <= body && exists v :: Names(role, v, t) && GivesSocketType(body[6..], v) {
      ReadyFromExactly(role, isCommand, body, t);
    }
    var v := ParseReadyCommand(isCommand, body);
    if v.Err? {
      return Err(v.error);
    }
    if role.Pub? && v.value == SUB {
      return Ok(Sub);
    } else if role.Pub? && v.value == XSUB {
      return Ok(Xsub);
    } else if role.Radio? && v.value == DISH {
      return Ok(Dish);
    }
    return Err(WrongSocketType);
  }

  // ----- our own frames -----

  /** READY_FRAME and RADIO_READY_FRAME: flags, size, command name, and one property. */
  function ReadyFrame(role: Role): (f: bytes)
    ensures |f| == if role.Pub? then 27 else 29
  {
    match role
    case Pub => [0x04, 0x19] + READY_NAME + [0x0B] + SOCKET_TYPE + [0, 0, 0, 3] + PUB
    case Radio => [0x04, 0x1B] + READY_NAME + [0x0B] + SOCKET_TYPE + [0, 0, 0, 5] + RADIO
  }

  /** `encode_ready` and `encode_ready_radio`. */
  method EncodeReady(role: Role, buf: array<byte>) returns (r: Result<nat, NullError>)
    modifies buf
    ensures var f := ReadyFrame(role);
            if buf.Length < |f| then r == Err(BufferTooSmall) && buf[..] == old(buf[..])
            else r == Ok(|f|) && FrameCodec.Written(old(buf[..]), buf[..], f)
  {
    var f := ReadyFrame(role);
    if buf.Length < |f| {
      return Err(BufferTooSmall);
    }
    forall i | 0 <= i < |f| {
      buf[i] := f[i];
    }
    assert buf[..|f|] == f;
    return Ok(|f|);
  }

  function OwnType(role: Role): bytes {
    match role
    case Pub => PUB
    case Radio => RADIO
  }

  lemma SmallBE(n: byte)
    ensures ToBE(n, 4) == [0, 0, 0, n]
  {
    assert ToBE(0, 1) == [0] && ToBE(0, 2) == [0, 0] && ToBE(0, 3) == [0, 0, 0];
  }

  function OwnReadyBody(role: Role): bytes {
    READY_NAME + EncodeProperty(Property(SOCKET_TYPE, OwnType(role)))
  }

  /** A command with one property, in a short frame. */
  lemma OnePropertyFrame(command: bytes, p: Property)
    requires WellFormed(p) && |command| + 5 + |p.name| + |p.value| <= 255
    ensures FrameSpec.Encode(FrameSpec.Frame(false, true, command + EncodeProperty(p))) ==
            [4, |command| + 5 + |p.name| + |p.value|] + command + [|p.name|] + p.name + [0, 0, 0, |p.value|] + p.value
  {
    SmallBE(|p.value|);
  }

  /** The constant is the command frame READY with our socket type as its one property. */
  lemma ReadyFrameIsReady(role: Role)
    ensures ReadyFrame(role) == FrameSpec.Encode(FrameSpec.Frame(false, true, OwnReadyBody(role)))
    ensures ReadyCommand(true, OwnReadyBody(role)) == Ok(OwnType(role))
  {
    var p := Property(SOCKET_TYPE, OwnType(role));
    OnePropertyFrame(READY_NAME, p);
    var meta := OwnReadyBody(role)[6..];
    assert meta == EncodeProperty(p) == EncodeProperties([]) + EncodeProperty(p);
    assert Gives(meta, OwnType(role), [], p);
    ReadyExactness(true, OwnReadyBody(role), OwnType(role));
  }

  function ErrorBody(reason: bytes): bytes
    requires |reason| < 256
  {
    [5] + ERROR + [|reason|] + reason
  }

  /** An ERROR command frame; its body must be short. */
  function ErrorFrame(reason: bytes): (f: bytes)
    requires |reason| <= 248
  {
    FrameSpec.Encode(FrameSpec.Frame(false, true, ErrorBody(reason)))
  }

  method EncodeError(buf: array<byte>, reason: bytes) returns (r: Result<nat, NullError>)
    modifies buf
    ensures if |reason| > 248 then r == Err(ReasonTooLong) && buf[..] == old(buf[..])
            else if buf.Length < 9 + |reason| then r == Err(BufferTooSmall) && buf[..] == old(buf[..])
            else r == Ok(9 + |reason|) && FrameCodec.Written(old(buf[..]), buf[..], ErrorFrame(reason))
  {
    var bodySize := 1 + 5 + 1 + |reason|;
    if bodySize > 255 {
      return Err(ReasonTooLong);
    }
    var total := 2 + bodySize;
    if buf.Length < total {
      return Err(BufferTooSmall);
    }
    buf[0], buf[1], buf[2] := 4, bodySize, 5;
    forall i | 0 <= i < 5 {
      buf[3 + i] := ERROR[i];
    }
    buf[8] := |reason|;
    forall i | 0 <= i < |reason| {
      buf[9 + i] := reason[i];
    }
    assert |ErrorBody(reason)| == bodySize;
    assert buf[..total] == [4, bodySize] + ErrorBody(reason);
    return Ok(total);
  }

  /** A peer that parses our ERROR as a READY is told of it. */
  lemma ErrorIsPeerError(reason: bytes)
    requires |reason| < 256
    ensures ReadyCommand(true, ErrorBody(reason)) == Err(PeerError)
  {
    assert ErrorBody(reason)[1..6] == ERROR;
  }
}
