/** The PLAIN mechanism's HELLO and WELCOME commands. */
module PlainMechanism {
  import opened Wrappers
  import opened Bytes
  import FrameSpec
  import FrameCodec

  datatype PlainError =
    | BufferTooSmall
    | NotACommand
    | UnknownCommand
    | MalformedHello
    | AuthFailed
    | PeerError

  const HELLO: bytes := [0x48, 0x45, 0x4C, 0x4C, 0x4F]
  const ERROR: bytes := [0x45, 0x52, 0x52, 0x4F, 0x52]
  const WELCOME_FRAME: bytes := [0x04, 0x08, 0x07, 0x57, 0x45, 0x4C, 0x43, 0x4F, 0x4D, 0x45]
  const WELCOME_LEN := 10

  function HelloFrom(isCommand: bool, body: bytes): Result<(bytes, bytes), PlainError> {
    if !isCommand then Err(NotACommand)
    else if body == [] || |body| < 1 + body[0] as nat then Err(MalformedHello)
    else
      var name := body[1..1 + body[0]];
      if name == ERROR then Err(PeerError)
      else if name != HELLO then Err(UnknownCommand)
      else
        var pos := 1 + body[0];
        if pos >= |body| || pos + 1 + body[pos] > |body| then Err(MalformedHello)
        else
          var username := body[pos + 1..pos + 1 + body[pos]];
          var pos' := pos + 1 + body[pos];
          if pos' >= |body| || pos' + 1 + body[pos'] > |body| then Err(MalformedHello)
          else Ok((username, body[pos' + 1..pos' + 1 + body[pos']]))
  }

  function HelloBody(username: bytes, password: bytes): bytes
    requires |username| < 256 && |password| < 256
  {
    [5] + HELLO + [|username|] + username + [|password|] + password
  }

  /** Credentials are read exactly from a command that starts with the HELLO body for them. */
  lemma HelloExactness(isCommand: bool, body: bytes, username: bytes, password: bytes)
    ensures HelloFrom(isCommand, body) == Ok((username, password)) <==>
            && isCommand && |username| < 256 && |password| < 256
            && HelloBody(username, password) <= body
  {
    if HelloFrom(isCommand, body) == Ok((username, password)) {
      var p := 7 + |username|;
      assert |body[1..1 + body[0]]| == 5;
      assert body[..6] == [body[0]] + body[1..6];
      assert body[..p] == body[..6] + [body[6]] + body[7..p];
      assert body[..p + 1 + |password|] == body[..p] + [body[p]] + body[p + 1..p + 1 + |password|];
    }
    if isCommand && |username| < 256 && |password| < 256 && HelloBody(username, password) <= body {
      var h := HelloBody(username, password);
      assert h == body[..|h|];
      assert body[0] == h[0] == 5 && body[1..6] == h[1..6] == HELLO;
      assert body[6] == h[6] == |username| && body[7..7 + |username|] == h[7..7 + |username|] == username;
      var p := 7 + |username|;
      assert body[p] == h[p] == |password| && body[p + 1..p + 1 + |password|] == h[p + 1..] == password;
    }
  }

  const HELLO_NAME: bytes := [5, 0x48, 0x45, 0x4C, 0x4C, 0x4F]
  const ERROR_NAME: bytes := [5, 0x45, 0x52, 0x52, 0x4F, 0x52]

  predicate HasName(body: bytes) {
    body != [] && 1 + body[0] <= |body|
  }

  /** The credentials a HELLO body starts with. */
  ghost predicate Carries(body: bytes, username: bytes, password: bytes) {
    |username| < 256 && |password| < 256 && HelloBody(username, password) <= body
  }

  lemma HelloCarries(isCommand: bool, body: bytes)
    ensures var r := HelloFrom(isCommand, body);
            forall u, p :: r == Ok((u, p)) <==> isCommand && Carries(body, u, p)
  {
    forall u, p ensures HelloFrom(isCommand, body) == Ok((u, p)) <==> isCommand && Carries(body, u, p) {
      HelloExactness(isCommand, body, u, p);
    }
  }

  /** Which error is given for what, and that there is no other. */
  lemma HelloErrors(isCommand: bool, body: bytes)
    ensures var r := HelloFrom(isCommand, body);
            && (r == Err(NotACommand) <==> !isCommand)
            && (r == Err(PeerError) <==> isCommand && ERROR_NAME <= body)
            && (r == Err(UnknownCommand) <==>
                  isCommand && HasName(body) && !(ERROR_NAME <= body) && !(HELLO_NAME <= body))
            && (r == Err(MalformedHello) <==>
                  isCommand && (!HasName(body) || (HELLO_NAME <= body && forall u, p :: !Carries(body, u, p))))
            && r != Err(BufferTooSmall) && r != Err(AuthFailed)
  {
    CommandName(body);
    var r := HelloFrom(isCommand, body);
    HelloCarries(isCommand, body);
    if r.Ok? {
      assert Carries(body, r.value.0, r.value.1);
    }
  }

  lemma CommandName(body: bytes)
    ensures ERROR_NAME <= body <==> HasName(body) && body[1..1 + body[0]] == ERROR
    ensures HELLO_NAME <= body <==> HasName(body) && body[1..1 + body[0]] == HELLO
  {
    assert ERROR_NAME == [5] + ERROR && HELLO_NAME == [5] + HELLO;
    if |body| >= 6 {
      assert body[..6] == [body[0]] + body[1..6];
    }
  }

  method EncodeWelcome(buf: array<byte>) returns (r: Result<nat, PlainError>)
    modifies buf
    ensures if buf.Length < WELCOME_LEN then r == Err(BufferTooSmall) && buf[..] == old(buf[..])
            else r == Ok(WELCOME_LEN) && FrameCodec.Written(old(buf[..]), buf[..], WELCOME_FRAME)
  {
    if buf.Length < WELCOME_LEN {
      return Err(BufferTooSmall);
    }
    forall i | 0 <= i < WELCOME_LEN {
      buf[i] := WELCOME_FRAME[i];
    }
    return Ok(WELCOME_LEN);
  }

  const WELCOME: bytes := [0x57, 0x45, 0x4C, 0x43, 0x4F, 0x4D, 0x45]

  /** The constant is the command frame WELCOME, without metadata. */
  lemma WelcomeFrameIsWelcome()
    ensures WELCOME_FRAME == FrameSpec.Encode(FrameSpec.Frame(false, true, [7] + WELCOME))
  {}
}
