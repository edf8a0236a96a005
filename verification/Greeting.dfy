/** The 64-byte ZMTP greeting: our own, and what is accepted from a peer. */
module Greetings {
  import opened Wrappers
  import opened Bytes

  datatype Mechanism = Null | Plain

  datatype GreetingError =
    | InvalidSignature
    | UnsupportedVersionMajor
    | UnsupportedMechanism
    | InvalidAsServer

  const GREETING_LEN := 64
  const GREETING_PARTIAL_LEN := 11

  const NULL_NAME: bytes := [0x4E, 0x55, 0x4C, 0x4C]
  const PLAIN_NAME: bytes := [0x50, 0x4C, 0x41, 0x49, 0x4E]

  function Name(m: Mechanism): (n: bytes)
    ensures 0 < |n| <= 20
  {
    match m
    case Null => NULL_NAME
    case Plain => PLAIN_NAME
  }

  function Zeros(n: nat): (z: bytes)
    ensures |z| == n && forall i :: 0 <= i < n ==> z[i] == 0
  {
    seq(n, _ => 0)
  }

  /** A greeting, field by field: signature, version, mechanism, as-server, filler. */
  function Layout(pad: bytes, minor: byte, m: Mechanism, asServer: byte, filler: bytes): (g: bytes)
    requires |pad| == 8 && |filler| == 31
    ensures |g| == GREETING_LEN
  {
    [0xFF] + pad + [0x7F, 3, minor] + Name(m) + Zeros(20 - |Name(m)|) + [asServer] + filler
  }

  /** Our greeting: version 3.1; only as PLAIN do we claim the server role. */
  function OwnGreeting(m: Mechanism): (g: bytes)
    ensures |g| == GREETING_LEN
  {
    Layout(Zeros(8), 1, m, if m.Plain? then 1 else 0, Zeros(31))
  }

  method EncodeGreeting(buf: array<byte>)
    requires buf.Length == GREETING_LEN
    modifies buf
    ensures buf[..] == OwnGreeting(Null)
  {
    forall i | 0 <= i < 64 {
      buf[i] := 0;
    }
    buf[0], buf[9], buf[10], buf[11] := 0xFF, 0x7F, 3, 1;
    forall i | 0 <= i < 4 {
      buf[12 + i] := NULL_NAME[i];
    }
  }

  method EncodePlainGreeting(buf: array<byte>)
    requires buf.Length == GREETING_LEN
    modifies buf
    ensures buf[..] == OwnGreeting(Plain)
  {
    forall i | 0 <= i < 64 {
      buf[i] := 0;
    }
    buf[0], buf[9], buf[10], buf[11] := 0xFF, 0x7F, 3, 1;
    forall i | 0 <= i < 5 {
      buf[12 + i] := PLAIN_NAME[i];
    }
    buf[32] := 1;
  }

  /** The early check, on the first 11 bytes. */
  function ParsePartial(g: bytes): Result<(), GreetingError>
    requires |g| == GREETING_PARTIAL_LEN
  {
    if g[0] != 0xFF || g[9] != 0x7F then Err(InvalidSignature)
    else if g[10] != 3 then Err(UnsupportedVersionMajor)
    else Ok(())
  }

  predicate IsMechanism(m: Mechanism, field: bytes)
    requires |field| == 20
  {
    var n := |Name(m)|;
    field[..n] == Name(m) && forall i :: n <= i < 20 ==> field[i] == 0
  }

  /** The full check, giving the peer's minor version. */
  function ParseGreeting(m: Mechanism, g: bytes): Result<byte, GreetingError>
    requires |g| == GREETING_LEN
  {
    if g[0] != 0xFF || g[9] != 0x7F then Err(InvalidSignature)
    else if g[10] != 3 then Err(UnsupportedVersionMajor)
    else if !IsMechanism(m, g[12..32]) then Err(UnsupportedMechanism)
    else if g[32] != 0 then Err(InvalidAsServer)
    else Ok(g[11])
  }

  /** Our greeting, byte by byte: version 3.1, the mechanism's name, and as-server for PLAIN only. */
  lemma OwnGreetingBytes(m: Mechanism, i: nat)
    requires i < GREETING_LEN
    ensures OwnGreeting(m)[i] ==
            if i == 0 then 0xFF
            else if i == 9 then 0x7F
            else if i == 10 then 3
            else if i == 11 then 1
            else if m == Null && 12 <= i < 16 then [0x4E, 0x55, 0x4C, 0x4C][i - 12]
            else if m == Plain && 12 <= i < 17 then [0x50, 0x4C, 0x41, 0x49, 0x4E][i - 12]
            else if m == Plain && i == 32 then 1
            else 0
  {}

  /** Our NULL greeting is one we take; our PLAIN one is refused for claiming the server role, and only for that. */
  lemma OwnGreetingAccepted(m: Mechanism)
    ensures ParseGreeting(m, OwnGreeting(m)) == if m == Null then Ok(1) else Err(InvalidAsServer)
    ensures ParseGreeting(m, OwnGreeting(m)[32 := 0]) == Ok(1)
  {
    var g, h := OwnGreeting(m), OwnGreeting(m)[32 := 0];
    assert g[12..32] == h[12..32] == Name(m) + Zeros(20 - |Name(m)|);
    MechanismField(m, g[12..32]);
  }

  /** The mechanism field is the name, padded with zeros. */
  lemma MechanismField(m: Mechanism, field: bytes)
    requires |field| == 20
    ensures IsMechanism(m, field) <==> field == Name(m) + Zeros(20 - |Name(m)|)
  {
    var n := |Name(m)|;
    assert field == field[..n] + field[n..];
    assert (Name(m) + Zeros(20 - n))[..n] == Name(m);
    if IsMechanism(m, field) {
      assert field[n..] == Zeros(20 - n);
    }
  }

  /** A greeting is accepted exactly when it has this mechanism's layout, with a client's as-server. */
  lemma GreetingExactness(m: Mechanism, g: bytes, minor: byte)
    requires |g| == GREETING_LEN
    ensures ParseGreeting(m, g) == Ok(minor) <==>
            g == Layout(g[1..9], minor, m, 0, g[33..])
  {
    hide IsMechanism, Name;
    MechanismField(m, g[12..32]);
    var name := Name(m) + Zeros(20 - |Name(m)|);
    var l := Layout(g[1..9], minor, m, 0, g[33..]);
    var front := [0xFF] + g[1..9] + [0x7F, 3, minor];
    assert l == front + name + ([0] + g[33..]);
    assert l[..12] == front && l[12..32] == name && l[32..] == [0] + g[33..];
    assert g == g[..12] + g[12..32] + g[32..];
    assert g[..12] == [g[0]] + g[1..9] + [g[9], g[10], g[11]];
    assert g[32..] == [g[32]] + g[33..];
    if g == l {
      assert g[0] == front[0] && g[9] == front[9] && g[10] == front[10] && g[11] == front[11];
    }
  }

  /** Which error is given for what; `g` would be accepted but for its as-server byte, or has some other mechanism. */
  lemma GreetingErrors(m: Mechanism, g: bytes)
    requires |g| == GREETING_LEN
    ensures var r := ParseGreeting(m, g);
            var otherwise := g == Layout(g[1..9], g[11], m, g[32], g[33..]);
            && (r == Err(InvalidSignature) <==> !(g[0] == 0xFF && g[9] == 0x7F))
            && (r == Err(UnsupportedVersionMajor) <==> g[0] == 0xFF && g[9] == 0x7F && g[10] != 3)
            && (r == Err(UnsupportedMechanism) <==> g[0] == 0xFF && g[9] == 0x7F && g[10] == 3 && !otherwise)
            && (r == Err(InvalidAsServer) <==> otherwise && g[32] != 0)
  {
    hide IsMechanism, Name;
    var h := g[32 := 0];
    GreetingExactness(m, h, g[11]);
    assert h[12..32] == g[12..32] && h[1..9] == g[1..9] && h[33..] == g[33..];
    var l, k := Layout(g[1..9], g[11], m, g[32], g[33..]), Layout(g[1..9], g[11], m, 0, g[33..]);
    assert l[32 := 0] == k;
    assert l[0] == 0xFF && l[9] == 0x7F && l[10] == 3 && l[32] == g[32];
    if h == k {
      assert g == h[32 := g[32]] && l == k[32 := g[32]];
    }
  }

  /**
   What the early check refuses, the full check refuses for the same reason; and of the full
   check's four errors the early one gives exactly the first two, exactly when the full one does.
   */
  lemma PartialAgrees(m: Mechanism, g: bytes)
    requires |g| == GREETING_LEN
    ensures var p := ParsePartial(g[..GREETING_PARTIAL_LEN]);
            p.Err? ==> ParseGreeting(m, g) == Err(p.error)
    ensures forall e :: e == InvalidSignature || e == UnsupportedVersionMajor ==>
              (ParseGreeting(m, g) == Err(e) <==> ParsePartial(g[..GREETING_PARTIAL_LEN]) == Err(e))
    ensures ParseGreeting(m, g).Ok? ==> ParsePartial(g[..GREETING_PARTIAL_LEN]).Ok?
  {}
}
