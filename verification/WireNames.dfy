/** The names on the wire, read as text. */
module WireNames {
  import opened Wrappers
  import opened Bytes
  import ConnSpec
  import Greetings
  import NullMechanism
  import PlainMechanism

  /** One octet for each character. */
  function Text(s: string): (t: bytes)
    requires forall i :: 0 <= i < |s| ==> s[i] < 128 as char
    ensures |t| == |s| && forall i :: 0 <= i < |s| ==> t[i] == s[i] as int
  {
    seq(|s|, i requires 0 <= i < |s| => s[i] as int)
  }

  /** The commands of an established connection. */
  lemma CommandNames()
    ensures ConnSpec.SUBSCRIBE == Text("SUBSCRIBE") && ConnSpec.CANCEL == Text("CANCEL")
    ensures ConnSpec.JOIN == Text("JOIN") && ConnSpec.LEAVE == Text("LEAVE")
    ensures ConnSpec.PING == Text("PING") && ConnSpec.PONG == Text("PONG")
  {}

  /** The handshake's commands, mechanisms, socket types and the one property. */
  lemma HandshakeNames()
    ensures Greetings.NULL_NAME == Text("NULL") && Greetings.PLAIN_NAME == Text("PLAIN")
    ensures NullMechanism.READY == Text("READY") && NullMechanism.READY_NAME == [5] + Text("READY")
    ensures NullMechanism.ERROR == Text("ERROR") && NullMechanism.ERROR_NAME == [5] + Text("ERROR")
    ensures NullMechanism.SOCKET_TYPE == Text("Socket-Type")
    ensures NullMechanism.SMALL_SOCKET_TYPE == Text("socket-type")
    ensures NullMechanism.LARGE_SOCKET_TYPE == Text("SOCKET-TYPE")
    ensures NullMechanism.PUB == Text("PUB") && NullMechanism.RADIO == Text("RADIO")
    ensures NullMechanism.SUB == Text("SUB") && NullMechanism.XSUB == Text("XSUB")
    ensures NullMechanism.DISH == Text("DISH") && NullMechanism.REASON == Text("Invalid socket type")
    ensures PlainMechanism.HELLO == Text("HELLO") && PlainMechanism.HELLO_NAME == [5] + Text("HELLO")
    ensures PlainMechanism.ERROR == Text("ERROR") && PlainMechanism.ERROR_NAME == [5] + Text("ERROR")
    ensures PlainMechanism.WELCOME == Text("WELCOME")
  {}

  /** The ERROR command we send, of 28 bytes. */
  lemma ErrorCommand()
    ensures ConnSpec.ErrorFrame() == [4, 26, 5] + Text("ERROR") + [19] + Text("Invalid socket type")
    ensures forall out :: ConnSpec.WriteError(out) ==
              if out < 28 then Err(ConnSpec.NullError(NullMechanism.BufferTooSmall)) else Ok(ConnSpec.ErrorFrame())
  {}
}
