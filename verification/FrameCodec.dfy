/** The streaming decoder and the two header encoders, over fixed buffers. */
module FrameCodec {
  import opened Wrappers
  import opened Bytes
  import FrameSpec

  datatype FrameError = BufferTooSmall | ReservedFlagBits

  const MAX_FRAME_HEADER := 9

  /** `buf` starts with `front` and is otherwise as it was. */
  ghost predicate Written(before: bytes, after: bytes, front: bytes) {
    |front| <= |before| && after == front + before[|front|..]
  }

  method EncodeMessageFrame(buf: array<byte>, bodyLen: usize, more: bool) returns (r: Result<nat, FrameError>)
    modifies buf
    ensures var h := FrameSpec.Header(more, false, bodyLen);
            if buf.Length < |h| then r == Err(BufferTooSmall) && buf[..] == old(buf[..])
            else r == Ok(|h|) && Written(old(buf[..]), buf[..], h)
  {
    var moreBit := if more then 1 else 0;
    if bodyLen <= 255 {
      if buf.Length < 2 {
        return Err(BufferTooSmall);
      }
      buf[0] := moreBit;
      buf[1] := bodyLen;
      return Ok(2);
    }
    if buf.Length < 9 {
      return Err(BufferTooSmall);
    }
    buf[0] := 2 + moreBit;
    var sizeBytes := ToBE(bodyLen, 8);
    forall i | 0 <= i < 8 {
      buf[1 + i] := sizeBytes[i];
    }
    return Ok(9);
  }

  method EncodeCommandFrame(buf: array<byte>, bodyLen: usize) returns (r: Result<nat, FrameError>)
    modifies buf
    ensures var h := FrameSpec.Header(false, true, bodyLen);
            if buf.Length < |h| then r == Err(BufferTooSmall) && buf[..] == old(buf[..])
            else r == Ok(|h|) && Written(old(buf[..]), buf[..], h)
  {
    if bodyLen <= 255 {
      if buf.Length < 2 {
        return Err(BufferTooSmall);
      }
      buf[0] := 4;
      buf[1] := bodyLen;
      return Ok(2);
    }
    if buf.Length < 9 {
      return Err(BufferTooSmall);
    }
    buf[0] := 6;
    var sizeBytes := ToBE(bodyLen, 8);
    forall i | 0 <= i < 8 {
      buf[1 + i] := sizeBytes[i];
    }
    return Ok(9);
  }

  /** `sizeBuf` has 8 bytes, of which `sizePos` have arrived; a body arrives in the decoder's own buffer. */
  datatype State =
    | NeedFlags
    | NeedSize(more: bool, isCommand: bool, long: bool, sizeBuf: bytes, sizePos: nat)
    | NeedBody(more: bool, isCommand: bool, remaining: nat)
    | Poisoned

  /** Size bytes are copied until the field is complete or the input is used up. */
  method CopySize(sizeBuf0: bytes, sizePos0: nat, needed: nat, input: bytes, start: nat)
    returns (sizeBuf: bytes, sizePos: nat, pos: nat)
    requires |sizeBuf0| == 8 && sizePos0 < needed <= 8 && start < |input|
    ensures |sizeBuf| == 8 && start < pos <= |input| && sizePos == sizePos0 + (pos - start)
    ensures sizePos <= needed && (sizePos < needed ==> pos == |input|)
    ensures sizeBuf[..sizePos] == sizeBuf0[..sizePos0] + input[start..pos]
  {
    sizeBuf, sizePos, pos := sizeBuf0, sizePos0, start;
    while sizePos < needed && pos < |input|
      invariant |sizeBuf| == 8 && start <= pos <= |input|
      invariant sizePos == sizePos0 + (pos - start) && sizePos <= needed
      invariant sizeBuf[..sizePos] == sizeBuf0[..sizePos0] + input[start..pos]
    {
      assert input[start..pos + 1] == input[start..pos] + [input[pos]];
      sizeBuf := sizeBuf[sizePos := input[pos]];
      assert sizeBuf[..sizePos + 1] == sizeBuf[..sizePos] + [input[pos]];
      sizePos := sizePos + 1;
      pos := pos + 1;
    }
  }

  class FrameDecoder {
    const buf: array<byte>
    var state: State
    var bufPos: nat

    ghost predicate Valid()
      reads this
    {
      && (state.NeedSize? ==> |state.sizeBuf| == 8 && state.sizePos < FrameSpec.SizeLen(state.long))
      && (state.NeedBody? ==> 0 < state.remaining && bufPos + state.remaining <= buf.Length)
    }

    /** The decoder's state without the buffers' stale bytes. */
    ghost function View(): (s: FrameSpec.DecState)
      requires Valid()
      reads this, buf
      ensures FrameSpec.DecValid(buf.Length, s)
    {
      match state
      case NeedFlags => FrameSpec.NeedFlags
      case NeedSize(more, isCommand, long, sizeBuf, sizePos) =>
        FrameSpec.NeedSize(more, isCommand, long, sizeBuf[..sizePos])
      case NeedBody(more, isCommand, remaining) =>
        FrameSpec.NeedBody(more, isCommand, remaining, buf[..bufPos])
      case Poisoned => FrameSpec.Poisoned
    }

    constructor (cap: nat)
      ensures Valid() && View() == FrameSpec.NeedFlags
      ensures buf.Length == cap && fresh(buf)
    {
      buf := new byte[cap];
      state := NeedFlags;
      bufPos := 0;
    }

    /** Bytes are taken until a frame is complete, one is refused, or none is left. */
    method Feed(input: bytes) returns (r: FrameSpec.FeedOut)
      requires Valid()
      modifies this, buf
      ensures Valid()
      ensures (View(), r) == FrameSpec.Feed(buf.Length, old(View()), input)
    {
      var pos := 0;
      ghost var whole := FrameSpec.Feed(buf.Length, View(), input);
      while pos < |input|
        invariant pos <= |input| && Valid()
        invariant whole == FrameSpec.FeedAt(buf.Length, View(), input, pos)
      {
        if state.Poisoned? {
          return Err(FrameSpec.ReservedFlagBits);
        }
        var done: Option<FrameSpec.FeedOut>;
        if state.NeedFlags? {
          done, pos := TakeFlags(input, pos);
        } else if state.NeedSize? {
          done, pos := TakeSize(input, pos);
        } else {
          r := TakeBody(input, pos);
          return;
        }
        if done.Some? {
          return done.value;
        }
      }
      return Ok((pos, None));
    }

    /** The flags stage of `Feed`: a result to return, or else the position to go on from. */
    method TakeFlags(input: bytes, start: nat) returns (done: Option<FrameSpec.FeedOut>, pos: nat)
      requires Valid() && state.NeedFlags? && start < |input|
      modifies this
      ensures Valid() && pos == start + 1
      ensures FrameSpec.Stage(buf.Length, old(View()), input, start, View(), done, pos)
    {
      FrameSpec.FlagsStage(buf.Length, input, start);
      var flags := input[start];
      pos := start + 1;
      var more, long, isCommand := FrameSpec.IsMore(flags), FrameSpec.IsLong(flags), FrameSpec.IsCommand(flags);
      if flags >= 8 || (isCommand && more) {
        state := Poisoned;
        return Some(Err(FrameSpec.ReservedFlagBits)), pos;
      }
      state := NeedSize(more, isCommand, long, [0, 0, 0, 0, 0, 0, 0, 0], 0);
      return None, pos;
    }

    /** The size stage of `Feed`: a result to return, or else the position to go on from. */
    method TakeSize(input: bytes, start: nat) returns (done: Option<FrameSpec.FeedOut>, pos: nat)
      requires Valid() && state.NeedSize? && start < |input|
      modifies this
      ensures Valid() && start < pos <= |input|
      ensures FrameSpec.Stage(buf.Length, old(View()), input, start, View(), done, pos)
    {
      var NeedSize(more, isCommand, long, sizeBuf, sizePos) := state;
      var sizeNeeded := FrameSpec.SizeLen(long);
      ghost var s := View();
      sizeBuf, sizePos, pos := CopySize(sizeBuf, sizePos, sizeNeeded, input, start);
      ghost var size := s.size + input[start..pos];
      assert sizeBuf[..sizePos] == size;
      FrameSpec.SizeStage(buf.Length, s, input, start, pos);
      if sizePos < sizeNeeded {
        state := NeedSize(more, isCommand, long, sizeBuf, sizePos);
        return Some(Ok((pos, None))), pos;
      }
      var bodyLen := if long then FromBE(sizeBuf) else sizeBuf[0];
      assert bodyLen == FromBE(size) by {
        assert size == if long then sizeBuf else [sizeBuf[0]];
        assert FromBE([sizeBuf[0]]) == sizeBuf[0];
      }
      done := StartBody(more, isCommand, bodyLen, pos);
    }

    /** The size is known: refuse the frame, finish it at once, or await its body. */
    method StartBody(more: bool, isCommand: bool, bodyLen: nat, pos: nat)
      returns (done: Option<FrameSpec.FeedOut>)
      modifies this
      ensures Valid()
      ensures var r := FrameSpec.Sized(buf.Length, more, isCommand, bodyLen);
              View() == r.0 && done == FrameSpec.SizeDone(r, pos)
    {
      if bodyLen > buf.Length {
        state := Poisoned;
        return Some(Err(FrameSpec.BodyTooLarge));
      }
      bufPos := 0;
      if bodyLen == 0 {
        state := NeedFlags;
        return Some(Ok((pos, Some(FrameSpec.Frame(more, isCommand, buf[..0])))));
      }
      state := NeedBody(more, isCommand, bodyLen);
      return None;
    }

    /** The body stage of `Feed`. */
    method TakeBody(input: bytes, pos: nat) returns (r: FrameSpec.FeedOut)
      requires Valid() && state.NeedBody? && pos < |input|
      modifies this, buf
      ensures Valid()
      ensures (View(), r) == FrameSpec.FeedAt(buf.Length, old(View()), input, pos)
    {
      var NeedBody(more, isCommand, remaining) := state;
      ghost var s, rest := View(), input[pos..];
      var available := |input| - pos;
      var toCopy := Min(available, remaining);
      forall i | 0 <= i < toCopy {
        buf[bufPos + i] := input[pos + i];
      }
      bufPos := bufPos + toCopy;
      assert buf[..bufPos] == s.body + rest[..toCopy];
      if remaining == toCopy {
        FrameSpec.FeedBodyRest(buf.Length, s, rest);
        var bodyEnd := bufPos;
        state := NeedFlags;
        bufPos := 0;
        return Ok((pos + toCopy, Some(FrameSpec.Frame(more, isCommand, buf[..bodyEnd]))));
      }
      state := NeedBody(more, isCommand, remaining - toCopy);
      FrameSpec.FeedBodyPart(buf.Length, s, rest, []);
      assert rest + [] == rest;
      return Ok((pos + toCopy, None));
    }

    /** Back to the initial state, whatever went before. */
    method Reset()
      modifies this
      ensures Valid() && View() == FrameSpec.NeedFlags
    {
      state := NeedFlags;
      bufPos := 0;
    }
  }
}
