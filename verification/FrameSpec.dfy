/**
 The ZMTP frame layer as a byte-at-a-time automaton, with the encoding of a frame
 and what decoding a byte string means. Nothing here is executed in place: the
 decoder class is proved against these functions.
 */
module FrameSpec {
  import opened Wrappers
  import opened Bytes

  datatype DecodeError = ReservedFlagBits | BodyTooLarge | Truncated

  datatype Frame = Frame(more: bool, isCommand: bool, body: bytes)

  /** The decoder's state, with just the bytes that have arrived in it. */
  datatype DecState =
    | NeedFlags
    | NeedSize(more: bool, isCommand: bool, long: bool, size: bytes)
    | NeedBody(more: bool, isCommand: bool, remaining: nat, body: bytes)
    | Poisoned

  datatype StepOut = Silent | Emit(frame: Frame) | Fault(error: DecodeError)

  function SizeLen(long: bool): nat {
    if long then 8 else 1
  }

  ghost predicate DecValid(cap: nat, s: DecState) {
    match s
    case NeedFlags => true
    case Poisoned => true
    case NeedSize(_, _, long, size) => |size| < SizeLen(long)
    case NeedBody(_, _, remaining, body) => 0 < remaining && |body| + remaining <= cap
  }

  function IsMore(flags: byte): bool { flags % 2 == 1 }
  function IsLong(flags: byte): bool { (flags / 2) % 2 == 1 }
  function IsCommand(flags: byte): bool { (flags / 4) % 2 == 1 }

  /** Bits 3 to 7 are reserved, and a command frame has no MORE bit. */
  function FlagsOk(flags: byte): bool {
    flags < 8 && !(IsCommand(flags) && IsMore(flags))
  }

  /** The size field is complete: refuse, complete an empty body at once, or await the body. */
  function Sized(cap: nat, more: bool, isCommand: bool, len: nat): (r: (DecState, StepOut))
    ensures DecValid(cap, r.0)
  {
    if len > cap then (Poisoned, Fault(BodyTooLarge))
    else if len == 0 then (NeedFlags, Emit(Frame(more, isCommand, [])))
    else (NeedBody(more, isCommand, len, []), Silent)
  }

  /** What one more byte does. */
  function Step(cap: nat, s: DecState, b: byte): (r: (DecState, StepOut))
    requires DecValid(cap, s)
    ensures DecValid(cap, r.0)
    ensures r.1.Fault? <==> r.0.Poisoned?
    ensures r.1.Emit? ==> r.0.NeedFlags? && |r.1.frame.body| <= cap
    ensures r.1.Emit? <==> r.0.NeedFlags?
  {
    match s
    case Poisoned => (Poisoned, Fault(ReservedFlagBits))
    case NeedFlags =>
      if FlagsOk(b) then (NeedSize(IsMore(b), IsCommand(b), IsLong(b), []), Silent)
      else (Poisoned, Fault(ReservedFlagBits))
    case NeedSize(more, isCommand, long, size) =>
      var size' := size + [b];
      if |size'| < SizeLen(long) then (NeedSize(more, isCommand, long, size'), Silent)
      else Sized(cap, more, isCommand, FromBE(size'))
    case NeedBody(more, isCommand, remaining, body) =>
      if remaining == 1 then (NeedFlags, Emit(Frame(more, isCommand, body + [b])))
      else (NeedBody(more, isCommand, remaining - 1, body + [b]), Silent)
  }

  // ----- one call of the decoder -----

  /** Bytes used, and the frame they completed, if any; or the decoder's refusal. */
  type FeedOut = Result<(nat, Option<Frame>), DecodeError>

  function Bump(k: nat, r: (DecState, FeedOut)): (DecState, FeedOut) {
    match r.1
    case Ok(v) => (r.0, Ok((k + v.0, v.1)))
    case Err(e) => r
  }

  /** One call: bytes are taken until a frame is complete, a byte is refused, or none is left. */
  function Feed(cap: nat, s: DecState, input: bytes): (r: (DecState, FeedOut))
    requires DecValid(cap, s)
    ensures DecValid(cap, r.0)
    ensures r.1.Ok? ==> r.1.value.0 <= |input|
    ensures r.1.Ok? && r.1.value.1.None? ==> r.1.value.0 == |input|
    ensures r.1.Ok? && r.1.value.1.Some? ==>
              r.1.value.0 > 0 && r.0 == NeedFlags && |r.1.value.1.value.body| <= cap
    ensures r.1.Err? ==> r.0 == Poisoned && input != []
    decreases |input|
  {
    if input == [] then (s, Ok((0, None)))
    else
      var (s', o) := Step(cap, s, input[0]);
      match o
      case Silent => Bump(1, Feed(cap, s', input[1..]))
      case Emit(f) => (s', Ok((1, Some(f))))
      case Fault(e) => (s', Err(e))
  }

  lemma FeedCons(cap: nat, s: DecState, b: byte, rest: bytes)
    requires DecValid(cap, s)
    ensures var (s', o) := Step(cap, s, b);
            Feed(cap, s, [b] + rest) ==
            match o
            case Silent => Bump(1, Feed(cap, s', rest))
            case Emit(f) => (s', Ok((1, Some(f))))
            case Fault(e) => (s', Err(e))
    ensures Feed(cap, s, []) == (s, Ok((0, None)))
  {
    assert ([b] + rest)[1..] == rest;
  }

  /** A run of size bytes is taken as one block, if it leaves some to come ... */
  lemma {:induction false} FeedSizePart(cap: nat, s: DecState, t: bytes, input: bytes)
    requires DecValid(cap, s) && s.NeedSize? && |s.size| + |t| < SizeLen(s.long)
    ensures Feed(cap, s, t + input) == Bump(|t|, Feed(cap, s.(size := s.size + t), input))
    decreases |t|
  {
    if t == [] {
      assert s.size + t == s.size && t + input == input;
    } else {
      var s1 := s.(size := s.size + [t[0]]);
      assert Step(cap, s, t[0]) == (s1, Silent);
      assert (t + input)[1..] == t[1..] + input;
      FeedSizePart(cap, s1, t[1..], input);
      assert s.size + [t[0]] + t[1..] == s.size + t;
      var r := Feed(cap, s.(size := s.size + t), input);
      assert Bump(1, Bump(|t| - 1, r)) == Bump(|t|, r);
    }
  }

  /** ... and if it is all of the size field. */
  lemma FeedSizeRest(cap: nat, s: DecState, t: bytes, input: bytes)
    requires DecValid(cap, s) && s.NeedSize? && |s.size| + |t| == SizeLen(s.long)
    ensures Feed(cap, s, t + input) ==
            var (s', o) := Sized(cap, s.more, s.isCommand, FromBE(s.size + t));
            match o
            case Silent => Bump(|t|, Feed(cap, s', input))
            case Emit(f) => (s', Ok((|t|, Some(f))))
            case Fault(e) => (s', Err(e))
  {
    hide Feed, FromBE;
    var u, b := t[..|t| - 1], t[|t| - 1];
    assert t + input == u + ([b] + input);
    FeedSizePart(cap, s, u, [b] + input);
    assert s.size + u + [b] == s.size + t;
    FeedCons(cap, s.(size := s.size + u), b, input);
  }

  function SizeDone(r: (DecState, StepOut), pos: nat): (d: Option<FeedOut>) {
    match r.1
    case Silent => None
    case Emit(f) => Some(Ok((pos, Some(f))))
    case Fault(e) => Some(Err(e))
  }

  lemma BumpBump(j: nat, k: nat, r: (DecState, FeedOut))
    ensures Bump(j, Bump(k, r)) == Bump(j + k, r)
  {}

  /** The same in the coordinates of a whole input: the size stage goes on from `pos` ... */
  lemma FeedSizeGoesOn(cap: nat, s: DecState, input: bytes, start: nat, pos: nat)
    requires DecValid(cap, s) && s.NeedSize? && start <= pos <= |input|
    requires |s.size| + (pos - start) == SizeLen(s.long)
    requires Sized(cap, s.more, s.isCommand, FromBE(s.size + input[start..pos])).1.Silent?
    ensures Bump(start, Feed(cap, s, input[start..])) ==
            Bump(pos, Feed(cap, Sized(cap, s.more, s.isCommand, FromBE(s.size + input[start..pos])).0, input[pos..]))
  {
    var t, rest := input[start..pos], input[pos..];
    assert input[start..] == t + rest;
    FeedSizeRest(cap, s, t, rest);
    BumpBump(start, |t|, Feed(cap, Sized(cap, s.more, s.isCommand, FromBE(s.size + t)).0, rest));
  }

  /** ... or ends the call, with a frame or a refusal or for want of bytes. */
  lemma FeedSizeEnds(cap: nat, s: DecState, input: bytes, start: nat, pos: nat)
    requires DecValid(cap, s) && s.NeedSize? && start <= pos <= |input|
    requires |s.size| + (pos - start) == SizeLen(s.long)
    requires !Sized(cap, s.more, s.isCommand, FromBE(s.size + input[start..pos])).1.Silent?
    ensures var r := Sized(cap, s.more, s.isCommand, FromBE(s.size + input[start..pos]));
            Bump(start, Feed(cap, s, input[start..])) == (r.0, SizeDone(r, pos).value)
  {
    var t, rest := input[start..pos], input[pos..];
    assert input[start..] == t + rest;
    FeedSizeRest(cap, s, t, rest);
  }

  lemma FeedSizeStops(cap: nat, s: DecState, input: bytes, start: nat)
    requires DecValid(cap, s) && s.NeedSize? && start <= |input|
    requires |s.size| + (|input| - start) < SizeLen(s.long)
    ensures Bump(start, Feed(cap, s, input[start..])) ==
            (s.(size := s.size + input[start..]), Ok((|input|, None)))
  {
    hide Feed;
    FeedSizePart(cap, s, input[start..], []);
    assert input[start..] + [] == input[start..];
    FeedCons(cap, s.(size := s.size + input[start..]), 0, []);
  }

  /** `Feed` on what is left of the input from `pos`, in the coordinates of the whole input. */
  function FeedAt(cap: nat, s: DecState, input: bytes, pos: nat): (DecState, FeedOut)
    requires DecValid(cap, s) && pos <= |input|
  {
    Bump(pos, Feed(cap, s, input[pos..]))
  }

  /** A stage took `input[start..pos]`: it ended the call with `done`, or left state `s'` to go on. */
  ghost predicate Stage(cap: nat, s: DecState, input: bytes, start: nat,
                        s': DecState, done: Option<FeedOut>, pos: nat)
    requires DecValid(cap, s) && DecValid(cap, s') && start <= pos <= |input|
  {
    FeedAt(cap, s, input, start) == if done.Some? then (s', done.value) else FeedAt(cap, s', input, pos)
  }

  /** What the size stage does to the state, and whether it ends the call. */
  function SizeTaken(cap: nat, s: DecState, t: bytes, pos: nat): (DecState, Option<FeedOut>)
    requires s.NeedSize?
  {
    var size := s.size + t;
    if |size| < SizeLen(s.long) then (s.(size := size), Some(Ok((pos, None))))
    else
      var r := Sized(cap, s.more, s.isCommand, FromBE(size));
      (r.0, SizeDone(r, pos))
  }

  lemma SizeStage(cap: nat, s: DecState, input: bytes, start: nat, pos: nat)
    requires DecValid(cap, s) && s.NeedSize? && start <= pos <= |input|
    requires |s.size| + (pos - start) <= SizeLen(s.long)
    requires |s.size| + (pos - start) < SizeLen(s.long) ==> pos == |input|
    ensures var (s', done) := SizeTaken(cap, s, input[start..pos], pos);
            DecValid(cap, s') && Stage(cap, s, input, start, s', done, pos)
  {
    if |s.size| + (pos - start) < SizeLen(s.long) {
      assert input[start..pos] == input[start..];
      FeedSizeStops(cap, s, input, start);
    } else if Sized(cap, s.more, s.isCommand, FromBE(s.size + input[start..pos])).1.Silent? {
      FeedSizeGoesOn(cap, s, input, start, pos);
    } else {
      FeedSizeEnds(cap, s, input, start, pos);
    }
  }

  lemma FlagsStage(cap: nat, input: bytes, start: nat)
    requires start < |input|
    ensures var (s', o) := Step(cap, NeedFlags, input[start]);
            Stage(cap, NeedFlags, input, start, s', if o.Fault? then Some(Err(o.error)) else None, start + 1)
  {
    assert input[start..][1..] == input[start + 1..];
  }

  function AfterBody(s: DecState, t: bytes): DecState
    requires s.NeedBody? && |t| < s.remaining
  {
    NeedBody(s.more, s.isCommand, s.remaining - |t|, s.body + t)
  }

  /** A run of body bytes is taken as one block, if it leaves some to come ... */
  lemma {:induction false} FeedBodyPart(cap: nat, s: DecState, t: bytes, input: bytes)
    requires DecValid(cap, s) && s.NeedBody? && |t| < s.remaining
    ensures DecValid(cap, AfterBody(s, t))
    ensures Feed(cap, s, t + input) == Bump(|t|, Feed(cap, AfterBody(s, t), input))
    decreases |t|
  {
    if t == [] {
      assert s.body + t == s.body && t + input == input;
    } else {
      var s1 := AfterBody(s, [t[0]]);
      assert Step(cap, s, t[0]) == (s1, Silent);
      assert (t + input)[1..] == t[1..] + input;
      FeedBodyPart(cap, s1, t[1..], input);
      assert s.body + [t[0]] + t[1..] == s.body + t;
      assert AfterBody(s1, t[1..]) == AfterBody(s, t);
      var r := Feed(cap, AfterBody(s, t), input);
      assert Bump(1, Bump(|t| - 1, r)) == Bump(|t|, r);
    }
  }

  /** ... and if it is all that was awaited. */
  lemma FeedBodyRest(cap: nat, s: DecState, input: bytes)
    requires DecValid(cap, s) && s.NeedBody?
    requires s.remaining <= |input|
    ensures Feed(cap, s, input) ==
            (NeedFlags, Ok((s.remaining, Some(Frame(s.more, s.isCommand, s.body + input[..s.remaining])))))
  {
    var k := s.remaining - 1;
    var t := input[k..];
    assert input == input[..k] + t;
    FeedBodyPart(cap, s, input[..k], t);
    assert s.body + input[..k] + [t[0]] == s.body + input[..k + 1];
  }

  // ----- the meaning of a byte string -----

  datatype Decoded = Decoded(st: DecState, frames: seq<Frame>, error: Option<DecodeError>)

  function Prepend(f: Frame, d: Decoded): Decoded {
    d.(frames := [f] + d.frames)
  }

  /** All frames in `input`, up to the first error, and the state that is left. */
  function Decode(cap: nat, s: DecState, input: bytes): (d: Decoded)
    requires DecValid(cap, s)
    ensures DecValid(cap, d.st)
    ensures d.error.Some? ==> d.st == Poisoned
    ensures forall f :: f in d.frames ==> |f.body| <= cap
    decreases |input|
  {
    if input == [] then Decoded(s, [], None)
    else
      var (s', o) := Step(cap, s, input[0]);
      match o
      case Silent => Decode(cap, s', input[1..])
      case Emit(f) => Prepend(f, Decode(cap, s', input[1..]))
      case Fault(e) => Decoded(s', [], Some(e))
  }

  function Then(d: Decoded, e: Decoded): Decoded {
    Decoded(e.st, d.frames + e.frames, e.error)
  }

  lemma {:induction false} DecodeAppend(cap: nat, s: DecState, a: bytes, b: bytes)
    requires DecValid(cap, s)
    ensures var d := Decode(cap, s, a);
            Decode(cap, s, a + b) == if d.error.Some? then d else Then(d, Decode(cap, d.st, b))
    decreases |a|
  {
    if a == [] {
      assert a + b == b;
    } else {
      var (s', o) := Step(cap, s, a[0]);
      assert (a + b)[1..] == a[1..] + b;
      DecodeAppend(cap, s', a[1..], b);
      if o.Emit? {
        var d := Decode(cap, s', a[1..]);
        assert [o.frame] + (d.frames + Decode(cap, d.st, b).frames)
            == ([o.frame] + d.frames) + Decode(cap, d.st, b).frames;
      }
    }
  }

  /** A caller's loop over `Feed`, collecting the frames, until the input or the decoder gives out. */
  function FeedLoop(cap: nat, s: DecState, input: bytes): (d: Decoded)
    requires DecValid(cap, s)
    ensures DecValid(cap, d.st)
    decreases |input|
  {
    if input == [] then Decoded(s, [], None)
    else
      var (s', r) := Feed(cap, s, input);
      match r
      case Err(e) => Decoded(s', [], Some(e))
      case Ok((n, None)) => Decoded(s', [], None)
      case Ok((n, Some(f))) => Prepend(f, FeedLoop(cap, s', input[n..]))
  }

  /** One call of `Feed` is the automaton run up to the call's own stopping point. */
  lemma {:induction false} FeedIsDecode(cap: nat, s: DecState, input: bytes)
    requires DecValid(cap, s)
    ensures var (s', r) := Feed(cap, s, input);
            Decode(cap, s, input) ==
            match r
            case Err(e) => Decoded(s', [], Some(e))
            case Ok((n, None)) => Decoded(s', [], None)
            case Ok((n, Some(f))) => Prepend(f, Decode(cap, s', input[n..]))
    decreases |input|
  {
    if input != [] {
      var (s1, o) := Step(cap, s, input[0]);
      if o.Silent? {
        FeedIsDecode(cap, s1, input[1..]);
        var (s', r) := Feed(cap, s1, input[1..]);
        if r.Ok? && r.value.1.Some? {
          assert input[1..][r.value.0..] == input[1 + r.value.0..];
        }
      }
    }
  }

  lemma {:induction false} FeedLoopIsDecode(cap: nat, s: DecState, input: bytes)
    requires DecValid(cap, s)
    ensures FeedLoop(cap, s, input) == Decode(cap, s, input)
    decreases |input|
  {
    if input != [] {
      FeedIsDecode(cap, s, input);
      var (s', r) := Feed(cap, s, input);
      if r.Ok? && r.value.1.Some? {
        FeedLoopIsDecode(cap, s', input[r.value.0..]);
      }
    }
  }

  function Concat(chunks: seq<bytes>): bytes {
    if chunks == [] then [] else chunks[0] + Concat(chunks[1..])
  }

  /** The loop over each chunk in turn, stopping at the first error. */
  function FeedChunks(cap: nat, s: DecState, chunks: seq<bytes>): (d: Decoded)
    requires DecValid(cap, s)
    decreases |chunks|
  {
    if chunks == [] then Decoded(s, [], None)
    else
      var d := FeedLoop(cap, s, chunks[0]);
      if d.error.Some? then d else Then(d, FeedChunks(cap, d.st, chunks[1..]))
  }

  /** However a byte string is cut, the decoder finds the same frames, error and final state. */
  lemma {:induction false} ChunkIndependence(cap: nat, s: DecState, chunks: seq<bytes>)
    requires DecValid(cap, s)
    ensures FeedChunks(cap, s, chunks) == Decode(cap, s, Concat(chunks))
    decreases |chunks|
  {
    if chunks != [] {
      FeedLoopIsDecode(cap, s, chunks[0]);
      DecodeAppend(cap, s, chunks[0], Concat(chunks[1..]));
      var d := Decode(cap, s, chunks[0]);
      ChunkIndependence(cap, d.st, chunks[1..]);
    }
  }

  // ----- encoding -----

  ghost predicate Encodable(f: Frame) {
    |f.body| < USIZE_LIMIT && !(f.isCommand && f.more)
  }

  function FlagsOf(more: bool, isCommand: bool, long: bool): byte {
    (if isCommand then 4 else 0) + (if long then 2 else 0) + (if more then 1 else 0)
  }

  /** A frame header: 1-byte size up to 255, 8-byte size beyond. */
  function Header(more: bool, isCommand: bool, len: nat): (h: bytes)
    ensures |h| == if len <= 255 then 2 else 9
  {
    if len <= 255 then [FlagsOf(more, isCommand, false), len]
    else [FlagsOf(more, isCommand, true)] + ToBE(len, 8)
  }

  function Encode(f: Frame): bytes {
    Header(f.more, f.isCommand, |f.body|) + f.body
  }

  function EncodeAll(fs: seq<Frame>): bytes {
    if fs == [] then [] else Encode(fs[0]) + EncodeAll(fs[1..])
  }

  /** The two shapes a peer may send: the size on 1 byte (when it fits) or on 8. */
  function EncodeAs(f: Frame, long: bool): bytes {
    [FlagsOf(f.more, f.isCommand, long)] + ToBE(|f.body|, SizeLen(long)) + f.body
  }

  ghost predicate FitsAs(cap: nat, f: Frame, long: bool) {
    Encodable(f) && |f.body| <= cap && (long || |f.body| <= 255)
  }

  /** The header, byte by byte: bit 0 is MORE, bit 1 a long size, bit 2 a command; then the size, big-endian. */
  lemma HeaderBytes(more: bool, isCommand: bool, len: nat)
    requires len < USIZE_LIMIT
    ensures var h := Header(more, isCommand, len);
            if len <= 255 then h == [if isCommand then (if more then 5 else 4) else (if more then 1 else 0), len]
            else
              && |h| == 9 && h[0] == (if isCommand then (if more then 7 else 6) else (if more then 3 else 2))
              && forall i :: 0 <= i < 8 ==> h[1..][i] == len / Pow256(7 - i) % 256
  {
    hide ToBE;
    if len > 255 {
      forall i | 0 <= i < 8 ensures ToBE(len, 8)[i] == len / Pow256(7 - i) % 256 {
        ToBEAt(len, 8, i);
      }
    }
  }

  lemma EncodeIsEncodeAs(f: Frame)
    requires Encodable(f)
    ensures Encode(f) == EncodeAs(f, |f.body| > 255)
  {
    if |f.body| <= 255 {
      assert ToBE(|f.body|, 1) == [|f.body|];
    }
  }

  lemma FlagsRoundTrip(more: bool, isCommand: bool, long: bool)
    requires !(isCommand && more)
    ensures var b := FlagsOf(more, isCommand, long);
            FlagsOk(b) && IsMore(b) == more && IsCommand(b) == isCommand && IsLong(b) == long
  {}

  lemma FlagsInverse(b: byte)
    requires FlagsOk(b)
    ensures b == FlagsOf(IsMore(b), IsCommand(b), IsLong(b))
    ensures !(IsCommand(b) && IsMore(b))
  {}

  /** The rest of a size field, taken as one block. */
  lemma {:induction false} DecodeSize(cap: nat, s: DecState, t: bytes, rest: bytes)
    requires DecValid(cap, s) && s.NeedSize?
    requires |s.size| + |t| == SizeLen(s.long)
    ensures Decode(cap, s, t + rest) ==
            var (s', o) := Sized(cap, s.more, s.isCommand, FromBE(s.size + t));
            match o
            case Silent => Decode(cap, s', rest)
            case Emit(f) => Prepend(f, Decode(cap, s', rest))
            case Fault(e) => Decoded(s', [], Some(e))
    decreases |t|
  {
    assert (t + rest)[1..] == t[1..] + rest;
    if |t| == 1 {
      assert t == [t[0]] && t[1..] + rest == rest;
    } else {
      var s1 := Step(cap, s, t[0]).0;
      assert s.size + [t[0]] + t[1..] == s.size + t;
      DecodeSize(cap, s1, t[1..], rest);
    }
  }

  /** The rest of a body, taken as one block. */
  lemma {:induction false} DecodeBody(cap: nat, s: DecState, t: bytes, rest: bytes)
    requires DecValid(cap, s) && s.NeedBody?
    requires s.remaining == |t|
    ensures Decode(cap, s, t + rest) ==
            Prepend(Frame(s.more, s.isCommand, s.body + t), Decode(cap, NeedFlags, rest))
    decreases |t|
  {
    assert (t + rest)[1..] == t[1..] + rest;
    if |t| == 1 {
      assert t == [t[0]] && t[1..] + rest == rest;
    } else {
      assert s.body + [t[0]] + t[1..] == s.body + t;
      DecodeBody(cap, Step(cap, s, t[0]).0, t[1..], rest);
    }
  }

  /** Good flags lead to the size field. */
  lemma DecodeFlags(cap: nat, b: byte, rest: bytes)
    ensures if FlagsOk(b)
            then Decode(cap, NeedFlags, [b] + rest)
                 == Decode(cap, NeedSize(IsMore(b), IsCommand(b), IsLong(b), []), rest)
            else Decode(cap, NeedFlags, [b] + rest) == Decoded(Poisoned, [], Some(ReservedFlagBits))
  {
    assert ([b] + rest)[1..] == rest;
  }

  lemma EncodeAsParts(f: Frame, long: bool, rest: bytes)
    ensures EncodeAs(f, long) + rest ==
            [FlagsOf(f.more, f.isCommand, long)] + (ToBE(|f.body|, SizeLen(long)) + (f.body + rest))
  {
    hide ToBE;
  }

  lemma DecodeOne(cap: nat, f: Frame, long: bool, rest: bytes)
    requires FitsAs(cap, f, long)
    ensures Decode(cap, NeedFlags, EncodeAs(f, long) + rest) == Prepend(f, Decode(cap, NeedFlags, rest))
  {
    hide Decode, FromBE, ToBE, IsMore, IsCommand, IsLong, EncodeAs, FlagsOf;
    var flags := FlagsOf(f.more, f.isCommand, long);
    var size := ToBE(|f.body|, SizeLen(long));
    FlagsRoundTrip(f.more, f.isCommand, long);
    assert EncodeAs(f, long) + rest == [flags] + (size + (f.body + rest)) by { EncodeAsParts(f, long, rest); }
    DecodeFlags(cap, flags, size + (f.body + rest));
    var s := NeedSize(f.more, f.isCommand, long, []);
    DecodeSize(cap, s, size, f.body + rest);
    assert [] + size == size;
    Pow256Values();
    assert Pow256(1) == 256;
    FromBEInverse(|f.body|, SizeLen(long));
    if f.body == [] {
      assert f.body + rest == rest;
    } else {
      DecodeBody(cap, NeedBody(f.more, f.isCommand, |f.body|, []), f.body, rest);
      assert [] + f.body == f.body;
    }
  }

  /** What the source's encoders produce is read back, whatever follows it. */
  lemma DecodeEncode(cap: nat, f: Frame, rest: bytes)
    requires Encodable(f) && |f.body| <= cap
    ensures Decode(cap, NeedFlags, Encode(f) + rest) == Prepend(f, Decode(cap, NeedFlags, rest))
  {
    EncodeIsEncodeAs(f);
    DecodeOne(cap, f, |f.body| > 255, rest);
  }

  lemma {:induction false} FrameListRoundTrip(cap: nat, fs: seq<Frame>)
    requires forall f :: f in fs ==> Encodable(f) && |f.body| <= cap
    ensures Decode(cap, NeedFlags, EncodeAll(fs)) == Decoded(NeedFlags, fs, None)
  {
    if fs != [] {
      FrameListRoundTrip(cap, fs[1..]);
      DecodeEncode(cap, fs[0], EncodeAll(fs[1..]));
    }
  }

  /** The round trip survives any cutting of the encoded bytes. */
  lemma FrameListRoundTripChunked(cap: nat, fs: seq<Frame>, chunks: seq<bytes>)
    requires forall f :: f in fs ==> Encodable(f) && |f.body| <= cap
    requires Concat(chunks) == EncodeAll(fs)
    ensures FeedChunks(cap, NeedFlags, chunks) == Decoded(NeedFlags, fs, None)
  {
    FrameListRoundTrip(cap, fs);
    ChunkIndependence(cap, NeedFlags, chunks);
  }

  lemma {:induction false} EncodeAllAppend(fs: seq<Frame>, gs: seq<Frame>)
    ensures EncodeAll(fs + gs) == EncodeAll(fs) + EncodeAll(gs)
  {
    if fs == [] {
      assert fs + gs == gs;
    } else {
      assert (fs + gs)[1..] == fs[1..] + gs;
      EncodeAllAppend(fs[1..], gs);
    }
  }

  lemma EncodeAllOne(f: Frame)
    ensures EncodeAll([f]) == Encode(f)
  {
    assert EncodeAll([f]) == Encode(f) + EncodeAll([]);
  }

  function MaxBody(fs: seq<Frame>): (m: nat)
    ensures forall f :: f in fs ==> |f.body| <= m
  {
    if fs == [] then 0
    else
      var m := MaxBody(fs[1..]);
      if |fs[0].body| > m then |fs[0].body| else m
  }

  /** Different frame lists have different encodings. */
  lemma EncodingInjective(fs: seq<Frame>, gs: seq<Frame>)
    requires forall f :: f in fs ==> Encodable(f)
    requires forall g :: g in gs ==> Encodable(g)
    requires EncodeAll(fs) == EncodeAll(gs)
    ensures fs == gs
  {
    var cap := MaxBody(fs) + MaxBody(gs);
    FrameListRoundTrip(cap, fs);
    FrameListRoundTrip(cap, gs);
  }

  // ----- exactly which byte strings decode to a list of frames -----

  function EncodeAllAs(fs: seq<Frame>, longs: seq<bool>): bytes
    requires |fs| == |longs|
  {
    if fs == [] then [] else EncodeAs(fs[0], longs[0]) + EncodeAllAs(fs[1..], longs[1..])
  }

  ghost predicate AllFit(cap: nat, fs: seq<Frame>, longs: seq<bool>) {
    |fs| == |longs| && forall i :: 0 <= i < |fs| ==> FitsAs(cap, fs[i], longs[i])
  }

  lemma {:induction false} DecodesIfWritten(cap: nat, fs: seq<Frame>, longs: seq<bool>)
    requires AllFit(cap, fs, longs)
    ensures Decode(cap, NeedFlags, EncodeAllAs(fs, longs)) == Decoded(NeedFlags, fs, None)
  {
    if fs != [] {
      DecodesIfWritten(cap, fs[1..], longs[1..]);
      DecodeOne(cap, fs[0], longs[0], EncodeAllAs(fs[1..], longs[1..]));
    }
  }

  lemma {:induction false} ShortSizeIsNotDone(cap: nat, s: DecState, t: bytes)
    requires DecValid(cap, s) && s.NeedSize?
    requires |s.size| + |t| < SizeLen(s.long)
    ensures Decode(cap, s, t).st.NeedSize?
    decreases |t|
  {
    if t != [] {
      ShortSizeIsNotDone(cap, Step(cap, s, t[0]).0, t[1..]);
    }
  }

  lemma {:induction false} ShortBodyIsNotDone(cap: nat, s: DecState, t: bytes)
    requires DecValid(cap, s) && s.NeedBody?
    requires |t| < s.remaining
    ensures Decode(cap, s, t).st.NeedBody?
    decreases |t|
  {
    if t != [] {
      ShortBodyIsNotDone(cap, Step(cap, s, t[0]).0, t[1..]);
    }
  }

  /** A size field that is complete and accepted holds the length of a body that fits. */
  lemma SizeField(cap: nat, s: DecState, size: bytes, tail: bytes)
    requires DecValid(cap, s) && s.NeedSize? && s.size == [] && |size| == SizeLen(s.long)
    requires Decode(cap, s, size + tail).error == None
    ensures var n := FromBE(size);
            n <= cap && (s.long || n <= 255) && size == ToBE(n, SizeLen(s.long))
    ensures var n := FromBE(size);
            Decode(cap, s, size + tail) ==
            if n == 0 then Prepend(Frame(s.more, s.isCommand, []), Decode(cap, NeedFlags, tail))
            else Decode(cap, NeedBody(s.more, s.isCommand, n, []), tail)
  {
    DecodeSize(cap, s, size, tail);
    assert [] + size == size;
    ToBEInverse(size);
    assert Pow256(1) == 256;
  }

  /** A body that completes is the next bytes of the input, as many as were announced. */
  lemma BodyField(cap: nat, s: DecState, tail: bytes)
    requires DecValid(cap, s) && s.NeedBody? && s.body == []
    requires Decode(cap, s, tail).st == NeedFlags
    ensures s.remaining <= |tail|
    ensures Decode(cap, s, tail) ==
            Prepend(Frame(s.more, s.isCommand, tail[..s.remaining]), Decode(cap, NeedFlags, tail[s.remaining..]))
  {
    if |tail| < s.remaining {
      ShortBodyIsNotDone(cap, s, tail);
    } else {
      var n := s.remaining;
      assert tail == tail[..n] + tail[n..] && [] + tail[..n] == tail[..n];
      DecodeBody(cap, s, tail[..n], tail[n..]);
    }
  }

  /** A non-empty input that decodes completely starts with one encoded frame. */
  lemma FirstFrame(cap: nat, input: bytes) returns (f: Frame, long: bool, rest: bytes)
    requires cap < USIZE_LIMIT && input != []
    requires var d := Decode(cap, NeedFlags, input); d.st == NeedFlags && d.error == None
    ensures FitsAs(cap, f, long) && input == EncodeAs(f, long) + rest
    ensures Decode(cap, NeedFlags, input) == Prepend(f, Decode(cap, NeedFlags, rest))
  {
    hide Decode, FromBE, ToBE, IsMore, IsCommand, IsLong, FlagsOf, DecValid;
    var b := input[0];
    assert input == [b] + input[1..];
    DecodeFlags(cap, b, input[1..]);
    FlagsInverse(b);
    long := IsLong(b);
    var s := NeedSize(IsMore(b), IsCommand(b), long, []);
    var k := SizeLen(long);
    if |input| < 1 + k {
      ShortSizeIsNotDone(cap, s, input[1..]);
    }
    var size, tail := input[1..1 + k], input[1 + k..];
    assert input[1..] == size + tail;
    SizeField(cap, s, size, tail);
    var n := FromBE(size);
    if n > 0 {
      BodyField(cap, NeedBody(s.more, s.isCommand, n, []), tail);
    } else {
      assert tail[..0] == [] && tail[0..] == tail;
    }
    f, rest := Frame(s.more, s.isCommand, tail[..n]), tail[n..];
    assert input == [b] + size + tail[..n] + tail[n..];
  }

  lemma NoFramesNoBytes(cap: nat, input: bytes)
    requires cap < USIZE_LIMIT && Decode(cap, NeedFlags, input) == Decoded(NeedFlags, [], None)
    ensures input == []
  {
    hide Decode, EncodeAs;
    if input != [] {
      var f, long, rest := FirstFrame(cap, input);
    }
  }

  lemma FeedOneFrame(cap: nat, f: Frame, long: bool)
    requires cap < USIZE_LIMIT && FitsAs(cap, f, long)
    ensures Feed(cap, NeedFlags, EncodeAs(f, long)) == (NeedFlags, Ok((|EncodeAs(f, long)|, Some(f))))
  {
    var input := EncodeAs(f, long);
    assert Decode(cap, NeedFlags, []) == Decoded(NeedFlags, [], None);
    hide Decode, EncodeAs, Feed;
    assert input + [] == input;
    DecodeOne(cap, f, long, []);
    FeedIsDecode(cap, NeedFlags, input);
    var (s', r) := Feed(cap, NeedFlags, input);
    var n := r.value.0;
    var d := Decode(cap, s', input[n..]);
    var all := [r.value.1.value] + d.frames;
    assert all == [f] && |all| == 1 + |d.frames| && all[0] == r.value.1.value;
    NoFramesNoBytes(cap, input[n..]);
  }

  /** One call takes exactly one encoded frame. */
  lemma FeedEncoded(cap: nat, f: Frame)
    requires cap < USIZE_LIMIT && Encodable(f) && |f.body| <= cap
    ensures Feed(cap, NeedFlags, Encode(f)) == (NeedFlags, Ok((|Encode(f)|, Some(f))))
  {
    hide Feed, Encode, EncodeAs;
    EncodeIsEncodeAs(f);
    FeedOneFrame(cap, f, |f.body| > 255);
  }

  /** A call that completed a frame would have, whatever followed. */
  lemma {:induction false} FeedStopsAtFrame(cap: nat, s: DecState, a: bytes, b: bytes)
    requires DecValid(cap, s)
    requires var r := Feed(cap, s, a).1; r.Ok? && r.value.1.Some?
    ensures Feed(cap, s, a + b) == Feed(cap, s, a)
    decreases |a|
  {
    hide Step;
    assert (a + b)[1..] == a[1..] + b;
    var (s', o) := Step(cap, s, a[0]);
    if o.Silent? {
      FeedStopsAtFrame(cap, s', a[1..], b);
    }
  }

  /** And what it took would have been enough. */
  lemma {:induction false} FeedTakesEnough(cap: nat, s: DecState, input: bytes)
    requires DecValid(cap, s)
    requires var r := Feed(cap, s, input).1; r.Ok? && r.value.1.Some?
    ensures var r := Feed(cap, s, input).1; Feed(cap, s, input[..r.value.0]) == Feed(cap, s, input)
    decreases |input|
  {
    hide Step;
    var (s', o) := Step(cap, s, input[0]);
    var n := Feed(cap, s, input).1.value.0;
    assert input[..n][1..] == input[1..][..n - 1];
    if o.Silent? {
      FeedTakesEnough(cap, s', input[1..]);
    }
  }

  // ----- what is refused -----

  lemma {:induction false} FeedOfSize(cap: nat, s: DecState, t: bytes)
    requires DecValid(cap, s) && s.NeedSize?
    ensures var k := SizeLen(s.long) - |s.size|;
            var r := Feed(cap, s, t).1;
            && (r.Err? <==> |t| >= k && FromBE(s.size + t[..k]) > cap)
            && (r.Err? ==> r.error == BodyTooLarge)
    decreases |t|
  {
    hide FromBE;
    var k := SizeLen(s.long) - |s.size|;
    if t != [] {
      var s' := s.(size := s.size + [t[0]]);
      if k > 1 {
        assert Step(cap, s, t[0]) == (s', Silent);
        FeedOfSize(cap, s', t[1..]);
        if |t| >= k {
          assert s.size + t[..k] == s'.size + t[1..][..k - 1];
        }
      } else {
        assert t[..1] == [t[0]];
        var (s1, o) := Step(cap, s, t[0]);
        if s1.NeedBody? {
          FeedOfBody(cap, s1, t[1..]);
        }
      }
    }
  }

  lemma {:induction false} FeedOfBody(cap: nat, s: DecState, t: bytes)
    requires DecValid(cap, s) && s.NeedBody?
    ensures Feed(cap, s, t).1.Ok?
    decreases |t|
  {
    if t != [] && s.remaining > 1 {
      FeedOfBody(cap, Step(cap, s, t[0]).0, t[1..]);
    }
  }

  /** The flags a frame can start with have no reserved bit, and not both MORE and the command bit. */
  ghost predicate GoodFlags(b: byte) {
    b == 0 || b == 1 || b == 2 || b == 3 || b == 4 || b == 6
  }

  /** How many bytes the size field behind these flags has. */
  function SizeWidth(b: byte): nat {
    if b == 2 || b == 3 || b == 6 then 8 else 1
  }

  /**
   What a call between frames refuses, and why: the flags, as soon as they are there; or the
   size, as soon as all of it is there, if it is over the capacity; and nothing else.
   */
  lemma RefusedExactly(cap: nat, bs: bytes)
    requires bs != []
    ensures var r := Feed(cap, NeedFlags, bs).1;
            var k := SizeWidth(bs[0]);
            && (r == Err(ReservedFlagBits) <==> !GoodFlags(bs[0]))
            && (r == Err(BodyTooLarge) <==> GoodFlags(bs[0]) && |bs| >= 1 + k && FromBE(bs[1..1 + k]) > cap)
            && r != Err(Truncated)
  {
    hide FromBE;
    var b, rest := bs[0], bs[1..];
    assert bs == [b] + rest;
    FeedCons(cap, NeedFlags, b, rest);
    FlagsAreGood(b);
    if GoodFlags(b) {
      var s := NeedSize(IsMore(b), IsCommand(b), IsLong(b), []);
      var k := SizeWidth(b);
      FeedOfSize(cap, s, rest);
      if |rest| >= k {
        assert [] + rest[..k] == bs[1..1 + k];
      }
    }
  }

  lemma FlagsAreGood(b: byte)
    ensures FlagsOk(b) <==> GoodFlags(b)
    ensures GoodFlags(b) ==> SizeLen(IsLong(b)) == SizeWidth(b)
  {}

  /** A call that takes all its input and completes a frame, cut in two. */
  lemma {:induction false} FeedSplit(cap: nat, s: DecState, a: bytes, b: bytes, f: Frame) returns (s1: DecState)
    requires DecValid(cap, s) && b != []
    requires Feed(cap, s, a + b) == (NeedFlags, Ok((|a| + |b|, Some(f))))
    ensures DecValid(cap, s1) && Feed(cap, s, a) == (s1, Ok((|a|, None)))
    ensures Feed(cap, s1, b) == (NeedFlags, Ok((|b|, Some(f))))
    decreases |a|
  {
    hide Step;
    if a == [] {
      assert a + b == b;
      s1 := s;
    } else {
      assert (a + b)[1..] == a[1..] + b;
      var (s', o) := Step(cap, s, a[0]);
      s1 := FeedSplit(cap, s', a[1..], b, f);
    }
  }

  /** The input starts with the frame, with a size field of either width, `n` bytes in all. */
  ghost predicate StartsWith(cap: nat, input: bytes, f: Frame, n: nat) {
    exists long :: FitsAs(cap, f, long) && n == |EncodeAs(f, long)| && EncodeAs(f, long) <= input
  }

  /** A call between frames completes a frame exactly when its input starts with that frame. */
  lemma FeedTakesExactly(cap: nat, input: bytes, f: Frame, n: nat)
    requires cap < USIZE_LIMIT
    ensures Feed(cap, NeedFlags, input) == (NeedFlags, Ok((n, Some(f)))) <==> StartsWith(cap, input, f, n)
  {
    hide Feed, Decode, EncodeAs, FitsAs;
    if StartsWith(cap, input, f, n) {
      var long :| FitsAs(cap, f, long) && n == |EncodeAs(f, long)| && EncodeAs(f, long) <= input;
      FeedOneFrame(cap, f, long);
      FeedStopsAtFrame(cap, NeedFlags, EncodeAs(f, long), input[n..]);
      assert EncodeAs(f, long) + input[n..] == input;
    }
    if Feed(cap, NeedFlags, input) == (NeedFlags, Ok((n, Some(f)))) {
      var taken := input[..n];
      FeedTakesEnough(cap, NeedFlags, input);
      FeedIsDecode(cap, NeedFlags, taken);
      assert taken[n..] == [];
      assert Decode(cap, NeedFlags, []) == Decoded(NeedFlags, [], None) by { DecodeNothing(cap); }
      var f', long, rest := FirstFrame(cap, taken);
      var fs := Decode(cap, NeedFlags, taken).frames;
      assert fs == [f] && |fs| == 1 + |Decode(cap, NeedFlags, rest).frames| && fs[0] == f';
      NoFramesNoBytes(cap, rest);
      assert EncodeAs(f, long) + [] == EncodeAs(f, long) == taken;
    }
  }

  lemma DecodeNothing(cap: nat)
    ensures Decode(cap, NeedFlags, []) == Decoded(NeedFlags, [], None)
  {}

  lemma {:induction false} WrittenIfDecodes(cap: nat, input: bytes) returns (longs: seq<bool>)
    requires cap < USIZE_LIMIT
    requires var d := Decode(cap, NeedFlags, input); d.st == NeedFlags && d.error == None
    ensures var fs := Decode(cap, NeedFlags, input).frames;
            AllFit(cap, fs, longs) && input == EncodeAllAs(fs, longs)
    decreases |input|
  {
    if input == [] {
      longs := [];
    } else {
      var f, long, rest := FirstFrame(cap, input);
      var longs' := WrittenIfDecodes(cap, rest);
      longs := [long] + longs';
      var fs := Decode(cap, NeedFlags, input).frames;
      assert fs[1..] == Decode(cap, NeedFlags, rest).frames;
      assert longs[1..] == longs';
      forall i | 0 <= i < |fs| ensures FitsAs(cap, fs[i], longs[i]) {
        if i > 0 {
          assert fs[i] == fs[1..][i - 1] && longs[i] == longs'[i - 1];
        }
      }
    }
  }

  ghost predicate IsEncodingOf(cap: nat, input: bytes, fs: seq<Frame>) {
    exists longs :: AllFit(cap, fs, longs) && input == EncodeAllAs(fs, longs)
  }

  /**
   The decoder accepts a byte string as the list `fs` exactly when it is the
   frames of `fs` one after the other, each with either width of size field.
   */
  lemma DecoderExactness(cap: nat, input: bytes, fs: seq<Frame>)
    requires cap < USIZE_LIMIT
    ensures Decode(cap, NeedFlags, input) == Decoded(NeedFlags, fs, None) <==> IsEncodingOf(cap, input, fs)
  {
    if Decode(cap, NeedFlags, input) == Decoded(NeedFlags, fs, None) {
      var longs := WrittenIfDecodes(cap, input);
    }
    if IsEncodingOf(cap, input, fs) {
      var longs :| AllFit(cap, fs, longs) && input == EncodeAllAs(fs, longs);
      DecodesIfWritten(cap, fs, longs);
    }
  }
}
