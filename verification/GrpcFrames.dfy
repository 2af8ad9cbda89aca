/** gRPC's length-prefixed messages: ParseFrame and ParseFrames of internal/grpcwire/frame.go. */
module GrpcFrames {
  import opened ByteStrings
  import opened GrpcWire

  const FRAME_HEADER_LEN := 5
  const MAX_LENGTH := 0xFFFF_FFFF

  datatype Frame = Frame(compressed: bool, message: bytes)

  // The frames found, and the error that ended the search.
  datatype Framed = Framed(frames: seq<Frame>, error: Option<WireError>)

  // binary.BigEndian.Uint32.
  function Uint32(b: bytes): nat
    requires |b| == 4
  {
    b[0] as int * 0x100_0000 + b[1] as int * 0x1_0000 + b[2] as int * 256 + b[3] as int
  }

  function PutUint32(n: nat): (b: bytes)
    requires n <= MAX_LENGTH
    ensures |b| == 4
  {
    [n / 0x100_0000, n / 0x1_0000 % 256, n / 256 % 256, n % 256]
  }

  lemma Uint32RoundTrip(n: nat)
    requires n <= MAX_LENGTH
    ensures Uint32(PutUint32(n)) == n
  {
    var n1 := n / 256;
    var n2 := n1 / 256;
    var n3 := n2 / 256;
    assert n / 0x1_0000 == n2 && n / 0x100_0000 == n3;
  }

  lemma PutUint32RoundTrip(b: bytes)
    requires |b| == 4
    ensures Uint32(b) <= MAX_LENGTH && PutUint32(Uint32(b)) == b
  {
    Quarters(b[0], b[1], b[2], b[3]);
    assert b == [b[0], b[1], b[2], b[3]];
  }

  lemma Quarters(b0: byte, b1: byte, b2: byte, b3: byte)
    ensures var n := b0 as int * 0x100_0000 + b1 as int * 0x1_0000 + b2 as int * 256 + b3 as int;
            n / 0x100_0000 == b0 && n / 0x1_0000 % 256 == b1 && n / 256 % 256 == b2 && n % 256 == b3
  {
    var n := b0 as int * 0x100_0000 + b1 as int * 0x1_0000 + b2 as int * 256 + b3 as int;
    assert n / 256 == b0 as int * 0x1_0000 + b1 as int * 256 + b2 as int;
    assert n / 0x1_0000 == b0 as int * 256 + b1 as int;
  }

  function ParseFrame(b: bytes): (r: Parsed<Frame>)
    ensures r.Ok? ==> FRAME_HEADER_LEN <= r.used <= |b|
  {
    if |b| < FRAME_HEADER_LEN then Err(FrameHeaderTruncated)
    else
      var end := FRAME_HEADER_LEN + Uint32(b[1..5]);
      if end > |b| then Err(FrameBodyTruncated)
      else Ok(Frame(b[0] != 0, b[FRAME_HEADER_LEN..end]), end)
  }

  function ParseFrames(b: bytes): Framed
    decreases |b|
  {
    if b == [] then Framed([], None)
    else
      var f := ParseFrame(b);
      if f.Err? then Framed([], Some(f.error))
      else
        var rest := ParseFrames(b[f.used..]);
        Framed([f.value] + rest.frames, rest.error)
  }

  method RunParseFrames(input: bytes) returns (r: Framed)
    ensures r == ParseFrames(input)
  {
    var b := input;
    var frames := [];
    while |b| > 0
      invariant ParseFrames(input) == Framed(frames + ParseFrames(b).frames, ParseFrames(b).error)
      decreases |b|
    {
      var f := ParseFrame(b);
      if f.Err? {
        assert frames + [] == frames;
        return Framed(frames, Some(f.error));
      }
      assert frames + ([f.value] + ParseFrames(b[f.used..]).frames)
        == (frames + [f.value]) + ParseFrames(b[f.used..]).frames;
      frames := frames + [f.value];
      b := b[f.used..];
    }
    return Framed(frames, None);
  }

  // ---------------------------------------------------------------- writing frames back

  function Serialise(f: Frame): bytes
    requires |f.message| <= MAX_LENGTH
  {
    [if f.compressed then 1 else 0] + PutUint32(|f.message|) + f.message
  }

  predicate AllShort(frames: seq<Frame>) {
    frames != [] ==> |frames[0].message| <= MAX_LENGTH && AllShort(frames[1..])
  }

  function SerialiseAll(frames: seq<Frame>): bytes
    requires AllShort(frames)
  {
    if frames == [] then [] else Serialise(frames[0]) + SerialiseAll(frames[1..])
  }

  // What no frame was found in.
  function Tail(b: bytes): bytes
    decreases |b|
  {
    if b == [] || ParseFrame(b).Err? then b else Tail(b[ParseFrame(b).used..])
  }

  // The flag bytes of the frames found.
  function Flags(b: bytes): seq<byte>
    decreases |b|
  {
    if b == [] || ParseFrame(b).Err? then [] else [b[0]] + Flags(b[ParseFrame(b).used..])
  }

  predicate AllBinary(flags: seq<byte>) {
    flags != [] ==> flags[0] <= 1 && AllBinary(flags[1..])
  }

  lemma FrameBytes(b: bytes)
    requires ParseFrame(b).Ok?
    ensures var f := ParseFrame(b);
            && |f.value.message| <= MAX_LENGTH
            && |Serialise(f.value)| == f.used
            && b[1..f.used] == Serialise(f.value)[1..]
            && (Serialise(f.value) == b[..f.used] <==> b[0] <= 1)
  {
    var f := ParseFrame(b);
    PutUint32RoundTrip(b[1..5]);
    var s := Serialise(f.value);
    assert s[1..] == PutUint32(|f.value.message|) + f.value.message;
    assert b[1..f.used] == b[1..5] + b[5..f.used];
    assert b[..f.used] == [b[0]] + b[1..f.used];
    assert s == [s[0]] + s[1..];
  }

  lemma {:induction false} ParsedAreShort(b: bytes)
    ensures AllShort(ParseFrames(b).frames)
    decreases |b|
  {
    if b != [] && ParseFrame(b).Ok? {
      var f := ParseFrame(b);
      FrameBytes(b);
      ParsedAreShort(b[f.used..]);
      assert ([f.value] + ParseFrames(b[f.used..]).frames)[1..] == ParseFrames(b[f.used..]).frames;
    }
  }

  // The frames written back, then the unparsed tail, have the input's length, and are the input
  // exactly when every flag byte is 0 or 1.
  lemma {:induction false} FramesWrittenBack(b: bytes)
    ensures AllShort(ParseFrames(b).frames)
    ensures |SerialiseAll(ParseFrames(b).frames)| + |Tail(b)| == |b|
    ensures SerialiseAll(ParseFrames(b).frames) + Tail(b) == b <==> AllBinary(Flags(b))
    decreases |b|
  {
    ParsedAreShort(b);
    if b != [] && ParseFrame(b).Ok? {
      var f := ParseFrame(b);
      var more := b[f.used..];
      FramesWrittenBack(more);
      FrameBytes(b);
      var rest := ParseFrames(more).frames;
      var frames := [f.value] + rest;
      assert frames[1..] == rest;
      assert ([b[0]] + Flags(more))[1..] == Flags(more);
      var s := Serialise(f.value);
      JoinSplit(s, SerialiseAll(rest), Tail(more), b, f.used);
    }
  }

  lemma JoinSplit(s: bytes, t: bytes, tail: bytes, b: bytes, n: nat)
    requires n <= |b| && |s| == n && |t| + |tail| == |b| - n
    ensures (s + t) + tail == b <==> s == b[..n] && t + tail == b[n..]
  {
    var whole := (s + t) + tail;
    assert whole == s + (t + tail);
    assert whole[..n] == s && whole[n..] == t + tail;
    assert b == b[..n] + b[n..];
  }

  // No frame is left in the tail, and the error says why; there is none exactly when nothing is left.
  lemma {:induction false} TailIsUnparsed(b: bytes)
    ensures Tail(b) == [] ==> ParseFrames(b).error == None
    ensures Tail(b) != [] ==> ParseFrame(Tail(b)).Err? && ParseFrames(b).error == Some(ParseFrame(Tail(b)).error)
    ensures |Flags(b)| == |ParseFrames(b).frames|
    ensures forall i :: 0 <= i < |Flags(b)| ==> ParseFrames(b).frames[i].compressed == (Flags(b)[i] != 0)
    decreases |b|
  {
    if b != [] && ParseFrame(b).Ok? {
      TailIsUnparsed(b[ParseFrame(b).used..]);
    }
  }

  lemma FrameRoundTrip(f: Frame, rest: bytes)
    requires |f.message| <= MAX_LENGTH
    ensures ParseFrame(Serialise(f) + rest) == Ok(f, |Serialise(f)|)
  {
    var b := Serialise(f) + rest;
    Uint32RoundTrip(|f.message|);
    assert b[1..5] == PutUint32(|f.message|);
    assert b[5..5 + |f.message|] == f.message;
  }

  lemma NextFrame(f: Frame, more: bytes)
    requires |f.message| <= MAX_LENGTH
    ensures ParseFrames(Serialise(f) + more) == Framed([f] + ParseFrames(more).frames, ParseFrames(more).error)
    ensures Tail(Serialise(f) + more) == Tail(more)
  {
    FrameRoundTrip(f, more);
    assert (Serialise(f) + more)[|Serialise(f)|..] == more;
  }

  // Any list of frames, written and parsed, comes back, whatever unparsable bytes follow it.
  lemma {:induction false} FramesRoundTrip(frames: seq<Frame>, tail: bytes)
    requires AllShort(frames)
    requires tail == [] || ParseFrame(tail).Err?
    ensures ParseFrames(SerialiseAll(frames) + tail)
         == Framed(frames, if tail == [] then None else Some(ParseFrame(tail).error))
    ensures Tail(SerialiseAll(frames) + tail) == tail
  {
    if frames == [] {
      assert SerialiseAll(frames) + tail == tail;
    } else {
      var more := SerialiseAll(frames[1..]) + tail;
      assert SerialiseAll(frames) + tail == Serialise(frames[0]) + more;
      NextFrame(frames[0], more);
      FramesRoundTrip(frames[1..], tail);
      assert frames == [frames[0]] + frames[1..];
    }
  }

  // ---------------------------------------------------------------- what a frame is

  // The number whose digits to the base 256 are the bytes, the first one the highest.
  ghost function BigEndian(b: bytes): nat {
    if b == [] then 0 else 256 * BigEndian(b[..|b| - 1]) + b[|b| - 1]
  }

  lemma Uint32Is(b: bytes)
    requires |b| == 4
    ensures Uint32(b) == BigEndian(b)
  {
    assert b[..3][..2] == b[..2] && b[..2][..1] == b[..1] && b[..1][..0] == [];
    assert BigEndian(b[..0]) == 0 && BigEndian(b[..1]) == b[0] as int;
    assert BigEndian(b[..2]) == 256 * BigEndian(b[..1]) + b[1] as int;
    assert BigEndian(b[..3]) == 256 * BigEndian(b[..2]) + b[2] as int;
  }

  // A flag, the length as four bytes, and the message.
  ghost predicate Lies(s: bytes, f: Frame) {
    exists flag: byte, length: bytes ::
      s == [flag] + length + f.message && |length| == 4 && BigEndian(length) == |f.message| && f.compressed == (flag != 0)
  }

  // A frame of n bytes is found if and only if the input starts with one.
  lemma FrameExactly(b: bytes, f: Frame, n: nat)
    ensures ParseFrame(b) == Ok(f, n) <==> n <= |b| && Lies(b[..n], f)
  {
    if ParseFrame(b) == Ok(f, n) {
      Uint32Is(b[1..5]);
      assert b[..n] == [b[0]] + b[1..5] + f.message;
    }
    if n <= |b| && Lies(b[..n], f) {
      var flag: byte, length: bytes :|
        b[..n] == [flag] + length + f.message && |length| == 4 && BigEndian(length) == |f.message|
        && f.compressed == (flag != 0);
      FrameFound(b, f, n, flag, length);
    }
  }

  lemma FrameFound(b: bytes, f: Frame, n: nat, flag: byte, length: bytes)
    requires n <= |b| && b[..n] == [flag] + length + f.message && |length| == 4 && BigEndian(length) == |f.message|
    requires f.compressed == (flag != 0)
    ensures ParseFrame(b) == Ok(f, n)
  {
    var s := b[..n];
    assert s[0] == flag && s[1..5] == length && s[5..] == f.message;
    assert b[1..5] == s[1..5] && b[5..n] == s[5..];
    Uint32Is(length);
  }

  // The refusals: no header, or a message that runs past the end.
  lemma FrameRefuses(b: bytes)
    ensures ParseFrame(b) == Err(FrameHeaderTruncated) <==> |b| < 5
    ensures ParseFrame(b) == Err(FrameBodyTruncated) <==> |b| >= 5 && |b| - 5 < BigEndian(b[1..5])
  {
    if |b| >= 5 {
      Uint32Is(b[1..5]);
    }
  }
}
