/** The frame with which a front opens a session on a back: its codec and its reader. */
module OpeningFrame {
  import opened Bytes
  import opened Options
  import opened Streams
  import opened Utf8

  const MAGIC: bytes := [0x53, 0x47, 0x46, 0x42]
  const VERSION_PLAIN: byte := 1
  const VERSION_ENCRYPTED: byte := 2
  const MAX_BACKEND_LEN: nat := 256
  const MAX_INITIAL_LEN: nat := 65_536

  datatype SecretMode = Classic | Dd | Ee

  datatype Frame = Frame(mode: SecretMode, backend: text, initialData: bytes)

  datatype Encoded = Encoded(raw: bytes) | BackendTooLong | InitialTooLarge

  datatype Decoded =
    | Decoded(frame: Frame) | TooShort | BadMagic | BadVersion | BadMode | Truncated | BadUtf8 | BadInitialLen

  function ModeToByte(mode: SecretMode): (b: byte) {
    match mode
    case Classic => 0
    case Dd => 1
    case Ee => 2
  }

  function ByteToMode(b: byte): (mode: Option<SecretMode>) {
    if b == 0 then Some(Classic) else if b == 1 then Some(Dd) else if b == 2 then Some(Ee) else None
  }

  /** The 38 bytes before the backend's length. */
  function Head(hash: Sha256, token: text, mode: SecretMode, encrypt: bool): (s: bytes)
    ensures |s| == 38
  {
    MAGIC + [if encrypt then VERSION_ENCRYPTED else VERSION_PLAIN] + hash(token) + [ModeToByte(mode)]
  }

  /** What the format has room for. */
  predicate Fits(backend: bytes, initial: bytes) {
    |backend| <= MAX_BACKEND_LEN && |initial| <= MAX_INITIAL_LEN
  }

  function Encode(hash: Sha256, token: text, mode: SecretMode, backend: text, initial: bytes, encrypt: bool): (e: Encoded)
    ensures e.Encoded? <==> Fits(backend, initial)
  {
    if |backend| > MAX_BACKEND_LEN then BackendTooLong
    else if |initial| > MAX_INITIAL_LEN then InitialTooLarge
    else
      Encoded(Head(hash, token, mode, encrypt) + PutU16(|backend|) + backend + PutU32(|initial|) + initial)
  }

  function Decode(data: bytes): (d: Decoded) {
    if |data| < 44 then TooShort
    else if data[0..4] != MAGIC then BadMagic
    else if data[4] != VERSION_PLAIN && data[4] != VERSION_ENCRYPTED then BadVersion
    else if ByteToMode(data[37]).None? then BadMode
    else
      var backendEnd := 40 + U16([data[38], data[39]]);
      if backendEnd + 4 > |data| then Truncated
      else if !ValidUtf8(data[40..backendEnd]) then BadUtf8
      else
        var initialLen := U32([data[backendEnd], data[backendEnd + 1], data[backendEnd + 2], data[backendEnd + 3]]);
        if backendEnd + 4 + initialLen != |data| then BadInitialLen
        else Decoded(Frame(ByteToMode(data[37]).value, data[40..backendEnd], data[backendEnd + 4..]))
  }

  /** Where the frame at the front of a byte string ends, once enough of it is there to tell. */
  function FrameEnd(s: bytes): (end: Option<nat>)
    ensures end.Some? ==> |s| >= 44 && end.value >= 44
  {
    if |s| < 40 then None
    else
      var backendEnd := 40 + U16([s[38], s[39]]);
      if |s| < backendEnd + 4 then None
      else Some(backendEnd + 4 + U32([s[backendEnd], s[backendEnd + 1], s[backendEnd + 2], s[backendEnd + 3]]))
  }

  /** The parts of an encoded frame are where the decoder and the reader look for them. */
  lemma EncodedLayout(hash: Sha256, token: text, mode: SecretMode, backend: text, initial: bytes, encrypt: bool, rest: bytes)
    requires Fits(backend, initial)
    ensures var raw := Encode(hash, token, mode, backend, initial, encrypt).raw;
            var s := raw + rest;
            var end := 40 + |backend|;
            && |raw| == end + 4 + |initial| && |s| >= 44
            && s[0..4] == MAGIC == [0x53, 0x47, 0x46, 0x42] && s[4] == (if encrypt then 2 else 1)
            && s[5..37] == hash(token) && s[37] == ModeToByte(mode) == (match mode case Classic => 0 case Dd => 1 case Ee => 2)
            && U16([s[38], s[39]]) == |backend| && s[40..end] == backend
            && U32([s[end], s[end + 1], s[end + 2], s[end + 3]]) == |initial|
            && s[end + 4..|raw|] == initial
  {
    hide U16, U32, PutU16, PutU32, ValidUtf8;
    var head, two, four := Head(hash, token, mode, encrypt), PutU16(|backend|), PutU32(|initial|);
    var raw := Encode(hash, token, mode, backend, initial, encrypt).raw;
    var s := raw + rest;
    var end := 40 + |backend|;
    PutU32Reads(|initial|);
    Regroup(head + two + backend + four, initial, rest);
    Regroup(head + two + backend, four, initial + rest);
    Regroup(head + two, backend, four + (initial + rest));
    Regroup(head, two, backend + (four + (initial + rest)));
    HeadLayout(hash, token, mode, encrypt, two + (backend + (four + (initial + rest))));
    Part(head, two, backend + (four + (initial + rest)));
    Part(head + two, backend, four + (initial + rest));
    Part(head + two + backend, four, initial + rest);
    Part(head + two + backend + four, initial, rest);
    hide Head, Encode;
    assert s[38 + 0] == two[0] && s[38 + 1] == two[1];
    assert s[end + 0] == four[0] && s[end + 1] == four[1] && s[end + 2] == four[2] && s[end + 3] == four[3];
  }

  lemma HeadLayout(hash: Sha256, token: text, mode: SecretMode, encrypt: bool, rest: bytes)
    ensures var s := Head(hash, token, mode, encrypt) + rest;
            && s[0..4] == MAGIC && s[4] == (if encrypt then VERSION_ENCRYPTED else VERSION_PLAIN)
            && s[5..37] == hash(token) && s[37] == ModeToByte(mode)
  {
    var version := if encrypt then VERSION_ENCRYPTED else VERSION_PLAIN;
    var h := hash(token);
    var head := MAGIC + [version] + h + [ModeToByte(mode)];
    assert head == Head(hash, token, mode, encrypt);
    assert head[0..4] == MAGIC && head[4] == version;
    Part(MAGIC + [version], h, [ModeToByte(mode)]);
    assert head[37] == ModeToByte(mode);
    var s := head + rest;
    assert s[0..4] == head[0..4] && s[5..37] == head[5..37];
  }

  /** Decoding undoes encoding, and encoding fails only over the two limits. */
  lemma DecodeInvertsEncode(hash: Sha256, token: text, mode: SecretMode, backend: text, initial: bytes, encrypt: bool)
    ensures var e := Encode(hash, token, mode, backend, initial, encrypt);
            if |backend| <= 256 && |initial| <= 65_536 then
              && e.Encoded? && Decode(e.raw) == Decoded(Frame(mode, backend, initial)) && e.raw[5..37] == hash(token)
            else !e.Encoded?
  {
    hide U16, U32, PutU16, PutU32, Head;
    var e := Encode(hash, token, mode, backend, initial, encrypt);
    if e.Encoded? {
      EncodedLayout(hash, token, mode, backend, initial, encrypt, []);
      assert e.raw + [] == e.raw;
      assert e.raw[40 + |backend| + 4..] == e.raw[40 + |backend| + 4..|e.raw|];
    }
  }

  /** Encoding undoes decoding: a frame within the limits is spelled in one way only. */
  lemma EncodeInvertsDecode(hash: Sha256, token: text, data: bytes)
    requires Decode(data).Decoded? && data[5..37] == hash(token)
    requires Fits(Decode(data).frame.backend, Decode(data).frame.initialData)
    ensures var f := Decode(data).frame;
            Encode(hash, token, f.mode, f.backend, f.initialData, data[4] == VERSION_ENCRYPTED) == Encoded(data)
  {
    hide ValidUtf8, U16, U32, PutU16, PutU32, Head;
    var f := Decode(data).frame;
    var end := 40 + U16([data[38], data[39]]);
    U16Unique(data[38], data[39]);
    U32Unique(data[end], data[end + 1], data[end + 2], data[end + 3]);
    HeadSpelled(hash, token, data);
    assert data == data[..38] + data[38..40] + data[40..end] + data[end..end + 4] + data[end + 4..];
  }

  lemma HeadSpelled(hash: Sha256, token: text, data: bytes)
    requires |data| >= 38 && data[0..4] == MAGIC && data[4] in {VERSION_PLAIN, VERSION_ENCRYPTED}
    requires ByteToMode(data[37]).Some? && data[5..37] == hash(token)
    ensures data[..38] == Head(hash, token, ByteToMode(data[37]).value, data[4] == VERSION_ENCRYPTED)
  {
    assert data[..38] == data[0..4] + [data[4]] + data[5..37] + [data[37]];
  }

  /** A frame marks its own end, whatever follows it. */
  lemma FrameDelimitsItself(hash: Sha256, token: text, mode: SecretMode, backend: text, initial: bytes, encrypt: bool, rest: bytes)
    requires Fits(backend, initial)
    ensures var raw := Encode(hash, token, mode, backend, initial, encrypt).raw;
            FrameEnd(raw + rest) == Some(|raw|) && (raw + rest)[0..4] == MAGIC
  {
    hide U16, U32, PutU16, PutU32, Head, ValidUtf8;
    EncodedLayout(hash, token, mode, backend, initial, encrypt, rest);
  }

  /** What follows a frame, or a part of one, does not move its end. */
  lemma FrameEndStable(s: bytes, more: bytes)
    requires FrameEnd(s).Some?
    ensures FrameEnd(s + more) == FrameEnd(s)
  {
    hide U16, U32;
    var t := s + more;
    assert forall i :: 0 <= i < |s| ==> t[i] == s[i];
  }

  // ---------------------------------------------------------------- reading a frame off a stream

  datatype FrameRead = FrameRead(raw: bytes) | WrongMagic | TooLarge | NotAll(why: ReadAll)

  /** What there is to read at the front of a byte string; `NotAll` if it stops short of a whole frame. */
  function FrameAtFront(s: bytes, maxBytes: nat): (r: FrameRead) {
    if |s| < 40 then NotAll(Waiting)
    else if s[0..4] != MAGIC then WrongMagic
    else if FrameEnd(s).None? then NotAll(Waiting)
    else if FrameEnd(s).value > 44 + U16([s[38], s[39]]) + maxBytes then TooLarge
    else if |s| < FrameEnd(s).value then NotAll(Waiting)
    else FrameRead(s[..FrameEnd(s).value])
  }

  /**
   Reads one frame and not a byte more. Unless the stream fails it finds what is at the front of it,
   and a frame that it returns passes every length check of the decoder.
   */
  method ReadOpeningFrame(input: PrefixedStream, maxBytes: nat) returns (r: FrameRead)
    requires input.Valid()
    modifies input, input.inner
    ensures input.Valid()
    ensures var found := FrameAtFront(old(input.Rest()), maxBytes);
            r == NotAll(Failed(Io)) || r == found || (r.NotAll? && found.NotAll?)
    ensures old(input.Failures()) == input.Failures() + if r == NotAll(Failed(Io)) then 1 else 0
    ensures r.FrameRead? ==>
              && old(input.Rest()) == r.raw + input.Rest()
              && FrameEnd(r.raw) == Some(|r.raw|) && |r.raw| <= 44 + 0xFFFF + maxBytes
              && Decode(r.raw) !in {TooShort, BadMagic, Truncated, BadInitialLen}
  {
    hide U16, U32, ValidUtf8, FrameEnd, PrefixedStream.View, PrefixedStream.Rest, PrefixedStream.Size;
    hide PrefixedStream.Failures;
    ghost var whole := input.Rest();
    var head := input.ReadExact(40);
    if !head.Full? {
      return NotAll(head);
    }
    var frame := head.data;
    assert whole[..40] == frame && whole[0..4] == frame[0..4];
    if frame[0..4] != MAGIC {
      return WrongMagic;
    }
    var backendLen := U16([frame[38], frame[39]]);
    assert whole[38] == frame[38] && whole[39] == frame[39];
    var backend := input.ReadExact(backendLen);
    if !backend.Full? {
      NoFrameEnd(whole);
      return NotAll(backend);
    }
    frame := frame + backend.data;
    assert whole == frame + input.Rest();
    var size := input.ReadExact(4);
    if !size.Full? {
      NoFrameEnd(whole);
      return NotAll(size);
    }
    frame := frame + size.data;
    assert whole == frame + input.Rest();
    var initialLen := U32([size.data[0], size.data[1], size.data[2], size.data[3]]);
    FrameEndOf(frame, head.data, backend.data, size.data, input.Rest());
    if initialLen > maxBytes {
      return TooLarge;
    }
    var initial := input.ReadExact(initialLen);
    if !initial.Full? {
      return NotAll(initial);
    }
    FrameEndOf(frame, head.data, backend.data, size.data, initial.data);
    frame := frame + initial.data;
    assert whole == frame + input.Rest();
    assert frame[0..4] == head.data[0..4] && whole[..|frame|] == frame;
    WholeFrameDecodes(frame);
    r := FrameRead(frame);
  }

  /** Reading what was encoded returns exactly that, and leaves whatever stands behind it. */
  lemma EncodedIsRead(hash: Sha256, token: text, mode: SecretMode, backend: text, initial: bytes, encrypt: bool, rest: bytes)
    requires Fits(backend, initial)
    ensures var raw := Encode(hash, token, mode, backend, initial, encrypt).raw;
            FrameAtFront(raw + rest, MAX_INITIAL_LEN) == FrameRead(raw)
  {
    hide U16, U32, PutU16, PutU32, Head, ValidUtf8, FrameEnd;
    EncodedLayout(hash, token, mode, backend, initial, encrypt, rest);
    FrameDelimitsItself(hash, token, mode, backend, initial, encrypt, rest);
    var raw := Encode(hash, token, mode, backend, initial, encrypt).raw;
    assert (raw + rest)[..|raw|] == raw;
  }

  lemma NoFrameEnd(s: bytes)
    requires |s| >= 40
    ensures |s| < 44 + U16([s[38], s[39]]) <==> FrameEnd(s).None?
  {
  }

  lemma FrameEndOf(frame: bytes, head: bytes, backend: bytes, size: bytes, rest: bytes)
    requires |head| == 40 && |backend| == U16([head[38], head[39]]) && |size| == 4
    requires frame == head + backend + size
    ensures FrameEnd(frame + rest) == Some(44 + |backend| + U32([size[0], size[1], size[2], size[3]]))
  {
    hide U16, U32;
    var s, end := frame + rest, 40 + |backend|;
    assert s[38] == head[38] && s[39] == head[39];
    assert s[end] == size[0] && s[end + 1] == size[1] && s[end + 2] == size[2] && s[end + 3] == size[3];
  }

  /** A frame that ends where it says can only be refused for its version, its mode or its text. */
  lemma WholeFrameDecodes(raw: bytes)
    requires FrameEnd(raw) == Some(|raw|) && |raw| >= 4 && raw[0..4] == MAGIC
    ensures Decode(raw) !in {TooShort, BadMagic, Truncated, BadInitialLen}
  {
  }
}
