/**
 The encrypted relay stream of SGFB version 2: every chunk written becomes one frame
 `u16 length | ciphertext`, sealed under a nonce that counts frames. The cipher is any
 authenticated cipher whose `open` inverts `seal` and whose tag is sixteen bytes.
 */
module SgfbCrypto {
  import opened Bytes
  import opened Options
  import opened Streams

  const MAX_FRAME_PLAIN: nat := 16_384
  const MAX_FRAME_CIPHER: nat := MAX_FRAME_PLAIN + 16

  /** An authenticated cipher: both operations take key, nonce and text. */
  datatype Aead = Aead(seal: (bytes, bytes, bytes) -> bytes, open: (bytes, bytes, bytes) -> Option<bytes>)

  ghost predicate Lawful(a: Aead) {
    forall k: bytes, n: bytes, p: bytes ::
      var c := a.seal(k, n, p);
      |c| == |p| + 16 && a.open(k, n, c) == Some(p)
  }

  const ZERO_TAG: bytes := [0, 0, 0, 0, 0, 0, 0, 0, 0, 0, 0, 0, 0, 0, 0, 0]

  function AppendTag(k: bytes, n: bytes, p: bytes): (c: bytes) {
    p + ZERO_TAG
  }

  function StripTag(k: bytes, n: bytes, c: bytes): (p: Option<bytes>) {
    if |c| < 16 then None else Some(c[..|c| - 16])
  }

  /** A cipher that satisfies the laws, so that statements about all lawful ciphers are not empty. */
  const TRANSPARENT: Aead := Aead(AppendTag, StripTag)

  lemma TransparentIsLawful()
    ensures Lawful(TRANSPARENT)
  {
    forall k: bytes, n: bytes, p: bytes
      ensures |AppendTag(k, n, p)| == |p| + 16 && StripTag(k, n, AppendTag(k, n, p)) == Some(p)
    {
      assert (p + ZERO_TAG)[..|p|] == p;
    }
  }

  // ---------------------------------------------------------------- nonces

  /** `nonce.saturating_add(1)` on sixty-four bits. */
  function Bump(counter: nat): (next: nat)
    requires counter <= U64_MAX
    ensures next <= U64_MAX
  {
    Min(counter + 1, U64_MAX)
  }

  /** The counter under which frame `i` of a stream is sealed. */
  function CounterOf(i: nat): (counter: nat)
    ensures counter <= U64_MAX
    ensures Bump(counter) == Min(i + 1, U64_MAX)
  {
    Min(i, U64_MAX)
  }

  /** Four zero bytes, then the counter in eight bytes, most significant first. */
  function BuildNonce(counter: nat): (nonce: bytes)
    requires counter <= U64_MAX
    ensures |nonce| == 12
  {
    [0, 0, 0, 0] + PutBytes(8, counter)
  }

  lemma NonceRecovers(counter: nat)
    requires counter <= U64_MAX
    ensures FromBytes(BuildNonce(counter)) == counter
  {
    Pow256Of8();
    PutBytesReads(8, counter);
    hide PutBytes;
    ZerosInFront(PutBytes(8, counter), 4);
    assert BuildNonce(counter) == seq(4, _ => 0) + PutBytes(8, counter);
  }

  lemma {:induction false} ZerosInFront(s: bytes, n: nat)
    ensures FromBytes(seq(n, _ => 0) + s) == FromBytes(s)
    decreases |s|, n
  {
    var t := seq(n, _ => 0) + s;
    if s != [] {
      assert t[..|t| - 1] == seq(n, _ => 0) + s[..|s| - 1];
      ZerosInFront(s[..|s| - 1], n);
    } else if n > 0 {
      assert t[..n - 1] == seq(n - 1, _ => 0) + s;
      ZerosInFront(s, n - 1);
    }
  }

  /** Two frames of one direction share a nonce exactly when both come after the counter has saturated. */
  lemma NonceReuse(i: nat, j: nat)
    requires i < j
    ensures BuildNonce(CounterOf(i)) == BuildNonce(CounterOf(j)) <==> i >= U64_MAX
  {
    NonceRecovers(CounterOf(i));
    NonceRecovers(CounterOf(j));
  }

  // ---------------------------------------------------------------- frames

  function Frame(a: Aead, key: bytes, i: nat, p: bytes): (f: bytes) {
    var c := a.seal(key, BuildNonce(CounterOf(i)), p);
    PutU16(|c|) + c
  }

  /** The frames of `log`, the first of them being number `i` of its direction. */
  function Frames(a: Aead, key: bytes, i: nat, log: seq<bytes>): (s: bytes)
    decreases |log|
  {
    if log == [] then [] else Frame(a, key, i, log[0]) + Frames(a, key, i + 1, log[1..])
  }

  /** What a chunk handed to `seal` may be: the writer cuts at the frame limit and never seals nothing. */
  predicate Sealable(p: bytes) {
    1 <= |p| <= MAX_FRAME_PLAIN
  }

  predicate AllSealable(log: seq<bytes>) {
    forall i :: 0 <= i < |log| ==> Sealable(log[i])
  }

  lemma {:induction false} FramesAppend(a: Aead, key: bytes, i: nat, log: seq<bytes>, p: bytes)
    ensures Frames(a, key, i, log + [p]) == Frames(a, key, i, log) + Frame(a, key, i + |log|, p)
    decreases |log|
  {
    hide Frame;
    if log == [] {
      assert log + [p] == [p] && Frames(a, key, i + 1, [p][1..]) == [];
    } else {
      assert (log + [p])[1..] == log[1..] + [p];
      FramesAppend(a, key, i + 1, log[1..], p);
    }
  }

  /** The length field loses nothing to the u16 cast and passes the reader's bound check. */
  lemma FrameLength(a: Aead, key: bytes, i: nat, p: bytes)
    requires Lawful(a) && 1 <= |p| <= 16_384
    ensures var f := Frame(a, key, i, p);
            && |f| == 2 + U16([f[0], f[1]])
            && 17 <= U16([f[0], f[1]]) <= MAX_FRAME_CIPHER == 16_400
            && f[2..] == a.seal(key, BuildNonce(CounterOf(i)), p)
  {
    hide U16, PutU16, BuildNonce;
    var c := a.seal(key, BuildNonce(CounterOf(i)), p);
    assert |c| == |p| + 16;
    assert (PutU16(|c|) + c)[2..] == c;
  }

  // ---------------------------------------------------------------- what a wire says

  datatype Stop = More | BadLength | BadTag

  /** A wire read in one piece: its plaintext, why it ends there, and how many bytes are left over. */
  datatype Opened = Opened(plain: bytes, stop: Stop, left: nat)

  function OpenAll(a: Aead, key: bytes, counter: nat, s: bytes): (o: Opened)
    requires counter <= U64_MAX
    decreases |s|
  {
    if |s| < 2 then Opened([], More, |s|)
    else
      var len := U16([s[0], s[1]]);
      if len == 0 || len > MAX_FRAME_CIPHER then Opened([], BadLength, |s|)
      else if |s| < 2 + len then Opened([], More, |s|)
      else
        match a.open(key, BuildNonce(counter), s[2..2 + len])
        case None => Opened([], BadTag, |s|)
        case Some(p) =>
          var o := OpenAll(a, key, Bump(counter), s[2 + len..]);
          o.(plain := p + o.plain)
  }

  lemma OpenFrame(a: Aead, key: bytes, i: nat, p: bytes, rest: bytes)
    requires Lawful(a) && Sealable(p)
    ensures var o := OpenAll(a, key, CounterOf(i + 1), rest);
            OpenAll(a, key, CounterOf(i), Frame(a, key, i, p) + rest) == o.(plain := p + o.plain)
  {
    var f := Frame(a, key, i, p);
    FrameLength(a, key, i, p);
    var s := f + rest;
    assert s[2..|f|] == f[2..] && s[|f|..] == rest;
    assert s[0] == f[0] && s[1] == f[1];
    var c := a.seal(key, BuildNonce(CounterOf(i)), p);
    assert a.open(key, BuildNonce(CounterOf(i)), c) == Some(p);
  }

  /** Reading back what was written returns exactly the sealed chunks, and leaves nothing over. */
  lemma {:induction false} RoundTrip(a: Aead, key: bytes, i: nat, log: seq<bytes>)
    requires Lawful(a) && AllSealable(log)
    ensures OpenAll(a, key, CounterOf(i), Frames(a, key, i, log)) == Opened(Concat(log), More, 0)
    decreases |log|
  {
    if log != [] {
      RoundTrip(a, key, i + 1, log[1..]);
      OpenFrame(a, key, i, log[0], Frames(a, key, i + 1, log[1..]));
    }
  }

  /** The same with anything behind the frames: reading goes on there, under the next counter. */
  lemma {:induction false} OpensThenGoesOn(a: Aead, key: bytes, i: nat, log: seq<bytes>, rest: bytes)
    requires Lawful(a) && AllSealable(log)
    ensures var o := OpenAll(a, key, CounterOf(i + |log|), rest);
            OpenAll(a, key, CounterOf(i), Frames(a, key, i, log) + rest) == o.(plain := Concat(log) + o.plain)
    decreases |log|
  {
    hide OpenAll, Frame, CounterOf;
    var o := OpenAll(a, key, CounterOf(i + |log|), rest);
    if log == [] {
      assert Frames(a, key, i, log) + rest == rest && Concat(log) + o.plain == o.plain;
    } else {
      var tail := Frames(a, key, i + 1, log[1..]);
      OpensThenGoesOn(a, key, i + 1, log[1..], rest);
      Regroup(Frame(a, key, i, log[0]), tail, rest);
      Regroup(log[0], Concat(log[1..]), o.plain);
      OpenFrame(a, key, i, log[0], tail + rest);
    }
  }

  /**
   A frame that cannot be, of no length or of more than 16400 bytes, or whose tag does not fit, ends the
   reading: all that was sealed before it is delivered, nothing of it and nothing behind it.
   */
  lemma BadFrameEndsIt(a: Aead, key: bytes, log: seq<bytes>, bad: bytes)
    requires Lawful(a) && AllSealable(log) && |bad| >= 2
    ensures var len, o := 0x100 * (bad[0] as nat) + bad[1], OpenAll(a, key, 0, Frames(a, key, 0, log) + bad);
            && (len == 0 || len > 16_400 ==> o == Opened(Concat(log), BadLength, |bad|))
            && (1 <= len <= 16_400 && |bad| >= 2 + len && a.open(key, BuildNonce(CounterOf(|log|)), bad[2..2 + len]).None? ==>
                  o == Opened(Concat(log), BadTag, |bad|))
  {
    hide OpenAll, Frames, Concat, BuildNonce;
    OpensThenGoesOn(a, key, 0, log, bad);
    BadFront(a, key, CounterOf(|log|), bad);
    Regroup(Concat(log), [], []);
  }

  lemma BadFront(a: Aead, key: bytes, counter: nat, bad: bytes)
    requires counter <= U64_MAX && |bad| >= 2
    ensures var len, o := 0x100 * (bad[0] as nat) + bad[1], OpenAll(a, key, counter, bad);
            && (len == 0 || len > 16_400 ==> o == Opened([], BadLength, |bad|))
            && (1 <= len <= 16_400 && |bad| >= 2 + len && a.open(key, BuildNonce(counter), bad[2..2 + len]).None? ==>
                  o == Opened([], BadTag, |bad|))
  {
    hide BuildNonce;
  }

  /**
   On any prefix of such a wire the reader has the plaintext of the first `k` chunks, where those
   `k` frames and what is left over make up the prefix, and it has no complaint.
   */
  lemma {:induction false} PrefixOpens(a: Aead, key: bytes, i: nat, log: seq<bytes>, s: bytes) returns (k: nat)
    requires Lawful(a) && AllSealable(log)
    requires Prefix(s, Frames(a, key, i, log))
    ensures var o := OpenAll(a, key, CounterOf(i), s);
            && o.stop == More
            && k <= |log| && o.plain == Concat(log[..k])
            && |s| == |Frames(a, key, i, log[..k])| + o.left
            && Prefix(o.plain, Concat(log))
    decreases |log|
  {
    hide BuildNonce, PutU16, U16;
    k := 0;
    if log != [] {
      var f, tail := Frame(a, key, i, log[0]), Frames(a, key, i + 1, log[1..]);
      FrameLength(a, key, i, log[0]);
      if |s| < |f| {
        assert |s| >= 2 ==> s[0] == (f + tail)[0] && s[1] == (f + tail)[1];
      } else {
        var rest := s[|f|..];
        assert s == f + rest by {
          assert s[..|f|] == (f + tail)[..|s|][..|f|] == f;
        }
        assert rest == tail[..|rest|] by {
          assert rest == (f + tail)[|f|..|s|];
        }
        k := PrefixOpens(a, key, i + 1, log[1..], rest);
        OpenFrame(a, key, i, log[0], rest);
        k := k + 1;
        assert log[..k][1..] == log[1..][..k - 1];
      }
    }
    ConcatSplit(log, k);
  }

  /** What reaches a peer of such a wire opens to a prefix of what was sealed, and to all of it if all of it does. */
  lemma PeerOpens(a: Aead, key: bytes, log: seq<bytes>, came: bytes)
    requires Lawful(a) && AllSealable(log) && Prefix(came, Frames(a, key, 0, log))
    ensures var o := OpenAll(a, key, 0, came); o.stop == More && Prefix(o.plain, Concat(log))
    ensures came == Frames(a, key, 0, log) ==> OpenAll(a, key, 0, came) == Opened(Concat(log), More, 0)
  {
    hide Frames, OpenAll, Concat;
    var k := PrefixOpens(a, key, 0, log, came);
    if came == Frames(a, key, 0, log) {
      RoundTrip(a, key, 0, log);
    }
  }

  // ---------------------------------------------------------------- the stream

  /** One direction's cipher and its frame counter. */
  class DirectionCipher {
    const aead: Aead
    const key: bytes
    var nonce: nat

    ghost predicate Valid()
      reads this
    {
      nonce <= U64_MAX
    }

    constructor (aead: Aead, key: bytes)
      ensures Valid() && this.aead == aead && this.key == key && nonce == 0
    {
      this.aead, this.key, this.nonce := aead, key, 0;
    }

    method Seal(plaintext: bytes) returns (c: bytes)
      requires Valid()
      modifies this
      ensures Valid() && nonce == Bump(old(nonce))
      ensures c == aead.seal(key, BuildNonce(old(nonce)), plaintext)
    {
      var n := BuildNonce(nonce);
      nonce := Bump(nonce);
      c := aead.seal(key, n, plaintext);
    }

    method Open(ciphertext: bytes) returns (p: Option<bytes>)
      requires Valid()
      modifies this
      ensures Valid() && nonce == Bump(old(nonce))
      ensures p == aead.open(key, BuildNonce(old(nonce)), ciphertext)
    {
      var n := BuildNonce(nonce);
      nonce := Bump(nonce);
      p := aead.open(key, n, ciphertext);
    }
  }

  /**
   Both halves of an encrypted relay stream. `Outlook` is what the reader will still deliver from
   the bytes it holds and the bytes on their way; every poll takes its result off the front of it.
   `log` is every chunk ever sealed; the wire and the unwritten rest always spell its frames.
   */
  class EncryptedStream {
    const input: PrefixedStream
    const output: WriteHalf
    const encrypt: DirectionCipher
    const decrypt: DirectionCipher

    var readBuf: bytes
    var pendingPlain: bytes
    var headerBuf: bytes
    var headerFilled: nat
    var frameLen: Option<nat>
    var frameFilled: nat
    var frameBuf: bytes

    var writePending: bytes
    ghost const base: bytes        // what the sink held before this stream
    ghost var log: seq<bytes>      // every chunk sealed
    ghost var accepted: bytes      // every byte reported as written

    ghost predicate ReadValid()
      reads this`headerFilled, this`frameLen, this`frameFilled, this`frameBuf
      reads this`headerBuf, decrypt, input
      ensures ReadValid() ==> input.Valid()
    {
      && input.Valid() && decrypt.Valid() && encrypt != decrypt
      && |headerBuf| == 2 && headerFilled < 2
      && match frameLen
         case None => true
         case Some(len) =>
           && headerFilled == 0 && len == U16([headerBuf[0], headerBuf[1]])
           && 1 <= len <= MAX_FRAME_CIPHER && |frameBuf| == len && frameFilled < len
    }

    /** The bytes of an unfinished frame that have been taken off the wire. */
    ghost function Partial(): (s: bytes)
      requires ReadValid()
      reads this`headerFilled, this`frameLen, this`frameFilled, this`frameBuf
      reads this`headerBuf, decrypt, input
    {
      match frameLen
      case None => headerBuf[..headerFilled]
      case Some(_) => headerBuf + frameBuf[..frameFilled]
    }

    /** What the decoder has still to decode: those bytes, then the bytes on their way. */
    ghost function Ahead(): (s: bytes)
      requires ReadValid()
      reads this`headerFilled, this`frameLen, this`frameFilled, this`frameBuf
      reads this`headerBuf, decrypt, input, input.inner
    {
      Partial() + input.Rest()
    }

    ghost function Outlook(): (o: Opened)
      requires ReadValid()
      reads this`readBuf, this`pendingPlain, this`headerFilled, this`frameLen, this`frameFilled, this`frameBuf
      reads this`headerBuf, decrypt, input, input.inner
    {
      var o := OpenAll(decrypt.aead, decrypt.key, decrypt.nonce, Ahead());
      o.(plain := pendingPlain + readBuf + o.plain)
    }

    ghost predicate WriteValid()
      reads this`writePending, this`log, this`accepted, encrypt, output
    {
      && encrypt.Valid() && encrypt.nonce == CounterOf(|log|) && encrypt != decrypt
      && AllSealable(log) && |base| <= |output.wire|
      && output.wire + writePending == base + Frames(encrypt.aead, encrypt.key, 0, log)
      && |accepted| <= |Concat(log)|
      && (|accepted| == |Concat(log)| ==> accepted == Concat(log))
    }

    constructor (input: PrefixedStream, output: WriteHalf, encrypt: DirectionCipher, decrypt: DirectionCipher)
      requires input.Valid() && encrypt != decrypt
      requires encrypt.Valid() && encrypt.nonce == 0 && decrypt.Valid()
      ensures this.input == input && this.output == output
      ensures this.encrypt == encrypt && this.decrypt == decrypt
      ensures ReadValid() && WriteValid()
      ensures Outlook() == OpenAll(decrypt.aead, decrypt.key, decrypt.nonce, input.Rest())
      ensures base == output.wire && log == [] && accepted == [] && writePending == []
    {
      this.input, this.output, this.encrypt, this.decrypt := input, output, encrypt, decrypt;
      readBuf, pendingPlain, headerFilled, frameLen, frameFilled, frameBuf := [], [], 0, None, 0, [];
      headerBuf := [0, 0];
      writePending, log, accepted := [], [], [];
      base := output.wire;
      new;
      assert Partial() + input.Rest() == input.Rest();
    }

    /** Reads one byte of the header. */
    method ReadHeaderByte() returns (stop: Option<ReadPoll>)
      requires input.Valid() && headerFilled < 2 == |headerBuf|
      modifies this`headerFilled, this`headerBuf, input, input.inner
      ensures input.Valid() && headerFilled <= 2 == |headerBuf|
      ensures headerFilled == old(headerFilled) + if stop.None? then 1 else 0
      ensures headerBuf[..headerFilled] + input.Rest() == old(headerBuf[..headerFilled] + input.Rest())
      ensures input.Size() <= old(input.Size())
      ensures stop.Some? ==> match stop.value
                             case ReadPending => true
                             case ReadError(kind) => kind == Io || (kind == UnexpectedEof && headerFilled == 1 && input.Rest() == [])
                             case ReadReady(data) => data == [] && headerFilled == 0 && input.Rest() == []
      ensures stop.Some? ==> Progressed(stop.value, old(input.Size()), input.Size())
      ensures stop == Some(ReadPending) && old(input.Size()) == 0 ==> input.Rest() == []
      ensures old(input.Failures()) == input.Failures() + if stop.Some? then Reported(stop.value) else 0
    {
      hide Arriving, ScriptSize, ReadStep, PrefixedStream.View, PrefixedStream.Rest, PrefixedStream.Size;
      hide PrefixedStream.Failures;
      ghost var have, rest := headerBuf[..headerFilled], input.Rest();
      var poll := input.PollRead(1);
      assert rest == Got(poll) + input.Rest();
      if !poll.ReadReady? {
        return Some(poll);
      }
      if poll.data == [] {
        return Some(if headerFilled > 0 then ReadError(UnexpectedEof) else ReadReady([]));
      }
      headerBuf := headerBuf[headerFilled := poll.data[0]];
      headerFilled := headerFilled + 1;
      assert headerBuf[..headerFilled] == have + poll.data;
      assert have + (poll.data + input.Rest()) == (have + poll.data) + input.Rest();
      stop := None;
    }

    /** Reads the length bytes that are missing, one at a time. `None` means the header is complete. */
    method ReadHeaderBytes() returns (stop: Option<ReadPoll>)
      requires ReadValid() && frameLen.None?
      modifies this`headerFilled, this`headerBuf, input, input.inner
      ensures input.Valid() && headerFilled <= 2 == |headerBuf|
      ensures stop.None? <==> headerFilled == 2
      ensures headerBuf[..headerFilled] + input.Rest() == old(Ahead())
      ensures input.Size() <= old(input.Size())
      ensures stop.Some? ==> match stop.value
                             case ReadPending => true
                             case ReadError(kind) => kind == Io || (kind == UnexpectedEof && |old(Ahead())| == 1)
                             case ReadReady(data) => data == [] && old(Ahead()) == []
      ensures stop.Some? ==> Progressed(stop.value, old(input.Size()), input.Size())
      ensures stop == Some(ReadPending) && old(input.Size()) == 0 ==> |old(Ahead())| < 2
      ensures old(input.Failures()) == input.Failures() + if stop.Some? then Reported(stop.value) else 0
    {
      hide Arriving, ScriptSize, ReadStep, PrefixedStream.View, PrefixedStream.Rest, PrefixedStream.Size;
      hide PrefixedStream.Failures;
      while headerFilled < 2
        invariant input.Valid() && headerFilled <= 2 == |headerBuf|
        invariant headerBuf[..headerFilled] + input.Rest() == old(Ahead())
        invariant input.Size() <= old(input.Size()) && input.Failures() == old(input.Failures())
        decreases 2 - headerFilled
      {
        stop := ReadHeaderByte();
        if stop.Some? {
          return;
        }
      }
      stop := None;
    }

    /** Completes the header and checks the length it announces. */
    method FillHeader() returns (stop: Option<ReadPoll>)
      requires ReadValid() && frameLen.None? && readBuf == [] && pendingPlain == []
      modifies this`headerFilled, this`frameLen, this`frameFilled, this`frameBuf, this`headerBuf, input, input.inner
      ensures ReadValid()
      ensures input.Size() <= old(input.Size())
      ensures stop.None? ==> frameLen.Some? && Ahead() == old(Ahead())
      ensures stop.Some? ==> Stopped(stop.value, old(Outlook()), Outlook())
      ensures stop.Some? ==> Progressed(stop.value, old(input.Size()), input.Size())
      ensures stop == Some(ReadPending) && old(input.Size()) == 0 ==> old(Outlook()).plain == [] && old(Outlook()).stop == More
      ensures old(input.Failures()) == input.Failures() + if stop.Some? then Reported(stop.value) else 0
    {
      hide Arriving, ScriptSize, ReadStep, U16, BuildNonce, OpenAll, PrefixedStream.View, PrefixedStream.Rest;
      hide PrefixedStream.Size, PrefixedStream.Failures;
      hide Stopped, EncryptedStream.Outlook;
      ghost var ahead, before := Ahead(), Outlook();
      NoFrame(decrypt.aead, decrypt.key, decrypt.nonce, ahead);
      NothingHeld(this);
      stop := ReadHeaderBytes();
      if stop.Some? {
        assert Ahead() == ahead;
        NothingHeld(this);
        HeaderStopped(stop.value, before);
        return;
      }
      assert ahead[0] == headerBuf[0] && ahead[1] == headerBuf[1];
      var len := U16([headerBuf[0], headerBuf[1]]);
      headerFilled := 0;
      if len == 0 || len > MAX_FRAME_CIPHER {
        BadHeaderStops(before, Outlook());
        return Some(ReadError(InvalidData));
      }
      frameLen, frameBuf, frameFilled := Some(len), seq(len, _ => 0), 0;
      assert Partial() == headerBuf[..2];
    }

    /** One read into the frame body, of at most 1024 bytes. `None` means the body is complete. */
    method FillBody() returns (stop: Option<ReadPoll>)
      requires ReadValid() && frameLen.Some?
      modifies this`frameFilled, this`frameBuf, input, input.inner
      ensures input.Valid() && frameFilled <= |frameBuf| == frameLen.value
      ensures headerBuf + frameBuf[..frameFilled] + input.Rest() == old(Ahead())
      ensures stop.None? ==> frameFilled == |frameBuf| && input.Size() < old(input.Size())
      ensures stop.Some? ==> frameFilled < |frameBuf|
                             && match stop.value
                                case ReadPending => true
                                case ReadError(kind) => kind == Io || (kind == UnexpectedEof && input.Rest() == [] && frameFilled > 0)
                                case ReadReady(data) => data == [] && input.Rest() == [] && frameFilled == 0
      ensures stop.Some? ==> Progressed(stop.value, old(input.Size()), input.Size())
      ensures stop == Some(ReadPending) && old(input.Size()) == 0 ==> input.Rest() == []
      ensures old(input.Failures()) == input.Failures() + if stop.Some? then Reported(stop.value) else 0
    {
      hide Arriving, ScriptSize, ReadStep, U16, BuildNonce, OpenAll, PrefixedStream.View, PrefixedStream.Rest;
      hide PrefixedStream.Size, PrefixedStream.Failures;
      ghost var rest := input.Rest();
      var have := frameBuf[..frameFilled];
      var needed := frameLen.value;
      var poll := input.PollRead(Min(needed - frameFilled, 1024));
      if poll.ReadReady? {
        var n := |poll.data|;
        if n == 0 {
          return Some(if frameFilled > 0 then ReadError(UnexpectedEof) else ReadReady([]));
        }
        frameBuf := have + poll.data + frameBuf[frameFilled + n..];
        frameFilled := frameFilled + n;
        assert frameBuf[..frameFilled] == have + poll.data;
        assert headerBuf + (have + poll.data) + input.Rest() == headerBuf + have + rest;
        return if frameFilled < needed then Some(ReadPending) else None;
      }
      return Some(poll);
    }

    /** Takes the complete body and decrypts it. */
    method OpenBody() returns (ok: bool)
      requires input.Valid() && decrypt.Valid() && encrypt != decrypt && |headerBuf| == 2 && headerFilled == 0
      requires frameFilled == |frameBuf| == U16([headerBuf[0], headerBuf[1]]) && 1 <= |frameBuf| <= MAX_FRAME_CIPHER
      modifies this`readBuf, this`frameLen, this`frameFilled, this`frameBuf, decrypt
      ensures ReadValid() && input.Size() == old(input.Size()) && input.Failures() == old(input.Failures())
      ensures var before := old(OpenAll(decrypt.aead, decrypt.key, decrypt.nonce, headerBuf + frameBuf + input.Rest()));
              if ok then
                var after := OpenAll(decrypt.aead, decrypt.key, decrypt.nonce, Ahead());
                before == after.(plain := readBuf + after.plain)
              else before.plain == [] && before.stop == BadTag
    {
      hide Arriving, ScriptSize, ReadStep, U16, BuildNonce, OpenAll, PrefixedStream.View, PrefixedStream.Rest;
      hide PrefixedStream.Size, PrefixedStream.Failures;
      ghost var ahead := headerBuf + frameBuf + input.Rest();
      assert ahead[..2] == headerBuf;
      WholeFrame(decrypt.aead, decrypt.key, decrypt.nonce, ahead, frameBuf, input.Rest());
      var ciphertext := frameBuf;
      frameBuf, frameLen, frameFilled := [], None, 0;
      var plain := decrypt.Open(ciphertext);
      ok := plain.Some?;
      if ok {
        readBuf := plain.value;
        assert Ahead() == input.Rest();
      }
    }

    /** Reads on until a whole frame is held, then opens it. `None` means its plaintext is in `readBuf`. */
    method NextFrame() returns (stop: Option<ReadPoll>)
      requires ReadValid() && readBuf == [] && pendingPlain == []
      modifies this`readBuf, this`headerFilled, this`frameLen, this`frameFilled, this`frameBuf
      modifies this`headerBuf, decrypt, input, input.inner
      ensures ReadValid()
      ensures stop.None? ==> Outlook() == old(Outlook()) && input.Size() < old(input.Size())
      ensures stop.Some? ==> Stopped(stop.value, old(Outlook()), Outlook())
      ensures stop.Some? ==> Progressed(stop.value, old(input.Size()), input.Size())
      ensures stop == Some(ReadPending) && old(input.Size()) == 0 ==> old(Outlook()).plain == [] && old(Outlook()).stop == More
      ensures old(input.Failures()) == input.Failures() + if stop.Some? then Reported(stop.value) else 0
    {
      hide Arriving, ScriptSize, ReadStep, U16, BuildNonce, OpenAll, PrefixedStream.View, PrefixedStream.Rest;
      hide PrefixedStream.Size, PrefixedStream.Failures;
      hide Stopped, EncryptedStream.Outlook;
      ghost var before := Outlook();
      NothingHeld(this);
      if frameLen.None? {
        stop := FillHeader();
        if stop.Some? {
          return;
        }
      }
      ghost var ahead := Ahead();
      NothingHeld(this);
      stop := FillBody();
      if stop.Some? {
        ShortFrame(decrypt.aead, decrypt.key, decrypt.nonce, Partial());
        assert Ahead() == ahead && (input.Rest() == [] ==> Ahead() == Partial());
        NothingHeld(this);
        BodyStopped(stop.value, before);
        return;
      }
      assert frameBuf[..frameFilled] == frameBuf;
      var ok := OpenBody();
      if !ok {
        BadHeaderStops(before, Outlook());
        return Some(ReadError(InvalidData));
      }
      BodyHeld(this);
      stop := None;
    }

    /** Copies decrypted bytes out, as many as there is room for. */
    method HandOut(max: nat) returns (data: bytes)
      requires ReadValid() && max > 0 && (pendingPlain != [] || readBuf != [])
      modifies this`readBuf, this`pendingPlain
      ensures ReadValid() && data != [] && |data| <= max
      ensures old(Outlook()) == Outlook().(plain := data + Outlook().plain)
    {
      hide OpenAll, U16, EncryptedStream.Ahead;
      ghost var coming := OpenAll(decrypt.aead, decrypt.key, decrypt.nonce, Ahead()).plain;
      if pendingPlain != [] {
        var n := Min(|pendingPlain|, max);
        data := pendingPlain[..n];
        assert pendingPlain + readBuf + coming == data + (pendingPlain[n..] + readBuf + coming);
        pendingPlain := pendingPlain[n..];
      } else {
        var n := Min(|readBuf|, max);
        data := readBuf[..n];
        assert pendingPlain + readBuf + coming == data + (pendingPlain + readBuf[n..] + coming);
        readBuf := readBuf[n..];
      }
      assert coming == OpenAll(decrypt.aead, decrypt.key, decrypt.nonce, Ahead()).plain;
    }

    /**
     Delivers decrypted bytes in wire order; see `Delivers`. Every failure of the stream below is
     reported, and a reader with room is kept waiting only while the stream below has more to do.
     */
    method PollRead(max: nat) returns (r: ReadPoll)
      requires ReadValid()
      modifies this`readBuf, this`pendingPlain, this`headerFilled, this`frameLen, this`frameFilled, this`frameBuf
      modifies this`headerBuf, decrypt, input, input.inner
      ensures ReadValid()
      ensures Delivers(r, max, old(Outlook()), Outlook())
      ensures max > 0 ==> Progressed(r, old(input.Size()), input.Size())
      ensures r.ReadPending? && max > 0 && old(input.Size()) == 0 ==> old(Outlook()).plain == [] && old(Outlook()).stop == More
      ensures old(input.Failures()) == input.Failures() + Reported(r)
    {
      hide Arriving, ScriptSize, ReadStep, U16, BuildNonce, OpenAll, PrefixedStream.View, PrefixedStream.Rest;
      hide PrefixedStream.Size, PrefixedStream.Failures, EncryptedStream.Outlook, EncryptedStream.ReadValid;
      ghost var before := Outlook();
      while pendingPlain == [] && readBuf == []
        invariant ReadValid() && Outlook() == before
        invariant input.Size() <= old(input.Size()) && input.Failures() == old(input.Failures())
        decreases input.Size()
      {
        var stop := NextFrame();
        if stop.Some? {
          return stop.value;
        }
      }
      if max == 0 {
        return ReadPending;
      }
      var data := HandOut(max);
      r := ReadReady(data);
    }

    /** Writes out what is pending: one attempt, and a short write counts as blocked. */
    method DrainWritePending() returns (r: DrainPoll)
      requires WriteValid()
      modifies this`writePending, output
      ensures WriteValid() && log == old(log) && accepted == old(accepted)
      ensures r == DrainStep(|old(writePending)|, old(output.script))
      ensures r.Drained? <==> writePending == []
      ensures writePending == old(writePending)[DrainTaken(|old(writePending)|, old(output.script))..]
      ensures output.script == AfterDrain(|old(writePending)|, old(output.script))
    {
      hide Frames, Concat;
      if writePending == [] {
        return Drained;
      }
      ghost var spelled := output.wire + writePending;
      var poll := output.PollWrite(writePending);
      if !poll.Wrote? {
        return if poll.WriteError? then DrainError(poll.kind) else DrainPending;
      }
      if poll.n == 0 {
        return DrainError(ErrorKind.WriteZero);
      }
      assert output.wire + writePending[poll.n..] == spelled;
      writePending := writePending[poll.n..];
      return if writePending == [] then Drained else DrainPending;
    }

    /** Seals one chunk into the pending buffer. */
    method SealChunk(chunk: bytes)
      requires WriteValid() && writePending == [] && Sealable(chunk)
      requires Lawful(encrypt.aead)
      modifies this`writePending, this`log, encrypt
      ensures WriteValid() && log == old(log) + [chunk] && |writePending| == |chunk| + 18
    {
      hide Frames, BuildNonce, PutU16, U16, Bump;
      FrameLength(encrypt.aead, encrypt.key, |log|, chunk);
      FramesAppend(encrypt.aead, encrypt.key, 0, log, chunk);
      ConcatAppend(log, chunk);
      ghost var i, before := |log|, Frames(encrypt.aead, encrypt.key, 0, log);
      assert output.wire == base + before by {
        assert output.wire + [] == output.wire;
      }
      var ciphertext := encrypt.Seal(chunk);
      writePending := PutU16(|ciphertext|) + ciphertext;
      log := log + [chunk];
      assert writePending == Frame(encrypt.aead, encrypt.key, i, chunk);
      assert output.wire + writePending == base + (before + writePending);
    }

    /**
     Writes at most one frame. A chunk is reported as written only when its whole frame is on the
     wire; but a chunk whose frame is blocked stays sealed and is reported as not written.
     */
    method PollWrite(buf: bytes) returns (r: WritePoll)
      requires WriteValid() && Lawful(encrypt.aead)
      modifies this`writePending, this`log, this`accepted, encrypt, output
      ensures WriteValid()
      ensures r.Wrote? ==> r.n == |Chunk0(buf)| && accepted == old(accepted) + buf[..r.n] && writePending == []
      ensures !r.Wrote? ==> accepted == old(accepted)
      ensures log == old(log) + Sealed(buf, |old(writePending)|, old(output.script))
      ensures r == WritePollStep(|buf|, |old(writePending)|, old(output.script))
      ensures output.script == ScriptAfterWrite(|buf|, |old(writePending)|, old(output.script))
      ensures |writePending| == PendingAfterWrite(|buf|, |old(writePending)|, old(output.script))
    {
      hide Frames, BuildNonce;
      var drained := DrainWritePending();
      if !drained.Drained? {
        return AsWritePoll(drained);
      }
      if buf == [] {
        assert accepted == accepted + buf[..0];
        return Wrote(0);
      }
      var n := Min(|buf|, MAX_FRAME_PLAIN);
      var chunk := buf[..n];
      ConcatAppend(log, chunk);
      SealChunk(chunk);
      drained := DrainWritePending();
      if drained.Drained? {
        accepted := accepted + chunk;
        return Wrote(n);
      }
      return AsWritePoll(drained);
    }

    method PollFlush() returns (r: DrainPoll)
      requires WriteValid()
      modifies this`writePending, output
      ensures WriteValid() && log == old(log) && accepted == old(accepted)
      ensures (r, output.script) == FlushStep(|old(writePending)|, old(output.script))
      ensures writePending == old(writePending)[DrainTaken(|old(writePending)|, old(output.script))..]
      ensures r.Drained? ==> writePending == []
    {
      r := DrainWritePending();
      if r.Drained? {
        var poll := output.PollFlush();
        r := if poll.Wrote? then Drained else AsDrainPoll(poll);
      }
    }

    /** Flushes, polling again whenever the stream was blocked. */
    method Flush() returns (r: DrainPoll)
      requires WriteValid()
      modifies this`writePending, output
      ensures WriteValid() && log == old(log) && accepted == old(accepted)
      ensures (r, output.script) == FlushRun(|old(writePending)|, old(output.script))
      ensures r.Drained? ==> writePending == []
    {
      hide Frames, Concat, FlushRun, FlushStep, EncryptedStream.WriteValid;
      while true
        invariant WriteValid() && log == old(log) && accepted == old(accepted)
        invariant FlushRun(|old(writePending)|, old(output.script)) == FlushRun(|writePending|, output.script)
        decreases |output.script|
      {
        FlushRunStep(|writePending|, output.script);
        var waiting := output.script == [];
        r := PollFlush();
        if !r.DrainPending? || waiting {
          return;
        }
      }
    }

    /**
     Writes all of `buf`, polling again whenever the stream was blocked. From a drained stream the
     peer is sent exactly `buf`, once, precisely when the sink takes every frame in one go; a frame
     that is blocked or cut short is sealed again when the write is retried.
     */
    method WriteAll(buf: bytes) returns (r: DrainPoll)
      requires WriteValid() && Lawful(encrypt.aead)
      modifies this`writePending, this`log, this`accepted, encrypt, output
      ensures WriteValid()
      ensures r.Drained? ==> accepted == old(accepted) + buf
      ensures r.DrainPending? ==> output.script == []
      ensures old(writePending) == [] ==>
                && (r.Drained? && Concat(log) == old(Concat(log)) + buf <==> TakesFrames(old(output.script), |buf|))
                && (TakesFrames(old(output.script), |buf|) ==> output.script == AfterFrames(old(output.script), |buf|))
                && (r.Drained? ==> writePending == [])
                && (r.Drained? && !TakesFrames(old(output.script), |buf|) ==> |Concat(log)| > |old(Concat(log))| + |buf|)
                && (SealsOnce(old(output.script), |buf|) ==> Prefix(Concat(log), old(Concat(log)) + buf))
    {
      hide Frames, BuildNonce, WriteStep, WritePollStep, Sealed, ScriptAfterWrite, PendingAfterWrite, TakesAll;
      hide TakesFrames, TakesFrame, AfterFrames, SealsOnce, Concat, EncryptedStream.WriteValid, Chunk0, Tracks, SealedOnce;
      var off: nat := 0;
      ghost var sent, clean, script := Concat(log), writePending == [], output.script;
      Departing(buf, sent, script);
      while off < |buf|
        invariant WriteValid() && off <= |buf| && accepted == old(accepted) + buf[..off]
        invariant off == |buf| && clean ==> writePending == []
        invariant |Concat(log)| >= |sent| + off
        invariant clean ==> Tracks(buf, off, sent, Concat(log), |writePending|, script, output.script)
        invariant clean && SealsOnce(script, |buf|) ==> SealedOnce(buf, off, sent, Concat(log), |writePending|, output.script)
        decreases |output.script|, |buf| - off
      {
        WriteStepFacts(buf[off..], |writePending|, output.script);
        TracksStep(buf, off, sent, Concat(log), |writePending|, script, output.script);
        if clean && SealsOnce(script, |buf|) {
          SealedOnceStep(buf, off, sent, Concat(log), |writePending|, output.script);
        }
        ConcatSealed(log, buf[off..], |writePending|, output.script);
        ChunkSlides(buf, off);
        var waiting := output.script == [];
        var poll := PollWrite(buf[off..]);
        if poll.Wrote? {
          off := off + poll.n;
        } else if poll.WriteError? || waiting {
          return AsDrainPoll(poll);
        }
      }
      assert buf[..off] == buf;
      NoFrames(output.script);
      if clean {
        Arrived(buf, sent, Concat(log), script, output.script);
      }
      r := Drained;
    }
  }

  // ---------------------------------------------------------------- one write, as a function of what the sink will accept

  /** The sink takes the frames of `n` bytes one by one, each in one go. */
  predicate TakesFrames(script: WriteScript, n: nat)
    decreases n
  {
    n == 0 || (TakesFrame(script, Min(n, MAX_FRAME_PLAIN)) && TakesFrames(script[1..], n - Min(n, MAX_FRAME_PLAIN)))
  }

  /** The script once it has taken them. */
  function AfterFrames(script: WriteScript, n: nat): (rest: WriteScript)
    decreases n
  {
    if n == 0 || script == [] then script else AfterFrames(script[1..], n - Min(n, MAX_FRAME_PLAIN))
  }

  /**
   None of the frames of `n` bytes is sealed twice: each is taken in one go, or the sink fails over it,
   or never takes the rest of it, so that the write is not retried with a drained stream.
   */
  predicate SealsOnce(script: WriteScript, n: nat)
    decreases n
  {
    n == 0 ||
    var c := Min(n, MAX_FRAME_PLAIN);
    if TakesFrame(script, c) then SealsOnce(script[1..], n - c)
    else match DrainStep(c + 18, script)
      case DrainPending => !TakesAll(AfterDrain(c + 18, script), c + 18 - DrainTaken(c + 18, script))
      case _ => true
  }

  lemma NoFrames(script: WriteScript)
    ensures TakesFrames(script, 0) && AfterFrames(script, 0) == script && SealsOnce(script, 0)
  {
  }

  lemma ConcatSealed(log: seq<bytes>, buf: bytes, pending: nat, script: WriteScript)
    ensures Concat(log + Sealed(buf, pending, script)) == Concat(log) + Concat(Sealed(buf, pending, script))
    ensures Concat([Chunk0(buf)]) == Chunk0(buf)
  {
    ConcatChunk(Chunk0(buf));
    ConcatAppend(log, Chunk0(buf));
    hide Concat;
    assert log + [] == log && Concat(log) + [] == Concat(log);
  }

  lemma ChunkSlides(buf: bytes, off: nat)
    requires off <= |buf|
    ensures off + |Chunk0(buf[off..])| <= |buf| && buf[..off] + Chunk0(buf[off..]) == buf[..off + |Chunk0(buf[off..])|]
  {
  }

  /** One write of a non-empty buffer: what it seals, when it succeeds, and what it uses up of the script. */
  lemma WriteStepFacts(buf: bytes, pending: nat, script: WriteScript)
    requires buf != []
    ensures var n := |Chunk0(buf)|;
            var r := WritePollStep(|buf|, pending, script);
            && (r.Wrote? ==> r.n == n && Sealed(buf, pending, script) == [Chunk0(buf)] && PendingAfterWrite(|buf|, pending, script) == 0)
            && Sealed(buf, pending, script) in {[], [Chunk0(buf)]}
            && (script != [] ==> |ScriptAfterWrite(|buf|, pending, script)| < |script|)
            && (script == [] ==> ScriptAfterWrite(|buf|, pending, script) == [] && !r.Wrote?)
  {
  }

  /**
   How a write of `buf` from a drained stream stands after `off` bytes, `logged` being the text sealed
   and `script` what is left of `start`: all in one go so far, with the rest to be taken so exactly if
   all was to be; or some chunk has been sealed more often than it was accepted.
   */
  ghost predicate Tracks(buf: bytes, off: nat, sent: bytes, logged: bytes, pending: nat, start: WriteScript, script: WriteScript) {
    off <= |buf| &&
    if pending == 0 && logged == sent + buf[..off] then
      && (TakesFrames(start, |buf|) <==> TakesFrames(script, |buf| - off))
      && (TakesFrames(start, |buf|) ==> AfterFrames(start, |buf|) == AfterFrames(script, |buf| - off))
    else
      !TakesFrames(start, |buf|) && |logged| > |sent| + off
  }

  lemma Departing(buf: bytes, sent: bytes, script: WriteScript)
    ensures Tracks(buf, 0, sent, sent, 0, script, script)
    ensures SealsOnce(script, |buf|) ==> SealedOnce(buf, 0, sent, sent, 0, script)
    ensures Prefix(sent, sent + buf)
  {
    assert sent + buf[..0] == sent;
  }

  lemma Arrived(buf: bytes, sent: bytes, logged: bytes, start: WriteScript, script: WriteScript)
    requires Tracks(buf, |buf|, sent, logged, 0, start, script)
    ensures if TakesFrames(start, |buf|) then logged == sent + buf else |logged| > |sent| + |buf|
    ensures TakesFrames(start, |buf|) ==> script == AfterFrames(start, |buf|)
    ensures SealedOnce(buf, |buf|, sent, logged, 0, script) ==> Prefix(logged, sent + buf)
  {
    assert buf[..|buf|] == buf;
    NoFrames(script);
  }

  lemma TracksStep(buf: bytes, off: nat, sent: bytes, logged: bytes, pending: nat, start: WriteScript, script: WriteScript)
    requires off < |buf| && |logged| >= |sent| + off
    ensures var left := buf[off..];
            var r := WritePollStep(|left|, pending, script);
            var off' := if r.Wrote? then off + |Chunk0(left)| else off;
            Tracks(buf, off, sent, logged, pending, start, script) ==>
              && Tracks(buf, off', sent, logged + Concat(Sealed(left, pending, script)), PendingAfterWrite(|left|, pending, script),
                        start, ScriptAfterWrite(|left|, pending, script))
              && (!r.Wrote? ==> !TakesFrames(start, |buf|))
  {
    var left := buf[off..];
    hide Concat, TakesAll;
    ConcatChunk(Chunk0(left));
    assert buf[..off] + Chunk0(left) == buf[..off + |Chunk0(left)|];
    assert logged == sent + buf[..off] ==> logged + Chunk0(left) == sent + buf[..off + |Chunk0(left)|];
  }

  lemma ConcatChunk(chunk: bytes)
    ensures Concat([chunk]) == chunk && Concat([]) == []
  {
    assert Concat([chunk]) == chunk + Concat([]);
  }

  /** The same while nothing has been sealed twice. */
  ghost predicate SealedOnce(buf: bytes, off: nat, sent: bytes, logged: bytes, pending: nat, script: WriteScript) {
    off <= |buf| &&
    if pending == 0 then logged == sent + buf[..off] && SealsOnce(script, |buf| - off)
    else logged == sent + buf[..off] + Chunk0(buf[off..]) && !TakesAll(script, pending)
  }

  lemma SealedOnceStep(buf: bytes, off: nat, sent: bytes, logged: bytes, pending: nat, script: WriteScript)
    requires off < |buf| && SealedOnce(buf, off, sent, logged, pending, script)
    ensures var left := buf[off..];
            var r := WritePollStep(|left|, pending, script);
            var off' := if r.Wrote? then off + |Chunk0(left)| else off;
            var logged' := logged + Concat(Sealed(left, pending, script));
            && Prefix(logged', sent + buf)
            && (!r.WriteError? ==> SealedOnce(buf, off', sent, logged', PendingAfterWrite(|left|, pending, script),
                                                ScriptAfterWrite(|left|, pending, script)))
  {
    var left := buf[off..];
    hide Concat, TakesAll;
    ConcatChunk(Chunk0(left));
    assert buf[..off] + Chunk0(left) == buf[..off + |Chunk0(left)|];
    if pending > 0 {
      DrainKeeps(pending, script);
    }
  }

  /**
   A sink that stalls once: the write is answered as pending although its chunk is sealed already, and
   the retry, once the frame is out, seals the same chunk again.
   */
  lemma StallSealsTwice()
    ensures var buf: bytes, script := [7], [Stall, Room(100), Room(100)];
            && !TakesFrames(script, 1) && !SealsOnce(script, 1)
            && WritePollStep(1, 0, script) == WritePending && Sealed(buf, 0, script) == [buf]
            && PendingAfterWrite(1, 0, script) == 19 && ScriptAfterWrite(1, 0, script) == script[1..]
            && WritePollStep(1, 19, script[1..]) == Wrote(1) && Sealed(buf, 19, script[1..]) == [buf]
  {
    var buf: bytes, script := [7], [Stall, Room(100), Room(100)];
    assert buf[..1] == buf;
    assert script[1..][0] == Room(100) && TakesAll(script[1..], 19);
  }

  /** A wire that ends right behind a length field ends, for the reader, as cleanly as an empty one. */
  lemma HeaderAloneEndsCleanly(a: Aead, key: bytes, hi: byte, lo: byte)
    requires 1 <= U16([hi, lo]) <= MAX_FRAME_CIPHER
    ensures var o := OpenAll(a, key, 0, [hi, lo]);
            o == Opened([], More, 2) && Stopped(ReadReady([]), o, o) && !Stopped(ReadError(UnexpectedEof), o, o)
  {
    ShortFrame(a, key, 0, [hi, lo]);
  }

  function Chunk0(buf: bytes): (chunk: bytes)
    ensures |chunk| == Min(|buf|, MAX_FRAME_PLAIN)
  {
    buf[..Min(|buf|, MAX_FRAME_PLAIN)]
  }

  function Sealed(buf: bytes, pending: nat, script: WriteScript): (chunks: seq<bytes>) {
    if buf != [] && DrainStep(pending, script).Drained? then [Chunk0(buf)] else []
  }

  /** Whether the sink takes a frame of a chunk of `n` bytes in one go. */
  predicate TakesFrame(script: WriteScript, n: nat) {
    script != [] && script[0].Room? && script[0].n >= n + 18
  }

  function WritePollStep(len: nat, pending: nat, script: WriteScript): (r: WritePoll) {
    var d := DrainStep(pending, script);
    if !d.Drained? then AsWritePoll(d)
    else if len == 0 then Wrote(0)
    else
      var n := Min(len, MAX_FRAME_PLAIN);
      var e := DrainStep(n + 18, AfterDrain(pending, script));
      if e.Drained? then Wrote(n) else AsWritePoll(e)
  }

  function ScriptAfterWrite(len: nat, pending: nat, script: WriteScript): (rest: WriteScript) {
    var rest := AfterDrain(pending, script);
    if len == 0 || !DrainStep(pending, script).Drained? then rest else WriteRest(rest)
  }

  function PendingAfterWrite(len: nat, pending: nat, script: WriteScript): (left: nat) {
    if !DrainStep(pending, script).Drained? then pending - DrainTaken(pending, script)
    else if len == 0 then 0
    else
      var n := Min(len, MAX_FRAME_PLAIN) + 18;
      n - DrainTaken(n, AfterDrain(pending, script))
  }

  /** With no plaintext held, what a stream will deliver is what is ahead. */
  lemma NothingHeld(s: EncryptedStream)
    requires s.ReadValid() && s.readBuf == [] && s.pendingPlain == []
    ensures s.Outlook() == OpenAll(s.decrypt.aead, s.decrypt.key, s.decrypt.nonce, s.Ahead())
  {
    hide OpenAll, U16, EncryptedStream.Ahead;
  }

  lemma HeaderStopped(r: ReadPoll, o: Opened)
    requires match r
             case ReadPending => true
             case ReadError(kind) => kind == Io || (kind == UnexpectedEof && o == Opened([], More, 1))
             case ReadReady(data) => data == [] && o == Opened([], More, 0)
    ensures Stopped(r, o, o)
  {
  }

  lemma BodyStopped(r: ReadPoll, o: Opened)
    requires match r
             case ReadPending => true
             case ReadError(kind) => kind == Io || (kind == UnexpectedEof && o.plain == [] && o.stop == More && o.left !in {0, 2})
             case ReadReady(data) => data == [] && o.plain == [] && o.stop == More && o.left in {0, 2}
    ensures Stopped(r, o, o)
  {
  }

  /** With one frame's plaintext held, what a stream will deliver is that and what is ahead. */
  lemma BodyHeld(s: EncryptedStream)
    requires s.ReadValid() && s.pendingPlain == []
    ensures var o := OpenAll(s.decrypt.aead, s.decrypt.key, s.decrypt.nonce, s.Ahead());
            s.Outlook() == o.(plain := s.readBuf + o.plain)
  {
    hide OpenAll, U16, EncryptedStream.Ahead;
  }

  lemma BadHeaderStops(before: Opened, after: Opened)
    requires before.plain == [] && before.stop != More
    ensures Stopped(ReadError(InvalidData), before, after)
  {
  }

  lemma NoFrame(a: Aead, key: bytes, counter: nat, s: bytes)
    requires counter <= U64_MAX
    ensures |s| < 2 ==> OpenAll(a, key, counter, s) == Opened([], More, |s|)
    ensures |s| >= 2 && (U16([s[0], s[1]]) == 0 || U16([s[0], s[1]]) > MAX_FRAME_CIPHER) ==>
              OpenAll(a, key, counter, s) == Opened([], BadLength, |s|)
  {
  }

  lemma ShortFrame(a: Aead, key: bytes, counter: nat, s: bytes)
    requires counter <= U64_MAX && |s| >= 2
    requires 1 <= U16([s[0], s[1]]) <= MAX_FRAME_CIPHER && |s| < 2 + U16([s[0], s[1]])
    ensures OpenAll(a, key, counter, s) == Opened([], More, |s|)
  {
  }

  lemma WholeFrame(a: Aead, key: bytes, counter: nat, s: bytes, body: bytes, rest: bytes)
    requires counter <= U64_MAX && |s| >= 2 && 1 <= |body| == U16([s[0], s[1]]) <= MAX_FRAME_CIPHER
    requires s == s[..2] + body + rest
    ensures var p := a.open(key, BuildNonce(counter), body);
            var o := OpenAll(a, key, Bump(counter), rest);
            OpenAll(a, key, counter, s) == if p.None? then Opened([], BadTag, |s|) else o.(plain := p.value + o.plain)
  {
    assert s[2..2 + |body|] == body && s[2 + |body|..] == rest;
  }

  /** What a poll may answer when it delivers no bytes. */
  ghost predicate Stopped(r: ReadPoll, before: Opened, after: Opened) {
    match r
    case ReadPending => after == before
    case ReadError(Io) => after == before
    case ReadError(InvalidData) => before.plain == [] && before.stop != More
    case ReadError(UnexpectedEof) => after == before && before.plain == [] && before.stop == More && before.left !in {0, 2}
    case ReadError(WriteZero) => false
    case ReadReady(data) => data == [] && after == before && before.plain == [] && before.stop == More && before.left in {0, 2}
  }

  /**
   What a poll may answer: bytes off the front of the outlook, no more than there is room for; or
   none, and then a bad frame is reported only once everything before it is delivered, and the end of
   the stream is an error unless zero or two bytes of an unfinished frame are left over.
   */
  ghost predicate Delivers(r: ReadPoll, max: nat, before: Opened, after: Opened) {
    if Got(r) != [] then
      |Got(r)| <= max && before == after.(plain := Got(r) + after.plain)
    else
      Stopped(r, before, after)
  }

  /**
   At any moment, however its polls went, the peer of an encrypted stream can open what has reached it
   to a prefix of the sealed chunks, and once nothing is pending and all has reached it, to exactly these.
   */
  lemma PeerDelivers(s: EncryptedStream, came: bytes)
    requires s.WriteValid() && s.base == [] && Lawful(s.encrypt.aead) && Prefix(came, s.output.wire)
    ensures var o := OpenAll(s.encrypt.aead, s.encrypt.key, 0, came);
            && o.stop == More && Prefix(o.plain, Concat(s.log))
            && (s.writePending == [] && came == s.output.wire ==> o == Opened(Concat(s.log), More, 0))
  {
    hide Frames, OpenAll, Concat;
    assert s.base + Frames(s.encrypt.aead, s.encrypt.key, 0, s.log) == Frames(s.encrypt.aead, s.encrypt.key, 0, s.log);
    assert came == (s.output.wire + s.writePending)[..|came|];
    assert s.output.wire + [] == s.output.wire;
    PeerOpens(s.encrypt.aead, s.encrypt.key, s.log, came);
  }
}
