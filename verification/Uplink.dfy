/**
 The way up of an ee session through a front and a back: client wire, record stream, opening frame,
 relay, peek and re-prefix, and out of the relay again. Every stream below is one of the classes
 proved in its own module; here they are put together.
 */
module Uplink {
  import opened Bytes
  import opened Options
  import opened Streams
  import opened Utf8
  import opened SgfbCrypto
  import opened FakeTls
  import opened Obfuscated2
  import opened OpeningFrame
  import opened Split
  import opened Link
  import Tls
  import Hello = ClientHelloAuth

  /** Reads the 64 bytes of the handshake out of the records, polling on while more can arrive. */
  method ReadHandshake(tls: FakeTlsStream) returns (r: ReadAll)
    requires tls.input.Valid()
    modifies tls`readBuf, tls`tlsStash, tls.input, tls.input.inner
    ensures tls.input.Valid()
    ensures r.Full? ==> |r.data| == HANDSHAKE_LEN && TakenOff(old(tls.Outlook()), r.data, tls.Outlook())
    ensures !r.Full? ==> |old(tls.Outlook()).payload| < HANDSHAKE_LEN || r == Failed(Io)
    ensures old(tls.input.Failures()) == tls.input.Failures() + if r == Failed(Io) then 1 else 0
  {
    hide Run, FakeTlsStream.Outlook, PrefixedStream.Size, PrefixedStream.Failures, PrefixedStream.View;
    var data := [];
    ghost var before := tls.Outlook();
    assert TakenOff(before, [], before);
    while |data| < HANDSHAKE_LEN
      invariant tls.input.Valid() && |data| <= HANDSHAKE_LEN && TakenOff(before, data, tls.Outlook())
      invariant tls.input.Failures() == old(tls.input.Failures())
      decreases HANDSHAKE_LEN - |data|, tls.input.Size()
    {
      ghost var here := tls.Outlook();
      var idle := tls.input.Exhausted();
      var poll := tls.PollRead(HANDSHAKE_LEN - |data|);
      match poll {
        case ReadReady(more) =>
          if more == [] {
            return Failed(UnexpectedEof);
          }
          TakenTwice(before, data, here, more, tls.Outlook());
          data := data + more;
        case ReadPending =>
          if idle {
            return Waiting;
          }
        case ReadError(kind) =>
          return Failed(kind);
      }
    }
    r := Full(data);
  }

  // ---------------------------------------------------------------- the front

  datatype FrontConfig = FrontConfig(token: text, backend: text, encryptRelay: bool, secret: bytes)

  /** How far a front gets before it waits for the answer. */
  datatype Opening =
    | HandshakeUnread(why: ReadAll) | HandshakeInvalid | NoFrame | NotSent(part: bytes)
    | FrameSent(handshake: bytes, prefix: bytes, frame: bytes)

  /** The frame of a handshake. */
  predicate FrameOf(c: Crypto, cfg: FrontConfig, handshake: bytes, frame: bytes) {
    OpeningFrame.Encode(c.hash, cfg.token, Ee, cfg.backend, handshake, cfg.encryptRelay) == Encoded(frame)
  }

  predicate ValidHandshake(c: Crypto, secret: bytes, h: bytes) {
    |h| == HANDSHAKE_LEN && ParseHandshake(c.ks, c.hash, h, secret).Some?
  }

  /**
   The front after its ServerHello: read the handshake, take what was deframed behind it, send the
   frame. Nothing is sent before the handshake is known to be valid, and nothing but the frame.
   */
  method FrontOpen(c: Crypto, cfg: FrontConfig, tls: FakeTlsStream, link: WriteHalf) returns (r: Opening)
    requires tls.input.Valid() && link.wire == [] && {tls, tls.input, tls.input.inner} !! {link}
    modifies tls`readBuf, tls`tlsStash, tls.input, tls.input.inner, link
    ensures tls.input.Valid()
    ensures var payload := old(tls.Outlook()).payload;
            match r
            case HandshakeUnread(why) =>
              link.wire == [] && (|payload| < HANDSHAKE_LEN || tls.input.Failures() < old(tls.input.Failures()))
            case HandshakeInvalid =>
              link.wire == [] && |payload| >= HANDSHAKE_LEN && !ValidHandshake(c, cfg.secret, payload[..HANDSHAKE_LEN])
            case NoFrame => link.wire == [] && |cfg.backend| > MAX_BACKEND_LEN
            case NotSent(frame) =>
              && |payload| >= HANDSHAKE_LEN && FrameOf(c, cfg, payload[..HANDSHAKE_LEN], frame)
              && Prefix(link.wire, frame) && !TakesFlushed(old(link.script), |frame|)
            case FrameSent(h, prefix, frame) =>
              && |payload| >= HANDSHAKE_LEN && h == payload[..HANDSHAKE_LEN] && ValidHandshake(c, cfg.secret, h)
              && FrameOf(c, cfg, h, frame) && link.wire == frame
              && TakesFlushed(old(link.script), |frame|) && link.script == AfterFlushed(old(link.script), |frame|)
              && payload[HANDSHAKE_LEN..] == prefix + tls.Outlook().payload
              && old(tls.Outlook()).tooLarge == tls.Outlook().tooLarge
              && tls.input.Failures() == old(tls.input.Failures())
  {
    hide Run, ParseHandshake, OpeningFrame.Encode, TakesFlushed, AfterFlushed, FakeTlsStream.Outlook;
    hide PrefixedStream.Size, PrefixedStream.Failures, PrefixedStream.View;
    ghost var before := tls.Outlook();
    var read := ReadHandshake(tls);
    if !read.Full? {
      return HandshakeUnread(read);
    }
    var handshake := read.data;
    assert before.payload[..HANDSHAKE_LEN] == handshake && before.payload[HANDSHAKE_LEN..] == tls.Outlook().payload;
    if ParseHandshake(c.ks, c.hash, handshake, cfg.secret).None? {
      return HandshakeInvalid;
    }
    var prefix := tls.TakeReadBuf();
    var encoded := OpeningFrame.Encode(c.hash, cfg.token, Ee, cfg.backend, handshake, cfg.encryptRelay);
    if !encoded.Encoded? {
      return NoFrame;
    }
    var sent := link.WriteFlushed(encoded.raw);
    Regroup(encoded.raw, [], []);
    Regroup([], encoded.raw, []);
    r := if sent.Drained? then FrameSent(handshake, prefix, encoded.raw) else NotSent(encoded.raw);
  }

  // ---------------------------------------------------------------- the back

  /** A back has accepted the front's session: its handshake, and terms that go by its own configuration. */
  predicate Serves(c: Crypto, cfg: FrontConfig, backCfg: BackConfig, handshake: bytes, frame: bytes, v: Verdict)
    ensures Serves(c, cfg, backCfg, handshake, frame, v) ==> v.Accepts?
  {
    && v.Accepts? && v.frame == Frame(Ee, cfg.backend, handshake) && ValidHandshake(c, backCfg.secret, handshake)
    && backCfg.token.Some? && c.hash(backCfg.token.value) == c.hash(cfg.token)
    && v.terms == TermsOf(c.hash, backCfg.token.value, backCfg.encryptRelay, frame)
  }

  /** What a back needs to accept the front's session. */
  predicate Willing(cfg: FrontConfig, backCfg: BackConfig, peer: nat) {
    PeerAllowed(peer, backCfg.allowlist) && backCfg.token == Some(cfg.token) && backCfg.secret == cfg.secret
  }

  /**
   The back up to its answer, given what reaches it of the front's frame. Its first byte is the OK byte
   only if it serves the front's very session, even where the rest of the answer does not go out.
   */
  method BackOpen(c: Crypto, cfg: FrontConfig, backCfg: BackConfig, peer: nat, handshake: bytes, frame: bytes,
                  early: ReadScript, backOut: WriteHalf)
    returns (verdict: Verdict, ok: bool)
    requires ValidHandshake(c, cfg.secret, handshake) && Prefix(Arriving(early), frame) && FrameOf(c, cfg, handshake, frame)
    requires backOut.wire == []
    modifies backOut
    ensures ok ==> backOut.wire == [ACK_OK]
    ensures ok || SaysOk(backOut.wire) ==>
              Serves(c, cfg, backCfg, handshake, frame, verdict) && PeerAllowed(peer, backCfg.allowlist)
    ensures (&& Willing(cfg, backCfg, peer) && TakesFlushed(old(backOut.script), 1)
             && Arriving(early) == frame && Fails(early) == 0)
            ==> ok
  {
    hide OpeningFrame.Encode, ParseHandshake, Arriving, Fails, Decode, DeriveSessionKeys, BackVerdict, TakesFlushed;
    hide AckBytes, TakesAll, FrameEnd, PrefixedStream.View, PrefixedStream.Rest, PrefixedStream.Failures;
    var net := new ReadHalf(early);
    var input := new PrefixedStream([], net);
    WithoutPrefix(input);
    ghost var raw;
    verdict, ok, raw := HandleBackConnection(c, backCfg, peer, input, backOut, true);
    FrameIsAccepted(c, cfg, backCfg, peer, handshake, frame);
    FirstByteTells(backCfg, verdict, backOut.wire);
    if verdict.Accepts? {
      RawIsFrame(c, cfg, handshake, frame, raw, input.Rest());
    }
  }

  predicate SaysOk(answer: bytes) {
    answer != [] && answer[0] == ACK_OK
  }

  lemma FirstByteTells(cfg: BackConfig, v: Verdict, wire: bytes)
    requires exists k :: 0 <= k <= |AckBytes(cfg, v)| && wire == [] + AckBytes(cfg, v)[..k]
    ensures SaysOk(wire) ==> v.Accepts?
  {
  }

  /** Reads the one byte of answer that a front waits for. */
  method ReadAnswer(net: PrefixedStream) returns (ok: bool)
    requires net.Valid()
    modifies net, net.inner
    ensures net.Valid()
    ensures ok ==> SaysOk(old(net.Rest()))
    ensures !ok ==> !SaysOk(old(net.Rest())) || old(net.Failures()) > 0
  {
    hide PrefixedStream.Rest, PrefixedStream.View, PrefixedStream.Size, PrefixedStream.Failures;
    var read := net.ReadExact(1);
    ok := read == Full([ACK_OK]);
  }

  /** A back that reads a whole frame off the front's frame reads the front's frame. */
  lemma RawIsFrame(c: Crypto, cfg: FrontConfig, handshake: bytes, frame: bytes, raw: bytes, rest: bytes)
    requires FrameOf(c, cfg, handshake, frame) && FrameEnd(raw) == Some(|raw|) && Prefix(raw + rest, frame)
    ensures raw == frame && Decode(frame) == Decoded(Frame(Ee, cfg.backend, handshake)) && frame[5..37] == c.hash(cfg.token)
  {
    hide OpeningFrame.Encode, FrameEnd, Decode;
    FrameDelimitsItself(c.hash, cfg.token, Ee, cfg.backend, handshake, cfg.encryptRelay, []);
    FrameEndStable(raw, frame[|raw|..]);
    assert raw == (raw + rest)[..|raw|] == frame[..|raw|];
    assert frame + [] == frame == raw + frame[|raw|..];
    DecodeInvertsEncode(c.hash, cfg.token, Ee, cfg.backend, handshake, cfg.encryptRelay);
  }

  /** The front's whole frame is accepted by a back that allows the front and has the same token and secret. */
  lemma FrameIsAccepted(c: Crypto, cfg: FrontConfig, backCfg: BackConfig, peer: nat, handshake: bytes, frame: bytes)
    requires ValidHandshake(c, cfg.secret, handshake) && FrameOf(c, cfg, handshake, frame)
    ensures Willing(cfg, backCfg, peer) ==> BackVerdict(c, backCfg, peer, frame, true).Accepts?
  {
    hide OpeningFrame.Encode, ParseHandshake, Decode, FrameAtFront;
    EncodedIsRead(c.hash, cfg.token, Ee, cfg.backend, handshake, cfg.encryptRelay, []);
    assert frame + [] == frame;
    DecodeInvertsEncode(c.hash, cfg.token, Ee, cfg.backend, handshake, cfg.encryptRelay);
  }

  // ---------------------------------------------------------------- both together

  /** Both sides of the link treat it alike. */
  predicate Agree(cfg: FrontConfig, backCfg: BackConfig) {
    backCfg.token == Some(cfg.token) && (backCfg.encryptRelay || !cfg.encryptRelay)
  }

  /** What the back's decryptor is given: nothing before a raw byte has arrived, then the handshake first. */
  function StreamOf(handed: bool, handshake: bytes, delivered: bytes): (s: bytes) {
    if handed then handshake + delivered else []
  }

  /** How the way of one session went, from the front's frame on. */
  datatype Passage = Passage(frontRest: Rest, handed: bool, delivered: bytes, backRest: Rest)

  /** Neither the client's connection nor the link failed, and the link took all that it was given. */
  predicate Clean(p: Passage) {
    !OverSink(p.frontRest) && p.frontRest != Broke(Io) && p.backRest != Broke(Io)
  }

  /** The link seals nothing twice; or it has nothing to seal. */
  ghost predicate LinkOnce(encrypted: bool, start: WriteScript, pieces: seq<bytes>) {
    !encrypted || SealsOnceAll(start, pieces)
  }

  /** The link carries every piece as it should. */
  ghost predicate LinkCarries(encrypted: bool, start: WriteScript, pieces: seq<bytes>) {
    !encrypted || CarriesAll(start, pieces)
  }

  /**
   What comes of a session whose two sides treat the link alike, `start` being what the link's sink
   would take after the frame, `pieces` what was forwarded, and `arrived` what arrived of `sent`.
   */
  ghost predicate CameThrough(encrypted: bool, h: bytes, p: Passage, payload: bytes, start: WriteScript, pieces: seq<bytes>,
                              sent: bytes, arrived: bytes) {
    var stream := StreamOf(p.handed, h, p.delivered);
    && (LinkOnce(encrypted, start, pieces) ==> Prefix(stream, payload))
    && (Clean(p) && arrived == sent ==>
          && (stream == payload <==> LinkCarries(encrypted, start, pieces) && |payload| > HANDSHAKE_LEN)
          && (LinkCarries(encrypted, start, pieces) ==> (p.handed <==> |payload| > HANDSHAKE_LEN)))
    && (encrypted && CarriesAll(start, pieces) ==> !OverSink(p.frontRest))
    && p.backRest != Broke(InvalidData)
    && (p.backRest != Broke(Io) ==> (p.handed <==> arrived != []))
  }

  /** The whole of the text behind the handshake, or a prefix of it, is on the link, as the sink would have it. */
  ghost predicate Linked(encrypted: bool, start: WriteScript, pieces: seq<bytes>, rest: Rest, text: bytes) {
    && (LinkOnce(encrypted, start, pieces) ==> Prefix(text, Concat(pieces)))
    && (!OverSink(rest) ==> (text == Concat(pieces) <==> LinkCarries(encrypted, start, pieces)))
    && (encrypted && CarriesAll(start, pieces) ==> !OverSink(rest))
  }

  /**
   The front's relay on either kind of link. Whatever of it arrives opens to a prefix of `text`, all of
   it to all of `text` once nothing is pending, and `text` is as `Linked` says.
   */
  method FrontRelay(encrypted: bool, aead: Aead, keys: SessionKeys, tls: FakeTlsStream, linkIn: PrefixedStream, link: WriteHalf,
                    prefix: bytes)
    returns (rest: Rest, ghost pieces: seq<bytes>, ghost text: bytes)
    requires Lawful(aead) && tls.input.Valid() && linkIn.Valid() && {tls, tls.input, tls.input.inner} !! {link}
    modifies tls`readBuf, tls`tlsStash, tls.input, tls.input.inner, link
    ensures tls.input.Valid() && Prefix(old(link.wire), link.wire)
    ensures Concat(pieces) + tls.Outlook().payload == prefix + old(tls.Outlook()).payload
    ensures Linked(encrypted, old(link.script), pieces, rest, text)
    ensures RestOf(rest, tls.Outlook(), link.script, old(tls.input.Failures()) - tls.input.Failures())
    ensures forall came {:trigger Prefix(came, link.wire[|old(link.wire)|..])} ::
              Prefix(came, link.wire[|old(link.wire)|..]) ==>
              Opens(encrypted, aead, keys, rest, link.wire[|old(link.wire)|..], came, text)
  {
    hide Lawful, Run, Concat, CarriesAll, SealsOnceAll, RestOf, Sealing, Opens, FakeTlsStream.Outlook, PrefixedStream.Failures;
    hide PrefixedStream.View;
    ghost var start, base := link.script, link.wire;
    if encrypted {
      ghost var pending, log;
      rest, pieces, pending, log := Relay(aead, keys, tls, linkIn, link, prefix);
      text := Concat(log);
      SealedIsLinked(start, pieces, rest, text, link.script);
      forall came | Prefix(came, link.wire[|base|..])
        ensures Opens(encrypted, aead, keys, rest, link.wire[|base|..], came, text)
      {
        SealedOpens(aead, keys, rest, link.wire[|base|..], pending, log, came);
      }
    } else {
      ghost var carried;
      rest, carried := RelayPlain(tls, link, prefix);
      pieces := [carried];
      ConcatChunk(carried);
      text := link.wire[|base|..];
      forall came | Prefix(came, text)
        ensures Opens(encrypted, aead, keys, rest, text, came, text)
      {
        PlainOpens(aead, keys, rest, text, came);
      }
    }
  }

  /** What arrives of a link opens to a prefix of `text`; all of it opens to all, and there is something exactly if there is text. */
  ghost predicate Opens(encrypted: bool, aead: Aead, keys: SessionKeys, rest: Rest, wire: bytes, came: bytes, text: bytes) {
    var o := OpenLink(encrypted, aead, keys, came);
    && o.stop == More && Prefix(o.plain, text)
    && (came == wire && !OverSink(rest) ==> o.plain == text && (came == [] <==> text == []))
  }

  lemma SealedIsLinked(start: WriteScript, pieces: seq<bytes>, rest: Rest, text: bytes, script: WriteScript)
    requires if OverSink(rest) then Stuck(start, pieces, [], text) else Forwarded(start, pieces, [], text, script)
    ensures Linked(true, start, pieces, rest, text)
  {
    hide Concat;
    assert [] + Concat(pieces) == Concat(pieces) && Prefix(Concat(pieces), Concat(pieces));
    CarriedIsSealedOnce(start, pieces);
  }

  lemma CarriedIsSealedOnce(start: WriteScript, pieces: seq<bytes>)
    ensures CarriesAll(start, pieces) ==> SealsOnceAll(start, pieces)
  {
    if pieces != [] && CarriesAll(start, pieces) {
      var init := pieces[..|pieces| - 1];
      TakenIsSealedOnce(LinkAt(start, init), |pieces[|pieces| - 1]|);
    }
  }

  lemma {:induction false} TakenIsSealedOnce(script: WriteScript, n: nat)
    ensures TakesFrames(script, n) ==> SealsOnce(script, n)
    decreases n
  {
    if n > 0 && script != [] {
      TakenIsSealedOnce(script[1..], n - Min(n, MAX_FRAME_PLAIN));
    }
  }

  lemma SealedOpens(aead: Aead, keys: SessionKeys, rest: Rest, wire: bytes, pending: bytes, log: seq<bytes>, came: bytes)
    requires Lawful(aead) && Sealing(aead, keys.clientToServer, wire, pending, log) && Prefix(came, wire)
    requires !OverSink(rest) ==> pending == []
    ensures Opens(true, aead, keys, rest, wire, came, Concat(log))
  {
    hide OpenAll, Concat, Lawful;
    var key := keys.clientToServer;
    assert came == (wire + pending)[..|came|] && wire + [] == wire;
    PeerOpens(aead, key, log, came);
    FramesOfNothing(aead, key, log);
  }

  lemma FramesOfNothing(aead: Aead, key: bytes, log: seq<bytes>)
    requires AllSealable(log)
    ensures Frames(aead, key, 0, log) == [] <==> Concat(log) == []
  {
    hide BuildNonce, U16;
  }

  lemma PlainOpens(aead: Aead, keys: SessionKeys, rest: Rest, wire: bytes, came: bytes)
    requires Prefix(came, wire)
    ensures Opens(false, aead, keys, rest, wire, came, wire)
  {
  }

  /** The session up to the front's reading of the answer. Nothing but the frame has gone out by then. */
  method OpenSession(c: Crypto, cfg: FrontConfig, backCfg: BackConfig, peer: nat, tls: FakeTlsStream, link: WriteHalf,
                     early: bytes -> ReadScript, reply: bytes -> ReadScript, backOut: WriteHalf)
    returns (front: Opening, verdict: Verdict, ok: bool, acked: bool, linkIn: PrefixedStream)
    requires link.wire == [] && backOut.wire == [] && link != backOut
    requires tls.input.Valid() && {tls, tls.input, tls.input.inner} !! {link, backOut}
    requires forall wire: bytes :: Prefix(Arriving(early(wire)), wire)
    requires forall wire: bytes :: Prefix(Arriving(reply(wire)), wire)
    modifies tls`readBuf, tls`tlsStash, tls.input, tls.input.inner, link, backOut
    ensures tls.input.Valid() && linkIn.Valid() && fresh(linkIn) && fresh(linkIn.inner)
    ensures ok || acked ==>
              && front.FrameSent? && Serves(c, cfg, backCfg, front.handshake, front.frame, verdict)
              && PeerAllowed(peer, backCfg.allowlist)
    ensures front.FrameSent? ==>
              && |old(tls.Outlook()).payload| >= HANDSHAKE_LEN && front.handshake == old(tls.Outlook()).payload[..HANDSHAKE_LEN]
              && FrameOf(c, cfg, front.handshake, front.frame) && link.wire == front.frame
              && link.script == AfterFlushed(old(link.script), |front.frame|)
              && old(tls.Outlook()).payload[HANDSHAKE_LEN..] == front.prefix + tls.Outlook().payload
              && tls.input.Failures() == old(tls.input.Failures())
    ensures (&& front.FrameSent? && Willing(cfg, backCfg, peer) && TakesFlushed(old(backOut.script), 1)
             && Arriving(early(front.frame)) == front.frame && Fails(early(front.frame)) == 0
             && Arriving(reply([ACK_OK])) == [ACK_OK] && Fails(reply([ACK_OK])) == 0)
            ==> ok && acked
  {
    hide Run, Arriving, Fails, TakesFlushed, AfterFlushed, FakeTlsStream.Outlook, FrameOf, Serves, Willing, ValidHandshake;
    hide PrefixedStream.View, PrefixedStream.Rest, PrefixedStream.Size, PrefixedStream.Failures;
    verdict, ok, acked := GivesUp, false, false;
    front := FrontOpen(c, cfg, tls, link);
    if front.FrameSent? {
      verdict, ok := BackOpen(c, cfg, backCfg, peer, front.handshake, front.frame, early(front.frame), backOut);
    }
    var net := new ReadHalf(reply(backOut.wire));
    linkIn := new PrefixedStream([], net);
    WithoutPrefix(linkIn);
    acked := ReadAnswer(linkIn);
  }

  /**
   One ee session from the client's wire to the back's obfuscated2 decryptor, whatever the sinks and
   the network do. `early` and `late` are any ways of cutting and delaying what the front puts on the
   link before and after the answer, and of losing its end; `reply` is the same for the answer.

   The front puts nothing but its frame on the link unless it has read an OK, and it reads one only from
   a back that serves its very session. The session comes about if the back is willing, the frame
   arrives, and the answer goes out and arrives. Then, if both sides treat the link alike, the decryptor
   is given a prefix of the application data of the client's wire, unless a frame is sealed twice; and
   with nothing lost or broken it is given all of it exactly if the link carries every piece as it should
   and there is data behind the handshake at all.
   */
  method EndToEnd(c: Crypto, aead: Aead, cfg: FrontConfig, backCfg: BackConfig, peer: nat, tls: FakeTlsStream, link: WriteHalf,
                  early: bytes -> ReadScript, reply: bytes -> ReadScript, late: bytes -> ReadScript, backOut: WriteHalf)
    returns (front: Opening, verdict: Verdict, ok: bool, acked: bool, p: Passage, ghost pieces: seq<bytes>, ghost sent: bytes)
    requires Lawful(aead) && link.wire == [] && backOut.wire == [] && link != backOut
    requires tls.input.Valid() && {tls, tls.input, tls.input.inner} !! {link, backOut}
    requires forall wire: bytes :: Prefix(Arriving(early(wire)), wire)
    requires forall wire: bytes :: Prefix(Arriving(reply(wire)), wire)
    requires forall wire: bytes :: Prefix(Arriving(late(wire)), wire)
    modifies tls`readBuf, tls`tlsStash, tls.input, tls.input.inner, link, backOut
    ensures tls.input.Valid()
    ensures front.FrameSent? ==>
              && |old(tls.Outlook()).payload| >= HANDSHAKE_LEN && front.handshake == old(tls.Outlook()).payload[..HANDSHAKE_LEN]
              && Prefix(front.frame, link.wire) && (!acked ==> link.wire == front.frame)
    ensures (&& front.FrameSent? && Willing(cfg, backCfg, peer) && TakesFlushed(old(backOut.script), 1)
             && Arriving(early(front.frame)) == front.frame && Fails(early(front.frame)) == 0
             && Arriving(reply([ACK_OK])) == [ACK_OK] && Fails(reply([ACK_OK])) == 0)
            ==> ok && acked
    ensures front.FrameSent? && (ok || acked) ==>
              Serves(c, cfg, backCfg, front.handshake, front.frame, verdict) && PeerAllowed(peer, backCfg.allowlist)
    ensures p.handed ==> front.FrameSent? && ok && acked
    ensures front.FrameSent? && ok && acked && Agree(cfg, backCfg) ==>
              && Concat(pieces) + tls.Outlook().payload == old(tls.Outlook()).payload[HANDSHAKE_LEN..]
              && CameThrough(cfg.encryptRelay, front.handshake, p, old(tls.Outlook()).payload,
                             AfterFlushed(old(link.script), |front.frame|), pieces, sent, Arriving(late(sent)))
              && RestOf(p.frontRest, tls.Outlook(), link.script, old(tls.input.Failures()) - tls.input.Failures())
              && (p.backRest == Broke(Io) ==> Fails(late(sent)) > 0)
  {
    hide Run, Concat, ParseHandshake, OpeningFrame.Encode, Arriving, Fails, Decode, DeriveSessionKeys, BackVerdict;
    hide TakesFlushed, AfterFlushed, FrameEnd, Lawful, Opens, OpenLink, Linked, CarriesAll, SealsOnceAll, RestOf, OverSink;
    hide CameThrough;
    hide FakeTlsStream.Outlook, PrefixedStream.View, PrefixedStream.Rest, PrefixedStream.Size, PrefixedStream.Failures;
    hide ValidHandshake, FrameOf, Serves, Willing;
    p, pieces, sent := Passage(Waits, false, [], Waits), [], [];
    ghost var payload := tls.Outlook().payload;
    var linkIn;
    front, verdict, ok, acked, linkIn := OpenSession(c, cfg, backCfg, peer, tls, link, early, reply, backOut);
    if !acked {
      return;
    }
    var frame := front.frame;
    ghost var start := link.script;
    ghost var text;
    var frontRest;
    var keys := DeriveSessionKeys(c.hash, cfg.token, frame);
    frontRest, pieces, text := FrontRelay(cfg.encryptRelay, aead, keys, tls, linkIn, link, front.prefix);
    p := p.(frontRest := frontRest);
    if !ok {
      return;
    }
    var wire := link.wire[|frame|..];
    sent := wire;
    var net := new ReadHalf(late(wire));
    ghost var came := Arriving(net.script);
    assert Prefix(came, wire);
    var handed, delivered, backRest := BackUplink(verdict.terms.encrypted, aead, verdict.terms.keys, net, backOut);
    p := Passage(frontRest, handed, delivered, backRest);
    if Agree(cfg, backCfg) {
      SameTerms(c, cfg, backCfg, front.handshake, frame, verdict);
      RunsDry(frontRest, tls.Outlook(), link.script, old(tls.input.Failures()) - tls.input.Failures());
      StreamIs(cfg.encryptRelay, aead, keys, frontRest, wire, came, text, p, front.handshake, payload, start, pieces, tls.Outlook());
    }
  }

  lemma SameTerms(c: Crypto, cfg: FrontConfig, backCfg: BackConfig, handshake: bytes, frame: bytes, v: Verdict)
    requires Serves(c, cfg, backCfg, handshake, frame, v) && FrameOf(c, cfg, handshake, frame) && Agree(cfg, backCfg)
    ensures v.terms == Terms(DeriveSessionKeys(c.hash, cfg.token, frame), cfg.encryptRelay)
  {
    hide OpeningFrame.Encode, DeriveSessionKeys;
    TermsAgree(c.hash, cfg.token, Ee, cfg.backend, handshake, cfg.encryptRelay, backCfg.encryptRelay);
  }

  /** What the decryptor is given, told from what is on the link and what arrived of it. */
  lemma StreamIs(encrypted: bool, aead: Aead, keys: SessionKeys, rest: Rest, wire: bytes, came: bytes, text: bytes, p: Passage,
                 h: bytes, payload: bytes, start: WriteScript, pieces: seq<bytes>, left: Deframed)
    requires Opens(encrypted, aead, keys, rest, wire, came, text) && Linked(encrypted, start, pieces, rest, text) && p.frontRest == rest
    requires var o := OpenLink(encrypted, aead, keys, came);
             && Prefix(p.delivered, o.plain)
             && (p.backRest != Broke(Io) ==> p.delivered == o.plain && (p.backRest == Broke(InvalidData) <==> o.stop != More))
    requires (p.handed ==> came != []) && (!p.handed ==> p.delivered == [] && (p.backRest == Broke(Io) || came == []))
    requires |payload| >= |h| && |h| == HANDSHAKE_LEN && h == payload[..|h|] && Concat(pieces) + left.payload == payload[|h|..]
    requires !OverSink(rest) && rest != Broke(Io) ==> left.payload == []
    ensures CameThrough(encrypted, h, p, payload, start, pieces, wire, came)
  {
    hide OpenLink, Concat, CarriesAll, SealsOnceAll, OverSink;
    var all := Concat(pieces);
    assert payload == h + payload[|h|..];
    if LinkOnce(encrypted, start, pieces) {
      PrefixOfPrefix(p.delivered, text, all);
      PrefixExtends(p.delivered, all, left.payload);
      assert h + p.delivered == payload[..|h + p.delivered|];
    }
    if !OverSink(rest) && rest != Broke(Io) {
      assert all + [] == all;
      assert (h + p.delivered)[|h|..] == p.delivered;
    }
  }

  lemma PrefixOfPrefix(s: bytes, t: bytes, u: bytes)
    requires Prefix(t, u)
    ensures Prefix(s, t) ==> Prefix(s, u)
  {
    if Prefix(s, t) {
      assert s == t[..|s|] == u[..|t|][..|s|] == u[..|s|];
    }
  }

  // ---------------------------------------------------------------- the gate before it

  /** A front goes on with a hello cut short without checking its signature; a whole one has to be valid. */
  function FrontAdmits(hmac: Hello.Hmac, buf: bytes, secret: bytes, now: nat): (ok: bool) {
    var needed := Tls.TlsRecordTotalLen(buf);
    if needed.Some? && |buf| < needed.value then Hello.ParseClientHelloPrefix(buf).Some?
    else MonolithAdmits(hmac, buf, secret, now)
  }

  function MonolithAdmits(hmac: Hello.Hmac, buf: bytes, secret: bytes, now: nat): (ok: bool) {
    var ch := Hello.ParseClientHelloRecord(buf);
    ch.Some? && Hello.Validate(hmac, ch.value, secret, now) == Hello.Valid
  }

  /**
   What a single node demands of a hello: a whole record that parses, and in its bytes 11..43 the hash of
   the record with these zeroed, keyed with the secret, the last four mixed with a time within 120 seconds.
   */
  lemma AdmittedIsSigned(hmac: Hello.Hmac, buf: bytes, secret: bytes, now: nat)
    ensures MonolithAdmits(hmac, buf, secret, now) <==>
            && Hello.ParseClientHelloRecord(buf).Some?
            && var end := 5 + 0x100 * (buf[3] as nat) + buf[4];
            && 43 <= end <= |buf|
            && var mac := hmac(secret, buf[..11] + seq(32, _ => 0) + buf[43..end]);
            && buf[11..39] == mac[..28]
            && -120 <= Xor(mac[28], buf[39]) + 0x100 * (Xor(mac[29], buf[40])
                       + 0x100 * (Xor(mac[30], buf[41]) + 0x100 * (Xor(mac[31], buf[42]) as nat))) - now <= 120
  {
    var ch := Hello.ParseClientHelloRecord(buf);
    if ch.Some? {
      HelloParts(buf);
      Hello.ValidSays(hmac, ch.value, secret, now);
      hide Hello.ParseClientHelloRecord, Hello.Validate, Xor;
      var raw, random := ch.value.raw, ch.value.random;
      assert raw[..11] == buf[..11] && raw[43..] == buf[43..|raw|] && random[..28] == buf[11..39];
    }
  }

  lemma HelloParts(buf: bytes)
    requires Hello.ParseClientHelloRecord(buf).Some?
    ensures |buf| >= 5
    ensures var ch, end := Hello.ParseClientHelloRecord(buf).value, 5 + 0x100 * (buf[3] as nat) + buf[4];
            && 43 <= end <= |buf| && ch.raw == buf[..end] && ch.random == buf[11..43]
  {
    hide Tls.SniOf;
    var end := 5 + 0x100 * (buf[3] as nat) + buf[4];
    var payload := Tls.ParseRecord(buf).value.payload;
    assert end <= |buf| && payload == buf[5..end] && |payload| >= 38;
    forall i | 0 <= i < 32
      ensures payload[6..38][i] == buf[11..43][i]
    {
      assert payload[6 + i] == buf[11 + i];
    }
  }

  /** Front and single node admit the same hellos, but for those cut short that the front can read. */
  lemma GatesDifferExactly(hmac: Hello.Hmac, buf: bytes, secret: bytes, now: nat)
    ensures FrontAdmits(hmac, buf, secret, now) == MonolithAdmits(hmac, buf, secret, now) <==>
            !(|buf| >= 5 && |buf| < 5 + U16([buf[3], buf[4]]) && Hello.ParseClientHelloPrefix(buf).Some?)
  {
    hide U16, Hello.Validate, Tls.ParseClientHello, Tls.TryClientHelloSni;
  }

  /** Such a hello: forty-four bytes of a record of 261, which the front answers and a single node refuses. */
  lemma CutHelloIsAdmitted(hmac: Hello.Hmac, secret: bytes, now: nat)
    ensures var buf: bytes := [0x16, 3, 1, 1, 0] + seq(39, _ => 0);
            FrontAdmits(hmac, buf, secret, now) && !MonolithAdmits(hmac, buf, secret, now)
  {
    var buf: bytes := [0x16, 3, 1, 1, 0] + seq(39, _ => 0);
    assert U16([buf[3], buf[4]]) == 0x100 && buf[5..][38] == 0;
  }
}
