/**
 The front/back session protocol: what a back makes of an opening frame and how it answers, how a
 front dials its backs one after the other, and what both sides hold afterwards.
 */
module Split {
  import opened Bytes
  import opened Options
  import opened Streams
  import opened Utf8
  import opened OpeningFrame
  import opened Obfuscated2

  const ACK_OK: byte := 0
  const ACK_ERR: byte := 1

  /** The outside functions of a session: the keystream and the hash. */
  datatype Crypto = Crypto(ks: Keystream, hash: Sha256)

  // ---------------------------------------------------------------- keys and mode

  datatype SessionKeys = SessionKeys(clientToServer: digest, serverToClient: digest)

  const LABEL_C2S: bytes := [0x53, 0x47, 0x46, 0x42, 0x2d, 0x76, 0x32, 0x2d, 0x63, 0x32, 0x73]
  const LABEL_S2C: bytes := [0x53, 0x47, 0x46, 0x42, 0x2d, 0x76, 0x32, 0x2d, 0x73, 0x32, 0x63]

  function DeriveSessionKeys(hash: Sha256, token: text, frame: bytes): (keys: SessionKeys) {
    SessionKeys(hash(LABEL_C2S + token + hash(frame)), hash(LABEL_S2C + token + hash(frame)))
  }

  ghost predicate Collide(hash: Sha256, x: bytes, y: bytes) {
    x != y && hash(x) == hash(y)
  }

  /**
   The keys of a session tell it apart: by direction, by token and by opening frame. Where two of them are
   equal two of the strings that were hashed collide, and these are the label of the direction, the token
   and the hash of the frame, one behind the other.
   */
  lemma KeysTellApart(hash: Sha256, token: text, frame: bytes, token': text, frame': bytes)
    ensures var k, k' := DeriveSessionKeys(hash, token, frame), DeriveSessionKeys(hash, token', frame');
            var c2s, s2c := "SGFB-v2-c2s", "SGFB-v2-s2c";
            && (k.clientToServer == k'.clientToServer ==>
                  || (token == token' && frame == frame') || Collide(hash, frame, frame')
                  || Collide(hash, Ascii(c2s) + token + hash(frame), Ascii(c2s) + token' + hash(frame')))
            && (k.serverToClient == k'.serverToClient ==>
                  || (token == token' && frame == frame') || Collide(hash, frame, frame')
                  || Collide(hash, Ascii(s2c) + token + hash(frame), Ascii(s2c) + token' + hash(frame')))
            && (k.clientToServer == k'.serverToClient ==>
                  Collide(hash, Ascii(c2s) + token + hash(frame), Ascii(s2c) + token' + hash(frame')))
  {
    LabelsSpelled();
    var x, y := token + hash(frame), token' + hash(frame');
    LastPartsEqual(token, hash(frame), token', hash(frame'));
    assert LABEL_C2S + token + hash(frame) == LABEL_C2S + x && LABEL_C2S + token' + hash(frame') == LABEL_C2S + y;
    assert LABEL_S2C + token + hash(frame) == LABEL_S2C + x && LABEL_S2C + token' + hash(frame') == LABEL_S2C + y;
    SameBehind(LABEL_C2S, x, y);
    SameBehind(LABEL_S2C, x, y);
    assert (LABEL_C2S + x)[8] == LABEL_C2S[8] && (LABEL_S2C + y)[8] == LABEL_S2C[8];
  }

  /** The bytes of a text of plain characters. */
  function Ascii(s: string): (b: bytes)
    requires forall i :: 0 <= i < |s| ==> s[i] as int < 0x80
  {
    seq(|s|, i requires 0 <= i < |s| => s[i] as int)
  }

  lemma LabelsSpelled()
    ensures Ascii("SGFB-v2-c2s") == LABEL_C2S && Ascii("SGFB-v2-s2c") == LABEL_S2C
  {
  }

  lemma SameBehind(a: bytes, x: bytes, y: bytes)
    ensures a + x == a + y ==> x == y
  {
    assert (a + x)[|a|..] == x && (a + y)[|a|..] == y;
  }

  lemma LastPartsEqual(a: bytes, h: digest, a': bytes, h': digest)
    ensures a + h == a' + h' ==> a == a' && h == h'
  {
    if a + h == a' + h' {
      assert |a| == |a'|;
      assert (a + h)[..|a|] == a && (a' + h')[..|a|] == a' && (a + h)[|a|..] == h && (a' + h')[|a|..] == h';
    }
  }

  predicate OpeningFrameEncrypted(raw: bytes) {
    |raw| > 4 && raw[4] == VERSION_ENCRYPTED
  }

  /** What one side of a running session goes by. */
  datatype Terms = Terms(keys: SessionKeys, encrypted: bool)

  function TermsOf(hash: Sha256, token: text, encryptRelay: bool, raw: bytes): (t: Terms) {
    Terms(DeriveSessionKeys(hash, token, raw), encryptRelay && OpeningFrameEncrypted(raw))
  }

  /** Both sides encrypt, or neither does, exactly unless the front asks for it and the back does not offer it. */
  lemma TermsAgree(hash: Sha256, token: text, mode: SecretMode, backend: text, initial: bytes, front: bool, back: bool)
    requires Fits(backend, initial)
    ensures var raw := Encode(hash, token, mode, backend, initial, front).raw;
            && (TermsOf(hash, token, front, raw) == TermsOf(hash, token, back, raw) <==> back || !front)
            && TermsOf(hash, token, front, raw).encrypted == front
  {
    hide Encode;
    EncodedLayout(hash, token, mode, backend, initial, front, []);
    var raw := Encode(hash, token, mode, backend, initial, front).raw;
    assert raw + [] == raw;
  }

  // ---------------------------------------------------------------- the back

  datatype Reason = NotAllowed | InitialTooLarge | WrongToken | BadHandshake | NoHandshake | UpstreamFailed

  /** `allowlist` holds the entries as far as they parse as addresses; `texts` are the refusals' messages. */
  datatype BackConfig = BackConfig(
    allowlist: seq<Option<nat>>, token: Option<text>, encryptRelay: bool, secret: bytes, texts: Reason -> text)

  predicate PeerAllowed(peer: nat, allowlist: seq<Option<nat>>) {
    allowlist == [] || Some(peer) in allowlist
  }

  datatype Verdict = Accepts(frame: Frame, terms: Terms) | Refuses(reason: Reason) | GivesUp

  /** What a back decides about a whole frame; `upstreamOk` tells whether a session that is not ee reaches its server. */
  function VerdictOn(c: Crypto, cfg: BackConfig, raw: bytes, upstreamOk: bool): (v: Verdict) {
    if cfg.token.None? || !Decode(raw).Decoded? then GivesUp
    else
      var frame := Decode(raw).frame;
      if |frame.initialData| > MAX_INITIAL_LEN then Refuses(Reason.InitialTooLarge)
      else if raw[5..37] != c.hash(cfg.token.value) then Refuses(WrongToken)
      else
        var accept := Accepts(frame, TermsOf(c.hash, cfg.token.value, cfg.encryptRelay, raw));
        if frame.mode.Ee? then
          if |frame.initialData| != HANDSHAKE_LEN then Refuses(NoHandshake)
          else if ParseHandshake(c.ks, c.hash, frame.initialData, cfg.secret).None? then Refuses(BadHandshake)
          else accept
        else if upstreamOk then accept
        else Refuses(UpstreamFailed)
  }

  /** The one answer that goes out for a verdict. A message too long for its length field is not sent. */
  function AckBytes(cfg: BackConfig, v: Verdict): (s: bytes)
    ensures s != [] && s[0] == ACK_OK ==> v.Accepts?
  {
    match v
    case Accepts(_, _) => [ACK_OK]
    case GivesUp => []
    case Refuses(reason) =>
      var msg := cfg.texts(reason);
      if |msg| > 0xFFFF then [] else [ACK_ERR] + PutU16(|msg|) + msg
  }

  /** What an accepting back has checked and what it holds. A session that is not ee has reached its server. */
  ghost predicate Vouches(c: Crypto, cfg: BackConfig, peer: nat, raw: bytes, v: Verdict, upstreamOk: bool) {
    && v.Accepts? && PeerAllowed(peer, cfg.allowlist)
    && cfg.token.Some? && Decode(raw) == Decoded(v.frame) && raw[5..37] == c.hash(cfg.token.value)
    && (if v.frame.mode.Ee?
        then |v.frame.initialData| == HANDSHAKE_LEN && ParseHandshake(c.ks, c.hash, v.frame.initialData, cfg.secret).Some?
        else upstreamOk)
    && v.terms == TermsOf(c.hash, cfg.token.value, cfg.encryptRelay, raw)
  }

  /** Writes the answer for a verdict; only an acceptance is flushed. */
  method SendAck(cfg: BackConfig, output: WriteHalf, v: Verdict) returns (ok: bool)
    modifies output
    ensures exists k :: 0 <= k <= |AckBytes(cfg, v)| && output.wire == old(output.wire) + AckBytes(cfg, v)[..k]
    ensures TakesAll(old(output.script), |AckBytes(cfg, v)|) ==> output.wire == old(output.wire) + AckBytes(cfg, v)
    ensures ok <==> if v.Accepts? then TakesFlushed(old(output.script), 1) else TakesAll(old(output.script), |AckBytes(cfg, v)|)
    ensures ok && v.Accepts? ==> output.wire == old(output.wire) + [ACK_OK]
  {
    hide TakesAll, AfterTaking, FlushRun;
    var buf := AckBytes(cfg, v);
    var sent := output.WriteAll(buf);
    assert buf[..|buf|] == buf;
    if sent.Drained? && v.Accepts? {
      sent := output.Flush();
    }
    ok := sent.Drained?;
  }

  /** What a back finds at the front of a connection from `peer` on which `s` arrives. */
  function BackVerdict(c: Crypto, cfg: BackConfig, peer: nat, s: bytes, upstreamOk: bool): (v: Verdict) {
    if !PeerAllowed(peer, cfg.allowlist) then Refuses(NotAllowed)
    else
      var found := FrameAtFront(s, MAX_INITIAL_LEN);
      if cfg.token.None? || !found.FrameRead? then GivesUp
      else VerdictOn(c, cfg, found.raw, upstreamOk)
  }

  /**
   What a back answers to the frame a front makes, in each mode, from the settings and the bytes alone:
   each refusal has its one reason, and acceptance is what is left. The token counts through its hash;
   a handshake is one if bytes 56..60 decrypt under the back's secret to one of the three tags.
   */
  lemma VerdictExactly(c: Crypto, cfg: BackConfig, peer: nat, token: text, mode: SecretMode, backend: text, initial: bytes,
                       encrypt: bool, rest: bytes, upstreamOk: bool)
    requires Fits(backend, initial)
    ensures var raw := Encode(c.hash, token, mode, backend, initial, encrypt).raw;
            var v := BackVerdict(c, cfg, peer, raw + rest, upstreamOk);
            var allowed := cfg.allowlist == [] || Some(peer) in cfg.allowlist;
            var known := allowed && cfg.token.Some? && c.hash(cfg.token.value) == c.hash(token);
            var tagged := |initial| == 64 && |cfg.secret| == 16
                          && Apply(c.ks, Ctr(c.hash(initial[8..40] + cfg.secret), initial[40..56], 56), initial[56..60])
                             in {[0xef, 0xef, 0xef, 0xef], [0xee, 0xee, 0xee, 0xee], [0xdd, 0xdd, 0xdd, 0xdd]};
            && (v == Refuses(NotAllowed) <==> !allowed)
            && (v == GivesUp <==> allowed && cfg.token.None?)
            && (v == Refuses(WrongToken) <==> allowed && cfg.token.Some? && c.hash(cfg.token.value) != c.hash(token))
            && (v == Refuses(NoHandshake) <==> known && mode == Ee && |initial| != 64)
            && (v == Refuses(BadHandshake) <==> known && mode == Ee && |initial| == 64 && !tagged)
            && (v == Refuses(UpstreamFailed) <==> known && mode != Ee && !upstreamOk)
            && (v.Accepts? <==> known && if mode == Ee then tagged else upstreamOk)
            && (v.Accepts? ==> v.frame == Frame(mode, backend, initial) && v.terms.encrypted == (encrypt && cfg.encryptRelay))
  {
    hide Encode, Decode, FrameAtFront, ParseHandshake, DeriveSessionKeys, Apply;
    var raw := Encode(c.hash, token, mode, backend, initial, encrypt).raw;
    EncodedIsRead(c.hash, token, mode, backend, initial, encrypt, rest);
    DecodeInvertsEncode(c.hash, token, mode, backend, initial, encrypt);
    EncodedLayout(c.hash, token, mode, backend, initial, encrypt, []);
    assert raw + [] == raw;
    if |initial| == 64 {
      TagDecides(c, initial, cfg.secret);
    }
  }

  lemma TagDecides(c: Crypto, h: handshake, secret: bytes)
    ensures ParseHandshake(c.ks, c.hash, h, secret).Some? <==>
            |secret| == 16
            && Apply(c.ks, Ctr(c.hash(h[8..40] + secret), h[40..56], 56), h[56..60])
               in {[0xef, 0xef, 0xef, 0xef], [0xee, 0xee, 0xee, 0xee], [0xdd, 0xdd, 0xdd, 0xdd]}
  {
    AcceptedExactly(c.ks, c.hash, h, secret);
    hide Apply, SecretCipher;
  }

  /** An answer read back: one byte for an acceptance; for a refusal one byte, the length of its text in two, and the text. */
  lemma AnswerReads(cfg: BackConfig, v: Verdict)
    ensures var s := AckBytes(cfg, v);
            && (v.Accepts? <==> s == [0]) && (v == GivesUp ==> s == [])
            && (v.Refuses? && |cfg.texts(v.reason)| <= 65_535 ==>
                  && |s| == 3 + |cfg.texts(v.reason)| && s[0] == 1 && 0x100 * (s[1] as nat) + s[2] == |cfg.texts(v.reason)|
                  && s[3..] == cfg.texts(v.reason))
            && (v.Refuses? && |cfg.texts(v.reason)| > 65_535 ==> s == [])
  {
    if v.Refuses? && |cfg.texts(v.reason)| <= 65_535 {
      var n := PutU16(|cfg.texts(v.reason)|);
      U16Is(n[0], n[1]);
      hide PutU16, U16;
      var s := AckBytes(cfg, v);
      assert s[1] == n[0] && s[2] == n[1];
    }
  }

  lemma U16Is(a: byte, b: byte)
    ensures U16([a, b]) == 0x100 * (a as nat) + b
  {
  }

  /**
   Takes a front's connection up to the answer. The back reads at most one frame, answers at most
   once, as the bytes that arrive demand unless the connection fails, and answers with OK only for a
   frame it vouches for.
   */
  method HandleBackConnection(c: Crypto, cfg: BackConfig, peer: nat, input: PrefixedStream, output: WriteHalf, upstreamOk: bool)
    returns (v: Verdict, ok: bool, ghost raw: bytes)
    requires input.Valid()
    modifies input, input.inner, output
    ensures input.Valid() && (raw != [] ==> old(input.Rest()) == raw + input.Rest())
    ensures v == BackVerdict(c, cfg, peer, old(input.Rest()), upstreamOk)
            || (v == GivesUp && input.Failures() < old(input.Failures()))
    ensures !PeerAllowed(peer, cfg.allowlist) ==> input.Rest() == old(input.Rest())
    ensures v.Accepts? ==> Vouches(c, cfg, peer, raw, v, upstreamOk) && FrameEnd(raw) == Some(|raw|)
    ensures exists k :: 0 <= k <= |AckBytes(cfg, v)| && output.wire == old(output.wire) + AckBytes(cfg, v)[..k]
    ensures TakesAll(old(output.script), |AckBytes(cfg, v)|) ==> output.wire == old(output.wire) + AckBytes(cfg, v)
    ensures ok <==> v.Accepts? && TakesFlushed(old(output.script), 1)
    ensures ok ==> output.wire == old(output.wire) + [ACK_OK]
  {
    hide Decode, ParseHandshake, PrefixedStream.Rest, PrefixedStream.View, PrefixedStream.Failures, AckBytes;
    hide TakesFlushed, TakesAll;
    hide FrameAtFront;
    raw := [];
    if !PeerAllowed(peer, cfg.allowlist) {
      v := Refuses(NotAllowed);
      ok := SendAck(cfg, output, v);
      return v, false, raw;
    }
    v, ok := GivesUp, false;
    assert AckBytes(cfg, v) == [] && output.wire == output.wire + AckBytes(cfg, v)[..0] by {
      SaysNothing(cfg);
    }
    if cfg.token.None? {
      return;
    }
    var read := ReadOpeningFrame(input, MAX_INITIAL_LEN);
    if !read.FrameRead? {
      return;
    }
    raw := read.raw;
    v := VerdictOn(c, cfg, read.raw, upstreamOk);
    var sent := SendAck(cfg, output, v);
    ok := sent && v.Accepts?;
  }

  lemma SaysNothing(cfg: BackConfig)
    ensures AckBytes(cfg, GivesUp) == []
  {
  }

  // ---------------------------------------------------------------- the front

  /** What becomes of the attempt on one back. */
  datatype Outcome =
    | NoConnection | WriteBreaks(written: nat) | FlushFails | NoAck | Answered(ack: byte)

  datatype DialError = ConnectFailed | WriteFailed | FlushFailed | AckFailed | Rejected | NoBackServers

  function SentIn(frame: bytes, o: Outcome): (s: bytes)
    ensures Prefix(s, frame)
  {
    match o
    case NoConnection => []
    case WriteBreaks(n) => frame[..Min(n, |frame|)]
    case _ => frame
  }

  function ErrorOf(o: Outcome): (e: DialError) {
    match o
    case NoConnection => ConnectFailed
    case WriteBreaks(_) => WriteFailed
    case FlushFails => FlushFailed
    case NoAck => AckFailed
    case Answered(_) => Rejected
  }

  /** The front's side of its connections: what it has written to each back, and how often it has dialled it. */
  class Dialer {
    var wires: seq<bytes>
    var dials: seq<nat>

    constructor (backs: nat)
      ensures |wires| == |dials| == backs && forall i :: 0 <= i < backs ==> wires[i] == [] && dials[i] == 0
    {
      wires, dials := seq(backs, _ => []), seq(backs, _ => 0);
    }

    /** Opens a connection, if the back can be reached. */
    method Dial(back: nat, o: Outcome) returns (connected: bool)
      requires back < |dials|
      modifies this`dials
      ensures connected <==> !o.NoConnection?
      ensures dials == old(dials)[back := old(dials)[back] + 1]
    {
      dials := dials[back := dials[back] + 1];
      connected := !o.NoConnection?;
    }

    method Write(back: nat, data: bytes)
      requires back < |wires|
      modifies this`wires
      ensures wires == old(wires)[back := old(wires)[back] + data]
    {
      wires := wires[back := wires[back] + data];
    }

    /** Sends the frame over one connection and reads one byte of answer. */
    method Attempt(back: nat, frame: bytes, o: Outcome) returns (error: Option<DialError>)
      requires back < |wires| && wires[back] == [] && !o.NoConnection?
      modifies this`wires
      ensures wires == old(wires)[back := SentIn(frame, o)]
      ensures error == if o == Answered(ACK_OK) then None else Some(ErrorOf(o))
      ensures match o
              case WriteBreaks(n) => wires[back] == frame[..if n < |frame| then n else |frame|] && error == Some(WriteFailed)
              case FlushFails => wires[back] == frame && error == Some(FlushFailed)
              case NoAck => wires[back] == frame && error == Some(AckFailed)
              case Answered(ack) => wires[back] == frame && error == if ack == 0 then None else Some(Rejected)
              case _ => true
    {
      assert [] + SentIn(frame, o) == SentIn(frame, o);
      if o.WriteBreaks? {
        Write(back, frame[..Min(o.written, |frame|)]);
        return Some(WriteFailed);
      }
      Write(back, frame);
      if o.FlushFails? {
        return Some(FlushFailed);
      }
      if o.NoAck? {
        return Some(AckFailed);
      }
      error := if o.ack == ACK_OK then None else Some(Rejected);
    }

    /**
     Tries the backs in order until one answers OK. Every back dialled is sent a prefix of the same
     frame and nothing else, those after the chosen one are sent nothing, and the chosen one is the
     first to answer OK. Each of them is dialled once, but the first not at all if a connection to it
     was made ahead; with one, `outcomes[0]` is what becomes of that connection.
     */
    method DialBacks(frame: bytes, preconnected: bool, outcomes: seq<Outcome>) returns (chosen: Option<nat>, lastError: Option<DialError>)
      requires |outcomes| == |wires| == |dials| && forall i :: 0 <= i < |wires| ==> wires[i] == [] && dials[i] == 0
      requires preconnected && outcomes != [] ==> outcomes[0] != NoConnection
      modifies this
      ensures |wires| == |dials| == |outcomes|
      ensures forall i :: 0 <= i < |outcomes| ==>
                dials[i] == if (chosen.Some? && i > chosen.value) || (preconnected && i == 0) then 0 else 1
      ensures chosen.Some? ==> chosen.value < |outcomes| && outcomes[chosen.value] == Answered(ACK_OK) && wires[chosen.value] == frame
      ensures forall i :: 0 <= i < |outcomes| && (chosen.Some? ==> i < chosen.value) ==> outcomes[i] != Answered(ACK_OK)
      ensures forall i :: 0 <= i < |outcomes| ==>
                wires[i] == if chosen.Some? && i > chosen.value then [] else SentIn(frame, outcomes[i])
      ensures chosen.None? ==> lastError == Some(if outcomes == [] then NoBackServers else ErrorOf(outcomes[|outcomes| - 1]))
    {
      hide SentIn;
      chosen, lastError := None, None;
      var ahead := preconnected;
      for i := 0 to |outcomes|
        invariant |wires| == |dials| == |outcomes| && chosen.None? && (ahead <==> preconnected && i == 0)
        invariant forall j :: 0 <= j < |outcomes| ==> dials[j] == if j < i && !(preconnected && j == 0) then 1 else 0
        invariant forall j :: 0 <= j < i ==> outcomes[j] != Answered(ACK_OK) && wires[j] == SentIn(frame, outcomes[j])
        invariant forall j :: i <= j < |outcomes| ==> wires[j] == []
        invariant lastError == if i == 0 then None else Some(ErrorOf(outcomes[i - 1]))
      {
        var connected := ahead;
        ahead := false;
        if !connected {
          connected := Dial(i, outcomes[i]);
        }
        if connected {
          lastError := Attempt(i, frame, outcomes[i]);
          if lastError.None? {
            SentWhole(frame, outcomes[i]);
            return Some(i), lastError;
          }
        } else {
          SentNothing(frame, outcomes[i]);
          lastError := Some(ConnectFailed);
        }
      }
      if lastError.None? {
        lastError := Some(NoBackServers);
      }
    }
  }

  lemma SentWhole(frame: bytes, o: Outcome)
    requires o.Answered?
    ensures SentIn(frame, o) == frame
  {
  }

  lemma SentNothing(frame: bytes, o: Outcome)
    requires o.NoConnection?
    ensures SentIn(frame, o) == []
  {
  }
}
