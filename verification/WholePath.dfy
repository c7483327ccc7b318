/**
 A whole ee session one way: from the bytes on the client's wire, through a front and a back, to what
 the data centre reads; held against a single node with the same secret that serves the same client.
 */
module WholePath {
  import opened Bytes
  import opened Options
  import opened Streams
  import opened SgfbCrypto
  import opened FakeTls
  import opened Obfuscated2
  import opened OpeningFrame
  import opened Split
  import opened Link
  import opened Uplink
  import opened DcRelay
  import Tls
  import Hello = ClientHelloAuth

  /**
   What the front's record stream carries is the application data of what the hello leaves behind it;
   and if the hello was peeked whole, that is the data peeked behind it and what a single node reads.
   */
  ghost predicate CarriesClient(peek: bytes, client: ReadScript) {
    && (HelloPeeked(peek) && WellFormed(BehindHello(peek, client)) ==> PayloadOf(peek, client) == Deframe(BehindHello(peek, client)))
    && (PeekedWhole(peek, client) ==>
          && PayloadOf(peek, client) == Deframe(BehindRecord(peek) + Arriving(client))
          && PayloadOf(peek, client) == Deframe(BehindRecord(peek)) + PayloadOf([], client)
          && (PayloadOf(peek, client) == PayloadOf([], client) <==> Deframe(BehindRecord(peek)) == []))
  }

  lemma PayloadIsDeframed(peek: bytes, client: ReadScript)
    ensures CarriesClient(peek, client)
  {
    hide U16, PayloadLen, LooksLikeHeader, WellFormed, WholeRecords, BehindHello, Deframe, Fills, Run, QuietPeek, BehindRecord;
    hide HelloPeeked, PayloadOf, Arriving;
    if HelloPeeked(peek) && WellFormed(BehindHello(peek, client)) {
      PeekedPayload(peek, client);
    }
    if PeekedWhole(peek, client) {
      SingleNodeDropsThePeek(peek, client);
      DeframeSplit(BehindRecord(peek), Arriving(client));
    }
  }

  lemma PeekedPayload(peek: bytes, client: ReadScript)
    requires HelloPeeked(peek) && WellFormed(BehindHello(peek, client))
    ensures PayloadOf(peek, client) == Deframe(BehindHello(peek, client))
  {
    hide WellFormed, BehindHello, Deframe, Fills, Run, HelloPeeked;
    PeekedHelloIsPassedOver(peek, client);
  }

  /** A fresh record stream over a peeked prefix and a socket carries what these two carry. */
  lemma FreshOutlook(tls: FakeTlsStream, peek: bytes, client: ReadScript)
    requires tls.input.Valid() && tls.readBuf == [] && tls.tlsStash == [] && tls.input.View() == AsChunk(peek) + client
    ensures tls.Outlook().payload == PayloadOf(peek, client)
  {
    hide Run, Fills;
    assert [] + tls.Coming().payload == tls.Coming().payload;
  }

  /** The front's record stream over the peeked hello and the client's socket. */
  method RecordStream(peek: bytes, client: ReadScript) returns (tls: FakeTlsStream)
    ensures fresh(tls) && fresh(tls.input) && fresh(tls.input.inner)
    ensures tls.input.Valid() && tls.Outlook().payload == PayloadOf(peek, client)
  {
    hide PayloadOf, FakeTlsStream.Outlook;
    var net := new ReadHalf(client);
    var input := new PrefixedStream(peek, net);
    var output := new WriteHalf([]);
    tls := new FakeTlsStream(input, output, None, []);
    FreshOutlook(tls, peek, client);
  }

  /**
   The first half: `Uplink.EndToEnd` for a record stream over a peeked hello and the client's socket.
   The payload it speaks of is the application data of the client's records.
   */
  method ClientToBack(c: Crypto, aead: Aead, cfg: FrontConfig, backCfg: BackConfig, peer: nat, peek: bytes, client: ReadScript,
                      link: WriteHalf, early: bytes -> ReadScript, reply: bytes -> ReadScript, late: bytes -> ReadScript,
                      backOut: WriteHalf)
    returns (front: Opening, verdict: Verdict, ok: bool, acked: bool, p: Passage, ghost pieces: seq<bytes>, ghost sent: bytes)
    requires Lawful(aead) && link.wire == [] && backOut.wire == [] && link != backOut
    requires forall wire: bytes :: Prefix(Arriving(early(wire)), wire)
    requires forall wire: bytes :: Prefix(Arriving(reply(wire)), wire)
    requires forall wire: bytes :: Prefix(Arriving(late(wire)), wire)
    modifies link, backOut
    ensures CarriesClient(peek, client)
    ensures front.FrameSent? ==> |PayloadOf(peek, client)| >= HANDSHAKE_LEN && front.handshake == PayloadOf(peek, client)[..HANDSHAKE_LEN]
    ensures front.FrameSent? && (ok || acked) ==> Serves(c, cfg, backCfg, front.handshake, front.frame, verdict)
    ensures front.FrameSent? && ok && acked && Agree(cfg, backCfg) ==>
              CameThrough(cfg.encryptRelay, front.handshake, p, PayloadOf(peek, client),
                          AfterFlushed(old(link.script), |front.frame|), pieces, sent, Arriving(late(sent)))
    ensures p.handed ==> front.FrameSent? && ok && acked
  {
    hide Run, Concat, Arriving, Lawful, RestOf, CameThrough, Serves, Willing, Fills, CarriesClient;
    hide TakesFlushed, AfterFlushed, PayloadOf, PrefixedStream.View, PrefixedStream.Failures, FakeTlsStream.Outlook;
    PayloadIsDeframed(peek, client);
    var tls := RecordStream(peek, client);
    front, verdict, ok, acked, p, pieces, sent := EndToEnd(c, aead, cfg, backCfg, peer, tls, link, early, reply, late, backOut);
  }

  /** The stream that was to be copied ended, or has nothing more for now. */
  predicate RanDry(end: DcEnd) {
    end.Relayed? && (end.rest.Ended? || end.rest.Waits?)
  }

  /** It broke, before its handshake was read or behind it. */
  predicate BrokeOff(end: DcEnd) {
    end.NotAccepted? || (end.Relayed? && end.rest.Broke?)
  }

  /**
   The second half: what the back does with the stream it is handed, `relay` being any chunking of what
   was decrypted, with stalls and failures anywhere.
   */
  method BackToDc(c: Crypto, secret: bytes, frame: Frame, delivered: bytes, relay: ReadScript, dcOut: WriteHalf, draws: seq<handshake>)
    returns (end: DcEnd, ghost copied: seq<bytes>)
    requires ValidHandshake(c, secret, frame.initialData) && dcOut.wire == []
    requires Arriving(relay) == delivered
    modifies dcOut
    ensures var u, seen := Served(c, secret, FrameDc(c, secret, frame), frame.initialData + delivered), DcView(c.ks, dcOut.wire);
            var start := AfterFlushed(old(dcOut.script), 64);
            && (BrokeOff(end) ==> u.None? || Fails(relay) > 0)
            && (end.Relayed? ==>
                  && u.Some? && seen.Some? && seen.value.dc == u.value.dc && seen.value.protoTag == u.value.protoTag
                  && (OnceAll(start, copied) ==> Prefix(seen.value.plain, u.value.plain))
                  && (RanDry(end) ==> (seen == u <==> CopiesAll(start, copied))))
  {
    hide Arriving, Fails, Served, DcView, AfterFlushed, TakesFlushed, OnceAll, CopiesAll, Concat, ParseHandshake, FrameDc;
    hide PrefixedStream.Rest, PrefixedStream.View, PrefixedStream.Failures;
    var net := new ReadHalf(relay);
    var input := new PrefixedStream(frame.initialData, net);
    InputRest(input, frame.initialData, delivered, relay);
    var dcNet := new ReadHalf([]);
    var dcIn := new PrefixedStream([], dcNet);
    var clientOut := new WriteHalf([]);
    end, copied := RelayToDc(c, secret, FrameDc(c, secret, frame), input, clientOut, dcIn, dcOut, draws);
  }

  /** How a session went: at the front, at the back, on the way between them, and at the data centre. */
  datatype Journey = Journey(front: Opening, ok: bool, acked: bool, passage: Passage, end: Option<DcEnd>)

  /** What a data centre was told, against what a single node would have told it. */
  ghost predicate HeldAgainst(seen: Option<Upstream>, single: Option<Upstream>, end: DcEnd, once: bool, carried: bool, copied: bool) {
    && single.Some?
    && (end.Relayed? ==>
          && TellSame(seen, single) && seen.Some?
          && (once ==> Prefix(seen.value.plain, single.value.plain))
          && (RanDry(end) && carried ==> (seen == single <==> copied)))
  }

  /**
   Both halves. `cut` is any way in which the back's relay stream hands over what it decrypts, with stalls
   and failures anywhere. The data centre is not contacted unless a raw byte reached the back behind its
   answer. If it is, it is told the index and the tag that a single node would tell it, and a prefix of the
   same stream unless something was sealed or encrypted twice; and when nothing was lost or broke and the
   link carried every piece as it should, it is contacted exactly if there is data behind the handshake, and
   told exactly what a single node would tell it precisely if its connection copied every piece as it should.
   The single node here is one that is given the front's payload; `CarriesClient` says what that is, and
   when a single node's own record stream carries the same.
   */
  method ClientToDc(c: Crypto, aead: Aead, cfg: FrontConfig, backCfg: BackConfig, peer: nat, peek: bytes, client: ReadScript,
                    link: WriteHalf, early: bytes -> ReadScript, reply: bytes -> ReadScript, late: bytes -> ReadScript,
                    backOut: WriteHalf, cut: bytes -> ReadScript, dcOut: WriteHalf, draws: seq<handshake>)
    returns (j: Journey, ghost pieces: seq<bytes>, ghost sent: bytes, ghost copied: seq<bytes>)
    requires Lawful(aead) && link.wire == [] && backOut.wire == [] && dcOut.wire == []
    requires link != backOut && dcOut != backOut && dcOut != link
    requires forall wire: bytes :: Prefix(Arriving(early(wire)), wire)
    requires forall wire: bytes :: Prefix(Arriving(reply(wire)), wire)
    requires forall wire: bytes :: Prefix(Arriving(late(wire)), wire)
    requires forall text: bytes :: Arriving(cut(text)) == text
    modifies link, backOut, dcOut
    ensures CarriesClient(peek, client)
    ensures j.end.Some? <==> j.front.FrameSent? && j.ok && j.acked && j.passage.handed
    ensures j.end.None? ==> dcOut.wire == []
    ensures j.end.Some? && Agree(cfg, backCfg) && BrokeOff(j.end.value) ==> Fails(cut(j.passage.delivered)) > 0
    ensures j.end.Some? && Agree(cfg, backCfg) ==>
              var start, dcStart := AfterFlushed(old(link.script), |j.front.frame|), AfterFlushed(old(dcOut.script), 64);
              HeldAgainst(DcView(c.ks, dcOut.wire), Monolith(c, backCfg.secret, cfg.backend, PayloadOf(peek, client)), j.end.value,
                          LinkOnce(cfg.encryptRelay, start, pieces) && OnceAll(dcStart, copied),
                          Clean(j.passage) && Arriving(late(sent)) == sent && LinkCarries(cfg.encryptRelay, start, pieces),
                          CopiesAll(dcStart, copied))
    ensures j.front.FrameSent? && j.ok && j.acked && Agree(cfg, backCfg) && Clean(j.passage) && Arriving(late(sent)) == sent
            && LinkCarries(cfg.encryptRelay, AfterFlushed(old(link.script), |j.front.frame|), pieces) ==>
              (j.end.Some? <==> |PayloadOf(peek, client)| > HANDSHAKE_LEN)
  {
    hide Concat, Arriving, Fails, Lawful, LinkOnce, LinkCarries, OnceAll, CopiesAll, HeldAgainst, AfterFlushed, Served, Monolith;
    hide ValidHandshake, DcView, CarriesClient, PayloadOf, FrameDc, Agree, Clean, BrokeOff, RanDry;
    copied := [];
    ghost var payload := PayloadOf(peek, client);
    PayloadIsDeframed(peek, client);
    var front, verdict, ok, acked, p;
    front, verdict, ok, acked, p, pieces, sent :=
      ClientToBack(c, aead, cfg, backCfg, peer, peek, client, link, early, reply, late, backOut);
    j := Journey(front, ok, acked, p, None);
    if !p.handed {
      return;
    }
    ServesFrame(c, cfg, backCfg, front.handshake, front.frame, verdict);
    var end;
    end, copied := BackToDc(c, backCfg.secret, verdict.frame, p.delivered, cut(p.delivered), dcOut, draws);
    j := Journey(front, ok, acked, p, Some(end));
    if Agree(cfg, backCfg) {
      AgainstSingle(c, cfg, backCfg, front.handshake, front.frame, verdict, payload, p.delivered);
      ghost var start, dcStart := AfterFlushed(old(link.script), |front.frame|), AfterFlushed(old(dcOut.script), 64);
      ghost var once, carried := LinkOnce(cfg.encryptRelay, start, pieces), LinkCarries(cfg.encryptRelay, start, pieces);
      Chained(DcView(c.ks, dcOut.wire), Served(c, backCfg.secret, FrameDc(c, backCfg.secret, verdict.frame), front.handshake + p.delivered),
              Monolith(c, backCfg.secret, cfg.backend, payload), end, front.handshake + p.delivered, payload,
              once, OnceAll(dcStart, copied), Clean(p) && Arriving(late(sent)) == sent && carried, CopiesAll(dcStart, copied));
    }
  }

  lemma ServesFrame(c: Crypto, cfg: FrontConfig, backCfg: BackConfig, h: bytes, frame: bytes, v: Verdict)
    requires Serves(c, cfg, backCfg, h, frame, v)
    ensures v.frame == Frame(Ee, cfg.backend, h) && ValidHandshake(c, backCfg.secret, h)
    ensures |h| == HANDSHAKE_LEN
  {
    hide ParseHandshake;
  }

  /** From what was handed over to what the data centre was told. */
  lemma Chained(seen: Option<Upstream>, u: Option<Upstream>, single: Option<Upstream>, end: DcEnd, stream: bytes, payload: bytes,
                linkOnce: bool, dcOnce: bool, carried: bool, copied: bool)
    requires u.Some? && TellSame(u, single) && (Prefix(stream, payload) ==> Prefix(u.value.plain, single.value.plain))
    requires (u == single <==> stream == payload) && (linkOnce ==> Prefix(stream, payload)) && (carried ==> stream == payload)
    requires end.Relayed? ==>
               && seen.Some? && seen.value.dc == u.value.dc && seen.value.protoTag == u.value.protoTag
               && (dcOnce ==> Prefix(seen.value.plain, u.value.plain))
               && (RanDry(end) ==> (seen == u <==> copied))
    ensures HeldAgainst(seen, single, end, linkOnce && dcOnce, carried, copied)
  {
    if end.Relayed? && linkOnce && dcOnce {
      PrefixOfPrefix(seen.value.plain, u.value.plain, single.value.plain);
    }
  }

  lemma InputRest(input: PrefixedStream, h: bytes, delivered: bytes, script: ReadScript)
    requires input.Valid() && input.View() == AsChunk(h) + script && Arriving(script) == delivered
    ensures input.Rest() == h + delivered && input.Failures() == Fails(script)
  {
    PrefixArrives(h, script);
  }

  /** What an accepted session's stream comes to at the data centre, against a single node's. */
  lemma AgainstSingle(c: Crypto, cfg: FrontConfig, backCfg: BackConfig, h: bytes, frame: bytes, v: Verdict, payload: bytes,
                      delivered: bytes)
    requires Serves(c, cfg, backCfg, h, frame, v) && |payload| >= HANDSHAKE_LEN && h == payload[..HANDSHAKE_LEN]
    ensures |h| == HANDSHAKE_LEN && v.frame.initialData == h
    ensures var u := Served(c, backCfg.secret, FrameDc(c, backCfg.secret, v.frame), h + delivered);
            var single := Monolith(c, backCfg.secret, cfg.backend, payload);
            && u.Some? && single.Some? && TellSame(u, single)
            && (Prefix(h + delivered, payload) ==> Prefix(u.value.plain, single.value.plain))
            && (u == single <==> h + delivered == payload)
  {
    hide Served, Monolith, FrameDc, Apply, SplitBack, ParseHandshake;
    ServesFrame(c, cfg, backCfg, h, frame, v);
    BackServesAlike(c, backCfg.secret, cfg.backend, payload, [0], delivered);
    ServedBack(c, backCfg.secret, v.frame, delivered);
    ValidIsServed(c, backCfg.secret, h, cfg.backend, payload);
    Behind(h, delivered, payload);
  }

  lemma Behind(h: bytes, delivered: bytes, payload: bytes)
    requires |payload| >= |h| && h == payload[..|h|]
    ensures h + delivered == payload <==> delivered == payload[|h|..]
    ensures Prefix(h + delivered, payload) ==> Prefix(delivered, payload[|h|..])
  {
    assert payload == h + payload[|h|..];
    assert (h + delivered)[|h|..] == delivered;
    if Prefix(h + delivered, payload) {
      assert delivered == payload[..|h + delivered|][|h|..] == payload[|h|..][..|delivered|];
    }
  }

  lemma ServedBack(c: Crypto, secret: bytes, frame: Frame, delivered: bytes)
    requires |frame.initialData| == HANDSHAKE_LEN && ParseHandshake(c.ks, c.hash, frame.initialData, secret).Some?
    ensures SplitBack(c, secret, frame, [0], delivered) == Served(c, secret, FrameDc(c, secret, frame), frame.initialData + delivered)
  {
    hide Served, FrameDc;
  }

  lemma ValidIsServed(c: Crypto, secret: bytes, h: bytes, backend: bytes, payload: bytes)
    requires ValidHandshake(c, secret, h) && |payload| >= HANDSHAKE_LEN && h == payload[..HANDSHAKE_LEN]
    ensures Monolith(c, secret, backend, payload).Some?
  {
    hide Apply, ParseHandshake;
  }

  // ---------------------------------------------------------------- a hello that both gates admit and only a single node reads

  const ODD_REST: bytes := [0x17, 3, 3, 0, 1, 0xAA, 0, 2, 0x13, 1, 1, 0, 0, 0]

  /** A hello whose session id spells an application-data record; and a record of version 03 02 that holds it. */
  function OddMessage(random: digest): (m: bytes)
    ensures |m| == 53 && m[6..38] == random && m[39..] == ODD_REST
  {
    [1, 0, 0, 0x31, 3, 3] + random + ([6] + ODD_REST)
  }

  function OddHello(random: digest): (buf: bytes)
    ensures |buf| == 58 && buf[5..] == OddMessage(random) && U16([buf[3], buf[4]]) == 53 && buf[0] == TLS_HANDSHAKE
  {
    [0x16, 3, 2, 0, 0x35] + OddMessage(random)
  }

  /**
   Neither gate looks at the record's version, but the front's record stream does: it searches the
   hello for a header it knows, and delivers what it finds there. A single node has taken the hello off.
   */
  lemma RecordVersionMatters(secret: bytes) returns (hmac: Hello.Hmac, peek: bytes)
    ensures FrontAdmits(hmac, peek, secret, 0) && MonolithAdmits(hmac, peek, secret, 0)
    ensures PayloadOf(peek, []) == [0xAA] && PayloadOf([], []) == []
  {
    var random: digest := seq(32, _ => 0);
    hmac, peek := (key, data) => random, OddHello(random);
    hide OddHello, PayloadOf;
    OddHelloIsAdmitted(hmac, random, secret);
    OddHelloIsMisread(random);
  }

  lemma OddHelloIsAdmitted(hmac: Hello.Hmac, random: digest, secret: bytes)
    requires forall key, data :: hmac(key, data) == random
    ensures FrontAdmits(hmac, OddHello(random), secret, 0) && MonolithAdmits(hmac, OddHello(random), secret, 0)
  {
    var buf := OddHello(random);
    OddHelloParses(random);
    hide OddHello, U16, Hello.ParseClientHelloRecord, Hello.ParseClientHelloPrefix, Hello.Validate;
    OwnHashIsValid(hmac, Hello.ParseClientHelloRecord(buf).value, secret);
    GatesDifferExactly(hmac, buf, secret, 0);
  }

  /** A random that is the keyed hash itself was signed at time zero. */
  lemma OwnHashIsValid(hmac: Hello.Hmac, ch: Hello.ParsedClientHello, secret: bytes)
    requires |ch.raw| >= Hello.RANDOM_END && ch.random == hmac(secret, Hello.Blank(ch.raw))
    ensures Hello.Validate(hmac, ch, secret, 0) == Hello.Valid
  {
    hide Xor, U32, Hello.Blank;
    var left := Hello.Mix(ch.random, ch.random);
    forall i | 0 <= i < 32
      ensures left[i] == 0
    {
      XorIsZero(ch.random[i], ch.random[i]);
    }
    ZeroAsNumber();
    hide Hello.Mix;
  }

  lemma ZeroAsNumber()
    ensures U32([0, 0, 0, 0]) == 0
  {
  }

  lemma OddHelloParses(random: digest)
    ensures var ch := Hello.ParseClientHelloRecord(OddHello(random));
            ch.Some? && |ch.value.raw| >= Hello.RANDOM_END && ch.value.random == random
  {
    hide Tls.ParseClientHello, Tls.LaidOut, OddHello, OddMessage, U16;
    var buf := OddHello(random);
    OddMessageIsLaidOut(random, OddMessage(random));
    Tls.LaidOutParses(OddMessage(random), [3, 3], random, ODD_REST[..6], ODD_REST[8..10], ODD_REST[11..12], []);
    assert buf[5..58] == OddMessage(random) && |buf[..58]| == 58;
  }

  lemma OddMessageIsLaidOut(random: digest, p: bytes)
    requires p == OddMessage(random)
    ensures Tls.LaidOut(p, [3, 3], random, ODD_REST[..6], ODD_REST[8..10], ODD_REST[11..12], [])
  {
    hide U16;
    TwoBytes(p[2], p[3]);
    TwoBytes(p[45], p[46]);
    TwoBytes(p[51], p[52]);
    var z := ODD_REST;
    assert p[4..6] == [3, 3] && p[6..38] == random && p[39..] == z;
    assert p[39..45] == z[..6] && p[47..49] == z[8..10] && p[50..51] == z[11..12];
    assert p[45] == z[6] && p[46] == z[7] && p[49] == z[10] && p[51] == z[12] && p[52] == z[13];
  }

  lemma TwoBytes(a: byte, b: byte)
    ensures U16([a, b]) == 0x100 * a + b
  {
  }

  lemma OddHelloIsMisread(random: digest)
    requires forall i :: 0 <= i < 32 ==> random[i] == 0
    ensures PayloadOf(OddHello(random), []) == [0xAA] && PayloadOf([], []) == []
  {
    var buf: segment, rest: segment := OddHello(random), ODD_REST;
    hide OddHello, OddMessage, Run, FindHeader, Fills, U16, Deframe;
    assert buf[44..] == buf[5..][39..] == rest && LooksLikeHeader(rest);
    OddHelloHasNoHeader(random);
    assert !LooksLikeHeader(buf) by {
      assert buf[0..] == buf;
    }
    hide LooksLikeHeader;
    FindsFirst(buf, 0, 44);
    ShortPeek(buf);
    FirstFillIsKeptExactly(buf, []);
    assert [buf] == [buf] + [];
    OddRecordRuns(rest);
    NothingCarried();
  }

  /** A short peek is one fill. */
  lemma ShortPeek(peek: segment)
    requires |peek| <= FILL
    ensures Fills(AsChunk(peek) + []) == [peek]
  {
    PeekedFills(peek, []);
    assert peek[..|peek|] == peek && peek[|peek|..] == [] && Fills([]) == [];
  }

  lemma NothingCarried()
    ensures PayloadOf([], []) == []
  {
  }

  lemma OddHelloHasNoHeader(random: digest)
    requires forall i :: 0 <= i < 32 ==> random[i] == 0
    ensures forall k :: 0 <= k < 44 ==> !LooksLikeHeader(OddHello(random)[k..])
  {
    var buf, m := OddHello(random), OddMessage(random);
    forall k | 0 <= k < 44
      ensures !LooksLikeHeader(buf[k..])
    {
      assert buf[k..][0] == buf[k] && buf[k..][2] == buf[k + 2];
      if k >= 5 {
        assert buf[k] == m[k - 5];
        assert 6 <= k - 5 < 38 ==> m[k - 5] == random[k - 11];
      }
    }
  }

  lemma OddRecordRuns(rest: segment)
    requires rest == ODD_REST
    ensures Run(rest, []) == Deframed([0xAA], false)
  {
    var behind: bytes := [0, 2, 0x13, 1, 1, 0, 0, 0];
    assert PayloadLen(rest) == 1 && PayloadLen(behind) == 0x101;
    assert rest[5..6] == [0xAA] && rest[6..] == behind;
    hide PayloadLen, Resync, Abandon;
    assert Run(behind, []) == Deframed([], false);
  }
}
