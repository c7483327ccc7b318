/**
 The last leg of an ee session: accept the client's obfuscated2 handshake, open an obfuscated2
 connection to the data centre, copy. A single node runs it on the client's record stream, a back on
 the handshake from the opening frame followed by the decrypted relay; the data centre cannot tell.
 */
module DcRelay {
  import opened Bytes
  import opened Options
  import opened Streams
  import opened Utf8
  import opened FakeTls
  import opened Obfuscated2
  import opened OpeningFrame
  import opened Split

  /** What the data centre is told and sent: the index, the tag, and the client's stream in the clear. */
  datatype Upstream = Upstream(dc: i16, protoTag: bytes, plain: bytes)

  /** The address part of `host:port`. */
  function HostOf(backend: bytes): (host: bytes) {
    if backend == [] || backend[0] == 0x3A then [] else [backend[0]] + HostOf(backend[1..])
  }

  // 149.154.175.100, 149.154.167.51, 149.154.175.50 and 91.108.56.100
  const DC_1: bytes := [0x31, 0x34, 0x39, 0x2e, 0x31, 0x35, 0x34, 0x2e, 0x31, 0x37, 0x35, 0x2e, 0x31, 0x30, 0x30]
  const DC_3: bytes := [0x31, 0x34, 0x39, 0x2e, 0x31, 0x35, 0x34, 0x2e, 0x31, 0x36, 0x37, 0x2e, 0x35, 0x31]
  const DC_4: bytes := [0x31, 0x34, 0x39, 0x2e, 0x31, 0x35, 0x34, 0x2e, 0x31, 0x37, 0x35, 0x2e, 0x35, 0x30]
  const DC_5: bytes := [0x39, 0x31, 0x2e, 0x31, 0x30, 0x38, 0x2e, 0x35, 0x36, 0x2e, 0x31, 0x30, 0x30]

  /** The index guessed from an address; the two addresses of data centre 2 share its case with all others. */
  function DcIdFromBackend(backend: bytes): (dc: i16)
    ensures dc != 0
  {
    var host := HostOf(backend);
    if host == DC_4 then 4 else if host == DC_3 then 3 else if host == DC_1 then 1 else if host == DC_5 then 5 else 2
  }

  /** Whatever port follows it, an address that is known gives its data centre, and any other gives the second. */
  lemma KnownAddresses(host: bytes, port: bytes)
    requires 0x3A !in host
    ensures var dc := DcIdFromBackend(host + [0x3A] + port);
            && dc == DcIdFromBackend(host)
            && (dc == 4 <==> host == [0x31, 0x34, 0x39, 0x2e, 0x31, 0x35, 0x34, 0x2e, 0x31, 0x37, 0x35, 0x2e, 0x35, 0x30])
            && (dc == 3 <==> host == [0x31, 0x34, 0x39, 0x2e, 0x31, 0x35, 0x34, 0x2e, 0x31, 0x36, 0x37, 0x2e, 0x35, 0x31])
            && (dc == 1 <==> host == [0x31, 0x34, 0x39, 0x2e, 0x31, 0x35, 0x34, 0x2e, 0x31, 0x37, 0x35, 0x2e, 0x31, 0x30, 0x30])
            && (dc == 5 <==> host == [0x39, 0x31, 0x2e, 0x31, 0x30, 0x38, 0x2e, 0x35, 0x36, 0x2e, 0x31, 0x30, 0x30])
            && 1 <= dc <= 5
  {
    HostBeforePort(host, [0x3A] + port);
    HostBeforePort(host, []);
    assert host + [0x3A] + port == host + ([0x3A] + port) && host + [] == host;
    assert |DC_4| == 14 && |DC_3| == 14 && |DC_1| == 15 && |DC_5| == 13 && DC_4[10] != DC_3[10];
    hide HostOf;
  }

  lemma {:induction false} HostBeforePort(host: bytes, rest: bytes)
    requires 0x3A !in host && (rest == [] || rest[0] == 0x3A)
    ensures HostOf(host + rest) == host
  {
    if host == [] {
      assert host + rest == rest;
    } else {
      assert (host + rest)[1..] == host[1..] + rest;
      HostBeforePort(host[1..], rest);
    }
  }

  /** What a stream that starts with a handshake is to become upstream, if the handshake is valid. */
  function Served(c: Crypto, secret: bytes, fallback: i16, stream: bytes): (u: Option<Upstream>) {
    if |stream| < HANDSHAKE_LEN then None
    else
      var a := Accept(c.ks, c.hash, stream[..HANDSHAKE_LEN], secret);
      if a.None? then None
      else Some(Upstream(if a.value.dcId != 0 then a.value.dcId else fallback, a.value.protoTag,
                         Apply(c.ks, a.value.dec, stream[HANDSHAKE_LEN..])))
  }

  /** What a data centre makes of the bytes it receives, and of nothing else. */
  function DcView(ks: Keystream, wire: bytes): (u: Option<Upstream>) {
    if |wire| < HANDSHAKE_LEN then None
    else
      var p := PeerOf(ks, wire[..HANDSHAKE_LEN]);
      Some(Upstream(p.dc, p.protoTag, Apply(ks, p.receive, wire[HANDSHAKE_LEN..])))
  }

  /** The client's index and tag, its index only if it names one, and its text: what a client's stream says under a secret. */
  lemma ServedSays(c: Crypto, secret: bytes, fallback: i16, stream: bytes)
    ensures |stream| < 64 ==> Served(c, secret, fallback, stream).None?
    ensures |stream| >= 64 ==>
              var key, iv := c.hash(stream[8..40] + secret), stream[40..56];
              var tag, index := Apply(c.ks, Ctr(key, iv, 56), stream[56..60]), Apply(c.ks, Ctr(key, iv, 60), stream[60..62]);
              var u := Served(c, secret, fallback, stream);
              && (u.Some? <==> |secret| == 16
                               && tag in {[0xef, 0xef, 0xef, 0xef], [0xee, 0xee, 0xee, 0xee], [0xdd, 0xdd, 0xdd, 0xdd]})
              && (u.Some? ==>
                    && u.value.protoTag == tag && u.value.plain == Apply(c.ks, Ctr(key, iv, 64), stream[64..])
                    && (if index == [0, 0] then u.value.dc == fallback
                        else u.value.dc % 0x1_0000 == index[0] + 0x100 * (index[1] as nat)))
  {
    if |stream| >= 64 {
      var h := stream[..64];
      AcceptedExactly(c.ks, c.hash, h, secret);
      assert h[8..40] == stream[8..40] && h[40..56] == stream[40..56] && h[56..60] == stream[56..60] && h[60..62] == stream[60..62];
      hide Apply, Accept;
    }
  }

  /** What a data centre reads, from the bytes on its wire. */
  lemma DcViewSays(ks: Keystream, wire: bytes)
    requires |wire| >= 64
    ensures var key, iv, u := wire[8..40], wire[40..56], DcView(ks, wire);
            var index := Apply(ks, Ctr(key, iv, 60), wire[60..62]);
            && u.Some? && u.value.protoTag == Apply(ks, Ctr(key, iv, 56), wire[56..60])
            && u.value.dc % 0x1_0000 == index[0] + 0x100 * (index[1] as nat)
            && u.value.plain == Apply(ks, Ctr(key, iv, 64), wire[64..])
  {
    var h := wire[..64];
    PeerSays(ks, h);
    assert h[8..40] == wire[8..40] && h[40..56] == wire[40..56] && h[56..60] == wire[56..60] && h[60..62] == wire[60..62];
    hide Apply, PeerOf;
  }

  // ---------------------------------------------------------------- what a sink makes of the pieces that are copied to it

  /** A sink takes some of a piece of `n` bytes at the first attempt, then the rest, and is flushed behind it. */
  predicate Copies(script: WriteScript, n: nat) {
    TakesSome(script) && FlushRun(n - Min(script[0].n, n), script[1..]).0.Drained?
  }

  function AfterCopy(script: WriteScript, n: nat): (rest: WriteScript) {
    if TakesSome(script) then FlushRun(n - Min(script[0].n, n), script[1..]).1 else script
  }

  /** The script once the pieces have been copied. */
  function SinkAt(script: WriteScript, pieces: seq<bytes>): (rest: WriteScript) {
    if pieces == [] then script
    else AfterCopy(SinkAt(script, pieces[..|pieces| - 1]), |pieces[|pieces| - 1]|)
  }

  /** Piece by piece, the sink copies them all. */
  predicate CopiesAll(script: WriteScript, pieces: seq<bytes>) {
    pieces == [] ||
    var init := pieces[..|pieces| - 1];
    CopiesAll(script, init) && Copies(SinkAt(script, init), |pieces[|pieces| - 1]|)
  }

  /** It copies all but the last, and that is encrypted once. */
  predicate OnceAll(script: WriteScript, pieces: seq<bytes>) {
    pieces == [] ||
    var init := pieces[..|pieces| - 1];
    CopiesAll(script, init) && EncryptsOnce(SinkAt(script, init), |pieces[|pieces| - 1]|)
  }

  lemma OnePieceMore(script: WriteScript, pieces: seq<bytes>, piece: bytes)
    ensures Concat(pieces + [piece]) == Concat(pieces) + piece
    ensures SinkAt(script, pieces + [piece]) == AfterCopy(SinkAt(script, pieces), |piece|)
    ensures CopiesAll(script, pieces + [piece]) <==> CopiesAll(script, pieces) && Copies(SinkAt(script, pieces), |piece|)
    ensures OnceAll(script, pieces + [piece]) <==> CopiesAll(script, pieces) && EncryptsOnce(SinkAt(script, pieces), |piece|)
  {
    ConcatAppend(pieces, piece);
    assert (pieces + [piece])[..|pieces|] == pieces;
  }

  /** How the text that was encrypted compares with the pieces, as long as every one was written and flushed. */
  ghost predicate Copied(start: WriteScript, pieces: seq<bytes>, before: bytes, plain: bytes, script: WriteScript) {
    if CopiesAll(start, pieces) then plain == before + Concat(pieces) && script == SinkAt(start, pieces) && OnceAll(start, pieces)
    else |plain| > |before + Concat(pieces)| && !OnceAll(start, pieces)
  }

  /** And when the last one got stuck. */
  ghost predicate Stuck(start: WriteScript, pieces: seq<bytes>, before: bytes, plain: bytes) {
    !CopiesAll(start, pieces) && (plain == before + Concat(pieces) <==> OnceAll(start, pieces))
  }

  /** What copying one piece to a drained stream comes to. */
  ghost predicate Sent(r: DrainPoll, piece: bytes, script: WriteScript, after: WriteScript, plain: bytes, plain': bytes) {
    && Prefix(plain + piece, plain')
    && (plain' == plain + piece <==> EncryptsOnce(script, |piece|))
    && (r.Drained? && plain' == plain + piece <==> Copies(script, |piece|))
    && (Copies(script, |piece|) ==> after == AfterCopy(script, |piece|))
  }

  lemma NothingCopied(start: WriteScript, before: bytes)
    ensures Copied(start, [], before, before, start)
  {
    assert before + Concat([]) == before;
  }

  lemma CopiedOneMore(start: WriteScript, pieces: seq<bytes>, before: bytes, plain: bytes, script: WriteScript,
                      r: DrainPoll, piece: bytes, plain': bytes, after: WriteScript)
    requires Copied(start, pieces, before, plain, script) && Sent(r, piece, script, after, plain, plain')
    ensures if r.Drained? then Copied(start, pieces + [piece], before, plain', after)
            else Stuck(start, pieces + [piece], before, plain')
  {
    hide CopiesAll, OnceAll, Copies, AfterCopy, SinkAt, EncryptsOnce, Concat;
    OnePieceMore(start, pieces, piece);
    assert before + Concat(pieces) + piece == before + (Concat(pieces) + piece);
  }

  // ---------------------------------------------------------------- copying

  /** Writes and flushes a piece. */
  method Forward(to: ObfuscatedStream, data: bytes) returns (r: DrainPoll)
    requires to.Aligned() && to.pendingWrite == [] && data != []
    modifies to`pendingWrite, to`plain, to.enc, to.output
    ensures to.Spelled() && (!r.DrainError? ==> to.Aligned()) && (r.Drained? ==> to.pendingWrite == [])
    ensures Sent(r, data, old(to.output.script), to.output.script, old(to.plain), to.plain)
    ensures r.DrainPending? ==> to.output.script == []
  {
    hide Apply, Xor, FlushRun, TakesAll, ObfuscatedStream.Spelled, ObfuscatedStream.Aligned, EncryptsOnce;
    r := to.WriteAll(data);
    if r.Drained? {
      FlushRunEnds(|to.pendingWrite|, to.output.script);
      r := to.Flush();
      IsSpelled(to);
    }
  }

  lemma IsSpelled(s: ObfuscatedStream)
    requires s.Aligned()
    ensures s.Spelled()
  {
    hide Apply;
  }

  /**
   The copy loop between two obfuscated streams: reads up to 8192 bytes, writes all of them, flushes.
   Every piece comes off the front of what is decrypted, nothing that has arrived is left behind, and
   what is encrypted anew is the pieces, each of them once, exactly as `OnceAll` says.
   */
  method CopyFlushed(from: ObfuscatedStream, to: ObfuscatedStream) returns (moved: bytes, rest: Rest, ghost pieces: seq<bytes>)
    requires from.input.Valid() && to.Aligned() && to.pendingWrite == []
    requires {from, from.dec, from.input, from.input.inner} !! {to, to.enc, to.output}
    modifies from.dec, from.input, from.input.inner
    modifies to`pendingWrite, to`plain, to.enc, to.output
    ensures from.input.Valid() && to.Spelled() && (!rest.Refused? ==> to.Aligned()) && (!OverSink(rest) ==> to.pendingWrite == [])
    ensures old(from.Outlook()) == moved + from.Outlook() && Concat(pieces) == moved
    ensures to.plain == old(to.plain) + moved <==> OnceAll(old(to.output.script), pieces)
    ensures !OverSink(rest) && to.plain == old(to.plain) + moved <==> CopiesAll(old(to.output.script), pieces)
    ensures match rest
            case Blocked => to.output.script == []
            case Refused(_) => true
            case Broke(kind) => kind == Io && from.input.Failures() < old(from.input.Failures())
            case _ => from.Outlook() == []
  {
    hide Apply, Xor, ObfuscatedStream.Outlook, ObfuscatedStream.Aligned, ObfuscatedStream.Spelled, ReadStep, Concat;
    hide PrefixedStream.Size, PrefixedStream.Failures, PrefixedStream.View, PrefixedStream.Rest;
    hide Copied, Stuck, Sent, OnceAll, CopiesAll;
    moved, pieces := [], [];
    ghost var coming, before, start := from.Outlook(), to.plain, to.output.script;
    NothingCopied(start, before);
    ConcatNone();
    IsSpelled(to);
    while true
      invariant from.input.Valid() && to.Aligned() && to.Spelled() && to.pendingWrite == []
      invariant coming == moved + from.Outlook() && Concat(pieces) == moved
      invariant Copied(start, pieces, before, to.plain, to.output.script)
      invariant from.input.Failures() == old(from.input.Failures())
      decreases |from.Outlook()|, from.input.Size()
    {
      CopiedSays(start, pieces, before, to.plain, to.output.script);
      ghost var here := from.Outlook();
      var idle := from.input.Exhausted();
      var poll := from.PollRead(8192);
      assert here == Got(poll) + from.Outlook();
      match poll {
        case ReadReady(data) =>
          if data == [] {
            return moved, Ended, pieces;
          }
          assert moved + (data + from.Outlook()) == (moved + data) + from.Outlook();
          ghost var plain, script := to.plain, to.output.script;
          ConcatAppend(pieces, data);
          var r := Forward(to, data);
          CopiedOneMore(start, pieces, before, plain, script, r, data, to.plain, to.output.script);
          moved, pieces := moved + data, pieces + [data];
          if !r.Drained? {
            StuckSays(start, pieces, before, to.plain);
            return moved, SinkStop(r), pieces;
          }
        case ReadPending =>
          if idle {
            return moved, Waits, pieces;
          }
        case ReadError(kind) =>
          return moved, Broke(kind), pieces;
      }
    }
  }

  lemma CopiedSays(start: WriteScript, pieces: seq<bytes>, before: bytes, plain: bytes, script: WriteScript)
    requires Copied(start, pieces, before, plain, script)
    ensures plain == before + Concat(pieces) <==> OnceAll(start, pieces)
    ensures plain == before + Concat(pieces) <==> CopiesAll(start, pieces)
  {
  }

  lemma StuckSays(start: WriteScript, pieces: seq<bytes>, before: bytes, plain: bytes)
    requires Stuck(start, pieces, before, plain)
    ensures plain == before + Concat(pieces) <==> OnceAll(start, pieces)
    ensures !CopiesAll(start, pieces)
  {
  }

  datatype DcEnd = NotAccepted | NoHeader | HeaderNotSent | Relayed(rest: Rest)

  /** How the data centre's view compares with the pieces of the client's stream that were copied. */
  ghost predicate Told(start: WriteScript, pieces: seq<bytes>, rest: Rest, told: bytes) {
    && (OnceAll(start, pieces) ==> Prefix(told, Concat(pieces)))
    && (!OverSink(rest) ==> (told == Concat(pieces) <==> CopiesAll(start, pieces)))
    && (CopiesAll(start, pieces) ==> !OverSink(rest))
  }

  /** Opens the connection to the data centre for an accepted stream and copies. */
  method ServeDc(s: ObfuscatedStream, dc: i16, tag: bytes, dcIn: PrefixedStream, dcOut: WriteHalf, draws: seq<handshake>)
    returns (r: DcEnd, ghost pieces: seq<bytes>)
    requires s.input.Valid() && dcIn.Valid() && dcOut.wire == [] && ValidProtoTag(tag)
    requires {s, s.dec, s.input, s.input.inner} !! {dcOut}
    modifies s.dec, s.input, s.input.inner, dcOut
    ensures s.input.Valid() && old(s.Outlook()) == Concat(pieces) + s.Outlook()
    ensures var seen := DcView(s.dec.ks, dcOut.wire);
            match r
            case NotAccepted => false
            case NoHeader => dcOut.wire == [] && FirstUsable(draws).None?
            case HeaderNotSent => |dcOut.wire| <= 64 && !TakesFlushed(old(dcOut.script), 64)
            case Relayed(rest) =>
              && TakesFlushed(old(dcOut.script), 64)
              && seen.Some? && seen.value.dc == dc && seen.value.protoTag == tag
              && Told(AfterFlushed(old(dcOut.script), 64), pieces, rest, seen.value.plain)
              && (rest.Blocked? ==> dcOut.script == [])
              && (rest.Broke? ==> s.input.Failures() < old(s.input.Failures()))
              && (rest.Ended? || rest.Waits? ==> s.Outlook() == [])
  {
    hide Apply, Xor, PeerOf, Reserved, Advance, ObfuscatedStream.Outlook, TakesFlushed, AfterFlushed, Concat;
    hide PrefixedStream.Size, PrefixedStream.Failures, PrefixedStream.View, PrefixedStream.Rest, Told, DcView;
    hide OnceAll, CopiesAll, ObfuscatedStream.Aligned, ObfuscatedStream.Spelled;
    ConcatNone();
    pieces := [];
    assert [] + s.Outlook() == s.Outlook();
    var init := GenerateRelayInit(s.dec.ks, draws, dc, tag);
    if !init.RelayInit? {
      return NoHeader, pieces;
    }
    var sent := dcOut.WriteFlushed(init.header);
    if !sent.Drained? {
      return HeaderNotSent, pieces;
    }
    assert [] + init.header == init.header;
    var enc := new AesCtr(s.dec.ks, init.enc);
    var dec := new AesCtr(s.dec.ks, init.dec);
    var dcStream := new ObfuscatedStream(dcIn, dcOut, enc, dec);
    ghost var start := dcOut.script;
    var moved, rest;
    moved, rest, pieces := CopyFlushed(s, dcStream);
    r := Relayed(rest);
    assert [] + moved == moved;
    DcIsTold(dcStream, init, tag, dc, start, pieces, rest);
  }

  lemma DcIsTold(s: ObfuscatedStream, init: RelayInit, tag: bytes, dc: i16, start: WriteScript, pieces: seq<bytes>, rest: Rest)
    requires init.RelayInit? && PeerOf(s.enc.ks, init.header) == PeerView(tag, dc, init.enc, init.dec)
    requires s.Spelled() && s.base == init.header && s.start == init.enc
    requires !OverSink(rest) ==> s.Aligned() && s.pendingWrite == []
    requires s.plain == Concat(pieces) <==> OnceAll(start, pieces)
    requires !OverSink(rest) && s.plain == Concat(pieces) <==> CopiesAll(start, pieces)
    ensures var seen := DcView(s.enc.ks, s.output.wire);
            seen.Some? && seen.value.dc == dc && seen.value.protoTag == tag && Told(start, pieces, rest, seen.value.plain)
  {
    hide PeerOf, Apply, Concat, OnceAll, CopiesAll;
    DcReads(s.enc.ks, init, tag, dc, s.plain, s.pendingWrite, s.output.wire);
  }

  /** What the data centre decrypts is a prefix of what was encrypted, and all of it once all of it is out. */
  lemma DcReads(ks: Keystream, init: RelayInit, tag: bytes, dc: i16, plain: bytes, pending: bytes, wire: bytes)
    requires init.RelayInit? && PeerOf(ks, init.header) == PeerView(tag, dc, init.enc, init.dec)
    requires |wire| >= 64 && Prefix(wire + pending, init.header + Apply(ks, init.enc, plain))
    ensures |wire| - 64 <= |plain|
    ensures var seen := DcView(ks, wire);
            && seen == Some(Upstream(dc, tag, plain[..|wire| - 64]))
            && (wire == init.header + Apply(ks, init.enc, plain) ==> seen == Some(Upstream(dc, tag, plain)))
  {
    hide Apply, PeerOf;
    var all := init.header + Apply(ks, init.enc, plain);
    assert wire == (wire + pending)[..|wire|] == all[..|wire + pending|][..|wire|] == all[..|wire|];
    assert wire[..64] == init.header;
    var sealed := wire[64..];
    assert sealed == Apply(ks, init.enc, plain)[..|sealed|];
    PeerDecrypts(ks, init.enc, plain, sealed);
    if wire == all {
      assert plain[..|plain|] == plain;
    }
  }

  /**
   Serves one stream, whatever the sink does. From the bytes on its wire alone the data centre reads the
   index, the tag, and of the client's stream what `Told` says: all that was copied, exactly if every
   piece was copied as it should be. These are the client's: its tag, its index with its sign unless it
   gave none, and its text, as the bytes of its stream decrypt under the secret.
   */
  method RelayToDc(c: Crypto, secret: bytes, fallback: i16, input: PrefixedStream, clientOut: WriteHalf,
                   dcIn: PrefixedStream, dcOut: WriteHalf, draws: seq<handshake>)
    returns (r: DcEnd, ghost pieces: seq<bytes>)
    requires input.Valid() && dcIn.Valid() && dcOut.wire == [] && {input, input.inner} !! {dcOut}
    modifies input, input.inner, dcOut
    ensures input.Valid()
    ensures var u, seen := Served(c, secret, fallback, old(input.Rest())), DcView(c.ks, dcOut.wire);
            match r
            case NotAccepted => dcOut.wire == [] && (u.None? || input.Failures() < old(input.Failures()))
            case NoHeader => dcOut.wire == [] && FirstUsable(draws).None?
            case HeaderNotSent => |dcOut.wire| <= 64 && !TakesFlushed(old(dcOut.script), 64)
            case Relayed(rest) =>
              && TakesFlushed(old(dcOut.script), 64)
              && u.Some? && seen.Some? && seen.value.dc == u.value.dc && seen.value.protoTag == u.value.protoTag
              && var start := AfterFlushed(old(dcOut.script), 64);
              && Prefix(Concat(pieces), u.value.plain)
              && (OnceAll(start, pieces) ==> Prefix(seen.value.plain, u.value.plain))
              && (rest.Ended? || rest.Waits? ==> (seen == u <==> CopiesAll(start, pieces)))
              && (CopiesAll(start, pieces) ==> !OverSink(rest))
              && (rest.Blocked? ==> dcOut.script == [])
              && (rest.Broke? ==> input.Failures() < old(input.Failures()))
    ensures r.Relayed? ==>
              var stream := old(input.Rest());
              && |stream| >= 64
              && var key, iv := c.hash(stream[8..40] + secret), stream[40..56];
              var index, text := Apply(c.ks, Ctr(key, iv, 60), stream[60..62]), Apply(c.ks, Ctr(key, iv, 64), stream[64..]);
              var seen, start := DcView(c.ks, dcOut.wire), AfterFlushed(old(dcOut.script), 64);
              && seen.Some? && seen.value.protoTag == Apply(c.ks, Ctr(key, iv, 56), stream[56..60])
              && (if index == [0, 0] then seen.value.dc == fallback
                  else seen.value.dc % 0x1_0000 == index[0] + 0x100 * (index[1] as nat))
              && (OnceAll(start, pieces) ==> Prefix(seen.value.plain, text))
              && (r.rest.Ended? || r.rest.Waits? ==> (seen.value.plain == text <==> CopiesAll(start, pieces)))
  {
    hide Apply, Xor, PeerOf, Accept, ParseHandshake, Reserved, Advance, Concat, DcView, TakesFlushed, AfterFlushed;
    hide PrefixedStream.Size, PrefixedStream.Failures, PrefixedStream.View, PrefixedStream.Rest, OnceAll, CopiesAll;
    ghost var stream := input.Rest();
    ServedSays(c, secret, fallback, stream);
    pieces := [];
    var s, header, dcId, tag := AcceptHandshake(c.ks, c.hash, input, clientOut, secret);
    if s == null {
      return NotAccepted, pieces;
    }
    assert stream[..HANDSHAKE_LEN] == header && stream[HANDSHAKE_LEN..] == input.Rest();
    ReadersAgree(c.ks, c.hash, header, secret);
    var dc := if dcId != 0 then dcId else fallback;
    r, pieces := ServeDc(s, dc, tag, dcIn, dcOut, draws);
    ghost var text := Concat(pieces);
    assert s.Outlook() == [] ==> text + s.Outlook() == text;
    if r.Relayed? && OnceAll(AfterFlushed(old(dcOut.script), 64), pieces) {
      PrefixExtends(DcView(c.ks, dcOut.wire).value.plain, text, s.Outlook());
    }
  }

  // ---------------------------------------------------------------- the same client on a single node

  /** Everything a client's record stream carries, the peeked bytes standing in front of the stream. */
  ghost function PayloadOf(peek: bytes, client: ReadScript): (p: bytes) {
    Run([], Fills(AsChunk(peek) + client)).payload
  }

  /** The single node: what the record stream carries, as it comes. */
  function Monolith(c: Crypto, secret: bytes, backend: bytes, payload: bytes): (u: Option<Upstream>) {
    Served(c, secret, DcIdFromBackend(backend), payload)
  }

  /**
   The back: without a raw byte after its answer it gives up. Otherwise the index it read from the
   frame is its fallback, and frame and relay make up its stream.
   */
  function SplitBack(c: Crypto, secret: bytes, frame: Frame, peeked: bytes, delivered: bytes): (u: Option<Upstream>) {
    if |frame.initialData| != HANDSHAKE_LEN || ParseHandshake(c.ks, c.hash, frame.initialData, secret).None? then None
    else if peeked == [] then None
    else Served(c, secret, FrameDc(c, secret, frame), frame.initialData + delivered)
  }

  /** The index a back falls back to. */
  function FrameDc(c: Crypto, secret: bytes, frame: Frame): (dc: i16)
    requires |frame.initialData| == HANDSHAKE_LEN
  {
    var index := HandshakeDcIndex(c.ks, c.hash, frame.initialData, secret);
    if index.Some? && index.value != 0 then index.value else DcIdFromBackend(frame.backend)
  }

  /** Both tell their data centres the same, or neither tells anything. */
  predicate TellSame(u: Option<Upstream>, v: Option<Upstream>) {
    (u.Some? <==> v.Some?) && (u.Some? ==> u.value.dc == v.value.dc && u.value.protoTag == v.value.protoTag)
  }

  /**
   Served by a back, a stream is what it would be on a single node with the same secret, whatever part
   of it has been delivered; and both tell their data centres the same exactly if a raw byte reached
   the back, or the handshake is one that neither accepts.
   */
  lemma BackServesAlike(c: Crypto, secret: bytes, backend: text, payload: bytes, peeked: bytes, delivered: bytes)
    requires |payload| >= HANDSHAKE_LEN
    ensures var split := SplitBack(c, secret, Frame(Ee, backend, payload[..HANDSHAKE_LEN]), peeked, delivered);
            var single := Monolith(c, secret, backend, payload);
            && (TellSame(split, single) <==> peeked != [] || single.None?)
            && (split.Some? ==>
                  && single.Some? && (Prefix(delivered, payload[HANDSHAKE_LEN..]) ==> Prefix(split.value.plain, single.value.plain))
                  && (split == single <==> delivered == payload[HANDSHAKE_LEN..]))
  {
    hide Xor, Apply, Abs, FromLe16, ValidProtoTag;
    var h := payload[..HANDSHAKE_LEN];
    ReadersAgree(c.ks, c.hash, h, secret);
    assert (h + delivered)[..HANDSHAKE_LEN] == h && (h + delivered)[HANDSHAKE_LEN..] == delivered;
    var a := Accept(c.ks, c.hash, h, secret);
    if a.Some? {
      hide Accept, ParseHandshake, HandshakeDcIndex;
      var all := payload[HANDSHAKE_LEN..];
      if Prefix(delivered, all) {
        assert all == delivered + all[|delivered|..];
        ApplySplit(c.ks, a.value.dec, delivered, all[|delivered|..]);
      }
      ApplyTwice(c.ks, a.value.dec, delivered);
      ApplyTwice(c.ks, a.value.dec, all);
    }
  }

  /** What a peek holds behind its hello, if it holds all of that. */
  function BehindRecord(peek: bytes): (s: bytes)
    requires |peek| >= 5
  {
    if |peek| >= 5 + PayloadLen(peek) then peek[5 + PayloadLen(peek)..] else []
  }

  /** The hello was peeked whole, and with it no part of a record that does not end in the peek. */
  predicate PeekedWhole(peek: bytes, client: ReadScript)
    ensures PeekedWhole(peek, client) ==> |peek| >= 5
  {
    && HelloPeeked(peek) && |peek| >= 5 + PayloadLen(peek) && QuietPeek(peek)
    && WholeRecords(BehindRecord(peek)) && WellFormed(BehindRecord(peek) + Arriving(client))
  }

  /**
   A front reads the records that were peeked behind the hello and those that follow. A single node
   starts on the bare socket, behind the peek: it reads the same exactly if no data was peeked.
   */
  lemma SingleNodeDropsThePeek(peek: bytes, client: ReadScript)
    requires PeekedWhole(peek, client)
    ensures PayloadOf(peek, client) == Deframe(BehindRecord(peek)) + PayloadOf([], client)
    ensures PayloadOf([], client) == Deframe(Arriving(client))
    ensures PayloadOf(peek, client) == PayloadOf([], client) <==> Deframe(BehindRecord(peek)) == []
  {
    hide Run, U16, WellFormed, WholeRecords, Deframe, PayloadLen, LooksLikeHeader, Fills, Arriving, QuietPeek, Resync;
    var tail := BehindRecord(peek);
    CompleteHello(peek, client);
    DeframeSplit(tail, Arriving(client));
    FillsCarryAll(client);
    assert [] + Joined(Fills(client)) == Arriving(client) && AsChunk([]) + client == client;
    ChunkingIsIrrelevant([], Fills(client));
    assert Deframe(tail) == [] ==> Deframe(tail) + PayloadOf([], client) == PayloadOf([], client);
  }

  /**
   The split against a single node for a client whose hello the front peeked whole. With all of the
   client's data delivered both tell their data centres exactly the same if and only if no data was
   peeked behind the hello; and then they agree as `BackServesAlike` says, whatever was delivered.
   */
  lemma SplitRefinesMonolith(c: Crypto, secret: bytes, backend: text, peek: bytes, client: ReadScript, peeked: bytes, delivered: bytes)
    requires PeekedWhole(peek, client) && |PayloadOf(peek, client)| >= HANDSHAKE_LEN
    ensures var payload, alone := PayloadOf(peek, client), PayloadOf([], client);
            var split := SplitBack(c, secret, Frame(Ee, backend, payload[..HANDSHAKE_LEN]), peeked, delivered);
            var single := Monolith(c, secret, backend, alone);
            && payload == Deframe(BehindRecord(peek)) + alone
            && (split.Some? && delivered == payload[HANDSHAKE_LEN..] ==> (split == single <==> Deframe(BehindRecord(peek)) == []))
            && (Deframe(BehindRecord(peek)) == [] ==>
                  && (TellSame(split, single) <==> peeked != [] || single.None?)
                  && (split.Some? ==>
                        && single.Some?
                        && (Prefix(delivered, payload[HANDSHAKE_LEN..]) ==> Prefix(split.value.plain, single.value.plain))
                        && (split == single <==> delivered == payload[HANDSHAKE_LEN..])))
  {
    hide PeekedWhole, Deframe, BehindRecord, SplitBack, Monolith, PayloadOf;
    SingleNodeDropsThePeek(peek, client);
    var payload, alone := PayloadOf(peek, client), PayloadOf([], client);
    BackServesAlike(c, secret, backend, payload, peeked, delivered);
    ServedLength(c, secret, backend, payload);
    ServedLength(c, secret, backend, alone);
  }

  lemma ServedLength(c: Crypto, secret: bytes, backend: text, payload: bytes)
    ensures var single := Monolith(c, secret, backend, payload);
            single.Some? ==> |single.value.plain| == |payload| - HANDSHAKE_LEN
  {
    hide Accept;
  }

  /**
   Such a client: all it sends is a hello with its handshake and a byte of data behind it, in one
   segment. A back serves it; a single node has dropped the handshake and never accepts one.
   */
  lemma DataPeekedIsLost(c: Crypto, secret: bytes, backend: text, hello: bytes) returns (h: handshake)
    requires |secret| == 16
    requires 5 <= |hello| <= 1024 && LooksLikeHeader(hello) && hello[0] == TLS_HANDSHAKE && |hello| == 5 + PayloadLen(hello)
    ensures var peek := hello + Record(h + [0xAA]);
            && PeekedWhole(peek, []) && PayloadOf(peek, []) == h + [0xAA]
            && SplitBack(c, secret, Frame(Ee, backend, h), [0], [0xAA]).Some?
            && Monolith(c, secret, backend, PayloadOf([], [])) == None
  {
    h := SomeHandshake(c.ks, c.hash, secret);
    hide PayloadOf, PeekedWhole, Record, Deframe, BehindRecord, PayloadLen, LooksLikeHeader, ParseHandshake, SplitBack, Served;
    var peek := hello + Record(h + [0xAA]);
    HelloThenRecord(hello, h + [0xAA]);
    SingleNodeDropsThePeek(peek, []);
    NothingToDeframe();
    EmptyScript();
    Regroup(h + [0xAA], [], []);
    BackServesHandshake(c, secret, backend, h, [0xAA]);
    NothingIsServed(c, secret, backend);
  }

  lemma BackServesHandshake(c: Crypto, secret: bytes, backend: text, h: handshake, delivered: bytes)
    requires ParseHandshake(c.ks, c.hash, h, secret).Some?
    ensures SplitBack(c, secret, Frame(Ee, backend, h), [0], delivered).Some?
  {
    hide Apply, Xor;
    ReadersAgree(c.ks, c.hash, h, secret);
    assert (h + delivered)[..HANDSHAKE_LEN] == h;
  }

  lemma NothingIsServed(c: Crypto, secret: bytes, backend: text)
    ensures Monolith(c, secret, backend, []) == None
  {
  }

  lemma HelloThenRecord(hello: bytes, data: bytes)
    requires 5 <= |hello| <= 1024 && LooksLikeHeader(hello) && hello[0] == TLS_HANDSHAKE && |hello| == 5 + PayloadLen(hello)
    requires 0 < |data| <= 128
    ensures PeekedWhole(hello + Record(data), []) && Deframe(BehindRecord(hello + Record(data))) == data
  {
    var record, peek := Record(data), hello + Record(data);
    OneRecordDeframes(data);
    FrontRecord(hello, record);
    hide U16, PayloadLen, Record, WellFormed, WholeRecords, Deframe, LooksLikeHeader;
    assert |peek| == |hello| + |record| && peek[0] == hello[0];
    assert BehindRecord(peek) == record && peek[..|peek|] == peek && FirstFill(peek) == peek;
    ResyncKeeps(peek);
    assert QuietPeek(peek) by {
      assert peek[|peek|..] == [] && Fills([]) == [];
    }
    EmptyScript();
    assert record + Arriving([]) == record;
  }

  lemma OneRecordDeframes(data: bytes)
    requires 0 < |data| <= 128
    ensures WholeRecords(Record(data)) && WellFormed(Record(data)) && Deframe(Record(data)) == data && |Record(data)| == 5 + |data|
  {
    var record := Record(data);
    RecordDeframes(data, []);
    NothingToDeframe();
    assert record + [] == record && data + [] == data;
    assert PayloadLen(record) == |data|;
    hide U16, PayloadLen, Deframe;
    assert record[5 + |data|..] == [];
  }

  /** A client that sends its handshake and nothing behind it is served by a single node, and never by a back. */
  lemma HandshakeAloneIsNotServed(c: Crypto, secret: bytes, backend: text) returns (h: handshake)
    requires |secret| == 16
    ensures SplitBack(c, secret, Frame(Ee, backend, h), [], []) == None && Monolith(c, secret, backend, h).Some?
  {
    h := SomeHandshake(c.ks, c.hash, secret);
    hide Apply, Xor;
    ReadersAgree(c.ks, c.hash, h, secret);
    assert h[..HANDSHAKE_LEN] == h;
  }
}
