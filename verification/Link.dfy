/**
 The relay between a front and a back: what a front forwards from a record stream to its link, piece
 by piece, and what a back makes of the bytes that arrive. A link is encrypted or plain.
 */
module Link {
  import opened Bytes
  import opened Options
  import opened Streams
  import opened SgfbCrypto
  import opened FakeTls
  import opened Split

  predicate TakenOff(before: Deframed, taken: bytes, after: Deframed) {
    before == after.(payload := taken + after.payload)
  }

  lemma TakenTwice(a: Deframed, s: bytes, b: Deframed, t: bytes, c: Deframed)
    requires TakenOff(a, s, b) && TakenOff(b, t, c)
    ensures TakenOff(a, s + t, c)
  {
    assert s + (t + c.payload) == (s + t) + c.payload;
  }

  // ---------------------------------------------------------------- what a sink makes of the pieces that are forwarded to it

  /** A sink takes the frames of a piece of `n` bytes each in one go and is flushed behind them. */
  predicate Carries(script: WriteScript, n: nat) {
    TakesFrames(script, n) && FlushRun(0, AfterFrames(script, n)).0.Drained?
  }

  function AfterCarry(script: WriteScript, n: nat): (rest: WriteScript) {
    FlushRun(0, AfterFrames(script, n)).1
  }

  /** The script once the pieces have been carried. */
  function LinkAt(script: WriteScript, pieces: seq<bytes>): (rest: WriteScript) {
    if pieces == [] then script
    else AfterCarry(LinkAt(script, pieces[..|pieces| - 1]), |pieces[|pieces| - 1]|)
  }

  /** Piece by piece, the sink carries them all. */
  predicate CarriesAll(script: WriteScript, pieces: seq<bytes>) {
    pieces == [] ||
    var init := pieces[..|pieces| - 1];
    CarriesAll(script, init) && Carries(LinkAt(script, init), |pieces[|pieces| - 1]|)
  }

  /** It carries all but the last, and of that no frame is sealed twice. */
  predicate SealsOnceAll(script: WriteScript, pieces: seq<bytes>) {
    pieces == [] ||
    var init := pieces[..|pieces| - 1];
    CarriesAll(script, init) && SealsOnce(LinkAt(script, init), |pieces[|pieces| - 1]|)
  }

  lemma OnePieceMore(script: WriteScript, pieces: seq<bytes>, piece: bytes)
    ensures Concat(pieces + [piece]) == Concat(pieces) + piece
    ensures LinkAt(script, pieces + [piece]) == AfterCarry(LinkAt(script, pieces), |piece|)
    ensures CarriesAll(script, pieces + [piece]) <==> CarriesAll(script, pieces) && Carries(LinkAt(script, pieces), |piece|)
    ensures SealsOnceAll(script, pieces + [piece]) <==> CarriesAll(script, pieces) && SealsOnce(LinkAt(script, pieces), |piece|)
  {
    ConcatAppend(pieces, piece);
    assert (pieces + [piece])[..|pieces|] == pieces;
  }

  /** A link on which every piece was forwarded: each was carried, and they were sealed just once; or one was not, and more was sealed. */
  ghost predicate Forwarded(start: WriteScript, pieces: seq<bytes>, before: bytes, logged: bytes, script: WriteScript) {
    if CarriesAll(start, pieces) then logged == before + Concat(pieces) && script == LinkAt(start, pieces)
    else |logged| > |before + Concat(pieces)| && !SealsOnceAll(start, pieces)
  }

  /** A link on which the last piece got stuck. */
  ghost predicate Stuck(start: WriteScript, pieces: seq<bytes>, before: bytes, logged: bytes) {
    !CarriesAll(start, pieces) && (SealsOnceAll(start, pieces) ==> Prefix(logged, before + Concat(pieces)))
  }

  /** What forwarding one piece to a drained link comes to. */
  ghost predicate Sent(r: DrainPoll, piece: bytes, script: WriteScript, after: WriteScript, logged: bytes, logged': bytes) {
    && (r.Drained? && logged' == logged + piece <==> Carries(script, |piece|))
    && (Carries(script, |piece|) ==> after == AfterCarry(script, |piece|))
    && (r.Drained? && !Carries(script, |piece|) ==> |logged'| > |logged| + |piece|)
    && (SealsOnce(script, |piece|) ==> Prefix(logged', logged + piece))
  }

  lemma NothingForwarded(start: WriteScript, before: bytes)
    ensures Forwarded(start, [], before, before, start)
  {
    assert before + Concat([]) == before;
  }

  lemma ForwardedOneMore(start: WriteScript, pieces: seq<bytes>, before: bytes, logged: bytes, script: WriteScript,
                         r: DrainPoll, piece: bytes, logged': bytes, after: WriteScript)
    requires Forwarded(start, pieces, before, logged, script) && Sent(r, piece, script, after, logged, logged')
    ensures if r.Drained? then Forwarded(start, pieces + [piece], before, logged', after)
            else Stuck(start, pieces + [piece], before, logged')
  {
    hide CarriesAll, SealsOnceAll, Carries, AfterCarry, LinkAt, SealsOnce, Concat;
    OnePieceMore(start, pieces, piece);
    assert before + Concat(pieces) + piece == before + (Concat(pieces) + piece);
    if SealsOnce(script, |piece|) && r.Drained? {
      assert logged' == logged + piece;
    }
  }

  lemma RunsDry(rest: Rest, left: Deframed, script: WriteScript, failures: int)
    requires RestOf(rest, left, script, failures)
    ensures !OverSink(rest) && rest != Broke(Io) ==> left.payload == []
  {
  }

  /** How a copy may come to rest, given what the record stream still holds and how many failures it reported. */
  predicate RestOf(rest: Rest, left: Deframed, script: WriteScript, failures: int) {
    match rest
    case Blocked => script == []
    case Refused(_) => true
    case Broke(kind) => (kind == Io && failures > 0) || (kind == InvalidData && left == Deframed([], true))
    case _ => left == Deframed([], false)
  }

  lemma RestsOnSink(r: DrainPoll, left: Deframed, script: WriteScript)
    requires !r.Drained? && (r.DrainPending? ==> script == [])
    ensures RestOf(SinkStop(r), left, script, 0)
  {
  }

  lemma RestsOnSource(rest: Rest, before: Deframed, left: Deframed, script: WriteScript, failures: int)
    requires match rest
             case Broke(kind) => (kind == Io && failures > 0) || (kind == InvalidData && before == left == Deframed([], true))
             case Ended => before == left == Deframed([], false)
             case Waits => before == left == Deframed([], false)
             case _ => false
    ensures RestOf(rest, left, script, failures)
  {
  }

  // ---------------------------------------------------------------- an encrypted link

  /** Writes and flushes a piece. */
  method Forward(io: EncryptedStream, data: bytes) returns (r: DrainPoll)
    requires io.WriteValid() && io.writePending == [] && Lawful(io.encrypt.aead)
    modifies io`writePending, io`log, io`accepted, io.encrypt, io.output
    ensures io.WriteValid() && (r.Drained? ==> io.writePending == [])
    ensures Sent(r, data, old(io.output.script), io.output.script, old(Concat(io.log)), Concat(io.log))
    ensures r.DrainPending? ==> io.output.script == []
  {
    hide Concat, TakesFrames, AfterFrames, SealsOnce, FlushRun, EncryptedStream.WriteValid;
    r := io.WriteAll(data);
    if r.Drained? {
      FlushRunEnds(0, io.output.script);
      r := io.Flush();
    }
  }

  /**
   The copy loop: reads up to 8192 bytes, writes all of them, flushes. `pieces` are those that were
   forwarded already, from the moment the sink's script was `start` and `before` had been sealed.
   Every piece comes off the front of the record stream, and nothing that has arrived is left behind.
   */
  method CopyUplink(tls: FakeTlsStream, io: EncryptedStream, ghost start: WriteScript, ghost before: bytes, ghost first: seq<bytes>)
    returns (moved: bytes, rest: Rest, ghost pieces: seq<bytes>)
    requires tls.input.Valid()
    requires {tls, tls.input, tls.input.inner} !! {io, io.encrypt, io.output}
    requires io.WriteValid() && io.writePending == [] && Lawful(io.encrypt.aead)
    requires Forwarded(start, first, before, Concat(io.log), io.output.script)
    modifies tls`readBuf, tls`tlsStash, tls.input, tls.input.inner
    modifies io`writePending, io`log, io`accepted, io.encrypt, io.output
    ensures tls.input.Valid() && io.WriteValid()
    ensures TakenOff(old(tls.Outlook()), moved, tls.Outlook()) && Concat(pieces) == Concat(first) + moved
    ensures if OverSink(rest) then Stuck(start, pieces, before, Concat(io.log))
            else io.writePending == [] && Forwarded(start, pieces, before, Concat(io.log), io.output.script)
    ensures RestOf(rest, tls.Outlook(), io.output.script, old(tls.input.Failures()) - tls.input.Failures())
  {
    hide Run, Concat, FakeTlsStream.Outlook, PrefixedStream.Size, PrefixedStream.Failures, PrefixedStream.View;
    hide EncryptedStream.WriteValid, Lawful, Forwarded, Stuck, Carries, AfterCarry, SealsOnce;
    moved, pieces := [], first;
    ghost var coming := tls.Outlook();
    assert TakenOff(coming, [], coming) && Concat(first) + [] == Concat(first);
    while true
      invariant tls.input.Valid() && io.WriteValid() && io.writePending == []
      invariant TakenOff(coming, moved, tls.Outlook()) && Concat(pieces) == Concat(first) + moved
      invariant Forwarded(start, pieces, before, Concat(io.log), io.output.script)
      invariant tls.input.Failures() == old(tls.input.Failures())
      decreases |tls.Outlook().payload|, tls.input.Size()
    {
      ghost var here := tls.Outlook();
      var idle := tls.input.Exhausted();
      var poll := tls.PollRead(8192);
      match poll {
        case ReadReady(data) =>
          if data == [] {
            return moved, Ended, pieces;
          }
          TakenTwice(coming, moved, here, data, tls.Outlook());
          ConcatAppend(pieces, data);
          assert Concat(first) + moved + data == Concat(first) + (moved + data);
          ghost var logged, script := Concat(io.log), io.output.script;
          var r := Forward(io, data);
          ForwardedOneMore(start, pieces, before, logged, script, r, data, Concat(io.log), io.output.script);
          moved, pieces := moved + data, pieces + [data];
          if !r.Drained? {
            return moved, SinkStop(r), pieces;
          }
        case ReadPending =>
          if idle {
            return moved, Waits, pieces;
          }
        case ReadError(kind) =>
          return moved, Broke(kind), pieces;
      }
    }
  }

  /** What a front has put on an encrypted link behind its frame. */
  ghost predicate Sealing(aead: Aead, key: bytes, wire: bytes, pending: bytes, log: seq<bytes>) {
    AllSealable(log) && wire + pending == Frames(aead, key, 0, log)
  }

  /** Sends what was deframed behind the handshake, if there is anything, then copies. */
  method PrimeAndCopy(io: EncryptedStream, tls: FakeTlsStream, prefix: bytes) returns (rest: Rest, ghost pieces: seq<bytes>)
    requires tls.input.Valid()
    requires {tls, tls.input, tls.input.inner} !! {io, io.encrypt, io.output}
    requires io.WriteValid() && io.writePending == [] && Lawful(io.encrypt.aead)
    modifies tls`readBuf, tls`tlsStash, tls.input, tls.input.inner
    modifies io`writePending, io`log, io`accepted, io.encrypt, io.output
    ensures tls.input.Valid() && io.WriteValid()
    ensures Concat(pieces) + tls.Outlook().payload == prefix + old(tls.Outlook()).payload
    ensures if OverSink(rest) then Stuck(old(io.output.script), pieces, old(Concat(io.log)), Concat(io.log))
            else io.writePending == [] && Forwarded(old(io.output.script), pieces, old(Concat(io.log)), Concat(io.log), io.output.script)
    ensures RestOf(rest, tls.Outlook(), io.output.script, old(tls.input.Failures()) - tls.input.Failures())
  {
    hide Run, Lawful, EncryptedStream.WriteValid, Concat, Forwarded, Stuck, Carries, AfterCarry, SealsOnce, RestOf, Sent;
    hide FakeTlsStream.Outlook, PrefixedStream.View, PrefixedStream.Rest, PrefixedStream.Size, PrefixedStream.Failures;
    ghost var before, start, coming := Concat(io.log), io.output.script, tls.Outlook();
    NothingForwarded(start, before);
    ConcatNone();
    pieces := [];
    if prefix != [] {
      var r := Forward(io, prefix);
      ForwardedOneMore(start, [], before, before, start, r, prefix, Concat(io.log), io.output.script);
      ConcatChunk(prefix);
      pieces := [prefix];
      assert [] + [prefix] == [prefix];
      if !r.Drained? {
        RestsOnSink(r, tls.Outlook(), io.output.script);
        return SinkStop(r), pieces;
      }
    }
    var moved;
    moved, rest, pieces := CopyUplink(tls, io, start, before, pieces);
    Regroup(prefix, moved, tls.Outlook().payload);
  }

  /**
   After the answer: prime the encrypted relay, then copy. The sealed frames on the link carry just
   what was deframed, piece by piece, as `Forwarded` says.
   */
  method Relay(aead: Aead, keys: SessionKeys, tls: FakeTlsStream, linkIn: PrefixedStream, link: WriteHalf, prefix: bytes)
    returns (rest: Rest, ghost pieces: seq<bytes>, ghost pending: bytes, ghost log: seq<bytes>)
    requires Lawful(aead) && tls.input.Valid() && linkIn.Valid() && {tls, tls.input, tls.input.inner} !! {link}
    modifies tls`readBuf, tls`tlsStash, tls.input, tls.input.inner, link
    ensures tls.input.Valid() && Prefix(old(link.wire), link.wire)
    ensures Sealing(aead, keys.clientToServer, link.wire[|old(link.wire)|..], pending, log)
    ensures Concat(pieces) + tls.Outlook().payload == prefix + old(tls.Outlook()).payload
    ensures if OverSink(rest) then Stuck(old(link.script), pieces, [], Concat(log))
            else pending == [] && Forwarded(old(link.script), pieces, [], Concat(log), link.script)
    ensures RestOf(rest, tls.Outlook(), link.script, old(tls.input.Failures()) - tls.input.Failures())
  {
    hide Run, OpenAll, CounterOf, Lawful, EncryptedStream.WriteValid, Concat, Forwarded, Stuck, RestOf, Sealing;
    hide FakeTlsStream.Outlook, PrefixedStream.View, PrefixedStream.Rest, PrefixedStream.Size, PrefixedStream.Failures;
    var enc := new DirectionCipher(aead, keys.clientToServer);
    var dec := new DirectionCipher(aead, keys.serverToClient);
    var io := new EncryptedStream(linkIn, link, enc, dec);
    ConcatNone();
    rest, pieces := PrimeAndCopy(io, tls, prefix);
    pending, log := io.writePending, io.log;
    WireSpells(io);
  }

  lemma WireSpells(io: EncryptedStream)
    requires io.WriteValid()
    ensures Prefix(io.base, io.output.wire)
    ensures Sealing(io.encrypt.aead, io.encrypt.key, io.output.wire[|io.base|..], io.writePending, io.log)
  {
    hide Frames, Concat;
    var sealed := Frames(io.encrypt.aead, io.encrypt.key, 0, io.log);
    var all := io.output.wire + io.writePending;
    assert all[..|io.base|] == io.base == io.output.wire[..|io.base|];
    assert all[|io.base|..] == sealed == io.output.wire[|io.base|..] + io.writePending;
  }

  // ---------------------------------------------------------------- a plain link

  /** The same without encryption: what was taken off the record stream goes out as it is, and never twice. */
  method RelayPlain(tls: FakeTlsStream, link: WriteHalf, prefix: bytes) returns (rest: Rest, ghost carried: bytes)
    requires tls.input.Valid() && {tls, tls.input, tls.input.inner} !! {link}
    modifies tls`readBuf, tls`tlsStash, tls.input, tls.input.inner, link
    ensures tls.input.Valid() && Prefix(old(link.wire), link.wire)
    ensures carried + tls.Outlook().payload == prefix + old(tls.Outlook()).payload
    ensures Prefix(link.wire[|old(link.wire)|..], carried)
    ensures !OverSink(rest) ==> link.wire[|old(link.wire)|..] == carried
    ensures RestOf(rest, tls.Outlook(), link.script, old(tls.input.Failures()) - tls.input.Failures())
  {
    hide Run, FakeTlsStream.Outlook, PrefixedStream.View, PrefixedStream.Rest, PrefixedStream.Size, PrefixedStream.Failures;
    hide TakesFlushed, RestOf, AfterFlushed;
    ghost var base, coming := link.wire, prefix + tls.Outlook().payload;
    var data := prefix;
    carried := [];
    Regroup(base, [], []);
    Regroup(coming, [], []);
    while true
      invariant tls.input.Valid() && link.wire == base + carried
      invariant carried + (data + tls.Outlook().payload) == coming
      invariant tls.input.Failures() == old(tls.input.Failures())
      decreases |tls.Outlook().payload| + |data|, |tls.Outlook().payload|, tls.input.Size()
    {
      if data != [] {
        var r := PlainForward(link, base, carried, data);
        Regroup(carried, data, tls.Outlook().payload);
        Regroup(base, carried, data);
        carried, data := carried + data, [];
        Regroup(tls.Outlook().payload, [], []);
        if !r.Drained? {
          RestsOnSink(r, tls.Outlook(), link.script);
          return SinkStop(r), carried;
        }
        continue;
      }
      Regroup(tls.Outlook().payload, [], []);
      WirePart(base, carried, [], 0);
      ghost var here := tls.Outlook();
      var idle := tls.input.Exhausted();
      var poll := tls.PollRead(8192);
      match poll {
        case ReadReady(more) =>
          if more == [] {
            RestsOnSource(Ended, here, tls.Outlook(), link.script, 0);
            return Ended, carried;
          }
          data := more;
        case ReadPending =>
          if idle {
            RestsOnSource(Waits, here, tls.Outlook(), link.script, 0);
            return Waits, carried;
          }
        case ReadError(kind) =>
          RestsOnSource(Broke(kind), here, tls.Outlook(), link.script, old(tls.input.Failures()) - tls.input.Failures());
          return Broke(kind), carried;
      }
    }
  }

  method PlainForward(link: WriteHalf, ghost base: bytes, ghost carried: bytes, data: bytes) returns (r: DrainPoll)
    requires link.wire == base + carried
    modifies link
    ensures Prefix(base, link.wire) && Prefix(link.wire[|base|..], carried + data)
    ensures r.Drained? ==> link.wire == base + carried + data && link.wire[|base|..] == carried + data
    ensures r.DrainPending? ==> link.script == []
  {
    hide TakesFlushed, AfterFlushed;
    ghost var before := link.wire;
    r := link.WriteFlushed(data);
    ghost var k :| 0 <= k <= |data| && link.wire == before + data[..k];
    WirePart(base, carried, data, k);
    WirePart(base, carried, data, |data|);
    assert data[..|data|] == data;
  }

  lemma WirePart(base: bytes, carried: bytes, data: bytes, k: nat)
    requires k <= |data|
    ensures var wire := base + carried + data[..k];
            && Prefix(base, wire) && Prefix(wire[|base|..], carried + data)
            && (k == |data| ==> wire[|base|..] == carried + data)
            && (data == [] ==> wire == base + carried && carried + data == carried)
  {
    var wire := base + carried + data[..k];
    assert wire[|base|..] == carried + data[..k];
  }

  // ---------------------------------------------------------------- the back

  /** What the bytes of a link come to for the back's side of it. */
  function OpenLink(encrypted: bool, aead: Aead, keys: SessionKeys, s: bytes): (o: Opened) {
    if encrypted then OpenAll(aead, keys.clientToServer, 0, s) else Opened(s, More, 0)
  }

  /** Waits for the first raw bytes after the answer. `None` means there are some. */
  method PeekRaw(net: ReadHalf) returns (peeked: bytes, stop: Option<Rest>)
    modifies net
    ensures Arriving(old(net.script)) == peeked + Arriving(net.script)
    ensures stop.None? <==> peeked != []
    ensures stop.Some? ==> match stop.value
                           case Waits => Arriving(old(net.script)) == []
                           case Broke(kind) => || (kind == UnexpectedEof && Arriving(old(net.script)) == [])
                                               || (kind == Io && Fails(old(net.script)) > 0)
                           case _ => false
    ensures Fails(net.script) <= Fails(old(net.script))
  {
    hide Arriving, ReadStep, Fails, ScriptSize;
    EmptyScript();
    while true
      invariant Arriving(net.script) == Arriving(old(net.script)) && Fails(net.script) == Fails(old(net.script))
      decreases ScriptSize(net.script)
    {
      ReadStepKeeps(net.script, 8192);
      ReadStepReports(net.script, 8192);
      var idle := net.script == [];
      var poll := net.PollRead(8192);
      assert !poll.ReadReady? ==> [] + Arriving(net.script) == Arriving(net.script);
      match poll {
        case ReadReady(data) =>
          return data, if data == [] then Some(Broke(UnexpectedEof)) else None;
        case ReadPending =>
          if idle {
            return [], Some(Waits);
          }
        case ReadError(kind) =>
          return [], Some(Broke(kind));
      }
    }
  }

  /**
   The back's relay: wait for the first raw bytes; without any, give up. Otherwise put them back in
   front, decrypt, read on: the back is handed exactly what the link's wire comes to, in order, and
   unless the link fails all of it.
   */
  method BackUplink(encrypted: bool, aead: Aead, keys: SessionKeys, net: ReadHalf, output: WriteHalf)
    returns (handed: bool, delivered: bytes, rest: Rest)
    modifies net
    ensures var o := OpenLink(encrypted, aead, keys, Arriving(old(net.script)));
            && Prefix(delivered, o.plain)
            && (rest != Broke(Io) ==> delivered == o.plain && (rest == Broke(InvalidData) <==> o.stop != More))
    ensures rest == Broke(Io) ==> Fails(old(net.script)) > 0
    ensures handed ==> Arriving(old(net.script)) != []
    ensures !handed ==> delivered == [] && (rest == Broke(Io) || Arriving(old(net.script)) == [])
  {
    hide Arriving, ReadStep, OpenAll, Fails;
    ghost var whole := Arriving(net.script);
    handed, delivered := false, [];
    var peeked, stop := PeekRaw(net);
    if stop.Some? {
      NothingOpens(aead, keys.clientToServer);
      return handed, delivered, stop.value;
    }
    handed := true;
    var input := new PrefixedStream(peeked, net);
    PrefixArrives(peeked, net.script);
    if encrypted {
      var enc := new DirectionCipher(aead, keys.serverToClient);
      var dec := new DirectionCipher(aead, keys.clientToServer);
      var io := new EncryptedStream(input, output, enc, dec);
      assert io.Outlook() == OpenAll(aead, keys.clientToServer, 0, whole);
      delivered, rest := ReadOn(io);
    } else {
      delivered, rest := ReadPlain(input);
    }
  }

  lemma NothingOpens(aead: Aead, key: bytes)
    ensures OpenAll(aead, key, 0, []) == Opened([], More, 0)
  {
  }

  /** Reads until the stream ends, breaks, or has nothing more. */
  method ReadOn(io: EncryptedStream) returns (delivered: bytes, rest: Rest)
    requires io.ReadValid()
    modifies io`readBuf, io`pendingPlain, io`headerFilled, io`frameLen, io`frameFilled, io`frameBuf
    modifies io`headerBuf, io.decrypt, io.input, io.input.inner
    ensures var o := old(io.Outlook());
            && Prefix(delivered, o.plain)
            && (rest != Broke(Io) ==> delivered == o.plain && (rest == Broke(InvalidData) <==> o.stop != More))
    ensures rest == Broke(Io) ==> old(io.input.Failures()) > 0
  {
    hide EncryptedStream.Outlook, EncryptedStream.ReadValid, PrefixedStream.Size, PrefixedStream.Failures;
    hide PrefixedStream.View, SgfbCrypto.Delivers;
    ghost var o := io.Outlook();
    delivered, rest := [], Waits;
    while true
      invariant io.ReadValid() && io.input.Valid() && o == io.Outlook().(plain := delivered + io.Outlook().plain)
      invariant io.input.Failures() == old(io.input.Failures())
      decreases |io.Outlook().plain|, io.input.Size()
    {
      ghost var before := io.Outlook();
      var idle := io.input.Exhausted();
      var poll := io.PollRead(8192);
      DeliversSays(poll, before, io.Outlook());
      match poll {
        case ReadReady(data) =>
          if data == [] {
            return delivered, Ended;
          }
          assert delivered + (data + io.Outlook().plain) == (delivered + data) + io.Outlook().plain;
          delivered := delivered + data;
        case ReadPending =>
          if idle {
            return delivered, Waits;
          }
        case ReadError(kind) =>
          return delivered, Broke(kind);
      }
    }
  }

  lemma DeliversSays(r: ReadPoll, before: Opened, after: Opened)
    requires SgfbCrypto.Delivers(r, 8192, before, after)
    ensures match r
            case ReadReady(data) =>
              if data == [] then before.plain == [] && before.stop == More else before == after.(plain := data + after.plain)
            case ReadPending => before == after
            case ReadError(kind) =>
              kind == Io || (before.plain == [] && (kind == InvalidData <==> before.stop != More))
  {
  }

  method ReadPlain(input: PrefixedStream) returns (delivered: bytes, rest: Rest)
    requires input.Valid()
    modifies input, input.inner
    ensures Prefix(delivered, old(input.Rest()))
    ensures rest != Broke(Io) ==> delivered == old(input.Rest()) && rest != Broke(InvalidData)
    ensures rest == Broke(Io) ==> old(input.Failures()) > 0
  {
    hide PrefixedStream.Size, PrefixedStream.Failures, PrefixedStream.View, PrefixedStream.Rest, ReadStep;
    ghost var whole := input.Rest();
    delivered, rest := [], Waits;
    while true
      invariant input.Valid() && whole == delivered + input.Rest() && input.Failures() == old(input.Failures())
      decreases |input.Rest()|, input.Size()
    {
      ghost var before := input.Rest();
      var idle := input.Exhausted();
      var poll := input.PollRead(8192);
      assert before == Got(poll) + input.Rest();
      Regroup(input.Rest(), [], []);
      Regroup(delivered, [], []);
      match poll {
        case ReadReady(data) =>
          if data == [] {
            return delivered, Ended;
          }
          Regroup(delivered, data, input.Rest());
          delivered := delivered + data;
        case ReadPending =>
          if idle {
            return delivered, Waits;
          }
        case ReadError(kind) =>
          return delivered, Broke(kind);
      }
    }
  }
}
