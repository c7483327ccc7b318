/**
 The Fake TLS record stream. Reading collects fills of at most 2048 bytes in a stash and takes
 records off its front; it drops a handshake record whose tail never came when a fill starts like
 application data, and it searches for a record header when the stash does not start with one.
 Writing cuts what it is given into application-data records.
 */
module FakeTls {
  import opened Bytes
  import opened Options
  import opened Streams

  const TLS_CHANGE_CIPHER_SPEC: byte := 0x14
  const TLS_HANDSHAKE: byte := 0x16
  const TLS_APPLICATION_DATA: byte := 0x17
  const MAX_TLS_PAYLOAD: nat := 16_384
  const MAX_RECORD: nat := MAX_TLS_PAYLOAD + 2048
  const FILL: nat := 2048

  predicate LooksLikeHeader(s: bytes) {
    |s| >= 3 && s[0] in {TLS_HANDSHAKE, TLS_APPLICATION_DATA, TLS_CHANGE_CIPHER_SPEC} && s[1] == 3 && s[2] in {1, 3}
  }

  function PayloadLen(s: bytes): (n: nat)
    requires |s| >= 5
  {
    U16([s[3], s[4]])
  }

  // ---------------------------------------------------------------- fills

  /** The fills in which a reader of up to 2048 bytes at a time receives what a script hands over. */
  function Fills(script: ReadScript): (fills: seq<segment>)
    decreases ScriptSize(script)
  {
    if script == [] || script[0].End? then []
    else if !script[0].Chunk? then Fills(script[1..])
    else
      var d := script[0].data;
      if |d| <= FILL then [d] + Fills(script[1..])
      else [d[..FILL]] + Fills([Chunk(d[FILL..])] + script[1..])
  }

  function Joined(fills: seq<segment>): (s: bytes) {
    if fills == [] then [] else fills[0] + Joined(fills[1..])
  }

  lemma FillStep(script: ReadScript)
    ensures var (r, rest) := ReadStep(script, FILL);
            Fills(script) == if Got(r) != [] then [Got(r)] + Fills(rest) else if r.ReadReady? then [] else Fills(rest)
  {
  }

  lemma {:induction false} FillsCarryAll(script: ReadScript)
    ensures Joined(Fills(script)) == Arriving(script)
    ensures forall i :: 0 <= i < |Fills(script)| ==> |Fills(script)[i]| <= 2048
    decreases ScriptSize(script)
  {
    if script != [] && !script[0].End? {
      if script[0].Chunk? && |script[0].data| > FILL {
        var d := script[0].data;
        var rest := [Chunk(d[FILL..])] + script[1..];
        FillsCarryAll(rest);
        assert rest[1..] == script[1..];
        assert Fills(script) == [d[..FILL]] + Fills(rest);
        assert d == d[..FILL] + d[FILL..];
      } else {
        FillsCarryAll(script[1..]);
      }
    }
  }

  // ---------------------------------------------------------------- the deframer, fill by fill

  predicate StartsAppData(s: bytes) {
    |s| >= 2 && s[0] == TLS_APPLICATION_DATA && s[1] == 3
  }

  /** The stash after a fill arrived behind its first `before` bytes. */
  function Abandon(stash: bytes, before: nat): (s: bytes) {
    if stash == [] || stash[0] != TLS_HANDSHAKE || before >= |stash| then stash
    else if StartsAppData(stash[before..]) then stash[before..]
    else stash
  }

  /** The first position at or after `from` where a record header could start, if there is one. */
  function FindHeader(s: bytes, from: nat): (pos: Option<nat>)
    requires from <= |s|
    ensures pos.Some? ==> from <= pos.value <= |s| - 3 && LooksLikeHeader(s[pos.value..])
    decreases |s| - from
  {
    if |s| - from < 3 then None
    else if LooksLikeHeader(s[from..]) then Some(from)
    else FindHeader(s, from + 1)
  }

  function Resync(s: bytes): (t: bytes)
    ensures |t| <= |s|
  {
    if |s| >= 5 && !LooksLikeHeader(s) then
      match FindHeader(s, 0)
      case Some(pos) => s[pos..]
      case None => s
    else s
  }

  datatype Deframed = Deframed(payload: bytes, tooLarge: bool)

  /** What is delivered from a stash at rest and the fills to come. */
  function Run(stash: bytes, fills: seq<segment>): (d: Deframed)
    decreases |fills|, |stash|
  {
    if |stash| < 5 then
      if fills == [] then Deframed([], false)
      else Run(Resync(stash + fills[0]), fills[1..])
    else
      var len := PayloadLen(stash);
      if len > MAX_RECORD then Deframed([], true)
      else if |stash| < 5 + len then
        if fills == [] then Deframed([], false)
        else Run(Abandon(stash + fills[0], |stash|), fills[1..])
      else
        var rest := stash[5 + len..];
        if stash[0] != TLS_APPLICATION_DATA then Run(rest, fills)
        else if len == 0 then Run(Resync(rest), fills)
        else
          var d := Run(rest, fills);
          d.(payload := stash[5..5 + len] + d.payload)
  }

  // ---------------------------------------------------------------- the deframer, in one piece

  /** The records of a byte string read in one piece: the application data of the whole ones. */
  function Deframe(s: bytes): (payload: bytes)
    decreases |s|
  {
    if |s| < 5 || |s| < 5 + PayloadLen(s) then []
    else
      var len := PayloadLen(s);
      (if s[0] == TLS_APPLICATION_DATA then s[5..5 + len] else []) + Deframe(s[5 + len..])
  }

  /** Change-cipher-spec and application-data records of acceptable size, the last one perhaps cut short. */
  predicate WellFormed(s: bytes)
    decreases |s|
  {
    |s| >= 5 ==>
      && LooksLikeHeader(s) && s[0] != TLS_HANDSHAKE && PayloadLen(s) <= MAX_RECORD
      && (|s| >= 5 + PayloadLen(s) ==> WellFormed(s[5 + PayloadLen(s)..]))
  }

  /** The record at the front of a stash is the one at the front of the stash with more behind it. */
  lemma FrontRecord(stash: bytes, more: bytes)
    requires |stash| >= 5
    ensures var s := stash + more;
            && s[..5] == stash[..5] && PayloadLen(s) == PayloadLen(stash)
            && LooksLikeHeader(s) == LooksLikeHeader(stash)
            && (|stash| >= 5 + PayloadLen(stash) ==>
                  var total := 5 + PayloadLen(stash);
                  s[5..total] == stash[5..total] && s[total..] == stash[total..] + more)
  {
  }

  /** Exactly when a fill behind an unfinished handshake record costs the stash its bytes. */
  lemma AbandonExactly(stash: bytes, fill: segment)
    requires stash != []
    ensures Abandon(stash + fill, |stash|) == if stash[0] == TLS_HANDSHAKE && StartsAppData(fill) then fill else stash + fill
    ensures Abandon(stash + fill, |stash|) == stash + fill <==> !(stash[0] == TLS_HANDSHAKE && StartsAppData(fill))
  {
    assert (stash + fill)[|stash|..] == fill;
    assert |fill| != |stash + fill|;
  }

  lemma ResyncKeeps(s: bytes)
    requires |s| < 5 || LooksLikeHeader(s)
    ensures Resync(s) == s
  {
  }

  lemma HeaderAtFront(stash: bytes, more: bytes)
    requires WellFormed(stash + more)
    ensures Resync(stash) == stash
    ensures |stash| >= 5 ==> PayloadLen(stash) <= MAX_RECORD && stash[0] != TLS_HANDSHAKE
  {
    if |stash| >= 5 {
      FrontRecord(stash, more);
      hide U16;
      assert (stash + more)[0] == stash[0];
    }
    ResyncKeeps(stash);
  }

  /** Taking a whole record off the front of a stash is taking it off the front of the wire. */
  lemma RecordRuns(stash: bytes, more: bytes, fills: seq<segment>)
    requires |stash| >= 5 && |stash| >= 5 + PayloadLen(stash) && WellFormed(stash + more)
    ensures var total := 5 + PayloadLen(stash);
            var rest, data := stash[total..], if stash[0] == TLS_APPLICATION_DATA then stash[5..total] else [];
            var d := Run(rest, fills);
            && WellFormed(rest + more) && Deframe(stash + more) == data + Deframe(rest + more)
            && Run(stash, fills) == d.(payload := data + d.payload)
  {
    hide U16, PayloadLen, LooksLikeHeader, Resync;
    FrontRecord(stash, more);
    HeaderAtFront(stash, more);
    assert WellFormed(stash[5 + PayloadLen(stash)..] + more);
    HeaderAtFront(stash[5 + PayloadLen(stash)..], more);
    assert (stash + more)[0] == stash[0];
  }

  /** A fill behind an unfinished record, on a well-formed wire, is appended and nothing else. */
  lemma FillRuns(stash: bytes, fills: seq<segment>)
    requires fills != [] && (|stash| < 5 || |stash| < 5 + PayloadLen(stash)) && WellFormed(stash + Joined(fills))
    ensures stash + fills[0] + Joined(fills[1..]) == stash + Joined(fills)
    ensures Run(stash, fills) == Run(stash + fills[0], fills[1..])
  {
    hide U16, PayloadLen, LooksLikeHeader, Resync, Abandon, WellFormed;
    assert stash + fills[0] + Joined(fills[1..]) == stash + Joined(fills);
    HeaderAtFront(stash, Joined(fills));
    HeaderAtFront(stash + fills[0], Joined(fills[1..]));
    if |stash| >= 5 {
      AbandonExactly(stash, fills[0]);
    }
  }

  lemma NothingMore(stash: bytes)
    requires (|stash| < 5 || |stash| < 5 + PayloadLen(stash)) && WellFormed(stash)
    ensures Run(stash, []) == Deframed([], false) && Deframe(stash) == [] && stash + Joined([]) == stash
  {
  }

  /** On a well-formed wire the chunking makes no difference. */
  lemma {:induction false} ChunkingIsIrrelevant(stash: bytes, fills: seq<segment>)
    requires WellFormed(stash + Joined(fills))
    ensures Run(stash, fills) == Deframed(Deframe(stash + Joined(fills)), false)
    decreases |fills|, |stash|
  {
    if |stash| >= 5 && |stash| >= 5 + PayloadLen(stash) {
      hide PayloadLen, Run, Deframe, WellFormed, Joined;
      RecordRuns(stash, Joined(fills), fills);
      ChunkingIsIrrelevant(stash[5 + PayloadLen(stash)..], fills);
    } else if fills == [] {
      assert stash + Joined([]) == stash;
      NothingMore(stash);
    } else {
      hide PayloadLen, Run, Deframe, WellFormed, Joined;
      FillRuns(stash, fills);
      ChunkingIsIrrelevant(stash + fills[0], fills[1..]);
    }
  }

  // ---------------------------------------------------------------- a handshake record at the front

  /**
   What follows a handshake record at the front: the bytes after it once it is complete, or, when a
   fill starts like application data before that, everything from that fill on.
   */
  function AfterHandshake(stash: bytes, fills: seq<segment>): (s: bytes)
    requires |stash| >= 5
    decreases |fills|
  {
    if |stash| >= 5 + PayloadLen(stash) then stash[5 + PayloadLen(stash)..] + Joined(fills)
    else if fills == [] then []
    else if StartsAppData(fills[0]) then Joined(fills)
    else AfterHandshake(stash + fills[0], fills[1..])
  }

  /** A handshake record at the front delivers nothing, whether it is completed or abandoned. */
  lemma {:induction false} HandshakeIsPassedOver(stash: bytes, fills: seq<segment>)
    requires |stash| >= 5 && stash[0] == TLS_HANDSHAKE && PayloadLen(stash) <= MAX_RECORD
    requires WellFormed(AfterHandshake(stash, fills))
    ensures Run(stash, fills) == Deframed(Deframe(AfterHandshake(stash, fills)), false)
    decreases |fills|
  {
    hide U16, WellFormed, Deframe;
    if |stash| >= 5 + PayloadLen(stash) {
      ChunkingIsIrrelevant(stash[5 + PayloadLen(stash)..], fills);
    } else if fills == [] {
      NothingToDeframe();
    } else {
      var f := fills[0];
      assert (stash + f)[|stash|..] == f;
      FrontRecord(stash, f);
      if StartsAppData(f) {
        ChunkingIsIrrelevant(f, fills[1..]);
      } else {
        assert (stash + f)[0] == stash[0];
        HandshakeIsPassedOver(stash + f, fills[1..]);
      }
    }
  }

  /** A fill that starts inside the record that `missing` more bytes complete starts like application data. */
  predicate StartsInside(missing: int, fills: seq<segment>)
    decreases |fills|
  {
    missing > 0 && fills != [] && (StartsAppData(fills[0]) || StartsInside(missing - |fills[0]|, fills[1..]))
  }

  /**
   Over a whole wire the heuristic is right, and leaves just what stands behind the handshake record,
   exactly if no fill that starts inside the record starts like application data.
   */
  lemma {:induction false} HandshakeEndsExactly(stash: bytes, fills: seq<segment>)
    requires |stash| >= 5 && |stash + Joined(fills)| >= 5 + PayloadLen(stash)
    ensures AfterHandshake(stash, fills) == (stash + Joined(fills))[5 + PayloadLen(stash)..]
            <==> !StartsInside(5 + PayloadLen(stash) - |stash|, fills)
    decreases |fills|
  {
    hide U16, StartsAppData, PayloadLen, Joined;
    var total := 5 + PayloadLen(stash);
    assert |stash + Joined(fills)| == |stash| + |Joined(fills)|;
    if |stash| >= total {
      assert (stash + Joined(fills))[total..] == stash[total..] + Joined(fills);
    } else {
      hide AfterHandshake, StartsInside;
      if fills == [] {
        NothingJoined();
      }
      HandshakeStep(stash, fills);
      if StartsAppData(fills[0]) {
        assert |Joined(fills)| > |(stash + Joined(fills))[total..]|;
      } else {
        assert stash + fills[0] + Joined(fills[1..]) == stash + Joined(fills);
        HandshakeEndsExactly(stash + fills[0], fills[1..]);
      }
    }
  }

  lemma NothingJoined()
    ensures Joined([]) == []
  {
  }

  lemma HandshakeStep(stash: bytes, fills: seq<segment>)
    requires 5 <= |stash| < 5 + PayloadLen(stash) && fills != []
    ensures Joined(fills) == fills[0] + Joined(fills[1..]) && PayloadLen(stash + fills[0]) == PayloadLen(stash)
    ensures AfterHandshake(stash, fills)
            == if StartsAppData(fills[0]) then Joined(fills) else AfterHandshake(stash + fills[0], fills[1..])
    ensures var missing := 5 + PayloadLen(stash) - |stash|;
            StartsInside(missing, fills) <==> StartsAppData(fills[0]) || StartsInside(missing - |fills[0]|, fills[1..])
  {
    FrontRecord(stash, fills[0]);
  }

  lemma NothingToDeframe()
    ensures Deframe([]) == []
  {
  }

  lemma {:induction false} FillsSplit(a: ReadScript, b: ReadScript)
    requires End !in a
    ensures Fills(a + b) == Fills(a) + Fills(b)
    decreases ScriptSize(a)
  {
    if a == [] {
      assert a + b == b;
    } else {
      assert (a + b)[1..] == a[1..] + b;
      if a[0].Chunk? && |a[0].data| > FILL {
        var rest := [Chunk(a[0].data[FILL..])] + a[1..];
        assert [Chunk(a[0].data[FILL..])] + (a + b)[1..] == rest + b;
        assert rest[1..] == a[1..];
        FillsSplit(rest, b);
      } else {
        FillsSplit(a[1..], b);
      }
    }
  }

  /** The first fill of a stream that starts with a peeked prefix, and what the prefix leaves for later fills. */
  function FirstFill(peek: bytes): (f: segment)
    requires peek != []
  {
    peek[..Min(|peek|, FILL)]
  }

  function LaterOfPeek(peek: bytes): (fills: seq<segment>)
    requires peek != []
  {
    Fills(AsChunk(peek[|FirstFill(peek)|..]))
  }

  lemma FillsOfPeek(peek: bytes)
    requires peek != []
    ensures Fills(AsChunk(peek)) == [FirstFill(peek)] + LaterOfPeek(peek)
  {
    var first, rest := FirstFill(peek), peek[|FirstFill(peek)|..];
    assert AsChunk(peek)[1..] == [];
    assert Fills([]) == [];
    if |peek| <= FILL {
      assert peek[..|peek|] == peek && rest == [];
    } else {
      assert [Chunk(rest)] + AsChunk(peek)[1..] == AsChunk(rest);
    }
  }

  lemma PeekedFills(peek: bytes, script: ReadScript)
    requires peek != []
    ensures Fills(AsChunk(peek) + script) == [FirstFill(peek)] + (LaterOfPeek(peek) + Fills(script))
    ensures FirstFill(peek) + Joined(LaterOfPeek(peek)) == peek
    ensures Joined(LaterOfPeek(peek) + Fills(script)) == Joined(LaterOfPeek(peek)) + Arriving(script)
  {
    hide Fills, Arriving, Joined, FirstFill, LaterOfPeek;
    assert End !in AsChunk(peek);
    hide AsChunk;
    FillsSplit(AsChunk(peek), script);
    LaterCarryRest(peek);
    FillsOfPeek(peek);
    FillsCarryAll(script);
    JoinedSplit(LaterOfPeek(peek), Fills(script));
    RegroupFills([FirstFill(peek)], LaterOfPeek(peek), Fills(script));
  }

  lemma RegroupFills(a: seq<segment>, b: seq<segment>, c: seq<segment>)
    ensures a + b + c == a + (b + c)
  {
  }

  lemma LaterCarryRest(peek: bytes)
    requires peek != []
    ensures FirstFill(peek) + Joined(LaterOfPeek(peek)) == peek
  {
    var rest := peek[|FirstFill(peek)|..];
    assert peek == FirstFill(peek) + rest && AsChunk(rest) + [] == AsChunk(rest) && rest + [] == rest;
    hide Fills, Arriving, Joined, FirstFill, AsChunk;
    PrefixArrives(rest, []);
    EmptyScript();
    FillsCarryAll(AsChunk(rest));
  }

  lemma {:induction false} JoinedSplit(a: seq<segment>, b: seq<segment>)
    ensures Joined(a + b) == Joined(a) + Joined(b)
  {
    if a == [] {
      assert a + b == b;
    } else {
      assert (a + b)[1..] == a[1..] + b;
      JoinedSplit(a[1..], b);
    }
  }

  /** A peeked hello, complete or cut short, in which the record stream does not take anything but its front for a header. */
  predicate HelloPeeked(peek: bytes)
    ensures HelloPeeked(peek) ==> |peek| >= 5
  {
    && |peek| >= 5 && peek[0] == TLS_HANDSHAKE && PayloadLen(peek) <= MAX_RECORD
    && Resync(FirstFill(peek)) == FirstFill(peek)
  }

  /** No later fill of the peek starts inside the hello and like application data. Up to 2048 bytes there is no later fill. */
  predicate QuietPeek(peek: bytes)
    requires |peek| >= 5
  {
    !StartsInside(5 + PayloadLen(peek) - |FirstFill(peek)|, LaterOfPeek(peek))
  }

  /**
   When the front of a fill is left alone: its version is one the stream knows, or nothing in it looks
   like a header. Otherwise the stream goes on at the first place that does.
   */
  lemma FirstFillIsKeptExactly(first: segment, fills: seq<segment>)
    requires |first| >= 5 && first[0] == TLS_HANDSHAKE
    ensures Resync(first) == first <==>
            || (first[1] == 3 && first[2] in {1, 3})
            || forall k :: 0 <= k <= |first| - 3 ==>
                 !(first[k] in {0x14, 0x16, 0x17} && first[k + 1] == 3 && first[k + 2] in {1, 3})
    ensures Run([], [first] + fills) == Run(Resync(first), fills)
  {
    assert [] + first == first && ([first] + fills)[1..] == fills && first[0..] == first;
    HeaderBytes(first);
    if FindHeader(first, 0).None? {
      NoHeader(first, 0);
    }
  }

  lemma HeaderBytes(s: bytes)
    ensures forall k :: 0 <= k <= |s| - 3 ==>
              (LooksLikeHeader(s[k..]) <==> s[k] in {0x14, 0x16, 0x17} && s[k + 1] == 3 && s[k + 2] in {1, 3})
  {
    forall k | 0 <= k <= |s| - 3
      ensures LooksLikeHeader(s[k..]) <==> s[k] in {0x14, 0x16, 0x17} && s[k + 1] == 3 && s[k + 2] in {1, 3}
    {
      assert s[k..][0] == s[k] && s[k..][1] == s[k + 1] && s[k..][2] == s[k + 2];
    }
  }

  lemma {:induction false} NoHeader(s: bytes, from: nat)
    requires from <= |s| && FindHeader(s, from).None?
    ensures forall k :: from <= k <= |s| - 3 ==> !LooksLikeHeader(s[k..])
    decreases |s| - from
  {
    if |s| - from >= 3 {
      hide LooksLikeHeader;
      NoHeader(s, from + 1);
    }
  }

  lemma {:induction false} FindsFirst(s: bytes, from: nat, pos: nat)
    requires from <= pos <= |s| - 3 && LooksLikeHeader(s[pos..])
    requires forall k :: from <= k < pos ==> !LooksLikeHeader(s[k..])
    ensures FindHeader(s, from) == Some(pos)
    decreases pos - from
  {
    if from < pos {
      hide LooksLikeHeader;
      FindsFirst(s, from + 1, pos);
    }
  }

  /** What a stream that starts with a peeked hello leaves behind it. */
  function BehindHello(peek: bytes, script: ReadScript): (s: bytes)
    requires |peek| >= 5
  {
    AfterHandshake(FirstFill(peek), LaterOfPeek(peek) + Fills(script))
  }

  /** A stream that starts with a peeked hello delivers the application data behind the hello, however long the peek. */
  lemma PeekedHelloIsPassedOver(peek: bytes, script: ReadScript)
    requires HelloPeeked(peek) && WellFormed(BehindHello(peek, script))
    ensures Run([], Fills(AsChunk(peek) + script)) == Deframed(Deframe(BehindHello(peek, script)), false)
  {
    hide U16, LooksLikeHeader, WellFormed, AfterHandshake, Deframe, Fills, Run, Resync, LaterOfPeek;
    PeekedFills(peek, script);
    FirstFillIsKeptExactly(FirstFill(peek), LaterOfPeek(peek) + Fills(script));
    FrontRecord(FirstFill(peek), Joined(LaterOfPeek(peek)));
    HandshakeIsPassedOver(FirstFill(peek), LaterOfPeek(peek) + Fills(script));
  }

  /** Of a hello that claims more than a record may hold nothing is passed over: the stream fails. */
  lemma OversizedHello(peek: bytes, script: ReadScript)
    requires |peek| >= 5 && Resync(FirstFill(peek)) == FirstFill(peek) && PayloadLen(peek) > 18_432
    ensures Run([], Fills(AsChunk(peek) + script)) == Deframed([], true)
  {
    hide U16, LooksLikeHeader, Fills, Resync, LaterOfPeek;
    PeekedFills(peek, script);
    var first, fills := FirstFill(peek), LaterOfPeek(peek) + Fills(script);
    FrontRecord(first, Joined(LaterOfPeek(peek)));
    assert [] + first == first && ([first] + fills)[1..] == fills;
  }

  /** What is left is what stands behind the hello on the wire exactly if no fill that starts inside the hello starts 17 03. */
  lemma BehindHelloExactly(peek: bytes, script: ReadScript)
    requires |peek| >= 5 && |peek + Arriving(script)| >= 5 + PayloadLen(peek)
    ensures BehindHello(peek, script) == (peek + Arriving(script))[5 + PayloadLen(peek)..] <==>
            !StartsInside(5 + PayloadLen(peek) - |FirstFill(peek)|, LaterOfPeek(peek) + Fills(script))
  {
    hide U16, LooksLikeHeader, AfterHandshake, Fills, Arriving, LaterOfPeek, StartsInside, Joined;
    PeekedFills(peek, script);
    FrontRecord(FirstFill(peek), Joined(LaterOfPeek(peek)));
    Regroup(FirstFill(peek), Joined(LaterOfPeek(peek)), Arriving(script));
    HandshakeEndsExactly(FirstFill(peek), LaterOfPeek(peek) + Fills(script));
  }

  lemma {:induction false} StartsInsideFront(missing: int, a: seq<segment>, b: seq<segment>)
    ensures StartsInside(missing, a + b) <==> StartsInside(missing, a) || StartsInside(missing - |Joined(a)|, b)
    decreases |a|
  {
    if a == [] {
      assert a + b == b;
    } else {
      assert (a + b)[1..] == a[1..] + b;
      StartsInsideFront(missing - |a[0]|, a[1..], b);
    }
  }

  /** The peek holds the whole hello, and perhaps records behind it. */
  lemma CompleteHello(peek: bytes, script: ReadScript)
    requires HelloPeeked(peek) && |peek| >= 5 + PayloadLen(peek)
    requires QuietPeek(peek) && WellFormed(peek[5 + PayloadLen(peek)..] + Arriving(script))
    ensures Run([], Fills(AsChunk(peek) + script)) == Deframed(Deframe(peek[5 + PayloadLen(peek)..] + Arriving(script)), false)
  {
    hide U16, PayloadLen, LooksLikeHeader, WellFormed, BehindHello, Deframe, Fills, Run, Resync, LaterOfPeek, Arriving;
    PeekedFills(peek, script);
    StartsInsideFront(5 + PayloadLen(peek) - |FirstFill(peek)|, LaterOfPeek(peek), Fills(script));
    BehindHelloExactly(peek, script);
    assert (peek + Arriving(script))[5 + PayloadLen(peek)..] == peek[5 + PayloadLen(peek)..] + Arriving(script);
    PeekedHelloIsPassedOver(peek, script);
  }

  /** Whole records and nothing else. */
  predicate WholeRecords(s: bytes)
    decreases |s|
  {
    s == [] || (|s| >= 5 && |s| >= 5 + PayloadLen(s) && WholeRecords(s[5 + PayloadLen(s)..]))
  }

  lemma {:induction false} DeframeSplit(a: bytes, b: bytes)
    requires WholeRecords(a) && WellFormed(a + b)
    ensures Deframe(a + b) == Deframe(a) + Deframe(b) && WellFormed(b)
    decreases |a|
  {
    hide PayloadLen, Run, WellFormed, Deframe;
    if a == [] {
      assert a + b == b;
      NothingToDeframe();
    } else {
      var rest := a[5 + PayloadLen(a)..];
      RecordRuns(a, b, []);
      DeframeFirst(a);
      DeframeSplit(rest, b);
      Regroup(if a[0] == TLS_APPLICATION_DATA then a[5..5 + PayloadLen(a)] else [], Deframe(rest), Deframe(b));
    }
  }

  lemma DeframeFirst(s: bytes)
    requires |s| >= 5 && |s| >= 5 + PayloadLen(s)
    ensures Deframe(s) == (if s[0] == TLS_APPLICATION_DATA then s[5..5 + PayloadLen(s)] else []) + Deframe(s[5 + PayloadLen(s)..])
  {
  }

  /** The tail never came: the first fill behind the incomplete peek starts like application data. */
  lemma AbandonedHello(peek: bytes, script: ReadScript)
    requires HelloPeeked(peek) && |peek| < 5 + PayloadLen(peek) && QuietPeek(peek)
    requires Fills(script) != [] && StartsAppData(Fills(script)[0])
    requires WellFormed(Arriving(script))
    ensures Run([], Fills(AsChunk(peek) + script)) == Deframed(Deframe(Arriving(script)), false)
  {
    hide U16, LooksLikeHeader, WellFormed, Deframe, Fills, Run, Resync, LaterOfPeek, Arriving, StartsAppData;
    PeekedFills(peek, script);
    FillsCarryAll(script);
    FrontRecord(FirstFill(peek), Joined(LaterOfPeek(peek)));
    AbandonedBehind(FirstFill(peek), LaterOfPeek(peek), Fills(script));
    PeekedHelloIsPassedOver(peek, script);
  }

  lemma {:induction false} AbandonedBehind(stash: bytes, pieces: seq<segment>, fills: seq<segment>)
    requires 5 <= |stash| && |stash + Joined(pieces)| < 5 + PayloadLen(stash)
    requires !StartsInside(5 + PayloadLen(stash) - |stash|, pieces) && fills != [] && StartsAppData(fills[0])
    ensures AfterHandshake(stash, pieces + fills) == Joined(fills)
    decreases |pieces|
  {
    hide U16, StartsAppData;
    if pieces == [] {
      assert pieces + fills == fills && stash + Joined([]) == stash;
    } else {
      FrontRecord(stash, pieces[0]);
      assert stash + pieces[0] + Joined(pieces[1..]) == stash + Joined(pieces);
      assert (pieces + fills)[1..] == pieces[1..] + fills;
      AbandonedBehind(stash + pieces[0], pieces[1..], fills);
    }
  }

  /** The heuristic can misfire: the tail of a hello that starts with 17 03 is taken for a record. */
  lemma AbandonMisfires()
    ensures var head: segment := [0x16, 3, 1, 0, 7, 0];
            var tail: segment := [0x17, 3, 3, 0, 1, 0xAA];
            && |head + tail| == 5 + PayloadLen(head)
            && Deframe(head + tail) == []
            && Run([], [head, tail]) == Deframed([0xAA], false)
  {
    var head: segment := [0x16, 3, 1, 0, 7, 0];
    var tail: segment := [0x17, 3, 3, 0, 1, 0xAA];
    assert Deframe(head + tail) == [] by {
      assert (head + tail)[12..] == [];
    }
    OneRecordRuns(tail);
    assert [head, tail] == [head] + [tail] && [tail][1..] == [];
    FirstFillIsKeptExactly(head, [tail]);
    AbandonExactly(head, tail);
    hide Deframe, Abandon;
    assert Run(head, [tail]) == Run(tail, []);
  }

  lemma OneRecordRuns(record: segment)
    requires |record| == 6 && record[0] == TLS_APPLICATION_DATA && PayloadLen(record) == 1
    ensures Run(record, []) == Deframed([record[5]], false)
  {
    hide PayloadLen;
    assert record[5..6] == [record[5]] && record[6..] == [];
  }

  // ---------------------------------------------------------------- writing records

  datatype WriteOptions = WriteOptions(recordSizes: seq<nat>, padding: bool)

  /** An application-data record. */
  function Record(payload: bytes): (s: bytes) {
    [TLS_APPLICATION_DATA, 3, 3] + PutU16(|payload|) + payload
  }

  function EncodeRecords(records: seq<bytes>): (s: bytes) {
    if records == [] then [] else Record(records[0]) + EncodeRecords(records[1..])
  }

  predicate Carriable(records: seq<bytes>) {
    forall i :: 0 <= i < |records| ==> 1 <= |records[i]| <= MAX_TLS_PAYLOAD
  }

  /** How many of `remaining` bytes the next record takes: the size list is used in turn, from `idx` on. */
  function ChunkSize(opts: Option<WriteOptions>, idx: nat, remaining: nat): (n: nat)
    ensures remaining > 0 ==> 1 <= n <= Min(remaining, MAX_TLS_PAYLOAD)
  {
    if opts.None? || opts.value.recordSizes == [] then Min(remaining, MAX_TLS_PAYLOAD)
    else
      var size := opts.value.recordSizes[idx % |opts.value.recordSizes|];
      Min(Min(remaining, if size == 0 then 1 else size), MAX_TLS_PAYLOAD)
  }

  function NextIdx(opts: Option<WriteOptions>, idx: nat): (next: nat) {
    if opts.None? || opts.value.recordSizes == [] then idx else idx + 1
  }

  /** The padding drawn for a payload: fewer bytes than fit the record, and at most 64. */
  function Pad(opts: Option<WriteOptions>, payload: bytes, noise: bytes): (pad: bytes)
    ensures |payload| <= MAX_TLS_PAYLOAD ==> |payload + pad| <= MAX_TLS_PAYLOAD
    ensures opts.None? || !opts.value.padding ==> pad == []
  {
    if opts.None? || !opts.value.padding || payload == [] || |payload| >= MAX_TLS_PAYLOAD then []
    else noise[..Min(|noise|, Min(MAX_TLS_PAYLOAD - |payload|, 65) - 1)]
  }

  /** What was drawn is added as it is, as long as it is no more than 64 bytes and leaves the record a byte short of its limit. */
  lemma PadSays(opts: Option<WriteOptions>, payload: bytes, noise: bytes)
    ensures |Pad(opts, payload, noise)| <= 64 && Prefix(Pad(opts, payload, noise), noise)
    ensures opts.Some? && opts.value.padding && payload != [] && |noise| <= 64 && |payload| + |noise| < 16_384 ==>
              Pad(opts, payload, noise) == noise
  {
  }

  function Draw(noise: seq<bytes>): (first: bytes) {
    if noise == [] then [] else noise[0]
  }

  function DrawRest(noise: seq<bytes>): (rest: seq<bytes>) {
    if noise == [] then [] else noise[1..]
  }

  /** The pieces in which `buf` is written, before padding. */
  function Cut(opts: Option<WriteOptions>, idx: nat, buf: bytes): (pieces: seq<bytes>)
    decreases |buf|
  {
    if buf == [] then []
    else
      var n := ChunkSize(opts, idx, |buf|);
      [buf[..n]] + Cut(opts, NextIdx(opts, idx), buf[n..])
  }

  /** The size that the list gives to record number `k`. */
  function SizeAt(sizes: seq<nat>, k: nat): (n: nat)
    requires sizes != []
  {
    var size := sizes[k % |sizes|];
    Min(if size == 0 then 1 else size, MAX_TLS_PAYLOAD)
  }

  /** The sizes of the pieces, but for the last, follow the list in turn from `idx` on. */
  predicate Sized(sizes: seq<nat>, idx: nat, pieces: seq<bytes>)
    requires sizes != []
  {
    forall j :: 0 <= j < |pieces| - 1 ==> |pieces[j]| == SizeAt(sizes, idx + j)
  }

  lemma SizedFirst(sizes: seq<nat>, idx: nat, first: bytes, rest: seq<bytes>)
    requires sizes != [] && Sized(sizes, idx + 1, rest) && (rest != [] ==> |first| == SizeAt(sizes, idx))
    ensures Sized(sizes, idx, [first] + rest)
  {
    hide SizeAt;
    var pieces := [first] + rest;
    forall j | 0 <= j < |pieces| - 1
      ensures |pieces[j]| == SizeAt(sizes, idx + j)
    {
      if j > 0 {
        assert pieces[j] == rest[j - 1] && |rest[j - 1]| == SizeAt(sizes, idx + 1 + (j - 1));
      }
    }
  }

  /** Every byte is written once, and the record sizes follow the list cyclically up to the last piece. */
  lemma {:induction false} CutFollowsSizes(opts: Option<WriteOptions>, idx: nat, buf: bytes)
    ensures var pieces := Cut(opts, idx, buf);
            && Concat(pieces) == buf && Carriable(pieces)
            && (opts.Some? && opts.value.recordSizes != [] ==> Sized(opts.value.recordSizes, idx, pieces))
    decreases |buf|
  {
    if buf != [] {
      hide ChunkSize, SizeAt, Sized;
      var n := ChunkSize(opts, idx, |buf|);
      var rest := Cut(opts, NextIdx(opts, idx), buf[n..]);
      CutFollowsSizes(opts, NextIdx(opts, idx), buf[n..]);
      if opts.Some? && opts.value.recordSizes != [] {
        ChunkFollowsList(opts, idx, |buf|);
        SizedFirst(opts.value.recordSizes, idx, buf[..n], rest);
      }
      assert ([buf[..n]] + rest)[1..] == rest;
    }
  }

  /** All but the last fill their records. */
  predicate Filled(pieces: seq<bytes>) {
    forall j :: 0 <= j < |pieces| - 1 ==> |pieces[j]| == 16_384
  }

  /** Without a list every piece but the last does. */
  lemma {:induction false} CutFills(opts: Option<WriteOptions>, idx: nat, buf: bytes)
    requires opts.None? || opts.value.recordSizes == []
    ensures Filled(Cut(opts, idx, buf))
    decreases |buf|
  {
    if buf != [] {
      var n := ChunkSize(opts, idx, |buf|);
      var rest := Cut(opts, NextIdx(opts, idx), buf[n..]);
      CutFills(opts, NextIdx(opts, idx), buf[n..]);
      assert rest != [] ==> |buf[..n]| == 16_384;
      hide ChunkSize, NextIdx;
      FilledBehind(buf[..n], rest);
    }
  }

  lemma FilledBehind(first: bytes, rest: seq<bytes>)
    requires Filled(rest) && (rest != [] ==> |first| == 16_384)
    ensures Filled([first] + rest)
  {
    forall j | 0 <= j < |rest|
      ensures |([first] + rest)[j]| == 16_384
    {
      assert j > 0 ==> ([first] + rest)[j] == rest[j - 1];
    }
  }

  /** A listed size counts from one to 16384. */
  lemma SizeIs(sizes: seq<nat>, k: nat)
    requires sizes != []
    ensures var n := sizes[k % |sizes|];
            SizeAt(sizes, k) == if n == 0 then 1 else if n > 16_384 then 16_384 else n
  {
  }

  lemma ChunkFollowsList(opts: Option<WriteOptions>, idx: nat, remaining: nat)
    requires opts.Some? && opts.value.recordSizes != []
    ensures ChunkSize(opts, idx, remaining) < remaining ==> ChunkSize(opts, idx, remaining) == SizeAt(opts.value.recordSizes, idx)
  {
  }

  lemma RecordDeframes(p: bytes, rest: bytes)
    requires 1 <= |p| <= 18_432
    ensures Deframe(Record(p) + rest) == p + Deframe(rest)
    ensures WellFormed(rest) ==> WellFormed(Record(p) + rest)
  {
    hide PutU16, U16;
    var s := Record(p) + rest;
    assert s[3] == PutU16(|p|)[0] && s[4] == PutU16(|p|)[1];
    assert PayloadLen(s) == |p|;
    assert s[5..5 + |p|] == p && s[5 + |p|..] == rest;
  }

  /** The deframer undoes the writer, whatever stands behind the records. */
  lemma {:induction false} RecordsDeframe(records: seq<bytes>, rest: bytes)
    requires Carriable(records) && WellFormed(rest)
    ensures WellFormed(EncodeRecords(records) + rest)
    ensures Deframe(EncodeRecords(records) + rest) == Concat(records) + Deframe(rest)
  {
    hide Record, WellFormed, Deframe;
    if records == [] {
      assert EncodeRecords(records) + rest == rest;
    } else {
      RecordsDeframe(records[1..], rest);
      RecordDeframes(records[0], EncodeRecords(records[1..]) + rest);
      assert EncodeRecords(records) + rest == Record(records[0]) + (EncodeRecords(records[1..]) + rest);
    }
  }

  /** A reader of what was written receives exactly the payloads, however the wire is chunked. */
  lemma WrittenIsRead(records: seq<bytes>, fills: seq<segment>)
    requires Carriable(records) && Joined(fills) == EncodeRecords(records)
    ensures Run([], fills) == Deframed(Concat(records), false)
  {
    RecordsDeframe(records, []);
    assert EncodeRecords(records) + [] == EncodeRecords(records) && [] + Joined(fills) == Joined(fills);
    assert Concat(records) + Deframe([]) == Concat(records);
    ChunkingIsIrrelevant([], fills);
  }

  lemma {:induction false} RecordsAppend(records: seq<bytes>, p: bytes)
    ensures EncodeRecords(records + [p]) == EncodeRecords(records) + Record(p)
  {
    hide Record;
    if records == [] {
      assert records + [p] == [p] && [p][1..] == [];
    } else {
      assert (records + [p])[1..] == records[1..] + [p];
      RecordsAppend(records[1..], p);
    }
  }

  /** What a sink takes when it is offered bytes until it stops: how many, its last answer, and its script. */
  datatype Absorbed = Absorbed(taken: nat, stop: WritePoll, script: WriteScript)

  function Absorb(script: WriteScript, len: nat): (a: Absorbed)
    ensures a.taken <= len && (a.stop.Wrote? <==> a.taken == len)
  {
    if len == 0 then Absorbed(0, Wrote(0), script)
    else
      match WriteStep(script, len)
      case Wrote(n) =>
        if n == 0 then Absorbed(0, WriteError(ErrorKind.WriteZero), WriteRest(script))
        else
          var a := Absorb(WriteRest(script), len - n);
          a.(taken := n + a.taken)
      case stop => Absorbed(0, stop, WriteRest(script))
  }

  /**
   What comes of writing a buffer: how many of its bytes go out in whole records, how many bytes of
   the record after them the sink still takes, and its answer to that.
   */
  datatype Written = Written(whole: nat, cut: nat, stop: WritePoll, script: WriteScript, idx: nat, noise: seq<bytes>)

  function WriteOut(script: WriteScript, opts: Option<WriteOptions>, idx: nat, noise: seq<bytes>, buf: bytes): (w: Written)
    ensures w.whole <= |buf| && (w.stop.Wrote? <==> w.whole == |buf|) && (w.stop.Wrote? ==> w.cut == 0)
    decreases |buf|
  {
    if buf == [] then Written(0, 0, Wrote(0), script, idx, noise)
    else
      var n := ChunkSize(opts, idx, |buf|);
      var len := |Record(buf[..n] + Pad(opts, buf[..n], Draw(noise)))|;
      var a := Absorb(script, len);
      if a.taken < len then Written(0, a.taken, a.stop, a.script, NextIdx(opts, idx), DrawRest(noise))
      else
        var w := WriteOut(a.script, opts, NextIdx(opts, idx), DrawRest(noise), buf[n..]);
        w.(whole := n + w.whole)
  }

  /**
   A sink that stalls three bytes into a record: the answer says that nothing was written, but the
   three bytes are on the wire, and what is written next will be read as the rest of that record.
   */
  lemma StallCutsARecord()
    ensures var w := WriteOut([Room(3), Stall], None, 0, [], [7]);
            w.cut == 3 && AnswerOf(w) == Wrote(0)
  {
    var script := [Room(3), Stall];
    var buf: bytes := [7];
    assert |Record(buf[..1] + Pad(None, buf[..1], []))| == 6;
    assert WriteRest(script) == [Stall];
    assert Absorb([Stall], 3) == Absorbed(0, WritePending, []);
    assert Absorb(script, 6) == Absorbed(3, WritePending, []);
  }

  /** Offering a buffer uses up the sink's script, and a failure of the sink ends it. */
  lemma {:induction false} WriteOutUses(script: WriteScript, opts: Option<WriteOptions>, idx: nat, noise: seq<bytes>, buf: bytes)
    ensures var w := WriteOut(script, opts, idx, noise, buf);
            && |w.script| <= |script| && (buf != [] && script != [] ==> |w.script| < |script|)
            && Breaks(script) == Breaks(w.script) + if w.stop == WriteError(Io) then 1 else 0
    decreases |buf|
  {
    if buf != [] {
      hide ChunkSize, Pad, Record;
      var n := ChunkSize(opts, idx, |buf|);
      var len := |Record(buf[..n] + Pad(opts, buf[..n], Draw(noise)))|;
      RecordHasHeader(buf[..n] + Pad(opts, buf[..n], Draw(noise)));
      AbsorbUses(script, len);
      var a := Absorb(script, len);
      hide Absorb, Breaks;
      if a.taken == len {
        WriteOutUses(a.script, opts, NextIdx(opts, idx), DrawRest(noise), buf[n..]);
      }
    }
  }

  /** The header of what is written: type 23, version 03 03, and the length in two bytes. */
  lemma RecordHasHeader(payload: bytes)
    ensures |Record(payload)| == 5 + |payload| && Record(payload)[..3] == [0x17, 3, 3] && Record(payload)[5..] == payload
    ensures |payload| < 0x1_0000 ==> 0x100 * (Record(payload)[3] as nat) + Record(payload)[4] == |payload|
  {
  }

  lemma {:induction false} AbsorbUses(script: WriteScript, len: nat)
    ensures var a := Absorb(script, len);
            && |a.script| <= |script| && (len > 0 && script != [] ==> |a.script| < |script|)
            && Breaks(script) == Breaks(a.script) + if a.stop == WriteError(Io) then 1 else 0
    decreases len
  {
    if len > 0 && WriteStep(script, len).Wrote? {
      var n := WriteStep(script, len).n;
      if n > 0 {
        AbsorbUses(WriteRest(script), len - n);
      }
    }
  }

  /** Offered a buffer again whenever it was blocked, the sink takes all of it and never stops inside a record. */
  predicate NeverCuts(script: WriteScript, opts: Option<WriteOptions>, idx: nat, noise: seq<bytes>, buf: bytes)
    decreases |script|
  {
    var w := WriteOut(script, opts, idx, noise, buf);
    w.cut == 0 && (w.stop.Wrote? || (w.stop.WritePending? && |w.script| < |script|
                                     && NeverCuts(w.script, opts, w.idx, w.noise, buf[w.whole..])))
  }

  /** One poll of it, told from what comes of the poll. */
  lemma NeverCutsStep(script: WriteScript, opts: Option<WriteOptions>, idx: nat, noise: seq<bytes>, buf: bytes)
    requires buf != []
    ensures var w := WriteOut(script, opts, idx, noise, buf);
            && (w.cut > 0 || w.stop.WriteError? || script == [] ==> !NeverCuts(script, opts, idx, noise, buf))
            && (w.cut == 0 && !w.stop.WriteError? && script != [] ==>
                  (NeverCuts(script, opts, idx, noise, buf) <==> NeverCuts(w.script, opts, w.idx, w.noise, buf[w.whole..])))
            && (script == [] ==> w.whole == 0 && w.cut == 0 && w.stop.WritePending?)
  {
    WriteOutUses(script, opts, idx, noise, buf);
    var w := WriteOut(script, opts, idx, noise, buf);
    if script == [] {
      NothingTaken(opts, idx, noise, buf);
    }
    if w.stop.Wrote? {
      assert buf[w.whole..] == [];
      NothingIsNeverCut(w.script, opts, w.idx, w.noise);
    }
    hide WriteOut;
  }

  lemma NothingIsNeverCut(script: WriteScript, opts: Option<WriteOptions>, idx: nat, noise: seq<bytes>)
    ensures NeverCuts(script, opts, idx, noise, [])
  {
    NothingToWrite(script, opts, idx, noise);
  }

  lemma NothingTaken(opts: Option<WriteOptions>, idx: nat, noise: seq<bytes>, buf: bytes)
    requires buf != []
    ensures var w := WriteOut([], opts, idx, noise, buf); w.whole == 0 && w.cut == 0 && w.stop.WritePending?
  {
    RecordHasHeader(buf[..ChunkSize(opts, idx, |buf|)] + Pad(opts, buf[..ChunkSize(opts, idx, |buf|)], Draw(noise)));
    hide ChunkSize, Pad, Record;
  }

  lemma NothingToWrite(script: WriteScript, opts: Option<WriteOptions>, idx: nat, noise: seq<bytes>)
    ensures WriteOut(script, opts, idx, noise, []) == Written(0, 0, Wrote(0), script, idx, noise) && Cut(opts, idx, []) == []
  {
  }

  lemma OneRecord(script: WriteScript, opts: Option<WriteOptions>, idx: nat, noise: seq<bytes>, buf: bytes)
    requires buf != []
    ensures var n := ChunkSize(opts, idx, |buf|);
            var len := |Record(buf[..n] + Pad(opts, buf[..n], Draw(noise)))|;
            var a := Absorb(script, len);
            var w := WriteOut(a.script, opts, NextIdx(opts, idx), DrawRest(noise), buf[n..]);
            && WriteOut(script, opts, idx, noise, buf)
               == (if a.taken < len then Written(0, a.taken, a.stop, a.script, NextIdx(opts, idx), DrawRest(noise))
                   else w.(whole := n + w.whole))
            && Cut(opts, idx, buf) == [buf[..n]] + Cut(opts, NextIdx(opts, idx), buf[n..])
  {
  }

  /** The writer's answer: an error always shows, a stall only if nothing at all went out before it. */
  function AnswerOf(w: Written): (r: WritePoll) {
    if w.stop.WriteError? then w.stop
    else if w.stop.WritePending? && w.whole == 0 && w.cut == 0 then WritePending
    else Wrote(w.whole)
  }

  /** A buffer written to the end leaves the size list where its last piece does, so the next write goes on from there. */
  lemma {:induction false} SizesGoOn(script: WriteScript, opts: Option<WriteOptions>, idx: nat, noise: seq<bytes>, buf: bytes)
    ensures var w := WriteOut(script, opts, idx, noise, buf);
            w.whole == |buf| ==>
              w.idx == if opts.None? || opts.value.recordSizes == [] then idx else idx + |Cut(opts, idx, buf)|
    decreases |buf|
  {
    hide Absorb, Pad, Record;
    if buf != [] {
      var n := ChunkSize(opts, idx, |buf|);
      var len := |Record(buf[..n] + Pad(opts, buf[..n], Draw(noise)))|;
      SizesGoOn(Absorb(script, len).script, opts, NextIdx(opts, idx), DrawRest(noise), buf[n..]);
    }
  }

  lemma NextChunk(buf: bytes, offset: nat, n: nat)
    requires offset + n <= |buf|
    ensures buf[offset..][..n] == buf[offset..offset + n] && buf[offset..][n..] == buf[offset + n..]
    ensures buf[..offset] + buf[offset..offset + n] == buf[..offset + n]
  {
  }

  // ---------------------------------------------------------------- the stream

  /**
   What a poll may answer: payload bytes off the front of the outlook; or none, and then an error
   only where the records are too large, and an empty read only when nothing is left to deliver.
   */
  ghost predicate Delivers(r: ReadPoll, max: nat, before: Deframed, after: Deframed) {
    if Got(r) != [] then
      |Got(r)| <= max && before == after.(payload := Got(r) + after.payload)
    else match r
      case ReadPending => after == before
      case ReadReady(_) => after == before && (max > 0 ==> before == Deframed([], false))
      case ReadError(Io) => after == before
      case ReadError(InvalidData) => after == before && before == Deframed([], true)
      case ReadError(_) => false
  }

  class FakeTlsStream {
    const input: PrefixedStream
    const output: WriteHalf
    const writeOpts: Option<WriteOptions>
    var readBuf: bytes
    var writeSizeIdx: nat
    var tlsStash: bytes
    var noise: seq<bytes>          // what the random generator will yield as padding

    ghost const base: bytes        // what the sink held before this stream
    ghost var records: seq<bytes>  // the payload of every record written whole
    ghost var sent: bytes          // the bytes these records were written for
    ghost var padded: nat          // how many padding bytes they hold besides
    ghost var spilled: nat         // how many bytes of records cut short are on the wire besides

    /** What the records in the stash and on their way will deliver, fill by fill. */
    ghost function Coming(): (d: Deframed)
      requires input.Valid()
      reads this`tlsStash, input, input.inner
    {
      Run(tlsStash, Fills(input.View()))
    }

    ghost function Outlook(): (d: Deframed)
      requires input.Valid()
      reads this`readBuf, this`tlsStash, input, input.inner
    {
      Coming().(payload := readBuf + Coming().payload)
    }

    /** The sink holds whole records and nothing else. */
    ghost predicate Intact()
      reads this`records, output
    {
      output.wire == base + EncodeRecords(records)
    }

    /** The wire is the whole records and what was cut short. */
    ghost predicate Tallies()
      reads this`records, this`spilled, output
    {
      && |output.wire| == |base| + |EncodeRecords(records)| + spilled
      && (spilled == 0 ==> Intact())
    }

    /** Every record can be read back, and but for padding they carry exactly what was sent. */
    ghost predicate Faithful()
      reads this`records, this`sent, this`padded
    {
      && Carriable(records) && |Concat(records)| == |sent| + padded
      && (padded == 0 ==> Concat(records) == sent)
      && (writeOpts.None? || !writeOpts.value.padding ==> padded == 0)
    }

    constructor (input: PrefixedStream, output: WriteHalf, writeOpts: Option<WriteOptions>, noise: seq<bytes>)
      requires input.Valid()
      ensures this.input == input && this.output == output && this.writeOpts == writeOpts && this.noise == noise
      ensures readBuf == [] && tlsStash == [] && writeSizeIdx == 0
      ensures Intact() && Tallies() && Faithful() && records == [] && sent == [] && base == output.wire
    {
      this.input, this.output, this.writeOpts, this.noise := input, output, writeOpts, noise;
      readBuf, writeSizeIdx, tlsStash := [], 0, [];
      base, records, sent, padded, spilled := output.wire, [], [], 0, 0;
    }

    /** Hands over the bytes that were deframed but not delivered; they are delivered no more. */
    method TakeReadBuf() returns (taken: bytes)
      requires input.Valid()
      modifies this`readBuf
      ensures taken == old(readBuf) && readBuf == []
      ensures old(Outlook()) == Outlook().(payload := taken + Outlook().payload)
    {
      taken, readBuf := readBuf, [];
    }

    /** One fill of the stash. */
    method PollFill() returns (r: ReadPoll)
      requires input.Valid()
      modifies this`tlsStash, input, input.inner
      ensures input.Valid() && tlsStash == old(tlsStash) + Got(r)
      ensures old(Fills(input.View())) == if Got(r) != [] then [Got(r)] + Fills(input.View())
                                          else if r.ReadReady? then [] else Fills(input.View())
      ensures r.ReadReady? && Got(r) == [] ==> Fills(input.View()) == []
      ensures input.Size() <= old(input.Size()) && (Got(r) != [] ==> input.Size() < old(input.Size()))
      ensures r.ReadError? ==> r.kind == Io
      ensures Progressed(r, old(input.Size()), input.Size())
      ensures r.ReadPending? && old(input.Size()) == 0 ==> old(Fills(input.View())) == []
      ensures old(input.Failures()) == input.Failures() + Reported(r)
    {
      FillStep(input.View());
      ReadStepKeeps(input.View(), FILL);
      r := input.PollRead(FILL);
      tlsStash := tlsStash + Got(r);
    }

    static lemma RunStep(stash: bytes, fills: seq<segment>)
      requires |stash| >= 5
      ensures var len := PayloadLen(stash);
              && (len > MAX_RECORD ==> Run(stash, fills) == Deframed([], true))
              && (len <= MAX_RECORD && |stash| < 5 + len ==>
                    Run(stash, fills) == if fills == [] then Deframed([], false) else Run(Abandon(stash + fills[0], |stash|), fills[1..]))
              && (len <= MAX_RECORD && |stash| >= 5 + len ==>
                    var rest := stash[5 + len..];
                    var d := Run(rest, fills);
                    Run(stash, fills) ==
                    if stash[0] != TLS_APPLICATION_DATA then d
                    else if len == 0 then Run(Resync(rest), fills)
                    else d.(payload := stash[5..5 + len] + d.payload))
    {
    }

    static lemma RunShort(stash: bytes, fills: seq<segment>)
      requires |stash| < 5
      ensures Run(stash, fills) == if fills == [] then Deframed([], false) else Run(Resync(stash + fills[0]), fills[1..])
      ensures Resync(stash) == stash
    {
    }

    /** Takes whole records off the stash, filling it as needed, until one carries application data. */
    method TakeRecords() returns (stop: Option<ReadPoll>)
      requires input.Valid() && readBuf == []
      modifies this`readBuf, this`tlsStash, input, input.inner
      ensures input.Valid()
      ensures stop.Some? ==> readBuf == [] && Got(stop.value) == [] && Delivers(stop.value, 1, old(Coming()), Coming())
      ensures stop.None? ==> old(Coming()) == if readBuf != [] then Outlook() else Run(Resync(tlsStash), Fills(input.View()))
      ensures stop.Some? ==> Progressed(stop.value, old(input.Size()), input.Size())
      ensures stop == Some(ReadPending) && old(input.Size()) == 0 ==> old(Coming()) == Deframed([], false)
      ensures old(input.Failures()) == input.Failures() + if stop.Some? then Reported(stop.value) else 0
      ensures input.Size() <= old(input.Size())
      ensures || |tlsStash| < old(|tlsStash|) || input.Size() < old(input.Size()) || stop.Some?
              || (old(|tlsStash|) < 5 && unchanged(`tlsStash))
    {
      hide U16, Fills, PrefixedStream.View, PrefixedStream.Size, PrefixedStream.Failures, FindHeader, Run, Resync, Abandon;
      ghost var before := Coming();
      while |tlsStash| >= 5
        invariant input.Valid() && readBuf == [] && Coming() == before
        invariant input.Size() <= old(input.Size()) && input.Failures() == old(input.Failures())
        invariant || |tlsStash| < old(|tlsStash|) || input.Size() < old(input.Size())
                  || (|tlsStash| == old(|tlsStash|) && unchanged(`tlsStash))
        decreases input.Size(), |tlsStash|
      {
        RunStep(tlsStash, Fills(input.View()));
        var payloadLen := PayloadLen(tlsStash);
        if payloadLen > MAX_RECORD {
          return Some(ReadError(InvalidData));
        }
        var total := 5 + payloadLen;
        if |tlsStash| >= total {
          var recordType, payload := tlsStash[0], tlsStash[5..total];
          tlsStash := tlsStash[total..];
          if recordType == TLS_APPLICATION_DATA {
            readBuf := payload;
            return None;
          }
          continue;
        }
        var stashLen := |tlsStash|;
        ghost var stash := tlsStash;
        var poll := PollFill();
        if !poll.ReadReady? {
          assert tlsStash == stash;
          return Some(poll);
        }
        if poll.data == [] {
          assert tlsStash == stash;
          return Some(poll);
        }
        tlsStash := Abandon(tlsStash, stashLen);
        if |tlsStash| == stashLen {
          return Some(ReadPending);
        }
      }
      RunShort(tlsStash, Fills(input.View()));
      stop := None;
    }

    /** Between records: fills a short stash, then looks for a record header if there is none at its front. */
    method Settle() returns (stop: Option<ReadPoll>)
      requires input.Valid() && readBuf == []
      modifies this`tlsStash, input, input.inner
      ensures input.Valid()
      ensures stop.Some? ==> Got(stop.value) == []
                             && Delivers(stop.value, 1, old(Run(Resync(tlsStash), Fills(input.View()))), Coming())
      ensures stop.None? ==> old(Run(Resync(tlsStash), Fills(input.View()))) == Coming()
      ensures stop.Some? ==> Progressed(stop.value, old(input.Size()), input.Size())
      ensures stop == Some(ReadPending) && old(input.Size()) == 0 ==>
                old(Run(Resync(tlsStash), Fills(input.View()))) == Deframed([], false)
      ensures old(input.Failures()) == input.Failures() + if stop.Some? then Reported(stop.value) else 0
      ensures input.Size() <= old(input.Size())
      ensures stop.None? ==> input.Size() < old(input.Size()) || |tlsStash| <= old(|tlsStash|)
      ensures stop.None? && old(|tlsStash|) < 5 ==> input.Size() < old(input.Size())
    {
      hide U16, Fills, PrefixedStream.View, PrefixedStream.Size, PrefixedStream.Failures, FindHeader;
      if |tlsStash| < 5 {
        ghost var stash := tlsStash;
        assert Resync(stash) == stash;
        var poll := PollFill();
        if !poll.ReadReady? || poll.data == [] {
          assert tlsStash == stash;
          return Some(poll);
        }
      }
      if |tlsStash| >= 5 && !LooksLikeHeader(tlsStash) {
        var pos := FindHeader(tlsStash, 0);
        if pos.Some? {
          tlsStash := tlsStash[pos.value..];
        }
      }
      stop := None;
    }

    /** Copies deframed bytes out, as many as there is room for. */
    method HandOut(max: nat) returns (data: bytes)
      requires input.Valid() && readBuf != []
      modifies this`readBuf
      ensures data == old(readBuf)[..Min(|old(readBuf)|, max)] && readBuf == old(readBuf)[|data|..]
      ensures old(Outlook()) == Outlook().(payload := data + Outlook().payload)
    {
      hide Run, Fills, PrefixedStream.View;
      var n := Min(|readBuf|, max);
      data := readBuf[..n];
      ghost var coming := Coming();
      assert readBuf + coming.payload == data + (readBuf[n..] + coming.payload);
      readBuf := readBuf[n..];
      assert Coming() == coming;
    }

    /**
     Delivers application data in record order; see `Delivers`. Every failure of the stream below is
     reported, and a reader is kept waiting only while the stream below has more to do.
     */
    method PollRead(max: nat) returns (r: ReadPoll)
      requires input.Valid()
      modifies this`readBuf, this`tlsStash, input, input.inner
      ensures input.Valid()
      ensures Delivers(r, max, old(Outlook()), Outlook())
      ensures Progressed(r, old(input.Size()), input.Size())
      ensures r.ReadPending? && old(input.Size()) == 0 ==> old(Outlook()) == Deframed([], false)
      ensures old(input.Failures()) == input.Failures() + Reported(r)
    {
      hide U16, Fills, Run, PrefixedStream.View, PrefixedStream.Size, PrefixedStream.Failures, FindHeader;
      ghost var before := Outlook();
      while true
        invariant input.Valid() && Outlook() == before
        invariant input.Size() <= old(input.Size()) && input.Failures() == old(input.Failures())
        decreases readBuf == [], input.Size(), |tlsStash|
      {
        if readBuf != [] {
          var data := HandOut(max);
          return ReadReady(data);
        }
        var stop := TakeRecords();
        if stop.Some? {
          return stop.value;
        }
        if readBuf != [] {
          continue;
        }
        stop := Settle();
        if stop.Some? {
          return stop.value;
        }
      }
    }

    /** Offers one record to the sink until all of it is taken or the sink stops. */
    method PutRecord(record: bytes) returns (written: nat, stopped: WritePoll)
      modifies output
      ensures Absorb(old(output.script), |record|) == Absorbed(written, stopped, output.script)
      ensures output.wire == old(output.wire) + record[..written]
    {
      hide WriteStep, WriteRest;
      written, stopped := 0, Wrote(0);
      ghost var all := Absorb(output.script, |record|);
      while written < |record|
        invariant written <= |record|
        invariant output.wire == old(output.wire) + record[..written]
        invariant var a := Absorb(output.script, |record| - written); all == a.(taken := written + a.taken)
      {
        var poll := output.PollWrite(record[written..]);
        if !poll.Wrote? {
          return written, poll;
        }
        if poll.n == 0 {
          return written, WriteError(ErrorKind.WriteZero);
        }
        assert record[..written] + record[written..][..poll.n] == record[..written + poll.n];
        written := written + poll.n;
      }
    }

    /** Takes the size of the next chunk from the list. */
    method NextChunkSize(remaining: nat) returns (n: nat)
      modifies this`writeSizeIdx
      ensures n == ChunkSize(writeOpts, old(writeSizeIdx), remaining)
      ensures writeSizeIdx == NextIdx(writeOpts, old(writeSizeIdx))
    {
      n := ChunkSize(writeOpts, writeSizeIdx, remaining);
      writeSizeIdx := NextIdx(writeOpts, writeSizeIdx);
    }

    method MaybePadPayload(chunk: bytes) returns (payload: bytes)
      modifies this`noise
      ensures payload == chunk + Pad(writeOpts, chunk, Draw(old(noise)))
      ensures noise == DrawRest(old(noise))
    {
      payload := chunk + Pad(writeOpts, chunk, Draw(noise));
      noise := DrawRest(noise);
    }

    /** Pads a chunk and writes it as one record of `len` bytes. */
    method WriteRecord(chunk: bytes) returns (len: nat, written: nat, stopped: WritePoll)
      requires Tallies() && Faithful() && 1 <= |chunk| <= MAX_TLS_PAYLOAD
      modifies this`noise, this`records, this`sent, this`padded, this`spilled, output
      ensures Tallies() && Faithful() && noise == DrawRest(old(noise))
      ensures written == 0 ==> output.wire == old(output.wire)
      ensures len == |Record(chunk + Pad(writeOpts, chunk, Draw(old(noise))))| > 0
      ensures Absorb(old(output.script), len) == Absorbed(written, stopped, output.script)
      ensures written == len ==>
                && (Intact() <==> old(Intact())) && spilled == old(spilled) && sent == old(sent) + chunk
                && records == old(records) + [chunk + Pad(writeOpts, chunk, Draw(old(noise)))]
      ensures written < len ==>
                && records == old(records) && sent == old(sent) && spilled == old(spilled) + written
                && (Intact() <==> old(Intact()) && written == 0)
      ensures written == len && (writeOpts.None? || !writeOpts.value.padding) ==> records == old(records) + [chunk]
    {
      hide EncodeRecords, Pad, Absorb;
      var payload := MaybePadPayload(chunk);
      var record := Record(payload);
      len := |record|;
      written, stopped := PutRecord(record);
      if written == len {
        RecordsAppend(records, payload);
        ConcatAppend(records, payload);
        ghost var before := EncodeRecords(records);
        assert record[..written] == record && (base + before) + record == base + (before + record);
        assert |payload| == |chunk| ==> payload == chunk;
        records, sent, padded := records + [payload], sent + chunk, padded + |payload| - |chunk|;
      } else {
        spilled := spilled + written;
      }
    }

    /** Writes `buf` record by record until all of it is out or the sink stops. */
    method WriteRecords(buf: bytes) returns (offset: nat, written: nat, stopped: WritePoll)
      requires Tallies() && Faithful()
      modifies this`writeSizeIdx, this`noise, this`records, this`sent, this`padded, this`spilled, output
      ensures Tallies() && Faithful()
      ensures WriteOut(old(output.script), writeOpts, old(writeSizeIdx), old(noise), buf)
              == Written(offset, written, stopped, output.script, writeSizeIdx, noise)
      ensures offset <= |buf| && sent == old(sent) + buf[..offset] && spilled == old(spilled) + written
      ensures (Intact() <==> old(Intact()) && written == 0)
      ensures offset == written == 0 ==> output.wire == old(output.wire)
      ensures stopped.Wrote? && (writeOpts.None? || !writeOpts.value.padding) ==>
                records == old(records) + Cut(writeOpts, old(writeSizeIdx), buf)
    {
      hide EncodeRecords, ChunkSize, Absorb, Record, Concat, Pad, NextIdx, WriteOut, Cut, DrawRest, Draw;
      hide FakeTlsStream.Intact, FakeTlsStream.Faithful, FakeTlsStream.Tallies;
      ghost var w := WriteOut(output.script, writeOpts, writeSizeIdx, noise, buf);
      ghost var all := records + Cut(writeOpts, writeSizeIdx, buf);
      ghost var plain := writeOpts.None? || !writeOpts.value.padding;
      offset := 0;
      NextChunk(buf, 0, 0);
      while offset < |buf|
        invariant offset <= |buf| && Tallies() && Faithful() && sent == old(sent) + buf[..offset]
        invariant (Intact() <==> old(Intact())) && spilled == old(spilled) && (offset == 0 ==> output.wire == old(output.wire))
        invariant var v := WriteOut(output.script, writeOpts, writeSizeIdx, noise, buf[offset..]); w == v.(whole := offset + v.whole)
        invariant plain ==> all == records + Cut(writeOpts, writeSizeIdx, buf[offset..])
      {
        OneRecord(output.script, writeOpts, writeSizeIdx, noise, buf[offset..]);
        var n := NextChunkSize(|buf| - offset);
        NextChunk(buf, offset, n);
        var len;
        len, written, stopped := WriteRecord(buf[offset..offset + n]);
        if written < len {
          return;
        }
        offset := offset + n;
      }
      NothingToWrite(output.script, writeOpts, writeSizeIdx, noise);
      written, stopped := 0, Wrote(0);
    }

    /**
     Writes `buf` as records. The wire keeps whole records exactly when the sink never stops inside
     one; a record that is cut short stays cut, and its bytes are reported as not written. What is
     reported as written is what went out in whole records, "pending" means that nothing went out, and
     a failure of the sink is reported.
     */
    method PollWrite(buf: bytes) returns (r: WritePoll)
      requires Tallies() && Faithful()
      modifies this`writeSizeIdx, this`noise, this`records, this`sent, this`padded, this`spilled, output
      ensures Tallies() && Faithful()
      ensures r.WritePending? ==> sent == old(sent) && output.wire == old(output.wire)
      ensures r.Wrote? ==> r.n <= |buf| && sent == old(sent) + buf[..r.n]
      ensures old(Breaks(output.script)) == Breaks(output.script) + if r == WriteError(Io) then 1 else 0
      ensures var w := WriteOut(old(output.script), writeOpts, old(writeSizeIdx), old(noise), buf);
              && (Intact() <==> old(Intact()) && w.cut == 0) && spilled == old(spilled) + w.cut
              && sent == old(sent) + buf[..w.whole]
              && r == AnswerOf(w) && (r.Wrote? ==> r.n == w.whole)
              && output.script == w.script && writeSizeIdx == w.idx && noise == w.noise
      ensures r == Wrote(|buf|) && (writeOpts.None? || !writeOpts.value.padding) ==>
                records == old(records) + Cut(writeOpts, old(writeSizeIdx), buf)
    {
      hide EncodeRecords, Concat, Pad, WriteOut, Cut, DrawRest, Draw, Breaks;
      hide FakeTlsStream.Intact, FakeTlsStream.Faithful, FakeTlsStream.Tallies;
      WriteOutUses(output.script, writeOpts, writeSizeIdx, noise, buf);
      var offset, written, stopped := WriteRecords(buf);
      if stopped.WriteError? {
        return stopped;
      }
      if stopped.WritePending? && offset == 0 && written == 0 {
        return WritePending;
      }
      return Wrote(offset);
    }

    /**
     Writes all of `buf`, polling again whenever the sink was blocked. However often that was, no byte goes
     out in whole records twice and none is left out; and the wire holds whole records and nothing else,
     with all of `buf` written, exactly if it held nothing else before and the sink never cuts a record.
     */
    method WriteAll(buf: bytes) returns (r: DrainPoll)
      requires Tallies() && Faithful()
      modifies this`writeSizeIdx, this`noise, this`records, this`sent, this`padded, this`spilled, output
      ensures Tallies() && Faithful()
      ensures Prefix(old(sent), sent) && Prefix(sent, old(sent) + buf) && (r.Drained? ==> sent == old(sent) + buf)
      ensures r.Drained? && Intact() <==>
              old(Intact()) && NeverCuts(old(output.script), writeOpts, old(writeSizeIdx), old(noise), buf)
      ensures r.DrainPending? ==> output.script == []
    {
      hide EncodeRecords, ChunkSize, Concat, NextIdx, WriteOut, Cut, DrawRest, Draw, Breaks, NeverCuts;
      hide FakeTlsStream.Intact, FakeTlsStream.Faithful, FakeTlsStream.Tallies;
      ghost var good := Intact() && NeverCuts(output.script, writeOpts, writeSizeIdx, noise, buf);
      var off: nat := 0;
      assert buf[0..] == buf;
      while off < |buf|
        invariant off <= |buf| && Tallies() && Faithful() && sent == old(sent) + buf[..off]
        invariant good <==> Intact() && NeverCuts(output.script, writeOpts, writeSizeIdx, noise, buf[off..])
        decreases |output.script|, |buf| - off
      {
        ghost var script, idx, draws, rest, whole := output.script, writeSizeIdx, noise, buf[off..], Intact();
        var waiting := output.script == [];
        WriteOutUses(script, writeOpts, idx, draws, rest);
        var poll := PollWrite(buf[off..]);
        NeverCutsStep(script, writeOpts, idx, draws, rest);
        ghost var n := WriteOut(script, writeOpts, idx, draws, rest).whole;
        assert rest[n..] == buf[off + n..] && buf[..off] + rest[..n] == buf[..off + n];
        match poll {
          case Wrote(n) =>
            if n == 0 {
              return DrainError(ErrorKind.WriteZero);
            }
            off := off + n;
          case WritePending =>
            if waiting {
              return DrainPending;
            }
          case WriteError(kind) =>
            return DrainError(kind);
        }
      }
      assert buf[off..] == [] && buf[..off] == buf;
      NothingIsNeverCut(output.script, writeOpts, writeSizeIdx, noise);
      r := Drained;
    }
  }

  /**
   However the wire is chunked, the peer of a writer whose sink never stopped inside a record reads
   what the records hold. Padding is not taken out again: it is exactly what was sent only without any.
   */
  lemma PeerReads(s: FakeTlsStream, fills: seq<segment>)
    requires s.Intact() && s.Faithful() && s.base == [] && Joined(fills) == s.output.wire
    ensures Run([], fills) == Deframed(Concat(s.records), false)
    ensures Run([], fills) == Deframed(s.sent, false) <==> s.padded == 0
  {
    assert s.base + EncodeRecords(s.records) == EncodeRecords(s.records);
    WrittenIsRead(s.records, fills);
  }
}
