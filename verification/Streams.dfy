/**
 The two directions of a non-blocking byte stream, as the layers above see them:
 what a reader will be handed and what a sink will accept are scripts of outcomes,
 so a statement about every script is a statement about every chunking, stall and
 failure. `PrefixedStream` replays bytes that were read ahead of the stream.
 */
module Streams {
  import opened Bytes

  /** One segment handed over by the network. An empty read means end of stream, so a segment has a byte. */
  type segment = s: bytes | s != [] witness [0]

  datatype ErrorKind = Io | UnexpectedEof | InvalidData | WriteZero

  // ---------------------------------------------------------------- reading

  /** How a loop over streams comes to rest: its source ended, has nothing more, or broke; or its sink takes no more, or refused. */
  datatype Rest = Ended | Waits | Broke(kind: ErrorKind) | Blocked | Refused(why: ErrorKind)

  datatype ReadEvent = Chunk(data: segment) | End | Block | Fail

  datatype ReadPoll = ReadReady(data: bytes) | ReadPending | ReadError(kind: ErrorKind)

  /** What a read of an exact number of bytes comes to. */
  datatype ReadAll = Full(data: bytes) | Waiting | Failed(kind: ErrorKind)

  type ReadScript = seq<ReadEvent>

  /** What a read with room for `max` bytes returns, and the script that is left. End of stream persists. */
  function ReadStep(script: ReadScript, max: nat): (ReadPoll, ReadScript) {
    if script == [] then (ReadPending, [])
    else match script[0]
      case Chunk(d) =>
        if |d| <= max then (ReadReady(d), script[1..])
        else (ReadReady(d[..max]), [Chunk(d[max..])] + script[1..])
      case End => (ReadReady([]), script)
      case Block => (ReadPending, script[1..])
      case Fail => (ReadError(Io), script[1..])
  }

  /** The bytes a script still has to hand over, in order. */
  function Arriving(script: ReadScript): (s: bytes) {
    if script == [] || script[0].End? then []
    else (if script[0].Chunk? then script[0].data else []) + Arriving(script[1..])
  }

  /** Bounds the number of polls that can still change a script. */
  function ScriptSize(script: ReadScript): (n: nat) {
    if script == [] then 0
    else (if script[0].Chunk? then |script[0].data| else 1) + ScriptSize(script[1..])
  }

  /** How many failures the script still holds. */
  function Fails(script: ReadScript): (n: nat) {
    if script == [] then 0 else (if script[0].Fail? then 1 else 0) + Fails(script[1..])
  }

  function Reported(r: ReadPoll): (n: nat) {
    if r == ReadError(Io) then 1 else 0
  }

  function Got(r: ReadPoll): (data: bytes) {
    if r.ReadReady? then r.data else []
  }

  /**
   What a read with room for `max` bytes may do to a stream with `before` bytes to come, leaving
   `after`: it loses, repeats and reorders nothing, and an empty read means that nothing is to come.
   */
  predicate Took(r: ReadPoll, max: nat, before: bytes, after: bytes) {
    && before == Got(r) + after
    && |Got(r)| <= max
    && (r == ReadReady([]) && max > 0 ==> before == [])
    && (r.ReadError? ==> r.kind == Io)
  }

  /** A poll never adds to what the stream below can still do, and it is pending only if it used some of that up, or there was nothing. */
  predicate Progressed(r: ReadPoll, before: nat, after: nat) {
    after <= before && (r.ReadPending? ==> after < before || before == 0)
  }

  /** Every read takes its bytes off the front of what is arriving, and uses up the script unless it is at its end. */
  lemma ReadStepKeeps(script: ReadScript, max: nat)
    ensures var (r, rest) := ReadStep(script, max);
            && Took(r, max, Arriving(script), Arriving(rest))
            && ScriptSize(rest) <= ScriptSize(script)
            && (Got(r) != [] ==> ScriptSize(rest) < ScriptSize(script))
            && (!r.ReadReady? && script != [] ==> ScriptSize(rest) < ScriptSize(script))
            && (r == ReadReady([]) && max > 0 ==> rest == script)
  {
    if script != [] && script[0].Chunk? && |script[0].data| > max {
      CutChunk(script[0].data, script[1..], max);
    }
  }

  lemma CutChunk(d: segment, tail: ReadScript, max: nat)
    requires |d| > max
    ensures Arriving([Chunk(d[max..])] + tail) == d[max..] + Arriving(tail)
    ensures d + Arriving(tail) == d[..max] + (d[max..] + Arriving(tail))
    ensures ScriptSize([Chunk(d[max..])] + tail) == |d| - max + ScriptSize(tail)
  {
    assert ([Chunk(d[max..])] + tail)[1..] == tail;
  }

  lemma EmptyScript()
    ensures ScriptSize([]) == 0 && Arriving([]) == []
  {
  }

  /** Every failure is reported once: none is swallowed and none is made up. */
  lemma ReadStepReports(script: ReadScript, max: nat)
    ensures var (r, rest) := ReadStep(script, max);
            Fails(script) == Fails(rest) + Reported(r)
  {
    hide Arriving, ScriptSize;
    if script != [] && script[0].Chunk? && |script[0].data| > max {
      assert ([Chunk(script[0].data[max..])] + script[1..])[1..] == script[1..];
    }
  }

  /** The read half of a socket. */
  class ReadHalf {
    var script: ReadScript

    constructor (script: ReadScript)
      ensures this.script == script
    {
      this.script := script;
    }

    method PollRead(max: nat) returns (r: ReadPoll)
      modifies this
      ensures (r, script) == ReadStep(old(script), max)
    {
      var (poll, rest) := ReadStep(script, max);
      r, script := poll, rest;
    }
  }

  function AsChunk(d: bytes): (s: ReadScript) {
    if d == [] then [] else [Chunk(d)]
  }

  lemma PrefixArrives(prefix: bytes, script: ReadScript)
    ensures Arriving(AsChunk(prefix) + script) == prefix + Arriving(script)
    ensures Fails(AsChunk(prefix) + script) == Fails(script)
  {
    if prefix == [] {
      assert AsChunk(prefix) + script == script;
    } else {
      assert (AsChunk(prefix) + script)[1..] == script;
    }
  }

  /** A stream that hands out a stored prefix before it turns to the stream below. */
  class PrefixedStream {
    const prefix: bytes
    var pos: nat
    const inner: ReadHalf

    ghost predicate Valid()
      reads this
    {
      pos <= |prefix|
    }

    /** The stream is indistinguishable from one whose script starts with the unread prefix. */
    ghost function View(): (s: ReadScript)
      requires Valid()
      reads this, inner
    {
      AsChunk(prefix[pos..]) + inner.script
    }

    /** The bytes still to come. */
    ghost function Rest(): (s: bytes)
      requires Valid()
      reads this, inner
    {
      Arriving(View())
    }

    ghost function Size(): (n: nat)
      requires Valid()
      reads this, inner
    {
      ScriptSize(View())
    }

    /** How many failures of the stream below are still to be reported. */
    ghost function Failures(): (n: nat)
      requires Valid()
      reads this, inner
    {
      Fails(View())
    }

    constructor (prefix: bytes, inner: ReadHalf)
      ensures Valid() && this.prefix == prefix && this.inner == inner && pos == 0
      ensures View() == AsChunk(prefix) + inner.script
    {
      this.prefix, this.pos, this.inner := prefix, 0, inner;
    }

    /** The stream answers as its view says, and a view takes its bytes off the front of what is to come. */
    method PollRead(max: nat) returns (r: ReadPoll)
      requires Valid()
      modifies this, inner
      ensures Valid()
      ensures (r, View()) == ReadStep(old(View()), max)
      ensures Took(r, max, old(Rest()), Rest())
      ensures Size() <= old(Size()) && (Got(r) != [] ==> Size() < old(Size()))
      ensures !r.ReadReady? ==> Size() < old(Size()) || (old(Size()) == 0 && old(Rest()) == [])
      ensures old(Failures()) == Failures() + Reported(r)
    {
      hide ReadStep, Fails, ScriptSize, Arriving, View;
      ghost var view := View();
      ReadStepKeeps(view, max);
      ReadStepReports(view, max);
      EmptyScript();
      r := Take(max);
    }

    /** One poll, from the prefix while there is some, else from the stream below. */
    method Take(max: nat) returns (r: ReadPoll)
      requires Valid()
      modifies this, inner
      ensures Valid()
      ensures (r, View()) == ReadStep(old(View()), max)
    {
      if pos < |prefix| {
        var data := prefix[pos..];
        var n := Min(|data|, max);
        assert View()[1..] == inner.script;
        pos := pos + n;
        assert prefix[pos..] == data[n..];
        assert n == |data| ==> View() == inner.script && data[..n] == data;
        assert n < |data| ==> View() == [Chunk(data[max..])] + inner.script;
        return ReadReady(data[..n]);
      }
      assert prefix[pos..] == [] && View() == inner.script;
      r := inner.PollRead(max);
      assert View() == inner.script;
    }

    /** Reads exactly `n` bytes, polling again whenever nothing was there; it waits if the script runs out. */
    method ReadExact(n: nat) returns (r: ReadAll)
      requires Valid()
      modifies this, inner
      ensures Valid()
      ensures r.Full? ==> |r.data| == n && old(Rest()) == r.data + Rest()
      ensures r.Failed? && r.kind == UnexpectedEof ==> |old(Rest())| < n
      ensures r.Waiting? ==> |old(Rest())| < n
      ensures r.Failed? ==> r.kind in {Io, UnexpectedEof}
      ensures old(Failures()) == Failures() + if r == Failed(Io) then 1 else 0
    {
      hide ReadStep, View, Rest, Size, Failures;
      var data := [];
      while |data| < n
        invariant Valid() && |data| <= n
        invariant old(Rest()) == data + Rest() && Failures() == old(Failures())
        decreases Size()
      {
        ghost var before, have := Rest(), data;
        var poll := PollRead(n - |data|);
        assert before == Got(poll) + Rest();
        match poll {
          case ReadReady(more) =>
            if more == [] {
              return Failed(UnexpectedEof);
            }
            data := data + more;
            assert have + (more + Rest()) == data + Rest();
          case ReadPending =>
            if Exhausted() {
              return Waiting;
            }
          case ReadError(kind) =>
            return Failed(kind);
        }
      }
      r := Full(data);
    }

    predicate Exhausted()
      requires Valid()
      reads this, inner
      ensures Exhausted() <==> Size() == 0
      ensures Exhausted() ==> Rest() == []
    {
      pos == |prefix| && inner.script == []
    }
  }

  lemma WithoutPrefix(p: PrefixedStream)
    requires p.Valid() && p.prefix == []
    ensures p.View() == p.inner.script && p.Rest() == Arriving(p.inner.script) && p.Failures() == Fails(p.inner.script)
  {
    assert AsChunk(p.prefix[p.pos..]) + p.inner.script == p.inner.script;
  }

  // ---------------------------------------------------------------- writing

  datatype WriteEvent = Room(n: nat) | Stall | Break

  datatype WritePoll = Wrote(n: nat) | WritePending | WriteError(kind: ErrorKind)

  type WriteScript = seq<WriteEvent>

  /** What a sink answers to a write of `len` bytes. */
  function WriteStep(script: WriteScript, len: nat): (r: WritePoll) {
    if script == [] || script[0].Stall? then WritePending
    else if script[0].Break? then WriteError(Io)
    else Wrote(Min(script[0].n, len))
  }

  /** How often a sink will fail. */
  function Breaks(script: WriteScript): (n: nat) {
    if script == [] then 0 else (if script[0].Break? then 1 else 0) + Breaks(script[1..])
  }

  /** Whether a sink takes `len` bytes sooner or later, if it is offered them again whenever it was blocked. */
  predicate TakesAll(script: WriteScript, len: nat) {
    len == 0 || (script != [] &&
      match WriteStep(script, len)
      case WritePending => TakesAll(script[1..], len)
      case WriteError(_) => false
      case Wrote(n) => n > 0 && TakesAll(script[1..], len - n))
  }

  function WriteRest(script: WriteScript): (rest: WriteScript) {
    if script == [] then [] else script[1..]
  }

  /** The script once a sink has been offered `len` bytes until it took them all or failed. */
  function AfterTaking(script: WriteScript, len: nat): (rest: WriteScript) {
    if len == 0 || script == [] then script
    else match WriteStep(script, len)
      case WritePending => AfterTaking(script[1..], len)
      case WriteError(_) => script[1..]
      case Wrote(n) => if n == 0 then script[1..] else AfterTaking(script[1..], len - n)
  }

  // What it takes to write out a stored remainder: one attempt, and a short write counts as blocked.

  datatype DrainPoll = Drained | DrainPending | DrainError(kind: ErrorKind)

  function AsWritePoll(d: DrainPoll): (r: WritePoll)
    requires !d.Drained?
  {
    if d.DrainError? then WriteError(d.kind) else WritePending
  }

  function AsDrainPoll(r: WritePoll): (d: DrainPoll)
    requires !r.Wrote?
  {
    if r.WriteError? then DrainError(r.kind) else DrainPending
  }

  function DrainStep(pending: nat, script: WriteScript): (r: DrainPoll) {
    if pending == 0 then Drained
    else match WriteStep(script, pending)
      case WritePending => DrainPending
      case WriteError(kind) => DrainError(kind)
      case Wrote(n) => if n == 0 then DrainError(ErrorKind.WriteZero) else if n < pending then DrainPending else Drained
  }

  /** How many of the pending bytes that attempt gets rid of. */
  function DrainTaken(pending: nat, script: WriteScript): (n: nat)
    ensures n <= pending
  {
    if pending == 0 then 0
    else match WriteStep(script, pending)
      case Wrote(n) => n
      case _ => 0
  }

  /** The script once the pending bytes have been offered to the sink. */
  function AfterDrain(pending: nat, script: WriteScript): (rest: WriteScript) {
    if pending == 0 then script else WriteRest(script)
  }

  /** Whether pending bytes get out in the end, told from one attempt and what is left. */
  lemma DrainKeeps(pending: nat, script: WriteScript)
    requires pending > 0
    ensures var d := DrainStep(pending, script);
            TakesAll(script, pending) <==>
            d.Drained? || (d.DrainPending? && TakesAll(AfterDrain(pending, script), pending - DrainTaken(pending, script)))
  {
  }

  /** A flush: the pending bytes first, then, once they are all out, the sink. */
  function FlushStep(pending: nat, script: WriteScript): (r: (DrainPoll, WriteScript)) {
    var d, rest := DrainStep(pending, script), AfterDrain(pending, script);
    if !d.Drained? then (d, rest)
    else
      var poll := WriteStep(rest, 0);
      (if poll.Wrote? then Drained else AsDrainPoll(poll), WriteRest(rest))
  }

  /** Polling a flush of `pending` bytes again whenever it was blocked: what comes of it, and the script that is left. */
  function FlushRun(pending: nat, script: WriteScript): (r: (DrainPoll, WriteScript)) {
    if script == [] then (DrainPending, [])
    else match WriteStep(script, pending)
      case WritePending => FlushRun(pending, script[1..])
      case WriteError(kind) => (DrainError(kind), script[1..])
      case Wrote(n) =>
        if pending == 0 then (Drained, script[1..])
        else if n == 0 then (DrainError(ErrorKind.WriteZero), script[1..])
        else FlushRun(pending - n, script[1..])
  }

  /** One more poll of it. */
  lemma FlushRunStep(pending: nat, script: WriteScript)
    ensures var (d, rest) := FlushStep(pending, script);
            FlushRun(pending, script)
            == if !d.DrainPending? || script == [] then (d, rest) else FlushRun(pending - DrainTaken(pending, script), rest)
    ensures script != [] ==> |FlushStep(pending, script).1| < |script|
  {
  }

  /** Whether a sink takes `len` bytes and is flushed behind them, if it is asked again whenever it was blocked. */
  predicate TakesFlushed(script: WriteScript, len: nat) {
    TakesAll(script, len) && FlushRun(0, AfterTaking(script, len)).0.Drained?
  }

  /** The script that is left then. */
  function AfterFlushed(script: WriteScript, len: nat): (rest: WriteScript) {
    FlushRun(0, AfterTaking(script, len)).1
  }

  lemma TakesStep(script: WriteScript, len: nat)
    ensures TakesAll(script, 0)
    ensures len > 0 ==>
              (TakesAll(script, len) <==>
               && script != []
               && match WriteStep(script, len)
                  case WritePending => TakesAll(WriteRest(script), len)
                  case WriteError(_) => false
                  case Wrote(n) => n > 0 && TakesAll(WriteRest(script), len - n))
    ensures AfterTaking(script, 0) == script
    ensures len > 0 ==>
              AfterTaking(script, len) ==
              match WriteStep(script, len)
              case WritePending => if script == [] then [] else AfterTaking(WriteRest(script), len)
              case WriteError(_) => WriteRest(script)
              case Wrote(n) => if n == 0 then WriteRest(script) else AfterTaking(WriteRest(script), len - n)
  {
  }

  /** Why a loop stops over its sink. */
  function SinkStop(r: DrainPoll): (rest: Rest)
    requires !r.Drained?
  {
    if r.DrainError? then Refused(r.kind) else Blocked
  }

  predicate OverSink(rest: Rest) {
    rest.Blocked? || rest.Refused?
  }

  /** The write half of a socket: `wire` is everything it has accepted so far. */
  class WriteHalf {
    var script: WriteScript
    var wire: bytes

    constructor (script: WriteScript)
      ensures this.script == script && wire == []
    {
      this.script, wire := script, [];
    }

    method PollWrite(data: bytes) returns (r: WritePoll)
      modifies this
      ensures r == WriteStep(old(script), |data|)
      ensures script == WriteRest(old(script))
      ensures r.Wrote? ==> r.n <= |data| && wire == old(wire) + data[..r.n]
      ensures !r.Wrote? ==> wire == old(wire)
    {
      r := WriteStep(script, |data|);
      script := WriteRest(script);
      if r.Wrote? {
        wire := wire + data[..r.n];
      }
    }

    /** Offers `data` until all of it is taken, polling again whenever the sink was blocked. */
    method WriteAll(data: bytes) returns (r: DrainPoll)
      modifies this
      ensures r.Drained? <==> TakesAll(old(script), |data|)
      ensures script == AfterTaking(old(script), |data|) && (r.DrainPending? ==> script == [])
      ensures r.Drained? ==> wire == old(wire) + data
      ensures !r.Drained? ==> exists k :: 0 <= k < |data| && wire == old(wire) + data[..k]
    {
      hide TakesAll, AfterTaking;
      TakesStep(script, |data|);
      var k: nat := 0;
      while k < |data|
        invariant k <= |data| && wire == old(wire) + data[..k]
        invariant TakesAll(old(script), |data|) <==> TakesAll(script, |data| - k)
        invariant AfterTaking(old(script), |data|) == AfterTaking(script, |data| - k)
        decreases |script|, |data| - k
      {
        var waiting := script == [];
        TakesStep(script, |data| - k);
        var poll := PollWrite(data[k..]);
        if poll.Wrote? {
          if poll.n == 0 {
            return DrainError(ErrorKind.WriteZero);
          }
          assert data[..k] + data[k..][..poll.n] == data[..k + poll.n];
          k := k + poll.n;
        } else if poll.WriteError? || waiting {
          return AsDrainPoll(poll);
        }
      }
      assert data[..k] == data;
      TakesStep(script, 0);
      r := Drained;
    }

    method PollFlush() returns (r: WritePoll)
      modifies `script
      ensures r == WriteStep(old(script), 0)
      ensures script == WriteRest(old(script))
    {
      r := WriteStep(script, 0);
      script := WriteRest(script);
    }

    /** Flushes, polling again whenever the sink was blocked. */
    method Flush() returns (r: DrainPoll)
      modifies `script
      ensures (r, script) == FlushRun(0, old(script))
    {
      hide FlushRun;
      while true
        invariant FlushRun(0, old(script)) == FlushRun(0, script)
        decreases |script|
      {
        FlushRunStep(0, script);
        var waiting := script == [];
        var poll := PollFlush();
        r := if poll.Wrote? then Drained else AsDrainPoll(poll);
        if !r.DrainPending? || waiting {
          return;
        }
      }
    }

    /** Writes all of `data`, then flushes. */
    method WriteFlushed(data: bytes) returns (r: DrainPoll)
      modifies this
      ensures r.Drained? <==> TakesFlushed(old(script), |data|)
      ensures r.Drained? ==> script == AfterFlushed(old(script), |data|) && wire == old(wire) + data
      ensures exists k :: 0 <= k <= |data| && wire == old(wire) + data[..k]
      ensures r.DrainPending? ==> script == []
    {
      hide FlushRun, TakesAll, AfterTaking;
      FlushRunEnds(0, AfterTaking(script, |data|));
      assert data[..|data|] == data;
      r := WriteAll(data);
      if r.Drained? {
        r := Flush();
      }
    }
  }

  lemma {:induction false} FlushRunEnds(pending: nat, script: WriteScript)
    ensures FlushRun(pending, script).0.DrainPending? ==> FlushRun(pending, script).1 == []
    decreases |script|
  {
    if script != [] {
      FlushRunEnds(pending - DrainTaken(pending, script), script[1..]);
    }
  }
}
