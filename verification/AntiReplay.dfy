/** The cache of ClientHello fingerprints: a set for lookup and a queue for eviction, kept in step. */
module AntiReplay {

  function Last(s: seq<nat>, n: nat): (t: seq<nat>)
    ensures |t| <= n && |t| <= |s|
  {
    if |s| <= n then s else s[|s| - n..]
  }

  function Elements(s: seq<nat>): (e: set<nat>) {
    set x | x in s
  }

  predicate Distinct(s: seq<nat>) {
    forall i, j :: 0 <= i < j < |s| ==> s[i] != s[j]
  }

  /**
   The specification: of all fingerprints ever asked about, those that were answered "new", in order.
   One is new when it is not among the last `capacity` that were.
   */
  function Misses(capacity: nat, calls: seq<nat>): (missed: seq<nat>) {
    if calls == [] then []
    else
      var before, x := Misses(capacity, calls[..|calls| - 1]), calls[|calls| - 1];
      if x in Last(before, capacity) then before else before + [x]
  }

  predicate IsReplay(capacity: nat, calls: seq<nat>, x: nat) {
    x in Last(Misses(capacity, calls), capacity)
  }

  lemma AskedOnce(capacity: nat, calls: seq<nat>, x: nat)
    ensures Misses(capacity, calls + [x]) ==
            if x in Last(Misses(capacity, calls), capacity) then Misses(capacity, calls) else Misses(capacity, calls) + [x]
  {
    assert (calls + [x])[..|calls|] == calls;
  }

  lemma LastAppend(s: seq<nat>, x: nat, n: nat)
    requires n > 0
    ensures Last(s + [x], n) == if |s| < n then Last(s, n) + [x] else (Last(s, n) + [x])[1..]
  {
  }

  lemma RemoveOldest(s: seq<nat>)
    requires s != [] && Distinct(s)
    ensures Distinct(s[1..]) && Elements(s[1..]) == Elements(s) - {s[0]}
  {
    assert s == [s[0]] + s[1..];
  }

  lemma StillDistinct(window: seq<nat>, x: nat)
    requires Distinct(window) && x !in window
    ensures Distinct(window + [x]) && Distinct((window + [x])[1..])
  {
  }

  /** A miss keeps the window distinct: `x` enters at the back, and the oldest leaves if it is full. */
  lemma MissKeepsDistinct(before: seq<nat>, x: nat, n: nat)
    requires Distinct(Last(before, n)) && x !in Last(before, n)
    ensures Distinct(Last(before + [x], n))
  {
    if n == 0 {
      assert Last(before + [x], n) == [];
    } else {
      LastAppend(before, x, n);
      StillDistinct(Last(before, n), x);
      hide Last, Distinct;
    }
  }

  /** The remembered fingerprints are distinct. */
  lemma {:induction false} WindowIsDistinct(capacity: nat, calls: seq<nat>)
    ensures Distinct(Last(Misses(capacity, calls), capacity))
  {
    if calls == [] {
    } else {
      var init, x := calls[..|calls| - 1], calls[|calls| - 1];
      assert calls == init + [x];
      hide *;
      WindowIsDistinct(capacity, init);
      AskedOnce(capacity, init, x);
      if x !in Last(Misses(capacity, init), capacity) {
        MissKeepsDistinct(Misses(capacity, init), x, capacity);
      }
    }
  }

  /** Asking again at once is a replay; and a replay, whenever it was, makes no difference to anything asked later. */
  lemma HitsDoNotRefresh(capacity: nat, calls: seq<nat>, x: nat, rest: seq<nat>, y: nat)
    requires capacity > 0
    ensures IsReplay(capacity, calls + [x], x)
    ensures IsReplay(capacity, calls, x) ==> (IsReplay(capacity, calls + [x] + rest, y) <==> IsReplay(capacity, calls + rest, y))
  {
    AskedOnce(capacity, calls, x);
    var before := Misses(capacity, calls);
    if x in Last(before, capacity) {
      HitLeavesNoTrace(capacity, calls, x, rest);
    } else {
      var after := Last(before + [x], capacity);
      assert after[|after| - 1] == x;
    }
  }

  lemma {:induction false} HitLeavesNoTrace(capacity: nat, calls: seq<nat>, x: nat, rest: seq<nat>)
    requires IsReplay(capacity, calls, x)
    ensures Misses(capacity, calls + [x] + rest) == Misses(capacity, calls + rest)
  {
    hide Misses, Last;
    if rest == [] {
      AskedOnce(capacity, calls, x);
      assert calls + [x] + rest == calls + [x] && calls + rest == calls;
    } else {
      var before, last := rest[..|rest| - 1], rest[|rest| - 1];
      HitLeavesNoTrace(capacity, calls, x, before);
      AskedOnce(capacity, calls + [x] + before, last);
      AskedOnce(capacity, calls + before, last);
      assert calls + [x] + rest == calls + [x] + before + [last] && calls + rest == calls + before + [last];
    }
  }

  /** What was never asked about is no replay. */
  lemma {:induction false} NeverAsked(capacity: nat, calls: seq<nat>, x: nat)
    requires x !in calls
    ensures x !in Misses(capacity, calls) && !IsReplay(capacity, calls, x)
  {
    if calls != [] {
      hide Last;
      NeverAsked(capacity, calls[..|calls| - 1], x);
    }
    var missed := Misses(capacity, calls);
    hide Misses;
    assert x !in Last(missed, capacity);
  }

  /** A fingerprint that was new is forgotten exactly after `capacity` newer ones. */
  lemma RememberedExactly(capacity: nat, calls: seq<nat>, i: nat)
    requires i < |Misses(capacity, calls)|
    requires forall j :: i < j < |Misses(capacity, calls)| ==> Misses(capacity, calls)[j] != Misses(capacity, calls)[i]
    ensures IsReplay(capacity, calls, Misses(capacity, calls)[i]) <==> |Misses(capacity, calls)| - i <= capacity
  {
    var missed := Misses(capacity, calls);
    hide Misses;
    var window, x := Last(missed, capacity), missed[i];
    if |missed| - i <= capacity {
      assert window[i - (|missed| - |window|)] == x;
    }
  }

  class AntiReplayCache {
    const capacity: nat
    var order: seq<nat>
    var seen: set<nat>
    ghost var calls: seq<nat>

    ghost predicate Valid()
      reads this
    {
      && capacity >= 1
      && order == Last(Misses(capacity, calls), capacity)
      && seen == Elements(order) && Distinct(order)
    }

    constructor (capacity: nat)
      ensures Valid() && calls == []
      ensures this.capacity == if capacity == 0 then 1 else capacity
    {
      this.capacity := if capacity == 0 then 1 else capacity;
      order, seen, calls := [], {}, [];
    }

    /** Over every sequence of calls the answers are those of the specification. */
    method CheckReplay(fingerprint: nat) returns (replay: bool)
      requires Valid()
      modifies this
      ensures Valid() && calls == old(calls) + [fingerprint]
      ensures replay == IsReplay(capacity, old(calls), fingerprint)
    {
      hide Misses;
      ghost var missed := Misses(capacity, calls);
      ghost var asked := calls + [fingerprint];
      AskedOnce(capacity, calls, fingerprint);
      if fingerprint in seen {
        calls := asked;
        return true;
      }
      seen := seen + {fingerprint};
      order := order + [fingerprint];
      ghost var window := Last(missed + [fingerprint], capacity);
      LastAppend(missed, fingerprint, capacity);
      while |order| > capacity
        invariant order == window || (|order| == capacity + 1 && order[1..] == window)
        invariant seen == Elements(order) && Distinct(order)
      {
        var oldest := order[0];
        RemoveOldest(order);
        order := order[1..];
        seen := seen - {oldest};
      }
      calls := asked;
      replay := false;
    }
  }
}
