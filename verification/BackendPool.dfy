/** The pool of upstream servers: the order in which they are tried, and failover. */
module BackendPool {
  import opened Options

  const U64_RANGE: nat := 0x1_0000_0000_0000_0000
  const COOLDOWN: nat := 30

  datatype Strategy = Priority | RoundRobin

  predicate Distinct(names: seq<string>) {
    forall i, j :: 0 <= i < j < |names| ==> names[i] != names[j]
  }

  function Rotation(backends: seq<string>, start: nat): (order: seq<string>)
    requires backends != []
    ensures |order| == |backends|
  {
    seq(|backends|, i requires 0 <= i < |backends| => backends[(start + i) % |backends|])
  }

  function Position(order: seq<string>, b: string): (pos: Option<nat>)
    ensures pos.Some? ==> pos.value < |order| && order[pos.value] == b && b !in order[..pos.value]
    ensures pos.None? ==> b !in order
  {
    if order == [] then None
    else if order[0] == b then Some(0)
    else
      var pos := Position(order[1..], b);
      if pos.None? then None else Some(pos.value + 1)
  }

  function Promoted(order: seq<string>, preferred: Option<string>): (p: seq<string>) {
    if preferred.None? then order
    else
      var pos := Position(order, preferred.value);
      if pos.None? then order
      else [order[pos.value]] + order[..pos.value] + order[pos.value + 1..]
  }

  lemma RotationIsCut(backends: seq<string>, start: nat)
    requires backends != []
    ensures var k := start % |backends|; Rotation(backends, start) == backends[k..] + backends[..k]
  {
    var n, k := |backends|, start % |backends|;
    forall i | 0 <= i < n
      ensures Rotation(backends, start)[i] == (backends[k..] + backends[..k])[i]
    {
      Shift(start, i, n);
    }
  }

  lemma Shift(start: nat, i: nat, n: nat)
    requires 0 <= i < n
    ensures (start + i) % n == if start % n + i < n then start % n + i else start % n + i - n
  {
    var q, k := start / n, start % n;
    assert start == n * q + k;
    if k + i < n {
      ModIs(start + i, n, q, k + i);
    } else {
      assert n * (q + 1) == n * q + n;
      ModIs(start + i, n, q + 1, k + i - n);
    }
  }

  lemma ModIs(m: nat, n: nat, q: nat, r: nat)
    requires m == n * q + r && r < n
    ensures m % n == r && m / n == q
  {
    var q', r' := m / n, m % n;
    assert m == n * q' + r' && 0 <= r' < n;
    assert n * (q - q') == n * q - n * q';
    if q != q' {
      MulAtLeast(n, q - q');
    }
  }

  lemma {:induction false} MulAtLeast(n: nat, d: int)
    requires d != 0
    ensures n * d >= n || n * d <= 0 - n
    decreases if d < 0 then -d else d
  {
    if d > 1 {
      MulAtLeast(n, d - 1);
      assert n * d == n * (d - 1) + n;
    } else if d < -1 {
      MulAtLeast(n, d + 1);
      assert n * d == n * (d + 1) - n;
    }
  }

  /** The order is a permutation of the pool: the preferred backend first, the others in cyclic order. */
  lemma OrderIsPermutation(backends: seq<string>, start: nat, preferred: Option<string>)
    requires backends != []
    ensures var order := Promoted(Rotation(backends, start), preferred);
            && multiset(order) == multiset(backends)
            && (preferred.Some? && preferred.value in backends ==>
                  && order[0] == preferred.value
                  && exists p :: 0 <= p < |order| && Rotation(backends, start)[p] == preferred.value
                         && order[1..] == Rotation(backends, start)[..p] + Rotation(backends, start)[p + 1..])
  {
    hide Rotation;
    var k := start % |backends|;
    var rotation := Rotation(backends, start);
    RotationIsCut(backends, start);
    assert backends == backends[..k] + backends[k..];
    assert multiset(rotation) == multiset(backends);
    if preferred.Some? {
      PromotionPermutes(rotation, preferred.value);
      assert preferred.value in multiset(rotation) <==> preferred.value in multiset(backends);
    }
  }

  /** Without a preferred backend in the pool the order starts where the rotation does. */
  lemma StartLeads(backends: seq<string>, start: nat, preferred: Option<string>)
    requires start < |backends| && (preferred.None? || preferred.value !in backends)
    ensures Promoted(Rotation(backends, start), preferred)[0] == backends[start]
  {
    var rotation := Rotation(backends, start);
    ModIs(start, |backends|, 0, start);
    assert rotation[0] == backends[start];
    if preferred.Some? {
      assert forall i :: 0 <= i < |rotation| ==> rotation[i] == backends[(start + i) % |backends|];
      assert preferred.value !in rotation;
    }
  }

  lemma PromotionPermutes(order: seq<string>, b: string)
    ensures var p := Promoted(order, Some(b));
            && multiset(p) == multiset(order)
            && (b in order ==>
                  && p != [] && p[0] == b
                  && exists k :: 0 <= k < |p| == |order| && order[k] == b && p[1..] == order[..k] + order[k + 1..])
  {
    var pos := Position(order, b);
    if pos.Some? {
      var k := pos.value;
      assert order == order[..k] + [order[k]] + order[k + 1..];
      assert Promoted(order, Some(b))[1..] == order[..k] + order[k + 1..];
    }
  }

  // ---------------------------------------------------------------- fairness

  /** Which backend leads call number `call` of a round-robin pool of `n`, the counter having started at zero. */
  function Leader(call: nat, n: nat): (b: nat)
    requires n > 0
    ensures b < n
  {
    (call % U64_RANGE) % n
  }

  /** In the `n` calls from `first` on, each of the `n` backends leads exactly once. */
  ghost predicate EachLeadsOnce(first: nat, n: nat)
    requires n > 0
  {
    && (forall b :: 0 <= b < n ==> b in LeadersOf(first, n, n))
    && NoneLeadsTwice(first, n)
  }

  ghost predicate NoneLeadsTwice(first: nat, n: nat)
    requires n > 0
  {
    forall i, j :: first <= i < j < first + n ==> Leader(i, n) != Leader(j, n)
  }

  /** The backends that lead the `calls` calls from `first` on. */
  ghost function LeadersOf(first: nat, calls: nat, n: nat): (s: set<nat>)
    requires n > 0
    ensures forall b :: b in s <==> exists i :: first <= i < first + calls && Leader(i, n) == b
  {
    if calls == 0 then {} else LeadersOf(first, calls - 1, n) + {Leader(first + (calls - 1), n)}
  }

  /** If none leads twice each leads, for there are as many calls as backends. */
  lemma NoneIsLeftOut(first: nat, n: nat)
    requires n > 0 && NoneLeadsTwice(first, n)
    ensures EachLeadsOnce(first, n)
  {
    CountLeaders(first, n, n);
    assert LeadersOf(first, n, n) <= Below(n);
    SubsetOfSameSize(LeadersOf(first, n, n), Below(n));
  }

  lemma {:induction false} CountLeaders(first: nat, calls: nat, n: nat)
    requires n > 0 && calls <= n && NoneLeadsTwice(first, n)
    ensures |LeadersOf(first, calls, n)| == calls
  {
    if calls == 0 {
    } else {
      hide Leader, NoneLeadsTwice;
      CountLeaders(first, calls - 1, n);
      LastIsNew(first, calls, n);
    }
  }

  lemma LastIsNew(first: nat, calls: nat, n: nat)
    requires 0 < calls <= n && NoneLeadsTwice(first, n)
    ensures Leader(first + (calls - 1), n) !in LeadersOf(first, calls - 1, n)
  {
    hide Leader, LeadersOf;
    var last := first + (calls - 1);
    assert forall i :: first <= i < last ==> Leader(i, n) != Leader(last, n);
  }

  /** All numbers below `n`. */
  ghost function Below(n: nat): (s: set<nat>)
    ensures |s| == n && forall b: nat :: b in s <==> b < n
  {
    if n == 0 then {} else Below(n - 1) + {n - 1}
  }

  lemma SubsetOfSameSize(a: set<nat>, b: set<nat>)
    requires a <= b && |a| == |b|
    ensures a == b
  {
    assert b == a + (b - a);
  }

  lemma StraightRun(i: nat, j: nat, n: nat)
    requires n > 0 && i < j < i + n && i / U64_RANGE == j / U64_RANGE
    ensures Leader(i, n) != Leader(j, n)
  {
    var a, b := i % U64_RANGE, j % U64_RANGE;
    assert i == U64_RANGE * (i / U64_RANGE) + a && j == U64_RANGE * (j / U64_RANGE) + b;
    Shift(a, b - a, n);
  }

  /**
   Over `n` consecutive calls every backend leads once, unless the 64-bit counter wraps between two
   of them; then it is so exactly when `n` divides two to the sixty-fourth.
   */
  lemma FairExactly(first: nat, n: nat)
    requires 0 < n <= U64_RANGE && first < U64_RANGE
    ensures EachLeadsOnce(first, n) <==> first + n <= U64_RANGE || U64_RANGE % n == 0
  {
    if first + n <= U64_RANGE {
      assert NoneLeadsTwice(first, n) by {
        forall i, j | first <= i < j < first + n
          ensures Leader(i, n) != Leader(j, n)
        {
          Quotient(i, 0, i);
          Quotient(j, 0, j);
          StraightRun(i, j, n);
        }
      }
      NoneIsLeftOut(first, n);
    } else if U64_RANGE % n == 0 {
      FairAcrossWrap(first, n);
      NoneIsLeftOut(first, n);
    } else {
      UnfairAcrossWrap(first, n);
    }
  }

  lemma Quotient(i: nat, q: nat, r: nat)
    requires i == U64_RANGE * q + r && r < U64_RANGE
    ensures i / U64_RANGE == q && i % U64_RANGE == r
  {
    ModIs(i, U64_RANGE, q, r);
  }

  lemma FairAcrossWrap(first: nat, n: nat)
    requires 0 < n <= U64_RANGE && first < U64_RANGE < first + n && U64_RANGE % n == 0
    ensures NoneLeadsTwice(first, n)
  {
    forall i, j | first <= i < j < first + n
      ensures Leader(i, n) != Leader(j, n)
    {
      if j < U64_RANGE {
        Quotient(i, 0, i);
        Quotient(j, 0, j);
        StraightRun(i, j, n);
      } else if i >= U64_RANGE {
        Quotient(i, 1, i - U64_RANGE);
        Quotient(j, 1, j - U64_RANGE);
        StraightRun(i, j, n);
      } else {
        Quotient(i, 0, i);
        Quotient(j, 1, j - U64_RANGE);
        var q := U64_RANGE / n;
        assert U64_RANGE == n * q;
        // i stands d before the wrap, so it leads as backend n - d; j stands j - U64_RANGE after it
        var d := U64_RANGE - i;
        assert n * (q - 1) == n * q - n;
        ModIs(i, n, q - 1, n - d);
        ModIs(j - U64_RANGE, n, 0, j - U64_RANGE);
      }
    }
  }

  lemma UnfairAcrossWrap(first: nat, n: nat)
    requires 0 < n <= U64_RANGE && first < U64_RANGE < first + n && U64_RANGE % n != 0
    ensures !NoneLeadsTwice(first, n)
  {
    var s, q, m := U64_RANGE % n, U64_RANGE / n, U64_RANGE - first;
    assert U64_RANGE == n * q + s;
    // the calls before the wrap end with backend s - 1; those after it start again with backend 0
    var b := if s - 1 <= n - m - 1 then s - 1 else n - m - 1;
    var i, j := U64_RANGE - (s - b), U64_RANGE + b;
    Quotient(i, 0, i);
    Quotient(j, 1, b);
    ModIs(i, n, q, b);
    ModIs(b, n, 0, b);
    assert Leader(i, n) == Leader(j, n);
  }

  lemma NextCount(calls: nat)
    ensures (calls % U64_RANGE + 1) % U64_RANGE == (calls + 1) % U64_RANGE
  {
    Shift(calls, 1, U64_RANGE);
    Shift(calls % U64_RANGE, 1, U64_RANGE);
    ModIs(calls % U64_RANGE, U64_RANGE, 0, calls % U64_RANGE);
  }

  // ---------------------------------------------------------------- the pool

  datatype Attempt = Skipped | Connected | Unreachable

  class Pool {
    const backends: seq<string>
    const strategy: Strategy
    var roundRobin: nat
    ghost var calls: nat           // how often the counter was fetched
    var unhealthy: map<string, nat>

    /** The pool's configuration lists every backend once. */
    ghost predicate Valid()
      reads this`roundRobin, this`calls
    {
      && backends != [] && roundRobin == calls % U64_RANGE
      && (Distinct(backends))
    }

    ghost function StartIdx(): (start: nat)
      requires Valid()
      reads this`roundRobin, this`calls
    {
      if strategy.Priority? then 0 else Leader(calls, |backends|)
    }

    constructor (primary: string, others: seq<string>, strategy: Strategy)
      ensures Valid() && this.strategy == strategy && calls == 0 && unhealthy == map[]
      ensures backends[0] == primary
      ensures forall b :: b in backends <==> b == primary || b in others
    {
      var result := [primary];
      for i := 0 to |others|
        invariant result != [] && result[0] == primary
        invariant forall j, k :: 0 <= j < k < |result| ==> result[j] != result[k]
        invariant forall b :: b in result <==> b == primary || b in others[..i]
      {
        assert others[..i + 1] == others[..i] + [others[i]];
        if others[i] !in result {
          result := result + [others[i]];
        }
      }
      assert others[..|others|] == others;
      backends := result;
      this.strategy := strategy;
      roundRobin, calls, unhealthy := 0, 0, map[];
    }

    method ConnectionOrder(preferred: Option<string>) returns (order: seq<string>)
      requires Valid()
      modifies this`roundRobin, this`calls
      ensures Valid()
      ensures order == Promoted(Rotation(backends, old(StartIdx())), preferred)
      ensures calls == if strategy.RoundRobin? && |backends| > 1 then old(calls) + 1 else old(calls)
      ensures preferred.None? || preferred.value !in backends ==>
                order[0] == if strategy.Priority? then backends[0] else backends[(old(calls) % 0x1_0000_0000_0000_0000) % |backends|]
      ensures Distinct(order)
    {
      hide Rotation, Distinct;
      OrderIsPermutation(backends, StartIdx(), preferred);
      if preferred.None? || preferred.value !in backends {
        StartLeads(backends, StartIdx(), preferred);
      }
      OrderIsDistinct(Promoted(Rotation(backends, StartIdx()), preferred), backends);
      if |backends| <= 1 {
        RotationOfOne(backends, StartIdx(), preferred);
        return backends;
      }
      var startIdx := 0;
      if strategy.RoundRobin? {
        startIdx := roundRobin % |backends|;
        roundRobin := (roundRobin + 1) % U64_RANGE;
        NextCount(calls);
        calls := calls + 1;
      }
      order := Rotation(backends, startIdx);
      if preferred.Some? {
        var pos := Position(order, preferred.value);
        if pos.Some? {
          var item := order[pos.value];
          order := order[..pos.value] + order[pos.value + 1..];
          order := [item] + order;
          assert order == Promoted(Rotation(backends, startIdx), preferred);
        }
      }
    }

    /** One turn of the connection loop; the clock is read before the attempt and again after it has failed. */
    method TryBackend(b: string, now: nat, after: nat, reachable: string -> bool) returns (r: Attempt)
      modifies this`unhealthy
      ensures r == if CoolingDown(old(unhealthy), b, now) then Skipped else if reachable(b) then Connected else Unreachable
      ensures r.Skipped? <==> b in old(unhealthy) && now - old(unhealthy)[b] < 30
      ensures unhealthy == if r.Unreachable? then old(unhealthy)[b := after] else old(unhealthy)
    {
      if CoolingDown(unhealthy, b, now) {
        return Skipped;
      }
      if reachable(b) {
        return Connected;
      }
      MarkUnhealthy(b, after);
      r := Unreachable;
    }

    method MarkUnhealthy(b: string, now: nat)
      modifies this`unhealthy
      ensures unhealthy == old(unhealthy)[b := now]
    {
      unhealthy := unhealthy[b := now];
    }

    /**
     Connects to the first backend, in the connection order, that is not cooling down and can be
     reached. Exactly those tried in vain are marked, with the time when that was known, and the
     failover count grows by their number. `checked` and `failed` are what the clock shows at each turn.
     */
    method Connect(preferred: Option<string>, checked: nat -> nat, failed: nat -> nat, reachable: string -> bool)
      returns (connected: Option<string>, failovers: nat, ghost order: seq<string>, ghost tried: nat)
      requires Valid()
      modifies this`roundRobin, this`calls, this`unhealthy
      ensures Valid() && order == Promoted(Rotation(backends, old(StartIdx())), preferred)
      ensures tried <= |order|
      ensures forall i :: 0 <= i < tried ==> CoolingDown(old(unhealthy), order[i], checked(i)) || !reachable(order[i])
      ensures connected.None? ==> tried == |order|
      ensures connected.Some? ==> tried < |order| && order[tried] == connected.value
                                  && !CoolingDown(old(unhealthy), order[tried], checked(tried)) && reachable(order[tried])
      ensures var marked := Marked(old(unhealthy), order, tried, checked, failed);
              unhealthy == Overlay(old(unhealthy), marked) && failovers == |marked|
    {
      hide Rotation, Promoted, Marked, CoolingDown, Leader, Distinct, Overlay, Pool.Valid, Pool.StartIdx;
      var candidates := ConnectionOrder(preferred);
      order := candidates;
      failovers, tried := 0, 0;
      ghost var before := unhealthy;
      MarkedStart(before, candidates, checked, failed);
      for i := 0 to |candidates|
        invariant Valid() && tried == i
        invariant forall j :: 0 <= j < i ==> CoolingDown(before, candidates[j], checked(j)) || !reachable(candidates[j])
        invariant unhealthy == Overlay(before, Marked(before, candidates, i, checked, failed))
        invariant failovers == |Marked(before, candidates, i, checked, failed)|
      {
        var b := candidates[i];
        MarkedStep(before, candidates, i, checked, failed);
        var outcome := TryBackend(b, checked(i), failed(i), reachable);
        if outcome.Connected? {
          return Some(b), failovers, candidates, i;
        }
        failovers := failovers + if outcome.Unreachable? then 1 else 0;
        tried := i + 1;
      }
      connected := None;
    }
  }

  /** A table of times, updated by another. */
  function Overlay(unhealthy: map<string, nat>, marked: map<string, nat>): (m: map<string, nat>) {
    unhealthy + marked
  }

  predicate CoolingDown(unhealthy: map<string, nat>, b: string, now: nat) {
    b in unhealthy && now < unhealthy[b] + COOLDOWN
  }

  /** The backends among the first `n` that were not cooling down when their turn came, with the time when trying them had failed. */
  function Marked(unhealthy: map<string, nat>, order: seq<string>, n: nat, checked: nat -> nat, failed: nat -> nat): (m: map<string, nat>)
    requires n <= |order|
  {
    if n == 0 then map[]
    else
      var m := Marked(unhealthy, order, n - 1, checked, failed);
      if CoolingDown(unhealthy, order[n - 1], checked(n - 1)) then m else m[order[n - 1] := failed(n - 1)]
  }

  lemma {:induction false} MarkedSoFar(unhealthy: map<string, nat>, order: seq<string>, n: nat, checked: nat -> nat, failed: nat -> nat)
    requires n <= |order|
    requires Distinct(order)
    ensures forall j :: n <= j < |order| ==> order[j] !in Marked(unhealthy, order, n, checked, failed)
  {
    if n > 0 {
      MarkedSoFar(unhealthy, order, n - 1, checked, failed);
    }
  }

  lemma MarkedStart(unhealthy: map<string, nat>, order: seq<string>, checked: nat -> nat, failed: nat -> nat)
    ensures Marked(unhealthy, order, 0, checked, failed) == map[] && Overlay(unhealthy, map[]) == unhealthy
  {
  }

  /** What the pool's map says of the next backend, and what marking it does. */
  lemma MarkedStep(unhealthy: map<string, nat>, order: seq<string>, i: nat, checked: nat -> nat, failed: nat -> nat)
    requires i < |order|
    requires Distinct(order)
    ensures var m, m' := Marked(unhealthy, order, i, checked, failed), Marked(unhealthy, order, i + 1, checked, failed);
            var b, now := order[i], checked(i);
            && (CoolingDown(Overlay(unhealthy, m), b, now) <==> CoolingDown(unhealthy, b, now))
            && (CoolingDown(unhealthy, b, now) ==> m' == m)
            && (!CoolingDown(unhealthy, b, now) ==>
                  Overlay(unhealthy, m)[b := failed(i)] == Overlay(unhealthy, m') && |m'| == |m| + 1)
  {
    MarkedSoFar(unhealthy, order, i, checked, failed);
    var m, b := Marked(unhealthy, order, i, checked, failed), order[i];
    assert b !in m;
    hide Marked;
    assert (unhealthy + m)[b := failed(i)] == unhealthy + m[b := failed(i)];
  }

  lemma RotationOfOne(backends: seq<string>, start: nat, preferred: Option<string>)
    requires |backends| == 1
    ensures Promoted(Rotation(backends, start), preferred) == backends
  {
    assert Rotation(backends, start) == backends;
  }

  lemma OrderIsDistinct(order: seq<string>, backends: seq<string>)
    requires multiset(order) == multiset(backends)
    requires Distinct(backends)
    ensures Distinct(order)
  {
    forall i, j | 0 <= i < j < |order|
      ensures order[i] != order[j]
    {
      if order[i] == order[j] {
        var x := order[i];
        assert order == order[..i] + [x] + order[i + 1..j] + [x] + order[j + 1..];
        assert multiset(backends)[x] >= 2;
        OnceOnly(backends, x);
      }
    }
  }

  lemma {:induction false} OnceOnly(s: seq<string>, x: string)
    requires Distinct(s)
    ensures multiset(s)[x] <= 1
  {
    if s != [] {
      assert s == [s[0]] + s[1..];
      OnceOnly(s[1..], x);
      assert s[0] == x ==> x !in s[1..];
    }
  }
}
