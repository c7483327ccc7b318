/**
 The limiter of simultaneous connections. Each connection takes a slot of its address and a slot of
 its secret, each under the lock of its table, and gives them back when it ends; if the secret has
 no slot left it gives back the address slot while still holding the secrets' lock.
 */
module Limits {
  import opened Options

  type Counts = map<string, nat>

  function Count(m: Counts, k: string): (n: nat) {
    if k in m then m[k] else 0
  }

  predicate NoZeros(m: Counts) {
    forall k :: k in m ==> m[k] > 0
  }

  /** One slot more, unless `max` are taken. */
  function Take(m: Counts, k: string, max: nat): (r: Option<Counts>) {
    if Count(m, k) >= max then None else Some(m[k := Count(m, k) + 1])
  }

  /** One slot less: the count saturates at zero, and an entry that reaches zero is removed. */
  function Give(m: Counts, k: string): (r: Counts) {
    if k !in m then m
    else if m[k] <= 1 then m - {k}
    else m[k := m[k] - 1]
  }

  lemma TakeThenGive(m: Counts, k: string, max: nat)
    requires NoZeros(m) && Take(m, k, max).Some?
    ensures Give(Take(m, k, max).value, k) == m
  {
  }

  // ---------------------------------------------------------------- the limiter as one caller sees it

  class ConnectionLimiter {
    var perIp: Counts
    var perSecret: Counts

    ghost predicate Valid()
      reads this
    {
      NoZeros(perIp) && NoZeros(perSecret)
    }

    constructor ()
      ensures Valid() && perIp == map[] && perSecret == map[]
    {
      perIp, perSecret := map[], map[];
    }

    /** A limit of zero means no limit. A refused connection leaves both tables as they were. */
    method Acquire(ip: string, secret: string, maxPerIp: nat, maxPerSecret: nat, blacklist: set<string>) returns (ok: bool)
      requires Valid()
      modifies this
      ensures Valid()
      ensures ok <==> ip !in blacklist && (maxPerIp > 0 ==> Count(old(perIp), ip) < maxPerIp)
                      && (maxPerSecret > 0 ==> Count(old(perSecret), secret) < maxPerSecret)
      ensures ok ==>
                && perIp == (if maxPerIp > 0 then Take(old(perIp), ip, maxPerIp).value else old(perIp))
                && perSecret == (if maxPerSecret > 0 then Take(old(perSecret), secret, maxPerSecret).value else old(perSecret))
      ensures !ok ==> perIp == old(perIp) && perSecret == old(perSecret)
    {
      if ip in blacklist {
        return false;
      }
      if maxPerIp > 0 {
        var taken := Take(perIp, ip, maxPerIp);
        if taken.None? {
          return false;
        }
        perIp := taken.value;
      }
      if maxPerSecret > 0 {
        var taken := Take(perSecret, secret, maxPerSecret);
        if taken.None? {
          if maxPerIp > 0 {
            TakeThenGive(old(perIp), ip, maxPerIp);
            ReleaseIp(ip, maxPerIp);
          }
          return false;
        }
        perSecret := taken.value;
      }
      ok := true;
    }

    method Release(ip: string, secret: string, maxPerIp: nat, maxPerSecret: nat)
      requires Valid()
      modifies this
      ensures Valid()
      ensures perIp == if maxPerIp > 0 then Give(old(perIp), ip) else old(perIp)
      ensures perSecret == if maxPerSecret > 0 then Give(old(perSecret), secret) else old(perSecret)
    {
      if maxPerIp > 0 {
        ReleaseIp(ip, maxPerIp);
      }
      if maxPerSecret > 0 {
        perSecret := Give(perSecret, secret);
      }
    }

    method ReleaseIp(ip: string, maxPerIp: nat)
      requires Valid()
      modifies this`perIp
      ensures Valid() && perIp == if maxPerIp > 0 then Give(old(perIp), ip) else old(perIp)
    {
      if maxPerIp == 0 {
        return;
      }
      perIp := Give(perIp, ip);
    }
  }

  // ---------------------------------------------------------------- the limiter under concurrent callers

  datatype Request = Request(ip: string, secret: string, maxPerIp: nat, maxPerSecret: nat, blacklisted: bool)

  /** Where a connection stands; an `In` holds the lock of that table. */
  datatype Place =
    | Start
    | AwaitIp | InIp | AwaitSecret | InSecret      // acquiring
    | RollbackAwaitIp | RollbackInIp               // refused for its secret, still holding the secrets' lock
    | Serving
    | ReleaseAwaitIp | ReleaseInIp | ReleaseAwaitSecret | ReleaseInSecret
    | Done | Refused

  datatype Conn = Conn(req: Request, at: Place)

  datatype State = State(
    conns: map<nat, Conn>, perIp: Counts, perSecret: Counts, ipLock: Option<nat>, secretLock: Option<nat>)

  const INITIAL: State := State(map[], map[], map[], None, None)

  predicate HoldsIpLock(c: Conn) {
    (c.at.InIp? || c.at.RollbackInIp? || c.at.ReleaseInIp?)
  }

  predicate HoldsSecretLock(c: Conn) {
    (c.at.InSecret? || c.at.RollbackAwaitIp? || c.at.RollbackInIp? || c.at.ReleaseInSecret?)
  }

  /** Holding a slot of its address, or still rolling it back. */
  predicate HoldsIpSlot(c: Conn) {
    c.req.maxPerIp > 0
    && (|| c.at.AwaitSecret? || c.at.InSecret? || c.at.RollbackAwaitIp? || c.at.RollbackInIp? || c.at.Serving?
        || c.at.ReleaseAwaitIp? || c.at.ReleaseInIp?)
  }

  predicate HoldsSecretSlot(c: Conn) {
    c.req.maxPerSecret > 0
    && (c.at.Serving? || c.at.ReleaseAwaitIp? || c.at.ReleaseInIp? || c.at.ReleaseAwaitSecret? || c.at.ReleaseInSecret?)
  }

  function AfterIp(r: Request): (p: Place) {
    if r.maxPerSecret > 0 then AwaitSecret else Serving
  }

  function AfterReleaseIp(r: Request): (p: Place) {
    if r.maxPerSecret > 0 then ReleaseAwaitSecret else Done
  }

  datatype LockUse = Keep | Seize | Free

  /** What one lock-sized step does: where the connection goes, the tables, and the two locks. */
  datatype Move = Move(to: Place, perIp: Counts, perSecret: Counts, ipLock: LockUse, secretLock: LockUse)

  predicate Ended(c: Conn) {
    c.at.Done? || c.at.Refused?
  }

  /** The next lock-sized step of a connection that has not ended. */
  function MoveOf(c: Conn, perIp: Counts, perSecret: Counts): (m: Move)
    requires !Ended(c)
  {
    var r := c.req;
    match c.at
    case Start =>
      Move(if r.blacklisted then Refused else if r.maxPerIp > 0 then AwaitIp else AfterIp(r), perIp, perSecret, Keep, Keep)
    case AwaitIp => Move(InIp, perIp, perSecret, Seize, Keep)
    case InIp =>
      var taken := Take(perIp, r.ip, r.maxPerIp);
      if taken.None? then Move(Refused, perIp, perSecret, Free, Keep)
      else Move(AfterIp(r), taken.value, perSecret, Free, Keep)
    case AwaitSecret => Move(InSecret, perIp, perSecret, Keep, Seize)
    case InSecret =>
      var taken := Take(perSecret, r.secret, r.maxPerSecret);
      if taken.Some? then Move(Serving, perIp, taken.value, Keep, Free)
      else if r.maxPerIp > 0 then Move(RollbackAwaitIp, perIp, perSecret, Keep, Keep)
      else Move(Refused, perIp, perSecret, Keep, Free)
    case RollbackAwaitIp => Move(RollbackInIp, perIp, perSecret, Seize, Keep)
    case RollbackInIp => Move(Refused, Give(perIp, r.ip), perSecret, Free, Free)
    case Serving => Move(if r.maxPerIp > 0 then ReleaseAwaitIp else AfterReleaseIp(r), perIp, perSecret, Keep, Keep)
    case ReleaseAwaitIp => Move(ReleaseInIp, perIp, perSecret, Seize, Keep)
    case ReleaseInIp => Move(AfterReleaseIp(r), Give(perIp, r.ip), perSecret, Free, Keep)
    case ReleaseAwaitSecret => Move(ReleaseInSecret, perIp, perSecret, Keep, Seize)
    case ReleaseInSecret => Move(Done, perIp, Give(perSecret, r.secret), Keep, Free)
  }

  function LockAfter(lock: Option<nat>, t: nat, use: LockUse): (r: Option<nat>) {
    match use
    case Keep => lock
    case Seize => Some(t)
    case Free => None
  }

  function At(s: State, t: nat, p: Place): (conns: map<nat, Conn>)
    requires t in s.conns
  {
    s.conns[t := s.conns[t].(at := p)]
  }

  /** A connection takes its step, unless it has ended or the lock it needs is held. */
  function Step(s: State, t: nat): (r: Option<State>)
    requires t in s.conns
  {
    if Ended(s.conns[t]) then None
    else
      var m := MoveOf(s.conns[t], s.perIp, s.perSecret);
      if (m.ipLock.Seize? && s.ipLock.Some?) || (m.secretLock.Seize? && s.secretLock.Some?) then None
      else Some(State(At(s, t, m.to), m.perIp, m.perSecret, LockAfter(s.ipLock, t, m.ipLock), LockAfter(s.secretLock, t, m.secretLock)))
  }

  /** A connection arrives, or one of those present takes a step. */
  ghost predicate Next(s: State, s': State) {
    || (exists t, req :: t !in s.conns && s' == Arrive(s, t, req))
    || (exists t :: t in s.conns && Step(s, t) == Some(s'))
  }

  function Arrive(s: State, t: nat, req: Request): (s': State) {
    s.(conns := s.conns[t := Conn(req, Start)])
  }

  function IpHolders(s: State, ip: string): (h: set<nat>) {
    set t | t in s.conns && s.conns[t].req.ip == ip && HoldsIpSlot(s.conns[t])
  }

  function SecretHolders(s: State, secret: string): (h: set<nat>) {
    set t | t in s.conns && s.conns[t].req.secret == secret && HoldsSecretSlot(s.conns[t])
  }

  ghost predicate Locked(s: State) {
    && (forall t :: t in s.conns ==> (HoldsIpLock(s.conns[t]) <==> s.ipLock == Some(t)))
    && (forall t :: t in s.conns ==> (HoldsSecretLock(s.conns[t]) <==> s.secretLock == Some(t)))
    && (s.ipLock.Some? ==> s.ipLock.value in s.conns)
    && (s.secretLock.Some? ==> s.secretLock.value in s.conns)
  }

  /** A connection queues for a lock only if its table is limited. */
  predicate WellPlaced(c: Conn) {
    && (AtIpTable(c) ==> c.req.maxPerIp > 0) && (AtSecretTable(c) ==> c.req.maxPerSecret > 0)
  }

  predicate AtIpTable(c: Conn) {
    || c.at.AwaitIp? || c.at.InIp? || c.at.RollbackAwaitIp? || c.at.RollbackInIp? || c.at.ReleaseAwaitIp?
    || c.at.ReleaseInIp?
  }

  predicate AtSecretTable(c: Conn) {
    || c.at.AwaitSecret? || c.at.InSecret? || c.at.RollbackAwaitIp? || c.at.RollbackInIp? || c.at.ReleaseAwaitSecret?
    || c.at.ReleaseInSecret?
  }

  ghost predicate Placed(s: State) {
    forall t :: t in s.conns ==> WellPlaced(s.conns[t])
  }

  /** Every count is the number of connections that hold a slot, and no table has an empty entry. */
  ghost predicate Conserved(s: State) {
    && NoZeros(s.perIp) && NoZeros(s.perSecret)
    && (forall ip :: Count(s.perIp, ip) == |IpHolders(s, ip)|)
    && (forall secret :: Count(s.perSecret, secret) == |SecretHolders(s, secret)|)
  }

  ghost predicate Inv(s: State) {
    Locked(s) && Placed(s) && Conserved(s)
  }

  /** The tables of slots follow the holders: one more, one less, or the same. */
  predicate Follows(m: Counts, m': Counts, k: string, was: bool, becomes: bool) {
    m' == if was == becomes then m else if becomes then m[k := Count(m, k) + 1] else Give(m, k)
  }

  lemma Resized(h: set<nat>, t: nat)
    ensures |h + {t}| == |h| + if t in h then 0 else 1
    ensures |h - {t}| == |h| - if t in h then 1 else 0
  {
    if t in h {
      assert h + {t} == h;
    } else {
      assert h - {t} == h;
    }
  }

  lemma CountFollows(m: Counts, m': Counts, k: string, was: bool, becomes: bool, key: string)
    requires NoZeros(m) && Follows(m, m', k, was, becomes) && (was ==> Count(m, k) >= 1)
    ensures NoZeros(m')
    ensures Count(m', key) == Count(m, key) + if key != k || was == becomes then 0 else if becomes then 1 else -1
  {
  }

  lemma IpHoldersMove(s: State, t: nat, p: Place, s': State, ip: string)
    requires t in s.conns && s'.conns == At(s, t, p)
    ensures var h, h' := IpHolders(s, ip), IpHolders(s', ip);
            && h' == (if ip == s.conns[t].req.ip && HoldsIpSlot(s'.conns[t]) then h + {t} else h - {t})
            && (t in h <==> ip == s.conns[t].req.ip && HoldsIpSlot(s.conns[t]))
  {
    hide HoldsIpSlot;
  }

  lemma IpKept(s: State, t: nat, p: Place, s': State)
    requires t in s.conns && s'.conns == At(s, t, p) && Conserved(s)
    requires Follows(s.perIp, s'.perIp, s.conns[t].req.ip, HoldsIpSlot(s.conns[t]), HoldsIpSlot(s'.conns[t]))
    ensures NoZeros(s'.perIp) && forall ip :: Count(s'.perIp, ip) == |IpHolders(s', ip)|
  {
    hide HoldsIpSlot, IpHolders, Follows, Count;
    var k, was, becomes := s.conns[t].req.ip, HoldsIpSlot(s.conns[t]), HoldsIpSlot(s'.conns[t]);
    NeverSaturates(s, t);
    CountFollows(s.perIp, s'.perIp, k, was, becomes, k);
    forall ip
      ensures Count(s'.perIp, ip) == |IpHolders(s', ip)|
    {
      var h, h' := IpHolders(s, ip), IpHolders(s', ip);
      assert Count(s.perIp, ip) == |h|;
      IpHoldersMove(s, t, p, s', ip);
      Resized(h, t);
      CountFollows(s.perIp, s'.perIp, k, was, becomes, ip);
    }
  }

  lemma SecretHoldersMove(s: State, t: nat, p: Place, s': State, secret: string)
    requires t in s.conns && s'.conns == At(s, t, p)
    ensures var h, h' := SecretHolders(s, secret), SecretHolders(s', secret);
            && h' == (if secret == s.conns[t].req.secret && HoldsSecretSlot(s'.conns[t]) then h + {t} else h - {t})
            && (t in h <==> secret == s.conns[t].req.secret && HoldsSecretSlot(s.conns[t]))
  {
    hide HoldsSecretSlot;
  }

  lemma SecretKept(s: State, t: nat, p: Place, s': State)
    requires t in s.conns && s'.conns == At(s, t, p) && Conserved(s)
    requires Follows(s.perSecret, s'.perSecret, s.conns[t].req.secret, HoldsSecretSlot(s.conns[t]), HoldsSecretSlot(s'.conns[t]))
    ensures NoZeros(s'.perSecret) && forall secret :: Count(s'.perSecret, secret) == |SecretHolders(s', secret)|
  {
    hide HoldsSecretSlot, SecretHolders, Follows, Count;
    var k, was, becomes := s.conns[t].req.secret, HoldsSecretSlot(s.conns[t]), HoldsSecretSlot(s'.conns[t]);
    NeverSaturates(s, t);
    CountFollows(s.perSecret, s'.perSecret, k, was, becomes, k);
    forall secret
      ensures Count(s'.perSecret, secret) == |SecretHolders(s', secret)|
    {
      var h, h' := SecretHolders(s, secret), SecretHolders(s', secret);
      assert Count(s.perSecret, secret) == |h|;
      SecretHoldersMove(s, t, p, s', secret);
      Resized(h, t);
      CountFollows(s.perSecret, s'.perSecret, k, was, becomes, secret);
    }
  }

  /** A connection that gives a slot back has one, so the count never saturates. */
  lemma NeverSaturates(s: State, t: nat)
    requires Conserved(s) && t in s.conns
    ensures HoldsIpSlot(s.conns[t]) ==> Count(s.perIp, s.conns[t].req.ip) >= 1
    ensures HoldsSecretSlot(s.conns[t]) ==> Count(s.perSecret, s.conns[t].req.secret) >= 1
  {
    if HoldsIpSlot(s.conns[t]) {
      assert t in IpHolders(s, s.conns[t].req.ip);
    }
    if HoldsSecretSlot(s.conns[t]) {
      assert t in SecretHolders(s, s.conns[t].req.secret);
    }
  }

  /** A step seizes and frees exactly the locks by which its places differ. */
  lemma MoveLocksSoundly(c: Conn, perIp: Counts, perSecret: Counts)
    requires !Ended(c) && WellPlaced(c)
    ensures var m := MoveOf(c, perIp, perSecret);
            var c' := c.(at := m.to);
            && WellPlaced(c')
            && m.ipLock == (if HoldsIpLock(c) == HoldsIpLock(c') then Keep else if HoldsIpLock(c') then Seize else Free)
            && m.secretLock == (if HoldsSecretLock(c) == HoldsSecretLock(c') then Keep else if HoldsSecretLock(c') then Seize else Free)
  {
    hide Give, Count, Take;
  }

  /** A step moves a slot of a table exactly when its places differ in holding one. */
  lemma MoveCountsIps(c: Conn, perIp: Counts, perSecret: Counts)
    requires !Ended(c) && WellPlaced(c)
    ensures var m := MoveOf(c, perIp, perSecret);
            Follows(perIp, m.perIp, c.req.ip, HoldsIpSlot(c), HoldsIpSlot(c.(at := m.to)))
  {
    hide Give, Count;
  }

  lemma MoveCountsSecrets(c: Conn, perIp: Counts, perSecret: Counts)
    requires !Ended(c) && WellPlaced(c)
    ensures var m := MoveOf(c, perIp, perSecret);
            Follows(perSecret, m.perSecret, c.req.secret, HoldsSecretSlot(c), HoldsSecretSlot(c.(at := m.to)))
  {
    hide Give, Count;
  }

  lemma StepKeepsLocks(s: State, t: nat)
    requires t in s.conns && Locked(s) && Placed(s) && Step(s, t).Some?
    ensures Locked(Step(s, t).value) && Placed(Step(s, t).value)
  {
    hide MoveOf, HoldsIpLock, HoldsSecretLock, WellPlaced;
    MoveLocksSoundly(s.conns[t], s.perIp, s.perSecret);
  }

  lemma StepFollows(s: State, t: nat)
    requires t in s.conns && Placed(s) && Step(s, t).Some?
    ensures var s' := Step(s, t).value;
            && t in s'.conns && s'.conns == At(s, t, s'.conns[t].at)
            && Follows(s.perIp, s'.perIp, s.conns[t].req.ip, HoldsIpSlot(s.conns[t]), HoldsIpSlot(s'.conns[t]))
            && Follows(s.perSecret, s'.perSecret, s.conns[t].req.secret, HoldsSecretSlot(s.conns[t]), HoldsSecretSlot(s'.conns[t]))
  {
    hide MoveOf, HoldsIpSlot, HoldsSecretSlot, WellPlaced, Follows;
    MoveCountsIps(s.conns[t], s.perIp, s.perSecret);
    MoveCountsSecrets(s.conns[t], s.perIp, s.perSecret);
  }

  lemma StepKeepsInv(s: State, t: nat)
    requires t in s.conns && Inv(s) && Step(s, t).Some?
    ensures Inv(Step(s, t).value)
  {
    hide Step, Follows, Locked, Placed;
    var s' := Step(s, t).value;
    StepKeepsLocks(s, t);
    StepFollows(s, t);
    IpKept(s, t, s'.conns[t].at, s');
    SecretKept(s, t, s'.conns[t].at, s');
  }

  lemma ArrivalKeepsInv(s: State, t: nat, req: Request)
    requires Inv(s) && t !in s.conns
    ensures Inv(Arrive(s, t, req))
  {
    var s' := Arrive(s, t, req);
    forall ip
      ensures IpHolders(s', ip) == IpHolders(s, ip)
    {
    }
    forall secret
      ensures SecretHolders(s', secret) == SecretHolders(s, secret)
    {
    }
  }

  /** A run: any interleaving of arrivals and lock-sized steps from the empty limiter. */
  ghost predicate Run(states: seq<State>) {
    && states != [] && states[0] == INITIAL
    && forall i :: 0 <= i < |states| - 1 ==> Next(states[i], states[i + 1])
  }

  /** In every state of every run each count is the number of connections holding, or rolling back, a slot. */
  lemma {:induction false} RunsConserve(states: seq<State>, i: nat)
    requires Run(states) && i < |states|
    ensures Inv(states[i])
  {
    if i == 0 {
      EmptyHolders();
    } else {
      RunsConserve(states, i - 1);
      var s, s' := states[i - 1], states[i];
      assert Next(s, s') by {
        assert Next(states[i - 1], states[i - 1 + 1]);
      }
      if t, req :| t !in s.conns && s' == Arrive(s, t, req) {
        ArrivalKeepsInv(s, t, req);
      } else {
        var t :| t in s.conns && Step(s, t) == Some(s');
        StepKeepsInv(s, t);
      }
    }
  }

  lemma EmptyHolders()
    ensures Inv(INITIAL)
  {
    forall k
      ensures IpHolders(INITIAL, k) == {} && SecretHolders(INITIAL, k) == {}
    {
    }
  }

  /** All connections of an address are under one limit. */
  ghost predicate UnderLimit(s: State, ip: string, limit: nat) {
    forall t :: t in s.conns && s.conns[t].req.ip == ip ==> s.conns[t].req.maxPerIp in {0, limit}
  }

  ghost predicate UnderSecretLimit(s: State, secret: string, limit: nat) {
    forall t :: t in s.conns && s.conns[t].req.secret == secret ==> s.conns[t].req.maxPerSecret in {0, limit}
  }

  lemma StepWithin(s: State, t: nat, ip: string, secret: string, limit: nat, secretLimit: nat)
    requires t in s.conns && Step(s, t).Some?
    ensures UnderLimit(s, ip, limit) && Count(s.perIp, ip) <= limit ==> Count(Step(s, t).value.perIp, ip) <= limit
    ensures UnderSecretLimit(s, secret, secretLimit) && Count(s.perSecret, secret) <= secretLimit ==>
              Count(Step(s, t).value.perSecret, secret) <= secretLimit
  {
  }

  /** A fixed limit is never exceeded, in any state of any run. */
  lemma {:induction false} RunsStayWithin(states: seq<State>, i: nat, ip: string, secret: string, limit: nat, secretLimit: nat)
    requires Run(states) && i < |states|
    ensures UnderLimit(states[i], ip, limit) ==> Count(states[i].perIp, ip) <= limit
    ensures UnderSecretLimit(states[i], secret, secretLimit) ==> Count(states[i].perSecret, secret) <= secretLimit
  {
    hide Step;
    if i > 0 {
      RunsStayWithin(states, i - 1, ip, secret, limit, secretLimit);
      var s, s' := states[i - 1], states[i];
      assert Next(s, s') by {
        assert Next(states[i - 1], states[i - 1 + 1]);
      }
      if t, req :| t !in s.conns && s' == Arrive(s, t, req) {
        assert forall u :: u in s.conns ==> u in s'.conns && s'.conns[u] == s.conns[u];
      } else {
        var t :| t in s.conns && Step(s, t) == Some(s');
        StepKeepsRequests(s, t);
        StepWithin(s, t, ip, secret, limit, secretLimit);
      }
    }
  }

  lemma StepKeepsRequests(s: State, t: nat)
    requires t in s.conns && Step(s, t).Some?
    ensures var s' := Step(s, t).value;
            s'.conns.Keys == s.conns.Keys && forall u :: u in s.conns ==> s'.conns[u].req == s.conns[u].req
  {
    hide Take, Give;
  }

  /** Each decision is taken by the blacklist or by the number of connections that hold a slot just then. */
  lemma HoldersDecide(s: State, t: nat)
    requires t in s.conns && Inv(s) && Step(s, t).Some? && t in Step(s, t).value.conns
    ensures var c, to := s.conns[t], Step(s, t).value.conns[t].at;
            && (c.at.Start? ==> (to.Refused? <==> c.req.blacklisted))
            && (c.at.InIp? ==> (to.Refused? <==> |IpHolders(s, c.req.ip)| >= c.req.maxPerIp))
            && (c.at.InSecret? ==> (to.Serving? <==> |SecretHolders(s, c.req.secret)| < c.req.maxPerSecret))
            && (c.at.InIp? ==> c.req.maxPerIp > 0) && (c.at.InSecret? ==> c.req.maxPerSecret > 0)
            && (to.Refused? ==> c.at.Start? || c.at.InIp? || c.at.InSecret? || c.at.RollbackInIp?)
            && (to.RollbackAwaitIp? ==> c.at.InSecret?) && (to.RollbackInIp? ==> c.at.RollbackAwaitIp?)
            && !Ended(c) && !to.Start? && (c.at.InSecret? && !to.Serving? ==> to.Refused? || to.RollbackAwaitIp?)
  {
    hide IpHolders, SecretHolders, Locked, Give;
    var c := s.conns[t];
    assert WellPlaced(c) && Count(s.perIp, c.req.ip) == |IpHolders(s, c.req.ip)|;
    assert Count(s.perSecret, c.req.secret) == |SecretHolders(s, c.req.secret)|;
  }

  /** A table has no slot left for a request. */
  ghost predicate FullFor(s: State, r: Request) {
    || (r.maxPerIp > 0 && |IpHolders(s, r.ip)| >= r.maxPerIp)
    || (r.maxPerSecret > 0 && |SecretHolders(s, r.secret)| >= r.maxPerSecret)
  }

  /**
   In every state of every run: who has got past the start is not blacklisted, and who is refused, or on the
   way out, is blacklisted or came when as many connections held a slot as the limit allows.
   */
  lemma {:induction false} RefusedForCause(states: seq<State>, i: nat, t: nat)
    requires Run(states) && i < |states| && t in states[i].conns
    ensures var c := states[i].conns[t];
            && (!c.at.Start? && !c.at.Refused? ==> !c.req.blacklisted)
            && (c.at.Refused? || c.at.RollbackAwaitIp? || c.at.RollbackInIp? ==>
                  c.req.blacklisted || exists j :: 0 <= j < i && FullFor(states[j], c.req))
  {
    hide Step, Inv, FullFor;
    if i > 0 {
      var s, s' := states[i - 1], states[i];
      assert Next(s, s') by {
        assert Next(states[i - 1], states[i - 1 + 1]);
      }
      RunsConserve(states, i - 1);
      if u, req :| u !in s.conns && s' == Arrive(s, u, req) {
        if t != u {
          RefusedForCause(states, i - 1, t);
        }
      } else {
        var u :| u in s.conns && Step(s, u) == Some(s');
        StepKeepsRequests(s, u);
        RefusedForCause(states, i - 1, t);
        if t == u {
          CauseOfStep(s, t);
        } else {
          OthersStay(s, u, t);
        }
      }
    }
  }

  lemma OthersStay(s: State, u: nat, t: nat)
    requires u in s.conns && t in s.conns && t != u && Step(s, u).Some?
    ensures t in Step(s, u).value.conns && Step(s, u).value.conns[t] == s.conns[t]
  {
    hide MoveOf;
  }

  lemma CauseOfStep(s: State, t: nat)
    requires t in s.conns && Inv(s) && Step(s, t).Some? && t in Step(s, t).value.conns
    ensures var c, to := s.conns[t], Step(s, t).value.conns[t].at;
            && !c.at.Refused? && !to.Start? && (c.at.Start? ==> (to.Refused? <==> c.req.blacklisted))
            && (to.Refused? || to.RollbackAwaitIp? || to.RollbackInIp? ==>
                  || c.at.RollbackAwaitIp? || c.at.RollbackInIp?
                  || c.req.blacklisted || FullFor(s, c.req))
  {
    hide Step, IpHolders, SecretHolders, Inv;
    HoldersDecide(s, t);
  }

  /** A connection that cannot step waits for a lock that is held. */
  lemma WaitsForALock(s: State, t: nat)
    requires t in s.conns && !Ended(s.conns[t]) && Step(s, t).None?
    ensures var at := s.conns[t].at;
            || ((at.AwaitIp? || at.RollbackAwaitIp? || at.ReleaseAwaitIp?) && s.ipLock.Some?)
            || ((at.AwaitSecret? || at.ReleaseAwaitSecret?) && s.secretLock.Some?)
  {
    hide Take, Give;
  }

  /** Locks nest only secret before address, so no state of any run is a deadlock. */
  lemma NeverStuck(s: State, t: nat)
    requires Inv(s) && t in s.conns && !Ended(s.conns[t])
    ensures exists u :: u in s.conns && Step(s, u).Some?
  {
    hide Step, Conserved, Placed;
    if Step(s, t).None? {
      WaitsForALock(s, t);
      if s.ipLock.Some? {
        var v := s.ipLock.value;
        assert HoldsIpLock(s.conns[v]) && !Ended(s.conns[v]);
        if Step(s, v).None? {
          WaitsForALock(s, v);
        }
      } else {
        var u := s.secretLock.value;
        assert HoldsSecretLock(s.conns[u]) && !Ended(s.conns[u]);
        if Step(s, u).None? {
          WaitsForALock(s, u);
        }
      }
    }
  }

  /** When all connections have ended both tables are empty: no slot is ever lost, by refusals or otherwise. */
  lemma NothingLeaks(s: State)
    requires Inv(s) && forall t :: t in s.conns ==> Ended(s.conns[t])
    ensures s.perIp == map[] && s.perSecret == map[]
  {
    forall k
      ensures k !in s.perIp && k !in s.perSecret
    {
      assert IpHolders(s, k) == {} && SecretHolders(s, k) == {};
      assert Count(s.perIp, k) == 0 && Count(s.perSecret, k) == 0;
    }
  }
}
