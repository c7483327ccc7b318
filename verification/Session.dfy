/**
 A front, its backs and the network between them as one state machine. Its runs are all
 interleavings of the front's attempts with what each back does on its own, with connections that
 fail, break or time out at any point.
 */
module Session {
  import opened Bytes
  import opened Options
  import opened Utf8
  import opened OpeningFrame
  import opened Obfuscated2
  import opened Split

  /** One session: what the front was configured with and wants, and each back with the address it sees. */
  datatype Setup = Setup(
    c: Crypto, token: text, mode: SecretMode, backend: text, initial: bytes, encryptRelay: bool,
    backs: seq<BackConfig>, peers: seq<nat>)
  {
    predicate Ready() {
      |peers| == |backs| && Fits(backend, initial)
    }

    function Frame(): (raw: bytes)
      requires Ready()
    {
      Encode(c.hash, token, mode, backend, initial, encryptRelay).raw
    }

    function FrontTerms(): (t: Terms)
      requires Ready()
    {
      TermsOf(c.hash, token, encryptRelay, Frame())
    }
  }

  datatype FrontAt = Dialling(i: nat) | Sending(i: nat, sent: nat) | AwaitingAck(i: nat) | Relaying(i: nat) | NoBack

  /** A back serves once it has accepted; it may end at any time, for want of a raw byte or of a data centre. */
  datatype BackAt =
    | Listening | Serving(raw: bytes, verdict: Verdict, upstreamOk: bool)
    | Ended(raw: bytes, verdict: Verdict, upstreamOk: bool) | Gone
  {
    predicate HasAccepted() {
      Serving? || Ended?
    }
  }

  /** A connection to one back: all bytes ever put on it in each direction. */
  datatype Link = Link(toBack: bytes, toFront: bytes, back: BackAt, answers: nat)

  const NEW_LINK: Link := Link([], [], Listening, 0)

  /** `clientTaken` counts the bytes the front has taken from the client after the handshake. */
  datatype State = State(front: FrontAt, links: map<nat, Link>, clientTaken: nat)

  const INITIAL: State := State(Dialling(0), map[], 0)

  datatype Action =
    | Connect(ok: bool) | Send(n: nat) | SendFails | NoAnswer | ReadAck | Relay(taken: nat, data: bytes)
    | BackAnswers(j: nat, upstreamOk: bool) | BackGivesUp(j: nat) | BackRelays(j: nat, data: bytes) | BackEnds(j: nat)

  /** The state after an action, if the action is possible. */
  function Apply(u: Setup, s: State, a: Action): (r: Option<State>)
    requires u.Ready()
  {
    match a
    case Connect(_) | Send(_) | SendFails | NoAnswer | ReadAck | Relay(_, _) => FrontActs(u, s, a)
    case BackAnswers(j, _) => if j in s.links && j < |u.backs| then WithLink(s, j, BackActs(u, s.links[j], j, a)) else None
    case BackGivesUp(j) => if j in s.links && j < |u.backs| then WithLink(s, j, BackActs(u, s.links[j], j, a)) else None
    case BackRelays(j, _) => if j in s.links && j < |u.backs| then WithLink(s, j, BackActs(u, s.links[j], j, a)) else None
    case BackEnds(j) => if j in s.links && j < |u.backs| then WithLink(s, j, BackActs(u, s.links[j], j, a)) else None
  }

  function WithLink(s: State, j: nat, l: Option<Link>): (r: Option<State>) {
    if l.None? then None else Some(s.(links := s.links[j := l.value]))
  }

  function FrontActs(u: Setup, s: State, a: Action): (r: Option<State>)
    requires u.Ready()
  {
    match (s.front, a)
    case (Dialling(i), Connect(ok)) =>
      if i >= |u.backs| then Some(s.(front := NoBack))
      else if ok then Some(s.(front := Sending(i, 0), links := s.links[i := NEW_LINK]))
      else Some(s.(front := Dialling(i + 1)))
    case (Sending(i, k), Send(n)) =>
      if i !in s.links || n == 0 || k + n > |u.Frame()| then None
      else
        var l := s.links[i];
        Some(s.(links := s.links[i := l.(toBack := l.toBack + u.Frame()[k..k + n])],
                front := if k + n == |u.Frame()| then AwaitingAck(i) else Sending(i, k + n)))
    case (Sending(i, _), SendFails) => Some(s.(front := Dialling(i + 1)))
    case (AwaitingAck(i), NoAnswer) => Some(s.(front := Dialling(i + 1)))
    case (AwaitingAck(i), ReadAck) =>
      if i !in s.links || s.links[i].toFront == [] then None
      else Some(s.(front := if s.links[i].toFront[0] == ACK_OK then Relaying(i) else Dialling(i + 1)))
    case (Relaying(i), Relay(taken, data)) =>
      if i !in s.links then None
      else
        var l := s.links[i];
        Some(s.(links := s.links[i := l.(toBack := l.toBack + data)], clientTaken := s.clientTaken + taken))
    case _ => None
  }

  /** What a back does with its connection. Its answer may be refused before it has read anything. */
  function BackActs(u: Setup, l: Link, j: nat, a: Action): (r: Option<Link>)
    requires j < |u.backs| && |u.peers| == |u.backs|
  {
    var cfg := u.backs[j];
    match a
    case BackAnswers(_, upstreamOk) =>
      if !l.back.Listening? then None
      else if !PeerAllowed(u.peers[j], cfg.allowlist) then Some(Answer(cfg, l, [], Refuses(NotAllowed), upstreamOk))
      else if FrameEnd(l.toBack).None? || FrameEnd(l.toBack).value > |l.toBack| then None
      else
        var raw := l.toBack[..FrameEnd(l.toBack).value];
        Some(Answer(cfg, l, raw, VerdictOn(u.c, cfg, raw, upstreamOk), upstreamOk))
    case BackGivesUp(_) => if l.back.Listening? then Some(l.(back := Gone)) else None
    case BackRelays(_, data) => if l.back.Serving? then Some(l.(toFront := l.toFront + data)) else None
    case BackEnds(_) => if l.back.Serving? then Some(l.(back := Ended(l.back.raw, l.back.verdict, l.back.upstreamOk))) else None
    case _ => None
  }

  function Answer(cfg: BackConfig, l: Link, raw: bytes, v: Verdict, upstreamOk: bool): (r: Link) {
    l.(toFront := l.toFront + AckBytes(cfg, v),
       answers := l.answers + (if AckBytes(cfg, v) == [] then 0 else 1),
       back := if v.Accepts? then Serving(raw, v, upstreamOk) else Gone)
  }

  // ---------------------------------------------------------------- safety

  /** What a connection has carried towards its back, given where the front is. */
  ghost predicate FrontWrote(u: Setup, front: FrontAt, j: nat, l: Link)
    requires u.Ready()
  {
    if front == Relaying(j) then Prefix(u.Frame(), l.toBack)
    else Prefix(l.toBack, u.Frame())
         && (front == AwaitingAck(j) ==> l.toBack == u.Frame())
         && (front.Sending? && front.i == j ==> front.sent == |l.toBack| && front.sent < |u.Frame()|)
  }

  /** What a back has answered: nothing while it listens, OK only when it vouches for the front's very frame. */
  ghost predicate BackAnswered(u: Setup, j: nat, l: Link)
    requires u.Ready()
  {
    && j < |u.backs| && l.answers <= 1
    && (l.back.Listening? ==> l.toFront == [] && l.answers == 0)
    && (l.toFront != [] && l.toFront[0] == ACK_OK ==> l.back.HasAccepted())
    && (l.back.HasAccepted() ==>
          && l.toFront != [] && l.toFront[0] == ACK_OK && l.answers == 1
          && l.back.raw == u.Frame() && Vouches(u.c, u.backs[j], u.peers[j], u.Frame(), l.back.verdict, l.back.upstreamOk))
  }

  ghost predicate Safe(u: Setup, s: State)
    requires u.Ready()
  {
    && (forall j :: j in s.links ==> FrontWrote(u, s.front, j, s.links[j]) && BackAnswered(u, j, s.links[j]))
    && (s.front.Dialling? ==> forall j :: j in s.links ==> j < s.front.i)
    && (s.front.Sending? || s.front.AwaitingAck? || s.front.Relaying? ==>
          s.front.i in s.links && forall j :: j in s.links ==> j <= s.front.i)
    && (s.front.Relaying? ==> s.links[s.front.i].back.HasAccepted())
    && (s.clientTaken > 0 ==> s.front.Relaying?)
  }

  ghost predicate Run(u: Setup, states: seq<State>, actions: seq<Action>)
    requires u.Ready()
  {
    && |states| == |actions| + 1 && states[0] == INITIAL
    && forall i :: 0 <= i < |actions| ==> Apply(u, states[i], actions[i]) == Some(states[i + 1])
  }

  /** The front's frame, or more of it, delimits itself: a back that reads a frame reads that one. */
  lemma BackReadsTheFrame(u: Setup, toBack: bytes)
    requires u.Ready() && (Prefix(toBack, u.Frame()) || Prefix(u.Frame(), toBack))
    requires FrameEnd(toBack).Some? && FrameEnd(toBack).value <= |toBack|
    ensures toBack[..FrameEnd(toBack).value] == u.Frame()
  {
    hide FrameEnd, Encode;
    if Prefix(u.Frame(), toBack) {
      var rest := toBack[|u.Frame()|..];
      assert u.Frame() + rest == toBack;
      FrameDelimitsItself(u.c.hash, u.token, u.mode, u.backend, u.initial, u.encryptRelay, rest);
    } else {
      var rest := u.Frame()[|toBack|..];
      assert toBack + rest == u.Frame() && u.Frame() + [] == u.Frame();
      FrameDelimitsItself(u.c.hash, u.token, u.mode, u.backend, u.initial, u.encryptRelay, []);
      FrameEndStable(toBack, rest);
    }
  }

  lemma FrontKeepsSafe(u: Setup, s: State, a: Action)
    requires u.Ready() && Safe(u, s) && FrontActs(u, s, a).Some?
    ensures Safe(u, FrontActs(u, s, a).value)
  {
    hide Safe, FrontActs;
    match s.front
    case Dialling(_) => DiallingKeepsSafe(u, s, a);
    case Sending(_, _) => SendingKeepsSafe(u, s, a);
    case AwaitingAck(_) => AwaitingKeepsSafe(u, s, a);
    case Relaying(_) => RelayingKeepsSafe(u, s, a);
    case NoBack => NoBackIsStuck(u, s, a);
  }

  lemma DiallingKeepsSafe(u: Setup, s: State, a: Action)
    requires u.Ready() && Safe(u, s) && s.front.Dialling? && FrontActs(u, s, a).Some?
    ensures Safe(u, FrontActs(u, s, a).value)
  {
    hide OpeningFrame.Encode, Vouches;
    FrameNotEmpty(u);
  }

  lemma SendingKeepsSafe(u: Setup, s: State, a: Action)
    requires u.Ready() && Safe(u, s) && s.front.Sending? && FrontActs(u, s, a).Some?
    ensures Safe(u, FrontActs(u, s, a).value)
  {
    hide OpeningFrame.Encode, Vouches, BackAnswered;
    if a.Send? {
      var i, k, l := s.front.i, s.front.sent, s.links[s.front.i];
      assert l.toBack + u.Frame()[k..k + a.n] == u.Frame()[..k + a.n];
      AnswerKept(u, i, l, l.toBack + u.Frame()[k..k + a.n]);
    }
  }

  lemma AwaitingKeepsSafe(u: Setup, s: State, a: Action)
    requires u.Ready() && Safe(u, s) && s.front.AwaitingAck? && FrontActs(u, s, a).Some?
    ensures Safe(u, FrontActs(u, s, a).value)
  {
    hide OpeningFrame.Encode, Vouches;
  }

  lemma RelayingKeepsSafe(u: Setup, s: State, a: Action)
    requires u.Ready() && Safe(u, s) && s.front.Relaying? && FrontActs(u, s, a).Some?
    ensures Safe(u, FrontActs(u, s, a).value)
  {
    hide OpeningFrame.Encode, Vouches, BackAnswered;
    var i, l := s.front.i, s.links[s.front.i];
    PrefixExtends(u.Frame(), l.toBack, a.data);
    AnswerKept(u, i, l, l.toBack + a.data);
  }

  lemma NoBackIsStuck(u: Setup, s: State, a: Action)
    requires u.Ready() && s.front.NoBack?
    ensures FrontActs(u, s, a).None?
  {
  }

  /** What the front sends changes nothing of what its back has answered. */
  lemma AnswerKept(u: Setup, j: nat, l: Link, toBack: bytes)
    requires u.Ready()
    ensures BackAnswered(u, j, l.(toBack := toBack)) <==> BackAnswered(u, j, l)
  {
    hide OpeningFrame.Encode, Vouches;
  }

  lemma FrameNotEmpty(u: Setup)
    requires u.Ready()
    ensures |u.Frame()| >= 44
  {
  }

  /** What keeps a state safe when one back acts: the same bytes towards it, and an answer it may give. */
  lemma BackKeepsSafe(u: Setup, s: State, j: nat, a: Action)
    requires u.Ready() && Safe(u, s) && j in s.links && j < |u.backs|
    requires BackActs(u, s.links[j], j, a).Some?
    ensures Safe(u, s.(links := s.links[j := BackActs(u, s.links[j], j, a).value]))
  {
    hide BackActs, FrontWrote, BackAnswered;
    var l, l' := s.links[j], BackActs(u, s.links[j], j, a).value;
    assert FrontWrote(u, s.front, j, l) && BackAnswered(u, j, l);
    BackMoves(u, s.front, l, j, a);
    assert FrontWrote(u, s.front, j, l') && BackAnswered(u, j, l');
  }

  lemma BackMoves(u: Setup, front: FrontAt, l: Link, j: nat, a: Action)
    requires u.Ready() && j < |u.backs| && FrontWrote(u, front, j, l) && BackAnswered(u, j, l) && BackActs(u, l, j, a).Some?
    ensures var l' := BackActs(u, l, j, a).value;
            && FrontWrote(u, front, j, l') && BackAnswered(u, j, l') && (l.back.HasAccepted() ==> l'.back.HasAccepted())
  {
    hide OpeningFrame.Encode, VerdictOn, AckBytes, FrameEnd, Vouches;
    if a.BackAnswers? {
      AnswerTells(u.backs[j], Refuses(NotAllowed));
      if PeerAllowed(u.peers[j], u.backs[j].allowlist) {
        BackReadsTheFrame(u, l.toBack);
        VerdictVouches(u.c, u.backs[j], u.peers[j], u.Frame(), a.upstreamOk);
        AnswerTells(u.backs[j], VerdictOn(u.c, u.backs[j], u.Frame(), a.upstreamOk));
      }
    }
  }

  lemma AnswerTells(cfg: BackConfig, v: Verdict)
    ensures v.Accepts? <==> AckBytes(cfg, v) != [] && AckBytes(cfg, v)[0] == ACK_OK
  {
  }

  lemma VerdictVouches(c: Crypto, cfg: BackConfig, peer: nat, raw: bytes, upstreamOk: bool)
    requires PeerAllowed(peer, cfg.allowlist)
    ensures VerdictOn(c, cfg, raw, upstreamOk).Accepts? ==> Vouches(c, cfg, peer, raw, VerdictOn(c, cfg, raw, upstreamOk), upstreamOk)
  {
    hide Decode, ParseHandshake;
  }

  /** Every state of every run is safe. */
  lemma {:induction false} RunsAreSafe(u: Setup, states: seq<State>, actions: seq<Action>, i: nat)
    requires u.Ready() && Run(u, states, actions) && i < |states|
    ensures Safe(u, states[i])
  {
    hide Safe, FrontActs, BackActs;
    if i == 0 {
      StartIsSafe(u);
    } else {
      RunsAreSafe(u, states, actions, i - 1);
      var s, a := states[i - 1], actions[i - 1];
      assert Apply(u, s, a) == Some(states[i - 1 + 1]);
      match a
      case BackAnswers(j, _) => BackKeepsSafe(u, s, j, a);
      case BackGivesUp(j) => BackKeepsSafe(u, s, j, a);
      case BackRelays(j, _) => BackKeepsSafe(u, s, j, a);
      case BackEnds(j) => BackKeepsSafe(u, s, j, a);
      case _ => FrontKeepsSafe(u, s, a);
    }
  }

  lemma StartIsSafe(u: Setup)
    requires u.Ready()
    ensures Safe(u, INITIAL)
  {
  }

  /** A back that has accepted: what it has answered, checked and agreed on. */
  ghost predicate RelaysSafely(u: Setup, cfg: BackConfig, peer: nat, l: Link)
    requires u.Ready() && l.back.HasAccepted()
  {
    var v := l.back.verdict;
    && l.toFront != [] && l.toFront[0] == ACK_OK
    && v.Accepts? && PeerAllowed(peer, cfg.allowlist)
    && v.frame == OpeningFrame.Frame(u.mode, u.backend, u.initial)
    && cfg.token.Some? && u.c.hash(cfg.token.value) == u.c.hash(u.token)
    && (u.mode.Ee? ==> |u.initial| == 64 && ParseHandshake(u.c.ks, u.c.hash, u.initial, cfg.secret).Some?)
    && (!u.mode.Ee? ==> l.back.upstreamOk)
    && (cfg.token.value == u.token ==>
          && v.terms.keys == u.FrontTerms().keys
          && (v.terms == u.FrontTerms() <==> cfg.encryptRelay || !u.encryptRelay))
  }

  /**
   What safety comes to. No client byte is taken and no byte beyond the frame is written, on any
   connection, unless the front relays on that connection; every back is sent a prefix of one and the
   same frame; and the back it relays to has allowed its address, knows a token of the same hash,
   for ee holds a valid handshake and otherwise has reached its server, answered once, and goes by the front's keys, and by its mode
   exactly unless it does not encrypt and the front does.
   */
  lemma SessionIsSafe(u: Setup, states: seq<State>, actions: seq<Action>, i: nat)
    requires u.Ready() && Run(u, states, actions) && i < |states|
    ensures var s := states[i];
            && (s.clientTaken > 0 ==> s.front.Relaying?)
            && (forall j :: j in s.links && s.front != Relaying(j) ==> Prefix(s.links[j].toBack, u.Frame()))
            && (forall j :: j in s.links ==> s.links[j].answers <= 1)
            && (s.front.Relaying? ==>
                  s.front.i in s.links && s.front.i < |u.backs| && s.links[s.front.i].back.HasAccepted()
                  && RelaysSafely(u, u.backs[s.front.i], u.peers[s.front.i], s.links[s.front.i]))
  {
    hide Apply, Encode, Decode, ParseHandshake, DeriveSessionKeys;
    RunsAreSafe(u, states, actions, i);
    var s := states[i];
    if s.front.Relaying? {
      var j := s.front.i;
      DecodeInvertsEncode(u.c.hash, u.token, u.mode, u.backend, u.initial, u.encryptRelay);
      TermsAgree(u.c.hash, u.token, u.mode, u.backend, u.initial, u.encryptRelay, u.backs[j].encryptRelay);
    }
  }
}
