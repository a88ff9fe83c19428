/** CHAP (RFC 1994) and the authentication phase of PPP as chap.c and auth.c run them: the
    state of one unit, what each call makes of it, and what holds over every run. */
module ChapSpec {
  import opened CTypes

  // chap.h
  const CHAP_HEADERLEN := 4
  const CHAP_DIGEST_MD5 := 5
  const MD5_SIGNATURE_SIZE := 16
  const CHAP_CHALLENGE := 1
  const CHAP_RESPONSE := 2
  const CHAP_SUCCESS := 3
  const CHAP_FAILURE := 4
  const MIN_CHALLENGE_LENGTH := 32
  const MAX_CHALLENGE_LENGTH := 64

  datatype ClientState = CInitial | CClosed | CPending | CListen | CResponse | COpen
  datatype ServerState = SInitial | SClosed | SPending | SInitialChal | SOpen | SRechallenge | SBadAuth
  datatype Phase = Dead | Establish | Authenticate | Network | Terminate

  /** auth_pending, bit by bit. */
  datatype Bits = Bits(upapWithPeer: bool, upapPeer: bool, chapWithPeer: bool, chapPeer: bool)

  const NoBits := Bits(false, false, false, false)
  const UPAP_WITHPEER := Bits(true, false, false, false)
  const UPAP_PEER := Bits(false, true, false, false)
  const CHAP_WITHPEER := Bits(false, false, true, false)
  const CHAP_PEER := Bits(false, false, false, true)

  function Without(a: Bits, b: Bits): Bits {
    Bits(a.upapWithPeer && !b.upapWithPeer, a.upapPeer && !b.upapPeer,
         a.chapWithPeer && !b.chapWithPeer, a.chapPeer && !b.chapPeer)
  }

  function With(a: Bits, b: Bits): Bits {
    Bits(a.upapWithPeer || b.upapWithPeer, a.upapPeer || b.upapPeer,
         a.chapWithPeer || b.chapWithPeer, a.chapPeer || b.chapPeer)
  }

  /** A challenge as ChapGenChallenge draws it. */
  type Challenge = c: seq<Byte> | MIN_CHALLENGE_LENGTH <= |c| < MAX_CHALLENGE_LENGTH
    witness seq(MIN_CHALLENGE_LENGTH, _ => 0)

  type Digest = d: seq<Byte> | |d| == MD5_SIGNATURE_SIZE witness seq(MD5_SIGNATURE_SIZE, _ => 0)

  /** What a unit does that others see, and each drawing of a challenge. */
  datatype Action =
    | Drawn(id: Byte, challenge: seq<Byte>)
    | SentChallenge(id: Byte, challenge: seq<Byte>)
    | SentResponse(id: Byte, digest: seq<Byte>)
    | SentStatus(code: int, id: Byte)
    | IpcpOpened
    | Died

  /** One unit. `open` says whether LCP is OPENED, `exited` whether die() ended the process. */
  datatype Unit = Unit(
    open: bool, exited: bool,
    client: ClientState, server: ServerState,
    challenge: seq<Byte>, chalId: Byte, chalType: int, id: Byte, chalTransmits: nat,
    respId: Byte, respType: int, respTransmits: nat, response: seq<Byte>,
    phase: Phase, pending: Bits, log: seq<Action>)

  /** The digest of an id, a secret and a challenge; the secrets, by the peer's name;
      max_transmits; and whether OPT_PASSIVE or OPT_SILENT is set, so that die() returns. */
  datatype Config = Config(
    digest: (Byte, seq<Byte>, seq<Byte>) -> Digest,
    secretOf: seq<Byte> -> Option<seq<Byte>>,
    secretFor: seq<Byte> -> Option<seq<Byte>>,
    maxTransmits: nat,
    passive: bool)

  /** What link_established reads: whether the peer must authenticate itself, which protocols
      LCP settled on for the peer (`go`) and for us (`ho`), whether PAP was wanted, and what
      null_login answers. */
  datatype Options = Options(
    authRequired: bool, goChap: Option<int>, goUpap: bool, hoChap: Option<int>, hoUpap: bool,
    woUpap: bool, nullLogin: bool)

  // ---------------------------------------------------------------- the calls

  function Log(u: Unit, a: Action): Unit {
    u.(log := u.log + [a])
  }

  function GenChallenge(u: Unit, drawn: Challenge): Unit {
    var id: Byte := (u.id + 1) % 256;
    Log(u.(challenge := drawn, id := id, chalId := id, chalTransmits := 0), Drawn(id, drawn))
  }

  function SendChallenge(u: Unit): Unit {
    Log(u, SentChallenge(u.chalId, u.challenge)).(chalTransmits := u.chalTransmits + 1)
  }

  function Challenged(u: Unit, drawn: Challenge, server: ServerState): Unit {
    SendChallenge(GenChallenge(u, drawn)).(server := server)
  }

  function SendResponse(u: Unit): Unit {
    Log(u, SentResponse(u.respId, u.response)).(client := CResponse, respTransmits := u.respTransmits + 1)
  }

  function SendStatus(u: Unit, code: int): Unit {
    Log(u, SentStatus(code, u.chalId))
  }

  /** auth_peer_success and auth_withpeer_success. */
  function Succeeded(u: Unit, bit: Bits): Unit {
    var v := u.(pending := Without(u.pending, bit));
    if v.pending == NoBits then Log(v.(phase := Network), IpcpOpened) else v
  }

  function LowerDown(u: Unit): Unit {
    u.(client := CInitial, server := SInitial)
  }

  /** lcp_down, as LCP leaves OPENED. */
  function LcpDowned(u: Unit): Unit {
    LowerDown(u).(phase := Terminate, open := false)
  }

  /** die(): closes LCP, and then returns only if the unit waits for another connection. It is what
      auth_peer_fail does. */
  function Die(u: Unit, cfg: Config): Unit {
    var v := Log(u, Died);
    (if v.open then LcpDowned(v) else v).(exited := !cfg.passive)
  }

  function AuthWithPeer(u: Unit, digest: int): Unit {
    u.(respType := digest, client := if u.client in {CInitial, CPending} then CPending else CListen)
  }

  function AuthPeer(u: Unit, digest: int, drawn: Challenge): Unit {
    var v := u.(chalType := digest);
    if u.server in {SInitial, SPending} then v.(server := SPending) else Challenged(v, drawn, SInitialChal)
  }

  function ChallengeTimeout(u: Unit, cfg: Config): Unit {
    if u.server !in {SInitialChal, SRechallenge} then u
    else if u.chalTransmits >= cfg.maxTransmits then Die(u.(server := SBadAuth), cfg)
    else SendChallenge(u)
  }

  function ResponseTimeout(u: Unit): Unit {
    if u.client != CResponse then u else SendResponse(u)
  }

  function Rechallenge(u: Unit, drawn: Challenge): Unit {
    if u.server != SOpen then u else Challenged(u, drawn, SRechallenge)
  }

  function LowerUp(u: Unit, drawn: Challenge): Unit {
    var v := u.(client := match u.client { case CInitial => CClosed case CPending => CListen case c => c });
    match v.server
    case SInitial => v.(server := SClosed)
    case SPending => Challenged(v, drawn, SInitialChal)
    case _ => v
  }

  function ProtocolReject(u: Unit, cfg: Config): Unit {
    if u.server in {SInitial, SClosed} then LowerDown(u)
    else
      var d := Die(u, cfg);
      if d.exited then d else LowerDown(d)
  }

  /** The bits that link_established is to set. */
  function Demanded(o: Options): Bits {
    Bits(o.hoChap.None? && o.hoUpap, o.goChap.None? && o.goUpap, o.hoChap.Some?, o.goChap.Some?)
  }

  /** The peer was to authenticate itself, will not, and is not let in without. */
  predicate Refused(o: Options) {
    o.authRequired && !(o.goChap.Some? || o.goUpap) && (!o.woUpap || !o.nullLogin)
  }

  function Proceed(u: Unit, o: Options, drawn: Challenge): Unit {
    var u1 := u.(phase := Authenticate);
    var u2 := if o.goChap.Some? then AuthPeer(u1, o.goChap.value, drawn) else u1;
    var u3 := if o.hoChap.Some? then AuthWithPeer(u2, o.hoChap.value) else u2;
    var u4 := u3.(pending := Demanded(o));
    if u4.pending == NoBits then Log(u4.(phase := Network), IpcpOpened) else u4
  }

  /** link_established goes on after a die() that returns. */
  function LinkEstablished(u: Unit, cfg: Config, o: Options, drawn: Challenge): Unit {
    if !Refused(o) then Proceed(u, o, drawn)
    else
      var d := Die(u, cfg);
      if d.exited then d else Proceed(d, o, drawn)
  }

  // ---------------------------------------------------------------- packets

  /** The parts of a Challenge's or Response's data: a counted value, and a name cut to 255. */
  datatype Data = Data(value: seq<Byte>, name: seq<Byte>)

  function ParseData(body: seq<Byte>): Option<Data> {
    if |body| < 2 || |body| < 1 + body[0] as int then None
    else
      var end: int := 1 + body[0] as int;
      var name := body[end..];
      Some(Data(body[1..end], if |name| >= 256 then name[..255] else name))
  }

  datatype Packet = Packet(code: int, id: Byte, body: seq<Byte>)

  /** The header of a CHAP packet; None if the packet is to be dropped. */
  function ParseHeader(bytes: seq<Byte>): Option<Packet> {
    if |bytes| < CHAP_HEADERLEN then None
    else
      var len: int := 256 * (bytes[2] as int) + bytes[3] as int;
      if len < CHAP_HEADERLEN || len > |bytes| then None
      else Some(Packet(bytes[0], bytes[1], bytes[CHAP_HEADERLEN..len]))
  }

  function ReceiveChallenge(u: Unit, cfg: Config, id: Byte, body: seq<Byte>): Unit {
    if u.client in {CClosed, CPending} then u
    else
      match ParseData(body)
      case None => u
      case Some(d) =>
        var v := u.(respId := id, respTransmits := 0);
        if u.respType != CHAP_DIGEST_MD5 then v
        else
          var secret := cfg.secretFor(d.name);
          SendResponse(v.(response := cfg.digest(id, if secret.Some? then secret.value else [], d.value)))
  }

  /** The value is the digest of the challenge outstanding, with the secret of the name given. */
  predicate Correct(u: Unit, cfg: Config, d: Data) {
    && u.chalType == CHAP_DIGEST_MD5
    && cfg.secretOf(d.name).Some?
    && d.value == cfg.digest(u.chalId, cfg.secretOf(d.name).value, u.challenge)
  }

  function ReceiveResponse(u: Unit, cfg: Config, id: Byte, body: seq<Byte>): Unit {
    if u.server in {SClosed, SPending} || id != u.chalId then u
    else if u.server == SOpen then SendStatus(u, CHAP_SUCCESS)
    else if u.server == SBadAuth then SendStatus(u, CHAP_FAILURE)
    else
      match ParseData(body)
      case None => u
      case Some(d) =>
        if Correct(u, cfg, d) then
          var v := SendStatus(u, CHAP_SUCCESS).(server := SOpen);
          if u.server == SInitialChal then Succeeded(v, CHAP_PEER) else v
        else Die(SendStatus(u, CHAP_FAILURE).(server := SBadAuth), cfg)
  }

  function ReceiveSuccess(u: Unit): Unit {
    if u.client != CResponse then u else Succeeded(u.(client := COpen), CHAP_WITHPEER)
  }

  function Input(u: Unit, cfg: Config, bytes: seq<Byte>): Unit {
    match ParseHeader(bytes)
    case None => u
    case Some(p) =>
      if p.code == CHAP_CHALLENGE then ReceiveChallenge(u, cfg, p.id, p.body)
      else if p.code == CHAP_RESPONSE then ReceiveResponse(u, cfg, p.id, p.body)
      else if p.code == CHAP_SUCCESS then ReceiveSuccess(u)
      else u
  }

  // ---------------------------------------------------------------- runs

  /** A timer may go off at any time, and IPCP or PAP may call die() at any time; PAP tells of
      success by the two Upap events. */
  datatype Event =
    | LcpUp(options: Options, drawn0: Challenge, drawn: Challenge)
    | LcpDown
    | LcpTerminated
    | Rejected
    | Received(bytes: seq<Byte>)
    | ChallengeTimer
    | ResponseTimer
    | RechallengeTimer(drawn: Challenge)
    | UpapPeerSucceeded
    | UpapWithPeerSucceeded
    | Ended

  function Step(u: Unit, cfg: Config, e: Event): Unit {
    match e
    case LcpUp(o, drawn0, drawn) => LinkEstablished(LowerUp(u.(open := true), drawn0), cfg, o, drawn)
    case LcpDown => LcpDowned(u)
    case LcpTerminated => u.(phase := Dead)
    case Rejected => ProtocolReject(u, cfg)
    case Received(bytes) => Input(u, cfg, bytes)
    case ChallengeTimer => ChallengeTimeout(u, cfg)
    case ResponseTimer => ResponseTimeout(u)
    case RechallengeTimer(drawn) => Rechallenge(u, drawn)
    case UpapPeerSucceeded => Succeeded(u, UPAP_PEER)
    case UpapWithPeerSucceeded => Succeeded(u, UPAP_WITHPEER)
    case Ended => Die(u, cfg)
  }

  /** LCP comes up only if it is not, and goes down only if it is; packets and rejections are passed
      on, and PAP succeeds, only while it is OPENED. */
  predicate Possible(u: Unit, e: Event) {
    && !u.exited
    && (e.LcpUp? || e.LcpTerminated? ==> !u.open)
    && (e.LcpDown? || e.Rejected? || e.Received? || e.UpapPeerSucceeded? || e.UpapWithPeerSucceeded? ==> u.open)
  }

  /** After ChapInit, before LCP has come up. */
  predicate Initial(u: Unit) {
    && !u.open && !u.exited && u.client == CInitial && u.server == SInitial
    && u.phase == Dead && u.chalTransmits == 0 && u.log == []
  }

  /** What an observer of the events knows of the last time LCP came up: how long the log was then,
      what LCP had settled on, and what was shown since. */
  datatype Seen = Seen(since: nat, options: Options, shown: Bits) {
    function demanded(): Bits { Demanded(options) }
    predicate refused() { Refused(options) }
  }

  const Nothing := Seen(0, Options(false, None, false, None, false, false, false), NoBits)

  /** The last challenge drawn, according to the log. */
  function LastDrawn(log: seq<Action>): Option<Action> {
    if log == [] then None
    else if log[|log| - 1].Drawn? then Some(log[|log| - 1])
    else LastDrawn(log[..|log| - 1])
  }

  /** The challenge that the unit holds was drawn after the log had the length `since`. */
  predicate Outstanding(u: Unit, since: nat) {
    since <= |u.log| && LastDrawn(u.log[since..]) == Some(Drawn(u.chalId, u.challenge))
  }

  /** A Response with the id and the digest of the challenge outstanding. */
  predicate Proves(u: Unit, cfg: Config, since: nat, bytes: seq<Byte>) {
    match ParseHeader(bytes)
    case None => false
    case Some(p) =>
      && p.code == CHAP_RESPONSE && p.id == u.chalId && Outstanding(u, since)
      && match ParseData(p.body) { case None => false case Some(d) => Correct(u, cfg, d) }
  }

  /** A Success, while a response of ours is unanswered. */
  predicate Accepts(u: Unit, bytes: seq<Byte>) {
    match ParseHeader(bytes)
    case None => false
    case Some(p) => p.code == CHAP_SUCCESS && u.client == CResponse
  }

  function Observe(o: Seen, u: Unit, cfg: Config, e: Event): Seen {
    match e
    case LcpUp(options, _, _) => Seen(|u.log|, options, NoBits)
    case Received(bytes) =>
      o.(shown := With(o.shown, Bits(false, false, Accepts(u, bytes), Proves(u, cfg, o.since, bytes))))
    case UpapPeerSucceeded => o.(shown := With(o.shown, UPAP_PEER))
    case UpapWithPeerSucceeded => o.(shown := With(o.shown, UPAP_WITHPEER))
    case _ => o
  }

  /** The unit, and what was seen, after the events. */
  function Run(cfg: Config, u: Unit, es: seq<Event>): (Unit, Seen) {
    if es == [] then (u, Nothing)
    else
      var n := |es| - 1;
      var (v, o) := Run(cfg, u, es[..n]);
      (Step(v, cfg, es[n]), Observe(o, v, cfg, es[n]))
  }

  ghost predicate Legal(cfg: Config, u: Unit, es: seq<Event>) {
    es == [] || (Legal(cfg, u, es[..|es| - 1]) && Possible(Run(cfg, u, es[..|es| - 1]).0, es[|es| - 1]))
  }

  lemma RunAppends(cfg: Config, u: Unit, es: seq<Event>, e: Event)
    ensures var (v, o) := Run(cfg, u, es); Run(cfg, u, es + [e]) == (Step(v, cfg, e), Observe(o, v, cfg, e))
    ensures Legal(cfg, u, es + [e]) <==> Legal(cfg, u, es) && Possible(Run(cfg, u, es).0, e)
  {
    assert (es + [e])[..|es|] == es;
  }

  // ---------------------------------------------------------------- the network phase

  /** What happened since LCP last came up suffices for the network phase: LCP is still up; each side has
      shown itself by the protocol settled on for it, CHAP before PAP; and a peer that has to
      authenticate itself, and for which none was settled on, is let in by the null login. */
  ghost predicate Authorized(u: Unit, o: Seen) {
    var p := o.options;
    && u.open
    && (if p.goChap.Some? then o.shown.chapPeer
        else if p.goUpap then o.shown.upapPeer
        else p.authRequired ==> p.woUpap && p.nullLogin)
    && (if p.hoChap.Some? then o.shown.chapWithPeer else p.hoUpap ==> o.shown.upapWithPeer)
  }

  /** The same, bit by bit. */
  ghost predicate Met(u: Unit, o: Seen) {
    u.open && !o.refused() && Without(o.demanded(), o.shown) == NoBits
  }

  lemma AuthorizedIsMet(u: Unit, o: Seen)
    ensures Authorized(u, o) <==> Met(u, o)
  {
  }

  /** LCP comes up with a peer that refuses to authenticate itself though it must, on a unit whose
      die() returns, and nothing is demanded of either side. */
  predicate Backdoor(cfg: Config, e: Event) {
    && e.LcpUp? && cfg.passive
    && e.options.authRequired && e.options.goChap.None? && !e.options.goUpap
    && !(e.options.woUpap && e.options.nullLogin)
    && e.options.hoChap.None? && !e.options.hoUpap
  }

  /** The part of the invariant that does not speak of the phase. */
  ghost predicate Kept(u: Unit, o: Seen) {
    && o.since <= |u.log|
    && (u.open ==> !o.refused() && Without(Without(o.demanded(), u.pending), o.shown) == NoBits)
    && (u.open && o.demanded().chapPeer ==> Outstanding(u, o.since))
  }

  ghost predicate Guarded(u: Unit, o: Seen) {
    Kept(u, o) && (u.phase == Network ==> Met(u, o))
  }

  lemma LastDrawnSkips(log: seq<Action>, since: nat, a: Action)
    requires since <= |log|
    ensures LastDrawn((log + [a])[since..]) == if a.Drawn? then Some(a) else LastDrawn(log[since..])
  {
    var t := (log + [a])[since..];
    assert t == log[since..] + [a] && t[..|t| - 1] == log[since..];
  }

  /** An action other than a drawing leaves the challenge outstanding. */
  lemma LogKeepsOutstanding(u: Unit, v: Unit, a: Action, since: nat)
    requires v.log == u.log + [a] && !a.Drawn? && v.chalId == u.chalId && v.challenge == u.challenge
    requires since <= |u.log|
    ensures Outstanding(v, since) == Outstanding(u, since)
  {
    LastDrawnSkips(u.log, since, a);
  }

  lemma ChallengedIsOutstanding(u: Unit, drawn: Challenge, server: ServerState, since: nat)
    requires since <= |u.log|
    ensures Outstanding(Challenged(u, drawn, server), since)
  {
    var g := GenChallenge(u, drawn);
    LastDrawnSkips(u.log, since, Drawn(g.chalId, drawn));
    LogKeepsOutstanding(g, Challenged(u, drawn, server), SentChallenge(g.chalId, drawn), since);
  }

  lemma SucceededKeeps(u: Unit, bit: Bits, o: Seen)
    requires u.open && !o.refused() && o.since <= |u.log|
    requires Without(Without(o.demanded(), Without(u.pending, bit)), o.shown) == NoBits
    requires o.demanded().chapPeer ==> Outstanding(u, o.since)
    requires u.phase == Network ==> Without(o.demanded(), o.shown) == NoBits
    ensures Guarded(Succeeded(u, bit), o)
  {
    if Without(u.pending, bit) == NoBits {
      LogKeepsOutstanding(u, Succeeded(u, bit), IpcpOpened, o.since);
    }
  }

  lemma DieKeeps(u: Unit, cfg: Config, o: Seen)
    requires o.since <= |u.log| && (u.open || u.phase != Network)
    ensures Guarded(Die(u, cfg), o) && !Die(u, cfg).open
  {
  }

  lemma ProceedKeeps(u: Unit, o: Options, drawn: Challenge, since: nat)
    requires since <= |u.log| && u.open && u.server !in {SInitial, SPending} && !Refused(o)
    ensures Guarded(Proceed(u, o, drawn), Seen(since, o, NoBits))
  {
    var u1 := u.(phase := Authenticate);
    if o.goChap.Some? {
      ChallengedIsOutstanding(u1.(chalType := o.goChap.value), drawn, SInitialChal, since);
    }
  }

  lemma UpIsGuarded(u: Unit, cfg: Config, e: Event, o: Seen)
    requires e.LcpUp?
    ensures Kept(Step(u, cfg, e), Observe(o, u, cfg, e))
    ensures !Backdoor(cfg, e) ==> Guarded(Step(u, cfg, e), Observe(o, u, cfg, e))
    ensures Backdoor(cfg, e) ==>
      var v := Step(u, cfg, e); v.phase == Network && !v.open && !v.exited && |v.log| > |u.log| && v.log[|v.log| - 1] == IpcpOpened
  {
    var l := LowerUp(u.(open := true), e.drawn0);
    if !Refused(e.options) {
      ProceedKeeps(l, e.options, e.drawn, |u.log|);
    }
  }

  lemma ResponseKeepsGuarded(u: Unit, cfg: Config, o: Seen, p: Packet, bytes: seq<Byte>)
    requires Guarded(u, o) && u.open && ParseHeader(bytes) == Some(p) && p.code == CHAP_RESPONSE
    ensures Guarded(ReceiveResponse(u, cfg, p.id, p.body), Observe(o, u, cfg, Received(bytes)))
  {
    var r := Observe(o, u, cfg, Received(bytes));
    LogKeepsOutstanding(u, SendStatus(u, CHAP_SUCCESS), SentStatus(CHAP_SUCCESS, u.chalId), o.since);
    LogKeepsOutstanding(u, SendStatus(u, CHAP_FAILURE), SentStatus(CHAP_FAILURE, u.chalId), o.since);
    if u.server in {SOpen, SBadAuth, SClosed, SPending} || p.id != u.chalId || ParseData(p.body).None? {
    } else if !Correct(u, cfg, ParseData(p.body).value) {
      DieKeeps(SendStatus(u, CHAP_FAILURE).(server := SBadAuth), cfg, r);
    } else if u.server == SInitialChal {
      SucceededKeeps(SendStatus(u, CHAP_SUCCESS).(server := SOpen), CHAP_PEER, r);
    }
  }

  lemma PacketKeepsGuarded(u: Unit, cfg: Config, o: Seen, bytes: seq<Byte>)
    requires Guarded(u, o) && u.open
    ensures Guarded(Input(u, cfg, bytes), Observe(o, u, cfg, Received(bytes)))
  {
    var v, r := Input(u, cfg, bytes), Observe(o, u, cfg, Received(bytes));
    match ParseHeader(bytes)
    case None =>
    case Some(p) =>
      if p.code == CHAP_CHALLENGE {
        if |v.log| > |u.log| {
          LogKeepsOutstanding(u, v, v.log[|u.log|], o.since);
        }
      } else if p.code == CHAP_RESPONSE {
        ResponseKeepsGuarded(u, cfg, o, p, bytes);
      } else if p.code == CHAP_SUCCESS && u.client == CResponse {
        SucceededKeeps(u.(client := COpen), CHAP_WITHPEER, r);
      }
  }

  lemma TimerKeepsGuarded(u: Unit, cfg: Config, o: Seen, e: Event)
    requires Guarded(u, o) && (e.ChallengeTimer? || e.ResponseTimer? || e.RechallengeTimer?)
    ensures Guarded(Step(u, cfg, e), o)
  {
    match e
    case ChallengeTimer =>
      DieKeeps(u.(server := SBadAuth), cfg, o);
      LogKeepsOutstanding(u, SendChallenge(u), SentChallenge(u.chalId, u.challenge), o.since);
    case ResponseTimer => LogKeepsOutstanding(u, SendResponse(u), SentResponse(u.respId, u.response), o.since);
    case RechallengeTimer(drawn) => ChallengedIsOutstanding(u, drawn, SRechallenge, o.since);
  }

  lemma StepKeepsGuarded(u: Unit, cfg: Config, o: Seen, e: Event)
    requires Guarded(u, o) && Possible(u, e) && !Backdoor(cfg, e)
    ensures Guarded(Step(u, cfg, e), Observe(o, u, cfg, e))
  {
    match e
    case LcpUp(_, _, _) => UpIsGuarded(u, cfg, e, o);
    case LcpDown =>
    case LcpTerminated =>
    case Rejected => DieKeeps(u, cfg, o);
    case Received(bytes) => PacketKeepsGuarded(u, cfg, o, bytes);
    case UpapPeerSucceeded => SucceededKeeps(u, UPAP_PEER, Observe(o, u, cfg, e));
    case UpapWithPeerSucceeded => SucceededKeeps(u, UPAP_WITHPEER, Observe(o, u, cfg, e));
    case Ended => DieKeeps(u, cfg, o);
    case _ => TimerKeepsGuarded(u, cfg, o, e);
  }

  lemma {:induction false} RunIsGuarded(cfg: Config, u: Unit, es: seq<Event>)
    requires Initial(u) && Legal(cfg, u, es) && forall e | e in es :: !Backdoor(cfg, e)
    ensures var (v, o) := Run(cfg, u, es); Guarded(v, o)
  {
    if es != [] {
      var n := |es| - 1;
      assert forall e | e in es[..n] :: e in es;
      RunIsGuarded(cfg, u, es[..n]);
      var (v, o) := Run(cfg, u, es[..n]);
      StepKeepsGuarded(v, cfg, o, es[n]);
    }
  }

  /** What a step adds to the log. */
  function Added(u: Unit, v: Unit): seq<Action> {
    if |u.log| <= |v.log| then v.log[|u.log|..] else []
  }

  /** Nothing between `u` and `v` opened IPCP. */
  ghost predicate Silent(u: Unit, v: Unit) {
    |u.log| <= |v.log| && u.log == v.log[..|u.log|] && IpcpOpened !in v.log[|u.log|..]
  }

  lemma SilentThrough(u: Unit, v: Unit, w: Unit)
    requires Silent(u, v) && Silent(v, w)
    ensures Silent(u, w)
  {
    assert w.log[|u.log|..] == v.log[|u.log|..] + w.log[|v.log|..];
  }

  lemma ChallengedIsSilent(u: Unit, drawn: Challenge, server: ServerState)
    ensures Silent(u, Challenged(u, drawn, server))
  {
    var v := Challenged(u, drawn, server);
    assert v.log[|u.log|..] == [Drawn(v.chalId, drawn), SentChallenge(v.chalId, drawn)];
  }

  lemma OpenedByProceed(u: Unit, o: Options, drawn: Challenge)
    ensures Demanded(o) == NoBits || Silent(u, Proceed(u, o, drawn))
  {
    if o.goChap.Some? && u.server !in {SInitial, SPending} {
      ChallengedIsSilent(u.(chalType := o.goChap.value, phase := Authenticate), drawn, SInitialChal);
    }
  }

  lemma OpenedWhenUp(u: Unit, cfg: Config, o: Options, drawn0: Challenge, drawn: Challenge)
    ensures var v := LinkEstablished(LowerUp(u, drawn0), cfg, o, drawn); Silent(u, v) || v.phase == Network
  {
    var l := LowerUp(u, drawn0);
    if u.server == SPending {
      ChallengedIsSilent(u, drawn0, SInitialChal);
    }
    var d := if Refused(o) then Die(l, cfg) else l;
    assert Silent(l, d);
    SilentThrough(u, l, d);
    if !(Refused(o) && d.exited) && Demanded(o) != NoBits {
      OpenedByProceed(d, o, drawn);
      SilentThrough(u, d, Proceed(d, o, drawn));
    }
  }

  lemma OpenedByResponse(u: Unit, cfg: Config, id: Byte, body: seq<Byte>)
    ensures Silent(u, ReceiveResponse(u, cfg, id, body)) || ReceiveResponse(u, cfg, id, body).phase == Network
  {
    StatusIsSilent(u, CHAP_SUCCESS);
    var f := SendStatus(u, CHAP_FAILURE).(server := SBadAuth);
    StatusIsSilent(u, CHAP_FAILURE);
    DieIsSilent(f, cfg);
    SilentThrough(u, f, Die(f, cfg));
    SuccessIsSilent(SendStatus(u, CHAP_SUCCESS).(server := SOpen), CHAP_PEER);
  }

  lemma StatusIsSilent(u: Unit, code: int)
    ensures Silent(u, SendStatus(u, code))
  {
  }

  lemma DieIsSilent(u: Unit, cfg: Config)
    ensures Silent(u, Die(u, cfg))
  {
  }

  lemma SuccessIsSilent(u: Unit, bit: Bits)
    ensures Succeeded(u, bit).phase == Network || Succeeded(u, bit).log == u.log
  {
  }

  lemma OpenedByChallenge(u: Unit, cfg: Config, id: Byte, body: seq<Byte>)
    ensures Silent(u, ReceiveChallenge(u, cfg, id, body))
  {
  }

  lemma OpenedByPacket(u: Unit, cfg: Config, bytes: seq<Byte>)
    ensures Silent(u, Input(u, cfg, bytes)) || Input(u, cfg, bytes).phase == Network
  {
    match ParseHeader(bytes)
    case None =>
    case Some(p) =>
      if p.code == CHAP_CHALLENGE {
        OpenedByChallenge(u, cfg, p.id, p.body);
      } else if p.code == CHAP_RESPONSE {
        OpenedByResponse(u, cfg, p.id, p.body);
      }
  }

  /** IPCP is opened only by a step that leaves the network phase entered. */
  lemma OpeningEntersNetwork(u: Unit, cfg: Config, e: Event)
    requires IpcpOpened in Added(u, Step(u, cfg, e))
    ensures Step(u, cfg, e).phase == Network
  {
    match e
    case LcpUp(o, drawn0, drawn) => OpenedWhenUp(u.(open := true), cfg, o, drawn0, drawn);
    case Received(bytes) => OpenedByPacket(u, cfg, bytes);
    case _ =>
  }

  // ---------------------------------------------------------------- what authentication leads to

  /** With LCP up: what is pending is what was demanded and not shown, and when that is nothing, the
      phase is NETWORK. */
  ghost predicate Demands(u: Unit, o: Seen) {
    && !o.refused() && u.pending == Without(o.demanded(), o.shown)
    && (u.pending == NoBits ==> u.phase == Network)
    && (o.demanded().chapPeer ==> Outstanding(u, o.since))
  }

  /** A peer that is yet to show itself by CHAP has its first challenge outstanding. */
  ghost predicate Unshown(u: Unit, o: Seen) {
    o.demanded().chapPeer && !o.shown.chapPeer ==> u.server == SInitialChal
  }

  ghost predicate Due(u: Unit, o: Seen) {
    && o.since <= |u.log| && (u.server != SInitial ==> u.open)
    && (u.open ==> Demands(u, o) && Unshown(u, o))
  }

  /** IPCP is opened if everything that was pending is shown. */
  ghost predicate OpensWhenDone(u: Unit, v: Unit) {
    u.pending != NoBits && v.open && v.pending == NoBits ==> IpcpOpened in Added(u, v)
  }

  lemma SucceededIsDue(u: Unit, bit: Bits, o: Seen)
    requires u.open && Demands(u, o) && Unshown(u, o.(shown := With(o.shown, bit)))
    requires o.since <= |u.log|
    ensures Due(Succeeded(u, bit), o.(shown := With(o.shown, bit)))
    ensures OpensWhenDone(u, Succeeded(u, bit))
  {
    var v := Succeeded(u, bit);
    if v.pending == NoBits {
      LogKeepsOutstanding(u, v, IpcpOpened, o.since);
      assert Added(u, v) == [IpcpOpened];
    }
  }

  lemma DieIsDue(u: Unit, cfg: Config, o: Seen)
    requires o.since <= |u.log| && (u.server != SInitial ==> u.open)
    ensures Due(Die(u, cfg), o) && !Die(u, cfg).open
  {
  }

  lemma ProceedIsDue(u: Unit, o: Options, drawn: Challenge, since: nat)
    requires since <= |u.log| && u.open && u.server == SClosed && !Refused(o)
    ensures Due(Proceed(u, o, drawn), Seen(since, o, NoBits))
    ensures Demanded(o) == NoBits ==> Proceed(u, o, drawn).log == u.log + [IpcpOpened]
  {
    var u1 := u.(phase := Authenticate);
    if o.goChap.Some? {
      ChallengedIsOutstanding(u1.(chalType := o.goChap.value), drawn, SInitialChal, since);
    }
  }

  lemma UpIsDue(u: Unit, cfg: Config, o: Seen, e: Event)
    requires Due(u, o) && e.LcpUp? && !u.open
    ensures Due(Step(u, cfg, e), Observe(o, u, cfg, e))
    ensures Step(u, cfg, e).open && Step(u, cfg, e).pending == NoBits ==> IpcpOpened in Added(u, Step(u, cfg, e))
  {
    var l := LowerUp(u.(open := true), e.drawn0);
    assert l.log == u.log;
    if !Refused(e.options) {
      ProceedIsDue(l, e.options, e.drawn, |u.log|);
      if Demanded(e.options) == NoBits {
        assert Added(u, Step(u, cfg, e)) == [IpcpOpened];
      }
    }
  }

  lemma ResponseIsDue(u: Unit, cfg: Config, o: Seen, p: Packet, bytes: seq<Byte>)
    requires Due(u, o) && u.open && ParseHeader(bytes) == Some(p) && p.code == CHAP_RESPONSE
    ensures var v := ReceiveResponse(u, cfg, p.id, p.body);
      Due(v, Observe(o, u, cfg, Received(bytes))) && OpensWhenDone(u, v)
  {
    LogKeepsOutstanding(u, SendStatus(u, CHAP_SUCCESS), SentStatus(CHAP_SUCCESS, u.chalId), o.since);
    LogKeepsOutstanding(u, SendStatus(u, CHAP_FAILURE), SentStatus(CHAP_FAILURE, u.chalId), o.since);
    if u.server in {SOpen, SBadAuth, SClosed, SPending} || p.id != u.chalId || ParseData(p.body).None? {
    } else if !Correct(u, cfg, ParseData(p.body).value) {
      DieIsDue(SendStatus(u, CHAP_FAILURE).(server := SBadAuth), cfg, o);
    } else if u.server == SInitialChal {
      FirstResponseIsDue(u, o);
    }
  }

  /** The right answer to the first challenge. */
  lemma FirstResponseIsDue(u: Unit, o: Seen)
    requires Due(u, o) && u.open && u.server == SInitialChal
    ensures var v := Succeeded(SendStatus(u, CHAP_SUCCESS).(server := SOpen), CHAP_PEER);
      && Due(v, o.(shown := With(o.shown, CHAP_PEER))) && OpensWhenDone(u, v)
      && (!o.demanded().chapPeer ==> Due(v, o))
  {
    var s := SendStatus(u, CHAP_SUCCESS).(server := SOpen);
    LogKeepsOutstanding(u, s, SentStatus(CHAP_SUCCESS, u.chalId), o.since);
    SucceededIsDue(s, CHAP_PEER, o);
    var v := Succeeded(s, CHAP_PEER);
    if v.pending == NoBits {
      assert v.log[|v.log| - 1] == IpcpOpened;
    }
  }

  lemma ChallengeIsDue(u: Unit, cfg: Config, o: Seen, id: Byte, body: seq<Byte>)
    requires Due(u, o) && u.open
    ensures Due(ReceiveChallenge(u, cfg, id, body), o) && ReceiveChallenge(u, cfg, id, body).pending == u.pending
  {
    var v := ReceiveChallenge(u, cfg, id, body);
    if |v.log| > |u.log| {
      LogKeepsOutstanding(u, v, v.log[|u.log|], o.since);
    }
  }

  lemma SuccessIsDue(u: Unit, cfg: Config, o: Seen, bytes: seq<Byte>)
    requires Due(u, o) && u.open && ParseHeader(bytes).Some? && ParseHeader(bytes).value.code == CHAP_SUCCESS
    ensures Due(ReceiveSuccess(u), Observe(o, u, cfg, Received(bytes))) && OpensWhenDone(u, ReceiveSuccess(u))
  {
    if u.client == CResponse {
      SucceededIsDue(u.(client := COpen), CHAP_WITHPEER, o);
    }
  }

  lemma PacketIsDue(u: Unit, cfg: Config, o: Seen, bytes: seq<Byte>)
    requires Due(u, o) && u.open
    ensures Due(Input(u, cfg, bytes), Observe(o, u, cfg, Received(bytes))) && OpensWhenDone(u, Input(u, cfg, bytes))
  {
    var h := ParseHeader(bytes);
    if h.Some? {
      var p := h.value;
      if p.code == CHAP_CHALLENGE {
        ChallengeIsDue(u, cfg, o, p.id, p.body);
      } else if p.code == CHAP_RESPONSE {
        ResponseIsDue(u, cfg, o, p, bytes);
      } else if p.code == CHAP_SUCCESS {
        SuccessIsDue(u, cfg, o, bytes);
      }
    }
  }

  lemma TimerIsDue(u: Unit, cfg: Config, o: Seen, e: Event)
    requires Due(u, o) && (e.ChallengeTimer? || e.ResponseTimer? || e.RechallengeTimer?)
    ensures Due(Step(u, cfg, e), o) && (Step(u, cfg, e).open ==> u.open && Step(u, cfg, e).pending == u.pending)
  {
    match e
    case ChallengeTimer =>
      LogKeepsOutstanding(u, SendChallenge(u), SentChallenge(u.chalId, u.challenge), o.since);
    case ResponseTimer => LogKeepsOutstanding(u, SendResponse(u), SentResponse(u.respId, u.response), o.since);
    case RechallengeTimer(drawn) => ChallengedIsOutstanding(u, drawn, SRechallenge, o.since);
  }

  /** Every event keeps what is due, and the one that leaves nothing pending opens IPCP. */
  lemma StepIsDue(u: Unit, cfg: Config, o: Seen, e: Event)
    requires Due(u, o) && Possible(u, e)
    ensures Due(Step(u, cfg, e), Observe(o, u, cfg, e))
    ensures Step(u, cfg, e).open && Step(u, cfg, e).pending == NoBits && (!u.open || u.pending != NoBits) ==>
              IpcpOpened in Added(u, Step(u, cfg, e))
  {
    match e
    case LcpUp(_, _, _) => UpIsDue(u, cfg, o, e);
    case Received(bytes) => PacketIsDue(u, cfg, o, bytes);
    case UpapPeerSucceeded => SucceededIsDue(u, UPAP_PEER, o);
    case UpapWithPeerSucceeded => SucceededIsDue(u, UPAP_WITHPEER, o);
    case ChallengeTimer => TimerIsDue(u, cfg, o, e);
    case ResponseTimer => TimerIsDue(u, cfg, o, e);
    case RechallengeTimer(_) => TimerIsDue(u, cfg, o, e);
    case _ =>
  }

  lemma {:induction false} RunIsDue(cfg: Config, u: Unit, es: seq<Event>)
    requires Initial(u) && Legal(cfg, u, es)
    ensures Due(Run(cfg, u, es).0, Run(cfg, u, es).1)
  {
    if es != [] {
      var n := |es| - 1;
      RunIsDue(cfg, u, es[..n]);
      StepIsDue(Run(cfg, u, es[..n]).0, cfg, Run(cfg, u, es[..n]).1, es[n]);
    }
  }

  /** The last event authorized the unit. */
  ghost predicate NewlyAuthorized(cfg: Config, u: Unit, es: seq<Event>) {
    es != [] && var ((v, o), (w, q)) := (Run(cfg, u, es[..|es| - 1]), Run(cfg, u, es));
    Authorized(w, q) && !Authorized(v, o)
  }

  /** Over every run: whenever LCP is up, nothing was refused, and everything that was demanded when it came up
      was shown, the unit is in the network phase; and the event that made it so opened IPCP. */
  lemma AuthorizedEnters(cfg: Config, u: Unit, es: seq<Event>)
    requires Initial(u) && Legal(cfg, u, es)
    ensures Authorized(Run(cfg, u, es).0, Run(cfg, u, es).1) ==> Run(cfg, u, es).0.phase == Network
    ensures NewlyAuthorized(cfg, u, es) ==>
              IpcpOpened in Added(Run(cfg, u, es[..|es| - 1]).0, Run(cfg, u, es).0)
  {
    RunIsDue(cfg, u, es);
    AuthorizedIsMet(Run(cfg, u, es).0, Run(cfg, u, es).1);
    if es != [] {
      var n := |es| - 1;
      RunIsDue(cfg, u, es[..n]);
      AuthorizedIsMet(Run(cfg, u, es[..n]).0, Run(cfg, u, es[..n]).1);
      StepIsDue(Run(cfg, u, es[..n]).0, cfg, Run(cfg, u, es[..n]).1, es[n]);
    }
  }

  /** After these events the unit is in the network phase if and only if it is authorized; if the last of
      them opened IPCP it is authorized, and if the last of them authorized it, that one opened IPCP. */
  ghost predicate Duly(cfg: Config, u: Unit, es: seq<Event>) {
    var (v, o) := Run(cfg, u, es);
    && (v.phase == Network <==> Authorized(v, o))
    && (es != [] && IpcpOpened in Added(Run(cfg, u, es[..|es| - 1]).0, v) ==> Authorized(v, o))
    && (NewlyAuthorized(cfg, u, es) ==> IpcpOpened in Added(Run(cfg, u, es[..|es| - 1]).0, v))
  }

  /** Over every run: at every moment the unit is in the network phase exactly when LCP is up, everything
      is shown that was demanded when LCP came up (by a peer that had to use CHAP, a Response matching
      a challenge drawn since then), and the peer did not refuse what it had to do, and IPCP is opened
      when that comes about and never without, if and only if LCP never comes up through the back
      door. */
  lemma NetworkIffNoBackdoor(cfg: Config, u: Unit, es: seq<Event>)
    requires Initial(u) && Legal(cfg, u, es)
    ensures (forall n | 0 <= n <= |es| :: Duly(cfg, u, es[..n])) <==> (forall e | e in es :: !Backdoor(cfg, e))
  {
    if forall e | e in es :: !Backdoor(cfg, e) {
      forall n | 0 <= n <= |es| ensures Duly(cfg, u, es[..n]) {
        LegalPrefix(cfg, u, es, n);
        PrefixIsDuly(cfg, u, es[..n]);
      }
    } else {
      var n :| 0 <= n < |es| && Backdoor(cfg, es[n]);
      BackdoorIsUnduly(cfg, u, es, n);
    }
  }

  lemma BackdoorIsUnduly(cfg: Config, u: Unit, es: seq<Event>, n: nat)
    requires n < |es| && Backdoor(cfg, es[n])
    ensures !Duly(cfg, u, es[..n + 1])
  {
    var (v, o) := Run(cfg, u, es[..n]);
    assert es[..n + 1][..n] == es[..n];
    UpIsGuarded(v, cfg, es[n], o);
  }

  lemma {:induction false} LegalPrefix(cfg: Config, u: Unit, es: seq<Event>, n: nat)
    requires Legal(cfg, u, es) && n <= |es|
    ensures Legal(cfg, u, es[..n])
    decreases |es| - n
  {
    if n == |es| {
      assert es[..n] == es;
    } else {
      LegalPrefix(cfg, u, es, n + 1);
      assert es[..n + 1][..n] == es[..n];
    }
  }

  lemma PrefixIsDuly(cfg: Config, u: Unit, es: seq<Event>)
    requires Initial(u) && Legal(cfg, u, es) && forall e | e in es :: !Backdoor(cfg, e)
    ensures Duly(cfg, u, es)
  {
    RunIsGuarded(cfg, u, es);
    AuthorizedIsMet(Run(cfg, u, es).0, Run(cfg, u, es).1);
    AuthorizedEnters(cfg, u, es);
    if es != [] {
      var n := |es| - 1;
      var v := Run(cfg, u, es[..n]).0;
      if IpcpOpened in Added(v, Step(v, cfg, es[n])) {
        OpeningEntersNetwork(v, cfg, es[n]);
      }
    }
  }

  /** A peer that must authenticate itself negotiates neither protocol, the null login is refused, and
      we are asked for nothing: on a unit that waits for another connection, die() closes LCP and
      returns, and IPCP is opened all the same. */
  lemma RefusedPeerGetsIn(cfg: Config, u: Unit, c: Challenge, woUpap: bool)
    requires Initial(u) && cfg.passive
    ensures var e := LcpUp(Options(true, None, false, None, false, woUpap, false), c, c);
      && Legal(cfg, u, [e])
      && var (v, o) := Run(cfg, u, [e]);
         && v.phase == Network && !v.open && v.log == [Died, IpcpOpened]
         && !Authorized(v, o)
  {
    var e := LcpUp(Options(true, None, false, None, false, woUpap, false), c, c);
    RunAppends(cfg, u, [], e);
    assert [] + [e] == [e];
  }
}
