/** What an authenticator may count on of chap.c's replies (section 4.1 of RFC 1994): between two
    drawings of a challenge one answer only, and a bounded number of challenges. */
module ChapReplies {
  import opened CTypes
  import opened ChapSpec

  // ---------------------------------------------------------------- the log

  /** The code of the last status sent since the last challenge was drawn. */
  function LastStatus(log: seq<Action>): Option<int> {
    if log == [] then None
    else
      var a := log[|log| - 1];
      if a.Drawn? then None
      else if a.SentStatus? then Some(a.code)
      else LastStatus(log[..|log| - 1])
  }

  /** How many challenges were sent since the last was drawn. */
  function Transmits(log: seq<Action>): nat {
    if log == [] then 0
    else
      var a, before := log[|log| - 1], log[..|log| - 1];
      if a.Drawn? then 0 else Transmits(before) + if a.SentChallenge? then 1 else 0
  }

  /** Any two statuses with no drawing between them have the same code. */
  ghost predicate Uniform(log: seq<Action>) {
    forall i, j | 0 <= i < j < |log| && log[i].SentStatus? && log[j].SentStatus? &&
                  (forall k | i < k < j :: !log[k].Drawn?) ::
      log[i].code == log[j].code
  }

  /** At most `most` challenges were sent between two drawings. */
  ghost predicate Bounded(log: seq<Action>, most: nat) {
    forall n | 0 <= n <= |log| :: Transmits(log[..n]) <= most
  }

  lemma LastStatusSkips(log: seq<Action>, a: Action)
    ensures LastStatus(log + [a]) == if a.Drawn? then None else if a.SentStatus? then Some(a.code) else LastStatus(log)
    ensures Transmits(log + [a]) == if a.Drawn? then 0 else Transmits(log) + if a.SentChallenge? then 1 else 0
  {
    assert (log + [a])[..|log|] == log;
  }

  lemma {:induction false} LastStatusIs(log: seq<Action>, i: nat)
    requires i < |log| && log[i].SentStatus? && forall k | i < k < |log| :: !log[k].Drawn?
    ensures LastStatus(log).Some?
    ensures Uniform(log) ==> LastStatus(log) == Some(log[i].code)
    decreases |log| - i
  {
    var n := |log| - 1;
    if i < n {
      assert !log[n].Drawn?;
      if !log[n].SentStatus? {
        var before := log[..n];
        LastStatusIs(before, i);
        if Uniform(log) {
          forall a, b | 0 <= a < b < |before| && before[a].SentStatus? && before[b].SentStatus? &&
                        (forall k | a < k < b :: !before[k].Drawn?)
            ensures before[a].code == before[b].code
          {
            assert forall k | a < k < b :: log[k] == before[k];
            assert log[a].code == log[b].code;
          }
        }
      }
    }
  }

  /** Logging keeps the log uniform unless it is a status that contradicts the last. */
  lemma UniformWith(log: seq<Action>, a: Action)
    requires Uniform(log) && (a.SentStatus? ==> LastStatus(log) in {None, Some(a.code)})
    ensures Uniform(log + [a])
  {
    var t := log + [a];
    forall i, j | 0 <= i < j < |t| && t[i].SentStatus? && t[j].SentStatus? && (forall k | i < k < j :: !t[k].Drawn?)
      ensures t[i].code == t[j].code
    {
      if j == |log| {
        assert forall k | i < k < |log| :: t[k] == log[k];
        LastStatusIs(log, i);
      } else {
        assert forall k | i < k < j :: t[k] == log[k];
        assert log[i].code == log[j].code;
      }
    }
  }

  // ---------------------------------------------------------------- the invariant

  predicate Challenging(u: Unit) {
    u.server in {SInitialChal, SRechallenge}
  }

  /** How many challenges may be sent for one drawing: at least the first is. */
  function Most(cfg: Config): nat {
    if cfg.maxTransmits == 0 then 1 else cfg.maxTransmits
  }

  /** The part of the invariant that is about the log alone; `agreed` says whether its statuses are
      to be uniform. */
  ghost predicate Tidy(u: Unit, cfg: Config, agreed: bool) {
    (agreed ==> Uniform(u.log)) && Bounded(u.log, Most(cfg)) && u.chalTransmits == Transmits(u.log)
  }

  /** The server is active only while LCP is open, and its state tells what was last answered. */
  ghost predicate Orderly(u: Unit, cfg: Config, agreed: bool) {
    && Tidy(u, cfg, agreed)
    && u.server !in {SPending, SBadAuth}
    && (u.server != SInitial ==> u.open)
    && (Challenging(u) ==> LastStatus(u.log) == None)
    && (u.server == SOpen ==> LastStatus(u.log) in {None, Some(CHAP_SUCCESS)})
  }

  /** One more action, logged with its count kept. */
  lemma TidyWith(u: Unit, v: Unit, cfg: Config, agreed: bool, a: Action)
    requires Tidy(u, cfg, agreed) && v.log == u.log + [a]
    requires agreed && a.SentStatus? ==> LastStatus(u.log) in {None, Some(a.code)}
    requires a.SentChallenge? ==> u.chalTransmits < Most(cfg)
    requires v.chalTransmits == if a.Drawn? then 0 else u.chalTransmits + if a.SentChallenge? then 1 else 0
    ensures Tidy(v, cfg, agreed)
    ensures LastStatus(v.log) == if a.Drawn? then None else if a.SentStatus? then Some(a.code) else LastStatus(u.log)
  {
    if agreed {
      UniformWith(u.log, a);
    }
    LastStatusSkips(u.log, a);
    forall n | 0 <= n <= |v.log| ensures Transmits(v.log[..n]) <= Most(cfg) {
      if n <= |u.log| {
        assert v.log[..n] == u.log[..n];
      } else {
        assert v.log[..n] == v.log;
        assert u.log[..|u.log|] == u.log;
      }
    }
  }

  lemma ChallengedIsTidy(u: Unit, cfg: Config, agreed: bool, drawn: Challenge, server: ServerState)
    requires Tidy(u, cfg, agreed)
    ensures Tidy(Challenged(u, drawn, server), cfg, agreed) && LastStatus(Challenged(u, drawn, server).log) == None
  {
    var g := GenChallenge(u, drawn);
    TidyWith(u, g, cfg, agreed, Drawn(g.chalId, drawn));
    TidyWith(g, Challenged(u, drawn, server), cfg, agreed, SentChallenge(g.chalId, drawn));
  }

  lemma SucceededIsTidy(u: Unit, cfg: Config, agreed: bool, bit: Bits)
    requires Tidy(u, cfg, agreed)
    ensures Tidy(Succeeded(u, bit), cfg, agreed) && LastStatus(Succeeded(u, bit).log) == LastStatus(u.log)
  {
    if Without(u.pending, bit) == NoBits {
      TidyWith(u, Succeeded(u, bit), cfg, agreed, IpcpOpened);
    }
  }

  lemma DieIsOrderly(u: Unit, cfg: Config, agreed: bool)
    requires Tidy(u, cfg, agreed) && (u.open || u.server == SInitial)
    ensures Orderly(Die(u, cfg), cfg, agreed) && Die(u, cfg).server == SInitial
  {
    TidyWith(u, Die(u, cfg), cfg, agreed, Died);
  }

  lemma UpKeeps(u: Unit, cfg: Config, agreed: bool, e: Event)
    requires Orderly(u, cfg, agreed) && e.LcpUp? && !u.open
    ensures Orderly(Step(u, cfg, e), cfg, agreed)
  {
    var l := LowerUp(u.(open := true), e.drawn0);
    if Refused(e.options) {
      DieIsOrderly(l, cfg, agreed);
      if cfg.passive {
        ProceedKeeps(Die(l, cfg), cfg, agreed, e.options, e.drawn);
      }
    } else {
      ProceedKeeps(l, cfg, agreed, e.options, e.drawn);
    }
  }

  /** The rest of link_established: CHAP is started only with LCP open. */
  lemma ProceedKeeps(u: Unit, cfg: Config, agreed: bool, o: Options, drawn: Challenge)
    requires Orderly(u, cfg, agreed) && (o.goChap.Some? ==> u.server != SInitial)
    ensures Orderly(Proceed(u, o, drawn), cfg, agreed)
  {
    if o.goChap.Some? {
      ChallengedIsTidy(u.(phase := Authenticate, chalType := o.goChap.value), cfg, agreed, drawn, SInitialChal);
    }
    if Demanded(o) == NoBits {
      TidyWith(u, Proceed(u, o, drawn), cfg, agreed, IpcpOpened);
    }
  }

  /** The status that a Response's digest earns. */
  function Earned(u: Unit, cfg: Config, d: Data): int {
    if Correct(u, cfg, d) then CHAP_SUCCESS else CHAP_FAILURE
  }

  /** The server is as good as down though LCP is open, after a Protocol-Reject, but still holds a
      challenge that it has answered; now a Response to it earns the other answer. */
  predicate Contradicts(u: Unit, cfg: Config, id: Byte, body: seq<Byte>) {
    && u.server == SInitial && id == u.chalId
    && ParseData(body).Some? && LastStatus(u.log).Some?
    && Earned(u, cfg, ParseData(body).value) != LastStatus(u.log).value
  }

  predicate ContradictedBy(u: Unit, cfg: Config, e: Event) {
    e.Received? &&
    match ParseHeader(e.bytes)
    case None => false
    case Some(p) => p.code == CHAP_RESPONSE && Contradicts(u, cfg, p.id, p.body)
  }

  lemma AnswerKeeps(u: Unit, cfg: Config, agreed: bool, code: int)
    requires Tidy(u, cfg, agreed) && u.open && (agreed ==> LastStatus(u.log) in {None, Some(code)})
    ensures code == CHAP_SUCCESS ==>
              var s := SendStatus(u, code).(server := SOpen);
              Orderly(s, cfg, agreed) && Orderly(Succeeded(s, CHAP_PEER), cfg, agreed)
    ensures Orderly(Die(SendStatus(u, code).(server := SBadAuth), cfg), cfg, agreed)
  {
    var s, f := SendStatus(u, code).(server := SOpen), SendStatus(u, code).(server := SBadAuth);
    TidyWith(u, s, cfg, agreed, SentStatus(code, u.chalId));
    SucceededIsTidy(s, cfg, agreed, CHAP_PEER);
    DieIsOrderly(f, cfg, agreed);
  }

  lemma ResponseKeeps(u: Unit, cfg: Config, agreed: bool, id: Byte, body: seq<Byte>)
    requires Orderly(u, cfg, agreed) && u.open
    ensures Orderly(ReceiveResponse(u, cfg, id, body), cfg, agreed && !Contradicts(u, cfg, id, body))
  {
    if u.server == SClosed || id != u.chalId {
    } else if u.server == SOpen {
      TidyWith(u, SendStatus(u, CHAP_SUCCESS), cfg, agreed, SentStatus(CHAP_SUCCESS, u.chalId));
    } else if ParseData(body).Some? {
      if LastStatus(u.log).Some? {
        assert u.server == SInitial;
      }
      AnswerKeeps(u, cfg, agreed && !Contradicts(u, cfg, id, body), Earned(u, cfg, ParseData(body).value));
    }
  }

  lemma PacketKeeps(u: Unit, cfg: Config, agreed: bool, bytes: seq<Byte>)
    requires Orderly(u, cfg, agreed) && u.open
    ensures Orderly(Input(u, cfg, bytes), cfg, agreed && !ContradictedBy(u, cfg, Received(bytes)))
  {
    var v := Input(u, cfg, bytes);
    match ParseHeader(bytes)
    case None =>
    case Some(p) =>
      if p.code == CHAP_CHALLENGE {
        if v.log != u.log {
          TidyWith(u, v, cfg, agreed, SentResponse(v.respId, v.response));
        }
      } else if p.code == CHAP_RESPONSE {
        ResponseKeeps(u, cfg, agreed, p.id, p.body);
      } else if p.code == CHAP_SUCCESS && u.client == CResponse {
        SucceededIsTidy(u.(client := COpen), cfg, agreed, CHAP_WITHPEER);
      }
  }

  lemma TimeoutKeeps(u: Unit, cfg: Config, agreed: bool)
    requires Orderly(u, cfg, agreed)
    ensures Orderly(ChallengeTimeout(u, cfg), cfg, agreed)
  {
    if Challenging(u) {
      if u.chalTransmits >= cfg.maxTransmits {
        DieIsOrderly(u.(server := SBadAuth), cfg, agreed);
      } else {
        TidyWith(u, SendChallenge(u), cfg, agreed, SentChallenge(u.chalId, u.challenge));
      }
    }
  }

  lemma StepKeeps(u: Unit, cfg: Config, agreed: bool, e: Event)
    requires Orderly(u, cfg, agreed) && Possible(u, e)
    ensures Orderly(Step(u, cfg, e), cfg, agreed && !ContradictedBy(u, cfg, e))
  {
    match e
    case LcpUp(_, _, _) => UpKeeps(u, cfg, agreed, e);
    case LcpDown =>
    case LcpTerminated =>
    case Rejected => DieIsOrderly(u, cfg, agreed);
    case Received(bytes) => PacketKeeps(u, cfg, agreed, bytes);
    case ChallengeTimer => TimeoutKeeps(u, cfg, agreed);
    case ResponseTimer => TidyWith(u, SendResponse(u), cfg, agreed, SentResponse(u.respId, u.response));
    case RechallengeTimer(drawn) => ChallengedIsTidy(u, cfg, agreed, drawn, SRechallenge);
    case UpapPeerSucceeded => SucceededIsTidy(u, cfg, agreed, UPAP_PEER);
    case UpapWithPeerSucceeded => SucceededIsTidy(u, cfg, agreed, UPAP_WITHPEER);
    case Ended => DieIsOrderly(u, cfg, agreed);
  }

  // ---------------------------------------------------------------- every run

  /** No event of the run is a Response that contradicts the answer given before. */
  ghost predicate Agreeing(cfg: Config, u: Unit, es: seq<Event>) {
    es == [] ||
    var n := |es| - 1;
    Agreeing(cfg, u, es[..n]) && !ContradictedBy(Run(cfg, u, es[..n]).0, cfg, es[n])
  }

  lemma {:induction false} RunIsOrderly(cfg: Config, u: Unit, es: seq<Event>)
    requires Initial(u) && Legal(cfg, u, es)
    ensures Orderly(Run(cfg, u, es).0, cfg, Agreeing(cfg, u, es))
  {
    if es == [] {
      assert u.log[..0] == [];
    } else {
      var n := |es| - 1;
      RunIsOrderly(cfg, u, es[..n]);
      StepKeeps(Run(cfg, u, es[..n]).0, cfg, Agreeing(cfg, u, es[..n]), es[n]);
    }
  }

  /** The log only grows. */
  ghost predicate Grows(u: Unit, v: Unit) {
    |u.log| <= |v.log| && v.log[..|u.log|] == u.log
  }

  lemma GrowsThrough(u: Unit, v: Unit, w: Unit)
    requires Grows(u, v) && Grows(v, w)
    ensures Grows(u, w)
  {
    assert w.log[..|v.log|][..|u.log|] == w.log[..|u.log|];
  }

  lemma UpGrows(u: Unit, cfg: Config, e: Event)
    requires e.LcpUp?
    ensures Grows(u, Step(u, cfg, e))
  {
    var l := LowerUp(u.(open := true), e.drawn0);
    assert Grows(u, l);
    var d := if Refused(e.options) then Die(l, cfg) else l;
    assert Grows(l, d);
    GrowsThrough(u, l, d);
    ProceedGrows(d, e.options, e.drawn);
    GrowsThrough(u, d, Proceed(d, e.options, e.drawn));
  }

  lemma ProceedGrows(u: Unit, o: Options, drawn: Challenge)
    ensures Grows(u, Proceed(u, o, drawn))
  {
  }

  lemma PacketGrows(u: Unit, cfg: Config, bytes: seq<Byte>)
    ensures Grows(u, Input(u, cfg, bytes))
  {
    match ParseHeader(bytes)
    case None =>
    case Some(p) =>
      if p.code == CHAP_RESPONSE {
        ResponseGrows(u, cfg, p.id, p.body);
      }
  }

  lemma ResponseGrows(u: Unit, cfg: Config, id: Byte, body: seq<Byte>)
    ensures Grows(u, ReceiveResponse(u, cfg, id, body))
  {
    var s, f := SendStatus(u, CHAP_SUCCESS).(server := SOpen), SendStatus(u, CHAP_FAILURE).(server := SBadAuth);
    assert Grows(u, s) && Grows(u, f);
    assert Grows(s, Succeeded(s, CHAP_PEER)) && Grows(f, Die(f, cfg));
    GrowsThrough(u, s, Succeeded(s, CHAP_PEER));
    GrowsThrough(u, f, Die(f, cfg));
  }

  lemma StepGrows(u: Unit, cfg: Config, e: Event)
    ensures Grows(u, Step(u, cfg, e))
  {
    match e
    case LcpUp(_, _, _) => UpGrows(u, cfg, e);
    case Received(bytes) => PacketGrows(u, cfg, bytes);
    case _ =>
  }

  lemma UniformPrefix(log: seq<Action>, n: nat)
    requires Uniform(log) && n <= |log|
    ensures Uniform(log[..n])
  {
    var t := log[..n];
    forall i, j | 0 <= i < j < |t| && t[i].SentStatus? && t[j].SentStatus? && (forall k | i < k < j :: !t[k].Drawn?)
      ensures t[i].code == t[j].code
    {
      assert forall k | i < k < j :: log[k] == t[k];
      assert log[i].code == log[j].code;
    }
  }

  /** A contradicting Response spoils the log at once. */
  lemma ContradictionShows(u: Unit, cfg: Config, e: Event)
    requires ContradictedBy(u, cfg, e)
    ensures !Uniform(Step(u, cfg, e).log)
  {
    var p := ParseHeader(e.bytes).value;
    var d, v := ParseData(p.body).value, Step(u, cfg, e);
    var i := StatusAt(u.log);
    var n := |u.log|;
    ResponseGrows(u, cfg, p.id, p.body);
    assert v.log[..n] == u.log && v.log[n] == SentStatus(Earned(u, cfg, d), u.chalId);
    assert forall k | 0 <= k < n :: v.log[k] == v.log[..n][k];
    assert v.log[i].SentStatus? && v.log[n].SentStatus? && v.log[i].code != v.log[n].code;
  }

  lemma {:induction false} StatusAt(log: seq<Action>) returns (i: nat)
    requires LastStatus(log).Some?
    ensures i < |log| && log[i].SentStatus? && log[i].code == LastStatus(log).value
    ensures forall k | i < k < |log| :: !log[k].Drawn?
  {
    var n := |log| - 1;
    if log[n].SentStatus? {
      i := n;
    } else {
      i := StatusAt(log[..n]);
      assert forall k | i < k < n :: log[k] == log[..n][k];
    }
  }

  lemma {:induction false} DisagreementShows(cfg: Config, u: Unit, es: seq<Event>)
    requires !Agreeing(cfg, u, es)
    ensures !Uniform(Run(cfg, u, es).0.log)
  {
    var n := |es| - 1;
    var v := Run(cfg, u, es[..n]).0;
    var w := Step(v, cfg, es[n]);
    if ContradictedBy(v, cfg, es[n]) {
      ContradictionShows(v, cfg, es[n]);
    } else {
      DisagreementShows(cfg, u, es[..n]);
      StepGrows(v, cfg, es[n]);
      if Uniform(w.log) {
        UniformPrefix(w.log, |v.log|);
      }
    }
  }

  /** Over every run: all statuses sent between two drawings of a challenge carry one code if and only
      if no Response to a challenge already answered comes, after a Protocol-Reject, with a digest that
      earns the other answer; and at most max_transmits challenges are sent between two drawings. */
  lemma UniformIffAgreeing(cfg: Config, u: Unit, es: seq<Event>)
    requires Initial(u) && Legal(cfg, u, es)
    ensures Uniform(Run(cfg, u, es).0.log) <==> Agreeing(cfg, u, es)
    ensures Bounded(Run(cfg, u, es).0.log, Most(cfg))
  {
    RunIsOrderly(cfg, u, es);
    if !Agreeing(cfg, u, es) {
      DisagreementShows(cfg, u, es);
    }
  }

  // ---------------------------------------------------------------- such a run

  /** A Response with this digest and no name, as bytes. */
  function ResponseBytes(id: Byte, digest: Digest): seq<Byte> {
    [CHAP_RESPONSE, id, 0, 21, MD5_SIGNATURE_SIZE] + digest
  }

  lemma ResponseParses(id: Byte, digest: Digest)
    ensures var b: seq<Byte> := [MD5_SIGNATURE_SIZE] + digest;
      ParseHeader(ResponseBytes(id, digest)) == Some(Packet(CHAP_RESPONSE, id, b)) && ParseData(b) == Some(Data(digest, []))
  {
    var b: seq<Byte> := [MD5_SIGNATURE_SIZE] + digest;
    var r := ResponseBytes(id, digest);
    assert r[CHAP_HEADERLEN..21] == b;
    assert b[1..17] == digest && b[17..] == [];
  }

  /** LCP comes up and the peer answers its challenge. */
  lemma Answered(cfg: Config, u: Unit, c: Challenge, right: Digest)
    requires Initial(u) && cfg.secretOf([]).Some?
    requires right == cfg.digest((u.id + 1) % 256, cfg.secretOf([]).value, c)
    ensures var id: Byte := (u.id + 1) % 256;
      var es := [LcpUp(Options(false, Some(CHAP_DIGEST_MD5), false, None, false, false, false), c, c), Received(ResponseBytes(id, right))];
      && Legal(cfg, u, es)
      && var v := Run(cfg, u, es).0;
         && v.open && !v.exited && v.server == SOpen && v.chalId == id && v.challenge == c && v.chalType == CHAP_DIGEST_MD5
         && LastStatus(v.log) == Some(CHAP_SUCCESS)
  {
    var id: Byte := (u.id + 1) % 256;
    var e0 := LcpUp(Options(false, Some(CHAP_DIGEST_MD5), false, None, false, false, false), c, c);
    var e1 := Received(ResponseBytes(id, right));
    ResponseParses(id, right);
    var u1 := Step(u, cfg, e0);
    assert u1.server == SInitialChal && u1.chalId == id && u1.challenge == c && u1.open && !u1.exited;
    RunAppends(cfg, u, [], e0);
    RunAppends(cfg, u, [e0], e1);
    assert [] + [e0] == [e0] && [e0] + [e1] == [e0, e1];
    LastStatusSkips(u1.log, SentStatus(CHAP_SUCCESS, id));
    LastStatusSkips(u1.log + [SentStatus(CHAP_SUCCESS, id)], IpcpOpened);
  }

  /** LCP goes down and comes up with nothing demanded, and the peer rejects CHAP. */
  lemma Forgotten(cfg: Config, v: Unit, c: Challenge)
    requires v.open && !v.exited && v.server == SOpen && LastStatus(v.log) == Some(CHAP_SUCCESS)
    ensures var e := LcpUp(Options(false, None, false, None, false, false, false), c, c);
      var (a, b) := (Step(v, cfg, LcpDown), Step(Step(v, cfg, LcpDown), cfg, e));
      && Possible(v, LcpDown) && Possible(a, e) && Possible(b, Rejected)
      && var w := Step(b, cfg, Rejected);
         && w.open && !w.exited && w.server == SInitial && LastStatus(w.log) == Some(CHAP_SUCCESS)
         && w.chalId == v.chalId && w.challenge == v.challenge && w.chalType == v.chalType
  {
    LastStatusSkips(v.log, IpcpOpened);
  }

  /** The peer answers its challenge; LCP goes down and comes up again with nothing demanded; the peer
      rejects CHAP; and a wrong Response to the old challenge is answered with Failure. */
  lemma RejectionForgets(cfg: Config, u: Unit, c: Challenge, right: Digest, wrong: Digest) returns (es: seq<Event>)
    requires Initial(u) && cfg.secretOf([]).Some?
    requires right == cfg.digest((u.id + 1) % 256, cfg.secretOf([]).value, c) && wrong != right
    ensures Legal(cfg, u, es) && |es| == 6 && es[4] == Rejected && es[5] == Received(ResponseBytes((u.id + 1) % 256, wrong))
    ensures !Agreeing(cfg, u, es) && !Uniform(Run(cfg, u, es).0.log)
  {
    var id: Byte := (u.id + 1) % 256;
    var e0 := LcpUp(Options(false, Some(CHAP_DIGEST_MD5), false, None, false, false, false), c, c);
    var e1, e3 := Received(ResponseBytes(id, right)), LcpUp(Options(false, None, false, None, false, false, false), c, c);
    var e5 := Received(ResponseBytes(id, wrong));
    var es2 := [e0, e1];
    Answered(cfg, u, c, right);
    Forgotten(cfg, Run(cfg, u, es2).0, c);
    RunAppends(cfg, u, es2, LcpDown);
    RunAppends(cfg, u, es2 + [LcpDown], e3);
    RunAppends(cfg, u, es2 + [LcpDown] + [e3], Rejected);
    var es5 := es2 + [LcpDown] + [e3] + [Rejected];
    ResponseParses(id, wrong);
    RunAppends(cfg, u, es5, e5);
    assert ContradictedBy(Run(cfg, u, es5).0, cfg, e5);
    es := es5 + [e5];
    assert es[..5] == es5;
    DisagreementShows(cfg, u, es);
  }

  // ---------------------------------------------------------------- giving up

  function Timeouts(u: Unit, cfg: Config, n: nat): Unit {
    if n == 0 then u else ChallengeTimeout(Timeouts(u, cfg, n - 1), cfg)
  }

  /** Left unanswered, a challenge is sent again at each timeout until it was sent max_transmits
      times; the next timeout fails the peer, which takes LCP down, and the rest do nothing. */
  lemma {:induction false} Unanswered(u: Unit, cfg: Config, n: nat)
    requires Challenging(u) && u.open && u.chalTransmits <= cfg.maxTransmits
    ensures var left, v, sent := cfg.maxTransmits - u.chalTransmits, Timeouts(u, cfg, n), SentChallenge(u.chalId, u.challenge);
      && (n <= left ==>
            v == u.(chalTransmits := u.chalTransmits + n, log := u.log + seq(n, _ => sent)))
      && (n > left ==>
            && v.server == SInitial && v.client == CInitial && v.phase == Terminate && !v.open
            && v.exited == !cfg.passive && v.log == u.log + seq(left, _ => sent) + [Died])
  {
    var left, sent := cfg.maxTransmits - u.chalTransmits, SentChallenge(u.chalId, u.challenge);
    if n > 0 {
      Unanswered(u, cfg, n - 1);
      if n <= left {
        assert seq(n, _ => sent) == seq(n - 1, _ => sent) + [sent];
      } else if n == left + 1 {
        assert seq(n - 1, _ => sent) == seq(left, _ => sent);
      }
    }
  }
}
