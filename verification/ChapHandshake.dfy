/** The packets that chap.c sends, and two of its units that send them to each other. */
module ChapHandshake {
  import opened CTypes
  import opened ChapSpec

  /** A Challenge or Response (section 4.1 of RFC 1994) as ChapSendChallenge and ChapSendResponse
      lay it out: code, id, length, a counted value and a name. */
  function ValuePacket(code: Byte, id: Byte, value: seq<Byte>, name: seq<Byte>): seq<Byte>
    requires |value| <= 255 && |name| <= 255
  {
    var len := CHAP_HEADERLEN + 1 + |value| + |name|;
    [code, id, len / 256, len % 256, |value|] + value + name
  }

  /** A Success or Failure (section 4.2), as ChapSendStatus lays it out. */
  function StatusPacket(code: Byte, id: Byte, message: seq<Byte>): seq<Byte>
    requires |message| <= 255
  {
    var len := CHAP_HEADERLEN + |message|;
    [code, id, len / 256, len % 256] + message
  }

  /** What was sent is what is read, whatever follows the packet in its frame. */
  lemma ValueIsRead(code: Byte, id: Byte, value: seq<Byte>, name: seq<Byte>, pad: seq<Byte>)
    requires 0 < |value| <= 255 && |name| <= 255
    ensures var p := ParseHeader(ValuePacket(code, id, value, name) + pad);
      p.Some? && p.value.code == code && p.value.id == id && ParseData(p.value.body) == Some(Data(value, name))
  {
    var bytes := ValuePacket(code, id, value, name) + pad;
    var len := CHAP_HEADERLEN + 1 + |value| + |name|;
    assert 256 * (len / 256) + len % 256 == len;
    var body := bytes[CHAP_HEADERLEN..len];
    assert body == [|value|] + value + name;
    assert body[1..1 + |value|] == value && body[1 + |value|..] == name;
  }

  lemma StatusIsRead(code: Byte, id: Byte, message: seq<Byte>, pad: seq<Byte>)
    requires |message| <= 255
    ensures ParseHeader(StatusPacket(code, id, message) + pad) == Some(Packet(code, id, message))
  {
    var bytes := StatusPacket(code, id, message) + pad;
    var len := CHAP_HEADERLEN + |message|;
    assert 256 * (len / 256) + len % 256 == len;
    assert bytes[CHAP_HEADERLEN..len] == message;
  }

  /** A unit that can answer a challenge: LCP has brought CHAP up, with MD5 for us if at all. */
  predicate Answering(u: Unit) {
    u.client !in {CClosed, CPending} && u.respType == CHAP_DIGEST_MD5
  }

  /** The secret we share with the sender, or none. */
  function SecretFor(cfg: Config, name: seq<Byte>): seq<Byte> {
    if cfg.secretFor(name).Some? then cfg.secretFor(name).value else []
  }

  /** Any challenge that arrives is answered with its own id and the digest of it, and a Success for
      that answer ends our side. */
  lemma ChallengeIsAnswered(u: Unit, cfg: Config, id: Byte, value: seq<Byte>, name: seq<Byte>, pad: seq<Byte>,
                            message: seq<Byte>)
    requires Answering(u) && 0 < |value| <= 255 && |name| <= 255 && |message| <= 255
    ensures var v := Input(u, cfg, ValuePacket(1, id, value, name) + pad);
      var digest := cfg.digest(id, SecretFor(cfg, name), value);
      && v.log == u.log + [SentResponse(id, digest)] && v.client == CResponse
      && v == u.(client := CResponse, respId := id, respTransmits := 1, response := digest, log := v.log)
      && ResponseTimeout(v).log == v.log + [SentResponse(id, digest)]
      && var w := Input(v, cfg, StatusPacket(3, id, message) + pad);
         && w.client == COpen && w.pending == u.pending.(chapWithPeer := false)
         && (w.pending == NoBits ==> w.phase == Network && w.log == v.log + [IpcpOpened])
  {
    ValueIsRead(1, id, value, name, pad);
    StatusIsRead(3, id, message, pad);
  }

  /** The value of a Response proves the secret: it is the digest of the id and challenge that the
      authenticator holds, with the secret it has for the name. */
  predicate Matching(u: Unit, cfg: Config, value: seq<Byte>, name: seq<Byte>) {
    && u.chalType == CHAP_DIGEST_MD5 && cfg.secretOf(name).Some?
    && value == cfg.digest(u.chalId, cfg.secretOf(name).value, u.challenge)
  }

  /** The first Response to the challenge outstanding: it is accepted if and only if its value
      matches, with a Success; otherwise with a Failure, the peer is failed and LCP closed. One with
      another id is ignored. */
  lemma ResponseIsJudged(u: Unit, cfg: Config, id: Byte, value: seq<Byte>, name: seq<Byte>, pad: seq<Byte>)
    requires u.server in {SInitialChal, SRechallenge} && u.open && 0 < |value| <= 255 && |name| <= 255
    ensures var v := Input(u, cfg, ValuePacket(2, id, value, name) + pad);
      && (id != u.chalId ==> v == u)
      && (id == u.chalId && Matching(u, cfg, value, name) ==>
            && v.server == SOpen && v.open && u.log + [SentStatus(3, id)] <= v.log
            && v.pending == (if u.server == SInitialChal then u.pending.(chapPeer := false) else u.pending)
            && (u.server == SInitialChal && v.pending == NoBits ==>
                  v.phase == Network && v.log == u.log + [SentStatus(3, id)] + [IpcpOpened]))
      && (id == u.chalId && !Matching(u, cfg, value, name) ==>
            && v.log == u.log + [SentStatus(4, id), Died] && !v.open && v.server == SInitial
            && v.client == CInitial && v.phase == Terminate && v.exited == !cfg.passive)
  {
    ValueIsRead(2, id, value, name, pad);
  }

  /** A Response to a challenge that was answered rightly is answered with Success once more, whatever
      its value, and nothing else happens. */
  lemma AnsweredAgain(u: Unit, cfg: Config, id: Byte, value: seq<Byte>, name: seq<Byte>, pad: seq<Byte>)
    requires u.server == SOpen && 0 < |value| <= 255 && |name| <= 255
    ensures Input(u, cfg, ValuePacket(2, id, value, name) + pad)
         == if id == u.chalId then u.(log := u.log + [SentStatus(3, id)]) else u
  {
    ValueIsRead(2, id, value, name, pad);
  }

  /** An authenticated peer is sent a new challenge under the next id, and nothing else changes. */
  lemma RechallengeAsks(u: Unit, cfg: Config, drawn: Challenge)
    requires u.server == SOpen
    ensures var v, id := Step(u, cfg, RechallengeTimer(drawn)), (u.id + 1) % 256;
      && v.log == u.log + [Drawn(id, drawn), SentChallenge(id, drawn)]
      && v == u.(server := SRechallenge, challenge := drawn, chalId := id, id := id, chalTransmits := 1, log := v.log)
  {
    var id := (u.id + 1) % 256;
    assert u.log + [Drawn(id, drawn)] + [SentChallenge(id, drawn)]
        == u.log + [Drawn(id, drawn), SentChallenge(id, drawn)];
  }

  /** A peer that rejects CHAP while a challenge of ours is outstanding, or after it answered one, has
      failed: LCP is closed, and the process ends unless the unit waits for another connection. One
      that was asked nothing loses only its state. */
  lemma RejectionFails(u: Unit, cfg: Config)
    requires u.open && u.server !in {SPending, SBadAuth}
    ensures var v := Step(u, cfg, Rejected);
      && v.client == CInitial && v.server == SInitial
      && (if u.server in {SInitial, SClosed} then v.open && v.log == u.log && v.phase == u.phase
          else !v.open && v.log == u.log + [Died] && v.phase == Terminate && v.exited == !cfg.passive)
  {
  }

  /** As long as neither side was asked for CHAP, every CHAP packet is ignored. */
  lemma UnaskedIsSilent(u: Unit, cfg: Config, o: Options, drawn0: Challenge, drawn: Challenge, bytes: seq<Byte>)
    requires u.client == CInitial && u.server == SInitial && o.goChap.None? && o.hoChap.None? && !o.authRequired
    ensures var v := Step(u, cfg, LcpUp(o, drawn0, drawn)); Input(v, cfg, bytes) == v
  {
    var v := Step(u, cfg, LcpUp(o, drawn0, drawn));
    assert v.client == CClosed && v.server == SClosed;
  }

  /** LCP settled on CHAP with MD5 for the peer to show itself, and on nothing for us. */
  predicate AsksForChap(o: Options) {
    o.goChap == Some(CHAP_DIGEST_MD5) && o.hoChap.None? && !o.hoUpap
  }

  /** LCP settled on CHAP with MD5 for us, and on nothing for the peer, which need not show itself. */
  predicate OffersChap(o: Options) {
    o.hoChap == Some(CHAP_DIGEST_MD5) && o.goChap.None? && !o.goUpap && !o.authRequired
  }

  /** As LCP comes up, the one that asks draws a challenge under the next id and sends it. */
  lemma UpChallenges(a: Unit, cfg: Config, o: Options, drawn0: Challenge, drawn: Challenge)
    requires AsksForChap(o) && a.server == SInitial
    ensures var v, id := Step(a, cfg, LcpUp(o, drawn0, drawn)), (a.id + 1) % 256;
      && v.log == a.log + [Drawn(id, drawn), SentChallenge(id, drawn)]
      && v.open && v.server == SInitialChal && v.chalType == CHAP_DIGEST_MD5 && v.chalId == id
      && v.challenge == drawn && v.chalTransmits == 1 && v.phase == Authenticate && v.pending == CHAP_PEER
  {
    var log := a.log + [Drawn((a.id + 1) % 256, drawn)] + [SentChallenge((a.id + 1) % 256, drawn)];
    assert log == a.log + [Drawn((a.id + 1) % 256, drawn), SentChallenge((a.id + 1) % 256, drawn)];
  }

  lemma UpListens(b: Unit, cfg: Config, o: Options, drawn0: Challenge, drawn: Challenge)
    requires OffersChap(o) && b.server == SInitial
    ensures var v := Step(b, cfg, LcpUp(o, drawn0, drawn));
      && Answering(v) && v.open && v.client == CListen && v.phase == Authenticate && v.pending == CHAP_WITHPEER
      && v.log == b.log
  {
  }

  /** The first exchange between two units of this code, one to be authenticated by the other and by
      nothing else: the challenge that `a` sent, the Response that `b` then sends, and the Status that
      answers it. If the digests made with their secrets agree, both enter the network phase and
      open IPCP; otherwise `a` sends Failure and closes LCP. */
  lemma Handshake(a: Unit, cfgA: Config, aName: seq<Byte>, b: Unit, cfgB: Config, bName: seq<Byte>,
                  message: seq<Byte>)
    requires a.server == SInitialChal && a.open && a.chalType == CHAP_DIGEST_MD5 && a.pending == CHAP_PEER
    requires Answering(b) && b.pending == CHAP_WITHPEER
    requires 0 < |a.challenge| <= 255 && |aName| <= 255 && |bName| <= 255 && |message| <= 255
    ensures var b1 := Input(b, cfgB, ValuePacket(1, a.chalId, a.challenge, aName));
      && |b1.response| == 16
      && var a1 := Input(a, cfgA, ValuePacket(2, b1.respId, b1.response, bName));
         var b2 := Input(b1, cfgB, StatusPacket(3, a.chalId, message));
         if Agreeing(a, cfgA, aName, cfgB, bName) then
           && a1.phase == Network && a1.log == a.log + [SentStatus(3, a.chalId)] + [IpcpOpened]
           && b2.phase == Network && b2.log == b1.log + [IpcpOpened]
         else
           a1.log == a.log + [SentStatus(4, a.chalId), Died] && !a1.open
  {
    ChallengeIsAnswered(b, cfgB, a.chalId, a.challenge, aName, [], message);
    var c := ValuePacket(1, a.chalId, a.challenge, aName);
    assert c + [] == c;
    var b1 := Input(b, cfgB, c);
    ResponseIsJudged(a, cfgA, b1.respId, b1.response, bName, []);
    var r, s := ValuePacket(2, b1.respId, b1.response, bName), StatusPacket(3, a.chalId, message);
    assert r + [] == r && s + [] == s;
  }

  /** The secrets that the two hold for each other's names give the same digest of the challenge. */
  predicate Agreeing(a: Unit, cfgA: Config, aName: seq<Byte>, cfgB: Config, bName: seq<Byte>) {
    cfgA.secretOf(bName).Some? &&
    cfgA.digest(a.chalId, cfgA.secretOf(bName).value, a.challenge)
    == cfgB.digest(a.chalId, SecretFor(cfgB, aName), a.challenge)
  }
}
