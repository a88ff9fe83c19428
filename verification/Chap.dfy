/** chap.c and auth.c themselves: one unit, its fields assigned step by step. */
module Chap {
  import opened CTypes
  import S = ChapSpec
  import R = ChapReplies

  class Ppp {
    const cfg: S.Config
    /** lcp_fsm.state is OPENED, and die() has ended the process. */
    var open: bool
    var exited: bool
    var clientstate: S.ClientState
    var serverstate: S.ServerState
    var challenge: seq<Byte>
    var chalId: Byte
    var chalType: int
    var id: Byte
    var chalTransmits: nat
    var respId: Byte
    var respType: int
    var respTransmits: nat
    var response: seq<Byte>
    var phase: S.Phase
    var authPending: S.Bits
    /** What was sent, opened and ended, in order. */
    var log: seq<S.Action>

    function Unit(): S.Unit
      reads this
    {
      S.Unit(open, exited, clientstate, serverstate, challenge, chalId, chalType, id, chalTransmits,
             respId, respType, respTransmits, response, phase, authPending, log)
    }

    constructor (cfg0: S.Config)
      ensures S.Initial(Unit()) && cfg == cfg0
    {
      cfg := cfg0;
      open, exited := false, false;
      clientstate, serverstate := S.CInitial, S.SInitial;
      challenge, chalId, chalType, id, chalTransmits := [], 0, 0, 0, 0;
      respId, respType, respTransmits, response := 0, 0, 0, [];
      phase, authPending, log := S.Dead, S.NoBits, [];
    }

    method GenChallenge(drawn: S.Challenge)
      modifies this
      ensures Unit() == S.GenChallenge(old(Unit()), drawn)
    {
      id := (id + 1) % 256;
      chalId := id;
      chalTransmits := 0;
      challenge := drawn;
      log := log + [S.Drawn(id, drawn)];
    }

    method SendChallenge()
      modifies this
      ensures Unit() == S.SendChallenge(old(Unit()))
    {
      log := log + [S.SentChallenge(chalId, challenge)];
      chalTransmits := chalTransmits + 1;
    }

    method SendStatus(code: int)
      modifies this
      ensures Unit() == S.SendStatus(old(Unit()), code)
    {
      log := log + [S.SentStatus(code, chalId)];
    }

    method SendResponse()
      modifies this
      ensures Unit() == S.SendResponse(old(Unit()))
    {
      log := log + [S.SentResponse(respId, response)];
      clientstate := S.CResponse;
      respTransmits := respTransmits + 1;
    }

    /** lcp_down */
    method LcpDown()
      modifies this
      ensures Unit() == S.LcpDowned(old(Unit()))
    {
      ChapLowerDown();
      phase := S.Terminate;
      open := false;
    }

    /** die(), which is all that auth_peer_fail calls. */
    method Die()
      modifies this
      ensures Unit() == S.Die(old(Unit()), cfg)
    {
      log := log + [S.Died];
      if open {
        LcpDown();
      }
      exited := !cfg.passive;
    }

    /** auth_peer_success and auth_withpeer_success */
    method AuthSuccess(bit: S.Bits)
      modifies this
      ensures Unit() == S.Succeeded(old(Unit()), bit)
    {
      authPending := S.Without(authPending, bit);
      if authPending == S.NoBits {
        phase := S.Network;
        log := log + [S.IpcpOpened];
      }
    }

    method ChapAuthWithPeer(digest: int)
      modifies this
      ensures Unit() == S.AuthWithPeer(old(Unit()), digest)
    {
      respType := digest;
      if clientstate == S.CInitial || clientstate == S.CPending {
        clientstate := S.CPending;
        return;
      }
      clientstate := S.CListen;
    }

    method ChapAuthPeer(digest: int, drawn: S.Challenge)
      modifies this
      ensures Unit() == S.AuthPeer(old(Unit()), digest, drawn)
    {
      chalType := digest;
      if serverstate == S.SInitial || serverstate == S.SPending {
        serverstate := S.SPending;
        return;
      }
      GenChallenge(drawn);
      SendChallenge();
      serverstate := S.SInitialChal;
    }

    method ChapChallengeTimeout()
      modifies this
      ensures Unit() == S.ChallengeTimeout(old(Unit()), cfg)
    {
      if serverstate != S.SInitialChal && serverstate != S.SRechallenge {
        return;
      }
      if chalTransmits >= cfg.maxTransmits {
        serverstate := S.SBadAuth;
        Die();
        return;
      }
      SendChallenge();
    }

    method ChapResponseTimeout()
      modifies this
      ensures Unit() == S.ResponseTimeout(old(Unit()))
    {
      if clientstate != S.CResponse {
        return;
      }
      SendResponse();
    }

    method ChapRechallenge(drawn: S.Challenge)
      modifies this
      ensures Unit() == S.Rechallenge(old(Unit()), drawn)
    {
      if serverstate != S.SOpen {
        return;
      }
      GenChallenge(drawn);
      SendChallenge();
      serverstate := S.SRechallenge;
    }

    method ChapLowerUp(drawn: S.Challenge)
      modifies this
      ensures Unit() == S.LowerUp(old(Unit()), drawn)
    {
      if clientstate == S.CInitial {
        clientstate := S.CClosed;
      } else if clientstate == S.CPending {
        clientstate := S.CListen;
      }
      if serverstate == S.SInitial {
        serverstate := S.SClosed;
      } else if serverstate == S.SPending {
        GenChallenge(drawn);
        SendChallenge();
        serverstate := S.SInitialChal;
      }
    }

    method ChapLowerDown()
      modifies this
      ensures Unit() == S.LowerDown(old(Unit()))
    {
      clientstate := S.CInitial;
      serverstate := S.SInitial;
    }

    method ChapProtocolReject()
      modifies this
      ensures Unit() == S.ProtocolReject(old(Unit()), cfg)
    {
      if serverstate != S.SInitial && serverstate != S.SClosed {
        Die();
        if exited {
          return;
        }
      }
      ChapLowerDown();
    }

    method ChapInput(bytes: seq<Byte>)
      modifies this
      ensures Unit() == S.Input(old(Unit()), cfg, bytes)
    {
      if |bytes| < S.CHAP_HEADERLEN {
        return;
      }
      var code, id := bytes[0], bytes[1];
      var len: int := 256 * (bytes[2] as int) + bytes[3] as int;
      if len < S.CHAP_HEADERLEN || len > |bytes| {
        return;
      }
      var body := bytes[S.CHAP_HEADERLEN..len];
      if code == S.CHAP_CHALLENGE {
        ChapReceiveChallenge(id, body);
      } else if code == S.CHAP_RESPONSE {
        ChapReceiveResponse(id, body);
      } else if code == S.CHAP_SUCCESS {
        ChapReceiveSuccess();
      }
    }

    /** The counted value and the name that follows it, cut to fit rhostname. */
    method GetValueAndName(body: seq<Byte>) returns (ok: bool, value: seq<Byte>, name: seq<Byte>)
      ensures S.ParseData(body) == if ok then Some(S.Data(value, name)) else None
    {
      if |body| < 2 {
        return false, [], [];
      }
      var len: int := |body| - 1 - body[0] as int;
      if len < 0 {
        return false, [], [];
      }
      var end: int := 1 + body[0] as int;
      value := body[1..end];
      name := body[end..];
      if len >= 256 {
        name := name[..255];
      }
      ok := true;
    }

    method ChapReceiveChallenge(newId: Byte, body: seq<Byte>)
      modifies this
      ensures Unit() == S.ReceiveChallenge(old(Unit()), cfg, newId, body)
    {
      if clientstate == S.CClosed || clientstate == S.CPending {
        return;
      }
      var ok, rchallenge, rhostname := GetValueAndName(body);
      if !ok {
        return;
      }
      var found := cfg.secretFor(rhostname);
      var secret := if found.Some? then found.value else [];
      respId := newId;
      respTransmits := 0;
      if respType != S.CHAP_DIGEST_MD5 {
        return;
      }
      response := cfg.digest(respId, secret, rchallenge);
      SendResponse();
    }

    method ChapReceiveResponse(respondedId: Byte, body: seq<Byte>)
      modifies this
      ensures Unit() == S.ReceiveResponse(old(Unit()), cfg, respondedId, body)
    {
      if serverstate == S.SClosed || serverstate == S.SPending {
        return;
      }
      if respondedId != chalId {
        return;
      }
      if serverstate == S.SOpen {
        SendStatus(S.CHAP_SUCCESS);
        return;
      }
      if serverstate == S.SBadAuth {
        SendStatus(S.CHAP_FAILURE);
        return;
      }
      var ok, remmd, rhostname := GetValueAndName(body);
      if !ok {
        return;
      }
      var code := S.CHAP_FAILURE;
      var secret := cfg.secretOf(rhostname);
      if secret.Some? && chalType == S.CHAP_DIGEST_MD5 && |remmd| == S.MD5_SIGNATURE_SIZE {
        if cfg.digest(chalId, secret.value, challenge) == remmd {
          code := S.CHAP_SUCCESS;
        }
      }
      SendStatus(code);
      if code == S.CHAP_SUCCESS {
        var oldState := serverstate;
        serverstate := S.SOpen;
        if oldState == S.SInitialChal {
          AuthSuccess(S.CHAP_PEER);
        }
      } else {
        serverstate := S.SBadAuth;
        Die();
      }
    }

    method ChapReceiveSuccess()
      modifies this
      ensures Unit() == S.ReceiveSuccess(old(Unit()))
    {
      if clientstate == S.COpen {
        return;
      }
      if clientstate != S.CResponse {
        return;
      }
      clientstate := S.COpen;
      AuthSuccess(S.CHAP_WITHPEER);
    }

    /** link_established */
    method LinkEstablished(o: S.Options, drawn: S.Challenge)
      modifies this
      requires !exited
      ensures Unit() == S.LinkEstablished(old(Unit()), cfg, o, drawn)
    {
      if o.authRequired && !(o.goChap.Some? || o.goUpap) {
        if !o.woUpap || !o.nullLogin {
          Die();
          if exited {
            return;
          }
        }
      }
      Proceed(o, drawn);
    }

    /** The rest of link_established: asks for what was negotiated. */
    method Proceed(o: S.Options, drawn: S.Challenge)
      modifies this
      ensures Unit() == S.Proceed(old(Unit()), o, drawn)
    {
      phase := S.Authenticate;
      var auth := S.NoBits;
      if o.goChap.Some? {
        ChapAuthPeer(o.goChap.value, drawn);
        auth := S.With(auth, S.CHAP_PEER);
      } else if o.goUpap {
        auth := S.With(auth, S.UPAP_PEER);
      }
      if o.hoChap.Some? {
        ChapAuthWithPeer(o.hoChap.value);
        auth := S.With(auth, S.CHAP_WITHPEER);
      } else if o.hoUpap {
        auth := S.With(auth, S.UPAP_WITHPEER);
      }
      authPending := auth;
      if auth == S.NoBits {
        phase := S.Network;
        log := log + [S.IpcpOpened];
      }
    }

    /** What reaches the unit: LCP, the peer, a timer, PAP or IPCP. */
    method Handle(e: S.Event)
      requires !exited
      modifies this
      ensures Unit() == S.Step(old(Unit()), cfg, e)
    {
      match e
      case LcpUp(o, drawn0, drawn) =>
        open := true;
        ChapLowerUp(drawn0);
        LinkEstablished(o, drawn);
      case LcpDown => LcpDown();
      case LcpTerminated => phase := S.Dead;
      case Rejected => ChapProtocolReject();
      case Received(bytes) => ChapInput(bytes);
      case ChallengeTimer => ChapChallengeTimeout();
      case ResponseTimer => ChapResponseTimeout();
      case RechallengeTimer(drawn) => ChapRechallenge(drawn);
      case UpapPeerSucceeded => AuthSuccess(S.UPAP_PEER);
      case UpapWithPeerSucceeded => AuthSuccess(S.UPAP_WITHPEER);
      case Ended => Die();
    }
  }

  /** A unit with its history: what has reached it since ChapInit. */
  class Session {
    const ppp: Ppp
    ghost var start: S.Unit
    ghost var events: seq<S.Event>

    ghost predicate Valid()
      reads this, ppp
    {
      S.Initial(start) && S.Legal(ppp.cfg, start, events) && ppp.Unit() == S.Run(ppp.cfg, start, events).0
    }

    constructor (cfg: S.Config)
      ensures Valid() && ppp.cfg == cfg && events == [] && fresh(ppp)
    {
      var p := new Ppp(cfg);
      ppp, start, events := p, p.Unit(), [];
    }

    /** Whatever the history of the unit: it is in the network phase exactly when LCP is up and everything
        is shown that was demanded, unless LCP once came up through the back door; its statuses between two
        challenges agree exactly if no Response ever contradicted one; and it never sends a challenge
        more often than allowed. */
    method Handle(e: S.Event)
      requires Valid() && S.Possible(ppp.Unit(), e)
      modifies this, ppp
      ensures Valid() && events == old(events) + [e] && start == old(start)
      ensures S.Authorized(ppp.Unit(), S.Run(ppp.cfg, start, events).1) ==> ppp.phase == S.Network
      ensures (forall x | x in events :: !S.Backdoor(ppp.cfg, x)) && ppp.phase == S.Network ==>
                S.Authorized(ppp.Unit(), S.Run(ppp.cfg, start, events).1)
      ensures R.Uniform(ppp.log) <==> R.Agreeing(ppp.cfg, start, events)
      ensures R.Bounded(ppp.log, R.Most(ppp.cfg))
    {
      S.RunAppends(ppp.cfg, start, events, e);
      ppp.Handle(e);
      events := events + [e];
      R.UniformIffAgreeing(ppp.cfg, start, events);
      S.AuthorizedEnters(ppp.cfg, start, events);
      if forall x | x in events :: !S.Backdoor(ppp.cfg, x) {
        S.RunIsGuarded(ppp.cfg, start, events);
        S.AuthorizedIsMet(ppp.Unit(), S.Run(ppp.cfg, start, events).1);
      }
    }
  }
}
