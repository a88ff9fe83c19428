/** Protocol control blocks as values: the scored search of in_pcb.c, the port allocator, and
    what bind, connect, disconnect and detach do to the list. */
module PcbTable {
  import opened CTypes

  // in.h
  const IPPORT_RESERVED := 1024
  const IPPORT_USERRESERVED := 5000
  const PORTS := IPPORT_USERRESERVED - IPPORT_RESERVED + 1
  const INADDR_ANY: U32 := 0
  const INADDR_BROADCAST: U32 := 0xffff_ffff

  /** What in_pcb.c reads of a socket: so_options, PR_CONNREQUIRED of its protocol, and
      SS_NOFDREF. */
  datatype Socket = Socket(reuseAddr: bool, reusePort: bool, acceptConn: bool, connRequired: bool, noFdRef: bool)

  /** A control block; addresses and ports are in network order. */
  datatype Pcb = Pcb(faddr: U32, fport: U16, laddr: U32, lport: U16, so: Socket)

  datatype Key = Key(faddr: U32, fport: U16, laddr: U32, lport: U16)

  datatype Errno = OK | EINVAL | EADDRNOTAVAIL | EADDRINUSE | EAFNOSUPPORT

  /** The name passed to bind and connect: whether it has the length and family of a
      sockaddr_in, its address and its port. */
  datatype Name = Name(wellSized: bool, inet: bool, addr: U32, port: U16)

  /** The interfaces: every local address, the first one's, and its broadcast address if it
      broadcasts. */
  datatype Interfaces = Interfaces(local: set<U32>, primary: U32, broadcast: Option<U32>)

  // ---------------------------------------------------------------- the scored search

  function B(b: bool): nat { if b then 1 else 0 }

  /** The pcb is not skipped by the search: where both have an address they agree. */
  predicate Candidate(p: Pcb, k: Key) {
    && p.lport == k.lport
    && (p.faddr == 0 || k.faddr == 0 || (p.faddr == k.faddr && p.fport == k.fport))
    && (p.laddr == 0 || k.laddr == 0 || p.laddr == k.laddr)
  }

  function Wildcards(p: Pcb, k: Key): (n: nat)
    ensures n <= 2
  {
    B((p.faddr == 0) != (k.faddr == 0)) + B((p.laddr == 0) != (k.laddr == 0))
  }

  predicate Matches(p: Pcb, k: Key, wildOkay: bool) {
    Candidate(p, k) && (Wildcards(p, k) == 0 || wildOkay)
  }

  /** The first of the best matches among the first `n`. */
  function Best(s: seq<Pcb>, n: nat, k: Key, wildOkay: bool): (r: Option<nat>)
    requires n <= |s|
    ensures r.Some? ==> r.value < n && Matches(s[r.value], k, wildOkay)
    ensures r.None? ==> forall j | 0 <= j < n :: !Matches(s[j], k, wildOkay)
    ensures r.Some? ==> forall j | 0 <= j < n && Matches(s[j], k, wildOkay) ::
              Wildcards(s[r.value], k) <= Wildcards(s[j], k)
  {
    if n == 0 then None
    else
      var before := Best(s, n - 1, k, wildOkay);
      if !Matches(s[n - 1], k, wildOkay) then before
      else if before.Some? && Wildcards(s[before.value], k) <= Wildcards(s[n - 1], k) then before
      else Some(n - 1)
  }

  /** in_pcblookup on the whole list. */
  function Search(s: seq<Pcb>, k: Key, wildOkay: bool): Option<nat> {
    Best(s, |s|, k, wildOkay)
  }

  // ---------------------------------------------------------------- the hashed search

  predicate Exact(p: Pcb, k: Key) {
    p.faddr == k.faddr && p.fport == k.fport && p.lport == k.lport && p.laddr == k.laddr
  }

  predicate Unconnected(p: Pcb, k: Key) {
    p.faddr == 0 && p.fport == 0 && p.lport == k.lport
  }

  /** How good an answer the hashed search may give with the pcb, if any: 0 for an exact match,
      1 for an unconnected one on the address, 2 for one on any address. */
  function Grade(p: Pcb, k: Key, wildcard: bool): Option<nat> {
    if Exact(p, k) then Some(0)
    else if wildcard && Unconnected(p, k) && p.laddr == k.laddr then Some(1)
    else if wildcard && Unconnected(p, k) && p.laddr == 0 then Some(2)
    else None
  }

  /** `r` is an answer of the hashed search: of the best grade there is. */
  ghost predicate HashAnswer(s: seq<Pcb>, k: Key, wildcard: bool, r: Option<nat>) {
    match r
    case None => forall j | 0 <= j < |s| :: Grade(s[j], k, wildcard).None?
    case Some(i) =>
      && i < |s| && Grade(s[i], k, wildcard).Some?
      && forall j | 0 <= j < |s| && Grade(s[j], k, wildcard).Some? ::
           Grade(s[i], k, wildcard).value <= Grade(s[j], k, wildcard).value
  }

  /** An unconnected pcb has no foreign port, and a connected one a local address. */
  predicate Sound(p: Pcb) {
    && (p.faddr == 0 ==> p.fport == 0)
    && (p.faddr != 0 ==> p.laddr != 0)
  }

  ghost predicate AllSound(s: seq<Pcb>) {
    forall i | 0 <= i < |s| :: Sound(s[i])
  }

  lemma GradeIsScore(p: Pcb, k: Key, wild: bool)
    requires Sound(p) && k.faddr != 0 && k.laddr != 0
    ensures Grade(p, k, wild) == if Matches(p, k, wild) then Some(Wildcards(p, k)) else None
  {
  }

  /** For a datagram's addresses the two searches answer alike: both or neither find a pcb,
      and with the same number of wildcards. */
  lemma SearchesAgree(s: seq<Pcb>, k: Key, wild: bool, r: Option<nat>)
    requires AllSound(s) && k.faddr != 0 && k.laddr != 0
    requires HashAnswer(s, k, wild, r)
    ensures r.None? <==> Search(s, k, wild).None?
    ensures r.Some? ==> Matches(s[r.value], k, wild)
    ensures r.Some? ==> Wildcards(s[r.value], k) == Wildcards(s[Search(s, k, wild).value], k)
  {
    forall j | 0 <= j < |s|
      ensures Grade(s[j], k, wild) == if Matches(s[j], k, wild) then Some(Wildcards(s[j], k)) else None
    {
      GradeIsScore(s[j], k, wild);
    }
  }

  // ---------------------------------------------------------------- the port allocator

  /** Network byte order, on a little-endian host. */
  function Htons(x: U16): (y: U16) {
    x % 256 * 256 + x / 256
  }

  lemma HtonsTwice(x: U16)
    ensures Htons(Htons(x)) == x
  {
    var hi, lo := x / 256, x % 256;
    assert Htons(x) % 256 == hi && Htons(x) / 256 == lo;
  }

  /** `++*lastport`, brought back into the range. */
  function NextPort(last: U16): (p: U16)
    ensures IPPORT_RESERVED <= p <= IPPORT_USERRESERVED
  {
    var p := (last + 1) % 0x1_0000;
    if p < IPPORT_RESERVED || p > IPPORT_USERRESERVED then IPPORT_RESERVED else p
  }

  /** No pcb is found that holds the port, so far as a bind to `laddr` cares. */
  predicate Free(s: seq<Pcb>, laddr: U32, wild: bool, port: U16) {
    Search(s, Key(0, 0, laddr, Htons(port)), wild).None?
  }

  /** The first free port after `last`, trying `tries` of them. */
  function FindPort(s: seq<Pcb>, laddr: U32, wild: bool, last: U16, tries: nat): (r: Option<U16>)
    ensures r.Some? ==> IPPORT_RESERVED <= r.value <= IPPORT_USERRESERVED && Free(s, laddr, wild, r.value)
    decreases tries
  {
    if tries == 0 then None
    else if Free(s, laddr, wild, NextPort(last)) then Some(NextPort(last))
    else FindPort(s, laddr, wild, NextPort(last), tries - 1)
  }

  lemma FindPortStep(s: seq<Pcb>, laddr: U32, wild: bool, last: U16, tries: nat)
    ensures tries == 0 ==> FindPort(s, laddr, wild, last, tries).None?
    ensures tries > 0 && Free(s, laddr, wild, NextPort(last)) ==>
              FindPort(s, laddr, wild, last, tries) == Some(NextPort(last))
    ensures tries > 0 && !Free(s, laddr, wild, NextPort(last)) ==>
              FindPort(s, laddr, wild, last, tries) == FindPort(s, laddr, wild, NextPort(last), tries - 1)
  {
  }

  function Ephemeral(s: seq<Pcb>, laddr: U32, wild: bool, last: U16): Option<U16> {
    FindPort(s, laddr, wild, last, PORTS)
  }

  /** How many steps of NextPort lead from `last` to `port`. */
  function Distance(last: U16, port: U16): (d: int)
    requires IPPORT_RESERVED <= port <= IPPORT_USERRESERVED
    ensures 1 <= d <= PORTS
  {
    if IPPORT_RESERVED <= last < port then port - last
    else if IPPORT_RESERVED <= last <= IPPORT_USERRESERVED then PORTS - (last - port)
    else port - IPPORT_RESERVED + 1
  }

  lemma NextPortApproaches(last: U16, port: U16)
    requires IPPORT_RESERVED <= port <= IPPORT_USERRESERVED
    ensures NextPort(last) != port ==> Distance(NextPort(last), port) == Distance(last, port) - 1
    ensures NextPort(last) == port <==> Distance(last, port) == 1
  {
  }

  lemma {:induction false} FindsWithin(s: seq<Pcb>, laddr: U32, wild: bool, last: U16, port: U16, tries: nat)
    requires IPPORT_RESERVED <= port <= IPPORT_USERRESERVED && Free(s, laddr, wild, port)
    requires Distance(last, port) <= tries
    ensures FindPort(s, laddr, wild, last, tries).Some?
    decreases tries
  {
    NextPortApproaches(last, port);
    if !Free(s, laddr, wild, NextPort(last)) {
      FindsWithin(s, laddr, wild, NextPort(last), port, tries - 1);
    }
  }

  lemma {:induction false} FindsNothing(s: seq<Pcb>, laddr: U32, wild: bool, last: U16, tries: nat)
    requires forall port: U16 | IPPORT_RESERVED <= port <= IPPORT_USERRESERVED :: !Free(s, laddr, wild, port)
    ensures FindPort(s, laddr, wild, last, tries).None?
    decreases tries
  {
    if tries > 0 {
      FindsNothing(s, laddr, wild, NextPort(last), tries - 1);
    }
  }

  /** Wherever it starts, the loop ends within one cycle of the range exactly when some port of
      the range is free; when none is, no number of tries ends it. */
  lemma EphemeralIffFree(s: seq<Pcb>, laddr: U32, wild: bool, last: U16)
    ensures Ephemeral(s, laddr, wild, last).Some?
       <==> exists port: U16 :: IPPORT_RESERVED <= port <= IPPORT_USERRESERVED && Free(s, laddr, wild, port)
    ensures Ephemeral(s, laddr, wild, last).None? ==> forall tries: nat :: FindPort(s, laddr, wild, last, tries).None?
  {
    if port: U16 :| IPPORT_RESERVED <= port <= IPPORT_USERRESERVED && Free(s, laddr, wild, port) {
      FindsWithin(s, laddr, wild, last, port, PORTS);
    } else {
      forall tries: nat ensures FindPort(s, laddr, wild, last, tries).None? {
        FindsNothing(s, laddr, wild, last, tries);
      }
    }
  }

  /** A pcb on another port makes no difference to a search. */
  lemma {:induction false} SearchIgnores(s: seq<Pcb>, i: nat, p: Pcb, n: nat, k: Key, wildOkay: bool)
    requires i < |s| && n <= |s| && s[i].lport != k.lport && p.lport != k.lport
    ensures Best(s[i := p], n, k, wildOkay) == Best(s, n, k, wildOkay)
    decreases n
  {
    if n > 0 {
      SearchIgnores(s, i, p, n - 1, k, wildOkay);
    }
  }

  // ---------------------------------------------------------------- bind

  /** IN_MULTICAST of an address in network order on a little-endian host. */
  predicate Multicast(addr: U32) {
    addr % 256 / 16 == 14
  }

  predicate Wild(so: Socket) {
    !so.reuseAddr && !so.reusePort && (!so.connRequired || !so.acceptConn)
  }

  /** `reuseport & t->inp_socket->so_options` */
  predicate Shares(so: Socket, t: Socket, addr: U32) {
    if Multicast(addr) && so.reuseAddr then t.reuseAddr || t.reusePort
    else so.reusePort && t.reusePort
  }

  function NameAddr(nam: Option<Name>): U32 {
    if nam.None? then 0 else nam.value.addr
  }

  function NamePort(nam: Option<Name>): U16 {
    if nam.None? then 0 else nam.value.port
  }

  predicate Taken(s: seq<Pcb>, p: Pcb, n: Name) {
    var t := Search(s, Key(0, 0, n.addr, n.port), Wild(p.so));
    t.Some? && !Shares(p.so, s[t.value].so, n.addr)
  }

  /** The checks of in_pcbbind, in order. */
  function BindError(s: seq<Pcb>, p: Pcb, nam: Option<Name>, net: Interfaces): Errno {
    if net.local == {} then EADDRNOTAVAIL
    else if p.lport != 0 || p.laddr != 0 then EINVAL
    else if nam.None? then OK
    else if !nam.value.wellSized then EINVAL
    else if !Multicast(nam.value.addr) && nam.value.addr != 0 && nam.value.addr !in net.local then EADDRNOTAVAIL
    else if nam.value.port != 0 && Taken(s, p, nam.value) then EADDRINUSE
    else OK
  }

  /** The list and the last ephemeral port. */
  datatype State = State(pcbs: seq<Pcb>, lastport: U16)

  datatype Outcome = Done(state: State, errno: Errno) | Forever

  /** in_pcbbind; it goes round for ever if it needs a port and none is free. */
  function Bind(s: State, i: nat, nam: Option<Name>, net: Interfaces): Outcome
    requires i < |s.pcbs|
  {
    var p := s.pcbs[i];
    var e := BindError(s.pcbs, p, nam, net);
    if e != OK then Done(s, e)
    else if NamePort(nam) != 0 then
      Done(s.(pcbs := s.pcbs[i := p.(laddr := NameAddr(nam), lport := NamePort(nam))]), OK)
    else
      var port := Ephemeral(s.pcbs, NameAddr(nam), Wild(p.so), s.lastport);
      if port.None? then Forever
      else Done(State(s.pcbs[i := p.(laddr := NameAddr(nam), lport := Htons(port.value))], port.value), OK)
  }

  // ---------------------------------------------------------------- connect and the rest

  /** The address actually connected to; without interfaces, the one given. */
  function Target(addr: U32, net: Interfaces): U32 {
    if net.local == {} then addr
    else if addr == INADDR_ANY then net.primary
    else if addr == INADDR_BROADCAST && net.broadcast.Some? then net.broadcast.value
    else addr
  }

  function ConnectError(s: seq<Pcb>, p: Pcb, n: Name, net: Interfaces, route: Option<U32>): Errno {
    if !n.wellSized then EINVAL
    else if !n.inet then EAFNOSUPPORT
    else if n.port == 0 then EADDRNOTAVAIL
    else if p.laddr == 0 && route.None? then EADDRNOTAVAIL
    else if exists j | 0 <= j < |s| ::
              Exact(s[j], Key(Target(n.addr, net), n.port, if p.laddr != 0 then p.laddr else route.value, p.lport))
    then EADDRINUSE
    else OK
  }

  function Connected(s: State, i: nat, faddr: U32, fport: U16, laddr: U32): State
    requires i < |s.pcbs|
  {
    s.(pcbs := s.pcbs[i := s.pcbs[i].(faddr := faddr, fport := fport, laddr := laddr)])
  }

  /** in_pcbconnect; `route` is the address of the interface that routing chooses. */
  function Connect(s: State, i: nat, n: Name, net: Interfaces, route: Option<U32>): Outcome
    requires i < |s.pcbs|
  {
    var p := s.pcbs[i];
    var e := ConnectError(s.pcbs, p, n, net, route);
    if e != OK then Done(s, e)
    else if p.laddr != 0 then Done(Connected(s, i, Target(n.addr, net), n.port, p.laddr), OK)
    else if p.lport != 0 then Done(Connected(s, i, Target(n.addr, net), n.port, route.value), OK)
    else
      match Bind(s, i, None, net)
      case Forever => Forever
      case Done(b, _) => Done(Connected(b, i, Target(n.addr, net), n.port, route.value), OK)
  }

  function Alloc(s: State, so: Socket): State {
    s.(pcbs := [Pcb(0, 0, 0, 0, so)] + s.pcbs)
  }

  function Detach(s: State, i: nat): State
    requires i < |s.pcbs|
  {
    s.(pcbs := s.pcbs[..i] + s.pcbs[i + 1..])
  }

  function Disconnect(s: State, i: nat): State
    requires i < |s.pcbs|
  {
    if s.pcbs[i].so.noFdRef then Detach(s, i)
    else s.(pcbs := s.pcbs[i := s.pcbs[i].(faddr := 0, fport := 0)])
  }

  // ---------------------------------------------------------------- every run

  datatype Event =
    | Allocated(so: Socket)
    | Bound(i: nat, nam: Option<Name>, net: Interfaces)
    | ConnectedTo(i: nat, name: Name, net: Interfaces, route: Option<U32>)
    | Disconnected(i: nat)
    | Detached(i: nat)
    | SocketChanged(i: nat, so: Socket)

  predicate Possible(s: State, e: Event) {
    match e
    case Allocated(_) => true
    case Bound(i, _, _) => i < |s.pcbs|
    case ConnectedTo(i, _, _, _) => i < |s.pcbs|
    case Disconnected(i) => i < |s.pcbs|
    case Detached(i) => i < |s.pcbs|
    case SocketChanged(i, _) => i < |s.pcbs|
  }

  function Step(s: State, e: Event): (r: Outcome)
    requires Possible(s, e)
  {
    match e
    case Allocated(so) => Done(Alloc(s, so), OK)
    case Bound(i, nam, net) => Bind(s, i, nam, net)
    case ConnectedTo(i, n, net, route) => Connect(s, i, n, net, route)
    case Disconnected(i) => Done(Disconnect(s, i), OK)
    case Detached(i) => Done(Detach(s, i), OK)
    case SocketChanged(i, so) => Done(s.(pcbs := s.pcbs[i := s.pcbs[i].(so := so)]), OK)
  }

  /** `t` is reached from `s` by the events. */
  ghost predicate Reaches(s: State, es: seq<Event>, t: State)
    decreases |es|
  {
    if es == [] then s == t
    else
      && Possible(s, es[0])
      && Step(s, es[0]).Done?
      && Reaches(Step(s, es[0]).state, es[1..], t)
  }

  lemma BindKeepsSound(s: State, i: nat, nam: Option<Name>, net: Interfaces)
    requires AllSound(s.pcbs) && i < |s.pcbs| && Bind(s, i, nam, net).Done?
    ensures AllSound(Bind(s, i, nam, net).state.pcbs)
  {
  }

  /** What a connect needs to leave a sound block: an address to go to, and one of its own, which it
      has or is given by an interface. */
  predicate Addressed(p: Pcb, addr: U32, net: Interfaces, route: Option<U32>) {
    Target(addr, net) != 0 && (p.laddr != 0 || (route.Some? && route.value != 0))
  }

  /** A connect keeps all blocks sound exactly when it fails or is addressed. */
  lemma ConnectSoundIff(s: State, i: nat, n: Name, net: Interfaces, route: Option<U32>)
    requires AllSound(s.pcbs) && i < |s.pcbs| && Connect(s, i, n, net, route).Done?
    ensures AllSound(Connect(s, i, n, net, route).state.pcbs)
       <==> Connect(s, i, n, net, route).errno != OK || Addressed(s.pcbs[i], n.addr, net, route)
  {
    var c, p := Connect(s, i, n, net, route), s.pcbs[i];
    if c.errno == OK {
      if p.laddr == 0 && p.lport == 0 {
        BindKeepsSound(s, i, None, net);
      }
      ConnectedBlock(s, i, n, net, route);
      assert forall j | 0 <= j < |s.pcbs| && j != i :: Sound(s.pcbs[j]) && c.state.pcbs[j] == s.pcbs[j];
    }
  }

  /** The block that a successful connect leaves, and no other block changes. */
  lemma ConnectedBlock(s: State, i: nat, n: Name, net: Interfaces, route: Option<U32>)
    requires i < |s.pcbs| && Connect(s, i, n, net, route).Done? && Connect(s, i, n, net, route).errno == OK
    ensures var p, t := s.pcbs[i], Connect(s, i, n, net, route).state.pcbs;
      && |t| == |s.pcbs| && (forall j | 0 <= j < |t| && j != i :: t[j] == s.pcbs[j])
      && n.wellSized && n.inet && (p.laddr != 0 || route.Some?)
      && t[i].faddr == Target(n.addr, net) && t[i].fport == n.port != 0
      && t[i].laddr == (if p.laddr != 0 then p.laddr else route.value)
      && (t[i].lport != 0 <==> p.lport != 0 || (p.laddr == 0 && net.local != {}))
      && (p.lport != 0 ==> t[i].lport == p.lport)
  {
  }

  lemma StepSoundIff(s: State, e: Event)
    requires AllSound(s.pcbs) && Possible(s, e) && Step(s, e).Done?
    ensures AllSound(Step(s, e).state.pcbs) <==> AddressedStep(s, e)
  {
    match e
    case Bound(i, nam, net) => BindKeepsSound(s, i, nam, net);
    case ConnectedTo(i, n, net, route) => ConnectSoundIff(s, i, n, net, route);
    case _ =>
  }

  /** The event is no connect, or one that fails or is addressed. */
  predicate AddressedStep(s: State, e: Event)
    requires Possible(s, e) && Step(s, e).Done?
  {
    e.ConnectedTo? ==> Step(s, e).errno != OK || Addressed(s.pcbs[e.i], e.name.addr, e.net, e.route)
  }

  ghost predicate AddressedRun(s: State, es: seq<Event>)
    decreases |es|
  {
    es == [] ||
    (Possible(s, es[0]) && Step(s, es[0]).Done? && AddressedStep(s, es[0])
     && AddressedRun(Step(s, es[0]).state, es[1..]))
  }

  /** Every state that the events lead through is sound. */
  ghost predicate AlwaysSound(s: State, es: seq<Event>)
    decreases |es|
  {
    && AllSound(s.pcbs)
    && (es == [] ||
        (Possible(s, es[0]) && Step(s, es[0]).Done? && AlwaysSound(Step(s, es[0]).state, es[1..])))
  }

  /** The blocks stay sound throughout a run if and only if every connect that succeeds is
      addressed. */
  lemma {:induction false} RunSoundIff(s: State, es: seq<Event>, t: State)
    requires AllSound(s.pcbs) && Reaches(s, es, t)
    ensures AlwaysSound(s, es) <==> AddressedRun(s, es)
    ensures AddressedRun(s, es) ==> AllSound(t.pcbs)
    decreases |es|
  {
    if es != [] {
      StepSoundIff(s, es[0]);
      if AddressedStep(s, es[0]) {
        RunSoundIff(Step(s, es[0]).state, es[1..], t);
      }
    }
  }

  // ---------------------------------------------------------------- blocks with a port

  /** Blocks without a port do not answer datagrams, and may be anything. */
  ghost predicate PortedSound(s: seq<Pcb>) {
    forall i | 0 <= i < |s| :: s[i].lport != 0 ==> Sound(s[i])
  }

  /** A block with a port stays sound through the event: a connect fails, is addressed, or leaves the
      block without a port; a bind fails, or does not give a port to an unsound block. */
  predicate KeepingStep(s: State, e: Event)
    requires Possible(s, e) && Step(s, e).Done?
  {
    match e
    case ConnectedTo(i, n, net, route) =>
      var p := s.pcbs[i];
      || Step(s, e).errno != OK || Addressed(p, n.addr, net, route)
      || (p.lport == 0 && (p.laddr != 0 || net.local == {}))
    case Bound(i, nam, _) =>
      Step(s, e).errno != OK || Sound(s.pcbs[i].(laddr := NameAddr(nam)))
    case _ => true
  }

  ghost predicate KeepingRun(s: State, es: seq<Event>)
    decreases |es|
  {
    es == [] ||
    (Possible(s, es[0]) && Step(s, es[0]).Done? && KeepingStep(s, es[0])
     && KeepingRun(Step(s, es[0]).state, es[1..]))
  }

  lemma BoundBlock(s: State, i: nat, nam: Option<Name>, net: Interfaces)
    requires i < |s.pcbs| && Bind(s, i, nam, net).Done? && Bind(s, i, nam, net).errno == OK
    ensures var p, t := s.pcbs[i], Bind(s, i, nam, net).state.pcbs;
      && |t| == |s.pcbs| && (forall j | 0 <= j < |t| && j != i :: t[j] == s.pcbs[j])
      && t[i].lport != 0 && t[i].laddr == NameAddr(nam) && t[i].faddr == p.faddr && t[i].fport == p.fport
  {
  }

  lemma StepPortedIff(s: State, e: Event)
    requires PortedSound(s.pcbs) && Possible(s, e) && Step(s, e).Done?
    ensures PortedSound(Step(s, e).state.pcbs) <==> KeepingStep(s, e)
  {
    var t := Step(s, e).state.pcbs;
    match e
    case Bound(i, nam, net) =>
      if Step(s, e).errno == OK {
        BoundBlock(s, i, nam, net);
        OneBlockDecides(s.pcbs, t, i);
      }
    case ConnectedTo(i, n, net, route) =>
      if Step(s, e).errno == OK {
        ConnectedBlock(s, i, n, net, route);
        OneBlockDecides(s.pcbs, t, i);
      }
    case Disconnected(i) =>
      if !s.pcbs[i].so.noFdRef {
        OneBlockDecides(s.pcbs, t, i);
      }
    case SocketChanged(i, _) => OneBlockDecides(s.pcbs, t, i);
    case _ =>
  }

  lemma OneBlockDecides(s: seq<Pcb>, t: seq<Pcb>, i: nat)
    requires PortedSound(s) && i < |s| == |t| && forall j | 0 <= j < |t| && j != i :: t[j] == s[j]
    ensures PortedSound(t) <==> (t[i].lport != 0 ==> Sound(t[i]))
  {
  }

  lemma {:induction false} RunPorted(s: State, es: seq<Event>, t: State)
    requires PortedSound(s.pcbs) && Reaches(s, es, t) && KeepingRun(s, es)
    ensures PortedSound(t.pcbs)
    decreases |es|
  {
    if es != [] {
      StepPortedIff(s, es[0]);
      RunPorted(Step(s, es[0]).state, es[1..], t);
    }
  }

  /** An addressed run is one that keeps blocks sound. */
  lemma {:induction false} AddressedKeeps(s: State, es: seq<Event>)
    requires AllSound(s.pcbs) && AddressedRun(s, es)
    ensures KeepingRun(s, es)
    decreases |es|
  {
    if es != [] {
      StepSoundIff(s, es[0]);
      StepPortedIff(s, es[0]);
      AddressedKeeps(Step(s, es[0]).state, es[1..]);
    }
  }

  lemma GradesAreScores(s: seq<Pcb>, k: Key, wild: bool)
    requires PortedSound(s) && k.faddr != 0 && k.laddr != 0 && k.lport != 0
    ensures forall j | 0 <= j < |s| ::
      Grade(s[j], k, wild) == if Matches(s[j], k, wild) then Some(Wildcards(s[j], k)) else None
  {
    forall j | 0 <= j < |s|
      ensures Grade(s[j], k, wild) == if Matches(s[j], k, wild) then Some(Wildcards(s[j], k)) else None
    {
      if s[j].lport != 0 {
        GradeIsScore(s[j], k, wild);
      }
    }
  }

  lemma PortedAgree(s: seq<Pcb>, k: Key, wild: bool, r: Option<nat>)
    requires PortedSound(s) && k.faddr != 0 && k.laddr != 0 && k.lport != 0
    requires HashAnswer(s, k, wild, r)
    ensures r.None? <==> Search(s, k, wild).None?
    ensures r.Some? ==> Matches(s[r.value], k, wild)
    ensures r.Some? ==> Wildcards(s[r.value], k) == Wildcards(s[Search(s, k, wild).value], k)
  {
    GradesAreScores(s, k, wild);
  }

  /** In every state reached from an empty table by a run that keeps blocks with a port sound, the two
      searches agree on a datagram for a port; if every connect is addressed, for port 0 too. */
  lemma LookupsAgree(last: U16, es: seq<Event>, t: State, k: Key, wild: bool, r: Option<nat>)
    requires Reaches(State([], last), es, t) && k.faddr != 0 && k.laddr != 0
    requires AddressedRun(State([], last), es) || (k.lport != 0 && KeepingRun(State([], last), es))
    requires HashAnswer(t.pcbs, k, wild, r)
    ensures r.None? <==> Search(t.pcbs, k, wild).None?
    ensures r.Some? ==> Matches(t.pcbs[r.value], k, wild)
    ensures r.Some? ==> Wildcards(t.pcbs[r.value], k) == Wildcards(t.pcbs[Search(t.pcbs, k, wild).value], k)
  {
    if AddressedRun(State([], last), es) {
      RunSoundIff(State([], last), es, t);
      SearchesAgree(t.pcbs, k, wild, r);
    } else {
      RunPorted(State([], last), es, t);
      PortedAgree(t.pcbs, k, wild, r);
    }
  }

  /** A run of one socket on which they do not: it is bound while there is an interface, and then
      connected to the wildcard address when there is none. Only the scored search finds it. */
  lemma UnaddressedDisagrees(last: U16, so: Socket, k: Key, net: Interfaces, none: Interfaces)
    returns (es: seq<Event>, t: State)
    requires k.faddr != 0 && k.laddr != 0 && k.lport != 0 && k.laddr in net.local && none.local == {}
    ensures Reaches(State([], last), es, t) && |es| == 3 && es[0] == Allocated(so)
    ensures es[1] == Bound(0, Some(Name(true, true, k.laddr, k.lport)), net)
    ensures es[2] == ConnectedTo(0, Name(true, true, 0, 99), none, None)
    ensures Search(t.pcbs, k, true) == Some(0) && HashAnswer(t.pcbs, k, true, None)
  {
    var bind, connect := Some(Name(true, true, k.laddr, k.lport)), Name(true, true, 0, 99);
    es := [Allocated(so), Bound(0, bind, net), ConnectedTo(0, connect, none, None)];
    var s0 := State([], last);
    var s1 := Alloc(s0, so);
    assert s1.pcbs == [Pcb(0, 0, 0, 0, so)];
    assert Best(s1.pcbs, 0, Key(0, 0, k.laddr, k.lport), Wild(so)).None?;
    assert Search(s1.pcbs, Key(0, 0, k.laddr, k.lport), Wild(so)).None?;
    var s2 := s1.(pcbs := [Pcb(0, 0, k.laddr, k.lport, so)]);
    assert Bind(s1, 0, bind, net) == Done(s2, OK);
    t := s2.(pcbs := [Pcb(0, 99, k.laddr, k.lport, so)]);
    assert Connect(s2, 0, connect, none, None) == Done(t, OK);
    assert es[1..] == [es[1], es[2]] && es[1..][1..] == [es[2]] && es[1..][1..][1..] == [];
    assert Reaches(t, [], t) && Reaches(s2, [es[2]], t) && Reaches(s1, es[1..], t);
    assert Best(t.pcbs, 0, k, true).None? && Matches(t.pcbs[0], k, true);
  }

  // ---------------------------------------------------------------- bindings are distinct

  /** Neither option to reuse, and not listening. */
  predicate Plain(so: Socket) {
    !so.reuseAddr && !so.reusePort && !so.acceptConn
  }

  predicate Apart(p: Pcb, q: Pcb) {
    p.lport == 0 || p.lport != q.lport || (p.laddr != 0 && q.laddr != 0 && p.laddr != q.laddr)
  }

  /** Two bound pcbs with one port have different addresses, neither a wildcard. */
  ghost predicate Distinct(s: seq<Pcb>) {
    forall i, j | 0 <= i < j < |s| :: Apart(s[i], s[j])
  }

  ghost predicate AllPlain(s: seq<Pcb>) {
    forall i | 0 <= i < |s| :: Plain(s[i].so)
  }

  predicate PlainEvent(e: Event) {
    match e
    case Allocated(so) => Plain(so)
    case SocketChanged(_, so) => Plain(so)
    case _ => true
  }

  lemma FreeIsApart(p: Pcb, laddr: U32, lport: U16, so: Socket)
    requires lport != 0 && !Matches(p, Key(0, 0, laddr, lport), true)
    ensures Apart(p, Pcb(0, 0, laddr, lport, so)) && Apart(Pcb(0, 0, laddr, lport, so), p)
  {
  }

  /** Replacing one pcb by one apart from all others keeps bindings distinct. */
  lemma ReplaceKeepsDistinct(s: seq<Pcb>, i: nat, p: Pcb)
    requires Distinct(s) && i < |s|
    requires forall j | 0 <= j < |s| && j != i :: Apart(s[j], p) && Apart(p, s[j])
    ensures Distinct(s[i := p])
  {
  }

  /** A port that the search finds free, for the address bound to. */
  lemma BoundIsApart(s: seq<Pcb>, laddr: U32, lport: U16, j: nat, p: Pcb)
    requires lport != 0 && Search(s, Key(0, 0, laddr, lport), true).None? && j < |s|
    requires p.laddr == laddr && p.lport == lport
    ensures Apart(s[j], p) && Apart(p, s[j])
  {
    FreeIsApart(s[j], laddr, lport, p.so);
  }

  lemma BindKeepsDistinct(s: State, i: nat, nam: Option<Name>, net: Interfaces)
    requires Distinct(s.pcbs) && AllPlain(s.pcbs) && i < |s.pcbs| && Bind(s, i, nam, net).Done?
    ensures Distinct(Bind(s, i, nam, net).state.pcbs) && AllPlain(Bind(s, i, nam, net).state.pcbs)
  {
    var b, p := Bind(s, i, nam, net), s.pcbs[i];
    if b.errno == OK {
      var q := b.state.pcbs[i];
      assert Search(s.pcbs, Key(0, 0, q.laddr, q.lport), true).None?;
      forall j | 0 <= j < |s.pcbs| && j != i ensures Apart(s.pcbs[j], q) && Apart(q, s.pcbs[j]) {
        BoundIsApart(s.pcbs, q.laddr, q.lport, j, q);
      }
      ReplaceKeepsDistinct(s.pcbs, i, q);
    }
  }

  /** A pcb on any address is alone on its port, so an address may be filled in. */
  lemma FillKeepsDistinct(s: seq<Pcb>, i: nat, p: Pcb)
    requires Distinct(s) && i < |s| && p.lport == s[i].lport
    requires s[i].laddr == 0 || p.laddr == s[i].laddr
    ensures Distinct(s[i := p])
  {
    forall j | 0 <= j < |s| && j != i ensures Apart(s[j], p) && Apart(p, s[j]) {
      assert if i < j then Apart(s[i], s[j]) else Apart(s[j], s[i]);
    }
    ReplaceKeepsDistinct(s, i, p);
  }

  lemma ConnectKeepsDistinct(s: State, i: nat, n: Name, net: Interfaces, route: Option<U32>)
    requires Distinct(s.pcbs) && AllPlain(s.pcbs) && i < |s.pcbs|
    requires Connect(s, i, n, net, route).Done?
    ensures Distinct(Connect(s, i, n, net, route).state.pcbs) && AllPlain(Connect(s, i, n, net, route).state.pcbs)
  {
    var c, p := Connect(s, i, n, net, route), s.pcbs[i];
    if c.errno == OK {
      var b := s;
      if p.laddr == 0 && p.lport == 0 {
        BindKeepsDistinct(s, i, None, net);
        b := Bind(s, i, None, net).state;
      }
      FillKeepsDistinct(b.pcbs, i, c.state.pcbs[i]);
    }
  }

  lemma DetachKeepsDistinct(s: State, i: nat)
    requires Distinct(s.pcbs) && AllPlain(s.pcbs) && i < |s.pcbs|
    ensures Distinct(Detach(s, i).pcbs) && AllPlain(Detach(s, i).pcbs)
  {
    var t := Detach(s, i).pcbs;
    forall a, b | 0 <= a < b < |t| ensures Apart(t[a], t[b]) {
      var a', b' := if a < i then a else a + 1, if b < i then b else b + 1;
      assert t[a] == s.pcbs[a'] && t[b] == s.pcbs[b'];
    }
  }

  lemma StepKeepsDistinct(s: State, e: Event)
    requires Distinct(s.pcbs) && AllPlain(s.pcbs) && Possible(s, e) && PlainEvent(e) && Step(s, e).Done?
    ensures Distinct(Step(s, e).state.pcbs) && AllPlain(Step(s, e).state.pcbs)
  {
    match e
    case Allocated(so) =>
    case Bound(i, nam, net) => BindKeepsDistinct(s, i, nam, net);
    case ConnectedTo(i, n, net, route) => ConnectKeepsDistinct(s, i, n, net, route);
    case Disconnected(i) =>
      if s.pcbs[i].so.noFdRef {
        DetachKeepsDistinct(s, i);
      } else {
        FillKeepsDistinct(s.pcbs, i, s.pcbs[i].(faddr := 0, fport := 0));
      }
    case Detached(i) => DetachKeepsDistinct(s, i);
    case SocketChanged(i, so) => FillKeepsDistinct(s.pcbs, i, s.pcbs[i].(so := so));
  }

  lemma {:induction false} RunKeepsDistinct(s: State, es: seq<Event>, t: State)
    requires Distinct(s.pcbs) && AllPlain(s.pcbs) && Reaches(s, es, t)
    requires forall i | 0 <= i < |es| :: PlainEvent(es[i])
    ensures Distinct(t.pcbs) && AllPlain(t.pcbs)
    decreases |es|
  {
    if es != [] {
      StepKeepsDistinct(s, es[0]);
      RunKeepsDistinct(Step(s, es[0]).state, es[1..], t);
    }
  }

  /** If no socket ever asks to share a port and none listens, then in every state reached from
      an empty table two bound pcbs with one port have different addresses, neither a wildcard. */
  lemma BindingsAreDistinct(last: U16, es: seq<Event>, t: State, i: nat, j: nat)
    requires Reaches(State([], last), es, t) && forall e | e in es :: PlainEvent(e)
    requires i < j < |t.pcbs| && t.pcbs[i].lport != 0 && t.pcbs[i].lport == t.pcbs[j].lport
    ensures t.pcbs[i].laddr != 0 && t.pcbs[j].laddr != 0 && t.pcbs[i].laddr != t.pcbs[j].laddr
  {
    RunKeepsDistinct(State([], last), es, t);
    assert Apart(t.pcbs[i], t.pcbs[j]);
  }

  /** For a datagram's addresses both searches find a block, or neither does. */
  ghost predicate BothFind(s: seq<Pcb>, k: Key) {
    Search(s, k, true).None? <==> HashAnswer(s, k, true, None)
  }

  ghost predicate Agreeing(s: seq<Pcb>) {
    forall k: Key | k.faddr != 0 && k.laddr != 0 && k.lport != 0 :: BothFind(s, k)
  }

  /** A datagram for an unsound block, which only the scored search takes to it. */
  lemma UnsoundDisagrees(s: seq<Pcb>, i: nat) returns (k: Key)
    requires Distinct(s) && i < |s| && s[i].lport != 0 && !Sound(s[i])
    ensures k.faddr != 0 && k.laddr != 0 && k.lport != 0 && !BothFind(s, k)
  {
    var p := s[i];
    k := Key(if p.faddr != 0 then p.faddr else 1, p.fport, if p.laddr != 0 then p.laddr else 1, p.lport);
    assert Matches(p, k, true);
    forall j | 0 <= j < |s| ensures Grade(s[j], k, true).None? {
      if j < i {
        assert Apart(s[j], p);
      } else if i < j {
        assert Apart(p, s[j]);
      }
    }
  }

  /** Where bindings are distinct, the two searches agree on all datagrams for a port if and only if
      every block with a port is sound. */
  lemma AgreeingIffSound(s: seq<Pcb>)
    requires Distinct(s)
    ensures Agreeing(s) <==> PortedSound(s)
  {
    if PortedSound(s) {
      forall k: Key | k.faddr != 0 && k.laddr != 0 && k.lport != 0 ensures BothFind(s, k) {
        GradesAreScores(s, k, true);
      }
    } else {
      var i :| 0 <= i < |s| && s[i].lport != 0 && !Sound(s[i]);
      var k := UnsoundDisagrees(s, i);
    }
  }

  /** The searches agree in every state that the events lead through. */
  ghost predicate AlwaysAgreeing(s: State, es: seq<Event>)
    decreases |es|
  {
    && Agreeing(s.pcbs)
    && (es == [] ||
        (Possible(s, es[0]) && Step(s, es[0]).Done? && AlwaysAgreeing(Step(s, es[0]).state, es[1..])))
  }

  lemma {:induction false} RunAgreesIff(s: State, es: seq<Event>, t: State)
    requires Distinct(s.pcbs) && AllPlain(s.pcbs) && PortedSound(s.pcbs) && Reaches(s, es, t)
    requires forall i | 0 <= i < |es| :: PlainEvent(es[i])
    ensures AlwaysAgreeing(s, es) <==> KeepingRun(s, es)
    decreases |es|
  {
    AgreeingIffSound(s.pcbs);
    if es != [] {
      var next := Step(s, es[0]).state;
      StepKeepsDistinct(s, es[0]);
      StepPortedIff(s, es[0]);
      AgreeingIffSound(next.pcbs);
      if KeepingStep(s, es[0]) {
        RunAgreesIff(next, es[1..], t);
      }
    }
  }

  /** Over every run of sockets that never ask to share a port and never listen: the two searches
      agree throughout on all datagrams for a port if and only if every connect that succeeds is
      addressed, or leaves its block without a port, and no bind gives a port to an unsound block. */
  lemma LookupsAgreeIff(last: U16, es: seq<Event>, t: State)
    requires Reaches(State([], last), es, t) && forall e | e in es :: PlainEvent(e)
    ensures AlwaysAgreeing(State([], last), es) <==> KeepingRun(State([], last), es)
    ensures Agreeing(t.pcbs) <==> PortedSound(t.pcbs)
  {
    RunAgreesIff(State([], last), es, t);
    RunKeepsDistinct(State([], last), es, t);
    AgreeingIffSound(t.pcbs);
  }

  /** Then the two searches find the very same pcb. */
  lemma SamePcb(last: U16, es: seq<Event>, t: State, k: Key, wild: bool, r: Option<nat>)
    requires Reaches(State([], last), es, t) && KeepingRun(State([], last), es)
    requires forall e | e in es :: PlainEvent(e)
    requires k.faddr != 0 && k.laddr != 0 && k.lport != 0
    requires HashAnswer(t.pcbs, k, wild, r)
    ensures r == Search(t.pcbs, k, wild)
  {
    LookupsAgree(last, es, t, k, wild, r);
    if r.Some? {
      var i, j := r.value, Search(t.pcbs, k, wild).value;
      if i < j {
        BindingsAreDistinct(last, es, t, i, j);
      } else if j < i {
        BindingsAreDistinct(last, es, t, j, i);
      }
    }
  }

  // ---------------------------------------------------------------- who may share a binding

  /** The two asked to share: SO_REUSEPORT both, or either option each for a multicast address
      (first byte 224 to 239, the lowest of a number in network order). */
  predicate MayShare(p: Pcb, q: Pcb) {
    || (p.so.reusePort && q.so.reusePort)
    || (224 <= p.laddr % 256 < 240 && (p.so.reuseAddr || p.so.reusePort) && (q.so.reuseAddr || q.so.reusePort))
  }

  predicate SameBinding(p: Pcb, q: Pcb) {
    p.lport != 0 && p.lport == q.lport && p.laddr == q.laddr
  }

  ghost predicate Sharing(s: seq<Pcb>) {
    forall i, j | 0 <= i < |s| && 0 <= j < |s| && i != j && SameBinding(s[i], s[j]) :: MayShare(s[i], s[j])
  }

  ghost predicate NoneConnected(s: seq<Pcb>) {
    forall i | 0 <= i < |s| :: s[i].faddr == 0 && s[i].fport == 0
  }

  /** The newly bound `q` and whatever has its binding already. */
  lemma BoundMayShare(s: State, i: nat, nam: Option<Name>, net: Interfaces, j: nat)
    requires Sharing(s.pcbs) && NoneConnected(s.pcbs) && i < |s.pcbs|
    requires Bind(s, i, nam, net).Done? && Bind(s, i, nam, net).errno == OK
    requires j < |s.pcbs| && j != i && SameBinding(s.pcbs[j], Bind(s, i, nam, net).state.pcbs[i])
    ensures MayShare(s.pcbs[j], Bind(s, i, nam, net).state.pcbs[i])
  {
    var p, q := s.pcbs[i], Bind(s, i, nam, net).state.pcbs[i];
    var k := Key(0, 0, q.laddr, q.lport);
    assert Matches(s.pcbs[j], k, Wild(p.so)) && Wildcards(s.pcbs[j], k) == 0;
    var t := Search(s.pcbs, k, Wild(p.so));
    assert t.Some? && Wildcards(s.pcbs[t.value], k) == 0;
    assert SameBinding(s.pcbs[t.value], s.pcbs[j]) && Shares(p.so, s.pcbs[t.value].so, q.laddr);
  }

  lemma BindKeepsSharing(s: State, i: nat, nam: Option<Name>, net: Interfaces)
    requires Sharing(s.pcbs) && NoneConnected(s.pcbs) && i < |s.pcbs| && Bind(s, i, nam, net).Done?
    ensures Sharing(Bind(s, i, nam, net).state.pcbs) && NoneConnected(Bind(s, i, nam, net).state.pcbs)
  {
    var b := Bind(s, i, nam, net);
    var t := b.state.pcbs;
    if b.errno == OK {
      BoundBlock(s, i, nam, net);
      forall a, c | 0 <= a < |t| && 0 <= c < |t| && a != c && SameBinding(t[a], t[c]) ensures MayShare(t[a], t[c]) {
        if a == i {
          BoundMayShare(s, i, nam, net, c);
        } else if c == i {
          BoundMayShare(s, i, nam, net, a);
        }
      }
    }
  }

  lemma {:induction false} RunKeepsSharing(s: State, es: seq<Event>, t: State)
    requires Sharing(s.pcbs) && NoneConnected(s.pcbs) && Reaches(s, es, t)
    requires forall i | 0 <= i < |es| :: es[i].Allocated? || es[i].Bound?
    ensures Sharing(t.pcbs)
    decreases |es|
  {
    if es != [] {
      var next := Step(s, es[0]).state;
      if es[0].Bound? {
        BindKeepsSharing(s, es[0].i, es[0].nam, es[0].net);
      } else {
        assert Sharing(next.pcbs) by {
          forall a, b | 0 <= a < |next.pcbs| && 0 <= b < |next.pcbs| && a != b && SameBinding(next.pcbs[a], next.pcbs[b])
            ensures MayShare(next.pcbs[a], next.pcbs[b])
          {
            assert next.pcbs[a] == s.pcbs[a - 1] && next.pcbs[b] == s.pcbs[b - 1];
          }
        }
      }
      RunKeepsSharing(next, es[1..], t);
    }
  }

  /** However sockets of any kind are made and bound: those that end up with one address and port all
      asked to share it. */
  lemma SharersAsked(last: U16, es: seq<Event>, t: State, i: nat, j: nat)
    requires Reaches(State([], last), es, t) && forall e | e in es :: e.Allocated? || e.Bound?
    requires i < j < |t.pcbs| && SameBinding(t.pcbs[i], t.pcbs[j])
    ensures MayShare(t.pcbs[i], t.pcbs[j])
  {
    RunKeepsSharing(State([], last), es, t);
  }

  /** A new block may be bound to a name like this, as far as the name goes. */
  predicate Bindable(p: Pcb, n: Name, net: Interfaces) {
    && net.local != {} && p.laddr == 0 && p.lport == 0 && n.wellSized && n.port != 0
    && (n.addr == 0 || n.addr in net.local || 224 <= n.addr % 256 < 240)
  }

  /** Which binds to a port succeed: a plain socket's if and only if no block has the port at an address
      that could be the same; that of a socket that asks to reuse addresses, or listens for
      connections, if no unconnected block has just that binding; and any that asks to share if
      all others on the port do. */
  lemma BindsIff(s: State, i: nat, n: Name, net: Interfaces)
    requires i < |s.pcbs| && Bindable(s.pcbs[i], n, net)
    ensures Bind(s, i, Some(n), net).Done?
    ensures var ok, so := Bind(s, i, Some(n), net).errno == OK, s.pcbs[i].so;
      && (Plain(so) ==>
            (ok <==> forall q | q in s.pcbs ::
               q.lport != n.port || (q.laddr != 0 && n.addr != 0 && q.laddr != n.addr)))
      && (so.reuseAddr || so.reusePort || (so.connRequired && so.acceptConn) ==>
            (forall q | q in s.pcbs :: q.lport != n.port || q.laddr != n.addr || q.faddr != 0) ==> ok)
      && (so.reusePort ==> (forall q | q in s.pcbs :: q.lport == n.port ==> q.so.reusePort) ==> ok)
      && (so.reuseAddr && 224 <= n.addr % 256 < 240 ==>
            (forall q | q in s.pcbs :: q.lport == n.port ==> q.so.reuseAddr || q.so.reusePort) ==> ok)
  {
    var so, k := s.pcbs[i].so, Key(0, 0, n.addr, n.port);
    var t := Search(s.pcbs, k, Wild(so));
    if Plain(so) {
      forall q | q in s.pcbs
        ensures Matches(q, k, true) <==> !(q.lport != n.port || (q.laddr != 0 && n.addr != 0 && q.laddr != n.addr))
      {
      }
      assert t.None? <==> forall q | q in s.pcbs :: !Matches(q, k, true);
    }
  }

  /** What a bind that succeeds was given: a block that was not bound, an interface, and no name or one of
      the right size with an address that is local, multicast or none. */
  lemma BoundWasBindable(s: State, i: nat, nam: Option<Name>, net: Interfaces)
    requires i < |s.pcbs| && Bind(s, i, nam, net).Done? && Bind(s, i, nam, net).errno == OK
    ensures var p, q := s.pcbs[i], Bind(s, i, nam, net).state.pcbs[i];
      && net.local != {} && p.laddr == 0 && p.lport == 0 && (nam.Some? ==> nam.value.wellSized)
      && (q.laddr == 0 || q.laddr in net.local || 224 <= q.laddr % 256 < 240)
      && (nam.Some? ==> q.laddr == nam.value.addr && (nam.value.port != 0 ==> q.lport == nam.value.port))
      && (nam.None? ==> q.laddr == 0)
  {
    BoundBlock(s, i, nam, net);
  }

  /** Where the event leaves the block that was at `j`, if it leaves it in the table. */
  function Moved(s: State, e: Event, j: nat): Option<nat>
    requires Possible(s, e) && j < |s.pcbs|
  {
    match e
    case Allocated(_) => Some(j + 1)
    case Detached(i) => if j == i then None else Some(if j < i then j else j - 1)
    case Disconnected(i) =>
      if !s.pcbs[i].so.noFdRef then Some(j) else if j == i then None else Some(if j < i then j else j - 1)
    case _ => Some(j)
  }

  /** A binding is for life: no event changes a port or local address that a block has, nor the socket of
      any but the block it names; only a connect or disconnect changes a foreign side. */
  lemma BindingStays(s: State, e: Event, j: nat)
    requires Possible(s, e) && Step(s, e).Done? && j < |s.pcbs| && Moved(s, e, j).Some?
    ensures var t, k, p := Step(s, e).state.pcbs, Moved(s, e, j).value, s.pcbs[j];
      && k < |t| && (p.lport != 0 ==> t[k].lport == p.lport) && (p.laddr != 0 ==> t[k].laddr == p.laddr)
      && (t[k].so != p.so ==> e == SocketChanged(j, t[k].so))
      && (t[k].faddr != p.faddr || t[k].fport != p.fport ==>
            (e.ConnectedTo? || e.Disconnected?) && e.i == j && (e.ConnectedTo? ==> Step(s, e).errno == OK))
  {
    match e
    case Bound(i, nam, net) =>
      if Step(s, e).errno == OK {
        BoundWasBindable(s, i, nam, net);
        BoundBlock(s, i, nam, net);
      }
    case ConnectedTo(i, n, net, route) =>
      if Step(s, e).errno == OK {
        ConnectedBlock(s, i, n, net, route);
      }
    case _ =>
  }

  /** Where a connected block is connected to: the address asked for, or, if there are interfaces, the
      first one's own for 0.0.0.0 and its broadcast address for 255.255.255.255. It takes datagrams
      from there alone. */
  lemma AnswersItsPeer(s: State, i: nat, n: Name, net: Interfaces, route: Option<U32>, k: Key)
    requires i < |s.pcbs| && Connect(s, i, n, net, route).Done? && Connect(s, i, n, net, route).errno == OK
    requires k.faddr != 0 && k.laddr != 0 && Matches(Connect(s, i, n, net, route).state.pcbs[i], k, true)
    ensures k.fport == n.port || Target(n.addr, net) == 0
    ensures net.local == {} || (n.addr != 0 && n.addr != 0xffff_ffff) ==> n.addr == 0 || k.faddr == n.addr
    ensures net.local != {} && n.addr == 0 ==> net.primary == 0 || k.faddr == net.primary
    ensures net.local != {} && n.addr == 0xffff_ffff && net.broadcast.Some? ==>
              net.broadcast.value == 0 || k.faddr == net.broadcast.value
  {
    ConnectedBlock(s, i, n, net, route);
  }

  /** A disconnected block whose socket is still held keeps its binding and takes datagrams from
      anywhere again; another one is gone, and nothing else is. */
  lemma AnswersAnyone(s: State, i: nat, k: Key)
    requires i < |s.pcbs|
    ensures var p, t := s.pcbs[i], Disconnect(s, i).pcbs;
      && (!p.so.noFdRef ==>
            && |t| == |s.pcbs| && t[i].so == p.so && t[i].laddr == p.laddr && t[i].lport == p.lport
            && (Matches(t[i], k, true) <==> k.lport == p.lport && (p.laddr == 0 || k.laddr == 0 || k.laddr == p.laddr))
            && forall j | 0 <= j < |t| && j != i :: t[j] == s.pcbs[j])
      && (p.so.noFdRef ==> multiset(t) + multiset{p} == multiset(s.pcbs))
  {
    var p := s.pcbs[i];
    if p.so.noFdRef {
      assert s.pcbs == s.pcbs[..i] + [p] + s.pcbs[i + 1..];
    }
  }

  /** A port that bind chooses: read in network order it is the new last port, within the range. */
  lemma ChosenPort(s: State, i: nat, nam: Option<Name>, net: Interfaces)
    requires i < |s.pcbs| && Bind(s, i, nam, net).Done? && Bind(s, i, nam, net).errno == OK && NamePort(nam) == 0
    ensures var t := Bind(s, i, nam, net).state;
      var first, second := t.pcbs[i].lport % 256, t.pcbs[i].lport / 256;
      256 * first + second == t.lastport && 1024 <= t.lastport <= 5000
  {
    HtonsTwice(Bind(s, i, nam, net).state.lastport);
  }

  // ---------------------------------------------------------------- one block for a connection

  /** The four numbers by which a connection is known. */
  predicate SameQuad(p: Pcb, q: Pcb) {
    p.faddr == q.faddr && p.fport == q.fport && p.laddr == q.laddr && p.lport == q.lport
  }

  /** When nothing else stands against it, connect answers EADDRINUSE if and only if some block has
      the four numbers asked for, and then changes nothing. */
  lemma InUseIff(s: State, i: nat, n: Name, net: Interfaces, route: Option<U32>)
    requires i < |s.pcbs| && n.wellSized && n.inet && n.port != 0
    requires s.pcbs[i].laddr != 0 || route.Some?
    ensures var c, p := Connect(s, i, n, net, route), s.pcbs[i];
      var asked := Pcb(Target(n.addr, net), n.port, if p.laddr != 0 then p.laddr else route.value, p.lport, p.so);
      && (c == Done(s, EADDRINUSE) <==> exists j | 0 <= j < |s.pcbs| :: SameQuad(s.pcbs[j], asked))
      && (c.Done? ==> c.errno == OK || c.errno == EADDRINUSE)
  {
    var p := s.pcbs[i];
    var asked := Pcb(Target(n.addr, net), n.port, if p.laddr != 0 then p.laddr else route.value, p.lport, p.so);
    var k := Key(asked.faddr, asked.fport, asked.laddr, asked.lport);
    assert forall j | 0 <= j < |s.pcbs| :: Exact(s.pcbs[j], k) <==> SameQuad(s.pcbs[j], asked);
  }

  /** No other block has the four numbers of block `i`. */
  ghost predicate Alone(s: seq<Pcb>, i: nat)
    requires i < |s|
  {
    forall j | 0 <= j < |s| && j != i :: !SameQuad(s[j], s[i])
  }

  /** No two connected blocks have the same four numbers. (Connect gives a foreign port.) */
  ghost predicate QuadsApart(s: seq<Pcb>) {
    forall i | 0 <= i < |s| && s[i].fport != 0 :: Alone(s, i)
  }

  /** Connect will first bind the block, to a port that its lookup knew nothing of. */
  predicate BindsFirst(p: Pcb, net: Interfaces) {
    p.laddr == 0 && p.lport == 0 && net.local != {}
  }

  /** A block that is connected without being bound first is alone. */
  lemma ConnectIsAlone(s: State, i: nat, n: Name, net: Interfaces, route: Option<U32>)
    requires i < |s.pcbs| && Connect(s, i, n, net, route).Done? && Connect(s, i, n, net, route).errno == OK
    requires !BindsFirst(s.pcbs[i], net)
    ensures Alone(Connect(s, i, n, net, route).state.pcbs, i)
  {
    var p, t := s.pcbs[i], Connect(s, i, n, net, route).state.pcbs;
    ConnectedBlock(s, i, n, net, route);
    var k := Key(t[i].faddr, t[i].fport, t[i].laddr, p.lport);
    forall j | 0 <= j < |t| && j != i ensures !SameQuad(t[j], t[i]) {
      assert !Exact(s.pcbs[j], k);
    }
  }

  /** No block but the one at `i` has these four numbers. */
  ghost predicate NoneHas(s: seq<Pcb>, i: nat, faddr: U32, fport: U16, laddr: U32, lport: U16) {
    forall j | 0 <= j < |s| && j != i ::
      !(s[j].faddr == faddr && s[j].fport == fport && s[j].laddr == laddr && s[j].lport == lport)
  }

  /** A connect that must bind its block first, finds a port with which no other block has the four
      numbers; and so does a bind of a block that is connected already. */
  ghost predicate ClearStep(s: State, e: Event)
    requires Possible(s, e) && Step(s, e).Done?
  {
    match e
    case ConnectedTo(i, n, net, route) =>
      var p := s.pcbs[i];
      Step(s, e).errno == OK && BindsFirst(p, net) ==>
        var port := Ephemeral(s.pcbs, 0, Wild(p.so), s.lastport);
        port.Some? && route.Some? && NoneHas(s.pcbs, i, Target(n.addr, net), n.port, route.value, Htons(port.value))
    case Bound(i, nam, _) =>
      var p := s.pcbs[i];
      Step(s, e).errno == OK && p.fport != 0 ==>
        NoneHas(s.pcbs, i, p.faddr, p.fport, NameAddr(nam), Step(s, e).state.pcbs[i].lport)
    case _ => true
  }

  lemma ReplaceApartIff(s: seq<Pcb>, t: seq<Pcb>, i: nat)
    requires QuadsApart(s) && i < |s| == |t| && forall j | 0 <= j < |t| && j != i :: t[j] == s[j]
    ensures QuadsApart(t) <==> t[i].fport == 0 || Alone(t, i)
  {
    if t[i].fport == 0 || Alone(t, i) {
      forall a | 0 <= a < |t| && t[a].fport != 0 ensures Alone(t, a) {
        if a != i {
          assert Alone(s, a);
          assert !SameQuad(t[a], t[i]);
        }
      }
    }
  }

  /** The block that is bound by a connect. */
  lemma ConnectedPort(s: State, i: nat, n: Name, net: Interfaces, route: Option<U32>)
    requires i < |s.pcbs| && Connect(s, i, n, net, route).Done? && Connect(s, i, n, net, route).errno == OK
    requires BindsFirst(s.pcbs[i], net)
    ensures var port := Ephemeral(s.pcbs, 0, Wild(s.pcbs[i].so), s.lastport);
      port.Some? && route.Some? && Connect(s, i, n, net, route).state.pcbs[i].lport == Htons(port.value)
  {
  }

  lemma DetachKeepsApart(s: State, i: nat)
    requires QuadsApart(s.pcbs) && i < |s.pcbs|
    ensures QuadsApart(Detach(s, i).pcbs)
  {
    var t := Detach(s, i).pcbs;
    forall a, b | 0 <= a < |t| && t[a].fport != 0 && 0 <= b < |t| && b != a ensures !SameQuad(t[b], t[a]) {
      var a', b' := if a < i then a else a + 1, if b < i then b else b + 1;
      assert t[a] == s.pcbs[a'] && t[b] == s.pcbs[b'] && Alone(s.pcbs, a');
    }
  }

  lemma ConnectApartIff(s: State, i: nat, n: Name, net: Interfaces, route: Option<U32>)
    requires QuadsApart(s.pcbs) && i < |s.pcbs| && Connect(s, i, n, net, route).Done?
    ensures QuadsApart(Connect(s, i, n, net, route).state.pcbs) <==> ClearStep(s, ConnectedTo(i, n, net, route))
  {
    var c := Connect(s, i, n, net, route);
    if c.errno == OK {
      ConnectedBlock(s, i, n, net, route);
      ReplaceApartIff(s.pcbs, c.state.pcbs, i);
      if BindsFirst(s.pcbs[i], net) {
        ConnectedPort(s, i, n, net, route);
      } else {
        ConnectIsAlone(s, i, n, net, route);
      }
    }
  }

  lemma BindApartIff(s: State, i: nat, nam: Option<Name>, net: Interfaces)
    requires QuadsApart(s.pcbs) && i < |s.pcbs| && Bind(s, i, nam, net).Done?
    ensures QuadsApart(Bind(s, i, nam, net).state.pcbs) <==> ClearStep(s, Bound(i, nam, net))
  {
    var b := Bind(s, i, nam, net);
    if b.errno == OK {
      BoundBlock(s, i, nam, net);
      ReplaceApartIff(s.pcbs, b.state.pcbs, i);
    }
  }

  lemma StepApartIff(s: State, e: Event)
    requires QuadsApart(s.pcbs) && Possible(s, e) && Step(s, e).Done?
    ensures QuadsApart(Step(s, e).state.pcbs) <==> ClearStep(s, e)
  {
    var t := Step(s, e).state.pcbs;
    match e
    case Allocated(so) =>
      forall a, b | 0 <= a < |t| && t[a].fport != 0 && 0 <= b < |t| && b != a ensures !SameQuad(t[b], t[a]) {
        assert t[a] == s.pcbs[a - 1] && Alone(s.pcbs, a - 1);
        if b > 0 {
          assert t[b] == s.pcbs[b - 1];
        }
      }
    case Bound(i, nam, net) => BindApartIff(s, i, nam, net);
    case ConnectedTo(i, n, net, route) => ConnectApartIff(s, i, n, net, route);
    case Disconnected(i) =>
      if s.pcbs[i].so.noFdRef {
        DetachKeepsApart(s, i);
      } else {
        ReplaceApartIff(s.pcbs, t, i);
      }
    case Detached(i) => DetachKeepsApart(s, i);
    case SocketChanged(i, _) =>
      ReplaceApartIff(s.pcbs, t, i);
      assert s.pcbs[i].fport != 0 ==> Alone(s.pcbs, i);
  }

  ghost predicate ClearRun(s: State, es: seq<Event>)
    decreases |es|
  {
    es == [] ||
    (Possible(s, es[0]) && Step(s, es[0]).Done? && ClearStep(s, es[0]) && ClearRun(Step(s, es[0]).state, es[1..]))
  }

  /** In every state that the events lead through, connected blocks have different quadruples. */
  ghost predicate AlwaysApart(s: State, es: seq<Event>)
    decreases |es|
  {
    && QuadsApart(s.pcbs)
    && (es == [] ||
        (Possible(s, es[0]) && Step(s, es[0]).Done? && AlwaysApart(Step(s, es[0]).state, es[1..])))
  }

  lemma {:induction false} RunApartIff(s: State, es: seq<Event>, t: State)
    requires QuadsApart(s.pcbs) && Reaches(s, es, t)
    ensures AlwaysApart(s, es) <==> ClearRun(s, es)
    ensures ClearRun(s, es) ==> QuadsApart(t.pcbs)
    decreases |es|
  {
    if es != [] {
      StepApartIff(s, es[0]);
      if ClearStep(s, es[0]) {
        RunApartIff(Step(s, es[0]).state, es[1..], t);
      }
    }
  }

  /** Over every run from an empty table: connected blocks have different quadruples throughout if and
      only if no connect binds its block to a port with which another block has the quadruple. */
  lemma QuadsApartIff(last: U16, es: seq<Event>, t: State)
    requires Reaches(State([], last), es, t)
    ensures AlwaysApart(State([], last), es) <==> ClearRun(State([], last), es)
    ensures ClearRun(State([], last), es) ==> QuadsApart(t.pcbs)
  {
    RunApartIff(State([], last), es, t);
  }

  lemma NoMatchOnPort(s: seq<Pcb>, laddr: U32, lport: U16, j: nat)
    requires Search(s, Key(0, 0, laddr, lport), true).None? && j < |s|
    ensures !(s[j].lport == lport && s[j].laddr == laddr)
    ensures laddr == 0 ==> s[j].lport != lport
  {
    assert !Matches(s[j], Key(0, 0, laddr, lport), true);
  }

  /** A socket that asks to reuse nothing and does not listen is given a port that no block has at
      the address: its binds and connects are clear. */
  lemma PlainIsClear(s: State, e: Event)
    requires AllPlain(s.pcbs) && Possible(s, e) && Step(s, e).Done?
    ensures ClearStep(s, e)
  {
    if e.ConnectedTo? && Step(s, e).errno == OK && BindsFirst(s.pcbs[e.i], e.net) {
      ConnectedPort(s, e.i, e.name, e.net, e.route);
      var port := Ephemeral(s.pcbs, 0, Wild(s.pcbs[e.i].so), s.lastport).value;
      forall j | 0 <= j < |s.pcbs| ensures s.pcbs[j].lport != Htons(port) {
        NoMatchOnPort(s.pcbs, 0, Htons(port), j);
      }
    } else if e.Bound? && Step(s, e).errno == OK {
      BoundBlock(s, e.i, e.nam, e.net);
      var lport := Step(s, e).state.pcbs[e.i].lport;
      forall j | 0 <= j < |s.pcbs| ensures !(s.pcbs[j].lport == lport && s.pcbs[j].laddr == NameAddr(e.nam)) {
        NoMatchOnPort(s.pcbs, NameAddr(e.nam), lport, j);
      }
    }
  }

  lemma {:induction false} PlainRunIsClear(s: State, es: seq<Event>, t: State)
    requires Distinct(s.pcbs) && AllPlain(s.pcbs) && Reaches(s, es, t)
    requires forall i | 0 <= i < |es| :: PlainEvent(es[i])
    ensures ClearRun(s, es)
    decreases |es|
  {
    if es != [] {
      PlainIsClear(s, es[0]);
      StepKeepsDistinct(s, es[0]);
      PlainRunIsClear(Step(s, es[0]).state, es[1..], t);
    }
  }

  /** If no socket ever asks to reuse anything and none listens, connected blocks have different
      quadruples throughout. */
  lemma PlainQuadsApart(last: U16, es: seq<Event>, t: State)
    requires Reaches(State([], last), es, t) && forall e | e in es :: PlainEvent(e)
    ensures AlwaysApart(State([], last), es) && QuadsApart(t.pcbs)
  {
    PlainRunIsClear(State([], last), es, t);
    QuadsApartIff(last, es, t);
  }

  /** One that does ask may be given the quadruple of another. Block 1 is bound to a port of the range
      and connected; block 0 is then connected to the same place, gets the very port, and the two
      cannot be told apart. */
  lemma ReuseClashes(last: U16, soA: Socket, soB: Socket, n: Name, laddr: U32, net: Interfaces)
    returns (es: seq<Event>, t: State)
    requires soB.reuseAddr && laddr != 0 && laddr in net.local
    requires n.wellSized && n.inet && n.port != 0 && n.addr != 0 && n.addr != 0xffff_ffff
    ensures Reaches(State([], last), es, t) && |es| == 5 && es[0] == Allocated(soA) && es[2].ConnectedTo?
    ensures es[1] == Bound(0, Some(Name(true, true, laddr, Htons(NextPort(last)))), net)
    ensures es[3] == Allocated(soB) && es[4] == ConnectedTo(0, n, net, Some(laddr))
    ensures |t.pcbs| == 2 && t.pcbs[0].fport != 0 && SameQuad(t.pcbs[0], t.pcbs[1])
  {
    var lport := Htons(NextPort(last));
    HtonsTwice(NextPort(last));
    var bind := Some(Name(true, true, laddr, lport));
    var s0, a0 := State([], last), Pcb(0, 0, 0, 0, soA);
    var s1 := State([a0], last);
    var a2 := a0.(laddr := laddr, lport := lport);
    var a3 := a2.(faddr := n.addr, fport := n.port);
    var s2, s3 := State([a2], last), State([a3], last);
    var b0 := Pcb(0, 0, 0, 0, soB);
    var s4 := State([b0, a3], last);
    es := [Allocated(soA), Bound(0, bind, net), ConnectedTo(0, n, net, None), Allocated(soB),
           ConnectedTo(0, n, net, Some(laddr))];
    t := State([Pcb(n.addr, n.port, laddr, lport, soB), a3], NextPort(last));
    assert Step(s0, es[0]) == Done(s1, OK);
    FirstBind(s1, bind, net);
    FirstConnect(s2, n, net);
    assert Step(s3, es[3]) == Done(s4, OK);
    SecondConnect(s4, n, laddr, net);
    FiveSteps(s0, s1, s2, s3, s4, t, es);
  }

  lemma FirstBind(s: State, nam: Option<Name>, net: Interfaces)
    requires |s.pcbs| == 1 && s.pcbs[0].laddr == 0 && s.pcbs[0].lport == 0
    requires nam.Some? && nam.value.wellSized && nam.value.port != 0 && nam.value.addr in net.local
    ensures Bind(s, 0, nam, net)
         == Done(s.(pcbs := [s.pcbs[0].(laddr := nam.value.addr, lport := nam.value.port)]), OK)
  {
    var k := Key(0, 0, nam.value.addr, nam.value.port);
    assert Best(s.pcbs, 0, k, Wild(s.pcbs[0].so)).None?;
    assert Search(s.pcbs, k, Wild(s.pcbs[0].so)).None?;
  }

  lemma FirstConnect(s: State, n: Name, net: Interfaces)
    requires |s.pcbs| == 1 && s.pcbs[0].faddr == 0 && s.pcbs[0].fport == 0 && s.pcbs[0].laddr != 0
    requires n.wellSized && n.inet && n.port != 0 && n.addr != 0 && n.addr != 0xffff_ffff
    ensures Connect(s, 0, n, net, None) == Done(s.(pcbs := [s.pcbs[0].(faddr := n.addr, fport := n.port)]), OK)
  {
  }

  lemma SecondConnect(s: State, n: Name, laddr: U32, net: Interfaces)
    requires |s.pcbs| == 2 && s.pcbs[0] == Pcb(0, 0, 0, 0, s.pcbs[0].so) && s.pcbs[0].so.reuseAddr
    requires s.pcbs[1] == Pcb(n.addr, n.port, laddr, Htons(NextPort(s.lastport)), s.pcbs[1].so)
    requires laddr != 0 && laddr in net.local
    requires n.wellSized && n.inet && n.port != 0 && n.addr != 0 && n.addr != 0xffff_ffff
    ensures Connect(s, 0, n, net, Some(laddr))
         == Done(State([Pcb(n.addr, n.port, laddr, Htons(NextPort(s.lastport)), s.pcbs[0].so), s.pcbs[1]],
                       NextPort(s.lastport)), OK)
  {
    var port := NextPort(s.lastport);
    HtonsTwice(port);
    var k := Key(0, 0, 0, Htons(port));
    assert Best(s.pcbs, 0, k, false).None? && Best(s.pcbs, 1, k, false).None?;
    assert Free(s.pcbs, 0, false, port);
    FindPortStep(s.pcbs, 0, false, s.lastport, PORTS);
    assert Ephemeral(s.pcbs, 0, Wild(s.pcbs[0].so), s.lastport) == Some(port);
  }

  lemma FiveSteps(s0: State, s1: State, s2: State, s3: State, s4: State, t: State, es: seq<Event>)
    requires |es| == 5
    requires Possible(s0, es[0]) && Step(s0, es[0]).Done? && Step(s0, es[0]).state == s1
    requires Possible(s1, es[1]) && Step(s1, es[1]).Done? && Step(s1, es[1]).state == s2
    requires Possible(s2, es[2]) && Step(s2, es[2]).Done? && Step(s2, es[2]).state == s3
    requires Possible(s3, es[3]) && Step(s3, es[3]).Done? && Step(s3, es[3]).state == s4
    requires Possible(s4, es[4]) && Step(s4, es[4]).Done? && Step(s4, es[4]).state == t
    ensures Reaches(s0, es, t)
  {
    assert Reaches(t, [], t);
    assert es[4..] == [es[4]] && [es[4]][1..] == [];
    ReachesCons(s4, es[4], [], t);
    ReachesCons(s3, es[3], es[4..], t);
    ReachesCons(s2, es[2], es[3..], t);
    ReachesCons(s1, es[1], es[2..], t);
    ReachesCons(s0, es[0], es[1..], t);
    assert [es[3]] + es[4..] == es[3..] && [es[2]] + es[3..] == es[2..];
    assert [es[1]] + es[2..] == es[1..] && [es[0]] + es[1..] == es;
  }

  lemma ReachesCons(s: State, e: Event, es: seq<Event>, t: State)
    requires Possible(s, e) && Step(s, e).Done? && Reaches(Step(s, e).state, es, t)
    ensures Reaches(s, [e] + es, t)
  {
    assert ([e] + es)[1..] == es;
  }
}
