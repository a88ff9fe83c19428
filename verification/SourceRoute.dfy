/** Loose source routing (section 3.1 of RFC 791): what ip_dooptions does at each hop, and the
    route back that save_rte, ip_srcroute and ip_insertoptions make of the one recorded. */
module SourceRoute {
  import opened CTypes

  // ip.h
  const IPOPT_NOP: Byte := 1
  const IPOPT_LSRR: Byte := 131
  const IPOPT_MINOFF: Byte := 4
  const IPOPT_OFFSET := 2
  /** sizeof(ip_srcrt) - (1 + sizeof(dst)) */
  const SAVED_MAX := 43

  /** As many addresses as the option's length and pointer can count. */
  const MOST := 62

  /** As many as ip_srcrt has room for. */
  const ROUTE_MAX := 10

  type Addr = a: seq<Byte> | |a| == 4 witness [0, 0, 0, 0]

  const ANY: Addr := [0, 0, 0, 0]

  /** What a hop answers: whether an address is its own, and the address of the interface that
      leads to another. */
  datatype Host = Host(mine: Addr -> bool, toward: Addr -> Option<Addr>)

  /** A datagram's destination, its source route option, and the bytes behind the option. */
  datatype Routed = Routed(dst: Addr, opt: seq<Byte>, beyond: seq<Byte>)

  /** `Outside`: what is read does not lie in the bytes given. */
  datatype Outcome = Passed(d: Routed) | Advanced(d: Routed) | Ended | Bad | Outside

  function Flatten(list: seq<Addr>): (s: seq<Byte>)
    ensures |s| == 4 * |list|
  {
    if list == [] then [] else list[0] + Flatten(list[1..])
  }

  lemma {:induction false} FlattenAt(list: seq<Addr>, k: nat)
    requires k < |list|
    ensures Flatten(list)[4 * k..4 * k + 4] == list[k]
  {
    if k > 0 {
      FlattenAt(list[1..], k - 1);
      assert Flatten(list)[4 * k..4 * k + 4] == Flatten(list[1..])[4 * (k - 1)..4 * (k - 1) + 4];
    }
  }

  lemma {:induction false} FlattenWith(list: seq<Addr>, k: nat, a: Addr)
    requires k < |list|
    ensures Flatten(list[k := a]) == Flatten(list)[..4 * k] + a + Flatten(list)[4 * k + 4..]
  {
    if k > 0 {
      FlattenWith(list[1..], k - 1, a);
      assert list[k := a][1..] == list[1..][k - 1 := a];
      var f, g := Flatten(list), Flatten(list[1..]);
      assert f[..4 * k] == list[0] + g[..4 * (k - 1)] && f[4 * k + 4..] == g[4 * (k - 1) + 4..];
    } else {
      assert list[0 := a][1..] == list[1..];
    }
  }

  /** The option: its code, its length, the pointer, and the addresses. */
  function RouteOption(list: seq<Addr>, k: nat): seq<Byte>
    requires |list| <= MOST && k <= |list|
  {
    var len: Byte, ptr: Byte := 3 + 4 * |list|, 4 + 4 * k;
    [IPOPT_LSRR, len, ptr] + Flatten(list)
  }

  // ---------------------------------------------------------------- one hop

  /** `optlen - sizeof(struct in_addr)`, an unsigned difference. */
  function LastPlace(optlen: nat): U32 {
    (optlen - 4) % 0x1_0000_0000
  }

  function Store(mem: seq<Byte>, off: nat, a: Addr, ptr: Byte): (r: seq<Byte>)
    requires 3 <= off && off + 4 <= |mem|
    ensures |r| == |mem|
  {
    var moved: Byte := (ptr + 4) % 256;
    (mem[..off] + a + mem[off + 4..])[IPOPT_OFFSET := moved]
  }

  /** The LSRR case of ip_dooptions, for an option of any length. */
  function Hop(h: Host, d: Routed): Outcome {
    var mem := d.opt + d.beyond;
    if |mem| <= IPOPT_OFFSET then Outside
    else
      var ptr := mem[IPOPT_OFFSET];
      if ptr < IPOPT_MINOFF then Bad
      else if !h.mine(d.dst) then Passed(d)
      else if ptr - 1 > LastPlace(|d.opt|) then Ended
      else if ptr + 3 > |mem| then Outside
      else
        var next: Addr := mem[ptr - 1..ptr + 3];
        match h.toward(next)
        case None => Bad
        case Some(out) =>
          var m := Store(mem, ptr - 1, out, ptr);
          Advanced(Routed(next, m[..|d.opt|], m[|d.opt|..]))
  }

  /** The same, with nothing but the option read or written. */
  function HopInside(h: Host, d: Routed): Outcome
    requires |d.opt| >= 4
  {
    var ptr := d.opt[IPOPT_OFFSET];
    if ptr < IPOPT_MINOFF then Bad
    else if !h.mine(d.dst) then Passed(d)
    else if ptr > |d.opt| - 3 then Ended
    else
      var next: Addr := d.opt[ptr - 1..ptr + 3];
      match h.toward(next)
      case None => Bad
      case Some(out) => Advanced(Routed(next, Store(d.opt, ptr - 1, out, ptr), d.beyond))
  }

  lemma StoreFirst(a: seq<Byte>, b: seq<Byte>, off: nat, out: Addr, ptr: Byte)
    requires 3 <= off && off + 4 <= |a|
    ensures Store(a + b, off, out, ptr)[..|a|] == Store(a, off, out, ptr)
    ensures Store(a + b, off, out, ptr)[|a|..] == b
  {
    assert Store(a + b, off, out, ptr) == Store(a, off, out, ptr) + b;
  }

  /** A hop reads and writes nothing but the option if that has four bytes or more. */
  lemma StaysInside(h: Host, d: Routed)
    requires 4 <= |d.opt| < 256
    ensures Hop(h, d) == HopInside(h, d)
  {
    var mem, ptr := d.opt + d.beyond, d.opt[IPOPT_OFFSET];
    if IPOPT_MINOFF <= ptr <= |d.opt| - 3 {
      assert mem[ptr - 1..ptr + 3] == d.opt[ptr - 1..ptr + 3];
      if h.toward(d.opt[ptr - 1..ptr + 3]).Some? {
        StoreFirst(d.opt, d.beyond, ptr - 1, h.toward(d.opt[ptr - 1..ptr + 3]).value, ptr);
      }
    }
  }

  /** A route ends at a host of its destination when the pointer leaves no room for an address,
      and if and only if the option is not so short that the difference wraps. */
  lemma EndsIff(h: Host, d: Routed)
    requires 0 < |d.opt| < 256
    ensures Hop(h, d).Ended?
       <==> |d.opt| >= 4 && h.mine(d.dst) && d.opt[IPOPT_OFFSET] >= IPOPT_MINOFF && d.opt[IPOPT_OFFSET] > |d.opt| - 3
  {
  }

  /** A shorter option lets the hop take an address from the bytes behind it and write its own
      there. */
  lemma ShortOptionGoesBeyond(h: Host, d: Routed)
    requires |d.opt| < 4 && Hop(h, d).Advanced?
    ensures var at, r := (d.opt + d.beyond)[IPOPT_OFFSET] as int - 1 - |d.opt|, Hop(h, d).d;
      && 0 <= at <= |d.beyond| - 4 && |r.beyond| == |d.beyond| && r.dst == d.beyond[at..at + 4]
      && h.toward(r.dst).Some? && r.beyond[at..at + 4] == h.toward(r.dst).value
  {
    var mem, ptr := d.opt + d.beyond, (d.opt + d.beyond)[IPOPT_OFFSET];
    var at, n := ptr as int - 1 - |d.opt|, |d.opt|;
    assert mem[n..] == d.beyond;
    assert mem[ptr - 1..ptr + 3] == mem[n..][at..at + 4];
    var out := h.toward(mem[ptr - 1..ptr + 3]).value;
    var m := Store(mem, ptr - 1, out, ptr);
    assert m[ptr - 1..ptr + 3] == out;
    assert m[n..][at..at + 4] == m[ptr - 1..ptr + 3];
  }

  /** Such an option: three bytes, with a pointer just past them. */
  lemma ShortOptionAdvances(h: Host, dst: Addr, next: Addr, out: Addr)
    requires h.mine(dst) && h.toward(next) == Some(out)
    ensures Hop(h, Routed(dst, [IPOPT_LSRR, 3, 4], next)) == Advanced(Routed(next, [IPOPT_LSRR, 3, 8], out))
  {
    var mem := [IPOPT_LSRR, 3, 4] + next;
    assert mem[3..7] == next;
    assert Store(mem, 3, out, 4) == [IPOPT_LSRR, 3, 8] + out;
    assert ([IPOPT_LSRR, 3, 8] + out)[..3] == [IPOPT_LSRR, 3, 8] && ([IPOPT_LSRR, 3, 8] + out)[3..] == out;
  }

  /** The fields of a header that ip_dooptions updates in place: the destination, and the bytes
      from the option on. */
  class Header {
    var dst: Addr
    var mem: seq<Byte>
    const optlen: nat

    ghost predicate Valid()
      reads this
    {
      optlen <= |mem|
    }

    function Value(): Routed
      requires optlen <= |mem|
      reads this
    {
      Routed(dst, mem[..optlen], mem[optlen..])
    }

    method Lsrr(h: Host) returns (r: Outcome)
      requires Valid()
      modifies this
      ensures Valid() && r == old(Hop(h, Value()))
      ensures Value() == if r.Advanced? then r.d else old(Value())
    {
      assert mem[..optlen] + mem[optlen..] == mem;
      if |mem| <= IPOPT_OFFSET {
        return Outside;
      }
      var off: int := mem[IPOPT_OFFSET];
      if off < IPOPT_MINOFF {
        return Bad;
      }
      if !h.mine(dst) {
        return Passed(Value());
      }
      off := off - 1;
      if off > (optlen - 4) % 0x1_0000_0000 {
        return Ended;
      }
      if off + 4 > |mem| {
        return Outside;
      }
      var next: Addr := mem[off..off + 4];
      var ia := h.toward(next);
      if ia == None {
        return Bad;
      }
      dst := next;
      mem := mem[..off] + ia.value + mem[off + 4..];
      var ptr: int := mem[IPOPT_OFFSET];
      mem := mem[IPOPT_OFFSET := (ptr + 4) % 256];
      r := Advanced(Value());
    }
  }

  /** At the `k`th address of its route: the addresses before are replaced by those recorded. */
  ghost predicate OnRoute(d: Routed, first: Addr, route: seq<Addr>, recorded: seq<Addr>) {
    && 0 < |route| <= MOST && |recorded| <= |route|
    && d.dst == (if recorded == [] then first else route[|recorded| - 1])
    && d.opt == RouteOption(recorded + route[|recorded|..], |recorded|)
  }

  lemma NextAddress(list: seq<Addr>, k: nat)
    requires |list| <= MOST && k < |list|
    ensures RouteOption(list, k)[3 + 4 * k..7 + 4 * k] == list[k]
  {
    FlattenAt(list, k);
    assert RouteOption(list, k)[3 + 4 * k..7 + 4 * k] == Flatten(list)[4 * k..4 * k + 4];
  }

  lemma AdvancedOption(list: seq<Addr>, k: nat, out: Addr)
    requires |list| <= MOST && k < |list|
    ensures Store(RouteOption(list, k), 3 + 4 * k, out, 4 + 4 * k) == RouteOption(list[k := out], k + 1)
  {
    FlattenWith(list, k, out);
    var o, off, f := RouteOption(list, k), 3 + 4 * k, Flatten(list);
    assert o[..off] == o[..3] + f[..4 * k] && o[off + 4..] == f[4 * k + 4..];
  }

  /** The hop's own address takes the place of the next one of the route. */
  lemma HopAdvances(h: Host, d: Routed, first: Addr, route: seq<Addr>, recorded: seq<Addr>, out: Addr)
    requires OnRoute(d, first, route, recorded) && h.mine(d.dst) && |recorded| < |route|
    requires h.toward(route[|recorded|]) == Some(out)
    ensures var k, r := |recorded|, Hop(h, d);
      && r.Advanced? && r.d.dst == route[k] && r.d.opt[IPOPT_OFFSET] == d.opt[IPOPT_OFFSET] + 4
      && OnRoute(r.d, first, route, recorded + [out])
  {
    var k, list := |recorded|, recorded + route[|recorded|..];
    StaysInside(h, d);
    NextAddress(list, k);
    AdvancedOption(list, k, out);
    assert list[k := out] == (recorded + [out]) + route[k + 1..];
  }

  /** A hop that does not own the destination passes the datagram on; one that does sends it to the
      next address of the route, writes its own into the place, and moves the pointer by 4; the
      last one ends the route. */
  lemma HopFollows(h: Host, d: Routed, first: Addr, route: seq<Addr>, recorded: seq<Addr>)
    requires OnRoute(d, first, route, recorded)
    ensures var k, r := |recorded|, Hop(h, d);
      && (!h.mine(d.dst) ==> r == Passed(d))
      && (h.mine(d.dst) && k == |route| ==> r == Ended)
      && (h.mine(d.dst) && k < |route| && h.toward(route[k]).None? ==> r == Bad)
      && (h.mine(d.dst) && k < |route| && h.toward(route[k]).Some? ==>
            && r.Advanced? && r.d.dst == route[k] && r.d.opt[IPOPT_OFFSET] == d.opt[IPOPT_OFFSET] + 4
            && OnRoute(r.d, first, route, recorded + [h.toward(route[k]).value]))
  {
    var k, list := |recorded|, recorded + route[|recorded|..];
    if h.mine(d.dst) && k < |route| && h.toward(route[k]).Some? {
      HopAdvances(h, d, first, route, recorded, h.toward(route[k]).value);
    } else {
      StaysInside(h, d);
      if k < |route| {
        NextAddress(list, k);
      }
    }
  }

  // ---------------------------------------------------------------- a whole journey

  /** The addresses at which the datagram arrives, and those recorded there, as it meets the hosts
      of a path one by one; `final` is its option where its route ended, if it did. */
  datatype Journey = Journey(arrived: seq<Addr>, recorded: seq<Addr>, final: Option<seq<Byte>>) {
    predicate Done() { final.Some? }
  }

  function Travel(path: seq<Host>, d: Routed): Journey
    decreases |path|
  {
    if path == [] then Journey([], [], None)
    else
      match Hop(path[0], d)
      case Bad => Journey([], [], None)
      case Outside => Journey([], [], None)
      case Passed(e) => Travel(path[1..], e)
      case Ended => Journey([d.dst], [], Some(d.opt))
      case Advanced(e) =>
        var j := Travel(path[1..], e);
        Journey([d.dst] + j.arrived, [AddressToward(path[0], e.dst)] + j.recorded, j.final)
  }

  function AddressToward(h: Host, a: Addr): Addr {
    if h.toward(a).Some? then h.toward(a).value else ANY
  }

  /** The journey goes through a beginning of `ahead`, the addresses still to come; where it is
      ended, through all of it, and its option holds the addresses recorded. */
  ghost predicate Follows(j: Journey, ahead: seq<Addr>, recorded: seq<Addr>) {
    && j.arrived <= ahead
    && (j.Done() ==>
          && j.arrived == ahead && |j.recorded| == |ahead| - 1 && |recorded + j.recorded| <= MOST
          && j.final.value == RouteOption(recorded + j.recorded, |recorded + j.recorded|))
  }

  lemma FollowsOn(j: Journey, at: Addr, ahead: seq<Addr>, out: Addr, recorded: seq<Addr>)
    requires Follows(j, ahead, recorded + [out])
    ensures Follows(Journey([at] + j.arrived, [out] + j.recorded, j.final), [at] + ahead, recorded)
  {
    assert recorded + [out] + j.recorded == recorded + ([out] + j.recorded);
  }

  lemma {:induction false} TravelFollows(path: seq<Host>, d: Routed, first: Addr, route: seq<Addr>, recorded: seq<Addr>)
    requires OnRoute(d, first, route, recorded)
    ensures Follows(Travel(path, d), [d.dst] + route[|recorded|..], recorded)
    decreases |path|
  {
    if path != [] {
      HopFollows(path[0], d, first, route, recorded);
      match Hop(path[0], d)
      case Bad =>
      case Outside =>
      case Ended => assert recorded + route[|recorded|..] == recorded + [];
      case Passed(e) => TravelFollows(path[1..], e, first, route, recorded);
      case Advanced(e) => TravelGoesOn(path, d, first, route, recorded);
    }
  }

  lemma {:induction false} TravelGoesOn(path: seq<Host>, d: Routed, first: Addr, route: seq<Addr>, recorded: seq<Addr>)
    requires OnRoute(d, first, route, recorded) && path != [] && Hop(path[0], d).Advanced?
    ensures Follows(Travel(path, d), [d.dst] + route[|recorded|..], recorded)
    decreases |path|, 0
  {
    HopFollows(path[0], d, first, route, recorded);
    var e, k := Hop(path[0], d).d, |recorded|;
    var out := path[0].toward(route[k]).value;
    TravelFollows(path[1..], e, first, route, recorded + [out]);
    assert route[k..] == [e.dst] + route[k + 1..];
    FollowsOn(Travel(path[1..], e), d.dst, route[k..], out, recorded);
  }

  /** Whatever hosts a datagram meets, it arrives at the addresses of its source route in order;
      if the route is ended it was at all of them, and its option then holds those recorded. */
  lemma RouteIsFollowed(path: seq<Host>, first: Addr, route: seq<Addr>, beyond: seq<Byte>)
    requires 0 < |route| <= MOST
    ensures var j := Travel(path, Routed(first, RouteOption(route, 0), beyond));
      && j.arrived <= [first] + route
      && (j.Done() ==>
            && j.arrived == [first] + route && |j.recorded| == |route|
            && j.final.value == RouteOption(j.recorded, |route|))
  {
    assert [] + route[0..] == route;
    TravelFollows(path, Routed(first, RouteOption(route, 0), beyond), first, route, []);
    assert route[0..] == route;
    var j := Travel(path, Routed(first, RouteOption(route, 0), beyond));
    assert [] + j.recorded == j.recorded;
  }

  // ---------------------------------------------------------------- the way back

  function Reverse(s: seq<Addr>): seq<Addr> {
    if s == [] then [] else Reverse(s[1..]) + [s[0]]
  }

  lemma {:induction false} ReverseLast(s: seq<Addr>, k: nat)
    requires k < |s|
    ensures Reverse(s[..k + 1]) == [s[k]] + Reverse(s[..k])
  {
    if k > 0 {
      ReverseLast(s[1..], k - 1);
      assert s[..k + 1][1..] == s[1..][..k] && s[..k][1..] == s[1..][..k - 1];
    } else {
      assert s[..1] == [s[0]] && s[..0] == [] && s[..1][1..] == [];
    }
  }

  /** What ip_srcroute returns: the first hop, and the options. */
  datatype Reply = Reply(firstHop: Addr, options: seq<Byte>)

  /** How many whole addresses an option of `olen` bytes has room for: ip_nhops. */
  function Hops(olen: nat): nat
    requires olen >= 3
  {
    (olen - 3) / 4
  }

  function AddrAt(route: seq<Byte>, k: nat): Addr
    requires 4 * k + 4 <= |route|
  {
    route[4 * k..4 * k + 4]
  }

  /** The first `n` addresses, last to first. */
  function Backwards(route: seq<Byte>, n: nat): (s: seq<Byte>)
    requires 4 * n <= |route|
    ensures |s| == 4 * n
  {
    if n == 0 then [] else AddrAt(route, n - 1) + Backwards(route, n - 1)
  }

  /** ip_srcroute, from what is saved: the option's header, the bytes after it, and the source. */
  function ReplyFrom(srcopt: seq<Byte>, route: seq<Byte>, nhops: nat, src: Addr): Option<Reply>
    requires |srcopt| == 3 && 4 * nhops <= |route|
  {
    if nhops == 0 then None
    else
      Some(Reply(AddrAt(route, nhops - 1),
                 [IPOPT_NOP] + (srcopt[IPOPT_OFFSET := IPOPT_MINOFF] + (Backwards(route, nhops - 1) + src))))
  }

  /** The reply to a datagram whose route ended with this option. */
  function ReplyTo(option: seq<Byte>, src: Addr): Option<Reply>
    requires |option| >= 4
  {
    ReplyFrom(option[..3], option[3..], Hops(|option|), src)
  }

  lemma {:induction false} BackwardsPrefix(a: seq<Byte>, b: seq<Byte>, n: nat)
    requires 4 * n <= |a|
    ensures Backwards(a + b, n) == Backwards(a, n)
  {
    if n > 0 {
      BackwardsPrefix(a, b, n - 1);
      assert AddrAt(a + b, n - 1) == AddrAt(a, n - 1);
    }
  }

  lemma ReplyPrefix(srcopt: seq<Byte>, a: seq<Byte>, b: seq<Byte>, n: nat, src: Addr)
    requires |srcopt| == 3 && 4 * n <= |a|
    ensures ReplyFrom(srcopt, a + b, n, src) == ReplyFrom(srcopt, a, n, src)
  {
    if n > 0 {
      BackwardsPrefix(a, b, n - 1);
      assert AddrAt(a + b, n - 1) == AddrAt(a, n - 1);
    }
  }

  lemma {:induction false} BackwardsFlatten(list: seq<Addr>, n: nat)
    requires n <= |list|
    ensures Backwards(Flatten(list), n) == Flatten(Reverse(list[..n]))
  {
    if n > 0 {
      BackwardsFlatten(list, n - 1);
      FlattenAt(list, n - 1);
      ReverseLast(list, n - 1);
      assert ([list[n - 1]] + Reverse(list[..n - 1]))[1..] == Reverse(list[..n - 1]);
    } else {
      assert list[..0] == [];
    }
  }

  lemma {:induction false} FlattenAppend(list: seq<Addr>, a: Addr)
    ensures Flatten(list + [a]) == Flatten(list) + a
  {
    if list == [] {
      assert [a][1..] == [] && [] + [a] == [a];
    } else {
      FlattenAppend(list[1..], a);
      assert (list + [a])[1..] == list[1..] + [a];
    }
  }

  /** The route back from the addresses recorded: the last of them first, then the others in
      reverse as a source route that ends at the source. */
  function BackRoute(recorded: seq<Addr>, src: Addr): Reply
    requires 0 < |recorded| <= ROUTE_MAX
  {
    var last := |recorded| - 1;
    ReverseLength(recorded[..last]);
    Reply(recorded[last], [IPOPT_NOP] + RouteOption(Reverse(recorded[..last]) + [src], 0))
  }

  lemma RouteOptionParts(list: seq<Addr>, k: nat)
    requires |list| <= MOST && k <= |list|
    ensures var o, len: Byte := RouteOption(list, k), 3 + 4 * |list|;
      && |o| == len && o[3..] == Flatten(list)
      && o[..3][IPOPT_OFFSET := IPOPT_MINOFF] == [IPOPT_LSRR, len, IPOPT_MINOFF]
  {
  }

  lemma LastAddr(recorded: seq<Addr>)
    requires 0 < |recorded|
    ensures AddrAt(Flatten(recorded), |recorded| - 1) == recorded[|recorded| - 1]
  {
    FlattenAt(recorded, |recorded| - 1);
  }

  lemma ThenSource(bytes: seq<Byte>, behind: seq<Addr>, src: Addr)
    requires bytes == Flatten(behind)
    ensures bytes + src == Flatten(behind + [src])
  {
    FlattenAppend(behind, src);
  }

  /** From a loose route's option, wherever its pointer stands, ip_srcroute makes the route back. */
  lemma ReplyIsBackRoute(recorded: seq<Addr>, k: nat, src: Addr)
    requires 0 < |recorded| <= ROUTE_MAX && k <= |recorded|
    ensures ReplyTo(RouteOption(recorded, k), src) == Some(BackRoute(recorded, src))
  {
    var o, n := RouteOption(recorded, k), |recorded|;
    RouteOptionParts(recorded, k);
    LastAddr(recorded);
    BackwardsFlatten(recorded, n - 1);
    ThenSource(Backwards(Flatten(recorded), n - 1), Reverse(recorded[..n - 1]), src);
    ReverseLength(recorded[..n - 1]);
  }

  /** There is a reply exactly when a whole address was saved. Its options are as long as their
      own length byte says exactly when the option saved held nothing but whole addresses; strict
      and loose alike, the code is the one saved. */
  lemma ReplyIsOptionIff(option: seq<Byte>, src: Addr)
    requires 4 <= |option| <= SAVED_MAX && option[1] == |option|
    ensures ReplyTo(option, src).Some? <==> |option| >= 7
    ensures |option| >= 7 ==>
      var o := ReplyTo(option, src).value.options[1..];
      && o[0] == option[0] && o[IPOPT_OFFSET] == IPOPT_MINOFF
      && (|o| == o[1] <==> (|option| - 3) % 4 == 0)
  {
    if |option| >= 7 {
      var srcopt, n := option[..3][IPOPT_OFFSET := IPOPT_MINOFF], Hops(|option|);
      assert ReplyTo(option, src).value.options[1..] == srcopt + (Backwards(option[3..], n - 1) + src);
    }
  }

  /** ip_srcrt and ip_nhops; `route` is the array's forty bytes. */
  class SavedRoute {
    var dst: Addr
    var srcopt: seq<Byte>
    var route: seq<Byte>
    var nhops: nat

    ghost predicate Valid()
      reads this
    {
      |srcopt| == 3 && |route| == 4 * ROUTE_MAX && nhops <= ROUTE_MAX
    }

    /** What ip_srcroute would return, given an mbuf. */
    ghost function Saved(): Option<Reply>
      requires Valid()
      reads this
    {
      ReplyFrom(srcopt, route, nhops, dst)
    }

    constructor ()
      ensures Valid() && nhops == 0
    {
      dst, srcopt, route, nhops := ANY, [0, 0, 0], seq(4 * ROUTE_MAX, _ => 0), 0;
    }

    /** save_rte; by EndsIff its option has four bytes or more. */
    method SaveRte(option: seq<Byte>, src: Addr)
      requires Valid() && |option| >= 4 && option[1] == |option|
      modifies this
      ensures Valid()
      ensures |option| <= SAVED_MAX ==> Saved() == ReplyTo(option, src) && nhops == Hops(|option|)
      ensures |option| > SAVED_MAX ==> Saved() == old(Saved()) && nhops == old(nhops)
    {
      var olen := option[1];
      if olen > SAVED_MAX {
        return;
      }
      ghost var rest := route[olen - 3..];
      srcopt := option[..3];
      route := option[3..] + route[olen - 3..];
      nhops := (olen - 3) / 4;
      dst := src;
      ReplyPrefix(srcopt, option[3..], rest, nhops, src);
    }

    /** ip_srcroute; `mbuf` says whether one could be had. */
    method SrcRoute(mbuf: bool) returns (m: Option<Reply>)
      requires Valid()
      modifies `srcopt
      ensures Valid() && m == if mbuf then old(Saved()) else None
      ensures Saved() == old(Saved())
    {
      if nhops == 0 || !mbuf {
        return None;
      }
      var p: int := nhops - 1;
      var firstHop := AddrAt(route, p);
      p := p - 1;
      srcopt := srcopt[IPOPT_OFFSET := IPOPT_MINOFF];
      var q: seq<Byte> := [];
      while p >= 0
        invariant -1 <= p < nhops - 1
        invariant q + Backwards(route, p + 1) == Backwards(route, nhops - 1)
      {
        q := q + AddrAt(route, p);
        p := p - 1;
      }
      assert q + [] == q;
      assert srcopt[IPOPT_OFFSET := IPOPT_MINOFF] == srcopt;
      m := Some(Reply(firstHop, [IPOPT_NOP] + (srcopt + (q + dst))));
    }
  }

  lemma {:induction false} ReverseLength(s: seq<Addr>)
    ensures |Reverse(s)| == |s|
  {
    if s != [] {
      ReverseLength(s[1..]);
    }
  }

  /** ip_insertoptions: the destination and the options of the datagram that carries the reply. */
  function Inserted(opt: Reply, dst: Addr, ipLen: nat): (Addr, seq<Byte>) {
    if |opt.options| + ipLen > 65535 then (dst, [])
    else (if opt.firstHop != ANY then opt.firstHop else dst, opt.options)
  }

  /** A reply to a datagram that came by a source route goes back through the addresses recorded,
      in reverse, and its route ends at the source. */
  lemma ReplyReverses(path: seq<Host>, recorded: seq<Addr>, src: Addr, dst: Addr, ipLen: nat, beyond: seq<Byte>)
    requires 0 < |recorded| <= ROUTE_MAX && recorded[|recorded| - 1] != ANY && ipLen <= 65535 - 44
    ensures var (first, options) := Inserted(BackRoute(recorded, src), dst, ipLen);
      && |options| >= 5 && options[0] == IPOPT_NOP
      && var j := Travel(path, Routed(first, options[1..], beyond));
         && j.arrived <= Reverse(recorded) + [src]
         && (j.Done() ==> j.arrived == Reverse(recorded) + [src])
  {
    var last := |recorded| - 1;
    var back := Reverse(recorded[..last]) + [src];
    ReverseLength(recorded[..last]);
    ReverseLast(recorded, last);
    assert recorded[..last + 1] == recorded;
    assert Reverse(recorded) + [src] == [recorded[last]] + back;
    var o := BackRoute(recorded, src).options;
    assert o[1..] == RouteOption(back, 0);
    RouteIsFollowed(path, recorded[last], back, beyond);
  }

  /** Out and back: if the route out is ended, the reply that ip_srcroute makes of the option as
      it arrived goes through the addresses that the hops on the way recorded, last to first, to
      the source. */
  lemma OutAndBack(out: seq<Host>, back: seq<Host>, first: Addr, route: seq<Addr>, src: Addr, dst: Addr, ipLen: nat,
                   beyond: seq<Byte>, beyondBack: seq<Byte>)
    requires 0 < |route| <= ROUTE_MAX && ipLen <= 65535 - 44
    ensures var j := Travel(out, Routed(first, RouteOption(route, 0), beyond));
      j.Done() ==>
        && |j.recorded| == |route| && |j.final.value| >= 4
        && ReplyTo(j.final.value, src) == Some(BackRoute(j.recorded, src))
        && (j.recorded[|route| - 1] != ANY ==>
              var (hop, options) := Inserted(ReplyTo(j.final.value, src).value, dst, ipLen);
              && |options| >= 5
              && var k := Travel(back, Routed(hop, options[1..], beyondBack));
                 && k.arrived <= Reverse(j.recorded) + [src]
                 && (k.Done() ==> k.arrived == Reverse(j.recorded) + [src]))
  {
    RouteIsFollowed(out, first, route, beyond);
    var j := Travel(out, Routed(first, RouteOption(route, 0), beyond));
    if j.Done() {
      ReplyIsBackRoute(j.recorded, |route|, src);
      if j.recorded[|route| - 1] != ANY {
        ReplyReverses(back, j.recorded, src, dst, ipLen, beyondBack);
      }
    }
  }
}
