/** in_pcb.c itself: control blocks on the heap, on one list and on the chains of a hash table. */
module InPcb {
  import opened CTypes
  import T = PcbTable

  class Inpcb {
    var faddr: U32
    var fport: U16
    var laddr: U32
    var lport: U16
    var so: T.Socket
    /** The chain on which inp_hash links the block. */
    var chain: nat

    constructor (so0: T.Socket)
      ensures Value() == T.Pcb(0, 0, 0, 0, so0)
    {
      faddr, fport, laddr, lport, so, chain := 0, 0, 0, 0, so0, 0;
    }

    function Value(): T.Pcb
      reads this
    {
      T.Pcb(faddr, fport, laddr, lport, so)
    }
  }

  /** `s` lists the set `m`, each element once. */
  ghost predicate Lists(s: seq<Inpcb>, m: set<Inpcb>) {
    if s == [] then m == {} else s[0] in m && Lists(s[1..], m - {s[0]})
  }

  lemma {:induction false} ListedIn(s: seq<Inpcb>, m: set<Inpcb>, i: nat)
    requires Lists(s, m) && i < |s|
    ensures s[i] in m
  {
    if i > 0 {
      ListedIn(s[1..], m - {s[0]}, i - 1);
    }
  }

  lemma {:induction false} ListedAt(s: seq<Inpcb>, m: set<Inpcb>, p: Inpcb) returns (i: nat)
    requires Lists(s, m) && p in m
    ensures i < |s| && s[i] == p
  {
    if s[0] == p {
      i := 0;
    } else {
      i := ListedAt(s[1..], m - {s[0]}, p);
      i := i + 1;
    }
  }

  lemma {:induction false} ListedOnce(s: seq<Inpcb>, m: set<Inpcb>, i: nat, j: nat)
    requires Lists(s, m) && i < j < |s|
    ensures s[i] != s[j]
  {
    if i == 0 {
      ListedIn(s[1..], m - {s[0]}, j - 1);
    } else {
      ListedOnce(s[1..], m - {s[0]}, i - 1, j - 1);
    }
  }

  /** LIST_REMOVE */
  function Remove(s: seq<Inpcb>, p: Inpcb): seq<Inpcb> {
    if s == [] then [] else if s[0] == p then s[1..] else [s[0]] + Remove(s[1..], p)
  }

  lemma {:induction false} RemoveLists(s: seq<Inpcb>, m: set<Inpcb>, p: Inpcb)
    requires Lists(s, m)
    ensures Lists(Remove(s, p), m - {p})
    ensures p !in m ==> Remove(s, p) == s
  {
    if s != [] {
      if s[0] != p {
        RemoveLists(s[1..], m - {s[0]}, p);
        assert m - {s[0]} - {p} == m - {p} - {s[0]};
        assert Remove(s, p)[1..] == Remove(s[1..], p);
      }
    } else {
      assert m - {p} == {};
    }
  }

  lemma {:induction false} RemoveAt(s: seq<Inpcb>, m: set<Inpcb>, i: nat)
    requires Lists(s, m) && i < |s|
    ensures Remove(s, s[i]) == s[..i] + s[i + 1..]
  {
    if i > 0 {
      ListedOnce(s, m, 0, i);
      RemoveAt(s[1..], m - {s[0]}, i - 1);
      assert s[1..][..i - 1] == s[1..i] && s[1..][i..] == s[i + 1..];
      assert s[..i] == [s[0]] + s[1..i];
    }
  }

  lemma InsertLists(s: seq<Inpcb>, m: set<Inpcb>, p: Inpcb)
    requires Lists(s, m) && p !in m
    ensures Lists([p] + s, m + {p})
  {
    assert ([p] + s)[1..] == s && m + {p} - {p} == m;
  }

  // ---------------------------------------------------------------- the hash

  function Xor(a: nat, b: nat): nat {
    if a == 0 then b else if b == 0 then a
    else (if a % 2 == b % 2 then 0 else 1) + 2 * Xor(a / 2, b / 2)
  }

  /** INP_PCBHASH; the mask is one less than the number of chains, a power of two. */
  function Hash(faddr: U32, lport: U16, fport: U16, size: nat): (h: nat)
    requires size > 0
    ensures h < size
  {
    Xor(Xor(Xor(faddr, faddr / 0x1_0000), lport), fport) % size
  }

  function Bucket(p: T.Pcb, size: nat): (h: nat)
    requires size > 0
    ensures h < size
  {
    Hash(p.faddr, p.lport, p.fport, size)
  }

  /** The members that belong on chain `h`. */
  ghost function On(m: set<Inpcb>, h: nat): set<Inpcb>
    reads m`chain
  {
    set p | p in m && p.chain == h
  }

  /** Each chain lists the blocks of `m` that belong on it. */
  ghost predicate Chained(chains: seq<seq<Inpcb>>, m: set<Inpcb>)
    reads m`chain
  {
    forall h | 0 <= h < |chains| :: Lists(chains[h], On(m, h))
  }

  class PcbInfo {
    var list: seq<Inpcb>
    var hashbase: seq<seq<Inpcb>>
    var lastport: U16
    ghost var members: set<Inpcb>

    /** Every block is once on the list and once on the chain its addresses hash to, and on no
        other. */
    ghost predicate Valid()
      reads `list, `hashbase, `members, members
    {
      && |hashbase| > 0
      && Lists(list, members)
      && (forall p | p in members :: p.chain == Bucket(p.Value(), |hashbase|))
      && Chained(hashbase, members)
    }

    /** The list as values. */
    ghost function Pcbs(): (s: seq<T.Pcb>)
      requires Lists(list, members)
      reads `list, `members, members
      ensures |s| == |list|
    {
      Values(list, members)
    }

    ghost function State(): T.State
      requires Lists(list, members)
      reads `list, `members, `lastport, members
    {
      T.State(Pcbs(), lastport)
    }

    constructor (hashsize: nat)
      requires hashsize > 0
      ensures Valid() && Pcbs() == [] && |hashbase| == hashsize && members == {}
    {
      list, hashbase, lastport, members := [], seq(hashsize, _ => []), 0, {};
      new;
      assert forall h | 0 <= h < |hashbase| :: hashbase[h] == [] && On(members, h) == {};
    }

    /** in_pcblookup: the scored search of the list. */
    method Lookup(k: T.Key, wildOkay: bool) returns (found: Inpcb?)
      requires Valid()
      ensures Answers(found, T.Search(Pcbs(), k, wildOkay))
    {
      found := SearchList(list, members, k, wildOkay);
    }

    /** in_pcblookuphash: the hashed search, which moves what it finds to the head of its chain. */
    method LookupHash(k: T.Key, wildcard: bool) returns (inp: Inpcb?, ghost r: Option<nat>)
      requires Valid()
      modifies `hashbase
      ensures Valid() && |hashbase| == old(|hashbase|)
      ensures Answers(inp, r) && T.HashAnswer(Pcbs(), k, wildcard, r)
    {
      var head;
      inp, head := FindHashed(k, wildcard);
      r := FoundAnswers(inp, k, wildcard);
      if inp != null {
        MoveToFront(head, inp);
      }
    }

    /** The search itself: an exact match, or else, on another chain, an unconnected block. */
    method FindHashed(k: T.Key, wildcard: bool) returns (inp: Inpcb?, head: nat)
      requires Valid()
      ensures Found(inp, members, k, wildcard) && head < |hashbase|
      ensures inp != null ==> inp in On(members, head)
    {
      head := Hash(k.faddr, k.lport, k.fport, |hashbase|);
      inp := FirstExact(hashbase[head], On(members, head), k);
      assert inp == null ==> forall p | p in members :: !T.Exact(p.Value(), k);
      if inp == null && wildcard {
        head := Hash(0, k.lport, 0, |hashbase|);
        inp := FirstUnconnected(hashbase[head], On(members, head), k);
        assert forall p | p in members && T.Unconnected(p.Value(), k) :: p in On(members, head);
      }
    }

    method MoveToFront(head: nat, inp: Inpcb)
      requires Valid() && head < |hashbase| && inp in On(members, head)
      modifies `hashbase
      ensures Valid() && |hashbase| == old(|hashbase|)
    {
      if inp != hashbase[head][0] {
        RemoveLists(hashbase[head], On(members, head), inp);
        InsertLists(Remove(hashbase[head], inp), On(members, head) - {inp}, inp);
        assert On(members, head) - {inp} + {inp} == On(members, head);
        hashbase := hashbase[head := [inp] + Remove(hashbase[head], inp)];
      }
    }

    lemma FoundAnswers(inp: Inpcb?, k: T.Key, wildcard: bool) returns (r: Option<nat>)
      requires Valid() && Found(inp, members, k, wildcard)
      ensures Answers(inp, r) && T.HashAnswer(Pcbs(), k, wildcard, r)
    {
      r := None;
      if inp != null {
        var i := ListedAt(list, members, inp);
        r := Some(i);
        ValueAt(list, members, i);
      }
      AllValues();
    }

    // -------------------------------------------------------------- linking

    /** LIST_REMOVE(inp, inp_hash) */
    method Unlink(inp: Inpcb)
      requires Chained(hashbase, members) && inp in members && inp.chain < |hashbase|
      modifies `hashbase
      ensures Chained(hashbase, members - {inp}) && |hashbase| == old(|hashbase|)
    {
      ghost var m := members - {inp};
      var next := hashbase[inp.chain := Remove(hashbase[inp.chain], inp)];
      forall h | 0 <= h < |hashbase| ensures Lists(next[h], On(m, h)) {
        if h == inp.chain {
          RemoveLists(hashbase[h], On(members, h), inp);
          assert On(members, h) - {inp} == On(m, h);
        } else {
          assert On(members, h) == On(m, h);
        }
      }
      hashbase := next;
    }

    /** in_pcbinshash */
    method InsHash(inp: Inpcb, ghost m: set<Inpcb>)
      requires |hashbase| > 0 && Chained(hashbase, m) && inp !in m
      modifies `hashbase, inp`chain
      ensures |hashbase| == old(|hashbase|) && inp.chain == Bucket(inp.Value(), |hashbase|)
      ensures Chained(hashbase, m + {inp})
    {
      var head := Hash(inp.faddr, inp.lport, inp.fport, |hashbase|);
      inp.chain := head;
      var next := hashbase[head := [inp] + hashbase[head]];
      forall h | 0 <= h < |hashbase| ensures Lists(next[h], On(m + {inp}, h)) {
        if h == head {
          InsertLists(hashbase[h], On(m, h), inp);
          assert On(m, h) + {inp} == On(m + {inp}, h);
        } else {
          assert On(m, h) == On(m + {inp}, h);
        }
      }
      label Linked:
      hashbase := next;
      forall h | 0 <= h < |hashbase| ensures Lists(hashbase[h], On(m + {inp}, h)) {
        assert On(m + {inp}, h) == old@Linked(On(m + {inp}, h));
      }
    }

    /** Everything is in order, except that `inp` may be on the wrong chain. */
    ghost predicate ValidBut(inp: Inpcb)
      reads `list, `hashbase, `members, members
    {
      && |hashbase| > 0 && Lists(list, members) && Chained(hashbase, members)
      && inp in members && inp.chain < |hashbase|
      && forall p | p in members && p != inp :: p.chain == Bucket(p.Value(), |hashbase|)
    }

    /** in_pcbrehash */
    method Rehash(inp: Inpcb)
      requires ValidBut(inp)
      modifies `hashbase, inp`chain
      ensures Valid() && |hashbase| == old(|hashbase|) && inp.Value() == old(inp.Value())
    {
      Unlink(inp);
      InsHash(inp, members - {inp});
      assert members - {inp} + {inp} == members;
    }

    // -------------------------------------------------------------- the operations

    /** in_pcballoc */
    method Alloc(so: T.Socket) returns (inp: Inpcb)
      requires Valid()
      modifies this
      ensures Valid() && fresh(inp) && members == old(members) + {inp} && list == [inp] + old(list)
      ensures State() == T.Alloc(old(State()), so)
    {
      AllValues();
      ghost var v := Pcbs();
      inp := new Inpcb(so);
      InsHash(inp, members);
      InsertLists(list, members, inp);
      list, members := [inp] + list, members + {inp};
      Restated([T.Pcb(0, 0, 0, 0, so)] + v);
    }

    /** The block `i`, with no port yet, is looking for one; before it took its address the
        values were `s`. */
    ghost predicate Probing(inp: Inpcb, s: seq<T.Pcb>, i: nat)
      reads `list, `hashbase, `members, members, inp
    {
      Valid() && i < |s| && inp.lport == 0 && s[i].lport == 0 && Pcbs() == s[i := inp.Value()]
    }

    /** `answer` is what the loop will end with, `tries` rounds before its bound. */
    static ghost predicate Leading(answer: Option<U16>, s: seq<T.Pcb>, laddr: U32, wild: bool, last: U16, free: bool,
                                   tries: nat)
    {
      && tries > 0 && free == T.Free(s, laddr, wild, last)
      && answer == if free then Some(last) else T.FindPort(s, laddr, wild, last, tries - 1)
    }

    static lemma StillLeading(answer: Option<U16>, s: seq<T.Pcb>, laddr: U32, wild: bool, last: U16, tries: nat)
      requires Leading(answer, s, laddr, wild, last, false, tries) && answer.Some?
      ensures tries > 1
      ensures Leading(answer, s, laddr, wild, T.NextPort(last), T.Free(s, laddr, wild, T.NextPort(last)), tries - 1)
    {
      T.FindPortStep(s, laddr, wild, last, tries - 1);
    }

    /** `++*lastport` until in_pcblookup finds nothing on the port. */
    method FindPort(inp: Inpcb, wild: bool, ghost s: seq<T.Pcb>, ghost i: nat) returns (lport: U16)
      requires Probing(inp, s, i) && T.Ephemeral(s, inp.laddr, wild, lastport).Some?
      modifies `lastport
      ensures T.Ephemeral(s, inp.laddr, wild, old(lastport)) == Some(lastport) && lport == T.Htons(lastport)
    {
      lport := TryPorts(inp, wild, s, i, T.PORTS);
    }

    /** The loop, which some number of tries bounds. */
    method TryPorts(inp: Inpcb, wild: bool, ghost s: seq<T.Pcb>, ghost i: nat, ghost bound: nat) returns (lport: U16)
      requires Probing(inp, s, i) && T.FindPort(s, inp.laddr, wild, lastport, bound).Some?
      modifies `lastport
      ensures T.FindPort(s, inp.laddr, wild, old(lastport), bound) == Some(lastport) && lport == T.Htons(lastport)
    {
      ghost var tries, laddr := bound, inp.laddr;
      ghost var answer := T.FindPort(s, laddr, wild, lastport, bound);
      T.FindPortStep(s, laddr, wild, lastport, bound);
      var free := TryPort(inp, wild, s, i);
      while !free
        invariant Probing(inp, s, i) && Leading(answer, s, laddr, wild, lastport, free, tries)
        decreases tries
      {
        StillLeading(answer, s, laddr, wild, lastport, tries);
        tries := tries - 1;
        free := TryPort(inp, wild, s, i);
      }
      lport := T.Htons(lastport);
    }

    method TryPort(inp: Inpcb, wild: bool, ghost s: seq<T.Pcb>, ghost i: nat) returns (free: bool)
      requires Probing(inp, s, i)
      modifies `lastport
      ensures Probing(inp, s, i)
      ensures lastport == T.NextPort(old(lastport)) && free == T.Free(s, inp.laddr, wild, lastport)
    {
      var lport := NextPort();
      Probe(inp, wild, s, i);
      var t := Lookup(T.Key(0, 0, inp.laddr, lport), wild);
      free := t == null;
    }

    method NextPort() returns (lport: U16)
      modifies `lastport
      ensures lastport == T.NextPort(old(lastport)) && lport == T.Htons(lastport)
    {
      lastport := (lastport + 1) % 0x1_0000;
      if lastport < T.IPPORT_RESERVED || lastport > T.IPPORT_USERRESERVED {
        lastport := T.IPPORT_RESERVED;
      }
      lport := T.Htons(lastport);
    }

    /** The block being bound has no port yet, so the search passes it over. */
    lemma Probe(inp: Inpcb, wild: bool, s: seq<T.Pcb>, i: nat)
      requires Probing(inp, s, i) && lastport > 0
      ensures T.Free(s, inp.laddr, wild, lastport)
         <==> T.Search(Pcbs(), T.Key(0, 0, inp.laddr, T.Htons(lastport)), wild).None?
    {
      T.HtonsTwice(lastport);
      T.SearchIgnores(s, i, inp.Value(), |s|, T.Key(0, 0, inp.laddr, T.Htons(lastport)), wild);
    }

    /** Gives a block new addresses and moves it to the chain where they belong. */
    method Readdress(inp: Inpcb, faddr: U32, fport: U16, laddr: U32, lport: U16, ghost i: nat)
      requires Valid() && i < |list| && list[i] == inp
      modifies `hashbase, inp
      ensures Valid() && |hashbase| == old(|hashbase|)
      ensures inp.Value() == T.Pcb(faddr, fport, laddr, lport, old(inp.so))
      ensures Pcbs() == old(Pcbs())[i := inp.Value()]
    {
      ghost var s := Pcbs();
      Others(i);
      inp.faddr := faddr;
      inp.fport := fport;
      inp.laddr := laddr;
      inp.lport := lport;
      Rehash(inp);
      Updated(s, i);
    }

    /** The checks of in_pcbbind. */
    method CheckBind(inp: Inpcb, nam: Option<T.Name>, net: T.Interfaces) returns (e: T.Errno)
      requires Valid() && inp in members
      ensures e == T.BindError(Pcbs(), inp.Value(), nam, net)
    {
      if net.local == {} {
        return T.EADDRNOTAVAIL;
      }
      if inp.lport != 0 || inp.laddr != 0 {
        return T.EINVAL;
      }
      if nam.Some? {
        var n := nam.value;
        if !n.wellSized {
          return T.EINVAL;
        }
        if !T.Multicast(n.addr) && n.addr != 0 && n.addr !in net.local {
          return T.EADDRNOTAVAIL;
        }
        if n.port != 0 {
          var t := Lookup(T.Key(0, 0, n.addr, n.port), T.Wild(inp.so));
          AllValues();
          if t != null && !T.Shares(inp.so, t.so, n.addr) {
            return T.EADDRINUSE;
          }
        }
      }
      e := T.OK;
    }

    /** in_pcbbind */
    method Bind(inp: Inpcb, nam: Option<T.Name>, net: T.Interfaces, ghost i: nat) returns (e: T.Errno)
      requires Valid() && i < |list| && list[i] == inp && inp in members
      requires T.Bind(State(), i, nam, net).Done?
      modifies `hashbase, `lastport, inp
      ensures Valid() && |hashbase| == old(|hashbase|)
      ensures T.Done(State(), e) == old(T.Bind(State(), i, nam, net))
    {
      ValueAt(list, members, i);
      e := CheckBind(inp, nam, net);
      if e == T.OK {
        Take(inp, nam, net, i);
      }
    }

    /** The rest of in_pcbbind, once nothing stands against it. */
    method Take(inp: Inpcb, nam: Option<T.Name>, net: T.Interfaces, ghost i: nat)
      requires Valid() && i < |list| && list[i] == inp
      requires T.BindError(Pcbs(), inp.Value(), nam, net) == T.OK && T.Bind(State(), i, nam, net).Done?
      modifies `hashbase, `lastport, inp
      ensures Valid() && |hashbase| == old(|hashbase|)
      ensures T.Done(State(), T.OK) == old(T.Bind(State(), i, nam, net))
    {
      ghost var s := Pcbs();
      var lport := ChoosePort(inp, nam, net, i);
      ghost var q := inp.Value();
      Readdress(inp, inp.faddr, inp.fport, inp.laddr, lport, i);
      Twice(s, i, q, inp.Value());
    }

    /** The address taken, the port that goes with it, and the state bind is to leave. */
    method ChoosePort(inp: Inpcb, nam: Option<T.Name>, net: T.Interfaces, ghost i: nat) returns (lport: U16)
      requires Valid() && i < |list| && list[i] == inp
      requires T.BindError(Pcbs(), inp.Value(), nam, net) == T.OK && T.Bind(State(), i, nam, net).Done?
      modifies `lastport, inp`laddr
      ensures Valid() && inp.laddr == T.NameAddr(nam) && Pcbs() == old(Pcbs())[i := inp.Value()]
      ensures old(T.Bind(State(), i, nam, net))
           == T.Done(T.State(old(Pcbs())[i := inp.Value().(lport := lport)], lastport), T.OK)
    {
      ghost var s := Pcbs();
      ValueAt(list, members, i);
      lport := TakeAddress(inp, nam, i);
      if lport == 0 {
        lport := FindPort(inp, T.Wild(inp.so), s, i);
      }
    }

    /** The address that a name gives a block to be bound, and the port it asks for. */
    method TakeAddress(inp: Inpcb, nam: Option<T.Name>, ghost i: nat) returns (lport: U16)
      requires Valid() && i < |list| && list[i] == inp && inp.laddr == 0
      modifies inp`laddr
      ensures Valid() && lport == T.NamePort(nam) && inp.laddr == T.NameAddr(nam)
      ensures Pcbs() == old(Pcbs())[i := inp.Value()]
    {
      lport := 0;
      ValueAt(list, members, i);
      if nam.Some? {
        lport := nam.value.port;
        SetLaddr(inp, nam.value.addr, i);
      }
    }

    method SetLaddr(inp: Inpcb, laddr: U32, ghost i: nat)
      requires Valid() && i < |list| && list[i] == inp
      modifies inp`laddr
      ensures Valid() && inp.laddr == laddr && Pcbs() == old(Pcbs())[i := inp.Value()]
    {
      ghost var s := Pcbs();
      Others(i);
      inp.laddr := laddr;
      Updated(s, i);
    }

    /** The checks of in_pcbladdr, and that no block has the addresses already. */
    method CheckConnect(inp: Inpcb, n: T.Name, net: T.Interfaces, route: Option<U32>) returns (e: T.Errno)
      requires Valid()
      modifies `hashbase
      ensures Valid() && |hashbase| == old(|hashbase|)
      ensures e == T.ConnectError(Pcbs(), inp.Value(), n, net, route)
    {
      if !n.wellSized {
        return T.EINVAL;
      }
      if !n.inet {
        return T.EAFNOSUPPORT;
      }
      if n.port == 0 {
        return T.EADDRNOTAVAIL;
      }
      if inp.laddr == 0 && route.None? {
        return T.EADDRNOTAVAIL;
      }
      var laddr := if inp.laddr != 0 then inp.laddr else route.value;
      var found, r := LookupHash(T.Key(T.Target(n.addr, net), n.port, laddr, inp.lport), false);
      e := if found != null then T.EADDRINUSE else T.OK;
    }

    /** in_pcbconnect; the address of the interface that routing chooses is given. */
    method Connect(inp: Inpcb, n: T.Name, net: T.Interfaces, route: Option<U32>, ghost i: nat) returns (e: T.Errno)
      requires Valid() && i < |list| && list[i] == inp && inp in members
      requires T.Connect(State(), i, n, net, route).Done?
      modifies `hashbase, `lastport, inp
      ensures Valid() && |hashbase| == old(|hashbase|)
      ensures T.Done(State(), e) == old(T.Connect(State(), i, n, net, route))
    {
      ValueAt(list, members, i);
      e := CheckConnect(inp, n, net, route);
      if e != T.OK {
        return;
      }
      var laddr := inp.laddr;
      if laddr == 0 {
        if inp.lport == 0 {
          var ignored := Bind(inp, None, net, i);
          ValueAt(list, members, i);
        }
        laddr := route.value;
      }
      Readdress(inp, T.Target(n.addr, net), n.port, laddr, inp.lport, i);
    }

    /** in_pcbdisconnect */
    method Disconnect(inp: Inpcb, ghost i: nat)
      requires Valid() && i < |list| && list[i] == inp && inp in members
      modifies this, inp
      ensures Valid() && State() == T.Disconnect(old(State()), i)
    {
      ValueAt(list, members, i);
      Readdress(inp, 0, 0, inp.laddr, inp.lport, i);
      if inp.so.noFdRef {
        Detach(inp, i);
      }
    }

    /** in_pcbdetach */
    method Detach(inp: Inpcb, ghost i: nat)
      requires Valid() && i < |list| && list[i] == inp && inp in members
      modifies this
      ensures Valid() && State() == T.Detach(old(State()), i)
      ensures members == old(members) - {inp} && list == old(list[..i] + list[i + 1..])
    {
      AllValues();
      ghost var v := Pcbs()[..i] + Pcbs()[i + 1..];
      Unlink(inp);
      RemoveLists(list, members, inp);
      RemoveAt(list, members, i);
      list, members := Remove(list, inp), members - {inp};
      Restated(v);

    }

    /** The values are `v` in all blocks but the one at `i`. */
    lemma Updated(v: seq<T.Pcb>, i: nat)
      requires Lists(list, members) && |v| == |list| && i < |list|
      requires forall j | 0 <= j < |list| && j != i :: list[j].Value() == v[j]
      ensures Pcbs() == v[i := list[i].Value()]
    {
      forall j | 0 <= j < |list| ensures Pcbs()[j] == v[i := list[i].Value()][j] {
        ValueAt(list, members, j);
      }
    }

    lemma Restated(v: seq<T.Pcb>)
      requires Lists(list, members) && |v| == |list|
      requires forall j | 0 <= j < |list| :: list[j].Value() == v[j]
      ensures Pcbs() == v
    {
      forall j | 0 <= j < |list| ensures Pcbs()[j] == v[j] {
        ValueAt(list, members, j);
      }
    }

    /** Every block is a member, none but the one at `i` is that one, and the values are theirs. */
    lemma Others(i: nat)
      requires Lists(list, members) && i < |list|
      ensures forall j | 0 <= j < |list| :: list[j] in members && Pcbs()[j] == list[j].Value()
      ensures forall j | 0 <= j < |list| && j != i :: list[j] != list[i]
    {
      forall j | 0 <= j < |list|
        ensures list[j] in members && Pcbs()[j] == list[j].Value() && (j != i ==> list[j] != list[i])
      {
        ListedIn(list, members, j);
        ValueAt(list, members, j);
        if j < i {
          ListedOnce(list, members, j, i);
        } else if i < j {
          ListedOnce(list, members, i, j);
        }
      }
    }

    lemma AllValues()
      requires Valid()
      ensures forall j | 0 <= j < |list| :: list[j] in members && Pcbs()[j] == list[j].Value()
    {
      forall j | 0 <= j < |list| ensures list[j] in members && Pcbs()[j] == list[j].Value() {
        ListedIn(list, members, j);
        ValueAt(list, members, j);
      }
    }

    /** `inp` is the block at the index found, or null. */
    ghost predicate Answers(inp: Inpcb?, r: Option<nat>)
      reads `list
    {
      match r
      case None => inp == null
      case Some(i) => i < |list| && inp == list[i]
    }
  }

  /** `inp` is of the best grade among the members, or null if none has any. */
  ghost predicate Found(inp: Inpcb?, m: set<Inpcb>, k: T.Key, wildcard: bool)
    reads m
  {
    && (inp == null ==> forall p | p in m :: T.Grade(p.Value(), k, wildcard).None?)
    && (inp != null ==>
          && inp in m && T.Grade(inp.Value(), k, wildcard).Some?
          && forall p | p in m && T.Grade(p.Value(), k, wildcard).Some? ::
               T.Grade(inp.Value(), k, wildcard).value <= T.Grade(p.Value(), k, wildcard).value)
  }

  method FirstExact(c: seq<Inpcb>, ghost m: set<Inpcb>, k: T.Key) returns (inp: Inpcb?)
    requires Lists(c, m)
    ensures inp != null ==> inp in m && T.Exact(inp.Value(), k)
    ensures inp == null ==> forall p | p in m :: !T.Exact(p.Value(), k)
  {
    var i := 0;
    ghost var rest := m;
    while i < |c|
      invariant i <= |c| && rest <= m && Lists(c[i..], rest)
      invariant forall p | p in m && p !in rest :: !T.Exact(p.Value(), k)
    {
      inp := c[i];
      if inp.faddr == k.faddr && inp.fport == k.fport && inp.lport == k.lport && inp.laddr == k.laddr {
        return;
      }
      assert c[i..][1..] == c[i + 1..];
      rest := rest - {inp};
      i := i + 1;
    }
    inp := null;
  }

  /** An unconnected block on the port: one on the address, or else the last on any address. */
  method FirstUnconnected(c: seq<Inpcb>, ghost m: set<Inpcb>, k: T.Key) returns (inp: Inpcb?)
    requires Lists(c, m)
    ensures inp != null ==> inp in m && T.Unconnected(inp.Value(), k)
    ensures inp != null && inp.laddr != k.laddr ==>
              inp.laddr == 0 && forall p | p in m && T.Unconnected(p.Value(), k) :: p.laddr != k.laddr
    ensures inp == null ==> forall p | p in m && T.Unconnected(p.Value(), k) :: p.laddr != k.laddr && p.laddr != 0
  {
    var localWild: Inpcb? := null;
    var i := 0;
    ghost var rest := m;
    while i < |c|
      invariant i <= |c| && rest <= m && Lists(c[i..], rest)
      invariant forall p | p in m && p !in rest && T.Unconnected(p.Value(), k) ::
        p.laddr != k.laddr && (p.laddr == 0 ==> localWild != null)
      invariant localWild != null ==>
        localWild in m && T.Unconnected(localWild.Value(), k) && localWild.laddr == 0
    {
      inp := c[i];
      if inp.faddr == 0 && inp.fport == 0 && inp.lport == k.lport {
        if inp.laddr == k.laddr {
          return;
        } else if inp.laddr == 0 {
          localWild := inp;
        }
      }
      assert c[i..][1..] == c[i + 1..];
      rest := rest - {inp};
      i := i + 1;
    }
    inp := localWild;
  }

  /** `r` is the best of the first `i`, and `matchwild` its wildcards, or 3. */
  ghost predicate Leads(s: seq<T.Pcb>, i: nat, k: T.Key, wildOkay: bool, r: Option<nat>, matchwild: nat) {
    i <= |s| && r == T.Best(s, i, k, wildOkay) && matchwild == if r.None? then 3 else T.Wildcards(s[r.value], k)
  }

  /** The loop's choice between the leader and the next pcb. */
  lemma NextLeads(s: seq<T.Pcb>, i: nat, k: T.Key, wildOkay: bool, r: Option<nat>, matchwild: nat)
    requires i < |s| && Leads(s, i, k, wildOkay, r, matchwild)
    ensures var w := T.Wildcards(s[i], k);
      if T.Candidate(s[i], k) && (w == 0 || wildOkay) && w < matchwild then Leads(s, i + 1, k, wildOkay, Some(i), w)
      else Leads(s, i + 1, k, wildOkay, r, matchwild)
  {
    BestNext(s, i, k, wildOkay);
  }

  lemma Twice(s: seq<T.Pcb>, i: nat, p: T.Pcb, q: T.Pcb)
    requires i < |s|
    ensures s[i := p][i := q] == s[i := q]
  {
  }

  /** The loop of in_pcblookup. */
  method SearchList(l: seq<Inpcb>, ghost m: set<Inpcb>, k: T.Key, wildOkay: bool) returns (found: Inpcb?)
    requires Lists(l, m)
    ensures var r := T.Search(Values(l, m), k, wildOkay); if r.None? then found == null else found == l[r.value]
  {
    found := null;
    ghost var s := Values(l, m);
    ghost var r: Option<nat> := None;
    var matchwild: nat := 3;
    var i := 0;
    while i < |l|
      invariant i <= |l| && Leads(s, i, k, wildOkay, r, matchwild)
      invariant if r.None? then found == null else found == l[r.value]
    {
      var inp := l[i];
      var skip, wildcard := Compare(inp, k);
      ValueAt(l, m, i);
      NextLeads(s, i, k, wildOkay, r, matchwild);
      if !skip && (wildcard == 0 || wildOkay) && wildcard < matchwild {
        found, matchwild := inp, wildcard;
        r := Some(i);
        if matchwild == 0 {
          NoBetter(s, i + 1, k, wildOkay);
          return;
        }
      }
      i := i + 1;
    }
  }

  method Compare(inp: Inpcb, k: T.Key) returns (skip: bool, wildcard: nat)
    ensures skip == !T.Candidate(inp.Value(), k)
    ensures !skip ==> wildcard == T.Wildcards(inp.Value(), k)
  {
    wildcard := 0;
    if inp.lport != k.lport {
      return true, wildcard;
    }
    if inp.faddr != 0 {
      if k.faddr == 0 {
        wildcard := wildcard + 1;
      } else if inp.faddr != k.faddr || inp.fport != k.fport {
        return true, wildcard;
      }
    } else if k.faddr != 0 {
      wildcard := wildcard + 1;
    }
    if inp.laddr != 0 {
      if k.laddr == 0 {
        wildcard := wildcard + 1;
      } else if inp.laddr != k.laddr {
        return true, wildcard;
      }
    } else if k.laddr != 0 {
      wildcard := wildcard + 1;
    }
    skip := false;
  }

  ghost function Values(s: seq<Inpcb>, m: set<Inpcb>): (v: seq<T.Pcb>)
    requires Lists(s, m)
    reads m
    ensures |v| == |s|
  {
    if s == [] then [] else [s[0].Value()] + Values(s[1..], m - {s[0]})
  }

  lemma {:induction false} ValueAt(s: seq<Inpcb>, m: set<Inpcb>, i: nat)
    requires Lists(s, m) && i < |s|
    ensures Values(s, m)[i] == s[i].Value()
  {
    if i > 0 {
      ValueAt(s[1..], m - {s[0]}, i - 1);
    }
  }

  lemma BestNext(s: seq<T.Pcb>, i: nat, k: T.Key, wildOkay: bool)
    requires i < |s|
    ensures var r := T.Best(s, i, k, wildOkay);
      T.Best(s, i + 1, k, wildOkay)
        == if T.Matches(s[i], k, wildOkay) && (r.None? || T.Wildcards(s[i], k) < T.Wildcards(s[r.value], k))
           then Some(i) else r
  {
  }

  /** A match without wildcards ends the search. */
  lemma {:induction false} NoBetter(s: seq<T.Pcb>, n: nat, k: T.Key, wildOkay: bool)
    requires n <= |s| && T.Best(s, n, k, wildOkay).Some?
    requires T.Wildcards(s[T.Best(s, n, k, wildOkay).value], k) == 0
    ensures T.Search(s, k, wildOkay) == T.Best(s, n, k, wildOkay)
    decreases |s| - n
  {
    if n < |s| {
      NoBetter(s, n + 1, k, wildOkay);
    }
  }
}
