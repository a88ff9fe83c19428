/** ipintr and ip_slowtimo with every reassembly queue on the heap: a table of queues that share
    no mbuf, proved against the table of values. */
module IpQueues {
  import opened CTypes
  import opened Reassembly
  import F = FragmentQueue
  import I = IpInput

  /** A queue header, and the queue it leads to. */
  datatype Header = Header(key: I.Key, ttl: Byte, queue: F.Queue)

  ghost function Values(s: seq<Header>): (t: seq<I.Entry>)
    reads set h | h in s :: h.queue
    ensures |t| == |s| && forall i | 0 <= i < |s| :: t[i] == I.Entry(s[i].key, s[i].ttl, s[i].queue.list)
  {
    if s == [] then [] else [I.Entry(s[0].key, s[0].ttl, s[0].queue.list)] + Values(s[1..])
  }

  /** Every mbuf that a queue holds or held. */
  ghost function MbufsIn(s: seq<Header>): set<F.Mbuf>
    reads set h | h in s :: h.queue
  {
    set h, m | h in s && m in h.queue.repr :: m
  }

  /** The mbufs of the queues other than `i`. */
  ghost function MbufsBut(s: seq<Header>, i: nat): set<F.Mbuf>
    reads set h | h in s :: h.queue
  {
    set j, m | 0 <= j < |s| && j != i && m in s[j].queue.repr :: m
  }

  ghost predicate Apart(a: Header, b: Header)
    reads a.queue, b.queue
  {
    a.queue != b.queue && a.queue.repr !! b.queue.repr
  }

  ghost predicate Filled(h: Header)
    reads h.queue, h.queue.repr
  {
    h.queue.Valid() && h.queue.list != []
  }

  /** No queue but `i`, which may be anything, is empty, and no two of the others are one or share
      an mbuf. */
  ghost predicate ValidBut(s: seq<Header>, i: nat)
    reads set h | h in s :: h.queue
    reads MbufsIn(s)
  {
    && (forall j | 0 <= j < |s| && j != i :: Filled(s[j]))
    && (forall j, k | 0 <= j < k < |s| && j != i && k != i :: Apart(s[j], s[k]))
  }

  ghost predicate ValidAll(s: seq<Header>)
    reads set h | h in s :: h.queue
    reads MbufsIn(s)
  {
    ValidBut(s, |s|)
  }

  lemma {:induction false} Parts(s: seq<Header>, i: nat)
    requires ValidAll(s) && i < |s|
    ensures ValidBut(s, i) && Filled(s[i]) && MbufsBut(s, i) !! s[i].queue.repr
    ensures MbufsIn(s) == MbufsBut(s, i) + s[i].queue.repr
    ensures forall j | 0 <= j < |s| && j != i :: s[j].queue != s[i].queue
  {
    forall j | 0 <= j < |s| && j != i ensures s[j].queue != s[i].queue && s[j].queue.repr !! s[i].queue.repr {
      assert if j < i then Apart(s[j], s[i]) else Apart(s[i], s[j]);
    }
    assert s[i] in s;
  }

  lemma {:induction false} Rejoined(s: seq<Header>, i: nat)
    requires i < |s| && ValidBut(s, i) && Filled(s[i]) && MbufsBut(s, i) !! s[i].queue.repr
    requires forall j | 0 <= j < |s| && j != i :: s[j].queue != s[i].queue
    ensures ValidAll(s) && MbufsIn(s) == MbufsBut(s, i) + s[i].queue.repr
  {
    forall j | 0 <= j < |s| && j != i ensures s[j].queue.repr <= MbufsBut(s, i) {
    }
    assert s[i] in s;
  }

  lemma {:induction false} Removed(s: seq<Header>, i: nat)
    requires i < |s| && ValidBut(s, i)
    ensures ValidAll(s[..i] + s[i + 1..]) && MbufsIn(s[..i] + s[i + 1..]) == MbufsBut(s, i)
  {
    var t := s[..i] + s[i + 1..];
    forall j | 0 <= j < |t| ensures t[j] == s[if j < i then j else j + 1] {
    }
    forall j | 0 <= j < |s| && j != i ensures s[j] in t {
      assert t[if j < i then j else j - 1] == s[j];
    }
    forall h | h in t ensures exists j | 0 <= j < |s| && j != i :: s[j] == h {
      var n :| 0 <= n < |t| && t[n] == h;
      assert s[if n < i then n else n + 1] == h;
    }
  }

  lemma {:induction false} Consed(h: Header, s: seq<Header>)
    ensures Values([h] + s) == [I.Entry(h.key, h.ttl, h.queue.list)] + Values(s)
    ensures MbufsIn([h] + s) == h.queue.repr + MbufsIn(s)
  {
    assert ([h] + s)[1..] == s;
    assert forall x :: x in [h] + s <==> x == h || x in s;
  }

  lemma {:induction false} Linked(h: Header, s: seq<Header>)
    requires ValidAll(s) && Filled(h) && h.queue.repr !! MbufsIn(s) && forall x | x in s :: x.queue != h.queue
    ensures ValidAll([h] + s)
  {
    var t := [h] + s;
    forall j | 0 < j < |t| ensures t[j] == s[j - 1] && Filled(t[j]) && Apart(h, t[j]) {
      assert s[j - 1] in s && s[j - 1].queue.repr <= MbufsIn(s);
    }
    forall j, k | 0 <= j < k < |t| ensures Apart(t[j], t[k]) {
      if j > 0 {
        assert Apart(s[j - 1], s[k - 1]);
      }
    }
  }

  lemma {:induction false} Retimed(s: seq<Header>, i: nat, ttl: Byte)
    requires ValidAll(s) && i < |s|
    ensures var t := s[i := s[i].(ttl := ttl)];
      && ValidAll(t) && MbufsIn(t) == MbufsIn(s)
      && Values(t) == Values(s)[i := Values(s)[i].(ttl := ttl)]
  {
    var t := s[i := s[i].(ttl := ttl)];
    forall j | 0 <= j < |s| ensures t[j].queue == s[j].queue && t[j] in t && s[j] in s {
    }
    forall j, k | 0 <= j < k < |t| ensures Apart(t[j], t[k]) {
      assert Apart(s[j], s[k]);
    }
    forall j | 0 <= j < |t| ensures Filled(t[j]) {
      assert Filled(s[j]);
    }
  }

  /** The queues but `i` are as they are in the values `t`. */
  ghost predicate OthersAre(s: seq<Header>, i: nat, t: seq<I.Entry>)
    reads set h | h in s :: h.queue
  {
    |t| == |s| && forall j | 0 <= j < |s| && j != i :: t[j] == I.Entry(s[j].key, s[j].ttl, s[j].queue.list)
  }

  lemma {:induction false} OthersRemove(s: seq<Header>, i: nat, t: seq<I.Entry>)
    requires i < |s| && OthersAre(s, i, t)
    ensures Values(s[..i] + s[i + 1..]) == I.Remove(t, i)
  {
  }

  lemma {:induction false} OthersUpdate(s: seq<Header>, i: nat, t: seq<I.Entry>)
    requires i < |s| && OthersAre(s, i, t) && t[i].key == s[i].key && t[i].ttl == s[i].ttl
    ensures Values(s) == t[i := t[i].(list := s[i].queue.list)]
  {
    var v := Values(s);
    forall j | 0 <= j < |s| ensures v[j] == t[i := t[i].(list := s[i].queue.list)][j] {
      assert v[j] == I.Entry(s[j].key, s[j].ttl, s[j].queue.list);
    }
  }

  /** ipReAssemble on queue `i`, which leaves the other queues alone. */
  method FeedQueue(s: seq<Header>, i: nat, m: F.Mbuf) returns (left: F.Queue?, d: F.Mbuf?)
    requires i < |s| && ValidBut(s, i) && Filled(s[i]) && MbufsBut(s, i) !! s[i].queue.repr && m !in MbufsIn(s)
    requires forall j | 0 <= j < |s| && j != i :: s[j].queue != s[i].queue
    modifies s[i].queue, s[i].queue.repr, m
    ensures forall j | 0 <= j < |s| && j != i ::
              Filled(s[j]) && s[j].queue.list == old(s[j].queue.list) && s[j].queue.repr == old(s[j].queue.repr)
    ensures left != null ==> left == s[i].queue && left.Valid() && left.list != []
    ensures left != null ==> left.repr <= old(s[i].queue.repr) + {m}
    ensures d != null ==> left == null && d in old(s[i].queue.repr) + {m}
    ensures Arrival(F.ListOf(left), F.ValueOf(d)) == Arrive(old(s[i].queue.list), old(m.Value()))
  {
    var q := s[i].queue;
    forall j | 0 <= j < |s| && j != i
      ensures s[j].queue.repr !! q.repr && m !in s[j].queue.repr && s[j].queue.Valid()
    {
      assert s[j] in s && Filled(s[j]);
      assert s[j].queue.repr <= MbufsBut(s, i);
    }
    assert s[i] in s;
    left, d := F.ReAssemble(q, m, true);
  }

  /** The same, and what it means for the headers. */
  method Feed(s: seq<Header>, i: nat, m: F.Mbuf) returns (left: F.Queue?, d: F.Mbuf?)
    requires i < |s| && ValidBut(s, i) && Filled(s[i]) && MbufsBut(s, i) !! s[i].queue.repr && m !in MbufsIn(s)
    requires forall j | 0 <= j < |s| && j != i :: s[j].queue != s[i].queue
    modifies s[i].queue, s[i].queue.repr, m
    ensures ValidBut(s, i) && OthersAre(s, i, old(Values(s))) && MbufsBut(s, i) == old(MbufsBut(s, i))
    ensures left != null ==> left == s[i].queue && left.Valid() && left.list != []
    ensures left != null ==> left.repr <= old(s[i].queue.repr) + {m}
    ensures d != null ==> left == null && d in old(s[i].queue.repr) + {m}
    ensures Arrival(F.ListOf(left), F.ValueOf(d)) == Arrive(old(s[i].queue.list), old(m.Value()))
  {
    left, d := FeedQueue(s, i, m);
  }

  /** The packet in an mbuf whose header fields are as they came. */
  function Raw(k: I.Key, m: F.Mbuf): I.Packet
    reads m
  {
    I.Packet(k, m.hlen, m.len, m.off, m.buf)
  }

  class Table {
    var ipq: seq<Header>
    const ipfragttl: Byte

    function Queues(): set<F.Queue>
      reads this
    {
      set h | h in ipq :: h.queue
    }

    ghost function Mbufs(): set<F.Mbuf>
      reads this, Queues()
    {
      MbufsIn(ipq)
    }

    /** No queue is empty, and no two of them are one or share an mbuf. */
    ghost predicate Valid()
      reads this, Queues(), Mbufs()
    {
      ValidAll(ipq)
    }

    ghost function Entries(): seq<I.Entry>
      reads this, Queues()
    {
      Values(ipq)
    }

    constructor (ttl: Byte)
      ensures Valid() && Entries() == [] && ipfragttl == ttl
    {
      ipq, ipfragttl := [], ttl;
    }

    /** The search of the queue headers. */
    method FindQueue(k: I.Key) returns (i: nat)
      ensures i == I.Find(Entries(), k)
    {
      i := 0;
      ghost var t := Entries();
      while i < |ipq| && ipq[i].key != k
        invariant i <= |ipq| && I.Find(t, k) == i + I.Find(t[i..], k)
      {
        i := i + 1;
      }
    }

    /** Other headers in the table; what they lead to is not touched. */
    method SetHeaders(s: seq<Header>)
      requires ValidAll(s)
      modifies `ipq
      ensures ipq == s && ValidAll(ipq) && MbufsIn(ipq) == old(MbufsIn(s)) && Values(ipq) == old(Values(s))
    {
      ipq := s;
    }

    /** remque: header `i` leaves the table; `t` is what the table was. */
    method Leave(i: nat, ghost t: seq<I.Entry>)
      requires i < |ipq| && ValidBut(ipq, i) && OthersAre(ipq, i, t)
      modifies `ipq
      ensures |ipq| == old(|ipq|) - 1 && Valid()
      ensures Mbufs() == old(MbufsBut(ipq, i)) && Entries() == I.Remove(t, i)
    {
      Removed(ipq, i);
      OthersRemove(ipq, i, t);
      SetHeaders(ipq[..i] + ipq[i + 1..]);
    }

    /** A fragment for queue `i`. */
    method AddTo(i: nat, m: F.Mbuf) returns (d: F.Mbuf?)
      requires Valid() && i < |ipq| && m !in Mbufs()
      modifies `ipq, ipq[i].queue, ipq[i].queue.repr, m
      ensures Valid() && Mbufs() <= old(Mbufs()) + {m} && (d != null ==> d !in Mbufs())
      ensures var t, a := old(Entries()), Arrive(old(ipq[i].queue.list), old(m.Value()));
        && F.ValueOf(d) == a.out
        && Entries() == if a.list == [] then I.Remove(t, i) else t[i := t[i].(list := a.list)]
    {
      Parts(ipq, i);
      ghost var t, others := Entries(), MbufsBut(ipq, i);
      var left;
      left, d := Feed(ipq, i, m);
      if left == null {
        Leave(i, t);
      } else {
        Rejoined(ipq, i);
        OthersUpdate(ipq, i, t);
      }
    }

    /** The queue made for a first fragment, or its loss for want of a header. */
    method Start(k: I.Key, m: F.Mbuf, header: bool) returns (d: F.Mbuf?)
      requires Valid() && m !in Mbufs()
      modifies `ipq, m
      ensures Valid() && Mbufs() <= old(Mbufs()) + {m} && (d != null ==> d !in Mbufs())
      ensures var t, a := old(Entries()), Arrive([], old(m.Value()));
        if !header then d == null && Entries() == t
        else F.ValueOf(d) == a.out && Entries() == if a.list == [] then t else [I.Entry(k, ipfragttl, a.list)] + t
    {
      var left;
      left, d := StartQueue(m, header);
      if left != null {
        Link(Header(k, ipfragttl, left));
      }
    }

    /** The table is not touched. */
    method StartQueue(m: F.Mbuf, header: bool) returns (left: F.Queue?, d: F.Mbuf?)
      requires Valid() && m !in Mbufs()
      modifies m
      ensures Valid() && Mbufs() == old(Mbufs()) && Entries() == old(Entries())
      ensures left != null ==> fresh(left) && left.Valid() && left.list != [] && left.repr <= {m}
      ensures d != null ==> d == m && left == null
      ensures if !header then left == null && d == null
              else Arrival(F.ListOf(left), F.ValueOf(d)) == Arrive([], old(m.Value()))
    {
      left, d := F.ReAssemble(null, m, header);
    }

    /** insque: a header in front of the others. */
    method Link(h: Header)
      requires Valid() && h.queue !in Queues() && h.queue.repr !! Mbufs() && Filled(h)
      modifies `ipq
      ensures Valid() && Mbufs() == h.queue.repr + old(Mbufs())
      ensures Entries() == [I.Entry(h.key, h.ttl, h.queue.list)] + old(Entries())
    {
      assert forall x | x in ipq :: x.queue in Queues();
      Linked(h, ipq);
      Consed(h, ipq);
      SetHeaders([h] + ipq);
    }

    /** A fragment for its queue, or for a new one. */
    method Fragment(k: I.Key, m: F.Mbuf, header: bool) returns (d: F.Mbuf?)
      requires Valid() && m !in Mbufs()
      modifies `ipq, Queues(), Mbufs(), m
      ensures Valid() && Mbufs() <= old(Mbufs()) + {m} && (d != null ==> d !in Mbufs())
      ensures I.Input(Entries(), F.ValueOf(d)) == I.Reassemble(old(Entries()), ipfragttl, k, old(m.Value()), header)
    {
      var i := FindQueue(k);
      if i < |ipq| {
        assert ipq[i] in ipq;
        d := AddTo(i, m);
      } else {
        d := Start(k, m, header);
      }
    }

    /** What becomes of a whole packet, in the mbuf `m`. */
    method Deliver(p: I.Packet, m: F.Mbuf, header: bool) returns (d: F.Mbuf?)
      requires Valid() && m !in Mbufs() && p.Acceptable() && m.Value() == p.Fragment()
      modifies `ipq, Queues(), Mbufs(), m
      ensures Valid() && Mbufs() <= old(Mbufs()) + {m} && (d != null ==> d !in Mbufs())
      ensures I.Input(Entries(), F.ValueOf(d)) == I.Receive(old(Entries()), ipfragttl, p, header)
    {
      if p.OffsetOrFlags() {
        if p.MoreFragments() || p.ByteOffset() != 0 {
          d := Fragment(p.key, m, header);
          return;
        }
        Discard(p.key);
      }
      d := m;
    }

    /** The reassembly part of ipintr, for a packet with the raw header fields in the mbuf `m`:
        what is handed up is no longer held by any queue. */
    method Ipintr(k: I.Key, m: F.Mbuf, header: bool) returns (d: F.Mbuf?)
      requires Valid() && m !in Mbufs()
      modifies `ipq, Queues(), Mbufs(), m
      ensures Valid() && Mbufs() <= old(Mbufs()) + {m} && (d != null ==> d !in Mbufs())
      ensures I.Input(Entries(), F.ValueOf(d)) == I.Receive(old(Entries()), ipfragttl, old(Raw(k, m)), header)
    {
      var p := Raw(k, m);
      if m.hlen < MIN_HEADER || m.hlen > |m.buf| || m.len < m.hlen || |m.buf| < m.len {
        return null;
      }
      Convert(k, m);
      d := Deliver(p, m, header);
    }

    /** Cuts the mbuf to ip_len and converts the fields in place. */
    method Convert(k: I.Key, m: F.Mbuf)
      requires Valid() && m !in Mbufs() && Raw(k, m).Acceptable()
      modifies m
      ensures Valid() && Mbufs() == old(Mbufs()) && Entries() == old(Entries())
      ensures m.Value() == old(Raw(k, m).Fragment())
    {
      m.buf := m.buf[..m.len];
      m.len := m.len - m.hlen;
      m.more := (m.off / I.IP_MF) % 2 == 1;
      m.off := (m.off * 8) % 0x1_0000;
    }

    /** ip_freef of the queue for `k`, if there is one. */
    method Discard(k: I.Key)
      requires Valid()
      modifies `ipq
      ensures Valid() && Mbufs() <= old(Mbufs())
      ensures var t, i := old(Entries()), I.Find(old(Entries()), k);
        Entries() == if i < |t| then I.Remove(t, i) else t
    {
      var i := FindQueue(k);
      if i < |ipq| {
        Expire(i);
      }
    }

    /** ip_slowtimo stands before header `i` and is to end with `goal`. */
    ghost predicate Ticking(i: nat, goal: seq<I.Entry>, mbufs: set<F.Mbuf>)
      reads this, Queues(), Mbufs()
    {
      Valid() && Mbufs() <= mbufs && I.Aging(goal, Entries(), i)
    }

    /** ip_slowtimo */
    method SlowTimo()
      requires Valid()
      modifies `ipq
      ensures Valid() && Mbufs() <= old(Mbufs()) && Entries() == I.Age(old(Entries()))
    {
      var i: nat := 0;
      ghost var goal, mbufs := I.Age(Entries()), Mbufs();
      while i < |ipq|
        invariant Ticking(i, goal, mbufs)
        decreases |ipq| - i
      {
        i := Count(i, goal, mbufs);
      }
      I.AgingEnds(goal, Entries(), i);
    }

    /** One header's tick. */
    method Count(i: nat, ghost goal: seq<I.Entry>, ghost mbufs: set<F.Mbuf>) returns (next: nat)
      requires Ticking(i, goal, mbufs) && i < |ipq|
      modifies `ipq
      ensures Ticking(next, goal, mbufs) && |ipq| - next < old(|ipq|) - i
    {
      var ttl: Byte := (ipq[i].ttl - 1) % 256;
      if ttl == 0 {
        TickDrops(i, goal, mbufs);
        next := i;
      } else {
        TickCounts(i, ttl, goal, mbufs);
        next := i + 1;
      }
    }

    method TickDrops(i: nat, ghost goal: seq<I.Entry>, ghost mbufs: set<F.Mbuf>)
      requires Ticking(i, goal, mbufs) && i < |ipq| && (ipq[i].ttl - 1) % 256 == 0
      modifies `ipq
      ensures Ticking(i, goal, mbufs) && |ipq| == old(|ipq|) - 1
    {
      I.AgingDrops(goal, Entries(), i);
      Expire(i);
    }

    method TickCounts(i: nat, ttl: Byte, ghost goal: seq<I.Entry>, ghost mbufs: set<F.Mbuf>)
      requires Ticking(i, goal, mbufs) && i < |ipq| && ttl == (ipq[i].ttl - 1) % 256 != 0
      modifies `ipq
      ensures Ticking(i + 1, goal, mbufs) && |ipq| == old(|ipq|)
    {
      I.AgingCounts(goal, Entries(), i, Entries()[i].(ttl := ttl));
      SetTtl(i, ttl);
    }

    method Expire(i: nat)
      requires Valid() && i < |ipq|
      modifies `ipq
      ensures Valid() && |ipq| == old(|ipq|) - 1 && Mbufs() <= old(Mbufs())
      ensures Entries() == I.Remove(old(Entries()), i)
    {
      Parts(ipq, i);
      Leave(i, Entries());
    }

    method SetTtl(i: nat, ttl: Byte)
      requires Valid() && i < |ipq|
      modifies `ipq
      ensures Valid() && |ipq| == old(|ipq|) && Mbufs() == old(Mbufs())
      ensures Entries() == old(Entries())[i := old(Entries())[i].(ttl := ttl)]
    {
      Retimed(ipq, i, ttl);
      SetHeaders(ipq[i := ipq[i].(ttl := ttl)]);
    }

    /** The table is what the events `es` make of an empty one. */
    ghost predicate After(es: seq<I.Event>)
      reads this, Queues(), Mbufs()
    {
      Valid() && Entries() == I.Run(ipfragttl, es)
    }

    /** ipintr on a host that has been through `es`: a fragment of `P` that is expected under the guard
        is answered exactly when it completes `P` anew, and with `P`, in an mbuf no queue holds. */
    method IpintrAfter(k: I.Key, m: F.Mbuf, header: bool, ghost es: seq<I.Event>, ghost P: seq<Byte>)
      returns (d: F.Mbuf?)
      requires After(es) && m !in Mbufs()
      modifies `ipq, Queues(), Mbufs(), m
      ensures After(es + [I.Received(old(Raw(k, m)), header)]) && (d != null ==> d !in Mbufs())
      ensures I.Expected(P, k, ipfragttl, es, old(Raw(k, m))) ==>
                I.Answered(P, es, old(Raw(k, m)), header, F.ValueOf(d))
    {
      ghost var p := Raw(k, m);
      d := Ipintr(k, m, header);
      I.AnsweredAfter(P, k, ipfragttl, es, p, header);
    }

    /** ip_slowtimo on such a host. */
    method SlowTimoAfter(ghost es: seq<I.Event>)
      requires After(es)
      modifies `ipq
      ensures After(es + [I.Tick])
    {
      SlowTimo();
      I.RunNext(ipfragttl, es, I.Tick);
    }
  }
}
