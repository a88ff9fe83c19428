/** ip_output's fragments, fragmented again on the way or not, through ipReAssemble. */
module RoundTrip {
  import opened CTypes
  import opened Reassembly
  import opened IpInput
  import opened IpOutput

  /** The fragment that arrives when `o` is sent unchanged. */
  function AsFragment(o: Outgoing): Frag
    requires o.Valid()
  {
    o.Wire().Fragment()
  }

  lemma WireShape(o: Outgoing)
    requires o.Valid()
    ensures AsFragment(o) == Frag(o.ByteOffset(), |o.data|, o.MoreFragments(), o.HeaderLen(), o.fixed + o.opts + o.data)
    ensures AsFragment(o).Valid() && AsFragment(o).buf[AsFragment(o).hlen..] == o.data
  {
    assert o.Wire().buf[..o.Len()] == o.fixed + o.opts + o.data;
  }

  lemma PartIsPiece(P: seq<Byte>, o: Outgoing, at: nat, p: Outgoing)
    requires o.Valid() && PieceOf(P, AsFragment(o))
    requires p.Valid() && at + |p.data| <= |o.data| && p.data == o.data[at..at + |p.data|]
    requires p.ByteOffset() == o.ByteOffset() + at
    requires p.MoreFragments() == (at + |p.data| < |o.data| || o.MoreFragments())
    ensures PieceOf(P, AsFragment(p))
  {
    WireShape(o);
    WireShape(p);
    var f, g := AsFragment(o), AsFragment(p);
    assert o.data == P[f.off..f.End()];
    SliceOfSlice(P, f.off, f.End(), at, at + |p.data|);
  }

  lemma SliceOfSlice(P: seq<Byte>, a: nat, b: nat, i: nat, j: nat)
    requires a <= b <= |P| && i <= j <= b - a
    ensures P[a..b][i..j] == P[a + i..a + j]
  {
    forall k | 0 <= k < j - i ensures P[a..b][i..j][k] == P[a + i..a + j][k] {
      assert P[a..b][i + k] == P[a + i + k];
    }
  }

  /** The parts of an honest fragment are honest fragments. */
  lemma {:induction false} PartsArePieces(P: seq<Byte>, ps: seq<Outgoing>, o: Outgoing, at: nat, mtu: nat, p: Outgoing)
    requires o.Valid() && PieceOf(P, AsFragment(o)) && Partitions(ps, o, at, mtu) && p in ps
    ensures p.Valid() && p.key == o.key && |p.data| > 0 && PieceOf(P, AsFragment(p))
    ensures |ps| > 1 || at > 0 ==> p.MoreFragments() || p.ByteOffset() != 0
  {
    var q, rest := ps[0], ps[1..];
    if p == q {
      assert rest == [] || |rest[0].data| > 0;
      PartIsPiece(P, o, at, p);
    } else {
      PartsArePieces(P, rest, o, at + |q.data|, mtu, p);
    }
  }

  lemma {:induction false} PartsCover(ps: seq<Outgoing>, o: Outgoing, at: nat, mtu: nat, x: int)
    requires Partitions(ps, o, at, mtu) && o.ByteOffset() + at <= x < o.ByteOffset() + |o.data|
    ensures exists p | p in ps :: p.ByteOffset() <= x < p.ByteOffset() + |p.data|
  {
    var q := ps[0];
    if x >= q.ByteOffset() + |q.data| {
      PartsCover(ps[1..], o, at + |q.data|, mtu, x);
      var p :| p in ps[1..] && p.ByteOffset() <= x < p.ByteOffset() + |p.data|;
      assert p in ps;
    } else {
      assert q in ps;
    }
  }

  /** What one hop with this MTU makes of `o`. */
  ghost function Hop(o: Outgoing, mtu: nat): seq<Outgoing> {
    if o.Valid() && Transmit(o, mtu).Sent? then Transmit(o, mtu).packets else []
  }

  /** `q` is among what is left of `o` after hops of these MTUs. */
  ghost predicate Reaches(o: Outgoing, q: Outgoing, mtus: seq<nat>)
    decreases |mtus|
  {
    if mtus == [] then q == o
    else exists p | p in Hop(o, mtus[0]) :: Reaches(p, q, mtus[1..])
  }

  lemma HopKeepsPieces(P: seq<Byte>, o: Outgoing, mtu: nat, p: Outgoing)
    requires o.Valid() && |o.data| > 0 && PieceOf(P, AsFragment(o)) && |P| < 0x1_0000
    requires p in Hop(o, mtu)
    ensures p.Valid() && p.key == o.key && |p.data| > 0 && PieceOf(P, AsFragment(p))
    ensures p == o || p.MoreFragments() || p.ByteOffset() != 0
  {
    WireShape(o);
    OutputPartitions(o, mtu);
    if o.Len() > mtu {
      PartsArePieces(P, Transmit(o, mtu).packets, o, 0, mtu, p);
      assert |Transmit(o, mtu).packets| > 1;
    }
  }

  /** However often the pieces of an honest fragment are cut again, they stay honest. */
  lemma {:induction false} ReachedArePieces(P: seq<Byte>, o: Outgoing, q: Outgoing, mtus: seq<nat>)
    requires o.Valid() && |o.data| > 0 && PieceOf(P, AsFragment(o)) && |P| < 0x1_0000
    requires Reaches(o, q, mtus)
    ensures q.Valid() && q.key == o.key && |q.data| > 0 && PieceOf(P, AsFragment(q))
    decreases |mtus|
  {
    if mtus != [] {
      var p :| p in Hop(o, mtus[0]) && Reaches(p, q, mtus[1..]);
      HopKeepsPieces(P, o, mtus[0], p);
      ReachedArePieces(P, p, q, mtus[1..]);
    }
  }

  lemma {:induction false} PartsHaveHeaders(ps: seq<Outgoing>, o: Outgoing, at: nat, mtu: nat, p: Outgoing)
    requires Partitions(ps, o, at, mtu) && p in ps
    ensures p.ByteOffset() >= o.ByteOffset() + at
    ensures HeaderOf(p, o, p.ByteOffset() == o.ByteOffset())
  {
    var q, rest := ps[0], ps[1..];
    if p != q {
      PartsHaveHeaders(rest, o, at + |q.data|, mtu, p);
    }
  }

  lemma HopKeepsHeaders(o: Outgoing, mtu: nat, p: Outgoing)
    requires o.Valid() && |o.data| > 0 && o.ByteOffset() + |o.data| < 0x1_0000 && p in Hop(o, mtu)
    ensures p.ByteOffset() >= o.ByteOffset()
    ensures HeaderOf(p, o, p.ByteOffset() == o.ByteOffset())
  {
    OutputPartitions(o, mtu);
    if o.Len() > mtu {
      PartsHaveHeaders(Transmit(o, mtu).packets, o, 0, mtu, p);
    }
  }

  lemma HeaderOfPart(q: Outgoing, p: Outgoing, o: Outgoing, firstOfP: bool, first: bool)
    requires HeaderOf(p, o, first) && HeaderOf(q, p, firstOfP)
    ensures HeaderOf(q, o, first && firstOfP)
  {
    if !first && !firstOfP {
      KeptAgain(q.opts, p.opts, o.opts);
    }
  }

  /** However often it was cut, a fragment has the header of the datagram: with all its options if
      it begins the data, and otherwise with those to be copied. */
  lemma {:induction false} ReachedHeaders(P: seq<Byte>, o: Outgoing, q: Outgoing, mtus: seq<nat>)
    requires o.Valid() && |o.data| > 0 && PieceOf(P, AsFragment(o)) && |P| < 0x1_0000
    requires Reaches(o, q, mtus)
    ensures q.ByteOffset() >= o.ByteOffset()
    ensures HeaderOf(q, o, q.ByteOffset() == o.ByteOffset())
    decreases |mtus|
  {
    if mtus != [] {
      var p :| p in Hop(o, mtus[0]) && Reaches(p, q, mtus[1..]);
      WireShape(o);
      HopKeepsHeaders(o, mtus[0], p);
      HopKeepsPieces(P, o, mtus[0], p);
      ReachedHeaders(P, p, q, mtus[1..]);
      HeaderOfPart(q, p, o, q.ByteOffset() == p.ByteOffset(), p.ByteOffset() == o.ByteOffset());
    }
  }

  /** What the link hands up of `o`: the frame may be longer than the packet. */
  function Padded(o: Outgoing, pad: seq<Byte>): Packet
    requires o.Valid()
  {
    o.Wire().(buf := o.Wire().buf + pad)
  }

  ghost predicate ArrivesAs(q: Outgoing, pad: seq<Byte>, p: Packet) {
    q.Valid() && p == Padded(q, pad)
  }

  /** The packet `p` is a fragment of the datagram `o`, cut up along some route, in a frame with
      any padding. */
  ghost predicate FragmentOf(o: Outgoing, p: Packet) {
    IsFragment(p) && exists q, mtus, pad :: Reaches(o, q, mtus) && ArrivesAs(q, pad, p)
  }

  ghost predicate Unfragmented(o: Outgoing) {
    o.Valid() && |o.data| > 0 && o.ByteOffset() == 0 && !o.MoreFragments()
  }

  lemma PaddedCarries(P: seq<Byte>, q: Outgoing, pad: seq<Byte>)
    requires q.Valid() && PieceOf(P, AsFragment(q))
    ensures CarriesPart(P, Padded(q, pad)) && Padded(q, pad).Fragment() == AsFragment(q)
  {
    WireShape(q);
    var p, f := Padded(q, pad), AsFragment(q);
    assert p.buf[..p.ipLen] == q.fixed + q.opts + q.data;
    assert p.buf[p.hlen..p.ipLen] == q.data;
  }

  lemma WholeIsPiece(o: Outgoing)
    requires Unfragmented(o)
    ensures PieceOf(o.data, AsFragment(o))
  {
    WireShape(o);
    assert o.data[0..|o.data|] == o.data;
  }

  lemma FragmentCarries(o: Outgoing, p: Packet)
    requires Unfragmented(o) && FragmentOf(o, p)
    ensures p.key == o.key && CarriesPart(o.data, p) && p.Fragment().off < |o.data|
  {
    var q, mtus, pad :| Reaches(o, q, mtus) && ArrivesAs(q, pad, p);
    WholeIsPiece(o);
    ReachedArePieces(o.data, o, q, mtus);
    PaddedCarries(o.data, q, pad);
    WireShape(q);
  }

  lemma FragmentHead(o: Outgoing, p: Packet)
    requires Unfragmented(o) && FragmentOf(o, p)
    ensures HeadOf(o.fixed + o.opts, p.Fragment())
  {
    var q, mtus, pad :| Reaches(o, q, mtus) && ArrivesAs(q, pad, p);
    WholeIsPiece(o);
    ReachedHeaders(o.data, o, q, mtus);
    ReachedArePieces(o.data, o, q, mtus);
    PaddedCarries(o.data, q, pad);
    WireShape(q);
  }

  lemma {:induction false} ArrivalHeads(o: Outgoing, es: seq<Event>)
    requires Unfragmented(o)
    requires forall e | e in es && e.Received? && e.p.key == o.key :: FragmentOf(o, e.p)
    ensures AllHeads(o.fixed + o.opts, Arrivals(o.key, es))
  {
    if es != [] {
      var before, e := es[..|es| - 1], es[|es| - 1];
      assert forall x :: x in es <==> x in before || x == e;
      ArrivalHeads(o, before);
      if e.Received? && e.p.key == o.key {
        FragmentHead(o, e.p);
      }
    }
  }

  lemma FragmentsAreParts(o: Outgoing, es: seq<Event>)
    requires Unfragmented(o)
    requires forall e | e in es && e.Received? && e.p.key == o.key :: FragmentOf(o, e.p)
    ensures OnlyParts(o.data, o.key, es)
  {
    forall e | e in es && e.Received? && e.p.key == o.key ensures IsFragment(e.p) && CarriesPart(o.data, e.p) {
      FragmentCarries(o, e.p);
    }
  }

  /** A datagram that is sent whole and arrives in a frame with any padding is handed up at once, with
      its own header and payload and without the padding. */
  lemma WholeArrives(o: Outgoing, pad: seq<Byte>, t: seq<Entry>, fragTtl: Byte, header: bool)
    requires Unfragmented(o)
    ensures Restored(o, Receive(t, fragTtl, Padded(o, pad), header).out)
    ensures o.ipOff == 0 || o.ipOff == IP_DF ==> Receive(t, fragTtl, Padded(o, pad), header).table == t
  {
    WholeIsPiece(o);
    PaddedCarries(o.data, o, pad);
    WireShape(o);
    WholeIsAnswered(o.data, t, fragTtl, Padded(o, pad), header);
  }

  /** `es` brings nothing under the key of `o` but its fragments, and no queue of theirs is
      kept waiting until it goes. */
  ghost predicate Carries(o: Outgoing, fragTtl: Byte, es: seq<Event>) {
    && (forall e | e in es && e.Received? && e.p.key == o.key :: FragmentOf(o, e.p))
    && InTime(o.key, fragTtl, es)
  }

  /** The answer is `o` again: its header, all its options, its data. */
  ghost predicate Restored(o: Outgoing, out: Option<Frag>) {
    Answers(o.data, out) && out.value.buf == o.fixed + o.opts + o.data
  }

  lemma AnswerIsRestored(o: Outgoing, fragTtl: Byte, es: seq<Event>, p: Packet, header: bool)
    requires Unfragmented(o) && FragmentOf(o, p) && Carries(o, fragTtl, es)
    requires SafeRun(Arrivals(o.key, es)) && Guarded(Queue(Arrivals(o.key, es)), p.Fragment())
    ensures var out := Receive(Run(fragTtl, es), fragTtl, p, header).out;
      Answers(o.data, out) ==> Restored(o, out)
  {
    FragmentsAreParts(o, es);
    PartsAreArrivals(o.data, o.key, es);
    FragmentCarries(o, p);
    CarriedIsPiece(o.data, p);
    AnswerIsOutput(o.key, fragTtl, es, p, header);
    ArrivalHeads(o, es);
    FragmentHead(o, p);
    AnswerHasHeader(o.fixed + o.opts, o.data, Arrivals(o.key, es), p.Fragment());
  }

  /** The round trip. A datagram is cut up along any routes, its fragments arrive in any
      order and number, over and over, amid other traffic: every arrival that completes it
      anew, and no other, is answered, and with the original header and payload. The guard is that of
      Reassembly.Safe; a fragment is lost when its queue cannot be allocated. */
  lemma EndToEnd(o: Outgoing, fragTtl: Byte, es: seq<Event>, p: Packet, header: bool)
    requires Unfragmented(o) && FragmentOf(o, p) && Carries(o, fragTtl, es)
    requires var fs := Arrivals(o.key, es);
      SafeRun(fs) && Guarded(Queue(fs), p.Fragment())
    ensures var out, fs := Receive(Run(fragTtl, es), fragTtl, p, header).out, Arrivals(o.key, es);
      && (out.Some? <==> Admitted(fs, header) && CoversAll(Since(o.data, fs) + [p.Fragment()], |o.data|))
      && (out.Some? ==> Restored(o, out))
  {
    FragmentsAreParts(o, es);
    FragmentCarries(o, p);
    LiveRoundTrip(o.data, o.key, fragTtl, es, p, header);
    AnswerIsRestored(o, fragTtl, es, p, header);
  }

  /** The guard is exact: after any guarded run a fragment is answered with the original datagram
      if and only if it completes it anew and the guard holds for it too. */
  lemma EndToEndIff(o: Outgoing, fragTtl: Byte, es: seq<Event>, p: Packet, header: bool)
    requires Unfragmented(o) && FragmentOf(o, p) && Carries(o, fragTtl, es)
    requires SafeRun(Arrivals(o.key, es))
    ensures var out, fs := Receive(Run(fragTtl, es), fragTtl, p, header).out, Arrivals(o.key, es);
      Restored(o, out) <==>
      && Admitted(fs, header) && Guarded(Queue(fs), p.Fragment())
      && CoversAll(Since(o.data, fs) + [p.Fragment()], |o.data|)
  {
    FragmentsAreParts(o, es);
    PartsAreArrivals(o.data, o.key, es);
    FragmentCarries(o, p);
    CarriedIsPiece(o.data, p);
    AnswerIsOutput(o.key, fragTtl, es, p, header);
    AnsweredIff(o.data, Arrivals(o.key, es), p.Fragment());
    if Guarded(Queue(Arrivals(o.key, es)), p.Fragment()) {
      AnswerIsRestored(o, fragTtl, es, p, header);
    }
  }

  /** Datagrams of at most 32768 data bytes need no guard. */
  lemma EndToEndUnguarded(o: Outgoing, fragTtl: Byte, es: seq<Event>, p: Packet, header: bool)
    requires Unfragmented(o) && FragmentOf(o, p) && |o.data| <= 0x8000 && Carries(o, fragTtl, es)
    ensures var out, fs := Receive(Run(fragTtl, es), fragTtl, p, header).out, Arrivals(o.key, es);
      && (out.Some? <==> Admitted(fs, header) && CoversAll(Since(o.data, fs) + [p.Fragment()], |o.data|))
      && (out.Some? ==> Restored(o, out))
  {
    ArrivalsStartLow(o, es);
    var fs := Arrivals(o.key, es);
    LowOffsetsAreSafe(fs);
    if Queue(fs) != [] {
      forall g | g in Successor(Queue(fs), p.Fragment()) ensures g.off < 0x8000 {
        SuccessorIsQueued(Queue(fs), p.Fragment(), g);
        QueueOffsets(fs, g);
      }
    }
    EndToEnd(o, fragTtl, es, p, header);
  }

  lemma {:induction false} ArrivalsStartLow(o: Outgoing, es: seq<Event>)
    requires Unfragmented(o) && |o.data| <= 0x8000
    requires forall e | e in es && e.Received? && e.p.key == o.key :: FragmentOf(o, e.p)
    ensures forall f | f in Arrivals(o.key, es) :: f.off < 0x8000
  {
    if es != [] {
      var before, e := es[..|es| - 1], es[|es| - 1];
      assert forall x :: x in es <==> x in before || x == e;
      ArrivalsStartLow(o, before);
      if e.Received? && e.p.key == o.key {
        FragmentCarries(o, e.p);
      }
    }
  }

  /** One hop's fragments, each arriving once in whatever order, do complete the datagram. */
  lemma AllFragmentsComplete(o: Outgoing, mtu: nat, fs: seq<Frag>)
    requires Unfragmented(o) && o.Len() > mtu && Transmit(o, mtu).Sent?
    requires forall p | p in Transmit(o, mtu).packets :: p.Valid() && AsFragment(p) in fs
    ensures CoversAll(fs, |o.data|)
  {
    OutputPartitions(o, mtu);
    forall x | 0 <= x < |o.data| ensures Covers(fs, x) {
      PartsCover(Transmit(o, mtu).packets, o, 0, mtu, x);
      var p :| p in Transmit(o, mtu).packets && p.ByteOffset() <= x < p.ByteOffset() + |p.data|;
      WireShape(p);
      assert AsFragment(p) in fs;
    }
  }
}
