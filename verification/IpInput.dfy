/** ipintr's reassembly part and ip_slowtimo: the table of reassembly queues, values only.
    IpQueues.dfy proves the queues on the heap against it. */
module IpInput {
  import opened CTypes
  import opened Reassembly

  const IP_DF := 0x4000
  const IP_MF := 0x2000

  /** What tells the fragments of one datagram from those of another. */
  datatype Key = Key(id: U16, src: nat, dst: nat, proto: Byte)

  /** A datagram or fragment as the link hands it up; `ipOff` is the raw field of flags and
      8-byte units, `buf` the whole mbuf with the header in front. */
  datatype Packet = Packet(key: Key, hlen: nat, ipLen: U16, ipOff: U16, buf: seq<Byte>) {
    function MoreFragments(): bool { (ipOff / IP_MF) % 2 == 1 }

    /** `ip_off <<= 3` on the 16-bit field: the three flags fall out. */
    function ByteOffset(): U16 { (ipOff * 8) % 0x1_0000 }

    /** `ip->ip_off &~ IP_DF` */
    predicate OffsetOrFlags() { ipOff % IP_DF != 0 || ipOff >= 2 * IP_DF }

    /** The checks before the options: lengths that agree with the bytes present. */
    predicate Acceptable() {
      MIN_HEADER <= hlen <= |buf| && hlen <= ipLen <= |buf|
    }

    /** The fragment as ipReAssemble sees it, trimmed to ip_len. */
    function Fragment(): Frag
      requires Acceptable()
    {
      Frag(ByteOffset(), ipLen - hlen, MoreFragments(), hlen, buf[..ipLen])
    }
  }

  datatype Entry = Entry(key: Key, ttl: Byte, list: seq<Frag>)

  datatype Input = Input(table: seq<Entry>, out: Option<Frag>)

  function Find(t: seq<Entry>, k: Key): (i: nat)
    ensures i <= |t| && (i < |t| ==> t[i].key == k) && forall j | 0 <= j < i :: t[j].key != k
  {
    if t == [] || t[0].key == k then 0 else 1 + Find(t[1..], k)
  }

  function Remove(t: seq<Entry>, i: nat): seq<Entry>
    requires i < |t|
  {
    t[..i] + t[i + 1..]
  }

  /** A fragment for its queue in the table, or for a new one in front; without a header
      for that one (`header`: the allocation succeeds) the fragment is dropped. */
  function Reassemble(t: seq<Entry>, fragTtl: Byte, k: Key, f: Frag, header: bool): Input {
    var i := Find(t, k);
    if i == |t| && !header then Input(t, None)
    else
      var a := Arrive(if i < |t| then t[i].list else [], f);
      if i < |t| then
        Input(if a.list == [] then Remove(t, i) else t[i := t[i].(list := a.list)], a.out)
      else
        Input(if a.list == [] then t else [Entry(k, fragTtl, a.list)] + t, a.out)
  }

  /** A packet that is for this host. */
  function Receive(t: seq<Entry>, fragTtl: Byte, p: Packet, header: bool): Input {
    if !p.Acceptable() then Input(t, None)
    else if !p.OffsetOrFlags() then Input(t, Some(p.Fragment()))
    else if p.MoreFragments() || p.ByteOffset() != 0 then Reassemble(t, fragTtl, p.key, p.Fragment(), header)
    else
      var i := Find(t, p.key);
      Input(if i < |t| then Remove(t, i) else t, Some(p.Fragment()))
  }

  /** `--fp->ipq_ttl` on an unsigned char; a queue that reaches 0 goes. */
  function AgeOne(e: Entry): seq<Entry> {
    if (e.ttl - 1) % 256 == 0 then [] else [e.(ttl := (e.ttl - 1) % 256)]
  }

  function Age(t: seq<Entry>): seq<Entry> {
    if t == [] then [] else AgeOne(t[0]) + Age(t[1..])
  }

  /** ip_slowtimo stands before entry `i` of `t` and is to end with `goal`. */
  ghost predicate Aging(goal: seq<Entry>, t: seq<Entry>, i: nat) {
    i <= |t| && goal == t[..i] + Age(t[i..])
  }

  lemma AgingDrops(goal: seq<Entry>, t: seq<Entry>, i: nat)
    requires Aging(goal, t, i) && i < |t| && (t[i].ttl - 1) % 256 == 0
    ensures Aging(goal, Remove(t, i), i)
  {
    assert Remove(t, i)[..i] == t[..i] && Remove(t, i)[i..] == t[i..][1..];
    assert AgeOne(t[i]) + Age(t[i..][1..]) == Age(t[i..][1..]);
  }

  lemma AgingCounts(goal: seq<Entry>, t: seq<Entry>, i: nat, e: Entry)
    requires Aging(goal, t, i) && i < |t| && AgeOne(t[i]) == [e]
    ensures Aging(goal, t[i := e], i + 1)
  {
    assert t[i := e][..i + 1] == t[..i] + [e] && t[i := e][i + 1..] == t[i..][1..];
    assert t[..i] + ([e] + Age(t[i..][1..])) == t[..i] + [e] + Age(t[i..][1..]);
  }

  lemma AgingEnds(goal: seq<Entry>, t: seq<Entry>, i: nat)
    requires Aging(goal, t, i) && i >= |t|
    ensures t == goal
  {
    assert t[..i] == t;
  }

  // ---------------------------------------------------------------- isolation

  ghost function Keys(t: seq<Entry>): set<Key> {
    if t == [] then {} else {t[0].key} + Keys(t[1..])
  }

  ghost predicate OneQueuePerKey(t: seq<Entry>) {
    t == [] || (t[0].key !in Keys(t[1..]) && t[0].list != [] && OneQueuePerKey(t[1..]))
  }

  /** A packet, and whether a queue header could be had for it; or a call of ip_slowtimo. */
  datatype Event = Received(p: Packet, header: bool) | Tick

  function Step(t: seq<Entry>, fragTtl: Byte, e: Event): seq<Entry> {
    match e
    case Received(p, header) => Receive(t, fragTtl, p, header).table
    case Tick => Age(t)
  }

  /** The queue for `k`: its remaining lifetime and fragments. */
  function Slot(t: seq<Entry>, k: Key): Option<(Byte, seq<Frag>)> {
    var i := Find(t, k);
    if i < |t| then Some((t[i].ttl, t[i].list)) else None
  }

  /** What one event does to a single queue, seen alone. */
  function StepAlone(s: Option<(Byte, seq<Frag>)>, k: Key, fragTtl: Byte, e: Event): Option<(Byte, seq<Frag>)> {
    match e
    case Tick =>
      if s.Some? && (s.value.0 - 1) % 256 != 0 then Some(((s.value.0 - 1) % 256, s.value.1)) else None
    case Received(p, header) =>
      if p.key != k || !p.Acceptable() || !p.OffsetOrFlags() then s
      else if p.MoreFragments() || p.ByteOffset() != 0 then
        if s.None? && !header then None
        else
          var a := Arrive(if s.Some? then s.value.1 else [], p.Fragment());
          if a.list == [] then None
          else Some((if s.Some? then s.value.0 else fragTtl, a.list))
      else None
  }

  lemma {:induction false} FindIffKey(t: seq<Entry>, k: Key)
    ensures Find(t, k) < |t| <==> k in Keys(t)
  {
    if t != [] {
      FindIffKey(t[1..], k);
    }
  }

  lemma SlotCons(e: Entry, t: seq<Entry>, k: Key)
    ensures Keys([e] + t) == {e.key} + Keys(t)
    ensures Slot([e] + t, k) == if k == e.key then Some((e.ttl, e.list)) else Slot(t, k)
    ensures OneQueuePerKey([e] + t) <==> e.key !in Keys(t) && e.list != [] && OneQueuePerKey(t)
  {
    assert ([e] + t)[1..] == t;
  }

  lemma SlotHead(t: seq<Entry>, k: Key)
    requires OneQueuePerKey(t) && t != []
    ensures Slot(t, k) == if k == t[0].key then Some((t[0].ttl, t[0].list)) else Slot(t[1..], k)
    ensures Slot(t[1..], t[0].key) == None
  {
    FindIffKey(t[1..], t[0].key);
  }

  lemma {:induction false} SlotAfterRemove(t: seq<Entry>, i: nat, k: Key)
    requires OneQueuePerKey(t) && i < |t|
    ensures OneQueuePerKey(Remove(t, i)) && Keys(Remove(t, i)) <= Keys(t)
    ensures Slot(Remove(t, i), k) == if k == t[i].key then None else Slot(t, k)
  {
    SlotHead(t, k);
    if i == 0 {
      assert Remove(t, i) == t[1..];
    } else {
      SlotAfterRemove(t[1..], i - 1, k);
      InKeys(t[1..], i - 1);
      assert Remove(t, i) == [t[0]] + Remove(t[1..], i - 1);
      SlotCons(t[0], Remove(t[1..], i - 1), k);
    }
  }

  lemma {:induction false} InKeys(t: seq<Entry>, i: nat)
    requires i < |t|
    ensures t[i].key in Keys(t)
  {
    if i > 0 {
      InKeys(t[1..], i - 1);
    }
  }

  lemma {:induction false} SlotAfterUpdate(t: seq<Entry>, i: nat, list: seq<Frag>, k: Key)
    requires OneQueuePerKey(t) && i < |t| && list != []
    ensures var t' := t[i := t[i].(list := list)];
      && OneQueuePerKey(t') && Keys(t') == Keys(t)
      && Slot(t', k) == if k == t[i].key then Some((t[i].ttl, list)) else Slot(t, k)
  {
    var e := t[i].(list := list);
    if i == 0 {
      assert t[0 := e] == [e] + t[1..];
      SlotCons(e, t[1..], k);
    } else {
      SlotAfterUpdate(t[1..], i - 1, list, k);
      InKeys(t[1..], i - 1);
      assert t[i := e] == [t[0]] + t[1..][i - 1 := e];
      SlotCons(t[0], t[1..][i - 1 := e], k);
    }
  }

  lemma AgeOneKeeps(e: Entry, t: seq<Entry>, k: Key)
    requires OneQueuePerKey(t) && e.key !in Keys(t) && e.list != []
    ensures OneQueuePerKey(AgeOne(e) + t) && Keys(AgeOne(e) + t) <= {e.key} + Keys(t)
    ensures Slot(AgeOne(e) + t, k)
         == if k == e.key then StepAlone(Some((e.ttl, e.list)), k, 0, Tick) else Slot(t, k)
  {
    FindIffKey(t, e.key);
    if AgeOne(e) == [] {
      assert [] + t == t;
    } else {
      SlotCons(AgeOne(e)[0], t, k);
    }
  }

  lemma {:induction false} AgeKeeps(t: seq<Entry>, k: Key)
    requires OneQueuePerKey(t)
    ensures OneQueuePerKey(Age(t)) && Keys(Age(t)) <= Keys(t)
    ensures Slot(Age(t), k) == StepAlone(Slot(t, k), k, 0, Tick)
  {
    if t != [] {
      AgeKeeps(t[1..], k);
      SlotHead(t, k);
      AgeOneKeeps(t[0], Age(t[1..]), k);
    }
  }

  /** One event does to every queue exactly what it does to that queue alone, and there is
      never more than one queue for a datagram, nor an empty one. */
  lemma StepIsolated(t: seq<Entry>, k: Key, fragTtl: Byte, e: Event)
    requires OneQueuePerKey(t)
    ensures OneQueuePerKey(Step(t, fragTtl, e))
    ensures Slot(Step(t, fragTtl, e), k) == StepAlone(Slot(t, k), k, fragTtl, e)
  {
    match e
    case Tick => AgeKeeps(t, k);
    case Received(p, header) =>
      var i := Find(t, p.key);
      if p.Acceptable() && p.OffsetOrFlags() && (i < |t| || header) {
        if p.MoreFragments() || p.ByteOffset() != 0 {
          var a := Arrive(if i < |t| then t[i].list else [], p.Fragment());
          if i < |t| {
            if a.list == [] { SlotAfterRemove(t, i, k); } else { SlotAfterUpdate(t, i, a.list, k); }
          } else if a.list != [] {
            FindIffKey(t, p.key);
            SlotCons(Entry(p.key, fragTtl, a.list), t, k);
          }
        } else if i < |t| {
          SlotAfterRemove(t, i, k);
        }
      }
  }

  function Run(fragTtl: Byte, es: seq<Event>): seq<Entry> {
    if es == [] then [] else Step(Run(fragTtl, es[..|es| - 1]), fragTtl, es[|es| - 1])
  }

  function RunAlone(k: Key, fragTtl: Byte, es: seq<Event>): Option<(Byte, seq<Frag>)> {
    if es == [] then None else StepAlone(RunAlone(k, fragTtl, es[..|es| - 1]), k, fragTtl, es[|es| - 1])
  }

  /** Over every run, interleaved datagrams never mix: each queue is what its own packets
      and the timer make of it. */
  lemma {:induction false} RunIsolated(k: Key, fragTtl: Byte, es: seq<Event>)
    ensures OneQueuePerKey(Run(fragTtl, es))
    ensures Slot(Run(fragTtl, es), k) == RunAlone(k, fragTtl, es)
  {
    if es != [] {
      RunIsolated(k, fragTtl, es[..|es| - 1]);
      StepIsolated(Run(fragTtl, es[..|es| - 1]), k, fragTtl, es[|es| - 1]);
    }
  }

  ghost predicate IsFragment(p: Packet) {
    p.Acceptable() && (p.MoreFragments() || p.ByteOffset() != 0)
  }

  /** The fragments for `k` that reach their queue, in order of arrival: one that would
      start a queue is lost when there is no header for it. */
  ghost function Arrivals(k: Key, es: seq<Event>): seq<Frag> {
    if es == [] then []
    else
      var before, e := Arrivals(k, es[..|es| - 1]), es[|es| - 1];
      if e.Received? && e.p.key == k && IsFragment(e.p) && (Queue(before) != [] || e.header) then
        before + [e.p.Fragment()]
      else
        before
  }

  /** For how many ticks the queue for `k` has been there. */
  ghost function Waiting(k: Key, es: seq<Event>): nat {
    if Queue(Arrivals(k, es)) == [] || es == [] then 0
    else Waiting(k, es[..|es| - 1]) + if es[|es| - 1].Tick? then 1 else 0
  }

  /** The count starts at `ipfragttl`, and 0 is 256. */
  function Lifetime(fragTtl: Byte): nat {
    if fragTtl == 0 then 256 else fragTtl
  }

  /** No queue for `k` ever reached its lifetime. */
  ghost predicate InTime(k: Key, fragTtl: Byte, es: seq<Event>) {
    es == [] || (InTime(k, fragTtl, es[..|es| - 1]) && Waiting(k, es) < Lifetime(fragTtl))
  }

  /** No whole datagram carries the key: its packets are acceptable fragments. */
  ghost predicate OnlyFragments(k: Key, es: seq<Event>) {
    forall e | e in es && e.Received? && e.p.key == k :: IsFragment(e.p)
  }

  /** The slot `s` holds the list `l`, if there is one, and was made `waiting` ticks ago. */
  ghost predicate Tracks(s: Option<(Byte, seq<Frag>)>, l: seq<Frag>, fragTtl: Byte, waiting: nat) {
    if l == [] then s.None? else s == Some(((fragTtl - waiting) % 256, l))
  }

  lemma TrackTick(s: Option<(Byte, seq<Frag>)>, l: seq<Frag>, fragTtl: Byte, waiting: nat, k: Key)
    requires Tracks(s, l, fragTtl, waiting) && (l == [] || waiting + 1 < Lifetime(fragTtl))
    ensures Tracks(StepAlone(s, k, fragTtl, Tick), l, fragTtl, waiting + 1)
  {
  }

  lemma TrackPacket(s: Option<(Byte, seq<Frag>)>, l: seq<Frag>, fragTtl: Byte, waiting: nat, k: Key, p: Packet,
                    header: bool)
    requires Tracks(s, l, fragTtl, waiting) && (p.key == k ==> IsFragment(p)) && (l == [] ==> waiting == 0)
    ensures Tracks(StepAlone(s, k, fragTtl, Received(p, header)),
                   if p.key == k && (l != [] || header) then Arrive(l, p.Fragment()).list else l,
                   fragTtl, waiting)
  {
    if p.key == k {
      FlagsOfFragment(p);
    }
  }

  /** Seen alone, a queue that is not kept waiting too long holds what its arrivals make of
      it, with as many ticks left as its lifetime gives. */
  lemma {:induction false} AloneIsQueue(k: Key, fragTtl: Byte, es: seq<Event>)
    requires OnlyFragments(k, es) && InTime(k, fragTtl, es)
    ensures Tracks(RunAlone(k, fragTtl, es), Queue(Arrivals(k, es)), fragTtl, Waiting(k, es))
  {
    if es != [] {
      var before, e := es[..|es| - 1], es[|es| - 1];
      assert forall x | x in before :: x in es;
      AloneIsQueue(k, fragTtl, before);
      var s, fs, w := RunAlone(k, fragTtl, before), Arrivals(k, before), Waiting(k, before);
      match e
      case Tick =>
        TrackTick(s, Queue(fs), fragTtl, w, k);
      case Received(p, header) =>
        assert e in es;
        TrackPacket(s, Queue(fs), fragTtl, w, k, p, header);
        QueueAfter(fs, if IsFragment(p) then p.Fragment() else Frag(0, 0, false, 0, []));
    }
  }

  lemma FlagsOfFragment(p: Packet)
    requires p.MoreFragments() || p.ByteOffset() != 0
    ensures p.OffsetOrFlags()
  {
  }

  lemma RunNext(fragTtl: Byte, es: seq<Event>, e: Event)
    ensures Run(fragTtl, es + [e]) == Step(Run(fragTtl, es), fragTtl, e)
  {
    assert (es + [e])[..|es|] == es;
  }

  lemma LastTick(s: Option<(Byte, seq<Frag>)>, l: seq<Frag>, fragTtl: Byte, k: Key)
    requires Tracks(s, l, fragTtl, Lifetime(fragTtl) - 1) && l != []
    ensures s.Some? && StepAlone(s, k, fragTtl, Tick).None?
  {
  }

  /** A queue that has waited for one tick less than its lifetime does not survive the next. */
  lemma {:induction false} ExpiresAtLifetime(k: Key, fragTtl: Byte, es: seq<Event>)
    requires OnlyFragments(k, es) && InTime(k, fragTtl, es)
    requires Queue(Arrivals(k, es)) != [] && Waiting(k, es) == Lifetime(fragTtl) - 1
    ensures Slot(Run(fragTtl, es), k).Some? && Slot(Run(fragTtl, es + [Tick]), k).None?
  {
    var alone := RunAlone(k, fragTtl, es);
    assert alone.Some? && StepAlone(alone, k, fragTtl, Tick).None? by {
      AloneIsQueue(k, fragTtl, es);
      LastTick(alone, Queue(Arrivals(k, es)), fragTtl, k);
    }
    RunIsolated(k, fragTtl, es);
    RunNext(fragTtl, es, Tick);
    StepIsolated(Run(fragTtl, es), k, fragTtl, Tick);
  }

  /** The next packet starts no queue, or gets the header for it. */
  ghost predicate Admitted(fs: seq<Frag>, header: bool) {
    Queue(fs) != [] || header
  }

  /** What the table answers is what the queue of that datagram answers. */
  lemma AnswerIsOutput(k: Key, fragTtl: Byte, es: seq<Event>, p: Packet, header: bool)
    requires p.key == k && IsFragment(p) && OnlyFragments(k, es) && InTime(k, fragTtl, es)
    ensures var fs := Arrivals(k, es);
      Receive(Run(fragTtl, es), fragTtl, p, header).out
      == if Admitted(fs, header) then Output(fs, p.Fragment()) else None
  {
    RunIsolated(k, fragTtl, es);
    AloneIsQueue(k, fragTtl, es);
    FlagsOfFragment(p);
  }

  /** The packet as it came: the bytes between its header and ip_len are those of `P` at its offset,
      whatever follows them in the frame. */
  ghost predicate CarriesPart(P: seq<Byte>, p: Packet) {
    p.Acceptable() &&
    var at, n := p.ByteOffset(), p.ipLen - p.hlen;
    && at + n <= |P| && p.MoreFragments() == (at + n < |P|)
    && p.buf[p.hlen..p.ipLen] == P[at..at + n]
  }

  /** What ipReAssemble sees of it is an honest fragment. */
  lemma CarriedIsPiece(P: seq<Byte>, p: Packet)
    requires CarriesPart(P, p)
    ensures PieceOf(P, p.Fragment())
  {
    assert p.Fragment().buf[p.hlen..] == p.buf[p.hlen..p.ipLen];
  }

  /** Whatever comes for `k` is a fragment that carries its part of `P`. */
  ghost predicate OnlyParts(P: seq<Byte>, k: Key, es: seq<Event>) {
    forall e | e in es && e.Received? && e.p.key == k :: IsFragment(e.p) && CarriesPart(P, e.p)
  }

  lemma {:induction false} PartsAreArrivals(P: seq<Byte>, k: Key, es: seq<Event>)
    requires OnlyParts(P, k, es)
    ensures OnlyFragments(k, es) && AllPieces(P, Arrivals(k, es))
  {
    if es != [] {
      var before, e := es[..|es| - 1], es[|es| - 1];
      assert forall x :: x in es <==> x in before || x == e;
      PartsAreArrivals(P, k, before);
      if e.Received? && e.p.key == k {
        CarriedIsPiece(P, e.p);
      }
    }
  }

  /** An unfragmented datagram, padded or not, is handed up at once: its payload is the answer. If no
      flag but DF is set, the table stays as it is. */
  lemma WholeIsAnswered(P: seq<Byte>, t: seq<Entry>, fragTtl: Byte, p: Packet, header: bool)
    requires CarriesPart(P, p) && p.ByteOffset() == 0 && p.ipLen - p.hlen == |P|
    ensures Answers(P, Receive(t, fragTtl, p, header).out)
    ensures p.ipOff == 0 || p.ipOff == IP_DF ==> Receive(t, fragTtl, p, header).table == t
  {
    CarriedIsPiece(P, p);
    assert P[0..|P|] == P;
  }

  /** A packet that is no fragment but has the reserved flag set is handed up too, and ends the queue of
      its key, if there is one, and no other. */
  lemma ReservedFlagEndsQueue(t: seq<Entry>, fragTtl: Byte, p: Packet, header: bool, k: Key)
    requires OneQueuePerKey(t) && p.Acceptable() && 0x8000 <= p.ipOff && !IsFragment(p)
    ensures Receive(t, fragTtl, p, header).out == Some(p.Fragment())
    ensures Slot(Receive(t, fragTtl, p, header).table, k) == if k == p.key then None else Slot(t, k)
  {
    StepIsolated(t, k, fragTtl, Received(p, header));
    FindIffKey(t, p.key);
  }

  /** A part of `P` comes after the guarded run `es`, in which its queue got nothing else and
      never reached its lifetime. */
  ghost predicate Expected(P: seq<Byte>, k: Key, fragTtl: Byte, es: seq<Event>, p: Packet) {
    && |P| < 0x1_0000 && p.key == k && IsFragment(p) && CarriesPart(P, p)
    && OnlyParts(P, k, es) && InTime(k, fragTtl, es)
    && SafeRun(Arrivals(k, es)) && Guarded(Queue(Arrivals(k, es)), p.Fragment())
  }

  /** Its queue can be had, and it completes `P` anew. */
  ghost predicate Completes(P: seq<Byte>, es: seq<Event>, p: Packet, header: bool) {
    var fs := Arrivals(p.key, es);
    IsFragment(p) && Admitted(fs, header) && CoversAll(Since(P, fs) + [p.Fragment()], |P|)
  }

  /** The answer that the round trip promises. */
  ghost predicate Answered(P: seq<Byte>, es: seq<Event>, p: Packet, header: bool, out: Option<Frag>) {
    (out.Some? <==> Completes(P, es, p, header)) && (out.Some? ==> Answers(P, out))
  }

  /** Reassembly on a live host, amid any other traffic, over any number of completions and
      as long as no queue times out: under the guard a datagram's fragment is answered
      exactly when it completes the payload anew, and then with the payload. */
  lemma LiveRoundTrip(P: seq<Byte>, k: Key, fragTtl: Byte, es: seq<Event>, p: Packet, header: bool)
    requires Expected(P, k, fragTtl, es, p)
    ensures Answered(P, es, p, header, Receive(Run(fragTtl, es), fragTtl, p, header).out)
  {
    PartsAreArrivals(P, k, es);
    CarriedIsPiece(P, p);
    AnswerIsOutput(k, fragTtl, es, p, header);
    RoundTrip(P, Arrivals(k, es), p.Fragment());
  }

  lemma AnsweredAfter(P: seq<Byte>, k: Key, fragTtl: Byte, es: seq<Event>, p: Packet, header: bool)
    ensures Run(fragTtl, es + [Received(p, header)]) == Receive(Run(fragTtl, es), fragTtl, p, header).table
    ensures Expected(P, k, fragTtl, es, p) ==>
              Answered(P, es, p, header, Receive(Run(fragTtl, es), fragTtl, p, header).out)
  {
    RunNext(fragTtl, es, Received(p, header));
    if Expected(P, k, fragTtl, es, p) {
      LiveRoundTrip(P, k, fragTtl, es, p, header);
    }
  }
}
