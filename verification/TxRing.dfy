/** The transmit ring of the AX88796: page arithmetic in the driver against a chip that sends
    the queued frames in its own time and shows only the end page of the last one sent. */
module TxRing {
  import opened CTypes

  // ax88796end.h
  const NESM_START_PG: Byte := 0x40
  const TX_PAGES := 0x1f
  const STOP: Byte := 0x60
  const RING := 32

  /** A frame in the chip's queue: its first page and how many pages its bytes fill. */
  datatype Frame = Frame(start: Byte, pages: nat)

  /** pageInfo's transmit part, and the chip: its queue, CTEPR, whether an interrupt for a
      frame sent is pending, and whether EN0_IMR is 0 and holds it back. */
  datatype Ring = Ring(curr: Byte, prev: Byte, full: bool, queue: seq<Frame>, ctepr: Byte, isr: bool,
                       masked: bool)

  function PagesFor(len: nat): nat { (len + 255) / 256 }

  /** need_pages, an unsigned char. */
  function Need(len: nat): Byte { PagesFor(len) % 256 }

  /** The page that holds the `x`th page's worth ever written. */
  function Page(x: nat): (p: Byte)
    ensures NESM_START_PG <= p < STOP
  {
    NESM_START_PG + x % RING
  }

  /** free_pages, as the branches of axend_start_transmit compute it from the CTEPR read. */
  function Free(r: Ring, c: Byte): Byte {
    (if c == 0 then
       if r.curr == NESM_START_PG && r.prev == 0 then STOP - NESM_START_PG else STOP - r.curr
     else if c < r.curr - 1 then STOP - r.curr + c - NESM_START_PG + 1
     else if c > r.curr - 1 then c + 1 - r.curr
     else if r.full then 0 else STOP - NESM_START_PG) % 256
  }

  /** The new tx_curr_page. */
  function Advance(curr: Byte, need: Byte): Byte {
    (if curr + need < STOP then curr + need else need - (STOP - curr) + NESM_START_PG) % 256
  }

  function AfterReset(r: Ring): Ring {
    Ring(NESM_START_PG, 0, r.full, [], 0, false, false)
  }

  /** The chip has sent the first queued frame. */
  function Complete(r: Ring): Ring
    requires r.queue != []
  {
    var f := r.queue[0];
    r.(queue := r.queue[1..], ctepr := NESM_START_PG + (f.start as int - NESM_START_PG + f.pages - 1) % RING, isr := true)
  }

  function CompleteMany(r: Ring, n: nat): Ring
    requires n <= |r.queue|
    decreases n
  {
    if n == 0 then r else CompleteMany(Complete(r), n - 1)
  }

  /** The transmit part of ax88796Int, when an interrupt gets through to it. */
  function Interrupt(r: Ring): Ring {
    if r.isr && !r.masked then r.(isr := false, full := false) else r
  }

  /** axend_start_transmit of a frame of `len` bytes; the chip sends `during` frames after CTEPR
      is read, and `cqf` is its bit for a full command queue, on which EN0_IMR stays 0. */
  function Transmit(r: Ring, len: nat, cqf: bool, during: nat): (Ring, int)
    requires during <= |r.queue|
  {
    if len == 0 then (r, 2)
    else
      var c, free, need, t := r.ctepr, Free(r, r.ctepr), Need(len), CompleteMany(r.(masked := true), during);
      if cqf then (t, 2)
      else if free < need + 1 then (t.(full := true, masked := false), 1)
      else
        (t.(queue := t.queue + [Frame(r.curr, PagesFor(len))], masked := false,
            full := t.full || free == need, prev := c, curr := Advance(r.curr, need)), 0)
  }

  // ---------------------------------------------------------------- the invariant

  /** The frames lie end to end, from the `d`th page written to the `w`th. */
  predicate Contiguous(q: seq<Frame>, d: nat, w: nat)
    decreases |q|
  {
    if q == [] then d == w
    else q[0].pages > 0 && q[0].start == Page(d) && d + q[0].pages <= w && Contiguous(q[1..], d + q[0].pages, w)
  }

  /** `w` pages were written and `d` of them sent; fewer than the whole ring are queued. */
  ghost predicate Good(r: Ring, d: nat, w: nat) {
    && d <= w < d + RING
    && r.curr == Page(w)
    && Contiguous(r.queue, d, w)
    && r.ctepr == (if d == 0 then 0 else Page(d - 1))
    && (r.prev != 0 ==> d > 0)
  }

  /** free_pages is exact: the ring less the pages queued, but 0 when CTEPR says that all was
      sent and tx_full is set. */
  lemma FreeIsExact(r: Ring, d: nat, w: nat)
    requires Good(r, d, w)
    ensures Free(r, r.ctepr) == if r.full && r.ctepr == r.curr - 1 then 0 else RING - (w - d)
  {
  }

  /** CTEPR just before tx_curr_page always means an empty queue, since the ring never fills. */
  lemma EqualityMeansEmpty(r: Ring, d: nat, w: nat)
    requires Good(r, d, w) && r.ctepr == r.curr - 1
    ensures r.queue == [] && d == w
  {
    assert d > 0;
    assert (w - d) % RING == 0;
  }

  lemma PageAfter(x: nat, y: nat)
    ensures Page(x + y) == NESM_START_PG + (Page(x) - NESM_START_PG + y) % RING
  {
  }

  lemma CompleteKeeps(r: Ring, d: nat, w: nat)
    requires Good(r, d, w) && r.queue != []
    ensures Good(Complete(r), d + r.queue[0].pages, w)
  {
    PageAfter(d, r.queue[0].pages - 1);
  }

  lemma {:induction false} CompleteManyKeeps(r: Ring, d: nat, w: nat, n: nat) returns (e: nat)
    requires Good(r, d, w) && n <= |r.queue|
    ensures d <= e && Good(CompleteMany(r, n), e, w)
    ensures CompleteMany(r, n).curr == r.curr && CompleteMany(r, n).queue == r.queue[n..]
    ensures CompleteMany(r, n).full == r.full && CompleteMany(r, n).masked == r.masked
    ensures n > 0 ==> CompleteMany(r, n).isr
    ensures n == 0 ==> CompleteMany(r, n) == r && e == d
    decreases n
  {
    e := d;
    if n > 0 {
      CompleteKeeps(r, d, w);
      e := CompleteManyKeeps(Complete(r), d + r.queue[0].pages, w, n - 1);
    }
  }

  lemma {:induction false} ContiguousWith(q: seq<Frame>, d: nat, w: nat, f: Frame)
    requires Contiguous(q, d, w) && f.start == Page(w) && f.pages > 0
    ensures Contiguous(q + [f], d, w + f.pages)
    decreases |q|
  {
    if q == [] {
      assert [] + [f] == [f] && [f][1..] == [];
    } else {
      ContiguousWith(q[1..], d + q[0].pages, w, f);
      assert (q + [f])[1..] == q[1..] + [f];
    }
  }

  /** The pages reserved for a frame are the pages it fills exactly when it has at most 65280
      bytes; beyond, need_pages is cut to eight bits. */
  lemma NeedIsExact(len: nat)
    ensures Need(len) == PagesFor(len) <==> len <= 65280
  {
  }

  lemma AdvanceIsPage(w: nat, need: Byte)
    requires need < RING
    ensures Advance(Page(w), need) == Page(w + need)
  {
  }

  /** A frame no longer than that keeps the ring in order, whatever the chip sends meanwhile. */
  lemma TransmitKeeps(r: Ring, d: nat, w: nat, len: nat, cqf: bool, during: nat) returns (e: nat, x: nat)
    requires Good(r, d, w) && len <= 65280 && during <= |r.queue|
    ensures d <= e && Good(Transmit(r, len, cqf, during).0, e, x)
    ensures x == if Transmit(r, len, cqf, during).1 == 0 then w + PagesFor(len) else w
  {
    if len == 0 {
      return d, w;
    }
    var t := CompleteMany(r.(masked := true), during);
    e := CompleteManyKeeps(r.(masked := true), d, w, during);
    x := w;
    FreeIsExact(r, d, w);
    NeedIsExact(len);
    if !cqf && Free(r, r.ctepr) >= Need(len) + 1 {
      x := w + PagesFor(len);
      ContiguousWith(t.queue, e, w, Frame(r.curr, PagesFor(len)));
      AdvanceIsPage(w, Need(len));
    }
  }

  // ---------------------------------------------------------------- frames do not overlap

  /** The frame's page number `i`. */
  function PageOf(f: Frame, i: nat): int {
    NESM_START_PG + (f.start as int - NESM_START_PG + i) % RING
  }

  /** The frame covers the page. */
  ghost predicate Covers(f: Frame, page: Byte) {
    exists i: nat :: i < f.pages && page == PageOf(f, i)
  }

  lemma CoveredPlace(f: Frame, page: Byte, d: nat) returns (x: nat)
    requires Covers(f, page) && f.start == Page(d)
    ensures d <= x < d + f.pages && page == Page(x)
  {
    var i: nat :| i < f.pages && page == PageOf(f, i);
    PageAfter(d, i);
    x := d + i;
  }

  lemma {:induction false} CoveredInQueue(q: seq<Frame>, d: nat, w: nat, j: nat, page: Byte) returns (x: nat)
    requires Contiguous(q, d, w) && j < |q| && Covers(q[j], page)
    ensures d <= x < w && page == Page(x)
    decreases |q|
  {
    if j == 0 {
      x := CoveredPlace(q[0], page, d);
    } else {
      x := CoveredInQueue(q[1..], d + q[0].pages, w, j - 1, page);
    }
  }

  lemma DifferentPages(x: nat, y: nat)
    requires x < y < x + RING
    ensures Page(x) != Page(y)
  {
  }

  /** No page belongs to two queued frames. */
  lemma {:induction false} QueuedAreDisjoint(q: seq<Frame>, d: nat, w: nat, i: nat, j: nat, page: Byte)
    requires Contiguous(q, d, w) && w < d + RING && i < j < |q|
    ensures !(Covers(q[i], page) && Covers(q[j], page))
    decreases |q|
  {
    if i > 0 {
      QueuedAreDisjoint(q[1..], d + q[0].pages, w, i - 1, j - 1, page);
    } else if Covers(q[0], page) && Covers(q[j], page) {
      var x := CoveredPlace(q[0], page, d);
      var y := CoveredInQueue(q[1..], d + q[0].pages, w, j - 1, page);
      DifferentPages(x, y);
    }
  }

  // ---------------------------------------------------------------- every run

  /** `Started` and `Stopped` are ax88796Start and ax88796Stop, which write EN0_IMR. */
  datatype Event = Sent(len: nat, cqf: bool, during: nat) | Completed | Interrupted | WasReset | Started | Stopped

  predicate Possible(r: Ring, e: Event) {
    match e
    case Sent(len, _, during) => during <= |r.queue|
    case Completed => r.queue != []
    case _ => true
  }

  function Step(r: Ring, e: Event): Ring
    requires Possible(r, e)
  {
    match e
    case Sent(len, cqf, during) => Transmit(r, len, cqf, during).0
    case Completed => Complete(r)
    case Interrupted => Interrupt(r)
    case WasReset => AfterReset(r)
    case Started => r.(masked := false)
    case Stopped => r.(masked := true)
  }

  ghost predicate Reaches(r: Ring, es: seq<Event>, t: Ring)
    decreases |es|
  {
    if es == [] then r == t
    else Possible(r, es[0]) && Reaches(Step(r, es[0]), es[1..], t)
  }

  /** No frame offered is longer than `most`. */
  predicate Fits(e: Event, most: nat) { e.Sent? ==> e.len <= most }

  lemma StepKeeps(r: Ring, d: nat, w: nat, e: Event) returns (d1: nat, w1: nat)
    requires Good(r, d, w) && Possible(r, e) && Fits(e, 65280)
    ensures Good(Step(r, e), d1, w1)
  {
    match e
    case Sent(len, cqf, during) => d1, w1 := TransmitKeeps(r, d, w, len, cqf, during);
    case Completed =>
      CompleteKeeps(r, d, w);
      d1, w1 := d + r.queue[0].pages, w;
    case WasReset => d1, w1 := 0, 0;
    case _ => d1, w1 := d, w;
  }

  lemma {:induction false} RunKeeps(r: Ring, d: nat, w: nat, es: seq<Event>, t: Ring) returns (d1: nat, w1: nat)
    requires Good(r, d, w) && Reaches(r, es, t) && forall e | e in es :: Fits(e, 65280)
    ensures Good(t, d1, w1)
    decreases |es|
  {
    d1, w1 := d, w;
    if es != [] {
      d1, w1 := StepKeeps(r, d, w, es[0]);
      d1, w1 := RunKeeps(Step(r, es[0]), d1, w1, es[1..], t);
    }
  }

  function Queued(q: seq<Frame>): nat {
    if q == [] then 0 else q[0].pages + Queued(q[1..])
  }

  lemma {:induction false} QueuedPages(q: seq<Frame>, d: nat, w: nat)
    requires Contiguous(q, d, w)
    ensures Queued(q) == w - d
    decreases |q|
  {
    if q != [] {
      QueuedPages(q[1..], d + q[0].pages, w);
    }
  }

  /** After any run from a reset, however the chip's sending interleaves: the current page is in
      the ring, the queue leaves a page free, free_pages is exact, and no two frames overlap. */
  lemma RingIsSafe(r: Ring, es: seq<Event>, t: Ring)
    requires Reaches(AfterReset(r), es, t) && forall e | e in es :: Fits(e, 65280)
    ensures NESM_START_PG <= t.curr < STOP
    ensures Queued(t.queue) <= TX_PAGES
    ensures Free(t, t.ctepr) == if t.full && t.ctepr == t.curr - 1 then 0 else RING - Queued(t.queue)
    ensures t.ctepr == t.curr - 1 ==> t.queue == []
    ensures forall i, j, page: Byte | 0 <= i < j < |t.queue| :: !(Covers(t.queue[i], page) && Covers(t.queue[j], page))
  {
    var d, w := RunKeeps(AfterReset(r), 0, 0, es, t);
    QueuedPages(t.queue, d, w);
    FreeIsExact(t, d, w);
    if t.ctepr == t.curr - 1 {
      EqualityMeansEmpty(t, d, w);
    }
    forall i, j, page: Byte | 0 <= i < j < |t.queue|
      ensures !(Covers(t.queue[i], page) && Covers(t.queue[j], page))
    {
      QueuedAreDisjoint(t.queue, d, w, i, j, page);
    }
  }

  /** After any run from a reset, which frames are taken: unless the command queue is full, exactly those
      that leave a page of the ring free beside what is queued, but none while tx_full is set and
      CTEPR says that all was sent. What is taken goes behind what is still queued, from the current
      page on; what is not taken changes neither the queue's end nor the current page. */
  lemma TakenIff(r: Ring, es: seq<Event>, t: Ring, len: nat, cqf: bool, during: nat)
    requires Reaches(AfterReset(r), es, t) && forall e | e in es :: Fits(e, 65280)
    requires 0 < len <= 65280 && during <= |t.queue|
    ensures var (u, code) := Transmit(t, len, cqf, during);
      && code == (if cqf then 2
                  else if Queued(t.queue) + PagesFor(len) <= TX_PAGES && !(t.full && t.ctepr == t.curr - 1) then 0
                  else 1)
      && u.queue == t.queue[during..] + (if code == 0 then [Frame(t.curr, PagesFor(len))] else [])
      && u.full == (t.full || code == 1)
      && (code != 0 ==> u.curr == t.curr)
  {
    var d, w := RunKeeps(AfterReset(r), 0, 0, es, t);
    QueuedPages(t.queue, d, w);
    FreeIsExact(t, d, w);
    NeedIsExact(len);
    var e := CompleteManyKeeps(t.(masked := true), d, w, during);
  }

  // ---------------------------------------------------------------- tx_full

  /** The most that fits beside the page kept free. */
  const LONGEST := 256 * TX_PAGES

  /** With something sent since the reset and nothing queued, tx_full is set only while an
      interrupt pends. A reset leaves tx_full as it is, but starts the count of pages anew. */
  ghost predicate Clears(r: Ring, d: nat, w: nat) {
    Good(r, d, w) && (r.full && d > 0 && r.queue == [] ==> r.isr)
  }

  lemma TransmitClears(r: Ring, d: nat, w: nat, len: nat, cqf: bool, during: nat) returns (e: nat, x: nat)
    requires Clears(r, d, w) && len <= LONGEST && during <= |r.queue|
    ensures Clears(Transmit(r, len, cqf, during).0, e, x)
    ensures Transmit(r, len, cqf, during).1 == 1 ==> r.queue != [] || r.isr
  {
    e, x := TransmitKeeps(r, d, w, len, cqf, during);
    if len > 0 {
      e := CompleteManyKeeps(r.(masked := true), d, w, during);
      FreeIsExact(r, d, w);
      NeedIsExact(len);
      var t := Transmit(r, len, cqf, during);
      if t.1 == 0 {
        e, x := TransmitKeeps(r, d, w, len, cqf, during);
        assert t.0.queue != [];
      } else {
        x := w;
        if t.1 == 1 && r.queue == [] {
          assert d == w && r.full && r.ctepr == r.curr - 1;
        }
      }
    }
  }

  lemma StepClears(r: Ring, d: nat, w: nat, e: Event) returns (d1: nat, w1: nat)
    requires Clears(r, d, w) && Possible(r, e) && Fits(e, LONGEST)
    ensures Clears(Step(r, e), d1, w1)
  {
    match e
    case Sent(len, cqf, during) => d1, w1 := TransmitClears(r, d, w, len, cqf, during);
    case Completed =>
      CompleteKeeps(r, d, w);
      d1, w1 := d + r.queue[0].pages, w;
    case WasReset => d1, w1 := 0, 0;
    case _ => d1, w1 := d, w;
  }

  lemma {:induction false} RunClears(r: Ring, d: nat, w: nat, es: seq<Event>, t: Ring) returns (d1: nat, w1: nat)
    requires Clears(r, d, w) && Reaches(r, es, t) && forall e | e in es :: Fits(e, LONGEST)
    ensures Clears(t, d1, w1)
    decreases |es|
  {
    d1, w1 := d, w;
    if es != [] {
      assert es[0] in es;
      d1, w1 := StepClears(r, d, w, es[0]);
      d1, w1 := RunClears(Step(r, es[0]), d1, w1, es[1..], t);
    }
  }

  /** With frames of at most 7936 bytes, over any run with any resets, a frame is refused only
      while another is queued or an interrupt pends. The refusal lets interrupts through, so
      that once the chip has sent what was queued and the interrupt is handled, the frame is
      taken. */
  lemma RefusedUntilSent(r: Ring, es: seq<Event>, t: Ring, len: nat, during: nat)
    requires Reaches(AfterReset(r), es, t) && forall e | e in es :: Fits(e, LONGEST)
    requires len <= LONGEST && during <= |t.queue| && Transmit(t, len, false, during).1 == 1
    ensures t.queue != [] || t.isr
    ensures var refused := Transmit(t, len, false, during).0;
      var idle := Interrupt(CompleteMany(refused, |refused.queue|));
      !idle.full && idle.queue == [] && Transmit(idle, len, false, 0).1 == 0
  {
    var d, w := RunClears(AfterReset(r), 0, 0, es, t);
    var refused := Transmit(t, len, false, during).0;
    var _, _ := TransmitClears(t, d, w, len, false, during);
    var d0 := CompleteManyKeeps(t.(masked := true), d, w, during);
    assert Good(refused, d0, w) && !refused.masked;
    var d1 := CompleteManyKeeps(refused, d0, w, |refused.queue|);
    var idle := Interrupt(CompleteMany(refused, |refused.queue|));
    assert refused.queue == [] ==> refused.isr;
    assert Good(idle, d1, w) && idle.queue == [];
    FreeIsExact(idle, d1, w);
    NeedIsExact(len);
  }

  /** tx_full is set, everything was sent, and no interrupt will come to clear it. */
  predicate Jammed(r: Ring) {
    r.full && r.queue == [] && !r.isr && r.ctepr == r.curr - 1 && r.ctepr != 0
  }

  /** Then every frame is refused, until a reset. */
  lemma {:induction false} JamLasts(r: Ring, es: seq<Event>, t: Ring)
    requires Jammed(r) && Reaches(r, es, t) && WasReset !in es
    ensures Jammed(t)
    ensures forall len: nat, cqf: bool | len > 0 :: Transmit(t, len, cqf, 0).1 != 0
    decreases |es|
  {
    if es != [] {
      assert es[0] in es;
      JamLasts(Step(r, es[0]), es[1..], t);
    }
  }

  /** On an empty ring with tx_full clear, a frame jams the ring if and only if it needs more
      than TX_PAGES pages and CTEPR stands just before tx_curr_page. */
  lemma JamsIff(r: Ring, d: nat, len: nat)
    requires Good(r, d, d) && !r.full && !r.isr
    ensures Jammed(Transmit(r, len, false, 0).0) <==> Need(len) > TX_PAGES && r.ctepr == r.curr - 1
    ensures len <= 65280 ==> (Need(len) > TX_PAGES <==> len > LONGEST)
  {
    FreeIsExact(r, d, d);
    NeedIsExact(len);
    if len > 0 && Need(len) <= TX_PAGES {
      assert Transmit(r, len, false, 0).0.queue != [];
    }
    assert r.queue == [];
  }

  /** A jam from a reset on: one frame is sent and its interrupt handled, and a frame longer than
      7936 bytes is offered. */
  lemma JamIsReached(r: Ring, len: nat) returns (es: seq<Event>, t: Ring)
    requires !r.full && LONGEST < len <= 65280
    ensures es == [Sent(64, false, 0), Completed, Interrupted, Sent(len, false, 0)]
    ensures Reaches(AfterReset(r), es, t) && Jammed(t)
  {
    es := [Sent(64, false, 0), Completed, Interrupted, Sent(len, false, 0)];
    var r1 := Step(AfterReset(r), es[0]);
    assert r1.queue == [Frame(NESM_START_PG, 1)];
    var r3 := Step(Step(r1, es[1]), es[2]);
    assert r3 == Ring(NESM_START_PG + 1, 0, false, [], NESM_START_PG, false, false);
    assert Page(0) == NESM_START_PG && Page(1) == NESM_START_PG + 1;
    JamsIff(r3, 1, len);
    t := Step(r3, es[3]);
    assert es[1..] == [es[1], es[2], es[3]] && es[1..][1..] == [es[2], es[3]];
    assert es[1..][1..][1..] == [es[3]] && es[1..][1..][1..][1..] == [];
    assert Reaches(t, [], t) && Reaches(r3, [es[3]], t) && Reaches(Step(r1, es[1]), [es[2], es[3]], t);
    assert Reaches(r1, es[1..], t);
  }

  /** A full command queue leaves EN0_IMR at 0: until the next frame is offered, the device is
      started again, or a reset, no interrupt clears tx_full however many frames the chip sends. */
  lemma {:induction false} MaskedUntilOffered(r: Ring, len: nat, during: nat, es: seq<Event>, t: Ring)
    requires len > 0 && during <= |r.queue| && Reaches(Transmit(r, len, true, during).0, es, t)
    requires forall e | e in es :: e.Completed? || e.Interrupted? || e.Stopped?
    ensures t.masked && t.full == r.full
  {
    CompletesOnly(r.(masked := true), during);
    MaskedStays(Transmit(r, len, true, during).0, es, t);
  }

  lemma {:induction false} CompletesOnly(r: Ring, n: nat)
    requires n <= |r.queue|
    ensures CompleteMany(r, n).full == r.full && CompleteMany(r, n).masked == r.masked
    decreases n
  {
    if n > 0 {
      CompletesOnly(Complete(r), n - 1);
    }
  }

  lemma {:induction false} MaskedStays(r: Ring, es: seq<Event>, t: Ring)
    requires r.masked && Reaches(r, es, t) && forall e | e in es :: e.Completed? || e.Interrupted? || e.Stopped?
    ensures t.masked && t.full == r.full
    decreases |es|
  {
    if es != [] {
      assert es[0] in es;
      MaskedStays(Step(r, es[0]), es[1..], t);
    }
  }

  // ---------------------------------------------------------------- the driver

  class Driver {
    var curr: Byte
    var prev: Byte
    var full: bool
    var queue: seq<Frame>
    var ctepr: Byte
    var isr: bool
    var masked: bool

    function State(): Ring
      reads this
    {
      Ring(curr, prev, full, queue, ctepr, isr, masked)
    }

    /** axend_reset; the chip's reset empties its queue. */
    method Reset()
      modifies this
      ensures State() == AfterReset(old(State()))
    {
      queue, ctepr, isr := [], 0, false;
      masked := false;
      prev := 0;
      curr := NESM_START_PG;
    }

    /** The chip sends `n` frames. */
    method Send(n: nat)
      requires n <= |queue|
      modifies `queue, `ctepr, `isr
      ensures State() == CompleteMany(old(State()), n)
      decreases n
    {
      if n > 0 {
        var f := queue[0];
        queue := queue[1..];
        ctepr := NESM_START_PG + (f.start as int - NESM_START_PG + f.pages - 1) % RING;
        isr := true;
        Send(n - 1);
      }
    }

    /** The interrupt mask that ax88796Start writes, and the one that axend_stop_ax88796 does. */
    method SetMask(on: bool)
      modifies `masked
      ensures State() == Step(old(State()), if on then Stopped else Started)
    {
      masked := on;
    }

    method HandleInterrupt()
      modifies this
      ensures State() == Interrupt(old(State()))
    {
      if isr && !masked {
        masked := true;
        isr := false;
        full := false;
        masked := false;
      }
    }

    /** The branches that compute free_pages. */
    method FreePages(curPage: Byte) returns (free: Byte)
      ensures free == Free(State(), curPage)
    {
      var freePages: int := 0;
      if curPage == 0 {
        if curr == NESM_START_PG && prev == 0 {
          freePages := STOP - NESM_START_PG;
        } else {
          freePages := STOP - curr;
        }
      } else if curPage < curr - 1 {
        freePages := STOP - curr + curPage - NESM_START_PG + 1;
      } else if curPage > curr - 1 {
        freePages := curPage + 1 - curr;
      } else if curPage == curr - 1 {
        if full {
          freePages := 0;
        } else {
          freePages := STOP - NESM_START_PG;
        }
      }
      free := freePages % 256;
    }

    method StartTransmit(len: nat, cqf: bool, during: nat) returns (code: int)
      requires during <= |queue|
      modifies this
      ensures (State(), code) == old(Transmit(State(), len, cqf, during))
    {
      if len == 0 {
        return 2;
      }
      masked := true;
      var needPages: Byte := (len + 255) / 256 % 256;
      var curPage := ctepr;
      Send(during);
      if cqf {
        return 2;
      }
      var freePages := FreePages(curPage);
      if freePages < needPages + 1 {
        full := true;
        masked := false;
        return 1;
      }
      queue := queue + [Frame(curr, (len + 255) / 256)];
      full := full || freePages == needPages;
      prev := curPage;
      var next: int := if curr + needPages < STOP then curr + needPages else needPages - (STOP - curr) + NESM_START_PG;
      curr := next % 256;
      masked := false;
      return 0;
    }
  }
}
