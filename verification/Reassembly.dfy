/** The fragment list of one datagram, as ipReAssemble rewrites it: values only.
    FragmentQueue.dfy proves the linked-list code against these functions. */
module Reassembly {
  import opened CTypes

  const MIN_HEADER := 20

  /** One received fragment. `buf` is the whole mbuf: `hlen` bytes of IP header, then the data.
      `off` is in bytes and `len` does not count the header, as ipintr leaves them. */
  datatype Frag = Frag(off: U16, len: U16, more: bool, hlen: nat, buf: seq<Byte>) {
    function End(): int { off + len }

    ghost predicate Valid() {
      MIN_HEADER <= hlen && |buf| == hlen + len
    }

    /** The data byte this fragment holds for position `p` of the datagram. */
    ghost function At(p: int): Option<Byte> {
      if off <= p < End() && hlen + p - off < |buf| then Some(buf[hlen + p - off]) else None
    }
  }

  /** `ip_off` is declared `short`: read without a cast it is sign-extended. */
  function SignExtended(x: U16): int {
    if x < 0x8000 then x else x - 0x1_0000
  }

  /** `ip_len -= n` on the 16-bit field and m_adj(m, -n), which stops at an empty buffer. */
  function TrimTail(f: Frag, n: nat): Frag {
    f.(len := (f.len - n) % 0x1_0000,
       buf := if n >= |f.buf| then [] else f.buf[..|f.buf| - n])
  }

  datatype Inserted = Inserted(list: seq<Frag>, dropped: bool)

  /** Drop the leading fragments that `f` covers to their end. */
  function Swallow(l: seq<Frag>, f: Frag): seq<Frag> {
    if l != [] && f.End() >= l[0].End() then Swallow(l[1..], f) else l
  }

  /** The insertion loop: what it leaves in the list, and whether it dropped `f`. */
  function Insert(l: seq<Frag>, f: Frag): Inserted
    requires l != []
  {
    var g := l[0];
    if f.off > g.off then
      var over := g.End() - f.off;
      if over > 0 && over >= f.len then
        Inserted(l, true)
      else
        var g' := if over > 0 then TrimTail(g, over) else g;
        if |l| == 1 then
          Inserted([g', f], false)
        else
          var r := Insert(l[1..], f);
          Inserted([g'] + r.list, r.dropped)
    else
      Inserted(PlaceBefore(Swallow(l, f), f), false)
  }

  /** Put `f` in front of `rest`, cutting off what overlaps the first of `rest`. */
  function PlaceBefore(rest: seq<Frag>, f: Frag): seq<Frag> {
    if rest == [] then [f]
    else
      var over := f.End() - SignExtended(rest[0].off);
      [if over > 0 then TrimTail(f, over) else f] + rest
  }

  /** The fragment in front of which Insert places `f`, as a list of at most one. */
  function Successor(l: seq<Frag>, f: Frag): seq<Frag>
    requires l != []
  {
    if f.off > l[0].off then
      var over := l[0].End() - f.off;
      if (over > 0 && over >= f.len) || |l| == 1 then [] else Successor(l[1..], f)
    else
      var rest := Swallow(l, f);
      if rest == [] then [] else [rest[0]]
  }

  /** The guard on which the sign extension never bites: whatever `f` is placed in
      front of starts below 32768. */
  predicate Safe(l: seq<Frag>, f: Frag)
    requires l != []
  {
    forall g | g in Successor(l, f) :: g.off < 0x8000
  }

  /** The list is well formed: whole fragments, in order, every end at or before the
      next start, none starting before `lo`. Empty fragments are allowed. */
  ghost predicate Ok(l: seq<Frag>, lo: int) {
    l == [] || (l[0].Valid() && lo <= l[0].off && Ok(l[1..], l[0].End()))
  }

  /** The byte the list holds for position `p` of the datagram. */
  ghost function At(l: seq<Frag>, p: int): Option<Byte> {
    if l == [] then None
    else if l[0].At(p).Some? then l[0].At(p)
    else At(l[1..], p)
  }

  /** How far `f`'s own bytes survive its insertion. */
  ghost function Cut(l: seq<Frag>, f: Frag): int
    requires l != []
  {
    if f.off > l[0].off then
      var over := l[0].End() - f.off;
      if over > 0 && over >= f.len then f.off
      else if |l| == 1 then f.End()
      else Cut(l[1..], f)
    else
      CutBefore(Swallow(l, f), f)
  }

  ghost function CutBefore(rest: seq<Frag>, f: Frag): int {
    if rest == [] || f.End() <= rest[0].off then f.End() else rest[0].off
  }

  lemma {:induction false} NothingBelow(l: seq<Frag>, lo: int, p: int)
    requires Ok(l, lo) && p < lo
    ensures At(l, p) == None
  {
    if l != [] {
      NothingBelow(l[1..], l[0].End(), p);
    }
  }

  lemma {:induction false} SwallowKeeps(l: seq<Frag>, f: Frag, lo: int, p: int)
    requires Ok(l, lo) && f.Valid() && f.off <= lo
    ensures var rest := Swallow(l, f);
      && Ok(rest, lo)
      && (rest != [] ==> f.End() < rest[0].End())
      && (f.At(p).None? ==> At(rest, p) == At(l, p))
      && (At(rest, p).Some? ==> At(l, p).Some?)
  {
    if l != [] && f.End() >= l[0].End() {
      SwallowKeeps(l[1..], f, l[0].End(), p);
    }
  }

  lemma Prepend(g: Frag, tail: seq<Frag>, lo: int, p: int)
    requires g.Valid() && lo <= g.off && Ok(tail, g.End())
    ensures Ok([g] + tail, lo)
    ensures At([g] + tail, p) == if g.At(p).Some? then g.At(p) else At(tail, p)
  {
    assert ([g] + tail)[1..] == tail;
  }

  /** A fragment that gives up its bytes from `at` on keeps the ones before. */
  lemma TrimmedHolds(g: Frag, g': Frag, at: int, p: int)
    requires g.Valid() && g.off <= at < g.End() && g' == TrimTail(g, g.End() - at)
    ensures g'.Valid() && g'.off == g.off && g'.End() == at
    ensures g'.At(p) == if p < at then g.At(p) else None
  {
  }

  lemma Alone(f: Frag, lo: int, p: int)
    requires f.Valid() && lo <= f.off
    ensures Ok([f], lo) && At([f], p) == f.At(p)
  {
    assert [f][1..] == [];
  }

  lemma PlaceBeforeKeeps(rest: seq<Frag>, f: Frag, p: int)
    requires Ok(rest, f.off) && f.Valid()
    requires rest != [] ==> f.End() < rest[0].End() && rest[0].off < 0x8000
    ensures Ok(PlaceBefore(rest, f), f.off)
    ensures f.off <= CutBefore(rest, f) <= f.End()
    ensures At(PlaceBefore(rest, f), p)
         == if p < CutBefore(rest, f) && f.At(p).Some? then f.At(p) else At(rest, p)
    ensures CutBefore(rest, f) <= p < f.End() ==> At(rest, p).Some?
  {
    if rest != [] && f.End() > rest[0].off {
      var f' := TrimTail(f, f.End() - rest[0].off);
      TrimmedHolds(f, f', rest[0].off, p);
      Prepend(f', rest, f.off, p);
    } else {
      Prepend(f, rest, f.off, p);
    }
  }

  /** The law of InsertKeeps, for one position. */
  ghost predicate Inserts(l: seq<Frag>, f: Frag, lo: int, p: int)
    requires l != []
  {
    var r := Insert(l, f);
    && r.list != [] && Ok(r.list, lo)
    && f.off <= Cut(l, f) <= f.End()
    && (r.dropped ==> r.list == l)
    && At(r.list, p) == (if p < Cut(l, f) && f.At(p).Some? then f.At(p) else At(l, p))
    && (Cut(l, f) <= p < f.End() ==> At(l, p).Some?)
  }

  lemma InsertFront(l: seq<Frag>, f: Frag, lo: int, p: int)
    requires l != [] && Ok(l, lo) && f.Valid() && Safe(l, f) && f.off <= lo
    ensures Inserts(l, f, f.off, p) && !Insert(l, f).dropped
    ensures lo <= f.End() ==> lo <= Cut(l, f)
  {
    var rest := Swallow(l, f);
    SwallowKeeps(l, f, lo, p);
    if rest != [] {
      assert rest[0] in Successor(l, f);
    }
    PlaceBeforeKeeps(rest, f, p);
  }

  /** Passing `g`, which becomes `g'`, leaves the insertion to the rest. */
  lemma InsertPasses(g: Frag, g': Frag, tail: seq<Frag>, f: Frag)
    requires tail != [] && f.off > g.off
    requires var over := g.End() - f.off;
      (over <= 0 && g' == g) || (0 < over < f.len && g' == TrimTail(g, over))
    ensures var r := Insert(tail, f);
      Insert([g] + tail, f) == Inserted([g'] + r.list, r.dropped)
    ensures Cut([g] + tail, f) == Cut(tail, f) && Successor([g] + tail, f) == Successor(tail, f)
  {
    assert ([g] + tail)[1..] == tail;
  }

  /** `g` loses its tail to `f`; `f` lands right behind it. */
  lemma InsertTrimming(g: Frag, tail: seq<Frag>, f: Frag, p: int)
    requires tail != [] && g.Valid() && Ok(tail, g.End()) && f.Valid() && Safe(tail, f)
    requires g.off < f.off < g.End() < f.End()
    ensures Inserts([g] + tail, f, g.off, p)
  {
    var g' := TrimTail(g, g.End() - f.off);
    TrimmedHolds(g, g', f.off, p);
    InsertPasses(g, g', tail, f);
    InsertFront(tail, f, g.End(), p);
    Prepend(g', Insert(tail, f).list, g.off, p);
    Prepend(g, tail, g.off, p);
  }

  /** `f` starts behind the end of `g`. */
  lemma InsertBehind(g: Frag, tail: seq<Frag>, f: Frag, p: int)
    requires tail != [] && g.Valid() && g.off < f.off && g.End() <= f.off
    requires Inserts(tail, f, g.End(), p)
    ensures Inserts([g] + tail, f, g.off, p)
  {
    InsertPasses(g, g, tail, f);
    Prepend(g, Insert(tail, f).list, g.off, p);
    assert ([g] + tail)[1..] == tail;
  }

  lemma InsertLast(g: Frag, f: Frag, p: int)
    requires g.Valid() && f.Valid() && g.off < f.off
    ensures Inserts([g], f, g.off, p)
  {
    var over := g.End() - f.off;
    Alone(g, g.off, p);
    Alone(f, f.off, p);
    if over <= 0 {
      Alone(f, g.End(), p);
      Prepend(g, [f], g.off, p);
      assert Insert([g], f).list == [g] + [f];
    } else if over < f.len {
      var g' := TrimTail(g, over);
      TrimmedHolds(g, g', f.off, p);
      Prepend(g', [f], g.off, p);
      assert Insert([g], f).list == [g'] + [f];
    }
  }

  lemma LowerFloor(l: seq<Frag>, f: Frag, lo: int, lower: int, p: int)
    requires l != [] && lower <= lo && Inserts(l, f, lo, p)
    ensures Inserts(l, f, lower, p)
  {
  }

  /** What one arrival does to a well-formed list, whenever the guard holds: the list
      stays well formed, a dropped fragment leaves it untouched, and position by position
      the new fragment supplies exactly its bytes below the cut. */
  lemma {:induction false} InsertKeeps(l: seq<Frag>, f: Frag, lo: int, p: int)
    requires l != [] && Ok(l, lo) && f.Valid() && Safe(l, f) && lo <= f.off
    ensures Inserts(l, f, lo, p)
  {
    var g, tail := l[0], l[1..];
    var over := g.End() - f.off;
    assert [g] + tail == l;
    if f.off <= g.off {
      InsertFront(l, f, f.off, p);
      LowerFloor(l, f, f.off, lo, p);
    } else if over > 0 && over >= f.len {
    } else if tail == [] {
      assert l == [g];
      InsertLast(g, f, p);
      LowerFloor(l, f, g.off, lo, p);
    } else if over > 0 {
      InsertPasses(g, TrimTail(g, over), tail, f);
      InsertTrimming(g, tail, f, p);
      LowerFloor(l, f, g.off, lo, p);
    } else {
      InsertPasses(g, g, tail, f);
      InsertKeeps(tail, f, g.End(), p);
      InsertBehind(g, tail, f, p);
      LowerFloor(l, f, g.off, lo, p);
    }
  }

  // ---------------------------------------------------------------- the sign extension

  lemma {:induction false} OkLower(l: seq<Frag>, lo: int, lower: int)
    requires Ok(l, lo) && lower <= lo
    ensures Ok(l, lower)
  {
  }

  /** Placing `f` before a fragment that starts at 32768 or later destroys it: even its
      header is cut. */
  lemma SignExtensionCorrupts(rest: seq<Frag>, f: Frag)
    requires rest != [] && Ok(rest, f.off) && f.Valid() && rest[0].off >= 0x8000
    ensures !PlaceBefore(rest, f)[0].Valid()
    ensures |PlaceBefore(rest, f)[0].buf| < f.hlen
  {
  }

  /** The guard is exact: an arrival keeps the list well formed if and only if it holds. */
  lemma {:induction false} OkIffSafe(l: seq<Frag>, f: Frag, lo: nat)
    requires l != [] && Ok(l, lo) && f.Valid() && lo <= f.off
    ensures Ok(Insert(l, f).list, lo) <==> Safe(l, f)
  {
    if Safe(l, f) {
      InsertKeeps(l, f, lo, 0);
    } else {
      UnsafeBreaks(l, f, lo);
      if Ok(Insert(l, f).list, lo) {
        OkLower(Insert(l, f).list, lo, 0);
      }
    }
  }

  lemma {:induction false} UnsafeBreaks(l: seq<Frag>, f: Frag, lo: nat)
    requires l != [] && Ok(l, lo) && f.Valid() && !Safe(l, f)
    ensures !Ok(Insert(l, f).list, 0)
  {
    var g := l[0];
    if f.off <= g.off {
      SwallowKeeps(l, f, g.off, 0);
      OkLower(Swallow(l, f), g.off, f.off);
      SignExtensionCorrupts(Swallow(l, f), f);
    } else {
      UnsafeBreaks(l[1..], f, g.End());
      var r := Insert(l, f);
      var tail := Insert(l[1..], f).list;
      assert r.list[1..] == tail;
      if Ok(r.list, 0) {
        OkLower(tail, r.list[0].End(), 0);
      }
    }
  }

  // ---------------------------------------------------------------- completion

  /** The scan at ipChkReAssembly: each fragment starts where the previous ones ended. */
  predicate Chained(l: seq<Frag>, at: int) {
    l == [] || (l[0].off == at && Chained(l[1..], at + l[0].len))
  }

  predicate Complete(l: seq<Frag>)
    requires l != []
  {
    Chained(l, 0) && !l[|l| - 1].more
  }

  function TotalLen(l: seq<Frag>): nat {
    if l == [] then 0 else l[0].len + TotalLen(l[1..])
  }

  /** The fragments' buffers without their headers, concatenated. A buffer shorter than its
      header (only after a sign-extended trim) contributes nothing. */
  function Data(l: seq<Frag>): seq<Byte> {
    if l == [] then []
    else (if l[0].hlen <= |l[0].buf| then l[0].buf[l[0].hlen..] else []) + Data(l[1..])
  }

  function Assemble(l: seq<Frag>): Frag
    requires l != []
  {
    l[0].(len := TotalLen(l) % 0x1_0000, more := false, buf := l[0].buf + Data(l[1..]))
  }

  datatype Arrival = Arrival(list: seq<Frag>, out: Option<Frag>)

  /** One call of ipReAssemble on the queue `l` ([] when there is none yet): the queue it
      leaves, and the datagram it returns, if any. */
  function Arrive(l: seq<Frag>, f: Frag): Arrival {
    var r := if l == [] then Inserted([f], false) else Insert(l, f);
    if r.dropped then Arrival(r.list, None)
    else if r.list != [] && Complete(r.list) then Arrival([], Some(Assemble(r.list)))
    else Arrival(r.list, None)
  }

  // ---------------------------------------------------------------- pieces of one datagram

  /** `f` is an honest fragment of the payload `P`. */
  ghost predicate PieceOf(P: seq<Byte>, f: Frag) {
    && f.Valid() && f.End() <= |P|
    && f.buf[f.hlen..] == P[f.off..f.End()]
    && f.more == (f.End() < |P|)
  }

  ghost predicate Pieces(P: seq<Byte>, l: seq<Frag>) {
    l == [] || (PieceOf(P, l[0]) && Pieces(P, l[1..]))
  }

  lemma TrimPiece(P: seq<Byte>, f: Frag, n: nat)
    requires PieceOf(P, f) && n <= f.len && f.more
    ensures PieceOf(P, TrimTail(f, n))
  {
    var f' := TrimTail(f, n);
    assert f'.buf == f.buf[..|f.buf| - n];
    assert f'.buf[f.hlen..] == f.buf[f.hlen..][..f.len - n];
  }

  lemma {:induction false} SwallowPieces(P: seq<Byte>, l: seq<Frag>, f: Frag)
    requires Pieces(P, l)
    ensures Pieces(P, Swallow(l, f))
  {
    if l != [] && f.End() >= l[0].End() {
      SwallowPieces(P, l[1..], f);
    }
  }

  lemma PiecesCons(P: seq<Byte>, g: Frag, tail: seq<Frag>)
    ensures Pieces(P, [g] + tail) <==> PieceOf(P, g) && Pieces(P, tail)
  {
    assert ([g] + tail)[1..] == tail;
  }

  lemma FrontPieces(P: seq<Byte>, l: seq<Frag>, f: Frag)
    requires l != [] && Ok(l, l[0].off) && Safe(l, f) && f.off <= l[0].off
    requires Pieces(P, l) && PieceOf(P, f)
    ensures Pieces(P, Insert(l, f).list)
  {
    var rest := Swallow(l, f);
    SwallowKeeps(l, f, l[0].off, 0);
    SwallowPieces(P, l, f);
    if rest != [] && f.End() > rest[0].off {
      assert rest[0] in Successor(l, f);
      TrimPiece(P, f, f.End() - rest[0].off);
      PiecesCons(P, TrimTail(f, f.End() - rest[0].off), rest);
    } else {
      PiecesCons(P, f, rest);
    }
  }

  lemma {:induction false} InsertPieces(P: seq<Byte>, l: seq<Frag>, f: Frag, lo: int)
    requires l != [] && Ok(l, lo) && Safe(l, f)
    requires Pieces(P, l) && PieceOf(P, f)
    ensures Pieces(P, Insert(l, f).list)
  {
    var g, tail := l[0], l[1..];
    var over := g.End() - f.off;
    if f.off <= g.off {
      FrontPieces(P, l, f);
    } else if over <= 0 || over < f.len {
      var g' := if over > 0 then TrimTail(g, over) else g;
      if over > 0 {
        TrimPiece(P, g, over);
      }
      if tail != [] {
        assert [g] + tail == l;
        InsertPasses(g, g', tail, f);
        InsertPieces(P, tail, f, g.End());
        PiecesCons(P, g', Insert(tail, f).list);
      } else {
        PiecesCons(P, f, []);
        PiecesCons(P, g', [f]);
      }
    }
  }

  /** The first position from `at` on that the list does not hold. */
  ghost function FirstGap(l: seq<Frag>, at: int): int {
    if l == [] || l[0].off != at then at else FirstGap(l[1..], at + l[0].len)
  }

  lemma {:induction false} FirstGapIsMissing(l: seq<Frag>, at: int)
    requires Ok(l, at)
    ensures FirstGap(l, at) >= at && At(l, FirstGap(l, at)) == None
  {
    if l != [] && l[0].off == at {
      FirstGapIsMissing(l[1..], at + l[0].len);
    } else {
      NothingBelow(l, if l == [] then at + 1 else l[0].off, at);
    }
  }

  lemma {:induction false} BelowGapIsHeld(l: seq<Frag>, at: int, p: int)
    requires Ok(l, at) && at <= p < FirstGap(l, at)
    ensures At(l, p).Some?
  {
    if p >= l[0].End() {
      BelowGapIsHeld(l[1..], at + l[0].len, p);
    }
  }

  /** The scan succeeds exactly when nothing of `P` is missing. */
  lemma {:induction false} ChainedIffFull(P: seq<Byte>, l: seq<Frag>, at: nat)
    requires l != [] && Ok(l, at) && Pieces(P, l)
    ensures Chained(l, at) && !l[|l| - 1].more <==> FirstGap(l, at) == |P|
  {
    var rest := l[1..];
    if l[0].off == at && rest != [] {
      ChainedIffFull(P, rest, l[0].End());
      assert rest[|rest| - 1] == l[|l| - 1];
    }
  }

  /** Then the buffers hold `P`. */
  lemma {:induction false} FullHoldsPayload(P: seq<Byte>, l: seq<Frag>, at: nat)
    requires Ok(l, at) && Pieces(P, l) && FirstGap(l, at) == |P| && at <= |P|
    ensures at + TotalLen(l) == |P| && Data(l) == P[at..]
  {
    if l != [] && l[0].off == at {
      var mid := l[0].End();
      FullHoldsPayload(P, l[1..], mid);
      assert P[at..mid] + P[mid..] == P[at..];
    }
  }

  ghost predicate Holds(l: seq<Frag>, n: nat) {
    forall p | 0 <= p < n :: At(l, p).Some?
  }

  lemma FullIffHolds(P: seq<Byte>, l: seq<Frag>)
    requires Ok(l, 0) && Pieces(P, l)
    ensures FirstGap(l, 0) == |P| <==> Holds(l, |P|)
  {
    var gap := FirstGap(l, 0);
    FirstGapIsMissing(l, 0);
    if gap == |P| {
      forall p | 0 <= p < |P| ensures At(l, p).Some? { BelowGapIsHeld(l, 0, p); }
    } else if gap > 0 {
      BelowGapIsHeld(l, 0, gap - 1);
      HeldIsWithin(P, l, gap - 1);
    }
  }

  lemma AssembleIsWhole(P: seq<Byte>, l: seq<Frag>)
    requires l != [] && Ok(l, 0) && Pieces(P, l) && |P| < 0x1_0000 && FirstGap(l, 0) == |P|
    ensures Whole(P, Assemble(l))
  {
    FullHoldsPayload(P, l, 0);
    var d := Assemble(l);
    assert d.buf[d.hlen..] == l[0].buf[l[0].hlen..] + Data(l[1..]);
  }

  /** The datagram `d` carries the payload `P`, whole. */
  ghost predicate Whole(P: seq<Byte>, d: Frag) {
    d.Valid() && d.len == |P| && !d.more && d.buf[d.hlen..] == P
  }

  /** ipChkReAssembly says "complete" exactly when every byte of the payload is held, and
      the packet it then builds is the first header followed by the payload. */
  lemma CompleteIffHolds(P: seq<Byte>, l: seq<Frag>)
    requires l != [] && Ok(l, 0) && Pieces(P, l) && |P| < 0x1_0000
    ensures Complete(l) <==> Holds(l, |P|)
    ensures Complete(l) ==> Whole(P, Assemble(l))
  {
    ChainedIffFull(P, l, 0);
    FullIffHolds(P, l);
    if Complete(l) {
      AssembleIsWhole(P, l);
    }
  }

  // ---------------------------------------------------------------- whole runs

  ghost predicate Covers(fs: seq<Frag>, p: int) {
    exists f | f in fs :: f.off <= p < f.End()
  }

  ghost predicate CoversAll(fs: seq<Frag>, n: nat) {
    forall p | 0 <= p < n :: Covers(fs, p)
  }

  /** The queue after the arrivals `fs`, starting from no queue. */
  ghost function Queue(fs: seq<Frag>): seq<Frag> {
    if fs == [] then [] else Arrive(Queue(fs[..|fs| - 1]), fs[|fs| - 1]).list
  }

  /** What the arrival after `fs` returns. */
  ghost function Output(fs: seq<Frag>, f: Frag): Option<Frag> {
    Arrive(Queue(fs), f).out
  }

  /** The guard, at every arrival. */
  ghost predicate SafeRun(fs: seq<Frag>) {
    fs == [] ||
    var before := fs[..|fs| - 1];
    && SafeRun(before)
    && (Queue(before) == [] || Safe(Queue(before), fs[|fs| - 1]))
  }

  ghost predicate AllPieces(P: seq<Byte>, fs: seq<Frag>) {
    forall f | f in fs :: PieceOf(P, f)
  }

  /** The arrivals since the payload was last completed. */
  ghost function Since(P: seq<Byte>, fs: seq<Frag>): seq<Frag> {
    if fs == [] then []
    else
      var s := Since(P, fs[..|fs| - 1]) + [fs[|fs| - 1]];
      if CoversAll(s, |P|) then [] else s
  }

  /** The queue holds exactly the bytes that arrived. */
  ghost predicate Gathering(P: seq<Byte>, fs: seq<Frag>) {
    && Ok(Queue(fs), 0) && Pieces(P, Queue(fs)) && (fs != [] ==> Queue(fs) != [])
    && forall p :: At(Queue(fs), p).Some? <==> Covers(fs, p)
  }

  /** One more arrival: what the list becomes before the completeness scan. */
  lemma GatherOne(P: seq<Byte>, fs: seq<Frag>, f: Frag, p: int)
    requires Gathering(P, fs) && PieceOf(P, f)
    requires Queue(fs) == [] || Safe(Queue(fs), f)
    ensures var r := if Queue(fs) == [] then Inserted([f], false) else Insert(Queue(fs), f);
      && r.list != [] && Ok(r.list, 0) && Pieces(P, r.list)
      && (At(r.list, p).Some? <==> Covers(fs + [f], p))
      && (r.dropped ==> r.list == Queue(fs))
  {
    assert Covers(fs + [f], p) <==> Covers(fs, p) || f.off <= p < f.End() by {
      assert forall g :: g in fs + [f] <==> g in fs || g == f;
      assert f in fs + [f];
    }
    if Queue(fs) != [] {
      InsertKeeps(Queue(fs), f, 0, p);
      InsertPieces(P, Queue(fs), f, 0);
    } else {
      assert Ok([f][1..], f.End()) && Pieces(P, [f][1..]);
    }
  }

  /** The round trip's core: with the earlier arrivals gathered, this arrival returns a
      datagram exactly when it completes the coverage, and then returns the payload. */
  lemma ArrivalAnswer(P: seq<Byte>, fs: seq<Frag>, f: Frag)
    requires |P| < 0x1_0000 && Gathering(P, fs) && PieceOf(P, f)
    requires Queue(fs) == [] || Safe(Queue(fs), f)
    requires fs != [] ==> !CoversAll(fs, |P|)
    ensures Output(fs, f).Some? <==> CoversAll(fs + [f], |P|)
    ensures Output(fs, f).Some? ==> Whole(P, Output(fs, f).value) && Queue(fs + [f]) == []
    ensures Output(fs, f).None? ==> Gathering(P, fs + [f])
  {
    var r := if Queue(fs) == [] then Inserted([f], false) else Insert(Queue(fs), f);
    forall p
      ensures At(r.list, p).Some? <==> Covers(fs + [f], p)
    {
      GatherOne(P, fs, f, p);
    }
    GatherOne(P, fs, f, 0);
    CompleteIffHolds(P, r.list);
    assert Holds(r.list, |P|) <==> CoversAll(fs + [f], |P|);
    assert (fs + [f])[..|fs|] == fs;
    assert Queue(fs + [f]) == Arrive(Queue(fs), f).list;
    if r.dropped {
      assert Holds(r.list, |P|) <==> CoversAll(fs, |P|);
    }
  }

  /** The guard at one arrival. */
  predicate Guarded(l: seq<Frag>, f: Frag) {
    l == [] || Safe(l, f)
  }

  /** The queue is that of the arrivals since the last completion, and holds exactly their bytes. */
  ghost predicate Gathered(P: seq<Byte>, fs: seq<Frag>) {
    var since := Since(P, fs);
    && Queue(fs) == Queue(since) && Gathering(P, since)
    && (since != [] ==> !CoversAll(since, |P|))
  }

  lemma SinceNext(P: seq<Byte>, fs: seq<Frag>, f: Frag)
    ensures var s := Since(P, fs) + [f]; Since(P, fs + [f]) == if CoversAll(s, |P|) then [] else s
    ensures Queue(fs + [f]) == Arrive(Queue(fs), f).list
  {
    assert (fs + [f])[..|fs|] == fs;
  }

  lemma GatherNext(P: seq<Byte>, fs: seq<Frag>, f: Frag)
    requires |P| < 0x1_0000 && Gathered(P, fs) && PieceOf(P, f) && Guarded(Queue(fs), f)
    ensures Gathered(P, fs + [f])
  {
    var since := Since(P, fs);
    ArrivalAnswer(P, since, f);
    SinceNext(P, fs, f);
    QueueAfter(since, f);
  }

  /** Over every guarded run, through any number of completions, the queue holds exactly
      the bytes that arrived since the last one. */
  lemma {:induction false} GatherRun(P: seq<Byte>, fs: seq<Frag>)
    requires |P| < 0x1_0000 && AllPieces(P, fs) && SafeRun(fs)
    ensures Gathered(P, fs)
  {
    if fs != [] {
      var before, f := fs[..|fs| - 1], fs[|fs| - 1];
      GatherRun(P, before);
      GatherNext(P, before, f);
      assert before + [f] == fs;
    }
  }

  /** `f` is placed in front of a fragment that starts where it does. */
  predicate SameStart(l: seq<Frag>, f: Frag) {
    l != [] && exists g | g in Successor(l, f) :: g.off == f.off
  }

  /** The arrival is answered with the payload. */
  ghost predicate Answers(P: seq<Byte>, out: Option<Frag>) {
    out.Some? && Whole(P, out.value)
  }

  /** Fragments of one datagram, in any order, with duplicates and overlaps, over and over:
      as long as the guard holds, an arrival is answered exactly when it completes the
      payload anew, and then the answer is the payload. */
  lemma RoundTrip(P: seq<Byte>, fs: seq<Frag>, f: Frag)
    requires |P| < 0x1_0000 && AllPieces(P, fs) && PieceOf(P, f)
    requires SafeRun(fs) && Guarded(Queue(fs), f)
    ensures Output(fs, f).Some? <==> CoversAll(Since(P, fs) + [f], |P|)
    ensures Output(fs, f).Some? ==> Answers(P, Output(fs, f)) && Queue(fs + [f]) == []
  {
    GatherRun(P, fs);
    ArrivalAnswer(P, Since(P, fs), f);
    QueueAfter(fs, f);
    QueueAfter(Since(P, fs), f);
  }

  lemma QueueAfter(fs: seq<Frag>, f: Frag)
    ensures Queue(fs + [f]) == Arrive(Queue(fs), f).list
  {
    assert (fs + [f])[..|fs|] == fs;
  }

  // ---------------------------------------------------------------- the header of the answer

  /** If `f` begins the data, what its buffer has of a header is that of `H`. */
  ghost predicate HeadOf(H: seq<Byte>, f: Frag) {
    f.off == 0 ==> f.hlen == |H| && (H <= f.buf || f.buf <= H)
  }

  ghost predicate Heads(H: seq<Byte>, l: seq<Frag>) {
    l == [] || (HeadOf(H, l[0]) && Heads(H, l[1..]))
  }

  lemma HeadsCons(H: seq<Byte>, g: Frag, tail: seq<Frag>)
    ensures Heads(H, [g] + tail) <==> HeadOf(H, g) && Heads(H, tail)
  {
    assert ([g] + tail)[1..] == tail;
  }

  lemma TrimHead(H: seq<Byte>, f: Frag, n: nat)
    requires HeadOf(H, f)
    ensures HeadOf(H, TrimTail(f, n))
  {
  }

  lemma {:induction false} SwallowHeads(H: seq<Byte>, l: seq<Frag>, f: Frag)
    requires Heads(H, l)
    ensures Heads(H, Swallow(l, f))
  {
    if l != [] && f.End() >= l[0].End() {
      SwallowHeads(H, l[1..], f);
    }
  }

  lemma FrontHeads(H: seq<Byte>, rest: seq<Frag>, f: Frag)
    requires Heads(H, rest) && HeadOf(H, f)
    ensures Heads(H, PlaceBefore(rest, f))
  {
    var over := if rest == [] then 0 else f.End() - SignExtended(rest[0].off);
    if over > 0 {
      TrimHead(H, f, over);
    }
    HeadsCons(H, if over > 0 then TrimTail(f, over) else f, rest);
  }

  /** No insertion, guarded or not, gives the data another header. */
  lemma {:induction false} InsertHeads(H: seq<Byte>, l: seq<Frag>, f: Frag)
    requires l != [] && Heads(H, l) && HeadOf(H, f)
    ensures Heads(H, Insert(l, f).list)
  {
    var g, tail := l[0], l[1..];
    var over := g.End() - f.off;
    if f.off <= g.off {
      SwallowHeads(H, l, f);
      FrontHeads(H, Swallow(l, f), f);
    } else if over <= 0 || over < f.len {
      var g' := if over > 0 then TrimTail(g, over) else g;
      if over > 0 {
        TrimHead(H, g, over);
      }
      if tail != [] {
        InsertHeads(H, tail, f);
        HeadsCons(H, g', Insert(tail, f).list);
      } else {
        HeadsCons(H, f, []);
        HeadsCons(H, g', [f]);
      }
    }
  }

  ghost predicate AllHeads(H: seq<Byte>, fs: seq<Frag>) {
    forall f | f in fs :: HeadOf(H, f)
  }

  lemma {:induction false} QueueHeads(H: seq<Byte>, fs: seq<Frag>)
    requires AllHeads(H, fs)
    ensures Heads(H, Queue(fs))
  {
    if fs != [] {
      var before, f := fs[..|fs| - 1], fs[|fs| - 1];
      assert f in fs && forall g | g in before :: g in fs;
      QueueHeads(H, before);
      if Queue(before) != [] {
        InsertHeads(H, Queue(before), f);
      } else {
        HeadsCons(H, f, []);
      }
    }
  }

  lemma AssembledHead(H: seq<Byte>, P: seq<Byte>, l: seq<Frag>)
    requires l != [] && Heads(H, l) && Ok(l, 0) && Chained(l, 0) && Whole(P, Assemble(l))
    ensures Assemble(l).buf == H + P
  {
    var d := Assemble(l);
    assert l[0].off == 0 && H <= l[0].buf && d.buf[..d.hlen] == H;
    assert d.buf == d.buf[..d.hlen] + d.buf[d.hlen..];
  }

  /** If all the fragments that begin the data have the header `H`, so has the answer: it is the whole
      datagram again, byte for byte. */
  lemma AnswerHasHeader(H: seq<Byte>, P: seq<Byte>, fs: seq<Frag>, f: Frag)
    requires |P| < 0x1_0000 && AllPieces(P, fs) && PieceOf(P, f)
    requires SafeRun(fs) && Guarded(Queue(fs), f)
    requires AllHeads(H, fs + [f])
    ensures Output(fs, f).Some? ==> Output(fs, f).value.buf == H + P
  {
    assert f in fs + [f] && forall g | g in fs :: g in fs + [f];
    QueueHeads(H, fs);
    HeadsCons(H, f, []);
    if Queue(fs) != [] {
      InsertHeads(H, Queue(fs), f);
    }
    if Output(fs, f).Some? {
      GatherRun(P, fs);
      GatherOne(P, Since(P, fs), f, 0);
      RoundTrip(P, fs, f);
      AssembledHead(H, P, if Queue(fs) == [] then [f] else Insert(Queue(fs), f).list);
    }
  }

  // ---------------------------------------------------------------- the first unguarded arrival

  lemma {:induction false} DataIsShort(l: seq<Frag>)
    requires Each(l)
    ensures |Data(l)| <= TotalLen(l)
  {
    if l != [] {
      DataIsShort(l[1..]);
    }
  }

  /** No buffer is longer than its header and its length say. */
  ghost predicate Each(l: seq<Frag>) {
    l == [] || (|l[0].buf| <= l[0].hlen + l[0].len && Each(l[1..]))
  }

  lemma {:induction false} OkEach(l: seq<Frag>, lo: int)
    requires Ok(l, lo)
    ensures Each(l)
  {
    if l != [] {
      OkEach(l[1..], l[0].End());
    }
  }

  /** Some buffer in the list has lost its header, and its length says otherwise. */
  ghost predicate Gutted(l: seq<Frag>) {
    l != [] && Each(l)
    && if |l[0].buf| < l[0].hlen && l[0].len > 0 then true else Gutted(l[1..])
  }

  lemma {:induction false} GuttedEach(l: seq<Frag>)
    requires Gutted(l)
    ensures Each(l) && |Data(l)| < TotalLen(l)
  {
    if |l[0].buf| < l[0].hlen && l[0].len > 0 {
      DataIsShort(l[1..]);
    } else {
      GuttedEach(l[1..]);
    }
  }

  lemma UnguardedPlace(rest: seq<Frag>, f: Frag)
    requires rest != [] && Each(rest) && f.Valid() && f.off < rest[0].off && rest[0].off >= 0x8000
    ensures Gutted(PlaceBefore(rest, f)) && Last(PlaceBefore(rest, f)) == Last(rest)
  {
    var f' := TrimTail(f, f.End() - SignExtended(rest[0].off));
    assert f'.len == rest[0].off - f.off && |f'.buf| < f'.hlen;
    assert ([f'] + rest)[1..] == rest;
  }

  lemma UnguardedFront(l: seq<Frag>, f: Frag)
    requires l != [] && Ok(l, l[0].off) && f.Valid() && f.off <= l[0].off
    requires !Safe(l, f) && !SameStart(l, f)
    ensures Gutted(Insert(l, f).list) && Last(Insert(l, f).list) == Last(l)
  {
    var rest, lo := Swallow(l, f), l[0].off;
    SwallowKeeps(l, f, lo, 0);
    SwallowLast(l, f);
    OkEach(rest, lo);
    assert Successor(l, f) == [rest[0]];
    assert rest[0] in Successor(l, f);
    UnguardedPlace(rest, f);
  }

  lemma GuttedCons(g: Frag, tail: seq<Frag>)
    requires |g.buf| <= g.hlen + g.len && Gutted(tail)
    ensures Gutted([g] + tail) && Last([g] + tail) == Last(tail)
  {
    GuttedEach(tail);
    assert ([g] + tail)[1..] == tail;
  }

  /** An unguarded arrival guts a buffer, unless it starts where its successor does. */
  lemma {:induction false} UnguardedGuts(l: seq<Frag>, f: Frag, lo: int)
    requires l != [] && Ok(l, lo) && f.Valid() && !Safe(l, f) && !SameStart(l, f)
    ensures Gutted(Insert(l, f).list) && Last(Insert(l, f).list) == Last(l)
  {
    var g, tail := l[0], l[1..];
    if f.off <= g.off {
      UnguardedFront(l, f);
    } else {
      var over := g.End() - f.off;
      var g' := if over > 0 then TrimTail(g, over) else g;
      assert [g] + tail == l;
      InsertPasses(g, g', tail, f);
      if over > 0 {
        TrimmedHolds(g, g', f.off, 0);
      }
      UnguardedGuts(tail, f, g.End());
      GuttedCons(g', Insert(tail, f).list);
    }
  }

  function Last(l: seq<Frag>): Frag
    requires l != []
  {
    l[|l| - 1]
  }

  lemma {:induction false} SwallowLast(l: seq<Frag>, f: Frag)
    requires Swallow(l, f) != []
    ensures Last(Swallow(l, f)) == Last(l)
  {
    if f.End() >= l[0].End() {
      SwallowLast(l[1..], f);
    }
  }

  lemma {:induction false} ChainedEnds(l: seq<Frag>, at: int)
    requires l != [] && Chained(l, at)
    ensures at + TotalLen(l) == Last(l).End()
  {
    if l[1..] != [] {
      ChainedEnds(l[1..], at + l[0].len);
    }
  }

  lemma {:induction false} LastIsPiece(P: seq<Byte>, l: seq<Frag>)
    requires l != [] && Pieces(P, l)
    ensures Last(l).End() <= |P|
  {
    if l[1..] != [] {
      LastIsPiece(P, l[1..]);
    }
  }

  lemma GuttedIsNotWhole(P: seq<Byte>, l: seq<Frag>)
    requires l != [] && Gutted(l) && Complete(l) && Last(l).End() <= |P| < 0x1_0000
    ensures !Whole(P, Assemble(l))
  {
    ChainedEnds(l, 0);
    if |l[0].buf| < l[0].hlen && l[0].len > 0 {
      DataIsShort(l[1..]);
    } else {
      GuttedEach(l[1..]);
    }
    assert |Assemble(l).buf| < l[0].hlen + TotalLen(l);
  }

  lemma {:induction false} SwallowChained(l: seq<Frag>, f: Frag, at: int)
    requires Ok(l, f.off) && f.Valid() && Swallow(l, f) != [] && Swallow(l, f)[0].off == f.off
    ensures Chained(l, at) <==> Chained(Swallow(l, f), at)
  {
    if f.End() >= l[0].End() {
      SwallowKeeps(l[1..], f, l[0].End(), 0);
      OkLower(l[1..], l[0].End(), f.off);
      SwallowChained(l[1..], f, at);
    }
  }

  lemma ChainedCons(g: Frag, tail: seq<Frag>, at: int)
    ensures Chained([g] + tail, at) <==> g.off == at && Chained(tail, at + g.len)
    ensures tail != [] ==> Last([g] + tail) == Last(tail)
  {
    assert ([g] + tail)[1..] == tail;
  }

  lemma {:induction false} OkMember(l: seq<Frag>, lo: int, g: Frag)
    requires Ok(l, lo) && g in l
    ensures lo <= g.off
  {
    if g != l[0] {
      OkMember(l[1..], l[0].End(), g);
    }
  }

  lemma SameStartFront(l: seq<Frag>, f: Frag, at: int)
    requires l != [] && Ok(l, l[0].off) && f.Valid() && f.off <= l[0].off
    requires !Safe(l, f) && SameStart(l, f)
    ensures Insert(l, f).list != [] && Last(Insert(l, f).list) == Last(l)
    ensures Chained(Insert(l, f).list, at) <==> Chained(l, at)
  {
    var rest := Swallow(l, f);
    OkLower(l, l[0].off, f.off);
    SwallowChained(l, f, at);
    SwallowLast(l, f);
    ChainedCons(TrimTail(f, f.End() - SignExtended(rest[0].off)), rest, at);
  }

  lemma EndsBefore(g: Frag, tail: seq<Frag>, f: Frag)
    requires tail != [] && Ok(tail, g.End()) && SameStart(tail, f)
    ensures g.End() <= f.off
  {
    var next :| next in Successor(tail, f) && next.off == f.off;
    SuccessorIsQueued(tail, f, next);
    OkMember(tail, g.End(), next);
  }

  /** The insertion leaves the last fragment, and whether the list is chained, as they were. */
  ghost predicate AddsNothing(l: seq<Frag>, f: Frag, at: int)
    requires l != []
  {
    var r := Insert(l, f).list;
    r != [] && Last(r) == Last(l) && (Chained(r, at) <==> Chained(l, at))
  }

  lemma NothingBehind(g: Frag, tail: seq<Frag>, f: Frag, at: int)
    requires tail != [] && g.off < f.off && g.End() <= f.off && AddsNothing(tail, f, at + g.len)
    ensures AddsNothing([g] + tail, f, at)
  {
    InsertPasses(g, g, tail, f);
    ChainedCons(g, tail, at);
    ChainedCons(g, Insert(tail, f).list, at);
  }

  /** An unguarded arrival that starts where its successor does adds nothing: it is cut to no
      bytes, and the scan answers as before. */
  lemma {:induction false} SameStartAddsNothing(l: seq<Frag>, f: Frag, lo: int, at: int)
    requires l != [] && Ok(l, lo) && f.Valid() && !Safe(l, f) && SameStart(l, f)
    ensures AddsNothing(l, f, at)
  {
    var g, tail := l[0], l[1..];
    if f.off <= g.off {
      SameStartFront(l, f, at);
    } else {
      assert Successor(l, f) == Successor(tail, f);
      EndsBefore(g, tail, f);
      SameStartAddsNothing(tail, f, g.End(), at + g.len);
      NothingBehind(g, tail, f, at);
      assert [g] + tail == l;
    }
  }

  /** Then nothing is handed up. */
  lemma SameStartAnswersNothing(P: seq<Byte>, fs: seq<Frag>, f: Frag)
    requires |P| < 0x1_0000 && Gathered(P, fs) && PieceOf(P, f)
    requires !Guarded(Queue(fs), f) && SameStart(Queue(fs), f)
    ensures Output(fs, f).None?
  {
    var l, since := Queue(fs), Since(P, fs);
    assert since != [];
    CompleteIffHolds(P, l);
    assert Holds(l, |P|) <==> CoversAll(since, |P|);
    SameStartAddsNothing(l, f, 0, 0);
  }

  /** At the end of a guarded run the condition is exact: the next arrival is answered with
      the payload if and only if it completes it and the guard holds once more. */
  lemma AnsweredIff(P: seq<Byte>, fs: seq<Frag>, f: Frag)
    requires |P| < 0x1_0000 && AllPieces(P, fs) && PieceOf(P, f) && SafeRun(fs)
    ensures Answers(P, Output(fs, f)) <==> CoversAll(Since(P, fs) + [f], |P|) && Guarded(Queue(fs), f)
  {
    var l := Queue(fs);
    if Guarded(l, f) {
      RoundTrip(P, fs, f);
    } else {
      GatherRun(P, fs);
      if SameStart(l, f) {
        SameStartAnswersNothing(P, fs, f);
      } else {
        UnguardedGuts(l, f, 0);
        LastIsPiece(P, l);
        var r := Insert(l, f);
        if Output(fs, f).Some? {
          GuttedIsNotWhole(P, r.list);
        }
      }
    }
  }

  lemma DataCons(g: Frag, tail: seq<Frag>)
    ensures TotalLen([g] + tail) == g.len + TotalLen(tail)
    ensures Data([g] + tail) == (if g.hlen <= |g.buf| then g.buf[g.hlen..] else []) + Data(tail)
  {
    assert ([g] + tail)[1..] == tail;
  }

  /** The middle one of three fragments arrives after the last one, which starts at 32768: its
      header stays in the queue with its length, its bytes do not. */
  lemma MiddleIsLost(middle: Frag, last: Frag)
    requires middle.Valid() && 0 < middle.len && middle.hlen < 0x4000 && middle.End() == last.off == 0x8000
    requires last.len > 0 && last.off <= 0xffff - last.len
    requires middle.len <= 0x4000
    ensures Queue([last, middle]) == [middle.(buf := []), last]
  {
    QueueAfter([], last);
    QueueAfter([last], middle);
    assert [] + [last] == [last] && [last] + [middle] == [last, middle];
    assert Swallow([last], middle) == [last];
    assert Insert([last], middle) == Inserted([middle.(buf := []), last], false);
  }

  /** Three fragments of one 40000-byte datagram, last, middle, first: the code hands up 40000
      bytes by the header, of which the middle 16384 are missing. */
  lemma SignExtensionLosesData(P: seq<Byte>, first: Frag, middle: Frag, last: Frag)
    requires |P| == 40000 && PieceOf(P, first) && PieceOf(P, middle) && PieceOf(P, last)
    requires first.off == 0 && middle.off == 0x4000 && last.off == 0x8000
    requires first.len == middle.len == 0x4000 && last.len == 7232
    requires first.hlen == middle.hlen == last.hlen == 20
    ensures Output([last, middle], first)
         == Some(Frag(0, 40000, false, 20, first.buf + P[0x8000..]))
  {
    var m := middle.(buf := []);
    MiddleIsLost(middle, last);
    assert Insert([m, last], first) == Inserted([first, m, last], false);
    ChainedCons(m, [last], 0x4000);
    ChainedCons(first, [m, last], 0);
    DataCons(last, []);
    DataCons(m, [last]);
    assert [last] + [] == [last] && P[0x8000..40000] == P[0x8000..] && [first, m, last][1..] == [m, last];
    assert [first] + [m, last] == [first, m, last] && [m] + [last] == [m, last];
    DataCons(first, [m, last]);
    assert [] + P[0x8000..] == P[0x8000..];
    assert Data([m, last]) == P[0x8000..];
    assert Complete([first, m, last]);
    assert Assemble([first, m, last]) == Frag(0, 40000, false, 20, first.buf + P[0x8000..]);
  }

  /** A datagram handed up leaves nothing behind: what follows starts a new queue. */
  lemma {:induction false} QueueRestarts(fs: seq<Frag>, gs: seq<Frag>)
    requires Queue(fs) == []
    ensures Queue(fs + gs) == Queue(gs)
  {
    if gs == [] {
      assert fs + gs == fs;
    } else {
      QueueRestarts(fs, gs[..|gs| - 1]);
      assert (fs + gs)[..|fs + gs| - 1] == fs + gs[..|gs| - 1];
    }
  }

  lemma {:induction false} QueueOffsets(fs: seq<Frag>, g: Frag)
    requires g in Queue(fs)
    ensures exists f | f in fs :: f.off == g.off
  {
    var before, f := fs[..|fs| - 1], fs[|fs| - 1];
    var l := Queue(before);
    if l == [] {
      assert g == f;
    } else {
      InsertOffsets(l, f, g);
      if g.off != f.off {
        var g0 :| g0 in l && g0.off == g.off;
        QueueOffsets(before, g0);
      }
    }
  }

  lemma {:induction false} InsertOffsets(l: seq<Frag>, f: Frag, g: Frag)
    requires l != [] && g in Insert(l, f).list
    ensures g.off == f.off || exists g0 | g0 in l :: g0.off == g.off
  {
    if f.off <= l[0].off {
      SwallowSubset(l, f, g);
    } else if |l| > 1 && g in Insert(l[1..], f).list {
      InsertOffsets(l[1..], f, g);
    } else {
      assert g.off == l[0].off || g == f || g in l;
    }
  }

  lemma {:induction false} SwallowSubset(l: seq<Frag>, f: Frag, g: Frag)
    ensures g in Swallow(l, f) ==> g in l
  {
    if l != [] && f.End() >= l[0].End() {
      SwallowSubset(l[1..], f, g);
    }
  }

  lemma {:induction false} SuccessorIsQueued(l: seq<Frag>, f: Frag, g: Frag)
    requires l != [] && g in Successor(l, f)
    ensures g in l
  {
    if f.off > l[0].off {
      SuccessorIsQueued(l[1..], f, g);
    } else {
      SwallowSubset(l, f, g);
    }
  }

  /** Every run whose fragments all start below 32768 keeps the guard. */
  lemma {:induction false} LowOffsetsAreSafe(fs: seq<Frag>)
    requires forall f | f in fs :: f.off < 0x8000
    ensures SafeRun(fs)
  {
    if fs != [] {
      var before, f := fs[..|fs| - 1], fs[|fs| - 1];
      LowOffsetsAreSafe(before);
      var l := Queue(before);
      if l != [] {
        forall g | g in Successor(l, f) ensures g.off < 0x8000 {
          SuccessorIsQueued(l, f, g);
          QueueOffsets(before, g);
        }
      }
    }
  }

  lemma {:induction false} HeldIsWithin(P: seq<Byte>, l: seq<Frag>, p: int)
    requires Pieces(P, l) && At(l, p).Some?
    ensures p < |P|
  {
    if l[0].At(p).None? {
      HeldIsWithin(P, l[1..], p);
    }
  }
}
