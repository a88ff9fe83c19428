/** ipReAssemble on the heap: the m_nextpkt list of one reassembly queue, rewritten in place. */
module FragmentQueue {
  import opened CTypes
  import opened Reassembly

  class Mbuf {
    var nextpkt: Mbuf?
    var off: U16
    var len: U16
    var more: bool
    var hlen: nat
    var buf: seq<Byte>

    constructor (f: Frag)
      ensures nextpkt == null && Value() == f
    {
      nextpkt := null;
      off, len, more, hlen, buf := f.off, f.len, f.more, f.hlen, f.buf;
    }

    function Value(): Frag
      reads this
    {
      Frag(off, len, more, hlen, buf)
    }

    /** Gives up the last `n` bytes, in the header's length and in the buffer. */
    method Trim(n: nat)
      modifies this
      ensures Value() == TrimTail(old(Value()), n) && nextpkt == old(nextpkt)
    {
      len := (len - n) % 0x1_0000;
      buf := if n >= |buf| then [] else buf[..|buf| - n];
    }
  }

  /** The m_nextpkt links from `p` run through mbufs of `fp` that hold `l`, and end in null. */
  ghost predicate Chain(p: Mbuf?, l: seq<Frag>, fp: set<Mbuf>)
    reads fp
    decreases |l|
  {
    if l == [] then p == null
    else p != null && p in fp && p.Value() == l[0] && Chain(p.nextpkt, l[1..], fp - {p})
  }

  /** The same, ending in `q` instead. */
  ghost predicate Path(p: Mbuf?, l: seq<Frag>, q: Mbuf?, fp: set<Mbuf>)
    reads fp
    decreases |l|
  {
    if l == [] then p == q
    else p != null && p in fp && p.Value() == l[0] && Path(p.nextpkt, l[1..], q, fp - {p})
  }

  lemma {:induction false} PathExtends(p: Mbuf?, l: seq<Frag>, q: Mbuf, fp: set<Mbuf>)
    requires Path(p, l, q, fp) && q !in fp
    ensures Path(p, l + [q.Value()], q.nextpkt, fp + {q})
    decreases |l|
  {
    if l != [] {
      PathExtends(p.nextpkt, l[1..], q, fp - {p});
      assert (l + [q.Value()])[1..] == l[1..] + [q.Value()];
      assert fp - {p} + {q} == fp + {q} - {p};
    } else {
      assert (l + [q.Value()])[1..] == [];
    }
  }

  lemma {:induction false} ChainWeaken(p: Mbuf?, l: seq<Frag>, fp: set<Mbuf>, more: set<Mbuf>)
    requires Chain(p, l, fp) && fp <= more
    ensures Chain(p, l, more)
    decreases |l|
  {
    if l != [] {
      ChainWeaken(p.nextpkt, l[1..], fp - {p}, more - {p});
    }
  }

  lemma {:induction false} PathThenChain(p: Mbuf?, l1: seq<Frag>, q: Mbuf?, fp1: set<Mbuf>,
                                         l2: seq<Frag>, fp2: set<Mbuf>, all: set<Mbuf>)
    requires Path(p, l1, q, fp1) && Chain(q, l2, fp2) && fp1 !! fp2 && fp1 + fp2 <= all
    ensures Chain(p, l1 + l2, all)
    decreases |l1|
  {
    if l1 == [] {
      assert l1 + l2 == l2;
      ChainWeaken(q, l2, fp2, all);
    } else {
      PathThenChain(p.nextpkt, l1[1..], q, fp1 - {p}, l2, fp2, all - {p});
      assert (l1 + l2)[1..] == l1[1..] + l2;
    }
  }

  /** Passing the first fragment, which becomes `g`, leaves the insertion to the rest. */
  lemma PassFirst(rest: seq<Frag>, f: Frag, g: Frag)
    requires rest != [] && f.off > rest[0].off
    requires var over := rest[0].End() - f.off;
      (over <= 0 || over < f.len) && g == if over > 0 then TrimTail(rest[0], over) else rest[0]
    ensures |rest| == 1 ==> Insert(rest, f) == Inserted([g, f], false)
    ensures |rest| > 1 ==> var r := Insert(rest[1..], f);
      Insert(rest, f) == Inserted([g] + r.list, r.dropped)
  {
  }

  lemma Passed(goal: Inserted, done: seq<Frag>, g: Frag, r: Inserted, tail: seq<Frag>)
    requires goal == Inserted(done + r.list, r.dropped) && r.list == [g] + tail
    ensures goal == Inserted(done + [g] + tail, r.dropped)
  {
    assert done + ([g] + tail) == done + [g] + tail;
  }

  class Queue {
    var pkt: Mbuf?
    ghost var list: seq<Frag>    // what the fragments hold, as the links run
    ghost var repr: set<Mbuf>    // every mbuf that was ever linked in

    ghost predicate Valid()
      reads this, repr
    {
      Chain(pkt, list, repr)
    }

    /** The insertion loop's position: pPtrMbuf is the m_nextpkt of `prev` (the queue's own
        pointer when `prev` is null) and holds `cur`; `done` lies before it, `rest` from it on. */
    ghost predicate Cursor(prev: Mbuf?, cur: Mbuf?, done: seq<Frag>, rest: seq<Frag>,
                           fp1: set<Mbuf>, fp2: set<Mbuf>)
      reads this, fp1, fp2
    {
      && fp1 !! fp2 && fp1 + fp2 <= repr && Chain(cur, rest, fp2)
      && if prev == null then done == [] && pkt == cur
         else
           && prev in fp1 && prev.nextpkt == cur && done != []
           && prev.Value() == done[|done| - 1]
           && Path(pkt, done[..|done| - 1], prev, fp1 - {prev})
    }

    lemma CursorPath(prev: Mbuf?, cur: Mbuf?, done: seq<Frag>, rest: seq<Frag>,
                     fp1: set<Mbuf>, fp2: set<Mbuf>)
      requires Cursor(prev, cur, done, rest, fp1, fp2)
      ensures Path(pkt, done, cur, fp1)
    {
      if prev != null {
        PathExtends(pkt, done[..|done| - 1], prev, fp1 - {prev});
        assert done == done[..|done| - 1] + [prev.Value()];
        assert fp1 - {prev} + {prev} == fp1;
      }
    }

    lemma CursorRejoins(prev: Mbuf?, cur: Mbuf?, done: seq<Frag>, rest: seq<Frag>,
                        fp1: set<Mbuf>, fp2: set<Mbuf>)
      requires Cursor(prev, cur, done, rest, fp1, fp2)
      ensures Chain(pkt, done + rest, repr)
    {
      CursorPath(prev, cur, done, rest, fp1, fp2);
      PathThenChain(pkt, done, cur, fp1, rest, fp2, repr);
    }

    /** The queue made for the first fragment to arrive. */
    constructor (m: Mbuf)
      modifies m
      ensures Valid() && repr == {m} && list == [old(m.Value())]
    {
      m.nextpkt := null;
      pkt := m;
      list, repr := [m.Value()], {m};
    }

    /** `*pPtrMbuf = p` */
    method SetLink(prev: Mbuf?, p: Mbuf?)
      modifies this`pkt, if prev == null then {} else {prev}
      ensures prev == null ==> pkt == p
      ensures prev != null ==> pkt == old(pkt) && prev.nextpkt == p && prev.Value() == old(prev.Value())
    {
      if prev == null {
        pkt := p;
      } else {
        prev.nextpkt := p;
      }
    }

    /** Takes `cur` out of the list through the pointer that leads to it. */
    method Unlink(prev: Mbuf?, cur: Mbuf, ghost done: seq<Frag>, ghost rest: seq<Frag>,
                  ghost fp1: set<Mbuf>, ghost fp2: set<Mbuf>) returns (next: Mbuf?)
      requires Cursor(prev, cur, done, rest, fp1, fp2) && rest != []
      modifies this`pkt, fp1, fp2
      ensures Cursor(prev, next, done, rest[1..], fp1, fp2 - {cur})
    {
      next := cur.nextpkt;
      SetLink(prev, next);
      cur.nextpkt := null;
    }

    /** Puts `m` in front of `cur` through the pointer that leads there. */
    method Link(prev: Mbuf?, m: Mbuf, cur: Mbuf?, ghost done: seq<Frag>, ghost rest: seq<Frag>,
                ghost fp1: set<Mbuf>, ghost fp2: set<Mbuf>)
      requires Cursor(prev, cur, done, rest, fp1, fp2) && m !in repr
      modifies this, fp1, m
      ensures Valid() && repr == old(repr) + {m}
      ensures list == done + ([old(m.Value())] + rest)
    {
      m.nextpkt := cur;
      SetLink(prev, m);
      repr := repr + {m};
      list := done + ([m.Value()] + rest);
      assert ([m.Value()] + rest)[1..] == rest;
      assert fp2 + {m} - {m} == fp2;
      assert Cursor(prev, m, done, [m.Value()] + rest, fp1, fp2 + {m});
      CursorRejoins(prev, m, done, [m.Value()] + rest, fp1, fp2 + {m});
    }

    /** Unlink the fragments from the cursor on that `m` covers to their end. */
    method SwallowFrom(prev: Mbuf?, first: Mbuf?, m: Mbuf, ghost done: seq<Frag>, ghost rest: seq<Frag>,
                       ghost fp1: set<Mbuf>, ghost fp2: set<Mbuf>)
      returns (cur: Mbuf?, ghost left: set<Mbuf>)
      requires Cursor(prev, first, done, rest, fp1, fp2) && m !in repr
      modifies this`pkt, fp1, fp2
      ensures left <= fp2 && Cursor(prev, cur, done, Swallow(rest, m.Value()), fp1, left)
    {
      cur, left := first, fp2;
      ghost var l := rest;
      while cur != null && m.off + m.len >= cur.off + cur.len
        invariant left <= fp2 && Cursor(prev, cur, done, l, fp1, left)
        invariant Swallow(l, m.Value()) == Swallow(rest, m.Value())
        decreases |l|
      {
        ghost var gone := cur;
        cur := Unlink(prev, cur, done, l, fp1, left);
        l, left := l[1..], left - {gone};
      }
    }

    /** The branch for a fragment that starts at or before `first`. */
    method PlaceAt(prev: Mbuf?, first: Mbuf?, m: Mbuf, ghost done: seq<Frag>, ghost rest: seq<Frag>,
                   ghost fp1: set<Mbuf>, ghost fp2: set<Mbuf>)
      requires Cursor(prev, first, done, rest, fp1, fp2) && m !in repr
      modifies this, fp1, fp2, m
      ensures Valid() && repr == old(repr) + {m}
      ensures list == done + PlaceBefore(Swallow(rest, old(m.Value())), old(m.Value()))
    {
      var next, left := SwallowFrom(prev, first, m, done, rest, fp1, fp2);
      ghost var l := Swallow(rest, m.Value());
      if next != null {
        // the code reads ip_off here without the cast to USHORT
        var over := m.off + m.len - SignExtended(next.off);
        if over > 0 {
          m.Trim(over);
        }
      }
      Link(prev, m, next, done, l, fp1, left);
    }

    /** `m` goes behind the last fragment: the likely case most of the time. */
    method Append(last: Mbuf, m: Mbuf, ghost done: seq<Frag>, ghost fp1: set<Mbuf>, ghost fp2: set<Mbuf>)
      requires Cursor(last, null, done, [], fp1, fp2) && m !in repr
      modifies this, fp1, m
      ensures Valid() && repr == old(repr) + {m}
      ensures list == done + [old(m.Value())]
    {
      assert [m.Value()] + [] == [m.Value()];
      Link(last, m, null, done, [], fp1, fp2);
    }

    /** Move past `cur`, which first gives up its last `over` bytes, if any. */
    method Pass(prev: Mbuf?, cur: Mbuf, over: int, ghost done: seq<Frag>, ghost rest: seq<Frag>,
                ghost fp1: set<Mbuf>, ghost fp2: set<Mbuf>)
      requires Cursor(prev, cur, done, rest, fp1, fp2) && rest != []
      modifies cur
      ensures cur.nextpkt == old(cur.nextpkt)
      ensures cur.Value() == if over > 0 then TrimTail(rest[0], over) else rest[0]
      ensures Cursor(cur, cur.nextpkt, done + [cur.Value()], rest[1..], fp1 + {cur}, fp2 - {cur})
    {
      if over > 0 {
        cur.Trim(over);
      }
      ghost var tail := rest[1..];
      assert Chain(cur.nextpkt, tail, fp2 - {cur}) && ([cur.Value()] + tail)[1..] == tail;
      assert Cursor(prev, cur, done, [cur.Value()] + tail, fp1, fp2);
      CursorPath(prev, cur, done, [cur.Value()] + tail, fp1, fp2);
    }

    /** The insertion loop. */
    method InsertFragment(m: Mbuf) returns (dropped: bool)
      requires Valid() && list != [] && m !in repr
      modifies this, repr, m
      ensures Valid() && repr <= old(repr) + {m}
      ensures Inserted(list, dropped) == Insert(old(list), old(m.Value()))
    {
      ghost var done, rest := [], list;
      ghost var fp1: set<Mbuf>, fp2: set<Mbuf> := {}, repr;
      ghost var f, goal := m.Value(), Insert(list, m.Value());
      var prev: Mbuf? := null;
      var cur := pkt;
      while cur != null
        invariant m.Value() == f && repr == old(repr)
        invariant Cursor(prev, cur, done, rest, fp1, fp2)
        invariant rest != [] && goal == Inserted(done + Insert(rest, f).list, Insert(rest, f).dropped)
        decreases |rest|
      {
        if m.off > cur.off {
          var over := cur.off + cur.len - m.off;
          if over > 0 && over >= m.len {
            CursorRejoins(prev, cur, done, rest, fp1, fp2);
            list := done + rest;
            return true;
          }
          ghost var node: Mbuf := cur;
          Pass(prev, cur, over, done, rest, fp1, fp2);
          ghost var g, tail := cur.Value(), rest[1..];
          PassFirst(rest, f, g);
          Passed(goal, done, g, Insert(rest, f), if tail == [] then [f] else Insert(tail, f).list);
          prev, done, rest, fp1, fp2 := cur, done + [g], tail, fp1 + {node}, fp2 - {node};
          if cur.nextpkt == null {
            Append(cur, m, done, fp1, fp2);
            return false;
          }
        } else {
          PlaceAt(prev, cur, m, done, rest, fp1, fp2);
          return false;
        }
        cur := cur.nextpkt;
      }
      dropped := false;
    }

    /** The scan at ipChkReAssembly. */
    method CheckReAssembly() returns (complete: bool, total: nat)
      requires Valid() && list != []
      ensures complete == Complete(list)
      ensures complete ==> total == TotalLen(list)
    {
      total := 0;
      var cur := pkt;
      var more := true;
      ghost var rest := list;
      ghost var fp: set<Mbuf> := repr;
      while cur != null
        invariant Chain(cur, rest, fp) && fp <= repr
        invariant rest != [] ==> list[|list| - 1] == rest[|rest| - 1]
        invariant rest == [] ==> more == list[|list| - 1].more
        invariant Chained(list, 0) == Chained(rest, total)
        invariant TotalLen(list) == total + TotalLen(rest)
        decreases |rest|
      {
        if cur.off != total {
          return false, total;
        }
        total := total + cur.len;
        more := cur.more;
        fp := fp - {cur};
        cur, rest := cur.nextpkt, rest[1..];
      }
      complete := !more;
    }

    /** Concatenate the fragments onto the first one, whose header stays. */
    method Concatenate(total: nat) returns (d: Mbuf)
      requires Valid() && list != [] && total == TotalLen(list)
      modifies repr
      ensures d in repr && d.nextpkt == null && d.Value() == Assemble(list)
    {
      d := pkt;
      var tmp := d.nextpkt;
      d.nextpkt := null;
      ghost var rest := list[1..];
      ghost var fp: set<Mbuf> := repr - {d};
      while tmp != null
        invariant Chain(tmp, rest, fp) && fp <= repr - {d}
        invariant d.nextpkt == null && d.Value().(buf := []) == list[0].(buf := [])
        invariant d.buf + Data(rest) == list[0].buf + Data(list[1..])
        decreases |rest|
      {
        var frag := tmp;
        ghost var tail := rest[1..];
        tmp := frag.nextpkt;
        fp := fp - {frag};
        frag.nextpkt := null;
        // m_data and m_len step over the header, then m_cat (d, frag)
        frag.buf := if frag.hlen <= |frag.buf| then frag.buf[frag.hlen..] else [];
        assert d.buf + Data(rest) == d.buf + frag.buf + Data(tail);
        d.buf := d.buf + frag.buf;
        rest := tail;
      }
      assert d.buf + [] == d.buf;
      d.len := total % 0x1_0000;
      d.more := false;
    }
  }

  ghost function ListOf(q: Queue?): seq<Frag>
    reads q
  {
    if q == null then [] else q.list
  }

  ghost function Footprint(q: Queue?): set<Mbuf>
    reads q
  {
    if q == null then {} else q.repr
  }

  ghost function Held(fp: set<Mbuf>, m: Mbuf): set<Mbuf> {
    fp + {m}
  }

  ghost function ValueOf(m: Mbuf?): Option<Frag>
    reads m
  {
    if m == null then None else Some(m.Value())
  }

  /** ipReAssemble: `q` is the queue the header search found, if any; `header` says whether
      a new queue header could be allocated. What is left of the queue, and the datagram. */
  method ReAssemble(q: Queue?, m: Mbuf, header: bool) returns (left: Queue?, d: Mbuf?)
    requires q != null ==> q.Valid() && q.list != [] && m !in q.repr
    modifies q, if q == null then {} else q.repr, m
    ensures left != null ==> left.Valid() && left.list != [] && (if q == null then fresh(left) else left == q)
    ensures left != null ==> left.repr <= Held(old(Footprint(q)), m)
    ensures d != null ==> left == null && d in Held(old(Footprint(q)), m)
    ensures q == null && !header ==> left == null && d == null
    ensures q != null || header ==>
      Arrival(ListOf(left), ValueOf(d)) == Arrive(old(ListOf(q)), old(m.Value()))
  {
    left, d := q, null;
    m.nextpkt := null;
    if q == null {
      if !header {
        return;
      }
      left := new Queue(m);
    } else {
      var dropped := q.InsertFragment(m);
      if dropped {
        return;
      }
    }
    var complete, total := left.CheckReAssembly();
    if complete {
      d := left.Concatenate(total);
      left := null;
    }
  }
}
