/** The fragmentation part of ip_output, and ip_optcopy. */
module IpOutput {
  import opened CTypes
  import opened Reassembly
  import opened IpInput

  const IPOPT_EOL: Byte := 0
  const IPOPT_NOP: Byte := 1

  /** A datagram ready to be sent: 20 fixed header bytes, options, data. `ipOff` is the raw
      field; the fields that the code reads stand beside the header bytes. */
  datatype Outgoing = Outgoing(key: Key, fixed: seq<Byte>, opts: seq<Byte>, ipOff: U16, data: seq<Byte>) {
    function HeaderLen(): nat { MIN_HEADER + |opts| }
    function Len(): nat { HeaderLen() + |data| }
    function MoreFragments(): bool { (ipOff / IP_MF) % 2 == 1 }
    function ByteOffset(): U16 { (ipOff * 8) % 0x1_0000 }
    predicate DontFragment() { (ipOff / IP_DF) % 2 == 1 }

    ghost predicate Valid() {
      |fixed| == MIN_HEADER && |opts| % 4 == 0 && WellFormed(opts) && Len() < 0x1_0000
    }

    /** The packet on the wire. */
    function Wire(): Packet
      requires Len() < 0x1_0000
    {
      Packet(key, HeaderLen(), Len(), ipOff, fixed + opts + data)
    }
  }

  datatype Sent = Sent(packets: seq<Outgoing>) | MsgSize | NoBufs

  // ---------------------------------------------------------------- options

  predicate Copied(kind: Byte) { kind >= 128 }

  predicate Kept(kind: Byte) { kind == IPOPT_NOP || Copied(kind) }

  /** The length of the option that `o` starts with. */
  function OptLen(o: seq<Byte>): nat
    requires o != []
  {
    if o[0] == IPOPT_NOP then 1 else if |o| > 1 then o[1] else 0
  }

  /** What ip_dooptions lets through: every option's length byte is there, is not zero, and
      does not reach past the options. */
  predicate WellFormed(o: seq<Byte>) {
    o == [] || o[0] == IPOPT_EOL || (1 <= OptLen(o) <= |o| && WellFormed(o[OptLen(o)..]))
  }

  function CopyOptions(o: seq<Byte>): seq<Byte>
    requires WellFormed(o)
  {
    if o == [] || o[0] == IPOPT_EOL then []
    else (if Kept(o[0]) then o[..OptLen(o)] else []) + CopyOptions(o[OptLen(o)..])
  }

  function Lack(n: nat): nat {
    if n % 4 == 0 then 0 else 4 - n % 4
  }

  function Pad4(o: seq<Byte>): (r: seq<Byte>)
    ensures |r| % 4 == 0 && |r| < |o| + 4 && o <= r
    decreases Lack(|o|)
  {
    if |o| % 4 == 0 then o else Pad4(o + [IPOPT_EOL])
  }

  lemma KeepsSum(a: seq<Byte>, b: seq<Byte>, c: seq<Byte>)
    ensures a + (b + c) == (a + b) + c
  {
  }

  method OptCopy(o: seq<Byte>) returns (d: seq<Byte>)
    requires WellFormed(o)
    ensures d == Pad4(CopyOptions(o))
  {
    d := [];
    var cp := o;
    while cp != []
      invariant WellFormed(cp) && CopyOptions(o) == d + CopyOptions(cp)
      decreases |cp|
    {
      var opt, optlen := cp[0], 1;
      if opt == IPOPT_EOL {
        break;
      }
      ghost var d0, kept, all := d, if Kept(opt) then cp[..OptLen(cp)] else [], CopyOptions(cp);
      if opt == IPOPT_NOP {
        d := d + [IPOPT_NOP];
      } else {
        optlen := cp[1];
        if optlen > |cp| {
          optlen := |cp|;
        }
        if Copied(opt) {
          d := d + cp[..optlen];
        }
      }
      cp := cp[optlen..];
      assert d == d0 + kept && all == kept + CopyOptions(cp);
      KeepsSum(d0, kept, CopyOptions(cp));
    }
    assert d + [] == d;
    d := PadTo4(d);
  }

  method PadTo4(o: seq<Byte>) returns (d: seq<Byte>)
    ensures d == Pad4(o)
  {
    d := o;
    while |d| % 4 != 0
      invariant Pad4(d) == Pad4(o)
      decreases Lack(|d|)
    {
      d := d + [IPOPT_EOL];
    }
  }

  /** An option as section 3.1 of RFC 791 writes it; or a stub, an option whose length byte is 1.
      ip_dooptions lets that through, and goes on at the length byte, which is a no-operation. */
  datatype IpOption = Nop | Option(kind: Byte, body: seq<Byte>) | Stub(kind: Byte) {
    ghost predicate Valid() {
      && (!Nop? ==> kind != IPOPT_EOL && kind != IPOPT_NOP)
      && (Option? ==> |body| <= 253)
    }

    ghost function Bytes(): seq<Byte>
      requires Valid()
    {
      match this
      case Nop => [IPOPT_NOP]
      case Option(kind, body) => [kind, |body| + 2] + body
      case Stub(kind) => [kind]
    }

    /** The first bit of an option's type is its copied flag. */
    predicate IsKept() { Nop? || (kind / 128) % 2 == 1 }
  }

  /** Valid options, a no-operation behind every stub. */
  ghost predicate AllOptions(os: seq<IpOption>) {
    os == [] || (os[0].Valid() && (os[0].Stub? ==> |os| > 1 && os[1].Nop?) && AllOptions(os[1..]))
  }

  ghost function Encode(os: seq<IpOption>): seq<Byte>
    requires AllOptions(os)
  {
    if os == [] then [] else os[0].Bytes() + Encode(os[1..])
  }

  /** The options RFC 791 wants in every fragment, and the no-operations between them. */
  ghost function Keep(os: seq<IpOption>): (ks: seq<IpOption>)
    ensures AllOptions(os) ==> AllOptions(ks)
    ensures os != [] && os[0].Nop? ==> ks != [] && ks[0].Nop?
  {
    if os == [] then []
    else if os[0].IsKept() then [os[0]] + Keep(os[1..])
    else Keep(os[1..])
  }

  lemma CopyHead(head: seq<Byte>, rest: seq<Byte>)
    requires head != [] && head[0] != IPOPT_EOL && WellFormed(rest)
    requires OptLen(head + rest) == |head|
    ensures WellFormed(head + rest)
    ensures CopyOptions(head + rest) == (if Kept(head[0]) then head else []) + CopyOptions(rest)
  {
    assert (head + rest)[|head|..] == rest && (head + rest)[..|head|] == head;
  }

  lemma EncodeCons(x: IpOption, xs: seq<IpOption>)
    requires x.Valid() && AllOptions(xs) && (x.Stub? ==> xs != [] && xs[0].Nop?)
    ensures AllOptions([x] + xs) && Encode([x] + xs) == x.Bytes() + Encode(xs)
  {
    assert ([x] + xs)[1..] == xs;
  }

  lemma FirstByte(x: IpOption)
    requires x.Valid()
    ensures x.Bytes() != [] && x.Bytes()[0] != IPOPT_EOL && x.IsKept() == Kept(x.Bytes()[0])
  {
  }

  lemma CopyOne(x: IpOption, rest: seq<Byte>)
    requires x.Valid() && WellFormed(rest) && (x.Stub? ==> rest != [] && rest[0] == IPOPT_NOP)
    ensures WellFormed(x.Bytes() + rest)
    ensures CopyOptions(x.Bytes() + rest) == (if x.IsKept() then x.Bytes() else []) + CopyOptions(rest)
  {
    FirstByte(x);
    assert OptLen(x.Bytes() + rest) == |x.Bytes()|;
    CopyHead(x.Bytes(), rest);
  }

  lemma KeepOne(os: seq<IpOption>)
    requires os != [] && AllOptions(os)
    ensures Encode(Keep(os)) == (if os[0].IsKept() then os[0].Bytes() else []) + Encode(Keep(os[1..]))
  {
    var x, ks := os[0], Keep(os[1..]);
    if x.IsKept() {
      EncodeCons(x, ks);
    } else {
      assert [] + Encode(ks) == Encode(ks);
    }
  }

  /** ip_optcopy keeps exactly the copied options and the no-operations, in order. */
  lemma {:induction false} CopiesExactly(os: seq<IpOption>, tail: seq<Byte>)
    requires AllOptions(os)
    requires tail == [] || tail[0] == IPOPT_EOL
    ensures WellFormed(Encode(os) + tail)
    ensures CopyOptions(Encode(os) + tail) == Encode(Keep(os))
  {
    if os == [] {
      assert [] + tail == tail;
    } else {
      var x, xs := os[0], os[1..];
      CopiesExactly(xs, tail);
      var rest := Encode(xs) + tail;
      if x.Stub? {
        assert Encode(xs)[0] == IPOPT_NOP && rest[0] == IPOPT_NOP;
      }
      CopyOne(x, rest);
      KeepsSum(x.Bytes(), Encode(xs), tail);
      KeepOne(os);
    }
  }

  /** The option that `o` starts with. */
  lemma FirstOption(o: seq<Byte>, n: nat) returns (x: IpOption)
    requires o != [] && o[0] != IPOPT_EOL && WellFormed(o) && n == OptLen(o)
    ensures x.Valid() && x.Bytes() + o[n..] == o && (x.Nop? <==> o[0] == IPOPT_NOP)
    ensures x.Stub? ==> n < |o| && o[n] == IPOPT_NOP
  {
    x := if o[0] == IPOPT_NOP then Nop else if n == 1 then Stub(o[0]) else IpOption.Option(o[0], o[2..n]);
    assert x.Bytes() == o[..n];
  }

  /** Every options block that ip_dooptions lets through is such a list. */
  lemma {:induction false} EveryBlockIsEncoded(o: seq<Byte>) returns (os: seq<IpOption>, tail: seq<Byte>)
    requires WellFormed(o)
    ensures AllOptions(os)
    ensures o == Encode(os) + tail && (tail == [] || tail[0] == IPOPT_EOL)
    ensures o != [] && o[0] == IPOPT_NOP ==> os != [] && os[0].Nop?
  {
    if o == [] || o[0] == IPOPT_EOL {
      os, tail := [], o;
    } else {
      var n := OptLen(o);
      var x := FirstOption(o, n);
      var xs;
      xs, tail := EveryBlockIsEncoded(o[n..]);
      os := [x] + xs;
      EncodeCons(x, xs);
      KeepsSum(x.Bytes(), Encode(xs), tail);
    }
  }

  lemma {:induction false} KeepTwice(os: seq<IpOption>)
    ensures Keep(Keep(os)) == Keep(os)
  {
    if os != [] {
      KeepTwice(os[1..]);
      if os[0].IsKept() {
        assert Keep(os)[1..] == Keep(os[1..]);
      }
    }
  }

  /** The options `os` fill the block `o`, up to its end or an end-of-options byte. */
  ghost predicate Encodes(os: seq<IpOption>, tail: seq<Byte>, o: seq<Byte>) {
    AllOptions(os) && o == Encode(os) + tail && (tail == [] || tail[0] == IPOPT_EOL)
  }

  /** `r` is `o` with end-of-options bytes behind it, to a multiple of 4. */
  ghost predicate FilledUp(r: seq<Byte>, o: seq<Byte>) {
    && |r| % 4 == 0 && |o| <= |r| < |o| + 4 && r[..|o|] == o
    && forall i | |o| <= i < |r| :: r[i] == IPOPT_EOL
  }

  /** The block `r` has what a later fragment is to have of the options in `o`: the copied ones
      and the no-operations, in order, filled up. */
  ghost predicate KeptOptions(r: seq<Byte>, o: seq<Byte>) {
    exists os, tail :: Encodes(os, tail, o) && FilledUp(r, Encode(Keep(os)))
  }

  lemma {:induction false} Pad4FillsUp(o: seq<Byte>)
    ensures FilledUp(Pad4(o), o)
    decreases Lack(|o|)
  {
    if |o| % 4 != 0 {
      Pad4FillsUp(o + [IPOPT_EOL]);
      assert Pad4(o)[..|o| + 1] == o + [IPOPT_EOL];
    }
  }

  lemma CopyIsKept(o: seq<Byte>)
    requires WellFormed(o)
    ensures KeptOptions(Pad4(CopyOptions(o)), o)
  {
    var os, tail := EveryBlockIsEncoded(o);
    CopiesExactly(os, tail);
    Pad4FillsUp(CopyOptions(o));
    assert Encodes(os, tail, o);
  }

  lemma SameCopy(os: seq<IpOption>, tail: seq<Byte>, ks: seq<IpOption>, end: seq<Byte>, o: seq<Byte>)
    requires Encodes(os, tail, o) && Encodes(ks, end, o)
    ensures Encode(Keep(os)) == Encode(Keep(ks))
  {
    CopiesExactly(os, tail);
    CopiesExactly(ks, end);
  }

  lemma FilledUpEncodes(os: seq<IpOption>, r: seq<Byte>)
    requires AllOptions(os) && FilledUp(r, Encode(os))
    ensures Encodes(os, r[|Encode(os)|..], r)
  {
  }

  /** What is kept of kept options is all of them: to copy twice is to copy once. */
  lemma KeptAgain(q: seq<Byte>, p: seq<Byte>, o: seq<Byte>)
    requires KeptOptions(p, o) && KeptOptions(q, p)
    ensures KeptOptions(q, o)
  {
    var os, tail :| Encodes(os, tail, o) && FilledUp(p, Encode(Keep(os)));
    var ks, end :| Encodes(ks, end, p) && FilledUp(q, Encode(Keep(ks)));
    assert FilledUp(q, Encode(Keep(os))) by {
      FilledUpEncodes(Keep(os), p);
      SameCopy(Keep(os), p[|Encode(Keep(os))|..], ks, end, p);
      KeepTwice(os);
    }
  }

  lemma {:induction false} CopyIsNoLonger(o: seq<Byte>)
    requires WellFormed(o)
    ensures |CopyOptions(o)| <= |o|
  {
    if o != [] && o[0] != IPOPT_EOL {
      CopyIsNoLonger(o[OptLen(o)..]);
    }
  }

  /** What CopyOptions makes of the first option. */
  lemma CopyFirst(o: seq<Byte>)
    requires WellFormed(o) && o != [] && o[0] != IPOPT_EOL
    ensures var n := OptLen(o);
      && 1 <= n <= |o| && WellFormed(o[n..])
      && CopyOptions(o) == (if Kept(o[0]) then o[..n] else []) + CopyOptions(o[n..])
      && (o[0] == IPOPT_NOP ==> CopyOptions(o) != [] && CopyOptions(o)[0] == IPOPT_NOP)
  {
  }

  /** Behind an option whose length byte is 1, that byte itself is parsed, as a no-operation. */
  lemma StubIsFollowed(o: seq<Byte>)
    requires WellFormed(o) && o != [] && o[0] != IPOPT_EOL && o[0] != IPOPT_NOP && OptLen(o) == 1
    ensures |o| > 1 && o[1] == IPOPT_NOP
    ensures CopyOptions(o[1..]) != [] && CopyOptions(o[1..])[0] == IPOPT_NOP
  {
    CopyFirst(o);
    CopyFirst(o[1..]);
  }

  lemma HeadLength(o: seq<Byte>, n: nat, rest: seq<Byte>)
    requires o != [] && o[0] != IPOPT_EOL && 1 <= n == OptLen(o) <= |o|
    requires n == 1 && o[0] != IPOPT_NOP ==> rest != [] && rest[0] == 1
    ensures OptLen(o[..n] + rest) == n
  {
  }

  /** A fragment's options can be copied again: the result is well formed too. */
  lemma {:induction false} CopyIsWellFormed(o: seq<Byte>, pad: seq<Byte>)
    requires WellFormed(o) && (pad == [] || pad[0] == IPOPT_EOL)
    ensures WellFormed(CopyOptions(o) + pad)
  {
    if o == [] || o[0] == IPOPT_EOL {
      assert [] + pad == pad;
    } else {
      var n := OptLen(o);
      CopyFirst(o);
      CopyIsWellFormed(o[n..], pad);
      var kept := CopyOptions(o[n..]);
      if Kept(o[0]) {
        if n == 1 && o[0] != IPOPT_NOP {
          StubIsFollowed(o);
        }
        HeadLength(o, n, kept + pad);
        CopyHead(o[..n], kept + pad);
        KeepsSum(o[..n], kept, pad);
      } else {
        assert [] + kept == kept;
      }
    }
  }

  // ---------------------------------------------------------------- fragmentation

  function OrMF(x: U16): U16 {
    if (x / IP_MF) % 2 == 1 then x else x + IP_MF
  }

  function ClearMF(x: U16): U16 {
    if (x / IP_MF) % 2 == 1 then x - IP_MF else x
  }

  /** The fragment for data bytes `at` to `at + n`, not the first. */
  function Piece(o: Outgoing, at: nat, n: nat): Outgoing
    requires at + n <= |o.data| && WellFormed(o.opts)
  {
    var off := (at / 8 + ClearMF(o.ipOff)) % 0x1_0000;
    o.(opts := if o.opts == [] then [] else Pad4(CopyOptions(o.opts)),
       ipOff := if o.MoreFragments() || at + n < |o.data| then OrMF(off) else off,
       data := o.data[at..at + n])
  }

  function LaterPieces(o: Outgoing, at: nat, len: nat): seq<Outgoing>
    requires len > 0 && WellFormed(o.opts)
    decreases |o.data| - at
  {
    if at >= |o.data| then []
    else [Piece(o, at, if at + len >= |o.data| then |o.data| - at else len)] + LaterPieces(o, at + len, len)
  }

  /** The first fragment: what is left once the others are copied out. */
  function FirstPiece(o: Outgoing, len: nat): Outgoing
    requires len <= |o.data|
  {
    o.(ipOff := OrMF(o.ipOff), data := o.data[..len])
  }

  /** `(if_mtu - hlen) &~ 7` */
  function PieceLen(o: Outgoing, mtu: nat): int {
    (mtu - o.HeaderLen()) / 8 * 8
  }

  function Transmit(o: Outgoing, mtu: nat): Sent
    requires WellFormed(o.opts)
  {
    if o.Len() <= mtu then Sent.Sent([o])
    else if o.DontFragment() || PieceLen(o, mtu) < 8 then MsgSize
    else Sent.Sent([FirstPiece(o, PieceLen(o, mtu))] + LaterPieces(o, PieceLen(o, mtu), PieceLen(o, mtu)))
  }

  lemma OrMFTwice(x: U16)
    ensures OrMF(OrMF(x)) == OrMF(x)
  {
  }

  /** The loop's body: one later fragment, and its length, which the last one shortens. */
  method BuildPiece(o: Outgoing, off: nat, len: nat) returns (m: Outgoing, n: nat)
    requires o.Valid() && o.HeaderLen() <= off < o.Len()
    ensures n == if off + len >= o.Len() then o.Len() - off else len
    ensures m == Piece(o, off - o.HeaderLen(), n)
  {
    var hlen, opts := o.HeaderLen(), [];
    if hlen > MIN_HEADER {
      opts := OptCopy(o.opts);
    }
    var ipOff := ((off - hlen) / 8 + ClearMF(o.ipOff)) % 0x1_0000;
    OrMFTwice(ipOff);
    n := len;
    if o.MoreFragments() {
      ipOff := OrMF(ipOff);
    }
    if off + len >= o.Len() {
      n := o.Len() - off;
    } else {
      ipOff := OrMF(ipOff);
    }
    m := o.(opts := opts, ipOff := ipOff, data := o.data[off - hlen..off - hlen + n]);
  }

  /** The pieces from `at` on: the first of them, and the others. */
  lemma LaterPiecesNext(o: Outgoing, at: nat, len: nat)
    requires len > 0 && WellFormed(o.opts)
    ensures at >= |o.data| ==> LaterPieces(o, at, len) == []
    ensures at < |o.data| ==>
      LaterPieces(o, at, len)
      == [Piece(o, at, if at + len >= |o.data| then |o.data| - at else len)] + LaterPieces(o, at + len, len)
  {
  }

  /** Of the pieces `all`, `chain` is built and those from `at` on are not. */
  ghost predicate Building(all: seq<Outgoing>, o: Outgoing, len: nat, chain: seq<Outgoing>, at: nat)
    requires len > 0 && WellFormed(o.opts)
  {
    all == chain + LaterPieces(o, at, len)
  }

  lemma BuildingGoesOn(all: seq<Outgoing>, o: Outgoing, len: nat, chain: seq<Outgoing>, at: nat, m: Outgoing, n: nat)
    requires len > 0 && WellFormed(o.opts) && Building(all, o, len, chain, at) && at < |o.data|
    requires n == (if at + len >= |o.data| then |o.data| - at else len) && m == Piece(o, at, n)
    ensures Building(all, o, len, chain + [m], at + len)
  {
    LaterPiecesNext(o, at, len);
    var rest := LaterPieces(o, at + len, len);
    assert chain + ([m] + rest) == chain + [m] + rest;
  }

  lemma BuildingLeft(all: seq<Outgoing>, o: Outgoing, len: nat, chain: seq<Outgoing>, at: nat)
    requires len > 0 && WellFormed(o.opts) && Building(all, o, len, chain, at)
    ensures at < |o.data| ==> |all| > |chain|
    ensures at >= |o.data| ==> all == chain
  {
    LaterPiecesNext(o, at, len);
    assert chain + [] == chain;
  }

  /** The loop stands at byte `off` of the datagram. */
  ghost predicate Progress(all: seq<Outgoing>, o: Outgoing, len: nat, chain: seq<Outgoing>, off: nat) {
    len > 0 && o.Valid() && off >= o.HeaderLen() && Building(all, o, len, chain, off - o.HeaderLen())
  }

  lemma ProgressStarts(all: seq<Outgoing>, o: Outgoing, len: nat)
    requires len > 0 && o.Valid() && all == LaterPieces(o, len, len)
    ensures Progress(all, o, len, [], o.HeaderLen() + len)
  {
    assert [] + all == all;
  }

  lemma ProgressLeft(all: seq<Outgoing>, o: Outgoing, len: nat, chain: seq<Outgoing>, off: nat)
    requires Progress(all, o, len, chain, off)
    ensures if off < o.Len() then |all| > |chain| else all == chain
  {
    BuildingLeft(all, o, len, chain, off - o.HeaderLen());
  }

  /** One round of the loop. */
  method NextPiece(o: Outgoing, off: nat, len: nat, ghost all: seq<Outgoing>, ghost chain: seq<Outgoing>)
    returns (m: Outgoing)
    requires Progress(all, o, len, chain, off) && off < o.Len()
    ensures Progress(all, o, len, chain + [m], off + len)
  {
    var n;
    m, n := BuildPiece(o, off, len);
    BuildingGoesOn(all, o, len, chain, off - o.HeaderLen(), m, n);
  }

  /** The loop: `mbufs` headers can be had, and m_copy fails after `copies` times. */
  method BuildPieces(o: Outgoing, firstlen: nat, mbufs: nat, copies: nat) returns (ok: bool, chain: seq<Outgoing>)
    requires o.Valid() && firstlen > 0
    ensures ok <==> |LaterPieces(o, firstlen, firstlen)| <= mbufs && |LaterPieces(o, firstlen, firstlen)| <= copies
    ensures ok ==> chain == LaterPieces(o, firstlen, firstlen)
  {
    chain := [];
    ghost var all := LaterPieces(o, firstlen, firstlen);
    var off := o.HeaderLen() + firstlen;
    ProgressStarts(all, o, firstlen);
    while off < o.Len()
      invariant |chain| <= mbufs && |chain| <= copies && Progress(all, o, firstlen, chain, off)
      decreases o.Len() - off
    {
      ProgressLeft(all, o, firstlen, chain, off);
      if |chain| == mbufs {
        return false, chain;
      }
      var m := NextPiece(o, off, firstlen, all, chain);
      if |chain| == copies {
        return false, chain;
      }
      chain := chain + [m];
      off := off + firstlen;
    }
    ProgressLeft(all, o, firstlen, chain, off);
    ok := true;
  }

  /** From sendit: to bad or sendorfree. When the mbufs run out or a copy fails, every
      fragment built so far is freed and nothing is sent. */
  method Send(o: Outgoing, mtu: nat, mbufs: nat, copies: nat) returns (r: Sent)
    requires o.Valid()
    ensures var out := Transmit(o, mtu);
      r == if out.Sent? && (|out.packets| > mbufs + 1 || |out.packets| > copies + 1) then NoBufs else out
  {
    if o.Len() <= mtu {
      return Sent.Sent([o]);
    }
    if o.DontFragment() {
      return MsgSize;
    }
    var len := (mtu - o.HeaderLen()) / 8 * 8;
    if len < 8 {
      return MsgSize;
    }
    var ok, chain := BuildPieces(o, len, mbufs, copies);
    r := if ok then Sent.Sent([FirstPiece(o, len)] + chain) else NoBufs;
  }

  // ---------------------------------------------------------------- what the fragments are

  /** The header of a part of `o`: all its options in the first one, the kept ones in the others. */
  ghost predicate HeaderOf(p: Outgoing, o: Outgoing, first: bool) {
    p.key == o.key && p.fixed == o.fixed && if first then p.opts == o.opts else KeptOptions(p.opts, o.opts)
  }

  /** `p` is a valid packet of `o`, with its header, and with its data from `at` on at their offset,
      that fits the MTU and may be fragmented; `more` says whether others follow, and then its data
      are whole eights, as many as fit behind the header of `o`. */
  ghost predicate InPlace(p: Outgoing, o: Outgoing, at: nat, more: bool, mtu: nat) {
    && p.Valid() && HeaderOf(p, o, at == 0) && p.Len() <= mtu && !p.DontFragment()
    && |p.data| > 0 && at + |p.data| <= |o.data| && p.data == o.data[at..at + |p.data|]
    && p.ByteOffset() == o.ByteOffset() + at
    && Continued(p, o, more, mtu)
  }

  ghost predicate Continued(p: Outgoing, o: Outgoing, more: bool, mtu: nat) {
    && p.MoreFragments() == (more || o.MoreFragments())
    && (more ==> |p.data| % 8 == 0 && mtu - 8 < o.HeaderLen() + |p.data| <= mtu)
  }

  /** `ps` are the datagram `o` cut up from data byte `at` on: contiguous, every one but the
      last a multiple of 8 bytes with more fragments to come, the last one ending the data and
      marked as `o` was; each fits the MTU and can itself be sent on. */
  ghost predicate Partitions(ps: seq<Outgoing>, o: Outgoing, at: nat, mtu: nat) {
    if ps == [] then at == |o.data|
    else InPlace(ps[0], o, at, |ps| > 1, mtu) && Partitions(ps[1..], o, at + |ps[0].data|, mtu)
  }

  lemma PartitionsCons(p: Outgoing, ps: seq<Outgoing>, o: Outgoing, at: nat, n: nat, mtu: nat)
    requires InPlace(p, o, at, ps != [], mtu) && |p.data| == n && Partitions(ps, o, at + n, mtu)
    ensures Partitions([p] + ps, o, at, mtu)
  {
    var all := [p] + ps;
    assert all[0] == p && all[1..] == ps && (|all| > 1 <==> ps != []);
    assert Continued(p, o, |all| > 1, mtu);
  }

  lemma FieldParts(x: U16, u: nat, f: nat)
    requires x == 0x2000 * f + u && u < 0x2000
    ensures (x * 8) % 0x1_0000 == 8 * u && (x / IP_MF) % 2 == f % 2 && (x / IP_DF) % 2 == (f / 2) % 2
  {
    assert x * 8 == 0x1_0000 * f + 8 * u;
    assert x / 0x2000 == f && x / 0x4000 == f / 2;
  }

  /** Adding `k` 8-byte units to the field `x`, flags and all. */
  lemma FieldArithmetic(x: U16, k: nat)
    ensures var y := (k + ClearMF(x)) % 0x1_0000;
      && ((y * 8) % 0x1_0000 == (x * 8) % 0x1_0000 + 8 * k <==> (x * 8) % 0x1_0000 + 8 * k < 0x1_0000)
      && ((x * 8) % 0x1_0000 + 8 * k < 0x1_0000 ==>
            (y / IP_MF) % 2 == 0 && (y / IP_DF) % 2 == (x / IP_DF) % 2)
  {
    var u, f := x % 0x2000, x / 0x2000;
    FieldParts(x, u, f);
    var g := f - f % 2;
    assert ClearMF(x) == 0x2000 * g + u;
    if u + k < 0x2000 {
      FieldParts(k + ClearMF(x), u + k, g);
      assert g % 2 == 0 && g / 2 == f / 2;
    }
  }

  lemma OrMFKeepsOffset(x: U16)
    ensures (OrMF(x) * 8) % 0x1_0000 == (x * 8) % 0x1_0000
    ensures (OrMF(x) / IP_MF) % 2 == 1 && (OrMF(x) / IP_DF) % 2 == (x / IP_DF) % 2
  {
  }

  /** The offset field carries a fragment's place exactly while it stays below 65536. */
  lemma OffsetIsExact(o: Outgoing, at: nat, n: nat)
    requires WellFormed(o.opts) && at % 8 == 0 && at + n <= |o.data|
    ensures Piece(o, at, n).ByteOffset() == o.ByteOffset() + at <==> o.ByteOffset() + at < 0x1_0000
    ensures o.ByteOffset() + at < 0x1_0000 ==>
      && Piece(o, at, n).MoreFragments() == (o.MoreFragments() || at + n < |o.data|)
      && Piece(o, at, n).DontFragment() == o.DontFragment()
  {
    FieldArithmetic(o.ipOff, at / 8);
    OrMFKeepsOffset((at / 8 + ClearMF(o.ipOff)) % 0x1_0000);
  }

  /** ip_optcopy's result fits where the options were and can be copied again. */
  lemma CopyFits(o: seq<Byte>)
    requires WellFormed(o) && |o| % 4 == 0
    ensures WellFormed(Pad4(CopyOptions(o))) && |Pad4(CopyOptions(o))| <= |o|
  {
    var copy := CopyOptions(o);
    CopyIsNoLonger(o);
    var pad := Pad4(copy)[|copy|..];
    assert Pad4(copy) == copy + pad;
    PadIsEol(copy);
    CopyIsWellFormed(o, pad);
  }

  lemma PieceIsValid(o: Outgoing, at: nat, n: nat)
    requires o.Valid() && at + n <= |o.data|
    ensures Piece(o, at, n).Valid() && Piece(o, at, n).HeaderLen() <= o.HeaderLen()
  {
    CopyFits(o.opts);
  }

  lemma {:induction false} PadIsEol(o: seq<Byte>)
    ensures |Pad4(o)| > |o| ==> Pad4(o)[|o|] == IPOPT_EOL
    decreases Lack(|o|)
  {
    if |o| % 4 != 0 {
      assert (o + [IPOPT_EOL])[|o|] == IPOPT_EOL;
      assert o + [IPOPT_EOL] <= Pad4(o + [IPOPT_EOL]);
    }
  }

  /** The datagram may be cut into pieces of `len` bytes. */
  ghost predicate Divisible(o: Outgoing, len: nat, mtu: nat) {
    && len > mtu - o.HeaderLen() - 8
    && o.Valid() && !o.DontFragment() && o.ByteOffset() + |o.data| < 0x1_0000
    && len % 8 == 0 && 0 < len <= mtu - o.HeaderLen()
  }

  lemma PieceHeader(o: Outgoing, at: nat, n: nat)
    requires o.Valid() && at + n <= |o.data|
    ensures HeaderOf(Piece(o, at, n), o, false)
  {
    CopyIsKept(o.opts);
  }

  /** One later piece, of `n` bytes, is in place. */
  lemma PieceInPlace(o: Outgoing, at: nat, n: nat, len: nat, mtu: nat)
    requires Divisible(o, len, mtu) && at % 8 == 0 && 0 < at && 0 < n <= len && at + n <= |o.data|
    requires at + n < |o.data| ==> n == len
    ensures InPlace(Piece(o, at, n), o, at, at + n < |o.data|, mtu) && |Piece(o, at, n).data| == n
  {
    OffsetIsExact(o, at, n);
    PieceIsValid(o, at, n);
    PieceHeader(o, at, n);
  }

  lemma {:induction false} LaterPiecesPartition(o: Outgoing, at: nat, len: nat, mtu: nat)
    requires Divisible(o, len, mtu) && at % 8 == 0 && at > 0
    ensures Partitions(LaterPieces(o, at, len), o, if at < |o.data| then at else |o.data|, mtu)
    ensures LaterPieces(o, at, len) != [] <==> at < |o.data|
    decreases |o.data| - at
  {
    LaterPiecesNext(o, at, len);
    if at < |o.data| {
      EightsAdd(at, len);
      LaterPiecesPartition(o, at + len, len, mtu);
      var n := if at + len >= |o.data| then |o.data| - at else len;
      PieceInPlace(o, at, n, len, mtu);
      PartitionsCons(Piece(o, at, n), LaterPieces(o, at + len, len), o, at, n, mtu);
    }
  }

  lemma EightsAdd(x: nat, y: nat)
    requires x % 8 == 0 && y % 8 == 0
    ensures (x + y) % 8 == 0
  {
  }

  /** When ip_output refuses a datagram: it is too long for the MTU and may not be fragmented, or
      the MTU leaves no room for 8 data bytes behind its header. Every other is sent. */
  lemma SentUnlessTooBig(o: Outgoing, mtu: nat)
    requires o.Valid()
    ensures Transmit(o, mtu).MsgSize? <==> o.Len() > mtu && (o.DontFragment() || mtu < o.HeaderLen() + 8)
    ensures !Transmit(o, mtu).MsgSize? ==> Transmit(o, mtu).Sent? && Transmit(o, mtu).packets != []
  {
    var room := mtu - o.HeaderLen();
    assert room == room / 8 * 8 + room % 8;
  }

  /** Whatever ip_output sends is a partition of the datagram. (A datagram whose data end
      below 65536, as every datagram's must.) */
  lemma OutputPartitions(o: Outgoing, mtu: nat)
    requires o.Valid() && |o.data| > 0 && Transmit(o, mtu).Sent?
    requires o.ByteOffset() + |o.data| < 0x1_0000
    ensures o.Len() <= mtu ==> Transmit(o, mtu).packets == [o]
    ensures o.Len() > mtu ==> Partitions(Transmit(o, mtu).packets, o, 0, mtu)
  {
    if o.Len() > mtu {
      var len := PieceLen(o, mtu);
      var first := FirstPiece(o, len);
      OrMFKeepsOffset(o.ipOff);
      LaterPiecesPartition(o, len, len, mtu);
      PartitionsCons(first, LaterPieces(o, len, len), o, 0, len, mtu);
    }
  }
}
