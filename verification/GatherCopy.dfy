/** copyFromMbufs: gathering an mbuf chain into an I/O buffer that takes only whole, aligned units
    of 2 or 4 bytes. */
module GatherCopy {
  import opened CTypes

  const NONE := -1

  /** A buffer of the chain: its bytes, and what lies in memory behind them. */
  datatype Mbuf = Mbuf(data: seq<Byte>, behind: seq<Byte>)

  /** Unit-wise reading may run up to three bytes past the data. */
  ghost predicate Readable(chain: seq<Mbuf>) {
    forall i | 0 <= i < |chain| :: |chain[i].behind| >= 3
  }

  function Memory(m: Mbuf): seq<Byte> { m.data + m.behind }

  function Concat(chain: seq<Mbuf>): seq<Byte> {
    if chain == [] then [] else chain[0].data + Concat(chain[1..])
  }

  /** What `n` exceeds a multiple of `w` by, as `n & (w - 1)` tells even of a negative `n`. */
  function Rem(n: int, w: nat): (r: nat)
    requires w in {1, 2, 4}
    ensures r < w
  {
    if w == 4 then n % 4 else if w == 2 then n % 2 else 0
  }

  /** The least multiple of `w` that is at least `n`. */
  function RoundUp(n: int, w: nat): (r: int)
    requires w in {1, 2, 4}
    ensures n <= r < n + w && Rem(r, w) == 0
  {
    if w == 4 then (n + 3) / 4 * 4 else if w == 2 then (n + 1) / 2 * 2 else n
  }

  lemma RoundUpGrows(m: int, n: int, w: nat)
    requires m <= n && w in {1, 2, 4}
    ensures RoundUp(m, w) <= RoundUp(n, w)
  {
    if w == 4 {
      QuartersGrow(m + 3, n + 3);
    } else if w == 2 {
      HalvesGrow(m + 1, n + 1);
    }
  }

  lemma QuartersGrow(m: int, n: int)
    requires m <= n
    ensures m / 4 <= n / 4
  {
  }

  lemma HalvesGrow(m: int, n: int)
    requires m <= n
    ensures m / 2 <= n / 2
  {
  }

  lemma {:induction false} ConcatAppend(chain: seq<Mbuf>, m: Mbuf)
    ensures Concat(chain + [m]) == Concat(chain) + m.data
  {
    if chain == [] {
      assert [m][1..] == [] && chain + [m] == [m];
    } else {
      ConcatAppend(chain[1..], m);
      assert (chain + [m])[1..] == chain[1..] + [m];
    }
  }

  lemma {:induction false} ConcatPrefix(chain: seq<Mbuf>, i: nat)
    requires i <= |chain|
    ensures |Concat(chain[..i])| <= |Concat(chain)|
    decreases |chain| - i
  {
    if i == |chain| {
      assert chain[..i] == chain;
    } else {
      ConcatAppend(chain[..i], chain[i]);
      assert chain[..i] + [chain[i]] == chain[..i + 1];
      ConcatPrefix(chain, i + 1);
    }
  }

  /** `s` with the bytes `t` stored at `at`. */
  function Splice(s: seq<Byte>, at: nat, t: seq<Byte>): (r: seq<Byte>)
    requires at + |t| <= |s|
    ensures |r| == |s|
  {
    s[..at] + t + s[at + |t|..]
  }

  /** Stores one unit; the device takes it only at an aligned place. */
  method Store(buf: array<Byte>, at: nat, unit: seq<Byte>)
    requires |unit| in {1, 2, 4} && Rem(at, |unit|) == 0 && at + |unit| <= buf.Length
    modifies buf
    ensures buf[..] == Splice(old(buf[..]), at, unit)
  {
    ghost var was := buf[..];
    var k := 0;
    while k < |unit|
      invariant k <= |unit|
      invariant buf[..] == Splice(was, at, unit[..k])
    {
      SpliceOne(was, at, unit, k);
      ghost var now := buf[..];
      buf[at + k] := unit[k];
      assert buf[..] == now[at + k := unit[k]];
      k := k + 1;
    }
    assert unit[..|unit|] == unit;
  }

  lemma SpliceOne(s: seq<Byte>, at: nat, t: seq<Byte>, k: nat)
    requires k < |t| && at + |t| <= |s|
    ensures Splice(s, at, t[..k])[at + k := t[k]] == Splice(s, at, t[..k + 1])
  {
    assert t[..k + 1] == t[..k] + [t[k]];
  }

  lemma SpliceOn(s: seq<Byte>, at: nat, src: seq<Byte>, k: nat, w: nat)
    requires k + w <= |src| && at + k + w <= |s|
    ensures Splice(Splice(s, at, src[..k]), at + k, src[k..k + w]) == Splice(s, at, src[..k + w])
  {
    assert src[..k + w] == src[..k] + src[k..k + w];
  }

  lemma NextUnit(at: nat, k: nat, len: nat, w: nat)
    requires w in {1, 2, 4} && Rem(at, w) == 0 && Rem(k, w) == 0 && Rem(len, w) == 0 && k < len
    ensures k + w <= len && Rem(k + w, w) == 0 && Rem(at + k, w) == 0
  {
  }

  /** bcopyBytes, bcopyWords and bcopyLongs: `len` bytes, in whole units of `w`. */
  method CopyUnits(src: seq<Byte>, buf: array<Byte>, at: nat, len: nat, w: nat)
    requires w in {1, 2, 4} && Rem(at, w) == 0 && Rem(len, w) == 0 && at + len <= buf.Length && len <= |src|
    modifies buf
    ensures buf[..] == Splice(old(buf[..]), at, src[..len])
  {
    ghost var was := buf[..];
    var k := 0;
    while k < len
      invariant k <= len && Rem(k, w) == 0
      invariant buf[..] == Splice(was, at, src[..k])
    {
      NextUnit(at, k, len, w);
      Store(buf, at + k, src[k..k + w]);
      SpliceOn(was, at, src, k, w);
      k := k + w;
    }
  }

  /** Fills the bytes of a unit from place `odd` on. */
  method FillTemp(unit: seq<Byte>, odd: nat, src: seq<Byte>) returns (temp: seq<Byte>)
    requires odd <= |unit| <= odd + |src|
    ensures temp == unit[..odd] + src[..|unit| - odd]
  {
    temp := unit;
    var ix := odd;
    while ix < |unit|
      invariant odd <= ix <= |unit|
      invariant temp == unit[..odd] + src[..ix - odd] + unit[ix..]
    {
      temp := temp[ix := src[ix - odd]];
      ix := ix + 1;
    }
  }

  lemma SpliceAfter(s: seq<Byte>, at: nat, kept: nat, t: seq<Byte>)
    requires at + kept + |t| <= |s|
    ensures Splice(s, at, s[at..at + kept] + t) == Splice(s, at + kept, t)
  {
    assert s[..at] + s[at..at + kept] == s[..at + kept];
  }

  lemma UnitOf(n: nat, w: nat)
    requires w in {2, 4} && Rem(n, w) > 0
    ensures n >= Rem(n, w) && Rem(n - Rem(n, w), w) == 0 && n - Rem(n, w) + w == RoundUp(n, w)
  {
  }

  /** Fills up the unit that holds the last `odd` bytes of the buffer so far from the next mbuf,
      and if that is too short from what lies behind it. */
  method FillUnit(buf: array<Byte>, pBuf: nat, odd: nat, m: Mbuf, w: nat)
    requires w in {2, 4} && 0 < odd == Rem(pBuf, w) && |m.behind| >= 3 && RoundUp(pBuf, w) <= buf.Length
    modifies buf
    ensures pBuf + (w - odd) == RoundUp(pBuf, w)
    ensures buf[..] == Splice(old(buf[..]), pBuf, Memory(m)[..w - odd])
  {
    UnitOf(pBuf, w);
    var p := pBuf - odd;
    var temp := FillTemp(buf[p..p + w], odd, Memory(m));
    SpliceAfter(buf[..], p, odd, Memory(m)[..w - odd]);
    assert temp == buf[..][p..p + odd] + Memory(m)[..w - odd];
    Store(buf, p, temp);
  }

  /** Counting from an aligned place. */
  lemma FromAligned(at: nat, n: int, w: nat)
    requires w in {2, 4} && Rem(at, w) == 0
    ensures Rem(at + n, w) == Rem(n, w) && RoundUp(at + n, w) == at + RoundUp(n, w)
  {
    if w == 2 {
      ByTwo(at / 2, n);
    } else {
      ByFour(at / 4, n);
    }
  }

  lemma ByTwo(q: int, n: int)
    ensures (2 * q + n) % 2 == n % 2 && (2 * q + n + 1) / 2 == q + (n + 1) / 2
  {
  }

  lemma ByFour(q: int, n: int)
    ensures (4 * q + n) % 4 == n % 4 && (4 * q + n + 3) / 4 == q + (n + 3) / 4
  {
  }

  lemma NoneLeft(n: int, w: nat)
    requires w in {2, 4} && 0 < n + w
    ensures RoundUp(n, w) >= 0
  {
  }

  lemma UnitsLeft(pBuf: nat, used: nat, len: nat, w: nat)
    requires w in {2, 4} && used < w && Rem(pBuf + used, w) == 0
    ensures var c := RoundUp(len - used, w);
      && 0 <= c && pBuf + used + c == RoundUp(pBuf + len, w)
      && len <= used + c <= len + 3 && Rem(len - used, w) == Rem(pBuf + len, w)
  {
    FromAligned(pBuf + used, len - used, w);
    NoneLeft(len - used, w);
  }

  /** Takes one mbuf: what is in the buffer then ends with its data. */
  method CopyMbuf(buf: array<Byte>, pBuf: nat, odd: nat, m: Mbuf, w: nat) returns (next: nat, odd': nat)
    requires w in {2, 4} && odd == Rem(pBuf, w) && |m.behind| >= 3
    requires RoundUp(pBuf + |m.data|, w) <= buf.Length
    modifies buf
    ensures next == pBuf + |m.data| && odd' == Rem(next, w)
    ensures buf[..next] == old(buf[..pBuf]) + m.data
    ensures buf[RoundUp(next, w)..] == old(buf[RoundUp(next, w)..])
  {
    ghost var was := buf[..];
    RoundUpGrows(pBuf, pBuf + |m.data|, w);
    var used := 0;
    if odd > 0 {
      FillUnit(buf, pBuf, odd, m, w);
      used := w - odd;
    }
    next, odd' := CopyRest(buf, pBuf, used, m, w, was);
  }

  /** Copies what is left of the mbuf in whole units; `adjLen` is negative if the mbuf was too short
      to fill up the unit before. */
  method CopyRest(buf: array<Byte>, pBuf: nat, used: nat, m: Mbuf, w: nat, ghost was: seq<Byte>)
    returns (next: nat, odd': nat)
    requires w in {2, 4} && used < w && Rem(pBuf + used, w) == 0 && |m.behind| >= 3
    requires pBuf + used <= buf.Length && RoundUp(pBuf + |m.data|, w) <= buf.Length == |was|
    requires buf[..] == Splice(was, pBuf, Memory(m)[..used])
    modifies buf
    ensures next == pBuf + |m.data| && odd' == Rem(next, w)
    ensures buf[..next] == was[..pBuf] + m.data
    ensures buf[RoundUp(next, w)..] == was[RoundUp(next, w)..]
  {
    var adjLen := |m.data| - used;
    var c := RoundUp(adjLen, w);
    UnitsLeft(pBuf, used, |m.data|, w);
    odd' := Rem(adjLen, w);
    next := pBuf + used + adjLen;
    ghost var end := RoundUp(next, w);
    CopyTail(m, buf, pBuf, used, c, w, was, next, end);
  }

  method CopyTail(m: Mbuf, buf: array<Byte>, pBuf: nat, used: nat, c: nat, w: nat,
                  ghost was: seq<Byte>, ghost next: nat, ghost end: nat)
    requires w in {2, 4} && Rem(pBuf + used, w) == 0 && Rem(c, w) == 0
    requires next == pBuf + |m.data| <= end == pBuf + used + c <= buf.Length == |was| && used + c <= |Memory(m)|
    requires buf[..] == Splice(was, pBuf, Memory(m)[..used])
    modifies buf
    ensures buf[..next] == was[..pBuf] + m.data
    ensures buf[end..] == was[end..]
  {
    var src := Memory(m);
    CopyUnits(src[used..], buf, pBuf + used, c, w);
    assert src[used..][..c] == src[used..used + c];
    SpliceOn(was, pBuf, src, used, c);
    Gathered(was, buf[..], pBuf, used, c, m);
  }

  lemma Gathered(was: seq<Byte>, now: seq<Byte>, pBuf: nat, used: nat, c: nat, m: Mbuf)
    requires |m.data| <= used + c <= |Memory(m)| && pBuf + used + c <= |was|
    requires now == Splice(was, pBuf, Memory(m)[..used + c])
    ensures now[..pBuf + |m.data|] == was[..pBuf] + m.data
    ensures now[pBuf + used + c..] == was[pBuf + used + c..]
  {
    assert Memory(m)[..used + c][..|m.data|] == m.data;
  }

  /** copyFromMbufs: for every width the buffer ends up holding the plain concatenation, and its
      length is returned. Nothing is written beyond the unit that holds the last byte. */
  method CopyFromMbufs(buf: array<Byte>, chain: seq<Mbuf>, width: int) returns (n: nat)
    requires Readable(chain)
    requires width in {1, 2, 4} ==> RoundUp(|Concat(chain)|, width) <= buf.Length
    requires width == NONE ==> |Concat(chain)| <= buf.Length
    modifies buf
    ensures width in {NONE, 1, 2, 4} ==> n == |Concat(chain)| && n <= buf.Length && buf[..n] == Concat(chain)
    ensures width in {1, 2, 4} ==> RoundUp(n, width) <= buf.Length && buf[RoundUp(n, width)..] == old(buf[RoundUp(n, width)..])
    ensures width !in {NONE, 1, 2, 4} ==> n == 0 && buf[..] == old(buf[..])
  {
    n := 0;
    if width == NONE || width == 1 {
      n := CopyPlain(buf, chain);
    } else if width == 2 || width == 4 {
      n := CopyUnitwise(buf, chain, width);
    }
  }

  method CopyPlain(buf: array<Byte>, chain: seq<Mbuf>) returns (pBuf: nat)
    requires |Concat(chain)| <= buf.Length
    modifies buf
    ensures pBuf == |Concat(chain)| && buf[..pBuf] == Concat(chain) && buf[pBuf..] == old(buf[pBuf..])
  {
    pBuf := 0;
    var i := 0;
    assert chain[..0] == [];
    while i < |chain|
      invariant i <= |chain| && pBuf == |Concat(chain[..i])| <= |Concat(chain)|
      invariant buf[..pBuf] == Concat(chain[..i]) && buf[pBuf..] == old(buf[pBuf..])
    {
      ConcatNext(chain, i);
      ghost var was := buf[..];
      CopyUnits(chain[i].data, buf, pBuf, |chain[i].data|, 1);
      assert buf[..pBuf + |chain[i].data|] == was[..pBuf] + chain[i].data;
      pBuf := pBuf + |chain[i].data|;
      i := i + 1;
    }
    assert chain[..|chain|] == chain;
  }

  lemma ConcatNext(chain: seq<Mbuf>, i: nat)
    requires i < |chain|
    ensures Concat(chain[..i + 1]) == Concat(chain[..i]) + chain[i].data
    ensures |Concat(chain[..i + 1])| <= |Concat(chain)|
  {
    ConcatAppend(chain[..i], chain[i]);
    assert chain[..i] + [chain[i]] == chain[..i + 1];
    ConcatPrefix(chain, i + 1);
  }

  lemma UnitsNext(chain: seq<Mbuf>, i: nat, w: nat)
    requires i < |chain| && w in {2, 4}
    ensures var pBuf, next := |Concat(chain[..i])|, |Concat(chain[..i])| + |chain[i].data|;
      && Concat(chain[..i + 1]) == Concat(chain[..i]) + chain[i].data
      && next <= |Concat(chain)|
      && RoundUp(pBuf, w) <= RoundUp(next, w) <= RoundUp(|Concat(chain)|, w)
  {
    ConcatNext(chain, i);
    RoundUpGrows(|Concat(chain[..i])|, |Concat(chain[..i + 1])|, w);
    RoundUpGrows(|Concat(chain[..i + 1])|, |Concat(chain)|, w);
  }

  lemma TailOfTail(s: seq<Byte>, t: seq<Byte>, a: nat, b: nat)
    requires |s| == |t| && a <= b <= |s| && s[a..] == t[a..]
    ensures s[b..] == t[b..]
  {
    assert s[b..] == s[a..][b - a..] && t[b..] == t[a..][b - a..];
  }

  /** `s` begins with the bytes gathered, and beyond the unit that holds the last is as at the start. */
  ghost predicate Gathers(s: seq<Byte>, start: seq<Byte>, done: seq<Byte>, w: nat)
    requires w in {2, 4}
  {
    var end := RoundUp(|done|, w);
    |done| <= end <= |s| == |start| && s[..|done|] == done && s[end..] == start[end..]
  }

  lemma GathersMore(s: seq<Byte>, t: seq<Byte>, start: seq<Byte>, done: seq<Byte>, more: seq<Byte>, w: nat)
    requires w in {2, 4} && Gathers(s, start, done, w)
    requires RoundUp(|done + more|, w) <= |t| == |s| && RoundUp(|done|, w) <= RoundUp(|done + more|, w)
    requires t[..|done + more|] == s[..|done|] + more
    requires t[RoundUp(|done + more|, w)..] == s[RoundUp(|done + more|, w)..]
    ensures Gathers(t, start, done + more, w)
  {
    TailOfTail(s, start, RoundUp(|done|, w), RoundUp(|done + more|, w));
  }

  method CopyUnitwise(buf: array<Byte>, chain: seq<Mbuf>, w: nat) returns (pBuf: nat)
    requires w in {2, 4} && Readable(chain) && RoundUp(|Concat(chain)|, w) <= buf.Length
    modifies buf
    ensures pBuf == |Concat(chain)| && Gathers(buf[..], old(buf[..]), Concat(chain), w)
  {
    ghost var start := buf[..];
    pBuf := 0;
    var odd, i := 0, 0;
    assert chain[..0] == [];
    while i < |chain|
      invariant i <= |chain| && pBuf == |Concat(chain[..i])| && odd == Rem(pBuf, w)
      invariant Gathers(buf[..], start, Concat(chain[..i]), w)
    {
      UnitsNext(chain, i, w);
      ghost var was := buf[..];
      pBuf, odd := CopyMbuf(buf, pBuf, odd, chain[i], w);
      GathersMore(was, buf[..], start, Concat(chain[..i]), chain[i].data, w);
      i := i + 1;
    }
    assert chain[..|chain|] == chain;
  }
}
