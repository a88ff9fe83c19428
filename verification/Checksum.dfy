/** in_cksum, the portable version: the Internet checksum of RFC 1071 over a chain of buffers. */
module Checksum {
  import opened CTypes

  /** One mbuf's data, and whether they lie at an odd address. */
  datatype Buffer = Buffer(odd: bool, data: seq<Byte>)

  // ---------------------------------------------------------------- what is to be computed

  /** The 16-bit word that the two bytes make on this machine. */
  function Word(le: bool, a: Byte, b: Byte): U16 {
    if le then a + 256 * b else 256 * a + b
  }

  /** Addition with end-around carry. */
  function OnesAdd(x: U16, y: U16): U16 {
    if x + y > 0xffff then x + y - 0xffff else x + y
  }

  /** The ones' complement sum of the 16-bit words, an odd last byte padded with zero. */
  function OnesSum(le: bool, bs: seq<Byte>): U16 {
    if bs == [] then 0
    else if |bs| == 1 then Word(le, bs[0], 0)
    else OnesAdd(Word(le, bs[0], bs[1]), OnesSum(le, bs[2..]))
  }

  function InternetChecksum(le: bool, bs: seq<Byte>): U16 {
    0xffff - OnesSum(le, bs)
  }

  function Bytes(chain: seq<Buffer>): seq<Byte> {
    if chain == [] then [] else chain[0].data + Bytes(chain[1..])
  }

  function Prefix(bs: seq<Byte>, n: nat): seq<Byte> {
    if n <= |bs| then bs[..n] else bs
  }

  // ---------------------------------------------------------------- arithmetic

  /** The total folded into 16 bits: congruent modulo 65535, and zero only for zero. */
  ghost function Fold(t: nat): U16 {
    if t <= 0xffff then t else Fold(t - 0xffff)
  }

  /** `sum` stands for the total `t`. */
  ghost predicate Rep(sum: nat, t: nat) {
    Fold(sum) == Fold(t)
  }

  lemma {:induction false} FoldFirst(t: nat, w: nat)
    ensures Fold(t + w) == Fold(Fold(t) + w)
  {
    if t > 0xffff {
      FoldFirst(t - 0xffff, w);
    }
  }

  lemma {:induction false} FoldMultiple(t: nat, k: nat)
    requires t > 0
    ensures Fold(t + 0xffff * k) == Fold(t)
    decreases k
  {
    if k > 0 {
      FoldMultiple(t, k - 1);
      assert t + 0xffff * k - 0xffff == t + 0xffff * (k - 1);
    }
  }

  lemma {:induction false} FoldPositive(t: nat)
    ensures Fold(t) == 0 <==> t == 0
  {
    if t > 0xffff {
      FoldPositive(t - 0xffff);
    }
  }

  lemma RepAdd(sum: nat, t: nat, w: nat)
    requires Rep(sum, t)
    ensures Rep(sum + w, t + w)
  {
    FoldFirst(sum, w);
    FoldFirst(t, w);
  }

  lemma {:induction false} FoldShift(t: nat)
    ensures Fold(256 * t) == Fold(256 * Fold(t))
  {
    if t > 0xffff {
      FoldShift(t - 0xffff);
      FoldMultiple(256 * (t - 0xffff), 256);
    }
  }

  /** `sum <<= 8` */
  lemma RepShift(sum: nat, t: nat)
    requires Rep(sum, t)
    ensures Rep(256 * sum, 256 * t)
  {
    FoldShift(sum);
    FoldShift(t);
  }

  /** Shifting by 8 twice is shifting by 16, which changes nothing. */
  lemma RepTwice(sum: nat, t: nat)
    requires Rep(sum, 256 * (256 * t))
    ensures Rep(sum, t)
  {
    if t > 0 {
      FoldMultiple(t, t);
      assert 256 * (256 * t) == t + 0xffff * t;
    }
  }

  function Reduce(sum: U32): U16 {
    var s := sum % 0x1_0000 + sum / 0x1_0000;
    if s > 0xffff then s - 0xffff else s
  }

  lemma RepReduce(sum: U32, t: nat)
    requires Rep(sum, t)
    ensures Rep(Reduce(sum), t)
  {
    var hi, lo := sum / 0x1_0000, sum % 0x1_0000;
    assert sum == lo + hi + 0xffff * hi;
    if sum > 0 {
      FoldMultiple(lo + hi, hi);
    }
  }

  /** A byte's part in a word: at an even or odd position, on either byte order. */
  function Part(le: bool, odd: bool, b: Byte): nat {
    if le == odd then 256 * b else b
  }

  /** The sum of the bytes with their weights, the first one at an odd position or not. */
  ghost function ByteSum(le: bool, bs: seq<Byte>, odd: bool): nat {
    if bs == [] then 0 else Part(le, odd, bs[0]) + ByteSum(le, bs[1..], !odd)
  }

  lemma {:induction false} ByteSumConcat(le: bool, a: seq<Byte>, b: seq<Byte>, odd: bool)
    ensures ByteSum(le, a + b, odd) == ByteSum(le, a, odd) + ByteSum(le, b, odd != (|a| % 2 == 1))
    decreases |a|
  {
    if a == [] {
      assert a + b == b;
    } else {
      ByteSumConcat(le, a[1..], b, !odd);
      assert (a + b)[1..] == a[1..] + b;
    }
  }

  lemma RepOnesAdd(w: U16, y: U16, t: nat)
    requires Rep(y, t)
    ensures Rep(OnesAdd(w, y), w + t)
  {
    RepAdd(y, t, w);
  }

  lemma {:induction false} OnesSumIsByteSum(le: bool, bs: seq<Byte>)
    ensures Rep(OnesSum(le, bs), ByteSum(le, bs, false))
  {
    if |bs| == 1 {
      assert bs[1..] == [];
    } else if bs != [] {
      OnesSumIsByteSum(le, bs[2..]);
      var w, rest := Word(le, bs[0], bs[1]), ByteSum(le, bs[2..], false);
      TwoBytes(le, bs);
      RepOnesAdd(w, OnesSum(le, bs[2..]), rest);
    }
  }

  lemma TwoBytes(le: bool, bs: seq<Byte>)
    requires |bs| >= 2
    ensures ByteSum(le, bs, false) == Word(le, bs[0], bs[1]) + ByteSum(le, bs[2..], false)
  {
    assert bs[1..][1..] == bs[2..];
  }

  /** Shifted by a byte, words become the words of the other byte order: the same bytes at
      positions of the other parity weigh 256 times as much. */
  lemma {:induction false} SwapIsTimes256(le: bool, bs: seq<Byte>, odd: bool)
    ensures Rep(256 * ByteSum(le, bs, odd), ByteSum(le, bs, !odd))
  {
    if bs != [] {
      SwapIsTimes256(le, bs[1..], !odd);
      var rest := ByteSum(le, bs[1..], !odd);
      if le == odd {
        var x: nat := bs[0];
        RepTwice(256 * (256 * x), x);
      }
      RepSum(256 * Part(le, odd, bs[0]), Part(le, !odd, bs[0]), 256 * rest, ByteSum(le, bs[1..], odd));
    }
  }

  lemma RepSum(a: nat, b: nat, c: nat, d: nat)
    requires Rep(a, b) && Rep(c, d)
    ensures Rep(a + c, b + d)
  {
    RepAdd(a, b, c);
    RepAdd(c, d, b);
  }

  /** Rep pins a reduced sum down. */
  lemma RepUnique(x: U16, y: U16, t: nat)
    requires Rep(x, t) && Rep(y, t)
    ensures x == y
  {
  }

  // ---------------------------------------------------------------- the code

  /** What the sum can have grown to after `n` bytes: REDUCE and a shift leave at most
      0xffff00, and every two bytes add at most 0xffff. */
  function Bound(n: nat): nat { 0xff_ff00 + 0x8000 * n }

  /** The sum of the `n` words from position `k` of `d` on. */
  ghost function Words(le: bool, d: seq<Byte>, k: nat, n: nat): (t: nat)
    requires k + 2 * n <= |d|
    ensures t <= 0xffff * n
  {
    if n == 0 then 0 else Words(le, d, k, n - 1) + Word(le, d[k + 2 * n - 2], d[k + 2 * n - 1])
  }

  lemma {:induction false} WordsAreBytes(le: bool, d: seq<Byte>, k: nat, n: nat)
    requires k + 2 * n <= |d|
    ensures Words(le, d, k, n) == ByteSum(le, d[k..k + 2 * n], false)
  {
    if n > 0 {
      WordsAreBytes(le, d, k, n - 1);
      var front, last := d[k..k + 2 * n - 2], d[k + 2 * n - 2..k + 2 * n];
      TwoBytes(le, last);
      ByteSumConcat(le, front, last, false);
      assert front + last == d[k..k + 2 * n];
    }
  }

  function Four(le: bool, d: seq<Byte>, k: nat): nat
    requires k + 8 <= |d|
  {
    Word(le, d[k], d[k + 1]) + Word(le, d[k + 2], d[k + 3]) +
    Word(le, d[k + 4], d[k + 5]) + Word(le, d[k + 6], d[k + 7])
  }

  lemma FourWords(le: bool, d: seq<Byte>, k: nat, n: nat)
    requires k + 2 * n + 8 <= |d|
    ensures Words(le, d, k, n + 4) == Words(le, d, k, n) + Four(le, d, k + 2 * n)
  {
    assert Words(le, d, k, n + 2) == Words(le, d, k, n) + Word(le, d[k + 2 * n], d[k + 2 * n + 1])
      + Word(le, d[k + 2 * n + 2], d[k + 2 * n + 3]);
  }

  function Sixteen(le: bool, d: seq<Byte>, k: nat): nat
    requires k + 32 <= |d|
  {
    Four(le, d, k) + Four(le, d, k + 8) + Four(le, d, k + 16) + Four(le, d, k + 24)
  }

  lemma SixteenWords(le: bool, d: seq<Byte>, k: nat, n: nat)
    requires k + 2 * n + 32 <= |d|
    ensures Words(le, d, k, n + 16) == Words(le, d, k, n) + Sixteen(le, d, k + 2 * n)
  {
    FourWords(le, d, k, n);
    FourWords(le, d, k, n + 4);
    assert k + 2 * (n + 4) == k + 2 * n + 8;
    FourWords(le, d, k, n + 8);
    assert k + 2 * (n + 8) == k + 2 * n + 16;
    FourWords(le, d, k, n + 12);
    assert k + 2 * (n + 12) == k + 2 * n + 24;
  }

  /** The unrolled loop over 32 bytes at a time, from position `k0` of `d` on; the caller
      has subtracted nothing from `mlen` yet. */
  method AddSixteens(le: bool, d: seq<Byte>, k0: nat, mlen0: nat, sum0: U32)
    returns (k: nat, mlen: nat, sum: U32, ghost n: nat)
    requires k0 + mlen0 <= |d| && sum0 + 0x8000 * mlen0 < 0x1_0000_0000
    ensures k == k0 + 2 * n && k + mlen == k0 + mlen0
    ensures sum == sum0 + Words(le, d, k0, n)
  {
    var left: int := mlen0;
    k, sum, n := k0, sum0, 0;
    left := left - 32;
    while left >= 0
      invariant k == k0 + 2 * n && k + left + 32 == k0 + mlen0 && left >= -32
      invariant sum == sum0 + Words(le, d, k0, n)
    {
      SixteenWords(le, d, k0, n);
      n := n + 16;
      sum := sum + Sixteen(le, d, k);
      k := k + 32;
      left := left - 32;
    }
    mlen := left + 32;
  }

  /** The unrolled loop over 8 bytes at a time. */
  method AddFours(le: bool, d: seq<Byte>, k0: nat, mlen0: nat, sum0: U32)
    returns (k: nat, mlen: nat, sum: U32, ghost n: nat)
    requires k0 + mlen0 <= |d| && sum0 + 0x8000 * mlen0 < 0x1_0000_0000
    ensures k == k0 + 2 * n && k + mlen == k0 + mlen0 && mlen < 8
    ensures sum == sum0 + Words(le, d, k0, n)
  {
    var left: int := mlen0;
    k, sum, n := k0, sum0, 0;
    left := left - 8;
    while left >= 0
      invariant k == k0 + 2 * n && k + left + 8 == k0 + mlen0 && left >= -8
      invariant sum == sum0 + Words(le, d, k0, n)
    {
      FourWords(le, d, k0, n);
      n := n + 4;
      sum := sum + Four(le, d, k);
      k := k + 8;
      left := left - 8;
    }
    mlen := left + 8;
  }

  method AddBlocks(le: bool, d: seq<Byte>, k0: nat, mlen0: nat, sum0: U32)
    returns (k: nat, mlen: nat, sum: U32, ghost n: nat)
    requires k0 + mlen0 <= |d| && sum0 + 0x8000 * mlen0 < 0x1_0000_0000
    ensures k == k0 + 2 * n && k + mlen == k0 + mlen0 && mlen < 8
    ensures sum == sum0 + ByteSum(le, d[k0..k], false) <= sum0 + 0x8000 * (k - k0)
  {
    ghost var m: nat;
    k, mlen, sum, n := AddSixteens(le, d, k0, mlen0, sum0);
    WordsAreBytes(le, d, k0, n);
    ghost var mid := k;
    k, mlen, sum, m := AddFours(le, d, k, mlen, sum);
    WordsAreBytes(le, d, mid, m);
    JoinSlices(le, d, k0, n, mid, k);
    n := n + m;
  }

  /** The last loop, two bytes at a time: `mlen` ends as -2, or as -1 with a byte left over. */
  method AddPairs(le: bool, d: seq<Byte>, k0: nat, mlen0: nat, sum0: U32)
    returns (k: nat, mlen: int, sum: U32, ghost n: nat)
    requires k0 + mlen0 <= |d| && sum0 + 0x8000 * mlen0 < 0x1_0000_0000
    ensures k == k0 + 2 * n && k == k0 + mlen0 - 2 - mlen && -2 <= mlen < 0
    ensures sum == sum0 + ByteSum(le, d[k0..k], false) <= sum0 + 0x8000 * (k - k0)
  {
    n := 0;
    k, sum, mlen := k0, sum0, mlen0;
    mlen := mlen - 2;
    while mlen >= 0
      invariant k == k0 + 2 * n && mlen == mlen0 - 2 * n - 2 && mlen >= -2
      invariant sum == sum0 + Words(le, d, k0, n)
    {
      n := n + 1;
      sum := sum + Word(le, d[k], d[k + 1]);
      k := k + 2;
      mlen := mlen - 2;
    }
    WordsAreBytes(le, d, k0, n);
  }

  /** Where the scan stands after the bytes `bs`: everything is in the sum, except that after
      an odd number of bytes one of even position, kept in s_util.c[0], is still to be added. */
  ghost predicate Scanned(le: bool, bs: seq<Byte>, sum: U32, mlen: int, c0: Byte) {
    && (mlen == -1 <==> |bs| % 2 == 1)
    && sum <= Bound(if mlen == -1 then |bs| - 1 else |bs|)
    && var held := if mlen == -1 then Part(le, false, c0) else 0;
       ByteSum(le, bs, false) >= held && Rep(sum, ByteSum(le, bs, false) - held)
  }

  lemma AddPending(le: bool, bs: seq<Byte>, sum: U32, c0: Byte, c1: Byte)
    requires Scanned(le, bs, sum, -1, c0)
    ensures Rep(sum + Word(le, c0, c1), ByteSum(le, bs + [c1], false))
  {
    ByteSumConcat(le, bs, [c1], false);
    assert [c1][1..] == [];
    RepAdd(sum, ByteSum(le, bs, false) - Part(le, false, c0), Word(le, c0, c1));
  }

  /** Reading words from an odd position of the data: the sum, shifted before and after, has
      gained the bytes `d` at positions of odd parity; `c0` in front of them is still held. */
  lemma ShiftedWords(le: bool, bs: seq<Byte>, c0: Byte, d: seq<Byte>, sum: nat)
    requires |bs| % 2 == 0
    requires Rep(sum, 256 * (256 * ByteSum(le, bs, false) + ByteSum(le, d, false)))
    ensures ByteSum(le, bs + [c0] + d, false) >= Part(le, false, c0)
    ensures Rep(sum, ByteSum(le, bs + [c0] + d, false) - Part(le, false, c0))
  {
    var s, t := ByteSum(le, bs, false), ByteSum(le, d, false);
    assert [c0][1..] == [];
    ByteSumConcat(le, bs, [c0], false);
    ByteSumConcat(le, bs + [c0], d, false);
    RepTwice(256 * (256 * s), s);
    SwapIsTimes256(le, d, false);
    RepSum(256 * (256 * s), s, 256 * t, ByteSum(le, d, true));
    assert 256 * (256 * s + t) == 256 * (256 * s) + 256 * t;
  }

  lemma JoinSlices(le: bool, d: seq<Byte>, i: nat, n: nat, j: nat, k: nat)
    requires j == i + 2 * n <= k <= |d|
    ensures ByteSum(le, d[i..j], false) + ByteSum(le, d[j..k], false) == ByteSum(le, d[i..k], false)
  {
    ByteSumConcat(le, d[i..j], d[j..k], false);
    assert d[i..j] + d[j..k] == d[i..k];
  }

  /** All the words from position `k0` on: the unrolled loops, REDUCE, the last loop. */
  method AddWords(le: bool, d: seq<Byte>, k0: nat, mlen0: nat, sum0: U32, swapped: bool, ghost t: nat)
    returns (k: nat, mlen: int, sum: U32, ghost n: nat, ghost w: nat)
    requires k0 + mlen0 <= |d| && sum0 + 0x8000 * mlen0 < 0x1_0000_0000 && mlen0 < 0x1_0000
    requires Rep(sum0, t)
    ensures k == k0 + 2 * n && -2 <= mlen <= 0
    ensures k == k0 + mlen0 - (if mlen == -1 then 1 else 0)
    ensures sum <= (if sum0 > 0xffff then sum0 else 0xffff) + 0x8000 * (k - k0)
    ensures w == ByteSum(le, d[k0..k], false) && Rep(sum, t + w)
  {
    var left: nat;
    k, left, sum, n := AddBlocks(le, d, k0, mlen0, sum0);
    w := ByteSum(le, d[k0..k], false);
    RepAdd(sum0, t, w);
    if left == 0 && !swapped {
      return k, 0, sum, n, w;
    }
    RepReduce(sum, t + w);
    sum := Reduce(sum);
    ghost var sum1, mid := sum, k;
    ghost var m: nat;
    k, mlen, sum, m := AddPairs(le, d, k, left, sum);
    ghost var w2 := ByteSum(le, d[mid..k], false);
    RepAdd(sum1, t + w, w2);
    JoinSlices(le, d, k0, n, mid, k);
    n, w := n + m, w + w2;
  }

  /** An even number of bytes, all in the sum. */
  ghost predicate AllIn(le: bool, bs: seq<Byte>, sum: U32) {
    |bs| % 2 == 0 && sum <= Bound(|bs|) && Rep(sum, ByteSum(le, bs, false))
  }

  lemma ExtendAllIn(le: bool, bs: seq<Byte>, d: seq<Byte>, n: nat, sum: U32)
    requires |bs| % 2 == 0 && |d| == 2 * n && sum <= Bound(|bs| + |d|)
    requires Rep(sum, ByteSum(le, bs, false) + ByteSum(le, d, false))
    ensures AllIn(le, bs + d, sum)
  {
    EvenConcat(le, bs, d);
    RepSame(sum, ByteSum(le, bs, false) + ByteSum(le, d, false), ByteSum(le, bs + d, false));
    assert |bs + d| % 2 == 0 by {
      EvenLength(|bs|, n);
    }
  }

  lemma RepSame(sum: U32, x: nat, y: nat)
    requires x == y && Rep(sum, x)
    ensures Rep(sum, y)
  {
  }

  lemma EvenConcat(le: bool, a: seq<Byte>, b: seq<Byte>)
    requires |a| % 2 == 0
    ensures ByteSum(le, a + b, false) == ByteSum(le, a, false) + ByteSum(le, b, false)
  {
    ByteSumConcat(le, a, b, false);
  }

  lemma EvenLength(x: nat, n: nat)
    ensures (x + 2 * n) % 2 == x % 2
  {
  }

  lemma HoldBack(le: bool, bs: seq<Byte>, sum: U32, c: Byte)
    requires AllIn(le, bs, sum)
    ensures Scanned(le, bs + [c], sum, -1, c)
  {
    ByteSumConcat(le, bs, [c], false);
    assert [c][1..] == [];
  }

  /** The rest of a buffer, from an even address on. */
  method SumAligned(le: bool, d: seq<Byte>, k0: nat, mlen0: nat, sum0: U32, saved: Byte, ghost bs: seq<Byte>)
    returns (sum: U32, mlen: int, c0: Byte)
    requires k0 + mlen0 <= |d| && |bs| + mlen0 < 0x1_0000 && AllIn(le, bs, sum0)
    ensures Scanned(le, bs + d[k0..k0 + mlen0], sum, mlen, c0)
  {
    var k;
    ghost var n, w;
    c0 := saved;
    k, mlen, sum, n, w := AddWords(le, d, k0, mlen0, sum0, false, ByteSum(le, bs, false));
    ExtendAllIn(le, bs, d[k0..k], n, sum);
    if mlen == -1 {
      c0 := d[k];
      HoldBack(le, bs + d[k0..k], sum, c0);
      assert bs + d[k0..k] + [c0] == bs + d[k0..k0 + mlen0];
    }
  }

  /** The rest of a buffer from an odd address on: the first byte is held back, and the
      words behind it are summed with their bytes swapped. */
  method SumShifted(le: bool, d: seq<Byte>, k0: nat, mlen0: nat, sum0: U32, ghost bs: seq<Byte>)
    returns (sum: U32, mlen: int, c0: Byte)
    requires k0 + mlen0 <= |d| && 0 < mlen0 && |bs| + mlen0 < 0x1_0000 && AllIn(le, bs, sum0)
    ensures Scanned(le, bs + d[k0..k0 + mlen0], sum, mlen, c0)
  {
    var k;
    c0 := d[k0];
    ghost var n;
    k, mlen, sum, n := SwappedWords(le, d, k0, mlen0, sum0, bs);
    ghost var now := bs + d[k0..k];
    if mlen == -1 {
      AddPending(le, now, sum, c0, d[k]);
      assert now + [d[k]] == bs + d[k0..k0 + mlen0];
      sum := sum + Word(le, c0, d[k]);
      mlen := 0;
    } else {
      mlen := -1;
    }
  }

  method SwappedWords(le: bool, d: seq<Byte>, k0: nat, mlen0: nat, sum0: U32, ghost bs: seq<Byte>)
    returns (k: nat, mlen: int, sum: U32, ghost n: nat)
    requires k0 + mlen0 <= |d| && 0 < mlen0 && |bs| + mlen0 < 0x1_0000 && AllIn(le, bs, sum0)
    ensures k == k0 + 1 + 2 * n && -2 <= mlen <= 0 && k == k0 + mlen0 - (if mlen == -1 then 1 else 0)
    ensures sum <= 0xff_ff00 && Scanned(le, bs + d[k0..k], sum, -1, d[k0])
  {
    ghost var w;
    ghost var t := ByteSum(le, bs, false);
    sum := ReduceAndShift(sum0, t);
    k, mlen, sum, n, w := AddWords(le, d, k0 + 1, mlen0 - 1, sum, true, 256 * t);
    sum := ReduceAndShift(sum, 256 * t + w);
    ghost var rest := d[k0 + 1..k];
    ShiftedScan(le, bs, d[k0], rest, n, sum);
    assert bs + [d[k0]] + rest == bs + d[k0..k];
  }

  /** Folds the sum to 16 bits and moves it up by a byte. */
  method ReduceAndShift(sum0: U32, ghost t: nat) returns (sum: U32)
    requires Rep(sum0, t)
    ensures sum <= 0xff_ff00 && Rep(sum, 256 * t)
  {
    RepReduce(sum0, t);
    RepShift(Reduce(sum0), t);
    sum := Reduce(sum0) * 256;
  }

  lemma OddScanned(le: bool, bs: seq<Byte>, sum: U32, c0: Byte, total: nat, held: nat)
    requires |bs| % 2 == 1 && sum <= 0xff_ff00
    requires total == ByteSum(le, bs, false) && held == Part(le, false, c0) <= total && Rep(sum, total - held)
    ensures Scanned(le, bs, sum, -1, c0)
  {
  }

  lemma OddLength(x: nat, n: nat)
    requires x % 2 == 0
    ensures (x + 1 + 2 * n) % 2 == 1
  {
  }

  lemma ShiftedScan(le: bool, bs: seq<Byte>, c0: Byte, d: seq<Byte>, n: nat, sum: U32)
    requires |bs| % 2 == 0 && |d| == 2 * n && sum <= 0xff_ff00
    requires Rep(sum, 256 * (256 * ByteSum(le, bs, false) + ByteSum(le, d, false)))
    ensures Scanned(le, bs + [c0] + d, sum, -1, c0)
  {
    ShiftedWords(le, bs, c0, d, sum);
    OddLength(|bs|, n);
    OddScanned(le, bs + [c0] + d, sum, c0, ByteSum(le, bs + [c0] + d, false), Part(le, false, c0));
  }

  /** One round of the loop over the chain, for a buffer that is not empty. */
  method SumBuffer(le: bool, b: Buffer, len0: nat, sum0: U32, mlen0: int, saved: Byte, ghost bs: seq<Byte>)
    returns (len: nat, sum: U32, mlen: int, c0: Byte)
    requires b.data != [] && 0 < len0 && |bs| + len0 < 0x1_0000
    requires Scanned(le, bs, sum0, mlen0, saved)
    ensures len == len0 - |Prefix(b.data, len0)|
    ensures Scanned(le, bs + Prefix(b.data, len0), sum, mlen, c0)
  {
    var d, k, mlen' := b.data, 0, |b.data|;
    ghost var now := bs;
    len, sum, c0 := len0, sum0, saved;
    if mlen0 == -1 {
      AddPending(le, bs, sum, saved, d[0]);
      sum := sum + Word(le, saved, d[0]);
      now := bs + [d[0]];
      k, mlen', len := 1, |d| - 1, len - 1;
    }
    if len < mlen' {
      mlen' := len;
    }
    len := len - mlen';
    assert now + d[k..k + mlen'] == bs + Prefix(d, len0);
    if b.odd != (k == 1) && mlen' > 0 {
      sum, mlen, c0 := SumShifted(le, d, k, mlen', sum, now);
    } else {
      sum, mlen, c0 := SumAligned(le, d, k, mlen', sum, c0, now);
    }
  }

  /** The end of in_cksum: a last odd byte is padded with zero. */
  method Finish(le: bool, sum0: U32, mlen: int, c0: Byte, ghost bs: seq<Byte>) returns (r: U16)
    requires Scanned(le, bs, sum0, mlen, c0) && |bs| < 0x1_0000
    ensures r == InternetChecksum(le, bs)
  {
    var sum := sum0;
    if mlen == -1 {
      AddPending(le, bs, sum, c0, 0);
      ByteSumConcat(le, bs, [0], false);
      sum := sum + Word(le, c0, 0);
    }
    RepReduce(sum, ByteSum(le, bs, false));
    sum := Reduce(sum);
    OnesSumIsByteSum(le, bs);
    RepUnique(sum, OnesSum(le, bs), ByteSum(le, bs, false));
    r := 0xffff - sum;
  }

  lemma PrefixSplit(bs: seq<Byte>, a: seq<Byte>, b: seq<Byte>, n: nat)
    ensures bs + Prefix(a + b, n) == bs + Prefix(a, n) + Prefix(b, n - |Prefix(a, n)|)
  {
  }

  /** in_cksum. When the chain is shorter than `len` the code prints "out of data" and
      returns the checksum of what there is. */
  method InCksum(le: bool, chain: seq<Buffer>, len: nat) returns (r: U16)
    requires len < 0x1_0000
    ensures r == InternetChecksum(le, Prefix(Bytes(chain), len))
  {
    var sum: U32, mlen: int, c0: Byte := 0, 0, 0;
    var m, left := chain, len;
    ghost var bs: seq<Byte> := [];
    ghost var all := Prefix(Bytes(chain), len);
    while m != [] && left > 0
      invariant |bs| + left == len
      invariant Scanned(le, bs, sum, mlen, c0)
      invariant all == bs + Prefix(Bytes(m), left)
      decreases |m|
    {
      var b := m[0];
      if b.data == [] {
        assert b.data + Bytes(m[1..]) == Bytes(m[1..]);
      } else {
        PrefixSplit(bs, b.data, Bytes(m[1..]), left);
        ghost var take := Prefix(b.data, left);
        left, sum, mlen, c0 := SumBuffer(le, b, left, sum, mlen, c0, bs);
        bs := bs + take;
      }
      m := m[1..];
    }
    assert all == bs;
    r := Finish(le, sum, mlen, c0, bs);
  }

  // ---------------------------------------------------------------- what RFC 1071 promises of it

  lemma FieldGap(le: bool, front: seq<Byte>, a: Byte, b: Byte, back: seq<Byte>)
    requires |front| % 2 == 0
    ensures ByteSum(le, front + [a, b] + back, false)
         == ByteSum(le, front, false) + Word(le, a, b) + ByteSum(le, back, false)
  {
    TwoBytes(le, [a, b] + back);
    assert ([a, b] + back)[2..] == back;
    EvenConcat(le, front, [a, b] + back);
    assert front + [a, b] + back == front + ([a, b] + back);
  }

  /** A checksum stored in its zeroed field, at an even offset, makes the checksum 0: this is
      the receiver's test. */
  lemma StoredChecksumVerifies(le: bool, front: seq<Byte>, back: seq<Byte>, a: Byte, b: Byte)
    requires |front| % 2 == 0
    requires Word(le, a, b) == InternetChecksum(le, front + [0, 0] + back)
    ensures InternetChecksum(le, front + [a, b] + back) == 0
  {
    var before, after := front + [0, 0] + back, front + [a, b] + back;
    FieldGap(le, front, 0, 0, back);
    FieldGap(le, front, a, b, back);
    var s, r := ByteSum(le, before, false), Word(le, a, b);
    OnesSumIsByteSum(le, before);
    OnesSumIsByteSum(le, after);
    FoldFirst(s, r);
    assert ByteSum(le, after, false) == s + r;
  }

  /** And only that value does. */
  lemma OnlyTheChecksumVerifies(le: bool, front: seq<Byte>, back: seq<Byte>, a: Byte, b: Byte)
    requires |front| % 2 == 0 && InternetChecksum(le, front + [a, b] + back) == 0
    ensures var r := InternetChecksum(le, front + [0, 0] + back);
      Word(le, a, b) == r || (r == 0 && Word(le, a, b) == 0xffff) || (r == 0xffff && Word(le, a, b) == 0)
  {
    var before, after := front + [0, 0] + back, front + [a, b] + back;
    FieldGap(le, front, 0, 0, back);
    FieldGap(le, front, a, b, back);
    var s := ByteSum(le, before, false);
    OnesSumIsByteSum(le, before);
    OnesSumIsByteSum(le, after);
    FoldFirst(s, Word(le, a, b));
  }

  lemma {:induction false} ByteOrderSwapsParity(bs: seq<Byte>, odd: bool)
    ensures ByteSum(true, bs, odd) == ByteSum(false, bs, !odd)
  {
    if bs != [] {
      ByteOrderSwapsParity(bs[1..], !odd);
    }
  }

  function SwapBytes(x: U16): U16 {
    256 * (x % 256) + x / 256
  }

  lemma FoldSwaps(x: U16)
    ensures Rep(SwapBytes(x), 256 * (x as int))
  {
    var hi, lo := x / 256, x % 256;
    assert 256 * (x as int) == SwapBytes(x) + 0xffff * hi;
    if SwapBytes(x) > 0 {
      FoldMultiple(SwapBytes(x), hi);
    }
  }

  lemma SwapComplements(x: U16)
    ensures SwapBytes(0xffff - x) == 0xffff - SwapBytes(x)
  {
    var hi, lo := x / 256, x % 256;
    assert 0xffff - x == 256 * (255 - hi) + (255 - lo);
  }

  /** On a machine of the other byte order the checksum is the same two bytes. */
  lemma ByteOrderIndependent(bs: seq<Byte>)
    ensures InternetChecksum(true, bs) == SwapBytes(InternetChecksum(false, bs))
  {
    var s, x := ByteSum(false, bs, false), OnesSum(false, bs);
    OnesSumIsByteSum(false, bs);
    OnesSumIsByteSum(true, bs);
    ByteOrderSwapsParity(bs, false);
    SwapIsTimes256(false, bs, false);
    RepShift(x, s);
    FoldSwaps(x);
    RepUnique(OnesSum(true, bs), SwapBytes(x), ByteSum(true, bs, false));
    SwapComplements(x);
  }
}
