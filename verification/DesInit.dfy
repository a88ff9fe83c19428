/** init_des: the transformation vectors around the rounds, and the merged S, P and E tables. */
module DesInit {
  import opened DesPermute
  import opened DesTables
  import opened DesFips
  import opened DesSchedule

  /** A half block as the rounds keep it: expanded once and for all. */
  function Wide(h: Half): Block {
    Six(Expand(h))
  }

  // ---------------------------------------------------------------- into the rounds

  /** The 32 even-numbered bits of a block (by FIPS 46-3's numbering), packed as the code
      packs them: `(L0 & 0x55555555) << 1 | L1 & 0x55555555`. */
  function EvenBits(b: Block): (e: Block)
    ensures forall c {:trigger e[c]} | 0 <= c < 64 ::
      e[c] == (c < 32 && if c % 2 == 1 then b[c - 1] else b[c + 32])
  {
    seq(64, c requires 0 <= c < 64 => c < 32 && if c % 2 == 1 then b[c - 1] else b[c + 32])
  }

  /** `R0 & 0xaaaaaaaa | (R1 >> 1) & 0x55555555` */
  function OddBits(b: Block): (o: Block)
    ensures forall c {:trigger o[c]} | 0 <= c < 64 ::
      o[c] == (c < 32 && if c % 2 == 1 then b[c] else b[c + 33])
  {
    seq(64, c requires 0 <= c < 64 => c < 32 && if c % 2 == 1 then b[c] else b[c + 33])
  }

  /** Where bit number `n` of FIPS 46-3, even, is among the packed bits, counted from 1. */
  function PackedPlace(n: nat): nat
    requires 2 <= n <= 64 && n % 2 == 0
  {
    Flip(if n > 32 then n - 33 else n - 2) + 1
  }

  lemma FlipAt(a: nat, r: nat)
    requires r < 8
    ensures Flip(8 * a + r) == 8 * a + 7 - r
  {
  }

  lemma PackedPlaceAt(a: nat, r: nat)
    requires r < 8 && r % 2 == 1 && a < 8
    ensures var n := 8 * a + r + 1;
      PackedPlace(n) - 1 == if a >= 4 then 8 * (a - 4) + 7 - r else 8 * a + 8 - r
  {
    FlipAt(a, r - 1);
    if a >= 4 {
      FlipAt(a - 4, r);
    }
  }

  lemma PackedBits(b: Block, n: nat)
    requires 2 <= n <= 64 && n % 2 == 0
    ensures 1 <= PackedPlace(n) <= 32
    ensures EvenBits(b)[PackedPlace(n) - 1] == b[Flip(n - 1)]
    ensures OddBits(b)[PackedPlace(n) - 1] == b[Flip(n - 2)]
  {
    var a, r := (n - 1) / 8, (n - 1) % 8;
    assert n == 8 * a + r + 1 && r % 2 == 1;
    FlipAt(a, r);
    FlipAt(a, r - 1);
    PackedPlaceAt(a, r);
  }

  /** IE3264's entry: bit reversal, initial permutation, expansion. */
  ghost function Ie(x: nat): (v: nat)
    requires x < 64
    ensures v <= 32
  {
    if x % 8 < 2 then 0
    else
      var j := ExpandTr(6 * (x / 8) + x % 8 - 2) - 1;
      IPPairs(j);
      PackedBits(ZeroBlock, IP(j));
      PackedPlace(IP(j))
  }

  ghost predicate IsIe(perm: seq<nat>) {
    Vector(perm, 32) && forall x | 0 <= x < 64 :: perm[x] == Ie(x)
  }

  /** The entry for position `x`. */
  method IeNext(x: nat) returns (k: nat)
    requires x < 64
    ensures k == Ie(x)
  {
    var i, j := x / 8, x % 8;
    k := 0;
    if j >= 2 {
      var e := ExpandTr(i * 6 + j - 2);
      IPPairs(e - 1);
      k := IP(e - 1);
    }
    if k > 32 {
      k := k - 32;
    } else if k > 0 {
      k := k - 1;
    }
    k := ReverseInByte(k);
  }

  method IeVector() returns (perm: seq<nat>)
    ensures IsIe(perm)
  {
    perm := seq(64, _ => 0);
    var x := 0;
    while x < 64
      invariant x <= 64 && |perm| == 64
      invariant forall y | 0 <= y < x :: perm[y] == Ie(y)
    {
      var k := IeNext(x);
      perm := perm[x := k];
      x := x + 1;
    }
  }

  lemma EnteredBit(b: Block, j: nat)
    requires j < 32
    ensures 2 <= IP(j) <= 64 && IP(j) % 2 == 0 && 1 <= PackedPlace(IP(j)) <= 32
    ensures Enter(b).l[j] == EvenBits(b)[PackedPlace(IP(j)) - 1]
    ensures Enter(b).r[j] == OddBits(b)[PackedPlace(IP(j)) - 1]
  {
    IPPairs(j);
    PackedBits(b, IP(j));
  }

  lemma WideAt(h: Half, i: nat)
    requires i < 64
    ensures i % 8 < 2 ==> !Wide(h)[i]
    ensures i % 8 >= 2 ==>
      var j := ExpandTr(6 * (i / 8) + i % 8 - 2) - 1; 0 <= j < 32 && Wide(h)[i] == h[j]
  {
  }

  lemma IeEntry(perm: seq<nat>, i: nat)
    requires IsIe(perm) && i < 64
    ensures i % 8 < 2 ==> perm[i] == 0
    ensures i % 8 >= 2 ==>
      var j := ExpandTr(6 * (i / 8) + i % 8 - 2) - 1;
      0 <= j < 32 && 2 <= IP(j) <= 64 && IP(j) % 2 == 0 && perm[i] == PackedPlace(IP(j))
  {
    if i % 8 >= 2 {
      IPPairs(ExpandTr(6 * (i / 8) + i % 8 - 2) - 1);
    }
    assert perm[i] == Ie(i);
  }

  lemma IeSource(perm: seq<nat>, b: Block, i: nat) returns (v: nat)
    requires IsIe(perm) && i < 64 && i % 8 >= 2
    ensures 1 <= v <= 32 && perm[i] == v
    ensures Wide(Enter(b).l)[i] == EvenBits(b)[v - 1] && Wide(Enter(b).r)[i] == OddBits(b)[v - 1]
  {
    var j := ExpandTr(6 * (i / 8) + i % 8 - 2) - 1;
    IeEntry(perm, i);
    v := PackedPlace(IP(j));
    IeSourceAt(b, i, j, v);
  }

  lemma IeSourceAt(b: Block, i: nat, j: nat, v: nat)
    requires i < 64 && i % 8 >= 2 && j == ExpandTr(6 * (i / 8) + i % 8 - 2) - 1
    requires j < 32 && 2 <= IP(j) <= 64 && IP(j) % 2 == 0 && v == PackedPlace(IP(j))
    ensures 1 <= v <= 32
    ensures Wide(Enter(b).l)[i] == EvenBits(b)[v - 1] && Wide(Enter(b).r)[i] == OddBits(b)[v - 1]
  {
    EnteredBit(b, j);
    WideAt(Enter(b).l, i);
    WideAt(Enter(b).r, i);
  }

  lemma PermutedAt(perm: seq<nat>, e: Block, h: Block, i: nat, v: nat)
    requires Vector(perm, 32) && i < 64 && perm[i] == v && v <= 32 && h[i] == (v > 0 && e[v - 1])
    ensures Permuted(perm, e)[i] == h[i]
  {
  }

  lemma IeBit(perm: seq<nat>, b: Block, i: nat)
    requires IsIe(perm) && i < 64
    ensures Permuted(perm, EvenBits(b))[i] == Wide(Enter(b).l)[i]
    ensures Permuted(perm, OddBits(b))[i] == Wide(Enter(b).r)[i]
  {
    var v := 0;
    if i % 8 >= 2 {
      v := IeSource(perm, b, i);
    } else {
      IeEntry(perm, i);
      WideAt(Enter(b).l, i);
      WideAt(Enter(b).r, i);
    }
    PermutedAt(perm, EvenBits(b), Wide(Enter(b).l), i, v);
    PermutedAt(perm, OddBits(b), Wide(Enter(b).r), i, v);
  }

  /** The even bits expand to the left half, the odd ones to the right. */
  lemma IeEnters(perm: seq<nat>, b: Block)
    requires IsIe(perm)
    ensures Permuted(perm, EvenBits(b)) == Wide(Enter(b).l)
    ensures Permuted(perm, OddBits(b)) == Wide(Enter(b).r)
  {
    forall i | 0 <= i < 64
      ensures Permuted(perm, EvenBits(b))[i] == Wide(Enter(b).l)[i]
      ensures Permuted(perm, OddBits(b))[i] == Wide(Enter(b).r)[i]
    {
      IeBit(perm, b, i);
    }
  }

  // ---------------------------------------------------------------- out of the rounds

  /** The two compressions: `(L0 >> 3) & 0x0f0f0f0f | (L1 << 1) & 0xf0f0f0f0`, then the same of R. */
  function Compress(l: Block, r: Block): (c: Block)
    ensures forall i {:trigger c[i]} | 0 <= i < 64 ::
      c[i] == (if i < 32 then l else r)[if i % 8 < 4 then i % 32 + 3 else i % 32 + 31]
  {
    seq(64, i requires 0 <= i < 64 =>
      (if i < 32 then l else r)[if i % 8 < 4 then i % 32 + 3 else i % 32 + 31])
  }

  lemma SixBit(x: Key48, g: nat, c: nat)
    requires g < 8 && c < 6
    ensures Six(x)[8 * g + c + 2] == x[6 * g + c]
  {
    var at := 8 * g + c + 2;
    assert at / 8 == g && at % 8 == c + 2;
  }

  /** The block `w` holds the bits of `h` in the middle of its groups of six. */
  ghost predicate Middle(w: Block, h: Half, g: nat, c: nat) {
    g < 8 && 1 <= c <= 4 ==> w[8 * g + c + 2] == h[4 * g + c - 1]
  }

  ghost predicate HoldsHalf(w: Block, h: Half) {
    forall g: nat, c: nat :: Middle(w, h, g, c)
  }

  lemma WideHoldsHalf(h: Half)
    ensures HoldsHalf(Wide(h), h)
  {
    forall g: nat, c: nat ensures Middle(Wide(h), h, g, c) {
      if g < 8 && 1 <= c <= 4 {
        SixBit(Expand(h), g, c);
        ExpandMiddle(g, c);
      }
    }
  }

  lemma CompressPlace(l: Block, r: Block, h: nat, b: nat, p: nat)
    requires h < 2 && b < 4 && p < 8
    ensures Compress(l, r)[32 * h + 8 * b + p]
         == (if h == 0 then l else r)[8 * b + p + if p < 4 then 3 else 31]
  {
    var i := 32 * h + 8 * b + p;
    assert i % 8 == p && i % 32 == 8 * b + p;
  }

  lemma CompressedAt(l: Block, r: Block, x: Pair, h: nat, b: nat, p: nat)
    requires HoldsHalf(l, x.l) && HoldsHalf(r, x.r)
    requires h < 2 && b < 4 && p < 8
    ensures Compress(l, r)[32 * h + 8 * b + p]
         == (x.l + x.r)[32 * h + 4 * b + if p < 4 then p else p + 12]
  {
    CompressPlace(l, r, h, b, p);
    var w, v := if h == 0 then l else r, if h == 0 then x.l else x.r;
    if p < 4 {
      assert Middle(w, v, b, p + 1);
    } else {
      assert Middle(w, v, b + 4, p - 3);
    }
  }

  lemma SplitIndex(i: nat) returns (h: nat, b: nat, p: nat)
    requires i < 64
    ensures h < 2 && b < 4 && p < 8 && i == 32 * h + 8 * b + p
  {
    h, b, p := i / 32, i % 32 / 8, i % 8;
  }

  lemma CompressedBit(l: Block, r: Block, x: Pair, i: nat)
    requires HoldsHalf(l, x.l) && HoldsHalf(r, x.r) && i < 64
    ensures Compress(l, r)[i] == (x.l + x.r)[CIFP(i) - 1]
  {
    var h, b, p := SplitIndex(i);
    CompressedAt(l, r, x, h, b, p);
    CifpIsPattern(h, b, p);
  }

  /** CF6464's entry: compression, final permutation, bit reversal. */
  ghost function Cf(m: nat): (v: nat)
    requires m < 64
    ensures 1 <= v <= 64
  {
    CifpInv(FP(Flip(m)) - 1)
  }

  lemma CfCompresses(m: nat)
    requires m < 64
    ensures CIFP(Cf(m) - 1) == FP(Flip(m))
  {
    CifpOfCifpInv(FP(Flip(m)) - 1);
  }

  lemma FlippedBack(a: nat, v: nat, m: nat)
    requires a < 64 && m < 64 && v == FP(a) && a == Flip(m)
    ensures 1 <= IP(v - 1) <= 64 && Flip(IP(v - 1) - 1) == m
  {
    IPInverts(a);
    FlipTwice(m);
  }

  lemma CfInverts(m: nat)
    requires m < 64
    ensures Flip(IP(CIFP(Cf(m) - 1) - 1) - 1) == m
  {
    CfCompresses(m);
    FlippedBack(Flip(m), CIFP(Cf(m) - 1), m);
  }

  lemma CfOfPlace(i: nat)
    requires i < 64
    ensures Cf(Flip(IP(CIFP(i) - 1) - 1)) == i + 1
  {
    CifpInvOfCifp(i);
    FPInverts(CIFP(i) - 1);
    FlipTwice(IP(CIFP(i) - 1) - 1);
  }

  lemma CfOnly(i: nat)
    requires i < 64
    ensures Cf(Flip(IP(CIFP(i) - 1) - 1)) == i + 1
    ensures forall m | 0 <= m < 64 && Cf(m) == i + 1 :: m == Flip(IP(CIFP(i) - 1) - 1)
  {
    CfOfPlace(i);
    forall m | 0 <= m < 64 && Cf(m) == i + 1 ensures m == Flip(IP(CIFP(i) - 1) - 1) {
      CfInverts(m);
    }
  }

  ghost predicate IsCf(perm: seq<nat>) {
    Vector(perm, 64) && forall m | 0 <= m < 64 :: perm[m] == Cf(m)
  }

  method CfVector() returns (perm: seq<nat>)
    ensures IsCf(perm)
  {
    perm := seq(64, _ => 0);
    var i := 0;
    while i < 64
      invariant i <= 64 && |perm| == 64
      invariant forall m | 0 <= m < 64 && Cf(m) <= i :: perm[m] == Cf(m)
    {
      var k := ReverseInByte(IP(CIFP(i) - 1));
      CfOnly(i);
      perm := perm[k - 1 := i + 1];
      i := i + 1;
    }
  }

  lemma CfLeaves(perm: seq<nat>, l: Block, r: Block, x: Pair)
    requires IsCf(perm) && HoldsHalf(l, x.l) && HoldsHalf(r, x.r)
    ensures Permuted(perm, Compress(l, r)) == Leave(x)
  {
    var a, b := Permuted(perm, Compress(l, r)), Leave(x);
    forall m | 0 <= m < 64 ensures a[m] == b[m] {
      CompressedBit(l, r, x, Cf(m) - 1);
      CifpOfCifpInv(FP(Flip(m)) - 1);
    }
  }
}
