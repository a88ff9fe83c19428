/** The Data Encryption Algorithm as FIPS 46-3 writes it, bit by bit, with the salt of
    crypt(3) and iteration: what crypt.c is to compute. */
module DesFips {
  import opened DesPermute
  import opened DesTables

  type Half = b: seq<bool> | |b| == 32 witness seq(32, _ => false)
  type Key48 = b: seq<bool> | |b| == 48 witness seq(48, _ => false)
  type Key56 = b: seq<bool> | |b| == 56 witness seq(56, _ => false)

  /** The eight substitution boxes, each as 4 rows of 16. */
  function S(box: nat, i: nat): (v: nat)
    requires box < 8 && i < 64
    ensures v < 16
  {
    var row, c := i / 16, i % 16;
    if box == 0 then
      if row == 0 then Row16(c, 14,  4, 13,  1,  2, 15, 11,  8,  3, 10,  6, 12,  5,  9,  0,  7)
      else if row == 1 then Row16(c,  0, 15,  7,  4, 14,  2, 13,  1, 10,  6, 12, 11,  9,  5,  3,  8)
      else if row == 2 then Row16(c,  4,  1, 14,  8, 13,  6,  2, 11, 15, 12,  9,  7,  3, 10,  5,  0)
      else Row16(c, 15, 12,  8,  2,  4,  9,  1,  7,  5, 11,  3, 14, 10,  0,  6, 13)
    else if box == 1 then
      if row == 0 then Row16(c, 15,  1,  8, 14,  6, 11,  3,  4,  9,  7,  2, 13, 12,  0,  5, 10)
      else if row == 1 then Row16(c,  3, 13,  4,  7, 15,  2,  8, 14, 12,  0,  1, 10,  6,  9, 11,  5)
      else if row == 2 then Row16(c,  0, 14,  7, 11, 10,  4, 13,  1,  5,  8, 12,  6,  9,  3,  2, 15)
      else Row16(c, 13,  8, 10,  1,  3, 15,  4,  2, 11,  6,  7, 12,  0,  5, 14,  9)
    else if box == 2 then
      if row == 0 then Row16(c, 10,  0,  9, 14,  6,  3, 15,  5,  1, 13, 12,  7, 11,  4,  2,  8)
      else if row == 1 then Row16(c, 13,  7,  0,  9,  3,  4,  6, 10,  2,  8,  5, 14, 12, 11, 15,  1)
      else if row == 2 then Row16(c, 13,  6,  4,  9,  8, 15,  3,  0, 11,  1,  2, 12,  5, 10, 14,  7)
      else Row16(c,  1, 10, 13,  0,  6,  9,  8,  7,  4, 15, 14,  3, 11,  5,  2, 12)
    else if box == 3 then
      if row == 0 then Row16(c,  7, 13, 14,  3,  0,  6,  9, 10,  1,  2,  8,  5, 11, 12,  4, 15)
      else if row == 1 then Row16(c, 13,  8, 11,  5,  6, 15,  0,  3,  4,  7,  2, 12,  1, 10, 14,  9)
      else if row == 2 then Row16(c, 10,  6,  9,  0, 12, 11,  7, 13, 15,  1,  3, 14,  5,  2,  8,  4)
      else Row16(c,  3, 15,  0,  6, 10,  1, 13,  8,  9,  4,  5, 11, 12,  7,  2, 14)
    else if box == 4 then
      if row == 0 then Row16(c,  2, 12,  4,  1,  7, 10, 11,  6,  8,  5,  3, 15, 13,  0, 14,  9)
      else if row == 1 then Row16(c, 14, 11,  2, 12,  4,  7, 13,  1,  5,  0, 15, 10,  3,  9,  8,  6)
      else if row == 2 then Row16(c,  4,  2,  1, 11, 10, 13,  7,  8, 15,  9, 12,  5,  6,  3,  0, 14)
      else Row16(c, 11,  8, 12,  7,  1, 14,  2, 13,  6, 15,  0,  9, 10,  4,  5,  3)
    else if box == 5 then
      if row == 0 then Row16(c, 12,  1, 10, 15,  9,  2,  6,  8,  0, 13,  3,  4, 14,  7,  5, 11)
      else if row == 1 then Row16(c, 10, 15,  4,  2,  7, 12,  9,  5,  6,  1, 13, 14,  0, 11,  3,  8)
      else if row == 2 then Row16(c,  9, 14, 15,  5,  2,  8, 12,  3,  7,  0,  4, 10,  1, 13, 11,  6)
      else Row16(c,  4,  3,  2, 12,  9,  5, 15, 10, 11, 14,  1,  7,  6,  0,  8, 13)
    else if box == 6 then
      if row == 0 then Row16(c,  4, 11,  2, 14, 15,  0,  8, 13,  3, 12,  9,  7,  5, 10,  6,  1)
      else if row == 1 then Row16(c, 13,  0, 11,  7,  4,  9,  1, 10, 14,  3,  5, 12,  2, 15,  8,  6)
      else if row == 2 then Row16(c,  1,  4, 11, 13, 12,  3,  7, 14, 10, 15,  6,  8,  0,  5,  9,  2)
      else Row16(c,  6, 11, 13,  8,  1,  4, 10,  7,  9,  5,  0, 15, 14,  2,  3, 12)
    else
      if row == 0 then Row16(c, 13,  2,  8,  4,  6, 15, 11,  1, 10,  9,  3, 14,  5,  0, 12,  7)
      else if row == 1 then Row16(c,  1, 15, 13,  8, 10,  3,  7,  4, 12,  5,  6, 11,  0, 14,  9,  2)
      else if row == 2 then Row16(c,  7, 11,  4,  1,  9, 12, 14,  2,  0,  6, 10, 13, 15,  3,  5,  8)
      else Row16(c,  2,  1, 14,  7,  4, 10,  8, 13, 15, 12,  9,  0,  3,  5,  6, 11)
  }

  /** FIPS 46-3 numbers the bits of a block from the most significant end of each byte. */
  function Flip(i: nat): (j: nat)
    ensures i < 64 ==> j < 64
  {
    8 * (i / 8) + 7 - i % 8
  }

  lemma FlipTwice(i: nat)
    ensures Flip(Flip(i)) == i
  {
  }

  function Xor(a: seq<bool>, b: seq<bool>): (c: seq<bool>)
    requires |a| == |b|
    ensures |c| == |a| && forall i | 0 <= i < |a| :: c[i] == (a[i] != b[i])
  {
    seq(|a|, i requires 0 <= i < |a| => a[i] != b[i])
  }

  function Expand(r: Half): (e: Key48)
    ensures forall i {:trigger e[i]} | 0 <= i < 48 :: e[i] == r[ExpandTr(i) - 1]
  {
    seq(48, i requires 0 <= i < 48 => r[ExpandTr(i) - 1])
  }

  /** Where bit `i` of the salt is set, bits `i` and `i + 24` change places. */
  function SaltSwap(x: Key48, salt: nat): (y: Key48)
    ensures forall i {:trigger y[i]} | 0 <= i < 24 :: y[i] == if Bit(salt, i) then x[i + 24] else x[i]
    ensures forall i {:trigger y[i]} | 24 <= i < 48 :: y[i] == if Bit(salt, i - 24) then x[i - 24] else x[i]
  {
    seq(48, i requires 0 <= i < 48 =>
      if i < 24 then if Bit(salt, i) then x[i + 24] else x[i]
      else if Bit(salt, i - 24) then x[i - 24] else x[i])
  }

  /** The row and column that six bits select: the outer two, and the inner four. */
  function BoxIndex(x: Key48, g: nat): (i: nat)
    requires g < 8
    ensures i < 64
  {
    16 * (2 * AsNat(x[6 * g]) + AsNat(x[6 * g + 5]))
      + 8 * AsNat(x[6 * g + 1]) + 4 * AsNat(x[6 * g + 2]) + 2 * AsNat(x[6 * g + 3]) + AsNat(x[6 * g + 4])
  }

  function Substitute(x: Key48): (s: Half)
    ensures forall i {:trigger s[i]} | 0 <= i < 32 :: s[i] == Bit(S(i / 4, BoxIndex(x, i / 4)), 3 - i % 4)
  {
    seq(32, i requires 0 <= i < 32 => Bit(S(i / 4, BoxIndex(x, i / 4)), 3 - i % 4))
  }

  function PermuteP(s: Half): (t: Half)
    ensures forall i {:trigger t[i]} | 0 <= i < 32 :: t[i] == s[P32Tr(i) - 1]
  {
    seq(32, i requires 0 <= i < 32 => s[P32Tr(i) - 1])
  }

  /** The cipher function f. */
  function F(r: Half, k: Key48, salt: nat): Half {
    PermuteP(Substitute(Xor(SaltSwap(Expand(r), salt), k)))
  }

  datatype Pair = Pair(l: Half, r: Half) {
    function Swap(): Pair { Pair(r, l) }
  }

  function Round(x: Pair, k: Key48, salt: nat): Pair {
    Pair(x.r, Xor(x.l, F(x.r, k, salt)))
  }

  function Rounds(x: Pair, ks: seq<Key48>, salt: nat): Pair
    decreases |ks|
  {
    if ks == [] then x else Rounds(Round(x, ks[0], salt), ks[1..], salt)
  }

  function Reverse(ks: seq<Key48>): seq<Key48> {
    if ks == [] then [] else Reverse(ks[1..]) + [ks[0]]
  }

  /** `n` times the rounds, the halves exchanged after each. */
  function Iterate(x: Pair, ks: seq<Key48>, salt: nat, n: nat): Pair
    decreases n
  {
    if n == 0 then x else Iterate(Rounds(x, ks, salt).Swap(), ks, salt, n - 1)
  }

  /** The initial permutation of a block, as two halves. */
  function Enter(b: Block): (x: Pair)
    ensures forall i {:trigger x.l[i]} | 0 <= i < 32 :: x.l[i] == b[Flip(IP(i) - 1)]
    ensures forall i {:trigger x.r[i]} | 0 <= i < 32 :: x.r[i] == b[Flip(IP(i + 32) - 1)]
  {
    Pair(seq(32, i requires 0 <= i < 32 => b[Flip(IP(i) - 1)]),
         seq(32, i requires 0 <= i < 32 => b[Flip(IP(i + 32) - 1)]))
  }

  /** The final permutation of two halves, as a block. */
  function Leave(x: Pair): (b: Block)
    ensures forall i {:trigger b[i]} | 0 <= i < 64 :: b[i] == (x.l + x.r)[FP(Flip(i)) - 1]
  {
    seq(64, i requires 0 <= i < 64 => (x.l + x.r)[FP(Flip(i)) - 1])
  }

  /** `n` iterations of DES with the given subkeys; backwards if `n` is negative. */
  function Cipher(b: Block, ks: seq<Key48>, salt: nat, n: int): Block {
    if n >= 0 then Leave(Iterate(Enter(b), ks, salt, n))
    else Leave(Iterate(Enter(b), Reverse(ks), salt, -n))
  }
}
