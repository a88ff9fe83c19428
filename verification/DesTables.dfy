/** The tables of crypt.c, entry by entry, and what DES needs to know of them. */
module DesTables {
  function Row4(c: nat, x0: nat, x1: nat, x2: nat, x3: nat): nat {
    if c == 0 then x0
    else if c == 1 then x1
    else if c == 2 then x2
    else x3
  }

  function Row6(c: nat, x0: nat, x1: nat, x2: nat, x3: nat, x4: nat, x5: nat): nat {
    if c == 0 then x0
    else if c == 1 then x1
    else if c == 2 then x2
    else if c == 3 then x3
    else if c == 4 then x4
    else x5
  }

  function Row7(c: nat, x0: nat, x1: nat, x2: nat, x3: nat, x4: nat, x5: nat, x6: nat): nat {
    if c == 0 then x0
    else if c == 1 then x1
    else if c == 2 then x2
    else if c == 3 then x3
    else if c == 4 then x4
    else if c == 5 then x5
    else x6
  }

  function Row8(c: nat, x0: nat, x1: nat, x2: nat, x3: nat, x4: nat, x5: nat, x6: nat, x7: nat): nat {
    if c == 0 then x0
    else if c == 1 then x1
    else if c == 2 then x2
    else if c == 3 then x3
    else if c == 4 then x4
    else if c == 5 then x5
    else if c == 6 then x6
    else x7
  }

  function Row16(c: nat, x0: nat, x1: nat, x2: nat, x3: nat, x4: nat, x5: nat, x6: nat, x7: nat,
                 x8: nat, x9: nat, x10: nat, x11: nat, x12: nat, x13: nat, x14: nat, x15: nat): nat {
    if c < 8 then
      if c < 4 then
        if c < 2 then (if c < 1 then x0 else x1) else (if c < 3 then x2 else x3)
      else
        if c < 6 then (if c < 5 then x4 else x5) else (if c < 7 then x6 else x7)
    else
      if c < 12 then
        if c < 10 then (if c < 9 then x8 else x9) else (if c < 11 then x10 else x11)
      else
        if c < 14 then (if c < 13 then x12 else x13) else (if c < 15 then x14 else x15)
  }

  /** Initial permutation. */
  function IP(i: nat): (v: nat)
    requires i < 64
    ensures 1 <= v <= 64
  {
    if i < 8 then Row8(i - 0, 58, 50, 42, 34, 26, 18, 10,  2)
    else if i < 16 then Row8(i - 8, 60, 52, 44, 36, 28, 20, 12,  4)
    else if i < 24 then Row8(i - 16, 62, 54, 46, 38, 30, 22, 14,  6)
    else if i < 32 then Row8(i - 24, 64, 56, 48, 40, 32, 24, 16,  8)
    else if i < 40 then Row8(i - 32, 57, 49, 41, 33, 25, 17,  9,  1)
    else if i < 48 then Row8(i - 40, 59, 51, 43, 35, 27, 19, 11,  3)
    else if i < 56 then Row8(i - 48, 61, 53, 45, 37, 29, 21, 13,  5)
    else Row8(i - 56, 63, 55, 47, 39, 31, 23, 15,  7)
  }

  /** The final permutation of FIPS 46-3, section "Enciphering"; crypt.c inverts IP instead. */
  function FP(i: nat): (v: nat)
    requires i < 64
    ensures 1 <= v <= 64
  {
    if i < 8 then Row8(i - 0, 40,  8, 48, 16, 56, 24, 64, 32)
    else if i < 16 then Row8(i - 8, 39,  7, 47, 15, 55, 23, 63, 31)
    else if i < 24 then Row8(i - 16, 38,  6, 46, 14, 54, 22, 62, 30)
    else if i < 32 then Row8(i - 24, 37,  5, 45, 13, 53, 21, 61, 29)
    else if i < 40 then Row8(i - 32, 36,  4, 44, 12, 52, 20, 60, 28)
    else if i < 48 then Row8(i - 40, 35,  3, 43, 11, 51, 19, 59, 27)
    else if i < 56 then Row8(i - 48, 34,  2, 42, 10, 50, 18, 58, 26)
    else Row8(i - 56, 33,  1, 41,  9, 49, 17, 57, 25)
  }

  /** Expansion operation. */
  function ExpandTr(i: nat): (v: nat)
    requires i < 48
    ensures 1 <= v <= 32
  {
    if i < 6 then Row6(i - 0, 32,  1,  2,  3,  4,  5)
    else if i < 12 then Row6(i - 6,  4,  5,  6,  7,  8,  9)
    else if i < 18 then Row6(i - 12,  8,  9, 10, 11, 12, 13)
    else if i < 24 then Row6(i - 18, 12, 13, 14, 15, 16, 17)
    else if i < 30 then Row6(i - 24, 16, 17, 18, 19, 20, 21)
    else if i < 36 then Row6(i - 30, 20, 21, 22, 23, 24, 25)
    else if i < 42 then Row6(i - 36, 24, 25, 26, 27, 28, 29)
    else Row6(i - 42, 28, 29, 30, 31, 32,  1)
  }

  /** Permuted choice 1. */
  function PC1(i: nat): (v: nat)
    requires i < 56
    ensures 1 <= v <= 64
  {
    if i < 7 then Row7(i - 0, 57, 49, 41, 33, 25, 17,  9)
    else if i < 14 then Row7(i - 7,  1, 58, 50, 42, 34, 26, 18)
    else if i < 21 then Row7(i - 14, 10,  2, 59, 51, 43, 35, 27)
    else if i < 28 then Row7(i - 21, 19, 11,  3, 60, 52, 44, 36)
    else if i < 35 then Row7(i - 28, 63, 55, 47, 39, 31, 23, 15)
    else if i < 42 then Row7(i - 35,  7, 62, 54, 46, 38, 30, 22)
    else if i < 49 then Row7(i - 42, 14,  6, 61, 53, 45, 37, 29)
    else Row7(i - 49, 21, 13,  5, 28, 20, 12,  4)
  }

  /** Rotation schedule. */
  function Rotates(i: nat): (v: nat)
    requires i < 16
    ensures 1 <= v <= 2
  {
    if i < 8 then Row8(i - 0,  1,  1,  2,  2,  2,  2,  2,  2)
    else Row8(i - 8,  1,  2,  2,  2,  2,  2,  2,  1)
  }

  /** Permuted choice 2, each row padded on the left with bits that make it invertible. */
  function PC2(i: nat): (v: nat)
    requires i < 64
    ensures 0 <= v <= 56
  {
    if i < 8 then Row8(i - 0,  9, 18, 14, 17, 11, 24,  1,  5)
    else if i < 16 then Row8(i - 8, 22, 25,  3, 28, 15,  6, 21, 10)
    else if i < 24 then Row8(i - 16, 35, 38, 23, 19, 12,  4, 26,  8)
    else if i < 32 then Row8(i - 24, 43, 54, 16,  7, 27, 20, 13,  2)
    else if i < 40 then Row8(i - 32,  0,  0, 41, 52, 31, 37, 47, 55)
    else if i < 48 then Row8(i - 40,  0,  0, 30, 40, 51, 45, 33, 48)
    else if i < 56 then Row8(i - 48,  0,  0, 44, 49, 39, 56, 34, 53)
    else Row8(i - 56,  0,  0, 46, 42, 50, 36, 29, 32)
  }

  /** The permutation after the substitution. */
  function P32Tr(i: nat): (v: nat)
    requires i < 32
    ensures 1 <= v <= 32
  {
    if i < 4 then Row4(i - 0, 16,  7, 20, 21)
    else if i < 8 then Row4(i - 4, 29, 12, 28, 17)
    else if i < 12 then Row4(i - 8,  1, 15, 23, 26)
    else if i < 16 then Row4(i - 12,  5, 18, 31, 10)
    else if i < 20 then Row4(i - 16,  2,  8, 24, 14)
    else if i < 24 then Row4(i - 20, 32, 27,  3,  9)
    else if i < 28 then Row4(i - 24, 19, 13, 30,  6)
    else Row4(i - 28, 22, 11,  4, 25)
  }

  /** Compressed and interleaved order of the bits before the final permutation. */
  function CIFP(i: nat): (v: nat)
    requires i < 64
    ensures 1 <= v <= 64
  {
    if i < 8 then Row8(i - 0,  1,  2,  3,  4, 17, 18, 19, 20)
    else if i < 16 then Row8(i - 8,  5,  6,  7,  8, 21, 22, 23, 24)
    else if i < 24 then Row8(i - 16,  9, 10, 11, 12, 25, 26, 27, 28)
    else if i < 32 then Row8(i - 24, 13, 14, 15, 16, 29, 30, 31, 32)
    else if i < 40 then Row8(i - 32, 33, 34, 35, 36, 49, 50, 51, 52)
    else if i < 48 then Row8(i - 40, 37, 38, 39, 40, 53, 54, 55, 56)
    else if i < 56 then Row8(i - 48, 41, 42, 43, 44, 57, 58, 59, 60)
    else Row8(i - 56, 45, 46, 47, 48, 61, 62, 63, 64)
  }

  /** Where CIFP puts each bit of the preoutput. */
  function CifpInv(i: nat): (v: nat)
    requires i < 64
    ensures 1 <= v <= 64
  {
    if i < 8 then Row8(i - 0,  1,  2,  3,  4,  9, 10, 11, 12)
    else if i < 16 then Row8(i - 8, 17, 18, 19, 20, 25, 26, 27, 28)
    else if i < 24 then Row8(i - 16,  5,  6,  7,  8, 13, 14, 15, 16)
    else if i < 32 then Row8(i - 24, 21, 22, 23, 24, 29, 30, 31, 32)
    else if i < 40 then Row8(i - 32, 33, 34, 35, 36, 41, 42, 43, 44)
    else if i < 48 then Row8(i - 40, 49, 50, 51, 52, 57, 58, 59, 60)
    else if i < 56 then Row8(i - 48, 37, 38, 39, 40, 45, 46, 47, 48)
    else Row8(i - 56, 53, 54, 55, 56, 61, 62, 63, 64)
  }

  /** Where PC2 puts each of its 56 input bits. */
  function Pc2Inv(i: nat): (v: nat)
    requires i < 56
    ensures 1 <= v <= 64
  {
    if i < 8 then Row8(i - 0,  7, 32, 11, 22,  8, 14, 28, 24)
    else if i < 16 then Row8(i - 8,  1, 16,  5, 21, 31,  3, 13, 27)
    else if i < 24 then Row8(i - 16,  4,  2, 20, 30, 15,  9, 19,  6)
    else if i < 32 then Row8(i - 24, 10, 23, 29, 12, 63, 43, 37, 64)
    else if i < 40 then Row8(i - 32, 47, 55, 17, 62, 38, 18, 53, 44)
    else if i < 48 then Row8(i - 40, 35, 60, 25, 51, 46, 59, 39, 48)
    else Row8(i - 48, 52, 61, 45, 36, 56, 26, 40, 54)
  }

  lemma IPPairs(j: nat)
    requires j < 32
    ensures 2 <= IP(j) <= 64 && IP(j) % 2 == 0 && IP(j + 32) == IP(j) - 1
  {
  }

  lemma FPInverts(q: nat)
    requires q < 64
    ensures 1 <= IP(q) <= 64 && FP(IP(q) - 1) == q + 1
  {
  }

  lemma IPInverts(n: nat)
    requires n < 64
    ensures 1 <= FP(n) <= 64 && IP(FP(n) - 1) == n + 1
  {
  }

  /** The middle four bits of each group of six are the four bits it is made from. */
  lemma ExpandMiddle(g: nat, c: nat)
    requires g < 8 && 1 <= c <= 4
    ensures ExpandTr(6 * g + c) == 4 * g + c
  {
  }

  lemma PC2Ranges(i: nat)
    requires i < 64
    ensures PC2(i) <= 56 && (PC2(i) > 0 ==> Pc2Inv(PC2(i) - 1) == i + 1)
  {
  }

  lemma CifpIsPattern(h: nat, b: nat, p: nat)
    requires h < 2 && b < 4 && p < 8
    ensures CIFP(32 * h + 8 * b + p) == 32 * h + 4 * b + (if p < 4 then p + 1 else p + 13)
  {
  }

  lemma CifpInvOfCifp(i: nat)
    requires i < 64
    ensures CifpInv(CIFP(i) - 1) == i + 1
  {
  }

  lemma CifpOfCifpInv(q: nat)
    requires q < 64
    ensures CIFP(CifpInv(q) - 1) == q + 1
  {
  }

  /** The padding: a real bit in the first four rows' padding, none in the others', and six
      real bits in every row. */
  lemma PC2Rows(g: nat, c: nat)
    requires g < 8 && c < 6
    ensures PC2(8 * g + 2 + c) > 0
  {
  }

  lemma PC2Low(g: nat)
    requires 4 <= g < 8
    ensures PC2(8 * g) == 0 && PC2(8 * g + 1) == 0
  {
  }

  lemma PC2Onto(v: nat)
    requires v < 56
    ensures 1 <= Pc2Inv(v) <= 64 && PC2(Pc2Inv(v) - 1) == v + 1
  {
  }
}
