/** The key schedule: FIPS 46-3's, and the transformation vectors with which crypt.c turns
    one subkey into the next. */
module DesSchedule {
  import opened DesPermute
  import opened DesTables
  import opened DesFips

  // ---------------------------------------------------------------- FIPS 46-3

  function FirstCD(key: Block): (cd: Key56)
    ensures forall j {:trigger cd[j]} | 0 <= j < 56 :: cd[j] == key[Flip(PC1(j) - 1)]
  {
    seq(56, j requires 0 <= j < 56 => key[Flip(PC1(j) - 1)])
  }

  /** Where, before rotating both halves left by `r`, the bit now at `j` was. */
  function RotFrom(j: nat, r: nat): (i: nat)
    requires j < 56
    ensures i < 56
  {
    if j < 28 then (j + r) % 28 else 28 + (j - 28 + r) % 28
  }

  function RotateLeft(cd: Key56, r: nat): (out: Key56)
    ensures forall j {:trigger out[j]} | 0 <= j < 56 :: out[j] == cd[RotFrom(j, r)]
  {
    seq(56, j requires 0 <= j < 56 => cd[RotFrom(j, r)])
  }

  /** The two halves from which the subkey of round `i`, counted from 0, is chosen. */
  function CD(key: Block, i: nat): Key56
    requires i < 16
  {
    RotateLeft(if i == 0 then FirstCD(key) else CD(key, i - 1), Rotates(i))
  }

  lemma NextCD(key: Block, i: nat)
    requires 0 < i < 16
    ensures CD(key, i) == RotateLeft(CD(key, i - 1), Rotates(i))
  {
  }

  function Subkey(key: Block, i: nat): (k: Key48)
    requires i < 16
  {
    Choose(CD(key, i))
  }

  /** FIPS 46-3's own PC2: the rows without their padding. */
  function StandardPC2(x: nat): (v: nat)
    requires x < 48
    ensures 1 <= v <= 56
  {
    PC2Rows(x / 6, x % 6);
    PC2(8 * (x / 6) + 2 + x % 6)
  }

  /** Permuted choice 2. */
  function Choose(cd: Key56): (k: Key48)
    ensures forall x {:trigger k[x]} | 0 <= x < 48 :: k[x] == cd[StandardPC2(x) - 1]
  {
    seq(48, x requires 0 <= x < 48 => cd[StandardPC2(x) - 1])
  }

  function Subkeys(key: Block): (ks: seq<Key48>)
    ensures |ks| == 16 && forall i {:trigger ks[i]} | 0 <= i < 16 :: ks[i] == Subkey(key, i)
  {
    seq(16, i requires 0 <= i < 16 => Subkey(key, i))
  }

  // ---------------------------------------------------------------- crypt.c's packed form

  /** 48 bits as eight bytes of 6+2, the low two bits of each byte zero. */
  function Six(x: Key48): (b: Block)
    ensures forall i {:trigger b[i]} | 0 <= i < 64 :: b[i] == (i % 8 >= 2 && x[6 * (i / 8) + i % 8 - 2])
  {
    seq(64, i requires 0 <= i < 64 => i % 8 >= 2 && x[6 * (i / 8) + i % 8 - 2])
  }

  /** All 56 bits in the order of the padded PC2: the subkey, with the 8 bits it drops kept
      in the low bits of the first four bytes. */
  function Pack(cd: Key56): (b: Block)
    ensures forall i {:trigger b[i]} | 0 <= i < 64 :: b[i] == (PC2(i) > 0 && cd[PC2(i) - 1])
  {
    seq(64, i requires 0 <= i < 64 => PC2(i) > 0 && cd[PC2(i) - 1])
  }

  /** `K0 & ~0x03030303` */
  function DropLow(b: Block): (c: Block)
    ensures forall i {:trigger c[i]} | 0 <= i < 64 :: c[i] == (b[i] && !(i < 32 && i % 8 < 2))
  {
    seq(64, i requires 0 <= i < 64 => b[i] && !(i < 32 && i % 8 < 2))
  }

  lemma PaddedIndex(i: nat) returns (x: nat)
    requires i < 64 && i % 8 >= 2
    ensures x == 6 * (i / 8) + i % 8 - 2 < 48 && 8 * (x / 6) + 2 + x % 6 == i
  {
    var g, c := i / 8, i % 8;
    x := 6 * g + (c - 2);
    assert x / 6 == g && x % 6 == c - 2;
  }

  lemma StandardIsPadded(x: nat, i: nat)
    requires x < 48 && 8 * (x / 6) + 2 + x % 6 == i
    ensures i < 64 && StandardPC2(x) == PC2(i)
  {
  }

  lemma PaddedHigh(i: nat)
    requires i < 64 && i % 8 >= 2
    ensures 6 * (i / 8) + i % 8 - 2 < 48 && PC2(i) == StandardPC2(6 * (i / 8) + i % 8 - 2)
  {
    var x := PaddedIndex(i);
    StandardIsPadded(x, i);
  }

  lemma PaddedLow(i: nat)
    requires 32 <= i < 64 && i % 8 < 2
    ensures PC2(i) == 0
  {
    PC2Low(i / 8);
  }

  lemma DropLowOfPack(cd: Key56)
    ensures DropLow(Pack(cd)) == Six(Choose(cd))
  {
    var a, b := DropLow(Pack(cd)), Six(Choose(cd));
    forall i | 0 <= i < 64 ensures a[i] == b[i] {
      if i % 8 >= 2 {
        PaddedHigh(i);
      } else if i >= 32 {
        PaddedLow(i);
      }
    }
  }

  // ---------------------------------------------------------------- the vectors

  /** The source bit that both vectors take for position `v` of PC2, rotating by `r`. */
  function Rotated(v: nat, r: nat): int {
    var k := v + r - 1;
    if k % 28 < r then k - 28 else k
  }

  lemma RotatedIsRotation(v: nat, r: nat)
    requires 1 <= v <= 56 && 1 <= r <= 2
    ensures Rotated(v, r) == RotFrom(v - 1, r)
  {
  }

  /** PC1ROT's entry: bit reversal, PC1, the first rotation, PC2. */
  ghost function Pc1Rot(x: nat): (v: nat)
    requires x < 64
    ensures v <= 64
  {
    if PC2(x) == 0 then 0 else Flip(PC1(RotFrom(PC2(x) - 1, 1)) - 1) + 1
  }

  /** PC2ROT[r - 1]'s entry: the inverse of PC2, a rotation by `r`, PC2. */
  ghost function Pc2Rot(x: nat, r: nat): (v: nat)
    requires x < 64
    ensures v <= 64
  {
    if PC2(x) == 0 then 0 else Pc2Inv(RotFrom(PC2(x) - 1, r))
  }

  ghost predicate IsPc1Rot(perm: seq<nat>) {
    Vector(perm, 64) && forall x | 0 <= x < 64 :: perm[x] == Pc1Rot(x)
  }

  ghost predicate IsPc2Rot(perm: seq<nat>, r: nat) {
    Vector(perm, 64) && forall x | 0 <= x < 64 :: perm[x] == Pc2Rot(x, r)
  }

  /** Applied to a key, PC1ROT yields the halves of round 0. */
  lemma Pc1RotStarts(perm: seq<nat>, key: Block)
    requires IsPc1Rot(perm)
    ensures Permuted(perm, key) == Pack(CD(key, 0))
  {
    var a, b, cd := Permuted(perm, key), Pack(CD(key, 0)), CD(key, 0);
    forall x | 0 <= x < 64 ensures a[x] == b[x] {
      if PC2(x) > 0 {
        assert cd[PC2(x) - 1] == FirstCD(key)[RotFrom(PC2(x) - 1, 1)];
      }
    }
  }

  /** Applied to any halves, PC2ROT rotates them. */
  lemma Pc2RotContinues(perm: seq<nat>, r: nat, cd: Key56)
    requires IsPc2Rot(perm, r)
    ensures Permuted(perm, Pack(cd)) == Pack(RotateLeft(cd, r))
  {
    var a, b := Permuted(perm, Pack(cd)), Pack(RotateLeft(cd, r));
    forall x | 0 <= x < 64 ensures a[x] == b[x] {
      if PC2(x) > 0 {
        var m := RotFrom(PC2(x) - 1, r);
        PC2Onto(m);
        assert RotateLeft(cd, r)[PC2(x) - 1] == cd[m];
      }
    }
  }

  /** Bit reversal in a byte of a position counted from 1. */
  method ReverseInByte(k0: nat) returns (k: nat)
    ensures k == if k0 == 0 then 0 else Flip(k0 - 1) + 1
  {
    k := k0;
    if k > 0 {
      k := k - 1;
      k := (k / 8 * 8 + 7) - k % 8;
      k := k + 1;
    }
  }

  method Pc1RotVector() returns (perm: seq<nat>)
    ensures IsPc1Rot(perm)
  {
    perm := seq(64, _ => 0);
    var i := 0;
    while i < 64
      invariant i <= 64 && |perm| == 64
      invariant forall x | i <= x < 64 :: perm[x] == 0
      invariant forall x | 0 <= x < i :: perm[x] == Pc1Rot(x)
    {
      var k: int := PC2(i);
      if k != 0 {
        var r := Rotates(0);
        RotatedIsRotation(k, 1);
        k := k + r - 1;
        if k % 28 < r {
          k := k - 28;
        }
        k := ReverseInByte(PC1(k));
        perm := perm[i := k];
      }
      i := i + 1;
    }
  }

  method Pc2Inverse() returns (pc2inv: seq<nat>)
    ensures |pc2inv| == 64 && forall v | 0 <= v < 56 :: pc2inv[v] == Pc2Inv(v)
  {
    pc2inv := seq(64, _ => 0);
    var i := 0;
    while i < 64
      invariant i <= 64 && |pc2inv| == 64
      invariant forall v | 0 <= v < 56 && Pc2Inv(v) <= i :: pc2inv[v] == Pc2Inv(v)
    {
      var k := PC2(i);
      PC2Ranges(i);
      ghost var was := pc2inv;
      if k != 0 {
        pc2inv := pc2inv[k - 1 := i + 1];
      }
      forall v | 0 <= v < 56 && Pc2Inv(v) <= i + 1 ensures pc2inv[v] == Pc2Inv(v) {
        PC2Onto(v);
      }
      i := i + 1;
    }
  }

  method Pc2RotVector(j: nat) returns (perm: seq<nat>)
    requires j < 2
    ensures IsPc2Rot(perm, j + 1)
  {
    var pc2inv := Pc2Inverse();
    perm := seq(64, _ => 0);
    var i := 0;
    while i < 64
      invariant i <= 64 && |perm| == 64
      invariant forall x | i <= x < 64 :: perm[x] == 0
      invariant forall x | 0 <= x < i :: perm[x] == Pc2Rot(x, j + 1)
    {
      var k: int := PC2(i);
      if k != 0 {
        RotatedIsRotation(k, j + 1);
        k := k + j;
        if k % 28 <= j {
          k := k - 28;
        }
        perm := perm[i := pc2inv[k]];
      }
      i := i + 1;
    }
  }
}
