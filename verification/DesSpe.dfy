/** The merged S, P and E tables of crypt.c, and the round that looks them up. */
module DesSpe {
  import opened DesPermute
  import opened DesTables
  import opened DesFips
  import opened DesSchedule
  import opened DesInit

  type Word = w: seq<bool> | |w| == 32 witness seq(32, _ => false)

  const ZeroWord: Word := seq(32, _ => false)

  /** The row and column of an S box for six bits read as a number, first bit lowest. */
  function TableIndex(j: nat): (k: nat)
    ensures k < 64
  {
    32 * AsNat(Bit(j, 0)) + 8 * AsNat(Bit(j, 1)) + 4 * AsNat(Bit(j, 2))
      + 2 * AsNat(Bit(j, 3)) + AsNat(Bit(j, 4)) + 16 * AsNat(Bit(j, 5))
  }

  /** The bit of the round function's input to P that expanded output bit `i` carries. */
  function PSource(i: nat): (q: nat)
    requires i < 48
    ensures q < 32
  {
    P32Tr(ExpandTr(i) - 1) - 1
  }

  /** Box `t`, given the six bits `j`, sets bit `q` of the input to P. */
  function BoxSets(t: nat, j: nat, q: nat): bool
    requires t < 8
  {
    q / 4 == t && Bit(S(t, TableIndex(j)), 3 - q % 4)
  }

  /** What it contributes to expanded output bit `i`. */
  function Contribution(t: nat, j: nat, i: nat): bool
    requires t < 8 && i < 48
  {
    BoxSets(t, j, PSource(i))
  }

  /** The table word: 24 contributions in 4*(6+2) form. */
  ghost predicate IsSpeWord(w: Word, h: nat, t: nat, j: nat)
    requires h < 2 && t < 8
  {
    forall x {:trigger w[x]} | 0 <= x < 32 ::
      w[x] == (x % 8 >= 2 && Contribution(t, j, 24 * h + 6 * (x / 8) + x % 8 - 2))
  }

  /** TO_SIX_BIT. */
  function ToSixBit(k: nat): (w: Word)
    ensures forall x {:trigger w[x]} | 0 <= x < 32 :: w[x] == (x % 8 >= 2 && Bit(k, 6 * (x / 8) + x % 8 - 2))
  {
    seq(32, x requires 0 <= x < 32 => x % 8 >= 2 && Bit(k, 6 * (x / 8) + x % 8 - 2))
  }

  /** Shifts the 24 bits of half `h` together, the last of them first. */
  method Gather(tmp32: seq<bool>, perm: seq<nat>, h: nat) returns (k: nat)
    requires |tmp32| == 32 && |perm| == 48 && h < 2
    requires forall i | 0 <= i < 48 :: 1 <= perm[i] <= 32
    ensures forall m | 0 <= m < 24 :: Bit(k, m) == tmp32[perm[m + 24 * h] - 1]
  {
    k := 0;
    var i := 24;
    while i > 0
      invariant i <= 24
      invariant forall n | 0 <= n < 24 - i :: Bit(k, n) == tmp32[perm[i + n + 24 * h] - 1]
    {
      i := i - 1;
      var b := tmp32[perm[i + 24 * h] - 1];
      ghost var was := k;
      k := 2 * k + AsNat(b);
      assert k / 2 == was && Bit(k, 0) == b;
      forall n | 0 <= n < 24 - i ensures Bit(k, n) == tmp32[perm[i + n + 24 * h] - 1] {
        if n > 0 {
          assert Bit(k, n) == Bit(was, n - 1);
        }
      }
    }
  }

  /** The first `i` of the bits `w` stand at the places of box `tableno`, and no other bit is set. */
  ghost predicate Placed(tmp32: seq<bool>, tableno: nat, i: nat, w: seq<bool>) {
    |w| == 4 && |tmp32| == 32
    && forall q | 0 <= q < 32 :: tmp32[q] == (q / 4 == tableno && q % 4 < i && w[q % 4])
  }

  lemma PlaceNext(tmp32: seq<bool>, tableno: nat, i: nat, w: seq<bool>)
    requires Placed(tmp32, tableno, i, w) && i < 4 && tableno < 8
    ensures Placed(tmp32[4 * tableno + i := w[i]], tableno, i + 1, w)
  {
    var next := tmp32[4 * tableno + i := w[i]];
    forall q | 0 <= q < 32 ensures next[q] == (q / 4 == tableno && q % 4 < i + 1 && w[q % 4]) {
      assert q == 4 * (q / 4) + q % 4;
    }
  }

  /** The four bits of a box's output, at the box's places among the 32, first bit first. */
  method NibbleBits(tableno: nat, s: nat) returns (tmp32: seq<bool>)
    requires tableno < 8
    ensures |tmp32| == 32
    ensures forall q | 0 <= q < 32 :: tmp32[q] == (q / 4 == tableno && Bit(s, 3 - q % 4))
  {
    var k := AsNat(Bit(s, 3)) + 2 * AsNat(Bit(s, 2)) + 4 * AsNat(Bit(s, 1)) + 8 * AsNat(Bit(s, 0));
    FourBits(Bit(s, 3), Bit(s, 2), Bit(s, 1), Bit(s, 0));
    ghost var w := [Bit(s, 3), Bit(s, 2), Bit(s, 1), Bit(s, 0)];
    tmp32 := PlaceFour(tableno, k, w);
    forall q | 0 <= q < 32 ensures tmp32[q] == (q / 4 == tableno && Bit(s, 3 - q % 4)) {
      assert w[q % 4] == Bit(s, 3 - q % 4);
    }
  }

  /** What box `tableno` sets for `j`. */
  method SubstitutedBits(tableno: nat, j: nat) returns (tmp32: seq<bool>)
    requires tableno < 8 && j < 64
    ensures |tmp32| == 32
    ensures forall q | 0 <= q < 32 :: tmp32[q] == BoxSets(tableno, j, q)
  {
    tmp32 := NibbleBits(tableno, S(tableno, TableIndex(j)));
  }

  method PlaceFour(tableno: nat, k: nat, ghost w: seq<bool>) returns (tmp32: seq<bool>)
    requires tableno < 8 && |w| == 4 && forall i | 0 <= i < 4 :: w[i] == Bit(k, i)
    ensures Placed(tmp32, tableno, 4, w)
  {
    tmp32 := seq(32, _ => false);
    var i := 0;
    while i < 4
      invariant i <= 4 && Placed(tmp32, tableno, i, w)
    {
      PlaceNext(tmp32, tableno, i, w);
      tmp32 := tmp32[4 * tableno + i := Bit(k, i)];
      i := i + 1;
    }
  }

  lemma FourBits(a: bool, b: bool, c: bool, d: bool)
    ensures var k := AsNat(a) + 2 * AsNat(b) + 4 * AsNat(c) + 8 * AsNat(d);
      Bit(k, 0) == a && Bit(k, 1) == b && Bit(k, 2) == c && Bit(k, 3) == d
  {
    var x: Block := [a, b, c, d] + seq(60, _ => false);
    NibbleBit(x, 0, 0);
    NibbleBit(x, 0, 1);
    NibbleBit(x, 0, 2);
    NibbleBit(x, 0, 3);
  }

  /** The SPE tables: SPE[h][t][j]. */
  ghost predicate IsSpe(spe: array3<Word>)
    reads spe
  {
    && spe.Length0 == 2 && spe.Length1 == 8 && spe.Length2 == 64
    && forall h, t, j | 0 <= h < 2 && 0 <= t < 8 && 0 <= j < 64 :: IsSpeWord(spe[h, t, j], h, t, j)
  }

  lemma ContributionBit(perm: seq<nat>, h: nat, t: nat, j: nat, tmp32: seq<bool>, k: nat, m: nat)
    requires h < 2 && t < 8 && m < 24
    requires |perm| == 48 && perm[m + 24 * h] == PSource(m + 24 * h) + 1
    requires |tmp32| == 32 && forall q | 0 <= q < 32 ::
      tmp32[q] == BoxSets(t, j, q)
    requires Bit(k, m) == tmp32[perm[m + 24 * h] - 1]
    ensures Bit(k, m) == Contribution(t, j, 24 * h + m)
  {
  }

  method SpeWord(perm: seq<nat>, h: nat, t: nat, j: nat, tmp32: seq<bool>) returns (w: Word)
    requires h < 2 && t < 8 && j < 64
    requires |perm| == 48 && forall i | 0 <= i < 48 :: perm[i] == PSource(i) + 1
    requires |tmp32| == 32 && forall q | 0 <= q < 32 ::
      tmp32[q] == BoxSets(t, j, q)
    ensures IsSpeWord(w, h, t, j)
  {
    var k := Gather(tmp32, perm, h);
    w := ToSixBit(k);
    forall x | 0 <= x < 32
      ensures w[x] == (x % 8 >= 2 && Contribution(t, j, 24 * h + 6 * (x / 8) + x % 8 - 2))
    {
      if x % 8 >= 2 {
        ContributionBit(perm, h, t, j, tmp32, k, 6 * (x / 8) + x % 8 - 2);
      }
    }
  }

  method BuildSpe(spe: array3<Word>)
    requires spe.Length0 == 2 && spe.Length1 == 8 && spe.Length2 == 64
    modifies spe
    ensures IsSpe(spe)
  {
    var perm := seq(48, i requires 0 <= i < 48 => P32Tr(ExpandTr(i) - 1));
    var t := 0;
    while t < 8
      invariant t <= 8
      invariant forall h, t', j | 0 <= h < 2 && 0 <= t' < t && 0 <= j < 64 :: IsSpeWord(spe[h, t', j], h, t', j)
    {
      var j := 0;
      while j < 64
        invariant j <= 64
        invariant forall h, t', j' | 0 <= h < 2 && 0 <= t' < t && 0 <= j' < 64 ::
          IsSpeWord(spe[h, t', j'], h, t', j')
        invariant forall h, j' | 0 <= h < 2 && 0 <= j' < j :: IsSpeWord(spe[h, t, j'], h, t, j')
      {
        var tmp32 := SubstitutedBits(t, j);
        var w0 := SpeWord(perm, 0, t, j, tmp32);
        var w1 := SpeWord(perm, 1, t, j, tmp32);
        spe[0, t, j] := w0;
        spe[1, t, j] := w1;
        j := j + 1;
      }
      t := t + 1;
    }
  }
}
