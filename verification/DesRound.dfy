/** The macro CRUNCH: one round of des_cipher, by eight table lookups. */
module DesRound {
  import opened DesPermute
  import opened DesTables
  import opened DesFips
  import opened DesSchedule
  import opened DesInit
  import opened DesSpe

  /** The value of byte `g` of a block. */
  function ByteValue(b: Block, g: nat): (v: nat)
    requires g < 8
    ensures v < 256
  {
    AsNat(b[8 * g]) + 2 * AsNat(b[8 * g + 1]) + 4 * AsNat(b[8 * g + 2]) + 8 * AsNat(b[8 * g + 3])
      + 16 * AsNat(b[8 * g + 4]) + 32 * AsNat(b[8 * g + 5]) + 64 * AsNat(b[8 * g + 6]) + 128 * AsNat(b[8 * g + 7])
  }

  lemma SixBits(a: bool, b: bool, c: bool, d: bool, e: bool, f: bool)
    ensures var j := AsNat(a) + 2 * AsNat(b) + 4 * AsNat(c) + 8 * AsNat(d) + 16 * AsNat(e) + 32 * AsNat(f);
      && Bit(j, 0) == a && Bit(j, 1) == b && Bit(j, 2) == c
      && Bit(j, 3) == d && Bit(j, 4) == e && Bit(j, 5) == f
  {
    var j4 := AsNat(e) + 2 * AsNat(f);
    var j2 := AsNat(c) + 2 * AsNat(d) + 4 * j4;
    var j := AsNat(a) + 2 * AsNat(b) + 4 * j2;
    assert Bit(j4, 0) == e && Bit(j4, 1) == f;
    TwoMore(c, d, j4, 0);
    TwoMore(c, d, j4, 1);
    TwoMore(a, b, j2, 0);
    TwoMore(a, b, j2, 1);
    TwoMore(a, b, j2, 2);
    TwoMore(a, b, j2, 3);
  }

  lemma TwoMore(a: bool, b: bool, j: nat, m: nat)
    ensures var k := AsNat(a) + 2 * AsNat(b) + 4 * j;
      Bit(k, 0) == a && Bit(k, 1) == b && Bit(k, m + 2) == Bit(j, m)
  {
    var k := AsNat(a) + 2 * AsNat(b) + 4 * j;
    assert k / 2 == AsNat(b) + 2 * j && k / 2 / 2 == j;
    assert Bit(k, m + 2) == Bit(k / 2, m + 1) == Bit(k / 2 / 2, m);
    assert Bit(k / 2, 0) == b && Bit(k, 1) == Bit(k / 2, 0);
  }

  function SixValue(a: bool, b: bool, c: bool, d: bool, e: bool, f: bool): (j: nat)
    ensures j < 64
  {
    AsNat(a) + 2 * AsNat(b) + 4 * AsNat(c) + 8 * AsNat(d) + 16 * AsNat(e) + 32 * AsNat(f)
  }

  lemma ByteFrom(w: Block, x: Key48, g: nat)
    requires g < 8 && !w[8 * g] && !w[8 * g + 1]
    requires w[8 * g + 2] == x[6 * g] && w[8 * g + 3] == x[6 * g + 1] && w[8 * g + 4] == x[6 * g + 2]
    requires w[8 * g + 5] == x[6 * g + 3] && w[8 * g + 6] == x[6 * g + 4] && w[8 * g + 7] == x[6 * g + 5]
    ensures ByteValue(w, g)
         == 4 * SixValue(x[6 * g], x[6 * g + 1], x[6 * g + 2], x[6 * g + 3], x[6 * g + 4], x[6 * g + 5])
  {
  }

  lemma ByteOfSix(x: Key48, g: nat)
    requires g < 8
    ensures ByteValue(Six(x), g)
         == 4 * SixValue(x[6 * g], x[6 * g + 1], x[6 * g + 2], x[6 * g + 3], x[6 * g + 4], x[6 * g + 5])
  {
    SixLow(x, g);
    SixBit(x, g, 0);
    SixBit(x, g, 1);
    SixBit(x, g, 2);
    SixBit(x, g, 3);
    SixBit(x, g, 4);
    SixBit(x, g, 5);
    ByteFrom(Six(x), x, g);
  }

  lemma IndexOfSix(a: bool, b: bool, c: bool, d: bool, e: bool, f: bool)
    ensures TableIndex(SixValue(a, b, c, d, e, f))
         == 16 * (2 * AsNat(a) + AsNat(f)) + 8 * AsNat(b) + 4 * AsNat(c) + 2 * AsNat(d) + AsNat(e)
  {
    SixBits(a, b, c, d, e, f);
  }

  lemma Quarter(v: nat, j: nat)
    requires v == 4 * j
    ensures v % 4 == 0 && v / 4 == j
  {
  }

  /** A byte of a block in 8*(6+2) form is four times the number that its six bits make. */
  lemma GroupIndex(x: Key48, g: nat)
    requires g < 8
    ensures ByteValue(Six(x), g) % 4 == 0 && ByteValue(Six(x), g) / 4 < 64
    ensures TableIndex(ByteValue(Six(x), g) / 4) == BoxIndex(x, g)
  {
    var v := ByteValue(Six(x), g);
    var j := SixValue(x[6 * g], x[6 * g + 1], x[6 * g + 2], x[6 * g + 3], x[6 * g + 4], x[6 * g + 5]);
    assert v == 4 * j by {
      ByteOfSix(x, g);
    }
    Quarter(v, j);
    assert TableIndex(j) == BoxIndex(x, g) by {
      IndexOfSix(x[6 * g], x[6 * g + 1], x[6 * g + 2], x[6 * g + 3], x[6 * g + 4], x[6 * g + 5]);
    }
  }

  lemma SixLow(x: Key48, g: nat)
    requires g < 8
    ensures !Six(x)[8 * g] && !Six(x)[8 * g + 1]
  {
    assert (8 * g) % 8 == 0 && (8 * g + 1) % 8 == 1;
  }

  /** The two words differ where a swap would matter; where the salt is set too, both are flipped.
      Then the subkey is added. */
  function SaltAndKey(q: Block, kp: Block, salt: Word): (b: Block)
    ensures forall i {:trigger b[i]} | 0 <= i < 64 ::
      b[i] == ((((q[i % 32] != q[i % 32 + 32]) && salt[i % 32]) != q[i]) != kp[i])
  {
    seq(64, i requires 0 <= i < 64 =>
      (((q[i % 32] != q[i % 32 + 32]) && salt[i % 32]) != q[i]) != kp[i])
  }

  lemma SixAt(x: Key48, h: nat, g: nat, c: nat)
    requires h < 2 && g < 4 && c < 8
    ensures Six(x)[32 * h + 8 * g + c] == (c >= 2 && x[24 * h + 6 * g + c - 2])
  {
    var i := 32 * h + 8 * g + c;
    assert i / 8 == 4 * h + g && i % 8 == c;
  }

  lemma SaltedPlace(e: Block, k: Block, salt: Word, h: nat, g: nat, c: nat)
    requires h < 2 && g < 4 && c < 8
    ensures var i := 32 * h + 8 * g + c;
      SaltAndKey(e, k, salt)[i]
        == ((((e[8 * g + c] != e[32 + 8 * g + c]) && salt[8 * g + c]) != e[i]) != k[i])
  {
    var i := 32 * h + 8 * g + c;
    assert i % 32 == 8 * g + c;
  }

  lemma SwappedLow(e: Key48, salt: nat, m: nat)
    requires m < 24
    ensures SaltSwap(e, salt)[m] == if Bit(salt, m) then e[m + 24] else e[m]
  {
  }

  lemma SwappedHigh(e: Key48, salt: nat, i: nat, m: nat)
    requires m < 24 && i == m + 24
    ensures SaltSwap(e, salt)[i] == if Bit(salt, m) then e[m] else e[i]
  {
  }

  lemma SaltedFrom(w: Block, v: Block, salt: nat, e: Key48, k: Key48, h: nat, g: nat, c: nat)
    requires h < 2 && g < 4 && 2 <= c < 8
    requires w[8 * g + c] == e[6 * g + c - 2] && w[32 + 8 * g + c] == e[24 + 6 * g + c - 2]
    requires v[32 * h + 8 * g + c] == k[24 * h + 6 * g + c - 2]
    ensures SaltAndKey(w, v, ToSixBit(salt))[32 * h + 8 * g + c]
         == Xor(SaltSwap(e, salt), k)[24 * h + 6 * g + c - 2]
  {
    var m := 6 * g + c - 2;
    SaltedPlace(w, v, ToSixBit(salt), h, g, c);
    assert ToSixBit(salt)[8 * g + c] == Bit(salt, m) by {
      assert (8 * g + c) / 8 == g && (8 * g + c) % 8 == c;
    }
    if h == 0 {
      SwappedLow(e, salt, m);
    } else {
      SwappedHigh(e, salt, 24 * h + m, m);
    }
  }

  lemma SaltedLow(w: Block, v: Block, s: Word, h: nat, g: nat, c: nat)
    requires h < 2 && g < 4 && c < 2
    requires !s[8 * g + c] && !w[32 * h + 8 * g + c] && !v[32 * h + 8 * g + c]
    ensures !SaltAndKey(w, v, s)[32 * h + 8 * g + c]
  {
    SaltedPlace(w, v, s, h, g, c);
  }

  lemma SaltedBit(e: Key48, k: Key48, salt: nat, h: nat, g: nat, c: nat)
    requires h < 2 && g < 4 && c < 8
    ensures SaltAndKey(Six(e), Six(k), ToSixBit(salt))[32 * h + 8 * g + c]
         == (c >= 2 && Xor(SaltSwap(e, salt), k)[24 * h + 6 * g + c - 2])
  {
    SixAt(k, h, g, c);
    if c >= 2 {
      SixAt(e, 0, g, c);
      SixAt(e, 1, g, c);
      SaltedFrom(Six(e), Six(k), salt, e, k, h, g, c);
    } else {
      SixAt(e, h, g, c);
      assert (8 * g + c) % 8 == c;
      SaltedLow(Six(e), Six(k), ToSixBit(salt), h, g, c);
    }
  }

  lemma SaltedBits(e: Key48, k: Key48, salt: nat)
    ensures SaltAndKey(Six(e), Six(k), ToSixBit(salt)) == Six(Xor(SaltSwap(e, salt), k))
  {
    var a, b := SaltAndKey(Six(e), Six(k), ToSixBit(salt)), Six(Xor(SaltSwap(e, salt), k));
    forall i | 0 <= i < 64 ensures a[i] == b[i] {
      var h, g, c := i / 32, i % 32 / 8, i % 8;
      assert i == 32 * h + 8 * g + c;
      SaltedBit(e, k, salt, h, g, c);
      SixAt(Xor(SaltSwap(e, salt), k), h, g, c);
    }
  }

  /** What the lookups for the first `n` boxes put together, for the 48 bits `x`. */
  ghost predicate Looked(p: Block, now: Block, b: Block, n: nat) {
    forall i {:trigger now[i]} | 0 <= i < 64 ::
      now[i] == (p[i] != (i % 8 >= 2 && Partial(b, n, 6 * (i / 8) + i % 8 - 2)))
  }

  /** The lookups for the first `n` boxes set expanded output bit `e`. */
  ghost predicate Partial(b: Block, n: nat, e: nat)
    requires e < 48
  {
    PSource(e) / 4 < n && Contribution(PSource(e) / 4, ByteValue(b, PSource(e) / 4) / 4, e)
  }

  /** DOXOR: byte `g` looks up the tables of box `g` for both words. It is an offset into a table of
      4-byte words, so it must be a multiple of 4. */
  method DoXor(now: Block, spe: array3<Word>, b: Block, g: nat, ghost p: Block) returns (next: Block)
    requires IsSpe(spe) && g < 8 && Looked(p, now, b, g) && ByteValue(b, g) % 4 == 0
    ensures Looked(p, next, b, g + 1)
  {
    var k := ByteValue(b, g);
    var j := k / 4;
    var x, y := spe[0, g, j], spe[1, g, j];
    assert IsSpeWord(x, 0, g, j) && IsSpeWord(y, 1, g, j);
    next := seq(64, i requires 0 <= i < 64 => now[i] != if i < 32 then x[i] else y[i - 32]);
    forall i | 0 <= i < 64
      ensures next[i] == (p[i] != (i % 8 >= 2 && Partial(b, g + 1, 6 * (i / 8) + i % 8 - 2)))
    {
      LookupBit(x, y, g, j, i);
      if i % 8 >= 2 {
        OneMoreBox(b, g, 6 * (i / 8) + i % 8 - 2);
      }
    }
  }

  lemma LookupBit(x: Word, y: Word, g: nat, j: nat, i: nat)
    requires g < 8 && i < 64 && IsSpeWord(x, 0, g, j) && IsSpeWord(y, 1, g, j)
    ensures (if i < 32 then x[i] else y[i - 32])
         == (i % 8 >= 2 && Contribution(g, j, 6 * (i / 8) + i % 8 - 2))
  {
    if i >= 32 {
      assert (i - 32) % 8 == i % 8 && (i - 32) / 8 == i / 8 - 4;
    }
  }

  lemma OneMoreBox(b: Block, g: nat, e: nat)
    requires g < 8 && e < 48
    ensures Partial(b, g + 1, e) == (Partial(b, g, e) != Contribution(g, ByteValue(b, g) / 4, e))
  {
  }

  lemma SameBox(t: nat, i: nat, j: nat, c: nat)
    requires t < 8 && i == j < 64
    ensures Bit(S(t, i), c) == Bit(S(t, j), c)
  {
  }

  /** The bit of the input to P that box `q / 4` sets. */
  lemma BoxIsSubstitute(x: Key48, q: nat)
    requires q < 32
    ensures BoxSets(q / 4, ByteValue(Six(x), q / 4) / 4, q) == Substitute(x)[q]
  {
    GroupIndex(x, q / 4);
    SameBox(q / 4, TableIndex(ByteValue(Six(x), q / 4) / 4), BoxIndex(x, q / 4), 3 - q % 4);
  }

  /** Once all eight boxes are looked up, each bit is the one the cipher function gives. */
  lemma PartialIsF(x: Key48, e: nat)
    requires e < 48
    ensures Partial(Six(x), 8, e) == PermuteP(Substitute(x))[ExpandTr(e) - 1]
  {
    BoxIsSubstitute(x, PSource(e));
  }

  lemma LookedBit(l: Half, x: Key48, next: Block, i: nat)
    requires Looked(Wide(l), next, Six(x), 8) && i < 64
    ensures next[i] == Wide(Xor(l, PermuteP(Substitute(x))))[i]
  {
    if i % 8 >= 2 {
      PartialIsF(x, 6 * (i / 8) + i % 8 - 2);
    }
  }

  lemma LookedIsF(l: Half, x: Key48, next: Block)
    requires Looked(Wide(l), next, Six(x), 8)
    ensures next == Wide(Xor(l, PermuteP(Substitute(x))))
  {
    forall i | 0 <= i < 64 ensures next[i] == Wide(Xor(l, PermuteP(Substitute(x))))[i] {
      LookedBit(l, x, next, i);
    }
  }

  /** CRUNCH: one round leaves in `p` the expansion of what FIPS 46-3 computes. */
  method Crunch(p: Block, q: Block, kp: Block, salt: Word, spe: array3<Word>,
                ghost l: Half, ghost r: Half, ghost k: Key48, ghost s: nat) returns (next: Block)
    requires IsSpe(spe) && p == Wide(l) && q == Wide(r) && kp == Six(k) && salt == ToSixBit(s)
    ensures next == Wide(Xor(l, F(r, k, s)))
  {
    var b := SaltAndKey(q, kp, salt);
    ghost var x := Xor(SaltSwap(Expand(r), s), k);
    SaltedBits(Expand(r), k, s);
    forall g | 0 <= g < 8 ensures ByteValue(b, g) % 4 == 0 {
      GroupIndex(x, g);
    }
    next := DoXor(p, spe, b, 0, p);
    next := DoXor(next, spe, b, 1, p);
    next := DoXor(next, spe, b, 2, p);
    next := DoXor(next, spe, b, 3, p);
    next := DoXor(next, spe, b, 4, p);
    next := DoXor(next, spe, b, 5, p);
    next := DoXor(next, spe, b, 6, p);
    next := DoXor(next, spe, b, 7, p);
    LookedIsF(l, x, next);
  }
}
