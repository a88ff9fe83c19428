/** DES on one key and one block, round by round, against the answer published for them. */
module DesKnown {
  import opened DesPermute
  import opened DesTables
  import opened DesFips
  import opened DesSchedule
  import opened DesInverse

  type Digit2 = n: nat | n < 2

  /** The bits of a hexadecimal digit, the highest first. */
  datatype Four = Four(a: Digit2, b: Digit2, c: Digit2, d: Digit2) {
    function At(i: nat): nat {
      if i == 0 then a else if i == 1 then b else if i == 2 then c else d
    }

    function Value(): nat {
      if a == 0 then
        if b == 0 then if c == 0 then if d == 0 then 0 else 1 else if d == 0 then 2 else 3
        else if c == 0 then if d == 0 then 4 else 5 else if d == 0 then 6 else 7
      else
        if b == 0 then if c == 0 then if d == 0 then 8 else 9 else if d == 0 then 10 else 11
        else if c == 0 then if d == 0 then 12 else 13 else if d == 0 then 14 else 15
    }
  }

  const H0 := Four(0, 0, 0, 0)
  const H1 := Four(0, 0, 0, 1)
  const H2 := Four(0, 0, 1, 0)
  const H3 := Four(0, 0, 1, 1)
  const H4 := Four(0, 1, 0, 0)
  const H5 := Four(0, 1, 0, 1)
  const H6 := Four(0, 1, 1, 0)
  const H7 := Four(0, 1, 1, 1)
  const H8 := Four(1, 0, 0, 0)
  const H9 := Four(1, 0, 0, 1)
  const HA := Four(1, 0, 1, 0)
  const HB := Four(1, 0, 1, 1)
  const HC := Four(1, 1, 0, 0)
  const HD := Four(1, 1, 0, 1)
  const HE := Four(1, 1, 1, 0)
  const HF := Four(1, 1, 1, 1)

  /** A half block; or half the bits of a key, the last digit unused. */
  datatype Word = Word(w0: Four, w1: Four, w2: Four, w3: Four, w4: Four, w5: Four, w6: Four, w7: Four) {
    function Digit(g: nat): Four {
      if g == 0 then w0 else if g == 1 then w1 else if g == 2 then w2 else if g == 3 then w3
      else if g == 4 then w4 else if g == 5 then w5 else if g == 6 then w6 else w7
    }

    function At(i: nat): nat {
      Digit(i / 4).At(i % 4)
    }
  }

  /** A subkey. */
  datatype Sub = Sub(w0: Four, w1: Four, w2: Four, w3: Four, w4: Four, w5: Four,
                     w6: Four, w7: Four, w8: Four, w9: Four, w10: Four, w11: Four) {
    function Digit(g: nat): Four {
      if g == 0 then w0 else if g == 1 then w1 else if g == 2 then w2 else if g == 3 then w3
      else if g == 4 then w4 else if g == 5 then w5 else if g == 6 then w6 else if g == 7 then w7
      else if g == 8 then w8 else if g == 9 then w9 else if g == 10 then w10 else w11
    }

    function At(i: nat): nat {
      Digit(i / 4).At(i % 4)
    }
  }

  function KeyAt(c: Word, d: Word, j: nat): nat {
    if j < 28 then c.At(j) else d.At(j - 28)
  }

  ghost predicate Shows(h: Half, w: Word) {
    forall i {:trigger h[i]} | 0 <= i < 32 :: AsNat(h[i]) == w.At(i)
  }

  ghost predicate ShowsSub(x: Key48, k: Sub) {
    forall i {:trigger x[i]} | 0 <= i < 48 :: AsNat(x[i]) == k.At(i)
  }

  ghost predicate ShowsKey(x: Key56, c: Word, d: Word) {
    forall j {:trigger x[j]} | 0 <= j < 56 :: AsNat(x[j]) == KeyAt(c, d, j)
  }

  function PWord(s: Word): Word {
    Word(Four(s.w3.d, s.w1.c, s.w4.d, s.w5.a), Four(s.w7.a, s.w2.d, s.w6.d, s.w4.a),
         Four(s.w0.a, s.w3.c, s.w5.c, s.w6.b), Four(s.w1.a, s.w4.b, s.w7.c, s.w2.b),
         Four(s.w0.b, s.w1.d, s.w5.d, s.w3.b), Four(s.w7.d, s.w6.c, s.w0.c, s.w2.a),
         Four(s.w4.c, s.w3.a, s.w7.b, s.w1.b), Four(s.w5.b, s.w2.c, s.w0.d, s.w6.a))
  }

  lemma PWired(s: Word, i: nat)
    requires i < 32
    ensures PWord(s).At(i) == s.At(P32Tr(i) - 1)
  {
  }

  lemma PShows(h: Half, s: Word)
    requires Shows(h, s)
    ensures Shows(PermuteP(h), PWord(s))
  {
    forall i | 0 <= i < 32 ensures AsNat(PermuteP(h)[i]) == PWord(s).At(i) {
      PWired(s, i);
    }
  }

  function X(x: Digit2, y: Digit2): Digit2 {
    if x == y then 0 else 1
  }

  function Xor4(x: Four, y: Four): Four {
    Four(X(x.a, y.a), X(x.b, y.b), X(x.c, y.c), X(x.d, y.d))
  }

  function XorWord(x: Word, y: Word): Word {
    Word(Xor4(x.w0, y.w0), Xor4(x.w1, y.w1), Xor4(x.w2, y.w2), Xor4(x.w3, y.w3),
         Xor4(x.w4, y.w4), Xor4(x.w5, y.w5), Xor4(x.w6, y.w6), Xor4(x.w7, y.w7))
  }

  lemma XorDigit(x: Word, y: Word, g: nat)
    requires g < 8
    ensures XorWord(x, y).Digit(g) == Xor4(x.Digit(g), y.Digit(g))
  {
  }

  lemma XorShows(x: Half, y: Half, v: Word, w: Word)
    requires Shows(x, v) && Shows(y, w)
    ensures Shows(Xor(x, y), XorWord(v, w))
  {
    forall i | 0 <= i < 32 ensures AsNat(Xor(x, y)[i]) == XorWord(v, w).At(i) {
      XorDigit(v, w, i / 4);
    }
  }

  lemma {:induction false} ZeroBits(i: nat)
    ensures !Bit(0, i)
  {
    if i > 0 {
      ZeroBits(i - 1);
    }
  }

  lemma Unsalted(x: Key48)
    ensures SaltSwap(x, 0) == x
  {
    forall i | 0 <= i < 24 ensures !Bit(0, i) {
      ZeroBits(i);
    }
  }

  /** The expanded half. */
  function Spread(r: Word): Sub {
    Sub(Four(r.w7.d, r.w0.a, r.w0.b, r.w0.c), Four(r.w0.d, r.w1.a, r.w0.d, r.w1.a),
        Four(r.w1.b, r.w1.c, r.w1.d, r.w2.a), Four(r.w1.d, r.w2.a, r.w2.b, r.w2.c),
        Four(r.w2.d, r.w3.a, r.w2.d, r.w3.a), Four(r.w3.b, r.w3.c, r.w3.d, r.w4.a),
        Four(r.w3.d, r.w4.a, r.w4.b, r.w4.c), Four(r.w4.d, r.w5.a, r.w4.d, r.w5.a),
        Four(r.w5.b, r.w5.c, r.w5.d, r.w6.a), Four(r.w5.d, r.w6.a, r.w6.b, r.w6.c),
        Four(r.w6.d, r.w7.a, r.w6.d, r.w7.a), Four(r.w7.b, r.w7.c, r.w7.d, r.w0.a))
  }

  lemma SpreadWired0(r: Word, i: nat)
    requires 0 <= i < 16
    ensures Spread(r).At(i) == r.At(ExpandTr(i) - 1)
  {
  }

  lemma SpreadWired1(r: Word, i: nat)
    requires 16 <= i < 32
    ensures Spread(r).At(i) == r.At(ExpandTr(i) - 1)
  {
  }

  lemma SpreadWired2(r: Word, i: nat)
    requires 32 <= i < 48
    ensures Spread(r).At(i) == r.At(ExpandTr(i) - 1)
  {
  }

  lemma SpreadWired(r: Word, i: nat)
    requires i < 48
    ensures Spread(r).At(i) == r.At(ExpandTr(i) - 1)
  {
    if i < 16 {
      SpreadWired0(r, i);
    } else if i < 32 {
      SpreadWired1(r, i);
    } else {
      SpreadWired2(r, i);
    }
  }

  lemma ExpandShows(h: Half, r: Word)
    requires Shows(h, r)
    ensures ShowsSub(Expand(h), Spread(r))
  {
    forall i | 0 <= i < 48 ensures AsNat(Expand(h)[i]) == Spread(r).At(i) {
      SpreadWired(r, i);
    }
  }

  function XorSub(x: Sub, y: Sub): Sub {
    Sub(Xor4(x.w0, y.w0), Xor4(x.w1, y.w1), Xor4(x.w2, y.w2), Xor4(x.w3, y.w3), Xor4(x.w4, y.w4), Xor4(x.w5, y.w5),
        Xor4(x.w6, y.w6), Xor4(x.w7, y.w7), Xor4(x.w8, y.w8), Xor4(x.w9, y.w9), Xor4(x.w10, y.w10), Xor4(x.w11, y.w11))
  }

  lemma XorSubDigit(x: Sub, y: Sub, g: nat)
    requires g < 12
    ensures XorSub(x, y).Digit(g) == Xor4(x.Digit(g), y.Digit(g))
  {
  }

  lemma XorSubShows(x: Key48, y: Key48, v: Sub, w: Sub)
    requires ShowsSub(x, v) && ShowsSub(y, w)
    ensures ShowsSub(Xor(x, y), XorSub(v, w))
  {
    forall i | 0 <= i < 48 ensures AsNat(Xor(x, y)[i]) == XorSub(v, w).At(i) {
      XorSubDigit(v, w, i / 4);
    }
  }

  /** The six bits for a box. */
  datatype Six = Six(a: Digit2, b: Digit2, c: Digit2, d: Digit2, e: Digit2, f: Digit2) {
    /** The row and column they select. */
    function Entry(): nat {
      (if a == 0 then if f == 0 then 0 else 16 else if f == 0 then 32 else 48) + Four(b, c, d, e).Value()
    }
  }

  function SixOf(k: Sub, g: nat): Six {
    if g == 0 then Six(k.w0.a, k.w0.b, k.w0.c, k.w0.d, k.w1.a, k.w1.b)
    else if g == 1 then Six(k.w1.c, k.w1.d, k.w2.a, k.w2.b, k.w2.c, k.w2.d)
    else if g == 2 then Six(k.w3.a, k.w3.b, k.w3.c, k.w3.d, k.w4.a, k.w4.b)
    else if g == 3 then Six(k.w4.c, k.w4.d, k.w5.a, k.w5.b, k.w5.c, k.w5.d)
    else if g == 4 then Six(k.w6.a, k.w6.b, k.w6.c, k.w6.d, k.w7.a, k.w7.b)
    else if g == 5 then Six(k.w7.c, k.w7.d, k.w8.a, k.w8.b, k.w8.c, k.w8.d)
    else if g == 6 then Six(k.w9.a, k.w9.b, k.w9.c, k.w9.d, k.w10.a, k.w10.b)
    else Six(k.w10.c, k.w10.d, k.w11.a, k.w11.b, k.w11.c, k.w11.d)
  }

  lemma SixWired(k: Sub, g: nat)
    requires g < 8
    ensures var x := SixOf(k, g);
      && x.a == k.At(6 * g) && x.b == k.At(6 * g + 1) && x.c == k.At(6 * g + 2)
      && x.d == k.At(6 * g + 3) && x.e == k.At(6 * g + 4) && x.f == k.At(6 * g + 5)
  {
  }

  lemma IndexShows(x: Key48, k: Sub, g: nat)
    requires ShowsSub(x, k) && g < 8
    ensures BoxIndex(x, g) == SixOf(k, g).Entry()
  {
    SixWired(k, g);
  }

  /** Eight numbers, one for each box. */
  datatype Eight = Eight(n0: nat, n1: nat, n2: nat, n3: nat, n4: nat, n5: nat, n6: nat, n7: nat) {
    function Of(g: nat): nat {
      if g == 0 then n0 else if g == 1 then n1 else if g == 2 then n2 else if g == 3 then n3
      else if g == 4 then n4 else if g == 5 then n5 else if g == 6 then n6 else n7
    }
  }

  predicate Selects(x: Sub, ix: Eight) {
    && ix.n0 == SixOf(x, 0).Entry() && ix.n1 == SixOf(x, 1).Entry() && ix.n2 == SixOf(x, 2).Entry()
    && ix.n3 == SixOf(x, 3).Entry() && ix.n4 == SixOf(x, 4).Entry() && ix.n5 == SixOf(x, 5).Entry()
    && ix.n6 == SixOf(x, 6).Entry() && ix.n7 == SixOf(x, 7).Entry()
  }

  /** Looked up at `ix`, the boxes give the digits of `s`. */
  predicate Substitutes(ix: Eight, s: Word) {
    && ix.n0 < 64 && ix.n1 < 64 && ix.n2 < 64 && ix.n3 < 64 && ix.n4 < 64 && ix.n5 < 64 && ix.n6 < 64 && ix.n7 < 64
    && s.w0.Value() == S(0, ix.n0) && s.w1.Value() == S(1, ix.n1) && s.w2.Value() == S(2, ix.n2)
    && s.w3.Value() == S(3, ix.n3) && s.w4.Value() == S(4, ix.n4) && s.w5.Value() == S(5, ix.n5)
    && s.w6.Value() == S(6, ix.n6) && s.w7.Value() == S(7, ix.n7)
  }

  lemma SelectsAt(x: Sub, ix: Eight, g: nat)
    requires Selects(x, ix) && g < 8
    ensures SixOf(x, g).Entry() == ix.Of(g)
  {
  }

  lemma SubstitutesAt(ix: Eight, s: Word, g: nat)
    requires Substitutes(ix, s) && g < 8
    ensures ix.Of(g) < 64 && s.Digit(g).Value() == S(g, ix.Of(g))
  {
  }

  lemma ValueBits(x: Four, c: nat)
    requires c < 4
    ensures AsNat(Bit(x.Value(), 3 - c)) == x.At(c)
  {
    var n := x.Value();
    assert n / 2 == 4 * x.a + 2 * x.b + x.c && n / 2 / 2 == 2 * x.a + x.b && n / 2 / 2 / 2 == x.a;
    assert Bit(n, 1) == Bit(n / 2, 0) && Bit(n, 2) == Bit(n / 2, 1) == Bit(n / 2 / 2, 0);
    assert Bit(n, 3) == Bit(n / 2, 2) == Bit(n / 2 / 2, 1) == Bit(n / 2 / 2 / 2, 0);
  }

  lemma SubstituteShows(x: Key48, k: Sub, ix: Eight, s: Word)
    requires ShowsSub(x, k) && Selects(k, ix) && Substitutes(ix, s)
    ensures Shows(Substitute(x), s)
  {
    forall i | 0 <= i < 32 ensures AsNat(Substitute(x)[i]) == s.At(i) {
      IndexShows(x, k, i / 4);
      SelectsAt(k, ix, i / 4);
      SubstitutesAt(ix, s, i / 4);
      ValueBits(s.Digit(i / 4), i % 4);
    }
  }

  lemma FShows(h: Half, key: Key48, r: Word, k: Sub, ix: Eight, s: Word)
    requires Shows(h, r) && ShowsSub(key, k)
    requires Selects(XorSub(Spread(r), k), ix) && Substitutes(ix, s)
    ensures Shows(F(h, key, 0), PWord(s))
  {
    ExpandShows(h, r);
    Unsalted(Expand(h));
    XorSubShows(Expand(h), key, Spread(r), k);
    SubstituteShows(Xor(Expand(h), key), XorSub(Spread(r), k), ix, s);
    PShows(Substitute(Xor(Expand(h), key)), s);
  }

  // ---------------------------------------------------------------- the key

  /** Half the key's bits, rotated left by one. */
  function Left(c: Word): Word {
    Word(Four(c.w0.b, c.w0.c, c.w0.d, c.w1.a), Four(c.w1.b, c.w1.c, c.w1.d, c.w2.a),
         Four(c.w2.b, c.w2.c, c.w2.d, c.w3.a), Four(c.w3.b, c.w3.c, c.w3.d, c.w4.a),
         Four(c.w4.b, c.w4.c, c.w4.d, c.w5.a), Four(c.w5.b, c.w5.c, c.w5.d, c.w6.a),
         Four(c.w6.b, c.w6.c, c.w6.d, c.w0.a), H0)
  }

  lemma LeftWired(c: Word, i: nat)
    requires i < 28
    ensures Left(c).At(i) == c.At(if i == 27 then 0 else i + 1)
  {
  }

  lemma LeftBit(x: Key56, c: Word, d: Word, j: nat)
    requires ShowsKey(x, c, d) && j < 56
    ensures AsNat(RotateLeft(x, 1)[j]) == KeyAt(Left(c), Left(d), j)
  {
    assert RotFrom(j, 1) == if j == 27 then 0 else if j == 55 then 28 else j + 1;
    if j < 28 {
      LeftWired(c, j);
    } else {
      LeftWired(d, j - 28);
    }
  }

  lemma LeftShows(x: Key56, c: Word, d: Word)
    requires ShowsKey(x, c, d)
    ensures ShowsKey(RotateLeft(x, 1), Left(c), Left(d))
  {
    forall j | 0 <= j < 56 ensures AsNat(RotateLeft(x, 1)[j]) == KeyAt(Left(c), Left(d), j) {
      LeftBit(x, c, d, j);
    }
  }

  lemma RotateTwice(x: Key56)
    ensures RotateLeft(RotateLeft(x, 1), 1) == RotateLeft(x, 2)
  {
  }

  lemma LeftTwice(x: Key56, c: Word, d: Word)
    requires ShowsKey(x, c, d)
    ensures ShowsKey(RotateLeft(x, 2), Left(Left(c)), Left(Left(d)))
  {
    RotateTwice(x);
    LeftShows(x, c, d);
    LeftShows(RotateLeft(x, 1), Left(c), Left(d));
  }

  /** `e` is `c` rotated by one or two. */
  predicate Rotated(r: nat, c: Word, e: Word) {
    (r == 1 && e == Left(c)) || (r == 2 && e == Left(Left(c)))
  }

  lemma RotateShows(x: Key56, c: Word, d: Word, e: Word, f: Word, r: nat)
    requires ShowsKey(x, c, d) && Rotated(r, c, e) && Rotated(r, d, f)
    ensures ShowsKey(RotateLeft(x, r), e, f)
  {
    if r == 1 {
      LeftShows(x, c, d);
    } else {
      LeftTwice(x, c, d);
    }
  }

  function Chosen(c: Word, d: Word): Sub {
    Sub(Four(c.w3.b, c.w4.a, c.w2.c, c.w5.d), Four(c.w0.a, c.w1.a, c.w0.c, c.w6.d),
        Four(c.w3.c, c.w1.b, c.w5.a, c.w2.b), Four(c.w5.c, c.w4.c, c.w2.d, c.w0.d),
        Four(c.w6.b, c.w1.d, c.w3.d, c.w1.c), Four(c.w6.c, c.w4.d, c.w3.a, c.w0.b),
        Four(d.w3.a, d.w5.d, d.w0.c, d.w2.a), Four(d.w4.c, d.w6.c, d.w0.b, d.w2.d),
        Four(d.w5.c, d.w4.a, d.w1.a, d.w4.d), Four(d.w3.d, d.w5.a, d.w2.c, d.w6.d),
        Four(d.w1.b, d.w6.a, d.w4.b, d.w3.b), Four(d.w5.b, d.w1.d, d.w0.a, d.w0.d))
  }

  lemma ChosenWired0(c: Word, d: Word, i: nat)
    requires 0 <= i < 12
    ensures Chosen(c, d).At(i) == KeyAt(c, d, StandardPC2(i) - 1)
  {
  }

  lemma ChosenWired1(c: Word, d: Word, i: nat)
    requires 12 <= i < 24
    ensures Chosen(c, d).At(i) == KeyAt(c, d, StandardPC2(i) - 1)
  {
  }

  lemma ChosenWired2(c: Word, d: Word, i: nat)
    requires 24 <= i < 36
    ensures Chosen(c, d).At(i) == KeyAt(c, d, StandardPC2(i) - 1)
  {
  }

  lemma ChosenWired3(c: Word, d: Word, i: nat)
    requires 36 <= i < 48
    ensures Chosen(c, d).At(i) == KeyAt(c, d, StandardPC2(i) - 1)
  {
  }

  lemma ChosenWired(c: Word, d: Word, i: nat)
    requires i < 48
    ensures Chosen(c, d).At(i) == KeyAt(c, d, StandardPC2(i) - 1)
  {
    if i < 12 {
      ChosenWired0(c, d, i);
    } else if i < 24 {
      ChosenWired1(c, d, i);
    } else if i < 36 {
      ChosenWired2(c, d, i);
    } else {
      ChosenWired3(c, d, i);
    }
  }

  lemma ChooseShows(x: Key56, c: Word, d: Word)
    requires ShowsKey(x, c, d)
    ensures ShowsSub(Choose(x), Chosen(c, d))
  {
    forall i | 0 <= i < 48 ensures AsNat(Choose(x)[i]) == Chosen(c, d).At(i) {
      ChosenWired(c, d, i);
    }
  }

  // ---------------------------------------------------------------- the rounds

  /** The block after the first `i` rounds. */
  ghost function After(x: Pair, ks: seq<Key48>, i: nat): Pair
    requires i <= |ks|
  {
    Rounds(x, ks[..i], 0)
  }

  lemma AfterNext(x: Pair, ks: seq<Key48>, i: nat)
    requires i < |ks|
    ensures After(x, ks, i + 1) == Round(After(x, ks, i), ks[i], 0)
  {
    RoundsAppend(x, ks[..i], ks[i], 0);
    assert ks[..i] + [ks[i]] == ks[..i + 1];
  }

  /** The key's halves before round `i`. */
  ghost function Before(key: Block, i: nat): Key56
    requires i <= 16
  {
    if i == 0 then FirstCD(key) else CD(key, i - 1)
  }

  /** Before a round: both halves of the key and of the block, and then the entries at which that round
      looks up the boxes, and what it finds there. */
  datatype State = State(c: Word, d: Word, l: Word, r: Word, ix: Eight, s: Word)

  ghost predicate Reached(key: Block, block: Block, i: nat, t: State)
    requires i <= 16
  {
    var p := After(Enter(block), Subkeys(key), i);
    ShowsKey(Before(key, i), t.c, t.d) && Shows(p.l, t.l) && Shows(p.r, t.r)
  }

  /** A round, in two parts: the entries that the half and the subkey select; and what the boxes have
      there and becomes of the halves. */
  predicate Selected(t: State, u: State) {
    Selects(XorSub(Spread(t.r), Chosen(u.c, u.d)), t.ix)
  }

  predicate Turned(r: nat, t: State, u: State) {
    && Substitutes(t.ix, t.s)
    && Rotated(r, t.c, u.c) && Rotated(r, t.d, u.d) && u.l == t.r && u.r == XorWord(t.l, PWord(t.s))
  }

  predicate Follows(r: nat, t: State, u: State) {
    Selected(t, u) && Turned(r, t, u)
  }

  ghost predicate FollowsAt(ts: seq<State>, i: nat)
    requires i < 16 && |ts| == 17
  {
    Follows(Rotates(i), ts[i], ts[i + 1])
  }

  lemma Turn(key: Block, block: Block, i: nat, t: State, u: State)
    requires i < 16 && Reached(key, block, i, t) && Follows(Rotates(i), t, u)
    ensures Reached(key, block, i + 1, u)
  {
    RotateShows(Before(key, i), t.c, t.d, u.c, u.d, Rotates(i));
    ChooseShows(CD(key, i), u.c, u.d);
    var p := After(Enter(block), Subkeys(key), i);
    AfterNext(Enter(block), Subkeys(key), i);
    FShows(p.r, Subkey(key, i), t.r, Chosen(u.c, u.d), t.ix, t.s);
    XorShows(p.l, F(p.r, Subkey(key, i), 0), t.l, PWord(t.s));
  }

  lemma {:induction false} Chain(key: Block, block: Block, ts: seq<State>, n: nat)
    requires n <= 16 && |ts| == 17 && Reached(key, block, 0, ts[0]) && forall i | 0 <= i < 16 :: FollowsAt(ts, i)
    ensures Reached(key, block, n, ts[n])
  {
    if n > 0 {
      var i := n - 1;
      Chain(key, block, ts, i);
      assert FollowsAt(ts, i);
      Turn(key, block, i, ts[i], ts[i + 1]);
    }
  }

  // Before the first round, and after each, for the key 133457799BBCDFF1 and the block 0123456789ABCDEF.
  const T0 := State(Word(HF, H0, HC, HC, HA, HA, HF, H0), Word(H5, H5, H6, H6, H7, H8, HF, H0),
    Word(HC, HC, H0, H0, HC, HC, HF, HF), Word(HF, H0, HA, HA, HF, H0, HA, HA),
    Eight(12, 24, 15, 45, 48, 35, 10, 51), Word(H5, HC, H8, H2, HB, H5, H9, H7))
  const T1 := State(Word(HE, H1, H9, H9, H5, H5, HF, H0), Word(HA, HA, HC, HC, HF, H1, HE, H0),
    Word(HF, H0, HA, HA, HF, H0, HA, HA), Word(HE, HF, H4, HA, H6, H5, H4, H4),
    Eight(17, 2, 9, 22, 45, 43, 23, 38), Word(HF, H8, HD, H0, H3, HA, HA, HE))
  const T2 := State(Word(HC, H3, H3, H2, HA, HB, HF, H0), Word(H5, H5, H9, H9, HE, H3, HD, H0),
    Word(HE, HF, H4, HA, H6, H5, H4, H4), Word(HC, HC, H0, H1, H7, H7, H0, H9),
    Eight(38, 19, 41, 4, 47, 1, 31, 5), Word(H2, H7, H1, H0, HE, H1, H6, HF))
  const T3 := State(Word(H0, HC, HC, HA, HA, HF, HF, H0), Word(H5, H6, H6, H7, H8, HF, H5, H0),
    Word(HC, HC, H0, H1, H7, H7, H0, H9), Word(HA, H2, H5, HC, H0, HB, HF, H4),
    Eight(4, 39, 46, 39, 59, 34, 37, 42), Word(H2, H1, HE, HD, H9, HF, H3, HA))
  const T4 := State(Word(H3, H3, H2, HA, HB, HF, HC, H0), Word(H5, H9, H9, HE, H3, HD, H5, H0),
    Word(HA, H2, H5, HC, H0, HB, HF, H4), Word(H7, H7, H2, H2, H0, H0, H4, H5),
    Eight(56, 32, 10, 17, 45, 58, 3, 33), Word(H5, H0, HC, H8, H3, H1, HE, HB))
  const T5 := State(Word(HC, HC, HA, HA, HF, HF, H0, H0), Word(H6, H6, H7, H8, HF, H5, H5, H0),
    Word(H7, H7, H2, H2, H0, H0, H4, H5), Word(H8, HA, H4, HF, HA, H6, H3, H7),
    Eight(52, 39, 30, 48, 32, 21, 37, 0), Word(H4, H1, HF, H3, H4, HC, H3, HD))
  const T6 := State(Word(H3, H2, HA, HB, HF, HC, H3, H0), Word(H9, H9, HE, H3, HD, H5, H5, H0),
    Word(H8, HA, H4, HF, HA, H6, H3, H7), Word(HE, H9, H6, H7, HC, HD, H6, H9),
    Eight(3, 13, 47, 44, 2, 61, 23, 55), Word(H1, H0, H7, H5, H4, H0, HA, HD))
  const T7 := State(Word(HC, HA, HA, HF, HF, H0, HC, H0), Word(H6, H7, H8, HF, H5, H5, H6, H0),
    Word(HE, H9, H6, H7, HC, HD, H6, H9), Word(H0, H6, H4, HA, HB, HA, H1, H0),
    Eight(62, 42, 48, 55, 51, 51, 54, 29), Word(H6, HC, H1, H8, H7, HC, HA, HE))
  const T8 := State(Word(H2, HA, HB, HF, HC, H3, H3, H0), Word(H9, HE, H3, HD, H5, H5, H9, H0),
    Word(H0, H6, H4, HA, HB, HA, H1, H0), Word(HD, H5, H6, H9, H4, HB, H9, H0),
    Eight(33, 51, 1, 60, 9, 20, 38, 32), Word(H1, H1, H0, HC, H5, H7, H7, H7))
  const T9 := State(Word(H5, H5, H7, HF, H8, H6, H6, H0), Word(H3, HC, H7, HA, HA, HB, H3, H0),
    Word(HD, H5, H6, H9, H4, HB, H9, H0), Word(H2, H4, H7, HC, HC, H6, H7, HA),
    Eight(36, 27, 1, 47, 43, 36, 11, 61), Word(HD, HA, H0, H4, H5, H2, H7, H5))
  const T10 := State(Word(H5, H5, HF, HE, H1, H9, H9, H0), Word(HF, H1, HE, HA, HA, HC, HC, H0),
    Word(H2, H4, H7, HC, HC, H6, H7, HA), Word(HB, H7, HD, H5, HD, H7, HB, H2),
    Eight(15, 45, 18, 44, 22, 1, 44, 49), Word(H7, H3, H0, H5, HD, H1, H0, H1))
  const T11 := State(Word(H5, H7, HF, H8, H6, H6, H5, H0), Word(HC, H7, HA, HA, HB, H3, H3, H0),
    Word(HB, H7, HD, H5, HD, H7, HB, H2), Word(HC, H5, H7, H8, H3, HC, H7, H8),
    Eight(18, 30, 36, 18, 33, 47, 8, 12), Word(H7, HB, H8, HB, H2, H6, H3, H5))
  const T12 := State(Word(H5, HF, HE, H1, H9, H9, H5, H0), Word(H1, HE, HA, HA, HC, HC, HF, H0),
    Word(HC, H5, H7, H8, H3, HC, H7, H8), Word(H7, H5, HB, HD, H1, H8, H5, H8),
    Eight(53, 27, 32, 53, 30, 29, 33, 56), Word(H9, HA, HD, H1, H8, HB, H4, HF))
  const T13 := State(Word(H7, HF, H8, H6, H6, H5, H5, H0), Word(H7, HA, HA, HB, H3, H3, HC, H0),
    Word(H7, H5, HB, HD, H1, H8, H5, H8), Word(H1, H8, HC, H3, H1, H5, H5, HA),
    Eight(10, 18, 11, 56, 15, 2, 59, 7), Word(H6, H4, H7, H9, H9, HA, HF, H1))
  const T14 := State(Word(HF, HE, H1, H9, H9, H5, H5, H0), Word(HE, HA, HA, HC, HC, HF, H1, H0),
    Word(H1, H8, HC, H3, H1, H5, H5, HA), Word(HC, H2, H8, HC, H9, H6, H0, HD),
    Eight(27, 46, 27, 10, 30, 63, 62, 24), Word(HB, H2, HE, H8, H8, HD, H3, HC))
  const T15 := State(Word(HF, H8, H6, H6, H5, H5, H7, H0), Word(HA, HA, HB, H3, H3, HC, H7, H0),
    Word(HC, H2, H8, HC, H9, H6, H0, HD), Word(H4, H3, H4, H2, H3, H2, H3, H4),
    Eight(45, 58, 15, 23, 18, 18, 28, 30), Word(HA, H7, H8, H3, H2, H4, H2, H9))
  const T16 := State(Word(HF, H0, HC, HC, HA, HA, HF, H0), Word(H5, H5, H6, H6, H7, H8, HF, H0),
    Word(H4, H3, H4, H2, H3, H2, H3, H4), Word(H0, HA, H4, HC, HD, H9, H9, H5),
    Eight(0, 0, 0, 0, 0, 0, 0, 0), Word(H0, H0, H0, H0, H0, H0, H0, H0))

  function Trace(i: nat): State {
    if i == 0 then T0 else if i == 1 then T1 else if i == 2 then T2 else if i == 3 then T3
    else if i == 4 then T4 else if i == 5 then T5 else if i == 6 then T6 else if i == 7 then T7
    else if i == 8 then T8 else if i == 9 then T9 else if i == 10 then T10 else if i == 11 then T11
    else if i == 12 then T12 else if i == 13 then T13 else if i == 14 then T14 else if i == 15 then T15
    else T16
  }

  lemma Selected0()
    ensures Selected(T0, T1)
  {
  }

  lemma Turned0()
    ensures Turned(1, T0, T1)
  {
  }

  lemma Selected1()
    ensures Selected(T1, T2)
  {
  }

  lemma Turned1()
    ensures Turned(1, T1, T2)
  {
  }

  lemma Selected2()
    ensures Selected(T2, T3)
  {
  }

  lemma Turned2()
    ensures Turned(2, T2, T3)
  {
  }

  lemma Selected3()
    ensures Selected(T3, T4)
  {
  }

  lemma Turned3()
    ensures Turned(2, T3, T4)
  {
  }

  lemma Selected4()
    ensures Selected(T4, T5)
  {
  }

  lemma Turned4()
    ensures Turned(2, T4, T5)
  {
  }

  lemma Selected5()
    ensures Selected(T5, T6)
  {
  }

  lemma Turned5()
    ensures Turned(2, T5, T6)
  {
  }

  lemma Selected6()
    ensures Selected(T6, T7)
  {
  }

  lemma Turned6()
    ensures Turned(2, T6, T7)
  {
  }

  lemma Selected7()
    ensures Selected(T7, T8)
  {
  }

  lemma Turned7()
    ensures Turned(2, T7, T8)
  {
  }

  lemma Selected8()
    ensures Selected(T8, T9)
  {
  }

  lemma Turned8()
    ensures Turned(1, T8, T9)
  {
  }

  lemma Selected9()
    ensures Selected(T9, T10)
  {
  }

  lemma Turned9()
    ensures Turned(2, T9, T10)
  {
  }

  lemma Selected10()
    ensures Selected(T10, T11)
  {
  }

  lemma Turned10()
    ensures Turned(2, T10, T11)
  {
  }

  lemma Selected11()
    ensures Selected(T11, T12)
  {
  }

  lemma Turned11()
    ensures Turned(2, T11, T12)
  {
  }

  lemma Selected12()
    ensures Selected(T12, T13)
  {
  }

  lemma Turned12()
    ensures Turned(2, T12, T13)
  {
  }

  lemma Selected13()
    ensures Selected(T13, T14)
  {
  }

  lemma Turned13()
    ensures Turned(2, T13, T14)
  {
  }

  lemma Selected14()
    ensures Selected(T14, T15)
  {
  }

  lemma Turned14()
    ensures Turned(2, T14, T15)
  {
  }

  lemma Selected15()
    ensures Selected(T15, T16)
  {
  }

  lemma Turned15()
    ensures Turned(1, T15, T16)
  {
  }

  lemma Rounds0To3(i: nat)
    requires 0 <= i <= 3
    ensures Follows(Rotates(i), Trace(i), Trace(i + 1))
  {
    if i == 0 {
      Selected0();
      Turned0();
    } else if i == 1 {
      Selected1();
      Turned1();
    } else if i == 2 {
      Selected2();
      Turned2();
    } else if i == 3 {
      Selected3();
      Turned3();
    }
  }

  lemma Rounds4To7(i: nat)
    requires 4 <= i <= 7
    ensures Follows(Rotates(i), Trace(i), Trace(i + 1))
  {
    if i == 4 {
      Selected4();
      Turned4();
    } else if i == 5 {
      Selected5();
      Turned5();
    } else if i == 6 {
      Selected6();
      Turned6();
    } else if i == 7 {
      Selected7();
      Turned7();
    }
  }

  lemma Rounds8To11(i: nat)
    requires 8 <= i <= 11
    ensures Follows(Rotates(i), Trace(i), Trace(i + 1))
  {
    if i == 8 {
      Selected8();
      Turned8();
    } else if i == 9 {
      Selected9();
      Turned9();
    } else if i == 10 {
      Selected10();
      Turned10();
    } else if i == 11 {
      Selected11();
      Turned11();
    }
  }

  lemma Rounds12To15(i: nat)
    requires 12 <= i <= 15
    ensures Follows(Rotates(i), Trace(i), Trace(i + 1))
  {
    if i == 12 {
      Selected12();
      Turned12();
    } else if i == 13 {
      Selected13();
      Turned13();
    } else if i == 14 {
      Selected14();
      Turned14();
    } else if i == 15 {
      Selected15();
      Turned15();
    }
  }


  lemma AllFollow() returns (ts: seq<State>)
    ensures |ts| == 17 && ts[0] == T0 && ts[16] == T16 && forall i | 0 <= i < 16 :: FollowsAt(ts, i)
  {
    ts := seq(17, i requires 0 <= i < 17 => Trace(i));
    forall i | 0 <= i < 16 ensures FollowsAt(ts, i) {
      if i < 4 {
        Rounds0To3(i);
      } else if i < 8 {
        Rounds4To7(i);
      } else if i < 12 {
        Rounds8To11(i);
      } else {
        Rounds12To15(i);
      }
    }
  }

  // ---------------------------------------------------------------- in and out

  function BlockAt(hi: Word, lo: Word, i: nat): nat {
    if i < 32 then hi.At(i) else lo.At(i - 32)
  }

  /** The bits of a block, in FIPS 46-3's order. */
  ghost predicate ShowsBlock(b: Block, hi: Word, lo: Word) {
    forall i {:trigger b[i]} | 0 <= i < 64 :: AsNat(b[i]) == BlockAt(hi, lo, Flip(i))
  }

  function EnterL(hi: Word, lo: Word): Word {
    Word(Four(lo.w6.b, lo.w4.b, lo.w2.b, lo.w0.b), Four(hi.w6.b, hi.w4.b, hi.w2.b, hi.w0.b),
         Four(lo.w6.d, lo.w4.d, lo.w2.d, lo.w0.d), Four(hi.w6.d, hi.w4.d, hi.w2.d, hi.w0.d),
         Four(lo.w7.b, lo.w5.b, lo.w3.b, lo.w1.b), Four(hi.w7.b, hi.w5.b, hi.w3.b, hi.w1.b),
         Four(lo.w7.d, lo.w5.d, lo.w3.d, lo.w1.d), Four(hi.w7.d, hi.w5.d, hi.w3.d, hi.w1.d))
  }

  function EnterR(hi: Word, lo: Word): Word {
    Word(Four(lo.w6.a, lo.w4.a, lo.w2.a, lo.w0.a), Four(hi.w6.a, hi.w4.a, hi.w2.a, hi.w0.a),
         Four(lo.w6.c, lo.w4.c, lo.w2.c, lo.w0.c), Four(hi.w6.c, hi.w4.c, hi.w2.c, hi.w0.c),
         Four(lo.w7.a, lo.w5.a, lo.w3.a, lo.w1.a), Four(hi.w7.a, hi.w5.a, hi.w3.a, hi.w1.a),
         Four(lo.w7.c, lo.w5.c, lo.w3.c, lo.w1.c), Four(hi.w7.c, hi.w5.c, hi.w3.c, hi.w1.c))
  }

  function LeaveHi(l: Word, r: Word): Word {
    Word(Four(r.w1.d, l.w1.d, r.w3.d, l.w3.d), Four(r.w5.d, l.w5.d, r.w7.d, l.w7.d),
         Four(r.w1.c, l.w1.c, r.w3.c, l.w3.c), Four(r.w5.c, l.w5.c, r.w7.c, l.w7.c),
         Four(r.w1.b, l.w1.b, r.w3.b, l.w3.b), Four(r.w5.b, l.w5.b, r.w7.b, l.w7.b),
         Four(r.w1.a, l.w1.a, r.w3.a, l.w3.a), Four(r.w5.a, l.w5.a, r.w7.a, l.w7.a))
  }

  function LeaveLo(l: Word, r: Word): Word {
    Word(Four(r.w0.d, l.w0.d, r.w2.d, l.w2.d), Four(r.w4.d, l.w4.d, r.w6.d, l.w6.d),
         Four(r.w0.c, l.w0.c, r.w2.c, l.w2.c), Four(r.w4.c, l.w4.c, r.w6.c, l.w6.c),
         Four(r.w0.b, l.w0.b, r.w2.b, l.w2.b), Four(r.w4.b, l.w4.b, r.w6.b, l.w6.b),
         Four(r.w0.a, l.w0.a, r.w2.a, l.w2.a), Four(r.w4.a, l.w4.a, r.w6.a, l.w6.a))
  }

  function FirstC(hi: Word, lo: Word): Word {
    Word(Four(lo.w6.a, lo.w4.a, lo.w2.a, lo.w0.a), Four(hi.w6.a, hi.w4.a, hi.w2.a, hi.w0.a),
         Four(lo.w6.b, lo.w4.b, lo.w2.b, lo.w0.b), Four(hi.w6.b, hi.w4.b, hi.w2.b, hi.w0.b),
         Four(lo.w6.c, lo.w4.c, lo.w2.c, lo.w0.c), Four(hi.w6.c, hi.w4.c, hi.w2.c, hi.w0.c),
         Four(lo.w6.d, lo.w4.d, lo.w2.d, lo.w0.d), H0)
  }

  function FirstD(hi: Word, lo: Word): Word {
    Word(Four(lo.w7.c, lo.w5.c, lo.w3.c, lo.w1.c), Four(hi.w7.c, hi.w5.c, hi.w3.c, hi.w1.c),
         Four(lo.w7.b, lo.w5.b, lo.w3.b, lo.w1.b), Four(hi.w7.b, hi.w5.b, hi.w3.b, hi.w1.b),
         Four(lo.w7.a, lo.w5.a, lo.w3.a, lo.w1.a), Four(hi.w7.a, hi.w5.a, hi.w3.a, hi.w1.a),
         Four(hi.w6.d, hi.w4.d, hi.w2.d, hi.w0.d), H0)
  }

  lemma EnterLWired0(hi: Word, lo: Word, i: nat)
    requires 0 <= i < 16
    ensures EnterL(hi, lo).At(i) == BlockAt(hi, lo, IP(i) - 1)
  {
  }

  lemma EnterLWired1(hi: Word, lo: Word, i: nat)
    requires 16 <= i < 32
    ensures EnterL(hi, lo).At(i) == BlockAt(hi, lo, IP(i) - 1)
  {
  }

  lemma EnterRWired0(hi: Word, lo: Word, i: nat)
    requires 0 <= i < 16
    ensures EnterR(hi, lo).At(i) == BlockAt(hi, lo, IP(i + 32) - 1)
  {
  }

  lemma EnterRWired1(hi: Word, lo: Word, i: nat)
    requires 16 <= i < 32
    ensures EnterR(hi, lo).At(i) == BlockAt(hi, lo, IP(i + 32) - 1)
  {
  }

  lemma LeaveHiWired0(l: Word, r: Word, i: nat)
    requires 0 <= i < 16
    ensures LeaveHi(l, r).At(i) == BlockAt(l, r, FP(i) - 1)
  {
  }

  lemma LeaveHiWired1(l: Word, r: Word, i: nat)
    requires 16 <= i < 32
    ensures LeaveHi(l, r).At(i) == BlockAt(l, r, FP(i) - 1)
  {
  }

  lemma LeaveLoWired0(l: Word, r: Word, i: nat)
    requires 0 <= i < 16
    ensures LeaveLo(l, r).At(i) == BlockAt(l, r, FP(i + 32) - 1)
  {
  }

  lemma LeaveLoWired1(l: Word, r: Word, i: nat)
    requires 16 <= i < 32
    ensures LeaveLo(l, r).At(i) == BlockAt(l, r, FP(i + 32) - 1)
  {
  }

  lemma FirstCWired0(hi: Word, lo: Word, i: nat)
    requires 0 <= i < 16
    ensures FirstC(hi, lo).At(i) == BlockAt(hi, lo, PC1(i) - 1)
  {
  }

  lemma FirstCWired1(hi: Word, lo: Word, i: nat)
    requires 16 <= i < 28
    ensures FirstC(hi, lo).At(i) == BlockAt(hi, lo, PC1(i) - 1)
  {
  }

  lemma FirstDWired0(hi: Word, lo: Word, i: nat)
    requires 0 <= i < 16
    ensures FirstD(hi, lo).At(i) == BlockAt(hi, lo, PC1(i + 28) - 1)
  {
  }

  lemma FirstDWired1(hi: Word, lo: Word, i: nat)
    requires 16 <= i < 28
    ensures FirstD(hi, lo).At(i) == BlockAt(hi, lo, PC1(i + 28) - 1)
  {
  }



  lemma EnterShows(b: Block, hi: Word, lo: Word)
    requires ShowsBlock(b, hi, lo)
    ensures Shows(Enter(b).l, EnterL(hi, lo)) && Shows(Enter(b).r, EnterR(hi, lo))
  {
    forall i | 0 <= i < 32
      ensures AsNat(Enter(b).l[i]) == EnterL(hi, lo).At(i) && AsNat(Enter(b).r[i]) == EnterR(hi, lo).At(i)
    {
      EnterBits(b, hi, lo, i);
    }
  }

  lemma EnterBits(b: Block, hi: Word, lo: Word, i: nat)
    requires ShowsBlock(b, hi, lo) && i < 32
    ensures AsNat(Enter(b).l[i]) == EnterL(hi, lo).At(i) && AsNat(Enter(b).r[i]) == EnterR(hi, lo).At(i)
  {
    FlipTwice(IP(i) - 1);
    FlipTwice(IP(i + 32) - 1);
    if i < 16 {
      EnterLWired0(hi, lo, i);
      EnterRWired0(hi, lo, i);
    } else {
      EnterLWired1(hi, lo, i);
      EnterRWired1(hi, lo, i);
    }
  }

  lemma FirstShows(key: Block, hi: Word, lo: Word)
    requires ShowsBlock(key, hi, lo)
    ensures ShowsKey(FirstCD(key), FirstC(hi, lo), FirstD(hi, lo))
  {
    forall j | 0 <= j < 56 ensures AsNat(FirstCD(key)[j]) == KeyAt(FirstC(hi, lo), FirstD(hi, lo), j) {
      FlipTwice(PC1(j) - 1);
      if j < 16 {
        FirstCWired0(hi, lo, j);
      } else if j < 28 {
        FirstCWired1(hi, lo, j);
      } else if j < 44 {
        FirstDWired0(hi, lo, j - 28);
      } else {
        FirstDWired1(hi, lo, j - 28);
      }
    }
  }

  lemma LeaveBit(x: Pair, l: Word, r: Word, n: nat)
    requires Shows(x.l, l) && Shows(x.r, r) && n < 64
    ensures AsNat((x.l + x.r)[FP(n) - 1]) == BlockAt(LeaveHi(l, r), LeaveLo(l, r), n)
  {
    if n < 16 {
      LeaveHiWired0(l, r, n);
    } else if n < 32 {
      LeaveHiWired1(l, r, n);
    } else if n < 48 {
      LeaveLoWired0(l, r, n - 32);
    } else {
      LeaveLoWired1(l, r, n - 32);
    }
  }

  lemma LeaveShows(x: Pair, l: Word, r: Word)
    requires Shows(x.l, l) && Shows(x.r, r)
    ensures ShowsBlock(Leave(x), LeaveHi(l, r), LeaveLo(l, r))
  {
    forall i | 0 <= i < 64 ensures AsNat(Leave(x)[i]) == BlockAt(LeaveHi(l, r), LeaveLo(l, r), Flip(i)) {
      LeaveBit(x, l, r, Flip(i));
    }
  }

  const KEY_HI := Word(H1, H3, H3, H4, H5, H7, H7, H9)
  const KEY_LO := Word(H9, HB, HB, HC, HD, HF, HF, H1)
  const PLAIN_HI := Word(H0, H1, H2, H3, H4, H5, H6, H7)
  const PLAIN_LO := Word(H8, H9, HA, HB, HC, HD, HE, HF)
  const CIPHER_HI := Word(H8, H5, HE, H8, H1, H3, H5, H4)
  const CIPHER_LO := Word(H0, HF, H0, HA, HB, H4, H0, H5)

  lemma FirstState()
    ensures T0.c == FirstC(KEY_HI, KEY_LO) && T0.d == FirstD(KEY_HI, KEY_LO)
    ensures T0.l == EnterL(PLAIN_HI, PLAIN_LO) && T0.r == EnterR(PLAIN_HI, PLAIN_LO)
  {
  }

  lemma LastState()
    ensures LeaveHi(T16.r, T16.l) == CIPHER_HI && LeaveLo(T16.r, T16.l) == CIPHER_LO
  {
  }

  lemma Starts(key: Block, block: Block)
    requires ShowsBlock(key, KEY_HI, KEY_LO) && ShowsBlock(block, PLAIN_HI, PLAIN_LO)
    ensures Reached(key, block, 0, T0)
  {
    FirstState();
    FirstShows(key, KEY_HI, KEY_LO);
    EnterShows(block, PLAIN_HI, PLAIN_LO);
  }

  lemma OneIteration(key: Block, block: Block)
    ensures Cipher(block, Subkeys(key), 0, 1) == Leave(After(Enter(block), Subkeys(key), 16).Swap())
  {
    var x, ks := Enter(block), Subkeys(key);
    assert ks[..16] == ks;
    IterateOnce(x, ks, 0, 1);
  }

  lemma Ends(key: Block, block: Block)
    requires Reached(key, block, 16, T16)
    ensures ShowsBlock(Cipher(block, Subkeys(key), 0, 1), CIPHER_HI, CIPHER_LO)
  {
    OneIteration(key, block);
    LeaveShows(After(Enter(block), Subkeys(key), 16).Swap(), T16.r, T16.l);
    LastState();
  }

  /** One iteration with the key 133457799BBCDFF1 takes the block 0123456789ABCDEF to 85E813540F0AB405. */
  lemma KnownAnswer(key: Block, block: Block)
    requires ShowsBlock(key, KEY_HI, KEY_LO) && ShowsBlock(block, PLAIN_HI, PLAIN_LO)
    ensures ShowsBlock(Cipher(block, Subkeys(key), 0, 1), CIPHER_HI, CIPHER_LO)
  {
    Starts(key, block);
    var ts := AllFollow();
    Chain(key, block, ts, 16);
    Ends(key, block);
  }
}
