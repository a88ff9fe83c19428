/** crypt.c's static tables and the routines that fill and use them. */
module DesCipher {
  import opened DesPermute
  import opened DesTables
  import opened DesFips
  import opened DesInverse
  import opened DesSchedule
  import opened DesInit
  import opened DesSpe
  import opened DesRound

  // The transformation vectors, whole.

  ghost function Pc1RotAll(): (p: seq<nat>)
    ensures IsPc1Rot(p)
  {
    seq(64, x requires 0 <= x < 64 => Pc1Rot(x))
  }

  ghost function Pc2RotAll(r: nat): (p: seq<nat>)
    ensures IsPc2Rot(p, r)
  {
    seq(64, x requires 0 <= x < 64 => Pc2Rot(x, r))
  }

  ghost function IeAll(): (p: seq<nat>)
    ensures IsIe(p)
  {
    seq(64, x requires 0 <= x < 64 => Ie(x))
  }

  ghost function CfAll(): (p: seq<nat>)
    ensures IsCf(p)
  {
    seq(64, x requires 0 <= x < 64 => Cf(x))
  }

  /** The subkeys in the order in which des_cipher walks them. */
  function Walk(ks: seq<Key48>, forward: bool): seq<Key48> {
    if forward then ks else Reverse(ks)
  }

  lemma {:induction false} ReverseAt(ks: seq<Key48>, i: nat)
    requires i < |ks|
    ensures |Reverse(ks)| == |ks| && Reverse(ks)[i] == ks[|ks| - 1 - i]
  {
    ReverseTwice(ks);
    ReverseTwice(ks[1..]);
    if i < |ks| - 1 {
      ReverseAt(ks[1..], i);
    }
  }

  lemma WalkAt(ks: seq<Key48>, forward: bool, i: nat)
    requires i < |ks| == 16
    ensures |Walk(ks, forward)| == 16
    ensures Walk(ks, forward)[i] == ks[if forward then i else 15 - i]
  {
    ReverseAt(ks, i);
  }

  lemma CipherIsWalk(b: Block, ks: seq<Key48>, salt: nat, n: int)
    ensures Cipher(b, ks, salt, n)
         == Leave(Iterate(Enter(b), Walk(ks, n >= 0), salt, if n >= 0 then n else -n))
  {
  }

  lemma NextRounds(x: Pair, ks: seq<Key48>, salt: nat, i: nat)
    requires i + 1 < |ks|
    ensures Rounds(x, ks[i..], salt) == Rounds(Round(Round(x, ks[i], salt), ks[i + 1], salt), ks[i + 2..], salt)
  {
    var y := Round(x, ks[i], salt);
    assert ks[i..][1..] == ks[i + 1..] && ks[i + 1..][1..] == ks[i + 2..];
    assert Rounds(x, ks[i..], salt) == Rounds(y, ks[i + 1..], salt);
    assert Rounds(y, ks[i + 1..], salt) == Rounds(Round(y, ks[i + 1], salt), ks[i + 2..], salt);
  }

  class Crypt {
    const pc1rot: array2<Block>
    const pc2rot0: array2<Block>
    const pc2rot1: array2<Block>
    const ie3264: array2<Block>
    const cf6464: array2<Block>
    const spe: array3<Word>
    const ks: array<Block>
    var desReady: bool

    ghost predicate Apart()
      reads this
    {
      && pc1rot.Length0 == 16 && pc1rot.Length1 == 16
      && pc2rot0.Length0 == 16 && pc2rot0.Length1 == 16 && pc2rot0 != pc1rot
      && pc2rot1.Length0 == 16 && pc2rot1.Length1 == 16 && pc2rot1 != pc1rot && pc2rot1 != pc2rot0
      && ie3264.Length0 == 16 && ie3264.Length1 == 16
      && ie3264 != pc1rot && ie3264 != pc2rot0 && ie3264 != pc2rot1
      && cf6464.Length0 == 16 && cf6464.Length1 == 16
      && cf6464 != pc1rot && cf6464 != pc2rot0 && cf6464 != pc2rot1 && cf6464 != ie3264
      && spe.Length0 == 2 && spe.Length1 == 8 && spe.Length2 == 64
      && ks.Length == 16
    }

    /** Before init_des the tables are zero, as static storage is; afterwards they represent
        their vectors. */
    ghost predicate Valid()
      reads this, pc1rot, pc2rot0, pc2rot1, ie3264, cf6464, spe
    {
      && Apart()
      && (desReady ==>
            && Represents(pc1rot, Pc1RotAll(), 64)
            && Represents(pc2rot0, Pc2RotAll(1), 64)
            && Represents(pc2rot1, Pc2RotAll(2), 64)
            && Represents(ie3264, IeAll(), 64)
            && Represents(cf6464, CfAll(), 64)
            && IsSpe(spe))
      && (!desReady ==> AllZero(pc1rot) && AllZero(pc2rot0) && AllZero(pc2rot1) && AllZero(ie3264) && AllZero(cf6464))
    }

    /** KS holds the subkeys of `key`, each in 8*(6+2) form. */
    ghost predicate Holds(key: Block)
      reads ks
    {
      ks.Length == 16 && forall i | 0 <= i < 16 :: ks[i] == Six(Subkey(key, i))
    }

    constructor ()
      ensures Valid() && !desReady
      ensures fresh(pc1rot) && fresh(pc2rot0) && fresh(pc2rot1) && fresh(ie3264)
      ensures fresh(cf6464) && fresh(spe) && fresh(ks)
    {
      pc1rot := new Block[16, 16]((i, j) => ZeroBlock);
      pc2rot0 := new Block[16, 16]((i, j) => ZeroBlock);
      pc2rot1 := new Block[16, 16]((i, j) => ZeroBlock);
      ie3264 := new Block[16, 16]((i, j) => ZeroBlock);
      cf6464 := new Block[16, 16]((i, j) => ZeroBlock);
      spe := new Word[2, 8, 64]((h, t, j) => ZeroWord);
      ks := new Block[16](i => ZeroBlock);
      desReady := false;
    }

    method InitDes()
      requires Valid() && !desReady
      modifies pc1rot, pc2rot0, pc2rot1, ie3264, cf6464, spe, `desReady
      ensures Valid() && desReady
    {
      var perm := Pc1RotVector();
      assert perm == Pc1RotAll();
      InitPerm(pc1rot, perm, 8, 8);
      perm := Pc2RotVector(0);
      assert perm == Pc2RotAll(1);
      InitPerm(pc2rot0, perm, 8, 8);
      perm := Pc2RotVector(1);
      assert perm == Pc2RotAll(2);
      InitPerm(pc2rot1, perm, 8, 8);
      perm := IeVector();
      assert perm == IeAll();
      InitPerm(ie3264, perm, 4, 8);
      perm := CfVector();
      assert perm == CfAll();
      InitPerm(cf6464, perm, 8, 8);
      BuildSpe(spe);
      desReady := true;
    }

    /** PERM6464 of `kp` with PC2ROT[r - 1]. */
    method RotateKey(kp: Block, r: nat, ghost cd: Key56) returns (k: Block)
      requires Valid() && desReady && 1 <= r <= 2 && kp == Pack(cd)
      ensures k == Pack(RotateLeft(cd, r))
    {
      if r == 1 {
        k := PermuteRotated(pc2rot0, kp, 1, cd);
      } else {
        k := PermuteRotated(pc2rot1, kp, 2, cd);
      }
    }

    /** One more round's subkey: what is kept in `k` is rotated, and KS gets the part of it that is
        the subkey. */
    method NextSubkey(i: nat, k: Block, ghost key: Block) returns (next: Block)
      requires Valid() && desReady && 1 <= i < 16 && k == Pack(CD(key, i - 1))
      modifies ks
      ensures next == Pack(CD(key, i)) && ks[..] == old(ks[..])[i := Six(Subkey(key, i))]
    {
      ks[i] := k;
      next := RotateKey(ks[i], Rotates(i), CD(key, i - 1));
      NextCD(key, i);
      DropLowOfPack(CD(key, i));
      ks[i] := DropLow(next);
    }

    /** Fills KS with FIPS 46-3's sixteen subkeys. */
    method DesSetKey(key: Block)
      requires Valid()
      modifies pc1rot, pc2rot0, pc2rot1, ie3264, cf6464, spe, ks, `desReady
      ensures Valid() && desReady && Holds(key)
    {
      if !desReady {
        InitDes();
      }
      var k := Permute(key, pc1rot, 8, Pc1RotAll());
      Pc1RotStarts(Pc1RotAll(), key);
      DropLowOfPack(CD(key, 0));
      ks[0] := DropLow(k);
      var i := 1;
      while i < 16
        invariant 1 <= i <= 16 && Valid() && desReady
        invariant k == Pack(CD(key, i - 1))
        invariant forall j | 0 <= j < i :: ks[..][j] == Six(Subkey(key, j))
        modifies ks
      {
        k := NextSubkey(i, k, key);
        i := i + 1;
      }
    }

    /** The sixteen rounds of one iteration: eight times two CRUNCHes. */
    method SixteenRounds(l0: Block, r0: Block, salt: Word, start: int, ksInc: int,
                         ghost key: Block, ghost s: nat, ghost x: Pair) returns (l: Block, r: Block, kp: int, ghost y: Pair)
      requires Valid() && desReady && Holds(key) && salt == ToSixBit(s)
      requires (ksInc == 1 && start == 0) || (ksInc == -1 && start == 15)
      requires l0 == Wide(x.l) && r0 == Wide(x.r)
      ensures y == Rounds(x, Walk(Subkeys(key), ksInc == 1), s)
      ensures l == Wide(y.l) && r == Wide(y.r) && kp == start + 16 * ksInc
    {
      ghost var walk := Walk(Subkeys(key), ksInc == 1);
      WalkAt(Subkeys(key), ksInc == 1, 0);
      l, r, kp, y := l0, r0, start, x;
      var loopCount := 8;
      ghost var i := 0;
      assert walk[0..] == walk;
      while loopCount != 0
        invariant 0 <= loopCount <= 8 && i == 16 - 2 * loopCount
        invariant kp == if ksInc == 1 then i else 15 - i
        invariant Rounds(y, walk[i..], s) == Rounds(x, walk, s)
        invariant l == Wide(y.l) && r == Wide(y.r)
      {
        l, r, y := TwoRounds(l, r, salt, kp, ksInc, key, s, y, i);
        kp := kp + 2 * ksInc;
        i := i + 2;
        loopCount := loopCount - 1;
      }
      assert walk[16..] == [];
    }

    /** CRUNCH(L0, L1, R0, R1); CRUNCH(R0, R1, L0, L1); */
    method TwoRounds(l0: Block, r0: Block, salt: Word, kp: int, ksInc: int,
                     ghost key: Block, ghost s: nat, ghost x: Pair, ghost i: nat) returns (l: Block, r: Block, ghost y: Pair)
      requires Valid() && desReady && Holds(key) && salt == ToSixBit(s) && i < 15
      requires (ksInc == 1 && kp == i) || (ksInc == -1 && kp == 15 - i)
      requires l0 == Wide(x.l) && r0 == Wide(x.r)
      ensures |Walk(Subkeys(key), ksInc == 1)| == 16
      ensures var walk := Walk(Subkeys(key), ksInc == 1); Rounds(y, walk[i + 2..], s) == Rounds(x, walk[i..], s)
      ensures l == Wide(y.l) && r == Wide(y.r)
    {
      ghost var y1;
      l, y1 := OneRound(l0, r0, salt, kp, ksInc, key, s, x, i);
      r, y := OneRound(r0, l, salt, kp + ksInc, ksInc, key, s, y1, i + 1);
      NextRounds(x, Walk(Subkeys(key), ksInc == 1), s, i);
    }

    method OneRound(p: Block, q: Block, salt: Word, kp: int, ksInc: int,
                    ghost key: Block, ghost s: nat, ghost x: Pair, ghost i: nat) returns (next: Block, ghost y: Pair)
      requires Valid() && desReady && Holds(key) && salt == ToSixBit(s) && i < 16
      requires (ksInc == 1 && kp == i) || (ksInc == -1 && kp == 15 - i)
      requires p == Wide(x.l) && q == Wide(x.r)
      ensures |Walk(Subkeys(key), ksInc == 1)| == 16 && y == Round(x, Walk(Subkeys(key), ksInc == 1)[i], s)
      ensures next == Wide(y.r) && q == Wide(y.l)
    {
      WalkAt(Subkeys(key), ksInc == 1, i);
      ghost var k := Walk(Subkeys(key), ksInc == 1)[i];
      next := Crunch(p, q, ks[kp], salt, spe, x.l, x.r, k, s);
      y := Round(x, k, s);
    }

    /** The tables are built, and the key's schedule and the salt are in their words. */
    ghost predicate Ready(key: Block, salted: Word, low: nat)
      reads this, pc1rot, pc2rot0, pc2rot1, ie3264, cf6464, spe, ks
    {
      Valid() && desReady && Holds(key) && salted == ToSixBit(low)
    }

    /** Where the walk through KS starts, and which way it goes. */
    static ghost predicate Starts(start: int, ksInc: int, key: Block, walk: seq<Key48>) {
      walk == Walk(Subkeys(key), ksInc == 1) && if ksInc == 1 then start == 0 else start == 15 && ksInc == -1
    }

    static ghost predicate Stand(l: Block, r: Block, x: Pair) {
      l == Wide(x.l) && r == Wide(x.r)
    }

    /** One iteration: sixteen rounds and an exchange of the halves. */
    method Iteration(l0: Block, r0: Block, salted: Word, start: int, ksInc: int,
                     ghost key: Block, ghost low: nat, ghost x0: Pair, ghost walk: seq<Key48>)
      returns (l: Block, r: Block, kp: int, ghost x: Pair)
      requires Ready(key, salted, low) && Starts(start, ksInc, key, walk) && Stand(l0, r0, x0)
      ensures Stand(l, r, Rounds(x0, walk, low).Swap()) && kp == start
      ensures x == Rounds(x0, walk, low).Swap()
    {
      ghost var y;
      l, r, kp, y := SixteenRounds(l0, r0, salted, start, ksInc, key, low, x0);
      kp := kp - ksInc * 16;
      l, r := XorSwap(l, r);
      x := y.Swap();
    }

    /** The loop of des_cipher. */
    method Iterations(l0: Block, r0: Block, salted: Word, numIter: int, ghost key: Block, ghost low: nat, ghost x0: Pair)
      returns (l: Block, r: Block, ghost x: Pair)
      requires Ready(key, salted, low) && Stand(l0, r0, x0)
      ensures x == Iterate(x0, Walk(Subkeys(key), numIter >= 0), low, if numIter >= 0 then numIter else -numIter)
      ensures var y := Iterate(x0, Walk(Subkeys(key), numIter >= 0), low, if numIter >= 0 then numIter else -numIter);
        l == Wide(y.l) && r == Wide(y.r)
    {
      l, r, x := l0, r0, x0;
      var n, kp, ksInc := numIter, 0, 1;
      if numIter < 0 {
        n, kp, ksInc := -numIter, 15, -1;
      }
      ghost var start, walk := kp, Walk(Subkeys(key), ksInc == 1);
      ghost var goal := Iterate(x0, walk, low, n);
      while n > 0
        invariant 0 <= n && kp == start && Stand(l, r, x)
        invariant Iterate(x, walk, low, n) == goal
      {
        IterateOnce(x, walk, low, n);
        l, r, kp, x := Iteration(l, r, salted, kp, ksInc, key, low, x, walk);
        n := n - 1;
      }
    }

    /** `abs(numIter)` iterations of DES, backwards if `numIter` is negative; of the salt, a
        long of either sign, TO_SIX_BIT takes the low 24 bits. */
    method DesCipher(input: Block, salt: int, numIter: int, ghost key: Block) returns (out: Block)
      requires Valid() && desReady && Holds(key)
      ensures out == Cipher(input, Subkeys(key), salt % 0x100_0000, numIter)
    {
      var low: nat := salt % 0x100_0000;
      var salted := ToSixBit(low);
      var even, odd := EvenBits(input), OddBits(input);
      var l := Permute(even, ie3264, 4, IeAll());
      var r := Permute(odd, ie3264, 4, IeAll());
      IeEnters(IeAll(), input);
      ghost var x;
      l, r, x := Iterations(l, r, salted, numIter, key, low, Enter(input));
      CipherIsWalk(input, Subkeys(key), low, numIter);
      var packed := Compress(l, r);
      WideHoldsHalf(x.l);
      WideHoldsHalf(x.r);
      CfLeaves(CfAll(), l, r, x);
      out := Permute(packed, cf6464, 8, CfAll());
    }

    /** setkey: the key is given one bit to a char, in FIPS 46-3's order. */
    method SetKey(key: seq<bool>)
      requires Valid() && |key| == 64
      modifies pc1rot, pc2rot0, pc2rot1, ie3264, cf6464, spe, ks, `desReady
      ensures Valid() && desReady && Holds(FromChars(key))
    {
      var keyblock := PackChars(key);
      DesSetKey(keyblock);
    }

    /** encrypt: one unsalted iteration in place on 64 chars; `flag` asks to decrypt. */
    method Encrypt(block: array<bool>, flag: bool, ghost key: seq<bool>)
      requires Valid() && desReady && |key| == 64 && Holds(FromChars(key)) && block.Length == 64
      modifies block
      ensures block[..] == Encrypted(old(block[..]), key, flag)
    {
      var cblock := PackChars(block[..]);
      cblock := DesCipher(cblock, 0, if flag then -1 else 1, FromChars(key));
      UnpackChars(cblock, block);
    }
  }

  /** A permutation by the table of PC2ROT for `r` rotates the key's halves. */
  method PermuteRotated(perm: array2<Block>, kp: Block, r: nat, ghost cd: Key56) returns (k: Block)
    requires Represents(perm, Pc2RotAll(r), 64) && kp == Pack(cd)
    ensures k == Pack(RotateLeft(cd, r))
  {
    Pc2RotContinues(Pc2RotAll(r), r, cd);
    k := Permute(kp, perm, 8, Pc2RotAll(r));
  }

  ghost predicate AllZero(perm: array2<Block>)
    requires perm.Length0 == 16 && perm.Length1 == 16
    reads perm
  {
    forall i, j | 0 <= i < 16 && 0 <= j < 16 :: perm[i, j] == ZeroBlock
  }

  /** Exchanging two blocks by three exclusive ors. */
  method XorSwap(a: Block, b: Block) returns (l: Block, r: Block)
    ensures l == b && r == a
  {
    l, r := a, b;
    l := Xor(l, r);
    r := Xor(r, l);
    l := Xor(l, r);
  }

  /** 64 chars of one bit each, in FIPS 46-3's order, as a block. */
  function FromChars(c: seq<bool>): (b: Block)
    requires |c| == 64
    ensures forall i {:trigger b[i]} | 0 <= i < 64 :: b[i] == c[Flip(i)]
  {
    seq(64, i requires 0 <= i < 64 => c[Flip(i)])
  }

  function ToChars(b: Block): (c: seq<bool>)
    ensures |c| == 64 && forall n {:trigger c[n]} | 0 <= n < 64 :: c[n] == b[Flip(n)]
  {
    seq(64, n requires 0 <= n < 64 => b[Flip(n)])
  }

  /** Shifts eight chars into each of eight bytes, the first of them ending highest. */
  method PackChars(c: seq<bool>) returns (b: Block)
    requires |c| == 64
    ensures b == FromChars(c)
  {
    b := ZeroBlock;
    var i := 0;
    while i < 8
      invariant i <= 8
      invariant forall n | 0 <= n < 8 * i :: b[n] == c[Flip(n)]
    {
      var k := seq(8, _ => false);
      var j := 0;
      while j < 8
        invariant j <= 8 && |k| == 8
        invariant forall m | 0 <= m < j :: k[m] == c[8 * i + j - 1 - m]
      {
        k := [c[8 * i + j]] + k[..7];
        j := j + 1;
      }
      b := b[..8 * i] + k + b[8 * i + 8..];
      i := i + 1;
    }
    assert b == FromChars(c);
  }

  /** Shifts the bits of each byte out again, lowest first, from the last char back. */
  method UnpackChars(b: Block, chars: array<bool>)
    requires chars.Length == 64
    modifies chars
    ensures chars[..] == ToChars(b)
  {
    var i := 8;
    while i > 0
      invariant 0 <= i <= 8
      invariant forall n | 8 * i <= n < 64 :: chars[n] == b[Flip(n)]
    {
      i := i - 1;
      var k := b[8 * i..8 * i + 8];
      var j := 8;
      while j > 0
        invariant 0 <= j <= 8 && |k| == j
        invariant forall m | 0 <= m < j :: k[m] == b[8 * i + 8 - j + m]
        invariant forall n | 8 * i + j <= n < 64 :: chars[n] == b[Flip(n)]
      {
        j := j - 1;
        FlipAt(i, j);
        chars[8 * i + j] := k[0];
        k := k[1..];
      }
    }
    assert chars[..] == ToChars(b);
  }

  /** What encrypt leaves in its block. */
  function Encrypted(block: seq<bool>, key: seq<bool>, flag: bool): seq<bool>
    requires |block| == 64 && |key| == 64
  {
    ToChars(Cipher(FromChars(block), Subkeys(FromChars(key)), 0, if flag then -1 else 1))
  }

  /** Decrypting what was encrypted, or the other way about, restores every block. */
  lemma EncryptRestores(block: seq<bool>, key: seq<bool>, flag: bool)
    requires |block| == 64 && |key| == 64
    ensures Encrypted(Encrypted(block, key, flag), key, !flag) == block
  {
    var b, ks, n := FromChars(block), Subkeys(FromChars(key)), if flag then -1 else 1;
    var e := Cipher(b, ks, 0, n);
    forall i | 0 <= i < 64 ensures FromChars(ToChars(e))[i] == e[i] {
      FlipTwice(i);
    }
    assert FromChars(ToChars(e)) == e;
    CipherUndoes(b, ks, 0, n);
    forall i | 0 <= i < 64 ensures ToChars(b)[i] == block[i] {
      FlipTwice(i);
    }
    assert ToChars(b) == block;
  }
}
